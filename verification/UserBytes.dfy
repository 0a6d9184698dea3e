/** Bytes of virtual memory, seen through the page tables. */
module UserBytes {
  import opened Bits
  import opened Wrappers
  import opened Paging
  import opened PageEntries
  import opened Mapping
  import opened Ownership

  /** The lower half of the address space, where programs live. */
  const USER_END: nat := 0x8000_0000_0000

  function FrameByte(f: Frame, k: nat): Byte
    requires k < 4096
  {
    GetByte(f[k / 8], k % 8)
  }

  function WithByte(f: Frame, k: nat, b: Byte): (r: Frame)
    requires k < 4096
    ensures forall j: nat | j < 4096 :: FrameByte(r, j) == if j == k then b else FrameByte(f, j)
  {
    assert forall j: nat | j < 8 ::
        GetByte(SetWordByte(f[k / 8], k % 8, b), j) == if j == k % 8 then b else GetByte(f[k / 8], j) by {
      forall j: nat | j < 8
        ensures GetByte(SetWordByte(f[k / 8], k % 8, b), j) == if j == k % 8 then b else GetByte(f[k / 8], j)
      {
        GetSetByte(f[k / 8], k % 8, b, j);
      }
    }
    f[k / 8 := SetWordByte(f[k / 8], k % 8, b)]
  }

  /** The physical address that `va` translates to. */
  function PhysicalOf(s: Paged, va: Word): Option<nat> {
    var leaf := Translate(s, PageOf(va));
    if leaf.None? || leaf.value.level != 1 then None
    else Some(FrameOf(leaf.value.entry) * 4096 + va % 4096)
  }

  /** Byte `k` of page `v`, which has a frame of its own. */
  function PageByte(s: Paged, v: nat, k: nat): Byte
    requires Translate(s, v).Some? && FrameOf(Translate(s, v).value.entry) < |s.mem| && k < 4096
  {
    FrameByte(s.mem[FrameOf(Translate(s, v).value.entry)], k)
  }

  /** The state with one byte of frame `f` written. */
  function Poke(s: Paged, f: nat, k: nat, b: Byte): Paged
    requires f < |s.mem| && k < 4096
  {
    s.(mem := s.mem[f := WithByte(s.mem[f], k, b)])
  }

  /** Writing to a page's own frame changes no table, so no translation. */
  lemma PokeKeepsTables(s: Paged, owner: map<nat, nat>, f: nat, k: nat, b: Byte)
    requires Sound(s) && Owns(s, owner) && f in owner && k < 4096 && f < |s.mem|
    ensures Sound(Poke(s, f, k, b)) && SameTranslation(s, Poke(s, f, k, b)) && Owns(Poke(s, f, k, b), owner)
    ensures forall r :: TableOn(Poke(s, f, k, b).mem, s.root, r) == TableOn(s.mem, s.root, r)
  {
    var s' := Poke(s, f, k, b);
    assert OwnFrame(s, owner[f], f);
    SameTree(s.mem, s'.mem, s.root, s.place);
    forall w
      ensures Translate(s', w) == Translate(s, w)
    {
      SameTables(s.mem, s'.mem, s.root, s.place, s.root, w);
    }
    forall g | g in owner
      ensures OwnFrame(s', owner[g], g)
    {
      assert OwnFrame(s, owner[g], g);
    }
    forall r
      ensures TableOn(s'.mem, s.root, r) == TableOn(s.mem, s.root, r)
    {
      SameRoutes(s.mem, s'.mem, s.root, s.place, r);
    }
  }

  /** The frame that page `v` has to itself. */
  lemma OwnedFrame(s: Paged, owner: map<nat, nat>, v: nat)
    requires Owns(s, owner) && HasOwn(s, owner, v)
    ensures var f := FrameOf(Translate(s, v).value.entry); f in owner && owner[f] == v && f < |s.mem| && f !in s.place
  {
  }

  /** Between two states only the contents of owned pages differ. */
  ghost predicate SamePages(s: Paged, s': Paged, owner: map<nat, nat>) {
    && Sound(s') && Owns(s', owner) && SameTranslation(s, s')
    && s'.free == s.free && s'.root == s.root && s'.place == s.place && |s'.mem| == |s.mem|
    && (forall r :: TableOn(s'.mem, s'.root, r) == TableOn(s.mem, s.root, r))
  }

  /** The bytes of all owned pages are those of `s`, except that `data` was stored from address `lo` on. */
  ghost predicate Stored(s: Paged, s': Paged, owner: map<nat, nat>, lo: nat, data: seq<Byte>)
    requires Owns(s, owner)
  {
    && SamePages(s, s', owner)
    && forall v: nat, k: nat {:trigger HasOwn(s, owner, v), Linear(v, k)} | v < PAGES && k < 4096
    && HasOwn(s, owner, v) ::
         StoredByte(s, s', owner, lo, data, v, k)
  }

  ghost predicate StoredByte(s: Paged, s': Paged, owner: map<nat, nat>, lo: nat, data: seq<Byte>, v: nat, k: nat)
    requires Owns(s, owner) && SamePages(s, s', owner) && v < PAGES && k < 4096 && HasOwn(s, owner, v)
  {
    OwnedFrame(s, owner, v);
    PageByte(s', v, k) == if lo <= Linear(v, k) < lo + |data| then data[Linear(v, k) - lo] else PageByte(s, v, k)
  }

  /** The 48-bit address of byte `k` of page `v`. */
  function Linear(v: nat, k: nat): nat { v * 4096 + k }

  lemma NothingStored(s: Paged, owner: map<nat, nat>, lo: nat)
    requires Sound(s) && Owns(s, owner)
    ensures Stored(s, s, owner, lo, [])
  {
    forall v: nat, k: nat | v < PAGES && k < 4096 && HasOwn(s, owner, v)
      ensures StoredByte(s, s, owner, lo, [], v, k)
    {
      OwnedFrame(s, owner, v);
    }
  }

  /** Storing one byte. */
  lemma PokeStores(s: Paged, owner: map<nat, nat>, v: nat, k: nat, b: Byte)
    requires Sound(s) && Owns(s, owner) && HasOwn(s, owner, v) && v < PAGES && k < 4096
    requires FrameOf(Translate(s, v).value.entry) < |s.mem|
    ensures Stored(s, Poke(s, FrameOf(Translate(s, v).value.entry), k, b), owner, Linear(v, k), [b])
  {
    var f := FrameOf(Translate(s, v).value.entry);
    var s' := Poke(s, f, k, b);
    PokeKeepsTables(s, owner, f, k, b);
    forall w: nat, j: nat | w < PAGES && j < 4096 && HasOwn(s, owner, w)
      ensures StoredByte(s, s', owner, Linear(v, k), [b], w, j)
    {
      PokeStoresAt(s, owner, v, k, b, w, j);
    }
  }

  lemma PokeStoresAt(s: Paged, owner: map<nat, nat>, v: nat, k: nat, b: Byte, w: nat, j: nat)
    requires Owns(s, owner) && HasOwn(s, owner, v) && v < PAGES && k < 4096
    requires HasOwn(s, owner, w) && w < PAGES && j < 4096
    requires var f := FrameOf(Translate(s, v).value.entry); f < |s.mem| && SamePages(s, Poke(s, f, k, b), owner)
    ensures StoredByte(s, Poke(s, FrameOf(Translate(s, v).value.entry), k, b), owner, Linear(v, k), [b], w, j)
  {
    OwnedFrame(s, owner, v);
    OwnedFrame(s, owner, w);
    var f, g := FrameOf(Translate(s, v).value.entry), FrameOf(Translate(s, w).value.entry);
    assert f == g <==> v == w;
    assert Linear(v, k) == Linear(w, j) <==> v == w && k == j;
    assert Poke(s, f, k, b).mem[g] == if f == g then WithByte(s.mem[f], k, b) else s.mem[g];
  }

  /** Stores to consecutive addresses add up. */
  lemma StoredThenStored(s0: Paged, s1: Paged, s2: Paged, owner: map<nat, nat>, lo: nat, data: seq<Byte>, b: Byte)
    requires Owns(s0, owner) && Stored(s0, s1, owner, lo, data) && Stored(s1, s2, owner, lo + |data|, [b])
    ensures Stored(s0, s2, owner, lo, data + [b])
  {
    forall v: nat, k: nat | v < PAGES && k < 4096 && HasOwn(s0, owner, v)
      ensures StoredByte(s0, s2, owner, lo, data + [b], v, k)
    {
      assert StoredByte(s0, s1, owner, lo, data, v, k);
      assert HasOwn(s1, owner, v);
      assert StoredByte(s1, s2, owner, lo + |data|, [b], v, k);
    }
  }

  /** Every page that the `n` bytes from `lo` on touch has a frame of its own. */
  ghost predicate OwnsRange(s: Paged, owner: map<nat, nat>, lo: nat, n: nat) {
    n > 0 ==> forall v: nat :: lo / 4096 <= v && v * 4096 < lo + n ==> HasOwn(s, owner, v)
  }

  lemma InOwnedRange(s: Paged, owner: map<nat, nat>, lo: nat, n: nat, i: nat)
    requires OwnsRange(s, owner, lo, n) && i < n && lo + n <= USER_END
    ensures HasOwn(s, owner, PageOf(lo + i))
  {
  }

  lemma SplitAddress(a: Word)
    requires a < USER_END
    ensures PageOf(a) == a / 4096 && Linear(PageOf(a), a % 4096) == a
  {
  }

  /** The `size` bytes from `lo` on translate to the physical bytes from `phys` on. */
  ghost predicate MapsTo(s: Paged, lo: nat, size: nat, phys: nat) {
    forall va: Word :: lo <= va < lo + size ==> PhysicalOf(s, va) == Some(phys + (va - lo))
  }

  /** Where the bytes of a mapped range are. */
  lemma RangeTranslates(s: Paged, v: nat, n: nat, f: nat, flags: Word, from: nat, size: nat)
    requires forall w: nat :: v <= w < v + n ==> MappedTo(s, v, f, flags, w)
    requires 4096 * (v + n) <= USER_END && from + size <= 4096 * n
    ensures MapsTo(s, 4096 * v + from, size, 4096 * f + from)
  {
    forall va: Word | 4096 * v + from <= va < 4096 * v + from + size
      ensures PhysicalOf(s, va) == Some(4096 * f + (va - 4096 * v))
    {
      RangeTranslatesAt(s, v, n, f, flags, va);
    }
  }

  lemma RangeTranslatesAt(s: Paged, v: nat, n: nat, f: nat, flags: Word, va: Word)
    requires 4096 * v <= va < 4096 * (v + n) <= USER_END && MappedTo(s, v, f, flags, va / 4096)
    ensures PhysicalOf(s, va) == Some(4096 * f + (va - 4096 * v))
  {
    SplitAddress(va);
    InMappedFrame(s, v, f, flags, va / 4096, va);
    SamePlaceInFrame(v, f, va / 4096, va);
  }

  /** Page `w` of the range lies `w - v` frames behind `f`. */
  lemma InMappedFrame(s: Paged, v: nat, f: nat, flags: Word, w: nat, va: Word)
    requires PageOf(va) == w && MappedTo(s, v, f, flags, w)
    ensures f + w >= v && PhysicalOf(s, va) == Some((f + w - v) * 4096 + va % 4096)
  {
  }

  /** An address lies as far into its frame as into its page. */
  lemma SamePlaceInFrame(v: nat, f: nat, w: nat, va: nat)
    requires w == va / 4096 && f + w >= v
    ensures (f + w - v) * 4096 + va % 4096 == 4096 * f + (va - 4096 * v)
  {
  }
}
