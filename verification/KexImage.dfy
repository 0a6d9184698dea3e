/** The memory image that loading a KEX file leaves, and what keeps it. */
module KexImage {
  import opened Bits
  import opened Bytes
  import opened Paging
  import opened Mapping
  import opened Ownership
  import opened UserBytes
  import opened KexFormat

  const STACK_PAGE: nat := 0x7FF

  /** The bytes a program expects at a segment's address: the file's bytes, then zeros. */
  function SegmentImage(file: seq<Byte>, l: Load): (r: seq<Byte>)
    requires l.fileOffset + l.fileSize <= |file| && l.fileSize <= l.memSize
    ensures |r| == l.memSize
  {
    file[l.fileOffset..l.fileOffset + l.fileSize] + Zeros(l.memSize - l.fileSize)
  }

  /** How many pages the loader maps for a segment, from the page of its address on. */
  function PageCount(l: Load): nat { (l.memSize + 4095) / 4096 }

  function FirstPage(l: Load): nat { l.rva / 4096 }

  predicate InPages(l: Load, w: nat) { FirstPage(l) <= w < FirstPage(l) + PageCount(l) }

  predicate ByteInPages(l: Load, k: nat) { InPages(l, (l.rva + k) / 4096) }

  /** Do the pages the loader maps contain the whole segment? Always so when the address is page-aligned. */
  predicate Covered(l: Load) { l.memSize == 0 || l.rva % 4096 + l.memSize <= 4096 * PageCount(l) }

  /** Exactly then every byte of the segment lies on a page mapped for it. */
  lemma CoveredExactly(l: Load)
    ensures Covered(l) <==> forall k: nat :: k < l.memSize ==> ByteInPages(l, k)
    ensures l.rva % 4096 == 0 ==> Covered(l)
  {
    if Covered(l) {
      forall k: nat | k < l.memSize
        ensures ByteInPages(l, k)
      {
        assert l.rva + k < 4096 * (l.rva / 4096 + PageCount(l));
      }
    } else {
      assert !ByteInPages(l, l.memSize - 1);
    }
  }

  /** The loader's silent assumptions about one segment of a file. */
  predicate SegmentFits(file: seq<Byte>, l: Load) {
    && l.fileOffset + l.fileSize <= |file| && l.fileSize <= l.memSize
    && l.rva + l.memSize + 4096 <= USER_END && Covered(l)
  }

  ghost predicate ApartPages(a: Load, b: Load) {
    forall w: nat :: !(InPages(a, w) && InPages(b, w))
  }

  /** The segments fit, and neither they nor the stack share a page. */
  ghost predicate Fits(file: seq<Byte>, loads: seq<Load>) {
    && (forall i :: 0 <= i < |loads| ==> SegmentFits(file, loads[i]) && !InPages(loads[i], STACK_PAGE))
    && (forall i, j :: 0 <= i < j < |loads| ==> ApartPages(loads[i], loads[j]))
  }

  /** Byte address `a` lies on a page with a frame of its own and holds `b`. */
  ghost predicate ByteIs(s: Paged, owner: map<nat, nat>, a: nat, b: Byte)
    requires Owns(s, owner)
  {
    && HasOwn(s, owner, a / 4096)
    && (OwnedFrame(s, owner, a / 4096); PageByte(s, a / 4096, a % 4096) == b)
  }

  /** The bytes from address `lo` on are `data`. */
  ghost predicate Holds(s: Paged, owner: map<nat, nat>, lo: nat, data: seq<Byte>)
    requires Owns(s, owner)
  {
    forall k: nat :: k < |data| ==> ByteIs(s, owner, lo + k, data[k])
  }

  /** All pages mapped for a segment have the flags present, writable and user. */
  ghost predicate Accessible(s: Paged, l: Load) {
    forall w: nat :: InPages(l, w) ==> HasFlags(s, w, 7)
  }

  /** The segment is in memory, as the program expects to find it. */
  ghost predicate InPlace(s: Paged, owner: map<nat, nat>, file: seq<Byte>, l: Load)
    requires Owns(s, owner)
  {
    SegmentFits(file, l) && Holds(s, owner, l.rva, SegmentImage(file, l)) && Accessible(s, l)
  }

  /** Page `w` translates as before, and if it had a frame of its own it still has, with the same bytes. */
  ghost predicate PageKept(s: Paged, s': Paged, owner: map<nat, nat>, owner': map<nat, nat>, w: nat)
    requires Owns(s, owner) && Owns(s', owner')
  {
    && Translate(s', w) == Translate(s, w)
    && (HasOwn(s, owner, w) ==>
          && HasOwn(s', owner', w)
          && (OwnedFrame(s, owner, w); OwnedFrame(s', owner', w);
              forall k: nat :: k < 4096 ==> PageByte(s', w, k) == PageByte(s, w, k)))
  }

  lemma MappingKeeps(s: Paged, s': Paged, owner: map<nat, nat>, owner': map<nat, nat>, w: nat)
    requires Owns(s, owner) && Owns(s', owner') && Kept(s, s', owner, owner', w)
    ensures PageKept(s, s', owner, owner', w)
  {
  }

  /** Stores outside a page keep it. */
  lemma StoringKeeps(s: Paged, s': Paged, owner: map<nat, nat>, lo: nat, data: seq<Byte>, w: nat)
    requires Owns(s, owner) && Stored(s, s', owner, lo, data) && w < PAGES
    requires 4096 * w + 4096 <= lo || lo + |data| <= 4096 * w
    ensures PageKept(s, s', owner, owner, w)
  {
    if HasOwn(s, owner, w) {
      OwnedFrame(s, owner, w);
      forall k: nat | k < 4096
        ensures PageByte(s', w, k) == PageByte(s, w, k)
      {
        assert StoredByte(s, s', owner, lo, data, w, k);
      }
    }
  }

  lemma KeptTwice(s0: Paged, s1: Paged, s2: Paged, o0: map<nat, nat>, o1: map<nat, nat>, o2: map<nat, nat>, w: nat)
    requires Owns(s0, o0) && Owns(s1, o1) && Owns(s2, o2)
    requires PageKept(s0, s1, o0, o1, w) && PageKept(s1, s2, o1, o2, w)
    ensures PageKept(s0, s2, o0, o2, w)
  {
  }

  /** A segment's bytes survive whatever keeps its pages. */
  lemma HoldsOn(s: Paged, s': Paged, owner: map<nat, nat>, owner': map<nat, nat>, l: Load, data: seq<Byte>)
    requires Owns(s, owner) && Owns(s', owner') && Covered(l) && |data| == l.memSize
    requires Holds(s, owner, l.rva, data)
    requires forall w: nat :: InPages(l, w) ==> PageKept(s, s', owner, owner', w)
    ensures Holds(s', owner', l.rva, data)
  {
    CoveredExactly(l);
    forall k: nat | k < |data|
      ensures ByteIs(s', owner', l.rva + k, data[k])
    {
      var w := (l.rva + k) / 4096;
      assert ByteInPages(l, k) && ByteIs(s, owner, l.rva + k, data[k]);
      OwnedFrame(s', owner', w);
    }
  }

  /** Zeroing a segment's memory and then copying its file bytes leaves its image. */
  lemma ZeroThenCopy(s0: Paged, s1: Paged, s2: Paged, owner: map<nat, nat>, file: seq<Byte>, l: Load)
    requires SegmentFits(file, l) && Owns(s0, owner) && OwnsRange(s0, owner, l.rva, l.memSize)
    requires Stored(s0, s1, owner, l.rva, Zeros(l.memSize))
    requires Stored(s1, s2, owner, l.rva, file[l.fileOffset..l.fileOffset + l.fileSize])
    ensures Holds(s2, owner, l.rva, SegmentImage(file, l))
  {
    var under, over, image := Zeros(l.memSize), file[l.fileOffset..l.fileOffset + l.fileSize], SegmentImage(file, l);
    forall k: nat | k < l.memSize
      ensures ByteIs(s2, owner, l.rva + k, image[k])
    {
      StoredOver(s0, s1, s2, owner, l.rva, under, over, image[k], k);
    }
  }

  lemma StoredOver(s0: Paged, s1: Paged, s2: Paged, owner: map<nat, nat>, lo: nat, under: seq<Byte>, over: seq<Byte>,
                   b: Byte, k: nat)
    requires Owns(s0, owner) && OwnsRange(s0, owner, lo, |under|) && k < |under| && |over| <= |under|
      && lo + |under| <= USER_END
    requires Stored(s0, s1, owner, lo, under) && Stored(s1, s2, owner, lo, over)
    requires b == if k < |over| then over[k] else under[k]
    ensures ByteIs(s2, owner, lo + k, b)
  {
    SplitAddress(lo + k);
    InOwnedRange(s0, owner, lo, |under|, k);
    StoredTwiceAt(s0, s1, s2, owner, lo, under, over, lo + k);
  }

  lemma StoredTwiceAt(s0: Paged, s1: Paged, s2: Paged, owner: map<nat, nat>, lo: nat, under: seq<Byte>,
                      over: seq<Byte>, a: nat)
    requires Owns(s0, owner) && Stored(s0, s1, owner, lo, under) && Stored(s1, s2, owner, lo, over)
    requires lo <= a < lo + |under| && |over| <= |under| && a < USER_END && HasOwn(s0, owner, a / 4096)
    ensures ByteIs(s2, owner, a, if a < lo + |over| then over[a - lo] else under[a - lo])
  {
    StoredAt(s0, s1, owner, lo, under, a);
    StoredAt(s1, s2, owner, lo, over, a);
  }

  /** What a store leaves at one address. */
  lemma StoredAt(s: Paged, s': Paged, owner: map<nat, nat>, lo: nat, data: seq<Byte>, a: nat)
    requires Owns(s, owner) && Stored(s, s', owner, lo, data) && a < USER_END && HasOwn(s, owner, a / 4096)
    ensures HasOwn(s', owner, a / 4096)
    ensures (OwnedFrame(s, owner, a / 4096); OwnedFrame(s', owner, a / 4096);
             PageByte(s', a / 4096, a % 4096)
             == if lo <= a < lo + |data| then data[a - lo] else PageByte(s, a / 4096, a % 4096))
  {
    var w, j := a / 4096, a % 4096;
    assert Linear(w, j) == a;
    assert StoredByte(s, s', owner, lo, data, w, j);
  }

  // What is still to be loaded.

  function PagesOf(l: Load): seq<nat> { Pages(FirstPage(l), PageCount(l)) }

  /** The pages of all segments, and the stack page behind them. */
  function PagesOfAll(loads: seq<Load>): seq<nat> {
    if loads == [] then [STACK_PAGE] else PagesOf(loads[0]) + PagesOfAll(loads[1..])
  }

  ghost predicate SmallPages(s: Paged, l: Load) {
    forall w: nat :: InPages(l, w) ==> Small(s, w)
  }

  /** No large page is in the way, and enough frames are free. */
  ghost predicate Ready(s: Paged, loads: seq<Load>) {
    && (forall i :: 0 <= i < |loads| ==> SmallPages(s, loads[i]))
    && Small(s, STACK_PAGE)
    && Demand(s, PagesOfAll(loads)) <= |s.free|
  }

  /** Every page outside those of `l` was kept. */
  ghost predicate KeptOutside(s: Paged, s': Paged, owner: map<nat, nat>, owner': map<nat, nat>, l: Load)
    requires Owns(s, owner) && Owns(s', owner')
  {
    forall w: nat :: w < PAGES && !InPages(l, w) ==> PageKept(s, s', owner, owner', w)
  }

  /** After the first segment is loaded, the others are still ready to be. */
  lemma StillReady(file: seq<Byte>, s: Paged, s': Paged, owner: map<nat, nat>, owner': map<nat, nat>, loads: seq<Load>)
    requires loads != [] && Fits(file, loads) && Ready(s, loads) && Owns(s, owner) && Owns(s', owner')
    requires KeptOutside(s, s', owner, owner', loads[0]) && Demand(s', PagesOfAll(loads[1..])) <= |s'.free|
    ensures Ready(s', loads[1..])
  {
  }

  /** A segment that was loaded is still there when its pages are kept. */
  lemma InPlaceStill(file: seq<Byte>, s: Paged, s': Paged, owner: map<nat, nat>, owner': map<nat, nat>, l: Load)
    requires Owns(s, owner) && Owns(s', owner') && InPlace(s, owner, file, l)
    requires forall w: nat :: InPages(l, w) ==> PageKept(s, s', owner, owner', w)
    ensures InPlace(s', owner', file, l)
  {
    HoldsOn(s, s', owner, owner', l, SegmentImage(file, l));
    forall w: nat | InPages(l, w)
      ensures HasFlags(s', w, 7)
    {
      assert PageKept(s, s', owner, owner', w) && HasFlags(s, w, 7);
    }
  }

  /** So it is after another one is loaded. */
  lemma InPlaceBeside(file: seq<Byte>, s: Paged, s': Paged, owner: map<nat, nat>, owner': map<nat, nat>, a: Load,
                      b: Load)
    requires Owns(s, owner) && Owns(s', owner') && InPlace(s, owner, file, a)
    requires ApartPages(a, b) && KeptOutside(s, s', owner, owner', b)
    ensures InPlace(s', owner', file, a)
  {
    forall w: nat | InPages(a, w)
      ensures PageKept(s, s', owner, owner', w)
    {
      assert !InPages(b, w);
    }
    InPlaceStill(file, s, s', owner, owner', a);
  }
}
