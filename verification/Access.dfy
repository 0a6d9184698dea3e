/** What user mode may do: the rights that all four entries on the way to a page grant (Intel SDM 3A, section 4.6). */
module Access {
  import opened Bits
  import opened Paging
  import opened Mapping
  import opened Descent
  import opened UserBytes

  /** Every entry that the walk for page `v` reads from table `f` on is present, writable and a user entry. */
  predicate UserWalk(mem: Memory, f: nat, level: nat, v: nat)
    decreases level, v
  {
    && level > 0 && f < |mem|
    && var e := mem[f][Index(v, level)];
    e % 8 == 7 && (Down(e, level) ==> UserWalk(mem, FrameOf(e), level - 1, v))
  }

  /** May a program read and write page `v`? */
  predicate UserMay(s: Paged, v: nat) { UserWalk(s.mem, s.root, 4, v) }

  /** The slot that table `f` hangs in opens it to the program. */
  predicate SlotOpen(mem: Memory, place: map<nat, Place>, f: nat)
    requires f in place
  {
    var p := place[f];
    p.parent < |mem| && p.index < 512 && mem[p.parent][p.index] % 8 == 7
  }

  /** The tables in `base` still hang where they did, and all others are open. */
  ghost predicate OpenBeyond(mem: Memory, place: map<nat, Place>, base: map<nat, Place>) {
    && (forall f :: f in base ==> f in place && place[f] == base[f])
    && (forall f {:trigger SlotOpen(mem, place, f)} :: f in place && f !in base ==> SlotOpen(mem, place, f))
  }

  /** None of these tables translates a page of the lower half, except the root. */
  ghost predicate UpperOnly(base: map<nat, Place>, root: nat) {
    forall f :: f in base && f != root ==>
      base[f].parent in base && (base[f].parent == root ==> base[f].index >= 256)
  }

  /** In the new address space only the upper half has tables. */
  lemma RootedUpper(s: Paged, z: nat)
    requires Sound(s) && z in s.free
    ensures Sound(Rooted(s, z)) && UpperOnly(Rooted(s, z).place, z)
    ensures OpenBeyond(Rooted(s, z).mem, Rooted(s, z).place, Rooted(s, z).place)
  {
    RootedTranslates(s, z);
    var place := UpperPlaces(s.root, s.place, z);
    forall f | f in place && f != z
      ensures place[f].parent in place && (place[f].parent == z ==> place[f].index >= 256)
    {
      assert Hangs(s.mem, s.place, f);
    }
  }

  /** A new table is open, and hooking it in moves no other. */
  lemma FillOpen(s: Paged, base: map<nat, Place>, level: nat, f: nat, i: nat, z: nat)
    requires Sound(s) && OpenBeyond(s.mem, s.place, base) && s.root in base
    requires f in s.place && s.place[f].level == level > 1 && i < 512 && !Present(s.mem[f][i]) && z in s.free
    ensures z < |s.mem| <= 0x100_0000_0000 && f < |s.mem|
    ensures OpenBeyond(Fill(s, level, f, i, z).mem, Fill(s, level, f, i, z).place, base)
  {
    var t := Fill(s, level, f, i, z);
    forall g | g in t.place && g !in base
      ensures SlotOpen(t.mem, t.place, g)
    {
      if g == z {
        NewSlotOpen(s.mem, s.place, level, f, i, z);
      } else {
        assert SlotOpen(s.mem, s.place, g) && Hangs(s.mem, s.place, g);
        OldSlotOpen(s.mem, s.place, level, f, i, z, g);
      }
    }
  }

  lemma NewSlotOpen(mem: Memory, place: map<nat, Place>, level: nat, f: nat, i: nat, z: nat)
    requires f < |mem| && i < 512 && z < |mem| <= 0x100_0000_0000 && level > 0
    ensures SlotOpen(AddTable(mem, f, i, z), place[z := Place(level - 1, f, i)], z)
  {
    assert AddTable(mem, f, i, z)[f][i] == TableEntry(z);
    LowThree(TableEntry(z), 7);
  }

  /** No table hangs in an empty slot, or in a frame that was free. */
  lemma OldSlotOpen(mem: Memory, place: map<nat, Place>, level: nat, f: nat, i: nat, z: nat, g: nat)
    requires f < |mem| && i < 512 && !Present(mem[f][i]) && z < |mem| <= 0x100_0000_0000 && level > 0 && z !in place
    requires g in place && Hangs(mem, place, g) && SlotOpen(mem, place, g)
    ensures SlotOpen(AddTable(mem, f, i, z), place[z := Place(level - 1, f, i)], g)
  {
    var p := place[g];
    assert AddTable(mem, f, i, z)[p.parent][p.index] == mem[p.parent][p.index];
  }

  /** A leaf lies in no slot that a table hangs in. */
  lemma LeafOpen(s: Paged, base: map<nat, Place>, v: nat, e: Word)
    requires Sound(s) && OpenBeyond(s.mem, s.place, base) && s.root in base && TableAt(s.mem, s.root, 1, v).Some?
    ensures OpenBeyond(WithLeaf(s, v, e).mem, s.place, base)
  {
    var t := WithLeaf(s, v, e);
    PlacedOn(s.mem, s.root, s.place, RouteOf(v, 1));
    forall g | g in t.place && g !in base
      ensures SlotOpen(t.mem, t.place, g)
    {
      assert SlotOpen(s.mem, s.place, g) && Hangs(s.mem, s.place, g);
    }
  }

  lemma HookOpen(s: Paged, base: map<nat, Place>, level: nat, f: nat, v: nat)
    requires 2 <= level <= 4 && Intact(s, level, f, v) && Fits(s) && f < |s.mem|
    requires OpenBeyond(s.mem, s.place, base) && s.root in base && MissingBelow(s, v, level) <= |s.free|
    ensures var t := Hook(s, level, f, Index(v, level)); OpenBeyond(t.mem, t.place, base)
  {
    IntactTable(s, level, f, v);
    if !Present(s.mem[f][Index(v, level)]) {
      NeedsOne(s, v, level, f);
      FillOpen(s, base, level, f, Index(v, level), NextFrame(s.free));
    }
  }

  lemma {:induction false} DescendOpen(s: Paged, base: map<nat, Place>, level: nat, f: nat, v: nat)
    requires 1 <= level <= 4 && Intact(s, level, f, v) && Fits(s) && f < |s.mem|
    requires OpenBeyond(s.mem, s.place, base) && s.root in base && MissingBelow(s, v, level) <= |s.free|
    ensures var t := Descend(s, level, f, v).s; OpenBeyond(t.mem, t.place, base)
    decreases level
  {
    if level > 1 {
      HookOpen(s, base, level, f, v);
      var t, g := GrowStep(s, level, f, v);
      DescendOpen(t, base, level - 1, g, v);
      assert Descend(s, level, f, v) == Descend(t, level - 1, g, v);
    }
  }

  /** Mapping a page opens every table that it adds. */
  lemma StepsOpen(s: Paged, base: map<nat, Place>, v: nat, e: Word)
    requires Sound(s) && Small(s, v) && Present(e) && v < PAGES && |Lacking(s, RoutesOf(v))| <= |s.free|
    requires OpenBeyond(s.mem, s.place, base) && s.root in base
    ensures Fits(s) && s.root < |s.mem|
    ensures OpenBeyond(MapSteps(s, v, e).mem, MapSteps(s, v, e).place, base)
  {
    RootIntact(s, v);
    AllBelow(v);
    var r := Descend(s, 4, s.root, v);
    DescendsIntact(s, 4, s.root, v);
    DescendOpen(s, base, 4, s.root, v);
    PutMaps(s, r, v, e);
    LeafOpen(r.s, base, v, e);
  }

  /** A store to a frame that is no table moves no slot. */
  lemma PokeOpen(s: Paged, base: map<nat, Place>, f: nat, k: nat, b: Byte)
    requires Sound(s) && OpenBeyond(s.mem, s.place, base) && s.root in base && f !in s.place && f < |s.mem| && k < 4096
    ensures OpenBeyond(Poke(s, f, k, b).mem, s.place, base)
  {
    var t := Poke(s, f, k, b);
    forall g | g in t.place && g !in base
      ensures SlotOpen(t.mem, t.place, g)
    {
      assert SlotOpen(s.mem, s.place, g) && Hangs(s.mem, s.place, g);
    }
  }

  /** So a page of the lower half whose own entry has flags 7 is open to the program. */
  lemma OpensToUser(s: Paged, base: map<nat, Place>, v: nat)
    requires Sound(s) && OpenBeyond(s.mem, s.place, base) && UpperOnly(base, s.root)
    requires v < PAGES / 2 && HasFlags(s, v, 7)
    ensures UserMay(s, v)
  {
    assert Index(v, 4) < 256;
    OpenFrom(s, base, 4, s.root, v);
  }

  lemma {:induction false} OpenFrom(s: Paged, base: map<nat, Place>, level: nat, f: nat, v: nat)
    requires Tree(s.mem, s.root, s.place) && OpenBeyond(s.mem, s.place, base) && UpperOnly(base, s.root)
    requires Index(v, 4) < 256
    requires 1 <= level <= 4 && f in s.place && s.place[f].level == level && (f == s.root || f !in base)
    requires Walk(s.mem, f, level, v).Some? && Walk(s.mem, f, level, v).value.level == 1
    requires Walk(s.mem, f, level, v).value.entry % 4096 == 7
    ensures UserWalk(s.mem, f, level, v)
    decreases level
  {
    if level > 1 {
      var g := FrameOf(s.mem[f][Index(v, level)]);
      WalkDown(s.mem, f, level, v);
      assert f < |s.mem|;
      NextOpen(s, base, level, f, v, Index(v, level));
      OpenFrom(s, base, level - 1, g, v);
      UserDown(s.mem, f, level, v, g);
    } else {
      UserLeaf(s.mem, f, v);
    }
  }

  lemma {:induction false} UserLeaf(mem: Memory, f: nat, v: nat)
    requires Walk(mem, f, 1, v).Some? && Walk(mem, f, 1, v).value.entry % 4096 == 7
    ensures UserWalk(mem, f, 1, v)
  {
    LowThree(mem[f][Index(v, 1)], 7);
  }

  lemma LowThree(e: nat, low: nat)
    requires e % 4096 == low < 8
    ensures e % 8 == low
  {
    DivMod(e, 8, 512 * (e / 4096), low);
  }

  /** A walk that ends at level 1 goes down from every table before. */
  lemma {:induction false} WalkDown(mem: Memory, f: nat, level: nat, v: nat)
    requires level > 1 && f < |mem| && Walk(mem, f, level, v).Some? && Walk(mem, f, level, v).value.level == 1
    ensures var e := mem[f][Index(v, level)];
            Down(e, level) && Walk(mem, FrameOf(e), level - 1, v) == Walk(mem, f, level, v)
  {
  }

  lemma {:induction false} UserDown(mem: Memory, f: nat, level: nat, v: nat, g: nat)
    requires level > 1 && f < |mem| && mem[f][Index(v, level)] % 8 == 7
    requires g == FrameOf(mem[f][Index(v, level)]) && UserWalk(mem, g, level - 1, v)
    ensures UserWalk(mem, f, level, v)
  {
  }

  /** The next table on the way is not one of the first ones, so its slot is open. */
  lemma NextOpen(s: Paged, base: map<nat, Place>, level: nat, f: nat, v: nat, i: nat)
    requires Tree(s.mem, s.root, s.place) && OpenBeyond(s.mem, s.place, base) && UpperOnly(base, s.root)
    requires f in s.place && s.place[f].level == level && (f == s.root || f !in base)
    requires i == Index(v, level) && Index(v, 4) < 256 && Down(s.mem[f][i], level)
    ensures var g := FrameOf(s.mem[f][i]);
            g in s.place && s.place[g].level == level - 1 && g !in base && s.mem[f][i] % 8 == 7
  {
    assert RefersDown(s.mem, s.place, f, i);
    var g := FrameOf(s.mem[f][i]);
    if g in base { assert false; }
    assert SlotOpen(s.mem, s.place, g);
  }

  /** The page's own entry must grant it too. */
  lemma {:induction false} LeafGrants(mem: Memory, f: nat, level: nat, v: nat)
    requires UserWalk(mem, f, level, v) && Walk(mem, f, level, v).Some?
    ensures Walk(mem, f, level, v).value.entry % 8 == 7
    decreases level
  {
    var e := mem[f][Index(v, level)];
    if Down(e, level) { LeafGrants(mem, FrameOf(e), level - 1, v); }
  }

  /** A page with flags 3 is closed to programs, whatever the tables above it grant. */
  lemma ClosedToUser(s: Paged, v: nat)
    requires HasFlags(s, v, 3)
    ensures !UserMay(s, v)
  {
    LowThree(Translate(s, v).value.entry, 3);
    if UserMay(s, v) { LeafGrants(s.mem, s.root, 4, v); }
  }
}
