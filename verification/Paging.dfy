/**
 Four-level page tables stored in an array of physical frames (Intel SDM volume 3A, section 4.5),
 and why adding a table or setting a leaf changes the translation of one page at most.
 */
module Paging {
  import opened Bits
  import opened Wrappers

  /** Virtual page numbers have 4 * 9 bits. */
  const PAGES: nat := 0x10_0000_0000

  /** A physical frame seen as 512 words. */
  type Frame = f: seq<Word> | |f| == 512 witness seq(512, _ => 0)

  type Memory = seq<Frame>

  function ZeroFrame(): (z: Frame)
    ensures forall i :: 0 <= i < 512 ==> z[i] == 0
  {
    seq(512, _ => 0)
  }

  const ADDR_MASK: nat := 0x000F_FFFF_FFFF_F000

  predicate Present(e: Word) { e % 2 == 1 }

  function FrameOf(e: Word): nat { e / 4096 % 0x100_0000_0000 }

  function FlagsOf(e: Word): nat { e % 4096 }

  /** A 1 GiB or 2 MiB page: the PS bit at levels 3 and 2. */
  predicate Large(e: Word, level: nat) { 2 <= level <= 3 && e / 128 % 2 == 1 }

  /** The entry refers to a table one level down. */
  predicate Down(e: Word, level: nat) { level > 1 && Present(e) && !Large(e, level) }

  /** The index of page `v` in the tables of `level`: 4 is the PML4, 1 the page table. */
  function Index(v: nat, level: nat): (i: nat)
    ensures i < 512
  {
    if level == 4 then v / 512 / 512 / 512 % 512
    else if level == 3 then v / 512 / 512 % 512
    else if level == 2 then v / 512 % 512
    else v % 512
  }

  /** Do `v` and `w` take the same slot at `level` and below? */
  predicate Agree(v: nat, w: nat, level: nat) {
    level == 0 || (Index(v, level) == Index(w, level) && Agree(v, w, level - 1))
  }

  lemma AgreeRefl(v: nat, level: nat)
    ensures Agree(v, v, level)
  {
  }

  lemma AgreeIsEqual(v: nat, w: nat)
    requires v < PAGES && w < PAGES
    ensures Agree(v, w, 4) ==> v == w
  {
    if Agree(v, w, 4) {
      assert Agree(v, w, 3);
      assert Agree(v, w, 2);
      assert Agree(v, w, 1);
      assert v / 512 / 512 / 512 == w / 512 / 512 / 512;
      assert v / 512 / 512 == w / 512 / 512;
      assert v / 512 == w / 512;
    }
  }

  /** The entry that ends a walk, and the level it was found at. */
  datatype Leaf = Leaf(level: nat, entry: Word)

  /** What the processor finds for page `v` from table `f` of `level` on. */
  function Walk(mem: Memory, f: nat, level: nat, v: nat): Option<Leaf>
    decreases level, v
  {
    if level == 0 || f >= |mem| then None else
    var e := mem[f][Index(v, level)];
    if !Present(e) then None
    else if Down(e, level) then Walk(mem, FrameOf(e), level - 1, v)
    else Some(Leaf(level, e))
  }

  /** The slots that lead from the root to a table. */
  datatype Route = Top | Via(up: Route, index: nat)

  function Level(r: Route): (l: int)
    ensures l <= 4 && (l == 4 <==> r == Top)
  {
    match r
    case Top => 4
    case Via(up, _) => Level(up) - 1
  }

  /** The slots on the way to the table of `level` that translates `v`. */
  function RouteOf(v: nat, level: nat): (r: Route)
    requires level <= 4
    ensures Level(r) == level
    decreases 4 - level, v
  {
    if level == 4 then Top else Via(RouteOf(v, level + 1), Index(v, level + 1))
  }

  /** The table at the end of a route, when every slot on the way refers down. */
  function TableOn(mem: Memory, root: nat, r: Route): Option<nat> {
    match r
    case Top => Some(root)
    case Via(up, i) =>
      var t := TableOn(mem, root, up);
      if t.None? || t.value >= |mem| || i >= 512 || Level(up) < 0 then None else
      var e := mem[t.value][i];
      if Down(e, Level(up)) then Some(FrameOf(e)) else None
  }

  /** The table that the walk for `v` reads at `level`, when every step above it goes down. */
  function TableAt(mem: Memory, root: nat, level: nat, v: nat): Option<nat>
    requires level <= 4
  {
    TableOn(mem, root, RouteOf(v, level))
  }

  /** Where a table hangs: its level, and the slot of the table above that refers to it. */
  datatype Place = Place(level: nat, parent: nat, index: nat)

  /** Every downward reference from `f` leads to a table that hangs exactly there. */
  ghost predicate RefersDown(mem: Memory, place: map<nat, Place>, f: nat, i: nat)
    requires f in place && f < |mem| && i < 512
  {
    Down(mem[f][i], place[f].level) ==>
      && FrameOf(mem[f][i]) in place
      && place[FrameOf(mem[f][i])] == Place(place[f].level - 1, f, i)
  }

  /** The table's own slot above refers to it. */
  ghost predicate Hangs(mem: Memory, place: map<nat, Place>, f: nat)
    requires f in place
  {
    var p := place[f];
    && p.parent in place && p.parent < |mem| && p.index < 512
    && place[p.parent].level == p.level + 1
    && Down(mem[p.parent][p.index], p.level + 1)
    && FrameOf(mem[p.parent][p.index]) == f
  }

  /** The tables below `root` form a tree: each one hangs in exactly one slot. */
  ghost predicate Tree(mem: Memory, root: nat, place: map<nat, Place>) {
    && root in place
    && (forall f :: f in place ==> f < |mem| && 1 <= place[f].level <= 4 && (place[f].level == 4 <==> f == root))
    && (forall f, i: nat {:trigger RefersDown(mem, place, f, i)} ::
          f in place && i < 512 ==> RefersDown(mem, place, f, i))
    && (forall f {:trigger Hangs(mem, place, f)} :: f in place && f != root ==> Hangs(mem, place, f))
  }

  /** `vmm_map_page`'s three levels of on-demand tables: a zeroed frame `z` put into an absent slot. */
  function AddTable(mem: Memory, f: nat, i: nat, z: nat): (r: Memory)
    requires f < |mem| && i < 512 && z < |mem| && z < 0x100_0000_0000
    ensures |r| == |mem|
  {
    var m := mem[z := ZeroFrame()];
    m[f := m[f][i := TableEntry(z)]]
  }

  function TableEntry(z: nat): (e: Word)
    requires z < 0x100_0000_0000
    ensures Present(e) && FrameOf(e) == z && e / 128 % 2 == 0
    ensures e % 4096 == 7 && e / 4096 == z
  {
    var e := z * 4096 + 7;
    DivMod(e, 4096, z, 7);
    DivMod(e, 128, 32 * z, 7);
    DivMod(32 * z, 2, 16 * z, 0);
    DivMod(e, 2, 2048 * z + 3, 1);
    e
  }

  lemma AddTableKeepsTree(mem: Memory, root: nat, place: map<nat, Place>, level: nat, f: nat, i: nat, z: nat)
    requires Tree(mem, root, place) && f in place && place[f].level == level > 1 && i < 512 && !Present(mem[f][i])
    requires z !in place && z < |mem| && z < 0x100_0000_0000
    ensures Tree(AddTable(mem, f, i, z), root, place[z := Place(level - 1, f, i)])
  {
    var mem' := AddTable(mem, f, i, z);
    var place' := place[z := Place(level - 1, f, i)];
    forall g, k: nat | g in place' && k < 512
      ensures RefersDown(mem', place', g, k)
    {
      if g != z { assert RefersDown(mem, place, g, k); }
    }
    forall g | g in place' && g != root
      ensures Hangs(mem', place', g)
    {
      if g != z { assert Hangs(mem, place, g); }
    }
  }

  lemma {:induction false} AddTableKeepsWalks(mem: Memory, root: nat, place: map<nat, Place>,
                                              f: nat, i: nat, z: nat, g: nat, v: nat)
    requires Tree(mem, root, place) && f in place && place[f].level > 1 && i < 512 && !Present(mem[f][i])
    requires z !in place && z < |mem| && z < 0x100_0000_0000
    requires g in place
    ensures Walk(AddTable(mem, f, i, z), g, place[g].level, v) == Walk(mem, g, place[g].level, v)
    decreases place[g].level
  {
    var e := mem[g][Index(v, place[g].level)];
    assert RefersDown(mem, place, g, Index(v, place[g].level));
    if Down(e, place[g].level) {
      AddTableKeepsWalks(mem, root, place, f, i, z, FrameOf(e), v);
    }
  }

  /** No two routes lead to the same table. */
  lemma {:induction false} RouteUnique(mem: Memory, root: nat, place: map<nat, Place>, r: Route, q: Route)
    requires Tree(mem, root, place) && TableOn(mem, root, r).Some?
    ensures TableOn(mem, root, r).value in place && place[TableOn(mem, root, r).value].level == Level(r)
    ensures TableOn(mem, root, q) == TableOn(mem, root, r) ==> q == r
    decreases r
  {
    PlacedOn(mem, root, place, r);
    if TableOn(mem, root, q) == TableOn(mem, root, r) {
      PlacedOn(mem, root, place, q);
      if r.Via? && q.Via? {
        PlacedOn(mem, root, place, r.up);
        PlacedOn(mem, root, place, q.up);
        assert RefersDown(mem, place, TableOn(mem, root, r.up).value, r.index);
        assert RefersDown(mem, place, TableOn(mem, root, q.up).value, q.index);
        RouteUnique(mem, root, place, r.up, q.up);
      }
    }
  }

  lemma {:induction false} PlacedOn(mem: Memory, root: nat, place: map<nat, Place>, r: Route)
    requires Tree(mem, root, place) && TableOn(mem, root, r).Some?
    ensures TableOn(mem, root, r).value in place && place[TableOn(mem, root, r).value].level == Level(r)
    decreases r
  {
    if r.Via? {
      PlacedOn(mem, root, place, r.up);
      assert RefersDown(mem, place, TableOn(mem, root, r.up).value, r.index);
    }
  }

  /** Adding a table opens one route and leaves all others as they were. */
  lemma {:induction false} AddTableOpens(mem: Memory, root: nat, place: map<nat, Place>, q: Route, i: nat, z: nat,
                              r: Route)
    requires Tree(mem, root, place) && TableOn(mem, root, q).Some?
    requires var f := TableOn(mem, root, q).value;
             f in place && f < |mem| && place[f].level > 1 && i < 512 && !Present(mem[f][i])
    requires z !in place && z < |mem| && z < 0x100_0000_0000
    ensures TableOn(AddTable(mem, TableOn(mem, root, q).value, i, z), root, r)
            == if r == Via(q, i) then Some(z) else TableOn(mem, root, r)
    decreases r
  {
    if r.Via? {
      AddTableOpens(mem, root, place, q, i, z, r.up);
      RouteUnique(mem, root, place, q, r.up);
      if TableOn(mem, root, r.up).Some? {
        PlacedOn(mem, root, place, r.up);
      }
      if r.up == Via(q, i) {
        assert TableOn(mem, root, r.up).None?;
      }
    }
  }

  /** The walk for `v` from the root passes the table at `level`. */
  lemma {:induction false} WalkThrough(mem: Memory, root: nat, level: nat, v: nat)
    requires 1 <= level <= 4 && TableAt(mem, root, level, v).Some?
    ensures Walk(mem, root, 4, v) == Walk(mem, TableAt(mem, root, level, v).value, level, v)
    decreases 4 - level
  {
    if level < 4 {
      WalkThrough(mem, root, level + 1, v);
    }
  }

  lemma {:induction false} TableAtPlaced(mem: Memory, root: nat, place: map<nat, Place>, level: nat, v: nat)
    requires Tree(mem, root, place) && 1 <= level <= 4
    ensures TableAt(mem, root, level, v).Some? ==>
              TableAt(mem, root, level, v).value in place && place[TableAt(mem, root, level, v).value].level == level
    ensures TableAt(mem, root, level, v).Some? && level < 4 ==>
              && TableAt(mem, root, level + 1, v).Some?
              && place[TableAt(mem, root, level, v).value]
                 == Place(level, TableAt(mem, root, level + 1, v).value, Index(v, level + 1))
    decreases 4 - level
  {
    if level < 4 {
      TableAtPlaced(mem, root, place, level + 1, v);
      var up := TableAt(mem, root, level + 1, v);
      if up.Some? {
        assert RefersDown(mem, place, up.value, Index(v, level + 1));
      }
    }
  }

  /** From a table that is not on `v`'s path, no walk meets the leaf table of `v`. */
  lemma {:induction false} OffPath(mem: Memory, root: nat, place: map<nat, Place>, v: nat, e: Word, g: nat, w: nat)
    requires Tree(mem, root, place) && TableAt(mem, root, 1, v).Some?
    requires g in place && TableAt(mem, root, place[g].level, v) != Some(g)
    ensures Walk(SetLeaf(mem, root, v, e), g, place[g].level, w) == Walk(mem, g, place[g].level, w)
    decreases place[g].level
  {
    var level := place[g].level;
    TableAtPlaced(mem, root, place, 1, v);
    assert RefersDown(mem, place, g, Index(w, level));
    var d := mem[g][Index(w, level)];
    if Down(d, level) {
      TableAtPlaced(mem, root, place, level - 1, v);
      OffPath(mem, root, place, v, e, FrameOf(d), w);
    }
  }

  /** The page table of `v` with `v`'s entry replaced. */
  function SetLeaf(mem: Memory, root: nat, v: nat, e: Word): (r: Memory)
    requires TableAt(mem, root, 1, v).Some?
    ensures |r| == |mem|
  {
    var pt := TableAt(mem, root, 1, v).value;
    if pt < |mem| then mem[pt := mem[pt][Index(v, 1) := e]] else mem
  }

  /** From the table on `v`'s path, only a page that agrees with `v` from there on is affected. */
  lemma {:induction false} OnPath(mem: Memory, root: nat, place: map<nat, Place>, v: nat, e: Word, level: nat, w: nat)
    requires Tree(mem, root, place) && TableAt(mem, root, 1, v).Some? && 1 <= level <= 4 && Present(e)
    requires TableAt(mem, root, level, v).Some?
    ensures var g := TableAt(mem, root, level, v).value;
            Walk(SetLeaf(mem, root, v, e), g, level, w)
            == if Agree(v, w, level) then Some(Leaf(1, e)) else Walk(mem, g, level, w)
    decreases level
  {
    TableAtPlaced(mem, root, place, level, v);
    var g := TableAt(mem, root, level, v).value;
    var i, j := Index(w, level), Index(v, level);
    if level > 1 {
      TableAtExists(mem, root, level - 1, v);
      TableAtPlaced(mem, root, place, level - 1, v);
      TableAtPlaced(mem, root, place, 1, v);
      assert RefersDown(mem, place, g, i);
      if i == j {
        OnPath(mem, root, place, v, e, level - 1, w);
      } else if Down(mem[g][i], level) {
        OffPath(mem, root, place, v, e, FrameOf(mem[g][i]), w);
      }
    }
  }

  /** A path that reaches the page table passes every level above. */
  lemma {:induction false} TableAtExists(mem: Memory, root: nat, level: nat, v: nat)
    requires 1 <= level <= 4 && TableAt(mem, root, 1, v).Some?
    ensures TableAt(mem, root, level, v).Some?
  {
    assert TableAt(mem, root, 2, v).Some?;
    assert TableAt(mem, root, 3, v).Some?;
  }

  lemma SetLeafKeepsTree(mem: Memory, root: nat, place: map<nat, Place>, v: nat, e: Word)
    requires Tree(mem, root, place) && TableAt(mem, root, 1, v).Some?
    ensures Tree(SetLeaf(mem, root, v, e), root, place)
  {
    TableAtPlaced(mem, root, place, 1, v);
    var mem' := SetLeaf(mem, root, v, e);
    forall g, k: nat | g in place && k < 512
      ensures RefersDown(mem', place, g, k)
    {
      assert RefersDown(mem, place, g, k);
    }
    forall g | g in place && g != root
      ensures Hangs(mem', place, g)
    {
      assert Hangs(mem, place, g);
    }
  }

  /** Setting `v`'s leaf maps `v` and no other page. */
  lemma SetLeafMaps(mem: Memory, root: nat, place: map<nat, Place>, v: nat, e: Word, w: nat)
    requires Tree(mem, root, place) && TableAt(mem, root, 1, v).Some? && Present(e)
    requires v < PAGES && w < PAGES
    ensures Walk(SetLeaf(mem, root, v, e), root, 4, w) == if w == v then Some(Leaf(1, e)) else Walk(mem, root, 4, w)
  {
    OnPath(mem, root, place, v, e, 4, w);
    AgreeIsEqual(v, w);
    AgreeRefl(v, 4);
  }

  /** When no large page ends the walk for `v`, a present slot on its path refers to a table. */
  lemma SlotIsClear(mem: Memory, root: nat, level: nat, v: nat)
    requires 2 <= level <= 4 && TableAt(mem, root, level, v).Some? && TableAt(mem, root, level, v).value < |mem|
    requires Walk(mem, root, 4, v).Some? ==> Walk(mem, root, 4, v).value.level == 1
    ensures var e := mem[TableAt(mem, root, level, v).value][Index(v, level)]; Present(e) ==> Down(e, level)
  {
    WalkThrough(mem, root, level, v);
  }

  /** Setting a leaf changes no route. */
  lemma {:induction false} SetLeafKeepsRoutes(mem: Memory, root: nat, place: map<nat, Place>, v: nat, e: Word, r: Route)
    requires Tree(mem, root, place) && TableAt(mem, root, 1, v).Some?
    ensures TableOn(SetLeaf(mem, root, v, e), root, r) == TableOn(mem, root, r)
    decreases r
  {
    PlacedOn(mem, root, place, RouteOf(v, 1));
    if r.Via? {
      SetLeafKeepsRoutes(mem, root, place, v, e, r.up);
      if TableOn(mem, root, r.up).Some? { PlacedOn(mem, root, place, r.up); }
    }
  }

  /** Memory that keeps every table keeps the tree and every walk from a table. */
  lemma {:induction false} SameTables(mem: Memory, mem': Memory, root: nat, place: map<nat, Place>, g: nat, v: nat)
    requires Tree(mem, root, place) && |mem'| == |mem| && (forall f :: f in place ==> mem'[f] == mem[f])
    requires g in place
    ensures Walk(mem', g, place[g].level, v) == Walk(mem, g, place[g].level, v)
    decreases place[g].level
  {
    var e := mem[g][Index(v, place[g].level)];
    assert RefersDown(mem, place, g, Index(v, place[g].level));
    if Down(e, place[g].level) {
      SameTables(mem, mem', root, place, FrameOf(e), v);
    }
  }

  lemma {:induction false} SameRoutes(mem: Memory, mem': Memory, root: nat, place: map<nat, Place>, r: Route)
    requires Tree(mem, root, place) && |mem'| == |mem| && (forall f :: f in place ==> mem'[f] == mem[f])
    ensures TableOn(mem', root, r) == TableOn(mem, root, r)
  {
    if r.Via? {
      SameRoutes(mem, mem', root, place, r.up);
      if TableOn(mem, root, r.up).Some? { PlacedOn(mem, root, place, r.up); }
    }
  }

  lemma SameTree(mem: Memory, mem': Memory, root: nat, place: map<nat, Place>)
    requires Tree(mem, root, place) && |mem'| == |mem| && (forall f :: f in place ==> mem'[f] == mem[f])
    ensures Tree(mem', root, place)
  {
    forall g, k: nat | g in place && k < 512
      ensures RefersDown(mem', place, g, k)
    {
      assert RefersDown(mem, place, g, k);
    }
    forall g | g in place && g != root
      ensures Hangs(mem', place, g)
    {
      assert Hangs(mem, place, g);
    }
  }

  // A new root that shares the upper half.

  /** Does the table hang below one of the root's slots 256..511? */
  ghost predicate InUpper(place: map<nat, Place>, f: nat)
    decreases if f in place then 4 - place[f].level else 0
  {
    f in place && place[f].level < 4 &&
    if place[f].level == 3 then place[f].index >= 256
    else
      && place[f].parent in place && place[place[f].parent].level == place[f].level + 1
      && InUpper(place, place[f].parent)
  }

  /** The frame `z` as a root with an empty lower half and the upper half of `root`. */
  function SharedRoot(base: Frame): (r: Frame)
    ensures forall i :: 0 <= i < 256 ==> r[i] == 0
    ensures forall i :: 256 <= i < 512 ==> r[i] == base[i]
  {
    seq(512, i requires 0 <= i < 512 => if i < 256 then 0 else base[i])
  }

  /** The tables that remain reachable, hanging from the new root `z` instead. */
  ghost function UpperPlaces(root: nat, place: map<nat, Place>, z: nat): map<nat, Place> {
    (map f | f in place && InUpper(place, f) ::
       if place[f].level == 3 then Place(3, z, place[f].index) else place[f])[z := Place(4, z, 0)]
  }

  lemma SharedRootTree(mem: Memory, root: nat, place: map<nat, Place>, z: nat)
    requires Tree(mem, root, place) && z !in place && z < |mem|
    ensures Tree(mem[z := SharedRoot(mem[root])], z, UpperPlaces(root, place, z))
  {
    var mem', place' := mem[z := SharedRoot(mem[root])], UpperPlaces(root, place, z);
    forall g, k: nat | g in place' && k < 512
      ensures RefersDown(mem', place', g, k)
    {
      if g == z {
        assert RefersDown(mem, place, root, k);
      } else {
        assert RefersDown(mem, place, g, k);
      }
    }
    forall g | g in place' && g != z
      ensures Hangs(mem', place', g)
    {
      assert Hangs(mem, place, g);
    }
  }

  /** The lower half is unmapped, and the upper half translates as from the old root. */
  lemma SharedRootWalks(mem: Memory, root: nat, place: map<nat, Place>, z: nat, v: nat)
    requires Tree(mem, root, place) && z !in place && z < |mem| && v < PAGES
    ensures Walk(mem[z := SharedRoot(mem[root])], z, 4, v)
            == if v < PAGES / 2 then None else Walk(mem, root, 4, v)
  {
    var mem' := mem[z := SharedRoot(mem[root])];
    var i := Index(v, 4);
    assert i < 256 <==> v < PAGES / 2;
    var e := mem[root][i];
    assert RefersDown(mem, place, root, i);
    if i >= 256 && Down(e, 4) {
      SameTables(mem, mem', root, place, FrameOf(e), v);
    }
  }
}
