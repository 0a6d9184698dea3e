/** Page tables together with the frames the allocator still has: how they grow, and what a mapping does to them. */
module Mapping {
  import opened Bits
  import opened Wrappers
  import opened Paging

  /** Physical memory, CR3's frame, where each table hangs, and the free frames. */
  datatype Paged = Paged(mem: Memory, root: nat, place: map<nat, Place>, free: set<nat>)

  /** The tables form a tree, and no table is a free frame. */
  ghost predicate Sound(s: Paged) {
    && Tree(s.mem, s.root, s.place)
    && s.place.Keys !! s.free
    && |s.mem| <= 0x100_0000_0000
    && (forall f :: f in s.free ==> f < |s.mem|)
  }

  /** What the processor finds for page `v`. */
  function Translate(s: Paged, v: nat): Option<Leaf> {
    Walk(s.mem, s.root, 4, v)
  }

  /** Page `v` is a 4 KiB page, and the low 12 bits of its entry are `flags`: 1 is present, 2 writable, 4 user. */
  predicate HasFlags(s: Paged, v: nat, flags: nat) {
    Translate(s, v).Some? && Translate(s, v).value.level == 1 && Translate(s, v).value.entry % 4096 == flags
  }

  /** No large page is in the way of page `v`. */
  predicate Small(s: Paged, v: nat) {
    Translate(s, v).Some? ==> Translate(s, v).value.level == 1
  }

  predicate HasRoute(s: Paged, r: Route) {
    TableOn(s.mem, s.root, r).Some?
  }

  /** Those of `routes` that do not lead to a table yet. */
  function Lacking(s: Paged, routes: set<Route>): set<Route> {
    set r | r in routes && !HasRoute(s, r)
  }

  /** The three tables a mapping of page `v` goes through below the root. */
  function RoutesOf(v: nat): set<Route> {
    {RouteOf(v, 3), RouteOf(v, 2), RouteOf(v, 1)}
  }

  /** The frames `added` went from the free ones to the tables, and other frames kept their contents. */
  ghost predicate Spent(s: Paged, s': Paged, added: set<nat>) {
    && s'.root == s.root && |s'.mem| == |s.mem|
    && added <= s.free && s'.free == s.free - added
    && s'.place.Keys == s.place.Keys + added
    && (forall g: nat :: g < |s.mem| && g !in s'.place ==> s'.mem[g] == s.mem[g])
  }

  /** The routes that lead to a table are those before, which lead to the same tables, and `routes`. */
  ghost predicate Opens(s: Paged, s': Paged, routes: set<Route>) {
    && (forall r :: HasRoute(s', r) <==> HasRoute(s, r) || r in routes)
    && (forall r :: HasRoute(s, r) ==> TableOn(s'.mem, s'.root, r) == TableOn(s.mem, s.root, r))
  }

  ghost predicate SameTranslation(s: Paged, s': Paged) {
    forall w :: Translate(s', w) == Translate(s, w)
  }

  /**
   `s` grew into `s'` by one allocated table for each of the lacking `routes`, and every page
   translates as before.
   */
  ghost predicate Grown(s: Paged, s': Paged, routes: set<Route>, added: set<nat>) {
    && Spent(s, s', added) && |added| == |Lacking(s, routes)|
    && Opens(s, s', routes)
    && SameTranslation(s, s')
  }

  /** A zeroed free frame `z` is hooked into the empty slot `i` of table `f`. */
  function Fill(s: Paged, level: nat, f: nat, i: nat, z: nat): Paged
    requires f < |s.mem| && i < 512 && z < |s.mem| <= 0x100_0000_0000 && level > 0
  {
    s.(mem := AddTable(s.mem, f, i, z), place := s.place[z := Place(level - 1, f, i)], free := s.free - {z})
  }

  lemma FillIsSound(s: Paged, level: nat, f: nat, i: nat, z: nat)
    requires Sound(s) && f in s.place && s.place[f].level == level > 1 && i < 512 && !Present(s.mem[f][i])
    requires z in s.free
    ensures Sound(Fill(s, level, f, i, z))
  {
    AddTableKeepsTree(s.mem, s.root, s.place, level, f, i, z);
  }

  lemma FillOpens(s: Paged, q: Route, f: nat, i: nat, z: nat)
    requires Sound(s) && TableOn(s.mem, s.root, q) == Some(f)
    requires f in s.place && s.place[f].level == Level(q) > 1 && i < 512 && !Present(s.mem[f][i])
    requires z in s.free
    ensures Opens(s, Fill(s, Level(q), f, i, z), {Via(q, i)}) && !HasRoute(s, Via(q, i))
    ensures TableOn(Fill(s, Level(q), f, i, z).mem, s.root, Via(q, i)) == Some(z)
  {
    forall r
      ensures TableOn(AddTable(s.mem, f, i, z), s.root, r) == if r == Via(q, i) then Some(z)
              else TableOn(s.mem, s.root, r)
    {
      AddTableOpens(s.mem, s.root, s.place, q, i, z, r);
    }
  }

  /** Filling a slot translates no page differently and opens exactly one route. */
  lemma FillGrows(s: Paged, q: Route, f: nat, i: nat, z: nat)
    requires Sound(s) && TableOn(s.mem, s.root, q) == Some(f)
    requires f in s.place && s.place[f].level == Level(q) > 1 && i < 512 && !Present(s.mem[f][i])
    requires z in s.free
    ensures Grown(s, Fill(s, Level(q), f, i, z), {Via(q, i)}, {z})
    ensures TableOn(Fill(s, Level(q), f, i, z).mem, s.root, Via(q, i)) == Some(z)
  {
    var s' := Fill(s, Level(q), f, i, z);
    forall w
      ensures Translate(s', w) == Translate(s, w)
    {
      AddTableKeepsWalks(s.mem, s.root, s.place, f, i, z, s.root, w);
    }
    FillOpens(s, q, f, i, z);
    assert Lacking(s, {Via(q, i)}) == {Via(q, i)};
  }

  /** A slot that refers down needs no table. */
  lemma GrownNot(s: Paged, q: Route, f: nat, i: nat)
    requires TableOn(s.mem, s.root, q) == Some(f) && f < |s.mem| && i < 512 && Down(s.mem[f][i], Level(q))
    ensures TableOn(s.mem, s.root, Via(q, i)) == Some(FrameOf(s.mem[f][i]))
    ensures Grown(s, s, {Via(q, i)}, {})
  {
  }

  lemma SpentTwice(s0: Paged, s1: Paged, s2: Paged, a1: set<nat>, a2: set<nat>)
    requires Spent(s0, s1, a1) && Spent(s1, s2, a2)
    ensures Spent(s0, s2, a1 + a2) && a1 !! a2
  {
  }

  lemma DisjointSizes<T>(a: set<T>, b: set<T>)
    requires a !! b
    ensures |a + b| == |a| + |b|
  {
  }

  lemma WithoutSize<T>(a: set<T>, b: set<T>)
    requires b <= a
    ensures |a - b| == |a| - |b|
  {
  }

  /** Each added table costs one free frame. */
  lemma FreeLeft(s: Paged, s': Paged, added: set<nat>)
    requires Spent(s, s', added)
    ensures |s'.free| == |s.free| - |added|
  {
  }

  lemma LackingTwice(s0: Paged, s1: Paged, s2: Paged, r1: set<Route>, r2: set<Route>)
    requires Opens(s0, s1, r1) && Opens(s1, s2, r2)
    ensures Opens(s0, s2, r1 + r2)
    ensures Lacking(s0, r1 + r2) == Lacking(s0, r1) + Lacking(s1, r2) && Lacking(s0, r1) !! Lacking(s1, r2)
  {
  }

  lemma GrownTwice(s0: Paged, s1: Paged, s2: Paged, r1: set<Route>, r2: set<Route>, a1: set<nat>, a2: set<nat>)
    requires Grown(s0, s1, r1, a1) && Grown(s1, s2, r2, a2)
    ensures Grown(s0, s2, r1 + r2, a1 + a2)
  {
    SpentTwice(s0, s1, s2, a1, a2);
    LackingTwice(s0, s1, s2, r1, r2);
    DisjointSizes(a1, a2);
    DisjointSizes(Lacking(s0, r1), Lacking(s1, r2));
  }

  /** Page `v` now ends at entry `e`, and every other page translates as before. */
  ghost predicate Remapped(s: Paged, s': Paged, v: nat, e: Word) {
    forall w: nat :: w < PAGES ==> Translate(s', w) == if w == v then Some(Leaf(1, e)) else Translate(s, w)
  }

  /** `v` is mapped, the tables on its path exist, and exactly the missing ones were allocated. */
  ghost predicate Mapped(s: Paged, s': Paged, v: nat, e: Word, added: set<nat>) {
    && Spent(s, s', added) && |added| == |Lacking(s, RoutesOf(v))|
    && Opens(s, s', RoutesOf(v))
    && Remapped(s, s', v, e)
  }

  /** The leaf of `v` set in its page table. */
  function WithLeaf(s: Paged, v: nat, e: Word): Paged
    requires TableAt(s.mem, s.root, 1, v).Some?
  {
    s.(mem := SetLeaf(s.mem, s.root, v, e))
  }

  lemma LeafOnGrown(s: Paged, s1: Paged, v: nat, e: Word, added: set<nat>)
    requires Grown(s, s1, RoutesOf(v), added) && Sound(s1)
    requires TableAt(s1.mem, s1.root, 1, v).Some? && Present(e) && v < PAGES
    ensures Sound(WithLeaf(s1, v, e)) && Mapped(s, WithLeaf(s1, v, e), v, e, added)
  {
    var s2 := WithLeaf(s1, v, e);
    PlacedOn(s1.mem, s1.root, s1.place, RouteOf(v, 1));
    SetLeafKeepsTree(s1.mem, s1.root, s1.place, v, e);
    assert Remapped(s, s2, v, e) by {
      forall w: nat | w < PAGES
        ensures Translate(s2, w) == if w == v then Some(Leaf(1, e)) else Translate(s, w)
      {
        SetLeafMaps(s1.mem, s1.root, s1.place, v, e, w);
      }
    }
    assert Opens(s, s2, RoutesOf(v)) by {
      forall r
        ensures TableOn(s2.mem, s2.root, r) == TableOn(s1.mem, s1.root, r)
      {
        SetLeafKeepsRoutes(s1.mem, s1.root, s1.place, v, e, r);
      }
    }
  }

  /** The state after `vmm_initialize` took the free frame `z` for the new root. */
  ghost function Rooted(s: Paged, z: nat): Paged
    requires s.root < |s.mem| && z < |s.mem|
  {
    Paged(s.mem[z := SharedRoot(s.mem[s.root])], z, UpperPlaces(s.root, s.place, z), s.free - {z})
  }

  /** The new lower half is wholly unmapped, and the upper half translates as before. */
  lemma RootedTranslates(s: Paged, z: nat)
    requires Sound(s) && z in s.free
    ensures Sound(Rooted(s, z))
    ensures forall v: nat | v < PAGES :: Translate(Rooted(s, z), v) == if v < PAGES / 2 then None else Translate(s, v)
  {
    SharedRootTree(s.mem, s.root, s.place, z);
    forall v: nat | v < PAGES
      ensures Translate(Rooted(s, z), v) == if v < PAGES / 2 then None else Translate(s, v)
    {
      SharedRootWalks(s.mem, s.root, s.place, z, v);
    }
  }
}
