/** The steps of `vmm_map_page` as functions of memory and free frames, whether or not frames remain. */
module Descent {
  import opened Bits
  import opened Wrappers
  import opened Paging
  import opened Mapping

  /** What `pmm_alloc_block` gives: the lowest free frame, and 0 when none is free. */
  ghost predicate IsNext(free: set<nat>, z: nat) {
    if free == {} then z == 0 else z in free && forall y :: y in free ==> z <= y
  }

  lemma HasLowest(free: set<nat>, z: nat)
    requires z in free
    ensures exists y :: IsNext(free, y)
    decreases z
  {
    if !IsNext(free, z) {
      var y :| y in free && y < z;
      HasLowest(free, y);
    }
  }

  ghost function NextFrame(free: set<nat>): (z: nat)
    ensures IsNext(free, z)
  {
    if free == {} then 0
    else
      var any: nat :| any in free;
      HasLowest(free, any);
      var z: nat :| IsNext(free, z);
      z
  }

  ghost predicate Fits(s: Paged) {
    0 < |s.mem| <= 0x100_0000_0000 && forall f :: f in s.free ==> f < |s.mem|
  }

  /** One of the three `if`s: the empty slot `i` of table `f` gets a table, a present one stays. */
  ghost function Hook(s: Paged, level: nat, f: nat, i: nat): (t: Paged)
    requires Fits(s) && f < |s.mem| && i < 512 && level > 0
    ensures Fits(t) && |t.mem| == |s.mem| && t.root == s.root
  {
    if Present(s.mem[f][i]) then s else Fill(s, level, f, i, NextFrame(s.free))
  }

  /** Where the walk down the tables ends. */
  datatype Reached = Reached(s: Paged, table: nat)

  /** From table `f` of `level` down to the page table of `v`. */
  ghost function Descend(s: Paged, level: nat, f: nat, v: nat): (r: Reached)
    requires Fits(s) && f < |s.mem| && 1 <= level <= 4
    ensures Fits(r.s) && |r.s.mem| == |s.mem| && r.s.root == s.root
    decreases level, v
  {
    if level == 1 then Reached(s, f)
    else
      var t := Hook(s, level, f, Index(v, level));
      var g := FrameOf(t.mem[f][Index(v, level)]);
      if g < |t.mem| then Descend(t, level - 1, g, v) else Reached(t, g)
  }

  /** The last store: the entry of `v` in its page table. */
  ghost function PutEntry(r: Reached, v: nat, e: Word): Paged {
    if r.table < |r.s.mem| then r.s.(mem := r.s.mem[r.table := r.s.mem[r.table][Index(v, 1) := e]]) else r.s
  }

  /** All of `vmm_map_page`, for the entry `e`. */
  ghost function MapSteps(s: Paged, v: nat, e: Word): Paged
    requires Fits(s) && s.root < |s.mem|
  {
    PutEntry(Descend(s, 4, s.root, v), v, e)
  }

  // Going down intact tables, or through frame 0 after it was taken for a second time.

  ghost predicate Intact(s: Paged, level: nat, f: nat, v: nat)
    requires level <= 4
  {
    Sound(s) && Small(s, v) && TableAt(s.mem, s.root, level, v) == Some(f)
  }

  lemma IntactTable(s: Paged, level: nat, f: nat, v: nat)
    requires 1 <= level <= 4 && Intact(s, level, f, v)
    ensures Fits(s) && f in s.place && f < |s.mem| && s.place[f].level == level
  {
    PlacedOn(s.mem, s.root, s.place, RouteOf(v, level));
  }

  /** Nothing is free, and frame 0 refers to nothing but itself. */
  ghost predicate Lost(s: Paged) {
    && Fits(s) && s.free == {}
    && forall i :: 0 <= i < 512 ==> s.mem[0][i] == 0 || s.mem[0][i] == TableEntry(0)
  }

  /** Can a frame still be used as a table for the first time when none is free? Only frame 0, if it is not one yet. */
  function Spare(s: Paged): nat { if 0 in s.place || 0 in s.free then 0 else 1 }

  /** A present slot on the path leads to the next table. */
  lemma HookPresent(s: Paged, level: nat, f: nat, v: nat)
    requires 2 <= level <= 4 && Intact(s, level, f, v) && f < |s.mem| && Present(s.mem[f][Index(v, level)])
    ensures Intact(s, level - 1, FrameOf(s.mem[f][Index(v, level)]), v)
    ensures Grown(s, s, {RouteOf(v, level - 1)}, {})
  {
    SlotIsClear(s.mem, s.root, level, v);
    GrownNot(s, RouteOf(v, level), f, Index(v, level));
  }

  /** An empty slot gets the free frame `z`. */
  lemma HookFree(s: Paged, level: nat, f: nat, v: nat, z: nat)
    requires 2 <= level <= 4 && Intact(s, level, f, v) && f < |s.mem| && !Present(s.mem[f][Index(v, level)])
    requires z in s.free
    ensures var t := Fill(s, level, f, Index(v, level), z);
            && Intact(t, level - 1, z, v) && FrameOf(t.mem[f][Index(v, level)]) == z
            && Grown(s, t, {RouteOf(v, level - 1)}, {z}) && !HasRoute(s, RouteOf(v, level - 1))
  {
    IntactTable(s, level, f, v);
    FillIsSound(s, level, f, Index(v, level), z);
    FillGrows(s, RouteOf(v, level), f, Index(v, level), z);
    FillOpens(s, RouteOf(v, level), f, Index(v, level), z);
  }

  /** The same with frame 0 when nothing is free and frame 0 is not a table yet. */
  lemma HookSpare(s: Paged, level: nat, f: nat, v: nat)
    requires 2 <= level <= 4 && Intact(s, level, f, v) && f < |s.mem| && !Present(s.mem[f][Index(v, level)])
    requires s.free == {} && 0 !in s.place
    ensures var t := Fill(s, level, f, Index(v, level), 0);
            && Intact(t, level - 1, 0, v) && FrameOf(t.mem[f][Index(v, level)]) == 0
            && t.free == {} && SameTranslation(s, t)
            && Opens(s, t, {RouteOf(v, level - 1)}) && !HasRoute(s, RouteOf(v, level - 1))
  {
    IntactTable(s, level, f, v);
    var s0 := s.(free := {0});
    HookFree(s0, level, f, v, 0);
    assert Fill(s0, level, f, Index(v, level), 0) == Fill(s, level, f, Index(v, level), 0);
  }

  // Frame 0 used twice.

  /** A slot refers to frame 0, but frame 0 was hung somewhere else. */
  ghost predicate Crossed(s: Paged, p: nat, i: nat) {
    && p in s.place && p != 0 && p < |s.mem| && i < 512 && 0 in s.place
    && Down(s.mem[p][i], s.place[p].level) && FrameOf(s.mem[p][i]) == 0
    && (s.place[0].parent != p || s.place[0].index != i)
  }

  ghost predicate Broken(s: Paged) {
    || (s.root == 0 && 0 in s.place && s.place[0].level < 4)
    || exists p, i :: Crossed(s, p, i)
  }

  lemma BrokenIsNoTree(s: Paged)
    requires Broken(s)
    ensures !Tree(s.mem, s.root, s.place)
  {
    if p, i :| Crossed(s, p, i) {
      assert !RefersDown(s.mem, s.place, p, i);
    }
  }

  /** Taking frame 0 when it is a table already. */
  lemma HookBreaks(s: Paged, level: nat, f: nat, v: nat)
    requires 2 <= level <= 4 && Intact(s, level, f, v) && f < |s.mem| && !Present(s.mem[f][Index(v, level)])
    requires s.free == {} && 0 in s.place
    ensures var t := Fill(s, level, f, Index(v, level), 0);
            Lost(t) && Broken(t) && FrameOf(t.mem[f][Index(v, level)]) == 0
  {
    IntactTable(s, level, f, v);
    var t := Fill(s, level, f, Index(v, level), 0);
    if s.root != 0 {
      assert Hangs(s.mem, s.place, 0);
      assert Crossed(t, s.place[0].parent, s.place[0].index);
    }
  }

  /** From there on everything goes through frame 0. */
  lemma {:induction false} StaysBroken(s: Paged, level: nat, v: nat)
    requires Lost(s) && Broken(s) && 1 <= level < 4
    ensures var r := Descend(s, level, 0, v); Broken(r.s) && r.table == 0
    decreases level
  {
    if level > 1 {
      var i := Index(v, level);
      var t := Hook(s, level, 0, i);
      if s.mem[0][i] == 0 {
        assert t == Fill(s, level, 0, i, 0);
        if p, k :| Crossed(s, p, k) { assert Crossed(t, p, k); }
      }
      StaysBroken(t, level - 1, v);
    }
  }

  lemma PutStaysBroken(r: Reached, v: nat, e: Word)
    requires Broken(r.s) && r.table == 0
    ensures Broken(PutEntry(r, v, e))
  {
    if p, i :| Crossed(r.s, p, i) { assert Crossed(PutEntry(r, v, e), p, i); }
  }

  /** Each step leads to a table inside memory. */
  ghost predicate Going(s: Paged, level: nat, f: nat, v: nat)
    requires level <= 4
  {
    Intact(s, level, f, v) || (Lost(s) && f == 0)
  }

  lemma HookGoes(s: Paged, level: nat, f: nat, v: nat)
    requires 2 <= level <= 4 && Fits(s) && f < |s.mem| && Going(s, level, f, v)
    ensures var t := Hook(s, level, f, Index(v, level));
            var g := FrameOf(t.mem[f][Index(v, level)]);
            g < |t.mem| && Going(t, level - 1, g, v)
  {
    var i := Index(v, level);
    if Intact(s, level, f, v) {
      if Present(s.mem[f][i]) {
        HookPresent(s, level, f, v);
        IntactTable(s, level - 1, FrameOf(s.mem[f][i]), v);
      } else if s.free != {} {
        HookFree(s, level, f, v, NextFrame(s.free));
      } else if 0 !in s.place {
        HookSpare(s, level, f, v);
      } else {
        HookBreaks(s, level, f, v);
      }
    }
  }

  // Counting.

  /** The tables below `level` on the way to page `v`. */
  function RoutesBelow(v: nat, level: nat): set<Route>
    requires level <= 4
    decreases level, v
  {
    if level <= 1 then {} else {RouteOf(v, level - 1)} + RoutesBelow(v, level - 1)
  }

  lemma {:induction false} BelowLevel(v: nat, level: nat)
    requires level <= 4
    ensures forall r :: r in RoutesBelow(v, level) ==> Level(r) < level
    decreases level
  {
    if level > 1 { BelowLevel(v, level - 1); }
  }

  lemma AllBelow(v: nat)
    ensures RoutesBelow(v, 4) == RoutesOf(v)
  {
    assert RoutesBelow(v, 1) == {};
    assert RoutesBelow(v, 2) == {RouteOf(v, 1)};
    assert RoutesBelow(v, 3) == {RouteOf(v, 2), RouteOf(v, 1)};
  }

  /** How many tables are missing below `level`. */
  function MissingBelow(s: Paged, v: nat, level: nat): nat
    requires level <= 4
  {
    |Lacking(s, RoutesBelow(v, level))|
  }

  /** Opening the next route takes exactly that one off the count. */
  lemma OneFewer(s: Paged, t: Paged, v: nat, level: nat)
    requires 2 <= level <= 4 && Opens(s, t, {RouteOf(v, level - 1)})
    ensures MissingBelow(s, v, level)
            == MissingBelow(t, v, level - 1) + if HasRoute(s, RouteOf(v, level - 1)) then 0 else 1
  {
    BelowLevel(v, level - 1);
    var r := RouteOf(v, level - 1);
    var later := Lacking(s, RoutesBelow(v, level - 1));
    assert later == Lacking(t, RoutesBelow(v, level - 1)) && r !in later;
    if HasRoute(s, r) {
      assert Lacking(s, RoutesBelow(v, level)) == later;
    } else {
      assert Lacking(s, RoutesBelow(v, level)) == {r} + later;
    }
  }

  lemma NothingBelow(s: Paged, v: nat)
    ensures MissingBelow(s, v, 1) == 0
  {
    assert Lacking(s, RoutesBelow(v, 1)) == {};
  }

  /** An empty slot means that the next table is missing. */
  lemma NeedsOne(s: Paged, v: nat, level: nat, f: nat)
    requires 2 <= level <= 4 && Intact(s, level, f, v) && f < |s.mem| && !Present(s.mem[f][Index(v, level)])
    ensures !HasRoute(s, RouteOf(v, level - 1)) && MissingBelow(s, v, level) >= 1
  {
    assert RouteOf(v, level - 1) in Lacking(s, RoutesBelow(v, level));
  }

  /** A step that does not take frame 0 a second time keeps the difference between missing tables and frames. */
  lemma HookCounts(s: Paged, level: nat, f: nat, v: nat)
    requires 2 <= level <= 4 && Fits(s) && Intact(s, level, f, v) && f < |s.mem|
    requires Present(s.mem[f][Index(v, level)]) || |s.free| + Spare(s) > 0
    ensures var t := Hook(s, level, f, Index(v, level));
            && Intact(t, level - 1, FrameOf(t.mem[f][Index(v, level)]), v) && SameTranslation(s, t)
            && MissingBelow(s, v, level) - |s.free| - Spare(s) == MissingBelow(t, v, level - 1) - |t.free| - Spare(t)
  {
    var t := Hook(s, level, f, Index(v, level));
    if Present(s.mem[f][Index(v, level)]) {
      HookPresent(s, level, f, v);
    } else {
      NeedsOne(s, v, level, f);
      if s.free != {} {
        HookFree(s, level, f, v, NextFrame(s.free));
        WithoutSize(s.free, {NextFrame(s.free)});
      } else {
        HookSpare(s, level, f, v);
      }
    }
    OneFewer(s, t, v, level);
  }

  /** A step that is not out of frames spends exactly the one it needs. */
  lemma HookGrows(s: Paged, level: nat, f: nat, v: nat)
    requires 2 <= level <= 4 && Fits(s) && Intact(s, level, f, v) && f < |s.mem|
    requires Present(s.mem[f][Index(v, level)]) || s.free != {}
    ensures var t := Hook(s, level, f, Index(v, level));
            && Grown(s, t, {RouteOf(v, level - 1)}, s.free - t.free)
            && MissingBelow(s, v, level) - |s.free| == MissingBelow(t, v, level - 1) - |t.free|
  {
    var t := Hook(s, level, f, Index(v, level));
    if Present(s.mem[f][Index(v, level)]) {
      HookPresent(s, level, f, v);
      assert s.free - t.free == {};
    } else {
      NeedsOne(s, v, level, f);
      var z := NextFrame(s.free);
      HookFree(s, level, f, v, z);
      WithoutSize(s.free, {z});
      assert s.free - t.free == {z};
    }
    OneFewer(s, t, v, level);
  }

  // The whole way down.

  /** One step of the descent. */
  lemma DescendStep(s: Paged, level: nat, f: nat, v: nat)
    requires 2 <= level <= 4 && Fits(s) && f < |s.mem| && Going(s, level, f, v)
    ensures var t := Hook(s, level, f, Index(v, level));
            var g := FrameOf(t.mem[f][Index(v, level)]);
            g < |t.mem| && Descend(s, level, f, v) == Descend(t, level - 1, g, v)
  {
    HookGoes(s, level, f, v);
  }

  /** Enough frames, counting frame 0 while it can serve: the page table is reached, and nothing else changed. */
  lemma {:induction false} DescendsIntact(s: Paged, level: nat, f: nat, v: nat)
    requires 1 <= level <= 4 && Intact(s, level, f, v) && Fits(s) && f < |s.mem|
    requires MissingBelow(s, v, level) <= |s.free| + Spare(s)
    ensures var r := Descend(s, level, f, v); Intact(r.s, 1, r.table, v) && SameTranslation(s, r.s)
    decreases level
  {
    if level > 1 {
      if !Present(s.mem[f][Index(v, level)]) { NeedsOne(s, v, level, f); }
      HookCounts(s, level, f, v);
      DescendStep(s, level, f, v);
      var t := Hook(s, level, f, Index(v, level));
      DescendsIntact(t, level - 1, FrameOf(t.mem[f][Index(v, level)]), v);
    }
  }

  /** Too few frames, even with frame 0: the tables end up crossed. */
  lemma {:induction false} DescendsBroken(s: Paged, level: nat, f: nat, v: nat)
    requires 1 <= level <= 4 && Intact(s, level, f, v) && Fits(s) && f < |s.mem|
    requires MissingBelow(s, v, level) > |s.free| + Spare(s)
    ensures var r := Descend(s, level, f, v); Broken(r.s) && r.table == 0
    decreases level
  {
    NothingBelow(s, v);
    if level > 1 {
      DescendStep(s, level, f, v);
      var t := Hook(s, level, f, Index(v, level));
      if Present(s.mem[f][Index(v, level)]) || |s.free| + Spare(s) > 0 {
        HookCounts(s, level, f, v);
        DescendsBroken(t, level - 1, FrameOf(t.mem[f][Index(v, level)]), v);
      } else {
        HookBreaks(s, level, f, v);
        StaysBroken(t, level - 1, v);
      }
    }
  }

  /** One step of the descent when enough frames are free. */
  lemma GrowStep(s: Paged, level: nat, f: nat, v: nat) returns (t: Paged, g: nat)
    requires 2 <= level <= 4 && Intact(s, level, f, v) && Fits(s) && f < |s.mem|
    requires MissingBelow(s, v, level) <= |s.free|
    ensures t == Hook(s, level, f, Index(v, level)) && Fits(t) && g < |t.mem|
    ensures Intact(t, level - 1, g, v) && MissingBelow(t, v, level - 1) <= |t.free|
    ensures Grown(s, t, {RouteOf(v, level - 1)}, s.free - t.free)
    ensures Descend(s, level, f, v) == Descend(t, level - 1, g, v)
  {
    t := Hook(s, level, f, Index(v, level));
    g := FrameOf(t.mem[f][Index(v, level)]);
    if !Present(s.mem[f][Index(v, level)]) { NeedsOne(s, v, level, f); }
    HookGrows(s, level, f, v);
    HookCounts(s, level, f, v);
    DescendStep(s, level, f, v);
  }

  /** With a free frame for every missing table, exactly those frames are spent. */
  lemma {:induction false} DescendGrows(s: Paged, level: nat, f: nat, v: nat, u: Paged)
    requires 1 <= level <= 4 && Intact(s, level, f, v) && Fits(s) && f < |s.mem| && u == Descend(s, level, f, v).s
    requires MissingBelow(s, v, level) <= |s.free|
    ensures Grown(s, u, RoutesBelow(v, level), s.free - u.free)
    decreases level
  {
    if level == 1 {
      NothingOpened(s, v);
    } else {
      var t, g := GrowStep(s, level, f, v);
      DescendGrows(t, level - 1, g, v, u);
      SpentInAll(s, t, u, {RouteOf(v, level - 1)}, RoutesBelow(v, level - 1), s.free - t.free, t.free - u.free);
    }
  }

  lemma NothingOpened(s: Paged, v: nat)
    ensures Grown(s, s, RoutesBelow(v, 1), s.free - s.free)
  {
    assert Lacking(s, RoutesBelow(v, 1)) == {} && s.free - s.free == {};
  }

  lemma SpentInAll(s: Paged, t: Paged, u: Paged, r1: set<Route>, r2: set<Route>, a1: set<nat>, a2: set<nat>)
    requires Grown(s, t, r1, a1) && Grown(t, u, r2, a2) && a1 == s.free - t.free && a2 == t.free - u.free
    ensures Grown(s, u, r1 + r2, s.free - u.free)
  {
    GrownTwice(s, t, u, r1, r2, a1, a2);
    JoinSpent(s.free, t.free, u.free);
  }

  lemma JoinSpent(a: set<nat>, b: set<nat>, c: set<nat>)
    requires b <= a && c <= b
    ensures (a - b) + (b - c) == a - c
  {
  }

  /** The entry stored in the page table that was reached. */
  lemma PutMaps(s: Paged, r: Reached, v: nat, e: Word)
    requires Intact(r.s, 1, r.table, v) && SameTranslation(s, r.s) && Present(e) && v < PAGES
    ensures PutEntry(r, v, e) == WithLeaf(r.s, v, e)
    ensures Sound(PutEntry(r, v, e)) && Remapped(s, PutEntry(r, v, e), v, e)
  {
    IntactTable(r.s, 1, r.table, v);
    SetLeafKeepsTree(r.s.mem, r.s.root, r.s.place, v, e);
    forall w: nat | w < PAGES
      ensures Translate(PutEntry(r, v, e), w) == if w == v then Some(Leaf(1, e)) else Translate(s, w)
    {
      SetLeafMaps(r.s.mem, r.s.root, r.s.place, v, e, w);
    }
  }

  lemma RootIntact(s: Paged, v: nat)
    requires Sound(s) && Small(s, v)
    ensures Intact(s, 4, s.root, v) && Fits(s) && s.root < |s.mem|
  {
  }

  /** With a free frame for every missing table, the steps are a map update that spends exactly those frames. */
  lemma StepsMap(s: Paged, v: nat, e: Word)
    requires Sound(s) && Small(s, v) && Present(e) && v < PAGES && |Lacking(s, RoutesOf(v))| <= |s.free|
    ensures Fits(s) && s.root < |s.mem|
    ensures var t := MapSteps(s, v, e); Sound(t) && Mapped(s, t, v, e, s.free - t.free)
  {
    RootIntact(s, v);
    AllBelow(v);
    DescendGrows(s, 4, s.root, v, Descend(s, 4, s.root, v).s);
    DescendsIntact(s, 4, s.root, v);
    var r := Descend(s, 4, s.root, v);
    PutMaps(s, r, v, e);
    LeafOnGrown(s, r.s, v, e, s.free - r.s.free);
  }
}
