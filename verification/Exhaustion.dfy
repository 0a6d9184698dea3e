/** What `vmm_map_page` does when frames run out. */
module Exhaustion {
  import opened Bits
  import opened Wrappers
  import opened Paging
  import opened Mapping
  import opened Descent

  /**
   `vmm_map_page` is a map update that leaves a tree of tables, hanging where it hung them, exactly when a frame is free
   for every missing table, except for one: when nothing is free `pmm_alloc_block` gives 0, and frame 0 will do, once,
   if it is not a table yet and not handed out as a free frame.
   */
  lemma MapsExactly(s: Paged, v: nat, e: Word)
    requires Sound(s) && Small(s, v) && Present(e) && v < PAGES
    ensures Fits(s) && s.root < |s.mem|
    ensures var t := MapSteps(s, v, e);
            Sound(t) && Remapped(s, t, v, e) <==> |Lacking(s, RoutesOf(v))| <= |s.free| + Spare(s)
  {
    RootIntact(s, v);
    AllBelow(v);
    var r := Descend(s, 4, s.root, v);
    if MissingBelow(s, v, 4) <= |s.free| + Spare(s) {
      DescendsIntact(s, 4, s.root, v);
      PutMaps(s, r, v, e);
    } else {
      DescendsBroken(s, 4, s.root, v);
      PutStaysBroken(r, v, e);
      BrokenIsNoTree(PutEntry(r, v, e));
    }
  }

  /**
   Out of frames with an empty root: frame 0 is cleared for each of the three tables in turn, and
   the page is lost.
   */
  lemma NotMapped(s: Paged, v: nat, e: Word)
    requires Sound(s) && s.free == {} && 0 !in s.place && s.root < |s.mem| && !Present(s.mem[s.root][Index(v, 4)])
    requires Index(v, 3) != Index(v, 2) && Index(v, 3) != Index(v, 1)
    ensures Fits(s) && Translate(MapSteps(s, v, e), v) == None
  {
    var t1 := Hook(s, 4, s.root, Index(v, 4));
    var t2 := Hook(t1, 3, 0, Index(v, 3));
    var t3 := Hook(t2, 2, 0, Index(v, 2));
    assert Descend(t3, 1, 0, v) == Reached(t3, 0);
    assert Descend(t2, 2, 0, v) == Reached(t3, 0);
    assert Descend(t1, 3, 0, v) == Reached(t3, 0);
    var t := MapSteps(s, v, e);
    assert t.mem[s.root][Index(v, 4)] == TableEntry(0) && t.mem[0][Index(v, 3)] == 0;
    assert Walk(t.mem, 0, 3, v) == None;
  }

  /** Two frames, nothing free: an empty root in frame 1. */
  function BareRoot(): Paged {
    Paged([ZeroFrame(), ZeroFrame()], 1, map[1 := Place(4, 0, 0)], {})
  }

  lemma BareRootIsSound(v: nat)
    ensures Sound(BareRoot()) && Spare(BareRoot()) == 1 && Translate(BareRoot(), v) == None
    ensures Lacking(BareRoot(), RoutesOf(v)) == RoutesOf(v) && |RoutesOf(v)| == 3
  {
    var s := BareRoot();
    assert TableOn(s.mem, s.root, Top) == Some(1);
    assert RouteOf(v, 3) == Via(Top, Index(v, 4));
    assert RouteOf(v, 2) == Via(RouteOf(v, 3), Index(v, 3));
    assert RouteOf(v, 1) == Via(RouteOf(v, 2), Index(v, 2));
  }

  /** There the page at 1 GiB is not mapped. */
  lemma GibibyteLost(e: Word)
    ensures Sound(BareRoot()) && Fits(BareRoot()) && Translate(MapSteps(BareRoot(), 0x4_0000, e), 0x4_0000) == None
  {
    var v := 0x4_0000;
    BareRootIsSound(v);
    NotMapped(BareRoot(), v, e);
  }

  /** With two tables missing the page is mapped, but frame 0 refers to itself, so that no arrangement makes a tree. */
  lemma SelfReference(s: Paged, f: nat, v: nat, e: Word, place: map<nat, Place>)
    requires Sound(s) && s.free == {} && 0 !in s.place && Small(s, v) && Present(e)
    requires TableAt(s.mem, s.root, 3, v) == Some(f) && f < |s.mem| && !Present(s.mem[f][Index(v, 3)])
    requires Index(v, 2) != Index(v, 1)
    ensures Fits(s) && s.root < |s.mem|
    ensures Translate(MapSteps(s, v, e), v) == Some(Leaf(1, e))
    ensures !Tree(MapSteps(s, v, e).mem, s.root, place)
  {
    RootIntact(s, v);
    IntactTable(s, 3, f, v);
    assert Present(s.mem[s.root][Index(v, 4)]);
    var t2 := Hook(s, 3, f, Index(v, 3));
    var t3 := Hook(t2, 2, 0, Index(v, 2));
    assert Descend(t3, 1, 0, v) == Reached(t3, 0);
    assert Descend(t2, 2, 0, v) == Reached(t3, 0);
    assert Descend(s, 3, f, v) == Reached(t3, 0);
    assert Descend(s, 4, s.root, v) == Reached(t3, 0);
    var t := MapSteps(s, v, e);
    var top := t.mem[s.root][Index(v, 4)];
    assert top == s.mem[s.root][Index(v, 4)] && FrameOf(top) == f && Down(top, 4);
    assert t.mem[f][Index(v, 3)] == TableEntry(0);
    assert t.mem[0][Index(v, 2)] == TableEntry(0) && t.mem[0][Index(v, 1)] == e;
    assert Walk(t.mem, 0, 2, v) == Walk(t.mem, 0, 1, v) == Some(Leaf(1, e));
    assert Walk(t.mem, f, 3, v) == Some(Leaf(1, e));
    if s.root in place && place[s.root].level == 4 && !(f in place && place[f].level == 3) {
      assert !RefersDown(t.mem, place, s.root, Index(v, 4));
    }
    if f in place && place[f].level == 3 && !(0 in place && place[0] == Place(2, f, Index(v, 3))) {
      assert !RefersDown(t.mem, place, f, Index(v, 3));
    }
    if 0 in place && place[0] == Place(2, f, Index(v, 3)) {
      assert !RefersDown(t.mem, place, 0, Index(v, 2));
    }
  }
}
