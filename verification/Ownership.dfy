/** Frames given to one virtual page each, and what any run of allocate-then-map steps does with them. */
module Ownership {
  import opened Bits
  import opened Paging
  import opened Mapping

  /**
   Frames that were given to one page each: what page `owner[f]` translates to is `f`, and `f` is
   neither a table nor free. A frame has one owner, so no two pages share a frame.
   */
  ghost predicate Owns(s: Paged, owner: map<nat, nat>) {
    forall f :: f in owner ==> OwnFrame(s, owner[f], f)
  }

  ghost predicate OwnFrame(s: Paged, v: nat, f: nat) {
    && v < PAGES && f < |s.mem| && f !in s.place && f !in s.free
    && Translate(s, v).Some? && Translate(s, v).value.level == 1 && FrameOf(Translate(s, v).value.entry) == f
  }

  /** The owners other than page `v`. */
  function Without(owner: map<nat, nat>, v: nat): map<nat, nat> {
    map f | f in owner && owner[f] != v :: owner[f]
  }

  /** Mapping `v` anywhere leaves the other pages their own frames, with their contents. */
  lemma MappedKeepsOwned(s: Paged, s': Paged, v: nat, e: Word, added: set<nat>, owner: map<nat, nat>)
    requires Mapped(s, s', v, e, added) && Owns(s, owner)
    ensures Owns(s', Without(owner, v))
    ensures forall f :: f in owner ==> f < |s.mem| && s'.mem[f] == s.mem[f]
  {
  }

  /** Mapping `v` to a frame just allocated gives `v` a frame of its own. */
  lemma FreshIsOwned(s: Paged, s': Paged, v: nat, e: Word, added: set<nat>, owner: map<nat, nat>, z: nat)
    requires Sound(s) && Owns(s, owner) && z in s.free
    requires Mapped(s.(free := s.free - {z}), s', v, e, added) && FrameOf(e) == z && v < PAGES
    ensures z !in owner && Owns(s', Without(owner, v)[z := v])
    ensures forall f :: f in owner ==> f < |s.mem| && s'.mem[f] == s.mem[f]
  {
    var rest := Without(owner, v);
    assert Owns(s', rest) && forall f :: f in owner ==> f < |s.mem| && s'.mem[f] == s.mem[f] by {
      MappedKeepsOwned(s.(free := s.free - {z}), s', v, e, added, owner);
    }
    assert OwnFrame(s', v, z);
    var owner' := rest[z := v];
    forall f | f in owner'
      ensures OwnFrame(s', owner'[f], f)
    {
    }
  }

  /** Page `v` has a frame of its own. */
  ghost predicate HasOwn(s: Paged, owner: map<nat, nat>, v: nat) {
    && Translate(s, v).Some? && Translate(s, v).value.level == 1
    && FrameOf(Translate(s, v).value.entry) in owner && owner[FrameOf(Translate(s, v).value.entry)] == v
  }

  /** One `vmm_map_page(pmm_alloc_block(), ...)`: page `v` got the free frame `z`, and tables were added. */
  datatype Event = Event(v: nat, entry: Word, z: nat, added: set<nat>)

  ghost predicate FreshStep(s: Paged, s': Paged, ev: Event) {
    && Sound(s) && ev.z in s.free && ev.v < PAGES && FrameOf(ev.entry) == ev.z
    && Mapped(s.(free := s.free - {ev.z}), s', ev.v, ev.entry, ev.added)
  }

  function OwnerAfter(owner: map<nat, nat>, ev: Event): map<nat, nat> {
    Without(owner, ev.v)[ev.z := ev.v]
  }

  /** What one step does to the ownership of frames. */
  lemma StepOwns(s: Paged, s': Paged, ev: Event, owner: map<nat, nat>)
    requires FreshStep(s, s', ev) && Owns(s, owner)
    ensures Owns(s', OwnerAfter(owner, ev)) && HasOwn(s', OwnerAfter(owner, ev), ev.v)
    ensures forall w: nat :: w < PAGES && w != ev.v && HasOwn(s, owner, w) ==> HasOwn(s', OwnerAfter(owner, ev), w)
    ensures forall f :: f in owner ==> f < |s.mem| && s'.mem[f] == s.mem[f]
  {
    FreshIsOwned(s, s', ev.v, ev.entry, ev.added, owner, ev.z);
  }

  lemma StepKeepsOwns(s: Paged, s': Paged, ev: Event, owner: map<nat, nat>)
    requires FreshStep(s, s', ev) && Owns(s, owner)
    ensures Owns(s', OwnerAfter(owner, ev))
  {
    StepOwns(s, s', ev, owner);
  }

  lemma MapKeepsOwns(s: Paged, s': Paged, v: nat, e: Word, added: set<nat>, owner: map<nat, nat>)
    requires Mapped(s, s', v, e, added) && Owns(s, owner)
    ensures Owns(s', Without(owner, v))
  {
    MappedKeepsOwned(s, s', v, e, added, owner);
  }

  /** A run of steps: where it started, and after each step what happened and the state reached. */
  datatype Run = Start(state: Paged) | Then(before: Run, event: Event, state: Paged)

  ghost predicate IsRun(run: Run) {
    run.Then? ==> IsRun(run.before) && FreshStep(run.before.state, run.state, run.event)
  }

  function First(run: Run): Paged {
    if run.Start? then run.state else First(run.before)
  }

  function Events(run: Run): set<Event> {
    if run.Start? then {} else Events(run.before) + {run.event}
  }

  /** The owners after a run that started with `owner`. */
  function OwnerAfterRun(owner: map<nat, nat>, run: Run): map<nat, nat> {
    if run.Start? then owner else OwnerAfter(OwnerAfterRun(owner, run.before), run.event)
  }

  /** After any run, every page mapped in it has a frame of its own. */
  lemma {:induction false} RunOwns(run: Run, owner: map<nat, nat>, ev: Event)
    requires IsRun(run) && Owns(First(run), owner)
    ensures Owns(run.state, OwnerAfterRun(owner, run))
    ensures ev in Events(run) ==> ev.v < PAGES && HasOwn(run.state, OwnerAfterRun(owner, run), ev.v)
  {
    if run.Then? {
      RunOwns(run.before, owner, ev);
      StepOwns(run.before.state, run.state, run.event, OwnerAfterRun(owner, run.before));
    }
  }

  /** So different pages mapped in a run end up on different frames, and none of them is a table's. */
  lemma RunSeparates(run: Run, a: Event, b: Event)
    requires IsRun(run) && a in Events(run) && b in Events(run)
    ensures var s, ta, tb := run.state, Translate(run.state, a.v), Translate(run.state, b.v);
            && ta.Some? && tb.Some?
            && (a.v != b.v ==> FrameOf(ta.value.entry) != FrameOf(tb.value.entry))
            && FrameOf(ta.value.entry) !in s.place && FrameOf(ta.value.entry) !in s.free
  {
    RunOwns(run, map[], a);
    RunOwns(run, map[], b);
  }

  /** Everything a step hands out: the page's frame and the new tables. */
  function Handed(ev: Event): set<nat> { {ev.z} + ev.added }

  lemma StepHands(s: Paged, s': Paged, ev: Event)
    requires FreshStep(s, s', ev)
    ensures Handed(ev) <= s.free && s'.free == s.free - Handed(ev)
  {
  }

  /** What was handed out in a run is not free after it. */
  lemma {:induction false} HandedIsGone(run: Run, ev: Event)
    requires IsRun(run) && ev in Events(run)
    ensures Handed(ev) !! run.state.free
  {
    StepHands(run.before.state, run.state, run.event);
    if ev != run.event {
      HandedIsGone(run.before, ev);
    }
  }

  /** So the next step hands out nothing that the run handed out before. */
  lemma NothingHandedTwice(run: Run, ev: Event)
    requires IsRun(run) && run.Then? && ev in Events(run.before)
    ensures Handed(ev) !! Handed(run.event)
  {
    HandedIsGone(run.before, ev);
    StepHands(run.before.state, run.state, run.event);
  }

  // How many frames a run needs.

  function RoutesOfAll(pages: seq<nat>): set<Route> {
    if pages == [] then {} else RoutesOf(pages[0]) + RoutesOfAll(pages[1..])
  }

  /** The tables on the paths of `pages` that do not exist yet. */
  function Missing(s: Paged, pages: seq<nat>): nat {
    |Lacking(s, RoutesOfAll(pages))|
  }

  /** One frame for each page, and one for each missing table. */
  function Demand(s: Paged, pages: seq<nat>): nat {
    |pages| + Missing(s, pages)
  }

  /** Mapping the first page uses up its part of the missing tables exactly. */
  lemma MapMeetsMissing(s: Paged, s': Paged, v: nat, e: Word, added: set<nat>, pages: seq<nat>)
    requires Mapped(s, s', v, e, added) && pages != [] && pages[0] == v
    ensures |s.free| - Missing(s, pages) == |s'.free| - Missing(s', pages[1..])
  {
    var r, rest := RoutesOf(v), RoutesOfAll(pages[1..]);
    assert Lacking(s, r + rest) == Lacking(s, r) + Lacking(s', rest);
    DisjointSizes(Lacking(s, r), Lacking(s', rest));
    FreeLeft(s, s', added);
  }

  /** A step takes one frame for the page and its part of the missing tables exactly. */
  lemma StepMeetsMissing(s: Paged, s': Paged, ev: Event, pages: seq<nat>)
    requires FreshStep(s, s', ev) && pages != [] && pages[0] == ev.v
    ensures |s.free| - 1 - Missing(s, pages) == |s'.free| - Missing(s', pages[1..])
  {
    var s1 := s.(free := s.free - {ev.z});
    assert Lacking(s, RoutesOfAll(pages)) == Lacking(s1, RoutesOfAll(pages));
    WithoutSize(s.free, {ev.z});
    MapMeetsMissing(s1, s', ev.v, ev.entry, ev.added, pages);
  }

  /** The demand of a first page is at least what mapping it takes. */
  lemma DemandOfFirst(s: Paged, pages: seq<nat>)
    requires pages != []
    ensures |Lacking(s, RoutesOf(pages[0]))| <= Missing(s, pages)
  {
    var l, all := Lacking(s, RoutesOf(pages[0])), Lacking(s, RoutesOfAll(pages));
    assert l <= all;
    WithoutSize(all, l);
  }

  /** With `z` taken for the page itself, enough frames remain for its tables. */
  lemma FreshReady(s: Paged, pages: seq<nat>, z: nat)
    requires Sound(s) && pages != [] && Missing(s, pages) < |s.free| && z in s.free
    ensures var s1 := s.(free := s.free - {z});
            Sound(s1) && Lacking(s1, RoutesOf(pages[0])) == Lacking(s, RoutesOf(pages[0]))
            && |Lacking(s1, RoutesOf(pages[0]))| <= |s1.free|
  {
    DemandOfFirst(s, pages);
    WithoutSize(s.free, {z});
    assert Lacking(s.(free := s.free - {z}), RoutesOf(pages[0])) == Lacking(s, RoutesOf(pages[0]));
  }

  // Ranges of pages.

  function Pages(v: nat, n: nat): (r: seq<nat>)
    ensures |r| == n && forall k :: 0 <= k < n ==> r[k] == v + k
  {
    seq(n, k requires 0 <= k => v + k)
  }

  /** Page `w` translates to the same frame with the same contents, and still owns it if it did. */
  ghost predicate Kept(s: Paged, s': Paged, owner: map<nat, nat>, owner': map<nat, nat>, w: nat) {
    && Translate(s', w) == Translate(s, w)
    && (HasOwn(s, owner, w) ==> HasOwn(s', owner', w) && SameFrame(s, s', FrameOf(Translate(s, w).value.entry)))
  }

  predicate SameFrame(s: Paged, s': Paged, f: nat) {
    f < |s.mem| && f < |s'.mem| && s'.mem[f] == s.mem[f]
  }

  /** Page `w` is mapped with `flags` to a frame of its own. */
  ghost predicate Given(s: Paged, owner: map<nat, nat>, flags: Word, w: nat) {
    HasOwn(s, owner, w) && FlagsOf(Translate(s, w).value.entry) == BitOr(FlagsOf(flags), 1)
  }

  /** The present bit is among the flags that the kernel passes. */
  lemma FlagsStay(flags: Word)
    requires flags == 3 || flags == 7
    ensures BitOr(FlagsOf(flags), 1) == flags
  {
  }

  lemma GivenHasFlags(s: Paged, owner: map<nat, nat>, flags: Word, w: nat)
    requires Given(s, owner, flags, w) && (flags == 3 || flags == 7)
    ensures HasFlags(s, w, flags)
  {
    FlagsStay(flags);
  }

  /** The `n` pages from `v` on were given frames of their own, and every other page was kept. */
  ghost predicate RangeGiven(s: Paged, s': Paged, owner: map<nat, nat>, owner': map<nat, nat>, v: nat, n: nat,
                             flags: Word) {
    && Sound(s') && Owns(s', owner') && |s'.mem| == |s.mem| && s'.root == s.root
    && (forall w: nat :: v <= w < v + n ==> Given(s', owner', flags, w))
    && (forall w: nat :: w < PAGES && !(v <= w < v + n) ==> Kept(s, s', owner, owner', w))
  }

  lemma NothingGiven(s: Paged, owner: map<nat, nat>, v: nat, flags: Word)
    requires Sound(s) && Owns(s, owner)
    ensures RangeGiven(s, s, owner, owner, v, 0, flags)
  {
  }

  lemma SmallAhead(s0: Paged, s: Paged, owner0: map<nat, nat>, owner: map<nat, nat>, v: nat, k: nat, flags: Word)
    requires RangeGiven(s0, s, owner0, owner, v, k, flags) && v + k < PAGES && Small(s0, v + k)
    ensures Small(s, v + k)
  {
    assert Kept(s0, s, owner0, owner, v + k);
  }

  lemma StepKeeps(s: Paged, s': Paged, ev: Event, owner: map<nat, nat>, w: nat)
    requires FreshStep(s, s', ev) && Owns(s, owner) && w < PAGES && w != ev.v
    ensures Kept(s, s', owner, OwnerAfter(owner, ev), w)
  {
    StepOwns(s, s', ev, owner);
  }

  /** One more page. */
  lemma StepGives(s0: Paged, s: Paged, s': Paged, owner0: map<nat, nat>, owner: map<nat, nat>, v: nat, n: nat,
                  flags: Word, ev: Event)
    requires RangeGiven(s0, s, owner0, owner, v, n, flags) && v + n < PAGES
    requires FreshStep(s, s', ev) && Sound(s') && ev.v == v + n && FlagsOf(ev.entry) == BitOr(FlagsOf(flags), 1)
    ensures RangeGiven(s0, s', owner0, OwnerAfter(owner, ev), v, n + 1, flags)
  {
    var owner' := OwnerAfter(owner, ev);
    StepOwns(s, s', ev, owner);
    forall w: nat | v <= w < v + n + 1
      ensures Given(s', owner', flags, w)
    {
      if w < v + n {
        assert Given(s, owner, flags, w);
        StepKeeps(s, s', ev, owner, w);
      }
    }
    forall w: nat | w < PAGES && !(v <= w < v + n + 1)
      ensures Kept(s0, s', owner0, owner', w)
    {
      assert Kept(s0, s, owner0, owner, w);
      StepKeeps(s, s', ev, owner, w);
    }
  }

  // Ranges of pages mapped to given frames.

  /** Page `w` is mapped with `flags`, and to as many frames after `f` as it lies after page `v`. */
  predicate MappedTo(s: Paged, v: nat, f: nat, flags: Word, w: nat) {
    var leaf := Translate(s, w);
    && leaf.Some? && leaf.value.level == 1
    && FrameOf(leaf.value.entry) + v == f + w && FlagsOf(leaf.value.entry) == BitOr(FlagsOf(flags), 1)
  }

  lemma MappedHasFlags(s: Paged, v: nat, f: nat, flags: Word, w: nat)
    requires MappedTo(s, v, f, flags, w) && (flags == 3 || flags == 7)
    ensures HasFlags(s, w, flags)
  {
    FlagsStay(flags);
  }

  /** The `n` pages from `v` on are mapped to the consecutive frames from `f` on, and every other page was kept. */
  ghost predicate RangeMapped(s: Paged, s': Paged, owner: map<nat, nat>, owner': map<nat, nat>,
                              v: nat, n: nat, f: nat, flags: Word) {
    && (forall w: nat :: v <= w < v + n ==> MappedTo(s', v, f, flags, w))
    && (forall w: nat :: w < PAGES && !(v <= w < v + n) ==> Kept(s, s', owner, owner', w))
  }

  lemma RangeHasFlags(s: Paged, v: nat, n: nat, f: nat, flags: Word)
    requires (flags == 3 || flags == 7) && forall w: nat :: v <= w < v + n ==> MappedTo(s, v, f, flags, w)
    ensures forall w: nat :: v <= w < v + n ==> HasFlags(s, w, flags)
  {
    forall w: nat | v <= w < v + n
      ensures HasFlags(s, w, flags)
    {
      MappedHasFlags(s, v, f, flags, w);
    }
  }

  lemma MappedKeeps(s: Paged, s': Paged, v: nat, e: Word, added: set<nat>, owner: map<nat, nat>, w: nat)
    requires Mapped(s, s', v, e, added) && Owns(s, owner) && w < PAGES && w != v
    ensures Kept(s, s', owner, Without(owner, v), w)
  {
  }

  lemma OneMoreMapped(s: Paged, s': Paged, v: nat, n: nat, x: nat, f: nat, flags: Word, e: Word, added: set<nat>)
    requires x == v + n < PAGES && (forall w: nat :: v <= w < v + n ==> MappedTo(s, v, f, flags, w))
    requires Mapped(s, s', x, e, added) && FrameOf(e) == f + n && FlagsOf(e) == BitOr(FlagsOf(flags), 1)
    ensures forall w: nat :: v <= w < v + n + 1 ==> MappedTo(s', v, f, flags, w)
  {
    forall w: nat | v <= w < v + n
      ensures MappedTo(s', v, f, flags, w)
    {
      assert MappedTo(s, v, f, flags, w);
    }
  }

  lemma StillKept(s0: Paged, s: Paged, s': Paged, owner0: map<nat, nat>, owner: map<nat, nat>, v: nat, e: Word,
                  added: set<nat>, w: nat)
    requires Kept(s0, s, owner0, owner, w) && Mapped(s, s', v, e, added) && Owns(s, owner) && w < PAGES && w != v
    ensures Kept(s0, s', owner0, Without(owner, v), w)
  {
    MappedKeeps(s, s', v, e, added, owner, w);
  }

  lemma RangeMapsOneMore(s0: Paged, s: Paged, s': Paged, owner0: map<nat, nat>, owner: map<nat, nat>,
                         v: nat, n: nat, x: nat, f: nat, flags: Word, e: Word, added: set<nat>)
    requires x == v + n < PAGES && RangeMapped(s0, s, owner0, owner, v, n, f, flags) && Owns(s, owner)
    requires Mapped(s, s', x, e, added) && FrameOf(e) == f + n && FlagsOf(e) == BitOr(FlagsOf(flags), 1)
    ensures RangeMapped(s0, s', owner0, Without(owner, x), v, n + 1, f, flags)
  {
    OneMoreMapped(s, s', v, n, x, f, flags, e, added);
    OthersStillKept(s0, s, s', owner0, owner, v, n, x, e, added);
  }

  lemma OthersStillKept(s0: Paged, s: Paged, s': Paged, owner0: map<nat, nat>, owner: map<nat, nat>,
                        v: nat, n: nat, x: nat, e: Word, added: set<nat>)
    requires x == v + n && Owns(s, owner) && Mapped(s, s', x, e, added)
    requires forall w: nat :: w < PAGES && !(v <= w < v + n) ==> Kept(s0, s, owner0, owner, w)
    ensures forall w: nat :: w < PAGES && !(v <= w < v + n + 1) ==> Kept(s0, s', owner0, Without(owner, x), w)
  {
    forall w: nat | w < PAGES && !(v <= w < v + n + 1)
      ensures Kept(s0, s', owner0, Without(owner, x), w)
    {
      StillKept(s0, s, s', owner0, owner, x, e, added, w);
    }
  }

  /** A range of pages to be mapped to consecutive frames, and pages to be given frames of their own later. */
  datatype Plan = Plan(v: nat, n: nat, f: nat, flags: Word, rest: seq<nat>)

  /** `i` of the plan's pages are mapped, and frames remain for the tables of the others and for the rest. */
  ghost predicate MappingRange(s0: Paged, s: Paged, owner0: map<nat, nat>, owner: map<nat, nat>, p: Plan, i: nat) {
    && i <= p.n && p.v + p.n <= PAGES
    && (forall w: nat :: p.v <= w < p.v + p.n ==> Small(s0, w))
    && RangeMapped(s0, s, owner0, owner, p.v, i, p.f, p.flags)
    && Missing(s, Pages(p.v, p.n)[i..] + p.rest) + |p.rest| <= |s.free|
  }

  lemma NothingMapped(s: Paged, owner: map<nat, nat>, p: Plan)
    requires Owns(s, owner) && p.v + p.n <= PAGES && (forall w: nat :: p.v <= w < p.v + p.n ==> Small(s, w))
    requires Missing(s, Pages(p.v, p.n) + p.rest) + |p.rest| <= |s.free|
    ensures MappingRange(s, s, owner, owner, p, 0)
  {
  }

  /** The next page `x` of the range can be mapped. */
  lemma RangeReady(s0: Paged, s: Paged, owner0: map<nat, nat>, owner: map<nat, nat>, p: Plan, i: nat, x: nat)
    requires MappingRange(s0, s, owner0, owner, p, i) && i < p.n && x == p.v + i
    ensures Small(s, x) && |Lacking(s, RoutesOf(x))| <= |s.free|
  {
    assert Small(s0, x) && Kept(s0, s, owner0, owner, x);
    DemandOfFirst(s, Pages(p.v, p.n)[i..] + p.rest);
  }

  /** After it is mapped, frames remain for the others. */
  lemma RangeAdvances(s0: Paged, s: Paged, s': Paged, owner0: map<nat, nat>, owner: map<nat, nat>, p: Plan, i: nat,
                      x: nat,
                      e: Word, added: set<nat>)
    requires MappingRange(s0, s, owner0, owner, p, i) && i < p.n && x == p.v + i && Owns(s, owner)
    requires Mapped(s, s', x, e, added) && FrameOf(e) == p.f + i && FlagsOf(e) == BitOr(FlagsOf(p.flags), 1)
    ensures MappingRange(s0, s', owner0, Without(owner, x), p, i + 1)
  {
    RangeMapsOneMore(s0, s, s', owner0, owner, p.v, i, x, p.f, p.flags, e, added);
    RestAffordable(s, s', p, i, x, e, added);
  }

  lemma RestAffordable(s: Paged, s': Paged, p: Plan, i: nat, x: nat, e: Word, added: set<nat>)
    requires i < p.n && x == p.v + i && Mapped(s, s', x, e, added)
    requires Missing(s, Pages(p.v, p.n)[i..] + p.rest) + |p.rest| <= |s.free|
    ensures Missing(s', Pages(p.v, p.n)[i + 1..] + p.rest) + |p.rest| <= |s'.free|
  {
    var pages := Pages(p.v, p.n);
    assert pages[i + 1..] + p.rest == (pages[i..] + p.rest)[1..];
    MapMeetsMissing(s, s', x, e, added, pages[i..] + p.rest);
  }

  lemma AllMapped(s0: Paged, s: Paged, owner0: map<nat, nat>, owner: map<nat, nat>, p: Plan)
    requires MappingRange(s0, s, owner0, owner, p, p.n)
    ensures RangeMapped(s0, s, owner0, owner, p.v, p.n, p.f, p.flags) && Demand(s, p.rest) <= |s.free|
  {
    assert Pages(p.v, p.n)[p.n..] + p.rest == p.rest;
  }
}
