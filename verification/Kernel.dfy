/** The rest of `_start`: a fresh address space, the heap, the video and the player program in it. */
module Kernel {
  import opened Bits
  import opened Bytes
  import opened Wrappers
  import opened Paging
  import opened PageEntries
  import opened Mapping
  import opened Ownership
  import opened UserBytes
  import opened Access
  import opened KexFormat
  import opened KexImage
  import opened KexLoader
  import opened Vmm

  const HEAP_START: Word := 0xFFFF_9000_0000_0000
  const HEAP_PAGE: nat := 0x9_0000_0000
  const HEAP_PAGES: nat := 4096

  lemma HeapPage()
    ensures PageOf(HEAP_START) == HEAP_PAGE
  {
  }

  predicate InHeap(w: nat) { HEAP_PAGE <= w < HEAP_PAGE + HEAP_PAGES }

  predicate InVideo(vidPhys: Word, vidSize: nat, w: nat) { 0x8_0000 <= w < 0x8_0000 + VideoPages(vidPhys, vidSize) }

  /** The program's segments lie below the video. */
  ghost predicate BelowVideo(loads: seq<Load>) {
    forall j, w: nat :: 0 <= j < |loads| && InPages(loads[j], w) ==> w < 0x8_0000
  }

  ghost predicate LowerSmall(s: Paged) {
    forall w: nat :: w < PAGES / 2 ==> Small(s, w)
  }

  ghost predicate HeapOwned(s: Paged, owner: map<nat, nat>) {
    forall w: nat :: InHeap(w) ==> HasOwn(s, owner, w) && HasFlags(s, w, 3)
  }

  ghost predicate VideoMapped(s: Paged, vidPhys: Word, vidSize: nat) {
    && MapsTo(s, 0x8000_0000 + vidPhys % 4096, vidSize, vidPhys)
    && forall w: nat :: InVideo(vidPhys, vidSize, w) ==> HasFlags(s, w, 7)
  }

  ghost predicate KeptOffVideo(s: Paged, s': Paged, owner: map<nat, nat>, owner': map<nat, nat>, vidPhys: Word,
                              vidSize: nat) {
    forall w: nat :: w < PAGES && !InVideo(vidPhys, vidSize, w) ==> Kept(s, s', owner, owner', w)
  }

  /** The pages mapped after the heap: the video, the program's segments, its stack. */
  ghost function UserPages(vidPhys: Word, vidSize: nat, loads: seq<Load>): seq<nat> {
    Pages(0x8_0000, VideoPages(vidPhys, vidSize)) + PagesOfAll(loads)
  }

  /** Once the new root is taken, frames remain for the heap, the program, and all missing tables. */
  ghost predicate EnoughFrames(s: Paged, vidPhys: Word, vidSize: nat, loads: seq<Load>) {
    Missing(s, Pages(HEAP_PAGE, HEAP_PAGES) + UserPages(vidPhys, vidSize, loads)) + HEAP_PAGES
      + |PagesOfAll(loads)| <= |s.free|
  }

  predicate VideoFits(vidPhys: Word, vidSize: nat) {
    vidPhys + vidSize + 8192 <= 0x10_0000_0000_0000 && 0x8000_0000 + vidSize + 8192 <= USER_END
  }

  /** From the switch to the new page tables to the start of the program. */
  method Start(vm: AddressSpace, vidPhys: Word, vidSize: nat, file: seq<Byte>,
               ghost loads: seq<Load>) returns (r: Outcome)
    requires vm.Valid() && vm.pmm.Free() != {}
    requires forall w: nat :: InHeap(w) ==> Small(vm.State(), w)
    requires forall z :: z in vm.pmm.Free() ==> EnoughFrames(Rooted(vm.State(), z), vidPhys, vidSize, loads)
    requires VideoFits(vidPhys, vidSize)
    requires HEADER_SIZE <= |file| && file[0..4] == MAGIC && Wellformed(file, loads) && BelowVideo(loads)
    modifies vm.frames, vm.pmm`usedBlocks, vm.pmm.bitmap, vm`root, vm`place, vm`owner, vm`base
    ensures vm.Consistent() && r == Started(Field(file, 16, 8))
    ensures HeapOwned(vm.State(), vm.owner) && VideoMapped(vm.State(), vidPhys, vidSize)
    ensures forall w: nat :: 0x9_0000_0000 <= w < 0x9_0000_1000 ==>
              HasOwn(vm.State(), vm.owner, w) && HasFlags(vm.State(), w, 3)
    ensures HasOwn(vm.State(), vm.owner, 0x7FF) && HasFlags(vm.State(), 0x7FF, 7)
    ensures forall j :: 0 <= j < |loads| ==>
              SegmentFits(file, loads[j]) && Holds(vm.State(), vm.owner, loads[j].rva, SegmentImage(file, loads[j]))
    ensures forall j, w: nat :: 0 <= j < |loads| && InPages(loads[j], w) ==> HasFlags(vm.State(), w, 7)
    ensures UserMay(vm.State(), 0x7FF)
    ensures forall j, w: nat :: 0 <= j < |loads| && InPages(loads[j], w) ==> UserMay(vm.State(), w)
    ensures forall w: nat :: InVideo(vidPhys, vidSize, w) ==> UserMay(vm.State(), w)
    ensures forall w: nat :: 0x9_0000_0000 <= w < 0x9_0000_1000 ==> !UserMay(vm.State(), w)
  {
    MapHeap(vm, vidPhys, vidSize, loads);
    MapModule(vm, vidPhys, vidSize, file, loads);
    ghost var s, owner := vm.State(), vm.owner;
    r := LoadKexAndRun(vm, file, loads);
    HeapSurvivesLoading(s, vm.State(), owner, vm.owner, loads);
    VideoSurvives(s, vm.State(), owner, vm.owner, vidPhys, vidSize, loads);
    WhoMay(vm.State(), vm.owner, vm.base, vidPhys, vidSize);
  }

  /** Programs may use the video's pages, and none of the heap's. */
  lemma WhoMay(s: Paged, owner: map<nat, nat>, base: map<nat, Place>, vidPhys: Word, vidSize: nat)
    requires Sound(s) && OpenBeyond(s.mem, s.place, base) && UpperOnly(base, s.root)
    requires HeapOwned(s, owner) && VideoMapped(s, vidPhys, vidSize) && VideoFits(vidPhys, vidSize)
    ensures forall w: nat :: InVideo(vidPhys, vidSize, w) ==> UserMay(s, w)
    ensures forall w: nat :: 0x9_0000_0000 <= w < 0x9_0000_1000 ==> !UserMay(s, w)
  {
    forall w: nat | InVideo(vidPhys, vidSize, w)
      ensures UserMay(s, w)
    {
      OpensToUser(s, base, w);
    }
    forall w: nat | InHeap(w)
      ensures !UserMay(s, w)
    {
      ClosedToUser(s, w);
    }
  }

  /** `vmm_initialize()` and the heap mapping loop. */
  method MapHeap(vm: AddressSpace, ghost vidPhys: Word, ghost vidSize: nat, ghost loads: seq<Load>)
    requires vm.Valid() && vm.pmm.Free() != {}
    requires forall w: nat :: InHeap(w) ==> Small(vm.State(), w)
    requires forall z :: z in vm.pmm.Free() ==> EnoughFrames(Rooted(vm.State(), z), vidPhys, vidSize, loads)
    modifies vm.frames, vm.pmm`usedBlocks, vm.pmm.bitmap, vm`root, vm`place, vm`owner, vm`base
    ensures vm.Consistent() && HeapOwned(vm.State(), vm.owner) && LowerSmall(vm.State())
    ensures UpperOnly(vm.base, vm.root)
    ensures Missing(vm.State(), UserPages(vidPhys, vidSize, loads)) + |PagesOfAll(loads)| <= |vm.pmm.Free()|
  {
    NewSpace(vm, vidPhys, vidSize, loads);
    FillHeap(vm, UserPages(vidPhys, vidSize, loads), |PagesOfAll(loads)|);
  }

  /** The heap's range of addresses. */
  method FillHeap(vm: AddressSpace, ghost rest: seq<nat>, ghost extra: nat)
    requires vm.Consistent() && forall w: nat :: w < PAGES / 2 ==> Translate(vm.State(), w) == None
    requires forall w: nat :: InHeap(w) ==> Small(vm.State(), w)
    requires Missing(vm.State(), Pages(HEAP_PAGE, HEAP_PAGES) + rest) + HEAP_PAGES + extra <= |vm.pmm.Free()|
    modifies vm.frames, vm.pmm`usedBlocks, vm.pmm.bitmap, vm`place, vm`owner
    ensures vm.Consistent() && HeapOwned(vm.State(), vm.owner) && LowerSmall(vm.State())
    ensures Missing(vm.State(), rest) + extra <= |vm.pmm.Free()|
  {
    ghost var s0, owner0 := vm.State(), vm.owner;
    HeapPage();
    MapHeapPages(vm, HEAP_START, 16 * 1024 * 1024, HEAP_PAGE, HEAP_PAGES, rest, extra);
    HeapGiven(s0, vm.State(), owner0, vm.owner);
  }

  /** `vmm_initialize()`: nothing is mapped in the lower half, and no large page is where the heap goes. */
  method NewSpace(vm: AddressSpace, ghost vidPhys: Word, ghost vidSize: nat, ghost loads: seq<Load>)
    requires vm.Valid() && vm.pmm.Free() != {}
    requires forall w: nat :: InHeap(w) ==> Small(vm.State(), w)
    requires forall z :: z in vm.pmm.Free() ==> EnoughFrames(Rooted(vm.State(), z), vidPhys, vidSize, loads)
    modifies vm.frames, vm.pmm`usedBlocks, vm.pmm.bitmap, vm`root, vm`place, vm`owner, vm`base
    ensures vm.Consistent() && EnoughFrames(vm.State(), vidPhys, vidSize, loads) && UpperOnly(vm.base, vm.root)
    ensures forall w: nat :: w < PAGES / 2 ==> Translate(vm.State(), w) == None
    ensures forall w: nat :: InHeap(w) ==> Small(vm.State(), w)
  {
    ghost var before := vm.State();
    vm.Initialize();
    FreshRoot(before, vm.root);
  }

  /** The heap mapping loop, over `n` pages from `v` on. */
  method MapHeapPages(vm: AddressSpace, start: Word, size: nat, ghost v: nat, ghost n: nat, ghost rest: seq<nat>,
                      ghost extra: nat)
    requires vm.Consistent() && start + size + 4095 < U64
    requires v == PageOf(start) && n == (size + 4095) / 4096 && v + n <= PAGES
    requires forall w: nat :: v <= w < v + n ==> Small(vm.State(), w)
    requires Missing(vm.State(), Pages(v, n) + rest) + n + extra <= |vm.pmm.Free()|
    modifies vm.frames, vm.pmm`usedBlocks, vm.pmm.bitmap, vm`place, vm`owner
    ensures vm.Consistent()
    ensures RangeGiven(old(vm.State()), vm.State(), old(vm.owner), vm.owner, v, n, 3)
    ensures Missing(vm.State(), rest) + extra <= |vm.pmm.Free()|
  {
    vm.MapFreshRange(start, size, 3, rest, extra);
  }

  /** The video mapping loop. */
  method MapModule(vm: AddressSpace, vidPhys: Word, vidSize: nat, ghost file: seq<Byte>, ghost loads: seq<Load>)
    requires vm.Consistent() && HeapOwned(vm.State(), vm.owner) && LowerSmall(vm.State())
    requires VideoFits(vidPhys, vidSize) && Fits(file, loads) && BelowVideo(loads)
    requires Missing(vm.State(), UserPages(vidPhys, vidSize, loads)) + |PagesOfAll(loads)| <= |vm.pmm.Free()|
    modifies vm.frames, vm.pmm`usedBlocks, vm.pmm.bitmap, vm`place, vm`owner
    ensures vm.Consistent() && HeapOwned(vm.State(), vm.owner) && VideoMapped(vm.State(), vidPhys, vidSize)
    ensures Ready(vm.State(), loads)
  {
    ghost var s, owner := vm.State(), vm.owner;
    vm.MapVideo(vidPhys, vidSize, PagesOfAll(loads));
    assert KeptOffVideo(s, vm.State(), owner, vm.owner, vidPhys, vidSize);
    ProgramReady(file, s, vm.State(), owner, vm.owner, vidPhys, vidSize, loads);
    HeapSurvivesVideo(s, vm.State(), owner, vm.owner, vidPhys, vidSize);
  }

  /** In the new address space no large page is in the way, in the lower half or where the heap goes. */
  lemma FreshRoot(s: Paged, z: nat)
    requires Sound(s) && z in s.free && forall w: nat :: InHeap(w) ==> Small(s, w)
    ensures forall w: nat :: w < PAGES / 2 ==> Translate(Rooted(s, z), w) == None
    ensures forall w: nat :: InHeap(w) ==> Small(Rooted(s, z), w)
  {
    RootedTranslates(s, z);
  }

  lemma HeapGiven(s0: Paged, s1: Paged, owner0: map<nat, nat>, owner1: map<nat, nat>)
    requires forall w: nat :: w < PAGES / 2 ==> Translate(s0, w) == None
    requires RangeGiven(s0, s1, owner0, owner1, HEAP_PAGE, HEAP_PAGES, 3)
    ensures HeapOwned(s1, owner1) && LowerSmall(s1)
  {
    forall w: nat | InHeap(w)
      ensures HasOwn(s1, owner1, w) && HasFlags(s1, w, 3)
    {
      GivenHasFlags(s1, owner1, 3, w);
    }
    LowerStaysSmall(s0, s1, owner0, owner1);
  }

  /** The whole lower half was unmapped before the heap was mapped, so no large page is in the way there. */
  lemma LowerStaysSmall(s0: Paged, s1: Paged, owner0: map<nat, nat>, owner1: map<nat, nat>)
    requires forall w: nat :: w < PAGES / 2 ==> Translate(s0, w) == None
    requires RangeGiven(s0, s1, owner0, owner1, HEAP_PAGE, HEAP_PAGES, 3)
    ensures LowerSmall(s1)
  {
    forall w: nat | w < PAGES / 2
      ensures Small(s1, w)
    {
      assert Kept(s0, s1, owner0, owner1, w);
    }
  }

  lemma ProgramReady(file: seq<Byte>, s: Paged, s': Paged, owner: map<nat, nat>, owner': map<nat, nat>,
                     vidPhys: Word, vidSize: nat, loads: seq<Load>)
    requires LowerSmall(s) && KeptOffVideo(s, s', owner, owner', vidPhys, vidSize)
    requires Fits(file, loads) && BelowVideo(loads) && Demand(s', PagesOfAll(loads)) <= |s'.free|
    ensures Ready(s', loads)
  {
    BelowStaysSmall(s, s', owner, owner', vidPhys, vidSize);
    forall i | 0 <= i < |loads|
      ensures SmallPages(s', loads[i])
    {
      forall w: nat | InPages(loads[i], w)
        ensures Small(s', w)
      {
        assert w < 0x8_0000;
      }
    }
  }

  lemma BelowStaysSmall(s: Paged, s': Paged, owner: map<nat, nat>, owner': map<nat, nat>, vidPhys: Word, vidSize: nat)
    requires LowerSmall(s) && KeptOffVideo(s, s', owner, owner', vidPhys, vidSize)
    ensures forall w: nat :: w < 0x8_0000 ==> Small(s', w)
  {
    forall w: nat | w < 0x8_0000
      ensures Small(s', w)
    {
      assert Small(s, w);
      assert Kept(s, s', owner, owner', w);
    }
  }

  lemma HeapSurvivesVideo(s: Paged, s': Paged, owner: map<nat, nat>, owner': map<nat, nat>, vidPhys: Word, vidSize: nat)
    requires VideoFits(vidPhys, vidSize) && HeapOwned(s, owner) && KeptOffVideo(s, s', owner, owner', vidPhys, vidSize)
    ensures HeapOwned(s', owner')
  {
    forall w: nat | InHeap(w)
      ensures HasOwn(s', owner', w) && HasFlags(s', w, 3)
    {
      assert HasOwn(s, owner, w) && HasFlags(s, w, 3);
      assert Kept(s, s', owner, owner', w);
    }
  }

  lemma HeapSurvivesLoading(s: Paged, s': Paged, owner: map<nat, nat>, owner': map<nat, nat>, loads: seq<Load>)
    requires BelowVideo(loads) && HeapOwned(s, owner)
    requires Owns(s, owner) && Owns(s', owner') && OthersKept(s, s', owner, owner', loads)
    ensures HeapOwned(s', owner')
  {
    forall w: nat | InHeap(w)
      ensures HasOwn(s', owner', w) && HasFlags(s', w, 3)
    {
      assert HasOwn(s, owner, w) && HasFlags(s, w, 3);
      assert Untouched(loads, w);
      assert PageKept(s, s', owner, owner', w);
    }
  }

  lemma VideoSurvives(s: Paged, s': Paged, owner: map<nat, nat>, owner': map<nat, nat>,
                      vidPhys: Word, vidSize: nat, loads: seq<Load>)
    requires VideoFits(vidPhys, vidSize) && BelowVideo(loads) && VideoMapped(s, vidPhys, vidSize)
    requires Owns(s, owner) && Owns(s', owner') && OthersKept(s, s', owner, owner', loads)
    ensures VideoMapped(s', vidPhys, vidSize)
  {
    forall va: Word | 0x8000_0000 + vidPhys % 4096 <= va < 0x8000_0000 + vidPhys % 4096 + vidSize
      ensures PhysicalOf(s', va) == Some(vidPhys + (va - (0x8000_0000 + vidPhys % 4096)))
    {
      SplitAddress(va);
      assert Untouched(loads, PageOf(va));
      assert PageKept(s, s', owner, owner', PageOf(va));
      assert PhysicalOf(s, va) == Some(vidPhys + (va - (0x8000_0000 + vidPhys % 4096)));
    }
    forall w: nat | InVideo(vidPhys, vidSize, w)
      ensures HasFlags(s', w, 7)
    {
      assert Untouched(loads, w) && HasFlags(s, w, 7);
      assert PageKept(s, s', owner, owner', w);
    }
  }
}
