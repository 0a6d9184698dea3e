/** `load_kex_and_run`: building the address space of a program. */
module KexLoader {
  import opened Bits
  import opened Bytes
  import opened Wrappers
  import opened PageEntries
  import opened Paging
  import opened Mapping
  import opened Ownership
  import opened UserBytes
  import opened Access
  import opened KexFormat
  import opened KexImage
  import opened Vmm

  /** The segment part of the command loop: map, zero, copy. */
  method LoadSegment(vm: AddressSpace, file: seq<Byte>, l: Load, ghost rest: seq<nat>)
    requires vm.Consistent() && SegmentFits(file, l) && SmallPages(vm.State(), l)
    requires Demand(vm.State(), PagesOf(l) + rest) <= |vm.pmm.Free()|
    modifies vm.frames, vm.pmm`usedBlocks, vm.pmm.bitmap, vm`place, vm`owner
    ensures vm.Consistent() && InPlace(vm.State(), vm.owner, file, l)
    ensures old(Owns(vm.State(), vm.owner)) && KeptOutside(old(vm.State()), vm.State(), old(vm.owner), vm.owner, l)
    ensures Demand(vm.State(), rest) <= |vm.pmm.Free()|
  {
    ghost var s0, owner0 := vm.State(), vm.owner;
    SplitAddress(l.rva);
    vm.MapFreshRange(l.rva, l.memSize, 7, rest, |rest|);
    ghost var s1 := vm.State();
    RangeIsOwned(s0, s1, owner0, vm.owner, l);
    ghost var s2 := FillSegment(vm, file, l);
    SegmentDone(s0, s1, s2, vm.State(), owner0, vm.owner, file, l);
    DemandStill(s1, vm.State(), vm.owner, rest);
  }

  /** `memset`, and `memcpy` when there are bytes to copy. */
  method FillSegment(vm: AddressSpace, file: seq<Byte>, l: Load) returns (ghost zeroed: Paged)
    requires vm.Consistent() && SegmentFits(file, l) && OwnsRange(vm.State(), vm.owner, l.rva, l.memSize)
    modifies vm.frames
    ensures vm.Consistent() && old(Owns(vm.State(), vm.owner)) && vm.owner == old(vm.owner) && Owns(zeroed, vm.owner)
    ensures Stored(old(vm.State()), zeroed, vm.owner, l.rva, Zeros(l.memSize))
    ensures Stored(zeroed, vm.State(), vm.owner, l.rva, file[l.fileOffset..l.fileOffset + l.fileSize])
    ensures SamePages(old(vm.State()), vm.State(), vm.owner)
  {
    ghost var s := vm.State();
    vm.StoreBytes(l.rva, Zeros(l.memSize));
    zeroed := vm.State();
    OwnedStill(s, zeroed, vm.owner, l);
    if l.fileSize > 0 {
      vm.StoreBytes(l.rva, file[l.fileOffset..l.fileOffset + l.fileSize]);
    } else {
      assert file[l.fileOffset..l.fileOffset + l.fileSize] == [];
      NothingStored(zeroed, vm.owner, l.rva);
    }
  }

  /** The pages just mapped contain the segment. */
  lemma RangeIsOwned(s0: Paged, s1: Paged, owner0: map<nat, nat>, owner1: map<nat, nat>, l: Load)
    requires RangeGiven(s0, s1, owner0, owner1, FirstPage(l), PageCount(l), 7) && Covered(l)
    ensures OwnsRange(s1, owner1, l.rva, l.memSize)
  {
    forall v: nat | l.memSize > 0 && l.rva / 4096 <= v && v * 4096 < l.rva + l.memSize
      ensures HasOwn(s1, owner1, v)
    {
      assert Given(s1, owner1, 7, v);
    }
  }

  lemma OwnedStill(s: Paged, s': Paged, owner: map<nat, nat>, l: Load)
    requires OwnsRange(s, owner, l.rva, l.memSize) && SamePages(s, s', owner)
    ensures OwnsRange(s', owner, l.rva, l.memSize)
  {
    forall v: nat | l.memSize > 0 && l.rva / 4096 <= v && v * 4096 < l.rva + l.memSize
      ensures HasOwn(s', owner, v)
    {
      assert HasOwn(s, owner, v);
    }
  }

  /** Stores need no frames. */
  lemma DemandStill(s: Paged, s': Paged, owner: map<nat, nat>, pages: seq<nat>)
    requires SamePages(s, s', owner)
    ensures Demand(s', pages) == Demand(s, pages)
  {
    assert Lacking(s', RoutesOfAll(pages)) == Lacking(s, RoutesOfAll(pages));
  }

  /** Mapping, zeroing and copying a segment leave its image and keep all other pages. */
  lemma SegmentDone(s0: Paged, s1: Paged, s2: Paged, s3: Paged, owner0: map<nat, nat>, owner: map<nat, nat>,
                    file: seq<Byte>, l: Load)
    requires SegmentFits(file, l) && Owns(s0, owner0) && OwnsRange(s1, owner, l.rva, l.memSize)
    requires RangeGiven(s0, s1, owner0, owner, FirstPage(l), PageCount(l), 7)
    requires Stored(s1, s2, owner, l.rva, Zeros(l.memSize))
    requires Stored(s2, s3, owner, l.rva, file[l.fileOffset..l.fileOffset + l.fileSize])
    ensures InPlace(s3, owner, file, l)
    ensures KeptOutside(s0, s3, owner0, owner, l)
  {
    ZeroThenCopy(s1, s2, s3, owner, file, l);
    SegmentAccessible(s0, s1, s2, s3, owner0, owner, l);
    forall w: nat | w < PAGES && !InPages(l, w)
      ensures PageKept(s0, s3, owner0, owner, w)
    {
      SegmentKeeps(s0, s1, s2, s3, owner0, owner, file, l, w);
    }
  }

  /** Stores change no flags. */
  lemma SegmentAccessible(s0: Paged, s1: Paged, s2: Paged, s3: Paged, owner0: map<nat, nat>, owner: map<nat, nat>,
                          l: Load)
    requires RangeGiven(s0, s1, owner0, owner, FirstPage(l), PageCount(l), 7)
    requires SameTranslation(s1, s2) && SameTranslation(s2, s3)
    ensures Accessible(s3, l)
  {
    forall w: nat | InPages(l, w)
      ensures HasFlags(s3, w, 7)
    {
      GivenHasFlags(s1, owner, 7, w);
      assert Translate(s2, w) == Translate(s1, w) && Translate(s3, w) == Translate(s2, w);
    }
  }

  lemma SegmentKeeps(s0: Paged, s1: Paged, s2: Paged, s3: Paged, owner0: map<nat, nat>, owner: map<nat, nat>,
                     file: seq<Byte>, l: Load, w: nat)
    requires SegmentFits(file, l) && Owns(s0, owner0) && w < PAGES && !InPages(l, w)
    requires RangeGiven(s0, s1, owner0, owner, FirstPage(l), PageCount(l), 7)
    requires Stored(s1, s2, owner, l.rva, Zeros(l.memSize))
    requires Stored(s2, s3, owner, l.rva, file[l.fileOffset..l.fileOffset + l.fileSize])
    ensures PageKept(s0, s3, owner0, owner, w)
  {
    MappingKeeps(s0, s1, owner0, owner, w);
    if l.memSize > 0 {
      StoringKeeps(s1, s2, owner, l.rva, Zeros(l.memSize), w);
      StoringKeeps(s2, s3, owner, l.rva, file[l.fileOffset..l.fileOffset + l.fileSize], w);
    } else {
      assert Zeros(l.memSize) == [] && file[l.fileOffset..l.fileOffset + l.fileSize] == [];
      EmptyStoreKeeps(s1, s2, owner, l.rva, w);
      EmptyStoreKeeps(s2, s3, owner, l.rva, w);
    }
    KeptTwice(s0, s1, s2, owner0, owner, owner, w);
    KeptTwice(s0, s2, s3, owner0, owner, owner, w);
  }

  lemma EmptyStoreKeeps(s: Paged, s': Paged, owner: map<nat, nat>, lo: nat, w: nat)
    requires Owns(s, owner) && Stored(s, s', owner, lo, []) && w < PAGES
    ensures PageKept(s, s', owner, owner, w)
  {
    if HasOwn(s, owner, w) {
      OwnedFrame(s, owner, w);
      forall k: nat | k < 4096
        ensures PageByte(s', w, k) == PageByte(s, w, k)
      {
        assert StoredByte(s, s', owner, lo, [], w, k);
      }
    }
  }

  /** A bad magic number is refused. */
  datatype Outcome = InvalidMagic | Started(entry: nat)

  /** What the loader needs of a file whose magic number is right: complete commands, and segments that fit. */
  ghost predicate Wellformed(file: seq<Byte>, loads: seq<Load>) {
    && HEADER_SIZE <= |file|
    && Loads(file, Field(file, 24, 8), Field(file, 8, 4)) == Some(loads)
    && Fits(file, loads)
  }

  /** The state after the first `k` segments are loaded. */
  ghost predicate LoadedSoFar(s: Paged, owner: map<nat, nat>, file: seq<Byte>, loads: seq<Load>, k: nat)
    requires Fits(file, loads) && k <= |loads| && Owns(s, owner)
  {
    && (forall j :: 0 <= j < k ==> InPlace(s, owner, file, loads[j]))
    && Ready(s, loads[k..])
  }

  /** No segment and not the stack lies on page `w`. */
  ghost predicate Untouched(loads: seq<Load>, w: nat) {
    w != STACK_PAGE && forall j :: 0 <= j < |loads| ==> !InPages(loads[j], w)
  }

  /** Every page that the program does not use was kept. */
  ghost predicate OthersKept(s0: Paged, s: Paged, owner0: map<nat, nat>, owner: map<nat, nat>, loads: seq<Load>)
    requires Owns(s0, owner0) && Owns(s, owner)
  {
    forall w: nat :: w < PAGES && Untouched(loads, w) ==> PageKept(s0, s, owner0, owner, w)
  }

  lemma OthersKeptOn(s0: Paged, s: Paged, s': Paged, owner0: map<nat, nat>, owner: map<nat, nat>, owner': map<nat, nat>,
                     loads: seq<Load>, k: nat)
    requires Owns(s0, owner0) && Owns(s, owner) && Owns(s', owner') && k < |loads|
    requires OthersKept(s0, s, owner0, owner, loads) && KeptOutside(s, s', owner, owner', loads[k])
    ensures OthersKept(s0, s', owner0, owner', loads)
  {
  }

  lemma OthersKeptAtFirst(s: Paged, owner: map<nat, nat>, loads: seq<Load>)
    requires Owns(s, owner)
    ensures OthersKept(s, s, owner, owner, loads)
  {
  }

  /** Loading segment `k` after the first `k`. */
  lemma OneMoreLoaded(file: seq<Byte>, s: Paged, s': Paged, owner: map<nat, nat>, owner': map<nat, nat>,
                      loads: seq<Load>, k: nat)
    requires Fits(file, loads) && k < |loads| && Owns(s, owner) && Owns(s', owner')
    requires LoadedSoFar(s, owner, file, loads, k)
    requires KeptOutside(s, s', owner, owner', loads[k]) && Demand(s', PagesOfAll(loads[k + 1..])) <= |s'.free|
    requires InPlace(s', owner', file, loads[k])
    ensures LoadedSoFar(s', owner', file, loads, k + 1)
  {
    var rest := loads[k..];
    assert rest[1..] == loads[k + 1..];
    FitsRest(file, loads, k);
    StillReady(file, s, s', owner, owner', rest);
    forall j | 0 <= j < k + 1
      ensures InPlace(s', owner', file, loads[j])
    {
      if j < k {
        assert ApartPages(loads[j], loads[k]);
        InPlaceBeside(file, s, s', owner, owner', loads[j], loads[k]);
      }
    }
  }

  lemma FitsRest(file: seq<Byte>, loads: seq<Load>, k: nat)
    requires Fits(file, loads) && k <= |loads|
    ensures Fits(file, loads[k..])
  {
  }

  /** One round of the command loop. */
  method LoadCommand(vm: AddressSpace, file: seq<Byte>, offset: nat, ghost left: nat, ghost ahead: seq<Load>,
                     ghost loads: seq<Load>, ghost k: nat, ghost s0: Paged, ghost owner0: map<nat, nat>)
    returns (next: nat, ghost k': nat, ghost left': nat, ghost ahead': seq<Load>)
    requires Owns(s0, owner0) && vm.Consistent() && OthersKept(s0, vm.State(), owner0, vm.owner, loads)
    requires Fits(file, loads) && k <= |loads| && left > 0 && ahead == loads[k..]
             && Loads(file, offset, left) == Some(ahead)
    requires vm.Consistent() && LoadedSoFar(vm.State(), vm.owner, file, loads, k)
    modifies vm.frames, vm.pmm`usedBlocks, vm.pmm.bitmap, vm`place, vm`owner
    ensures left' == left - 1 && k' <= |loads| && ahead' == loads[k'..] && Loads(file, next, left') == Some(ahead')
    ensures vm.Consistent() && LoadedSoFar(vm.State(), vm.owner, file, loads, k')
    ensures OthersKept(s0, vm.State(), owner0, vm.owner, loads)
  {
    k', left', ahead' := k, left - 1, ahead;
    next := offset + Field(file, offset + 4, 4);
    NextRound(file, offset, next, left, left', ahead);
    if Field(file, offset, 4) == CMD_SEGMENT {
      var l := LoadAt(file, offset);
      assert ahead[0] == loads[k] && ahead[1..] == loads[k + 1..];
      LoadNext(vm, file, l, loads, k, s0, owner0);
      k', ahead' := k + 1, ahead[1..];
    }
  }

  /** What one round takes off the walk. */
  lemma NextRound(file: seq<Byte>, offset: nat, next: nat, left: nat, left': nat, ahead: seq<Load>)
    requires left > 0 && left' == left - 1 && Loads(file, offset, left) == Some(ahead)
    requires offset + 8 <= |file| && next == offset + Field(file, offset + 4, 4)
    ensures Field(file, offset, 4) == CMD_SEGMENT ==>
              && offset + SEGMENT_SIZE <= |file| && ahead != [] && ahead[0] == LoadAt(file, offset)
              && Loads(file, next, left') == Some(ahead[1..])
    ensures Field(file, offset, 4) != CMD_SEGMENT ==> Loads(file, next, left') == Some(ahead)
  {
  }

  /** The next segment, with what it leaves of the earlier ones and of all other pages. */
  method LoadNext(vm: AddressSpace, file: seq<Byte>, l: Load, ghost loads: seq<Load>, ghost k: nat, ghost s0: Paged,
                  ghost owner0: map<nat, nat>)
    requires Owns(s0, owner0) && vm.Consistent() && OthersKept(s0, vm.State(), owner0, vm.owner, loads)
    requires Fits(file, loads) && k < |loads| && l == loads[k]
    requires vm.Consistent() && LoadedSoFar(vm.State(), vm.owner, file, loads, k)
    modifies vm.frames, vm.pmm`usedBlocks, vm.pmm.bitmap, vm`place, vm`owner
    ensures vm.Consistent() && LoadedSoFar(vm.State(), vm.owner, file, loads, k + 1)
    ensures OthersKept(s0, vm.State(), owner0, vm.owner, loads)
  {
    ghost var s, owner := vm.State(), vm.owner;
    LoadSegment(vm, file, l, PagesOfAll(loads[k + 1..]));
    OneMoreLoaded(file, s, vm.State(), owner, vm.owner, loads, k);
    OthersKeptOn(s0, s, vm.State(), owner0, owner, vm.owner, loads, k);
  }

  /** `load_kex_and_run` up to the switch to user mode. */
  method LoadKexAndRun(vm: AddressSpace, file: seq<Byte>, ghost loads: seq<Load>) returns (r: Outcome)
    requires vm.Consistent() && HEADER_SIZE <= |file|
    requires file[0..4] == MAGIC ==> Wellformed(file, loads) && Ready(vm.State(), loads)
    modifies vm.frames, vm.pmm`usedBlocks, vm.pmm.bitmap, vm`place, vm`owner
    ensures vm.Consistent()
    ensures r.InvalidMagic? <==> file[0..4] != MAGIC
    ensures r.InvalidMagic? ==> vm.State() == old(vm.State()) && vm.owner == old(vm.owner)
    ensures r.Started? ==>
              && r.entry == Field(file, 16, 8)
              && HasOwn(vm.State(), vm.owner, 0x7FF) && HasFlags(vm.State(), 0x7FF, 7)
              && forall j :: 0 <= j < |loads| ==>
                   && SegmentFits(file, loads[j])
                   && Holds(vm.State(), vm.owner, loads[j].rva, SegmentImage(file, loads[j]))
                   && forall w: nat :: InPages(loads[j], w) ==> HasFlags(vm.State(), w, 7)
    ensures r.Started? && UpperOnly(vm.base, vm.root) ==>
              && UserMay(vm.State(), 0x7FF)
              && forall j, w: nat :: 0 <= j < |loads| && InPages(loads[j], w) ==> UserMay(vm.State(), w)
    ensures r.Started? ==>
              old(Owns(vm.State(), vm.owner)) && OthersKept(old(vm.State()), vm.State(), old(vm.owner), vm.owner, loads)
  {
    MagicBytes(file);
    if file[0] != MAGIC[0] || file[1] != MAGIC[1] || file[2] != MAGIC[2] || file[3] != MAGIC[3] {
      return InvalidMagic;
    }
    LoadCommands(vm, file, loads);
    if UpperOnly(vm.base, vm.root) { ProgramOpen(vm.State(), vm.owner, vm.base, file, loads); }
    r := Started(Field(file, 16, 8));
  }

  /** The program may read and write its segments and its stack, through all four levels of tables. */
  lemma ProgramOpen(s: Paged, owner: map<nat, nat>, base: map<nat, Place>, file: seq<Byte>, loads: seq<Load>)
    requires Sound(s) && Owns(s, owner) && OpenBeyond(s.mem, s.place, base) && UpperOnly(base, s.root)
    requires HasFlags(s, STACK_PAGE, 7) && forall j :: 0 <= j < |loads| ==> InPlace(s, owner, file, loads[j])
    ensures UserMay(s, 0x7FF)
    ensures forall j, w: nat :: 0 <= j < |loads| && InPages(loads[j], w) ==> UserMay(s, w)
  {
    OpensToUser(s, base, 0x7FF);
    forall j, w: nat | 0 <= j < |loads| && InPages(loads[j], w)
      ensures UserMay(s, w)
    {
      assert InPlace(s, owner, file, loads[j]) && w < PAGES / 2;
      OpensToUser(s, base, w);
    }
  }

  lemma MagicBytes(file: seq<Byte>)
    requires HEADER_SIZE <= |file|
    ensures file[0..4] == MAGIC
            <==> file[0] == MAGIC[0] && file[1] == MAGIC[1] && file[2] == MAGIC[2] && file[3] == MAGIC[3]
  {
    var head := file[0..4];
    assert head[0] == file[0] && head[1] == file[1] && head[2] == file[2] && head[3] == file[3];
  }

  /** The command loop, and the stack page after it. */
  method LoadCommands(vm: AddressSpace, file: seq<Byte>, ghost loads: seq<Load>)
    requires vm.Consistent() && Wellformed(file, loads) && Ready(vm.State(), loads)
    modifies vm.frames, vm.pmm`usedBlocks, vm.pmm.bitmap, vm`place, vm`owner
    ensures vm.Consistent() && HasOwn(vm.State(), vm.owner, STACK_PAGE) && HasFlags(vm.State(), STACK_PAGE, 7)
    ensures forall j :: 0 <= j < |loads| ==> InPlace(vm.State(), vm.owner, file, loads[j])
    ensures old(Owns(vm.State(), vm.owner)) && OthersKept(old(vm.State()), vm.State(), old(vm.owner), vm.owner, loads)
  {
    var offset := Field(file, 24, 8);
    var count := Field(file, 8, 4);
    ghost var k: nat, left: nat, ahead, s0, owner0 := 0, count, loads, vm.State(), vm.owner;
    LoadedAtFirst(file, s0, owner0, loads);
    OthersKeptAtFirst(s0, owner0, loads);
    for i := 0 to count
      invariant left == count - i && k <= |loads| && ahead == loads[k..] && Loads(file, offset, left) == Some(ahead)
      invariant vm.Consistent()
      invariant LoadedSoFar(vm.State(), vm.owner, file, loads, k) && OthersKept(s0, vm.State(), owner0, vm.owner, loads)
    {
      offset, k, left, ahead := LoadCommand(vm, file, offset, left, ahead, loads, k, s0, owner0);
    }
    AllLoaded(file, offset, ahead, loads, k);
    MapStack(vm, file, loads, k, s0, owner0);
  }

  /** The walk ends when all segments were met. */
  lemma AllLoaded(file: seq<Byte>, offset: nat, ahead: seq<Load>, loads: seq<Load>, k: nat)
    requires k <= |loads| && ahead == loads[k..] && Loads(file, offset, 0) == Some(ahead)
    ensures k == |loads|
  {
  }

  lemma LoadedAtFirst(file: seq<Byte>, s: Paged, owner: map<nat, nat>, loads: seq<Load>)
    requires Fits(file, loads) && Ready(s, loads) && Owns(s, owner)
    ensures loads[0..] == loads && LoadedSoFar(s, owner, file, loads, 0)
  {
    assert loads[0..] == loads;
  }

  /** After all segments, the stack page can still be mapped. */
  lemma StackReady(s: Paged, owner: map<nat, nat>, file: seq<Byte>, loads: seq<Load>)
    requires Owns(s, owner) && Fits(file, loads) && LoadedSoFar(s, owner, file, loads, |loads|)
    ensures Small(s, STACK_PAGE) && Missing(s, [STACK_PAGE]) < |s.free|
  {
  }

  /** `vmm_map_page(pmm_alloc_block(), 0x7FF000, 0x7)` */
  method MapStackPage(vm: AddressSpace) returns (ghost ev: Event)
    requires vm.Consistent() && Small(vm.State(), STACK_PAGE) && Missing(vm.State(), [STACK_PAGE]) < |vm.pmm.Free()|
    modifies vm.frames, vm.pmm`usedBlocks, vm.pmm.bitmap, vm`place, vm`owner
    ensures vm.Consistent() && vm.owner == OwnerAfter(old(vm.owner), ev)
    ensures FreshStep(old(vm.State()), vm.State(), ev) && ev.v == STACK_PAGE && HasFlags(vm.State(), STACK_PAGE, 7)
  {
    var virt: Word := 0x7FF000;
    ghost var pages := [STACK_PAGE];
    assert pages[0] == PageOf(virt);
    ev := vm.MapFresh(virt, 7, pages);
    FlagsStay(7);
  }

  /** The stack page, mapped after all segments. */
  method MapStack(vm: AddressSpace, file: seq<Byte>, ghost loads: seq<Load>, ghost k: nat,
                  ghost s0: Paged, ghost owner0: map<nat, nat>)
    requires Owns(s0, owner0) && vm.Consistent() && OthersKept(s0, vm.State(), owner0, vm.owner, loads)
    requires Fits(file, loads) && k == |loads|
    requires vm.Consistent() && LoadedSoFar(vm.State(), vm.owner, file, loads, k)
    modifies vm.frames, vm.pmm`usedBlocks, vm.pmm.bitmap, vm`place, vm`owner
    ensures vm.Consistent() && HasOwn(vm.State(), vm.owner, STACK_PAGE) && HasFlags(vm.State(), STACK_PAGE, 7)
    ensures forall j :: 0 <= j < |loads| ==> InPlace(vm.State(), vm.owner, file, loads[j])
    ensures OthersKept(s0, vm.State(), owner0, vm.owner, loads)
  {
    ghost var s, owner := vm.State(), vm.owner;
    StackReady(s, owner, file, loads);
    ghost var ev := MapStackPage(vm);
    StepOwns(s, vm.State(), ev, owner);
    StackKeepsOthers(s0, s, vm.State(), owner0, owner, ev, loads);
    StackKeepsAll(file, s, vm.State(), owner, ev, loads);
  }

  lemma StackKeepsAll(file: seq<Byte>, s: Paged, s': Paged, owner: map<nat, nat>, ev: Event, loads: seq<Load>)
    requires FreshStep(s, s', ev) && ev.v == STACK_PAGE && Owns(s, owner) && Owns(s', OwnerAfter(owner, ev))
    requires Fits(file, loads)
    requires forall j :: 0 <= j < |loads| ==> InPlace(s, owner, file, loads[j])
    ensures forall j :: 0 <= j < |loads| ==> InPlace(s', OwnerAfter(owner, ev), file, loads[j])
  {
    forall j | 0 <= j < |loads|
      ensures InPlace(s', OwnerAfter(owner, ev), file, loads[j])
    {
      StackKeeps(file, s, s', owner, ev, loads[j]);
    }
  }

  lemma StackKeepsOthers(s0: Paged, s: Paged, s': Paged, owner0: map<nat, nat>, owner: map<nat, nat>, ev: Event,
                         loads: seq<Load>)
    requires FreshStep(s, s', ev) && ev.v == STACK_PAGE && Owns(s, owner) && Owns(s', OwnerAfter(owner, ev))
    requires Owns(s0, owner0) && OthersKept(s0, s, owner0, owner, loads)
    ensures OthersKept(s0, s', owner0, OwnerAfter(owner, ev), loads)
  {
    var owner' := OwnerAfter(owner, ev);
    forall w: nat | w < PAGES && Untouched(loads, w)
      ensures PageKept(s0, s', owner0, owner', w)
    {
      StepKeeps(s, s', ev, owner, w);
      MappingKeeps(s, s', owner, owner', w);
      KeptTwice(s0, s, s', owner0, owner, owner', w);
    }
  }

  lemma StackKeeps(file: seq<Byte>, s: Paged, s': Paged, owner: map<nat, nat>, ev: Event, l: Load)
    requires FreshStep(s, s', ev) && ev.v == STACK_PAGE && Owns(s, owner) && Owns(s', OwnerAfter(owner, ev))
    requires InPlace(s, owner, file, l) && !InPages(l, STACK_PAGE)
    ensures InPlace(s', OwnerAfter(owner, ev), file, l)
  {
    forall w: nat | InPages(l, w)
      ensures PageKept(s, s', owner, OwnerAfter(owner, ev), w)
    {
      StepKeeps(s, s', ev, owner, w);
      MappingKeeps(s, s', owner, OwnerAfter(owner, ev), w);
    }
    InPlaceStill(file, s, s', owner, OwnerAfter(owner, ev), l);
  }
}
