/** The kernel's page-table code, working in place on physical memory. */
module Vmm {
  import opened Bits
  import opened Paging
  import opened PageEntries
  import opened Mapping
  import opened Descent
  import opened Ownership
  import opened UserBytes
  import opened Access
  import opened Pmm

  method IsPresent(e: Word) returns (p: bool)
    ensures p <==> Present(e)
  {
    TestPresent(e);
    p := BitAnd(e, 1) != 0;
  }

  method TableOf(e: Word) returns (f: nat)
    ensures f == FrameOf(e)
  {
    MaskFrame(e);
    f := BitAnd(e, ADDR_MASK) / 4096;
  }

  /** The four table indices in a virtual address. */
  method Indices(virt: Word) returns (pml4: nat, pdpt: nat, pd: nat, pt: nat)
    ensures pml4 == Index(PageOf(virt), 4) && pdpt == Index(PageOf(virt), 3)
    ensures pd == Index(PageOf(virt), 2) && pt == Index(PageOf(virt), 1)
  {
    ShiftedIndex(virt);
    pml4 := BitAnd(Shr(virt, 39), INDEX_MASK);
    pdpt := BitAnd(Shr(virt, 30), INDEX_MASK);
    pd := BitAnd(Shr(virt, 21), INDEX_MASK);
    pt := BitAnd(Shr(virt, 12), INDEX_MASK);
  }

  /** The pages that `video.bad` takes when it lies at physical address `vidPhys`. */
  function VideoPages(vidPhys: Word, vidSize: nat): nat { (vidSize + vidPhys % 4096 + 4095) / 4096 }

  method MakeLeaf(phys: Word, flags: Word) returns (e: Word)
    ensures Present(e) && FrameOf(e) == FrameOf(phys) && FlagsOf(e) == BitOr(FlagsOf(flags), 1)
    ensures e / 4096 == phys / 4096 % 0x100_0000_0000
    ensures e % 4096 == if flags % 2 == 1 then flags % 4096 else flags % 4096 + 1
  {
    LeafExpression(phys, flags);
    LeafBits(phys, flags);
    e := BitOr(BitOr(BitAnd(phys, ADDR_MASK), BitAnd(flags, FLAG_MASK)), 1);
  }

  /** The page that an address lies in, and its offset there. */
  method SplitPhysical(phys: Word) returns (aligned: Word, offset: nat)
    ensures aligned == phys / 4096 * 4096 && offset == phys % 4096
  {
    MaskAlign(phys);
    MaskFlags(phys);
    aligned := BitAnd(phys, 0xFFFF_FFFF_FFFF_F000);
    offset := BitAnd(phys, 0xFFF);
  }

  class AddressSpace {
    const frames: array<Frame>
    const pmm: FrameAllocator
    /** The frame that CR3 refers to. */
    var root: nat
    ghost var place: map<nat, Place>
    /** The pages that were given frames of their own. */
    ghost var owner: map<nat, nat>
    /** The tables that were there when the address space was made. */
    ghost var base: map<nat, Place>

    ghost function State(): Paged
      reads `root, `place, frames, pmm, pmm.bitmap
    {
      Paged(frames[..], root, place, pmm.Free())
    }

    ghost predicate Valid()
      reads `root, `place, frames, pmm, pmm.bitmap
    {
      pmm.Valid() && Sound(State())
    }

    /** Valid, frames that were given to one page are still only that page's, and new tables are open to programs. */
    ghost predicate Consistent()
      reads `root, `place, `owner, `base, frames, pmm, pmm.bitmap
    {
      Valid() && Owns(State(), owner) && Opened()
    }

    /** All later tables are open to programs. */
    ghost predicate Opened()
      reads `root, `place, `base, frames
    {
      root in base && OpenBeyond(frames[..], place, base)
    }

    /** The bootloader's tables, reached from the frame that CR3 holds. */
    constructor (frames: array<Frame>, pmm: FrameAllocator, cr3: nat, ghost place: map<nat, Place>)
      requires pmm.Valid() && Sound(Paged(frames[..], cr3, place, pmm.Free()))
      ensures this.frames == frames && this.pmm == pmm && root == cr3 && this.place == place
      ensures Consistent() && owner == map[] && base == place
    {
      this.frames := frames;
      this.pmm := pmm;
      this.root := cr3;
      this.place := place;
      this.owner := map[];
      this.base := place;
    }

    /** `memset((void*)(block + hhdm_offset), 0, 4096)` */
    method ZeroBlock(z: nat)
      requires z < frames.Length
      modifies frames
      ensures frames[..] == old(frames[..])[z := ZeroFrame()]
    {
      var words := frames[z];
      for i := 0 to 512
        invariant forall k :: 0 <= k < i ==> words[k] == 0
      {
        words := words[i := 0];
      }
      frames[z] := words;
      assert words == ZeroFrame();
    }

    /** Clears the new table and makes the slot refer to it. */
    method HookTable(f: nat, i: nat, block: nat)
      requires f < frames.Length && i < 512 && block % 4096 == 0
      requires block / 4096 < frames.Length <= 0x100_0000_0000
      modifies frames
      ensures frames[..] == AddTable(old(frames[..]), f, i, block / 4096)
    {
      ZeroBlock(block / 4096);
      TableEntryIs(block / 4096);
      frames[f] := frames[f][i := BitOr(block, 7)];
    }

    /** The body of each `if (!(table[index] & 0x1))` of `vmm_map_page`; with no free frame, frame 0 is taken. */
    method FillSlot(f: nat, i: nat, ghost level: nat)
      requires pmm.Valid() && Fits(State()) && f < frames.Length && i < 512 && level > 0
      modifies frames, pmm`usedBlocks, pmm.bitmap, `place
      ensures pmm.Valid() && State() == Fill(old(State()), level, f, i, NextFrame(old(pmm.Free())))
    {
      ghost var z := NextFrame(pmm.Free());
      var block := pmm.AllocBlock();
      assert block == z * 4096;
      HookTable(f, i, block);
      place := place[z := Place(level - 1, f, i)];
      assert pmm.Free() == old(pmm.Free()) - {z};
    }

    /** The table that the slot `i` of table `f` refers to, allocated if the slot is empty. */
    method NextTable(f: nat, i: nat, ghost level: nat) returns (next: nat)
      requires pmm.Valid() && Fits(State()) && f < frames.Length && i < 512 && level > 0
      modifies frames, pmm`usedBlocks, pmm.bitmap, `place
      ensures pmm.Valid() && State() == Hook(old(State()), level, f, i) && next == FrameOf(frames[f][i])
    {
      var present := IsPresent(frames[f][i]);
      if !present {
        FillSlot(f, i, level);
      }
      next := TableOf(frames[f][i]);
    }

    /** The three levels of tables on the way to the page table of `virt`'s page. */
    method TablesFor(virt: Word, pml4Index: nat, pdptIndex: nat, pdIndex: nat) returns (pt: nat)
      requires pml4Index == Index(PageOf(virt), 4) && pdptIndex == Index(PageOf(virt), 3)
        && pdIndex == Index(PageOf(virt), 2)
      requires Valid() && Small(State(), PageOf(virt))
      modifies frames, pmm`usedBlocks, pmm.bitmap, `place
      ensures pmm.Valid() && pt < frames.Length && Fits(old(State())) && old(root < frames.Length)
      ensures Descend(old(State()), 4, root, PageOf(virt)) == Reached(State(), pt)
    {
      ghost var v, s0 := PageOf(virt), State();
      RootIntact(s0, v);
      DescendStep(s0, 4, root, v);
      HookGoes(s0, 4, root, v);
      var pdpt := NextTable(root, pml4Index, 4);
      ghost var s1 := State();
      DescendStep(s1, 3, pdpt, v);
      HookGoes(s1, 3, pdpt, v);
      var pd := NextTable(pdpt, pdptIndex, 3);
      ghost var s2 := State();
      DescendStep(s2, 2, pd, v);
      HookGoes(s2, 2, pd, v);
      pt := NextTable(pd, pdIndex, 2);
      assert Descend(State(), 1, pt, v) == Reached(State(), pt);
    }

    /** `vmm_map_page`: always the steps for the entry `e`, and a map update when no missing table lacks a frame. */
    method MapPage(phys: Word, virt: Word, flags: Word) returns (ghost e: Word, ghost added: set<nat>)
      requires Valid() && Small(State(), PageOf(virt))
      modifies frames, pmm`usedBlocks, pmm.bitmap, `place
      ensures pmm.Valid() && Fits(old(State())) && old(root < frames.Length)
      ensures State() == MapSteps(old(State()), PageOf(virt), e)
      ensures Present(e) && FrameOf(e) == FrameOf(phys) && FlagsOf(e) == BitOr(FlagsOf(flags), 1)
      ensures e / 4096 == phys / 4096 % 0x100_0000_0000
      ensures e % 4096 == if flags % 2 == 1 then flags % 4096 else flags % 4096 + 1
      ensures |Lacking(old(State()), RoutesOf(PageOf(virt)))| <= old(|pmm.Free()|) ==>
                && Valid() && Mapped(old(State()), State(), PageOf(virt), e, added)
                && (old(Opened()) ==> Opened())
    {
      ghost var s, v := State(), PageOf(virt);
      var pml4Index, pdptIndex, pdIndex, ptIndex := Indices(virt);
      var pt := TablesFor(virt, pml4Index, pdptIndex, pdIndex);
      var entry := MakeLeaf(phys, flags);
      e := entry;
      frames[pt] := frames[pt][ptIndex := entry];
      assert State() == MapSteps(s, v, e);
      added := s.free - State().free;
      if |Lacking(s, RoutesOf(v))| <= |s.free| {
        StepsMap(s, v, e);
        if OpenBeyond(s.mem, s.place, base) && root in base { StepsOpen(s, base, v, e); }
      }
    }

    /** `vmm_initialize` */
    method Initialize()
      requires Valid() && pmm.Free() != {}
      modifies frames, pmm`usedBlocks, pmm.bitmap, `root, `place, `owner, `base
      ensures Consistent() && owner == map[] && UpperOnly(base, root)
      ensures root in old(pmm.Free()) && State() == Rooted(old(State()), root)
    {
      var block := pmm.AllocBlock();
      RootedUpper(old(State()), block / 4096);
      CopyUpperHalf(block / 4096);
      place := UpperPlaces(root, place, block / 4096);
      root := block / 4096;
      owner, base := map[], place;
      assert pmm.Free() == old(pmm.Free()) - {root};
    }

    /** The two loops that fill the new PML4. */
    method CopyUpperHalf(z: nat)
      requires z < frames.Length && root < frames.Length && z != root
      modifies frames
      ensures frames[..] == old(frames[..])[z := SharedRoot(old(frames[root]))]
    {
      ZeroBlock(z);
      var words := frames[z];
      for i := 256 to 512
        invariant forall k :: 0 <= k < 256 ==> words[k] == 0
        invariant forall k :: 256 <= k < i ==> words[k] == frames[root][k]
      {
        words := words[i := frames[root][i]];
      }
      frames[z] := words;
      assert words == SharedRoot(old(frames[root]));
    }

    /** `vmm_map_page(pmm_alloc_block(), virt, flags)`, when frames remain for the page and its tables. */
    method AllocAndMap(virt: Word, flags: Word, ghost pages: seq<nat>) returns (ghost ev: Event)
      requires Valid() && Small(State(), PageOf(virt))
      requires pages != [] && pages[0] == PageOf(virt) && Missing(State(), pages) < |pmm.Free()|
      modifies frames, pmm`usedBlocks, pmm.bitmap, `place
      ensures Valid() && FreshStep(old(State()), State(), ev) && (old(Opened()) ==> Opened())
      ensures ev.v == PageOf(virt) && FlagsOf(ev.entry) == BitOr(FlagsOf(flags), 1)
    {
      ghost var s := State();
      var block := TakeFrame();
      FreshReady(s, pages, block / 4096);
      ghost var e, added := MapPage(block, virt, flags);
      ev := Event(PageOf(virt), e, block / 4096, added);
    }

    /** `pmm_alloc_block()`, when a frame is free. */
    method TakeFrame() returns (block: Word)
      requires Valid() && pmm.Free() != {}
      modifies pmm`usedBlocks, pmm.bitmap
      ensures block / 4096 in old(pmm.Free()) && FrameOf(block) == block / 4096 && pmm.Valid()
      ensures State() == old(State()).(free := old(pmm.Free()) - {block / 4096})
    {
      block := pmm.AllocBlock();
      assert pmm.Free() == old(pmm.Free()) - {block / 4096};
      assert block == block / 4096 * 4096;
      FrameOfBlock(block / 4096);
    }

    /** The same, keeping track of who owns which frame and of how many frames are still needed. */
    method MapFresh(virt: Word, flags: Word, ghost pages: seq<nat>) returns (ghost ev: Event)
      requires Consistent() && Small(State(), PageOf(virt))
      requires pages != [] && pages[0] == PageOf(virt) && Missing(State(), pages) < |pmm.Free()|
      modifies frames, pmm`usedBlocks, pmm.bitmap, `place, `owner
      ensures Consistent() && owner == OwnerAfter(old(owner), ev)
      ensures FreshStep(old(State()), State(), ev) && ev.v == PageOf(virt)
      ensures FlagsOf(ev.entry) == BitOr(FlagsOf(flags), 1)
      ensures |pmm.Free()| - Missing(State(), pages[1..]) == old(|pmm.Free()| - 1 - Missing(State(), pages))
    {
      ghost var s := State();
      ev := AllocAndMap(virt, flags, pages);
      StepKeepsOwns(s, State(), ev, owner);
      StepMeetsMissing(s, State(), ev, pages);
      Record(OwnerAfter(owner, ev));
    }

    /** Who owns which frame from now on. */
    ghost method Record(o: map<nat, nat>)
      requires Valid() && Opened() && Owns(State(), o)
      modifies `owner
      ensures Consistent() && owner == o
    {
      owner := o;
    }

    /**
     The loops that map fresh frames at consecutive pages: the heap of `_start`, and each segment of
     `load_kex_and_run`. Frames must remain for `extra` blocks and for the tables of the pages `rest`.
     */
    method MapFreshRange(virt: Word, size: nat, flags: Word, ghost rest: seq<nat>, ghost extra: nat)
      requires Consistent() && virt + size + 4095 < U64 && PageOf(virt) + (size + 4095) / 4096 <= PAGES
      requires forall w: nat :: PageOf(virt) <= w < PageOf(virt) + (size + 4095) / 4096 ==> Small(State(), w)
      requires Missing(State(), Pages(PageOf(virt), (size + 4095) / 4096) + rest) + (size + 4095) / 4096
               + extra <= |pmm.Free()|
      modifies frames, pmm`usedBlocks, pmm.bitmap, `place, `owner
      ensures Consistent()
      ensures RangeGiven(old(State()), State(), old(owner), owner, PageOf(virt), (size + 4095) / 4096, flags)
      ensures Missing(State(), rest) + extra <= |pmm.Free()|
    {
      ghost var n := (size + 4095) / 4096;
      ghost var s0, owner0 := State(), owner;
      ghost var pages := Pages(PageOf(virt), n) + rest;
      var offset, k := 0, 0;
      NothingGiven(s0, owner0, PageOf(virt), flags);
      while offset < size
        invariant offset == 4096 * k && k <= n
        invariant Consistent() && RangeGiven(s0, State(), owner0, owner, PageOf(virt), k, flags)
        invariant Missing(State(), pages[k..]) + (n - k) + extra <= |pmm.Free()|
        decreases size - offset
      {
        MapNext(virt, flags, s0, owner0, k, pages);
        offset, k := offset + 4096, k + 1;
      }
      assert pages[n..] == rest;
    }

    /** Round `k` of the mapping loops. */
    method MapNext(virt: Word, flags: Word, ghost s0: Paged, ghost owner0: map<nat, nat>, k: nat, ghost pages: seq<nat>)
      requires virt + 4096 * k < U64 && PageOf(virt) + k < PAGES && Small(s0, PageOf(virt) + k)
      requires Consistent() && RangeGiven(s0, State(), owner0, owner, PageOf(virt), k, flags)
      requires k < |pages| && pages[k] == PageOf(virt) + k && Missing(State(), pages[k..]) < |pmm.Free()|
      modifies frames, pmm`usedBlocks, pmm.bitmap, `place, `owner
      ensures Consistent() && RangeGiven(s0, State(), owner0, owner, PageOf(virt), k + 1, flags)
      ensures |pmm.Free()| - Missing(State(), pages[k + 1..]) == old(|pmm.Free()| - 1 - Missing(State(), pages[k..]))
    {
      ghost var s, own, v := State(), owner, PageOf(virt);
      PageStep(virt, k);
      SmallAhead(s0, s, owner0, own, v, k, flags);
      assert pages[k + 1..] == pages[k..][1..];
      ghost var ev := MapFresh(virt + 4096 * k, flags, pages[k..]);
      StepGives(s0, s, State(), owner0, own, v, k, flags, ev);
    }

    /** Maps the module that holds `video.bad`, wherever it lies in physical memory, at 0x80000000. */
    method MapVideo(vidPhys: Word, vidSize: nat, ghost rest: seq<nat>)
      requires Consistent() && vidPhys + vidSize + 8192 <= 0x10_0000_0000_0000
      requires 0x8000_0000 + vidSize + 8192 <= USER_END
      requires forall w: nat :: 0x8_0000 <= w < 0x8_0000 + VideoPages(vidPhys, vidSize) ==> Small(State(), w)
      requires Missing(State(), Pages(0x8_0000, VideoPages(vidPhys, vidSize)) + rest) + |rest| <= |pmm.Free()|
      modifies frames, pmm`usedBlocks, pmm.bitmap, `place, `owner
      ensures Consistent() && Demand(State(), rest) <= |pmm.Free()|
      ensures MapsTo(State(), 0x8000_0000 + vidPhys % 4096, vidSize, vidPhys)
      ensures forall w: nat :: 0x8_0000 <= w < 0x8_0000 + VideoPages(vidPhys, vidSize) ==> HasFlags(State(), w, 7)
      ensures forall w: nat :: w < PAGES && !(0x8_0000 <= w < 0x8_0000 + VideoPages(vidPhys, vidSize)) ==>
                Kept(old(State()), State(), old(owner), owner, w)
    {
      var aligned, offset := SplitPhysical(vidPhys);
      var pagesNeeded := (vidSize + offset + 4095) / 4096;
      assert aligned + offset == vidPhys && offset == vidPhys % 4096;
      MapBytes(aligned, offset, vidSize, pagesNeeded, vidPhys / 4096, 0x8000_0000 + vidPhys % 4096, vidPhys, rest);
    }

    /**
     Maps `n` pages for the `vidSize` bytes that begin `offset` bytes behind `aligned`, which is
     where frame `f` begins.
     */
    method MapBytes(aligned: Word, ghost offset: nat, ghost vidSize: nat, n: nat, ghost f: nat, ghost lo: nat,
                    ghost phys: nat, ghost rest: seq<nat>)
      requires Consistent() && aligned == f * 4096 && offset < 4096 && n == (vidSize + offset + 4095) / 4096
      requires lo == 0x8000_0000 + offset && phys == aligned + offset
      requires phys + vidSize + 8192 <= 0x10_0000_0000_0000 && 0x8000_0000 + vidSize + 8192 <= USER_END
      requires forall w: nat :: 0x8_0000 <= w < 0x8_0000 + n ==> Small(State(), w)
      requires Missing(State(), Pages(0x8_0000, n) + rest) + |rest| <= |pmm.Free()|
      modifies frames, pmm`usedBlocks, pmm.bitmap, `place, `owner
      ensures Consistent() && Demand(State(), rest) <= |pmm.Free()|
      ensures MapsTo(State(), lo, vidSize, phys)
      ensures forall w: nat :: 0x8_0000 <= w < 0x8_0000 + n ==> HasFlags(State(), w, 7)
      ensures forall w: nat :: w < PAGES && !(0x8_0000 <= w < 0x8_0000 + n) ==>
                Kept(old(State()), State(), old(owner), owner, w)
    {
      MapFrames(aligned, n, f, rest);
      VideoRange(State(), n, f, offset, vidSize, lo, phys);
    }

    static lemma VideoRange(s: Paged, n: nat, f: nat, offset: nat, vidSize: nat, lo: nat, phys: nat)
      requires forall w: nat :: 0x8_0000 <= w < 0x8_0000 + n ==> MappedTo(s, 0x8_0000, f, 7, w)
      requires n == (vidSize + offset + 4095) / 4096 && 4096 * (0x8_0000 + n) <= USER_END
      requires lo == 4096 * 0x8_0000 + offset && phys == 4096 * f + offset
      ensures MapsTo(s, lo, vidSize, phys)
      ensures forall w: nat :: 0x8_0000 <= w < 0x8_0000 + n ==> HasFlags(s, w, 7)
    {
      RangeTranslates(s, 0x8_0000, n, f, 7, offset, vidSize);
      RangeHasFlags(s, 0x8_0000, n, f, 7);
    }

    /** The video mapping loop; `f` is the frame at `aligned`. */
    method MapFrames(aligned: Word, n: nat, ghost f: nat, ghost rest: seq<nat>)
      requires Consistent() && aligned == f * 4096 && f + n <= 0x100_0000_0000 && 0x8_0000 + n <= 0x8_0000_0000
      requires forall w: nat :: 0x8_0000 <= w < 0x8_0000 + n ==> Small(State(), w)
      requires Missing(State(), Pages(0x8_0000, n) + rest) + |rest| <= |pmm.Free()|
      modifies frames, pmm`usedBlocks, pmm.bitmap, `place, `owner
      ensures Consistent() && RangeMapped(old(State()), State(), old(owner), owner, 0x8_0000, n, f, 7)
      ensures Demand(State(), rest) <= |pmm.Free()|
    {
      ghost var s0, owner0, p := State(), owner, Plan(0x8_0000, n, f, 7, rest);
      NothingMapped(s0, owner0, p);
      for i := 0 to n
        invariant Consistent() && MappingRange(s0, State(), owner0, owner, p, i)
      {
        MapFrame(aligned, s0, owner0, p, i);
      }
      AllMapped(s0, State(), owner0, owner, p);
    }

    /** Round `i` of the video mapping loop. */
    method MapFrame(aligned: Word, ghost s0: Paged, ghost owner0: map<nat, nat>, ghost p: Plan, i: nat)
      requires aligned == p.f * 4096 && p.f + p.n <= 0x100_0000_0000 && p.v == 0x8_0000
        && 0x8_0000 + p.n <= 0x8_0000_0000
      requires i < p.n && p.flags == 7
      requires Consistent() && MappingRange(s0, State(), owner0, owner, p, i)
      modifies frames, pmm`usedBlocks, pmm.bitmap, `place, `owner
      ensures Consistent() && MappingRange(s0, State(), owner0, owner, p, i + 1)
    {
      VideoPage(i);
      assert aligned + 4096 * i == (p.f + i) * 4096;
      FrameOfBlock(p.f + i);
      MapPlanned(aligned + 4096 * i, 0x8000_0000 + 4096 * i, s0, owner0, p, i, 0x8_0000 + i);
    }

    /** Maps page `x` of a plan, its page number `i`. */
    method MapPlanned(phys: Word, virt: Word, ghost s0: Paged, ghost owner0: map<nat, nat>, ghost p: Plan,
                      ghost i: nat, ghost x: nat)
      requires FrameOf(phys) == p.f + i && PageOf(virt) == x && x == p.v + i && i < p.n && p.flags == 7
      requires Consistent() && MappingRange(s0, State(), owner0, owner, p, i)
      modifies frames, pmm`usedBlocks, pmm.bitmap, `place, `owner
      ensures Consistent() && MappingRange(s0, State(), owner0, owner, p, i + 1)
    {
      ghost var s, own := State(), owner;
      RangeReady(s0, s, owner0, own, p, i, x);
      ghost var e, added := MapOver(phys, virt, 7);
      RangeAdvances(s0, s, State(), owner0, own, p, i, x, e, added);
    }

    /** `vmm_map_page` for a frame that is not the page's own: if the page had one, it loses it. */
    method MapOver(phys: Word, virt: Word, flags: Word) returns (ghost e: Word, ghost added: set<nat>)
      requires Consistent() && Small(State(), PageOf(virt))
      requires |Lacking(State(), RoutesOf(PageOf(virt)))| <= |pmm.Free()|
      modifies frames, pmm`usedBlocks, pmm.bitmap, `place, `owner
      ensures Consistent() && owner == Without(old(owner), PageOf(virt))
      ensures Mapped(old(State()), State(), PageOf(virt), e, added)
      ensures FrameOf(e) == FrameOf(phys) && FlagsOf(e) == BitOr(FlagsOf(flags), 1)
    {
      ghost var s := State();
      e, added := MapPage(phys, virt, flags);
      MapKeepsOwns(s, State(), PageOf(virt), e, added, owner);
      Record(Without(owner, PageOf(virt)));
    }

    /** One byte stored by the program at a virtual address it owns. */
    method StoreByte(va: Word, b: Byte)
      requires Consistent() && va < USER_END && HasOwn(State(), owner, PageOf(va))
      modifies frames
      ensures Consistent() && Stored(old(State()), State(), owner, va, [b])
    {
      ghost var s := State();
      OwnedFrame(s, owner, PageOf(va));
      SplitAddress(va);
      var f := FrameOf(Walk(frames[..], root, 4, PageOf(va)).value.entry);
      PokeStores(s, owner, PageOf(va), va % 4096, b);
      PokeOpen(s, base, f, va % 4096, b);
      frames[f] := WithByte(frames[f], va % 4096, b);
      assert State() == Poke(s, f, va % 4096, b);
    }

    /** `memcpy((void*)lo, data, |data|)`; with zeros as the data, `memset((void*)lo, 0, |data|)`. */
    method StoreBytes(lo: Word, data: seq<Byte>)
      requires Consistent() && lo + |data| <= USER_END
      requires OwnsRange(State(), owner, lo, |data|)
      modifies frames
      ensures Consistent() && Stored(old(State()), State(), owner, lo, data)
    {
      ghost var s0 := State();
      NothingStored(s0, owner, lo);
      for i := 0 to |data|
        invariant Consistent() && Stored(s0, State(), owner, lo, data[..i])
      {
        StoreNext(s0, lo, data, i);
      }
      assert data[..|data|] == data;
    }

    /** One round of the copying loop. */
    method StoreNext(ghost s0: Paged, lo: Word, data: seq<Byte>, i: nat)
      requires i < |data| && lo + |data| <= USER_END
      requires Owns(s0, owner) && OwnsRange(s0, owner, lo, |data|)
      requires Consistent() && Stored(s0, State(), owner, lo, data[..i])
      modifies frames
      ensures Consistent() && Stored(s0, State(), owner, lo, data[..i + 1])
    {
      ghost var s := State();
      assert HasOwn(s, owner, PageOf(lo + i)) by { InOwnedRange(s0, owner, lo, |data|, i); }
      StoreByte(lo + i, data[i]);
      assert data[..i + 1] == data[..i] + [data[i]];
      StoredThenStored(s0, s, State(), owner, lo, data[..i], data[i]);
    }
  }
}
