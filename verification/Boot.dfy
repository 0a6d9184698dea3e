/** `_start`'s memory setup: from the bootloader's memory map to the first free frames, and runs of the allocator. */
module Boot {
  import opened Pmm

  datatype Entry = Entry(base: nat, length: nat, usable: bool)

  /** The end of the highest usable region among the first `n`. */
  function MemSize(entries: seq<Entry>, n: nat): nat
    requires n <= |entries|
  {
    if n == 0 then 0
    else
      var e, m := entries[n - 1], MemSize(entries, n - 1);
      if e.usable && e.base + e.length > m then e.base + e.length else m
  }

  /** Where the scan puts the bitmap. */
  function BitmapPhys(entries: seq<Entry>, n: nat): nat
    requires n <= |entries|
  {
    if n == 0 then 0
    else
      var e, p := entries[n - 1], BitmapPhys(entries, n - 1);
      if e.usable && e.length >= 0x10_0000 && p == 0 then e.base else p
  }

  /** The blocks of the usable regions among the first `n`. */
  function UsableBlocks(entries: seq<Entry>, n: nat): set<nat>
    requires n <= |entries|
  {
    if n == 0 then {}
    else UsableBlocks(entries, n - 1) + if entries[n - 1].usable then RegionBlocks(entries[n - 1]) else {}
  }

  function RegionBlocks(e: Entry): set<nat> { Blocks(e.base / 4096, e.length / 4096) }

  lemma {:induction false} UsableEndsBelow(entries: seq<Entry>, n: nat, k: nat)
    requires k < n <= |entries| && entries[k].usable
    ensures entries[k].base + entries[k].length <= MemSize(entries, n)
    ensures entries[k].base / 4096 + entries[k].length / 4096 <= MemSize(entries, n) / 4096
  {
    if k < n - 1 { UsableEndsBelow(entries, n - 1, k); }
  }

  /** When usable regions are page-aligned, as the boot protocol guarantees, their blocks lie inside them. */
  lemma {:induction false} BlockInsideRegion(entries: seq<Entry>, n: nat, b: nat)
    requires n <= |entries| && b in UsableBlocks(entries, n)
    requires forall k :: 0 <= k < n && entries[k].usable ==> entries[k].base % 4096 == 0
    ensures exists k :: 0 <= k < n && entries[k].usable
                        && entries[k].base <= 4096 * b && 4096 * b + 4096 <= entries[k].base + entries[k].length
  {
    if b in UsableBlocks(entries, n - 1) {
      BlockInsideRegion(entries, n - 1, b);
    } else {
      assert b in RegionBlocks(entries[n - 1]);
    }
  }

  /** Is the region large enough for the bitmap? */
  predicate HasRoom(e: Entry) { e.usable && e.length >= 0x10_0000 }

  /** The memory size is the end of some usable region, and of none a later one; it is 0 if there is none. */
  lemma {:induction false} MemSizeIsHighest(entries: seq<Entry>, n: nat)
    requires n <= |entries|
    ensures forall k :: 0 <= k < n && entries[k].usable ==> entries[k].base + entries[k].length <= MemSize(entries, n)
    ensures MemSize(entries, n) > 0 ==>
              exists k :: 0 <= k < n && entries[k].usable && entries[k].base + entries[k].length == MemSize(entries, n)
  {
    if n > 0 { MemSizeIsHighest(entries, n - 1); }
  }

  /** The bitmap goes to the first region with room that does not begin at 0, or to 0 if there is none. */
  lemma {:induction false} BitmapIsFirst(entries: seq<Entry>, n: nat)
    requires n <= |entries|
    ensures BitmapPhys(entries, n) == 0 ==> forall k :: 0 <= k < n && HasRoom(entries[k]) ==> entries[k].base == 0
    ensures BitmapPhys(entries, n) != 0 ==>
              exists k :: 0 <= k < n && HasRoom(entries[k]) && entries[k].base == BitmapPhys(entries, n)
                          && forall j :: 0 <= j < k && HasRoom(entries[j]) ==> entries[j].base == 0
  {
    if n > 0 { BitmapIsFirst(entries, n - 1); }
  }

  /** The first scan of the memory map. */
  method ScanMap(entries: seq<Entry>) returns (memSize: nat, bitmapPhys: nat)
    ensures memSize == MemSize(entries, |entries|) && bitmapPhys == BitmapPhys(entries, |entries|)
    ensures forall k :: 0 <= k < |entries| && entries[k].usable ==> entries[k].base + entries[k].length <= memSize
    ensures memSize > 0 ==>
              exists k :: 0 <= k < |entries| && entries[k].usable && entries[k].base + entries[k].length == memSize
    ensures bitmapPhys == 0 ==> forall k :: 0 <= k < |entries| && HasRoom(entries[k]) ==> entries[k].base == 0
    ensures bitmapPhys != 0 ==>
              exists k :: 0 <= k < |entries| && HasRoom(entries[k]) && entries[k].base == bitmapPhys
                          && forall j :: 0 <= j < k && HasRoom(entries[j]) ==> entries[j].base == 0
  {
    MemSizeIsHighest(entries, |entries|);
    BitmapIsFirst(entries, |entries|);
    memSize, bitmapPhys := 0, 0;
    for i := 0 to |entries|
      invariant memSize == MemSize(entries, i) && bitmapPhys == BitmapPhys(entries, i)
    {
      var entry := entries[i];
      if entry.usable {
        if entry.base + entry.length > memSize { memSize := entry.base + entry.length; }
      }
      if entry.usable && entry.length >= 0x10_0000 && bitmapPhys == 0 {
        bitmapPhys := entry.base;
      }
    }
  }

  /** How many blocks the boot code reserves for a bitmap of `max` bits. */
  function BitmapBlocks(max: nat): nat { (max / 8 + 4095) / 4096 }

  /** The blocks that the boot code reserves for the bitmap. */
  function Reserved(entries: seq<Entry>): set<nat> {
    Blocks(BitmapPhys(entries, |entries|) / 4096, BitmapBlocks(MemSize(entries, |entries|) / 4096))
  }

  /** The bits that `memset` does not reach: the last few when the number of blocks is no multiple of 8. */
  function Trailing(max: nat): set<nat> { Blocks(8 * (max / 8), max % 8) }

  predicate Tracked(entries: seq<Entry>, words: nat) {
    var max := MemSize(entries, |entries|) / 4096;
    && 0 < max < 0x8000_0000 && max <= 32 * words
    && BitmapPhys(entries, |entries|) / 4096 + BitmapBlocks(max) <= max
  }

  /** Which blocks the boot code leaves free, whatever the memory of the bitmap held before. */
  function FreeAfterBoot(entries: seq<Entry>, garbage: set<nat>): set<nat> {
    var max := MemSize(entries, |entries|) / 4096;
    (UsableBlocks(entries, |entries|) + (Trailing(max) - garbage)) * Blocks(0, max) - {0} - Reserved(entries)
  }

  /** The allocator as the boot code leaves it. */
  ghost predicate IsBootPool(entries: seq<Entry>, garbage: set<nat>, p: Pool) {
    p.max == MemSize(entries, |entries|) / 4096 && 0 in p.used && FreeOf(p) == FreeAfterBoot(entries, garbage)
  }

  /** `_start` from the memory map to the finished bitmap. */
  method SetUpMemory(entries: seq<Entry>, pmm: FrameAllocator)
    requires Tracked(entries, pmm.bitmap.Length)
    modifies pmm, pmm.bitmap
    ensures pmm.Valid() && pmm.maxBlocks == MemSize(entries, |entries|) / 4096
    ensures pmm.Free() == FreeAfterBoot(entries, old(pmm.Marked()))
    ensures IsBootPool(entries, old(pmm.Marked()), pmm.AsPool())
    ensures pmm.usedBlocks
            == Wrap64(pmm.maxBlocks - BlockSum(entries, |entries|) + BitmapBlocks(MemSize(entries, |entries|) / 4096))
  {
    var memSize, bitmapPhys := ScanMap(entries);
    FillBitmap(entries, pmm, memSize, bitmapPhys);
  }

  /** The bitmap, once the first scan has found its size and its place. */
  method FillBitmap(entries: seq<Entry>, pmm: FrameAllocator, memSize: nat, bitmapPhys: nat)
    requires Tracked(entries, pmm.bitmap.Length)
    requires memSize == MemSize(entries, |entries|) && bitmapPhys == BitmapPhys(entries, |entries|)
    modifies pmm, pmm.bitmap
    ensures pmm.Valid() && pmm.maxBlocks == MemSize(entries, |entries|) / 4096
    ensures pmm.Free() == FreeAfterBoot(entries, old(pmm.Marked()))
    ensures IsBootPool(entries, old(pmm.Marked()), pmm.AsPool())
    ensures pmm.usedBlocks
            == Wrap64(pmm.maxBlocks - BlockSum(entries, |entries|) + BitmapBlocks(MemSize(entries, |entries|) / 4096))
  {
    SomethingUsable(entries, |entries|);
    pmm.Initialize(memSize);
    InitRegions(entries, pmm);
    ghost var counted, n := pmm.maxBlocks - BlockSum(entries, |entries|), BitmapBlocks(memSize / 4096);
    ReserveBitmap(pmm, bitmapPhys, memSize / 4096 / 8, n, counted);
    BootMarks(entries, old(pmm.Marked()));
  }

  /** Taking the bitmap's blocks out again, when `counted` blocks were used in 64-bit arithmetic. */
  method ReserveBitmap(pmm: FrameAllocator, bitmapPhys: nat, bitmapSize: nat, ghost n: nat, ghost counted: int)
    requires n == (bitmapSize + 4095) / 4096
    requires pmm.Valid() && bitmapPhys / 4096 + n <= pmm.maxBlocks
    requires pmm.usedBlocks == Wrap64(counted)
    modifies pmm`usedBlocks, pmm.bitmap
    ensures pmm.Valid() && pmm.usedBlocks == Wrap64(counted + n)
    ensures pmm.Marked() == old(pmm.Marked()) + Blocks(bitmapPhys / 4096, n)
  {
    pmm.DeinitRegion(bitmapPhys, bitmapSize);
    WrapAdd(counted, n);
  }

  lemma BootMarks(entries: seq<Entry>, garbage: set<nat>)
    ensures var max := MemSize(entries, |entries|) / 4096;
            Blocks(0, max) - (garbage + Blocks(0, 8 * (max / 8)) - UsableBlocks(entries, |entries|) + {0}
              + Reserved(entries))
            == FreeAfterBoot(entries, garbage)
  {
  }

  /** The blocks of all usable regions, counted with repetition. */
  function BlockSum(entries: seq<Entry>, n: nat): nat
    requires n <= |entries|
  {
    if n == 0 then 0 else BlockSum(entries, n - 1) + if entries[n - 1].usable then entries[n - 1].length / 4096 else 0
  }

  predicate AnyUsable(entries: seq<Entry>, n: nat)
    requires n <= |entries|
  {
    exists k :: 0 <= k < n && entries[k].usable
  }

  lemma {:induction false} SomethingUsable(entries: seq<Entry>, n: nat)
    requires n <= |entries| && MemSize(entries, n) > 0
    ensures AnyUsable(entries, n)
  {
    if !entries[n - 1].usable { SomethingUsable(entries, n - 1); }
  }

  function ZeroIf(c: bool): set<nat> { if c then {0} else {} }

  lemma OneMoreUsable(entries: seq<Entry>, i: nat)
    requires i < |entries|
    ensures AnyUsable(entries, i + 1) <==> AnyUsable(entries, i) || entries[i].usable
  {
  }

  /** The body of the second scan. */
  method InitEntry(entries: seq<Entry>, pmm: FrameAllocator, i: nat, ghost marked: set<nat>)
    requires i < |entries| && pmm.Valid() && 0 < pmm.maxBlocks == MemSize(entries, |entries|) / 4096
    requires pmm.Marked() == marked - UsableBlocks(entries, i) + ZeroIf(AnyUsable(entries, i))
    requires pmm.usedBlocks == Wrap64(pmm.maxBlocks - BlockSum(entries, i))
    modifies pmm`usedBlocks, pmm.bitmap
    ensures pmm.Valid()
    ensures pmm.Marked() == marked - UsableBlocks(entries, i + 1) + ZeroIf(AnyUsable(entries, i + 1))
    ensures pmm.usedBlocks == Wrap64(pmm.maxBlocks - BlockSum(entries, i + 1))
  {
    OneMoreUsable(entries, i);
    if entries[i].usable {
      UsableEndsBelow(entries, |entries|, i);
      WrapAdd(pmm.maxBlocks - BlockSum(entries, i), -(entries[i].length / 4096));
      pmm.InitRegion(entries[i].base, entries[i].length);
      Cleared(marked, UsableBlocks(entries, i), RegionBlocks(entries[i]), ZeroIf(AnyUsable(entries, i)));
    }
  }

  lemma Cleared(marked: set<nat>, usable: set<nat>, region: set<nat>, zero: set<nat>)
    requires zero <= {0}
    ensures marked - usable + zero - region + {0} == marked - (usable + region) + {0}
  {
  }

  /** The second scan: every usable region is handed to `pmm_init_region`. */
  method InitRegions(entries: seq<Entry>, pmm: FrameAllocator)
    requires pmm.Valid() && 0 < pmm.maxBlocks == MemSize(entries, |entries|) / 4096 && pmm.usedBlocks == pmm.maxBlocks
    requires AnyUsable(entries, |entries|)
    modifies pmm`usedBlocks, pmm.bitmap
    ensures pmm.Valid()
    ensures pmm.Marked() == old(pmm.Marked()) - UsableBlocks(entries, |entries|) + {0}
    ensures pmm.usedBlocks == Wrap64(pmm.maxBlocks - BlockSum(entries, |entries|))
  {
    for i := 0 to |entries|
      invariant pmm.Valid()
      invariant pmm.Marked() == old(pmm.Marked()) - UsableBlocks(entries, i) + ZeroIf(AnyUsable(entries, i))
      invariant pmm.usedBlocks == Wrap64(pmm.maxBlocks - BlockSum(entries, i))
    {
      InitEntry(entries, pmm, i, old(pmm.Marked()));
    }
  }

  // Runs of the allocator after boot.

  /**
   Over every run, only blocks that were free after boot are handed out: not block 0, and none of
   the reserved ones.
   */
  lemma BootKeepsBack(entries: seq<Entry>, garbage: set<nat>, p: Pool, h: History)
    requires IsBootPool(entries, garbage, p) && HandsOut(p, h)
    ensures h.op.result in FreeAfterBoot(entries, garbage)
    ensures h.op.result != 0 && h.op.result !in Reserved(entries)
  {
    HandsOutExactly(p, FreeOf(p));
  }

  /** The bits that `memset` did not reach and that were not set by chance, less what is marked later. */
  function Stray(entries: seq<Entry>, garbage: set<nat>): set<nat> {
    Trailing(MemSize(entries, |entries|) / 4096) - garbage - {0} - Reserved(entries)
  }

  /** All runs hand out usable memory only, exactly when the stray bits belong to usable memory. */
  lemma FreeIsUsableExactly(entries: seq<Entry>, garbage: set<nat>, p: Pool)
    requires MemSize(entries, |entries|) / 4096 > 0 && IsBootPool(entries, garbage, p)
    ensures (forall h :: HandsOut(p, h) ==> h.op.result in UsableBlocks(entries, |entries|))
            <==> Stray(entries, garbage) <= UsableBlocks(entries, |entries|)
    ensures p.max % 8 == 0 ==> Stray(entries, garbage) == {}
  {
    HandsOutExactly(p, UsableBlocks(entries, |entries|));
    FreeOrStray(entries, garbage);
  }

  lemma FreeOrStray(entries: seq<Entry>, garbage: set<nat>)
    ensures FreeAfterBoot(entries, garbage) <= UsableBlocks(entries, |entries|)
            <==> Stray(entries, garbage) <= UsableBlocks(entries, |entries|)
  {
    var max := MemSize(entries, |entries|) / 4096;
    assert Trailing(max) <= Blocks(0, max);
    assert Stray(entries, garbage) <= FreeAfterBoot(entries, garbage);
  }

  /** When every bit was reached and regions are page-aligned, every frame handed out lies inside a usable region. */
  lemma RunsStayInRegions(entries: seq<Entry>, garbage: set<nat>, p: Pool, h: History)
    requires IsBootPool(entries, garbage, p) && HandsOut(p, h) && p.max % 8 == 0 && p.max > 0
    requires forall k :: 0 <= k < |entries| && entries[k].usable ==> entries[k].base % 4096 == 0
    ensures exists k :: 0 <= k < |entries| && entries[k].usable && entries[k].base <= 4096 * h.op.result
                        && 4096 * h.op.result + 4096 <= entries[k].base + entries[k].length
  {
    FreeIsUsableExactly(entries, garbage, p);
    BlockInsideRegion(entries, |entries|, h.op.result);
  }

  /** Two usable regions with a gap between them, in the last few blocks: the first block of the gap is handed out. */
  lemma StrayBlock(p: Pool)
    requires IsBootPool([Entry(0x10_0000, 0x10_0000, true), Entry(0x20_2000, 0x1000, true)], {}, p)
    ensures var entries := [Entry(0x10_0000, 0x10_0000, true), Entry(0x20_2000, 0x1000, true)];
            512 !in UsableBlocks(entries, 2) && exists h :: HandsOut(p, h) && h.op.result == 512
  {
    var entries := [Entry(0x10_0000, 0x10_0000, true), Entry(0x20_2000, 0x1000, true)];
    assert MemSize(entries, 1) == 0x20_0000 && MemSize(entries, 2) == 0x20_3000;
    assert BitmapPhys(entries, 1) == 0x10_0000 && BitmapPhys(entries, 2) == 0x10_0000;
    assert UsableBlocks(entries, 1) == Blocks(256, 256);
    assert UsableBlocks(entries, 2) == Blocks(256, 256) + Blocks(514, 1);
    assert 512 in FreeOf(p);
    var h := Reaches(p, Begin(p), 512);
  }

  /** The blocks that the words of the bitmap really occupy. */
  function Storage(entries: seq<Entry>): set<nat> {
    Blocks(BitmapPhys(entries, |entries|) / 4096, (4 * ((MemSize(entries, |entries|) / 4096 + 31) / 32) + 4095) / 4096)
  }

  /**
   The bitmap's own storage is reserved exactly when the number of blocks, modulo the 32768 whose bits fill
   one block, is 0 or at least 8: otherwise the last word begins a block that the size in whole bytes misses.
   */
  lemma StorageIsReservedExactly(entries: seq<Entry>)
    ensures var r := MemSize(entries, |entries|) / 4096 % 32768;
            Storage(entries) <= Reserved(entries) <==> r == 0 || r >= 8
  {
    var max := MemSize(entries, |entries|) / 4096;
    var first := BitmapPhys(entries, |entries|) / 4096;
    StoragePages(max);
    var stored, reserved := (4 * ((max + 31) / 32) + 4095) / 4096, BitmapBlocks(max);
    if stored > reserved {
      assert first + reserved in Storage(entries);
    }
  }

  /** If the bitmap lies in usable memory, exactly then no run ever hands out a frame of the bitmap's own storage. */
  lemma StorageIsKeptExactly(entries: seq<Entry>, garbage: set<nat>, p: Pool)
    requires IsBootPool(entries, garbage, p) && Storage(entries) <= UsableBlocks(entries, |entries|) - {0}
    ensures var r := MemSize(entries, |entries|) / 4096 % 32768;
            (forall h :: HandsOut(p, h) ==> h.op.result !in Storage(entries)) <==> r == 0 || r >= 8
  {
    var rest := Blocks(0, p.max) - Storage(entries);
    StorageIsReservedExactly(entries);
    UsableBelow(entries, |entries|);
    HandsOutExactly(p, rest);
    forall h | HandsOut(p, h)
      ensures h.op.result in rest <==> h.op.result !in Storage(entries)
    {
      StaysWithin(h);
    }
    assert FreeOf(p) <= rest <==> Storage(entries) <= Reserved(entries);
  }

  /** One region of 32513 blocks from 1 MiB on: the very first block handed out holds the end of the bitmap. */
  lemma StorageHandedOut(p: Pool, p': Pool, b: nat)
    requires IsBootPool([Entry(0x10_0000, 4096 * 32769 - 0x10_0000, true)], {}, p) && AllocStep(p, p', b)
    ensures b == 257 && 257 in Storage([Entry(0x10_0000, 4096 * 32769 - 0x10_0000, true)])
  {
    var entries := [Entry(0x10_0000, 4096 * 32769 - 0x10_0000, true)];
    assert MemSize(entries, 0) == 0 && MemSize(entries, 1) == 4096 * 32769;
    assert BitmapPhys(entries, 0) == 0 && BitmapPhys(entries, 1) == 0x10_0000;
    assert UsableBlocks(entries, 0) == {} && UsableBlocks(entries, 1) == Blocks(256, 32513);
    assert Trailing(32769) == {32768};
    assert forall c :: c in FreeOf(p) ==> 257 <= c;
    assert 257 in FreeOf(p);
  }

  lemma StoragePages(max: nat)
    ensures (4 * ((max + 31) / 32) + 4095) / 4096 <= BitmapBlocks(max) <==> max % 32768 == 0 || max % 32768 >= 8
  {
    var q, r := max / 32768, max % 32768;
    assert max / 8 == 4096 * q + r / 8;
    assert (max + 31) / 32 == 1024 * q + (r + 31) / 32;
    assert 4 * ((max + 31) / 32) == 4096 * q + 4 * ((r + 31) / 32);
  }

  // Counting.

  /**
   After the boot code, when the regions do not overlap, the bitmap was reserved in usable memory other than
   block 0 and every bit was reached, the counter is the number of used blocks, less one if block 0 was usable.
   */
  lemma BootCounts(entries: seq<Entry>, garbage: set<nat>)
    requires MemSize(entries, |entries|) / 4096 % 8 == 0
    requires Apart(entries, |entries|) && Reserved(entries) <= UsableBlocks(entries, |entries|) - {0}
    ensures var max := MemSize(entries, |entries|) / 4096;
            max - BlockSum(entries, |entries|) + BitmapBlocks(max)
            == |Blocks(0, max) - FreeAfterBoot(entries, garbage)| - (if 0 in UsableBlocks(entries, |entries|)
                                                               then 1 else 0)
  {
    var max, n := MemSize(entries, |entries|) / 4096, |entries|;
    var usable := UsableBlocks(entries, n);
    UsableBelow(entries, n);
    SumIsSize(entries, n);
    FreeWhenAllReached(entries, garbage);
    BlocksSize(BitmapPhys(entries, n) / 4096, BitmapBlocks(max));
    BlocksSize(0, max);
    SizesOfBoot(Blocks(0, max), usable, Reserved(entries));
  }

  lemma FreeWhenAllReached(entries: seq<Entry>, garbage: set<nat>)
    requires MemSize(entries, |entries|) / 4096 % 8 == 0
    ensures FreeAfterBoot(entries, garbage) == UsableBlocks(entries, |entries|) - {0} - Reserved(entries)
  {
    UsableBelow(entries, |entries|);
    assert Trailing(MemSize(entries, |entries|) / 4096) == {};
  }

  lemma SizesOfBoot(all: set<nat>, usable: set<nat>, reserved: set<nat>)
    requires reserved <= usable - {0} && usable <= all
    ensures |all| - |usable| + |reserved| == |all - (usable - {0} - reserved)| - (if 0 in usable then 1 else 0)
  {
  }

  predicate Apart(entries: seq<Entry>, n: nat)
    requires n <= |entries|
  {
    n > 0 ==>
      && Apart(entries, n - 1)
      && (entries[n - 1].usable ==> RegionBlocks(entries[n - 1]) !! UsableBlocks(entries, n - 1))
  }

  lemma {:induction false} SumIsSize(entries: seq<Entry>, n: nat)
    requires n <= |entries| && Apart(entries, n)
    ensures |UsableBlocks(entries, n)| == BlockSum(entries, n)
  {
    if n > 0 {
      SumIsSize(entries, n - 1);
      BlocksSize(entries[n - 1].base / 4096, entries[n - 1].length / 4096);
    }
  }

  lemma {:induction false} UsableBelow(entries: seq<Entry>, n: nat)
    requires n <= |entries|
    ensures UsableBlocks(entries, n) <= Blocks(0, MemSize(entries, n) / 4096)
  {
    if n > 0 {
      UsableBelow(entries, n - 1);
      if entries[n - 1].usable { UsableEndsBelow(entries, n, n - 1); }
    }
  }
}
