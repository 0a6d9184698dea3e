/** The physical frame allocator: one bit of an array of 32-bit words per 4096-byte block. */
module Pmm {
  import opened Bits

  type Word32 = x: nat | x < U32

  predicate IsSet(words: seq<Word32>, b: nat)
    requires b < 32 * |words|
  {
    TestBit(words[b / 32], b % 32)
  }

  /** The blocks below `n` that the bitmap marks as used. */
  function UsedIn(words: seq<Word32>, n: nat): set<nat>
    requires n <= 32 * |words|
  {
    set b: nat | b < n && IsSet(words, b)
  }

  predicate InRun(first: nat, n: nat, b: nat) {
    first <= b < first + n
  }

  /** The `n` consecutive blocks from `first` on. */
  function Blocks(first: nat, n: nat): (r: set<nat>)
    ensures forall b: nat :: b in r <==> first <= b < first + n
  {
    set b: nat | b < first + n && InRun(first, n, b)
  }

  lemma {:induction false} BlocksSize(first: nat, n: nat)
    ensures |Blocks(first, n)| == n
  {
    if n > 0 {
      BlocksSize(first, n - 1);
      assert Blocks(first, n) == Blocks(first, n - 1) + {first + n - 1};
    }
  }

  function SetWord(w: Word32, k: nat): (r: Word32)
    requires k < 32
    ensures forall j: nat | j < 32 :: TestBit(r, j) <==> TestBit(w, j) || j == k
  {
    ShlIsTimes(1, k);
    Pow2Below32(k);
    Powers();
    OrBound(w, Shl(1, k), 32);
    assert forall j: nat | j < 32 :: TestBit(BitOr(w, Shl(1, k)), j) <==> TestBit(w, j) || j == k by {
      forall j: nat | j < 32
        ensures TestBit(BitOr(w, Shl(1, k)), j) <==> TestBit(w, j) || j == k
      {
        TestOr(w, Shl(1, k), j);
        TestPow2(k, j);
      }
    }
    BitOr(w, Shl(1, k))
  }

  function ClearWord(w: Word32, k: nat): (r: Word32)
    requires k < 32
    ensures forall j: nat | j < 32 :: TestBit(r, j) <==> TestBit(w, j) && j != k
  {
    ShlIsTimes(1, k);
    Pow2Below32(k);
    var m := BitNot32(Shl(1, k));
    AndBound(w, m);
    assert forall j: nat | j < 32 :: TestBit(BitAnd(w, m), j) <==> TestBit(w, j) && j != k by {
      forall j: nat | j < 32
        ensures TestBit(BitAnd(w, m), j) <==> TestBit(w, j) && j != k
      {
        TestAnd(w, m, j);
        TestNot32(Shl(1, k), j);
        TestPow2(k, j);
      }
    }
    BitAnd(w, m)
  }

  lemma {:induction false} Pow2Below32(k: nat)
    requires k < 32
    ensures Pow2(k) < U32
  {
    Powers();
    Pow2Add(k, 32 - k);
    MulStep(Pow2(k), 1, Pow2(32 - k));
    assert Pow2(32 - k) == 2 * Pow2(31 - k);
  }

  /** How many of the first `bytes` bytes lie in word `w`. */
  function Covered(bytes: nat, w: nat): (c: nat)
    ensures c <= 4
  {
    if bytes < 4 * w then 0 else if bytes - 4 * w > 4 then 4 else bytes - 4 * w
  }

  /** `memset` of 0xFF over the first `bytes` bytes of this word. */
  function FillWord(w: Word32, bytes: nat): (r: Word32)
    requires bytes <= 4
    ensures forall j: nat | j < 32 :: TestBit(r, j) <==> TestBit(w, j) || j < 8 * bytes
  {
    var m := Ones(8 * bytes);
    Powers();
    OnesIsPow2(8 * bytes);
    if bytes < 4 then
      Pow2Below32(8 * bytes);
      FillBits(w, bytes);
      OrBound(w, m, 32);
      BitOr(w, m)
    else
      FillBits(w, bytes);
      OrBound(w, m, 32);
      BitOr(w, m)
  }

  lemma FillBits(w: Word32, bytes: nat)
    ensures forall j: nat :: TestBit(BitOr(w, Ones(8 * bytes)), j) <==> TestBit(w, j) || j < 8 * bytes
  {
    forall j: nat
      ensures TestBit(BitOr(w, Ones(8 * bytes)), j) <==> TestBit(w, j) || j < 8 * bytes
    {
      TestOr(w, Ones(8 * bytes), j);
      TestOnes(8 * bytes, j);
    }
  }

  /** 64-bit wrap-around. */
  function Wrap64(x: int): (r: Word) {
    x % 0x1_0000_0000_0000_0000
  }

  lemma WrapAdd(x: int, k: int)
    ensures Wrap64(Wrap64(x) + k) == Wrap64(x + k)
  {
  }

  // Runs of the allocator.

  /** Number of blocks, used blocks and counter. */
  datatype Pool = Pool(max: nat, used: set<nat>, counter: Word)

  /** `pmm_alloc_block` handing out block `b`, or 0 when nothing is free. */
  ghost predicate AllocStep(p: Pool, p': Pool, b: nat) {
    var free := Blocks(0, p.max) - p.used;
    if free == {} then p' == p && b == 0
    else b in free && (forall c :: c in free ==> b <= c)
         && p' == Pool(p.max, p.used + {b}, Wrap64(p.counter + 1))
  }

  /** `pmm_free_block` of a used block. */
  ghost predicate FreeStep(p: Pool, p': Pool, b: nat) {
    b in p.used && p' == Pool(p.max, p.used - {b}, Wrap64(p.counter - 1))
  }

  datatype Operation = Alloc(result: nat) | Release(block: nat)
  datatype History = Begin(pool: Pool) | After(earlier: History, op: Operation, pool: Pool)

  ghost predicate IsHistory(h: History) {
    h.After? ==> IsHistory(h.earlier) && StepIs(h.op, h.earlier.pool, h.pool)
  }

  ghost predicate StepIs(op: Operation, p: Pool, p': Pool) {
    match op
    case Alloc(b) => AllocStep(p, p', b)
    case Release(b) => b != 0 && FreeStep(p, p', b)
  }

  function Start(h: History): Pool {
    if h.Begin? then h.pool else Start(h.earlier)
  }

  /** The counter is the number of used blocks less `skew`. */
  ghost predicate Counts(p: Pool, skew: int) {
    p.counter == Wrap64(|p.used| - skew)
  }

  lemma EmptyDifference(a: set<nat>, b: set<nat>)
    ensures a <= b <==> a - b == {}
  {
    forall x | x in a && a - b == {}
      ensures x in b
    {
      assert x !in a - b;
    }
  }

  /**
   Over every run the counter stays the number of used blocks less the same `skew`, block 0 stays used,
   and an allocation yields 0 exactly when no block is free.
   */
  lemma {:induction false} HistoryCounts(h: History, skew: int)
    requires IsHistory(h) && Counts(Start(h), skew) && 0 in Start(h).used
    ensures Counts(h.pool, skew) && 0 in h.pool.used
    ensures h.After? && h.op.Alloc? ==> (h.op.result == 0 <==> Blocks(0, h.pool.max) <= h.earlier.pool.used)
  {
    if h.After? {
      HistoryCounts(h.earlier, skew);
      StepCounts(h.earlier.pool, h.op, h.pool, skew);
    }
  }

  lemma StepCounts(p: Pool, op: Operation, p': Pool, skew: int)
    requires StepIs(op, p, p') && Counts(p, skew) && 0 in p.used
    ensures Counts(p', skew) && 0 in p'.used && p'.max == p.max
    ensures op.Alloc? ==> (op.result == 0 <==> Blocks(0, p.max) <= p.used)
  {
    if op.Alloc? {
      WrapAdd(|p.used| - skew, 1);
      EmptyDifference(Blocks(0, p.max), p.used);
    } else {
      WrapAdd(|p.used| - skew, -1);
    }
  }

  // What runs can hand out.

  function FreeOf(p: Pool): set<nat> { Blocks(0, p.max) - p.used }

  /** The blocks handed out and not given back. */
  function HandedOut(h: History): set<nat> {
    match h
    case Begin(_) => {}
    case After(e, Alloc(b), _) => if b == 0 then HandedOut(e) else HandedOut(e) + {b}
    case After(e, Release(b), _) => HandedOut(e) - {b}
  }

  predicate ReleasesHanded(h: History) {
    h.After? ==> ReleasesHanded(h.earlier) && (h.op.Release? ==> h.op.block in HandedOut(h.earlier))
  }

  /** A run from `p` that gives back only what it was given, and ends by handing out a block. */
  ghost predicate HandsOut(p: Pool, h: History) {
    IsHistory(h) && ReleasesHanded(h) && Start(h) == p && h.After? && h.op.Alloc? && h.op.result != 0
  }

  lemma {:induction false} StaysWithin(h: History)
    requires IsHistory(h) && ReleasesHanded(h)
    ensures h.pool.max == Start(h).max && FreeOf(h.pool) + HandedOut(h) <= FreeOf(Start(h))
  {
    if h.After? { StaysWithin(h.earlier); }
  }

  lemma Lowest(free: set<nat>, any: nat) returns (z: nat)
    requires any in free
    ensures z in free && forall c :: c in free ==> z <= c
    decreases any
  {
    if c :| c in free && c < any { z := Lowest(free, c); } else { z := any; }
  }

  /** Every free block is handed out by some run. */
  lemma Reaches(p: Pool, h: History, b: nat) returns (run: History)
    requires IsHistory(h) && ReleasesHanded(h) && Start(h) == p && 0 in h.pool.used && b in FreeOf(h.pool)
    ensures HandsOut(p, run) && run.op.result == b
    decreases |FreeOf(h.pool)|
  {
    var next := TakeLowest(p, h, b);
    if next.op.result == b {
      run := next;
    } else {
      run := Reaches(p, next, b);
    }
  }

  lemma TakeLowest(p: Pool, h: History, b: nat) returns (next: History)
    requires IsHistory(h) && ReleasesHanded(h) && Start(h) == p && 0 in h.pool.used && b in FreeOf(h.pool)
    ensures HandsOut(p, next) && FreeOf(next.pool) == FreeOf(h.pool) - {next.op.result} && 0 in next.pool.used
    ensures next.op.result in FreeOf(h.pool)
  {
    var q := h.pool;
    var z := Lowest(FreeOf(q), b);
    next := After(h, Alloc(z), Pool(q.max, q.used + {z}, Wrap64(q.counter + 1)));
  }

  /** All runs from a pool whose block 0 is used keep to a set of blocks exactly when its free blocks lie in it. */
  lemma HandsOutExactly(p: Pool, allowed: set<nat>)
    requires 0 in p.used
    ensures (forall h :: HandsOut(p, h) ==> h.op.result in allowed) <==> FreeOf(p) <= allowed
  {
    if FreeOf(p) <= allowed {
      forall h | HandsOut(p, h)
        ensures h.op.result in allowed
      {
        StaysWithin(h);
      }
    } else {
      var b :| b in FreeOf(p) && b !in allowed;
      var h := Reaches(p, Begin(p), b);
    }
  }

  class FrameAllocator {
    const bitmap: array<Word32>
    var usedBlocks: Word
    var maxBlocks: nat

    ghost predicate Valid()
      reads this
    {
      maxBlocks <= 32 * bitmap.Length && maxBlocks < 0x8000_0000
    }

    /** All set bits, also those past the tracked blocks. */
    ghost function Marked(): set<nat>
      reads bitmap
    {
      UsedIn(bitmap[..], 32 * bitmap.Length)
    }

    /** The used blocks among the tracked ones. */
    ghost function Used(): set<nat>
      reads this, bitmap
    {
      Marked() * Blocks(0, maxBlocks)
    }

    ghost function Free(): set<nat>
      reads this, bitmap
    {
      Blocks(0, maxBlocks) - Marked()
    }

    ghost function AsPool(): Pool
      reads this, bitmap
    {
      Pool(maxBlocks, Used(), usedBlocks)
    }

    /** A bitmap over the memory it will live in, with whatever that holds. */
    constructor (storage: array<Word32>)
      ensures bitmap == storage
      ensures Valid() && maxBlocks == 0
    {
      bitmap := storage;
      usedBlocks := 0;
      maxBlocks := 0;
    }

    method MmapSet(bit: nat)
      requires bit < 32 * bitmap.Length
      modifies bitmap
      ensures Marked() == old(Marked()) + {bit}
    {
      bitmap[bit / 32] := SetWord(bitmap[bit / 32], bit % 32);
      assert bitmap[..] == old(bitmap[..])[bit / 32 := bitmap[bit / 32]];
    }

    method MmapUnset(bit: nat)
      requires bit < 32 * bitmap.Length
      modifies bitmap
      ensures Marked() == old(Marked()) - {bit}
    {
      bitmap[bit / 32] := ClearWord(bitmap[bit / 32], bit % 32);
      assert bitmap[..] == old(bitmap[..])[bit / 32 := bitmap[bit / 32]];
    }

    method MmapTest(bit: nat) returns (marked: bool)
      requires bit < 32 * bitmap.Length
      ensures marked <==> bit in Marked()
    {
      ShlIsTimes(1, bit % 32);
      AndPow2(bitmap[bit / 32], bit % 32);
      marked := BitAnd(bitmap[bit / 32], Shl(1, bit % 32)) != 0;
    }

    /** Marks the first `maxBlocks / 8` bytes of bits. The other bits keep what the memory held. */
    method Initialize(memSize: nat)
      requires memSize / 4096 < 0x8000_0000
      requires memSize / 4096 <= 32 * bitmap.Length
      modifies this, bitmap
      ensures Valid() && maxBlocks == memSize / 4096 && usedBlocks == maxBlocks
      ensures Marked() == old(Marked()) + Blocks(0, 8 * (maxBlocks / 8))
    {
      maxBlocks := memSize / 4096;
      usedBlocks := maxBlocks;
      Memset(maxBlocks / 8);
    }

    /** `memset(pmm_bitmap, 0xFF, bytes)` */
    method Memset(bytes: nat)
      requires bytes <= 4 * bitmap.Length
      modifies bitmap
      ensures Marked() == old(Marked()) + Blocks(0, 8 * bytes)
    {
      for w := 0 to bitmap.Length
        invariant forall b: nat | b < 32 * w ::
                    TestBit(bitmap[b / 32], b % 32) <==> b in old(Marked()) || b < 8 * bytes
        invariant forall k | w <= k < bitmap.Length :: bitmap[k] == old(bitmap[k])
      {
        bitmap[w] := FillWord(bitmap[w], Covered(bytes, w));
      }
    }

    /** Clears the region's bits, and then sets bit 0 again without counting it. */
    method InitRegion(base: nat, size: nat)
      requires Valid() && 0 < maxBlocks && base / 4096 + size / 4096 <= maxBlocks
      modifies `usedBlocks, bitmap
      ensures Valid()
      ensures Marked() == old(Marked()) - Blocks(base / 4096, size / 4096) + {0}
      ensures usedBlocks == Wrap64(old(usedBlocks) - size / 4096)
    {
      var align := base / 4096;
      var blocks := size / 4096;
      ghost var n := blocks;
      while blocks > 0
        invariant 0 <= blocks <= n && align == base / 4096 + (n - blocks)
        invariant Marked() == old(Marked()) - Blocks(base / 4096, n - blocks)
        invariant usedBlocks == Wrap64(old(usedBlocks) - (n - blocks))
      {
        MmapUnset(align);
        align := align + 1;
        WrapAdd(old(usedBlocks) - (n - blocks), -1);
        usedBlocks := Wrap64(usedBlocks - 1);
        blocks := blocks - 1;
      }
      MmapSet(0);
    }

    /** Sets the bit of every block that the byte range touches. */
    method DeinitRegion(base: nat, size: nat)
      requires Valid() && base / 4096 + (size + 4095) / 4096 <= maxBlocks
      modifies `usedBlocks, bitmap
      ensures Valid()
      ensures Marked() == old(Marked()) + Blocks(base / 4096, (size + 4095) / 4096)
      ensures usedBlocks == Wrap64(old(usedBlocks) + (size + 4095) / 4096)
    {
      var align := base / 4096;
      var blocks := (size + 4095) / 4096;
      ghost var n := blocks;
      while blocks > 0
        invariant 0 <= blocks <= n && align == base / 4096 + (n - blocks)
        invariant Marked() == old(Marked()) + Blocks(base / 4096, n - blocks)
        invariant usedBlocks == Wrap64(old(usedBlocks) + (n - blocks))
      {
        MmapSet(align);
        align := align + 1;
        WrapAdd(old(usedBlocks) + (n - blocks), 1);
        usedBlocks := Wrap64(usedBlocks + 1);
        blocks := blocks - 1;
      }
    }

    /** The scan of `pmm_alloc_block`: the first clear bit, or `maxBlocks`. */
    method FirstClear() returns (i: nat)
      requires Valid()
      ensures i <= maxBlocks && (i == maxBlocks ==> Free() == {})
      ensures i < maxBlocks ==> i in Free() && forall b | b in Free() :: i <= b
    {
      for k := 0 to maxBlocks
        invariant Blocks(0, k) <= Marked()
      {
        var used := MmapTest(k);
        if !used {
          return k;
        }
      }
      return maxBlocks;
    }

    /** Hands out the lowest free block, or 0 exactly when no block is free. */
    method AllocBlock() returns (addr: nat)
      requires Valid()
      modifies `usedBlocks, bitmap
      ensures Valid()
      ensures old(Free()) == {} ==> addr == 0 && Marked() == old(Marked()) && usedBlocks == old(usedBlocks)
      ensures old(Free()) != {} ==>
                && addr % 4096 == 0 && addr / 4096 in old(Free())
                && (forall b | b in old(Free()) :: addr / 4096 <= b)
                && Marked() == old(Marked()) + {addr / 4096}
                && usedBlocks == Wrap64(old(usedBlocks) + 1)
      ensures AllocStep(old(AsPool()), AsPool(), addr / 4096)
    {
      var i := FirstClear();
      if i == maxBlocks {
        NothingFree();
        return 0;
      }
      Claim(i);
      return i * 4096;
    }

    lemma NothingFree()
      requires Valid() && Free() == {}
      ensures AllocStep(AsPool(), AsPool(), 0)
    {
      assert FreeOf(AsPool()) == Free();
    }

    /** Marks the lowest free block. */
    method Claim(i: nat)
      requires Valid() && i in Free() && forall b | b in Free() :: i <= b
      modifies `usedBlocks, bitmap
      ensures Valid() && Marked() == old(Marked()) + {i} && usedBlocks == Wrap64(old(usedBlocks) + 1)
      ensures AllocStep(old(AsPool()), AsPool(), i)
    {
      assert FreeOf(AsPool()) == Free();
      MmapSet(i);
      usedBlocks := Wrap64(usedBlocks + 1);
      assert Used() == old(Used()) + {i};
    }

    /** Gives a block back. */
    method FreeBlock(addr: nat)
      requires Valid() && addr / 4096 < maxBlocks
      modifies `usedBlocks, bitmap
      ensures Valid()
      ensures Marked() == old(Marked()) - {addr / 4096}
      ensures usedBlocks == Wrap64(old(usedBlocks) - 1)
      ensures old(addr / 4096 in Marked()) ==> FreeStep(old(AsPool()), AsPool(), addr / 4096)
    {
      var block := addr / 4096;
      MmapUnset(block);
      usedBlocks := Wrap64(usedBlocks - 1);
      assert Used() == old(Used()) - {block};
    }
  }
}
