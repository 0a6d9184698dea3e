/** What `kmalloc` and `kfree` do to the list of blocks that tile the heap. */
module HeapBlocks {

  const HEADER: int := 24
  const SIZE_T: int := 0x1_0000_0000_0000_0000

  /** A block at an offset of the heap; the size counts its header. */
  datatype Block = Block(addr: int, size: int, free: bool)

  predicate Follows(a: Block, b: Block) { b.addr == a.addr + a.size }

  /** The blocks cover `total` bytes in address order without gap or overlap, each with room for its header. */
  ghost predicate Tiles(blocks: seq<Block>, total: int) {
    && blocks != [] && blocks[0].addr == 0
    && blocks[|blocks| - 1].addr + blocks[|blocks| - 1].size == total
    && (forall i :: 0 <= i < |blocks| ==> blocks[i].size >= HEADER)
    && (forall i {:trigger Linked(blocks, i)} :: 0 <= i < |blocks| - 1 ==> Linked(blocks, i))
  }

  predicate Linked(blocks: seq<Block>, i: int)
    requires 0 <= i < |blocks| - 1
  {
    Follows(blocks[i], blocks[i + 1])
  }

  /** Blocks do not overlap. */
  lemma {:induction false} InOrder(blocks: seq<Block>, total: int, i: int, j: int)
    requires Tiles(blocks, total) && 0 <= i < j < |blocks|
    ensures blocks[i].addr + blocks[i].size <= blocks[j].addr
    decreases j
  {
    assert Linked(blocks, j - 1);
    if i < j - 1 { InOrder(blocks, total, i, j - 1); }
  }

  lemma {:induction false} InHeap(blocks: seq<Block>, total: int, i: int)
    requires Tiles(blocks, total) && 0 <= i < |blocks|
    ensures 0 <= blocks[i].addr && blocks[i].addr + blocks[i].size <= total
  {
    if i > 0 { InOrder(blocks, total, 0, i); }
    if i < |blocks| - 1 { InOrder(blocks, total, i, |blocks| - 1); }
  }

  /** The usable bytes of different blocks have no byte in common. */
  lemma PayloadsApart(blocks: seq<Block>, total: int, i: int, j: int, a: int)
    requires Tiles(blocks, total) && 0 <= i < |blocks| && 0 <= j < |blocks| && i != j
    ensures !(InPayload(blocks[i], a) && InPayload(blocks[j], a))
  {
    if i < j { InOrder(blocks, total, i, j); } else { InOrder(blocks, total, j, i); }
  }

  predicate InPayload(b: Block, a: int) { b.addr + HEADER <= a < b.addr + b.size }

  /** The sum of the sizes. */
  function SizeSum(blocks: seq<Block>): int {
    if blocks == [] then 0 else SizeSum(blocks[..|blocks| - 1]) + blocks[|blocks| - 1].size
  }

  /** Nothing is lost: the sizes of the blocks, headers included, add up to the heap. */
  lemma {:induction false} SizesAddUp(blocks: seq<Block>, total: int)
    requires Tiles(blocks, total)
    ensures SizeSum(blocks) == total
    decreases |blocks|
  {
    var n := |blocks|;
    if n > 1 {
      var front := blocks[..n - 1];
      assert Linked(blocks, n - 2);
      forall i | 0 <= i < n - 2
        ensures Linked(front, i)
      {
        assert Linked(blocks, i);
      }
      SizesAddUp(front, blocks[n - 1].addr);
    } else {
      assert SizeSum(blocks[..0]) == 0;
    }
  }

  /** `size + sizeof(struct kheap_block)` in a 64-bit `size_t`. */
  function Need(size: int): int
    requires 0 <= size < SIZE_T
  {
    (size + HEADER) % SIZE_T
  }

  predicate Serves(b: Block, need: int) { b.free && b.size >= need }

  /** The first block from `i` on that is free and large enough. */
  function FirstFit(blocks: seq<Block>, need: int, i: int): (k: int)
    requires 0 <= i <= |blocks|
    ensures i <= k <= |blocks| && (k < |blocks| ==> Serves(blocks[k], need))
    ensures forall j :: i <= j < k ==> !Serves(blocks[j], need)
    decreases |blocks| - i
  {
    if i == |blocks| || Serves(blocks[i], need) then i else FirstFit(blocks, need, i + 1)
  }

  lemma FirstFitIs(blocks: seq<Block>, need: int, k: int)
    requires 0 <= k <= |blocks| && (k < |blocks| ==> Serves(blocks[k], need))
    requires forall j :: 0 <= j < k ==> !Serves(blocks[j], need)
    ensures FirstFit(blocks, need, 0) == k
  {
  }

  predicate Splits(b: Block, need: int) { b.size > need + HEADER }

  /** Block `i` is taken: its first `need` bytes if a header fits behind them, otherwise the whole block. */
  function Take(blocks: seq<Block>, i: int, need: int): seq<Block>
    requires 0 <= i < |blocks|
  {
    var b := blocks[i];
    if Splits(b, need)
    then blocks[..i] + [Block(b.addr, need, false), Block(b.addr + need, b.size - need, true)] + blocks[i + 1..]
    else blocks[i := Block(b.addr, b.size, false)]
  }

  predicate Merges(blocks: seq<Block>, i: int) { 0 <= i < |blocks| - 1 && blocks[i + 1].free }

  /** Block `i` is freed and absorbs the block behind it if that is free. */
  function Release(blocks: seq<Block>, i: int): seq<Block>
    requires 0 <= i < |blocks|
  {
    var b := blocks[i];
    if Merges(blocks, i)
    then blocks[..i] + [Block(b.addr, b.size + blocks[i + 1].size, true)] + blocks[i + 2..]
    else blocks[i := Block(b.addr, b.size, true)]
  }

  predicate Sized(b: Block, need: int) { need >= HEADER || !Splits(b, need) }

  /** Taking keeps the tiling. */
  lemma TakeTiles(blocks: seq<Block>, total: int, i: int, need: int)
    requires Tiles(blocks, total) && 0 <= i < |blocks| && need <= blocks[i].size && Sized(blocks[i], need)
    ensures Tiles(Take(blocks, i, need), total)
  {
    var after := Take(blocks, i, need);
    var d := if Splits(blocks[i], need) then 1 else 0;
    forall j | 0 <= j < |after| - 1
      ensures Linked(after, j)
    {
      if j < i { assert Linked(blocks, j); }
      if j >= i + d { assert Linked(blocks, j - d); }
    }
  }

  /** It does so exactly when the size did not wrap, or wrapped so that the block is taken whole. */
  lemma TakeTilesExactly(blocks: seq<Block>, total: int, i: int, need: int)
    requires Tiles(blocks, total) && 0 <= i < |blocks| && Serves(blocks[i], need)
    ensures Tiles(Take(blocks, i, need), total) <==> Sized(blocks[i], need)
  {
    if Sized(blocks[i], need) {
      TakeTiles(blocks, total, i, need);
    } else {
      assert Take(blocks, i, need)[i].size == need;
    }
  }

  lemma ReleaseTiles(blocks: seq<Block>, total: int, i: int)
    requires Tiles(blocks, total) && 0 <= i < |blocks|
    ensures Tiles(Release(blocks, i), total)
  {
    var after := Release(blocks, i);
    var d := if Merges(blocks, i) then 1 else 0;
    if d == 1 { assert Linked(blocks, i); }
    forall j | 0 <= j < |after| - 1
      ensures Linked(after, j)
    {
      if j < i { assert Linked(blocks, j); } else { assert Linked(blocks, j + d); }
    }
  }

  // Programs that free in the reverse order of allocation.

  /** `p = kmalloc(size)`, then `inner`, then `kfree(p)`, then `next`. */
  datatype Program = Done | Nest(size: int, inner: Program, next: Program)

  predicate SizesFit(p: Program) {
    p.Nest? ==> 0 <= p.size < SIZE_T - HEADER && SizesFit(p.inner) && SizesFit(p.next)
  }

  /** The block list after the program, or nothing if a pointer no longer names a block. */
  function Execute(blocks: seq<Block>, p: Program): seq<Block>
    requires SizesFit(p)
    decreases p
  {
    match p
    case Done => blocks
    case Nest(size, inner, next) =>
      var i := FirstFit(blocks, Need(size), 0);
      if i == |blocks| then Execute(Execute(blocks, inner), next)
      else
        var after := Execute(Take(blocks, i, Need(size)), inner);
        var k := Find(after, blocks[i].addr, 0);
        if k == |after| then [] else Execute(Release(after, k), next)
  }

  /** The block at `addr`. */
  function Find(blocks: seq<Block>, addr: int, i: int): (k: int)
    requires 0 <= i <= |blocks|
    ensures i <= k <= |blocks| && (k < |blocks| ==> blocks[k].addr == addr)
    ensures forall j :: i <= j < k ==> blocks[j].addr != addr
    decreases |blocks| - i
  {
    if i == |blocks| || blocks[i].addr == addr then i else Find(blocks, addr, i + 1)
  }

  lemma FindIs(blocks: seq<Block>, total: int, i: int)
    requires Tiles(blocks, total) && 0 <= i < |blocks|
    ensures Find(blocks, blocks[i].addr, 0) == i
  {
    var k := Find(blocks, blocks[i].addr, 0);
    if k < i { InOrder(blocks, total, k, i); }
  }

  /** Blocks in use, and then at most one free block. */
  predicate Stacked(blocks: seq<Block>) { forall i :: 0 <= i < |blocks| - 1 ==> !blocks[i].free }

  /** Freeing what was just taken restores the list exactly when the block was split or what follows it is in use. */
  lemma ReleaseUndoesTake(blocks: seq<Block>, total: int, i: int, need: int)
    requires Tiles(blocks, total) && 0 <= i < |blocks| && Serves(blocks[i], need) && HEADER <= need
    ensures Release(Take(blocks, i, need), i) == blocks <==> Splits(blocks[i], need) || !Merges(blocks, i)
  {
  }

  /** In a stacked heap only the last block can be taken, and the heap stays stacked. */
  lemma StackedTake(blocks: seq<Block>, need: int)
    requires blocks != [] && Stacked(blocks) && FirstFit(blocks, need, 0) < |blocks|
    ensures FirstFit(blocks, need, 0) == |blocks| - 1 && Stacked(Take(blocks, |blocks| - 1, need))
  {
  }

  /** Every such program gives the heap back as it found it, although merging is only forward and only once. */
  lemma {:induction false} NestedRestores(blocks: seq<Block>, total: int, p: Program)
    requires Tiles(blocks, total) && Stacked(blocks) && SizesFit(p)
    ensures Execute(blocks, p) == blocks
    decreases p
  {
    match p
    case Done =>
    case Nest(size, inner, next) =>
      var need, i := Need(size), FirstFit(blocks, Need(size), 0);
      if i < |blocks| {
        StackedTake(blocks, need);
        TakeTiles(blocks, total, i, need);
        var taken := Take(blocks, i, need);
        NestedRestores(taken, total, inner);
        FindIs(taken, total, i);
        ReleaseUndoesTake(blocks, total, i, need);
      } else {
        NestedRestores(blocks, total, inner);
      }
      NestedRestores(blocks, total, next);
  }

  /** In particular the single block of a fresh heap. */
  lemma NestedRestoresFresh(total: int, p: Program)
    requires total >= HEADER && SizesFit(p)
    ensures Execute([Block(0, total, true)], p) == [Block(0, total, true)]
  {
    NestedRestores([Block(0, total, true)], total, p);
  }

  // Sizes that wrap.

  /** A block that is handed out has room for what was asked exactly when the size did not wrap. */
  lemma RoomExactly(blocks: seq<Block>, total: int, size: int)
    requires Tiles(blocks, total) && total < SIZE_T && 0 <= size < SIZE_T && FirstFit(blocks, Need(size), 0) < |blocks|
    ensures var i := FirstFit(blocks, Need(size), 0);
            Take(blocks, i, Need(size))[i].size - HEADER >= size <==> size + HEADER < SIZE_T
  {
    InHeap(blocks, total, FirstFit(blocks, Need(size), 0));
  }

  /** A request for 2^64 - 24 bytes needs 0 bytes, and its block begins where the rest of the split block begins. */
  lemma WrapBreaksTiling(total: int)
    requires HEADER < total < SIZE_T
    ensures Need(SIZE_T - HEADER) == 0 && FirstFit([Block(0, total, true)], 0, 0) == 0
    ensures Take([Block(0, total, true)], 0, 0) == [Block(0, 0, false), Block(0, total, true)]
    ensures !Tiles(Take([Block(0, total, true)], 0, 0), total)
  {
  }

  // Any sequence of calls.

  datatype Call = Kmalloc(size: int) | Kfree(addr: int)

  /** Sizes do not wrap; a freed address is null (-1) or a block's. */
  ghost predicate ValidCall(blocks: seq<Block>, c: Call) {
    match c
    case Kmalloc(size) => 0 <= size < SIZE_T - HEADER
    case Kfree(addr) => addr == -1 || Find(blocks, addr, 0) < |blocks|
  }

  ghost function AfterCall(blocks: seq<Block>, c: Call): seq<Block>
    requires ValidCall(blocks, c)
  {
    match c
    case Kmalloc(size) =>
      var i := FirstFit(blocks, Need(size), 0);
      if i == |blocks| then blocks else Take(blocks, i, Need(size))
    case Kfree(addr) =>
      if addr == -1 then blocks else Release(blocks, Find(blocks, addr, 0))
  }

  ghost predicate ValidCalls(blocks: seq<Block>, calls: seq<Call>)
    decreases |calls|
  {
    calls == [] || (ValidCall(blocks, calls[0]) && ValidCalls(AfterCall(blocks, calls[0]), calls[1..]))
  }

  ghost function AfterCalls(blocks: seq<Block>, calls: seq<Call>): seq<Block>
    requires ValidCalls(blocks, calls)
    decreases |calls|
  {
    if calls == [] then blocks else AfterCalls(AfterCall(blocks, calls[0]), calls[1..])
  }

  /** The blocks tile the heap after any valid calls. */
  lemma {:induction false} AlwaysTiles(blocks: seq<Block>, total: int, calls: seq<Call>)
    requires Tiles(blocks, total) && ValidCalls(blocks, calls)
    ensures Tiles(AfterCalls(blocks, calls), total) && SizeSum(AfterCalls(blocks, calls)) == total
    decreases |calls|
  {
    if calls == [] {
      SizesAddUp(blocks, total);
    } else {
      match calls[0] {
        case Kmalloc(size) =>
          var i := FirstFit(blocks, Need(size), 0);
          if i < |blocks| { TakeTiles(blocks, total, i, Need(size)); }
        case Kfree(addr) =>
          if addr != -1 { ReleaseTiles(blocks, total, Find(blocks, addr, 0)); }
      }
      AlwaysTiles(AfterCall(blocks, calls[0]), total, calls[1..]);
    }
  }

  /** A block in use stays where it is, with its size, until it is freed. */
  lemma KeepsLive(blocks: seq<Block>, total: int, c: Call, b: Block)
    requires Tiles(blocks, total) && ValidCall(blocks, c) && b in blocks && !b.free && c != Kfree(b.addr)
    ensures b in AfterCall(blocks, c)
  {
  }

  lemma {:induction false} AlwaysLive(blocks: seq<Block>, total: int, calls: seq<Call>, b: Block)
    requires Tiles(blocks, total) && ValidCalls(blocks, calls) && b in blocks && !b.free && Kfree(b.addr) !in calls
    ensures b in AfterCalls(blocks, calls)
    decreases |calls|
  {
    if calls != [] {
      KeepsLive(blocks, total, calls[0], b);
      AlwaysTiles(blocks, total, calls[..1]);
      assert AfterCalls(blocks, calls[..1]) == AfterCall(blocks, calls[0]) by { assert calls[..1][1..] == []; }
      AlwaysLive(AfterCall(blocks, calls[0]), total, calls[1..], b);
    }
  }
}
