/** The kernel heap: block headers at their addresses in one stretch of memory. */
module Heap {
  import opened Bits
  import opened Bytes
  import opened HeapBlocks

  /** `struct kheap_block`: 24 bytes, the last four of them padding. */
  datatype Header = Header(next: int, size: int, isFree: int)

  function HeaderOf(h: seq<Byte>): Header
    requires |h| == 24
  {
    Header(UnLe(h[0..8]), UnLe(h[8..16]), UnLe(h[16..20]))
  }

  function HeaderAt(mem: seq<Byte>, off: nat): Header
    requires off + 24 <= |mem|
  {
    HeaderOf(mem[off..off + 24])
  }

  /** Only bytes from `lo` to `hi` differ. */
  ghost predicate SameOutside(a: seq<Byte>, b: seq<Byte>, lo: int, hi: int) {
    |a| == |b| && forall k :: 0 <= k < |a| && !(lo <= k < hi) ==> b[k] == a[k]
  }

  lemma HeaderKept(a: seq<Byte>, b: seq<Byte>, lo: int, hi: int, off: nat)
    requires SameOutside(a, b, lo, hi) && off + 24 <= |a| && (off + 24 <= lo || hi <= off)
    ensures HeaderAt(b, off) == HeaderAt(a, off)
  {
    assert b[off..off + 24] == a[off..off + 24];
  }

  /** The pointer to the block behind block `i`. */
  function NextOf(base: nat, blocks: seq<Block>, i: int): int
    requires 0 <= i < |blocks|
  {
    if i + 1 < |blocks| then base + blocks[i + 1].addr else 0
  }

  ghost predicate BlockAt(mem: seq<Byte>, base: nat, blocks: seq<Block>, i: int)
    requires 0 <= i < |blocks|
  {
    var b := blocks[i];
    && 0 <= b.addr && b.addr + 24 <= |mem|
    && var h := HeaderAt(mem, b.addr);
    h.next == NextOf(base, blocks, i) && h.size == b.size && (h.isFree != 0) == b.free
  }

  /** The list in memory is `blocks`. */
  ghost predicate Layout(mem: seq<Byte>, base: nat, blocks: seq<Block>) {
    Tiles(blocks, |mem|) && forall i :: 0 <= i < |blocks| ==> BlockAt(mem, base, blocks, i)
  }

  /** Headers that were not written stay: block `i` of the old list is block `j` of the new one. */
  lemma BlockKept(mem: seq<Byte>, mem': seq<Byte>, base: nat, blocks: seq<Block>, blocks': seq<Block>, i: int, j: int,
                  lo: int, hi: int)
    requires 0 <= i < |blocks| && 0 <= j < |blocks'| && BlockAt(mem, base, blocks, i) && SameOutside(mem, mem', lo, hi)
    requires blocks[i] == blocks'[j] && NextOf(base, blocks, i) == NextOf(base, blocks', j)
    requires blocks[i].addr + 24 <= lo || hi <= blocks[i].addr
    ensures BlockAt(mem', base, blocks', j)
  {
    HeaderKept(mem, mem', lo, hi, blocks[i].addr);
  }

  /** The list after a block was split or taken whole: only its own bytes were written. */
  lemma LayoutTaken(mem: seq<Byte>, mem': seq<Byte>, base: nat, blocks: seq<Block>, i: int, need: int)
    requires Layout(mem, base, blocks) && 0 <= i < |blocks| && need <= blocks[i].size && Sized(blocks[i], need)
    requires SameOutside(mem, mem', blocks[i].addr, blocks[i].addr + blocks[i].size)
    requires var after := Take(blocks, i, need);
             BlockAt(mem', base, after, i) && (Splits(blocks[i], need) ==> BlockAt(mem', base, after, i + 1))
    ensures Layout(mem', base, Take(blocks, i, need))
  {
    var after := Take(blocks, i, need);
    TakeTiles(blocks, |mem|, i, need);
    var d := if Splits(blocks[i], need) then 1 else 0;
    forall j | 0 <= j < |after|
      ensures BlockAt(mem', base, after, j)
    {
      if j < i {
        InOrder(blocks, |mem|, j, i);
        assert BlockAt(mem, base, blocks, j);
        BlockKept(mem, mem', base, blocks, after, j, j, blocks[i].addr, blocks[i].addr + blocks[i].size);
      } else if j > i + d {
        InOrder(blocks, |mem|, i, j - d);
        assert BlockAt(mem, base, blocks, j - d);
        BlockKept(mem, mem', base, blocks, after, j - d, j, blocks[i].addr, blocks[i].addr + blocks[i].size);
      }
    }
  }

  lemma LayoutReleased(mem: seq<Byte>, mem': seq<Byte>, base: nat, blocks: seq<Block>, i: int)
    requires Layout(mem, base, blocks) && 0 <= i < |blocks|
    requires SameOutside(mem, mem', blocks[i].addr, blocks[i].addr + 24)
    requires BlockAt(mem', base, Release(blocks, i), i)
    ensures Layout(mem', base, Release(blocks, i))
  {
    var after := Release(blocks, i);
    ReleaseTiles(blocks, |mem|, i);
    var d := if Merges(blocks, i) then 1 else 0;
    forall j | 0 <= j < |after|
      ensures BlockAt(mem', base, after, j)
    {
      if j < i {
        InOrder(blocks, |mem|, j, i);
        assert BlockAt(mem, base, blocks, j);
        BlockKept(mem, mem', base, blocks, after, j, j, blocks[i].addr, blocks[i].addr + 24);
      } else if j > i {
        InOrder(blocks, |mem|, i, j + d);
        assert BlockAt(mem, base, blocks, j + d);
        BlockKept(mem, mem', base, blocks, after, j + d, j, blocks[i].addr, blocks[i].addr + 24);
      }
    }
  }

  /** Whatever was written inside one block, no byte of another block's payload changed. */
  lemma OtherPayloadsKept(mem: seq<Byte>, mem': seq<Byte>, base: nat, blocks: seq<Block>, i: int, j: int, a: int)
    requires Layout(mem, base, blocks) && 0 <= i < |blocks| && 0 <= j < |blocks| && i != j
    requires SameOutside(mem, mem', blocks[i].addr, blocks[i].addr + blocks[i].size) && InPayload(blocks[j], a)
    ensures 0 <= a < |mem| && mem'[a] == mem[a]
  {
    InHeap(blocks, |mem|, j);
    if i < j { InOrder(blocks, |mem|, i, j); } else { InOrder(blocks, |mem|, j, i); }
  }

  /** Overwriting one field of a header. */
  lemma FieldWritten(h: seq<Byte>, h': seq<Byte>, at: nat, n: nat, v: nat)
    requires |h| == |h'| == 24 && (at, n) in {(0, 8), (8, 8), (16, 4)} && v < Pow2(8 * n)
    requires h'[at..at + n] == Le(v, n) && forall k :: 0 <= k < 24 && !(at <= k < at + n) ==> h'[k] == h[k]
    ensures var d := HeaderOf(h);
            HeaderOf(h') == if at == 0 then d.(next := v) else if at == 8 then d.(size := v) else d.(isFree := v)
  {
    LeRoundTrip(v, n);
    if at != 0 { assert h'[0..8] == h[0..8]; }
    if at != 8 { assert h'[8..16] == h[8..16]; }
    if at != 16 { assert h'[16..20] == h[16..20]; }
  }

  class KernelHeap {
    const base: nat
    const mem: array<Byte>
    ghost var blocks: seq<Block>

    ghost predicate Valid()
      reads this, mem
    {
      0 < base && base + mem.Length < U64 && Layout(mem[..], base, blocks)
    }

    /** `kheap_initialize` */
    constructor (start: nat, memory: array<Byte>)
      requires 0 < start && start + memory.Length < U64 && 24 <= memory.Length
      modifies memory
      ensures Valid() && base == start && mem == memory && blocks == [Block(0, memory.Length, true)]
    {
      base, mem := start, memory;
      blocks := [Block(0, memory.Length, true)];
      new;
      SetHeader(0, 0, mem.Length, 1);
      assert BlockAt(mem[..], base, blocks, 0);
    }

    static lemma BytesInPlace(m: seq<Byte>, lo: nat, bytes: seq<Byte>)
      requires lo + |bytes| <= |m| && forall j :: lo <= j < lo + |bytes| ==> m[j] == bytes[j - lo]
      ensures m[lo..lo + |bytes|] == bytes
    {
    }

    /** Stores the field at `at` of the header at `off`. */
    method SetField(off: nat, at: nat, n: nat, v: nat)
      requires off + 24 <= mem.Length && (at, n) in {(0, 8), (8, 8), (16, 4)} && v < Pow2(8 * n)
      modifies mem
      ensures SameOutside(old(mem[..]), mem[..], off, off + 24)
      ensures var h := old(HeaderAt(mem[..], off));
              HeaderAt(mem[..], off) == if at == 0 then h.(next := v) else if at == 8 then h.(size := v)
                else h.(isFree := v)
    {
      ghost var was := mem[..];
      var bytes := Le(v, n);
      for k := 0 to n
        invariant forall j :: 0 <= j < mem.Length ==>
                    mem[j] == if off + at <= j < off + at + k then bytes[j - (off + at)] else was[j]
      {
        mem[off + at + k] := bytes[k];
      }
      ghost var now := mem[..];
      SliceOfSlice(now, off, 24, at, at + n);
      BytesInPlace(now, off + at, bytes);
      FieldWritten(was[off..off + 24], now[off..off + 24], at, n, v);
    }

    /** Stores size, free mark and next pointer. */
    method SetHeader(off: nat, next: nat, size: nat, isFree: nat)
      requires off + 24 <= mem.Length && next < U64 && size < U64 && isFree < U32
      modifies mem
      ensures SameOutside(old(mem[..]), mem[..], off, off + 24) && HeaderAt(mem[..], off) == Header(next, size, isFree)
    {
      FieldWidths();
      SetField(off, 8, 8, size);
      SetField(off, 16, 4, isFree);
      SetField(off, 0, 8, next);
    }

    method GetField(off: nat, at: nat, n: nat) returns (v: nat)
      requires off + 24 <= mem.Length && (at, n) in {(0, 8), (8, 8), (16, 4)}
      ensures var h := HeaderAt(mem[..], off); v == if at == 0 then h.next else if at == 8 then h.size else h.isFree
    {
      v := UnLe(mem[off + at..off + at + n]);
      SliceOfSlice(mem[..], off, 24, at, at + n);
      assert mem[off + at..off + at + n] == mem[..][off + at..off + at + n];
    }

    /** Reads the header of block `i`. */
    method ReadBlock(off: nat, ghost i: int) returns (next: nat, size: nat, isFree: bool)
      requires Valid() && 0 <= i < |blocks| && off == blocks[i].addr && off + 24 <= mem.Length
      ensures next == NextOf(base, blocks, i) && size == blocks[i].size && isFree == blocks[i].free
    {
      assert BlockAt(mem[..], base, blocks, i);
      next := GetField(off, 0, 8);
      size := GetField(off, 8, 8);
      var mark := GetField(off, 16, 4);
      isFree := mark != 0;
    }

    /** The fields of `struct kheap_block` for each block of the list, where the compiler puts them. */
    lemma HeadersInMemory(i: int)
      requires Valid() && 0 <= i < |blocks|
      ensures 0 <= blocks[i].addr && blocks[i].addr + 24 <= mem.Length
      ensures Field(mem[..], blocks[i].addr, 8) == if i + 1 < |blocks| then base + blocks[i + 1].addr else 0
      ensures Field(mem[..], blocks[i].addr + 8, 8) == blocks[i].size
      ensures Field(mem[..], blocks[i].addr + 16, 4) != 0 <==> blocks[i].free
    {
      assert BlockAt(mem[..], base, blocks, i);
      SliceOfSlice(mem[..], blocks[i].addr, 24, 0, 8);
      SliceOfSlice(mem[..], blocks[i].addr, 24, 8, 16);
      SliceOfSlice(mem[..], blocks[i].addr, 24, 16, 20);
    }

    /**
     Block `i` is the first that is free and large enough for `size` bytes and a header; that much of it is in use
     afterwards, or all of it if no more than a header would be left. The sum wraps at 64 bits; what a sum of less
     than a header leaves of a larger block is not said.
     */
    static ghost predicate FirstTaken(was: seq<Block>, now: seq<Block>, i: int, size: nat)
      requires 0 <= i < |was|
    {
      var b, need := was[i], (size + 24) % 0x1_0000_0000_0000_0000;
      && b.free && b.size >= need && (forall j :: 0 <= j < i ==> !(was[j].free && was[j].size >= need))
      && (b.size > need + 24 && need >= 24 ==>
            now == was[..i] + [Block(b.addr, need, false), Block(b.addr + need, b.size - need, true)] + was[i + 1..])
      && (b.size <= need + 24 ==> now == was[..i] + [Block(b.addr, b.size, false)] + was[i + 1..])
    }

    static lemma TakesFirst(was: seq<Block>, now: seq<Block>, i: int, size: nat)
      requires size < U64 && i == FirstFit(was, Need(size), 0) < |was|
      requires Sized(was[i], Need(size)) ==> now == Take(was, i, Need(size))
      ensures FirstTaken(was, now, i, size)
    {
    }

    static lemma NothingServes(was: seq<Block>, size: nat)
      requires size < U64
      ensures FirstFit(was, Need(size), 0) == |was|
              <==> forall i :: 0 <= i < |was| ==> !(was[i].free && was[i].size >= (size + 24) % 0x1_0000_0000_0000_0000)
    {
      var k := FirstFit(was, Need(size), 0);
      if k < |was| { assert Serves(was[k], Need(size)); }
      if k == |was| {
        forall i | 0 <= i < |was|
          ensures !(was[i].free && was[i].size >= Need(size))
        {
          assert !Serves(was[i], Need(size));
        }
      }
    }

    /** Null, or the address behind the header of the block that was taken. */
    method Kmalloc(size: nat) returns (p: nat)
      requires Valid() && size < U64
      modifies this`blocks, mem
      ensures var i := FirstFit(old(blocks), Need(size), 0);
              if i == |old(blocks)| then p == 0 && blocks == old(blocks) && mem[..] == old(mem[..])
              else
                && p == base + old(blocks)[i].addr + 24
                && SameOutside(old(mem[..]), mem[..], old(blocks)[i].addr, old(blocks)[i].addr + old(blocks)[i].size)
                && (Sized(old(blocks)[i], Need(size)) ==> blocks == Take(old(blocks), i, Need(size)) && !blocks[i].free)
                && (size + 24 < U64 ==> Sized(old(blocks)[i], Need(size)) && blocks[i].size - 24 >= size)
      ensures Valid() <==> (var i := FirstFit(old(blocks), Need(size), 0);
                            i == |old(blocks)| || Sized(old(blocks)[i], Need(size)))
      ensures p == 0 <==> forall i :: 0 <= i < |old(blocks)| ==>
                !(old(blocks)[i].free && old(blocks)[i].size >= (size + 24) % 0x1_0000_0000_0000_0000)
      ensures p != 0 ==>
                exists i :: 0 <= i < |old(blocks)|
                            && p == base + old(blocks)[i].addr + 24 && FirstTaken(old(blocks), blocks, i, size)
    {
      var total := (size + 24) % 0x1_0000_0000_0000_0000;
      p := FindFit(total);
      if p != 0 {
        TakeBlock(p - base, total, FirstFit(blocks, total, 0));
        p := p + 24;
        TakesFirst(old(blocks), blocks, FirstFit(old(blocks), total, 0), size);
      }
      NothingServes(old(blocks), size);
    }

    /** The walk to the first block that fits, as a pointer to its header. */
    method FindFit(total: nat) returns (current: nat)
      requires Valid()
      ensures var i := FirstFit(blocks, total, 0);
              if i < |blocks| then 0 <= blocks[i].addr && current == base + blocks[i].addr else current == 0
    {
      ghost var i := 0;
      current := base;
      while current != 0
        invariant 0 <= i <= |blocks| && (forall j :: 0 <= j < i ==> !Serves(blocks[j], total))
        invariant current == if i < |blocks| then base + blocks[i].addr else 0
        decreases |blocks| - i
      {
        NextBound(mem[..], base, blocks, i);
        var next, blockSize, isFree := ReadBlock(current - base, i);
        if isFree && blockSize >= total {
          FirstFitIs(blocks, total, i);
          return;
        }
        current, i := next, i + 1;
      }
      if i < |blocks| { NextBound(mem[..], base, blocks, i); }
      FirstFitIs(blocks, total, i);
    }

    static lemma NextBound(m: seq<Byte>, base: nat, list: seq<Block>, i: int)
      requires Layout(m, base, list) && 0 <= i < |list|
      ensures 0 <= list[i].addr && list[i].addr + 24 <= |m|
      ensures 0 <= HeaderAt(m, list[i].addr).next == NextOf(base, list, i) <= base + |m|
      ensures base > 0 ==> (NextOf(base, list, i) == 0 <==> i + 1 == |list|)
    {
      assert BlockAt(m, base, list, i);
      if i + 1 < |list| { InHeap(list, |m|, i + 1); }
    }

    /** Splits the block at `off` if a header fits behind `total` bytes, and marks it as in use. */
    method TakeBlock(off: nat, total: nat, ghost i: int)
      requires Valid() && 0 <= i < |blocks| && off == blocks[i].addr && total <= blocks[i].size
      modifies this`blocks, mem
      ensures blocks == Take(old(blocks), i, total) && (Valid() <==> Sized(old(blocks)[i], total))
      ensures SameOutside(old(mem[..]), mem[..], old(blocks)[i].addr, old(blocks)[i].addr + old(blocks)[i].size)
    {
      ghost var was, list := mem[..], blocks;
      InHeap(list, mem.Length, i);
      assert BlockAt(was, base, list, i);
      NextBound(was, base, list, i);
      MarkTaken(off, total, list[i].size);
      blocks := Take(list, i, total);
      if Sized(list[i], total) {
        TakenHeaders(was, mem[..], base, list, i, total);
        LayoutTaken(was, mem[..], base, list, i, total);
      } else {
        assert blocks[i].size == total;
      }
    }

    method MarkTaken(off: nat, total: nat, ghost blockSize: nat)
      requires 24 <= blockSize && total <= blockSize && off + blockSize <= mem.Length && 0 < base
               && base + mem.Length < U64
      requires HeaderAt(mem[..], off).size == blockSize && 0 <= HeaderAt(mem[..], off).next < U64
      modifies mem
      ensures SameOutside(old(mem[..]), mem[..], off, off + blockSize)
      ensures total >= 24 || blockSize <= total + 24 ==> Marked(old(HeaderAt(mem[..], off)), mem[..], base, off, total)
    {
      var size := GetField(off, 8, 8);
      if size > total + 24 {
        SplitBlock(off, total, size);
      }
      MarkUsed(off, total, blockSize);
    }

    /** `current->is_free = 0`; the header of the other part stays, unless it overlaps. */
    method MarkUsed(off: nat, ghost total: nat, ghost blockSize: nat)
      requires off + 24 <= mem.Length && off + blockSize <= mem.Length
      modifies mem
      ensures SameOutside(old(mem[..]), mem[..], off, off + 24)
      ensures HeaderAt(mem[..], off) == old(HeaderAt(mem[..], off)).(isFree := 0)
      ensures blockSize > total + 24 && total >= 24 ==>
              HeaderAt(mem[..], off + total) == old(HeaderAt(mem[..], off + total))
    {
      FieldWidths();
      ghost var m := mem[..];
      SetField(off, 16, 4, 0);
      if blockSize > total + 24 && total >= 24 { HeaderKept(m, mem[..], off, off + 24, off + total); }
    }

    /** The header at `off`, once `h`, was marked as in use, after splitting the block if it is large enough. */
    static ghost predicate Marked(h: Header, now: seq<Byte>, base: nat, off: nat, total: nat)
      requires off + 24 <= |now| && off + h.size <= |now|
    {
      if h.size > total + 24
      then HeaderAt(now, off) == Header(base + off + total, total, 0)
           && HeaderAt(now, off + total) == Header(h.next, h.size - total, 1)
      else HeaderAt(now, off) == h.(isFree := 0)
    }

    /** The two headers of a split block, which overlap when the size wrapped to less than a header's. */
    method SplitBlock(off: nat, total: nat, size: nat)
      requires total + 24 < size && off + size <= mem.Length < U64 && 0 <= HeaderAt(mem[..], off).next < U64
      requires base + mem.Length < U64
      modifies mem
      ensures SameOutside(old(mem[..]), mem[..], off, off + size)
      ensures total >= 24 ==>
                && HeaderAt(mem[..], off) == old(HeaderAt(mem[..], off)).(size := total, next := base + off + total)
                && HeaderAt(mem[..], off + total) == Header(old(HeaderAt(mem[..], off)).next, size - total, 1)
    {
      ghost var m0 := mem[..];
      var next := GetField(off, 0, 8);
      SetHeader(off + total, next, size - total, 1);
      ghost var m1 := mem[..];
      ShortenHeader(off, total, base + off + total);
      if total >= 24 {
        HeaderKept(m0, m1, off + total, off + total + 24, off);
        HeaderKept(m1, mem[..], off, off + 24, off + total);
      }
    }

    /** The size and the next pointer of the front part. */
    method ShortenHeader(off: nat, size: nat, next: nat)
      requires off + 24 <= mem.Length && size < U64 && next < U64
      modifies mem
      ensures SameOutside(old(mem[..]), mem[..], off, off + 24)
      ensures HeaderAt(mem[..], off) == old(HeaderAt(mem[..], off)).(size := size, next := next)
    {
      FieldWidths();
      SetField(off, 8, 8, size);
      SetField(off, 0, 8, next);
    }

    static lemma TakenHeaders(was: seq<Byte>, now: seq<Byte>, base: nat, list: seq<Block>, i: int, total: nat)
      requires Layout(was, base, list) && 0 <= i < |list| && total <= list[i].size && |now| == |was|
      requires 0 <= list[i].addr && list[i].addr + list[i].size <= |was|
        && HeaderAt(was, list[i].addr).size == list[i].size
      requires Marked(HeaderAt(was, list[i].addr), now, base, list[i].addr, total)
      ensures var after := Take(list, i, total);
              BlockAt(now, base, after, i) && (Splits(list[i], total) ==> BlockAt(now, base, after, i + 1))
    {
      assert BlockAt(was, base, list, i);
      InHeap(list, |was|, i);
      var after := Take(list, i, total);
      if Splits(list[i], total) {
        assert NextOf(base, after, i + 1) == NextOf(base, list, i);
      } else {
        assert NextOf(base, after, i) == NextOf(base, list, i);
      }
    }

    /** Nothing for a null pointer; otherwise `p` is the address behind the header of block `i`. */
    method Kfree(p: nat, ghost i: int)
      requires Valid() && (p != 0 ==> 0 <= i < |blocks| && p == base + blocks[i].addr + 24)
      modifies this`blocks, mem
      ensures Valid()
      ensures p == 0 ==> blocks == old(blocks) && mem[..] == old(mem[..])
      ensures p != 0 ==> blocks == Release(old(blocks), i)
                         && SameOutside(old(mem[..]), mem[..], old(blocks)[i].addr, old(blocks)[i].addr + 24)
      ensures p != 0 ==>
                (var was, b := old(blocks), old(blocks)[i];
                 blocks == if i + 1 < |was| && was[i + 1].free
                           then was[..i] + [Block(b.addr, b.size + was[i + 1].size, true)] + was[i + 2..]
                           else was[..i] + [Block(b.addr, b.size, true)] + was[i + 1..])
    {
      if p != 0 {
        NextBound(mem[..], base, blocks, i);
        ReleaseBlock(p - 24 - base, i);
      }
    }

    method ReleaseBlock(off: nat, ghost i: int)
      requires Valid() && 0 <= i < |blocks| && off == blocks[i].addr
      modifies this`blocks, mem
      ensures Valid() && blocks == Release(old(blocks), i)
      ensures SameOutside(old(mem[..]), mem[..], old(blocks)[i].addr, old(blocks)[i].addr + 24)
    {
      ghost var was, list := mem[..], blocks;
      NextBound(was, base, list, i);
      FieldWidths();
      SetField(off, 16, 4, 1);
      MergeNext(off, was, list, i);
      blocks := Release(list, i);
      ReleasedHeader(was, mem[..], base, list, i);
      LayoutReleased(was, mem[..], base, list, i);
    }

    /** The header of block `i` after it was released. */
    static ghost predicate Released(was: seq<Byte>, now: seq<Byte>, base: nat, list: seq<Block>, i: int)
      requires 0 <= i < |list| && 0 <= list[i].addr && list[i].addr + 24 <= |was| == |now|
    {
      HeaderAt(now, list[i].addr)
      == if Merges(list, i) then Header(NextOf(base, list, i + 1), list[i].size + list[i + 1].size, 1)
         else HeaderAt(was, list[i].addr).(isFree := 1)
    }

    /** Absorbs the block behind the one at `off` if it is free. */
    method MergeNext(off: nat, ghost was: seq<Byte>, ghost list: seq<Block>, ghost i: int)
      requires 0 < base && base + mem.Length < U64 && Layout(was, base, list) && 0 <= i < |list| && off == list[i].addr
      requires off + 24 <= |was| && SameOutside(was, mem[..], off, off + 24)
      requires HeaderAt(mem[..], off) == HeaderAt(was, off).(isFree := 1)
      modifies mem
      ensures SameOutside(was, mem[..], off, off + 24) && Released(was, mem[..], base, list, i)
    {
      NextBound(was, base, list, i);
      var next := GetField(off, 0, 8);
      if next != 0 {
        NextBlock(was, mem[..], base, list, i);
        AbsorbIfFree(off, next - base, list[i].size, list[i + 1].size);
      }
    }

    method AbsorbIfFree(off: nat, nextOff: nat, ghost size0: nat, ghost size1: nat)
      requires off + 24 <= nextOff && nextOff + 24 <= mem.Length && size0 + size1 <= mem.Length < U64
      requires HeaderAt(mem[..], off).size == size0 && HeaderAt(mem[..], nextOff).size == size1
      requires 0 <= HeaderAt(mem[..], nextOff).next < U64
      modifies mem
      ensures SameOutside(old(mem[..]), mem[..], off, off + 24)
      ensures var h, n := old(HeaderAt(mem[..], off)), old(HeaderAt(mem[..], nextOff));
              HeaderAt(mem[..], off) == if n.isFree != 0 then h.(size := size0 + size1, next := n.next) else h
    {
      FieldWidths();
      var nextFree := GetField(nextOff, 16, 4);
      if nextFree != 0 {
        var size := GetField(off, 8, 8);
        var nextSize := GetField(nextOff, 8, 8);
        var nextNext := GetField(nextOff, 0, 8);
        SetField(off, 8, 8, size + nextSize);
        SetField(off, 0, 8, nextNext);
      }
    }

    static lemma ReleasedHeader(was: seq<Byte>, now: seq<Byte>, base: nat, list: seq<Block>, i: int)
      requires 0 < base && Layout(was, base, list) && 0 <= i < |list| && 0 <= list[i].addr
        && list[i].addr + 24 <= |was| == |now|
      requires Released(was, now, base, list, i)
      ensures BlockAt(now, base, Release(list, i), i)
    {
      assert BlockAt(was, base, list, i);
    }

    /** The header behind block `i`, which was not written yet. */
    static lemma NextBlock(was: seq<Byte>, now: seq<Byte>, base: nat, list: seq<Block>, i: int)
      requires Layout(was, base, list) && 0 <= i < |list| && NextOf(base, list, i) != 0
      requires SameOutside(was, now, list[i].addr, list[i].addr + 24)
      ensures i + 1 < |list| && 0 <= list[i].addr && list[i].addr + list[i].size == list[i + 1].addr
      ensures list[i].size >= 24 && list[i + 1].size >= 24 && list[i + 1].addr + list[i + 1].size <= |was|
      ensures HeaderAt(was, list[i].addr).size == list[i].size
      ensures (var h := HeaderAt(now, list[i + 1].addr);
               h.size == list[i + 1].size && (h.isFree != 0) == list[i + 1].free
               && h.next == NextOf(base, list, i + 1) && 0 <= h.next <= base + |was|)
    {
      InHeap(list, |was|, i);
      InHeap(list, |was|, i + 1);
      assert BlockAt(was, base, list, i) && BlockAt(was, base, list, i + 1) && Linked(list, i);
      BlockKept(was, now, base, list, list, i + 1, i + 1, list[i].addr, list[i].addr + 24);
      NextBound(was, base, list, i + 1);
    }
  }
}
