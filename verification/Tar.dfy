/** The ramdisk: a tar archive in memory, walked from header to header. */
module Tar {
  import opened Bits
  import opened Wrappers

  const NAME_FIELD: nat := 100
  const SIZE_FIELD: nat := 124

  // The size field.

  /** A byte as C's `char`, which is signed. */
  function CharOf(b: Byte): int { if b < 128 then b else b - 256 }

  /** The number that octal digits stand for; other characters count by their distance from '0'. */
  function Octal(s: seq<Byte>): int {
    if s == [] then 0 else 8 * Octal(s[..|s| - 1]) + (CharOf(s[|s| - 1]) - 48)
  }

  /** The last `n` octal digits of `x`. */
  function OctalDigits(x: nat, n: nat): (r: seq<Byte>)
    ensures |r| == n && forall i :: 0 <= i < n ==> 48 <= r[i] < 56
    decreases n, x
  {
    if n == 0 then [] else OctalDigits(x / 8, n - 1) + [x % 8 + 48]
  }

  function Pow8(n: nat): nat { if n == 0 then 1 else 8 * Pow8(n - 1) }

  /** A digit stands for three bits. */
  lemma {:induction false} ThreeBits(n: nat)
    ensures Pow8(n) == Pow2(3 * n)
  {
    if n > 0 {
      ThreeBits(n - 1);
      assert Pow2(3 * n) == 2 * Pow2(3 * n - 1) && Pow2(3 * n - 1) == 2 * Pow2(3 * n - 2);
    }
  }

  lemma {:induction false} OctalRoundTrip(x: nat, n: nat)
    requires x < Pow8(n)
    ensures Octal(OctalDigits(x, n)) == x
    decreases n
  {
    if n > 0 {
      OctalRoundTrip(x / 8, n - 1);
      var s := OctalDigits(x, n);
      assert s[..n - 1] == OctalDigits(x / 8, n - 1);
    }
  }

  /** The digits from position `j` on, weighted by their place. */
  ghost function OctalTail(s: seq<Byte>, j: nat): int
    requires j <= |s|
    decreases |s| - j
  {
    if j == |s| then 0 else (CharOf(s[j]) - 48) * Pow8(|s| - 1 - j) + OctalTail(s, j + 1)
  }

  lemma {:induction false} OctalTailShifts(s: seq<Byte>, j: nat)
    requires 0 < |s| && j < |s|
    ensures OctalTail(s, j) == 8 * OctalTail(s[..|s| - 1], j) + (CharOf(s[|s| - 1]) - 48)
    decreases |s| - j
  {
    var front := s[..|s| - 1];
    if j < |s| - 1 {
      OctalTailShifts(s, j + 1);
      var c, p := CharOf(s[j]) - 48, Pow8(|s| - 2 - j);
      assert c * (8 * p) == 8 * (c * p);
    }
  }

  lemma {:induction false} TailIsOctal(s: seq<Byte>)
    ensures OctalTail(s, 0) == Octal(s)
  {
    if s != [] {
      TailIsOctal(s[..|s| - 1]);
      OctalTailShifts(s, 0);
    }
  }

  /** Adding and reducing modulo 2^32 at every step is reducing once. */
  lemma ModSum(a: int, b: int)
    ensures (a % 0x1_0000_0000 + b) % 0x1_0000_0000 == (a + b) % 0x1_0000_0000
  {
  }

  /** `get_size`, in 32-bit unsigned arithmetic. */
  method GetSize(field: seq<Byte>) returns (size: nat)
    requires |field| >= 11
    ensures size == Octal(field[..11]) % U32
  {
    ghost var s := field[..11];
    size := 0;
    var count, j := 1, 11;
    while j > 0
      invariant j <= 11 && size == OctalTail(s, j) % 0x1_0000_0000
      invariant j > 0 ==> count == Pow8(11 - j)
    {
      PowersOf8(11 - j);
      ModSum(OctalTail(s, j), (CharOf(s[j - 1]) - 48) * count);
      size := (size + (CharOf(field[j - 1]) - 48) * count) % 0x1_0000_0000;
      j, count := j - 1, count * 8 % 0x1_0000_0000;
    }
    TailIsOctal(s);
  }

  /** The weights fit 32 bits as long as they are used. */
  lemma PowersOf8(n: nat)
    requires n < 11
    ensures n < 10 ==> Pow8(n + 1) == 8 * Pow8(n) < U32
  {
    if n < 10 { Pow8Monotone(n + 1, 10); }
    assert Pow8(10) == 0x4000_0000 by {
      assert Pow8(5) == 0x8000;
    }
  }

  lemma {:induction false} Pow8Monotone(m: nat, n: nat)
    requires m <= n
    ensures Pow8(m) <= Pow8(n)
    decreases n
  {
    if m < n { Pow8Monotone(m, n - 1); }
  }

  // Steps.

  /** `512 + (((size + 511) / 512) * 512)` in 32-bit unsigned arithmetic. */
  function NextOffset(size: nat): nat { (512 + (size + 511) % 0x1_0000_0000 / 512 * 512) % 0x1_0000_0000 }

  /** A header and the content, padded to whole blocks. */
  function Span(size: nat): nat { 512 + (size + 511) / 512 * 512 }

  /** The walk steps to the next header exactly when the content has at most 2^32 - 1024 bytes. */
  lemma StepExactly(size: nat)
    ensures NextOffset(size % U32) == Span(size) <==> size <= 0x1_0000_0000 - 1024
  {
  }

  /** Slightly larger contents make it stand still. */
  lemma StandsStill(size: nat)
    requires 0x1_0000_0000 - 1024 < size <= 0x1_0000_0000 - 512
    ensures NextOffset(size) == 0
  {
  }

  // Archives.

  datatype Entry = Entry(name: seq<Byte>, content: seq<Byte>)

  /** The C string at `off`. */
  function CString(mem: seq<Byte>, off: nat): seq<Byte>
    decreases |mem| - off
  {
    if off >= |mem| || mem[off] == 0 then [] else [mem[off]] + CString(mem, off + 1)
  }

  predicate NoZero(s: seq<Byte>) { forall i :: 0 <= i < |s| ==> s[i] != 0 }

  /** POSIX.1-2017 pax, "ustar Interchange Format": a name shorter than its field is terminated, a full one is not. */
  ghost predicate NameAt(mem: seq<Byte>, off: nat, name: seq<Byte>)
    requires off + 512 <= |mem|
  {
    && 0 < |name| <= NAME_FIELD && NoZero(name) && mem[off..off + |name|] == name
    && (if |name| < NAME_FIELD then mem[off + |name|] == 0 else mem[off + NAME_FIELD] != 0)
  }

  ghost predicate EntryAt(mem: seq<Byte>, off: nat, e: Entry) {
    && off + Span(|e.content|) <= |mem| && |e.content| <= 0x1_0000_0000 - 1024
    && NameAt(mem, off, e.name)
    && mem[off + SIZE_FIELD..off + SIZE_FIELD + 11] == OctalDigits(|e.content|, 11)
    && mem[off + 512..off + 512 + |e.content|] == e.content
  }

  /** Entry `k` lies at `at[k]`, and the next header behind its padded content. */
  ghost predicate Stored(mem: seq<Byte>, at: seq<nat>, entries: seq<Entry>, k: nat)
    requires k < |entries| && |at| == |entries| + 1
  {
    EntryAt(mem, at[k], entries[k]) && at[k + 1] == at[k] + Span(|entries[k].content|)
  }

  /** The entries follow each other from `start` on, and an empty name follows the last. */
  ghost predicate Archive(mem: seq<Byte>, start: nat, at: seq<nat>, entries: seq<Entry>) {
    && |at| == |entries| + 1 && at[0] == start
    && (forall k: nat :: k < |entries| ==> Stored(mem, at, entries, k))
    && at[|entries|] < |mem| && mem[at[|entries|]] == 0
  }

  /** A nonempty name begins every header but the last. */
  lemma HeadByte(mem: seq<Byte>, start: nat, at: seq<nat>, entries: seq<Entry>, k: nat)
    requires Archive(mem, start, at, entries) && k <= |entries|
    ensures at[k] < |mem| && (mem[at[k]] == 0 <==> k == |entries|)
  {
    if k < |entries| {
      assert Stored(mem, at, entries, k);
      FirstByte(mem, at[k], entries[k]);
    }
  }

  lemma FirstByte(mem: seq<Byte>, off: nat, e: Entry)
    requires EntryAt(mem, off, e)
    ensures off < |mem| && mem[off] != 0
  {
  }

  lemma {:induction false} CStringSplits(mem: seq<Byte>, off: nat, n: nat)
    requires off + n <= |mem| && NoZero(mem[off..off + n])
    ensures CString(mem, off) == mem[off..off + n] + CString(mem, off + n)
    decreases n
  {
    if n > 0 {
      var s := mem[off..off + n];
      assert mem[off] == s[0];
      assert mem[off + 1..off + n] == s[1..];
      CStringSplits(mem, off + 1, n - 1);
      assert s == [mem[off]] + s[1..];
    }
  }

  /** When a stored name compares equal: a full one is compared together with the mode field behind it. */
  lemma ComparesByName(mem: seq<Byte>, off: nat, e: Entry, target: seq<Byte>)
    requires EntryAt(mem, off, e)
    ensures CString(mem, off) == target
            <==> target == if |e.name| < NAME_FIELD then e.name else e.name + CString(mem, off + NAME_FIELD)
    ensures |e.name| == NAME_FIELD ==> |CString(mem, off)| > NAME_FIELD
  {
    CStringSplits(mem, off, |e.name|);
  }

  /** The size that the walk computes is the content's. */
  method ReadSize(field: seq<Byte>, ghost n: nat) returns (size: nat)
    requires |field| == 12 && field[..11] == OctalDigits(n, 11) && n < U32
    ensures size == n
  {
    size := GetSize(field);
    ElevenDigits(n);
  }

  lemma ElevenDigits(n: nat)
    requires n < U32
    ensures Octal(OctalDigits(n, 11)) == n
  {
    assert Pow8(11) == 8 * Pow8(10) && Pow8(10) == 0x4000_0000 by { assert Pow8(5) == 0x8000; }
    OctalRoundTrip(n, 11);
  }

  /** The size in a header, and the distance to the next. */
  method ReadHeader(mem: seq<Byte>, off: nat, ghost e: Entry) returns (size: nat, span: nat)
    requires EntryAt(mem, off, e)
    ensures size == |e.content| && span == Span(size)
  {
    SizeField(mem, off, e);
    size := ReadSize(mem[off + 124..off + 136], |e.content|);
    span := Distance(size);
  }

  method Distance(size: nat) returns (span: nat)
    requires size <= 0x1_0000_0000 - 1024
    ensures span == Span(size)
  {
    StepExactly(size);
    span := NextOffset(size);
  }

  lemma SizeField(mem: seq<Byte>, off: nat, e: Entry)
    requires EntryAt(mem, off, e)
    ensures off + 512 <= |mem| && mem[off + 124..off + 136][..11] == OctalDigits(|e.content|, 11)
  {
  }

  /** The first entry with that name, or the number of entries. */
  function FirstNamed(entries: seq<Entry>, target: seq<Byte>): (k: nat)
    ensures k <= |entries| && (k < |entries| ==> entries[k].name == target)
    ensures forall j :: 0 <= j < k ==> entries[j].name != target
  {
    if entries == [] || entries[0].name == target then 0 else 1 + FirstNamed(entries[1..], target)
  }

  predicate Equal(mem: seq<Byte>, at: seq<nat>, target: seq<Byte>, k: nat)
    requires k < |at|
  {
    CString(mem, at[k]) == target
  }

  /** The first entry from `i` on whose stored name compares equal to the target, or their number `n`. */
  ghost function FirstEqual(mem: seq<Byte>, at: seq<nat>, target: seq<Byte>, n: nat, i: nat): (k: nat)
    requires i <= n < |at|
    ensures i <= k <= n && (k < n ==> Equal(mem, at, target, k))
    ensures forall j: nat :: i <= j < k ==> !Equal(mem, at, target, j)
    decreases n - i
  {
    if i == n || Equal(mem, at, target, i) then i else FirstEqual(mem, at, target, n, i + 1)
  }

  lemma FirstEqualIs(mem: seq<Byte>, at: seq<nat>, target: seq<Byte>, n: nat, k: nat)
    requires k <= n < |at| && (k < n ==> Equal(mem, at, target, k))
             && forall j: nat :: j < k ==> !Equal(mem, at, target, j)
    ensures FirstEqual(mem, at, target, n, 0) == k
  {
  }

  /** Targets shorter than 100 bytes are looked up correctly. */
  lemma LookupByName(mem: seq<Byte>, start: nat, at: seq<nat>, entries: seq<Entry>, target: seq<Byte>)
    requires Archive(mem, start, at, entries) && |target| < NAME_FIELD
    ensures FirstEqual(mem, at, target, |entries|, 0) == FirstNamed(entries, target)
  {
    forall j: nat | j < |entries|
      ensures Equal(mem, at, target, j) <==> entries[j].name == target
    {
      assert Stored(mem, at, entries, j);
      ComparesByName(mem, at[j], entries[j], target);
    }
    FirstEqualIs(mem, at, target, |entries|, FirstNamed(entries, target));
  }

  /** The name of entry `k` fills its field and is the target, or compares equal to it together with what follows. */
  predicate Misleads(mem: seq<Byte>, at: seq<nat>, entries: seq<Entry>, target: seq<Byte>, k: nat)
    requires k < |entries| < |at|
  {
    |entries[k].name| == NAME_FIELD && (entries[k].name == target || CString(mem, at[k]) == target)
  }

  /**
   The lookup is right exactly when no full name misleads it: such a name is missed when it is looked for, and found
   when what is looked for goes on like the mode field behind it.
   */
  lemma LookupExactly(mem: seq<Byte>, start: nat, at: seq<nat>, entries: seq<Entry>, target: seq<Byte>)
    requires Archive(mem, start, at, entries)
    ensures FirstEqual(mem, at, target, |entries|, 0) == FirstNamed(entries, target)
            <==> forall k: nat :: k < |entries| ==> !Misleads(mem, at, entries, target, k)
  {
    forall j: nat | j < |entries|
      ensures !Misleads(mem, at, entries, target, j) ==> (Equal(mem, at, target, j) <==> entries[j].name == target)
      ensures Misleads(mem, at, entries, target, j) ==> |target| >= NAME_FIELD
      ensures Equal(mem, at, target, j) && |target| >= NAME_FIELD ==> Misleads(mem, at, entries, target, j)
      ensures Equal(mem, at, target, j) ==> |target| != NAME_FIELD
      ensures entries[j].name == target ==> |target| <= NAME_FIELD
    {
      assert Stored(mem, at, entries, j);
      ComparesByName(mem, at[j], entries[j], target);
    }
    var e, n := FirstEqual(mem, at, target, |entries|, 0), FirstNamed(entries, target);
    if forall k: nat :: k < |entries| ==> !Misleads(mem, at, entries, target, k) {
      FirstEqualIs(mem, at, target, |entries|, n);
    } else {
      var k: nat :| k < |entries| && Misleads(mem, at, entries, target, k);
      assert Equal(mem, at, target, k) <==> |target| > NAME_FIELD;
      assert e != n;
    }
  }

  // Both ways to be misled.

  /** An archive of one empty file whose name is a hundred times 'a', and whose mode is "0000644". */
  function FullNameDisk(): (mem: seq<Byte>)
    ensures |mem| == 1024
    ensures forall i :: 0 <= i < 1024 ==> mem[i] == FullNameByte(i)
  {
    seq(1024, i requires 0 <= i => FullNameByte(i))
  }

  function FullNameByte(i: nat): Byte {
    if i < 100 then 97
    else if i < 104 then 48 else if i == 104 then 54 else if i < 107 then 52
    else if 124 <= i < 135 then 48 else 0
  }

  function FullName(): (name: seq<Byte>)
    ensures |name| == 100 && forall i :: 0 <= i < 100 ==> name[i] == 97
  {
    seq(100, _ => 97)
  }

  lemma {:induction false} OctalZero(n: nat)
    ensures forall i :: 0 <= i < n ==> OctalDigits(0, n)[i] == 48
    decreases n
  {
    if n > 0 { OctalZero(n - 1); }
  }

  lemma FullNameArchive()
    ensures Archive(FullNameDisk(), 0, [0, 512], [Entry(FullName(), [])])
  {
    var mem, e := FullNameDisk(), Entry(FullName(), []);
    OctalZero(11);
    assert mem[SIZE_FIELD..SIZE_FIELD + 11] == OctalDigits(0, 11);
    assert mem[..100] == e.name && mem[512..512] == [];
    assert EntryAt(mem, 0, e);
    assert Stored(mem, [0, 512], [e], 0);
  }

  /** In an archive of one file with a full name, the name is not found, and the name with its mode is. */
  lemma OneFullName(mem: seq<Byte>, start: nat, at: seq<nat>, e: Entry, target: seq<Byte>)
    requires Archive(mem, start, at, [e]) && |e.name| == NAME_FIELD
    ensures target == e.name ==> FirstNamed([e], target) == 0 && FirstEqual(mem, at, target, 1, 0) == 1
    ensures target == CString(mem, at[0]) ==> FirstNamed([e], target) == 1 && FirstEqual(mem, at, target, 1, 0) == 0
  {
    assert Stored(mem, at, [e], 0);
    ComparesByName(mem, at[0], e, target);
    if Equal(mem, at, target, 0) {
      FirstEqualIs(mem, at, target, 1, 0);
    } else {
      FirstEqualIs(mem, at, target, 1, 1);
    }
  }

  lemma FullNameMisleads()
    ensures var mem, at, entries := FullNameDisk(), [0, 512], [Entry(FullName(), [])];
            && FirstNamed(entries, FullName()) == 0 && FirstEqual(mem, at, FullName(), 1, 0) == 1
            && FirstNamed(entries, CString(mem, 0)) == 1 && FirstEqual(mem, at, CString(mem, 0), 1, 0) == 0
  {
    var mem, e := FullNameDisk(), Entry(FullName(), []);
    FullNameArchive();
    OneFullName(mem, 0, [0, 512], e, FullName());
    OneFullName(mem, 0, [0, 512], e, CString(mem, 0));
  }

  datatype File = File(name: seq<Byte>, size: nat)

  /** Entry `k` was listed with its stored name and its size. */
  predicate ListedAt(listed: seq<File>, mem: seq<Byte>, at: seq<nat>, entries: seq<Entry>, k: nat)
    requires k < |listed| && k < |at| && k < |entries|
  {
    listed[k] == File(CString(mem, at[k]), |entries[k].content|)
  }

  /** That is its name, unless the name fills its field. */
  lemma ListsName(listed: seq<File>, mem: seq<Byte>, start: nat, at: seq<nat>, entries: seq<Entry>, k: nat)
    requires Archive(mem, start, at, entries) && k < |entries| == |listed| && ListedAt(listed, mem, at, entries, k)
    ensures |entries[k].name| < NAME_FIELD ==> listed[k] == File(entries[k].name, |entries[k].content|)
  {
    assert Stored(mem, at, entries, k);
    ComparesByName(mem, at[k], entries[k], entries[k].name);
  }

  datatype Output = Contents(bytes: seq<Byte>) | FileNotFound

  /** The file system: `mem` is all memory, `startAddr` is where the ramdisk begins in it. */
  class FileSystem {
    const mem: seq<Byte>
    var startAddr: nat

    constructor (mem: seq<Byte>)
      ensures this.mem == mem
    {
      this.mem, startAddr := mem, 0;
    }

    /** `fs_init`: remembers the ramdisk and lists the names and sizes of its files. */
    method Init(ramdisk: nat, ghost at: seq<nat>, ghost entries: seq<Entry>) returns (listed: seq<File>)
      requires Archive(mem, ramdisk, at, entries)
      modifies this
      ensures startAddr == ramdisk && |listed| == |entries|
      ensures forall k: nat :: k < |entries| ==> ListedAt(listed, mem, at, entries, k)
    {
      startAddr := ramdisk;
      listed := [];
      var header := startAddr;
      HeadByte(mem, ramdisk, at, entries, 0);
      while mem[header] != 0
        invariant |listed| <= |entries| && header == at[|listed|] < |mem|
                  && (mem[header] == 0 <==> |listed| == |entries|)
        invariant forall k: nat :: k < |listed| ==> ListedAt(listed, mem, at, entries, k)
        invariant startAddr == ramdisk
        decreases |entries| - |listed|
      {
        ghost var k, before := |listed|, listed;
        assert Stored(mem, at, entries, k);
        var size, span := ReadHeader(mem, header, entries[k]);
        listed := listed + [File(CString(mem, header), size)];
        header := header + span;
        HeadByte(mem, ramdisk, at, entries, k + 1);
        forall j: nat | j <= k
          ensures ListedAt(listed, mem, at, entries, j)
        {
          if j < k { assert ListedAt(before, mem, at, entries, j); }
        }
      }
    }

    /** `fs_get_file`: where the content of the first entry that compares equal begins, and how long it is. */
    method GetFile(target: seq<Byte>, ghost at: seq<nat>, ghost entries: seq<Entry>) returns (r: Option<(nat, nat)>)
      requires Archive(mem, startAddr, at, entries)
      ensures var k := FirstEqual(mem, at, target, |entries|, 0);
              r == if k == |entries| then None else Some((at[k] + 512, |entries[k].content|))
      ensures r.Some? ==> r.value.0 + r.value.1 <= |mem| && mem[r.value.0..r.value.0 + r.value.1]
                          == entries[FirstEqual(mem, at, target, |entries|, 0)].content
    {
      var header := startAddr;
      ghost var k := 0;
      HeadByte(mem, startAddr, at, entries, 0);
      while mem[header] != 0
        invariant 0 <= k <= |entries| && header == at[k] < |mem| && (mem[header] == 0 <==> k == |entries|)
        invariant forall j: nat :: j < k ==> !Equal(mem, at, target, j)
        decreases |entries| - k
      {
        assert Stored(mem, at, entries, k);
        var size, span := ReadHeader(mem, header, entries[k]);
        if CString(mem, header) == target {
          FirstEqualIs(mem, at, target, |entries|, k);
          return Some((header + 512, size));
        }
        header, k := header + span, k + 1;
        HeadByte(mem, startAddr, at, entries, k);
      }
      FirstEqualIs(mem, at, target, |entries|, k);
      return None;
    }

    /** `fs_cat`: prints the same bytes one by one. */
    method Cat(target: seq<Byte>, ghost at: seq<nat>, ghost entries: seq<Entry>) returns (out: Output)
      requires Archive(mem, startAddr, at, entries)
      ensures var k := FirstEqual(mem, at, target, |entries|, 0);
              out == if k == |entries| then FileNotFound else Contents(entries[k].content)
    {
      var found := GetFile(target, at, entries);
      if found.None? {
        return FileNotFound;
      }
      var content, size := found.value.0, found.value.1;
      var bytes: seq<Byte> := [];
      for i := 0 to size
        invariant bytes == mem[content..content + i]
      {
        bytes := bytes + [mem[content + i]];
      }
      return Contents(bytes);
    }
  }
}
