/** `kex-ld`: laying out the segments of an ELF program in a KEX file. */
module KexLinker {
  import opened Bits
  import opened Bytes
  import opened Wrappers
  import opened KexFormat

  /** The fields that `kex-ld` keeps of a PT_LOAD program header. */
  datatype Phdr = Phdr(flags: nat, vaddr: Word, memsz: Word, off: Word, filesz: Word)

  /** ELF's X=1, W=2, R=4 become R=1, W=2, X=4. */
  function KexFlags(flags: nat): nat {
    (if TestBit(flags, 2) then 1 else 0) + (if TestBit(flags, 1) then 2 else 0) + (if TestBit(flags, 0) then 4 else 0)
  }

  /** `(x + 4095) & ~4095` */
  function RoundUp(x: nat): (r: nat)
    ensures x <= r < x + 4096 && r % 4096 == 0
  {
    (x + 4095) / 4096 * 4096
  }

  function IntegrityPos(phdrs: seq<Phdr>): nat { 56 + 64 * |phdrs| }

  /** Where the data of the first segments begins, and where it ends after `n` of them. */
  function DataEnd(phdrs: seq<Phdr>, n: nat): (pos: nat)
    requires n <= |phdrs|
    ensures pos % 4096 == 0 && pos >= IntegrityPos(phdrs) + 40
  {
    if n == 0 then RoundUp(IntegrityPos(phdrs) + 40)
    else if phdrs[n - 1].filesz > 0 then RoundUp(DataEnd(phdrs, n - 1) + phdrs[n - 1].filesz)
    else DataEnd(phdrs, n - 1)
  }

  lemma {:induction false} DataEndGrows(phdrs: seq<Phdr>, i: nat, j: nat)
    requires i <= j <= |phdrs|
    ensures DataEnd(phdrs, i) <= DataEnd(phdrs, j)
    decreases j
  {
    if i < j { DataEndGrows(phdrs, i, j - 1); }
  }

  /** The ELF file holds every segment's bytes, and the KEX file's positions fit 64 bits. */
  predicate Linkable(elf: seq<Byte>, phdrs: seq<Phdr>) {
    && |phdrs| + 1 < U32
    && DataEnd(phdrs, |phdrs|) < U64
    && forall i :: 0 <= i < |phdrs| ==> phdrs[i].off + phdrs[i].filesz <= |elf|
  }

  function SegmentOf(phdrs: seq<Phdr>, i: nat): Segment
    requires i < |phdrs| && DataEnd(phdrs, |phdrs|) < U64
  {
    DataEndGrows(phdrs, i, |phdrs|);
    var p := phdrs[i];
    Segment(i, KexFlags(p.flags), p.vaddr, p.memsz, if p.filesz > 0 then DataEnd(phdrs, i) else 0, p.filesz)
  }

  /** Segment data is page-aligned, behind the command table, and the ranges follow each other without overlap. */
  lemma {:induction false} LayoutIsSound(elf: seq<Byte>, phdrs: seq<Phdr>, i: nat, j: nat)
    requires Linkable(elf, phdrs) && i < j < |phdrs|
    ensures var a, b := SegmentOf(phdrs, i), SegmentOf(phdrs, j);
            && a.fileOffset % 4096 == 0
            && (a.fileSize > 0 ==> a.fileOffset >= IntegrityPos(phdrs) + 40)
            && (a.fileSize > 0 && b.fileSize > 0 ==> a.fileOffset + a.fileSize <= b.fileOffset)
  {
    DataEndGrows(phdrs, i + 1, j);
  }

  /** What a linked file contains. */
  ghost predicate Linked(file: seq<Byte>, elf: seq<Byte>, phdrs: seq<Phdr>, entry: Word, arch: nat,
                         hash: seq<Byte> -> Digest)
    requires Linkable(elf, phdrs)
  {
    var ip := IntegrityPos(phdrs);
    && ip + 40 <= |file|
    && file[0..56] == HeaderBytes(arch, |phdrs| + 1, entry, 64 * |phdrs| + 40)
    && (forall i: nat :: i < |phdrs| ==> HasCommand(file, phdrs, i))
    && file[ip..ip + 40] == IntegrityBytes(hash(file[..ip]))
    && (forall i: nat :: i < |phdrs| ==> HasData(file, elf, phdrs, i))
  }

  ghost predicate HasCommand(file: seq<Byte>, phdrs: seq<Phdr>, i: nat)
    requires i < |phdrs| && DataEnd(phdrs, |phdrs|) < U64
  {
    56 + 64 * i + 64 <= |file| && file[56 + 64 * i..56 + 64 * i + 64] == SegmentBytes(SegmentOf(phdrs, i))
  }

  ghost predicate HasData(file: seq<Byte>, elf: seq<Byte>, phdrs: seq<Phdr>, i: nat)
    requires i < |phdrs| && Linkable(elf, phdrs)
  {
    var s, p := SegmentOf(phdrs, i), phdrs[i];
    p.filesz > 0 ==>
      && s.fileOffset + p.filesz <= |file|
      && file[s.fileOffset..s.fileOffset + p.filesz] == elf[p.off..p.off + p.filesz]
  }

  /** `write_padding` */
  method WritePadding(out: seq<Byte>, target: nat) returns (padded: seq<Byte>)
    ensures padded == if |out| < target then out + Zeros(target - |out|) else out
  {
    padded := out;
    if |out| < target {
      padded := out + Zeros(target - |out|);
    }
  }

  /** The first loop: the segment commands and the layout. */
  method PrepareSegments(elf: seq<Byte>, phdrs: seq<Phdr>) returns (segs: seq<Segment>)
    requires Linkable(elf, phdrs)
    ensures |segs| == |phdrs| && forall i :: 0 <= i < |phdrs| ==> segs[i] == SegmentOf(phdrs, i)
  {
    segs := [];
    var pos := RoundUp(56 + (64 * |phdrs| + 40));
    for i := 0 to |phdrs|
      invariant pos == DataEnd(phdrs, i)
      invariant |segs| == i && forall k :: 0 <= k < i ==> segs[k] == SegmentOf(phdrs, k)
    {
      DataEndGrows(phdrs, i, |phdrs|);
      var fileOffset := 0;
      var p := phdrs[i];
      if p.filesz > 0 {
        fileOffset := pos;
        pos := RoundUp(pos + p.filesz);
      }
      segs := segs + [Segment(i, KexFlags(p.flags), p.vaddr, p.memsz, fileOffset, p.filesz)];
    }
  }

  /** The header and the command table, with the integrity command still empty. */
  method WriteCommands(elf: seq<Byte>, phdrs: seq<Phdr>, segs: seq<Segment>, entry: Word,
                       arch: nat) returns (out: seq<Byte>)
    requires Linkable(elf, phdrs)
    requires |segs| == |phdrs| && forall i :: 0 <= i < |phdrs| ==> segs[i] == SegmentOf(phdrs, i)
    ensures |out| == IntegrityPos(phdrs) + 40
    ensures out[0..56] == HeaderBytes(arch, |phdrs| + 1, entry, 64 * |phdrs| + 40)
    ensures forall i: nat :: i < |phdrs| ==> HasCommand(out, phdrs, i)
  {
    var header := HeaderBytes(arch, |phdrs| + 1, entry, 64 * |phdrs| + 40);
    out := header;
    for i := 0 to |segs|
      invariant |out| == 56 + 64 * i && out[0..56] == header
      invariant forall k: nat :: k < i ==> HasCommand(out, phdrs, k)
    {
      out := AppendCommand(out, phdrs, header, segs[i], i);
    }
    ghost var before := out;
    out := out + IntegrityBytes(Zeros(32));
    PrefixKeeps(before, out, phdrs, |phdrs|);
    assert out[0..56] == before[0..56];
  }

  method AppendCommand(out: seq<Byte>, phdrs: seq<Phdr>, header: seq<Byte>, s: Segment, i: nat) returns (r: seq<Byte>)
    requires i < |phdrs| && DataEnd(phdrs, |phdrs|) < U64 && s == SegmentOf(phdrs, i)
    requires |out| == 56 + 64 * i && out[0..56] == header
    requires forall k: nat :: k < i ==> HasCommand(out, phdrs, k)
    ensures |r| == 56 + 64 * (i + 1) && r[0..56] == header
    ensures forall k: nat :: k < i + 1 ==> HasCommand(r, phdrs, k)
  {
    var record := SegmentBytes(s);
    r := out + record;
    PrefixKeeps(out, r, phdrs, i);
    Appended(out, record, r, i);
    assert HasCommand(r, phdrs, i);
  }

  lemma Appended(out: seq<Byte>, record: seq<Byte>, r: seq<Byte>, i: nat)
    requires |out| == 56 + 64 * i && |record| == 64 && r == out + record
    ensures r[0..56] == out[0..56] && r[56 + 64 * i..56 + 64 * i + 64] == record
  {
  }

  /** Appending keeps the commands that are there. */
  lemma {:induction false} PrefixKeeps(a: seq<Byte>, b: seq<Byte>, phdrs: seq<Phdr>, n: nat)
    requires n <= |phdrs| && DataEnd(phdrs, |phdrs|) < U64 && a <= b
    requires forall k: nat :: k < n ==> HasCommand(a, phdrs, k)
    ensures forall k: nat :: k < n ==> HasCommand(b, phdrs, k)
  {
    forall k: nat | k < n
      ensures HasCommand(b, phdrs, k)
    {
      assert HasCommand(a, phdrs, k);
      assert b[56 + 64 * k..56 + 64 * k + 64] == a[56 + 64 * k..56 + 64 * k + 64];
    }
  }

  /** The last loop: each segment's bytes at its offset. The padding never has to go back. */
  method WriteData(elf: seq<Byte>, phdrs: seq<Phdr>, segs: seq<Segment>, head: seq<Byte>) returns (out: seq<Byte>)
    requires Linkable(elf, phdrs) && |head| == IntegrityPos(phdrs) + 40
    requires |segs| == |phdrs| && forall i :: 0 <= i < |phdrs| ==> segs[i] == SegmentOf(phdrs, i)
    ensures head <= out
    ensures forall i: nat :: i < |phdrs| ==> HasData(out, elf, phdrs, i)
  {
    out := head;
    for i := 0 to |phdrs|
      invariant head <= out && |out| <= DataEnd(phdrs, i)
      invariant forall k: nat :: k < i ==> HasData(out, elf, phdrs, k)
    {
      if segs[i].fileSize > 0 {
        out := AppendData(elf, phdrs, out, i);
      }
    }
  }

  method AppendData(elf: seq<Byte>, phdrs: seq<Phdr>, out: seq<Byte>, i: nat) returns (r: seq<Byte>)
    requires Linkable(elf, phdrs) && i < |phdrs| && phdrs[i].filesz > 0 && |out| <= DataEnd(phdrs, i)
    requires forall k: nat :: k < i ==> HasData(out, elf, phdrs, k)
    ensures out <= r && |r| <= DataEnd(phdrs, i + 1)
    ensures forall k: nat :: k < i + 1 ==> HasData(r, elf, phdrs, k)
  {
    var p := phdrs[i];
    var fileOffset := DataEnd(phdrs, i);
    var padded := WritePadding(out, fileOffset);
    assert |padded| == fileOffset;
    var data := elf[p.off..p.off + p.filesz];
    r := padded + data;
    forall k: nat | k < i + 1
      ensures HasData(r, elf, phdrs, k)
    {
      var s := SegmentOf(phdrs, k);
      if k == i {
        assert r[fileOffset..fileOffset + p.filesz] == data;
      } else if phdrs[k].filesz > 0 {
        assert HasData(out, elf, phdrs, k);
        assert r[s.fileOffset..s.fileOffset + phdrs[k].filesz] == out[s.fileOffset..s.fileOffset + phdrs[k].filesz];
      }
    }
  }

  /** `main` from `elf_segments` on, up to the file it leaves behind. */
  method Link(elf: seq<Byte>, phdrs: seq<Phdr>, entry: Word, arch: nat,
              hash: seq<Byte> -> Digest) returns (file: seq<Byte>)
    requires Linkable(elf, phdrs)
    ensures Linked(file, elf, phdrs, entry, arch, hash)
  {
    var segs := PrepareSegments(elf, phdrs);
    var head := WriteCommands(elf, phdrs, segs, entry, arch);
    var full := WriteData(elf, phdrs, segs, head);
    var ip := 56 + 64 * |phdrs|;
    file := Patch(elf, phdrs, head, full, ip, hash(full[..ip]));
    assert file[..ip] == full[..ip];
  }

  /** Overwriting the integrity command changes nothing else: not the hashed prefix, no command, no segment data. */
  method Patch(ghost elf: seq<Byte>, ghost phdrs: seq<Phdr>, ghost head: seq<Byte>, full: seq<Byte>, ip: nat,
               hash: Digest)
    returns (file: seq<Byte>)
    requires Linkable(elf, phdrs) && ip == IntegrityPos(phdrs) && |head| == ip + 40 && head <= full
    requires forall i: nat :: i < |phdrs| ==> HasCommand(head, phdrs, i) && HasData(full, elf, phdrs, i)
    ensures |file| == |full| && file[..ip] == full[..ip] && file[0..56] == head[0..56]
    ensures file[ip..ip + 40] == IntegrityBytes(hash)
    ensures forall i: nat :: i < |phdrs| ==> HasCommand(file, phdrs, i) && HasData(file, elf, phdrs, i)
  {
    var command := IntegrityBytes(hash);
    file := full[..ip] + command + full[ip + 40..];
    Patched(full, command, file, ip);
    assert file[0..56] == full[..ip][0..56] == head[0..56];
    assert forall i: nat :: i < |phdrs| ==> HasCommand(head[..ip], phdrs, i) by {
      forall i: nat | i < |phdrs|
        ensures HasCommand(head[..ip], phdrs, i)
      {
        assert HasCommand(head, phdrs, i);
        SliceOfSlice(head, 0, ip, 56 + 64 * i, 56 + 64 * i + 64);
      }
    }
    assert head[..ip] == full[..ip];
    PrefixKeeps(head[..ip], file, phdrs, |phdrs|);
    PatchKeepsData(elf, phdrs, full, file, ip);
  }

  /** Overwriting 40 bytes in place. */
  lemma Patched(full: seq<Byte>, command: seq<Byte>, file: seq<Byte>, ip: nat)
    requires ip + 40 <= |full| && |command| == 40 && file == full[..ip] + command + full[ip + 40..]
    ensures |file| == |full| && file[..ip] == full[..ip] && file[ip..ip + 40] == command && full[..ip] <= file
    ensures forall k :: ip + 40 <= k < |full| ==> file[k] == full[k]
  {
  }

  lemma {:induction false} PatchKeepsData(elf: seq<Byte>, phdrs: seq<Phdr>, full: seq<Byte>, file: seq<Byte>, ip: nat)
    requires Linkable(elf, phdrs) && ip == IntegrityPos(phdrs)
    requires |file| == |full| && forall k :: ip + 40 <= k < |full| ==> file[k] == full[k]
    requires forall i: nat :: i < |phdrs| ==> HasData(full, elf, phdrs, i)
    ensures forall i: nat :: i < |phdrs| ==> HasData(file, elf, phdrs, i)
  {
    forall i: nat | i < |phdrs|
      ensures HasData(file, elf, phdrs, i)
    {
      assert HasData(full, elf, phdrs, i);
    }
  }

  // Reading the file back.

  function LoadOf(phdrs: seq<Phdr>, i: nat): Load
    requires i < |phdrs| && DataEnd(phdrs, |phdrs|) < U64
  {
    var s := SegmentOf(phdrs, i);
    Load(s.rva, s.memSize, s.fileOffset, s.fileSize)
  }

  function LoadsFrom(phdrs: seq<Phdr>, i: nat): (r: seq<Load>)
    requires i <= |phdrs| && DataEnd(phdrs, |phdrs|) < U64
    ensures |r| == |phdrs| - i && forall k :: i <= k < |phdrs| ==> r[k - i] == LoadOf(phdrs, k)
    decreases |phdrs| - i
  {
    if i == |phdrs| then [] else [LoadOf(phdrs, i)] + LoadsFrom(phdrs, i + 1)
  }

  lemma {:induction false} CommandMeans(file: seq<Byte>, phdrs: seq<Phdr>, i: nat)
    requires DataEnd(phdrs, |phdrs|) < U64 && i < |phdrs| && HasCommand(file, phdrs, i)
    ensures SegmentAt(file, 56 + 64 * i, LoadOf(phdrs, i))
  {
    SegmentFields(SegmentOf(phdrs, i), file, 56 + 64 * i);
  }

  /** Command `k` of the table describes header `k`. */
  predicate TableAt(file: seq<Byte>, phdrs: seq<Phdr>, k: nat)
    requires DataEnd(phdrs, |phdrs|) < U64 && k < |phdrs|
  {
    SegmentAt(file, 56 + 64 * k, LoadOf(phdrs, k))
  }

  lemma {:induction false} TableLoads(file: seq<Byte>, phdrs: seq<Phdr>, i: nat, off: nat, n: nat)
    requires DataEnd(phdrs, |phdrs|) < U64 && i <= |phdrs| && off == 56 + 64 * i && n == |phdrs| - i
    requires forall k: nat :: k < |phdrs| ==> TableAt(file, phdrs, k)
    requires Loads(file, IntegrityPos(phdrs), 1) == Some([])
    ensures Loads(file, off, n + 1) == Some(LoadsFrom(phdrs, i))
    decreases n
  {
    if i < |phdrs| {
      TableLoads(file, phdrs, i + 1, off + 64, n - 1);
      assert TableAt(file, phdrs, i);
      LoadsSegment(file, off, off + 64, n, LoadOf(phdrs, i), LoadsFrom(phdrs, i + 1));
    }
  }

  /** Walking the commands of a linked file by their sizes meets exactly the linked segments. */
  lemma {:induction false} LinkedLoads(file: seq<Byte>, elf: seq<Byte>, phdrs: seq<Phdr>, entry: Word, arch: nat,
                                       hash: seq<Byte> -> Digest)
    requires Linkable(elf, phdrs) && Linked(file, elf, phdrs, entry, arch, hash)
    ensures Loads(file, 56, |phdrs| + 1) == Some(LoadsFrom(phdrs, 0))
  {
    LoadsIntegrity(hash(file[..IntegrityPos(phdrs)]), file, IntegrityPos(phdrs));
    forall k: nat | k < |phdrs|
      ensures TableAt(file, phdrs, k)
    {
      CommandMeans(file, phdrs, k);
    }
    TableLoads(file, phdrs, 0, 56, |phdrs|);
  }

  // Field by field.

  /** The header of a linked file, as any reader of the format finds it. */
  lemma {:induction false} LinkedHeader(file: seq<Byte>, elf: seq<Byte>, phdrs: seq<Phdr>, entry: Word, arch: nat,
                                        hash: seq<Byte> -> Digest)
    requires Linkable(elf, phdrs) && Linked(file, elf, phdrs, entry, arch, hash)
    ensures file[0..4] == [75, 69, 88, 0] && file[4..6] == [1, 0] && file[40..56] == Zeros(16)
    ensures arch < 0x1_0000 ==> Field(file, 6, 2) == arch
    ensures Field(file, 8, 4) == |phdrs| + 1 && Field(file, 12, 4) == 4096 && Field(file, 16, 8) == entry
    ensures Field(file, 24, 8) == 56 && Field(file, 32, 8) == 64 * |phdrs| + 40
  {
    HeaderFields(arch, |phdrs| + 1, entry, 64 * |phdrs| + 40, file);
  }

  /** Readable is 4 in ELF and 1 in KEX, executable the other way round, writable 2 in both. */
  lemma PermissionsSwap(flags: nat)
    ensures KexFlags(flags)
            == (if flags / 4 % 2 == 1 then 1 else 0) + (if flags / 2 % 2 == 1 then 2 else 0)
               + (if flags % 2 == 1 then 4 else 0)
  {
    assert TestBit(flags, 2) <==> TestBit(flags / 2, 1);
    assert TestBit(flags / 2, 1) <==> TestBit(flags / 2 / 2, 0);
    assert flags / 2 / 2 == flags / 4;
  }

  /** Command `i` of a linked file, field by field: its permissions, address and sizes. */
  lemma {:induction false} LinkedCommand(file: seq<Byte>, elf: seq<Byte>, phdrs: seq<Phdr>, entry: Word, arch: nat,
                                         hash: seq<Byte> -> Digest, i: nat, at: nat)
    requires Linkable(elf, phdrs) && Linked(file, elf, phdrs, entry, arch, hash) && i < |phdrs| && at == 56 + 64 * i
    ensures at + 64 <= |file|
    ensures Field(file, at, 4) == 1 && Field(file, at + 4, 4) == 64 && Field(file, at + 8, 4) == i
    ensures Field(file, at + 12, 4)
            == (if phdrs[i].flags / 4 % 2 == 1 then 1 else 0) + (if phdrs[i].flags / 2 % 2 == 1 then 2 else 0)
               + (if phdrs[i].flags % 2 == 1 then 4 else 0)
    ensures Field(file, at + 16, 8) == phdrs[i].vaddr && Field(file, at + 24, 8) == phdrs[i].memsz
    ensures Field(file, at + 40, 8) == phdrs[i].filesz && Field(file, at + 48, 8) == 4096
    ensures file[at + 56..at + 64] == Zeros(8)
  {
    assert HasCommand(file, phdrs, i);
    CommandMeans(file, phdrs, i);
    CommandMeansToo(file, phdrs, i);
    PermissionsSwap(phdrs[i].flags);
  }

  lemma {:induction false} CommandMeansToo(file: seq<Byte>, phdrs: seq<Phdr>, i: nat)
    requires DataEnd(phdrs, |phdrs|) < U64 && i < |phdrs| < U32 && HasCommand(file, phdrs, i)
    ensures var at := 56 + 64 * i;
            && Field(file, at + 8, 4) == i && Field(file, at + 12, 4) == KexFlags(phdrs[i].flags)
            && Field(file, at + 48, 8) == 4096 && file[at + 56..at + 64] == Zeros(8)
  {
    OtherSegmentFields(SegmentOf(phdrs, i), file, 56 + 64 * i);
  }

  /** Where its data lies, page-aligned, and that it is the ELF segment's. */
  lemma {:induction false} LinkedData(file: seq<Byte>, elf: seq<Byte>, phdrs: seq<Phdr>, entry: Word, arch: nat,
                                      hash: seq<Byte> -> Digest, i: nat)
    requires Linkable(elf, phdrs) && Linked(file, elf, phdrs, entry, arch, hash) && i < |phdrs|
    ensures 56 + 64 * i + 64 <= |file|
    ensures var o, p := Field(file, 56 + 64 * i + 32, 8), phdrs[i];
            if p.filesz == 0 then o == 0
            else o % 4096 == 0 && o + p.filesz <= |file| && file[o..o + p.filesz] == elf[p.off..p.off + p.filesz]
  {
    assert HasCommand(file, phdrs, i) && HasData(file, elf, phdrs, i);
    CommandMeans(file, phdrs, i);
  }

  /** The last command of a linked file holds the hash of everything before it. */
  lemma {:induction false} LinkedHash(file: seq<Byte>, elf: seq<Byte>, phdrs: seq<Phdr>, entry: Word, arch: nat,
                                      hash: seq<Byte> -> Digest, at: nat)
    requires Linkable(elf, phdrs) && Linked(file, elf, phdrs, entry, arch, hash) && at == 56 + 64 * |phdrs|
    ensures at + 40 <= |file| && Field(file, at, 4) == 6 && Field(file, at + 4, 4) == 40
    ensures file[at + 8..at + 40] == hash(file[..at])
  {
    IntegrityFields(hash(file[..at]), file, at);
  }
}
