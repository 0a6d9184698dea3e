/** The bytes of a KEX file: packed little-endian records. */
module KexFormat {
  import opened Bits
  import opened Bytes
  import opened Wrappers

  const HEADER_SIZE: nat := 56
  const SEGMENT_SIZE: nat := 64
  const INTEGRITY_SIZE: nat := 40

  const CMD_SEGMENT: nat := 1
  const CMD_INTEGRITY: nat := 6

  const MAGIC: seq<Byte> := [75, 69, 88, 0]

  /** `kex_segment_cmd` without its fixed fields. */
  datatype Segment = Segment(index: nat, flags: nat, rva: Word, memSize: Word, fileOffset: Word, fileSize: Word)

  function HeaderBytes(arch: nat, count: nat, entry: Word, cmdSize: Word): (r: seq<Byte>)
    ensures |r| == HEADER_SIZE
  {
    MAGIC + [1, 0] + Le(arch, 2) + Le(count, 4) + Le(4096, 4) + Le(entry, 8) + Le(HEADER_SIZE, 8) + Le(cmdSize, 8)
      + Zeros(16)
  }

  function SegmentBytes(s: Segment): (r: seq<Byte>)
    ensures |r| == SEGMENT_SIZE
  {
    Le(CMD_SEGMENT, 4) + Le(SEGMENT_SIZE, 4) + Le(s.index, 4) + Le(s.flags, 4) + Le(s.rva, 8) + Le(s.memSize, 8)
    + Le(s.fileOffset, 8) + Le(s.fileSize, 8) + Le(4096, 8) + Zeros(8)
  }

  /** A SHA-256 digest. */
  type Digest = d: seq<Byte> | |d| == 32 witness Zeros(32)

  function IntegrityBytes(hash: Digest): (r: seq<Byte>)
    ensures |r| == INTEGRITY_SIZE
  {
    Le(CMD_INTEGRITY, 4) + Le(INTEGRITY_SIZE, 4) + hash
  }

  /** What the loader uses of a segment command. */
  datatype Load = Load(rva: nat, memSize: nat, fileOffset: nat, fileSize: nat)

  function LoadAt(file: seq<Byte>, off: nat): Load
    requires off + SEGMENT_SIZE <= |file|
  {
    Load(Field(file, off + 16, 8), Field(file, off + 24, 8), Field(file, off + 32, 8), Field(file, off + 40, 8))
  }

  /** The segments met by walking `n` commands from `off` on, when the file holds them all. */
  function Loads(file: seq<Byte>, off: nat, n: nat): Option<seq<Load>>
    decreases n
  {
    if n == 0 then Some([])
    else if off + 8 > |file| then None
    else
      var rest := Loads(file, off + Field(file, off + 4, 4), n - 1);
      if rest.None? then None
      else if Field(file, off, 4) != CMD_SEGMENT then rest
      else if off + SEGMENT_SIZE > |file| then None
      else Some([LoadAt(file, off)] + rest.value)
  }

  /** Where the walk is after `k` commands, as long as it stays in the file: each command gives its own size. */
  function OffsetAfter(file: seq<Byte>, off: nat, k: nat): Option<nat>
    decreases k
  {
    if k == 0 then Some(off)
    else if off + 8 > |file| then None
    else OffsetAfter(file, off + Field(file, off + 4, 4), k - 1)
  }

  /** Command `k` has type 1 and the fields of `l`. */
  predicate SegmentMet(file: seq<Byte>, off: nat, k: nat, l: Load) {
    var at := OffsetAfter(file, off, k);
    && at.Some? && at.value + 64 <= |file| && Field(file, at.value, 4) == 1
    && l == Load(Field(file, at.value + 16, 8), Field(file, at.value + 24, 8), Field(file, at.value + 32, 8),
                 Field(file, at.value + 40, 8))
  }

  predicate TypeOne(file: seq<Byte>, off: nat, k: nat) {
    var at := OffsetAfter(file, off, k);
    at.Some? && at.value + 8 <= |file| && Field(file, at.value, 4) == 1
  }

  ghost predicate IsMet(file: seq<Byte>, off: nat, k: nat, loads: seq<Load>) {
    exists j :: 0 <= j < |loads| && SegmentMet(file, off, k, loads[j])
  }

  ghost predicate ComesFrom(file: seq<Byte>, off: nat, n: nat, l: Load) {
    exists k: nat :: k < n && SegmentMet(file, off, k, l)
  }

  /** What one command adds to the walk. */
  lemma FirstMet(file: seq<Byte>, off: nat, n: nat, loads: seq<Load>) returns (next: nat, rest: seq<Load>)
    requires n > 0 && Loads(file, off, n) == Some(loads)
    ensures off + 8 <= |file| && next == off + Field(file, off + 4, 4) && Loads(file, next, n - 1) == Some(rest)
    ensures if Field(file, off, 4) == 1 then loads != [] && rest == loads[1..] && SegmentMet(file, off, 0, loads[0])
            else rest == loads
  {
    next := off + Field(file, off + 4, 4);
    rest := if Field(file, off, 4) == CMD_SEGMENT then loads[1..] else loads;
  }

  lemma LaterMet(file: seq<Byte>, off: nat, next: nat, k: nat, l: Load)
    requires off + 8 <= |file| && next == off + Field(file, off + 4, 4)
    ensures OffsetAfter(file, off, k + 1) == OffsetAfter(file, next, k)
    ensures SegmentMet(file, off, k + 1, l) <==> SegmentMet(file, next, k, l)
    ensures TypeOne(file, off, k + 1) <==> TypeOne(file, next, k)
  {
  }

  /** Every command of type 1 among the first `n` is met, whatever others stand between. */
  lemma {:induction false} MeetsAll(file: seq<Byte>, off: nat, n: nat, loads: seq<Load>, k: nat)
    requires Loads(file, off, n) == Some(loads) && k < n && TypeOne(file, off, k)
    ensures IsMet(file, off, k, loads)
    decreases n
  {
    var next, rest := FirstMet(file, off, n, loads);
    if k > 0 {
      LaterMet(file, off, next, k - 1, Load(0, 0, 0, 0));
      MeetsAll(file, next, n - 1, rest, k - 1);
      var j :| 0 <= j < |rest| && SegmentMet(file, next, k - 1, rest[j]);
      LaterMet(file, off, next, k - 1, rest[j]);
      assert loads[if Field(file, off, 4) == 1 then j + 1 else j] == rest[j];
    }
  }

  /** And nothing else is. */
  lemma {:induction false} MeetsOnly(file: seq<Byte>, off: nat, n: nat, loads: seq<Load>, j: nat)
    requires Loads(file, off, n) == Some(loads) && j < |loads|
    ensures ComesFrom(file, off, n, loads[j])
    decreases n
  {
    var next, rest := FirstMet(file, off, n, loads);
    var segment := Field(file, off, 4) == 1;
    if !(segment && j == 0) {
      var i := if segment then j - 1 else j;
      MeetsOnly(file, next, n - 1, rest, i);
      var k: nat :| k < n - 1 && SegmentMet(file, next, k, rest[i]);
      LaterMet(file, off, next, k, loads[j]);
    }
  }

  /** A field of a record of `n` bytes that lies at `off`. */
  lemma FieldOfRecord(file: seq<Byte>, off: nat, n: nat, i: nat, w: nat, x: nat)
    requires off + n <= |file| && i + w <= n && file[off..off + n][i..i + w] == Le(x, w)
    requires (w == 2 && x < 0x1_0000) || (w == 4 && x < U32) || (w == 8 && x < U64)
    ensures Field(file, off + i, w) == x
  {
    FitsWidth(w, x);
    SliceOfSlice(file, off, n, i, i + w);
    FieldIs(file, off + i, w, x);
  }

  lemma FieldIs(file: seq<Byte>, at: nat, w: nat, x: nat)
    requires at + w <= |file| && file[at..at + w] == Le(x, w) && x < Pow2(8 * w)
    ensures Field(file, at, w) == x
  {
    LeRoundTrip(x, w);
  }

  lemma FitsWidth(w: nat, x: nat)
    requires (w == 2 && x < 0x1_0000) || (w == 4 && x < U32) || (w == 8 && x < U64)
    ensures x < Pow2(8 * w)
  {
    FieldWidths();
  }

  lemma HeaderPieces(arch: nat, count: nat, entry: Word, cmdSize: Word)
    ensures var h := HeaderBytes(arch, count, entry, cmdSize);
            && h[0..4] == MAGIC && h[4..6] == [1, 0] && h[6..8] == Le(arch, 2) && h[8..12] == Le(count, 4)
            && h[12..16] == Le(4096, 4) && h[16..24] == Le(entry, 8) && h[24..32] == Le(HEADER_SIZE, 8)
            && h[32..40] == Le(cmdSize, 8) && h[40..56] == Zeros(16)
  {
    var h := HeaderBytes(arch, count, entry, cmdSize);
    var b1 := MAGIC + [1, 0];
    var b2 := b1 + Le(arch, 2);
    var b3 := b2 + Le(count, 4);
    var b4 := b3 + Le(4096, 4);
    var b5 := b4 + Le(entry, 8);
    var b6 := b5 + Le(HEADER_SIZE, 8);
    var b7 := b6 + Le(cmdSize, 8);
    assert h == b7 + Zeros(16) == h[..56];
    Peel(b7, Zeros(16), h);
    Peel(b6, Le(cmdSize, 8), h);
    Peel(b5, Le(HEADER_SIZE, 8), h);
    Peel(b4, Le(entry, 8), h);
    Peel(b3, Le(4096, 4), h);
    Peel(b2, Le(count, 4), h);
    Peel(b1, Le(arch, 2), h);
    Peel(MAGIC, [1, 0], h);
  }

  /** A field of a header that starts the file. */
  lemma HeaderField(h: seq<Byte>, i: nat, w: nat, x: nat, file: seq<Byte>)
    requires |h| == 56 <= |file| && file[0..56] == h && i + w <= 56 && h[i..i + w] == Le(x, w)
    requires (w == 2 && x < 0x1_0000) || (w == 4 && x < U32) || (w == 8 && x < U64)
    ensures Field(file, i, w) == x
  {
    FieldOfRecord(file, 0, 56, i, w, x);
  }

  /** Reading back the fields of a header. */
  lemma HeaderFields(arch: nat, count: nat, entry: Word, cmdSize: Word, file: seq<Byte>)
    requires count < U32 && HEADER_SIZE <= |file| && file[0..56] == HeaderBytes(arch, count, entry, cmdSize)
    ensures file[0..4] == [75, 69, 88, 0] && file[4..6] == [1, 0] && file[40..56] == Zeros(16)
    ensures arch < 0x1_0000 ==> Field(file, 6, 2) == arch
    ensures Field(file, 8, 4) == count && Field(file, 12, 4) == 4096
    ensures Field(file, 16, 8) == entry && Field(file, 24, 8) == 56 && Field(file, 32, 8) == cmdSize
  {
    HeaderPieces(arch, count, entry, cmdSize);
    var h := file[0..56];
    if arch < 0x1_0000 { HeaderField(h, 6, 2, arch, file); }
    HeaderField(h, 8, 4, count, file);
    HeaderField(h, 12, 4, 4096, file);
    HeaderField(h, 16, 8, entry, file);
    HeaderField(h, 24, 8, HEADER_SIZE, file);
    HeaderField(h, 32, 8, cmdSize, file);
    SliceOfSlice(file, 0, 56, 0, 4);
    SliceOfSlice(file, 0, 56, 4, 6);
    SliceOfSlice(file, 0, 56, 40, 56);
  }

  lemma SegmentPieces(s: Segment)
    ensures var b := SegmentBytes(s);
            && b[0..4] == Le(CMD_SEGMENT, 4) && b[4..8] == Le(SEGMENT_SIZE, 4)
            && b[8..12] == Le(s.index, 4) && b[12..16] == Le(s.flags, 4)
            && b[16..24] == Le(s.rva, 8) && b[24..32] == Le(s.memSize, 8)
            && b[32..40] == Le(s.fileOffset, 8) && b[40..48] == Le(s.fileSize, 8)
            && b[48..56] == Le(4096, 8) && b[56..64] == Zeros(8)
  {
    var b := SegmentBytes(s);
    var b1 := Le(CMD_SEGMENT, 4);
    var b2 := b1 + Le(SEGMENT_SIZE, 4);
    var b3 := b2 + Le(s.index, 4);
    var b4 := b3 + Le(s.flags, 4);
    var b5 := b4 + Le(s.rva, 8);
    var b6 := b5 + Le(s.memSize, 8);
    var b7 := b6 + Le(s.fileOffset, 8);
    var b8 := b7 + Le(s.fileSize, 8);
    var b9 := b8 + Le(4096, 8);
    assert b == b9 + Zeros(8) == b[..64];
    Peel(b9, Zeros(8), b);
    Peel(b8, Le(4096, 8), b);
    Peel(b7, Le(s.fileSize, 8), b);
    Peel(b6, Le(s.fileOffset, 8), b);
    Peel(b5, Le(s.memSize, 8), b);
    Peel(b4, Le(s.rva, 8), b);
    Peel(b3, Le(s.flags, 4), b);
    Peel(b2, Le(s.index, 4), b);
    Peel(b1, Le(SEGMENT_SIZE, 4), b);
  }

  /** Reading back the fields of a segment command. */
  lemma SegmentFields(s: Segment, file: seq<Byte>, off: nat)
    requires off + SEGMENT_SIZE <= |file| && file[off..off + SEGMENT_SIZE] == SegmentBytes(s)
    ensures Field(file, off, 4) == CMD_SEGMENT && Field(file, off + 4, 4) == SEGMENT_SIZE
    ensures LoadAt(file, off) == Load(s.rva, s.memSize, s.fileOffset, s.fileSize)
  {
    SegmentPieces(s);
    FieldOfRecord(file, off, 64, 0, 4, CMD_SEGMENT);
    FieldOfRecord(file, off, 64, 4, 4, SEGMENT_SIZE);
    FieldOfRecord(file, off, 64, 16, 8, s.rva);
    FieldOfRecord(file, off, 64, 24, 8, s.memSize);
    FieldOfRecord(file, off, 64, 32, 8, s.fileOffset);
    FieldOfRecord(file, off, 64, 40, 8, s.fileSize);
  }

  /** Reading back the fields that the loader does not use. */
  lemma OtherSegmentFields(s: Segment, file: seq<Byte>, off: nat)
    requires off + SEGMENT_SIZE <= |file| && file[off..off + SEGMENT_SIZE] == SegmentBytes(s)
    requires s.index < U32 && s.flags < U32
    ensures Field(file, off + 8, 4) == s.index && Field(file, off + 12, 4) == s.flags
    ensures Field(file, off + 48, 8) == 4096 && file[off + 56..off + 64] == Zeros(8)
  {
    SegmentPieces(s);
    FieldOfRecord(file, off, 64, 8, 4, s.index);
    FieldOfRecord(file, off, 64, 12, 4, s.flags);
    FieldOfRecord(file, off, 64, 48, 8, 4096);
    SliceOfSlice(file, off, 64, 56, 64);
  }

  /** Reading back the integrity command. */
  lemma IntegrityFields(hash: Digest, file: seq<Byte>, off: nat)
    requires off + INTEGRITY_SIZE <= |file| && file[off..off + INTEGRITY_SIZE] == IntegrityBytes(hash)
    ensures Field(file, off, 4) == 6 && Field(file, off + 4, 4) == 40 && file[off + 8..off + 40] == hash
  {
    var b := IntegrityBytes(hash);
    var b1 := Le(CMD_INTEGRITY, 4);
    var b2 := b1 + Le(INTEGRITY_SIZE, 4);
    assert b == b2 + hash == b[..40];
    Peel(b2, hash, b);
    Peel(b1, Le(INTEGRITY_SIZE, 4), b);
    FieldOfRecord(file, off, 40, 0, 4, CMD_INTEGRITY);
    FieldOfRecord(file, off, 40, 4, 4, INTEGRITY_SIZE);
    SliceOfSlice(file, off, 40, 8, 40);
  }

  /** A segment command with this meaning lies at `off`. */
  predicate SegmentAt(file: seq<Byte>, off: nat, load: Load) {
    && off + SEGMENT_SIZE <= |file|
    && Field(file, off, 4) == CMD_SEGMENT && Field(file, off + 4, 4) == SEGMENT_SIZE
    && LoadAt(file, off) == load
  }

  /** The walk meets a segment command and goes on behind it. */
  lemma LoadsSegment(file: seq<Byte>, off: nat, next: nat, n: nat, load: Load, rest: seq<Load>)
    requires SegmentAt(file, off, load) && next == off + 64 && Loads(file, next, n) == Some(rest)
    ensures Loads(file, off, n + 1) == Some([load] + rest)
  {
  }

  /** The walk ends with the integrity command. */
  lemma LoadsIntegrity(hash: Digest, file: seq<Byte>, off: nat)
    requires off + 40 <= |file| && file[off..off + 40] == IntegrityBytes(hash)
    ensures Loads(file, off, 1) == Some([])
  {
    IntegrityFields(hash, file, off);
    assert Loads(file, off + 40, 0) == Some([]);
  }
}
