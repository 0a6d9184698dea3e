/** The `.bad` video format: a header, then the runs of equal pixels of all frames in one stream. */
module VideoFormat {
  import opened Bits
  import opened Bytes

  const VIDEO_MAGIC: seq<Byte> := [66, 65, 68, 0]
  const VIDEO_HEADER: nat := 12

  function Repeat(c: bool, n: nat): (r: seq<bool>)
    ensures |r| == n && forall i :: 0 <= i < n ==> r[i] == c
  {
    seq(n, _ => c)
  }

  /** A run of `n` pixels: the colour in the top bit, the length in the seven others. */
  function RunByte(c: bool, n: nat): Byte
    requires n < 128
  {
    (if c then 128 else 0) + n
  }

  function RunColor(b: Byte): bool { b >= 128 }

  function RunLength(b: Byte): nat { b % 128 }

  /** How the encoder writes a run byte. */
  lemma RunByteBits(c: nat, n: nat)
    requires c < 2 && n < 128
    ensures BitOr(Shl(c, 7), n) == RunByte(c == 1, n)
  {
    Powers();
    OrShl(c, n, 7);
    ShlIsTimes(c, 7);
  }

  /** How the player takes one apart. */
  lemma RunByteParts(b: Byte)
    ensures Shr(b, 7) == (if RunColor(b) then 1 else 0) && BitAnd(b, 0x7F) == RunLength(b)
  {
    Powers();
    ShrIsDivide(b, 7);
    OnesIsPow2(7);
    AndOnes(b, 7);
  }

  /** The pixels that a stream of run bytes stands for. */
  function Decode(bytes: seq<Byte>): seq<bool> {
    if bytes == [] then [] else Repeat(RunColor(bytes[0]), RunLength(bytes[0])) + Decode(bytes[1..])
  }

  /** The length of the run that `px` starts with. */
  function Lead(px: seq<bool>): (n: nat)
    requires px != []
    ensures 0 < n <= |px| && (forall i :: 0 <= i < n ==> px[i] == px[0]) && (n < |px| ==> px[n] != px[0])
  {
    if |px| == 1 || px[1] != px[0] then 1 else 1 + Lead(px[1..])
  }

  function Min(a: nat, b: nat): nat { if a <= b then a else b }

  /** Greedy runs of at most 127 pixels. */
  function Encode(px: seq<bool>): (r: seq<Byte>)
    ensures |r| <= |px|
  {
    if px == [] then []
    else
      var n := Min(Lead(px), 127);
      [RunByte(px[0], n)] + Encode(px[n..])
  }

  /** A prefix of equal pixels is no longer than the run. */
  lemma LeadLongest(px: seq<bool>, n: nat)
    requires 0 < n <= |px| && forall i :: 0 <= i < n ==> px[i] == px[0]
    ensures n <= Lead(px)
  {
  }

  lemma {:induction false} LeadAfter(px: seq<bool>, k: nat)
    requires px != [] && k < Lead(px)
    ensures px[k] == px[0] && Lead(px[k..]) == Lead(px) - k
    decreases k
  {
  }

  /** Splitting a run off. */
  lemma RunThenRest(px: seq<bool>, n: nat)
    requires 0 < n <= |px| && forall i :: 0 <= i < n ==> px[i] == px[0]
    ensures px == Repeat(px[0], n) + px[n..]
  {
  }

  lemma DecodeRun(c: bool, n: nat, rest: seq<Byte>)
    requires n < 128
    ensures Decode([RunByte(c, n)] + rest) == Repeat(c, n) + Decode(rest)
  {
  }

  /** Decoding what was encoded gives back the pixels. */
  lemma {:induction false} DecodeEncode(px: seq<bool>)
    ensures Decode(Encode(px)) == px
  {
    if px != [] {
      var n := Min(Lead(px), 127);
      DecodeEncode(px[n..]);
      DecodeRun(px[0], n, Encode(px[n..]));
      RunThenRest(px, n);
    }
  }

  /** No run byte that the encoder writes is empty. */
  lemma {:induction false} RunsNonempty(px: seq<bool>)
    ensures forall i :: 0 <= i < |Encode(px)| ==> RunLength(Encode(px)[i]) > 0
  {
    if px != [] {
      var n := Min(Lead(px), 127);
      RunsNonempty(px[n..]);
    }
  }

  /** The bytes that the maximal runs need: each one byte for every 127 pixels begun. */
  function RunCost(px: seq<bool>): nat {
    if px == [] then 0 else (Lead(px) + 126) / 127 + RunCost(px[Lead(px)..])
  }

  /** The length of the output, run by run. */
  lemma {:induction false} EncodedLength(px: seq<bool>)
    ensures |Encode(px)| == RunCost(px)
    decreases |px|
  {
    if px != [] {
      var n := Lead(px);
      if n <= 127 {
        EncodedLength(px[n..]);
      } else {
        var tail := px[127..];
        LeadAfter(px, 127);
        EncodedLength(tail);
        assert tail[n - 127..] == px[n..];
      }
    }
  }

  /** Dropping the first pixel never makes the encoding longer. */
  lemma {:induction false} TailNoLonger(px: seq<bool>)
    requires px != []
    ensures |Encode(px[1..])| <= |Encode(px)|
    decreases |px|
  {
    var n := Min(Lead(px), 127);
    if Lead(px) > 1 {
      LeadAfter(px, 1);
      var m := Min(Lead(px) - 1, 127);
      assert px[1..][m..] == px[1 + m..];
      if m == n {
        assert px[n..][1..] == px[1 + m..];
        TailNoLonger(px[n..]);
      }
    }
  }

  lemma {:induction false} SuffixNoLonger(px: seq<bool>, k: nat)
    requires k <= |px|
    ensures |Encode(px[k..])| <= |Encode(px)|
    decreases k
  {
    if k > 0 {
      TailNoLonger(px);
      SuffixNoLonger(px[1..], k - 1);
      assert px[1..][k - 1..] == px[k..];
    } else {
      assert px[0..] == px;
    }
  }

  /** No stream of run bytes for the same pixels is shorter. */
  lemma {:induction false} EncodeIsShortest(bytes: seq<Byte>)
    ensures |Encode(Decode(bytes))| <= |bytes|
  {
    if bytes != [] {
      var px, l := Decode(bytes), RunLength(bytes[0]);
      var rest := Decode(bytes[1..]);
      EncodeIsShortest(bytes[1..]);
      assert px[l..] == rest;
      if px != [] {
        var n := Min(Lead(px), 127);
        if l > 0 {
          assert forall i :: 0 <= i < l ==> px[i] == px[0];
          LeadLongest(px, l);
        }
        assert px[n..] == px[l..][n - l..];
        SuffixNoLonger(px[l..], n - l);
      }
    }
  }

  // The header.

  function VideoHeader(w: nat, h: nat, frames: nat): (r: seq<Byte>)
    ensures |r| == VIDEO_HEADER
  {
    VIDEO_MAGIC + Le(w, 2) + Le(h, 2) + Le(frames, 4)
  }

  /** The header's twelve bytes. */
  lemma HeaderAsBytes(w: nat, h: nat, frames: nat)
    requires w < 0x1_0000 && h < 0x1_0000 && frames < U32
    ensures VideoHeader(w, h, frames)
            == [66, 65, 68, 0, w % 256, w / 256, h % 256, h / 256,
                frames % 256, frames / 256 % 256, frames / 0x1_0000 % 256, frames / 0x100_0000]
  {
    assert Le(w, 2) == [w % 256, w / 256] && Le(h, 2) == [h % 256, h / 256];
    LeFour(frames);
  }

  lemma LeFour(x: nat)
    requires x < U32
    ensures Le(x, 4) == [x % 256, x / 256 % 256, x / 0x1_0000 % 256, x / 0x100_0000]
  {
    var y := x / 256;
    var z := y / 256;
    assert z == x / 0x1_0000 && z / 256 == x / 0x100_0000;
    assert Le(z, 2) == [z % 256, z / 256];
    assert Le(y, 3) == [y % 256] + Le(z, 2);
    assert Le(x, 4) == [x % 256] + Le(y, 3);
  }

  /** What `_start` reads from the header. */
  lemma HeaderReadsBack(w: nat, h: nat, frames: nat, file: seq<Byte>)
    requires w < 0x1_0000 && h < 0x1_0000 && frames < U32
    requires VIDEO_HEADER <= |file| && file[..VIDEO_HEADER] == VideoHeader(w, h, frames)
    ensures file[..4] == VIDEO_MAGIC && Field(file, 4, 2) == w && Field(file, 6, 2) == h && Field(file, 8, 4) == frames
  {
    var a, b, c := VIDEO_MAGIC, Le(w, 2), Le(h, 2);
    Peel(a + b + c, Le(frames, 4), file);
    Peel(a + b, c, file);
    Peel(a, b, file);
    Powers();
    LeRoundTrip(w, 2);
    LeRoundTrip(h, 2);
    LeRoundTrip(frames, 4);
  }
}
