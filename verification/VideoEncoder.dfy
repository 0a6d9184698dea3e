/** `Converter.process`: RGB frames to a `.bad` file. */
module VideoEncoder {
  import opened Bits
  import opened Bytes
  import opened Wrappers
  import opened VideoFormat

  /** `(r + g + b) / 3 >= 128` */
  predicate IsBright(r: Byte, g: Byte, b: Byte) { (r + g + b) as real / 3.0 >= 128.0 }

  /** The threshold on the sum of the channels. */
  lemma BrightSum(r: Byte, g: Byte, b: Byte)
    ensures IsBright(r, g, b) <==> r + g + b >= 384
  {
  }

  predicate PixelOf(frame: seq<Byte>, i: nat)
    requires 3 * i + 2 < |frame|
  {
    IsBright(frame[3 * i], frame[3 * i + 1], frame[3 * i + 2])
  }

  predicate FrameSize(frame: seq<Byte>, pixels: nat) { |frame| == 3 * pixels }

  predicate Sized(frames: seq<seq<Byte>>, pixels: nat) {
    forall f :: 0 <= f < |frames| ==> FrameSize(frames[f], pixels)
  }

  /** The thresholded pixels of all frames, one after the other. */
  ghost function Stream(frames: seq<seq<Byte>>, pixels: nat): (r: seq<bool>)
    requires Sized(frames, pixels)
    ensures |r| == |frames| * pixels
  {
    if frames == [] then []
    else
      var last := frames[|frames| - 1];
      assert FrameSize(last, pixels);
      assert (|frames| - 1) * pixels + pixels == |frames| * pixels;
      Stream(frames[..|frames| - 1], pixels) + seq(pixels, i requires 0 <= i < pixels => PixelOf(last, i))
  }

  /** Where pixel `i` of frame `f` is in the stream. */
  lemma {:induction false} StreamAt(frames: seq<seq<Byte>>, pixels: nat, f: nat, i: nat)
    requires Sized(frames, pixels)
    requires f < |frames| && i < pixels
    ensures FrameSize(frames[f], pixels) && f * pixels + i < |frames| * pixels
    ensures Stream(frames, pixels)[f * pixels + i] == PixelOf(frames[f], i)
    decreases |frames|
  {
    MulStep(pixels, f, |frames|);
    assert pixels * f == f * pixels && pixels * |frames| == |frames| * pixels;
    if f < |frames| - 1 {
      StreamAt(frames[..|frames| - 1], pixels, f, i);
    }
  }

  /** The stream on the channels of the frames alone. */
  lemma StreamSums(frames: seq<seq<Byte>>, pixels: nat, f: nat, i: nat)
    requires Sized(frames, pixels) && f < |frames| && i < pixels
    ensures |frames[f]| == 3 * pixels && f * pixels + i < |frames| * pixels
    ensures Stream(frames, pixels)[f * pixels + i]
            <==> frames[f][3 * i] as nat + frames[f][3 * i + 1] as nat + frames[f][3 * i + 2] as nat >= 384
  {
    StreamAt(frames, pixels, f, i);
    PixelSum(frames[f], i);
  }

  lemma PixelSum(frame: seq<Byte>, i: nat)
    requires 3 * i + 2 < |frame|
    ensures PixelOf(frame, i) <==> frame[3 * i] as nat + frame[3 * i + 1] as nat + frame[3 * i + 2] as nat >= 384
  {
    BrightSum(frame[3 * i], frame[3 * i + 1], frame[3 * i + 2]);
  }

  function BitOf(c: bool): int { if c then 1 else 0 }

  /** The encoder's variables: the bytes written, and the open run (colour -1: none yet). */
  datatype Coder = Coder(out: seq<Byte>, color: int, run: nat)

  /** One pixel. */
  function Step(s: Coder, c: bool): Coder
    requires s.run <= 127
  {
    if s.color == -1 then Coder(s.out, BitOf(c), 1)
    else if s.color == BitOf(c) && s.run < 127 then Coder(s.out, s.color, s.run + 1)
    else Coder(s.out + [RunByte(s.color == 1, s.run)], BitOf(c), 1)
  }

  /** The variables after the first `k` pixels. */
  function Coded(px: seq<bool>, k: nat): (s: Coder)
    requires k <= |px|
    ensures -1 <= s.color <= 1 && s.run <= 127 && (s.color == -1 <==> s.run == 0) && (s.run == 0 <==> k == 0)
    ensures |s.out| + (if s.run > 0 then 1 else 0) <= k
  {
    if k == 0 then Coder([], -1, 0) else Step(Coded(px, k - 1), px[k - 1])
  }

  /** The bytes written, and then the encoding of the open run together with the pixels to come. */
  ghost function Whole(px: seq<bool>, k: nat, s: Coder): seq<Byte>
    requires k <= |px|
  {
    s.out + Encode(Repeat(s.color == 1, s.run) + px[k..])
  }

  /** At every pixel these are the encoding of all pixels. */
  lemma {:induction false} CodedSplits(px: seq<bool>, k: nat)
    requires k <= |px|
    ensures Encode(px) == Whole(px, k, Coded(px, k))
  {
    if k == 0 {
      assert Repeat(false, 0) + px[0..] == px;
    } else {
      CodedSplits(px, k - 1);
      StepSplits(px, k - 1, Coded(px, k - 1), Coded(px, k));
    }
  }

  lemma StepSplits(px: seq<bool>, k: nat, s: Coder, t: Coder)
    requires k < |px| && s.run <= 127 && (s.color == -1 <==> s.run == 0) && -1 <= s.color <= 1 && t == Step(s, px[k])
    ensures Whole(px, k, s) == Whole(px, k + 1, t)
  {
    if s.color == -1 || (s.color == BitOf(px[k]) && s.run < 127) {
      assert Repeat(s.color == 1, s.run) + px[k..] == Repeat(px[k], s.run + 1) + px[k + 1..];
    } else {
      ClosedRun(px, k, s);
      NextRun(px, k);
    }
  }

  lemma ClosedRun(px: seq<bool>, k: nat, s: Coder)
    requires k < |px| && 0 < s.run <= 127 && 0 <= s.color <= 1 && (s.color != BitOf(px[k]) || s.run == 127)
    ensures Whole(px, k, s) == s.out + [RunByte(s.color == 1, s.run)] + Encode(px[k..])
  {
    FirstRun(s.color == 1, s.run, px[k..]);
    Regroup(s.out, [RunByte(s.color == 1, s.run)], Encode(px[k..]));
  }

  /** Closing the last run completes the encoding. */
  lemma CodedEnds(px: seq<bool>)
    ensures (var s := Coded(px, |px|); Encode(px) == s.out + if s.run > 0 then [RunByte(s.color == 1, s.run)] else [])
  {
    var s := Coded(px, |px|);
    CodedSplits(px, |px|);
    if s.run > 0 {
      FirstRun(s.color == 1, s.run, []);
    } else {
      assert Repeat(s.color == 1, 0) + px[|px|..] == [];
    }
  }

  lemma Regroup(a: seq<Byte>, b: seq<Byte>, c: seq<Byte>)
    ensures a + (b + c) == a + b + c
  {
  }

  lemma NextRun(all: seq<bool>, k: nat)
    requires k < |all|
    ensures all[k..] == Repeat(all[k], 1) + all[k + 1..]
  {
  }

  lemma FirstRun(c: bool, n: nat, rest: seq<bool>)
    requires 0 < n <= 127 && (rest == [] || rest[0] != c || n == 127)
    ensures Encode(Repeat(c, n) + rest) == [RunByte(c, n)] + Encode(rest)
  {
    var px := Repeat(c, n) + rest;
    LeadLongest(px, n);
    if rest != [] { assert px[n] == rest[0]; }
    assert Min(Lead(px), 127) == n && px[n..] == rest;
  }

  /** The file, unless a header field does not fit its width, which makes the writer throw. */
  method Process(frames: seq<seq<Byte>>, width: nat, height: nat) returns (file: Option<seq<Byte>>)
    requires Sized(frames, width * height)
    ensures file.None? <==> width >= 0x1_0000 || height >= 0x1_0000 || |frames| >= U32
    ensures file.Some? ==> file.value == VideoHeader(width, height, |frames|) + Encode(Stream(frames, width * height))
    ensures file.Some? ==>
              && file.value[..12] == [66, 65, 68, 0, width % 256, width / 256, height % 256, height / 256,
                                      |frames| % 256, |frames| / 256 % 256, |frames| / 0x1_0000 % 256,
                                      |frames| / 0x100_0000]
              && Decode(file.value[12..]) == Stream(frames, width * height)
  {
    DecodeEncode(Stream(frames, width * height));
    var runs := ProcessFrames(frames, width * height);
    if width >= 0x1_0000 || height >= 0x1_0000 || |frames| >= 0x1_0000_0000 {
      return None;
    }
    HeaderAsBytes(width, height, |frames|);
    return Some(VIDEO_MAGIC + Le(width, 2) + Le(height, 2) + Le(|frames|, 4) + runs);
  }

  /** The run bytes of all frames. */
  method ProcessFrames(frames: seq<seq<Byte>>, pixelsPerFrame: nat) returns (runs: seq<Byte>)
    requires Sized(frames, pixelsPerFrame)
    ensures runs == Encode(Stream(frames, pixelsPerFrame))
  {
    ghost var all := Stream(frames, pixelsPerFrame);
    ghost var base := 0;
    var rleBuffer := new Byte[|frames| * pixelsPerFrame];
    var rleIndex: nat, currentColor, runLength: nat := 0, -1, 0;
    for f := 0 to |frames|
      invariant base == f * pixelsPerFrame <= |all| && rleIndex <= rleBuffer.Length
      invariant Coder(rleBuffer[..rleIndex], currentColor, runLength) == Coded(all, base)
    {
      FrameInStream(frames, pixelsPerFrame, f, base);
      rleIndex, currentColor, runLength :=
        ProcessFrame(frames[f], pixelsPerFrame, rleBuffer, rleIndex, currentColor, runLength, all, base);
      base := base + pixelsPerFrame;
    }
    CodedEnds(all);
    if runLength > 0 {
      rleIndex := WriteRun(rleBuffer, rleIndex, currentColor, runLength);
    }
    runs := rleBuffer[..rleIndex];
  }

  /** Where frame `f` lies in the stream. */
  lemma FrameInStream(frames: seq<seq<Byte>>, pixels: nat, f: nat, base: nat)
    requires Sized(frames, pixels)
    requires f < |frames| && base == f * pixels
    ensures FrameSize(frames[f], pixels) && base + pixels == (f + 1) * pixels <= |frames| * pixels
    ensures IsFrame(frames[f], pixels, Stream(frames, pixels), base)
  {
  }

  ghost predicate IsFrame(frame: seq<Byte>, pixels: nat, all: seq<bool>, base: nat) {
    && FrameSize(frame, pixels) && base + pixels <= |all|
    && forall i :: 0 <= i < pixels ==> all[base + i] == PixelOf(frame, i)
  }

  /** The inner loop. */
  method ProcessFrame(frame: seq<Byte>, pixelsPerFrame: nat, rleBuffer: array<Byte>, rleIndex0: nat, currentColor0: int,
                      runLength0: nat, ghost all: seq<bool>, ghost base: nat)
    returns (rleIndex: nat, currentColor: int, runLength: nat)
    requires rleBuffer.Length == |all| && rleIndex0 <= rleBuffer.Length && IsFrame(frame, pixelsPerFrame, all, base)
    requires Coder(rleBuffer[..rleIndex0], currentColor0, runLength0) == Coded(all, base)
    modifies rleBuffer
    ensures rleIndex <= rleBuffer.Length
    ensures Coder(rleBuffer[..rleIndex], currentColor, runLength) == Coded(all, base + pixelsPerFrame)
  {
    rleIndex, currentColor, runLength := rleIndex0, currentColor0, runLength0;
    for i := 0 to pixelsPerFrame
      invariant rleIndex <= rleBuffer.Length
      invariant Coder(rleBuffer[..rleIndex], currentColor, runLength) == Coded(all, base + i)
    {
      var isBright := if IsBright(frame[3 * i], frame[3 * i + 1], frame[3 * i + 2]) then 1 else 0;
      assert all[base + i] == PixelOf(frame, i);
      if currentColor == -1 {
        currentColor := isBright;
        runLength := 1;
      } else if currentColor == isBright && runLength < 127 {
        runLength := runLength + 1;
      } else {
        rleIndex := WriteRun(rleBuffer, rleIndex, currentColor, runLength);
        currentColor := isBright;
        runLength := 1;
      }
    }
  }

  /** `rleBuffer[rleIndex++] = (currentColor << 7) | runLength` */
  method WriteRun(rleBuffer: array<Byte>, rleIndex: nat, currentColor: int, runLength: nat) returns (rleIndex': nat)
    requires rleIndex < rleBuffer.Length && 0 <= currentColor <= 1 && runLength <= 127
    modifies rleBuffer
    ensures rleIndex' == rleIndex + 1
    ensures rleBuffer[..rleIndex'] == old(rleBuffer[..rleIndex]) + [RunByte(currentColor == 1, runLength)]
  {
    RunByteBits(currentColor, runLength);
    rleBuffer[rleIndex] := BitOr(Shl(currentColor, 7), runLength);
    rleIndex' := rleIndex + 1;
  }
}
