/** From the converter's frames, through the file and the player, to the pixels on the screen. */
module VideoPipeline {
  import opened Bits
  import opened Bytes
  import opened Wrappers
  import opened VideoFormat
  import opened VideoEncoder
  import opened VideoPlayer
  import R = Renderer

  // From frames to frame buffers.

  lemma JoinAfter(a: seq<bool>, b: seq<bool>, c: seq<bool>)
    ensures a + b + c == a + (b + c)
  {
  }

  lemma {:induction false} DecodeAppend(a: seq<Byte>, b: seq<Byte>)
    ensures Decode(a + b) == Decode(a) + Decode(b)
  {
    if a == [] {
      assert a + b == b;
    } else {
      DecodeAppend(a[1..], b);
      assert (a + b)[1..] == a[1..] + b && (a + b)[0] == a[0];
      JoinAfter(Repeat(RunColor(a[0]), RunLength(a[0])), Decode(a[1..]), Decode(b));
    }
  }

  /** What the converter writes. */
  ghost function VideoFile(frames: seq<seq<Byte>>, w: nat, h: nat): (r: seq<Byte>)
    requires Sized(frames, w * h)
    ensures |r| >= VIDEO_HEADER
  {
    VideoHeader(w, h, |frames|) + Encode(Stream(frames, w * h))
  }

  /** The converted video lies at `start`. */
  ghost predicate Holds(mem: seq<Byte>, start: nat, frames: seq<seq<Byte>>, w: nat, h: nat)
    requires Sized(frames, w * h)
  {
    && w < 0x1_0000 && h < 0x1_0000 && |frames| < U32
    && start + |VideoFile(frames, w, h)| <= |mem|
    && mem[start..start + |VideoFile(frames, w, h)|] == VideoFile(frames, w, h)
  }

  /** The header and the runs, as the player addresses them. */
  lemma HoldsParts(mem: seq<Byte>, start: nat, frames: seq<seq<Byte>>, w: nat, h: nat)
    requires Sized(frames, w * h)
    requires Holds(mem, start, frames, w, h)
    ensures start + VIDEO_HEADER <= |mem| && MagicAt(mem, start) && HeaderAt(mem, start) == Header(w, h, |frames|)
    ensures Begins(mem[start + VIDEO_HEADER..], Encode(Stream(frames, w * h)))
  {
    var head, runs := VideoHeader(w, h, |frames|), Encode(Stream(frames, w * h));
    TwoParts(mem, start, head, runs);
    HeaderInPlace(mem, start, |frames|, w, h);
  }

  predicate Begins(bytes: seq<Byte>, runs: seq<Byte>) { |runs| <= |bytes| && bytes[..|runs|] == runs }

  lemma TwoParts(mem: seq<Byte>, start: nat, head: seq<Byte>, runs: seq<Byte>)
    requires |head| == VIDEO_HEADER && start + |head + runs| <= |mem|
      && mem[start..start + |head + runs|] == head + runs
    ensures mem[start..][..VIDEO_HEADER] == head && Begins(mem[start + VIDEO_HEADER..], runs)
  {
    var tail := mem[start..];
    assert tail[..|head| + |runs|] == head + runs;
    Peel(head, runs, tail);
    assert mem[start + VIDEO_HEADER..][..|runs|] == tail[|head|..|head| + |runs|];
  }

  lemma HeaderInPlace(mem: seq<Byte>, start: nat, frames: nat, w: nat, h: nat)
    requires w < 0x1_0000 && h < 0x1_0000 && frames < U32 && start + VIDEO_HEADER <= |mem|
    requires mem[start..][..VIDEO_HEADER] == VideoHeader(w, h, frames)
    ensures MagicAt(mem, start) && HeaderAt(mem, start) == Header(w, h, frames)
  {
    var tail := mem[start..];
    HeaderReadsBack(w, h, frames, tail);
    FieldShifts(mem, start, 4, 2);
    FieldShifts(mem, start, 6, 2);
    FieldShifts(mem, start, 8, 4);
    var magic := tail[..4];
    assert magic[0] == mem[start] && magic[1] == mem[start + 1];
    assert magic[2] == mem[start + 2] && magic[3] == mem[start + 3];
  }

  lemma FieldShifts(mem: seq<Byte>, start: nat, off: nat, n: nat)
    requires start + off + n <= |mem|
    ensures Field(mem[start..], off, n) == Field(mem, start + off, n)
  {
    assert mem[start..][off..off + n] == mem[start + off..start + off + n];
  }

  lemma PrefixDecodes(bytes: seq<Byte>, code: seq<Byte>, px: seq<bool>)
    requires Begins(bytes, code) && Decode(code) == px
    ensures |px| <= |Decode(bytes)| && Decode(bytes)[..|px|] == px
  {
    assert bytes == code + bytes[|code|..];
    DecodeAppend(code, bytes[|code|..]);
  }

  /** The decoded stream begins with the thresholded pixels of the frames. */
  lemma StreamDecodes(bytes: seq<Byte>, px: seq<bool>)
    requires Begins(bytes, Encode(px))
    ensures |px| <= |Decode(bytes)| && Decode(bytes)[..|px|] == px
  {
    DecodeEncode(px);
    PrefixDecodes(bytes, Encode(px), px);
  }

  /** A converted video can be played from wherever it is the first thing that looks like one. */
  lemma VideoIsPlayable(mem: seq<Byte>, start: nat, frames: seq<seq<Byte>>, w: nat, h: nat)
    requires Sized(frames, w * h)
    requires Holds(mem, start, frames, w, h) && Fits(w * h)
    ensures Playable(mem, start)
  {
    HoldsParts(mem, start, frames, w, h);
    StreamDecodes(mem[start + VIDEO_HEADER..], Stream(frames, w * h));
  }

  /** The search finds the video exactly when its start is in the first page and no earlier bytes look like one. */
  lemma FoundExactly(mem: seq<Byte>, start: nat, frames: seq<seq<Byte>>, w: nat, h: nat)
    requires Sized(frames, w * h)
    requires Holds(mem, start, frames, w, h)
    ensures Search(mem, 0) == Some(start) <==> start < 4096 && forall j: nat :: j < start ==> !MagicAt(mem, j)
  {
    HoldsParts(mem, start, frames, w, h);
  }

  /** A video behind four bytes that look like one is not found. */
  lemma HiddenVideo(frames: seq<seq<Byte>>, w: nat, h: nat)
    requires Sized(frames, w * h) && w < 0x1_0000 && h < 0x1_0000 && |frames| < U32
    ensures Holds(VIDEO_MAGIC + VideoFile(frames, w, h), 4, frames, w, h)
    ensures Search(VIDEO_MAGIC + VideoFile(frames, w, h), 0) == Some(0)
  {
    assert MagicAt(VIDEO_MAGIC + VideoFile(frames, w, h), 0);
  }

  /** Buffer `f` holds exactly the thresholded pixels of frame `f`. */
  ghost predicate ShownFrame(shown: seq<seq<Byte>>, frames: seq<seq<Byte>>, f: nat, pixels: nat)
    requires f < |frames| == |shown| && FrameSize(frames[f], pixels)
  {
    && |shown[f]| == (pixels + 7) / 8
    && forall i :: 0 <= i < 8 * |shown[f]| ==> BitAt(shown[f], i) == (i < pixels && PixelOf(frames[f], i))
  }

  /** The bits of a shown buffer, lowest first, on the channels of the frame alone. */
  ghost predicate ShownBits(buf: seq<Byte>, frame: seq<Byte>, pixels: nat) {
    && |buf| == (pixels + 7) / 8 && |frame| == 3 * pixels
    && (forall i: nat {:trigger Lit(buf, i)} :: i < pixels ==>
          (Lit(buf, i) <==> frame[3 * i] as nat + frame[3 * i + 1] as nat + frame[3 * i + 2] as nat >= 384))
    && forall i: nat :: pixels <= i < 8 * |buf| ==> !Lit(buf, i)
  }

  predicate Lit(buf: seq<Byte>, i: nat) { i / 8 < |buf| && buf[i / 8] / Pow2(i % 8) % 2 == 1 }

  lemma ShownFrameBits(shown: seq<seq<Byte>>, frames: seq<seq<Byte>>, f: nat, pixels: nat)
    requires f < |frames| == |shown| && FrameSize(frames[f], pixels) && ShownFrame(shown, frames, f, pixels)
    ensures ShownBits(shown[f], frames[f], pixels)
  {
    forall i: nat | i < 8 * |shown[f]|
      ensures Lit(shown[f], i) <==> i < pixels && PixelOf(frames[f], i)
      ensures i < pixels ==> (PixelOf(frames[f], i) <==>
                frames[f][3 * i] as nat + frames[f][3 * i + 1] as nat + frames[f][3 * i + 2] as nat >= 384)
    {
      R.Screen.TestBitIs(shown[f][i / 8], i % 8);
      assert BitAt(shown[f], i) == (i < pixels && PixelOf(frames[f], i));
      if i < pixels { PixelSum(frames[f], i); }
    }
  }

  lemma ShowsFrames(shown: seq<seq<Byte>>, all: seq<bool>, frames: seq<seq<Byte>>, pixels: nat, f: nat)
    requires Sized(frames, pixels)
    requires |frames| * pixels <= |all| && all[..|frames| * pixels] == Stream(frames, pixels)
    requires Shows(shown, all, |frames|, pixels) && f < |frames|
    ensures FrameSize(frames[f], pixels) && ShownFrame(shown, frames, f, pixels)
  {
    FrameInStream(frames, pixels, f, f * pixels);
    assert ShowsFrame(shown, all, f, pixels);
    ShowsPixels(shown[f], all, Stream(frames, pixels), frames[f], f * pixels, pixels);
  }

  lemma ShowsPixels(buf: seq<Byte>, all: seq<bool>, px: seq<bool>, frame: seq<Byte>, base: nat, pixels: nat)
    requires |px| <= |all| && all[..|px|] == px && IsFrame(frame, pixels, px, base)
    requires Packed(buf, all[base..base + pixels])
    ensures |buf| == (pixels + 7) / 8
    ensures forall i :: 0 <= i < 8 * |buf| ==> BitAt(buf, i) == (i < pixels && PixelOf(frame, i))
  {
  }

  /** Playing what was converted: the buffer of every frame packs the frame's thresholded pixels. */
  lemma PlaysWhatWasConverted(mem: seq<Byte>, start: nat, frames: seq<seq<Byte>>, w: nat, h: nat, r: Outcome, f: nat)
    requires Sized(frames, w * h)
    requires Holds(mem, start, frames, w, h) && Fits(w * h) && Plays(mem, start, r) && f < |frames|
    ensures r.Played? && |r.shown| == |frames| && FrameSize(frames[f], w * h) && ShownFrame(r.shown, frames, f, w * h)
  {
    HoldsParts(mem, start, frames, w, h);
    var bytes := mem[start + VIDEO_HEADER..];
    StreamDecodes(bytes, Stream(frames, w * h));
    ShowsFrames(r.shown, Decode(bytes), frames, w * h, f);
  }

  /** After the last frame, the player has read the runs exactly, and no run is left over. */
  lemma AllRunsRead(bytes: seq<Byte>, px: seq<bool>, pos: nat, color: nat, run: nat)
    requires Begins(bytes, Encode(px))
    requires Reading(bytes, pos, color, run, |px|, |px|)
    ensures pos == |Encode(px)| && run == 0
  {
    var n := |Encode(px)|;
    RunsNonempty(px);
    DecodeEncode(px);
    DecodedLength(Encode(px));
    RunStartOfPrefix(bytes, n, n);
    forall i | 0 <= i < n
      ensures RunLength(bytes[i]) > 0
    {
      assert bytes[i] == Encode(px)[i];
    }
    ReadsExactly(bytes, n, pos, color, run, |px|);
  }

  lemma {:induction false} RunStartOfPrefix(bytes: seq<Byte>, n: nat, k: nat)
    requires k <= n <= |bytes|
    ensures RunStart(bytes[..n], k) == RunStart(bytes, k)
    decreases k
  {
    if k > 0 { RunStartOfPrefix(bytes, n, k - 1); }
  }

  /** Converts a video and plays it from memory where other bytes come before and after it. */
  method ConvertAndPlay(frames: seq<seq<Byte>>, w: nat, h: nat, before: seq<Byte>, after: seq<Byte>,
                        frameBuffer: array<Byte>)
    returns (r: Outcome)
    requires Sized(frames, w * h)
    requires w < 0x1_0000 && h < 0x1_0000 && |frames| < U32 && Fits(w * h)
    requires |before| < 4096 && forall j: nat :: j < |before| ==> !MagicAt(before + VideoFile(frames, w, h) + after, j)
    requires frameBuffer.Length == MAX_FRAME_BYTES
    modifies frameBuffer
    ensures r.Played? && |r.shown| == |frames|
    ensures forall f :: 0 <= f < |frames| ==> ShownFrame(r.shown, frames, f, w * h)
    ensures forall f :: 0 <= f < |frames| ==> ShownBits(r.shown[f], frames[f], w * h)
    ensures r.pos == |Encode(Stream(frames, w * h))| && r.run == 0
  {
    var converted := Process(frames, w, h);
    var mem := before + converted.value + after;
    HoldsConverted(before, after, frames, w, h);
    VideoIsPlayable(mem, |before|, frames, w, h);
    HoldsParts(mem, |before|, frames, w, h);
    forall i: nat | FirstMagic(mem, i)
      ensures Playable(mem, i)
    {
      FirstIsOnly(mem, i, |before|);
    }
    r := Start(mem, frameBuffer);
    PlaysEveryFrame(mem, |before|, frames, w, h, r);
    forall f | 0 <= f < |frames|
      ensures ShownBits(r.shown[f], frames[f], w * h)
    {
      assert FrameSize(frames[f], w * h);
      ShownFrameBits(r.shown, frames, f, w * h);
    }
  }

  lemma HoldsConverted(before: seq<Byte>, after: seq<Byte>, frames: seq<seq<Byte>>, w: nat, h: nat)
    requires Sized(frames, w * h)
    requires w < 0x1_0000 && h < 0x1_0000 && |frames| < U32
    ensures Holds(before + VideoFile(frames, w, h) + after, |before|, frames, w, h)
  {
  }

  lemma PlaysEveryFrame(mem: seq<Byte>, start: nat, frames: seq<seq<Byte>>, w: nat, h: nat, r: Outcome)
    requires Sized(frames, w * h)
    requires Holds(mem, start, frames, w, h) && Fits(w * h) && Plays(mem, start, r)
    ensures r.Played? && |r.shown| == |frames|
    ensures forall f :: 0 <= f < |frames| ==> ShownFrame(r.shown, frames, f, w * h)
    ensures r.pos == |Encode(Stream(frames, w * h))| && r.run == 0
  {
    HoldsParts(mem, start, frames, w, h);
    forall f | 0 <= f < |frames|
      ensures r.Played? && |r.shown| == |frames| && ShownFrame(r.shown, frames, f, w * h)
    {
      PlaysWhatWasConverted(mem, start, frames, w, h, r, f);
    }
    AllRunsRead(mem[start + VIDEO_HEADER..], Stream(frames, w * h), r.pos, r.color, r.run);
  }

  // From frame buffers to the screen.

  /** Where the player puts pixel (`x`, `y`), and where the draw call looks for it. */
  predicate SamePlace(w: nat, x: nat, y: nat) { x < 8 * (w / 8) && 8 * (y * (w / 8)) + x == y * w + x }

  /** They agree on every pixel exactly when the width is a multiple of 8. */
  lemma PackingAgrees(w: nat, h: nat)
    ensures (forall x: nat, y: nat :: x < w && y < h ==> SamePlace(w, x, y)) <==> w % 8 == 0 || h == 0
  {
    if w % 8 == 0 {
      forall x: nat, y: nat | x < w && y < h
        ensures SamePlace(w, x, y)
      {
        assert w == 8 * (w / 8);
        assert y * w == 8 * (y * (w / 8));
      }
    } else if h > 0 {
      assert !SamePlace(w, w - 1, 0);
    }
  }

  /** Drawn on a screen, frame `f` of the video shows its thresholded pixels, white or black, in every visible cell. */
  lemma ScreenShows(p: R.Placement, shown: seq<seq<Byte>>, frames: seq<seq<Byte>>, f: nat, w: nat, h: nat,
                    under: seq<Byte>, x: nat, y: nat, i: nat)
    requires f < |frames| == |shown| && FrameSize(frames[f], w * h) && ShownFrame(shown, frames, f, w * h)
    requires R.Inside(p) && p.bytes == w / 8 && w % 8 == 0 && x < w && y < h && 0 <= p.top + y < p.rows
    requires R.CellOf(p, x, y, i) && i < |under|
    ensures y * w + x < w * h
    ensures R.Painted(p, shown[f], h, under)[i] == R.CellByte(PixelOf(frames[f], y * w + x), i % 4)
  {
    PackingAgrees(w, h);
    assert SamePlace(w, x, y);
    FrameIndex(w, h, x, y);
    BitShown(shown, frames, f, w * h, y * w + x);
    R.CellShows(p, shown[f], h, under, x, y, i);
  }

  lemma BitShown(shown: seq<seq<Byte>>, frames: seq<seq<Byte>>, f: nat, pixels: nat, k: nat)
    requires f < |frames| == |shown| && FrameSize(frames[f], pixels) && ShownFrame(shown, frames, f, pixels)
      && k < pixels
    ensures R.FrameBit(shown[f], k) == PixelOf(frames[f], k)
  {
  }

  lemma FrameIndex(w: nat, h: nat, x: nat, y: nat)
    requires x < w && y < h
    ensures y * w + x < w * h
  {
    MulStep(w, y, h);
    assert w * y == y * w;
  }

  /** Draws all buffers of a pass, as the player does one by one. */
  method DrawAll(screen: R.Screen, shown: seq<seq<Byte>>, w: nat, h: nat)
    requires screen.Valid() && w <= screen.width && h < 0x8000_0000
    requires forall f :: 0 <= f < |shown| ==> BufferFits(shown[f], w, h)
    modifies screen`backbuffer, screen.vram, screen.backbuffer
    ensures screen.Valid()
    ensures screen.Picture() == R.PaintedAll(screen.Place(w, h), shown, h, old(screen.Picture()))
    ensures shown != [] ==> screen.vram[..] == screen.Picture()
                            == R.Painted(screen.Place(w, h), shown[|shown| - 1], h, old(screen.Picture()))
  {
    ghost var p, under := screen.Place(w, h), screen.Picture();
    for f := 0 to |shown|
      invariant screen.Valid() && screen.Picture() == R.PaintedAll(p, shown[..f], h, under)
      invariant screen.backbuffer == old(screen.backbuffer) || fresh(screen.backbuffer)
      invariant f > 0 ==> screen.backbuffer != null
    {
      assert BufferFits(shown[f], w, h);
      assert shown[..f + 1][..f] == shown[..f];
      screen.Draw(shown[f], w, h);
      if h == 0 { R.Screen.NoRows(p, shown[f], R.PaintedAll(p, shown[..f], h, under)); }
    }
    assert shown[..|shown|] == shown;
    if shown != [] { R.LastFrameShows(p, shown, h, under); }
  }

  predicate BufferFits(buf: seq<Byte>, w: nat, h: nat) { h * (w / 8) <= |buf| }

  /** Every buffer of the pass is large enough for the draw call. */
  lemma BuffersFit(shown: seq<seq<Byte>>, frames: seq<seq<Byte>>, w: nat, h: nat)
    requires |shown| == |frames| && Sized(frames, w * h)
    requires forall f :: 0 <= f < |frames| ==> ShownFrame(shown, frames, f, w * h)
    ensures forall f :: 0 <= f < |shown| ==> BufferFits(shown[f], w, h)
  {
    RowsFit(w, h);
    forall f | 0 <= f < |shown|
      ensures BufferFits(shown[f], w, h)
    {
      assert FrameSize(frames[f], w * h) && ShownFrame(shown, frames, f, w * h);
    }
  }

  lemma RowsFit(w: nat, h: nat)
    ensures h * (w / 8) <= (w * h + 7) / 8
  {
    var q := w / 8;
    assert w * h == 8 * (h * q) + (w % 8) * h;
  }

  /**
   Byte `i` of the ideal picture of a frame in the middle of a screen of `rows` rows and `stride` cells a row: the
   thresholded pixel of the cell it belongs to, or what was there outside the frame.
   */
  ghost function PictureByte(p: R.Placement, frame: seq<Byte>, w: nat, h: nat, i: nat, b: Byte): Byte
    requires FrameSize(frame, w * h)
  {
    if p.stride == 0 then b
    else
      var row, col := i / 4 / p.stride, i / 4 % p.stride;
      if row < p.rows && p.top <= row < p.top + h && p.left <= col < p.left + w
      then (FrameIndex(w, h, col - p.left, row - p.top);
            R.CellByte(PixelOf(frame, (row - p.top) * w + (col - p.left)), i % 4))
      else b
  }

  lemma PaintsPicture(p: R.Placement, shown: seq<seq<Byte>>, frames: seq<seq<Byte>>, f: nat, w: nat, h: nat,
                      i: nat, b: Byte)
    requires f < |frames| == |shown| && FrameSize(frames[f], w * h) && ShownFrame(shown, frames, f, w * h)
    requires p.bytes == w / 8 && w % 8 == 0
    ensures R.PaintedByte(p, shown[f], h, i, b) == PictureByte(p, frames[f], w, h, i, b)
  {
    if p.stride > 0 {
      var row, col := i / 4 / p.stride, i / 4 % p.stride;
      if row < p.rows && p.top <= row < p.top + h && p.left <= col < p.left + w {
        var x, y := col - p.left, row - p.top;
        PackingAgrees(w, h);
        assert SamePlace(w, x, y);
        FrameIndex(w, h, x, y);
        BitShown(shown, frames, f, w * h, y * w + x);
      }
    }
  }

  /** The whole screen is the ideal picture of `frame` over `under`. */
  ghost predicate OnScreen(vram: seq<Byte>, under: seq<Byte>, p: R.Placement, frame: seq<Byte>, w: nat, h: nat) {
    && FrameSize(frame, w * h) && |vram| == |under|
    && forall i :: 0 <= i < |vram| ==> vram[i] == PictureByte(p, frame, w, h, i, under[i])
  }

  lemma LastOnScreen(vram: seq<Byte>, under: seq<Byte>, p: R.Placement, shown: seq<seq<Byte>>,
                     frames: seq<seq<Byte>>, w: nat, h: nat)
    requires frames != [] && |shown| == |frames| && Sized(frames, w * h) && p.bytes == w / 8 && w % 8 == 0
    requires forall f :: 0 <= f < |frames| ==> ShownFrame(shown, frames, f, w * h)
    requires vram == R.Painted(p, shown[|shown| - 1], h, under)
    ensures OnScreen(vram, under, p, frames[|frames| - 1], w, h)
  {
    var f := |frames| - 1;
    assert FrameSize(frames[f], w * h) && ShownFrame(shown, frames, f, w * h);
    forall i | 0 <= i < |vram|
      ensures vram[i] == PictureByte(p, frames[f], w, h, i, under[i])
    {
      PaintsPicture(p, shown, frames, f, w, h, i, under[i]);
    }
  }

  /** Each pixel of an RGB frame is white or black on the screen, as its channels sum to 384 or not. */
  ghost predicate ShowsFrameOf(screen: R.Screen, vram: seq<Byte>, frame: seq<Byte>, w: nat, h: nat) {
    forall x: nat, y: nat :: x < w && y < h ==> ShowsPixelOf(screen, vram, frame, w, h, x, y)
  }

  ghost predicate ShowsPixelOf(screen: R.Screen, vram: seq<Byte>, frame: seq<Byte>, w: nat, h: nat, x: nat, y: nat) {
    var k := 3 * (y * w + x);
    && k + 2 < |frame|
    && screen.PixelShown(vram, w, h, x, y, frame[k] as nat + frame[k + 1] as nat + frame[k + 2] as nat >= 384)
  }

  lemma LastPixels(screen: R.Screen, vram: seq<Byte>, under: seq<Byte>, shown: seq<seq<Byte>>,
                   frames: seq<seq<Byte>>, w: nat, h: nat)
    requires frames != [] && |shown| == |frames| && Sized(frames, w * h) && w % 8 == 0
    requires forall f :: 0 <= f < |frames| ==> ShownBits(shown[f], frames[f], w * h)
    requires w <= screen.width <= screen.pitch / 4 && |under| == screen.pitch * screen.height
    requires vram == R.Painted(screen.Place(w, h), shown[|shown| - 1], h, under)
    ensures ShowsFrameOf(screen, vram, frames[|frames| - 1], w, h)
  {
    var buf, frame := shown[|frames| - 1], frames[|frames| - 1];
    assert ShownBits(buf, frame, w * h);
    BufferOnScreen(screen, vram, under, buf, frame, w, h);
  }

  lemma BufferOnScreen(screen: R.Screen, vram: seq<Byte>, under: seq<Byte>, buf: seq<Byte>, frame: seq<Byte>, w: nat,
                       h: nat)
    requires ShownBits(buf, frame, w * h) && w % 8 == 0
    requires w <= screen.width <= screen.pitch / 4 && |under| == screen.pitch * screen.height
    requires vram == R.Painted(screen.Place(w, h), buf, h, under)
    ensures ShowsFrameOf(screen, vram, frame, w, h)
  {
    forall x: nat, y: nat | x < w && y < h
      ensures ShowsPixelOf(screen, vram, frame, w, h, x, y)
    {
      var k := 3 * (y * w + x);
      PixelBit(screen, buf, frame, w, h, x, y, k);
      LastPixel(screen, vram, under, buf, frame, w, h, x, y, k);
    }
  }

  lemma LastPixel(screen: R.Screen, vram: seq<Byte>, under: seq<Byte>, buf: seq<Byte>, frame: seq<Byte>, w: nat,
                  h: nat, x: nat, y: nat, k: nat)
    requires w <= screen.width <= screen.pitch / 4 && |under| == screen.pitch * screen.height
    requires x < 8 * (w / 8) && y < h && k == 3 * (y * w + x) && k + 2 < |frame|
    requires screen.RowBit(buf, w, x, y) <==> frame[k] as nat + frame[k + 1] as nat + frame[k + 2] as nat >= 384
    requires vram == R.Painted(screen.Place(w, h), buf, h, under)
    ensures ShowsPixelOf(screen, vram, frame, w, h, x, y)
  {
    screen.PaintedPixel(buf, w, h, under, x, y);
  }

  /** Where the draw call finds a pixel is where the player put it. */
  lemma PixelBit(screen: R.Screen, buf: seq<Byte>, frame: seq<Byte>, w: nat, h: nat, x: nat, y: nat, k: nat)
    requires ShownBits(buf, frame, w * h) && w % 8 == 0 && x < w && y < h && k == 3 * (y * w + x)
    ensures k + 2 < |frame|
    ensures screen.RowBit(buf, w, x, y) <==> frame[k] as nat + frame[k + 1] as nat + frame[k + 2] as nat >= 384
  {
    FrameIndex(w, h, x, y);
    PixelByte(w, h, x, y);
    PixelLit(buf, frame, w * h, y * w + x, k);
  }

  /** The same byte and the same bit. */
  lemma PixelByte(w: nat, h: nat, x: nat, y: nat)
    requires w % 8 == 0 && x < w && y < h
    ensures (y * w + x) / 8 == y * (w / 8) + x / 8 && (y * w + x) % 8 == x % 8
  {
    var i, t := y * w + x, y * (w / 8);
    PackingAgrees(w, h);
    assert SamePlace(w, x, y);
    assert i == 8 * t + x;
  }

  lemma PixelLit(buf: seq<Byte>, frame: seq<Byte>, pixels: nat, i: nat, k: nat)
    requires ShownBits(buf, frame, pixels) && i < pixels && k == 3 * i
    ensures k + 2 < |frame|
    ensures i / 8 < |buf| && buf[i / 8] / Pow2(i % 8) % 2 == 1
            <==> frame[k] as nat + frame[k + 1] as nat + frame[k + 2] as nat >= 384
  {
    assert Lit(buf, i) <==> frame[3 * i] as nat + frame[3 * i + 1] as nat + frame[3 * i + 2] as nat >= 384;
  }

  /**
   From the converter's frames to video memory: after the video was played, the screen is the ideal picture of the
   last frame, over what it showed before, and black before the first draw.
   */
  method Watch(frames: seq<seq<Byte>>, w: nat, h: nat, before: seq<Byte>, after: seq<Byte>, frameBuffer: array<Byte>,
               screen: R.Screen)
    requires frames != [] && Sized(frames, w * h) && w % 8 == 0
    requires w < 0x1_0000 && h < 0x1_0000 && |frames| < U32 && Fits(w * h)
    requires |before| < 4096 && forall j: nat :: j < |before| ==> !MagicAt(before + VideoFile(frames, w, h) + after, j)
    requires frameBuffer.Length == MAX_FRAME_BYTES && frameBuffer != screen.vram && frameBuffer != screen.backbuffer
    requires screen.Valid() && w <= screen.width
    modifies frameBuffer, screen`backbuffer, screen.vram, screen.backbuffer
    ensures screen.Valid()
    ensures OnScreen(screen.vram[..], old(screen.Picture()), screen.Place(w, h), frames[|frames| - 1], w, h)
    ensures ShowsFrameOf(screen, screen.vram[..], frames[|frames| - 1], w, h)
  {
    var r := ConvertAndPlay(frames, w, h, before, after, frameBuffer);
    BuffersFit(r.shown, frames, w, h);
    ghost var under := screen.Picture();
    DrawAll(screen, r.shown, w, h);
    LastOnScreen(screen.vram[..], under, screen.Place(w, h), r.shown, frames, w, h);
    LastPixels(screen, screen.vram[..], under, r.shown, frames, w, h);
  }
}
