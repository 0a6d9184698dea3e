/** `_start` of the player: finds the video, reads its header, and unpacks one frame after the other. */
module VideoPlayer {
  import opened Bits
  import opened Bytes
  import opened Wrappers
  import opened VideoFormat

  const MAX_FRAME_BYTES: nat := 65536

  // Positions in the stream of runs.

  /** How many pixels the first `k` run bytes stand for. */
  ghost function RunStart(bytes: seq<Byte>, k: nat): nat
    requires k <= |bytes|
  {
    if k == 0 then 0 else RunStart(bytes, k - 1) + RunLength(bytes[k - 1])
  }

  lemma {:induction false} RunStartMonotone(bytes: seq<Byte>, j: nat, k: nat)
    requires j <= k <= |bytes|
    ensures RunStart(bytes, j) <= RunStart(bytes, k)
    decreases k
  {
    if j < k { RunStartMonotone(bytes, j, k - 1); }
  }

  lemma {:induction false} RunStartOfTail(bytes: seq<Byte>, k: nat)
    requires 0 < k <= |bytes|
    ensures RunStart(bytes, k) == RunLength(bytes[0]) + RunStart(bytes[1..], k - 1)
  {
    if k > 1 { RunStartOfTail(bytes, k - 1); }
  }

  lemma {:induction false} DecodedLength(bytes: seq<Byte>)
    ensures |Decode(bytes)| == RunStart(bytes, |bytes|)
  {
    if bytes != [] {
      DecodedLength(bytes[1..]);
      RunStartOfTail(bytes, |bytes|);
    }
  }

  /** Pixel `j` has the colour of the run it lies in. */
  lemma {:induction false} PixelInRun(bytes: seq<Byte>, k: nat, j: nat)
    requires k < |bytes| && RunStart(bytes, k) <= j < RunStart(bytes, k + 1)
    ensures j < |Decode(bytes)| && Decode(bytes)[j] == RunColor(bytes[k])
  {
    DecodedLength(bytes);
    RunStartMonotone(bytes, k + 1, |bytes|);
    RunStartOfTail(bytes, k + 1);
    if k > 0 {
      RunStartOfTail(bytes, k);
      RunStartMonotone(bytes[1..], 0, k - 1);
      PixelInRun(bytes[1..], k - 1, j - RunLength(bytes[0]));
    }
  }

  /**
   The player's place in the stream after `d` pixels: `pos` bytes are read, `run` pixels of `color` are still to
   draw, and no byte was read that the pixels before `end` do not need.
   */
  ghost predicate Reading(bytes: seq<Byte>, pos: nat, color: nat, run: nat, d: nat, end: nat) {
    && pos <= |bytes| && run < 128 && color < 2 && RunStart(bytes, pos) == d + run
    && (pos > 0 ==>
          && (color == 1) == RunColor(bytes[pos - 1])
          && RunStart(bytes, pos - 1) <= d && RunStart(bytes, pos - 1) < end)
  }

  /** There is another byte to read while pixels remain. */
  lemma MoreBytes(bytes: seq<Byte>, pos: nat, color: nat, d: nat, end: nat)
    requires Reading(bytes, pos, color, 0, d, end) && d < end <= RunStart(bytes, |bytes|)
    ensures pos < |bytes|
  {
  }

  lemma RunPixels(bytes: seq<Byte>, pos: nat, color: nat, run: nat, d: nat, end: nat)
    requires Reading(bytes, pos, color, run, d, end)
    ensures d + run <= |Decode(bytes)| && forall i :: d <= i < d + run ==> Decode(bytes)[i] == (color == 1)
  {
    DecodedLength(bytes);
    RunStartMonotone(bytes, pos, |bytes|);
    forall i | d <= i < d + run
      ensures Decode(bytes)[i] == (color == 1)
    {
      PixelInRun(bytes, pos - 1, i);
    }
  }

  /** When the pixels are exactly those of a prefix without empty runs, exactly that prefix is read. */
  lemma ReadsExactly(bytes: seq<Byte>, n: nat, pos: nat, color: nat, run: nat, d: nat)
    requires n <= |bytes| && RunStart(bytes, n) == d && (forall i :: 0 <= i < n ==> RunLength(bytes[i]) > 0)
    requires Reading(bytes, pos, color, run, d, d)
    ensures pos == n && run == 0
  {
    if pos > n {
      RunStartMonotone(bytes, n, pos - 1);
    } else if pos < n {
      RunStartMonotone(bytes, pos + 1, n);
    }
  }

  // The frame buffer.

  predicate BitAt(buf: seq<Byte>, i: nat)
    requires i < 8 * |buf|
  {
    TestBit(buf[i / 8], i % 8)
  }

  /** One bit for each pixel, lowest bit first; the spare bits of the last byte are zero. */
  ghost predicate Packed(buf: seq<Byte>, px: seq<bool>) {
    |buf| == (|px| + 7) / 8 && forall i :: 0 <= i < 8 * |buf| ==> BitAt(buf, i) == (i < |px| && px[i])
  }

  /** The first `drawn` pixels are in the buffer, and nothing else. */
  ghost predicate Drawn(buf: seq<Byte>, px: seq<bool>, drawn: nat) {
    && drawn <= |px| <= 8 * |buf|
    && forall i :: 0 <= i < 8 * |buf| ==> BitAt(buf, i) == (i < drawn && px[i])
  }

  /** `1 << k` as a byte. */
  function BitMask(k: nat): Byte
    requires k < 8
  {
    ShlIsTimes(1, k);
    assert Pow2(7) == 128;
    Shl(1, k)
  }

  function SetBit(b: Byte, k: nat): (r: Byte)
    requires k < 8
    ensures forall j: nat :: TestBit(r, j) <==> TestBit(b, j) || j == k
  {
    SetBitTests(b, k);
    BitOr(b, BitMask(k))
  }

  lemma SetBitTests(b: Byte, k: nat)
    requires k < 8
    ensures BitOr(b, BitMask(k)) < 256
    ensures forall j: nat :: TestBit(BitOr(b, BitMask(k)), j) <==> TestBit(b, j) || j == k
  {
    Powers();
    ShlIsTimes(1, k);
    OrBound(b, BitMask(k), 8);
    forall j: nat
      ensures TestBit(BitOr(b, BitMask(k)), j) <==> TestBit(b, j) || j == k
    {
      TestOr(b, BitMask(k), j);
      TestPow2(k, j);
    }
  }

  /** One more set pixel. */
  lemma SetDraws(buf: seq<Byte>, px: seq<bool>, n: nat)
    requires Drawn(buf, px, n) && n < |px| && px[n]
    ensures Drawn(buf[n / 8 := SetBit(buf[n / 8], n % 8)], px, n + 1)
  {
    var buf' := buf[n / 8 := SetBit(buf[n / 8], n % 8)];
    forall i | 0 <= i < 8 * |buf|
      ensures BitAt(buf', i) == (i < n + 1 && px[i])
    {
      assert BitAt(buf, i) == (i < n && px[i]);
      if i / 8 == n / 8 {
        assert i == n <==> i % 8 == n % 8;
      }
    }
  }

  // Decoding.

  /** The inner loop over a run of set pixels. */
  method DrawRun(frameBuffer: array<Byte>, bytesPerFrame: nat, drawn: nat, toDraw: nat, ghost px: seq<bool>)
    requires bytesPerFrame <= frameBuffer.Length && Drawn(frameBuffer[..bytesPerFrame], px, drawn)
    requires drawn + toDraw <= |px| && forall i :: drawn <= i < drawn + toDraw ==> px[i]
    modifies frameBuffer
    ensures Drawn(frameBuffer[..bytesPerFrame], px, drawn + toDraw)
  {
    for i := 0 to toDraw
      invariant Drawn(frameBuffer[..bytesPerFrame], px, drawn + i)
    {
      var p := drawn + i;
      ghost var buf := frameBuffer[..bytesPerFrame];
      SetDraws(buf, px, p);
      frameBuffer[p / 8] := SetBit(frameBuffer[p / 8], p % 8);
      assert frameBuffer[..bytesPerFrame] == buf[p / 8 := SetBit(buf[p / 8], p % 8)];
    }
  }

  /** The loop that clears the buffer. */
  method Clear(frameBuffer: array<Byte>, bytesPerFrame: nat, ghost px: seq<bool>)
    requires bytesPerFrame <= frameBuffer.Length && |px| <= 8 * bytesPerFrame
    modifies frameBuffer
    ensures Drawn(frameBuffer[..bytesPerFrame], px, 0)
  {
    for i := 0 to bytesPerFrame
      invariant forall j :: 0 <= j < i ==> frameBuffer[j] == 0
    {
      frameBuffer[i] := 0;
    }
    forall i | 0 <= i < 8 * bytesPerFrame
      ensures !BitAt(frameBuffer[..bytesPerFrame], i)
    {
      TestZero(i % 8);
    }
  }

  /** One frame, starting with what is left of the run that the last frame ended in. */
  method DecodeFrame(bytes: seq<Byte>, frameBuffer: array<Byte>, pixelsPerFrame: nat, pos0: nat, color0: nat,
                     run0: nat, ghost d: nat)
    returns (pos: nat, color: nat, run: nat)
    requires frameBuffer.Length == MAX_FRAME_BYTES && (pixelsPerFrame + 7) / 8 <= MAX_FRAME_BYTES
    requires Reading(bytes, pos0, color0, run0, d, d) && d + pixelsPerFrame <= |Decode(bytes)|
    modifies frameBuffer
    ensures Reading(bytes, pos, color, run, d + pixelsPerFrame, d + pixelsPerFrame)
    ensures Packed(frameBuffer[..(pixelsPerFrame + 7) / 8], Decode(bytes)[d..d + pixelsPerFrame])
  {
    var bytesPerFrame := (pixelsPerFrame + 7) / 8;
    ghost var px, end := Decode(bytes)[d..d + pixelsPerFrame], d + pixelsPerFrame;
    Clear(frameBuffer, bytesPerFrame, px);
    pos, color, run := pos0, color0, run0;
    var drawn: nat := 0;
    while drawn < pixelsPerFrame
      invariant drawn <= pixelsPerFrame && Reading(bytes, pos, color, run, d + drawn, end)
      invariant Drawn(frameBuffer[..bytesPerFrame], px, drawn)
      decreases pixelsPerFrame - drawn, |bytes| - pos
    {
      pos, color, run := NextRun(bytes, pos, color, run, d + drawn, end);
      var toDraw := if drawn + run > pixelsPerFrame then pixelsPerFrame - drawn else run;
      RunInFrame(bytes, pos, color, run, d, drawn, toDraw, px);
      if color == 1 {
        DrawRun(frameBuffer, bytesPerFrame, drawn, toDraw, px);
      } else {
        NothingDrawn(frameBuffer[..bytesPerFrame], px, drawn, toDraw);
      }
      run, drawn := run - toDraw, drawn + toDraw;
    }
  }

  /** Reads the next run byte when the last run is used up. */
  method NextRun(bytes: seq<Byte>, pos0: nat, color0: nat, run0: nat, ghost d: nat, ghost end: nat)
    returns (pos: nat, color: nat, run: nat)
    requires Reading(bytes, pos0, color0, run0, d, end) && d < end <= |Decode(bytes)|
    ensures Reading(bytes, pos, color, run, d, end)
      && (if run0 > 0 then run == run0 && pos == pos0 else pos == pos0 + 1)
  {
    pos, color, run := pos0, color0, run0;
    if run == 0 {
      DecodedLength(bytes);
      MoreBytes(bytes, pos, color, d, end);
      var b := bytes[pos];
      RunByteParts(b);
      pos, color, run := pos + 1, Shr(b, 7), BitAnd(b, 0x7F);
    }
  }

  /** The part of the run that falls into the frame. */
  lemma RunInFrame(bytes: seq<Byte>, pos: nat, color: nat, run: nat, d: nat, drawn: nat, toDraw: nat, px: seq<bool>)
    requires Reading(bytes, pos, color, run, d + drawn, d + |px|) && toDraw <= run && drawn + toDraw <= |px|
    requires d + |px| <= |Decode(bytes)| && px == Decode(bytes)[d..d + |px|]
    ensures forall i :: drawn <= i < drawn + toDraw ==> px[i] == (color == 1)
    ensures Reading(bytes, pos, color, run - toDraw, d + (drawn + toDraw), d + |px|)
  {
    RunPixels(bytes, pos, color, run, d + drawn, d + |px|);
  }

  /** A run of dark pixels needs no bits. */
  lemma NothingDrawn(buf: seq<Byte>, px: seq<bool>, drawn: nat, toDraw: nat)
    requires Drawn(buf, px, drawn) && drawn + toDraw <= |px| && forall i :: drawn <= i < drawn + toDraw ==> !px[i]
    ensures Drawn(buf, px, drawn + toDraw)
  {
  }

  /** One pass over the video: the buffer contents handed to `draw_frame`, in order. */
  method PlayOnce(bytes: seq<Byte>, frameBuffer: array<Byte>, pixelsPerFrame: nat, totalFrames: nat)
    returns (shown: seq<seq<Byte>>, pos: nat, color: nat, run: nat)
    requires frameBuffer.Length == MAX_FRAME_BYTES && (pixelsPerFrame + 7) / 8 <= MAX_FRAME_BYTES
    requires totalFrames * pixelsPerFrame <= |Decode(bytes)|
    modifies frameBuffer
    ensures Reading(bytes, pos, color, run, totalFrames * pixelsPerFrame, totalFrames * pixelsPerFrame)
    ensures Shows(shown, Decode(bytes), totalFrames, pixelsPerFrame)
  {
    shown, pos, color, run := [], 0, 0, 0;
    ghost var d := 0;
    for f := 0 to totalFrames
      invariant d == f * pixelsPerFrame <= |Decode(bytes)| && Reading(bytes, pos, color, run, d, d)
      invariant Shows(shown, Decode(bytes), f, pixelsPerFrame)
    {
      NextFrame(f, totalFrames, pixelsPerFrame);
      pos, color, run := DecodeFrame(bytes, frameBuffer, pixelsPerFrame, pos, color, run, d);
      ghost var s := shown;
      shown := shown + [frameBuffer[..(pixelsPerFrame + 7) / 8]];
      ShowsMore(s, frameBuffer[..(pixelsPerFrame + 7) / 8], Decode(bytes), f, pixelsPerFrame);
      d := d + pixelsPerFrame;
    }
  }

  lemma NextFrame(f: nat, n: nat, pixels: nat)
    requires f < n
    ensures f * pixels + pixels == (f + 1) * pixels <= n * pixels
  {
  }

  /** Frame `f` of the stream is what the buffer `shown[f]` packs. */
  ghost predicate ShowsFrame(shown: seq<seq<Byte>>, all: seq<bool>, f: nat, pixels: nat)
    requires f < |shown|
  {
    f * pixels + pixels <= |all| && Packed(shown[f], all[f * pixels..f * pixels + pixels])
  }

  ghost predicate Shows(shown: seq<seq<Byte>>, all: seq<bool>, frames: nat, pixels: nat) {
    |shown| == frames && forall f :: 0 <= f < frames ==> ShowsFrame(shown, all, f, pixels)
  }

  lemma ShowsMore(shown: seq<seq<Byte>>, buf: seq<Byte>, all: seq<bool>, f: nat, pixels: nat)
    requires Shows(shown, all, f, pixels)
    requires f * pixels + pixels <= |all| && Packed(buf, all[f * pixels..f * pixels + pixels])
    ensures Shows(shown + [buf], all, f + 1, pixels)
  {
    forall g | 0 <= g < f + 1
      ensures ShowsFrame(shown + [buf], all, g, pixels)
    {
      if g < f { assert ShowsFrame(shown, all, g, pixels); }
    }
  }

  // Finding the file.

  predicate MagicAt(mem: seq<Byte>, i: nat) {
    i + 4 <= |mem| && mem[i] == 66 && mem[i + 1] == 65 && mem[i + 2] == 68 && mem[i + 3] == 0
  }

  ghost predicate FirstMagic(mem: seq<Byte>, i: nat) {
    i < 4096 && MagicAt(mem, i) && forall j: nat :: j < i ==> !MagicAt(mem, j)
  }

  /** The first place from `i` on, among the first 4096, that looks like a video. */
  function Search(mem: seq<Byte>, i: nat): (r: Option<nat>)
    requires i <= 4096
    ensures r.Some? ==> i <= r.value < 4096 && MagicAt(mem, r.value)
    ensures forall j: nat :: i <= j < 4096 && (r.Some? ==> j < r.value) ==> !MagicAt(mem, j)
    decreases 4096 - i, mem
  {
    if i == 4096 then None else if MagicAt(mem, i) then Some(i) else Search(mem, i + 1)
  }

  /** The search loop. `mem` is what is mapped from 0x80000000 on. */
  method FindVideo(mem: seq<Byte>) returns (start: Option<nat>)
    requires 4099 <= |mem| || exists i: nat :: i < 4096 && MagicAt(mem, i)
    ensures start == Search(mem, 0)
    ensures start.Some? ==> FirstMagic(mem, start.value)
    ensures start.None? ==> forall i: nat :: i < 4096 ==> !MagicAt(mem, i)
  {
    for i := 0 to 4096
      invariant forall j: nat :: j < i ==> !MagicAt(mem, j)
      invariant Search(mem, 0) == Search(mem, i)
    {
      if mem[i] == 66 && mem[i + 1] == 65 && mem[i + 2] == 68 && mem[i + 3] == 0 {
        return Some(i);
      }
    }
    return None;
  }

  /** After a pass: the buffers shown, the bytes read, and what is left of the last run. */
  datatype Outcome = NotFound | TooLarge | Played(shown: seq<seq<Byte>>, pos: nat, color: nat, run: nat)

  datatype Header = Header(w: nat, h: nat, frames: nat)

  ghost function HeaderAt(mem: seq<Byte>, start: nat): Header
    requires start + VIDEO_HEADER <= |mem|
  {
    Header(Field(mem, start + 4, 2), Field(mem, start + 6, 2), Field(mem, start + 8, 4))
  }

  /** A frame of `pixels` pixels fits the buffer. */
  predicate Fits(pixels: nat) { (pixels + 7) / 8 <= MAX_FRAME_BYTES }

  /**
   The header is mapped, `w * h + 7` fits an `int`, and the runs of all frames are mapped unless a
   frame is too large.
   */
  ghost predicate Playable(mem: seq<Byte>, start: nat) {
    && start + VIDEO_HEADER <= |mem|
    && var h := HeaderAt(mem, start);
    && h.w * h.h + 7 < 0x8000_0000
    && (Fits(h.w * h.h) ==> h.frames * (h.w * h.h) <= |Decode(mem[start + VIDEO_HEADER..])|)
  }

  /** All frames of `bytes` were shown, and no byte was read that they do not need. */
  ghost predicate PlaysAll(bytes: seq<Byte>, frames: nat, pixels: nat, r: Outcome) {
    && r.Played? && Shows(r.shown, Decode(bytes), frames, pixels)
    && Reading(bytes, r.pos, r.color, r.run, frames * pixels, frames * pixels)
  }

  /** The video at `start` was played, unless its frames are too large. */
  ghost predicate Plays(mem: seq<Byte>, start: nat, r: Outcome) {
    && start + VIDEO_HEADER <= |mem|
    && var h := HeaderAt(mem, start);
    if Fits(h.w * h.h) then PlaysAll(mem[start + VIDEO_HEADER..], h.frames, h.w * h.h, r) else r.TooLarge?
  }

  lemma FirstIsOnly(mem: seq<Byte>, i: nat, j: nat)
    requires FirstMagic(mem, i) && FirstMagic(mem, j)
    ensures i == j
  {
  }

  /** `_start`, up to the end of the first pass; every later pass starts from the same values. */
  method Start(mem: seq<Byte>, frameBuffer: array<Byte>) returns (r: Outcome)
    requires frameBuffer.Length == MAX_FRAME_BYTES
    requires 4099 <= |mem| || exists i: nat :: i < 4096 && MagicAt(mem, i)
    requires forall i: nat :: FirstMagic(mem, i) ==> Playable(mem, i)
    modifies frameBuffer
    ensures r.NotFound? <==> forall i: nat :: i < 4096 ==> !MagicAt(mem, i)
    ensures forall i: nat :: FirstMagic(mem, i) ==> Plays(mem, i, r)
    ensures forall i: nat :: FirstMagic(mem, i) ==>
              && i + 12 <= |mem|
              && (r.TooLarge? <==> (Field(mem, i + 4, 2) * Field(mem, i + 6, 2) + 7) / 8 > 65536)
              && (r.Played? ==> |r.shown| == Field(mem, i + 8, 4))
  {
    var found := FindVideo(mem);
    if found.None? {
      return NotFound;
    }
    assert Playable(mem, found.value);
    r := PlayVideo(mem, found.value, frameBuffer);
  }

  /** `_start` from the header on. */
  method PlayVideo(mem: seq<Byte>, start: nat, frameBuffer: array<Byte>) returns (r: Outcome)
    requires frameBuffer.Length == MAX_FRAME_BYTES && Playable(mem, start)
    modifies frameBuffer
    ensures !r.NotFound? && Plays(mem, start, r)
  {
    var w, h := Field(mem, start + 4, 2), Field(mem, start + 6, 2);
    var totalFrames := Field(mem, start + 8, 4);
    var pixelsPerFrame := w * h;
    if (pixelsPerFrame + 7) / 8 > 65536 {
      return TooLarge;
    }
    var shown, pos, color, run := PlayOnce(mem[start + VIDEO_HEADER..], frameBuffer, pixelsPerFrame, totalFrames);
    return Played(shown, pos, color, run);
  }
}
