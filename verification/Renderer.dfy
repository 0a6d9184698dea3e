/** The draw system call: centres a one-bit frame, unpacks it to a back buffer, and copies its rows to video memory. */
module Renderer {
  import opened Bits
  import opened Bytes
  import opened Memcpy

  // Where a frame goes.

  /** `int start = (size - n) / 2`, with `size` unsigned: the difference wraps, and its half is cut to 32 bits. */
  function Start(size: nat, n: int): int
    requires size < U64
  {
    var half := (size - n) % 0x1_0000_0000_0000_0000 / 2;
    var low := half % 0x1_0000_0000;
    if low >= 0x8000_0000 then low - 0x1_0000_0000 else low
  }

  /** It is the floor of half the difference, also when that is negative. */
  lemma StartIsFloor(size: nat, n: int)
    requires size < 0x8000_0000 && -0x8000_0000 <= n < 0x8000_0000
    ensures Start(size, n) == (size - n) / 2
  {
  }

  /** A grid of `rows` rows of `stride` cells, and a frame of `8 * bytes` columns whose corner is at (`left`, `top`). */
  datatype Placement = Placement(stride: nat, rows: nat, left: nat, top: int, bytes: nat)

  ghost predicate Inside(p: Placement) { p.left + 8 * p.bytes <= p.stride }

  /** Bit `k` of the frame. */
  predicate FrameBit(frame: seq<Byte>, k: nat) { k / 8 < |frame| && TestBit(frame[k / 8], k % 8) }

  /** White is 0xFFFFFFFF, black is 0xFF000000; byte `k` of the cell, lowest first. */
  function CellByte(white: bool, k: nat): Byte { if white || k == 3 then 255 else 0 }

  /** Byte `i` of the screen when the first `limit` rows of the frame are painted over `b`. */
  function PaintedByte(p: Placement, frame: seq<Byte>, limit: nat, i: nat, b: Byte): Byte {
    if p.stride == 0 then b
    else PaintedAt(p, frame, limit, i / 4 / p.stride, i / 4 % p.stride, i % 4, b)
  }

  /** The same for byte `k` of the cell in column `col` of row `row`. */
  function PaintedAt(p: Placement, frame: seq<Byte>, limit: nat, row: nat, col: nat, k: nat, b: Byte): Byte {
    if row < p.rows && p.top <= row < p.top + limit && p.left <= col < p.left + 8 * p.bytes
    then CellByte(FrameBit(frame, 8 * ((row - p.top) * p.bytes) + (col - p.left)), k)
    else b
  }

  function Painted(p: Placement, frame: seq<Byte>, limit: nat, under: seq<Byte>): (r: seq<Byte>)
    ensures |r| == |under| && forall i :: 0 <= i < |under| ==> r[i] == PaintedByte(p, frame, limit, i, under[i])
  {
    seq(|under|, i requires 0 <= i < |under| => PaintedByte(p, frame, limit, i, under[i]))
  }

  lemma PaintedIs(p: Placement, frame: seq<Byte>, limit: nat, under: seq<Byte>, r: seq<Byte>)
    requires |r| == |under| && forall i :: 0 <= i < |under| ==> r[i] == PaintedByte(p, frame, limit, i, under[i])
    ensures r == Painted(p, frame, limit, under)
  {
  }

  /** A frame painted over another of the same size leaves nothing of it. */
  lemma PaintOver(p: Placement, first: seq<Byte>, second: seq<Byte>, limit: nat, under: seq<Byte>)
    ensures Painted(p, second, limit, Painted(p, first, limit, under)) == Painted(p, second, limit, under)
  {
  }

  function PaintedAll(p: Placement, frames: seq<seq<Byte>>, limit: nat, under: seq<Byte>): seq<Byte> {
    if frames == [] then under
    else Painted(p, frames[|frames| - 1], limit, PaintedAll(p, frames[..|frames| - 1], limit, under))
  }

  /** After any number of frames the screen shows the last one, over what was there at first. */
  lemma {:induction false} LastFrameShows(p: Placement, frames: seq<seq<Byte>>, limit: nat, under: seq<Byte>)
    requires frames != []
    ensures PaintedAll(p, frames, limit, under) == Painted(p, frames[|frames| - 1], limit, under)
  {
    var before := frames[..|frames| - 1];
    if before != [] {
      LastFrameShows(p, before, limit, under);
      PaintOver(p, before[|before| - 1], frames[|frames| - 1], limit, under);
    }
  }

  /** Byte `i` belongs to the cell where pixel (`x`, `y`) is shown. */
  ghost predicate CellOf(p: Placement, x: nat, y: nat, i: nat) {
    i / 4 == (p.top + y) * p.stride + (p.left + x)
  }

  /** Every cell of the frame that is on the screen shows its pixel. */
  lemma CellShows(p: Placement, frame: seq<Byte>, limit: nat, under: seq<Byte>, x: nat, y: nat, i: nat)
    requires Inside(p) && x < 8 * p.bytes && y < limit && 0 <= p.top + y < p.rows && CellOf(p, x, y, i) && i < |under|
    ensures Painted(p, frame, limit, under)[i] == CellByte(FrameBit(frame, 8 * (y * p.bytes) + x), i % 4)
  {
    RowCell(p, p.top + y, p.left + x, i / 4);
  }

  lemma CellOutside(p: Placement, frame: seq<Byte>, limit: nat, row: nat, col: nat, i: nat, b: Byte)
    requires col < p.stride && i / 4 == row * p.stride + col
    requires !(p.top <= row < p.top + limit) || !(p.left <= col < p.left + 8 * p.bytes)
    ensures PaintedByte(p, frame, limit, i, b) == b
  {
    RowCell(p, row, col, i / 4);
  }

  lemma CellsOutside(p: Placement, frame: seq<Byte>, limit: nat, under: seq<Byte>, row: nat, col: nat, cell: nat)
    requires col < p.stride && cell == row * p.stride + col && 4 * cell + 4 <= |under|
    requires !(p.top <= row < p.top + limit) || !(p.left <= col < p.left + 8 * p.bytes)
    ensures Painted(p, frame, limit, under)[4 * cell..4 * cell + 4] == under[4 * cell..4 * cell + 4]
  {
    forall i | 4 * cell <= i < 4 * cell + 4
      ensures PaintedByte(p, frame, limit, i, under[i]) == under[i]
    {
      CellOutside(p, frame, limit, row, col, i, under[i]);
    }
  }

  lemma RowCell(p: Placement, row: nat, col: nat, c: nat)
    requires col < p.stride && c == row * p.stride + col
    ensures c / p.stride == row && c % p.stride == col
  {
    assert row * p.stride == p.stride * row;
    DivMod(c, p.stride, row, col);
  }

  // One row.

  /** Byte `j` of row `y` of the frame, unpacked. */
  function RowByte(p: Placement, frame: seq<Byte>, y: nat, j: nat): Byte {
    CellByte(FrameBit(frame, 8 * (y * p.bytes) + j / 4), j % 4)
  }

  /** The first cell of row `y`. */
  function RowBase(p: Placement, y: nat): int { (p.top + y) * p.stride + p.left }

  /** What lies in the bytes that row `y` is copied to, `n` cells from its first cell `base` on. */
  lemma InRow(p: Placement, y: nat, base: int, n: nat, i: nat)
    requires base == RowBase(p, y) && 0 <= p.top + y && p.left + n <= p.stride && 4 * base <= i < 4 * base + 4 * n
    ensures p.stride > 0 && i / 4 / p.stride == p.top + y && i / 4 % p.stride == p.left + (i / 4 - base)
  {
    RowCell(p, p.top + y, p.left + (i / 4 - base), i / 4);
  }

  lemma OutsideRow(p: Placement, y: nat, base: int, n: nat, i: nat)
    requires base == RowBase(p, y) && 0 <= p.top + y && p.left + n <= p.stride && p.stride > 0
    requires !(4 * base <= i < 4 * base + 4 * n)
    ensures !(i / 4 / p.stride == p.top + y && p.left <= i / 4 % p.stride < p.left + n)
  {
  }

  /** Writing the cells of one visible row. */
  lemma RowPaints(p: Placement, frame: seq<Byte>, y: nat, base: int, under: seq<Byte>, now: seq<Byte>, after: seq<Byte>)
    requires Inside(p) && 0 <= p.top + y < p.rows && base == RowBase(p, y)
    requires now == Painted(p, frame, y, under) && |after| == |under|
    requires forall i :: 0 <= i < |now| ==>
               after[i] == if 4 * base <= i < 4 * base + 32 * p.bytes then RowByte(p, frame, y, i - 4 * base)
                 else now[i]
    ensures after == Painted(p, frame, y + 1, under)
  {
    forall i | 0 <= i < |under|
      ensures after[i] == PaintedByte(p, frame, y + 1, i, under[i])
    {
      RowPaintsAt(p, frame, y, base, i, under[i]);
    }
    PaintedIs(p, frame, y + 1, under, after);
  }

  lemma RowPaintsAt(p: Placement, frame: seq<Byte>, y: nat, base: int, i: nat, b: Byte)
    requires Inside(p) && 0 <= p.top + y < p.rows && base == RowBase(p, y)
    ensures PaintedByte(p, frame, y + 1, i, b)
            == if 4 * base <= i < 4 * base + 32 * p.bytes then RowByte(p, frame, y, i - 4 * base)
               else PaintedByte(p, frame, y, i, b)
  {
    if 4 * base <= i < 4 * base + 32 * p.bytes {
      InRow(p, y, base, 8 * p.bytes, i);
    } else if p.stride > 0 {
      OutsideRow(p, y, base, 8 * p.bytes, i);
    }
  }

  /** A row above or below the screen. */
  lemma HiddenRow(p: Placement, frame: seq<Byte>, y: nat, under: seq<Byte>)
    requires !(0 <= p.top + y < p.rows)
    ensures Painted(p, frame, y + 1, under) == Painted(p, frame, y, under)
  {
    forall i | 0 <= i < |under|
      ensures PaintedByte(p, frame, y + 1, i, under[i]) == PaintedByte(p, frame, y, i, under[i])
    {
      if p.stride > 0 { HiddenAt(p, frame, y, i / 4 / p.stride, i / 4 % p.stride, i % 4, under[i]); }
    }
    PaintedIs(p, frame, y + 1, under, Painted(p, frame, y, under));
  }

  lemma HiddenAt(p: Placement, frame: seq<Byte>, y: nat, row: nat, col: nat, k: nat, b: Byte)
    requires !(0 <= p.top + y < p.rows)
    ensures PaintedAt(p, frame, y + 1, row, col, k, b) == PaintedAt(p, frame, y, row, col, k, b)
  {
  }

  /** Copying `n` cells of one visible row from the finished picture. */
  lemma RowCopies(p: Placement, frame: seq<Byte>, y: nat, base: int, limit: nat, n: nat, under: seq<Byte>,
                  after: seq<Byte>)
    requires p.left + n <= p.stride && 8 * p.bytes <= n && 0 <= p.top + y < p.rows && y < limit && base == RowBase(p, y)
    requires 0 <= base && 4 * base + 4 * n <= |under|
    requires after == Spliced(Painted(p, frame, y, under), 4 * base,
                              Painted(p, frame, limit, under)[4 * base..4 * base + 4 * n])
    ensures after == Painted(p, frame, y + 1, under)
  {
    forall i | 0 <= i < |under|
      ensures after[i] == PaintedByte(p, frame, y + 1, i, under[i])
    {
      RowCopiesAt(p, frame, y, base, limit, n, i, under[i]);
    }
    PaintedIs(p, frame, y + 1, under, after);
  }

  lemma RowCopiesAt(p: Placement, frame: seq<Byte>, y: nat, base: int, limit: nat, n: nat, i: nat, b: Byte)
    requires p.left + n <= p.stride && 8 * p.bytes <= n && 0 <= p.top + y < p.rows && y < limit && base == RowBase(p, y)
    ensures PaintedByte(p, frame, y + 1, i, b)
            == PaintedByte(p, frame, if 4 * base <= i < 4 * base + 4 * n then limit else y, i, b)
  {
    if 4 * base <= i < 4 * base + 4 * n {
      InRow(p, y, base, n, i);
    } else if p.stride > 0 {
      OutsideRow(p, y, base, n, i);
    }
  }

  /** Row `y`, if it is visible, lies in a buffer that holds all rows. */
  lemma RowFits(p: Placement, y: nat, n: nat, size: nat)
    requires 0 <= p.top + y < p.rows && p.left + n <= p.stride && 4 * (p.stride * p.rows) <= size
    ensures 0 <= RowBase(p, y) && 4 * RowBase(p, y) + 4 * n <= size
  {
    MulStep(p.stride, p.top + y, p.rows);
    assert p.stride * (p.top + y) == (p.top + y) * p.stride;
  }

  // The system call.

  class Screen {
    const width: nat
    const height: nat
    const pitch: nat
    const vram: array<Byte>
    var backbuffer: array?<Byte>

    constructor (width: nat, height: nat, pitch: nat, vram: array<Byte>)
      requires width <= pitch / 4 && width < 0x8000_0000 && height < 0x8000_0000 && vram.Length == pitch * height
      ensures Valid() && backbuffer == null
      ensures this.width == width && this.height == height && this.pitch == pitch && this.vram == vram
    {
      this.width, this.height, this.pitch, this.vram := width, height, pitch, vram;
      backbuffer := null;
    }

    /** Rows fit the pitch, sizes fit an `int`, and once there is a back buffer, video memory equals it. */
    ghost predicate Valid()
      reads this, vram, backbuffer
    {
      && width <= pitch / 4 && width < 0x8000_0000 && height < 0x8000_0000 && vram.Length == pitch * height
      && (backbuffer != null ==> backbuffer != vram && backbuffer.Length == vram.Length && backbuffer[..] == vram[..])
    }

    ghost function Place(w: nat, h: int): Placement
      requires w <= width
    {
      Placement(pitch / 4, height, (width - w) / 2, (height - h) / 2, w / 8)
    }

    /** The picture: nothing but zeros before the first draw. */
    ghost function Picture(): seq<Byte>
      reads this, backbuffer
    {
      if backbuffer == null then Zeros(pitch * height) else backbuffer[..]
    }

    lemma PlaceFits(w: nat, h: int)
      requires w <= width && width <= pitch / 4
      ensures Inside(Place(w, h)) && Place(w, h).left + w <= Place(w, h).stride
      ensures 4 * (Place(w, h).stride * Place(w, h).rows) <= pitch * height
    {
    }

    /** The first draw allocates the back buffer, clears it, and clears the screen with it. */
    method Prepare()
      requires Valid()
      modifies this`backbuffer, vram
      ensures Valid() && backbuffer != null && backbuffer[..] == old(Picture())
      ensures backbuffer == old(backbuffer) || fresh(backbuffer)
    {
      if backbuffer == null {
        var buf := new Byte[pitch * height];
        for i := 0 to buf.Length
          invariant forall j :: 0 <= j < i ==> buf[j] == 0
        {
          buf[i] := 0;
        }
        var _ := FastCopy(vram, 0, buf, 0, buf.Length);
        backbuffer := buf;
        assert buf[..] == Zeros(pitch * height);
      }
    }

    /** Row `y` of the frame, to be written at cell `cell`. */
    method PaintRow(buf: array<Byte>, cell: nat, frame: seq<Byte>, y: nat, ghost p: Placement, bytesPerRow: nat)
      requires p.bytes == bytesPerRow && 4 * cell + 32 * bytesPerRow <= buf.Length
        && y * bytesPerRow + bytesPerRow <= |frame|
      modifies buf
      ensures forall i :: 0 <= i < buf.Length ==>
                buf[i] == if 4 * cell <= i < 4 * cell + 32 * bytesPerRow then RowByte(p, frame, y, i - 4 * cell)
                  else old(buf[i])
    {
      for b := 0 to bytesPerRow
        invariant forall i :: 0 <= i < buf.Length ==>
                    buf[i] == if 4 * cell <= i < 4 * cell + 32 * b then RowByte(p, frame, y, i - 4 * cell)
                      else old(buf[i])
      {
        PaintByte(buf, 4 * cell + 32 * b, frame[y * bytesPerRow + b]);
        ByteOfRow(p, frame, y, b);
      }
    }

    /** The eight stores for one byte of the frame. */
    method PaintByte(buf: array<Byte>, at: nat, bits: Byte)
      requires at + 32 <= buf.Length
      modifies buf
      ensures forall i :: 0 <= i < buf.Length ==>
                buf[i] == if at <= i < at + 32 then CellByte(TestBit(bits, (i - at) / 4), (i - at) % 4) else old(buf[i])
    {
      var white := Masked(bits);
      SetCells(buf, at, white[..4]);
      SetCells(buf, at + 16, white[4..]);
    }

    /** The eight tests. */
    static function Masked(bits: Byte): (r: seq<bool>)
      ensures |r| == 8 && forall k: nat :: k < 8 ==> r[k] == TestBit(bits, k)
    {
      MaskBits(bits);
      [BitAnd(bits, 0x01) != 0, BitAnd(bits, 0x02) != 0, BitAnd(bits, 0x04) != 0, BitAnd(bits, 0x08) != 0,
       BitAnd(bits, 0x10) != 0, BitAnd(bits, 0x20) != 0, BitAnd(bits, 0x40) != 0, BitAnd(bits, 0x80) != 0]
    }

    /** Half of the stores. */
    method SetCells(buf: array<Byte>, at: nat, white: seq<bool>)
      requires at + 16 <= buf.Length && |white| == 4
      modifies buf
      ensures forall i :: 0 <= i < buf.Length ==>
                buf[i] == if at <= i < at + 16 then CellByte(white[(i - at) / 4], (i - at) % 4) else old(buf[i])
    {
      SetCell(buf, at, white[0]);
      SetCell(buf, at + 4, white[1]);
      SetCell(buf, at + 8, white[2]);
      SetCell(buf, at + 12, white[3]);
    }

    /** Stores 0xFFFFFFFF or 0xFF000000. */
    method SetCell(buf: array<Byte>, k: nat, white: bool)
      requires k + 4 <= buf.Length
      modifies buf
      ensures forall i :: 0 <= i < buf.Length ==> buf[i] == if k <= i < k + 4 then CellByte(white, i - k)
              else old(buf[i])
    {
      var low := if white then 0xFF else 0x00;
      buf[k], buf[k + 1], buf[k + 2], buf[k + 3] := low, low, low, 0xFF;
    }

    static lemma MaskBits(bits: Byte)
      ensures (BitAnd(bits, 0x01) != 0 <==> TestBit(bits, 0)) && (BitAnd(bits, 0x02) != 0 <==> TestBit(bits, 1))
      ensures (BitAnd(bits, 0x04) != 0 <==> TestBit(bits, 2)) && (BitAnd(bits, 0x08) != 0 <==> TestBit(bits, 3))
      ensures (BitAnd(bits, 0x10) != 0 <==> TestBit(bits, 4)) && (BitAnd(bits, 0x20) != 0 <==> TestBit(bits, 5))
      ensures (BitAnd(bits, 0x40) != 0 <==> TestBit(bits, 6)) && (BitAnd(bits, 0x80) != 0 <==> TestBit(bits, 7))
    {
      assert Pow2(1) == 2 && Pow2(2) == 4 && Pow2(3) == 8 && Pow2(4) == 16 && Pow2(5) == 32 && Pow2(6) == 64;
      Powers();
      AndPow2(bits, 0);
      AndPow2(bits, 1);
      AndPow2(bits, 2);
      AndPow2(bits, 3);
      AndPow2(bits, 4);
      AndPow2(bits, 5);
      AndPow2(bits, 6);
      AndPow2(bits, 7);
    }

    static lemma ByteOfRow(p: Placement, frame: seq<Byte>, y: nat, b: nat)
      requires b < p.bytes && y * p.bytes + p.bytes <= |frame|
      ensures forall j :: 0 <= j < 32 ==>
                RowByte(p, frame, y, 32 * b + j) == CellByte(TestBit(frame[y * p.bytes + b], j / 4), j % 4)
    {
      var t := y * p.bytes;
      forall j | 0 <= j < 32
        ensures RowByte(p, frame, y, 32 * b + j) == CellByte(TestBit(frame[t + b], j / 4), j % 4)
      {
        var k := 8 * t + (32 * b + j) / 4;
        assert k / 8 == t + b && k % 8 == j / 4;
      }
    }

    /** The first loop over the rows. */
    method PaintRows(buf: array<Byte>, frame: seq<Byte>, h: int, startX: nat, startY: int, bytesPerRow: nat,
                     ghost p: Placement)
      requires p == Placement(pitch / 4, height, startX, startY, bytesPerRow) && Inside(p)
      requires 4 * (p.stride * p.rows) <= buf.Length && (h > 0 ==> h * bytesPerRow <= |frame|)
      modifies buf
      ensures h > 0 ==> buf[..] == Painted(p, frame, h, old(buf[..]))
      ensures h <= 0 ==> buf[..] == old(buf[..])
    {
      ghost var under := buf[..];
      NoRows(p, frame, under);
      var y: nat := 0;
      while y < h
        invariant (y <= h || y == 0) && buf[..] == Painted(p, frame, y, under)
      {
        var screenY := startY + y;
        if screenY < 0 || screenY >= height {
          HiddenRow(p, frame, y, under);
        } else {
          RowFits(p, y, 8 * bytesPerRow, buf.Length);
          FrameRow(y, h, bytesPerRow);
          ghost var now := buf[..];
          var cell := screenY * (pitch / 4) + startX;
          PaintRow(buf, cell, frame, y, p, bytesPerRow);
          RowPaints(p, frame, y, cell, under, now, buf[..]);
        }
        y := y + 1;
      }
    }

    static lemma NoRows(p: Placement, frame: seq<Byte>, under: seq<Byte>)
      ensures Painted(p, frame, 0, under) == under
    {
    }

    static lemma FrameRow(y: nat, h: nat, n: nat)
      requires y < h
      ensures y * n + n <= h * n
    {
      MulStep(n, y, h);
    }

    /** The second loop over the rows. */
    method CopyRows(buf: array<Byte>, w: nat, h: int, startX: nat, startY: int, ghost p: Placement,
                    ghost frame: seq<Byte>, ghost under: seq<Byte>)
      requires buf != vram && buf.Length == vram.Length && h > 0
      requires p == Placement(pitch / 4, height, startX, startY, w / 8) && startX + w <= pitch / 4
      requires 4 * (p.stride * p.rows) <= buf.Length
      requires vram[..] == under && buf[..] == Painted(p, frame, h, under)
      modifies vram
      ensures vram[..] == buf[..]
    {
      NoRows(p, frame, under);
      var y: nat := 0;
      while y < h
        invariant y <= h && vram[..] == Painted(p, frame, y, under)
      {
        CopyRow(buf, w, h, startX, startY, y, p, frame, under);
        y := y + 1;
      }
    }

    method CopyRow(buf: array<Byte>, w: nat, ghost h: int, startX: nat, startY: int, y: nat,
                   ghost p: Placement, ghost frame: seq<Byte>, ghost under: seq<Byte>)
      requires buf != vram && buf.Length == vram.Length && y < h
      requires p == Placement(pitch / 4, height, startX, startY, w / 8) && startX + w <= pitch / 4
      requires 4 * (p.stride * p.rows) <= buf.Length
      requires vram[..] == Painted(p, frame, y, under) && buf[..] == Painted(p, frame, h, under)
      modifies vram
      ensures vram[..] == Painted(p, frame, y + 1, under)
    {
      var screenY := startY + y;
      if screenY < 0 || screenY >= height {
        HiddenRow(p, frame, y, under);
      } else {
        RowFits(p, y, w, buf.Length);
        var rowOffset := screenY * (pitch / 4) + startX;
        var _ := FastCopy(vram, 4 * rowOffset, buf, 4 * rowOffset, 4 * w);
        RowCopies(p, frame, y, rowOffset, h, w, under, vram[..]);
      }
    }

    /**
     The four bytes of the cell where pixel (`x`, `y`) of a frame in the middle of the screen is shown, if that row is
     on the screen: all bits set for white, all but those of the top byte clear for black.
     */
    ghost predicate PixelShown(picture: seq<Byte>, w: nat, h: int, x: nat, y: nat, white: bool) {
      var row, col := (height - h) / 2 + y, (width - w) / 2 + x;
      0 <= row < height ==>
        && 0 <= 4 * (row * (pitch / 4) + col) && 4 * (row * (pitch / 4) + col) + 4 <= |picture|
        && picture[4 * (row * (pitch / 4) + col)..4 * (row * (pitch / 4) + col) + 4]
           == if white then [255, 255, 255, 255] else [0, 0, 0, 255]
    }

    /** A cell outside the frame is what it was. */
    ghost predicate CellKept(picture: seq<Byte>, before: seq<Byte>, w: nat, h: int, row: nat, col: nat) {
      var at := 4 * (row * (pitch / 4) + col);
      !InFrame(w, h, row, col) ==>
        at + 4 <= |picture| && at + 4 <= |before| && picture[at..at + 4] == before[at..at + 4]
    }

    predicate InFrame(w: nat, h: int, row: nat, col: nat) {
      && (height - h) / 2 <= row < (height - h) / 2 + h
      && (width - w) / 2 <= col < (width - w) / 2 + 8 * (w / 8)
    }

    lemma PaintedOutside(frame: seq<Byte>, w: nat, h: int, under: seq<Byte>, row: nat, col: nat)
      requires w <= width <= pitch / 4 && |under| == pitch * height && row < height && col < pitch / 4 && h > 0
      ensures CellKept(Painted(Place(w, h), frame, h, under), under, w, h, row, col)
    {
      CellInside(row, col);
      if !InFrame(w, h, row, col) {
        CellsOutside(Place(w, h), frame, h, under, row, col, row * (pitch / 4) + col);
      }
    }

    lemma AllOutside(frame: seq<Byte>, w: nat, h: int, under: seq<Byte>, picture: seq<Byte>)
      requires w <= width <= pitch / 4 && |under| == pitch * height
      requires picture == if h > 0 then Painted(Place(w, h), frame, h, under) else under
      ensures forall row: nat, col: nat :: row < height && col < pitch / 4 ==> CellKept(picture, under, w, h, row, col)
    {
      forall row: nat, col: nat | row < height && col < pitch / 4
        ensures CellKept(picture, under, w, h, row, col)
      {
        if h > 0 { PaintedOutside(frame, w, h, under, row, col); } else { CellInside(row, col); }
      }
    }

    /** Bit `x` of row `y`, of `w / 8` bytes a row and with the lowest bit first. */
    predicate RowBit(frame: seq<Byte>, w: nat, x: nat, y: nat) {
      y * (w / 8) + x / 8 < |frame| && frame[y * (w / 8) + x / 8] / Pow2(x % 8) % 2 == 1
    }

    lemma PaintedPixel(frame: seq<Byte>, w: nat, h: int, under: seq<Byte>, x: nat, y: nat)
      requires w <= width <= pitch / 4 && |under| == pitch * height && x < 8 * (w / 8) && y < h
      ensures PixelShown(Painted(Place(w, h), frame, h, under), w, h, x, y, RowBit(frame, w, x, y))
    {
      var p, row, col := Place(w, h), (height - h) / 2 + y, (width - w) / 2 + x;
      if 0 <= row < height {
        PlaceFits(w, h);
        CellInside(row, col);
        var at := 4 * (row * (pitch / 4) + col);
        FrameBitOfRow(frame, w, x, y);
        forall i: nat | at <= i < at + 4
          ensures Painted(p, frame, h, under)[i] == CellByte(RowBit(frame, w, x, y), i - at)
        {
          CellShows(p, frame, h, under, x, y, i);
        }
      }
    }

    lemma PaintedPixels(frame: seq<Byte>, w: nat, h: int, under: seq<Byte>)
      requires w <= width <= pitch / 4 && |under| == pitch * height
      ensures forall x: nat, y: nat :: x < 8 * (w / 8) && y < h ==>
                PixelShown(Painted(Place(w, h), frame, h, under), w, h, x, y, RowBit(frame, w, x, y))
    {
      forall x: nat, y: nat | x < 8 * (w / 8) && y < h
        ensures PixelShown(Painted(Place(w, h), frame, h, under), w, h, x, y, RowBit(frame, w, x, y))
      {
        PaintedPixel(frame, w, h, under, x, y);
      }
    }

    lemma CellInside(row: nat, col: nat)
      requires row < height && col < pitch / 4
      ensures 4 * (row * (pitch / 4) + col) + 4 <= pitch * height
    {
      var n := pitch / 4;
      MulStep(n, row, height);
      assert row * n == n * row;
      assert pitch * height == 4 * (n * height) + pitch % 4 * height;
    }

    static lemma TestBitIs(b: nat, k: nat)
      ensures TestBit(b, k) <==> b / Pow2(k) % 2 == 1
      decreases k
    {
      if k > 0 {
        TestBitIs(b / 2, k - 1);
        HalveFirst(b, Pow2(k - 1));
      }
    }

    lemma FrameBitOfRow(frame: seq<Byte>, w: nat, x: nat, y: nat)
      ensures FrameBit(frame, 8 * (y * (w / 8)) + x) <==> RowBit(frame, w, x, y)
    {
      var t := y * (w / 8);
      assert (8 * t + x) / 8 == t + x / 8 && (8 * t + x) % 8 == x % 8;
      if t + x / 8 < |frame| { TestBitIs(frame[t + x / 8], x % 8); }
    }

    /** System call 4. The frame has `h` rows of `w / 8` bytes. */
    method Draw(frame: seq<Byte>, w: nat, h: int)
      requires Valid() && w <= width && -0x8000_0000 <= h < 0x8000_0000 && (h > 0 ==> h * (w / 8) <= |frame|)
      modifies this`backbuffer, vram, backbuffer
      ensures Valid() && backbuffer != null && (backbuffer == old(backbuffer) || fresh(backbuffer))
      ensures vram[..] == backbuffer[..] == Picture()
      ensures Picture() == if h > 0 then Painted(Place(w, h), frame, h, old(Picture())) else old(Picture())
      ensures forall x: nat, y: nat :: x < 8 * (w / 8) && y < h ==>
                PixelShown(vram[..], w, h, x, y, RowBit(frame, w, x, y))
      ensures forall row: nat, col: nat :: row < height && col < pitch / 4 ==>
                CellKept(vram[..], old(Picture()), w, h, row, col)
    {
      Prepare();
      var startX, startY := Start(width, w), Start(height, h);
      StartIsFloor(width, w);
      StartIsFloor(height, h);
      PlaceFits(w, h);
      ghost var p, under := Place(w, h), backbuffer[..];
      PaintRows(backbuffer, frame, h, startX, startY, w / 8, p);
      if h > 0 {
        CopyRows(backbuffer, w, h, startX, startY, p, frame, under);
        PaintedPixels(frame, w, h, under);
      }
      AllOutside(frame, w, h, under, vram[..]);
    }
  }
}
