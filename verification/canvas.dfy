/**
 * The fixed-size RGBA frame buffer and the clamped rectangle fill `rect`.
 * The buffer is row-major with four bytes (R, G, B, A) per pixel; pixel
 * (i, j) is column i of row j. The exclusively borrowed `&mut [u8]` frame is
 * modelled as a byte sequence passed in and returned.
 */
module Canvas {
  import opened Ints

  /** Surface size in pixels. */
  const WIDTH: nat := 1280
  const HEIGHT: nat := 720

  /** Bytes in a whole frame of WIDTH x HEIGHT pixels. */
  const FRAME_LEN: nat := WIDTH * HEIGHT * 4

  /** A colour as the four bytes R, G, B, A. */
  type Color = c: seq<byte> | |c| == 4 witness [0, 0, 0, 0]

  function Min(a: int, b: int): int
  {
    if a < b then a else b
  }

  /** Index of the first byte of pixel (i, j). */
  function Offset(i: nat, j: nat): nat
  {
    (j * WIDTH + i) * 4
  }

  /** Column, row and channel that byte k of the buffer belongs to. */
  function Column(k: nat): nat
  {
    (k / 4) % WIDTH
  }

  function Row(k: nat): nat
  {
    k / 4 / WIDTH
  }

  function Channel(k: nat): nat
  {
    k % 4
  }

  /** The four bytes of pixel (i, j). */
  function PixelAt(frame: seq<byte>, i: nat, j: nat): Color
    requires Offset(i, j) + 4 <= |frame|
  {
    frame[Offset(i, j)..Offset(i, j) + 4]
  }

  /** Byte k belongs to pixel (i, j) exactly when it lies in that pixel's four bytes. */
  lemma ByteOfPixel(k: nat, i: nat, j: nat)
    requires i < WIDTH
    ensures (Column(k) == i && Row(k) == j) <==> Offset(i, j) <= k < Offset(i, j) + 4
    ensures Offset(i, j) <= k < Offset(i, j) + 4 ==> Channel(k) == k - Offset(i, j)
  {
    var p := k / 4;
    assert k == 4 * p + k % 4;
    assert p == WIDTH * (p / WIDTH) + p % WIDTH;
    if Offset(i, j) <= k < Offset(i, j) + 4 {
      assert p == j * WIDTH + i;
      DivModWidth(p, j, i);
    }
  }

  lemma DivModWidth(n: nat, q: nat, r: nat)
    requires r < WIDTH && n == q * WIDTH + r
    ensures n / WIDTH == q && n % WIDTH == r
  {
  }

  /**
   * Pixel (i, j) lies in the rectangle with corner (x, y) and the given
   * width and height, after clamping its right and bottom edges to the surface.
   */
  predicate InRect(x: nat, y: nat, width: nat, height: nat, i: nat, j: nat)
  {
    x <= i < Min(WIDTH, x + width) && y <= j < Min(HEIGHT, y + height)
  }

  /** Every byte the fill writes lies inside a buffer of length len. */
  predicate Fits(len: nat, x: nat, y: nat, width: nat, height: nat)
  {
    var xEnd := Min(WIDTH, x + width);
    var yEnd := Min(HEIGHT, y + height);
    xEnd <= x || yEnd <= y || Offset(xEnd - 1, yEnd - 1) + 4 <= len
  }

  /** Reference definition of the fill: each byte of a clamped pixel takes its channel of the colour. */
  function Painted(frame: seq<byte>, x: nat, y: nat, width: nat, height: nat, color: Color): seq<byte>
  {
    seq(|frame|, k requires 0 <= k < |frame| =>
      if InRect(x, y, width, height, Column(k), Row(k)) then color[Channel(k)] else frame[k])
  }

  /** `copy_from_slice` of a colour into the four bytes from offset. */
  function WritePixel(frame: seq<byte>, offset: nat, color: Color): (r: seq<byte>)
    requires offset + 4 <= |frame|
    ensures |r| == |frame|
    ensures forall k :: 0 <= k < |r| ==>
      r[k] == if offset <= k < offset + 4 then color[k - offset] else frame[k]
  {
    frame[..offset] + color + frame[offset + 4..]
  }

  /**
   * Each pixel of the buffer is the colour after the fill when it lies in the
   * clamped rectangle and keeps its old bytes when it does not.
   */
  lemma PaintedPixel(frame: seq<byte>, x: nat, y: nat, width: nat, height: nat, color: Color, i: nat, j: nat)
    requires i < WIDTH && Offset(i, j) + 4 <= |frame|
    ensures PixelAt(Painted(frame, x, y, width, height, color), i, j)
         == if InRect(x, y, width, height, i, j) then color else PixelAt(frame, i, j)
  {
    var painted := Painted(frame, x, y, width, height, color);
    var expected := if InRect(x, y, width, height, i, j) then color else PixelAt(frame, i, j);
    forall t | 0 <= t < 4
      ensures PixelAt(painted, i, j)[t] == expected[t]
    {
      PaintedByte(frame, x, y, width, height, color, i, j, t);
    }
  }

  /** The byte of channel t of pixel (i, j) after the fill. */
  lemma PaintedByte(frame: seq<byte>, x: nat, y: nat, width: nat, height: nat, color: Color, i: nat, j: nat, t: nat)
    requires i < WIDTH && t < 4 && Offset(i, j) + 4 <= |frame|
    ensures Painted(frame, x, y, width, height, color)[Offset(i, j) + t]
         == if InRect(x, y, width, height, i, j) then color[t] else frame[Offset(i, j) + t]
  {
    ByteOfPixel(Offset(i, j) + t, i, j);
  }

  /** Every pixel of the clamped rectangle lies inside a buffer the fill fits in. */
  lemma FitsCoversRect(len: nat, x: nat, y: nat, width: nat, height: nat, i: nat, j: nat)
    requires Fits(len, x, y, width, height) && InRect(x, y, width, height, i, j)
    ensures Offset(i, j) + 4 <= len
  {
  }

  /**
   * A whole frame is long enough for any rectangle, however far its right or
   * bottom edge reaches past the surface, and no offset leaves `u32`.
   */
  lemma FullFrameFits(x: nat, y: nat, width: nat, height: nat, i: nat, j: nat)
    ensures Fits(FRAME_LEN, x, y, width, height)
    ensures InRect(x, y, width, height, i, j) ==> Offset(i, j) + 4 <= FRAME_LEN < U32_LIMIT
  {
  }

  /** An empty or off-surface rectangle leaves the buffer as it was. */
  lemma PaintedNoOp(frame: seq<byte>, x: nat, y: nat, width: nat, height: nat, color: Color)
    requires width == 0 || height == 0 || x >= WIDTH || y >= HEIGHT
    ensures Painted(frame, x, y, width, height, color) == frame
  {
  }

  /** Filling the same rectangle twice with the same colour is filling it once. */
  lemma PaintedIdempotent(frame: seq<byte>, x: nat, y: nat, width: nat, height: nat, color: Color)
    ensures var once := Painted(frame, x, y, width, height, color);
            Painted(once, x, y, width, height, color) == once
  {
  }

  /** A full-surface fill leaves nothing of the previous picture visible. */
  lemma PaintedClearsSurface(f1: seq<byte>, f2: seq<byte>, color: Color)
    requires |f1| == |f2| == FRAME_LEN
    ensures Painted(f1, 0, 0, WIDTH, HEIGHT, color) == Painted(f2, 0, 0, WIDTH, HEIGHT, color)
  {
    forall k | 0 <= k < FRAME_LEN
      ensures InRect(0, 0, WIDTH, HEIGHT, Column(k), Row(k))
    {
    }
  }

  /** Pixels of the rectangle already written when the loops stand at column i, row j. */
  predicate Done(x: nat, y: nat, width: nat, height: nat, i: nat, j: nat, k: nat)
  {
    InRect(x, y, width, height, Column(k), Row(k)) && (Column(k) < i || (Column(k) == i && Row(k) < j))
  }

  /**
   * `rect`: columns outer, rows inner, each pixel overwritten with the colour.
   * The caller must keep `x + width` within `u32`, and `y + height` as well
   * whenever the column range is non-empty (only then is the row range
   * evaluated), and give a buffer long enough for the last pixel written.
   */
  method Rect(x: uint32, y: uint32, width: uint32, height: uint32, color: Color, frame: seq<byte>)
    returns (out: seq<byte>)
    requires x + width < U32_LIMIT
    requires x < Min(WIDTH, x + width) ==> y + height < U32_LIMIT
    requires Fits(|frame|, x, y, width, height)
    ensures out == Painted(frame, x, y, width, height, color)
    ensures forall i: nat, j: nat :: i < WIDTH && Offset(i, j) + 4 <= |frame| ==>
      PixelAt(out, i, j) == if InRect(x, y, width, height, i, j) then color else PixelAt(frame, i, j)
  {
    var xEnd := Min(WIDTH, x + width);
    out := frame;
    var i := x;
    while i < xEnd
      invariant x <= i && (i <= xEnd || i == x)
      invariant |out| == |frame|
      invariant forall k :: 0 <= k < |out| ==>
        out[k] == if Done(x, y, width, height, i, 0, k) then color[Channel(k)] else frame[k]
    {
      var yEnd := Min(HEIGHT, y + height);
      var j := y;
      while j < yEnd
        invariant y <= j && (j <= yEnd || j == y)
        invariant |out| == |frame|
        invariant forall k :: 0 <= k < |out| ==>
          out[k] == if Done(x, y, width, height, i, j, k) then color[Channel(k)] else frame[k]
      {
        var index := Offset(i, j);
        forall k | 0 <= k < |out|
          ensures (Column(k) == i && Row(k) == j) <==> index <= k < index + 4
          ensures index <= k < index + 4 ==> Channel(k) == k - index
        {
          ByteOfPixel(k, i, j);
        }
        out := WritePixel(out, index, color);
        j := j + 1;
      }
      i := i + 1;
    }
    forall i: nat, j: nat | i < WIDTH && Offset(i, j) + 4 <= |frame|
      ensures PixelAt(out, i, j) == if InRect(x, y, width, height, i, j) then color else PixelAt(frame, i, j)
    {
      PaintedPixel(frame, x, y, width, height, color, i, j);
    }
  }
}
