/** The pixel loops of compress_image_to_jpeg for YUYV and UYVY frames. */
module Pixels {
  import opened Words

  datatype Format = Yuyv | Uyvy

  // Byte positions within a macropixel of four bytes, two pixels.

  function LumaAt(f: Format, z: nat): nat { 2 * z + if f == Uyvy then 1 else 0 }

  function UAt(f: Format): nat { if f == Yuyv then 1 else 0 }

  function VAt(f: Format): nat { if f == Yuyv then 3 else 2 }

  function Clamp(v: int): Byte { if v > 255 then 255 else if v < 0 then 0 else v }

  /** Red, green and blue; >> 8 on a negative int rounds down. */
  function Rgb(luma: Byte, uByte: Byte, vByte: Byte): (p: seq<Byte>)
    ensures |p| == 3
  {
    var y: int := luma * 256;
    var u: int, v: int := uByte - 128, vByte - 128;
    [Clamp((y + 359 * v) / 256), Clamp((y - 88 * u - 183 * v) / 256), Clamp((y + 454 * u) / 256)]
  }

  /** The pixels in the frame's whole macropixels. */
  function Count(frame: seq<Byte>): nat { 2 * (|frame| / 4) }

  lemma PixelFits(frame: seq<Byte>, k: nat)
    requires k < Count(frame)
    ensures 4 * (k / 2) + 4 <= |frame|
  {
    assert k / 2 < |frame| / 4;
  }

  /** The bytes read for n pixels: two per pixel, and two more when n is odd, since macropixels are read whole. */
  function BytesFor(n: nat): nat { if n % 2 == 0 then 2 * n else 2 * n + 2 }

  lemma EnoughBytes(frame: seq<Byte>, n: nat)
    ensures n <= Count(frame) <==> BytesFor(n) <= |frame|
  {
  }

  /** Pixel k of the frame: the luma of its own half of macropixel k / 2, the chroma of the whole. */
  function PixelOf(f: Format, frame: seq<Byte>, k: nat): (p: seq<Byte>)
    requires k < Count(frame)
    ensures |p| == 3
  {
    PixelFits(frame, k);
    var m := 4 * (k / 2);
    Rgb(frame[m + LumaAt(f, k % 2)], frame[m + UAt(f)], frame[m + VAt(f)])
  }

  /** `count` pixels from pixel k on. */
  function PixelsOf(f: Format, frame: seq<Byte>, k: nat, count: nat): (s: seq<Byte>)
    requires k + count <= Count(frame)
    ensures |s| == 3 * count
  {
    if count == 0 then [] else PixelsOf(f, frame, k, count - 1) + PixelOf(f, frame, k + count - 1)
  }

  /** One row; yuyv and z come from the previous row and go on to the next. */
  method ConvertRow(f: Format, frame: seq<Byte>, line: array<Byte>, width: nat, yuyv0: nat, z0: nat, ghost k: nat)
    returns (yuyv: nat, z: nat)
    requires line.Length == 3 * width && k + width <= Count(frame)
    requires yuyv0 == 4 * (k / 2) && z0 == k % 2
    modifies line
    ensures line[..] == PixelsOf(f, frame, k, width)
    ensures yuyv == 4 * ((k + width) / 2) && z == (k + width) % 2
  {
    hide Rgb, PixelOf, LumaAt, UAt, VAt, Count;
    yuyv, z := yuyv0, z0;
    var ptr := 0;
    var x := 0;
    while x < width
      invariant x <= width && ptr == 3 * x
      invariant yuyv == 4 * ((k + x) / 2) && z == (k + x) % 2
      invariant line[..ptr] == PixelsOf(f, frame, k, x)
    {
      var rgb := PixelAt(f, frame, yuyv, z, k + x);
      line[ptr], line[ptr + 1], line[ptr + 2] := rgb[0], rgb[1], rgb[2];
      assert line[..ptr + 3] == line[..ptr] + rgb;
      ptr := ptr + 3;
      if z == 1 {
        z := 0;
        yuyv := yuyv + 4;
      } else {
        z := 1;
      }
      x := x + 1;
    }
    assert line[..] == line[..ptr];
  }

  /** The loop's arithmetic at yuyv. */
  method PixelAt(f: Format, frame: seq<Byte>, yuyv: nat, z: nat, ghost k: nat) returns (rgb: seq<Byte>)
    requires k < Count(frame) && yuyv == 4 * (k / 2) && z == k % 2
    ensures yuyv + 4 <= |frame| && rgb == PixelOf(f, frame, k) && |rgb| == 3
  {
    hide Rgb;
    PixelFits(frame, k);
    rgb := Rgb(frame[yuyv + LumaAt(f, z)], frame[yuyv + UAt(f)], frame[yuyv + VAt(f)]);
  }

  /** All rows, as handed to the compressor; nothing behind the needed bytes is read. */
  method Convert(f: Format, frame: seq<Byte>, width: nat, height: nat) returns (rows: seq<seq<Byte>>)
    requires BytesFor(width * height) <= |frame|
    ensures |rows| == height
    ensures forall i :: 0 <= i < height ==>
              i * width + width <= Count(frame) && rows[i] == PixelsOf(f, frame, i * width, width)
    ensures forall i :: 0 <= i < height ==> RowShows(f, frame, i * width, width, rows[i])
  {
    hide PixelsOf, RowShows, Count;
    EnoughBytes(frame, width * height);
    rows := ConvertRows(f, frame, width, height);
    forall i | 0 <= i < height
      ensures RowShows(f, frame, i * width, width, rows[i])
    {
      PixelsShow(f, frame, i * width, width);
    }
  }

  method ConvertRows(f: Format, frame: seq<Byte>, width: nat, height: nat) returns (rows: seq<seq<Byte>>)
    requires width * height <= Count(frame)
    ensures |rows| == height
    ensures forall i :: 0 <= i < height ==>
              i * width + width <= Count(frame) && rows[i] == PixelsOf(f, frame, i * width, width)
  {
    hide PixelsOf, Count;
    var line := new Byte[3 * width](_ => 0);
    rows := [];
    var yuyv, z := 0, 0;
    while |rows| < height
      invariant |rows| <= height && |rows| * width <= width * height
      invariant yuyv == 4 * ((|rows| * width) / 2) && z == (|rows| * width) % 2
      invariant forall i :: 0 <= i < |rows| ==>
                  i * width + width <= Count(frame) && rows[i] == PixelsOf(f, frame, i * width, width)
    {
      ghost var n := |rows|;
      RowFits(n, width, height);
      yuyv, z := ConvertRow(f, frame, line, width, yuyv, z, n * width);
      rows := rows + [line[..]];
    }
  }

  lemma RowFits(n: nat, width: nat, height: nat)
    requires n < height
    ensures n * width + width == (n + 1) * width <= width * height
  {
    assert (height - n - 1) * width >= 0;
    assert (height - n - 1) * width == height * width - n * width - width;
  }

  lemma {:induction false} PixelsAt(f: Format, frame: seq<Byte>, k: nat, count: nat, x: nat)
    requires k + count <= Count(frame) && x < count
    ensures PixelsOf(f, frame, k, count)[3 * x..3 * x + 3] == PixelOf(f, frame, k + x)
  {
    hide PixelOf, Count;
    var s, last := PixelsOf(f, frame, k, count - 1), PixelOf(f, frame, k + count - 1);
    assert PixelsOf(f, frame, k, count) == s + last;
    hide PixelsOf;
    if x < count - 1 {
      PixelsAt(f, frame, k, count - 1, x);
      assert (s + last)[3 * x..3 * x + 3] == s[3 * x..3 * x + 3];
    } else {
      assert (s + last)[3 * x..3 * x + 3] == last;
    }
  }

  /** The bytes of every pair exchanged. */
  function Swapped(frame: seq<Byte>): (s: seq<Byte>)
    ensures |s| == |frame|
  {
    seq(|frame|, i requires 0 <= i < |frame| =>
      frame[if i % 2 == 1 then i - 1 else if i + 1 < |frame| then i + 1 else i])
  }

  lemma SwappedPair(frame: seq<Byte>, h: nat)
    requires 2 * h + 1 < |frame|
    ensures Swapped(frame)[2 * h] == frame[2 * h + 1] && Swapped(frame)[2 * h + 1] == frame[2 * h]
  {
  }

  lemma SwappedPixel(frame: seq<Byte>, k: nat)
    requires k < Count(frame)
    ensures PixelOf(Uyvy, Swapped(frame), k) == PixelOf(Yuyv, frame, k)
  {
    hide Rgb, Swapped, Count;
    PixelFits(frame, k);
    var h := k / 2;
    SwappedPair(frame, 2 * h);
    SwappedPair(frame, 2 * h + 1);
    if k % 2 == 0 {
      assert LumaAt(Uyvy, k % 2) == 1 && LumaAt(Yuyv, k % 2) == 0;
    } else {
      assert LumaAt(Uyvy, k % 2) == 3 && LumaAt(Yuyv, k % 2) == 2;
    }
  }

  /** The two formats differ only in the order of the bytes. */
  lemma {:induction false} SwappedFrame(frame: seq<Byte>, k: nat, count: nat)
    requires k + count <= Count(frame)
    ensures PixelsOf(Uyvy, Swapped(frame), k, count) == PixelsOf(Yuyv, frame, k, count)
    decreases count
  {
    hide Rgb, PixelOf, Swapped;
    if count > 0 {
      SwappedFrame(frame, k, count - 1);
      SwappedPixel(frame, k + count - 1);
    }
  }

  // ---- in bytes of the frame ----

  /** c is sum / 256 rounded down, limited to a byte. */
  predicate Channel(c: Byte, sum: int) {
    && (sum < 0 ==> c == 0)
    && (0 <= sum < 0x10000 ==> 256 * c <= sum < 256 * c + 256)
    && (sum >= 0x10000 ==> c == 255)
  }

  /** Red, green and blue of a pixel with these values, u and v around 0. */
  predicate Shows(p: seq<Byte>, y: int, u: int, v: int) {
    |p| == 3 && Channel(p[0], 256 * y + 359 * v) && Channel(p[1], 256 * y - 88 * u - 183 * v)
    && Channel(p[2], 256 * y + 454 * u)
  }

  /** p is pixel k of the frame: of the four bytes of its pair, YUYV has luma, u, luma, v, and UYVY u, luma, v, luma. */
  predicate ShowsPixel(f: Format, frame: seq<Byte>, k: nat, p: seq<Byte>) {
    var m := k / 2 * 4;
    m + 4 <= |frame| &&
    var a: int, b: int, c: int, d: int := frame[m], frame[m + 1], frame[m + 2], frame[m + 3];
    match f
    case Yuyv => Shows(p, if k % 2 == 0 then a else c, b - 128, d - 128)
    case Uyvy => Shows(p, if k % 2 == 0 then b else d, a - 128, c - 128)
  }

  function PixelIn(row: seq<Byte>, x: nat): seq<Byte>
    requires 3 * x + 3 <= |row|
  {
    row[3 * x..3 * x + 3]
  }

  /** The row shows `width` pixels of the frame, from pixel k on. */
  ghost predicate RowShows(f: Format, frame: seq<Byte>, k: nat, width: nat, row: seq<Byte>) {
    |row| == 3 * width && forall x :: 0 <= x < width ==> ShowsPixel(f, frame, k + x, PixelIn(row, x))
  }

  lemma RgbShows(luma: Byte, uByte: Byte, vByte: Byte)
    ensures Shows(Rgb(luma, uByte, vByte), luma, uByte - 128, vByte - 128)
  {
    var y: int, u: int, v: int := luma * 256, uByte - 128, vByte - 128;
    Limited(y + 359 * v);
    Limited(y - 88 * u - 183 * v);
    Limited(y + 454 * u);
  }

  lemma Limited(sum: int)
    ensures Channel(Clamp(sum / 256), sum)
  {
  }

  lemma PixelShows(f: Format, frame: seq<Byte>, k: nat)
    requires k < Count(frame)
    ensures ShowsPixel(f, frame, k, PixelOf(f, frame, k))
  {
    hide Rgb, Shows;
    PixelFits(frame, k);
    var m := 4 * (k / 2);
    RgbShows(frame[m + LumaAt(f, k % 2)], frame[m + UAt(f)], frame[m + VAt(f)]);
  }

  lemma PixelsShow(f: Format, frame: seq<Byte>, k: nat, width: nat)
    requires k + width <= Count(frame)
    ensures RowShows(f, frame, k, width, PixelsOf(f, frame, k, width))
  {
    hide PixelsOf, PixelOf, ShowsPixel, Count;
    var row := PixelsOf(f, frame, k, width);
    forall x | 0 <= x < width
      ensures ShowsPixel(f, frame, k + x, PixelIn(row, x))
    {
      PixelsAt(f, frame, k, width, x);
      PixelShows(f, frame, k + x);
    }
  }

  /** The colours are those of ITU-R BT.601 (r = y + 1.402 v, g = y - 0.344 u - 0.714 v, b = y + 1.772 u), here in
      thousandths, limited to a byte, to within one step of rounding down and a fifth. */
  lemma CloseToBt601(p: seq<Byte>, y: int, u: int, v: int)
    requires Shows(p, y, u, v) && 0 <= y < 256 && -128 <= u < 128 && -128 <= v < 128
    ensures p[0] > 0 ==> 1000 * p[0] <= 1000 * y + 1402 * v + 200
    ensures p[0] < 255 ==> 1000 * p[0] >= 1000 * y + 1402 * v - 1200
    ensures p[1] > 0 ==> 1000 * p[1] <= 1000 * y - 344 * u - 714 * v + 200
    ensures p[1] < 255 ==> 1000 * p[1] >= 1000 * y - 344 * u - 714 * v - 1200
    ensures p[2] > 0 ==> 1000 * p[2] <= 1000 * y + 1772 * u + 200
    ensures p[2] < 255 ==> 1000 * p[2] >= 1000 * y + 1772 * u - 1200
  {
  }

  /** A colour picture: the YUYV pair 128, 128, 128, 255 is two pixels of orange red. */
  lemma OrangeRed(p: seq<Byte>)
    requires ShowsPixel(Yuyv, [128, 128, 128, 255], 0, p)
    ensures p == [255, 37, 128]
  {
  }
}
