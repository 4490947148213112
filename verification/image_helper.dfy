/**
 * ImageHelper: the grayscale conversion. A 256x256x256 lookup table is
 * built once; MakeGrayscale2 then maps every 24-bit pixel of a bitmap
 * through it into a new bitmap, writing the gray value into all three
 * channels.
 *
 * The table formula is kept as the code has it: 0.3 R + 0.59 B + 0.11 B,
 * so the green channel is never read. It is evaluated in exact reals;
 * the double arithmetic of the code may round differently.
 */
module ImageHelper {
  import opened Bytes

  /** One table entry: (byte)(0.3 r + 0.59 b + 0.11 b). The green index `g` is unused, as in the code. */
  function TableEntry(r: int, g: int, b: int): (e: byte)
    requires 0 <= r < 256 && 0 <= g < 256 && 0 <= b < 256
    ensures e as int == (3 * r + 7 * b) / 10
  {
    var exact := 0.3 * r as real + 0.59 * b as real + 0.11 * b as real;
    var v := exact.Floor;
    assert v as real <= exact < v as real + 1.0;
    assert v * 10 <= 3 * r + 7 * b < v * 10 + 10;
    v as byte
  }

  /** The green index never changes a table entry. */
  lemma GreenIgnored(r: int, g: int, g': int, b: int)
    requires 0 <= r < 256 && 0 <= g < 256 && 0 <= g' < 256 && 0 <= b < 256
    ensures TableEntry(r, g, b) == TableEntry(r, g', b)
  {
  }

  /** In exact arithmetic the coefficients sum to one, so a gray pixel maps to its own value. */
  lemma GrayIsFixedPoint(v: int)
    requires 0 <= v < 256
    ensures 0.3 * v as real + 0.59 * v as real + 0.11 * v as real == v as real
    ensures TableEntry(v, v, v) as int == v
  {
  }

  /** Pure red 255 maps to 76: 0.3 * 255 = 76.5 is truncated, whatever the green value. */
  lemma FullRedEntry(g: int)
    requires 0 <= g < 256
    ensures TableEntry(255, g, 0) == 76
  {
  }

  /** The lookup table holds TableEntry at every index of [0, 255]^3. */
  ghost predicate IsGrayTable(t: array3<byte>)
    reads t
  {
    && t.Length0 == 256 && t.Length1 == 256 && t.Length2 == 256
    && forall r, g, b :: 0 <= r < 256 && 0 <= g < 256 && 0 <= b < 256 ==> t[r, g, b] == TableEntry(r, g, b)
  }

  /** A 24-bit bitmap: `height` rows of `stride` bytes, each row starting with `width` B,G,R triples. */
  datatype Bitmap = Bitmap(width: nat, height: nat, stride: nat, bits: array<byte>)
  {
    ghost predicate Valid()
    {
      stride >= 3 * width && bits.Length == height * stride
    }
  }

  /** The stride GDI+ gives a new 24-bit bitmap: 3 bytes a pixel, rounded up to a multiple of 4. */
  function AlignedStride(width: nat): (s: nat)
    ensures 3 * width <= s < 3 * width + 4 && s % 4 == 0
  {
    (3 * width + 3) / 4 * 4
  }

  /** Row y of a buffer of h rows of s bytes ends within the buffer. */
  lemma {:induction false} RowEnd(y: nat, h: nat, s: nat)
    requires y < h
    ensures y * s + s <= h * s
    decreases h - y
  {
    if y + 1 < h {
      RowEnd(y + 1, h, s);
      assert (y + 1) * s == y * s + s;
    } else {
      assert h * s == y * s + s;
    }
  }

  /** The three bytes of pixel x of row y lie within the buffer. */
  lemma PixelInBounds(y: nat, x: nat, h: nat, w: nat, s: nat)
    requires y < h && x < w && 3 * w <= s
    ensures y * s + 3 * x + 2 < h * s
  {
    RowEnd(y, h, s);
  }

  /** Byte j of row y sits at offset y * s + j, which division and remainder by s recover. */
  lemma RowColumn(y: nat, s: nat, j: nat)
    requires j < s
    ensures (y * s + j) / s == y && (y * s + j) % s == j
  {
    var a := y * s + j;
    var q, r := a / s, a % s;
    assert a == q * s + r && 0 <= r < s;
    if q > y {
      assert q * s == y * s + (q - y) * s;
      MulAtLeast(q - y, s);
    } else if q < y {
      assert y * s == q * s + (y - q) * s;
      MulAtLeast(y - q, s);
    }
  }

  /** k >= 1 copies of s add up to at least s. */
  lemma MulAtLeast(k: int, s: nat)
    requires k >= 1
    ensures k * s >= s
  {
    assert k * s == (k - 1) * s + s;
    assert (k - 1) * s >= 0;
  }

  /** Byte i of a buffer of h rows of s bytes lies in row i / s, column i % s. */
  lemma RowOf(i: nat, h: nat, s: nat)
    requires i < h * s
    ensures s > 0 && 0 <= i / s < h && 0 <= i % s < s && i == i / s * s + i % s
  {
    assert s != 0;
  }

  /** Whether the source layout and the new stride describe a well-formed conversion. */
  ghost predicate Layout(srcLength: int, width: nat, height: nat, srcStride: nat, dstStride: nat)
  {
    srcStride >= 3 * width && srcLength == height * srcStride && dstStride >= 3 * width
  }

  /** Byte i of the converted buffer: the gray value of its pixel, or 0 in the row padding. */
  function GrayByte(src: seq<byte>, width: nat, height: nat, srcStride: nat, dstStride: nat, i: nat): (v: byte)
    requires Layout(|src|, width, height, srcStride, dstStride)
    requires i < height * dstStride
  {
    RowOf(i, height, dstStride);
    var y := i / dstStride;
    var col := i % dstStride;
    if col < 3 * width then
      var x := col / 3;
      PixelInBounds(y, x, height, width, srcStride);
      var o := y * srcStride + 3 * x;
      TableEntry(src[o + 2] as int, src[o + 1] as int, src[o] as int)
    else
      0
  }

  /** The converted buffer: `height` rows of `dstStride` bytes. */
  function Grayscale(src: seq<byte>, width: nat, height: nat, srcStride: nat, dstStride: nat): (dst: seq<byte>)
    requires Layout(|src|, width, height, srcStride, dstStride)
    ensures |dst| == height * dstStride
  {
    seq(height * dstStride, i requires 0 <= i < height * dstStride => GrayByte(src, width, height, srcStride, dstStride, i))
  }

  /** Channel k of pixel x of row y of the converted buffer is the table entry of that source pixel. */
  lemma GrayByteAt(src: seq<byte>, width: nat, height: nat, srcStride: nat, dstStride: nat, y: nat, x: nat, k: nat)
    requires Layout(|src|, width, height, srcStride, dstStride)
    requires y < height && x < width && k < 3
    ensures y * srcStride + 3 * x + 2 < |src| && y * dstStride + 3 * x + k < height * dstStride
    ensures var o := y * srcStride + 3 * x;
      Grayscale(src, width, height, srcStride, dstStride)[y * dstStride + 3 * x + k]
        == TableEntry(src[o + 2] as int, src[o + 1] as int, src[o] as int)
  {
    PixelInBounds(y, x, height, width, srcStride);
    PixelInBounds(y, x, height, width, dstStride);
    RowColumn(y, dstStride, 3 * x + k);
    assert (3 * x + k) / 3 == x;
  }

  /** Byte `col` of row y, past the row's pixel bytes, is 0 in the converted buffer. */
  lemma PaddingByteAt(src: seq<byte>, width: nat, height: nat, srcStride: nat, dstStride: nat, y: nat, col: nat)
    requires Layout(|src|, width, height, srcStride, dstStride)
    requires y < height && 3 * width <= col < dstStride
    ensures y * dstStride + col < height * dstStride
    ensures Grayscale(src, width, height, srcStride, dstStride)[y * dstStride + col] == 0
  {
    RowEnd(y, height, dstStride);
    RowColumn(y, dstStride, col);
  }

  /**
   * Every pixel of the converted buffer has three equal bytes, and they are
   * the table entry of the source pixel's (R, G, B), read from its B,G,R bytes.
   */
  lemma GrayscalePixel(src: seq<byte>, width: nat, height: nat, srcStride: nat, dstStride: nat, x: nat, y: nat)
    requires Layout(|src|, width, height, srcStride, dstStride)
    requires x < width && y < height
    ensures y * srcStride + 3 * x + 2 < |src| && y * dstStride + 3 * x + 2 < height * dstStride
    ensures var o, n, dst := y * srcStride + 3 * x, y * dstStride + 3 * x, Grayscale(src, width, height, srcStride, dstStride);
      var gray := TableEntry(src[o + 2] as int, src[o + 1] as int, src[o] as int);
      dst[n] == gray && dst[n + 1] == gray && dst[n + 2] == gray
  {
    GrayByteAt(src, width, height, srcStride, dstStride, y, x, 0);
    GrayByteAt(src, width, height, srcStride, dstStride, y, x, 1);
    GrayByteAt(src, width, height, srcStride, dstStride, y, x, 2);
  }

  /** The bytes of a row past its 3 * width pixel bytes are 0 in the converted buffer. */
  lemma GrayscalePadding(src: seq<byte>, width: nat, height: nat, srcStride: nat, dstStride: nat, y: nat)
    requires Layout(|src|, width, height, srcStride, dstStride)
    requires y < height
    ensures y * dstStride + dstStride <= height * dstStride
    ensures forall i :: y * dstStride + 3 * width <= i < y * dstStride + dstStride ==>
      Grayscale(src, width, height, srcStride, dstStride)[i] == 0
  {
    RowEnd(y, height, dstStride);
    forall i | y * dstStride + 3 * width <= i < y * dstStride + dstStride
      ensures Grayscale(src, width, height, srcStride, dstStride)[i] == 0
    {
      PaddingByteAt(src, width, height, srcStride, dstStride, y, i - y * dstStride);
    }
  }

  /** Byte `col` of row y is the same after a second conversion. */
  lemma GrayscaleIdempotentAt(src: seq<byte>, width: nat, height: nat, srcStride: nat, dstStride: nat, y: nat, col: nat)
    requires Layout(|src|, width, height, srcStride, dstStride)
    requires y < height && col < dstStride
    ensures var dst := Grayscale(src, width, height, srcStride, dstStride);
      Layout(|dst|, width, height, dstStride, dstStride) && y * dstStride + col < |dst| &&
      Grayscale(dst, width, height, dstStride, dstStride)[y * dstStride + col] == dst[y * dstStride + col]
  {
    var dst := Grayscale(src, width, height, srcStride, dstStride);
    if col < 3 * width {
      var x, k := col / 3, col % 3;
      assert col == 3 * x + k;
      GrayscalePixel(src, width, height, srcStride, dstStride, x, y);
      GrayByteAt(dst, width, height, dstStride, dstStride, y, x, k);
      GrayIsFixedPoint(dst[y * dstStride + 3 * x] as int);
    } else {
      PaddingByteAt(src, width, height, srcStride, dstStride, y, col);
      PaddingByteAt(dst, width, height, dstStride, dstStride, y, col);
    }
  }

  /** Converting an already converted buffer changes nothing: gray pixels are fixed points of the table. */
  lemma GrayscaleIdempotent(src: seq<byte>, width: nat, height: nat, srcStride: nat, dstStride: nat)
    requires Layout(|src|, width, height, srcStride, dstStride)
    ensures var dst := Grayscale(src, width, height, srcStride, dstStride);
      Layout(|dst|, width, height, dstStride, dstStride) &&
      Grayscale(dst, width, height, dstStride, dstStride) == dst
  {
    var dst := Grayscale(src, width, height, srcStride, dstStride);
    var again := Grayscale(dst, width, height, dstStride, dstStride);
    forall i | 0 <= i < |dst|
      ensures again[i] == dst[i]
    {
      RowOf(i, height, dstStride);
      GrayscaleIdempotentAt(src, width, height, srcStride, dstStride, i / dstStride, i % dstStride);
    }
  }

  /** The table and the conversion of ImageHelper. */
  class ImageHelper {
    /** The lookup table (_rgb), indexed [R, G, B]. */
    var rgb: array3<byte>

    ghost predicate Valid()
      reads this, rgb
    {
      IsGrayTable(rgb)
    }

    /** The static constructor: the table is built once, before any conversion. */
    constructor ()
      ensures Valid()
    {
      var table := OptimizeCalculations();
      rgb := table;
    }

    /** Fills a fresh 256x256x256 table with the formula, r outermost and b innermost. */
    static method OptimizeCalculations() returns (rgb: array3<byte>)
      ensures IsGrayTable(rgb)
    {
      rgb := new byte[256, 256, 256];
      for r := 0 to 256
        invariant forall r', g', b' :: 0 <= r' < r && 0 <= g' < 256 && 0 <= b' < 256 ==>
          rgb[r', g', b'] == TableEntry(r', g', b')
      {
        for g := 0 to 256
          invariant forall r', g', b' :: 0 <= r' < r && 0 <= g' < 256 && 0 <= b' < 256 ==>
            rgb[r', g', b'] == TableEntry(r', g', b')
          invariant forall g', b' :: 0 <= g' < g && 0 <= b' < 256 ==> rgb[r, g', b'] == TableEntry(r, g', b')
        {
          for b := 0 to 256
            invariant forall r', g', b' :: 0 <= r' < r && 0 <= g' < 256 && 0 <= b' < 256 ==>
              rgb[r', g', b'] == TableEntry(r', g', b')
            invariant forall g', b' :: 0 <= g' < g && 0 <= b' < 256 ==> rgb[r, g', b'] == TableEntry(r, g', b')
            invariant forall b' :: 0 <= b' < b ==> rgb[r, g, b'] == TableEntry(r, g, b')
          {
            rgb[r, g, b] := TableEntry(r, g, b);
          }
        }
      }
    }

    /**
     * MakeGrayscale2: a new bitmap of the same width and height, whose every
     * pixel carries the table entry of the original pixel in all three
     * channels. The original is only read.
     */
    method MakeGrayscale2(original: Bitmap) returns (newBitmap: Bitmap)
      requires Valid() && original.Valid()
      ensures newBitmap.Valid()
      ensures newBitmap.width == original.width && newBitmap.height == original.height
      ensures newBitmap.stride == AlignedStride(original.width)
      ensures fresh(newBitmap.bits)
      ensures newBitmap.bits[..] == Grayscale(original.bits[..], original.width, original.height,
                                              original.stride, newBitmap.stride)
    {
      var width, height := original.width, original.height;
      var newStride := AlignedStride(width);
      var newBits := new byte[height * newStride](_ => 0);
      ghost var src := original.bits[..];
      ghost var gray := Grayscale(src, width, height, original.stride, newStride);
      for y := 0 to height
        invariant forall i :: 0 <= i < newBits.Length ==> newBits[i] == if i < y * newStride then gray[i] else 0
      {
        ConvertRow(original, newBits, newStride, y, gray);
        GrayscalePadding(src, width, height, original.stride, newStride, y);
        assert (y + 1) * newStride == y * newStride + newStride;
      }
      newBitmap := Bitmap(width, height, newStride, newBits);
      assert newBits[..] == gray;
    }

    /** The x loop of MakeGrayscale2 for row y: the gray bytes of every pixel of that row. */
    method ConvertRow(original: Bitmap, newBits: array<byte>, newStride: nat, y: nat, ghost gray: seq<byte>)
      requires Valid() && original.Valid() && y < original.height
      requires newStride >= 3 * original.width && newBits.Length == original.height * newStride
      requires newBits != original.bits
      requires gray == Grayscale(original.bits[..], original.width, original.height, original.stride, newStride)
      modifies newBits
      requires forall i :: 0 <= i < newBits.Length ==> newBits[i] == if i < y * newStride then gray[i] else 0
      ensures forall i :: 0 <= i < newBits.Length ==>
        newBits[i] == if i < y * newStride + 3 * original.width then gray[i] else 0
    {
      ghost var src := original.bits[..];
      var oRow := y * original.stride;
      var nRow := y * newStride;
      for x := 0 to original.width
        invariant forall i :: 0 <= i < newBits.Length ==> newBits[i] == if i < nRow + 3 * x then gray[i] else 0
      {
        var xps := 3 * x;  // three bytes a pixel
        GrayscalePixel(src, original.width, original.height, original.stride, newStride, x, y);
        var grayScale := rgb[original.bits[oRow + xps + 2] as int, original.bits[oRow + xps + 1] as int, original.bits[oRow + xps] as int];
        assert gray[nRow + xps] == grayScale && gray[nRow + xps + 1] == grayScale && gray[nRow + xps + 2] == grayScale;
        newBits[nRow + xps] := grayScale;
        newBits[nRow + xps + 1] := grayScale;
        newBits[nRow + xps + 2] := grayScale;
      }
    }
  }
}
