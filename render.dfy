/** The pixel buffer of render/render.go.

    A `Canvas` is width x height pixels of four bytes each (red, green,
    blue and an unused fourth byte), stored row by row in one byte slice of
    width*height*4 bytes.  The sizes and offsets are Go `int` arithmetic,
    which wraps modulo 2^64. */
module Render {
  import opened Faults
  import opened Scalars
  import opened Matrices

  newtype byte = x: int | 0 <= x < 0x100

  /** The colour of a pixel; Set writes its three channels. */
  datatype Color = Color(r: byte, g: byte, b: byte)

  /** `width*height*4`, the length NewCanvas asks `make` for. */
  function BufferLength(width: GoInt, height: GoInt): GoInt {
    GoMul(GoMul(width, height), 4)
  }

  /** `(y*width + x)*4`, the offset of the first byte of pixel (x, y). */
  function PixelIndex(x: GoInt, y: GoInt, width: GoInt): GoInt {
    GoMul(GoAdd(GoMul(y, width), x), 4)
  }

  /** Set's guard as written: `index < len(pixels)-4 && index >= 0`. */
  predicate Admits(index: int, length: int) {
    index < length - 4 && index >= 0
  }

  /** The guard Set evidently intends: the whole pixel lies in the buffer. */
  predicate AdmitsPixel(index: int, length: int) {
    0 <= index && index <= length - 4
  }

  /** The three colour bytes written at k, k+1, k+2. */
  function Painted(p: seq<byte>, k: int, c: Color): (q: seq<byte>)
    requires 0 <= k && k + 3 <= |p|
    ensures |q| == |p|
    ensures q[k] == c.r && q[k + 1] == c.g && q[k + 2] == c.b
    ensures forall i :: 0 <= i < |p| && (i < k || k + 2 < i) ==> q[i] == p[i]
  {
    p[k := c.r][k + 1 := c.g][k + 2 := c.b]
  }

  /** The buffer after Set as written. */
  function Drawn(p: seq<byte>, k: int, c: Color): seq<byte> {
    if Admits(k, |p|) then Painted(p, k, c) else p
  }

  /** The buffer after the corrected Set. */
  function DrawnPixel(p: seq<byte>, k: int, c: Color): seq<byte> {
    if AdmitsPixel(k, |p|) then Painted(p, k, c) else p
  }

  /** The canvas of render.go.  `pixels` is the byte slice; only its
      contents change after construction. */
  class Canvas {
    const width: GoInt
    const height: GoInt
    const pixels: array<byte>

    predicate Valid() {
      pixels.Length == BufferLength(width, height)
    }

    /** `make([]byte, width*height*4)`: a zeroed buffer. */
    constructor (width: GoInt, height: GoInt)
      requires BufferLength(width, height) >= 0
      ensures Valid() && fresh(pixels)
      ensures this.width == width && this.height == height
      ensures forall i :: 0 <= i < pixels.Length ==> pixels[i] == 0
    {
      this.width := width;
      this.height := height;
      pixels := new byte[BufferLength(width, height)](i => 0);
    }

    /** Zeroes every byte of the buffer. */
    method Clear()
      modifies pixels
      ensures forall i :: 0 <= i < pixels.Length ==> pixels[i] == 0
    {
      for i := 0 to pixels.Length
        invariant forall j :: 0 <= j < i ==> pixels[j] == 0
      {
        pixels[i] := 0;
      }
    }

    /** Set as written: the three colour bytes of pixel (x, y), when the
        guard admits its offset; otherwise nothing. */
    method Set(x: GoInt, y: GoInt, color: Color)
      modifies pixels
      ensures pixels[..] == Drawn(old(pixels[..]), PixelIndex(x, y, width), color)
    {
      var index := PixelIndex(x, y, width);
      if index < pixels.Length - 4 && index >= 0 {
        pixels[index] := color.r;
        pixels[index + 1] := color.g;
        pixels[index + 2] := color.b;
      }
    }

    /** Set with the guard it intends, which admits the last pixel too. */
    method SetPixel(x: GoInt, y: GoInt, color: Color)
      modifies pixels
      ensures pixels[..] == DrawnPixel(old(pixels[..]), PixelIndex(x, y, width), color)
    {
      var index := PixelIndex(x, y, width);
      if 0 <= index && index <= pixels.Length - 4 {
        pixels[index] := color.r;
        pixels[index + 1] := color.g;
        pixels[index + 2] := color.b;
      }
    }

    function Width(): GoInt { width }

    function Height(): GoInt { height }
  }

  /** NewCanvas: `make` panics on a negative length. */
  method NewCanvas(width: GoInt, height: GoInt) returns (r: Result<Canvas>)
    ensures r.Err? <==> BufferLength(width, height) < 0
    ensures r.Err? ==> r.error == NegativeLength
    ensures r.Ok? ==>
      fresh(r.value) && fresh(r.value.pixels) && r.value.Valid() &&
      r.value.Width() == width && r.value.Height() == height &&
      forall i :: 0 <= i < r.value.pixels.Length ==> r.value.pixels[i] == 0
  {
    if BufferLength(width, height) < 0 {
      return Err(NegativeLength);
    }
    var c := new Canvas(width, height);
    r := Ok(c);
  }

  // ---------------------------------------------------------------------
  // Properties.

  /** Whatever wraps, four times a Go int is a multiple of four. */
  lemma QuadrupleIsMultipleOfFour(a: GoInt)
    ensures GoMul(a, 4) % 4 == 0
  {
    TimesIsProduct(a, 4);
    WrapIsWrapBy(Int, 4 * a);
    var z := 4 * a + 0x8000_0000_0000_0000;
    var q := z / 0x1_0000_0000_0000_0000;
    assert z == 0x1_0000_0000_0000_0000 * q + z % 0x1_0000_0000_0000_0000;
    assert GoMul(a, 4) == 4 * (a - 0x4000_0000_0000_0000 * q);
    DivModUnique(GoMul(a, 4), 4, a - 0x4000_0000_0000_0000 * q, 0);
  }

  /** While it fits a Go int, the buffer holds exactly width*height*4 bytes,
      and pixel (x, y) of the visible area starts at (y*width + x)*4, a
      whole pixel before the end of the buffer. */
  lemma PixelIndexExact(x: GoInt, y: GoInt, width: GoInt, height: GoInt)
    requires 0 <= x < width && 0 <= y < height && width * height * 4 <= MaxInt64
    ensures BufferLength(width, height) == width * height * 4
    ensures PixelIndex(x, y, width) == (y * width + x) * 4
    ensures PixelIndex(x, y, width) + 4 <= BufferLength(width, height)
  {
    MulMonotone(1, 4, width * height);
    GoMulExact(width, height);
    GoMulExact(width * height, 4);
    OffsetBounds(height, width, y, x);
    OffsetIsProduct(width, y, x);
    OffsetIsProduct(width, height, 0);
    assert y * width + x < height * width;
    MulMonotone(y, height, width);
    GoMulExact(y, width);
    GoAddExact(y * width, x);
    MulMonotone(y * width + x + 1, height * width, 4);
    GoMulExact(y * width + x, 4);
  }

  /** Distinct visible pixels occupy disjoint bytes. */
  lemma PixelsAreDisjoint(x: GoInt, y: GoInt, x2: GoInt, y2: GoInt, width: GoInt, height: GoInt)
    requires 0 <= x < width && 0 <= y < height && 0 <= x2 < width && 0 <= y2 < height
    requires width * height * 4 <= MaxInt64
    requires x != x2 || y != y2
    ensures PixelIndex(x, y, width) + 4 <= PixelIndex(x2, y2, width) ||
            PixelIndex(x2, y2, width) + 4 <= PixelIndex(x, y, width)
  {
    PixelIndexExact(x, y, width, height);
    PixelIndexExact(x2, y2, width, height);
    OffsetIsProduct(width, y, x);
    OffsetIsProduct(width, y2, x2);
    if Offset(width, y, x) == Offset(width, y2, x2) {
      OffsetInjective(width, y, x, y2, x2);
    }
  }

  /** Set as written never changes the last four bytes of the buffer: the
      offset of a pixel and the length of the buffer are multiples of four,
      so the guard `index < len-4` stops one pixel short. */
  lemma LastPixelIsNeverWritten(p: seq<byte>, x: GoInt, y: GoInt, width: GoInt, height: GoInt, c: Color)
    requires |p| == BufferLength(width, height) && |p| >= 4
    ensures Drawn(p, PixelIndex(x, y, width), c)[|p| - 4..] == p[|p| - 4..]
  {
    var k := PixelIndex(x, y, width);
    QuadrupleIsMultipleOfFour(GoAdd(GoMul(y, width), x));
    QuadrupleIsMultipleOfFour(GoMul(width, height));
    if Admits(k, |p|) {
      DivModUnique(k, 4, k / 4, 0);
      DivModUnique(|p|, 4, |p| / 4, 0);
      assert k + 2 < |p| - 4;
    }
  }

  /** The corrected Set writes the colour of every visible pixel, the last
      one included, and leaves every other byte alone. */
  lemma SetPixelWritesEveryPixel(p: seq<byte>, x: GoInt, y: GoInt, width: GoInt, height: GoInt, c: Color)
    requires 0 <= x < width && 0 <= y < height && width * height * 4 <= MaxInt64
    requires |p| == BufferLength(width, height)
    ensures var k := PixelIndex(x, y, width);
      var q := DrawnPixel(p, k, c);
      0 <= k && k + 4 <= |p| && |q| == |p| && q[k] == c.r && q[k + 1] == c.g && q[k + 2] == c.b &&
      forall i :: 0 <= i < |p| && (i < k || k + 2 < i) ==> q[i] == p[i]
  {
    PixelIndexExact(x, y, width, height);
  }

  /** The two guards differ only at the last pixel. */
  lemma GuardsDifferOnlyAtLastPixel(p: seq<byte>, k: int, c: Color)
    requires k != |p| - 4
    ensures Drawn(p, k, c) == DrawnPixel(p, k, c)
  {
  }

  /** A 1 x 1 canvas: Set(0, 0, white) as written leaves the one pixel
      black, the corrected Set paints it. */
  lemma OnePixelCanvas()
    ensures BufferLength(1, 1) == 4 && PixelIndex(0, 0, 1) == 0
    ensures Drawn([0, 0, 0, 0], PixelIndex(0, 0, 1), Color(0xff, 0xff, 0xff)) == [0, 0, 0, 0]
    ensures DrawnPixel([0, 0, 0, 0], PixelIndex(0, 0, 1), Color(0xff, 0xff, 0xff)) == [0xff, 0xff, 0xff, 0]
  {
    GoMulExact(1, 1);
    GoMulExact(1, 4);
    GoMulExact(0, 1);
    GoAddExact(0, 0);
    GoMulExact(0, 4);
  }
}
