/**
  The image record every grafi method takes and returns, the two shape checks
  (checkColorDepth, formatter) and the index arithmetic of a row-major,
  channel-interleaved pixel buffer.
 */
module ImageData {
  import opened TypedArrays

  /** `{data, width, height}`: GrafiImageData, or the browser's ImageData. */
  datatype Image = Image(data: seq<Byte>, width: nat, height: nat)

  /** The exceptions the core throws. */
  datatype Error =
    | SizeMismatch         // checkColorDepth: 'data and size of the image does now match'
    | IncorrectColorDepth  // 'ImageObject has incorrect color depth'
    | MissingOptions       // convolution: 'Required options missing'
    | UnknownFilterType    // 'Could not find type of filter requested'
    | UnknownMode          // grayscale: `mode[option.mode]` is not a function

  datatype Option<T> = None | Some(value: T)

  datatype Result<T> = Ok(value: T) | Err(error: Error)

  /** `x || fallback` on a number option: 0 (like a missing option) is
      replaced by the fallback. */
  function RealOr(x: real, fallback: real): (r: real)
    ensures x == 0.0 ==> r == fallback
    ensures x != 0.0 ==> r == x
    ensures r != 0.0 || fallback == 0.0
  {
    if x == 0.0 then fallback else x
  }

  /** `x || fallback` on an integer option. */
  function IntOr(x: int, fallback: int): (r: int)
    ensures x == 0 ==> r == fallback
    ensures x != 0 ==> r == x
    ensures r != 0 || fallback == 0
  {
    if x == 0 then fallback else x
  }

  function PixelCount(img: Image): nat
  {
    img.width * img.height
  }

  /** `len / (width * height) === depth`: exactly `depth` bytes for each of at
      least one pixel (0 / 0 is NaN and k / 0 is Infinity, neither equals a depth). */
  predicate HasDepth(len: nat, width: nat, height: nat, depth: nat)
  {
    width * height > 0 && len == depth * (width * height)
  }

  /** checkColorDepth applied to an image: with a zero width or height the
      source divides `dataset.length` (undefined) by NaN, which also fails. */
  predicate ColorDepthOk(img: Image)
  {
    HasDepth(|img.data|, img.width, img.height, 4)
  }

  /** The check of convolution, contrast and solarize: `dataLength / pixelSize`
      is 4 or 1. */
  predicate DepthOk(img: Image)
  {
    HasDepth(|img.data|, img.width, img.height, 4) || HasDepth(|img.data|, img.width, img.height, 1)
  }

  function Depth(img: Image): (d: nat)
    requires DepthOk(img)
    ensures d == 1 || d == 4
    ensures HasDepth(|img.data|, img.width, img.height, d)
  {
    if HasDepth(|img.data|, img.width, img.height, 4) then 4 else 1
  }

  /** formatter: re-checks that the freshly built buffer holds 4 bytes per
      pixel and wraps it as an image. A buffer of one byte per pixel, which is
      what every `monochrome: true` request allocates, is always refused. */
  function Formatter(pixelData: seq<Byte>, width: nat, height: nat): (r: Result<Image>)
    ensures r.Ok? <==> HasDepth(|pixelData|, width, height, 4)
    ensures r.Ok? ==> r.value == Image(pixelData, width, height)
    ensures r.Err? ==> r.error == SizeMismatch
    ensures |pixelData| == width * height ==> r.Err?
  {
    if HasDepth(|pixelData|, width, height, 4) then Ok(Image(pixelData, width, height))
    else Err(SizeMismatch)
  }

  /** Every image formatter returns has exactly 4 bytes per pixel. */
  lemma FormatterShape(pixelData: seq<Byte>, width: nat, height: nat)
    requires Formatter(pixelData, width, height).Ok?
    ensures var img := Formatter(pixelData, width, height).value;
            |img.data| == 4 * PixelCount(img) && PixelCount(img) > 0
  {
  }

  /** Byte k of pixel p of an RGBA buffer is byte 4 p + k. */
  lemma RgbaIndex(p: int, k: int)
    requires 0 <= k < 4
    ensures (4 * p + k) / 4 == p && (4 * p + k) % 4 == k
  {
  }

  /** Byte i of an RGBA buffer of n bytes is byte i % 4 of pixel i / 4. */
  lemma PixelOfByte(i: int, n: int)
    requires 0 <= i < n && n % 4 == 0
    ensures i / 4 < n / 4 && 4 * (i / 4) + 3 < n && i == 4 * (i / 4) + i % 4
  {
  }

  lemma MulMonotone(a: int, b: int, c: nat)
    requires a <= b
    ensures a * c <= b * c
  {
    assert b * c - a * c == (b - a) * c;
  }

  /** The byte `(x + y * width) * depth + ch` of a pixel inside the image lies
      inside a buffer of `depth` bytes per pixel. */
  lemma ByteIndexInRange(x: int, y: int, w: nat, h: nat, d: nat, ch: int)
    requires 0 <= x < w && 0 <= y < h && 0 <= ch < d
    ensures 0 <= x + y * w < w * h
    ensures 0 <= (x + y * w) * d + ch < d * (w * h)
  {
    MulMonotone(y, h - 1, w);
    assert x + y * w <= w * h - 1;
    MulMonotone(x + y * w, w * h - 1, d);
  }

  /** Pixel `x + y * width` has column x and row y. */
  lemma Coordinates(x: int, y: nat, w: nat)
    requires 0 <= x < w
    ensures (x + y * w) % w == x && (x + y * w) / w == y
  {
    var p := x + y * w;
    var q, r := p / w, p % w;
    assert p == q * w + r;
    if q < y {
      MulMonotone(q + 1, y, w);
      assert false;
    } else if q > y {
      MulMonotone(y + 1, q, w);
      assert false;
    }
  }

  /** A pixel of the image has a column below the width and a row below the height. */
  lemma PixelInImage(p: nat, w: nat, h: nat)
    requires p < w * h
    ensures 0 <= p % w < w && 0 <= p / w < h && p == p % w + (p / w) * w
  {
    if p / w >= h {
      MulMonotone(h, p / w, w);
      assert false;
    }
  }

  /** The first n bytes of a and b are equal: the part of an output buffer a
      pixel loop has written so far. */
  predicate Agree(a: seq<Byte>, b: seq<Byte>, n: nat)
    requires n <= |a| && n <= |b|
  {
    a[..n] == b[..n]
  }

  /** Writing the four bytes after an agreeing prefix extends it by one pixel. */
  lemma AgreeStep4(a: seq<Byte>, b: seq<Byte>, n: nat, a0: seq<Byte>)
    requires n + 4 <= |a| == |a0| && n + 4 <= |b|
    requires Agree(a0, b, n) && a[..n] == a0[..n]
    requires a[n] == b[n] && a[n + 1] == b[n + 1] && a[n + 2] == b[n + 2] && a[n + 3] == b[n + 3]
    ensures Agree(a, b, n + 4)
  {
    assert a[..n + 4] == a[..n] + [a[n], a[n + 1], a[n + 2], a[n + 3]];
    assert b[..n + 4] == b[..n] + [b[n], b[n + 1], b[n + 2], b[n + 3]];
  }

  /** The four stores of one RGBA pixel at `index`; the bytes before it are untouched. */
  method WritePixel(out: array<Byte>, index: nat, r: Byte, g: Byte, b: Byte, a: Byte)
    requires index + 3 < out.Length
    modifies out
    ensures out[..index] == old(out[..index])
    ensures out[index] == r && out[index + 1] == g && out[index + 2] == b && out[index + 3] == a
  {
    out[index] := r;
    out[index + 1] := g;
    out[index + 2] := b;
    out[index + 3] := a;
  }
}
