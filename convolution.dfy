/**
  convolution (grafi.js:74-161), the engine under blur, despeckle, edge and
  sharpen: every interior byte of each channel becomes the weighted sum of its
  3 x 3 neighbourhood (or the neighbourhood's median), border pixels and the
  alpha channel are copied. Every caller passes radius 1, the only radius the
  model covers.
 */
module Convolution {
  import opened TypedArrays
  import opened ImageData
  import opened DefaultSort

  /** The options object after its `||` defaults. A missing filter is None (an
      empty array is Some([]), which passes the check); a divisor of 0 stands
      for a missing or zero divisor, both of which `|| 1` turns into 1. */
  datatype Options = Options(filter: Option<seq<real>>, radius: nat, divisor: real,
                             median: bool, monochrome: bool)

  /** What the pixel loops read from validated options. */
  datatype Kernel = Kernel(filter: seq<real>, divisor: real, median: bool)

  /** `option.divisor || 1`. */
  function EffectiveDivisor(divisor: real): (d: real)
    ensures d != 0.0
    ensures divisor != 0.0 ==> d == divisor
  {
    if divisor == 0.0 then 1.0 else divisor
  }

  /** An image with d bytes per pixel and a kernel whose divisor has been defaulted. */
  predicate Shape(img: Image, d: nat, k: Kernel)
  {
    (d == 1 || d == 4) && HasDepth(|img.data|, img.width, img.height, d) && k.divisor != 0.0
  }

  /** `(x + y * width) * colorDepth + ch`. */
  function ByteIndex(x: int, y: int, w: nat, d: nat, ch: int): int
  {
    (x + y * w) * d + ch
  }

  /** The pixels the radius-1 loops visit: `r <= y < height - r`, `r <= x < width - r`. */
  predicate Interior(x: int, y: int, w: nat, h: nat)
  {
    1 <= x < w - 1 && 1 <= y < h - 1
  }

  /** The pixels the copy loop copies: `y < r || y > height - 2r`, then
      `x < r || x > width - 2r`. */
  predicate Border(x: int, y: int, w: nat, h: nat)
  {
    y < 1 || y > h - 2 || x < 1 || x > w - 2
  }

  /** Byte ch of pixel (x, y) of the input. */
  function Sample(img: Image, d: nat, x: int, y: int, ch: int): Byte
    requires |img.data| == d * (img.width * img.height)
    requires 0 <= x < img.width && 0 <= y < img.height && 0 <= ch < d
  {
    ByteIndexInRange(x, y, img.width, img.height, d, ch);
    img.data[ByteIndex(x, y, img.width, d, ch)]
  }

  /** `arr` for pixel (x, y): the 3 x 3 neighbourhood in channel ch, row by row. */
  function Window(img: Image, d: nat, x: int, y: int, ch: int): (window: seq<Byte>)
    requires |img.data| == d * (img.width * img.height)
    requires Interior(x, y, img.width, img.height) && 0 <= ch < d
    ensures |window| == 9
  {
    seq(9, k requires 0 <= k < 9 => Sample(img, d, x + k % 3 - 1, y + k / 3 - 1, ch))
  }

  /** The sum of the first n products `window[i] * filter[i]`. */
  function WeightedTotal(window: seq<Byte>, filter: seq<real>, n: nat): real
    requires n <= |window| && n <= |filter|
  {
    if n == 0 then 0.0
    else WeightedTotal(window, filter, n - 1) + window[n - 1] as real * filter[n - 1]
  }

  /** `arr.map((data, index) => data * f[index]).reduce((p, n) => p + n) / divisor`:
      a weight the filter lacks is undefined, which makes its product and the
      whole sum NaN. */
  function Weighted(window: seq<Byte>, filter: seq<real>, divisor: real): Num
    requires divisor != 0.0
  {
    if |filter| < |window| then NaN
    else Finite(WeightedTotal(window, filter, |window|) / divisor)
  }

  /** `result`, as the clamped store of line 128 writes it. */
  function Filtered(window: seq<Byte>, k: Kernel): Byte
    requires |window| > 0 && k.divisor != 0.0
  {
    if k.median then Median(window)
    else ToUint8Clamp(Weighted(window, k.filter, k.divisor))
  }

  /** The output byte for channel ch of pixel (x, y). */
  function OutByte(img: Image, d: nat, k: Kernel, x: int, y: int, ch: int): Byte
    requires Shape(img, d, k)
    requires 0 <= x < img.width && 0 <= y < img.height && 0 <= ch < d
  {
    if ch == 3 || Border(x, y, img.width, img.height) then Sample(img, d, x, y, ch)
    else Filtered(Window(img, d, x, y, ch), k)
  }

  /** The output buffer of `4 * width * height` bytes: the first `d * width *
      height` hold the convolved image in the input's layout, the rest stay 0. */
  function ConvolvedPixels(img: Image, d: nat, k: Kernel): (out: seq<Byte>)
    requires Shape(img, d, k)
    ensures |out| == 4 * (img.width * img.height)
  {
    seq(4 * (img.width * img.height), j requires 0 <= j < 4 * (img.width * img.height) =>
      if j < d * (img.width * img.height) then
        DepthSplit(j, d, img.width * img.height);
        PixelInImage(j / d, img.width, img.height);
        OutByte(img, d, k, (j / d) % img.width, (j / d) / img.width, j % d)
      else 0)
  }

  /** The value convolution returns or the exception it throws. A monochrome
      request allocates `width * height` bytes, which formatter refuses. */
  function Convolved(img: Image, opts: Options): Result<Image>
    requires opts.radius <= 1
  {
    if opts.filter.None? || opts.radius == 0 then Err(MissingOptions)
    else if !DepthOk(img) then Err(IncorrectColorDepth)
    else if opts.monochrome then Err(SizeMismatch)
    else Formatter(ConvolvedPixels(img, Depth(img), KernelOf(opts)), img.width, img.height)
  }

  /** The kernel validated options describe. */
  function KernelOf(opts: Options): (k: Kernel)
    requires opts.filter.Some?
    ensures k.divisor != 0.0
  {
    Kernel(opts.filter.value, EffectiveDivisor(opts.divisor), opts.median)
  }

  // ---------------------------------------------------------------------
  // The imperative engine

  /** Every byte of a equals the byte of e where its index was written and 0
      elsewhere. */
  predicate Matches(a: seq<Byte>, e: seq<Byte>, written: set<int>)
  {
    |a| == |e| && forall j :: 0 <= j < |a| ==> a[j] == if j in written then e[j] else 0
  }

  method Convolution(img: Image, opts: Options) returns (r: Result<Image>)
    requires opts.radius <= 1
    ensures r == Convolved(img, opts)
  {
    if opts.filter.None? || opts.radius == 0 {
      return Err(MissingOptions);
    }
    if !DepthOk(img) {
      return Err(IncorrectColorDepth);
    }
    if opts.monochrome {
      // the loops fill a buffer of width * height bytes that formatter refuses
      return Err(SizeMismatch);
    }
    var d := Depth(img);
    var out := Convolve(img, d, KernelOf(opts));
    r := Formatter(out[..], img.width, img.height);
  }

  /** The channel loop (grafi.js:100-158): for each channel, the interior pass
      and then the border pass. */
  method Convolve(img: Image, d: nat, k: Kernel) returns (out: array<Byte>)
    requires Shape(img, d, k)
    ensures out[..] == ConvolvedPixels(img, d, k)
  {
    var w, h := img.width, img.height;
    ghost var e := ConvolvedPixels(img, d, k);
    out := new Byte[w * h * 4](_ => 0);
    ghost var written: set<int> := {};
    for ch := 0 to d
      invariant out.Length == 4 * (w * h)
      invariant Matches(out[..], e, written) && Bounded(written, d * (w * h))
      invariant forall x, y, c :: 0 <= x < w && 0 <= y < h && 0 <= c < ch ==>
                  ByteIndex(x, y, w, d, c) in written
    {
      written := InteriorPass(out, img, d, k, ch, e, written);
      written := BorderPass(out, img, d, k, ch, e, written);
      forall x, y | 0 <= x < w && 0 <= y < h
        ensures ByteIndex(x, y, w, d, ch) in written
      {
        assert Interior(x, y, w, h) || Border(x, y, w, h);
      }
    }
    Completed(out[..], e, written, img, d, k);
  }

  /** Every written index is a byte of the d-channel image. */
  predicate Bounded(written: set<int>, n: int)
  {
    forall j :: j in written ==> 0 <= j < n
  }

  /** The interior loops for channel ch (grafi.js:101-130). */
  method InteriorPass(out: array<Byte>, img: Image, d: nat, k: Kernel, ch: nat,
                      ghost e: seq<Byte>, ghost written: set<int>)
    returns (ghost written': set<int>)
    requires Shape(img, d, k) && ch < d && e == ConvolvedPixels(img, d, k)
    requires Matches(out[..], e, written) && Bounded(written, d * (img.width * img.height))
    modifies out
    ensures Matches(out[..], e, written') && Bounded(written', d * (img.width * img.height))
    ensures written <= written'
    ensures forall x, y :: Interior(x, y, img.width, img.height) ==>
              ByteIndex(x, y, img.width, d, ch) in written'
  {
    var w, h := img.width, img.height;
    written' := written;
    var y := 1;
    while y < h - 1
      invariant 1 <= y && (h >= 2 ==> y <= h - 1)
      invariant Matches(out[..], e, written') && Bounded(written', d * (w * h)) && written <= written'
      invariant forall x', y' :: Interior(x', y', w, h) && y' < y ==> ByteIndex(x', y', w, d, ch) in written'
    {
      written' := InteriorRow(out, img, d, k, ch, y, e, written');
      y := y + 1;
    }
  }

  /** One row of the interior loops: the inner `x` loop. */
  method InteriorRow(out: array<Byte>, img: Image, d: nat, k: Kernel, ch: nat, y: nat,
                     ghost e: seq<Byte>, ghost written: set<int>)
    returns (ghost written': set<int>)
    requires Shape(img, d, k) && ch < d && e == ConvolvedPixels(img, d, k) && 1 <= y < img.height - 1
    requires Matches(out[..], e, written) && Bounded(written, d * (img.width * img.height))
    modifies out
    ensures Matches(out[..], e, written') && Bounded(written', d * (img.width * img.height))
    ensures written <= written'
    ensures forall x' :: 1 <= x' < img.width - 1 ==> ByteIndex(x', y, img.width, d, ch) in written'
  {
    var w, h := img.width, img.height;
    written' := written;
    var x := 1;
    while x < w - 1
      invariant 1 <= x && (w >= 2 ==> x <= w - 1)
      invariant Matches(out[..], e, written') && Bounded(written', d * (w * h)) && written <= written'
      invariant forall x' :: 1 <= x' < x ==> ByteIndex(x', y, w, d, ch) in written'
    {
      var v := InteriorByte(img, d, k, x, y, ch);
      written' := Store(out, img, d, k, x, y, ch, v, e, written');
      x := x + 1;
    }
  }

  /** The border loops for channel ch (grafi.js:132-157). */
  method BorderPass(out: array<Byte>, img: Image, d: nat, k: Kernel, ch: nat,
                    ghost e: seq<Byte>, ghost written: set<int>)
    returns (ghost written': set<int>)
    requires Shape(img, d, k) && ch < d && e == ConvolvedPixels(img, d, k)
    requires Matches(out[..], e, written) && Bounded(written, d * (img.width * img.height))
    modifies out
    ensures Matches(out[..], e, written') && Bounded(written', d * (img.width * img.height))
    ensures written <= written'
    ensures forall x, y :: 0 <= x < img.width && 0 <= y < img.height && Border(x, y, img.width, img.height) ==>
              ByteIndex(x, y, img.width, d, ch) in written'
  {
    var w, h := img.width, img.height;
    written' := written;
    for y := 0 to h
      invariant Matches(out[..], e, written') && Bounded(written', d * (w * h)) && written <= written'
      invariant forall x', y' :: 0 <= x' < w && 0 <= y' < y && Border(x', y', w, h) ==>
                  ByteIndex(x', y', w, d, ch) in written'
    {
      written' := BorderRow(out, img, d, k, ch, y, e, written');
    }
  }

  /** One row of the border loops: the inner `x` loop. */
  method BorderRow(out: array<Byte>, img: Image, d: nat, k: Kernel, ch: nat, y: nat,
                   ghost e: seq<Byte>, ghost written: set<int>)
    returns (ghost written': set<int>)
    requires Shape(img, d, k) && ch < d && e == ConvolvedPixels(img, d, k) && y < img.height
    requires Matches(out[..], e, written) && Bounded(written, d * (img.width * img.height))
    modifies out
    ensures Matches(out[..], e, written') && Bounded(written', d * (img.width * img.height))
    ensures written <= written'
    ensures forall x' :: 0 <= x' < img.width && Border(x', y, img.width, img.height) ==>
              ByteIndex(x', y, img.width, d, ch) in written'
  {
    var w, h := img.width, img.height;
    written' := written;
    for x := 0 to w
      invariant Matches(out[..], e, written') && Bounded(written', d * (w * h)) && written <= written'
      invariant forall x' :: 0 <= x' < x && Border(x', y, w, h) ==> ByteIndex(x', y, w, d, ch) in written'
    {
      if y < 1 || y > h - 2 {
        // copy colors from top and bottom rows
        written' := Store(out, img, d, k, x, y, ch, Sample(img, d, x, y, ch), e, written');
        continue;
      }
      if x < 1 || x > w - 2 {
        // copy colors from left and right columns
        written' := Store(out, img, d, k, x, y, ch, Sample(img, d, x, y, ch), e, written');
      }
    }
  }

  /** The value line 128 (or 110 for alpha) stores for an interior pixel. */
  method InteriorByte(img: Image, d: nat, k: Kernel, x: nat, y: nat, ch: nat) returns (v: Byte)
    requires Shape(img, d, k) && Interior(x, y, img.width, img.height) && ch < d
    ensures v == OutByte(img, d, k, x, y, ch)
  {
    if ch == 3 {
      return Sample(img, d, x, y, ch);
    }
    var arr := GatherWindow(img, d, x, y, ch);
    var result: Num := if k.median then ByteNum(Median(arr)) else Weighted(arr, k.filter, k.divisor);
    if k.median {
      ClampOfByte(Median(arr));
    }
    v := ToUint8Clamp(result);
  }

  /** The `fy`/`fx` loops pushing the neighbourhood into `arr` (grafi.js:113-118). */
  method GatherWindow(img: Image, d: nat, x: nat, y: nat, ch: nat) returns (arr: seq<Byte>)
    requires (d == 1 || d == 4) && HasDepth(|img.data|, img.width, img.height, d)
    requires Interior(x, y, img.width, img.height) && ch < d
    ensures arr == Window(img, d, x, y, ch)
  {
    ghost var window := Window(img, d, x, y, ch);
    arr := [];
    var fy := -1;
    while fy < 2
      invariant -1 <= fy <= 2 && arr == window[..3 * (fy + 1)]
    {
      var fx := -1;
      while fx < 2
        invariant -1 <= fx <= 2 && arr == window[..3 * (fy + 1) + (fx + 1)]
      {
        var n := 3 * (fy + 1) + (fx + 1);
        assert n % 3 == fx + 1 && n / 3 == fy + 1;
        ByteIndexInRange(x + fx, y + fy, img.width, img.height, d, ch);
        arr := arr + [img.data[(x + fx + (y + fy) * img.width) * d + ch]];
        assert window[..n + 1] == window[..n] + [window[n]];
        fx := fx + 1;
      }
      fy := fy + 1;
    }
  }

  /** `newPixelData[i] = v` for the byte of channel ch of pixel (x, y), with v
      the byte the specification expects there. */
  method Store(out: array<Byte>, img: Image, d: nat, k: Kernel, x: nat, y: nat, ch: nat, v: Byte,
               ghost e: seq<Byte>, ghost written: set<int>)
    returns (ghost written': set<int>)
    requires Shape(img, d, k) && x < img.width && y < img.height && ch < d
    requires e == ConvolvedPixels(img, d, k) && v == OutByte(img, d, k, x, y, ch)
    requires Matches(out[..], e, written) && Bounded(written, d * (img.width * img.height))
    modifies out
    ensures Matches(out[..], e, written') && Bounded(written', d * (img.width * img.height))
    ensures written' == written + {ByteIndex(x, y, img.width, d, ch)}
  {
    ConvolvedAt(img, d, k, x, y, ch);
    var i := ByteIndex(x, y, img.width, d, ch);
    MulMonotone(d, 4, img.width * img.height);
    written' := StoreAt(out, i, v, e, written, d * (img.width * img.height));
  }

  /** `out[i] = v` where v is the byte expected at i. */
  method StoreAt(out: array<Byte>, i: nat, v: Byte, ghost e: seq<Byte>, ghost written: set<int>, ghost n: nat)
    returns (ghost written': set<int>)
    requires i < n <= |e| && e[i] == v
    requires Matches(out[..], e, written) && Bounded(written, n)
    modifies out
    ensures Matches(out[..], e, written') && Bounded(written', n)
    ensures written' == written + {i}
  {
    ghost var before := out[..];
    out[i] := v;
    written' := written + {i};
    MatchesStep(before, out[..], e, written, i);
  }

  // ---------------------------------------------------------------------
  // Index arithmetic

  /** Byte ch of a pixel in a d-byte layout. */
  lemma DepthIndex(p: int, ch: int, d: nat)
    requires (d == 1 || d == 4) && 0 <= ch < d
    ensures (p * d + ch) / d == p && (p * d + ch) % d == ch
  {
    if d == 4 {
      RgbaIndex(p, ch);
    }
  }

  /** A byte index splits into a pixel and a channel. */
  lemma DepthSplit(j: int, d: nat, n: nat)
    requires (d == 1 || d == 4) && 0 <= j < d * n
    ensures 0 <= j / d < n && 0 <= j % d < d && j == (j / d) * d + j % d
  {
  }

  /** The spec byte at the index of channel ch of pixel (x, y). */
  lemma ConvolvedAt(img: Image, d: nat, k: Kernel, x: int, y: int, ch: int)
    requires Shape(img, d, k)
    requires 0 <= x < img.width && 0 <= y < img.height && 0 <= ch < d
    ensures 0 <= ByteIndex(x, y, img.width, d, ch) < d * (img.width * img.height)
    ensures ConvolvedPixels(img, d, k)[ByteIndex(x, y, img.width, d, ch)] == OutByte(img, d, k, x, y, ch)
  {
    ByteIndexInRange(x, y, img.width, img.height, d, ch);
    DepthIndex(x + y * img.width, ch, d);
    Coordinates(x, y, img.width);
  }

  lemma MatchesStep(a0: seq<Byte>, a: seq<Byte>, e: seq<Byte>, written: set<int>, i: int)
    requires Matches(a0, e, written) && 0 <= i < |a0| && a == a0[i := e[i]]
    ensures Matches(a, e, written + {i})
  {
  }

  /** Once every byte of every channel has been written, the buffer is the
      specification's. */
  lemma Completed(a: seq<Byte>, e: seq<Byte>, written: set<int>, img: Image, d: nat, k: Kernel)
    requires Shape(img, d, k) && e == ConvolvedPixels(img, d, k)
    requires Matches(a, e, written) && Bounded(written, d * (img.width * img.height))
    requires forall x, y, c :: 0 <= x < img.width && 0 <= y < img.height && 0 <= c < d ==>
               ByteIndex(x, y, img.width, d, c) in written
    ensures a == e
  {
    var w, h := img.width, img.height;
    forall j | 0 <= j < |a|
      ensures a[j] == e[j]
    {
      if j < d * (w * h) {
        var x, y, c := ByteOf(j, w, h, d);
        assert j in written;
      }
    }
  }

  /** Byte j of a d-byte layout is channel c of pixel (x, y). */
  lemma ByteOf(j: int, w: nat, h: nat, d: nat) returns (x: int, y: int, c: int)
    requires (d == 1 || d == 4) && 0 <= j < d * (w * h)
    ensures 0 <= x < w && 0 <= y < h && 0 <= c < d && ByteIndex(x, y, w, d, c) == j
  {
    DepthSplit(j, d, w * h);
    PixelInImage(j / d, w, h);
    x, y, c := (j / d) % w, (j / d) / w, j % d;
  }

  // ---------------------------------------------------------------------
  // Properties of convolution

  /** Convolution succeeds exactly for a filter, radius 1, a buffer of 4 or 1
      bytes per pixel and no monochrome request; the checks run in that order,
      and a result always has 4 bytes per pixel, whatever the input's depth. */
  lemma ConvolutionOutcome(img: Image, opts: Options)
    requires opts.radius <= 1
    ensures Convolved(img, opts).Ok? <==>
              opts.filter.Some? && opts.radius == 1 && DepthOk(img) && !opts.monochrome
    ensures opts.filter.None? || opts.radius == 0 ==> Convolved(img, opts) == Err(MissingOptions)
    ensures opts.filter.Some? && opts.radius == 1 && !DepthOk(img) ==>
              Convolved(img, opts) == Err(IncorrectColorDepth)
    ensures opts.filter.Some? && opts.radius == 1 && DepthOk(img) && opts.monochrome ==>
              Convolved(img, opts) == Err(SizeMismatch)
    ensures Convolved(img, opts).Ok? ==>
              var out := Convolved(img, opts).value;
              out.width == img.width && out.height == img.height &&
              |out.data| == 4 * PixelCount(img) && |img.data| <= |out.data|
  {
  }

  /** Border pixels and the alpha channel are copied from the input. */
  lemma BorderCopied(img: Image, opts: Options, x: int, y: int, ch: int)
    requires opts.radius <= 1 && Convolved(img, opts).Ok?
    requires 0 <= x < img.width && 0 <= y < img.height && 0 <= ch < Depth(img)
    requires ch == 3 || Border(x, y, img.width, img.height)
    ensures 0 <= ByteIndex(x, y, img.width, Depth(img), ch) < |img.data|
    ensures Convolved(img, opts).value.data[ByteIndex(x, y, img.width, Depth(img), ch)]
         == img.data[ByteIndex(x, y, img.width, Depth(img), ch)]
  {
    ConvolvedAt(img, Depth(img), KernelOf(opts), x, y, ch);
  }

  /** An interior byte of a color channel is the filter applied to its
      neighbourhood. */
  lemma InteriorFiltered(img: Image, opts: Options, x: int, y: int, ch: int)
    requires opts.radius <= 1 && Convolved(img, opts).Ok?
    requires Interior(x, y, img.width, img.height) && 0 <= ch < Depth(img) && ch != 3
    ensures 0 <= ByteIndex(x, y, img.width, Depth(img), ch) < |img.data|
    ensures Convolved(img, opts).value.data[ByteIndex(x, y, img.width, Depth(img), ch)]
         == Filtered(Window(img, Depth(img), x, y, ch), KernelOf(opts))
  {
    ConvolvedAt(img, Depth(img), KernelOf(opts), x, y, ch);
  }

  /** In median mode every interior byte is one of the nine bytes around it. */
  lemma MedianFromNeighbourhood(img: Image, opts: Options, x: int, y: int, ch: int)
    requires opts.radius <= 1 && Convolved(img, opts).Ok? && opts.median
    requires Interior(x, y, img.width, img.height) && 0 <= ch < Depth(img) && ch != 3
    ensures 0 <= ByteIndex(x, y, img.width, Depth(img), ch) < |img.data|
    ensures Convolved(img, opts).value.data[ByteIndex(x, y, img.width, Depth(img), ch)]
            in Window(img, Depth(img), x, y, ch)
  {
    InteriorFiltered(img, opts, x, y, ch);
  }

  /** Two color channels holding the same bytes come out the same. */
  lemma SameChannels(img: Image, d: nat, k: Kernel, x: int, y: int, c1: int, c2: int)
    requires Shape(img, d, k) && 0 <= x < img.width && 0 <= y < img.height
    requires 0 <= c1 < d && 0 <= c2 < d && c1 != 3 && c2 != 3
    requires forall x', y' :: 0 <= x' < img.width && 0 <= y' < img.height ==>
               Sample(img, d, x', y', c1) == Sample(img, d, x', y', c2)
    ensures OutByte(img, d, k, x, y, c1) == OutByte(img, d, k, x, y, c2)
  {
    if !Border(x, y, img.width, img.height) {
      assert Window(img, d, x, y, c1) == Window(img, d, x, y, c2);
    }
  }

  /** The input followed by zeros up to 4 bytes per pixel: what convolution
      returns when it changes no byte. */
  function Padded(img: Image): (data: seq<Byte>)
    requires |img.data| <= 4 * PixelCount(img)
    ensures |data| == 4 * PixelCount(img) && data[..|img.data|] == img.data
    ensures |img.data| == 4 * PixelCount(img) ==> data == img.data
  {
    img.data + seq(4 * PixelCount(img) - |img.data|, _ => 0)
  }

  /** A one-byte-per-pixel input comes back in the first quarter of an RGBA
      sized buffer whose other bytes are all 0. */
  lemma OneChannelPadding(img: Image, opts: Options)
    requires opts.radius <= 1 && Convolved(img, opts).Ok? && Depth(img) == 1
    ensures forall j :: |img.data| <= j < 4 * PixelCount(img) ==> Convolved(img, opts).value.data[j] == 0
  {
  }

  /** Every pixel the same in each channel. */
  predicate Uniform(img: Image, d: nat)
    requires |img.data| == d * (img.width * img.height)
  {
    forall x, y, c :: 0 <= x < img.width && 0 <= y < img.height && 0 <= c < d ==>
      Sample(img, d, x, y, c) == Sample(img, d, 0, 0, c)
  }

  /** The sum of the first n weights. */
  function FilterSum(filter: seq<real>, n: nat): real
    requires n <= |filter|
  {
    if n == 0 then 0.0 else FilterSum(filter, n - 1) + filter[n - 1]
  }

  /** The total weight of a 3 x 3 filter written out. */
  lemma SumOfNine(f: seq<real>)
    requires |f| >= 9
    ensures FilterSum(f, 9) == f[0] + f[1] + f[2] + f[3] + f[4] + f[5] + f[6] + f[7] + f[8]
  {
    assert FilterSum(f, 1) == f[0];
    assert FilterSum(f, 2) == FilterSum(f, 1) + f[1];
    assert FilterSum(f, 3) == FilterSum(f, 2) + f[2];
    assert FilterSum(f, 4) == FilterSum(f, 3) + f[3];
    assert FilterSum(f, 5) == FilterSum(f, 4) + f[4];
    assert FilterSum(f, 6) == FilterSum(f, 5) + f[5];
    assert FilterSum(f, 7) == FilterSum(f, 6) + f[6];
    assert FilterSum(f, 8) == FilterSum(f, 7) + f[7];
  }

  /** An image with fewer than three rows or columns has no interior pixel,
      so convolution returns it unchanged. */
  lemma SmallImageUnchanged(img: Image, opts: Options)
    requires opts.radius <= 1 && Convolved(img, opts).Ok?
    requires img.width < 3 || img.height < 3
    ensures Convolved(img, opts) == Ok(Image(Padded(img), img.width, img.height))
    ensures Depth(img) == 4 ==> Convolved(img, opts) == Ok(img)
  {
    var d, k := Depth(img), KernelOf(opts);
    forall x, y, c | 0 <= x < img.width && 0 <= y < img.height && 0 <= c < d
      ensures OutByte(img, d, k, x, y, c) == Sample(img, d, x, y, c)
    {
      assert Border(x, y, img.width, img.height);
    }
    KeptEverywhere(img, d, k);
  }

  /** A uniform image is a fixed point of the median and of every weighted
      kernel whose weights add up to its divisor. */
  lemma UniformUnchanged(img: Image, opts: Options)
    requires opts.radius <= 1 && Convolved(img, opts).Ok? && Uniform(img, Depth(img))
    requires opts.median ||
             (|opts.filter.value| >= 9 && FilterSum(opts.filter.value, 9) == EffectiveDivisor(opts.divisor))
    ensures Convolved(img, opts) == Ok(Image(Padded(img), img.width, img.height))
    ensures Depth(img) == 4 ==> Convolved(img, opts) == Ok(img)
  {
    var d, k := Depth(img), KernelOf(opts);
    forall x, y, c | 0 <= x < img.width && 0 <= y < img.height && 0 <= c < d
      ensures OutByte(img, d, k, x, y, c) == Sample(img, d, x, y, c)
    {
      if c != 3 && !Border(x, y, img.width, img.height) {
        UniformKept(img, d, k, x, y, c);
      }
    }
    KeptEverywhere(img, d, k);
  }

  /** The identity kernel, one centre weight of 1 and divisor 1, changes nothing. */
  lemma IdentityUnchanged(img: Image, opts: Options)
    requires opts.radius <= 1 && Convolved(img, opts).Ok? && !opts.median
    requires opts.filter.value == [0.0, 0.0, 0.0, 0.0, 1.0, 0.0, 0.0, 0.0, 0.0]
    requires EffectiveDivisor(opts.divisor) == 1.0
    ensures Convolved(img, opts) == Ok(Image(Padded(img), img.width, img.height))
    ensures Depth(img) == 4 ==> Convolved(img, opts) == Ok(img)
  {
    var d, k := Depth(img), KernelOf(opts);
    forall x, y, c | 0 <= x < img.width && 0 <= y < img.height && 0 <= c < d
      ensures OutByte(img, d, k, x, y, c) == Sample(img, d, x, y, c)
    {
      if c != 3 && !Border(x, y, img.width, img.height) {
        var window := Window(img, d, x, y, c);
        WeightedOneHot(window, k.filter, 9, 4);
        assert window[4] == Sample(img, d, x, y, c);
        ClampOfByte(window[4]);
      }
    }
    KeptEverywhere(img, d, k);
  }

  /** A filter with fewer than nine weights, the empty array included, passes
      the options check but leaves some product undefined: the sum is NaN and
      every interior color byte is stored as 0. */
  lemma ShortFilterBlack(img: Image, opts: Options, x: int, y: int, ch: int)
    requires opts.radius <= 1 && Convolved(img, opts).Ok? && !opts.median
    requires |opts.filter.value| < 9
    requires Interior(x, y, img.width, img.height) && 0 <= ch < Depth(img) && ch != 3
    ensures 0 <= ByteIndex(x, y, img.width, Depth(img), ch) < |img.data|
    ensures Convolved(img, opts).value.data[ByteIndex(x, y, img.width, Depth(img), ch)] == 0
  {
    InteriorFiltered(img, opts, x, y, ch);
  }

  /** With non-negative weights summing to the divisor, a weighted byte lies
      between the smallest and the largest byte of its neighbourhood. */
  lemma FilteredBetween(window: seq<Byte>, k: Kernel, lo: Byte, hi: Byte)
    requires |window| == 9 && |k.filter| >= 9 && !k.median
    requires forall i :: 0 <= i < 9 ==> lo <= window[i] <= hi && k.filter[i] >= 0.0
    requires FilterSum(k.filter, 9) == k.divisor && k.divisor > 0.0
    ensures lo <= Filtered(window, k) <= hi
  {
    WeightedBetween(window, k.filter, 9, lo, hi);
    var s := FilterSum(k.filter, 9);
    var t := WeightedTotal(window, k.filter, 9);
    assert lo as real <= t / s <= hi as real by {
      DivideBetween(lo as real, hi as real, s, t);
    }
    ClampMonotone(lo as real, t / s);
    ClampMonotone(t / s, hi as real);
    ClampOfByte(lo);
    ClampOfByte(hi);
  }

  lemma DivideBetween(lo: real, hi: real, s: real, t: real)
    requires s > 0.0 && lo * s <= t <= hi * s
    ensures lo <= t / s <= hi
  {
  }

  // ---------------------------------------------------------------------
  // Helpers for the properties

  /** When every output byte of the d-byte layout is its input byte, the
      buffer is the padded input. */
  lemma KeptEverywhere(img: Image, d: nat, k: Kernel)
    requires Shape(img, d, k)
    requires forall x, y, c :: 0 <= x < img.width && 0 <= y < img.height && 0 <= c < d ==>
               OutByte(img, d, k, x, y, c) == Sample(img, d, x, y, c)
    ensures ConvolvedPixels(img, d, k) == Padded(img)
  {
    var w, h := img.width, img.height;
    var e, p := ConvolvedPixels(img, d, k), Padded(img);
    forall j | 0 <= j < |e|
      ensures e[j] == p[j]
    {
      if j < d * (w * h) {
        DepthSplit(j, d, w * h);
        PixelInImage(j / d, w, h);
        var x, y, c := (j / d) % w, (j / d) / w, j % d;
        ConvolvedAt(img, d, k, x, y, c);
        assert ByteIndex(x, y, w, d, c) == j;
        assert p[j] == p[..|img.data|][j];
      }
    }
  }

  lemma UniformKept(img: Image, d: nat, k: Kernel, x: int, y: int, c: int)
    requires Shape(img, d, k) && Uniform(img, d)
    requires Interior(x, y, img.width, img.height) && 0 <= c < d
    requires k.median || (|k.filter| >= 9 && FilterSum(k.filter, 9) == k.divisor)
    ensures Filtered(Window(img, d, x, y, c), k) == Sample(img, d, x, y, c)
  {
    UniformWindow(img, d, x, y, c);
    FilteredOfUniform(Window(img, d, x, y, c), k, Sample(img, d, 0, 0, c));
  }

  /** Nine copies of v filter to v under the median or a kernel whose weights
      add up to its divisor, and to 0 under a kernel whose weights cancel. */
  lemma FilteredOfUniform(window: seq<Byte>, k: Kernel, v: Byte)
    requires |window| == 9 && k.divisor != 0.0 && (!k.median ==> |k.filter| >= 9)
    requires forall i :: 0 <= i < 9 ==> window[i] == v
    ensures k.median || FilterSum(k.filter, 9) == k.divisor ==> Filtered(window, k) == v
    ensures !k.median && FilterSum(k.filter, 9) == 0.0 ==> Filtered(window, k) == 0
  {
    UniformFiltered(window, k, v);
    if !k.median {
      ClampScaled(v, FilterSum(k.filter, 9), k.divisor);
    }
  }

  /** v times s over d. */
  function Scaled(v: Byte, s: real, d: real): Num
    requires d != 0.0
  {
    Finite(v as real * s / d)
  }

  /** v scaled by s over d and clamped: v when s equals d, 0 when s is 0. */
  lemma ClampScaled(v: Byte, s: real, d: real)
    requires d != 0.0
    ensures s == d ==> ToUint8Clamp(Scaled(v, s, d)) == v
    ensures s == 0.0 ==> ToUint8Clamp(Scaled(v, s, d)) == 0
  {
    if s == d {
      ScaleBack(v as real, d);
      assert v as real * s / d == v as real;
      assert Scaled(v, s, d) == ByteNum(v);
      ClampOfByte(v);
    } else if s == 0.0 {
      assert v as real * s / d == 0.0;
      assert Scaled(v, s, d) == Finite(0.0);
    }
  }

  /** The filtered byte of a window of nine copies of v: the median is v, a
      weighted sum is v times the total weight. */
  lemma UniformFiltered(window: seq<Byte>, k: Kernel, v: Byte)
    requires |window| == 9 && k.divisor != 0.0 && (!k.median ==> |k.filter| >= 9)
    requires forall i :: 0 <= i < 9 ==> window[i] == v
    ensures Filtered(window, k)
         == if k.median then v else ToUint8Clamp(Scaled(v, FilterSum(k.filter, 9), k.divisor))
  {
    if k.median {
      MedianOfUniform(window, v);
    } else {
      WeightedOfUniform(window, k.filter, 9, v);
      WeightedClamp(window, k, v);
    }
  }

  /** The weighted byte of a window whose weighted total is v times the total weight. */
  lemma WeightedClamp(window: seq<Byte>, k: Kernel, v: Byte)
    requires |window| == 9 && |k.filter| >= 9 && !k.median && k.divisor != 0.0
    requires WeightedTotal(window, k.filter, 9) == v as real * FilterSum(k.filter, 9)
    ensures Filtered(window, k) == ToUint8Clamp(Scaled(v, FilterSum(k.filter, 9), k.divisor))
  {
  }

  lemma UniformWindow(img: Image, d: nat, x: int, y: int, ch: int)
    requires |img.data| == d * (img.width * img.height) && Uniform(img, d)
    requires Interior(x, y, img.width, img.height) && 0 <= ch < d
    ensures forall i :: 0 <= i < 9 ==> Window(img, d, x, y, ch)[i] == Sample(img, d, 0, 0, ch)
  {
  }

  lemma {:induction false} WeightedOfUniform(window: seq<Byte>, filter: seq<real>, n: nat, v: Byte)
    requires n <= |window| && n <= |filter|
    requires forall i :: 0 <= i < n ==> window[i] == v
    ensures WeightedTotal(window, filter, n) == v as real * FilterSum(filter, n)
  {
    if n > 0 {
      WeightedOfUniform(window, filter, n - 1, v);
      Distribute(v as real, FilterSum(filter, n - 1), filter[n - 1]);
    }
  }

  lemma {:induction false} WeightedOneHot(window: seq<Byte>, filter: seq<real>, n: nat, m: nat)
    requires n <= |window| && n <= |filter|
    requires forall i :: 0 <= i < n ==> filter[i] == if i == m then 1.0 else 0.0
    ensures WeightedTotal(window, filter, n) == if m < n then window[m] as real else 0.0
  {
    if n > 0 {
      WeightedOneHot(window, filter, n - 1, m);
    }
  }

  /** A total t lies between lo and hi times the weight s. */
  predicate Within(lo: real, hi: real, s: real, t: real)
  {
    lo * s <= t <= hi * s
  }

  lemma {:induction false} WeightedBetween(window: seq<Byte>, filter: seq<real>, n: nat, lo: Byte, hi: Byte)
    requires n <= |window| && n <= |filter|
    requires forall i :: 0 <= i < n ==> lo <= window[i] <= hi && filter[i] >= 0.0
    ensures Within(lo as real, hi as real, FilterSum(filter, n), WeightedTotal(window, filter, n))
  {
    if n > 0 {
      var s, t := FilterSum(filter, n - 1), WeightedTotal(window, filter, n - 1);
      var f, b := filter[n - 1], window[n - 1] as real;
      assert FilterSum(filter, n) == s + f;
      assert WeightedTotal(window, filter, n) == t + b * f;
      WeightedBetween(window, filter, n - 1, lo, hi);
      BetweenStep(lo as real, hi as real, s, t, f, b, FilterSum(filter, n), WeightedTotal(window, filter, n));
    } else {
      assert FilterSum(filter, n) == 0.0 && WeightedTotal(window, filter, n) == 0.0;
    }
  }

  /** Adding one product b f with lo <= b <= hi and f >= 0 keeps a weighted
      total t between lo and hi times the total weight s. */
  lemma BetweenStep(lo: real, hi: real, s: real, t: real, f: real, b: real, s': real, t': real)
    requires lo * s <= t <= hi * s && lo <= b <= hi && f >= 0.0
    requires s' == s + f && t' == t + b * f
    ensures Within(lo, hi, s', t')
  {
    ScaleBetween(lo, b, hi, f);
    Distribute(lo, s, f);
    Distribute(hi, s, f);
  }

  lemma ScaleBetween(lo: real, b: real, hi: real, f: real)
    requires lo <= b <= hi && f >= 0.0
    ensures lo * f <= b * f <= hi * f
  {
    assert (b - lo) * f >= 0.0 && (hi - b) * f >= 0.0;
  }

  lemma Distribute(a: real, s: real, f: real)
    ensures a * (s + f) == a * s + a * f
  {
  }

  lemma ScaleBack(v: real, s: real)
    requires s != 0.0
    ensures v * s / s == v
  {
  }
}
