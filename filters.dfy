/**
  The kernel-choosing callers of convolution: blur (grafi.js:174-194),
  despeckle (302-323), edge (357-390) and sharpen (535-546). Each picks a
  3 x 3 filter and a divisor from its options and runs convolution with
  radius 1.
 */
module Filters {
  import opened TypedArrays
  import opened ImageData
  import opened Grayscale
  import opened Convolution

  const Ones: seq<real> := [1.0, 1.0, 1.0, 1.0, 1.0, 1.0, 1.0, 1.0, 1.0]
  const Gaussian: seq<real> := [1.0, 2.0, 1.0, 2.0, 4.0, 2.0, 1.0, 2.0, 1.0]
  const Laplacian: seq<real> := [-1.0, -1.0, -1.0, -1.0, 8.0, -1.0, -1.0, -1.0, -1.0]

  /** `types[option.type]` of blur. */
  function BlurKernel(name: string): Option<seq<real>>
  {
    if name == "average" then Some(Ones)
    else if name == "gaussian" then Some(Gaussian)
    else None
  }

  /** `types[option.type]` of despeckle: both types average the nine bytes. */
  function DespeckleKernel(name: string): Option<seq<real>>
  {
    if name == "median" || name == "mean" then Some(Ones) else None
  }

  /** `types[option.type]` of edge. */
  function EdgeKernel(name: string): Option<seq<real>>
  {
    if name == "laplacian" then Some(Laplacian) else None
  }

  /** `option.type || fallback`. */
  function TypeOr(name: string, fallback: string): string
  {
    if name == "" then fallback else name
  }

  /** The value blur returns or the exception it throws; its divisor is the
      sum of the weights. */
  function Blurred(img: Image, blurType: string, monochrome: bool): Result<Image>
  {
    var f := BlurKernel(TypeOr(blurType, "gaussian"));
    if f.None? then Err(UnknownFilterType)
    else Convolved(img, Options(f, 1, FilterSum(f.value, |f.value|), false, monochrome))
  }

  /** The value despeckle returns or the exception it throws; type "median"
      selects the median, "mean" the average. */
  function Despeckled(img: Image, despeckleType: string, monochrome: bool): Result<Image>
  {
    var name := TypeOr(despeckleType, "median");
    var f := DespeckleKernel(name);
    if f.None? then Err(UnknownFilterType)
    else Convolved(img, Options(f, 1, FilterSum(f.value, |f.value|), name == "median", monochrome))
  }

  /** What edge convolves: an RGBA image is first turned to luma gray. */
  function EdgeInput(img: Image): Image
    requires DepthOk(img)
  {
    if Depth(img) == 4 then Grayscaled(img, "", "").value else img
  }

  /** The value edge returns or the exception it throws: the depth check comes
      before the type check, and the divisor is `f.length / level`. */
  function Edged(img: Image, edgeType: string, level: real, monochrome: bool): Result<Image>
  {
    if !DepthOk(img) then Err(IncorrectColorDepth)
    else
      var f := EdgeKernel(TypeOr(edgeType, "laplacian"));
      if f.None? then Err(UnknownFilterType)
      else Convolved(EdgeInput(img), Options(f, 1, |f.value| as real / RealOr(level, 1.0), false, monochrome))
  }

  /** sharpen's filter: the centre weighs 4 level + 1, its four edge
      neighbours -level each. */
  function SharpenKernel(level: real): seq<real>
  {
    [0.0, -level, 0.0, -level, level * 4.0 + 1.0, -level, 0.0, -level, 0.0]
  }

  /** The value sharpen returns or the exception it throws; it passes no
      divisor, which convolution reads as 1. */
  function Sharpened(img: Image, level: real, monochrome: bool): Result<Image>
  {
    Convolved(img, Options(Some(SharpenKernel(RealOr(level, 1.0))), 1, 0.0, false, monochrome))
  }

  method Blur(img: Image, blurType: string, monochrome: bool) returns (r: Result<Image>)
    ensures r == Blurred(img, blurType, monochrome)
  {
    var f := BlurKernel(TypeOr(blurType, "gaussian"));
    if f.None? {
      return Err(UnknownFilterType);
    }
    r := Convolution.Convolution(img, Options(f, 1, FilterSum(f.value, |f.value|), false, monochrome));
  }

  method Despeckle(img: Image, despeckleType: string, monochrome: bool) returns (r: Result<Image>)
    ensures r == Despeckled(img, despeckleType, monochrome)
  {
    var name := TypeOr(despeckleType, "median");
    var f := DespeckleKernel(name);
    if f.None? {
      return Err(UnknownFilterType);
    }
    r := Convolution.Convolution(img, Options(f, 1, FilterSum(f.value, |f.value|), name == "median", monochrome));
  }

  method Edge(img: Image, edgeType: string, level: real, monochrome: bool) returns (r: Result<Image>)
    ensures r == Edged(img, edgeType, level, monochrome)
  {
    if !DepthOk(img) {
      return Err(IncorrectColorDepth);
    }
    var input := img;
    if Depth(img) == 4 {
      var g := Grayscale.Grayscale(img, "", "");
      input := g.value;
    }
    var f := EdgeKernel(TypeOr(edgeType, "laplacian"));
    if f.None? {
      return Err(UnknownFilterType);
    }
    r := Convolution.Convolution(input, Options(f, 1, |f.value| as real / RealOr(level, 1.0), false, monochrome));
  }

  method Sharpen(img: Image, level: real, monochrome: bool) returns (r: Result<Image>)
    ensures r == Sharpened(img, level, monochrome)
  {
    r := Convolution.Convolution(img, Options(Some(SharpenKernel(RealOr(level, 1.0))), 1, 0.0, false, monochrome));
  }

  // ---------------------------------------------------------------------
  // Properties

  /** blur throws "Could not find type of filter requested" exactly for a
      type other than average and gaussian (a missing type means gaussian). */
  lemma BlurUnknownType(img: Image, blurType: string, monochrome: bool)
    ensures Blurred(img, blurType, monochrome) == Err(UnknownFilterType)
        <==> TypeOr(blurType, "gaussian") != "average" && TypeOr(blurType, "gaussian") != "gaussian"
  {
  }

  /** Both blur kernels leave a uniform image unchanged: their divisor is
      their total weight. */
  lemma BlurUniformUnchanged(img: Image, blurType: string, monochrome: bool)
    requires Blurred(img, blurType, monochrome).Ok? && DepthOk(img) && Uniform(img, Depth(img))
    ensures Blurred(img, blurType, monochrome) == Ok(Image(Padded(img), img.width, img.height))
    ensures Depth(img) == 4 ==> Blurred(img, blurType, monochrome) == Ok(img)
  {
    var f := BlurKernel(TypeOr(blurType, "gaussian")).value;
    UniformUnchanged(img, Options(Some(f), 1, FilterSum(f, |f|), false, monochrome));
  }

  /** A blurred byte never leaves the range of the nine bytes it averages. */
  lemma BlurWithinNeighbourhood(img: Image, blurType: string, monochrome: bool,
                                x: int, y: int, ch: int, lo: Byte, hi: Byte)
    requires Blurred(img, blurType, monochrome).Ok? && DepthOk(img)
    requires Interior(x, y, img.width, img.height) && 0 <= ch < Depth(img) && ch != 3
    requires forall i :: 0 <= i < 9 ==> lo <= Window(img, Depth(img), x, y, ch)[i] <= hi
    ensures 0 <= ByteIndex(x, y, img.width, Depth(img), ch) < |img.data| <= |Blurred(img, blurType, monochrome).value.data|
    ensures lo <= Blurred(img, blurType, monochrome).value.data[ByteIndex(x, y, img.width, Depth(img), ch)] <= hi
  {
    var f := BlurKernel(TypeOr(blurType, "gaussian")).value;
    var opts := Options(Some(f), 1, FilterSum(f, |f|), false, monochrome);
    MulMonotone(Depth(img), 4, img.width * img.height);
    InteriorFiltered(img, opts, x, y, ch);
    FilteredBetween(Window(img, Depth(img), x, y, ch), KernelOf(opts), lo, hi);
  }

  /** despeckle throws exactly for a type other than median and mean. */
  lemma DespeckleUnknownType(img: Image, despeckleType: string, monochrome: bool)
    ensures Despeckled(img, despeckleType, monochrome) == Err(UnknownFilterType)
        <==> TypeOr(despeckleType, "median") != "median" && TypeOr(despeckleType, "median") != "mean"
  {
  }

  /** Median despeckle never invents a value: each interior byte is one of the
      nine bytes around it. */
  lemma DespeckleFromNeighbourhood(img: Image, despeckleType: string, monochrome: bool,
                                   x: int, y: int, ch: int)
    requires Despeckled(img, despeckleType, monochrome).Ok? && DepthOk(img)
    requires TypeOr(despeckleType, "median") == "median"
    requires Interior(x, y, img.width, img.height) && 0 <= ch < Depth(img) && ch != 3
    ensures 0 <= ByteIndex(x, y, img.width, Depth(img), ch) < |img.data|
    ensures Despeckled(img, despeckleType, monochrome).value.data[ByteIndex(x, y, img.width, Depth(img), ch)]
            in Window(img, Depth(img), x, y, ch)
  {
    MedianFromNeighbourhood(img, Options(Some(Ones), 1, FilterSum(Ones, 9), true, monochrome), x, y, ch);
  }

  /** Both despeckle types leave a uniform image unchanged. */
  lemma DespeckleUniformUnchanged(img: Image, despeckleType: string, monochrome: bool)
    requires Despeckled(img, despeckleType, monochrome).Ok? && DepthOk(img) && Uniform(img, Depth(img))
    ensures Despeckled(img, despeckleType, monochrome) == Ok(Image(Padded(img), img.width, img.height))
    ensures Depth(img) == 4 ==> Despeckled(img, despeckleType, monochrome) == Ok(img)
  {
    var name := TypeOr(despeckleType, "median");
    UniformUnchanged(img, Options(Some(Ones), 1, FilterSum(Ones, 9), name == "median", monochrome));
  }

  /** edge throws on a bad depth first, then exactly on a type other than laplacian. */
  lemma EdgeUnknownType(img: Image, edgeType: string, level: real, monochrome: bool)
    ensures !DepthOk(img) ==> Edged(img, edgeType, level, monochrome) == Err(IncorrectColorDepth)
    ensures DepthOk(img) ==>
              (Edged(img, edgeType, level, monochrome) == Err(UnknownFilterType)
               <==> TypeOr(edgeType, "laplacian") != "laplacian")
  {
  }

  /** The Laplacian's weights cancel, so on a flat image every interior color
      byte of the edge map is 0. */
  lemma EdgeOfFlatIsBlack(img: Image, edgeType: string, level: real, monochrome: bool,
                          x: int, y: int, ch: int)
    requires Edged(img, edgeType, level, monochrome).Ok? && DepthOk(img)
    requires DepthOk(EdgeInput(img)) && Uniform(EdgeInput(img), Depth(EdgeInput(img)))
    requires Interior(x, y, img.width, img.height) && 0 <= ch < Depth(EdgeInput(img)) && ch != 3
    ensures 0 <= ByteIndex(x, y, img.width, Depth(EdgeInput(img)), ch) < |EdgeInput(img).data|
    ensures Edged(img, edgeType, level, monochrome).value.data[ByteIndex(x, y, img.width, Depth(EdgeInput(img)), ch)] == 0
  {
    var input := EdgeInput(img);
    var opts := Options(Some(Laplacian), 1, 9.0 / RealOr(level, 1.0), false, monochrome);
    assert FilterSum(Laplacian, 9) == 0.0;
    InteriorFiltered(input, opts, x, y, ch);
    UniformWindow(input, Depth(input), x, y, ch);
    FilteredOfUniform(Window(input, Depth(input), x, y, ch), KernelOf(opts), Sample(input, Depth(input), 0, 0, ch));
  }

  /** sharpen's weights sum to 1 at every level, so it leaves a uniform image unchanged. */
  lemma SharpenUniformUnchanged(img: Image, level: real, monochrome: bool)
    requires Sharpened(img, level, monochrome).Ok? && DepthOk(img) && Uniform(img, Depth(img))
    ensures Sharpened(img, level, monochrome) == Ok(Image(Padded(img), img.width, img.height))
    ensures Depth(img) == 4 ==> Sharpened(img, level, monochrome) == Ok(img)
  {
    var f := SharpenKernel(RealOr(level, 1.0));
    SumOfNine(f);
    UniformUnchanged(img, Options(Some(f), 1, 0.0, false, monochrome));
  }

  /** On RGBA input edge works on the luma gray image, so its output is gray
      and keeps the input's alpha. */
  lemma EdgeIsGray(img: Image, edgeType: string, level: real, monochrome: bool, p: nat)
    requires Edged(img, edgeType, level, monochrome).Ok? && ColorDepthOk(img) && p < PixelCount(img)
    ensures var out := Edged(img, edgeType, level, monochrome).value.data;
            |out| == |img.data| && out[4 * p] == out[4 * p + 1] == out[4 * p + 2] &&
            out[4 * p + 3] == img.data[4 * p + 3]
  {
    var g := EdgeInput(img);
    var k := KernelOf(Options(Some(Laplacian), 1, 9.0 / RealOr(level, 1.0), false, monochrome));
    GrayPixelsAt(img.data, Luma, Some(1), p);
    EdgeData(img, edgeType, level, monochrome);
    GraySamples(img, g);
    GrayPixel(g, k, p);
  }

  /** On RGBA input, edge convolves the luma gray image with the Laplacian. */
  lemma EdgeData(img: Image, edgeType: string, level: real, monochrome: bool)
    requires Edged(img, edgeType, level, monochrome).Ok? && ColorDepthOk(img)
    ensures var g := EdgeInput(img);
            var k := KernelOf(Options(Some(Laplacian), 1, 9.0 / RealOr(level, 1.0), false, monochrome));
            g == Image(GrayPixels(img.data, Luma, Some(1)), img.width, img.height) && Shape(g, 4, k) &&
            Edged(img, edgeType, level, monochrome) == Ok(Image(ConvolvedPixels(g, 4, k), img.width, img.height))
  {
  }

  /** The three color channels of the luma gray image hold the same bytes. */
  lemma GraySamples(img: Image, g: Image)
    requires ColorDepthOk(img) && g == Image(GrayPixels(img.data, Luma, Some(1)), img.width, img.height)
    ensures forall x, y :: 0 <= x < g.width && 0 <= y < g.height ==>
              Sample(g, 4, x, y, 0) == Sample(g, 4, x, y, 1) && Sample(g, 4, x, y, 0) == Sample(g, 4, x, y, 2)
  {
    forall x, y | 0 <= x < g.width && 0 <= y < g.height
      ensures Sample(g, 4, x, y, 0) == Sample(g, 4, x, y, 1) && Sample(g, 4, x, y, 0) == Sample(g, 4, x, y, 2)
    {
      ByteIndexInRange(x, y, g.width, g.height, 4, 3);
      GrayPixelsAt(img.data, Luma, Some(1), x + y * g.width);
    }
  }

  /** Convolving an image whose color channels agree gives a gray pixel with
      the input's alpha. */
  lemma GrayPixel(g: Image, k: Kernel, p: nat)
    requires Shape(g, 4, k) && p < PixelCount(g)
    requires forall x', y' :: 0 <= x' < g.width && 0 <= y' < g.height ==>
               Sample(g, 4, x', y', 0) == Sample(g, 4, x', y', 1) && Sample(g, 4, x', y', 0) == Sample(g, 4, x', y', 2)
    ensures var e := ConvolvedPixels(g, 4, k);
            4 * p + 3 < |e| && e[4 * p] == e[4 * p + 1] == e[4 * p + 2] && e[4 * p + 3] == g.data[4 * p + 3]
  {
    PixelInImage(p, g.width, g.height);
    var x, y := p % g.width, p / g.width;
    assert x + y * g.width == p;
    assert ByteIndex(x, y, g.width, 4, 0) == 4 * p && ByteIndex(x, y, g.width, 4, 1) == 4 * p + 1;
    assert ByteIndex(x, y, g.width, 4, 2) == 4 * p + 2 && ByteIndex(x, y, g.width, 4, 3) == 4 * p + 3;
    ConvolvedAt(g, 4, k, x, y, 0);
    ConvolvedAt(g, 4, k, x, y, 1);
    ConvolvedAt(g, 4, k, x, y, 2);
    ConvolvedAt(g, 4, k, x, y, 3);
    SameChannels(g, 4, k, x, y, 0, 1);
    SameChannels(g, 4, k, x, y, 0, 2);
  }
}
