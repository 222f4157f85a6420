/**
  The filters that map every color byte on its own: brightness
  (grafi.js:211-233), contrast (246-290), invert (458-472), posterize
  (487-523), solarize (558-622), threshold (640-669) and pseudocolor
  (687-748). All but invert run the same pixel loop: the three color bytes
  of each pixel go through a per-channel map, and alpha is copied.
 */
module PointTransforms {
  import opened TypedArrays
  import opened ImageData
  import opened Grayscale
  import opened LookupTables

  /** What a color byte becomes; the store into the Uint8ClampedArray output
      is part of the map. */
  datatype ChannelMap =
    | Offset(level: real)     // brightness: v + level
    | Stretch(level: real)    // contrast: (v - 128) * level + 128
    | Lookup(red: seq<Byte>, green: seq<Byte>, blue: seq<Byte>)  // one table per channel

  predicate MapOk(m: ChannelMap)
  {
    m.Lookup? ==> IsTable(m.red) && IsTable(m.green) && IsTable(m.blue)
  }

  /** Color byte v of channel c (0 red, 1 green, 2 blue) after the map. A
      table entry is a byte already, so its clamped store keeps it. */
  function MapByte(m: ChannelMap, c: int, v: Byte): Byte
    requires MapOk(m)
  {
    match m
    case Offset(level) => ToUint8Clamp(Finite(v as real + level))
    case Stretch(level) => Stretched(v, level)
    case Lookup(r, g, b) => if c == 0 then r[v] else if c == 1 then g[v] else b[v]
  }

  /** contrast's byte: the distance from 128 scaled by the level, clamped. */
  function Stretched(v: Byte, level: real): Byte
  {
    ToUint8Clamp(Finite((v as real - 128.0) * level + 128.0))
  }

  /** The output buffer: color bytes of `src` mapped, alpha bytes taken from
      `alpha` (threshold and pseudocolor read color from a grayscaled copy
      and alpha from the input). */
  function MappedPixels(src: seq<Byte>, alpha: seq<Byte>, m: ChannelMap): (out: seq<Byte>)
    requires |src| == |alpha| && |src| % 4 == 0 && MapOk(m)
    ensures |out| == |src|
  {
    seq(|src|, i requires 0 <= i < |src| => if i % 4 == 3 then alpha[i] else MapByte(m, i % 4, src[i]))
  }

  /** A fresh all-zero buffer of n bytes. */
  function Zeros(n: nat): (z: seq<Byte>)
    ensures |z| == n && forall i :: 0 <= i < n ==> z[i] == 0
  {
    seq(n, _ => 0)
  }

  /** `grayscale(imgData).data` with the default options: luma (the green
      channel default plays no part in luma). */
  function GrayscaledData(img: Image): (g: seq<Byte>)
    requires ColorDepthOk(img)
    ensures |g| == |img.data|
  {
    GrayPixels(img.data, Luma, Some(1))
  }

  /** grayscale with no options succeeds on an RGBA image and gives GrayscaledData. */
  lemma DefaultGrayscale(img: Image)
    requires ColorDepthOk(img)
    ensures Grayscaled(img, "", "") == Ok(Image(GrayscaledData(img), img.width, img.height))
  {
  }

  // ------------------------------------------------------------ specification

  /** The value brightness returns or the exception it throws; a level of 0
      (the `|| 0` default) adds nothing. */
  function Brightened(img: Image, level: real): Result<Image>
  {
    if !ColorDepthOk(img) then Err(SizeMismatch)
    else Formatter(MappedPixels(img.data, img.data, Offset(level)), img.width, img.height)
  }

  /** The value contrast returns or the exception it throws. A one-byte-per-pixel
      buffer is refused by formatter; a gray input without `monochrome` is
      written through an index that is never assigned (`_i`), so the RGBA
      output stays all zeros. */
  function Contrasted(img: Image, level: real, monochrome: bool): Result<Image>
  {
    if !DepthOk(img) then Err(IncorrectColorDepth)
    else if monochrome then Err(SizeMismatch)
    else if Depth(img) == 1 then Formatter(Zeros(4 * PixelCount(img)), img.width, img.height)
    else Formatter(MappedPixels(img.data, img.data, Stretch(RealOr(level, 1.0))), img.width, img.height)
  }

  /** invert's buffer: every byte but the fourth of each pixel becomes 255 - v. */
  function InvertedPixels(data: seq<Byte>): (out: seq<Byte>)
    ensures |out| == |data|
  {
    seq(|data|, i requires 0 <= i < |data| => if (i + 1) % 4 == 0 then data[i] else 255 - data[i])
  }

  function Inverted(img: Image): Result<Image>
  {
    if !ColorDepthOk(img) then Err(SizeMismatch)
    else Formatter(InvertedPixels(img.data), img.width, img.height)
  }

  /** The value posterize returns or the exception it throws, for an integer
      level count (0 is the `|| 4` default). */
  function Posterized(img: Image, level: int): Result<Image>
  {
    if !ColorDepthOk(img) then Err(SizeMismatch)
    else
      var t := PosterizeTable(IntOr(level, 4));
      Formatter(MappedPixels(img.data, img.data, Lookup(t, t, t)), img.width, img.height)
  }

  /** The value solarize returns or the exception it throws; the gray,
      non-monochrome case writes through the unassigned `_i` as in contrast. */
  function Solarized(img: Image, monochrome: bool): Result<Image>
  {
    if !DepthOk(img) then Err(IncorrectColorDepth)
    else if monochrome then Err(SizeMismatch)
    else if Depth(img) == 1 then Formatter(Zeros(4 * PixelCount(img)), img.width, img.height)
    else
      var t := SolarizeTable();
      Formatter(MappedPixels(img.data, img.data, Lookup(t, t, t)), img.width, img.height)
  }

  /** The color source of threshold and pseudocolor: the input itself when the
      caller says it is already gray, its luma grayscale otherwise. */
  function GraySource(img: Image, grayscaled: bool): (g: seq<Byte>)
    requires ColorDepthOk(img)
    ensures |g| == |img.data|
  {
    if grayscaled then img.data else GrayscaledData(img)
  }

  /** The value threshold returns or the exception it throws, for an integer
      level (0 is the `|| 127` default). */
  function Thresholded(img: Image, level: int, grayscaled: bool): Result<Image>
  {
    if !ColorDepthOk(img) then Err(SizeMismatch)
    else
      var t := ThresholdTable(IntOr(level, 127));
      Formatter(MappedPixels(GraySource(img, grayscaled), img.data, Lookup(t, t, t)), img.width, img.height)
  }

  /** The three pseudocolor tables. */
  function Rainbow(): (m: ChannelMap)
    ensures MapOk(m)
  {
    Lookup(RampTable(RedRamp), RampTable(GreenRamp), RampTable(BlueRamp))
  }

  function Pseudocolored(img: Image, grayscaled: bool): Result<Image>
  {
    if !ColorDepthOk(img) then Err(SizeMismatch)
    else Formatter(MappedPixels(GraySource(img, grayscaled), img.data, Rainbow()), img.width, img.height)
  }

  // ----------------------------------------------------------- implementation

  /** The pixel loop shared by the table and arithmetic transforms. */
  method MapLoop(src: seq<Byte>, alpha: seq<Byte>, pixelSize: nat, m: ChannelMap) returns (out: array<Byte>)
    requires |src| == |alpha| == 4 * pixelSize && MapOk(m)
    ensures fresh(out) && out[..] == MappedPixels(src, alpha, m)
  {
    out := new Byte[pixelSize * 4](_ => 0);
    var pixel := 0;
    while pixel < pixelSize
      invariant 0 <= pixel <= pixelSize && out.Length == 4 * pixelSize
      invariant Agree(out[..], MappedPixels(src, alpha, m), 4 * pixel)
    {
      var index := pixel * 4;
      ghost var before := out[..];
      WritePixel(out, index, MapByte(m, 0, src[index]), MapByte(m, 1, src[index + 1]),
                 MapByte(m, 2, src[index + 2]), alpha[index + 3]);
      MapStep(src, alpha, m, pixel, before, out[..]);
      pixel := pixel + 1;
    }
  }

  lemma MapStep(src: seq<Byte>, alpha: seq<Byte>, m: ChannelMap, i: nat, before: seq<Byte>, after: seq<Byte>)
    requires |src| == |alpha| == |before| == |after| && |src| % 4 == 0 && 4 * i + 3 < |src| && MapOk(m)
    requires Agree(before, MappedPixels(src, alpha, m), 4 * i) && after[..4 * i] == before[..4 * i]
    requires after[4 * i] == MapByte(m, 0, src[4 * i]) && after[4 * i + 1] == MapByte(m, 1, src[4 * i + 1])
    requires after[4 * i + 2] == MapByte(m, 2, src[4 * i + 2]) && after[4 * i + 3] == alpha[4 * i + 3]
    ensures Agree(after, MappedPixels(src, alpha, m), 4 * i + 4)
  {
    MappedAt(src, alpha, m, i);
    AgreeStep4(after, MappedPixels(src, alpha, m), 4 * i, before);
  }

  lemma MappedAt(src: seq<Byte>, alpha: seq<Byte>, m: ChannelMap, p: nat)
    requires |src| == |alpha| && |src| % 4 == 0 && 4 * p + 3 < |src| && MapOk(m)
    ensures MappedPixels(src, alpha, m)[4 * p] == MapByte(m, 0, src[4 * p])
    ensures MappedPixels(src, alpha, m)[4 * p + 1] == MapByte(m, 1, src[4 * p + 1])
    ensures MappedPixels(src, alpha, m)[4 * p + 2] == MapByte(m, 2, src[4 * p + 2])
    ensures MappedPixels(src, alpha, m)[4 * p + 3] == alpha[4 * p + 3]
  {
    RgbaIndex(p, 0);
    RgbaIndex(p, 1);
    RgbaIndex(p, 2);
    RgbaIndex(p, 3);
  }

  method Brightness(img: Image, level: real) returns (r: Result<Image>)
    ensures r == Brightened(img, level)
  {
    if !ColorDepthOk(img) {
      return Err(SizeMismatch);
    }
    var pixelSize := img.width * img.height;
    var out := MapLoop(img.data, img.data, pixelSize, Offset(level));
    r := Formatter(out[..], img.width, img.height);
  }

  method Contrast(img: Image, level: real, monochrome: bool) returns (r: Result<Image>)
    ensures r == Contrasted(img, level, monochrome)
  {
    if !DepthOk(img) {
      return Err(IncorrectColorDepth);
    }
    var pixelSize := img.width * img.height;
    if monochrome {
      // a buffer of pixelSize bytes, which formatter refuses whatever is in it
      return Err(SizeMismatch);
    }
    var out: array<Byte>;
    if Depth(img) == 1 {
      // every store goes to `newPixelData[undefined]` or `[NaN]`: none lands
      out := new Byte[pixelSize * 4](_ => 0);
      assert out[..] == Zeros(4 * PixelCount(img));
    } else {
      out := MapLoop(img.data, img.data, pixelSize, Stretch(RealOr(level, 1.0)));
    }
    r := Formatter(out[..], img.width, img.height);
  }

  method Invert(img: Image) returns (r: Result<Image>)
    ensures r == Inverted(img)
  {
    if !ColorDepthOk(img) {
      return Err(SizeMismatch);
    }
    var dataLength := |img.data|;
    var out := new Byte[dataLength](_ => 0);
    for i := 0 to dataLength
      invariant forall k :: 0 <= k < i ==> out[k] == InvertedPixels(img.data)[k]
    {
      if (i + 1) % 4 == 0 {
        out[i] := img.data[i];
      } else {
        out[i] := 255 - img.data[i];
      }
    }
    assert out[..] == InvertedPixels(img.data);
    r := Formatter(out[..], img.width, img.height);
  }

  method Posterize(img: Image, level: int) returns (r: Result<Image>)
    ensures r == Posterized(img, level)
  {
    if !ColorDepthOk(img) {
      return Err(SizeMismatch);
    }
    var pixelSize := img.width * img.height;
    var table := BuildPosterizeTable(IntOr(level, 4));
    var out := MapLoop(img.data, img.data, pixelSize, Lookup(table[..], table[..], table[..]));
    r := Formatter(out[..], img.width, img.height);
  }

  method Solarize(img: Image, monochrome: bool) returns (r: Result<Image>)
    ensures r == Solarized(img, monochrome)
  {
    if !DepthOk(img) {
      return Err(IncorrectColorDepth);
    }
    var pixelSize := img.width * img.height;
    var table := BuildSolarizeTable();
    if monochrome {
      return Err(SizeMismatch);
    }
    var out: array<Byte>;
    if Depth(img) == 1 {
      out := new Byte[pixelSize * 4](_ => 0);
      assert out[..] == Zeros(4 * PixelCount(img));
    } else {
      out := MapLoop(img.data, img.data, pixelSize, Lookup(table[..], table[..], table[..]));
    }
    r := Formatter(out[..], img.width, img.height);
  }

  method Threshold(img: Image, level: int, grayscaled: bool) returns (r: Result<Image>)
    ensures r == Thresholded(img, level, grayscaled)
  {
    if !ColorDepthOk(img) {
      return Err(SizeMismatch);
    }
    var pixelSize := img.width * img.height;
    var grayscaledData := img.data;
    if !grayscaled {
      var g := Grayscale.Grayscale(img, "", "");
      DefaultGrayscale(img);
      grayscaledData := g.value.data;
    }
    var table := BuildThresholdTable(IntOr(level, 127));
    var out := MapLoop(grayscaledData, img.data, pixelSize, Lookup(table[..], table[..], table[..]));
    r := Formatter(out[..], img.width, img.height);
  }

  method Pseudocolor(img: Image, grayscaled: bool) returns (r: Result<Image>)
    ensures r == Pseudocolored(img, grayscaled)
  {
    if !ColorDepthOk(img) {
      return Err(SizeMismatch);
    }
    var pixelSize := img.width * img.height;
    var grayscaledData := img.data;
    if !grayscaled {
      var g := Grayscale.Grayscale(img, "", "");
      DefaultGrayscale(img);
      grayscaledData := g.value.data;
    }
    var red := BuildRampTable(RedRamp);
    var green := BuildRampTable(GreenRamp);
    var blue := BuildRampTable(BlueRamp);
    var out := MapLoop(grayscaledData, img.data, pixelSize, Lookup(red[..], green[..], blue[..]));
    r := Formatter(out[..], img.width, img.height);
  }

  // --------------------------------------------------------------- properties

  /** The transforms that call checkColorDepth throw exactly on a buffer
      that is not 4 bytes per pixel, and otherwise return an image. */
  lemma CheckedOutcomes(img: Image, level: real, n: int, grayscaled: bool)
    ensures Brightened(img, level).Ok? <==> ColorDepthOk(img)
    ensures Inverted(img).Ok? <==> ColorDepthOk(img)
    ensures Posterized(img, n).Ok? <==> ColorDepthOk(img)
    ensures Thresholded(img, n, grayscaled).Ok? <==> ColorDepthOk(img)
    ensures Pseudocolored(img, grayscaled).Ok? <==> ColorDepthOk(img)
    ensures !ColorDepthOk(img) ==>
              Brightened(img, level) == Inverted(img) == Posterized(img, n) == Err(SizeMismatch) &&
              Thresholded(img, n, grayscaled) == Pseudocolored(img, grayscaled) == Err(SizeMismatch)
  {
  }

  /** contrast and solarize accept 1 or 4 bytes per pixel, throw
      IncorrectColorDepth on anything else, and throw from formatter on every
      monochrome request. */
  lemma DepthOutcomes(img: Image, level: real, monochrome: bool)
    ensures Contrasted(img, level, monochrome).Ok? <==> DepthOk(img) && !monochrome
    ensures Solarized(img, monochrome).Ok? <==> DepthOk(img) && !monochrome
    ensures !DepthOk(img) ==> Contrasted(img, level, monochrome) == Solarized(img, monochrome) == Err(IncorrectColorDepth)
    ensures DepthOk(img) && monochrome ==> Contrasted(img, level, monochrome) == Solarized(img, monochrome) == Err(SizeMismatch)
  {
  }

  /** A gray (one byte per pixel) input to contrast or solarize comes back as
      an all-zero RGBA image: fully transparent black. */
  lemma GrayInputBlank(img: Image, level: real)
    requires DepthOk(img) && Depth(img) == 1
    ensures Contrasted(img, level, false) == Solarized(img, false)
         == Ok(Image(Zeros(4 * PixelCount(img)), img.width, img.height))
  {
  }

  /** r is an image of the same size as img, with the alpha of pixel p of img. */
  predicate KeepsAlpha(r: Result<Image>, img: Image, p: nat)
    requires 4 * p + 3 < |img.data|
  {
    r.Ok? && |r.value.data| == |img.data| && r.value.data[4 * p + 3] == img.data[4 * p + 3]
  }

  /** Every transform keeps the shape of an RGBA image and its alpha bytes. */
  lemma AlphaKept(img: Image, level: real, n: int, grayscaled: bool, p: nat)
    requires ColorDepthOk(img) && p < PixelCount(img)
    ensures KeepsAlpha(Brightened(img, level), img, p)
    ensures KeepsAlpha(Contrasted(img, level, false), img, p)
    ensures KeepsAlpha(Inverted(img), img, p)
    ensures KeepsAlpha(Posterized(img, n), img, p)
    ensures KeepsAlpha(Solarized(img, false), img, p)
    ensures KeepsAlpha(Thresholded(img, n, grayscaled), img, p)
    ensures KeepsAlpha(Pseudocolored(img, grayscaled), img, p)
  {
    RgbaIndex(p, 3);
    assert KeepsAlpha(Brightened(img, level), img, p) by {
      MappedKeepsAlpha(img, img.data, Offset(level), p);
    }
    assert KeepsAlpha(Contrasted(img, level, false), img, p) by {
      MappedKeepsAlpha(img, img.data, Stretch(RealOr(level, 1.0)), p);
    }
    assert KeepsAlpha(Inverted(img), img, p) by {
      var out := InvertedPixels(img.data);
      assert out[4 * p + 3] == img.data[4 * p + 3];
      FormatterShape(out, img.width, img.height);
    }
    assert KeepsAlpha(Posterized(img, n), img, p) by {
      var t := PosterizeTable(IntOr(n, 4));
      MappedKeepsAlpha(img, img.data, Lookup(t, t, t), p);
    }
    assert KeepsAlpha(Solarized(img, false), img, p) by {
      var t := SolarizeTable();
      MappedKeepsAlpha(img, img.data, Lookup(t, t, t), p);
    }
    assert KeepsAlpha(Thresholded(img, n, grayscaled), img, p) by {
      var t := ThresholdTable(IntOr(n, 127));
      MappedKeepsAlpha(img, GraySource(img, grayscaled), Lookup(t, t, t), p);
    }
    assert KeepsAlpha(Pseudocolored(img, grayscaled), img, p) by {
      MappedKeepsAlpha(img, GraySource(img, grayscaled), Rainbow(), p);
    }
  }

  lemma MappedKeepsAlpha(img: Image, src: seq<Byte>, m: ChannelMap, p: nat)
    requires ColorDepthOk(img) && p < PixelCount(img) && |src| == |img.data| && MapOk(m)
    ensures KeepsAlpha(Formatter(MappedPixels(src, img.data, m), img.width, img.height), img, p)
  {
    MappedAt(src, img.data, m, p);
  }

  // brightness

  /** A level of 0, which is also the default, leaves the image as it is. */
  lemma BrightnessZero(img: Image)
    requires ColorDepthOk(img)
    ensures Brightened(img, 0.0) == Ok(img)
  {
    var out := MappedPixels(img.data, img.data, Offset(0.0));
    forall i | 0 <= i < |out|
      ensures out[i] == img.data[i]
    {
      ClampOfByte(img.data[i]);
    }
    assert out == img.data;
  }

  /** Brightening never darkens a color byte, darkening never brightens one. */
  lemma BrightnessDirection(img: Image, level: real, i: nat)
    requires Brightened(img, level).Ok? && i < |img.data|
    ensures var out := Brightened(img, level).value.data;
            |out| == |img.data| &&
            (level >= 0.0 ==> out[i] >= img.data[i]) &&
            (level <= 0.0 ==> out[i] <= img.data[i])
  {
    var v := img.data[i];
    ClampOfByte(v);
    if level >= 0.0 {
      ClampMonotone(v as real, v as real + level);
    }
    if level <= 0.0 {
      ClampMonotone(v as real + level, v as real);
    }
  }

  /** Two brightness steps in the same direction are one step by their sum:
      the clamp at 0 or 255 loses nothing the second step would restore. */
  lemma BrightnessCompose(img: Image, a: int, b: int)
    requires ColorDepthOk(img) && ((a >= 0 && b >= 0) || (a <= 0 && b <= 0))
    ensures Brightened(img, b as real).Ok?
    ensures Brightened(Brightened(img, b as real).value, a as real) == Brightened(img, (a + b) as real)
  {
    var mid := MappedPixels(img.data, img.data, Offset(b as real));
    var once := MappedPixels(img.data, img.data, Offset((a + b) as real));
    var twice := MappedPixels(mid, mid, Offset(a as real));
    forall i | 0 <= i < |img.data|
      ensures twice[i] == once[i]
    {
      if i % 4 != 3 {
        var v := img.data[i];
        assert mid[i] == ToUint8Clamp(Finite((v + b) as real));
        if a >= 0 && b >= 0 {
          ClampAddCompose(v, a, b);
        } else {
          ClampSubCompose(v, a, b);
        }
      }
    }
    assert twice == once;
  }

  // contrast

  /** A level of 1, which is also the default, leaves an RGBA image as it is. */
  lemma ContrastIdentity(img: Image, level: real)
    requires ColorDepthOk(img) && RealOr(level, 1.0) == 1.0
    ensures Contrasted(img, level, false) == Ok(img)
  {
    var out := MappedPixels(img.data, img.data, Stretch(1.0));
    forall i | 0 <= i < |out|
      ensures out[i] == img.data[i]
    {
      ClampOfByte(img.data[i]);
    }
    assert out == img.data;
  }

  /** A level above 1 pushes every color byte away from 128 (which stays put),
      a level between 0 and 1 pulls it towards 128. */
  lemma ContrastSpreads(img: Image, level: real, i: nat)
    requires ColorDepthOk(img) && level > 0.0 && i < |img.data| && i % 4 != 3
    ensures var out := Contrasted(img, level, false).value.data;
            |out| == |img.data| && Spread(img.data[i], out[i], level)
  {
    ContrastData(img, level);
    var out := MappedPixels(img.data, img.data, Stretch(level));
    StretchSpreads(img.data[i], level);
    assert out[i] == MapByte(Stretch(level), i % 4, img.data[i]);
  }

  /** On an RGBA image at a nonzero level, contrast is the stretch at that level. */
  lemma ContrastData(img: Image, level: real)
    requires ColorDepthOk(img) && level != 0.0
    ensures Contrasted(img, level, false) == Ok(Image(MappedPixels(img.data, img.data, Stretch(level)), img.width, img.height))
  {
    assert RealOr(level, 1.0) == level;
  }

  /** How contrast at a positive level moves v to u. */
  predicate Spread(v: Byte, u: Byte, level: real)
  {
    (v == 128 ==> u == 128) &&
    (level >= 1.0 && v >= 128 ==> u >= v) &&
    (level >= 1.0 && v <= 128 ==> u <= v) &&
    (level <= 1.0 && v >= 128 ==> 128 <= u <= v) &&
    (level <= 1.0 && v <= 128 ==> v <= u <= 128)
  }

  lemma StretchSpreads(v: Byte, level: real)
    requires level > 0.0
    ensures Spread(v, Stretched(v, level), level)
  {
    StretchSide(v, level, (v as real - 128.0) * level);
    SpreadOf(v, (v as real - 128.0) * level + 128.0, level);
  }

  /** Where the stretched value p + 128 lies relative to v and to 128. */
  lemma StretchSide(v: Byte, level: real, p: real)
    requires level > 0.0 && p == (v as real - 128.0) * level
    ensures v == 128 ==> p + 128.0 == 128.0
    ensures level >= 1.0 && v >= 128 ==> p + 128.0 >= v as real
    ensures level >= 1.0 && v <= 128 ==> p + 128.0 <= v as real
    ensures level <= 1.0 && v >= 128 ==> 128.0 <= p + 128.0 <= v as real
    ensures level <= 1.0 && v <= 128 ==> v as real <= p + 128.0 <= 128.0
  {
    StretchBetween(v as real - 128.0, level, p);
  }

  /** The clamp keeps x on the side of v and of 128 it is on. */
  lemma SpreadOf(v: Byte, x: real, level: real)
    requires v == 128 ==> x == 128.0
    requires level >= 1.0 && v >= 128 ==> x >= v as real
    requires level >= 1.0 && v <= 128 ==> x <= v as real
    requires level <= 1.0 && v >= 128 ==> 128.0 <= x <= v as real
    requires level <= 1.0 && v <= 128 ==> v as real <= x <= 128.0
    ensures Spread(v, ToUint8Clamp(Finite(x)), level)
  {
    ClampOfByte(v);
    ClampOfByte(128);
    if x <= v as real {
      ClampMonotone(x, v as real);
    } else {
      ClampMonotone(v as real, x);
    }
    if x <= 128.0 {
      ClampMonotone(x, 128.0);
    } else {
      ClampMonotone(128.0, x);
    }
  }

  /** p = d l lies between d and 0 for 0 < l <= 1, and beyond d for l >= 1. */
  lemma StretchBetween(d: real, l: real, p: real)
    requires l > 0.0 && p == d * l
    ensures d == 0.0 ==> p == 0.0
    ensures l >= 1.0 && d >= 0.0 ==> p >= d
    ensures l >= 1.0 && d <= 0.0 ==> p <= d
    ensures l <= 1.0 && d >= 0.0 ==> 0.0 <= p <= d
    ensures l <= 1.0 && d <= 0.0 ==> d <= p <= 0.0
  {
    assert p - d == d * (l - 1.0);
    if d >= 0.0 {
      assert p >= 0.0;
      if l >= 1.0 { assert d * (l - 1.0) >= 0.0; } else { assert d * (l - 1.0) <= 0.0; }
    } else {
      assert p <= 0.0;
      if l >= 1.0 { assert d * (l - 1.0) <= 0.0; } else { assert d * (l - 1.0) >= 0.0; }
    }
  }

  // invert

  /** Inverting twice gives the image back. */
  lemma InvertInvolution(img: Image)
    requires Inverted(img).Ok?
    ensures Inverted(Inverted(img).value) == Ok(img)
  {
    var once := InvertedPixels(img.data);
    var twice := InvertedPixels(once);
    forall i | 0 <= i < |img.data|
      ensures twice[i] == img.data[i]
    {
    }
    assert twice == img.data;
  }

  /** A white opaque pixel inverts to a black opaque one. */
  lemma InvertWhite()
    ensures Inverted(Image([255, 255, 255, 255], 1, 1)) == Ok(Image([0, 0, 0, 255], 1, 1))
  {
    assert InvertedPixels([255, 255, 255, 255]) == [0, 0, 0, 255];
  }

  // threshold

  /** Threshold output is black or white, white exactly where the gray source
      byte reaches the level; without the grayscaled flag the pixel is gray. */
  lemma ThresholdBlackOrWhite(img: Image, level: int, grayscaled: bool, p: nat, c: nat)
    requires ColorDepthOk(img) && p < PixelCount(img) && c < 3
    ensures var out := Thresholded(img, level, grayscaled).value.data;
            var g := GraySource(img, grayscaled);
            |out| == |img.data| &&
            (out[4 * p + c] == 0 || out[4 * p + c] == 255) &&
            (out[4 * p + c] == 255 <==> g[4 * p + c] >= IntOr(level, 127)) &&
            (!grayscaled ==> out[4 * p] == out[4 * p + 1] == out[4 * p + 2])
  {
    var g := GraySource(img, grayscaled);
    GrayPixelsAt(img.data, Luma, Some(1), p);
    assert !grayscaled ==> g[4 * p] == g[4 * p + 1] == g[4 * p + 2];
    ThresholdData(img, level, grayscaled);
    ThresholdPixel(g, img.data, IntOr(level, 127), p, c);
  }

  /** On an RGBA image, threshold is the table lookup on the gray source. */
  lemma ThresholdData(img: Image, level: int, grayscaled: bool)
    requires ColorDepthOk(img)
    ensures var t := ThresholdTable(IntOr(level, 127));
            Thresholded(img, level, grayscaled)
              == Ok(Image(MappedPixels(GraySource(img, grayscaled), img.data, Lookup(t, t, t)), img.width, img.height))
  {
  }

  /** One pixel through the threshold table: each color byte becomes 0 or 255,
      255 exactly from the level up, and a gray pixel stays gray. */
  lemma ThresholdPixel(g: seq<Byte>, alpha: seq<Byte>, L: int, p: nat, c: nat)
    requires |g| == |alpha| && |g| % 4 == 0 && 4 * p + 3 < |g| && c < 3
    ensures var t := ThresholdTable(L);
            var out := MappedPixels(g, alpha, Lookup(t, t, t));
            (out[4 * p + c] == 0 || out[4 * p + c] == 255) &&
            (out[4 * p + c] == 255 <==> g[4 * p + c] >= L) &&
            (g[4 * p] == g[4 * p + 1] == g[4 * p + 2] ==> out[4 * p] == out[4 * p + 1] == out[4 * p + 2])
  {
    var t := ThresholdTable(L);
    MappedAt(g, alpha, Lookup(t, t, t), p);
    ThresholdBinary(L, g[4 * p + c]);
  }

  /** Pixel p of g has equal red, green and blue bytes. */
  predicate GrayAt(g: seq<Byte>, p: nat)
    requires 4 * p + 3 < |g|
  {
    g[4 * p + 1] == g[4 * p] && g[4 * p + 2] == g[4 * p]
  }

  /** A gray pixel comes out of the threshold table black or white. */
  lemma ThresholdGrayPixel(g: seq<Byte>, alpha: seq<Byte>, L: int, p: nat)
    requires |g| == |alpha| && |g| % 4 == 0 && 4 * p + 3 < |g| && GrayAt(g, p)
    ensures var t := ThresholdTable(L);
            BlackOrWhiteAt(MappedPixels(g, alpha, Lookup(t, t, t)), p)
  {
    ThresholdPixel(g, alpha, L, p, 0);
  }

  /** Pixel p of s is black or white. */
  predicate BlackOrWhiteAt(s: seq<Byte>, p: nat)
    requires 4 * p + 3 < |s|
  {
    GrayAt(s, p) && (s[4 * p] == 0 || s[4 * p] == 255)
  }

  /** Every pixel of g is gray. */
  predicate AllGray(g: seq<Byte>)
  {
    |g| % 4 == 0 && forall p: nat :: p < |g| / 4 ==> GrayAt(g, p)
  }

  lemma LumaAllGray(data: seq<Byte>)
    requires |data| % 4 == 0
    ensures AllGray(GrayPixels(data, Luma, Some(1)))
  {
    forall p: nat | p < |data| / 4
      ensures GrayAt(GrayPixels(data, Luma, Some(1)), p)
    {
      GrayPixelsAt(data, Luma, Some(1), p);
    }
  }

  /** Thresholding a thresholded image at the same level changes nothing:
      black and white pixels are their own luma, and the table keeps each of
      its own entries. */
  lemma ThresholdIdempotent(img: Image, level: int)
    requires ColorDepthOk(img)
    ensures Thresholded(img, level, false).Ok?
    ensures Thresholded(Thresholded(img, level, false).value, level, false) == Thresholded(img, level, false)
  {
    var L := IntOr(level, 127);
    var t := ThresholdTable(L);
    var g := GrayPixels(img.data, Luma, Some(1));
    var once := MappedPixels(g, img.data, Lookup(t, t, t));
    ThresholdData(img, level, false);
    LumaAllGray(img.data);
    ThresholdTwice(g, img.data, L);
    ThresholdData(Image(once, img.width, img.height), level, false);
  }

  /** The seq-level core of ThresholdIdempotent. */
  lemma ThresholdTwice(g: seq<Byte>, alpha: seq<Byte>, L: int)
    requires |g| == |alpha| && AllGray(g)
    ensures var t := ThresholdTable(L);
            var once := MappedPixels(g, alpha, Lookup(t, t, t));
            MappedPixels(GrayPixels(once, Luma, Some(1)), once, Lookup(t, t, t)) == once
  {
    var t := ThresholdTable(L);
    var once := MappedPixels(g, alpha, Lookup(t, t, t));
    var again := MappedPixels(GrayPixels(once, Luma, Some(1)), once, Lookup(t, t, t));
    forall i | 0 <= i < |once|
      ensures again[i] == once[i]
    {
      var p := i / 4;
      PixelOfByte(i, |g|);
      assert GrayAt(g, p);
      ThresholdGrayPixel(g, alpha, L, p);
      MappedAt(g, alpha, Lookup(t, t, t), p);
      ThresholdTableFixed(L, g[4 * p]);
      ThresholdFixedAt(once, L, i);
    }
    assert again == once;
  }

  /** A byte of a gray pixel whose value the threshold table keeps passes
      through thresholding unchanged. */
  lemma ThresholdFixedAt(data: seq<Byte>, L: int, i: nat)
    requires |data| % 4 == 0 && i < |data|
    requires 4 * (i / 4) + 3 < |data| && GrayAt(data, i / 4)
    requires ThresholdTable(L)[data[4 * (i / 4)]] == data[4 * (i / 4)]
    ensures var t := ThresholdTable(L);
            MappedPixels(GrayPixels(data, Luma, Some(1)), data, Lookup(t, t, t))[i] == data[i]
  {
    var p := i / 4;
    PixelOfByte(i, |data|);
    var v := data[4 * p];
    GrayValueOfGray(Luma, Some(1), v);
    assert GrayByte(data, Luma, Some(1), p) == v;
    if i % 4 != 3 {
      assert data[i] == v;
      assert GrayPixels(data, Luma, Some(1))[i] == v;
    }
  }

  // pseudocolor

  /** A gray pixel of value v is colored by the three tables at v; so black
      becomes blue, the middle gray 128 green and white red. */
  lemma PseudocolorOfGray(img: Image, grayscaled: bool, p: nat, v: Byte)
    requires ColorDepthOk(img) && p < PixelCount(img)
    requires img.data[4 * p] == img.data[4 * p + 1] == img.data[4 * p + 2] == v
    ensures var out := Pseudocolored(img, grayscaled).value.data;
            |out| == |img.data| &&
            out[4 * p] == RampTable(RedRamp)[v] &&
            out[4 * p + 1] == RampTable(GreenRamp)[v] &&
            out[4 * p + 2] == RampTable(BlueRamp)[v] &&
            (v == 0 ==> out[4 * p] == 0 && out[4 * p + 1] == 0 && out[4 * p + 2] == 255) &&
            (v == 128 ==> out[4 * p] == 0 && out[4 * p + 1] == 255 && out[4 * p + 2] == 0) &&
            (v == 255 ==> out[4 * p] == 255 && out[4 * p + 1] == 0 && out[4 * p + 2] == 0)
  {
    var g := GraySource(img, grayscaled);
    MappedAt(g, img.data, Rainbow(), p);
    GrayPixelsAt(img.data, Luma, Some(1), p);
    GrayValueOfGray(Luma, Some(1), v);
    RampClosedForms(v);
  }
}

