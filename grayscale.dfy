/**
  grayscale (grafi.js:409-446): every RGBA pixel becomes one gray value,
  written to its red, green and blue bytes; alpha is copied.
 */
module Grayscale {
  import opened TypedArrays
  import opened ImageData

  /** The three functions of the `mode` object (grafi.js:419-430). */
  datatype Mode = Luma | Simple | Average

  /** `mode[name]`: the function under that key, if there is one. */
  function ModeNamed(name: string): Option<Mode>
  {
    if name == "luma" then Some(Luma)
    else if name == "simple" then Some(Simple)
    else if name == "average" then Some(Average)
    else None
  }

  /** `{r: 0, g: 1, b: 2}[channel]`: the argument position a channel name selects. */
  function ChannelIndex(channel: string): Option<nat>
  {
    if channel == "r" then Some(0)
    else if channel == "g" then Some(1)
    else if channel == "b" then Some(2)
    else None
  }

  /** luma: 0.299 r + 0.587 g + 0.114 b, as an exact rational. */
  function LumaOf(r: Byte, g: Byte, b: Byte): (n: Num)
    ensures n.Finite? && 0.0 <= n.value <= 255.0
    ensures r == g == b ==> n == ByteNum(r)
  {
    Finite((299 * r + 587 * g + 114 * b) as real / 1000.0)
  }

  /** simple: `arguments[ref[channel]]`; a channel name that is not a key of
      `ref` indexes `arguments` with undefined, which gives undefined. */
  function SimpleOf(r: Byte, g: Byte, b: Byte, channel: Option<nat>): (n: Num)
    ensures channel.Some? && channel.value < 3 <==> n.Finite?
    ensures n.Finite? ==> n == ByteNum(r) || n == ByteNum(g) || n == ByteNum(b)
  {
    match channel
    case Some(0) => ByteNum(r)
    case Some(1) => ByteNum(g)
    case Some(2) => ByteNum(b)
    case _ => NaN
  }

  /** average: (r + g + b) / 3. */
  function AverageOf(r: Byte, g: Byte, b: Byte): (n: Num)
    ensures n.Finite? && 0.0 <= n.value <= 255.0
    ensures r == g == b ==> n == ByteNum(r)
  {
    Finite((r + g + b) as real / 3.0)
  }

  /** `mode[option.mode](r, g, b, a, option.channel)` for a known mode. */
  function GrayValue(mode: Mode, channel: Option<nat>, r: Byte, g: Byte, b: Byte): Num
  {
    match mode
    case Luma => LumaOf(r, g, b)
    case Simple => SimpleOf(r, g, b, channel)
    case Average => AverageOf(r, g, b)
  }

  /** The gray byte of pixel p of an RGBA buffer. */
  function GrayByte(data: seq<Byte>, mode: Mode, channel: Option<nat>, p: nat): Byte
    requires 4 * p + 3 < |data|
  {
    ToUint8Clamp(GrayValue(mode, channel, data[4 * p], data[4 * p + 1], data[4 * p + 2]))
  }

  /** The output buffer: the gray byte in the three color channels, alpha copied. */
  function GrayPixels(data: seq<Byte>, mode: Mode, channel: Option<nat>): (out: seq<Byte>)
    requires |data| % 4 == 0
    ensures |out| == |data|
  {
    seq(|data|, i requires 0 <= i < |data| =>
      if i % 4 == 3 then data[i] else GrayByte(data, mode, channel, i / 4))
  }

  /** The value grayscale returns or the exception it throws. Mode and channel
      default through `||`: the empty string means luma and green. */
  function Grayscaled(img: Image, mode: string, channel: string): Result<Image>
  {
    if !ColorDepthOk(img) then Err(SizeMismatch)
    else
      var m := ModeNamed(if mode == "" then "luma" else mode);
      var c := ChannelIndex(if channel == "" then "g" else channel);
      if m.None? then Err(UnknownMode)
      else Formatter(GrayPixels(img.data, m.value, c), img.width, img.height)
  }

  method Grayscale(img: Image, mode: string, channel: string) returns (r: Result<Image>)
    ensures r == Grayscaled(img, mode, channel)
  {
    if !ColorDepthOk(img) {
      return Err(SizeMismatch);
    }
    var m := ModeNamed(if mode == "" then "luma" else mode);
    var c := ChannelIndex(if channel == "" then "g" else channel);
    if m.None? {
      // `mode[option.mode]` is undefined: calling it on the first pixel (there
      // is at least one) throws a TypeError
      return Err(UnknownMode);
    }
    var pixelSize := img.width * img.height;
    var out := GrayLoop(img.data, pixelSize, m.value, c);
    r := Formatter(out[..], img.width, img.height);
  }

  /** The pixel loop of grayscale (grafi.js:433-444), writing a fresh array. */
  method GrayLoop(data: seq<Byte>, pixelSize: nat, mode: Mode, channel: Option<nat>)
    returns (out: array<Byte>)
    requires |data| == 4 * pixelSize
    ensures fresh(out) && out[..] == GrayPixels(data, mode, channel)
  {
    out := new Byte[pixelSize * 4](_ => 0);
    var i := 0;
    while i < pixelSize
      invariant 0 <= i <= pixelSize && out.Length == 4 * pixelSize
      invariant Agree(out[..], GrayPixels(data, mode, channel), 4 * i)
    {
      var index := i * 4;
      ghost var before := out[..];
      var grayscaled := GrayValue(mode, channel, data[index], data[index + 1], data[index + 2]);
      var g := ToUint8Clamp(grayscaled);
      var alpha := ToUint8Clamp(ByteNum(data[index + 3]));
      WritePixel(out, index, g, g, g, alpha);
      GrayStep(data, mode, channel, i, before, out[..], g, alpha);
      i := i + 1;
    }
  }

  /** One pass of the loop body extends the finished prefix by one pixel. */
  lemma GrayStep(data: seq<Byte>, mode: Mode, channel: Option<nat>, i: nat,
                 before: seq<Byte>, after: seq<Byte>, g: Byte, alpha: Byte)
    requires |data| % 4 == 0 && 4 * i + 3 < |data| && |before| == |after| == |data|
    requires Agree(before, GrayPixels(data, mode, channel), 4 * i) && after[..4 * i] == before[..4 * i]
    requires after[4 * i] == g && after[4 * i + 1] == g && after[4 * i + 2] == g && after[4 * i + 3] == alpha
    requires g == ToUint8Clamp(GrayValue(mode, channel, data[4 * i], data[4 * i + 1], data[4 * i + 2]))
    requires alpha == ToUint8Clamp(ByteNum(data[4 * i + 3]))
    ensures Agree(after, GrayPixels(data, mode, channel), 4 * i + 4)
  {
    GrayPixelsAt(data, mode, channel, i);
    ClampOfByte(data[4 * i + 3]);
    AgreeStep4(after, GrayPixels(data, mode, channel), 4 * i, before);
  }

  /** grayscale throws on a buffer that is not 4 bytes per pixel, then on a
      mode name that is not a key of `mode`; otherwise it returns an image
      of the same size and shape. */
  lemma GrayscaleOutcome(img: Image, mode: string, channel: string)
    ensures !ColorDepthOk(img) ==> Grayscaled(img, mode, channel) == Err(SizeMismatch)
    ensures ColorDepthOk(img) ==>
              (Grayscaled(img, mode, channel) == Err(UnknownMode)
               <==> mode != "" && mode != "luma" && mode != "simple" && mode != "average")
    ensures Grayscaled(img, mode, channel).Ok? ==>
              var out := Grayscaled(img, mode, channel).value;
              out.width == img.width && out.height == img.height &&
              |out.data| == |img.data| == 4 * PixelCount(img)
  {
  }

  /** The example of the grayscale documentation: average of [30, 60, 90] is 60. */
  lemma AverageExample()
    ensures Grayscaled(Image([30, 60, 90, 255], 1, 1), "average", "")
         == Ok(Image([60, 60, 60, 255], 1, 1))
  {
    var out := GrayPixels([30, 60, 90, 255], Average, Some(1));
    assert AverageOf(30, 60, 90) == ByteNum(60);
    assert out == [60, 60, 60, 255];
  }

  /** A gray pixel is a fixed point of every mode, except that simple mode on an
      unknown channel maps everything to 0. */
  lemma GrayValueOfGray(mode: Mode, channel: Option<nat>, v: Byte)
    ensures ToUint8Clamp(GrayValue(mode, channel, v, v, v))
         == if mode == Simple && !(channel.Some? && channel.value < 3) then 0 else v
  {
    ClampOfByte(v);
  }

  /** grayscale is idempotent: its output is gray, and a gray image maps to itself. */
  lemma GrayscaleIdempotent(img: Image, mode: string, channel: string)
    requires Grayscaled(img, mode, channel).Ok?
    ensures Grayscaled(Grayscaled(img, mode, channel).value, mode, channel)
         == Grayscaled(img, mode, channel)
  {
    var m := ModeNamed(if mode == "" then "luma" else mode).value;
    var c := ChannelIndex(if channel == "" then "g" else channel);
    assert Grayscaled(img, mode, channel).value.data == GrayPixels(img.data, m, c);
    GrayTwice(img.data, m, c);
  }

  /** The buffer-level statement of GrayscaleIdempotent. */
  lemma GrayTwice(data: seq<Byte>, m: Mode, c: Option<nat>)
    requires |data| % 4 == 0
    ensures GrayPixels(GrayPixels(data, m, c), m, c) == GrayPixels(data, m, c)
  {
    var g := GrayPixels(data, m, c);
    forall i | 0 <= i < |g|
      ensures GrayPixels(g, m, c)[i] == g[i]
    {
      GrayFixedAt(data, m, c, i);
    }
  }

  lemma GrayFixedAt(data: seq<Byte>, m: Mode, c: Option<nat>, i: nat)
    requires |data| % 4 == 0 && i < |data|
    ensures GrayPixels(GrayPixels(data, m, c), m, c)[i] == GrayPixels(data, m, c)[i]
  {
    var g := GrayPixels(data, m, c);
    var p := i / 4;
    PixelOfByte(i, |data|);
    if i % 4 != 3 {
      var v := GrayByte(data, m, c, p);
      GrayPixelsAt(data, m, c, p);
      GrayOfUnknownChannel(data, m, c, p);
      GrayOfGrayPixel(g, m, c, p, v);
      assert g[i] == v;
      assert GrayPixels(g, m, c)[i] == GrayByte(g, m, c, p);
    }
  }

  /** A pixel whose three color bytes are v grays to v (to 0 when simple mode
      names no channel, which is then v). */
  lemma GrayOfGrayPixel(g: seq<Byte>, m: Mode, c: Option<nat>, p: nat, v: Byte)
    requires 4 * p + 3 < |g| && g[4 * p] == v && g[4 * p + 1] == v && g[4 * p + 2] == v
    requires m == Simple && !(c.Some? && c.value < 3) ==> v == 0
    ensures GrayByte(g, m, c, p) == v
  {
    GrayValueOfGray(m, c, v);
  }

  /** Simple mode on an unknown channel grays every pixel to 0. */
  lemma GrayOfUnknownChannel(data: seq<Byte>, m: Mode, c: Option<nat>, p: nat)
    requires 4 * p + 3 < |data|
    ensures m == Simple && !(c.Some? && c.value < 3) ==> GrayByte(data, m, c, p) == 0
  {
  }

  /** The output is gray (three equal color bytes) and keeps the input's alpha. */
  lemma GrayscaleGrayAndAlpha(img: Image, mode: string, channel: string, p: nat)
    requires Grayscaled(img, mode, channel).Ok? && p < PixelCount(img)
    ensures var out := Grayscaled(img, mode, channel).value.data;
            |out| == |img.data| &&
            out[4 * p] == out[4 * p + 1] == out[4 * p + 2] &&
            out[4 * p + 3] == img.data[4 * p + 3]
  {
    var m := ModeNamed(if mode == "" then "luma" else mode).value;
    var c := ChannelIndex(if channel == "" then "g" else channel);
    assert Grayscaled(img, mode, channel).value.data == GrayPixels(img.data, m, c);
    GrayPixelsAt(img.data, m, c, p);
  }

  lemma GrayPixelsAt(data: seq<Byte>, mode: Mode, channel: Option<nat>, p: nat)
    requires |data| % 4 == 0 && 4 * p + 3 < |data|
    ensures GrayPixels(data, mode, channel)[4 * p] == GrayByte(data, mode, channel, p)
    ensures GrayPixels(data, mode, channel)[4 * p + 1] == GrayByte(data, mode, channel, p)
    ensures GrayPixels(data, mode, channel)[4 * p + 2] == GrayByte(data, mode, channel, p)
    ensures GrayPixels(data, mode, channel)[4 * p + 3] == data[4 * p + 3]
  {
    RgbaIndex(p, 0);
    RgbaIndex(p, 1);
    RgbaIndex(p, 2);
    RgbaIndex(p, 3);
  }
}
