/**
  The 256-entry lookup tables of threshold (grafi.js:655-659), pseudocolor
  (grafi.js:701-736), solarize (grafi.js:573-593) and posterize
  (grafi.js:496-513). Each table is built by a loop that stores into a typed
  array; each is proved equal to a closed form, and the closed forms carry
  the properties the filters promise.
 */
module LookupTables {
  import opened TypedArrays
  import opened ImageData

  /** A table indexed by every byte value. */
  predicate IsTable(t: seq<Byte>)
  {
    |t| == 256
  }

  // ---------------------------------------------------------------- threshold

  /** The threshold table: 255 from `level` upwards, 0 below. */
  function ThresholdTable(level: int): (t: seq<Byte>)
    ensures IsTable(t)
  {
    seq(256, v => if level <= v then 255 else 0)
  }

  /** `for (i = level; i < 256; i++) lookupTable[i] = 255` on a Uint8Array;
      a negative i is not an index and its store is dropped. */
  method BuildThresholdTable(level: int) returns (t: array<Byte>)
    ensures fresh(t) && t[..] == ThresholdTable(level)
  {
    t := new Byte[256](_ => 0);
    var i := level;
    while i < 256
      invariant level <= i
      invariant forall v :: 0 <= v < 256 ==> t[v] == if level <= v < i then 255 else 0
      decreases 256 - i
    {
      SetUint8(t, i, Finite(255.0));
      i := i + 1;
    }
  }

  /** Every threshold table entry is black or white, white exactly from the level on. */
  lemma ThresholdBinary(level: int, v: Byte)
    ensures ThresholdTable(level)[v] == 0 || ThresholdTable(level)[v] == 255
    ensures ThresholdTable(level)[v] == 255 <==> v >= level
  {
  }

  /** Every entry of a threshold table is a fixed point of the table: at any
      level the table sends 0 and 255 where it sends the bytes that map to them. */
  lemma ThresholdTableFixed(level: int, v: Byte)
    ensures var t := ThresholdTable(level); t[t[v]] == t[v]
  {
    ThresholdBinary(level, v);
    ThresholdBinary(level, ThresholdTable(level)[v]);
  }

  // -------------------------------------------------------------- pseudocolor

  /** The three forEach callbacks of pseudocolor. */
  datatype Ramp = RedRamp | GreenRamp | BlueRamp

  /** The `n` each callback computes for index i, before the clamped store. */
  function RampValue(ramp: Ramp, i: int): real
  {
    match ramp
    case RedRamp =>
      var n := if 128 < i < 192 then (i - 128) as real * (256.0 / (192 - 128) as real) else 0.0;
      if i >= 192 then 255.0 else n
    case GreenRamp =>
      var n := if i < 64 then i as real * (256.0 / 64.0) else 255.0;
      if i >= 192 then 255.0 - (i - 191) as real * (256.0 / (256 - 192) as real) else n
    case BlueRamp =>
      var n := if 64 < i < 128 then 255.0 - (i - 63) as real * (256.0 / (192 - 128) as real) else 0.0;
      if i < 65 then 255.0 else n
  }

  /** A pseudocolor table: every value through the Uint8ClampedArray store. */
  function RampTable(ramp: Ramp): (t: seq<Byte>)
    ensures IsTable(t)
  {
    seq(256, i => ToUint8Clamp(Finite(RampValue(ramp, i))))
  }

  /** `table.forEach(function (d, i) { ...; table[i] = n })`. */
  method BuildRampTable(ramp: Ramp) returns (t: array<Byte>)
    ensures fresh(t) && t[..] == RampTable(ramp)
  {
    t := new Byte[256](_ => 0);
    for i := 0 to 256
      invariant forall k :: 0 <= k < i ==> t[k] == ToUint8Clamp(Finite(RampValue(ramp, k)))
    {
      SetClamped(t, i, Finite(RampValue(ramp, i)));
    }
  }

  /** The rainbow, entry by entry: red rises in steps of 4 over (128, 192) and
      then saturates; green rises in steps of 4 up to 64, stays at 255 and
      falls from 192, reaching 0 at 255 only by clamping 255 - 256; blue is 255
      up to 64 and falls in steps of 4 to 0 at 127. */
  lemma RampClosedForms(i: Byte)
    ensures RampTable(RedRamp)[i] == if i <= 128 then 0 else if i < 192 then 4 * (i - 128) else 255
    ensures RampTable(GreenRamp)[i] == if i < 64 then 4 * i else if i < 192 then 255 else if i < 255 then 255 - 4 * (i - 191) else 0
    ensures RampTable(BlueRamp)[i] == if i < 65 then 255 else if i < 127 then 255 - 4 * (i - 63) else 0
  {
    ClampOfInt(if i <= 128 then 0 else if i < 192 then 4 * (i - 128) else 255);
    ClampOfInt(if i < 64 then 4 * i else if i < 192 then 255 else 255 - 4 * (i - 191));
    ClampOfInt(if i < 65 then 255 else if i < 128 then 255 - 4 * (i - 63) else 0);
  }

  /** Red never decreases, blue never increases, green rises then falls. */
  lemma RampShapes(i: Byte, j: Byte)
    requires i <= j
    ensures RampTable(RedRamp)[i] <= RampTable(RedRamp)[j]
    ensures RampTable(BlueRamp)[i] >= RampTable(BlueRamp)[j]
    ensures j < 192 ==> RampTable(GreenRamp)[i] <= RampTable(GreenRamp)[j]
    ensures 64 <= i ==> RampTable(GreenRamp)[i] >= RampTable(GreenRamp)[j]
  {
    RampClosedForms(i);
    RampClosedForms(j);
  }

  // ----------------------------------------------------------------- solarize

  /** The closed form of the solarize table: a rising ramp of slope 3 over
      [0, 85), a falling one from 255 over [85, 171), and a rising one from 0
      again over [171, 256). */
  function SolarizeEntry(v: Byte): Byte
  {
    if v < 85 then 3 * v else if v < 171 then 255 - 3 * (v - 85) else 3 * (v - 171)
  }

  function SolarizeTable(): (t: seq<Byte>)
    ensures IsTable(t)
  {
    seq(256, v requires 0 <= v < 256 => SolarizeEntry(v))
  }

  /** The first index band l writes: `Math.round(l * 256 / 3)`. */
  function SolarizeStart(l: int): int
  {
    if l == 0 then 0 else if l == 1 then 85 else 171
  }

  /** The entries below which bands 0 .. l - 1 have written their final value. */
  function SolarizeReach(l: int): int
  {
    if l <= 0 then 0 else if l == 1 then 86 else if l == 2 then 171 else 256
  }

  /** Bands 0 .. l - 1 and the first s steps of band l are in place; the
      entries no step has reached yet still hold 0. */
  predicate SolarizeFilled(t: seq<Byte>, l: int, s: int)
    requires IsTable(t)
  {
    forall v :: 0 <= v < 256 ==>
      t[v] == if v < SolarizeReach(l) || SolarizeStart(l) <= v < SolarizeStart(l) + s then SolarizeEntry(v) else 0
  }

  /** The table loops of solarize. `stepSize` is 256 / 3, so each band has 86
      steps. */
  method BuildSolarizeTable() returns (t: array<Byte>)
    ensures fresh(t) && t[..] == SolarizeTable()
  {
    t := new Byte[256](_ => 0);
    var stepSize := 256.0 / 3.0;
    var l := 0;
    while l < 3
      invariant 0 <= l <= 3 && t.Length == 256
      invariant SolarizeFilled(t[..], l, 0)
    {
      SolarizeBand(t, l, stepSize);
      l := l + 1;
    }
    SolarizeBandDone(t[..], 3);
  }

  /** The inner loop for band l. */
  method SolarizeBand(t: array<Byte>, l: int, stepSize: real)
    requires t.Length == 256 && 0 <= l < 3 && stepSize == 256.0 / 3.0
    requires SolarizeFilled(t[..], l, 0)
    modifies t
    ensures SolarizeFilled(t[..], l + 1, 0)
  {
    var s := 0;
    while (s as real) < stepSize
      invariant 0 <= s <= 86
      invariant SolarizeFilled(t[..], l, s)
      decreases 86 - s
    {
      SolarizeStepSize(l, s, stepSize);
      var li := JsRound(l as real * stepSize + s as real);
      var value: Num;
      if (l + 1) % 2 != 0 {
        if (l + 1) as real >= stepSize {
          // never taken: l + 1 is at most 3
          assert false;
        }
        value := Finite(s as real * (256.0 / stepSize));
      } else {
        value := Finite(255.0 - s as real * (256.0 / stepSize));
      }
      assert li < 256 ==> ToUint8(value) == SolarizeEntry(li);
      ghost var before := t[..];
      SetUint8(t, li, value);
      SolarizeStep(before, t[..], l, s, li, value);
      s := s + 1;
    }
    SolarizeBandDone(t[..], l);
  }

  /** What the loop needs of `stepSize`: step s of band l lands on
      `SolarizeStart(l) + s`, the value it stores there is the closed form's,
      `l + 1` stays below it and a band has 86 steps. */
  lemma SolarizeStepSize(l: int, s: int, stepSize: real)
    requires 0 <= l < 3 && 0 <= s && stepSize == 256.0 / 3.0
    ensures (s as real) < stepSize <==> s <= 85
    ensures (l + 1) as real < stepSize
    ensures s <= 85 ==> JsRound(l as real * stepSize + s as real) == SolarizeStart(l) + s
    ensures var v := SolarizeStart(l) + s;
            s <= 85 && v < 256 ==>
              SolarizeEntry(v) == ToUint8(Finite(if (l + 1) % 2 != 0 then s as real * (256.0 / stepSize)
                                                 else 255.0 - s as real * (256.0 / stepSize)))
  {
    assert 256.0 / stepSize == 3.0;
    if s <= 85 {
      SolarizeRound(l, s, stepSize);
      SolarizeValue(l, s);
    }
  }

  lemma SolarizeRound(l: int, s: int, stepSize: real)
    requires 0 <= l < 3 && 0 <= s <= 85 && stepSize == 256.0 / 3.0
    ensures JsRound(l as real * stepSize + s as real) == SolarizeStart(l) + s
  {
    var k := JsRound(l as real * stepSize + s as real);
    if l == 0 {
      assert k == s;
    } else if l == 1 {
      assert k == 85 + s;
    } else {
      assert k == 171 + s;
    }
  }

  lemma SolarizeValue(l: int, s: int)
    requires 0 <= l < 3 && 0 <= s <= 85
    ensures var v := SolarizeStart(l) + s;
            v < 256 ==>
              SolarizeEntry(v) == ToUint8(Finite(if (l + 1) % 2 != 0 then s as real * 3.0 else 255.0 - s as real * 3.0))
  {
  }

  /** One step of band l stores its value at its index, or nowhere once the
      index has run past the table. */
  lemma SolarizeStep(before: seq<Byte>, after: seq<Byte>, l: int, s: int, li: int, value: Num)
    requires IsTable(before) && IsTable(after) && 0 <= l < 3 && 0 <= s <= 85
    requires SolarizeFilled(before, l, s) && li == SolarizeStart(l) + s
    requires li < 256 ==> ToUint8(value) == SolarizeEntry(li)
    requires forall k :: 0 <= k < 256 ==> after[k] == if k == li then ToUint8(value) else before[k]
    ensures SolarizeFilled(after, l, s + 1)
  {
  }

  /** A finished band extends the reach; after the last one the table is complete. */
  lemma SolarizeBandDone(t: seq<Byte>, l: int)
    requires IsTable(t) && 0 <= l <= 3
    requires l < 3 ==> SolarizeFilled(t, l, 86)
    requires l == 3 ==> SolarizeFilled(t, 3, 0)
    ensures l < 3 ==> SolarizeFilled(t, l + 1, 0)
    ensures l == 3 ==> t == SolarizeTable()
  {
    if l == 3 {
      assert forall v :: 0 <= v < 256 ==> t[v] == SolarizeTable()[v];
    }
  }

  /** Solarize inverts the middle third: dark and bright values rise with the
      input, middle values fall, and the bands meet at 255 and at 0. */
  lemma SolarizeShape(u: Byte, v: Byte)
    requires u < v
    ensures v <= 85 ==> SolarizeTable()[u] < SolarizeTable()[v]
    ensures 85 <= u && v < 171 ==> SolarizeTable()[u] > SolarizeTable()[v]
    ensures 171 <= u ==> SolarizeTable()[u] < SolarizeTable()[v]
    ensures SolarizeTable()[85] == 255 && SolarizeTable()[170] == 0 && SolarizeTable()[171] == 0
    ensures SolarizeTable()[0] == 0 && SolarizeTable()[255] == 252
  {
  }

  // ---------------------------------------------------------------- posterize
  //
  // L is the level count after `|| 4`. Band l (0 <= l < L) takes the steps
  // s < 256 / L and stores its value at `Math.round(l * 256 / L + s)`; a later
  // band overwrites the entry where two bands meet.

  function Min(a: int, b: int): int
  {
    if a <= b then a else b
  }

  /** The first index band l writes: `Math.round(l * 256 / L)`. */
  function PosterizeStart(L: int, l: int): int
    requires L >= 1
  {
    (512 * l + L) / (2 * L)
  }

  /** How many steps a band takes: the integers below `256 / L`. */
  function PosterizeSteps(L: int): int
    requires L >= 1
  {
    (255 + L) / L
  }

  /** The last band whose first index is at or below v. */
  function BandOf(L: int, v: int): int
    requires L >= 1
  {
    (L * (2 * v + 1) - 1) / 512
  }

  function PosterizeValue(L: int, l: int): Byte
    requires 1 <= L && 0 <= l < L
  {
    if l == L - 1 then 255
    else
      assert 256 * l < 256 * (L - 1);
      (256 * l) / (L - 1)
  }

  lemma StartBounds(L: int, l: int)
    requires L >= 1
    ensures 2 * L * PosterizeStart(L, l) <= 512 * l + L < 2 * L * PosterizeStart(L, l) + 2 * L
  {
  }

  lemma BandBounds(L: int, v: int)
    requires L >= 1
    ensures 512 * BandOf(L, v) <= L * (2 * v + 1) - 1 < 512 * BandOf(L, v) + 512
  {
  }

  lemma StepsBounds(L: int)
    requires L >= 1
    ensures L * (PosterizeSteps(L) - 1) <= 255 < L * PosterizeSteps(L)
  {
  }

  /** Band l has started by index v exactly when l is at most v's band. */
  lemma StartIff(L: int, l: int, v: int)
    requires L >= 1
    ensures PosterizeStart(L, l) <= v <==> l <= BandOf(L, v)
  {
    var st, b := PosterizeStart(L, l), BandOf(L, v);
    StartBounds(L, l);
    BandBounds(L, v);
    if st <= v {
      MulMonotone(st + 1, v + 1, 2 * L);
    } else {
      MulMonotone(v + 1, st, 2 * L);
    }
  }

  /** Bands start in order, and no band starts beyond the end of the one before. */
  lemma StartGap(L: int, l: int)
    requires L >= 1
    ensures PosterizeStart(L, l) <= PosterizeStart(L, l + 1) <= PosterizeStart(L, l) + PosterizeSteps(L)
  {
    var st, n := PosterizeStart(L, l), PosterizeSteps(L);
    StartIff(L, l + 1, PosterizeStart(L, l + 1));
    StartIff(L, l, PosterizeStart(L, l + 1));
    StartBounds(L, l);
    StepsBounds(L);
    assert L * (2 * (st + n) + 1) - 1 == 2 * L * st + 2 * (L * n) + L - 1;
    BandBounds(L, st + n);
    StartIff(L, l + 1, st + n);
  }

  /** The last band reaches the end of the table. */
  lemma StartCover(L: int)
    requires L >= 1
    ensures PosterizeStart(L, L - 1) + PosterizeSteps(L) >= 256
  {
    var st, n := PosterizeStart(L, L - 1), PosterizeSteps(L);
    if L == 1 {
      assert st == 0 && n == 256;
    } else {
      StartBounds(L, L - 1);
      StepsBounds(L);
      assert (st + n) * (2 * L) == 2 * L * st + 2 * (L * n);
      MulCancelLess(255, st + n, 2 * L);
    }
  }

  /** `Math.round(level * stepSize + step)` for `stepSize = 256 / L`. */
  lemma PosterizeIndex(L: int, l: int, s: int, stepSize: real)
    requires L >= 1 && 0 <= l && 0 <= s && stepSize == 256.0 / L as real
    ensures JsRound(l as real * stepSize + s as real) == PosterizeStart(L, l) + s
  {
    var n, d := 512 * l + L + 2 * L * s, 2 * L;
    MulQuot(l as real, 256.0, L as real);
    assert l as real * 256.0 == (256 * l) as real;
    assert l as real * stepSize == (256 * l) as real / L as real;
    SumQuot(256 * l, L, s);
    assert l as real * stepSize + s as real + 0.5 == n as real / d as real;
    FloorQuot(n, d);
    DivAddMultiple(512 * l + L, d, s);
  }

  /** The loop test `step < stepSize` holds for the first `PosterizeSteps(L)` steps. */
  lemma PosterizeStepTest(L: int, s: int, stepSize: real)
    requires L >= 1 && 0 <= s && stepSize == 256.0 / L as real
    ensures (s as real) < stepSize <==> s < PosterizeSteps(L)
  {
    LessQuot(s as real, 256.0, L as real);
    assert (s as real) * (L as real) == (s * L) as real;
    DivAddMultiple(255, L, 1);
    StepsBounds(L);
    if s < PosterizeSteps(L) {
      MulMonotone(s, PosterizeSteps(L) - 1, L);
    } else {
      MulMonotone(PosterizeSteps(L), s, L);
    }
  }

  /** a (n / d) is (a n) / d. */
  lemma MulQuot(a: real, n: real, d: real)
    requires d != 0.0
    ensures a * (n / d) == (a * n) / d
  {
  }

  /** m / L + s + 1/2 is (2 m + 2 L s + L) / 2 L. */
  lemma SumQuot(m: int, L: int, s: int)
    requires L >= 1
    ensures m as real / L as real + s as real + 0.5 == (2 * m + L + 2 * L * s) as real / (2 * L) as real
  {
    var x := m as real / L as real + s as real + 0.5;
    var n, d := (2 * m + L + 2 * L * s) as real, (2 * L) as real;
    assert (m as real / L as real) * L as real == m as real;
    assert x * d == (m as real / L as real) * L as real * 2.0 + (2 * L * s) as real + L as real;
    assert (n / d) * d == n;
    RealMulOrder(x, n / d, d);
    RealMulOrder(n / d, x, d);
  }

  /** The floor of n / d, for a positive d, is the integer quotient. */
  lemma FloorQuot(n: int, d: int)
    requires d > 0
    ensures (n as real / d as real).Floor == n / d
  {
    var q := n / d;
    var x := n as real / d as real;
    assert x * d as real == n as real;
    assert q * d <= n < q * d + d;
    assert (q * d) as real == q as real * d as real;
    assert (q * d + d) as real == (q + 1) as real * d as real;
    RealMulOrder(x, q as real, d as real);
    RealMulOrder((q + 1) as real, x, d as real);
    assert q as real <= x < (q + 1) as real;
  }

  lemma RealMulOrder(x: real, y: real, d: real)
    requires d > 0.0
    ensures x < y <==> x * d < y * d
  {
  }

  lemma DivAddMultiple(a: int, d: int, s: int)
    requires d > 0
    ensures (a + d * s) / d == a / d + s
  {
    DivUnique(a + d * s, d, a / d + s, a % d);
  }

  /** The quotient is the one q with n = d q + r and 0 <= r < d. */
  lemma DivUnique(n: int, d: int, q: int, r: int)
    requires d > 0 && n == d * q + r && 0 <= r < d
    ensures n / d == q
  {
    var q', r' := n / d, n % d;
    assert d * (q' - q) == r - r';
    ZeroMultiple(q' - q, d);
  }

  /** The only multiple of d strictly between -d and d is 0. */
  lemma ZeroMultiple(k: int, d: int)
    requires d > 0 && -d < d * k < d
    ensures k == 0
  {
    if k > 0 {
      MulMonotone(1, k, d);
    } else if k < 0 {
      MulMonotone(k, -1, d);
    }
  }

  /** a < n / d exactly when a d < n, for a positive d. */
  lemma LessQuot(a: real, n: real, d: real)
    requires d > 0.0
    ensures a < n / d <==> a * d < n
  {
    assert (n / d) * d == n;
    RealMulOrder(a, n / d, d);
  }

  /** `level * colorSize` for `colorSize = 256 / (L - 1)`, through the Uint8Array store. */
  lemma PosterizeStore(L: int, l: int)
    requires L >= 2 && 0 <= l < L - 1
    ensures ToUint8(Finite(l as real * (256.0 / (L - 1) as real))) == PosterizeValue(L, l)
  {
    MulQuot(l as real, 256.0, (L - 1) as real);
    assert l as real * 256.0 == (256 * l) as real;
    FloorQuot(256 * l, L - 1);
    assert 256 * l < 256 * (L - 1);
    LessQuot((256 * l) as real / (L - 1) as real, 256.0, 1.0);
  }

  /** The posterize table: entry v holds the value of the last band whose
      first index is at or below v. Without a band (a negative level count)
      every entry stays 0. */
  function PosterizeEntry(L: int, v: Byte): Byte
  {
    if L < 1 then 0 else PosterizeValue(L, Min(L - 1, BandOf(L, v)))
  }

  function PosterizeTable(L: int): (t: seq<Byte>)
    ensures IsTable(t)
  {
    seq(256, v requires 0 <= v < 256 => PosterizeEntry(L, v))
  }

  /** The table once bands 0 .. l - 1 are written and band l has taken s steps. */
  function PosterizeSoFar(L: int, l: int, s: int, v: int): Byte
    requires 1 <= L && 0 <= l <= L && 0 <= v
  {
    if l < L && PosterizeStart(L, l) <= v < PosterizeStart(L, l) + s then PosterizeValue(L, l)
    else if 0 < l && v < PosterizeStart(L, l - 1) + PosterizeSteps(L) then PosterizeValue(L, Min(l - 1, BandOf(L, v)))
    else 0
  }

  predicate PosterizeFilled(t: seq<Byte>, L: int, l: int, s: int)
    requires IsTable(t) && 1 <= L && 0 <= l <= L
  {
    forall v :: 0 <= v < 256 ==> t[v] == PosterizeSoFar(L, l, s, v)
  }

  /** The table loops of posterize, for the level count L after `|| 4`. */
  method BuildPosterizeTable(L: int) returns (t: array<Byte>)
    requires L != 0
    ensures fresh(t) && t[..] == PosterizeTable(L)
  {
    t := new Byte[256](_ => 0);
    if L < 1 {
      assert t[..] == PosterizeTable(L);
    }
    var stepSize := 256.0 / L as real;
    var level := 0;
    while level < L
      invariant 0 <= level && t.Length == 256
      invariant L < 1 ==> level == 0 && t[..] == PosterizeTable(L)
      invariant L >= 1 ==> level <= L && PosterizeFilled(t[..], L, level, 0)
    {
      FillPosterizeBand(t, L, level, stepSize);
      level := level + 1;
    }
    if L >= 1 {
      PosterizeDone(t[..], L);
    }
  }

  /** The inner loop for band `level`. `colorSize` is computed where it is
      used: for a single level it would be 256 / 0, which the loop never reads. */
  method FillPosterizeBand(t: array<Byte>, L: int, level: int, stepSize: real)
    requires t.Length == 256 && 1 <= L && 0 <= level < L && stepSize == 256.0 / L as real
    requires PosterizeFilled(t[..], L, level, 0)
    modifies t
    ensures PosterizeFilled(t[..], L, level + 1, 0)
  {
    var step := 0;
    while (step as real) < stepSize
      invariant 0 <= step <= PosterizeSteps(L)
      invariant PosterizeFilled(t[..], L, level, step)
      decreases PosterizeSteps(L) - step
    {
      PosterizeStepTest(L, step, stepSize);
      PosterizeIndex(L, level, step, stepSize);
      var levelindex := JsRound(level as real * stepSize + step as real);
      var value: Num;
      if level == L - 1 {
        value := Finite(255.0);
      } else {
        PosterizeStore(L, level);
        value := Finite(level as real * (256.0 / (L - 1) as real));
      }
      ghost var before := t[..];
      SetUint8(t, levelindex, value);
      PosterizeStep(before, t[..], L, level, step, levelindex, value);
      step := step + 1;
    }
    PosterizeStepTest(L, step, stepSize);
    forall v | 0 <= v < 256
      ensures t[v] == PosterizeSoFar(L, level + 1, 0, v)
    {
      BandDoneAt(L, level, v);
    }
  }

  lemma PosterizeStep(before: seq<Byte>, after: seq<Byte>, L: int, l: int, s: int, li: int, value: Num)
    requires IsTable(before) && IsTable(after) && 1 <= L && 0 <= l < L && 0 <= s
    requires PosterizeFilled(before, L, l, s) && li == PosterizeStart(L, l) + s
    requires ToUint8(value) == PosterizeValue(L, l)
    requires forall k :: 0 <= k < 256 ==> after[k] == if k == li then ToUint8(value) else before[k]
    ensures PosterizeFilled(after, L, l, s + 1)
  {
  }

  /** A finished band: entries it wrote keep its value, the ones before it
      keep the earlier bands' values, and the reach moves to its end. */
  lemma BandDoneAt(L: int, l: int, v: int)
    requires 1 <= L && 0 <= l < L && 0 <= v
    ensures PosterizeSoFar(L, l, PosterizeSteps(L), v) == PosterizeSoFar(L, l + 1, 0, v)
  {
    StartIff(L, l, v);
    StepsBounds(L);
    if l > 0 {
      StartGap(L, l - 1);
    }
  }

  /** After the last band every entry has its closed-form value. */
  lemma PosterizeDone(t: seq<Byte>, L: int)
    requires IsTable(t) && 1 <= L && PosterizeFilled(t, L, L, 0)
    ensures t == PosterizeTable(L)
  {
    StartCover(L);
    assert forall v :: 0 <= v < 256 ==> t[v] == PosterizeTable(L)[v];
  }

  /** With at least two levels, black stays black and white stays white. */
  lemma PosterizeExtremes(L: int)
    requires L >= 2
    ensures PosterizeTable(L)[0] == 0 && PosterizeTable(L)[255] == 255
  {
    BlackBand(L);
    WhiteBand(L);
  }

  /** Entry 0 falls in a band whose value rounds down to 0. */
  lemma BlackBand(L: int)
    requires L >= 2
    ensures PosterizeEntry(L, 0) == 0
  {
    var b := BandOf(L, 0);
    assert b == (L - 1) / 512;
    assert 256 * b < L - 1;
  }

  /** Entry 255 falls in the last band, or (from 512 levels on) in one whose
      value still rounds down to 255. */
  lemma WhiteBand(L: int)
    requires L >= 2
    ensures PosterizeEntry(L, 255) == 255
  {
    var b := BandOf(L, 255);
    BandBounds(L, 255);
    if b < L - 1 {
      assert 256 * b >= 255 * (L - 1);
      DivUnique(256 * b, L - 1, 255, 256 * b - 255 * (L - 1));
    }
  }

  /** A negative level count leaves the table black, a single level makes it white. */
  lemma PosterizeDegenerate(L: int, v: Byte)
    requires L <= 1
    ensures PosterizeTable(L)[v] == if L == 1 then 255 else 0
  {
  }

  /** Two levels split the values at 128. */
  lemma PosterizeTwoLevels(v: Byte)
    ensures PosterizeTable(2)[v] == if v < 128 then 0 else 255
  {
    assert BandOf(2, v) == (4 * v + 1) / 512;
  }

  /** The table never decreases: posterize keeps the order of values. */
  lemma PosterizeMonotone(L: int, u: Byte, v: Byte)
    requires L >= 1 && u <= v
    ensures PosterizeTable(L)[u] <= PosterizeTable(L)[v]
  {
    var bu, bv := Min(L - 1, BandOf(L, u)), Min(L - 1, BandOf(L, v));
    MulMonotone(2 * u + 1, 2 * v + 1, L);
    DivMonotone(L * (2 * u + 1) - 1, L * (2 * v + 1) - 1, 512);
    if bv < L - 1 {
      MulMonotone(bu, bv, 256);
      DivMonotone(256 * bu, 256 * bv, L - 1);
    }
  }

  lemma DivMonotone(a: int, b: int, d: int)
    requires a <= b && d > 0
    ensures a / d <= b / d
  {
    MulCancelLess(a / d, b / d + 1, d);
  }

  lemma MulCancelLess(x: int, y: int, d: int)
    requires d > 0 && x * d < y * d
    ensures x < y
  {
    if x >= y {
      MulMonotone(y, x, d);
    }
  }
}
