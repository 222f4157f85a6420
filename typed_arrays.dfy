/**
  Element stores of the two typed arrays grafi writes: Uint8ClampedArray
  (output pixels, pseudocolor tables) and Uint8Array (posterize, solarize and
  threshold tables). The conversions are ToUint8Clamp and ToUint8 of ECMA-262
  (sections 7.1.12 and 7.1.11); a store whose key is not an index inside the
  array is dropped, as for every integer-indexed exotic object.
 */
module TypedArrays {

  /** One element of a Uint8Array or a Uint8ClampedArray. */
  type Byte = x: int | 0 <= x < 256

  /** A JavaScript Number as it reaches a store: a finite value, kept as an
      exact rational, or NaN (which is also what `undefined` converts to). */
  datatype Num = Finite(value: real) | NaN

  function ByteNum(b: Byte): Num
  {
    Finite(b as real)
  }

  /** ToUint8Clamp: NaN and everything at or below 0 give 0, everything at or
      above 255 gives 255, the rest rounds to the nearest integer, ties to even. */
  function ToUint8Clamp(v: Num): Byte
  {
    match v
    case NaN => 0
    case Finite(n) =>
      if n <= 0.0 then 0
      else if n >= 255.0 then 255
      else
        var f := n.Floor;
        if f as real + 0.5 < n then f + 1
        else if n < f as real + 0.5 then f
        else if f % 2 == 0 then f else f + 1
  }

  /** Truncation toward zero of a real. */
  function Truncate(n: real): (t: int)
    ensures n >= 0.0 ==> t as real <= n < t as real + 1.0
    ensures n <= 0.0 ==> t as real - 1.0 < n <= t as real
  {
    if n >= 0.0 then n.Floor else -((-n).Floor)
  }

  /** ToUint8: NaN gives 0; otherwise truncate toward zero and reduce modulo 2^8. */
  function ToUint8(v: Num): (b: Byte)
    ensures v.NaN? ==> b == 0
    ensures v.Finite? && 0.0 <= v.value < 256.0 ==> b == v.value.Floor
    ensures v.Finite? ==> (Truncate(v.value) - b) % 256 == 0
  {
    match v
    case NaN => 0
    case Finite(n) => Truncate(n) % 256
  }

  /** Math.round: the nearest integer, halves rounded toward +Infinity. */
  function JsRound(x: real): (k: int)
    ensures x - 0.5 < k as real <= x + 0.5
  {
    (x + 0.5).Floor
  }

  /** `a[i] = v` on a Uint8ClampedArray. */
  method SetClamped(a: array<Byte>, i: int, v: Num)
    modifies a
    ensures forall k :: 0 <= k < a.Length ==> a[k] == (if k == i then ToUint8Clamp(v) else old(a[k]))
  {
    if 0 <= i < a.Length {
      a[i] := ToUint8Clamp(v);
    }
  }

  /** `a[i] = v` on a Uint8Array. */
  method SetUint8(a: array<Byte>, i: int, v: Num)
    modifies a
    ensures forall k :: 0 <= k < a.Length ==> a[k] == (if k == i then ToUint8(v) else old(a[k]))
  {
    if 0 <= i < a.Length {
      a[i] := ToUint8(v);
    }
  }

  /** ToUint8Clamp saturates outside [0, 255] and inside it rounds to the
      nearest integer, a tie going to the even neighbour. */
  lemma ClampRoundsToNearest(v: Num)
    ensures v.NaN? ==> ToUint8Clamp(v) == 0
    ensures v.Finite? && v.value <= 0.0 ==> ToUint8Clamp(v) == 0
    ensures v.Finite? && v.value >= 255.0 ==> ToUint8Clamp(v) == 255
    ensures v.Finite? && 0.0 <= v.value <= 255.0 ==>
              -0.5 <= ToUint8Clamp(v) as real - v.value <= 0.5
    ensures (v.Finite? && 0.0 <= v.value <= 255.0 &&
             (ToUint8Clamp(v) as real - v.value == 0.5 || v.value - ToUint8Clamp(v) as real == 0.5))
              ==> ToUint8Clamp(v) % 2 == 0
  {
  }

  /** Storing a byte into a Uint8ClampedArray stores it unchanged. */
  lemma ClampOfByte(b: Byte)
    ensures ToUint8Clamp(ByteNum(b)) == b
  {
  }

  /** ToUint8Clamp is monotone: it never reverses the order of two finite values. */
  lemma ClampMonotone(x: real, y: real)
    requires x <= y
    ensures ToUint8Clamp(Finite(x)) <= ToUint8Clamp(Finite(y))
  {
  }

  /** On an integer, ToUint8Clamp saturates to [0, 255]. */
  lemma ClampOfInt(n: int)
    ensures ToUint8Clamp(Finite(n as real)) == if n < 0 then 0 else if n > 255 then 255 else n
  {
  }

  /** Adding a non-negative integer and clamping composes: saturating twice is
      saturating once by the sum. */
  lemma ClampAddCompose(v: Byte, a: int, b: int)
    requires a >= 0 && b >= 0
    ensures ToUint8Clamp(Finite((ToUint8Clamp(Finite((v + b) as real)) + a) as real))
         == ToUint8Clamp(Finite((v + a + b) as real))
  {
    ClampOfInt(v + b);
    ClampOfInt(ToUint8Clamp(Finite((v + b) as real)) + a);
    ClampOfInt(v + a + b);
  }

  /** Likewise for non-positive integer offsets. */
  lemma ClampSubCompose(v: Byte, a: int, b: int)
    requires a <= 0 && b <= 0
    ensures ToUint8Clamp(Finite((ToUint8Clamp(Finite((v + b) as real)) + a) as real))
         == ToUint8Clamp(Finite((v + a + b) as real))
  {
    ClampOfInt(v + b);
    ClampOfInt(ToUint8Clamp(Finite((v + b) as real)) + a);
    ClampOfInt(v + a + b);
  }
}
