/**
  `Array.prototype.sort` with no comparator, as convolution's median mode calls
  it on the nine window values (grafi.js:120-121): every value is converted to
  its decimal string and the strings are ordered by UTF-16 code units, so
  10 < 100 < 9. The median is then element `Math.floor(9 / 2)` = 4.
 */
module DefaultSort {
  import opened TypedArrays

  /** The decimal digits of n, as Number.prototype.toString produces them. */
  function Decimal(n: nat): (s: string)
    ensures 1 <= |s|
    ensures n < 10 <==> |s| == 1
  {
    if n < 10 then [Digit(n)] else Decimal(n / 10) + [Digit(n % 10)]
  }

  function Digit(d: nat): char
    requires d < 10
  {
    ('0' as int + d) as char
  }

  /** Lexicographic order on code units, a proper prefix coming first. */
  predicate CodeUnitLe(a: string, b: string)
  {
    |a| == 0 || (|b| > 0 && (a[0] < b[0] || (a[0] == b[0] && CodeUnitLe(a[1..], b[1..]))))
  }

  /** The order the default comparator puts two window values in. */
  predicate ByteLe(a: Byte, b: Byte)
  {
    CodeUnitLe(Decimal(a), Decimal(b))
  }

  /** The laws `Array.prototype.sort` needs of a comparator for its result
      to be determined: any two elements are ordered one way or the other,
      the order chains, and only equal elements are ordered both ways. */
  predicate TotalOrder(le: (Byte, Byte) -> bool)
  {
    (forall a, b :: le(a, b) || le(b, a)) &&
    (forall a, b, c :: le(a, b) && le(b, c) ==> le(a, c)) &&
    (forall a, b :: le(a, b) && le(b, a) ==> a == b)
  }

  predicate Sorted(le: (Byte, Byte) -> bool, s: seq<Byte>)
  {
    forall i, j :: 0 <= i < j < |s| ==> le(s[i], s[j])
  }

  /** Inserting x in front of the first element it does not follow. */
  function Insert(le: (Byte, Byte) -> bool, x: Byte, s: seq<Byte>): (r: seq<Byte>)
    ensures multiset(r) == multiset(s) + multiset{x}
  {
    if |s| == 0 || le(x, s[0]) then [x] + s
    else
      assert s == [s[0]] + s[1..];
      [s[0]] + Insert(le, x, s[1..])
  }

  /** Insertion sort: the elements of s rearranged in le order. */
  function SortBy(le: (Byte, Byte) -> bool, s: seq<Byte>): (r: seq<Byte>)
    ensures multiset(r) == multiset(s)
  {
    if |s| == 0 then []
    else
      assert s == s[..|s| - 1] + [s[|s| - 1]];
      Insert(le, s[|s| - 1], SortBy(le, s[..|s| - 1]))
  }

  /** `arr.sort()[Math.floor(arr.length / 2)]`. */
  function Median(window: seq<Byte>): (m: Byte)
    requires |window| > 0
    ensures m in window
  {
    var sorted := SortBy(ByteLe, window);
    assert sorted[|window| / 2] in multiset(sorted);
    sorted[|window| / 2]
  }

  /** Under a total order, insertion into a sorted sequence keeps it sorted. */
  lemma {:induction false} InsertSorted(le: (Byte, Byte) -> bool, x: Byte, s: seq<Byte>)
    requires TotalOrder(le) && Sorted(le, s)
    ensures Sorted(le, Insert(le, x, s))
  {
    if |s| == 0 || le(x, s[0]) {
      SortedCons(le, x, s);
    } else {
      var t := Insert(le, x, s[1..]);
      InsertSorted(le, x, s[1..]);
      assert s == [s[0]] + s[1..];
      forall j | 0 <= j < |t|
        ensures le(s[0], t[j])
      {
        assert t[j] in multiset(t);
        if t[j] != x {
          assert t[j] in multiset(s[1..]);
        }
      }
      assert Insert(le, x, s) == [s[0]] + t;
      SortedCons(le, s[0], t);
    }
  }

  /** An element in front of a sorted sequence whose elements all follow it
      keeps it sorted. */
  lemma SortedCons(le: (Byte, Byte) -> bool, x: Byte, s: seq<Byte>)
    requires TotalOrder(le) && Sorted(le, s)
    requires forall j :: 0 <= j < |s| ==> le(x, s[j])
    ensures Sorted(le, [x] + s)
  {
  }

  /** Under a total order, insertion sort sorts. */
  lemma {:induction false} SortBySorted(le: (Byte, Byte) -> bool, s: seq<Byte>)
    requires TotalOrder(le)
    ensures Sorted(le, SortBy(le, s))
  {
    if |s| > 0 {
      SortBySorted(le, s[..|s| - 1]);
      InsertSorted(le, s[|s| - 1], SortBy(le, s[..|s| - 1]));
    }
  }

  /** The default comparator is a total order on window values. */
  lemma DefaultOrder()
    ensures TotalOrder(ByteLe)
  {
    forall a: Byte, b: Byte
      ensures ByteLe(a, b) || ByteLe(b, a)
    {
      CodeUnitTotal(Decimal(a), Decimal(b));
    }
    forall a: Byte, b: Byte, c: Byte | ByteLe(a, b) && ByteLe(b, c)
      ensures ByteLe(a, c)
    {
      CodeUnitTransitive(Decimal(a), Decimal(b), Decimal(c));
    }
    forall a: Byte, b: Byte | ByteLe(a, b) && ByteLe(b, a)
      ensures a == b
    {
      CodeUnitAntisymmetric(Decimal(a), Decimal(b));
      DecimalInjective(a, b);
    }
  }

  lemma {:induction false} CodeUnitTotal(a: string, b: string)
    ensures CodeUnitLe(a, b) || CodeUnitLe(b, a)
  {
    if |a| > 0 && |b| > 0 && a[0] == b[0] {
      CodeUnitTotal(a[1..], b[1..]);
    }
  }

  lemma {:induction false} CodeUnitTransitive(a: string, b: string, c: string)
    requires CodeUnitLe(a, b) && CodeUnitLe(b, c)
    ensures CodeUnitLe(a, c)
  {
    if |a| > 0 && a[0] == b[0] && b[0] == c[0] {
      CodeUnitTransitive(a[1..], b[1..], c[1..]);
    }
  }

  lemma {:induction false} CodeUnitAntisymmetric(a: string, b: string)
    requires CodeUnitLe(a, b) && CodeUnitLe(b, a)
    ensures a == b
  {
    if |a| > 0 {
      CodeUnitAntisymmetric(a[1..], b[1..]);
      assert a == [a[0]] + a[1..];
      assert b == [b[0]] + b[1..];
    }
  }

  /** Different numbers have different decimal strings. */
  lemma {:induction false} DecimalInjective(m: nat, n: nat)
    requires Decimal(m) == Decimal(n)
    ensures m == n
  {
    if m >= 10 {
      var s := Decimal(m);
      assert s[..|s| - 1] == Decimal(m / 10) && s[..|s| - 1] == Decimal(n / 10);
      DecimalInjective(m / 10, n / 10);
    }
  }

  /** Two sorted arrangements of the same values are the same sequence: the
      result of a sort does not depend on the engine's algorithm. */
  lemma {:induction false} SortedUnique(le: (Byte, Byte) -> bool, s: seq<Byte>, t: seq<Byte>)
    requires TotalOrder(le) && Sorted(le, s) && Sorted(le, t) && multiset(s) == multiset(t)
    ensures s == t
  {
    assert |s| == |multiset(s)| == |multiset(t)| == |t|;
    if |s| > 0 {
      SameHead(le, s, t);
      SameTail(s, t);
      SortedUnique(le, s[1..], t[1..]);
      assert s == [s[0]] + s[1..] && t == [t[0]] + t[1..];
    }
  }

  lemma SameHead(le: (Byte, Byte) -> bool, s: seq<Byte>, t: seq<Byte>)
    requires TotalOrder(le) && Sorted(le, s) && Sorted(le, t) && multiset(s) == multiset(t)
    requires |s| > 0 && |t| > 0
    ensures s[0] == t[0]
  {
    assert t[0] in multiset(s) && s[0] in multiset(t);
    assert le(s[0], t[0]) by {
      var i :| 0 <= i < |s| && s[i] == t[0];
    }
    assert le(t[0], s[0]) by {
      var j :| 0 <= j < |t| && t[j] == s[0];
    }
  }

  lemma SameTail(s: seq<Byte>, t: seq<Byte>)
    requires multiset(s) == multiset(t) && |s| > 0 && |t| > 0 && s[0] == t[0]
    ensures multiset(s[1..]) == multiset(t[1..])
  {
    assert s == [s[0]] + s[1..] && t == [t[0]] + t[1..];
    assert multiset(s) == multiset{s[0]} + multiset(s[1..]);
    assert multiset(t) == multiset{t[0]} + multiset(t[1..]);
    assert multiset(s[1..]) == multiset(s) - multiset{s[0]} == multiset(t[1..]);
  }

  /** Any arrangement of a window in default-comparator order names its median. */
  lemma MedianOfSorted(window: seq<Byte>, sorted: seq<Byte>)
    requires |window| > 0 && Sorted(ByteLe, sorted) && multiset(sorted) == multiset(window)
    ensures |sorted| == |window| && Median(window) == sorted[|window| / 2]
  {
    assert |sorted| == |multiset(sorted)| == |multiset(window)| == |window|;
    DefaultOrder();
    SortBySorted(ByteLe, window);
    SortedUnique(ByteLe, SortBy(ByteLe, window), sorted);
  }

  /** A window of one repeated value has that value as its median. */
  lemma MedianOfUniform(window: seq<Byte>, v: Byte)
    requires |window| > 0 && forall i :: 0 <= i < |window| ==> window[i] == v
    ensures Median(window) == v
  {
  }

  /** In string order 10 sorts before 100, and 100 before 9. */
  lemma StringOrderExample()
    ensures ByteLe(10, 100) && ByteLe(100, 9) && !ByteLe(9, 10)
  {
    assert Decimal(10) == "10";
    assert Decimal(100) == "100";
    assert Decimal(9) == "9";
  }

  /** The string order moves the median: a window holding 9, 10 and 100, in
      any order, sorts to [10, 100, 9], so its median is 100 and not 10. */
  lemma MedianExample(w: seq<Byte>)
    requires multiset(w) == multiset([9, 10, 100])
    ensures |w| == 3 && Median(w) == 100
  {
    var expected: seq<Byte> := [10, 100, 9];
    ExampleArrangement([9, 10, 100], expected);
    ExampleSorted(expected);
    MedianOfSorted(w, expected);
  }

  lemma ExampleArrangement(w: seq<Byte>, s: seq<Byte>)
    requires w == [9, 10, 100] && s == [10, 100, 9]
    ensures multiset(s) == multiset(w)
  {
    assert w == [9] + s[..2];
    assert s == s[..2] + [9];
    MoveToBack(9, s[..2]);
  }

  lemma MoveToBack(x: Byte, s: seq<Byte>)
    ensures multiset([x] + s) == multiset(s + [x])
  {
  }

  lemma ExampleSorted(s: seq<Byte>)
    requires s == [10, 100, 9]
    ensures Sorted(ByteLe, s)
  {
    StringOrderExample();
  }
}
