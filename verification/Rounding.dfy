/** The values of IEEE 754 binary32 and rounding to nearest even, as section 4.3.1 of
    IEEE 754-2008 states it, over exact real numbers. */
module Rounding {

  /** 2 to the power e. */
  function Scale(e: int): (s: real)
    ensures s > 0.0
    decreases if e < 0 then -e else e
  {
    if e == 0 then 1.0 else if e > 0 then 2.0 * Scale(e - 1) else Scale(e + 1) / 2.0
  }

  lemma ScaleUp(e: int)
    ensures Scale(e + 1) == 2.0 * Scale(e)
  {
  }

  lemma MulMono(a: real, b: real, s: real)
    requires s > 0.0
    ensures a <= b ==> a * s <= b * s
    ensures a < b ==> a * s < b * s
  {
  }

  lemma DoubleBoth(x: real, y: real, z: real, u: real, v: real)
    requires z == 2.0 * y && v == 2.0 * u
    ensures x * y == u <==> x * z == v
  {
  }

  lemma ScaleAddNext(a: int, b: int)
    ensures Scale(a) * Scale(b) == Scale(a + b) <==> Scale(a) * Scale(b + 1) == Scale(a + b + 1)
  {
    hide Scale;
    ScaleUp(a + b);
    ScaleUp(b);
    DoubleBoth(Scale(a), Scale(b), Scale(b + 1), Scale(a + b), Scale(a + b + 1));
  }

  lemma ScaleZero()
    ensures Scale(0) == 1.0
  {
  }

  lemma {:induction false} ScaleAdd(a: int, b: int)
    ensures Scale(a) * Scale(b) == Scale(a + b)
    decreases if b < 0 then -b else b
  {
    hide Scale;
    if b == 0 {
      ScaleZero();
    } else {
      var c := if b > 0 then b - 1 else b;
      ScaleAdd(a, if b > 0 then b - 1 else b + 1);
      ScaleAddNext(a, c);
      assert a + c + 1 == a + (c + 1);
    }
  }

  lemma {:induction false} ScaleMono(a: int, b: int)
    requires a <= b
    ensures Scale(a) <= Scale(b)
    decreases b - a
  {
    if a < b {
      ScaleMono(a, b - 1);
      ScaleUp(b - 1);
    }
  }

  // ---------------------------------------------------------------- binary32

  const HIDDEN: int := 0x80_0000
  const INF: int := 0x7F80_0000

  /** The 31 bits below the sign of a finite number or of an infinity. */
  type magnitude = m: int | 0 <= m <= 0x7F80_0000

  function Exponent(m: magnitude): int {
    m / HIDDEN
  }

  function Fraction(m: magnitude): int {
    m % HIDDEN
  }

  /** The value of a magnitude; an infinity stands for 2^128, the first power out of range. */
  function Value(m: magnitude): real {
    if Exponent(m) == 0 then Fraction(m) as real * Scale(-149)
    else (HIDDEN + Fraction(m)) as real * Scale(Exponent(m) - 150)
  }

  /** A magnitude as an integer significand at a given exponent field. */
  lemma ValueOf(e: int, n: int)
    requires 0 <= e <= 253 && n <= 2 * HIDDEN && (n >= HIDDEN || (e == 0 && n >= 0))
    ensures 0 <= e * HIDDEN + n <= INF
    ensures Value(e * HIDDEN + n) == n as real * Scale(e - 149)
  {
    var m := e * HIDDEN + n;
    if n == 2 * HIDDEN {
      assert Exponent(m) == e + 2 && Fraction(m) == 0;
      ScaleUp(e - 149);
    } else if n >= HIDDEN {
      assert Exponent(m) == e + 1 && Fraction(m) == n - HIDDEN;
    } else {
      assert Exponent(m) == 0 && Fraction(m) == n;
    }
  }

  /** Consecutive magnitudes are consecutive values. */
  lemma ValueStep(m: magnitude)
    requires m < INF
    ensures Value(m) < Value(m + 1)
  {
    hide Scale, Value;
    var e := Exponent(m);
    if e == 0 {
      ValueLess(0, m);
    } else {
      assert m == (e - 1) * HIDDEN + (Fraction(m) + HIDDEN);
      ValueLess(e - 1, Fraction(m) + HIDDEN);
    }
  }

  lemma ValueLess(e: int, n: int)
    requires 0 <= e <= 253 && n < 2 * HIDDEN && (n >= HIDDEN || (e == 0 && n >= 0))
    ensures 0 <= e * HIDDEN + n < INF
    ensures Value(e * HIDDEN + n) < Value(e * HIDDEN + n + 1)
  {
    hide Scale, Value;
    ValueOf(e, n);
    ValueOf(e, n + 1);
    MulMono(n as real, (n + 1) as real, Scale(e - 149));
  }

  lemma {:induction false} ValueMono(a: magnitude, b: magnitude)
    requires a < b
    ensures Value(a) < Value(b)
    decreases b - a
  {
    ValueStep(b - 1);
    if a < b - 1 { ValueMono(a, b - 1); }
  }

  // ---------------------------------------------------------------- rounding to nearest even

  /** r is x rounded to nearest even, told from the two neighbours of r. */
  ghost predicate Nearest(x: real, r: magnitude) {
    && (r < INF ==> 2.0 * x <= Value(r) + Value(r + 1) && (2.0 * x == Value(r) + Value(r + 1) ==> r % 2 == 0))
    && (r > 0 ==> 2.0 * x >= Value(r - 1) + Value(r) && (2.0 * x == Value(r - 1) + Value(r) ==> r % 2 == 0))
  }

  function Distance(x: real, y: real): real {
    if x < y then y - x else x - y
  }

  /** The definition of IEEE 754: an exact result of at least 2^127 * (2 - 2^-24) gives an
      infinity; any other gives a finite number that no finite number is nearer to, and of
      two that are equally near the one with an even last digit. */
  ghost predicate RoundsToNearestEven(x: real, r: magnitude) {
    if x >= Scale(127) * (2.0 - Scale(-24)) then r == INF
    else
      && r < INF
      && forall s: magnitude :: s < INF ==>
           && Distance(x, Value(r)) <= Distance(x, Value(s))
           && (s != r && Distance(x, Value(r)) == Distance(x, Value(s)) ==> r % 2 == 0)
  }

  lemma Threshold()
    ensures Value(INF - 1) + Value(INF) == 2.0 * (Scale(127) * (2.0 - Scale(-24)))
  {
    ValueOf(253, 2 * HIDDEN - 1);
    ValueOf(253, 2 * HIDDEN);
    ScaleAdd(127, -24);
    Scale23();
    ScaleAdd(104, 23);
    ScaleUp(103);
    hide Scale, Value;
  }

  lemma Scale23()
    ensures Scale(23) == 8388608.0
  {
    ScaleAdd(8, 8);
    ScaleAdd(16, 7);
    assert Scale(8) == 256.0;
    assert Scale(7) == 128.0;
  }

  lemma NearestOverflows(x: real, r: magnitude)
    requires Nearest(x, r)
    ensures r == INF <==> x >= Scale(127) * (2.0 - Scale(-24))
  {
    hide Value, Scale;
    Threshold();
    if r < INF - 1 { ValueMono(r, INF - 1); ValueMono(r + 1, INF); }
  }

  lemma NearerThan(x: real, r: magnitude, s: magnitude)
    requires Nearest(x, r) && s != r
    ensures Distance(x, Value(r)) <= Distance(x, Value(s))
    ensures Distance(x, Value(r)) == Distance(x, Value(s)) ==> r % 2 == 0
  {
    hide Value, Scale;
    if s > r {
      ValueMono(r, s);
      if s > r + 1 { ValueMono(r + 1, s); }
    } else {
      ValueMono(s, r);
      if s < r - 1 { ValueMono(s, r - 1); }
    }
  }

  /** Looking at the neighbours is enough. */
  lemma NearestIsIeee(x: real, r: magnitude)
    requires Nearest(x, r)
    ensures RoundsToNearestEven(x, r)
  {
    hide Nearest, Distance, Value;
    NearestOverflows(x, r);
    if r < INF {
      forall s: magnitude | s < INF
        ensures Distance(x, Value(r)) <= Distance(x, Value(s))
        ensures s != r && Distance(x, Value(r)) == Distance(x, Value(s)) ==> r % 2 == 0
      {
        if s != r { NearerThan(x, r, s); }
      }
    }
  }

  // ---------------------------------------------------------------- tininess

  /** A number of 24 digits, with an exponent of any size. */
  predicate Digits24(n: int) {
    HIDDEN <= n < 2 * HIDDEN
  }

  lemma ScaledMono(a: real, b: real, s: real, t: real)
    requires 0.0 <= a <= b && 0.0 < s <= t
    ensures a * s <= b * t
  {
    MulMono(a, b, s);
    if b > 0.0 { MulMono(s, t, b); }
  }

  function Number(n: int, e: int): real {
    n as real * Scale(e)
  }

  /** n at exponent e is x rounded to nearest even as if the exponent had no bounds: no number
      of 24 digits is nearer, and one that is equally near is itself, or n is even. */
  ghost predicate RoundsUnbounded(x: real, n: int, e: int) {
    Digits24(n) && forall m, f :: Digits24(m) ==> Preferred(x, Number(n, e), n, Number(m, f))
  }

  predicate Preferred(x: real, v: real, n: int, w: real) {
    Distance(x, v) < Distance(x, w) || v == w || (Distance(x, v) == Distance(x, w) && n % 2 == 0)
  }

  /** Below the number half way between 2^-126 and the number of 24 digits before it. */
  ghost predicate Tiny(x: real) {
    x < Scale(-126) - Scale(-151)
  }

  /** This is tininess after rounding as section 7.5 of IEEE 754-2008 defines it: rounded as
      if the exponent had no bounds, x would be below 2^-126. */
  lemma TinyIsRounded(x: real, n: int, e: int)
    requires x > 0.0 && RoundsUnbounded(x, n, e)
    ensures Tiny(x) <==> Number(n, e) < Scale(-126)
  {
    hide Scale, Number;
    EdgeValues();
    assert Preferred(x, Number(n, e), n, Number(2 * HIDDEN - 1, -150));
    assert Preferred(x, Number(n, e), n, Number(HIDDEN, -149));
    if Number(n, e) < Number(HIDDEN, -149) {
      BelowEdge(n, e);
      if Number(n, e) == Number(2 * HIDDEN - 1, -150) { SameDigits(n, e); }
    }
  }

  lemma EdgeValues()
    ensures Number(HIDDEN, -149) == Scale(-126) && Scale(-151) > 0.0
    ensures Number(2 * HIDDEN - 1, -150) == Scale(-126) - 2.0 * Scale(-151)
  {
    hide Scale;
    Scale23();
    ScaleAdd(23, -149);
    ScaleUp(-150);
    ScaleUp(-151);
  }

  /** No number of 24 digits lies between the two. */
  lemma BelowEdge(n: int, e: int)
    requires Digits24(n) && Number(n, e) < Number(HIDDEN, -149)
    ensures e <= -150 && Number(n, e) <= Number(2 * HIDDEN - 1, -150)
  {
    hide Scale;
    if e >= -149 {
      ScaleMono(-149, e);
      ScaledMono(HIDDEN as real, n as real, Scale(-149), Scale(e));
    } else {
      ScaleMono(e, -150);
      ScaledMono(n as real, (2 * HIDDEN - 1) as real, Scale(e), Scale(-150));
    }
  }

  /** The number before 2^-126 has an odd last digit. */
  lemma SameDigits(n: int, e: int)
    requires Digits24(n) && e <= -150 && Number(n, e) == Number(2 * HIDDEN - 1, -150)
    ensures n % 2 == 1
  {
    hide Scale;
    if e <= -151 {
      ScaleMono(e, -151);
      ScaleUp(-151);
      ScaledMono(n as real, (2 * HIDDEN - 1) as real, Scale(e), Scale(-151));
      MulMono(Scale(-151), Scale(-150), (2 * HIDDEN - 1) as real);
      Commuted((2 * HIDDEN - 1) as real, Scale(-151), Scale(-150));
    } else {
      Cancelled(n, 2 * HIDDEN - 1, Scale(-150));
    }
  }

  lemma Commuted(a: real, s: real, t: real)
    requires a > 0.0 && s < t
    ensures a * s < a * t
  {
    MulMono(s, t, a);
  }

  lemma Cancelled(n: int, m: int, s: real)
    requires s > 0.0 && n as real * s == m as real * s
    ensures n == m
  {
    MulMono(n as real, m as real, s);
    MulMono(m as real, n as real, s);
  }
}
