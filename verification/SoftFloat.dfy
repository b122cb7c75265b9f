/** binary32 multiplication and division from 16 x 16 and 32-bit word operations
    (test-progs/src/floatlib.c), in round-to-nearest-even mode. */
module SoftFloat {
  import opened Words
  import opened Rounding
  import opened Powers

  // ---------------------------------------------------------------- significands with a sticky tail

  /** The word z stands for the exact value y as far as comparisons with multiples of 64
      can tell: it is y, or both lie strictly between the same two multiples. */
  ghost predicate Grain(z: int, y: real) {
    if z % 64 == 0 then y == z as real
    else (z / 64 * 64) as real < y < (z / 64 * 64 + 64) as real
  }

  /** A quotient with a sticky last bit. */
  lemma GrainJam(q: word, y: real, inexact: bool)
    requires if inexact then q as real < y < (q + 1) as real else y == q as real
    ensures Grain(Jam(q, inexact), y)
  {
  }

  function Quotient(z: word, p: nat): word
    requires p > 0
  {
    QuotientBound(z, p);
    z / p
  }

  lemma QuotientBound(z: nat, p: nat)
    requires p > 0
    ensures 0 <= z / p <= z
  {
    DivMod(z, p);
    if z / p < 0 { IntMulMono(z / p, -1, p); }
    if z < z / p { IntMulMono(z + 1, z / p, p); IntMulMono(1, p, z + 1); }
  }

  /** z >> count with a sticky last bit. */
  function ShiftRightJam(z: word, count: nat): word {
    if count == 0 then z
    else if count < 32 then Jam(Quotient(z, Pow2(count)), z % Pow2(count) != 0)
    else Bit(z != 0)
  }

  lemma {:induction false} Pow2Scale(n: nat)
    ensures Pow2(n) as real == Scale(n)
  {
    if n > 0 { Pow2Scale(n - 1); }
  }

  /** Shifting keeps the comparisons. */
  lemma GrainShift(z: word, y: real, y': real, count: nat)
    requires Grain(z, y) && y' * Scale(count) == y && z < 0x8000_0000
    ensures Grain(ShiftRightJam(z, count), y')
  {
    Pow2Scale(count);
    Pow2Small(count);
    hide Scale, Pow2, Quotient, Jam, Grain;
    var p := Pow2(count);
    if 0 < count < 32 {
      GrainShiftBy(z, y, y', p);
    } else if count >= 32 {
      GrainVanishes(z, y, y', p);
    }
  }

  lemma Pow2Small(count: nat)
    ensures count == 0 ==> Pow2(count) == 1
    ensures count > 0 ==> Pow2(count) >= 2
    ensures count >= 32 ==> Pow2(count) >= 0x1_0000_0000
  {
    if count >= 32 {
      Pow2Mono(32, count);
      Pow2At32();
    }
  }

  lemma Pow2At32()
    ensures Pow2(32) == 0x1_0000_0000
  {
    Pow2At16();
    hide Pow2;
    Pow2Add(16, 16);
  }

  lemma Pow2At16()
    ensures Pow2(16) == 0x1_0000
  {
    assert Pow2(8) == 256;
    hide Pow2;
    Pow2Add(8, 8);
  }

  lemma GrainVanishes(z: word, y: real, y': real, p: nat)
    requires Grain(z, y) && y' * p as real == y && z < 0x8000_0000 && p >= 0x1_0000_0000
    ensures Grain(Bit(z != 0), y')
  {
    if y' >= 64.0 {
      MulMono(64.0, y', p as real);
    }
    if y' <= 0.0 && z != 0 {
      MulMono(y', 0.0, p as real);
    }
  }

  lemma GrainShiftBy(z: word, y: real, y': real, p: nat)
    requires Grain(z, y) && y' * p as real == y && p >= 2
    ensures Grain(Jam(Quotient(z, p), z % p != 0), y')
  {
    var q := Quotient(z, p);
    var m := q / 64;
    DivMod(z, p);
    if q == 64 * m && z % p == 0 {
      assert z == 64 * (m * p) by { Rearrange(m, p); }
      assert y == z as real;
      hide Grain, Jam, Quotient;
      Cancel(y', q as real, p as real);
      GrainJam(q, y', false);
    } else {
      Enclose(z, q, p, m);
      hide Grain, Quotient;
      EncloseReal(z, y, y', p, m);
      GrainInside(Jam(q, z % p != 0), y', m);
    }
  }

  lemma GrainInside(z: int, y: real, m: int)
    requires z / 64 == m && z % 64 != 0 && (64 * m) as real < y < (64 * m + 64) as real
    ensures Grain(z, y)
  {
  }

  lemma EncloseReal(z: word, y: real, y': real, p: nat, m: int)
    requires Grain(z, y) && y' * p as real == y && p >= 2
    requires 64 * (m * p) < z < 64 * ((m + 1) * p)
    ensures (64 * m) as real < y' < (64 * m + 64) as real
  {
    GrainBetween(z, y, m * p, (m + 1) * p);
    hide Grain;
    ScaledBound(m, p);
    ScaledBound(m + 1, p);
    CancelLess((64 * m) as real, y', p as real);
    CancelLess(y', (64 * m + 64) as real, p as real);
  }

  lemma ScaledBound(m: int, p: int)
    ensures (64 * m) as real * p as real == (64 * (m * p)) as real
  {
    Rearrange(m, p);
  }

  lemma GrainBetween(z: word, y: real, a: int, b: int)
    requires Grain(z, y) && 64 * a < z < 64 * b
    ensures (64 * a) as real < y < (64 * b) as real
  {
    var m := z / 64;
    assert z == 64 * m + z % 64;
    assert a <= m && m < b;
    if z % 64 != 0 {
      assert 64 * a <= m * 64 && m * 64 + 64 <= 64 * b;
    }
  }

  lemma CancelLess(x: real, y: real, s: real)
    requires s > 0.0
    ensures x * s < y * s ==> x < y
  {
    MulMono(y, x, s);
  }

  lemma DivMod(z: int, p: int)
    requires p > 0
    ensures z == z / p * p + z % p
  {
  }

  lemma Rearrange(m: int, p: int)
    ensures 64 * m * p == 64 * (m * p)
    ensures (64 * m) as real * p as real == (64 * (m * p)) as real
  {
  }

  lemma Cancel(x: real, y: real, s: real)
    requires s > 0.0 && x * s == y * s
    ensures x == y
  {
    MulMono(x, y, s);
    MulMono(y, x, s);
  }

  lemma Enclose(z: int, q: int, p: int, m: int)
    requires p >= 2 && q == z / p && 64 * m <= q < 64 * m + 64
    requires q == 64 * m ==> z % p != 0
    ensures 64 * (m * p) < z < 64 * ((m + 1) * p)
  {
    DivMod(z, p);
    IntMulMono(64 * m, q, p);
    IntMulMono(q + 1, 64 * (m + 1), p);
    if 64 * m < q { IntMulMono(64 * m + 1, q, p); }
  }

  // ---------------------------------------------------------------- rounding and packing

  /** (z + 0x40) >> 7, with the last bit cleared on a tie. */
  function RoundSig(z: word): int {
    var n := (z + 0x40) / 0x80;
    if z % 0x80 == 0x40 then n - n % 2 else n
  }

  /** The rounded significand is within half a unit of the exact one, and even on a tie. */
  lemma RoundSigNearest(z: word, y: real)
    requires Grain(z, y)
    ensures var n := RoundSig(z);
            && (128 * n - 64) as real <= y <= (128 * n + 64) as real
            && (y == (128 * n - 64) as real || y == (128 * n + 64) as real ==> n % 2 == 0)
            && (y == (128 * n) as real <==> z % 0x80 == 0)
  {
    var k, c := z / 0x80, z % 0x80;
    assert z == 128 * k + c && z / 64 == 2 * k + c / 64 && z % 64 == c % 64;
    if c < 0x40 {
      assert RoundSig(z) == k;
    } else if c > 0x40 {
      assert RoundSig(z) == k + 1;
    }
  }

  lemma PackNearest(x: real, y: real, e: int, n: int)
    requires 0 <= e <= 253 && 0 <= n <= 2 * HIDDEN && x == y * Scale(e - 156)
    requires (128 * n - 64) as real <= y <= (128 * n + 64) as real
    requires y == (128 * n - 64) as real || y == (128 * n + 64) as real ==> n % 2 == 0
    requires e > 0 ==> n >= HIDDEN && y >= (128 * HIDDEN) as real
    ensures 0 <= e * HIDDEN + n <= INF && Nearest(x, e * HIDDEN + n)
    ensures x == Value(e * HIDDEN + n) <==> y == (128 * n) as real
  {
    hide Scale, Value;
    PackedValue(e, n);
    PackUpper(x, y, e, n);
    PackLower(x, y, e, n);
    Cancel'(y, (128 * n) as real, Scale(e - 156));
  }

  lemma ScaleBy7(e: int)
    ensures Scale(e + 7) == 128.0 * Scale(e)
  {
    ScaleUp(e); ScaleUp(e + 1); ScaleUp(e + 2); ScaleUp(e + 3); ScaleUp(e + 4); ScaleUp(e + 5); ScaleUp(e + 6);
  }

  lemma PackedValue(e: int, n: int)
    requires 0 <= e <= 253 && n <= 2 * HIDDEN && (n >= HIDDEN || (e == 0 && n >= 0))
    ensures 0 <= e * HIDDEN + n <= INF && Value(e * HIDDEN + n) == (128 * n) as real * Scale(e - 156)
  {
    hide Scale, Value;
    ValueOf(e, n);
    ScaleBy7(e - 156);
    Regroup(n as real, Scale(e - 156), Scale(e - 149), 128.0);
  }

  lemma Regroup(n: real, s: real, t: real, k: real)
    requires t == k * s
    ensures n * t == (k * n) * s
  {
  }

  /** Compares 2x, for x = y * s, with the sum a * s + b * s of two neighbours. */
  lemma Compare(x: real, y: real, s: real, a: int, b: int, va: real, vb: real)
    requires s > 0.0 && x == y * s && va == a as real * s && vb == b as real * s
    ensures 2.0 * y <= (a + b) as real ==> 2.0 * x <= va + vb
    ensures 2.0 * y >= (a + b) as real ==> 2.0 * x >= va + vb
    ensures 2.0 * x == va + vb ==> 2.0 * y == (a + b) as real
  {
    assert 2.0 * x == (2.0 * y) * s;
    assert va + vb == (a + b) as real * s;
    MulMono(2.0 * y, (a + b) as real, s);
    MulMono((a + b) as real, 2.0 * y, s);
  }

  /** The upper neighbour of a packed significand. */
  lemma PackUpper(x: real, y: real, e: int, n: int)
    requires 0 <= e <= 253 && 0 <= n <= 2 * HIDDEN && x == y * Scale(e - 156)
    requires y <= (128 * n + 64) as real && (y == (128 * n + 64) as real ==> n % 2 == 0)
    requires e > 0 ==> n >= HIDDEN
    ensures var w := e * HIDDEN + n;
            0 <= w <= INF &&
            (w < INF ==> 2.0 * x <= Value(w) + Value(w + 1) && (2.0 * x == Value(w) + Value(w + 1) ==> w % 2 == 0))
  {
    hide Scale, Value;
    var w, s := e * HIDDEN + n, Scale(e - 156);
    PackedValue(e, n);
    SameParity(e, n);
    if w < INF {
      var b := UpperNeighbour(e, n);
      Compare(x, y, s, 128 * n, b, Value(w), Value(w + 1));
    }
  }

  lemma UpperNeighbour(e: int, n: int) returns (b: int)
    requires 0 <= e <= 253 && n <= 2 * HIDDEN && (n >= HIDDEN || (e == 0 && n >= 0)) && e * HIDDEN + n < INF
    ensures Value(e * HIDDEN + n + 1) == b as real * Scale(e - 156)
    ensures if n < 2 * HIDDEN then b == 128 * n + 128 else b > 128 * n + 128
  {
    hide Scale, Value;
    if n < 2 * HIDDEN {
      PackedValue(e, n + 1);
      b := 128 * (n + 1);
    } else {
      PackedValue(e + 1, HIDDEN + 1);
      assert (e + 1) * HIDDEN + (HIDDEN + 1) == e * HIDDEN + n + 1;
      ScaleUp(e - 156);
      b := 256 * (HIDDEN + 1);
      Regroup((128 * (HIDDEN + 1)) as real, Scale(e - 156), Scale(e - 155), 2.0);
    }
  }

  /** The lower neighbour of a packed significand. */
  lemma PackLower(x: real, y: real, e: int, n: int)
    requires 0 <= e <= 253 && 0 <= n <= 2 * HIDDEN && x == y * Scale(e - 156)
    requires y >= (128 * n - 64) as real && (y == (128 * n - 64) as real ==> n % 2 == 0)
    requires e > 0 ==> n >= HIDDEN && y >= (128 * HIDDEN) as real
    ensures var w := e * HIDDEN + n;
            0 <= w <= INF &&
            (w > 0 ==> 2.0 * x >= Value(w - 1) + Value(w) && (2.0 * x == Value(w - 1) + Value(w) ==> w % 2 == 0))
  {
    hide Scale, Value;
    var w, s := e * HIDDEN + n, Scale(e - 156);
    PackedValue(e, n);
    SameParity(e, n);
    if w > 0 {
      var b := LowerNeighbour(e, n);
      Compare(x, y, s, b, 128 * n, Value(w - 1), Value(w));
    }
  }

  lemma LowerNeighbour(e: int, n: int) returns (b: int)
    requires 0 <= e <= 253 && n <= 2 * HIDDEN && (n >= HIDDEN || (e == 0 && n > 0))
    ensures Value(e * HIDDEN + n - 1) == b as real * Scale(e - 156)
    ensures if e == 0 || n > HIDDEN then b == 128 * n - 128 else b == 128 * n - 64
  {
    hide Scale, Value;
    if e == 0 || n > HIDDEN {
      PackedValue(e, n - 1);
      b := 128 * (n - 1);
    } else {
      PackedValue(e - 1, 2 * HIDDEN - 1);
      assert (e - 1) * HIDDEN + (2 * HIDDEN - 1) == e * HIDDEN + n - 1;
      ScaleUp(e - 157);
      b := 64 * (2 * HIDDEN - 1);
      Regroup(b as real, Scale(e - 157), Scale(e - 156), 2.0);
    }
  }

  lemma SameParity(e: int, n: int)
    ensures (e * HIDDEN + n) % 2 == n % 2
  {
    assert e * HIDDEN + n == 2 * (e * 0x40_0000) + n;
  }

  lemma Cancel'(x: real, y: real, s: real)
    requires s > 0.0
    ensures x * s == y * s ==> x == y
  {
    MulMono(x, y, s);
    MulMono(y, x, s);
  }

  lemma PackOverflow(x: real, y: real, e: int)
    requires e > 253 && x == y * Scale(e - 156) && y >= 1073741824.0
    ensures Nearest(x, INF)
  {
    hide Scale, Value;
    ScaleMono(98, e - 156);
    Scale30();
    ScaleAdd(30, 98);
    ValueOf(253, 2 * HIDDEN);
    Scale23();
    ScaleAdd(24, 104);
    ScaleUp(23);
    assert Value(INF) == Scale(128);
    MulMono(Scale(98), Scale(e - 156), 1073741824.0);
    MulMono(1073741824.0, y, Scale(e - 156));
    ValueMono(INF - 1, INF);
  }

  lemma Scale30()
    ensures Scale(30) == 1073741824.0
  {
    Scale23();
    ScaleAdd(23, 7);
    assert Scale(7) == 128.0;
  }

  /** (zSign << 31) + m */
  function Pack(zSign: bool, m: magnitude): (r: word)
    ensures SignOf(r) == zSign && MagnitudeOf(r) == m
  {
    Bit(zSign) * 0x8000_0000 + m
  }

  function SignOf(r: word): bool {
    r / 0x8000_0000 == 1
  }

  function MagnitudeOf(r: word): int {
    r % 0x8000_0000
  }

  /** r is the number x rounded to nearest even, with the given sign. */
  ghost predicate Rounded(zSign: bool, x: real, r: word) {
    SignOf(r) == zSign && MagnitudeOf(r) <= INF && Nearest(x, MagnitudeOf(r))
  }

  /** The last lines of roundAndPackFloat32: the exponent field is in range. */
  method PackRounded(zSign: bool, zExp: int, zSig: word, ghost x: real, ghost y: real)
    returns (r: word, inexact: bool)
    requires 0 <= zExp <= 253 && zSig < 0x8000_0000 && Grain(zSig, y) && x == y * Scale(zExp - 156)
    requires zExp > 0 ==> zSig >= 0x4000_0000
    ensures Rounded(zSign, x, r) && MagnitudeOf(r) == zExp * HIDDEN + RoundSig(zSig)
    ensures inexact <==> Value(MagnitudeOf(r)) != x
    ensures inexact <==> zSig % 0x80 != 0
  {
    hide Scale, Value, Nearest;
    RoundSigNearest(zSig, y);
    if zExp > 0 { GrainAtLeast(zSig, y); }
    PackNearest(x, y, zExp, RoundSig(zSig));
    var n := RoundSig(zSig);
    hide *;
    inexact := zSig % 0x80 != 0;
    var e := if n == 0 then 0 else zExp;
    r := Pack(zSign, e * HIDDEN + n);
    assert Rounded(zSign, x, r) by { RoundedPack(zSign, x, e * HIDDEN + n); }
  }

  lemma RoundedPack(zSign: bool, x: real, m: magnitude)
    requires Nearest(x, m)
    ensures Rounded(zSign, x, Pack(zSign, m))
  {
  }

  /** roundAndPackFloat32: the exact result is x, of which zSig is the significand y as far
      as its sticky last bit tells. */
  method RoundAndPackFloat32(zSign: bool, zExp: int, zSig: word, ghost x: real, ghost y: real)
    returns (r: word, overflow: bool, underflow: bool, inexact: bool)
    requires -0x8000 <= zExp < 0x8000 && zSig < 0x8000_0000 && (zExp >= 0 ==> zSig >= 0x4000_0000)
    requires Grain(zSig, y) && x == y * Scale(zExp - 156)
    ensures Rounded(zSign, x, r)
    ensures overflow <==> MagnitudeOf(r) == INF
    ensures underflow <==> Tiny(x) && Value(MagnitudeOf(r)) != x
    ensures inexact <==> overflow || Value(MagnitudeOf(r)) != x
  {
    hide Scale, Value, Nearest, ShiftRightJam, Grain, Rounded, Pack, Tiny;
    TinyExact(zExp, zSig, x, y);
    underflow := false;
    if 0xFD <= zExp % W16 {
      if 0xFD < zExp || (zExp == 0xFD && Negative(Wrap(zSig + 0x40))) {
        overflow, inexact := true, true;
        r := Pack(zSign, INF);
        OverflowRounds(zSign, zExp, zSig, x, y);
        return;
      }
      if zExp < 0 {
        var isTiny := zExp < -1 || zSig + 0x40 < 0x8000_0000;
        Unscale(y, zExp, x, Scale(zExp), Scale(-zExp), y * Scale(zExp));
        GrainShift(zSig, y, y * Scale(zExp), -zExp);
        ShiftRightJamBound(zSig, -zExp);
        overflow := false;
        var sig := ShiftRightJam(zSig, -zExp);
        r, inexact := PackRounded(zSign, 0, sig, x, y * Scale(zExp));
        assert RoundSig(sig) <= HIDDEN;
        underflow := isTiny && sig % 0x80 != 0;
        return;
      }
    }
    overflow := false;
    r, inexact := PackRounded(zSign, zExp, zSig, x, y);
    InRange(zExp, zSig);
  }

  /** The test for tininess in terms of the exact number. */
  lemma TinyExact(zExp: int, zSig: word, x: real, y: real)
    requires zSig < 0x8000_0000 && (zExp >= 0 ==> zSig >= 0x4000_0000) && Grain(zSig, y) && x == y * Scale(zExp - 156)
    ensures Tiny(x) <==> zExp < -1 || (zExp == -1 && zSig + 0x40 < 0x8000_0000)
  {
    hide Scale, Tiny;
    GrainRange(zSig, y);
    var s := Scale(zExp - 156);
    if zExp >= 0 {
      NotTiny(zExp, x, y, s);
    } else if zExp == -1 {
      TinyAtEdge(x, y, s);
    } else {
      SurelyTiny(zExp, x, y, s);
    }
  }

  lemma NotTiny(e: int, x: real, y: real, s: real)
    requires e >= 0 && y >= 1073741824.0 && s == Scale(e - 156) && x == y * s
    ensures !Tiny(x)
  {
    hide Scale;
    var t, u := Scale(-156), Scale(-126);
    Scaled(1073741824.0, 30, t, -156);
    ScaleMono(-156, e - 156);
    ScaledMono(1073741824.0, y, t, s);
    assert u <= x && Scale(-151) > 0.0;
  }

  lemma TinyAtEdge(x: real, y: real, s: real)
    requires s == Scale(-157) && x == y * s
    ensures Tiny(x) <==> y < 2147483648.0 - 64.0
  {
    hide Scale;
    Scaled(2147483648.0, 31, s, -157);
    Scaled(64.0, 6, s, -157);
    Difference(x, y, s);
  }

  lemma Difference(x: real, y: real, s: real)
    requires s > 0.0 && x == y * s
    ensures x < 2147483648.0 * s - 64.0 * s <==> y < 2147483648.0 - 64.0
  {
    MulMono(y, 2147483648.0 - 64.0, s);
    MulMono(2147483648.0 - 64.0, y, s);
  }

  lemma SurelyTiny(e: int, x: real, y: real, s: real)
    requires e < -1 && 0.0 <= y < 2147483648.0 && s == Scale(e - 156) && x == y * s
    ensures Tiny(x)
  {
    hide Scale;
    var t := Scale(-158);
    Scaled(2147483648.0, 31, t, -158);
    ScaleMono(e - 156, -158);
    ScaledMono(y, 2147483648.0, s, t);
    ScaleUp(-127);
    ScaleUp(-128);
    ScaleMono(-151, -129);
    ScaleUp(-129);
  }

  lemma Scaled(p: real, k: int, s: real, e: int)
    requires s == Scale(e)
    requires (k == 6 && p == 64.0) || (k == 30 && p == 1073741824.0) || (k == 31 && p == 2147483648.0)
    ensures p * s == Scale(k + e)
  {
    hide Scale;
    Scale6();
    Scale30();
    ScaleUp(30);
    ScaleAdd(k, e);
  }

  lemma Scale6()
    ensures Scale(6) == 64.0
  {
    assert Scale(3) == 8.0;
  }

  lemma GrainRange(z: word, y: real)
    requires Grain(z, y) && z < 0x8000_0000
    ensures 0.0 <= y < 2147483648.0 && (z >= 0x4000_0000 ==> y >= 1073741824.0)
    ensures z + 0x40 < 0x8000_0000 <==> y < 2147483648.0 - 64.0
  {
  }

  lemma InRange(zExp: int, zSig: word)
    requires 0 <= zExp <= 0xFD && zSig < 0x8000_0000 && !(zExp == 0xFD && Negative(Wrap(zSig + 0x40)))
    ensures zExp * HIDDEN + RoundSig(zSig) < INF
  {
  }

  lemma OverflowRounds(zSign: bool, zExp: int, zSig: word, x: real, y: real)
    requires 0xFD < zExp || (zExp == 0xFD && Negative(Wrap(zSig + 0x40)))
    requires 0x4000_0000 <= zSig < 0x8000_0000 && Grain(zSig, y) && x == y * Scale(zExp - 156)
    ensures Rounded(zSign, x, Pack(zSign, INF))
  {
    GrainAtLeast(zSig, y);
    hide Scale, Value, Nearest;
    if zExp == 0xFD {
      RoundSigNearest(zSig, y);
      assert RoundSig(zSig) == 2 * HIDDEN;
      PackNearest(x, y, 0xFD, 2 * HIDDEN);
    } else {
      PackOverflow(x, y, zExp);
    }
    RoundedPack(zSign, x, INF);
  }

  lemma GrainAtLeast(z: int, y: real)
    requires Grain(z, y) && z >= 0x4000_0000
    ensures y >= 1073741824.0
  {
  }

  lemma ShiftRightJamBound(z: word, count: nat)
    requires z < 0x8000_0000 && count > 0
    ensures ShiftRightJam(z, count) <= 0x4000_0000
  {
    if count < 32 {
      Pow2Small(count);
      HalfQuotient(z, Pow2(count));
    }
  }

  lemma HalfQuotient(z: word, p: nat)
    requires z < 0x8000_0000 && p >= 2
    ensures Quotient(z, p) <= 0x3FFF_FFFF
  {
    DivMod(z, p);
    if z / p > 0x3FFF_FFFF { IntMulMono(0x4000_0000, z / p, p); IntMulMono(2, p, 0x4000_0000); }
  }

  lemma Unscale(y: real, e: int, x: real, s: real, b: real, v: real)
    requires x == y * Scale(e - 156) && s == Scale(e) && b == Scale(-e) && v == y * s
    ensures v * b == y && x == v * Scale(-156)
  {
    hide Scale;
    ScaleAdd(e, -e);
    ScaleAdd(e, -156);
    ScaleZero();
    assert s * b == 1.0;
    assert s * Scale(-156) == Scale(e - 156) by { assert e + -156 == e - 156; }
    Inverse(y, s, b);
    Reassociate(y, s, Scale(-156), Scale(e - 156));
  }

  lemma Inverse(y: real, a: real, b: real)
    requires a * b == 1.0
    ensures y * a * b == y
  {
    Reassociate(y, a, b, 1.0);
  }

  lemma Reassociate(x: real, y: real, z: real, yz: real)
    requires y * z == yz
    ensures x * y * z == x * yz
  {
  }

  // ---------------------------------------------------------------- operands

  /** The leading zeros of a byte: the table of countLeadingZeros32. */
  function CountLeadingZerosHigh(x: int): int
    requires 0 <= x < 256
  {
    if x == 0 then 8 else if x < 2 then 7 else if x < 4 then 6 else if x < 8 then 5
    else if x < 16 then 4 else if x < 32 then 3 else if x < 64 then 2 else if x < 128 then 1 else 0
  }

  lemma HighByte(a: word)
    requires a >= 0x100_0000
    ensures var k := CountLeadingZerosHigh(a / 0x100_0000); k < 8 && 0x8000_0000 <= a * Pow2(k) < 0x1_0000_0000
  {
    Pow2Table();
    hide Pow2;
  }

  /** a is x shifted left by s, one of the shifts that bring x to 24 bits or more. */
  predicate NarrowedBy(x: int, s: nat, a: int) {
    || (s == 0 && a == x) || (s == 8 && a == x * 0x100) || (s == 16 && a == x * 0x1_0000)
    || (s == 24 && a == x * 0x100_0000)
  }

  method Narrow(x: word) returns (a: word, n: nat)
    ensures NarrowedBy(x, n, a) && (x == 0 ==> n == 24) && (x > 0 ==> a >= 0x100_0000)
  {
    a, n := x, 0;
    if a < 0x1_0000 {
      n := n + 16;
      a := Wrap(a * 0x1_0000);
    }
    if a < 0x100_0000 {
      n := n + 8;
      a := Wrap(a * 0x100);
    }
  }

  method CountLeadingZeros32(x: word) returns (n: nat)
    ensures x == 0 ==> n == 32
    ensures x > 0 ==> n < 32 && 0x8000_0000 <= x * Pow2(n) < 0x1_0000_0000
  {
    hide Pow2;
    var a, s := Narrow(x);
    n := s + CountLeadingZerosHigh(a / 0x100_0000);
    if x > 0 {
      Narrowed(x, s, a);
      HighByte(a);
      Shifted(x, s, n - s, a);
    }
  }

  lemma Narrowed(x: int, s: nat, a: int)
    requires NarrowedBy(x, s, a)
    ensures a == x * Pow2(s)
  {
    Pow2Table();
    hide Pow2;
    Pow2Add(16, 8);
  }

  lemma Shifted(x: int, s: nat, k: nat, a: int)
    requires a == x * Pow2(s)
    ensures x * Pow2(s + k) == a * Pow2(k)
  {
    hide Pow2;
    Pow2Add(s, k);
    IntAssociate(x, Pow2(s), Pow2(k));
  }

  lemma IntAssociate(x: int, y: int, z: int)
    ensures x * y * z == x * (y * z)
  {
  }

  lemma Pow2Table()
    ensures Pow2(0) == 1 && Pow2(1) == 2 && Pow2(2) == 4 && Pow2(3) == 8 && Pow2(4) == 16 && Pow2(5) == 32
    ensures Pow2(6) == 64 && Pow2(7) == 128 && Pow2(8) == 256 && Pow2(16) == 0x10000
  {
    Pow2At16();
  }

  // ---------------------------------------------------------------- multiplication

  predicate IsNaN(a: word) {
    MagnitudeOf(a) > INF
  }

  predicate IsInfinite(a: word) {
    MagnitudeOf(a) == INF
  }

  predicate IsFinite(a: word) {
    MagnitudeOf(a) < INF
  }

  /** Flags float_raise or the rounding sets. */
  datatype Flags = Flags(invalid: bool, divideByZero: bool, overflow: bool, underflow: bool, inexact: bool)

  const NO_FLAGS: Flags := Flags(false, false, false, false, false)

  /** The flags that IEEE 754 asks for when x has been rounded to m. */
  ghost function Raised(x: real, m: magnitude): Flags {
    NO_FLAGS.(overflow := m == INF, underflow := Tiny(x) && Value(m) != x, inexact := m == INF || Value(m) != x)
  }

  const DEFAULT_NAN: word := 0x7FFF_FFFF

  /** a | 0x00400000 */
  function Quieted(a: word): word {
    if a / 0x40_0000 % 2 == 1 then a else a + 0x40_0000
  }

  predicate IsSignaling(a: word) {
    a / 0x40_0000 % 0x200 == 0x1FE && a % 0x40_0000 != 0
  }

  /** r is the quiet NaN with the sign and the payload of the NaN x. */
  predicate QuietFrom(r: word, x: word) {
    IsNaN(x) && IsNaN(r) && !IsSignaling(r) && SignOf(r) == SignOf(x) && r % 0x40_0000 == x % 0x40_0000
  }

  /** A signaling NaN is a NaN without the quiet bit; the default NaN has it. */
  lemma NaNKinds(a: word)
    ensures IsSignaling(a) <==> IsNaN(a) && a / 0x40_0000 % 2 == 0
    ensures IsNaN(DEFAULT_NAN) && !IsSignaling(DEFAULT_NAN)
  {
    var q, f := a / 0x40_0000, a % 0x40_0000;
    assert a == 0x40_0000 * q + f;
    if a >= 0x8000_0000 {
      assert MagnitudeOf(a) == 0x40_0000 * (q - 0x200) + f && q % 0x200 == q - 0x200;
    } else {
      assert MagnitudeOf(a) == 0x40_0000 * q + f && q % 0x200 == q;
    }
  }

  lemma QuietedFrom(x: word)
    requires IsNaN(x) || IsSignaling(x)
    ensures QuietFrom(Quieted(x), x)
  {
  }

  /** The result is the quiet form of a NaN operand, of a signaling one if there is one. */
  lemma NaNPropagates(a: word, b: word)
    requires IsNaN(a) || IsNaN(b)
    ensures var (r, flags) := PropagateFloat32NaN(a, b);
      && (QuietFrom(r, a) || QuietFrom(r, b))
      && (IsSignaling(a) && !IsSignaling(b) ==> QuietFrom(r, a))
      && (IsSignaling(b) && !IsSignaling(a) ==> QuietFrom(r, b))
      && flags == NO_FLAGS.(invalid := IsSignaling(a) || IsSignaling(b))
  {
    hide IsNaN, IsSignaling, Quieted, QuietFrom;
    if IsSignaling(b) || (!IsSignaling(a) && IsNaN(b)) {
      QuietedFrom(b);
    } else {
      QuietedFrom(a);
    }
  }

  /** Which operand a NaN result is taken from. */
  function PropagateFloat32NaN(a: word, b: word): (r: (word, Flags))
    requires IsNaN(a) || IsNaN(b)
  {
    (if IsSignaling(b) then Quieted(b) else if IsSignaling(a) then Quieted(a)
     else if IsNaN(b) then Quieted(b) else Quieted(a),
     NO_FLAGS.(invalid := IsSignaling(a) || IsSignaling(b)))
  }

  /** Brings a subnormal significand to normalized form. */
  method NormalizeSubnormal(frac: word) returns (sig: int, e: int)
    requires 0 < frac < HIDDEN
    ensures HIDDEN <= sig < 2 * HIDDEN && -22 <= e <= 0
    ensures frac as real * Scale(-149) == sig as real * Scale(e - 150)
  {
    hide Scale, Pow2, Wrap;
    var n := CountLeadingZeros32(frac);
    SubnormalShift(frac, n);
    var shiftCount: int := n - 8;
    SubnormalValue(frac, shiftCount);
    sig := Wrap(frac * Pow2(shiftCount));
    assert sig == frac * Pow2(shiftCount) by { WrapSmall(frac * Pow2(shiftCount)); }
    e := 1 - shiftCount;
  }

  lemma WrapSmall(x: int)
    requires 0 <= x < 0x1_0000_0000
    ensures Wrap(x) == x
  {
  }

  /** The significand, with its hidden bit, and the exponent of a finite nonzero operand. */
  method Unpack(a: word) returns (sig: int, e: int)
    requires 0 < MagnitudeOf(a) < INF
    ensures HIDDEN <= sig < 2 * HIDDEN && -22 <= e <= 254
    ensures Value(MagnitudeOf(a)) == sig as real * Scale(e - 150)
  {
    hide Scale;
    var m := MagnitudeOf(a);
    sig, e := m % HIDDEN, m / HIDDEN % 0x100;
    assert e == Exponent(m) && sig == Fraction(m);
    if e == 0 {
      sig, e := NormalizeSubnormal(sig);
    } else {
      sig := sig + HIDDEN;
    }
  }

  lemma SubnormalValue(frac: int, shift: nat)
    ensures frac as real * Scale(-149) == (frac * Pow2(shift)) as real * Scale(1 - shift - 150)
  {
    Pow2Scale(shift);
    ScaleAdd(shift, 1 - shift - 150);
    var p, s := Pow2(shift), Scale(1 - shift - 150);
    assert p as real * s == Scale(-149) by { assert shift + (1 - shift - 150) == -149; }
    assert (frac * p) as real == frac as real * p as real;
    hide *;
    Reassociate(frac as real, p as real, s, Scale(-149));
  }

  lemma SubnormalShift(sig: int, n: nat)
    requires 0 < sig < HIDDEN && n < 32 && 0x8000_0000 <= sig * Pow2(n) < 0x1_0000_0000
    ensures 9 <= n <= 31 && HIDDEN <= sig * Pow2(n - 8) < 2 * HIDDEN
  {
    Pow2Table();
    hide Pow2;
    if n < 9 {
      Pow2Mono(n, 8);
      IntMulMono(sig, HIDDEN - 1, Pow2(n));
      IntMulMono(Pow2(n), 256, HIDDEN - 1);
      assert false;
    }
    Pow2Add(n - 8, 8);
    IntAssociate(sig, Pow2(n - 8), 256);
  }

  /** A normalized product or quotient before the last normalization step. */
  lemma GrainJamDouble(q: word, y: real, inexact: bool)
    requires if inexact then q as real < y < (q + 1) as real else y == q as real
    ensures Grain(2 * Jam(q, inexact), 2.0 * y)
  {
    var z: int := Jam(q, inexact);
    if inexact {
      assert z % 2 == 1 && (z - 1) as real < y < (z + 1) as real;
      assert (2 * z) % 64 != 0 && 2 * z / 64 * 64 <= 2 * z - 2 && 2 * z + 2 <= 2 * z / 64 * 64 + 64;
    }
  }

  /** The product of two significands, aligned as the code aligns them. */
  lemma ProductScale(sa: int, ea: int, sb: int, eb: int, y: real)
    requires y == (sa * 0x80 * (sb * 0x100)) as real / 4294967296.0
    ensures (sa as real * Scale(ea - 150)) * (sb as real * Scale(eb - 150)) == y * Scale(ea + eb - 127 - 156)
  {
    hide Scale;
    var p, q, s := Scale(ea - 150), Scale(eb - 150), Scale(ea + eb - 283);
    ScaleAdd(ea - 150, eb - 150);
    ScaleAdd(ea + eb - 283, -17);
    ScaleMinus17();
    assert p * q == s / 131072.0 by {
      assert (ea - 150) + (eb - 150) == (ea + eb - 283) + -17;
    }
    SignificandProduct(sa, sb, y);
    hide *;
    ProductOfScaled(sa as real, p, sb as real, q, s, y);
  }

  lemma SignificandProduct(sa: int, sb: int, y: real)
    requires y == (sa * 0x80 * (sb * 0x100)) as real / 4294967296.0
    ensures y * 131072.0 == sa as real * sb as real
  {
    assert sa * 0x80 * (sb * 0x100) == sa * sb * 0x8000;
  }

  lemma ProductOfScaled(a: real, p: real, b: real, q: real, s: real, y: real)
    requires p * q == s / 131072.0 && y * 131072.0 == a * b
    ensures (a * p) * (b * q) == y * s
  {
    assert (a * p) * (b * q) == (a * b) * (p * q);
    Regroup(y, s / 131072.0, s, 131072.0);
  }

  lemma ScaleMinus17()
    ensures Scale(-17) == 1.0 / 131072.0
  {
    ScaleAdd(-8, -8);
    ScaleAdd(-16, -1);
    assert Scale(-8) == 1.0 / 256.0;
    assert Scale(-1) == 0.5;
  }

  lemma ProductRange(aSig: int, bSig: int, z0: word, z1: word)
    requires 0x4000_0000 <= aSig < 0x8000_0000 && 0x8000_0000 <= bSig < 0x1_0000_0000
    requires z0 * W32 + z1 == aSig * bSig
    ensures 0x2000_0000 <= z0 < 0x8000_0000
  {
    IntMulMono(0x4000_0000, aSig, bSig);
    IntMulMono(aSig, 0x7FFF_FFFF, bSig);
    IntMulMono(bSig, 0xFFFF_FFFF, 0x7FFF_FFFF);
  }

  /** The main path of _r_mul: both operands finite and not zero. */
  method MulNonzero(zSign: bool, sa: int, ea: int, sb: int, eb: int, ghost x: real) returns (r: word, flags: Flags)
    requires HIDDEN <= sa < 2 * HIDDEN && HIDDEN <= sb < 2 * HIDDEN && -22 <= ea <= 254 && -22 <= eb <= 254
    requires x == (sa as real * Scale(ea - 150)) * (sb as real * Scale(eb - 150))
    ensures Rounded(zSign, x, r)
    ensures flags == Raised(x, MagnitudeOf(r))
  {
    hide Scale, Rounded, Value, Grain, Jam, Tiny;
    var zExp := ea + eb - 0x7F;
    var aSig: word := sa * 0x80;
    var bSig: word := sb * 0x100;
    var z0, z1 := Mul32To64(aSig, bSig);
    ghost var y := (aSig * bSig) as real / 4294967296.0;
    ProductScale(sa, ea, sb, eb, y);
    ProductGrain(aSig, bSig, z0, z1, y);
    var zSig0 := Jam(z0, z1 != 0);
    if !Negative(Wrap(zSig0 * 2)) {
      zSig0 := Wrap(zSig0 * 2);
      zExp := zExp - 1;
      DoubleScale(y, zExp - 156);
      y := 2.0 * y;
    }
    var overflow, underflow, inexact;
    r, overflow, underflow, inexact := RoundAndPackFloat32(zSign, zExp, zSig0, x, y);
    flags := NO_FLAGS.(overflow := overflow, underflow := underflow, inexact := inexact);
  }

  lemma ProductGrain(aSig: int, bSig: int, z0: word, z1: word, y: real)
    requires 0x4000_0000 <= aSig < 0x8000_0000 && 0x8000_0000 <= bSig < 0x1_0000_0000
    requires z0 * W32 + z1 == aSig * bSig && y == (aSig * bSig) as real / 4294967296.0
    ensures var z: int := Jam(z0, z1 != 0);
            0x2000_0000 <= z < 0x8000_0000 && Grain(z, y) && Grain(2 * z, 2.0 * y)
  {
    ProductRange(aSig, bSig, z0, z1);
    ProductTail(aSig * bSig, z0, z1);
    hide Grain;
    GrainJam(z0, y, z1 != 0);
    GrainJamDouble(z0, y, z1 != 0);
    JamBound(z0, z1 != 0);
  }

  lemma JamBound(q: word, b: bool)
    requires 0x2000_0000 <= q < 0x8000_0000
    ensures 0x2000_0000 <= Jam(q, b) < 0x8000_0000
  {
  }

  lemma DoubleScale(y: real, e: int)
    ensures (2.0 * y) * Scale(e) == y * Scale(e + 1)
  {
    ScaleUp(e);
    Regroup(y, Scale(e), Scale(e + 1), 2.0);
  }

  lemma ProductTail(p: int, z0: word, z1: word)
    requires p == z0 * W32 + z1
    ensures var y := p as real / 4294967296.0;
            if z1 != 0 then z0 as real < y < (z0 + 1) as real else y == z0 as real
  {
  }

  /** _r_mul. */
  method Mul(a: word, b: word) returns (r: word, flags: Flags)
    ensures IsFinite(a) && IsFinite(b) ==>
      var x := Value(MagnitudeOf(a)) * Value(MagnitudeOf(b));
      && SignOf(r) == (SignOf(a) != SignOf(b))
      && MagnitudeOf(r) <= INF && RoundsToNearestEven(x, MagnitudeOf(r))
      && flags == Raised(x, MagnitudeOf(r))
    ensures IsNaN(a) || IsNaN(b) ==> (r, flags) == PropagateFloat32NaN(a, b)
    ensures (IsInfinite(a) && MagnitudeOf(b) == 0) || (MagnitudeOf(a) == 0 && IsInfinite(b)) ==>
      r == DEFAULT_NAN && IsNaN(r) && !IsSignaling(r) && flags == NO_FLAGS.(invalid := true)
    ensures (IsInfinite(a) && 0 < MagnitudeOf(b) <= INF) || (0 < MagnitudeOf(a) <= INF && IsInfinite(b)) ==>
      r == Pack(SignOf(a) != SignOf(b), INF) && flags == NO_FLAGS
  {
    hide Scale, PropagateFloat32NaN, RoundsToNearestEven, Tiny;
    var zSign := SignOf(a) != SignOf(b);
    if MagnitudeOf(a) >= INF {
      if IsNaN(a) || IsNaN(b) {
        var p := PropagateFloat32NaN(a, b);
        return p.0, p.1;
      }
      if MagnitudeOf(b) == 0 {
        return DEFAULT_NAN, NO_FLAGS.(invalid := true);
      }
      return Pack(zSign, INF), NO_FLAGS;
    }
    if MagnitudeOf(b) >= INF {
      if IsNaN(b) {
        var p := PropagateFloat32NaN(a, b);
        return p.0, p.1;
      }
      if MagnitudeOf(a) == 0 {
        return DEFAULT_NAN, NO_FLAGS.(invalid := true);
      }
      return Pack(zSign, INF), NO_FLAGS;
    }
    if MagnitudeOf(a) == 0 || MagnitudeOf(b) == 0 {
      r, flags := Pack(zSign, 0), NO_FLAGS;
      ZeroRounds();
      return;
    }
    var sa, ea := Unpack(a);
    var sb, eb := Unpack(b);
    ghost var x := Value(MagnitudeOf(a)) * Value(MagnitudeOf(b));
    r, flags := MulNonzero(zSign, sa, ea, sb, eb, x);
    NearestIsIeee(x, MagnitudeOf(r));
  }

  lemma ZeroRounds()
    ensures Value(0) == 0.0 && RoundsToNearestEven(0.0, 0)
  {
    hide Scale;
    ValueMono(0, 1);
    NearestIsIeee(0.0, 0);
  }

  // ---------------------------------------------------------------- division

  /** One 16-bit digit of a quotient, estimated from the leading halfword b0 of the divisor
      D == b0 * U + t: the digit is never too small and at most two too large. */
  lemma Digit(N: int, D: int, H: int, U: int, b0: int, t: int, z: int)
    requires U > 0 && b0 >= 0x8000 && 0 <= t < U && D == b0 * U + t
    requires 0 <= N < D * W16 && H * U <= N < (H + 1) * U && H >= 0
    requires z == if b0 * W16 <= H then 0xFFFF else H / b0
    ensures 0 <= z <= 0xFFFF && z * D - 2 * D < N < z * D + D
  {
    DigitBound(H, b0, z);
    IntMulMono(z * b0, H, U);
    DigitTimes(z, b0, U, t);
    DigitExcess(z, b0, U, t);
    if b0 * W16 > H {
      IntMulMono(H + 1, z * b0 + b0, U);
      NextDigitTimes(z, b0, U, t);
    } else {
      assert z == 0xFFFF && z * D + D == D * W16;
    }
  }

  lemma DigitTimes(z: int, b0: int, U: int, t: int)
    ensures z * (b0 * U + t) == z * b0 * U + z * t
  {
  }

  lemma NextDigitTimes(z: int, b0: int, U: int, t: int)
    requires z >= 0 && t >= 0
    ensures (z * b0 + b0) * U <= z * (b0 * U + t) + (b0 * U + t)
  {
    DigitTimes(z, b0, U, t);
    IntMulMono(0, z, t);
  }

  lemma DigitExcess(z: int, b0: int, U: int, t: int)
    requires 0 <= z <= 0xFFFF && b0 >= 0x8000 && 0 <= t < U
    ensures z * t < 2 * (b0 * U + t)
  {
    IntMulMono(z, 0xFFFF, t);
    IntMulMono(0x8000, b0, U);
  }

  lemma DigitBound(H: int, b0: int, z: int)
    requires b0 > 0 && H >= 0 && z == if b0 * W16 <= H then 0xFFFF else H / b0
    ensures 0 <= z <= 0xFFFF && z * b0 <= H
    ensures b0 * W16 > H ==> H < z * b0 + b0
  {
    DivMod(H, b0);
    QuotientBound(H, b0);
    if b0 * W16 <= H {
      IntMulMono(0xFFFF, W16, b0);
    } else if z >= W16 {
      IntMulMono(W16, z, b0);
    }
  }

  /** The truncated quotient lies between z - 2 and z. */
  ghost predicate QuotientNear(a: int, b: int, z: int) {
    z * b - 2 * b < a < z * b + b
  }

  lemma QuotientNearBounds(a: int, b: int, z: int)
    requires b > 0 && QuotientNear(a, b, z)
    ensures a / b <= z <= a / b + 2
  {
    DivMod(a, b);
    if a / b > z { IntMulMono(z + 1, a / b, b); }
    if z > a / b + 2 { IntMulMono(a / b + 3, z, b); }
  }

  /** The first digit: bits 16 to 31 of the quotient, not yet corrected. */
  lemma HighDigit(a0: word, a1: word, b: word, z: word)
    requires b >= 0x8000_0000 && a0 < b
    requires z == (if b / W16 * W16 <= a0 then 0xFFFF else a0 / (b / W16)) * W16
    ensures z % W16 == 0 && QuotientNear(a0 * W32 + a1, b * W16, z / W16)
  {
    var b0 := b / W16;
    var d := z / W16;
    assert d == if b0 * W16 <= a0 then 0xFFFF else a0 / b0 by {
      DigitBound(a0, b0, if b0 * W16 <= a0 then 0xFFFF else a0 / b0);
    }
    Digit(a0 * W32 + a1, b * W16, a0, W32, b0, b % W16 * W16, d);
  }

  /** The second digit, from the exact remainder after the first. */
  lemma LowDigit(rem: int, b: word, H: word, d: int)
    requires b >= 0x8000_0000 && 0 <= rem < b * W16 && H == rem / W16
    requires d == if b / W16 * W16 <= H then 0xFFFF else H / (b / W16)
    ensures 0 <= d <= 0xFFFF && QuotientNear(rem, b, d)
  {
    Digit(rem, b, H, W16, b / W16, b % W16, d);
  }

  lemma ShiftedWord(b: word)
    ensures b / W16 * W32 + Wrap(b * W16) == b * W16
  {
  }

  lemma SignOfDouble(z0: word, z1: word)
    ensures Negative(z0) <==> Signed64(z0, z1) < 0
    ensures !Negative(z0) ==> Signed64(z0, z1) == z0 * W32 + z1
  {
  }

  /** a0:a1 - b * z */
  method RemainderOfEstimate(a0: word, a1: word, b: word, z: word) returns (rem0: word, rem1: word)
    requires -W64 / 2 <= a0 * W32 + a1 - b * z < W64 / 2
    ensures Signed64(rem0, rem1) == a0 * W32 + a1 - b * z
  {
    hide Signed64;
    var term0, term1 := Mul32To64(b, z);
    rem0, rem1 := Sub64(a0, a1, term0, term1);
  }

  /** The remainder while the estimate is being corrected: v == a - b * z. */
  ghost predicate Correcting(a: int, b: word, unit: int, z: word, v: int) {
    unit > 0 && z % unit == 0 && v == a - b * z && -W64 / 4 < v < b * unit
  }

  lemma CorrectingStep(a: int, b: word, unit: int, z: word, v: int)
    requires 0 <= a && b > 0 && (unit == 1 || unit == W16) && Correcting(a, b, unit, z, v) && v < 0
    ensures z >= unit && Correcting(a, b, unit, z - unit, v + b * unit) && 0 < b * unit
  {
    if z <= 0 { IntMulMono(z, 0, b); }
    UnitBelow(z, unit);
    assert b * (z - unit) == b * z - b * unit;
    IntMulMono(1, b, unit);
  }

  lemma UnitBelow(z: int, unit: int)
    requires z > 0 && (unit == 1 || unit == W16) && z % unit == 0
    ensures z >= unit && (z - unit) % unit == 0
  {
  }

  /** The correction loop of estimateDiv64To32. */
  method CorrectHighDigit(ghost a: int, b: word, start: word, r0: word, r1: word)
    returns (z: word, rem0: word, rem1: word)
    requires b >= 0x8000_0000 && 0 <= a && Correcting(a, b, W16, start, Signed64(r0, r1))
    ensures z % W16 == 0 && rem0 * W32 + rem1 == a - b * z && 0 <= a - b * z < b * W16
  {
    z, rem0, rem1 := start, r0, r1;
    hide Signed64, Negative;
    SignOfDouble(rem0, rem1);
    while Negative(rem0)
      invariant Correcting(a, b, W16, z, Signed64(rem0, rem1))
      invariant Negative(rem0) <==> Signed64(rem0, rem1) < 0
      decreases z
    {
      CorrectingStep(a, b, W16, z, Signed64(rem0, rem1));
      z := z - W16;
      ShiftedWord(b);
      rem0, rem1 := Add64(rem0, rem1, b / W16, Wrap(b * W16));
      SignOfDouble(rem0, rem1);
    }
    SignOfDouble(rem0, rem1);
  }

  /** Reassembles the quotient from its two digits. */
  lemma TwoDigits(a: int, b: word, high: int, rem: int, d: int)
    requires rem == a - b * high && QuotientNear(rem, b, d)
    ensures QuotientNear(a, b, high + d)
  {
    assert (high + d) * b == b * high + d * b;
  }

  lemma HighDigitRemainder(a: int, b: word, z: word)
    requires b >= 0x8000_0000 && z % W16 == 0 && QuotientNear(a, b * W16, z / W16)
    ensures Correcting(a, b, W16, z, a - b * z) && -W64 / 2 <= a - b * z < W64 / 2
  {
    var d := z / W16;
    assert z == d * W16;
    assert d * (b * W16) == b * z;
  }

  /** estimateDiv64To32: the quotient a0:a1 / b, or at most two more. */
  method EstimateDiv64To32(a0: word, a1: word, b: word) returns (z: word)
    requires b >= 0x8000_0000
    ensures b <= a0 ==> z == 0xFFFF_FFFF
    ensures a0 < b ==> QuotientNear(a0 * W32 + a1, b, z)
  {
    if b <= a0 {
      return 0xFFFF_FFFF;
    }
    ghost var a := a0 * W32 + a1;
    z := HighDigitOf(a0, a1, b);
    hide QuotientNear, Signed64;
    HighDigitRemainder(a, b, z);
    var rem0, rem1 := RemainderOfEstimate(a0, a1, b, z);
    z, rem0, rem1 := CorrectHighDigit(a, b, z, rem0, rem1);
    var d := LowDigitOf(rem0, rem1, b);
    TwoDigits(a, b, z, rem0 * W32 + rem1, d);
    z := z + d;
  }

  method HighDigitOf(a0: word, a1: word, b: word) returns (z: word)
    requires b >= 0x8000_0000 && a0 < b
    ensures z % W16 == 0 && QuotientNear(a0 * W32 + a1, b * W16, z / W16)
  {
    var b0 := b / W16;
    DigitBound(a0, b0, if b0 * W16 <= a0 then 0xFFFF else a0 / b0);
    z := if b0 * W16 <= a0 then 0xFFFF_0000 else Wrap(a0 / b0 * W16);
    HighDigit(a0, a1, b, z);
  }

  method LowDigitOf(rem0: word, rem1: word, b: word) returns (d: int)
    requires b >= 0x8000_0000 && rem0 * W32 + rem1 < b * W16
    ensures 0 <= d <= 0xFFFF && QuotientNear(rem0 * W32 + rem1, b, d)
  {
    var b0 := b / W16;
    assert rem0 < W16;
    var h: word := rem0 * W16 + rem1 / W16;
    d := if b0 * W16 <= h then 0xFFFF else h / b0;
    LowDigit(rem0 * W32 + rem1, b, h, d);
  }

  /** The correction loop of _r_div: here the remainder ends below the divisor. */
  method CorrectQuotient(ghost a: int, b: word, start: word, r0: word, r1: word) returns (z: word, rem1: word)
    requires b >= 0x8000_0000 && 0 <= a && Correcting(a, b, 1, start, Signed64(r0, r1))
    ensures rem1 == a - b * z && 0 <= a - b * z < b
  {
    var rem0;
    z, rem0, rem1 := start, r0, r1;
    hide Signed64, Negative;
    SignOfDouble(rem0, rem1);
    while Negative(rem0)
      invariant Correcting(a, b, 1, z, Signed64(rem0, rem1))
      invariant Negative(rem0) <==> Signed64(rem0, rem1) < 0
      decreases z
    {
      CorrectingStep(a, b, 1, z, Signed64(rem0, rem1));
      z := z - 1;
      rem0, rem1 := Add64(rem0, rem1, 0, b);
      SignOfDouble(rem0, rem1);
    }
    SignOfDouble(rem0, rem1);
  }

  /** The quotient word of _r_div: zSig stands for aSig * 2^32 / bSig. */
  method QuotientSignificand(aSig: word, bSig: word, ghost y: real) returns (zSig: word)
    requires bSig >= 0x8000_0000 && 2 * aSig < bSig <= 4 * aSig && y * bSig as real == (aSig * W32) as real
    ensures 0x4000_0000 <= zSig < 0x8000_0000 && Grain(zSig, y)
  {
    zSig := EstimateDiv64To32(aSig, 0, bSig);
    ghost var a := aSig * W32;
    if zSig % 0x40 <= 2 {
      NearRemainder(a, bSig, zSig);
      hide QuotientNear, Grain, Jam, Correcting, Signed64;
      var term0, term1 := Mul32To64(bSig, zSig);
      var rem0, rem1 := Sub64(aSig, 0, term0, term1);
      zSig, rem1 := CorrectQuotient(a, bSig, zSig, rem0, rem1);
      ExactQuotient(aSig, bSig, zSig, rem1, y);
      zSig := Jam(zSig, rem1 != 0);
    } else {
      EstimateEnough(aSig, bSig, zSig, y);
    }
  }

  lemma NearRemainder(a: int, b: word, z: word)
    requires b > 0 && QuotientNear(a, b, z)
    ensures Correcting(a, b, 1, z, a - b * z) && -W64 / 2 <= a - b * z < W64 / 2
  {
  }

  lemma ExactQuotient(aSig: word, b: word, q: word, rem: word, y: real)
    requires b >= 0x8000_0000 && 2 * aSig < b <= 4 * aSig && y * b as real == (aSig * W32) as real
    requires rem == aSig * W32 - b * q && 0 <= rem < b
    ensures 0x4000_0000 <= Jam(q, rem != 0) < 0x8000_0000 && Grain(Jam(q, rem != 0), y)
  {
    QuotientRange(aSig, b, q, rem);
    var a := aSig * W32;
    hide Grain, Jam;
    if rem == 0 {
      RealEqual(a, b, q, y);
    } else {
      RealAbove(a, b, q, y);
      RealBelow(a, b, q + 1, y);
    }
    GrainJam(q, y, rem != 0);
    JamHigh(q, rem != 0);
  }

  lemma JamHigh(q: word, b: bool)
    requires 0x4000_0000 <= q < 0x8000_0000
    ensures 0x4000_0000 <= Jam(q, b) < 0x8000_0000
  {
  }

  lemma RealEqual(a: int, b: int, q: int, y: real)
    requires b > 0 && y * b as real == a as real && a == q * b
    ensures y == q as real
  {
    assert (q * b) as real == q as real * b as real;
    Cancel(y, q as real, b as real);
  }

  lemma QuotientRange(aSig: word, b: word, q: int, rem: int)
    requires 2 * aSig < b <= 4 * aSig && rem == aSig * W32 - b * q && 0 <= rem < b
    ensures 0x4000_0000 <= q < 0x8000_0000
  {
    if q < 0x4000_0000 { IntMulMono(q + 1, 0x4000_0000, b); }
    if q >= 0x8000_0000 { IntMulMono(0x8000_0000, q, b); }
  }

  lemma EstimateEnough(aSig: word, b: word, z: word, y: real)
    requires b >= 0x8000_0000 && 2 * aSig < b <= 4 * aSig && y * b as real == (aSig * W32) as real
    requires QuotientNear(aSig * W32, b, z) && z % 0x40 > 2
    ensures 0x4000_0000 <= z < 0x8000_0000 && Grain(z, y)
  {
    var a := aSig * W32;
    var lo := z / 64 * 64;
    EstimateAbove(a, b, z, lo);
    EstimateBelow(a, b, z, lo + 64);
    EstimateRange(aSig, b, lo);
    hide QuotientNear;
    RealAbove(a, b, lo, y);
    RealBelow(a, b, lo + 64, y);
  }

  lemma RealAbove(a: int, b: int, lo: int, y: real)
    requires b > 0 && y * b as real == a as real && lo * b < a
    ensures lo as real < y
  {
    assert (lo * b) as real == lo as real * b as real;
    CancelLess(lo as real, y, b as real);
  }

  lemma RealBelow(a: int, b: int, hi: int, y: real)
    requires b > 0 && y * b as real == a as real && a < hi * b
    ensures y < hi as real
  {
    assert (hi * b) as real == hi as real * b as real;
    CancelLess(y, hi as real, b as real);
  }

  lemma EstimateAbove(a: int, b: int, z: int, lo: int)
    requires b > 0 && QuotientNear(a, b, z) && lo <= z - 3
    ensures lo * b < a
  {
    IntMulMono(lo, z - 3, b);
  }

  lemma EstimateBelow(a: int, b: int, z: int, hi: int)
    requires b > 0 && QuotientNear(a, b, z) && z + 1 <= hi
    ensures a < hi * b
  {
    IntMulMono(z + 1, hi, b);
  }

  lemma EstimateRange(aSig: word, b: word, lo: int)
    requires 2 * aSig < b <= 4 * aSig && lo % 64 == 0 && lo * b < aSig * W32 < (lo + 64) * b
    ensures 0x4000_0000 <= lo <= 0x7FFF_FFC0
  {
    if lo < 0x4000_0000 { IntMulMono(lo + 64, 0x4000_0000, b); }
    if lo > 0x7FFF_FFC0 { IntMulMono(0x8000_0000, lo, b); }
  }

  /** The value of a quotient of two significands, aligned as the code aligns them. */
  lemma QuotientScale(sa: int, ea: int, sb: int, eb: int, aSig: int, shift: int, x: real, y: real)
    requires sb > 0 && 0 <= shift <= 1 && aSig * (1 + shift) == sa * 0x80
    requires x * (sb as real * Scale(eb - 150)) == sa as real * Scale(ea - 150)
    requires y * (sb * 0x100) as real == (aSig * W32) as real
    ensures x == y * Scale(ea - eb + 0x7D + shift - 156)
  {
    hide Scale;
    var e := ea - eb - 31 + shift;
    Scale31(shift);
    ScaleAdd(eb - 150, e);
    ScaleAdd(ea - 150, shift - 31);
    var p, q, s, d := Scale(ea - 150), Scale(eb - 150), Scale(e), Scale(shift - 31);
    assert q * s == p * d by { assert (eb - 150) + e == (ea - 150) + (shift - 31); }
    QuotientNumerator(sa, sb, aSig, shift, y);
    var c := if shift == 0 then 2147483648.0 else 1073741824.0;
    assert d * c == 1.0;
    assert e == ea - eb + 0x7D + shift - 156;
    QuotientOfScaled(x, y, sb as real, sa as real, p, q, s, d, c);
  }

  lemma QuotientNumerator(sa: int, sb: int, aSig: int, shift: int, y: real)
    requires 0 <= shift <= 1 && aSig * (1 + shift) == sa * 0x80
    requires y * (sb * 0x100) as real == (aSig * W32) as real
    ensures y * sb as real == sa as real * if shift == 0 then 2147483648.0 else 1073741824.0
  {
    assert (sb * 0x100) as real == sb as real * 256.0;
    assert (aSig * W32) as real == aSig as real * 4294967296.0;
  }

  lemma Scale31(shift: int)
    requires 0 <= shift <= 1
    ensures Scale(shift - 31) * (if shift == 0 then 2147483648.0 else 1073741824.0) == 1.0
  {
    Scale30();
    ScaleUp(30);
    ScaleAdd(31, -31);
    ScaleAdd(30, -30);
    ScaleZero();
  }

  /** Cross-multiplied: x * b * q == a * p and y * b == a * c, with q * s == p * d and d * c == 1. */
  lemma QuotientOfScaled(x: real, y: real, b: real, a: real, p: real, q: real, s: real, d: real, c: real)
    requires b > 0.0 && q > 0.0 && x * (b * q) == a * p && y * b == a * c && q * s == p * d && d * c == 1.0
    ensures x == y * s
  {
    calc {
      (y * s) * (b * q);
      (y * b) * (q * s);
      (a * c) * (p * d);
      (a * p) * (d * c);
      a * p;
      x * (b * q);
    }
    Cancel(x, y * s, b * q);
  }

  /** The main path of _r_div: both operands finite and not zero. */
  method DivNonzero(zSign: bool, sa: int, ea: int, sb: int, eb: int, ghost x: real) returns (r: word, flags: Flags)
    requires HIDDEN <= sa < 2 * HIDDEN && HIDDEN <= sb < 2 * HIDDEN && -22 <= ea <= 254 && -22 <= eb <= 254
    requires x * (sb as real * Scale(eb - 150)) == sa as real * Scale(ea - 150)
    ensures Rounded(zSign, x, r)
    ensures flags == Raised(x, MagnitudeOf(r))
  {
    hide Scale, Rounded, Value, Grain, Tiny;
    var zExp := ea - eb + 0x7D;
    var aSig: word := sa * 0x80;
    var bSig: word := sb * 0x100;
    ghost var shift := 0;
    if bSig <= aSig + aSig {
      aSig := aSig / 2;
      zExp := zExp + 1;
      shift := 1;
    }
    ghost var y := (aSig * W32) as real / bSig as real;
    var zSig := QuotientSignificand(aSig, bSig, y);
    QuotientScale(sa, ea, sb, eb, aSig, shift, x, y);
    var overflow, underflow, inexact;
    r, overflow, underflow, inexact := RoundAndPackFloat32(zSign, zExp, zSig, x, y);
    flags := NO_FLAGS.(overflow := overflow, underflow := underflow, inexact := inexact);
  }

  /** _r_div. */
  method Div(a: word, b: word) returns (r: word, flags: Flags)
    ensures IsFinite(a) && IsFinite(b) && MagnitudeOf(b) != 0 ==>
      && Value(MagnitudeOf(b)) > 0.0
      && var x := Value(MagnitudeOf(a)) / Value(MagnitudeOf(b));
      && SignOf(r) == (SignOf(a) != SignOf(b))
      && MagnitudeOf(r) <= INF && RoundsToNearestEven(x, MagnitudeOf(r))
      && flags == Raised(x, MagnitudeOf(r))
    ensures IsNaN(a) || IsNaN(b) ==> (r, flags) == PropagateFloat32NaN(a, b)
    ensures (IsInfinite(a) && IsInfinite(b)) || (MagnitudeOf(a) == 0 && MagnitudeOf(b) == 0) ==>
      r == DEFAULT_NAN && IsNaN(r) && !IsSignaling(r) && flags == NO_FLAGS.(invalid := true)
    ensures IsInfinite(a) && IsFinite(b) ==> r == Pack(SignOf(a) != SignOf(b), INF) && flags == NO_FLAGS
    ensures IsFinite(a) && IsInfinite(b) ==> r == Pack(SignOf(a) != SignOf(b), 0) && flags == NO_FLAGS
    ensures 0 < MagnitudeOf(a) < INF && MagnitudeOf(b) == 0 ==>
      r == Pack(SignOf(a) != SignOf(b), INF) && flags == NO_FLAGS.(divideByZero := true)
  {
    hide Scale, PropagateFloat32NaN, RoundsToNearestEven, Tiny;
    var zSign := SignOf(a) != SignOf(b);
    if MagnitudeOf(a) >= INF {
      if IsNaN(a) || IsNaN(b) {
        var p := PropagateFloat32NaN(a, b);
        return p.0, p.1;
      }
      if IsInfinite(b) {
        return DEFAULT_NAN, NO_FLAGS.(invalid := true);
      }
      return Pack(zSign, INF), NO_FLAGS;
    }
    if MagnitudeOf(b) >= INF {
      if IsNaN(b) {
        var p := PropagateFloat32NaN(a, b);
        return p.0, p.1;
      }
      return Pack(zSign, 0), NO_FLAGS;
    }
    if MagnitudeOf(b) == 0 {
      if MagnitudeOf(a) == 0 {
        return DEFAULT_NAN, NO_FLAGS.(invalid := true);
      }
      return Pack(zSign, INF), NO_FLAGS.(divideByZero := true);
    }
    ZeroRounds();
    ValueMono(0, MagnitudeOf(b));
    if MagnitudeOf(a) == 0 {
      r, flags := Pack(zSign, 0), NO_FLAGS;
      return;
    }
    var sb, eb := Unpack(b);
    var sa, ea := Unpack(a);
    ghost var x := Value(MagnitudeOf(a)) / Value(MagnitudeOf(b));
    r, flags := DivNonzero(zSign, sa, ea, sb, eb, x);
    NearestIsIeee(x, MagnitudeOf(r));
  }
}
