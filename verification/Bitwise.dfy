/** Bitwise operations on integers in two's complement. */
module Bitwise {
  import opened Division
  import opened Powers

  datatype Gate = And | Or | Xor

  function Bit(g: Gate, a: int, b: int): (c: int)
    ensures 0 <= c <= 1
  {
    match g
    case And => if a % 2 == 1 && b % 2 == 1 then 1 else 0
    case Or => if a % 2 == 1 || b % 2 == 1 then 1 else 0
    case Xor => if a % 2 != b % 2 then 1 else 0
  }

  /** The operation on the w low bits. */
  function Op(g: Gate, w: nat, a: int, b: int): (c: nat)
    ensures c < Pow2(w)
  {
    if w == 0 then 0 else 2 * Op(g, w - 1, a / 2, b / 2) + Bit(g, a, b)
  }

  /** The low bit and the rest of a number, cut to n bits. */
  lemma LowBit(a: int, n: nat)
    requires n > 0
    ensures a % Pow2(n) == 2 * (a / 2 % Pow2(n - 1)) + a % 2
  {
    var p := Pow2(n - 1);
    assert Pow2(n) == 2 * p;
    hide Pow2;
    var h, l := a / 2, a % 2;
    var q, r := h / p, h % p;
    assert h == q * p + r;
    assert a == q * (2 * p) + (2 * r + l);
    Parts(a, 2 * p, q, 2 * r + l);
  }

  /** Only the low bits of the operands count. */
  lemma {:induction false} OpLow(g: Gate, n: nat, a: int, b: int)
    ensures Op(g, n, a, b) == Op(g, n, a % Pow2(n), b % Pow2(n))
  {
    if n > 0 {
      LowBit(a, n);
      LowBit(b, n);
      OpLow(g, n - 1, a / 2, b / 2);
      var x, y := a % Pow2(n), b % Pow2(n);
      assert x / 2 == a / 2 % Pow2(n - 1) && y / 2 == b / 2 % Pow2(n - 1);
    }
  }

  lemma OpSplit(g: Gate, w: nat, a: int, b: int)
    requires w > 0
    ensures var c := Op(g, w, a, b); c / 2 == Op(g, w - 1, a / 2, b / 2) && c % 2 == Bit(g, a, b)
  {
  }

  lemma OpStep(g: Gate, w: nat, a: int, b: int)
    ensures w > 0 ==> Op(g, w, a, b) == 2 * Op(g, w - 1, a / 2, b / 2) + Bit(g, a, b)
    ensures w == 0 ==> Op(g, w, a, b) == 0
  {
  }

  lemma {:induction false} OpCut(g: Gate, w: nat, n: nat, a: int, b: int)
    requires n <= w
    ensures Op(g, w, a, b) % Pow2(n) == Op(g, n, a, b)
    decreases n
  {
    if n > 0 {
      hide Pow2, Bit;
      OpCut(g, w - 1, n - 1, a / 2, b / 2);
      OpSplit(g, w, a, b);
      OpSplit(g, n, a, b);
      LowBit(Op(g, w, a, b), n);
    }
  }

  lemma HalfMask(n: nat)
    requires n > 0
    ensures (Pow2(n) - 1) / 2 == Pow2(n - 1) - 1 && (Pow2(n) - 1) % 2 == 1
  {
  }

  /** A mask of n ones. */
  lemma {:induction false} AndMask(w: nat, a: int, n: nat)
    requires n <= w
    ensures Op(And, w, a, Pow2(n) - 1) == a % Pow2(n)
  {
    hide Pow2, Op, Bit;
    OpStep(And, w, a, Pow2(n) - 1);
    Pow2Step(n);
    if n == 0 {
      AndZero(w, a);
      One();
    } else {
      AndMask(w - 1, a / 2, n - 1);
      LowBit(a, n);
      HalfMask(n);
      AndOdd(a, Pow2(n) - 1);
    }
  }

  lemma AndOdd(a: int, b: int)
    requires b % 2 == 1
    ensures Bit(And, a, b) == a % 2
  {
  }

  lemma {:induction false} AndZero(w: nat, a: int)
    ensures Op(And, w, a, 0) == 0
  {
    if w > 0 { AndZero(w - 1, a / 2); }
  }

  lemma {:induction false} OrZero(w: nat, a: int)
    ensures Op(Or, w, a, 0) == a % Pow2(w)
  {
    if w > 0 {
      OrZero(w - 1, a / 2);
      LowBit(a, w);
    }
  }

  /** Or with k low bits fills in what a shift by k has left free. */
  lemma {:induction false} OrShifted(w: nat, a: int, k: nat, b: nat)
    requires b < Pow2(k)
    ensures Op(Or, w, a * Pow2(k), b) == (a * Pow2(k) + b) % Pow2(w)
  {
    if k == 0 {
      OrZero(w, a);
    } else if w > 0 {
      var p := Pow2(k - 1);
      assert a * Pow2(k) == 2 * (a * p);
      assert a * Pow2(k) / 2 == a * p && a * Pow2(k) % 2 == 0;
      OrShifted(w - 1, a, k - 1, b / 2);
      LowBit(a * Pow2(k) + b, w);
      assert (a * Pow2(k) + b) / 2 == a * p + b / 2;
    }
  }

  lemma {:induction false} OpZero(g: Gate, w: nat)
    ensures Op(g, w, 0, 0) == 0
  {
    if w > 0 { OpZero(g, w - 1); }
  }

  /** Operands of n bits have a result of n bits. */
  lemma {:induction false} OpSmall(g: Gate, w: nat, n: nat, a: nat, b: nat)
    requires n <= w && a < Pow2(n) && b < Pow2(n)
    ensures Op(g, w, a, b) == Op(g, n, a, b)
    decreases n
  {
    if n == 0 {
      OpZero(g, w);
    } else {
      OpSmall(g, w - 1, n - 1, a / 2, b / 2);
    }
  }

  /** The operation on the bits above k and on the k low ones. */
  lemma {:induction false} OpParts(g: Gate, w: nat, k: nat, a: int, b: int, p: int, q: int, x: nat, y: nat)
    requires k <= w && a == p * Pow2(k) + x && b == q * Pow2(k) + y && x < Pow2(k) && y < Pow2(k)
    ensures Op(g, w, a, b) == Op(g, w - k, p, q) * Pow2(k) + Op(g, k, x, y)
    decreases k
  {
    hide Pow2, Op, Bit;
    OpStep(g, k, x, y);
    Pow2Step(k);
    if k > 0 {
      var h := Pow2(k - 1);
      Doubled(a, p, h, x);
      Doubled(b, q, h, y);
      OpParts(g, w - 1, k - 1, a / 2, b / 2, p, q, x / 2, y / 2);
      OpStep(g, w, a, b);
      SameLow(g, a, b, x, y);
      Doubled(2 * (Op(g, w - k, p, q) * h), Op(g, w - k, p, q), h, 0);
    }
  }

  lemma Pow2Step(k: nat)
    ensures if k == 0 then Pow2(k) == 1 else Pow2(k) == 2 * Pow2(k - 1)
  {
  }

  lemma Doubled(a: int, p: int, h: int, x: int)
    ensures p * (2 * h) == 2 * (p * h)
    ensures a == p * (2 * h) + x ==> a / 2 == p * h + x / 2 && a % 2 == x % 2
  {
    assert p * (2 * h) == 2 * (p * h);
  }

  lemma SameLow(g: Gate, a: int, b: int, x: int, y: int)
    requires a % 2 == x % 2 && b % 2 == y % 2
    ensures Bit(g, a, b) == Bit(g, x, y)
  {
  }

  /** The operation on numbers whose bits are all alike. */
  lemma {:induction false} OpAlike(g: Gate, w: nat, a: int, b: int)
    requires -1 <= a <= 0 && -1 <= b <= 0
    ensures Op(g, w, a, b) == Bit(g, a, b) * (Pow2(w) - 1)
  {
    if w > 0 { OpAlike(g, w - 1, a, b); }
  }

  // ---------------------------------------------------------------- fields of a word

  /** x with the s bits from bit k on replaced by y. */
  function SetBits(x: int, k: nat, s: nat, y: int): int {
    x - x / Pow2(k) % Pow2(s) * Pow2(k) + y * Pow2(k)
  }

  lemma {:induction false} AndOnes(w: nat, a: int)
    ensures Op(And, w, a, -1) == a % Pow2(w)
  {
    if w > 0 {
      AndOnes(w - 1, a / 2);
      LowBit(a, w);
    }
  }

  /** A mask of ones from bit s on. */
  lemma {:induction false} AndHigh(w: nat, a: int, s: nat, mask: int)
    requires mask + Pow2(s) == 0
    ensures Op(And, w, a, mask) == (a - a % Pow2(s)) % Pow2(w)
    decreases s
  {
    hide Pow2, Op, Bit;
    One();
    OpStep(And, w, a, mask);
    if s == 0 {
      AndOnes(w, a);
    } else if w > 0 {
      HalfOnes(s, mask);
      AndHigh(w - 1, a / 2, s - 1, mask / 2);
      CutHalf(a, s);
      Assembled(w, a - a % Pow2(s));
      BitOfEven(a, mask);
    }
  }

  lemma CutHalf(a: int, s: nat)
    requires s > 0
    ensures var t := a - a % Pow2(s); t / 2 == a / 2 - a / 2 % Pow2(s - 1) && t % 2 == 0
  {
    LowBit(a, s);
    hide Pow2;
  }

  lemma Assembled(w: nat, t: int)
    requires w > 0
    ensures 2 * (t / 2 % Pow2(w - 1)) + t % 2 == t % Pow2(w)
  {
    hide Pow2;
    LowBit(t, w);
  }

  lemma BitOfEven(a: int, b: int)
    requires b % 2 == 0
    ensures Bit(And, a, b) == 0 && Bit(Or, a, b) == a % 2
  {
  }

  lemma HalfOnes(s: nat, mask: int)
    requires s > 0 && mask + Pow2(s) == 0
    ensures mask / 2 + Pow2(s - 1) == 0 && mask % 2 == 0
  {
  }

  lemma HalfShifted(y: int, k: nat)
    requires k > 0
    ensures y * Pow2(k) / 2 == y * Pow2(k - 1) && y * Pow2(k) % 2 == 0
    ensures (-1 - y * Pow2(k)) / 2 == -1 - y * Pow2(k - 1) && (-1 - y * Pow2(k)) % 2 == 1
  {
    var p := y * Pow2(k - 1);
    assert y * Pow2(k) == 2 * p;
  }

  /** The field at bit k, halved along with the number. */
  lemma HalfField(a: int, k: nat, s: nat)
    requires k > 0
    ensures a / Pow2(k) % Pow2(s) * Pow2(k) == 2 * (a / 2 / Pow2(k - 1) % Pow2(s) * Pow2(k - 1))
  {
    var p := Pow2(k - 1);
    assert Pow2(k) == 2 * p;
    hide Pow2;
    NestInt(a, p);
    var f := a / 2 / p % Pow2(s);
    assert f * (2 * p) == 2 * (f * p);
  }

  lemma NestInt(a: int, p: nat)
    requires p > 0
    ensures a / (2 * p) == a / 2 / p
  {
    NestParts(a, p, a / 2, a % 2, a / 2 / p, a / 2 % p);
  }

  lemma NestParts(a: int, p: nat, h: int, l: int, q: int, r: int)
    requires p > 0 && a == 2 * h + l && 0 <= l < 2 && h == q * p + r && 0 <= r < p
    ensures a / (2 * p) == q
  {
    assert a == q * (2 * p) + (2 * r + l);
    Parts(a, 2 * p, q, 2 * r + l);
  }

  lemma SetHalf(a: int, k: nat, s: nat, y: int)
    requires k > 0
    ensures SetBits(a, k, s, y) / 2 == SetBits(a / 2, k - 1, s, y) && SetBits(a, k, s, y) % 2 == a % 2
  {
    hide Pow2;
    HalfField(a, k, s);
    HalfShifted(y, k);
    Parts(SetBits(a, k, s, y), 2, SetBits(a / 2, k - 1, s, y), a % 2);
  }

  lemma SetBase(a: int, s: nat, y: int)
    ensures SetBits(a, 0, s, y) == a - a % Pow2(s) + y
  {
    assert Pow2(0) == 1;
    hide Pow2;
  }

  /** Clearing a field. */
  lemma {:induction false} AndNotField(w: nat, a: int, k: nat, s: nat)
    ensures Op(And, w, a, -1 - (Pow2(s) - 1) * Pow2(k)) == SetBits(a, k, s, 0) % Pow2(w)
    decreases k
  {
    hide Pow2, SetBits;
    One();
    if k == 0 {
      SetBase(a, s, 0);
      AndHigh(w, a, s, -1 - (Pow2(s) - 1) * Pow2(k));
    } else if w > 0 {
      AndNotField(w - 1, a / 2, k - 1, s);
      HalfShifted(Pow2(s) - 1, k);
      SetHalf(a, k, s, 0);
      LowBit(SetBits(a, k, s, 0), w);
    }
  }

  lemma One()
    ensures Pow2(0) == 1
  {
  }

  /** Keeping a field. */
  lemma {:induction false} AndField(w: nat, a: int, k: nat, s: nat)
    requires k + s <= w
    ensures Op(And, w, a, (Pow2(s) - 1) * Pow2(k)) == a / Pow2(k) % Pow2(s) * Pow2(k)
    decreases k
  {
    hide Pow2, Op;
    OpStep(And, w, a, (Pow2(s) - 1) * Pow2(k));
    if k == 0 {
      One();
      AndMask(w, a, s);
    } else {
      AndField(w - 1, a / 2, k - 1, s);
      HalfShifted(Pow2(s) - 1, k);
      HalfField(a, k, s);
    }
  }

  /** Filling a clear field. */
  lemma {:induction false} OrField(w: nat, c: int, k: nat, s: nat, y: nat)
    requires y < Pow2(s) && c / Pow2(k) % Pow2(s) == 0
    ensures Op(Or, w, c, y * Pow2(k)) == (c + y * Pow2(k)) % Pow2(w)
    decreases k
  {
    hide Pow2, Op, Bit;
    One();
    OpStep(Or, w, c, y * Pow2(k));
    if k == 0 {
      OrLow(w, c, s, y);
    } else if w > 0 {
      NestInt(c, Pow2(k - 1));
      Double(k);
      OrField(w - 1, c / 2, k - 1, s, y);
      HalfShifted(y, k);
      HalfSum(c, y * Pow2(k));
      BitOfEven(c, y * Pow2(k));
      Assembled(w, c + y * Pow2(k));
    }
  }

  lemma HalfSum(a: int, b: int)
    requires b % 2 == 0
    ensures (a + b) / 2 == a / 2 + b / 2 && (a + b) % 2 == a % 2
  {
  }

  lemma Double(k: nat)
    requires k > 0
    ensures Pow2(k) == 2 * Pow2(k - 1)
  {
  }

  lemma OrLow(w: nat, c: int, s: nat, y: nat)
    requires y < Pow2(s) && c % Pow2(s) == 0
    ensures Op(Or, w, c, y) == (c + y) % Pow2(w)
  {
    hide Pow2, Op;
    assert c == c / Pow2(s) * Pow2(s);
    OrShifted(w, c / Pow2(s), s, y);
  }
}
