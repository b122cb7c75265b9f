/** Facts about integer division and multiples that the packers share. */
module Division {

  lemma SmallMultiple(k: int, d: int)
    requires -d < k * d < d
    ensures k == 0
  {
    assert k >= 1 ==> k * d >= d;
    assert k <= -1 ==> k * d <= -d;
  }

  lemma Small(x: int, d: int)
    requires 0 <= x < d
    ensures x / d == 0 && x % d == x
  {
  }

  lemma DivAdd(k: int, d: int, b: int)
    requires d > 0
    ensures (k * d + b) / d == k + b / d && (k * d + b) % d == b % d
  {
    var x := k * d + b;
    var q, r, u, v := b / d, b % d, x / d, x % d;
    assert b == q * d + r && x == u * d + v;
    assert (u - k - q) * d == u * d - k * d - q * d;
    SmallMultiple(u - k - q, d);
  }

  lemma DivCancel(a: nat, d: int, p: int)
    requires d > 0 && p > 0
    ensures d * p > 0 && a * p / (d * p) == a / d
  {
    var q, r := a / d, a % d;
    assert a == q * d + r;
    assert a * p == q * (d * p) + r * p;
    assert 0 <= r * p < d * p;
    DivAdd(q, d * p, r * p);
    Small(r * p, d * p);
  }

  lemma InRange(c: int, e: int, v: int, r: int)
    requires 0 <= v < e && 0 <= r < c
    ensures 0 <= v * c + r < e * c
  {
    assert v * c <= (e - 1) * c == e * c - c;
  }

  lemma Parts(x: int, d: int, q: int, r: int)
    requires x == q * d + r && 0 <= r < d
    ensures x / d == q && x % d == r
  {
    DivAdd(q, d, r);
    Small(r, d);
  }

  lemma QuotientBelow(x: nat, p: int, q: int)
    requires p > 0 && x < p * q
    ensures 0 <= x / p < q
  {
    var h := x / p;
    assert x == h * p + x % p;
    assert h >= q ==> h * p >= q * p;
  }

  /** A multiple of q below p * q leaves room for a remainder. */
  lemma RoomAbove(x: nat, p: int, q: int, h: int)
    requires q > 0 && x < p * q && x % q == 0 && 0 <= h < q
    ensures x + h < p * q
  {
    QuotientBelow(x, q, p);
    InRange(q, p, x / q, h);
  }

  lemma Nested(x: int, c: int, e: int, q: int, r: int, u: int, v: int)
    requires x == q * c + r && q == u * e + v && 0 <= r < c && 0 <= v < e
    ensures c * e > 0 && x / (c * e) == u
  {
    InRange(c, e, v, r);
    assert q * c == u * (c * e) + v * c;
    Parts(x, c * e, u, v * c + r);
  }

  lemma DivNest(x: nat, c: int, e: int)
    requires c > 0 && e > 0
    ensures c * e > 0 && x / (c * e) == x / c / e
  {
    Nested(x, c, e, x / c, x % c, x / c / e, x / c % e);
  }

  lemma ModMod(v: int, a: int, b: int)
    requires a > 0 && b > 0
    ensures a * b > 0 && v % (a * b) % b == v % b
  {
    ModModParts(v, a, b, v / (a * b), v % (a * b));
  }

  lemma ModModParts(v: int, a: int, b: int, q: int, r: int)
    requires b > 0 && v == q * (a * b) + r
    ensures r % b == v % b
  {
    assert v == q * a * b + r;
    DivAdd(q * a, b, r);
  }

  lemma QuotientAtMost(x: nat, d: int)
    requires d > 0
    ensures 0 <= x / d <= x
  {
    QuotientParts(x, d, x / d, x % d);
  }

  lemma QuotientParts(x: nat, d: int, q: int, r: int)
    requires x == q * d + r && 0 <= r < d
    ensures 0 <= q <= x
  {
    assert q < 0 ==> q * d <= -d;
    assert q >= 0 ==> q * d >= q;
  }

  lemma ModSum(x: int, y: int, d: int)
    requires d > 0
    ensures (x + y) % d == (x % d + y % d) % d && (x - y) % d == (x % d - y % d) % d
  {
    ModSumParts(x, y, d, x / d, x % d, y / d, y % d);
  }

  lemma ModSumParts(x: int, y: int, d: int, u: int, r: int, v: int, s: int)
    requires d > 0 && x == u * d + r && y == v * d + s
    ensures (x + y) % d == (r + s) % d && (x - y) % d == (r - s) % d
  {
    assert x + y == (u + v) * d + (r + s) && x - y == (u - v) * d + (r - s);
    DivAdd(u + v, d, r + s);
    DivAdd(u - v, d, r - s);
  }

  lemma ModTimes(x: int, d: int, k: int)
    requires d > 0
    ensures x % d * k % d == x * k % d
  {
    ModTimesParts(x, d, k, x / d, x % d);
  }

  lemma ModTimesParts(x: int, d: int, k: int, q: int, r: int)
    requires d > 0 && x == q * d + r
    ensures r * k % d == x * k % d
  {
    assert x * k == q * k * d + r * k;
    DivAdd(q * k, d, r * k);
  }

  /** The part of c above a factor k and below a factor s: cutting c at k * e * s first does
      not change it. */
  lemma PartBelow(c: nat, k: int, e: int, s: int)
    requires k > 0 && e > 0 && s > 0
    ensures e * s * k > 0 && c % (e * s * k) / k % s == c / k % s
  {
    var m := e * s;
    assert m > 0 && m * k > 0;
    CutQuotient(c, k, m, c / (m * k), c % (m * k));
    ModMod(c / k, e, s);
  }

  lemma CutQuotient(c: nat, k: int, m: int, q: int, r: int)
    requires k > 0 && m > 0 && c == q * (m * k) + r && 0 <= r < m * k
    ensures r / k == c / k % m
  {
    assert c == q * m * k + r;
    DivAdd(q * m, k, r);
    QuotientBelow(r, k, m);
    Parts(c / k, m, q, r / k);
  }

  lemma ScaledMod(x: int, k: int, m: int)
    requires k > 0 && m > 0
    ensures m * k > 0 && x * k % (m * k) == x % m * k
  {
    ScaledParts(x, k, m, x / m, x % m);
  }

  lemma ScaledParts(x: int, k: int, m: int, q: int, r: int)
    requires k > 0 && m > 0 && x == q * m + r && 0 <= r < m
    ensures m * k > 0 && x * k % (m * k) == r * k
  {
    InRange(k, m, r, 0);
    assert x * k == q * (m * k) + r * k;
    Parts(x * k, m * k, q, r * k);
  }

  /** Three fields of pl, pm and ph values, one above the other. */
  lemma FieldsBelow(h: nat, m: nat, l: nat, ph: int, pm: int, pl: int)
    requires h < ph && m < pm && l < pl
    ensures 0 <= h * (pm * pl) + m * pl + l < ph * (pm * pl)
  {
    InRange(pl, pm, m, l);
    InRange(pm * pl, ph, h, m * pl + l);
  }

  lemma MiddleField(h: nat, l: nat, pm: int, pl: int)
    requires pm > 0 && 0 <= l < pl
    ensures (h * (pm * pl) + l) / pl % pm == 0
  {
    assert h * (pm * pl) + l == h * pm * pl + l;
    Parts(h * pm * pl + l, pl, h * pm, l);
    Parts(h * pm, pm, h, 0);
  }
}
