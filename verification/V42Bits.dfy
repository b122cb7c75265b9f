/** The bit buffer of the V.42bis codec, codes packed high bit first (test-progs/src/v42.c):
    what putcode stores, getcode reads back at the same address. */
module V42Bits {
  import opened Powers
  import opened V42Trie
  import opened Division
  import C = V42Codec

  lemma PZero()
    ensures Weight(0) == 1
  {
  }

  lemma WidestCode(s: int, code: int)
    requires 8 <= s <= 11 && code < Weight(s)
    ensures code < END
  {
  }

  lemma PNext(k: int)
    requires 0 <= k < 24
    ensures Weight(k + 1) == 2 * Weight(k)
  {
  }

  lemma {:induction false} PAdd(a: int, b: int)
    requires 0 <= a && 0 <= b && a + b <= 24
    ensures Weight(a) * Weight(b) == Weight(a + b)
    decreases a
  {
    hide Weight;
    PZero();
    if a > 0 {
      PNext(a - 1);
      PNext(a + b - 1);
      PAdd(a - 1, b);
      assert Weight(a) * Weight(b) == 2 * (Weight(a - 1) * Weight(b));
    }
  }

  /** Bitwise or. */
  function Or(a: nat, b: nat): nat {
    if a == 0 then b else if b == 0 then a
    else 2 * Or(a / 2, b / 2) + if a % 2 == 1 || b % 2 == 1 then 1 else 0
  }

  /** Or of numbers without common bits is their sum. */
  lemma {:induction false} OrDisjoint(a: nat, b: nat, k: int)
    requires 0 <= k <= 8 && a % Weight(k) == 0 && b < Weight(k)
    ensures Or(a, b) == a + b
    decreases k
  {
    if a != 0 && b != 0 {
      HalfMultiple(a, k);
      OrDisjoint(a / 2, b / 2, k - 1);
    }
  }

  lemma HalfMultiple(a: nat, k: int)
    requires 1 <= k <= 8 && a % Weight(k) == 0
    ensures a % 2 == 0 && a / 2 % Weight(k - 1) == 0
  {
    hide Weight;
    PNext(k - 1);
    Halved(a, a / Weight(k), Weight(k - 1));
    DivAdd(a / Weight(k), Weight(k - 1), 0);
    Small(0, Weight(k - 1));
  }

  lemma Halved(a: nat, c: int, d: int)
    requires a == c * (2 * d)
    ensures a % 2 == 0 && a / 2 == c * d
  {
    assert a == 2 * (c * d);
  }

  /** putcode on the three bytes from the address on, the code at bit r of the first. */
  function Put3(r: int, s: int, code: int, p0: byte): (byte, byte, byte)
    requires 0 <= r < 8 <= s <= 11 && 0 <= code < END
  {
    var x := code * Weight(24 - s - r);
    (Byte(Or(p0, x / 0x1_0000)), x / 0x100 % 0x100, x % 0x100)
  }

  /** getcode on the three bytes, in words of 32 bits. */
  function Get3(r: int, s: int, p0: byte, p1: byte, p2: byte): int
    requires 0 <= r < 8 <= s <= 11
  {
    ((p0 * 0x100 + p1) * 0x100 + p2) * 0x100 * Weight(r) % 0x1_0000_0000 / (Weight(24 - s) * 0x100)
  }

  /** The rest of a code after the first byte: its m last bits, at the front of two bytes. */
  function Front(m: int, p1: byte, p2: byte): int
    requires 0 <= m <= 10
  {
    if m <= 8 then p1 / Weight(8 - m) else p1 * Weight(m - 8) + p2 / Weight(16 - m)
  }

  /** The code as its bits stand in the three bytes. */
  function Top3(r: int, s: int, p0: byte, p1: byte, p2: byte): int
    requires 0 <= r < 8 <= s <= 11
  {
    p0 % Weight(8 - r) * Weight(r + s - 8) + Front(r + s - 8, p1, p2)
  }

  /** The first shift drops the bits before the code. */
  lemma Shifted(v: nat, p0: byte, p: int, q: int)
    requires p > 0 && q > 0 && p * q == 0x100 && v < 0x100_0000
    ensures (p0 * 0x100_0000 + v) * p % 0x1_0000_0000 == (p0 % q * 0x100_0000 + v) * p
  {
    ShiftedParts(v, p0, p, q, p0 / q, p0 % q);
  }

  lemma ShiftedParts(v: nat, p0: int, p: int, q: int, h: int, l: int)
    requires p > 0 && q > 0 && p * q == 0x100 && v < 0x100_0000 && p0 == h * q + l && 0 <= l < q
    ensures (p0 * 0x100_0000 + v) * p % 0x1_0000_0000 == (l * 0x100_0000 + v) * p
  {
    var w := l * 0x100_0000 + v;
    assert (p0 * 0x100_0000 + v) * p == h * (p * q) * 0x100_0000 + w * p;
    InRange(0x100_0000, q, l, v);
    InRange(p, q * 0x100_0000, w, 0);
    assert q * 0x100_0000 * p == p * q * 0x100_0000;
    Parts((p0 * 0x100_0000 + v) * p, 0x1_0000_0000, h, w * p);
  }

  lemma FrontIs(m: int, p1: byte, p2: byte)
    requires 0 <= m <= 10
    ensures (p1 * 0x100 + p2) / Weight(16 - m) == Front(m, p1, p2)
  {
    assert Weight(8) == 0x100;
    if m <= 8 {
      PAdd(8, 8 - m);
      hide Weight;
      DivNest(p1 * 0x100 + p2, 0x100, Weight(8 - m));
      assert (p1 * 0x100 + p2) / 0x100 == p1;
    } else {
      PAdd(m - 8, 16 - m);
      hide Weight;
      assert p1 * 0x100 == p1 * Weight(m - 8) * Weight(16 - m);
      DivAdd(p1 * Weight(m - 8), Weight(16 - m), p2);
    }
  }

  lemma Divided(l: nat, m: int, p1: byte, p2: byte)
    requires 0 <= m <= 10
    ensures (l * 0x100_0000 + (p1 * 0x1_0000 + p2 * 0x100)) / Weight(24 - m) == l * Weight(m) + Front(m, p1, p2)
  {
    assert Weight(8) == 0x100 && Weight(24) == 0x100_0000;
    PAdd(m, 24 - m);
    PAdd(16 - m, 8);
    FrontIs(m, p1, p2);
    hide Weight, Front;
    var v := p1 * 0x1_0000 + p2 * 0x100;
    assert l * 0x100_0000 == l * Weight(m) * Weight(24 - m);
    DivAdd(l * Weight(m), Weight(24 - m), v);
    DivCancel(p1 * 0x100 + p2, Weight(16 - m), 0x100);
  }

  /** The 32-bit shifts of getcode pick the bits of the code. */
  lemma GetTop(r: int, s: int, p0: byte, p1: byte, p2: byte)
    requires 0 <= r < 8 <= s <= 11
    ensures Get3(r, s, p0, p1, p2) == Top3(r, s, p0, p1, p2)
  {
    var m := r + s - 8;
    var v, l := p1 * 0x1_0000 + p2 * 0x100, p0 % Weight(8 - r);
    assert Weight(8) == 0x100;
    PAdd(r, 8 - r);
    PAdd(24 - s, 8);
    PAdd(24 - m, r);
    hide Weight, Front;
    Shifted(v, p0, Weight(r), Weight(8 - r));
    assert ((p0 * 0x100 + p1) * 0x100 + p2) * 0x100 == p0 * 0x100_0000 + v;
    DivCancel(l * 0x100_0000 + v, Weight(24 - m), Weight(r));
    Divided(l, m, p1, p2);
  }

  // ---------------------------------------------------------------- the buffer

  function At(b: seq<byte>, i: int): byte
    requires 0 <= i
  {
    if i < |b| then b[i] else 0
  }

  /** The bits from the address a on are clear as far as the byte goes. */
  predicate Clean(b: seq<byte>, a: nat) {
    At(b, a / 8) % Weight(8 - a % 8) == 0
  }

  function PutAt(b: seq<byte>, a: nat, s: int, code: int): (b': seq<byte>)
    requires 8 <= s <= 11 && 0 <= code < END && a / 8 + 2 < |b|
    ensures |b'| == |b|
  {
    var i := a / 8;
    var p := Put3(a % 8, s, code, b[i]);
    b[i := p.0][i + 1 := p.1][i + 2 := p.2]
  }

  function GetAt(b: seq<byte>, a: nat, s: int): int
    requires 8 <= s <= 11
  {
    Get3(a % 8, s, At(b, a / 8), At(b, a / 8 + 1), At(b, a / 8 + 2))
  }

  /** The same first lim bits. */
  ghost predicate Agree(b: seq<byte>, b': seq<byte>, lim: nat) {
    && |b| == |b'|
    && (forall i :: 0 <= i < lim / 8 ==> At(b, i) == At(b', i))
    && At(b, lim / 8) / Weight(8 - lim % 8) == At(b', lim / 8) / Weight(8 - lim % 8)
  }

  lemma {:induction false} FewerBits(x: byte, y: byte, k: int, m: int)
    requires 0 <= k <= m <= 8 && x / Weight(k) == y / Weight(k)
    ensures x / Weight(m) == y / Weight(m)
    decreases m - k
  {
    if k < m {
      PNext(k);
      hide Weight;
      DivNest(x, Weight(k), 2);
      DivNest(y, Weight(k), 2);
      FewerBits(x, y, k + 1, m);
    }
  }

  lemma AgreeLess(a: seq<byte>, b: seq<byte>, lim: nat, lim': nat)
    requires Agree(a, b, lim) && lim' <= lim
    ensures Agree(a, b, lim')
  {
    hide Weight;
    if lim' / 8 == lim / 8 {
      FewerBits(At(a, lim / 8), At(b, lim / 8), 8 - lim % 8, 8 - lim' % 8);
    }
  }

  lemma AgreeTrans(a: seq<byte>, b: seq<byte>, c: seq<byte>, lim: nat)
    requires Agree(a, b, lim) && Agree(b, c, lim)
    ensures Agree(a, c, lim)
  {
    hide Weight;
  }

  /** A code is told by the bits before its end. */
  lemma GetAgree(a: seq<byte>, b: seq<byte>, at: nat, s: int)
    requires 8 <= s <= 11 && Agree(a, b, at + s)
    ensures GetAt(a, at, s) == GetAt(b, at, s)
  {
    var i, r, m := at / 8, at % 8, at % 8 + s - 8;
    GetTop(r, s, At(a, i), At(a, i + 1), At(a, i + 2));
    GetTop(r, s, At(b, i), At(b, i + 1), At(b, i + 2));
    assert at + s == 8 * (i + 1) + m;
    if m < 8 {
      assert (at + s) / 8 == i + 1 && (at + s) % 8 == m;
    } else {
      assert (at + s) / 8 == i + 2 && (at + s) % 8 == m - 8;
      assert Weight(0) == 1;
    }
    hide Weight, Get3;
  }

  /** The bytes that putcode stores: the first bits of the code in the first byte, the m
      others in front of the next two, and nothing after them. */
  lemma PutForm(r: int, s: int, code: int, p0: byte)
    requires 0 <= r < 8 <= s <= 11 && 0 <= code < Weight(s) && p0 % Weight(8 - r) == 0
    ensures code < END
    ensures var m := r + s - 8; var (q0, q1, q2) := Put3(r, s, code, p0); var low := code % Weight(m);
      && q0 == p0 + code / Weight(m) && 0 <= code / Weight(m) < Weight(8 - r)
      && (if m <= 8 then q1 == low * Weight(8 - m) && q2 == 0
          else q1 == low / Weight(m - 8) && q2 == low % Weight(m - 8) * Weight(16 - m))
  {
    var m := r + s - 8;
    hide Weight, Or;
    WidestCode(s, code);
    var h, low := code / Weight(m), code % Weight(m);
    HighPart(r, s, code, p0);
    LowPart(m, low);
    Spread(code, m);
    ThreeBytes(code * Weight(16 - m), h, low * Weight(16 - m));
  }

  lemma ThreeBytes(x: nat, h: nat, y: nat)
    requires x == h * 0x1_0000 + y && y < 0x1_0000
    ensures x / 0x1_0000 == h && x / 0x100 % 0x100 == y / 0x100 && x % 0x100 == y % 0x100
  {
    Parts(x, 0x1_0000, h, y);
    DivAdd(h * 0x100, 0x100, y);
    Parts(h * 0x100 + y / 0x100, 0x100, h, y / 0x100);
  }

  lemma Spread(code: nat, m: int)
    requires 0 <= m <= 10
    ensures code * Weight(16 - m) == code / Weight(m) * 0x1_0000 + code % Weight(m) * Weight(16 - m)
  {
    assert Weight(16) == 0x1_0000;
    PAdd(m, 16 - m);
    hide Weight;
    assert code == code / Weight(m) * Weight(m) + code % Weight(m);
  }

  lemma HighPart(r: int, s: int, code: int, p0: byte)
    requires 0 <= r < 8 <= s <= 11 && 0 <= code < Weight(s) && p0 % Weight(8 - r) == 0
    ensures var h := code / Weight(r + s - 8);
      0 <= h < Weight(8 - r) && p0 + h < 0x100 && Byte(Or(p0, h)) == p0 + h
  {
    var m := r + s - 8;
    assert Weight(8) == 0x100;
    PAdd(m, 8 - r);
    PAdd(r, 8 - r);
    hide Weight, Or;
    QuotientBelow(code, Weight(m), Weight(8 - r));
    RoomAbove(p0, Weight(r), Weight(8 - r), code / Weight(m));
    OrDisjoint(p0, code / Weight(m), 8 - r);
  }

  lemma LowSmall(low: nat, d: nat, e: nat)
    requires e == d * 0x100
    ensures low * e / 0x100 == low * d && low * e % 0x100 == 0
  {
    assert low * e == low * d * 0x100;
  }

  lemma LowLarge(low: nat, f: nat, g: nat)
    requires f * g == 0x100
    ensures low * g / 0x100 == low / f && low * g % 0x100 == low % f * g
  {
    var a, b := low / f, low % f;
    assert low * g == a * (f * g) + b * g by { assert low == a * f + b; }
    InRange(g, f, b, 0);
    Parts(low * g, 0x100, a, b * g);
  }

  lemma LowPart(m: int, low: int)
    requires 0 <= m <= 10 && 0 <= low < Weight(m)
    ensures var y := low * Weight(16 - m);
      && 0 <= y < 0x1_0000
      && (if m <= 8 then y / 0x100 == low * Weight(8 - m) && y % 0x100 == 0
          else y / 0x100 == low / Weight(m - 8) && y % 0x100 == low % Weight(m - 8) * Weight(16 - m))
  {
    assert Weight(8) == 0x100 && Weight(16) == 0x1_0000;
    PAdd(m, 16 - m);
    if m <= 8 { PAdd(8 - m, 8); } else { PAdd(m - 8, 16 - m); }
    hide Weight;
    InRange(Weight(16 - m), Weight(m), low, 0);
    if m <= 8 {
      LowSmall(low, Weight(8 - m), Weight(16 - m));
    } else {
      LowLarge(low, Weight(m - 8), Weight(16 - m));
    }
  }

  lemma AddedPart(x: int, d: int, h: int)
    requires d > 0 && x % d == 0 && 0 <= h < d
    ensures (x + h) / d == x / d && (x + h) % d == h
  {
    assert x == x / d * d;
    Parts(x + h, d, x / d, h);
  }

  lemma CodeParts(code: int, p: int)
    requires p > 0
    ensures code == code / p * p + code % p
  {
  }

  lemma TopOfPut(r: int, s: int, code: int, p0: byte)
    requires 0 <= r < 8 <= s <= 11 && 0 <= code < Weight(s) && p0 % Weight(8 - r) == 0
    ensures code < END
    ensures var q := Put3(r, s, code, p0); var m := r + s - 8;
      && Top3(r, s, q.0, q.1, q.2) == code && q.0 / Weight(8 - r) == p0 / Weight(8 - r)
      && (if m < 8 then q.1 % Weight(8 - m) == 0 else q.2 % Weight(16 - m) == 0)
  {
    hide Weight, Put3, Front;
    WidestCode(s, code);
    PutForm(r, s, code, p0);
    var q, m, h := Put3(r, s, code, p0), r + s - 8, code / Weight(r + s - 8);
    AddedPart(p0, Weight(8 - r), h);
    FrontOfPut(m, code % Weight(m), q.1, q.2);
    CodeParts(code, Weight(m));
  }

  lemma FrontOfPut(m: int, low: int, q1: byte, q2: byte)
    requires 0 <= m <= 10 && 0 <= low < Weight(m)
    requires if m <= 8 then q1 == low * Weight(8 - m) && q2 == 0
             else q1 == low / Weight(m - 8) && q2 == low % Weight(m - 8) * Weight(16 - m)
    ensures Front(m, q1, q2) == low && (if m < 8 then q1 % Weight(8 - m) == 0 else q2 % Weight(16 - m) == 0)
  {
    hide Weight;
    if m <= 8 {
      DivAdd(low, Weight(8 - m), 0);
      Small(0, Weight(8 - m));
      if m == 8 { Small(0, Weight(16 - m)); }
    } else {
      DivAdd(low % Weight(m - 8), Weight(16 - m), 0);
      Small(0, Weight(16 - m));
    }
  }

  /** What putcode stores is what getcode reads; the bits before stay and those after are clear. */
  lemma PutGet(b: seq<byte>, a: nat, s: int, code: int)
    requires 8 <= s <= 11 && 0 <= code < Weight(s) && a / 8 + 2 < |b| && Clean(b, a)
    ensures code < END
    ensures var b' := PutAt(b, a, s, code);
      GetAt(b', a, s) == code && Agree(b, b', a) && Clean(b', a + s)
  {
    hide Weight, Put3, Get3, Top3;
    WidestCode(s, code);
    var i, r, m := a / 8, a % 8, a % 8 + s - 8;
    var b' := PutAt(b, a, s, code);
    TopOfPut(r, s, code, b[i]);
    GetTop(r, s, b'[i], b'[i + 1], b'[i + 2]);
    assert a + s == 8 * (i + 1) + m;
    if m < 8 {
      assert (a + s) / 8 == i + 1 && (a + s) % 8 == m;
    } else {
      assert (a + s) / 8 == i + 2 && (a + s) % 8 == m - 8;
    }
  }

  /** Nothing as wide as the weight of its width comes out of getcode. */
  lemma GetBelow(b: seq<byte>, a: nat, s: int)
    requires 8 <= s <= 11
    ensures 0 <= GetAt(b, a, s) < Weight(s)
  {
    PAdd(24 - s, s);
    assert Weight(24) == 0x100_0000;
    hide Weight;
    var i := a / 8;
    Quotient24(((At(b, i) * 0x100 + At(b, i + 1)) * 0x100 + At(b, i + 2)) * 0x100 * Weight(a % 8), Weight(24 - s),
      Weight(s));
  }

  lemma Quotient24(x: int, p: int, q: int)
    requires p > 0 && q > 0 && p * q == 0x100_0000
    ensures 0 <= x % 0x1_0000_0000 / (p * 0x100) < q
  {
    assert p * 0x100 * q == 0x1_0000_0000;
    QuotientBelow(x % 0x1_0000_0000, p * 0x100, q);
  }

  /** A code is read back exactly when it fits the width in which it is put. */
  lemma ReadBack(b: seq<byte>, a: nat, s: int, code: int)
    requires 8 <= s <= 11 && 0 <= code < END && a / 8 + 2 < |b| && Clean(b, a)
    ensures GetAt(PutAt(b, a, s, code), a, s) == code <==> code < Weight(s)
  {
    hide Weight, GetAt, PutAt;
    GetBelow(PutAt(b, a, s, code), a, s);
    if code < Weight(s) { PutGet(b, a, s, code); }
  }

  // ---------------------------------------------------------------- whole streams

  function RoundUp(a: nat): (u: nat)
    ensures a <= u < a + 8 && u % 8 == 0
  {
    (a + 7) / 8 * 8
  }

  /** The address after a token. */
  function Next(a: nat, token: C.Token): (n: nat)
    requires C.TokenSized(token)
    ensures n >= a && (!token.Flush? || a % 8 != 0 ==> n >= a + token.size)
  {
    match token
    case Code(_, s) => a + s
    case Leave(s) => RoundUp(a + s)
    case Flush(s) => if a % 8 == 0 then a else RoundUp(a + s)
  }

  function Address(tokens: seq<C.Token>): nat
    requires C.AllSized(tokens)
  {
    if tokens == [] then 0 else Next(Address(tokens[..|tokens| - 1]), tokens[|tokens| - 1])
  }

  lemma AddressNext(tokens: seq<C.Token>, token: C.Token)
    requires C.AllSized(tokens) && C.TokenSized(token)
    ensures C.AllSized(tokens + [token]) && Address(tokens + [token]) == Next(Address(tokens), token)
  {
    assert (tokens + [token])[..|tokens + [token]| - 1] == tokens;
  }

  lemma {:induction false} AddressGrows(tokens: seq<C.Token>, k: nat)
    requires C.AllSized(tokens) && k <= |tokens|
    ensures Address(tokens[..k]) <= Address(tokens)
    decreases |tokens|
  {
    if k == |tokens| {
      assert tokens[..k] == tokens;
    } else {
      var most := tokens[..|tokens| - 1];
      AddressGrows(most, k);
      assert most[..k] == tokens[..k];
    }
  }

  /** What putcode is given for a token. */
  function CodeOf(token: C.Token): int {
    match token
    case Code(v, _) => v
    case Leave(_) => 0
    case Flush(_) => 1
  }

  /** The buffer and the address at which it is filled. */
  datatype Line = Line(buf: seq<byte>, addr: nat)

  /** The calls of putcode for a token. */
  function PutToken(w: Line, token: C.Token): (w': Line)
    requires C.TokenSized(token) && Next(w.addr, token) / 8 + 2 < |w.buf|
    ensures w'.addr == Next(w.addr, token) && |w'.buf| == |w.buf|
  {
    var next := Next(w.addr, token);
    if token.Flush? && w.addr % 8 == 0 then w
    else
      var b := PutAt(w.buf, w.addr, token.size, CodeOf(token));
      Line(if token.Leave? then b[next / 8 := 0] else b, next)
  }

  function PutAll(b: seq<byte>, tokens: seq<C.Token>): (w: Line)
    requires C.AllSized(tokens) && Address(tokens) / 8 + 2 < |b|
    ensures w.addr == Address(tokens) && |w.buf| == |b|
  {
    if tokens == [] then Line(b, 0)
    else PutToken(PutAll(b, tokens[..|tokens| - 1]), tokens[|tokens| - 1])
  }

  lemma PutAllNext(b: seq<byte>, tokens: seq<C.Token>, token: C.Token)
    requires C.AllSized(tokens) && C.TokenSized(token) && Next(Address(tokens), token) / 8 + 2 < |b|
    ensures C.AllSized(tokens + [token]) && Address(tokens + [token]) == Next(Address(tokens), token)
    ensures PutAll(b, tokens + [token]) == PutToken(PutAll(b, tokens), token)
  {
    hide PutToken, Next;
    AddressNext(tokens, token);
    assert (tokens + [token])[..|tokens + [token]| - 1] == tokens;
  }

  /** What a token asks of the bits at its address. */
  predicate Stands(b: seq<byte>, a: nat, token: C.Token)
    requires C.TokenSized(token)
  {
    (token.Flush? && a % 8 == 0) || GetAt(b, a, token.size) == CodeOf(token)
  }

  ghost predicate Holds(b: seq<byte>, tokens: seq<C.Token>)
    requires C.AllSized(tokens)
  {
    forall k :: 0 <= k < |tokens| ==> Stands(b, Address(tokens[..k]), tokens[k])
  }

  lemma StandsAgree(b: seq<byte>, b': seq<byte>, a: nat, token: C.Token)
    requires C.TokenSized(token) && Stands(b, a, token) && Agree(b, b', Next(a, token))
    ensures Stands(b', a, token)
  {
    hide GetAt, Agree;
    if !token.Flush? || a % 8 != 0 {
      AgreeLess(b, b', Next(a, token), a + token.size);
      GetAgree(b, b', a, token.size);
    }
  }

  /** The bits before the end of a stream hold it. */
  lemma HoldsAgree(b: seq<byte>, b': seq<byte>, tokens: seq<C.Token>)
    requires C.AllSized(tokens) && Holds(b, tokens) && Agree(b, b', Address(tokens))
    ensures Holds(b', tokens)
  {
    hide Agree, Stands, Next, Address, C.TokenSized;
    forall k | 0 <= k < |tokens| ensures Stands(b', Address(tokens[..k]), tokens[k]) {
      AddressGrows(tokens, k + 1);
      AddressNext(tokens[..k], tokens[k]);
      assert tokens[..k] + [tokens[k]] == tokens[..k + 1];
      AgreeLess(b, b', Address(tokens), Address(tokens[..k + 1]));
      StandsAgree(b, b', Address(tokens[..k]), tokens[k]);
    }
  }

  lemma HoldsNext(b: seq<byte>, tokens: seq<C.Token>, token: C.Token)
    requires C.AllSized(tokens) && C.TokenSized(token) && Holds(b, tokens) && Stands(b, Address(tokens), token)
    ensures C.AllSized(tokens + [token]) && Holds(b, tokens + [token])
  {
    hide Stands;
    var all := tokens + [token];
    forall k | 0 <= k < |all| ensures Stands(b, Address(all[..k]), all[k]) {
      assert all[..k] == tokens[..k];
      assert tokens[..|tokens|] == tokens;
    }
  }

  lemma CodeInRange(token: C.Token)
    requires C.TokenFits(token)
    ensures C.TokenSized(token) && 0 <= CodeOf(token) < END && CodeOf(token) < Weight(token.size)
  {
  }

  /** Clearing the byte in which the next code starts. */
  lemma ClearNext(b: seq<byte>, a: nat, next: nat)
    requires next % 8 == 0 && a <= next && next / 8 < |b|
    ensures var b' := b[next / 8 := 0]; Agree(b, b', a) && (a == next || next / 8 > a / 8) && Clean(b', next)
  {
    assert Weight(8) == 0x100;
    hide Weight;
  }

  /** putcode for a token after those that the buffer holds. */
  lemma PutHolds(w: Line, tokens: seq<C.Token>, token: C.Token)
    requires C.AllSized(tokens) && C.TokenFits(token) && Holds(w.buf, tokens) && Clean(w.buf, w.addr)
    requires w.addr == Address(tokens) && C.TokenSized(token) && Next(w.addr, token) / 8 + 2 < |w.buf|
    ensures var w' := PutToken(w, token);
      C.AllSized(tokens + [token]) && Holds(w'.buf, tokens + [token]) && (!token.Flush? ==> Clean(w'.buf, w'.addr))
  {
    hide Weight, PutAt, GetAt, Agree, Clean, Holds, Address, CodeOf, C.TokenFits;
    if token.Flush? && w.addr % 8 == 0 {
      HoldsNext(w.buf, tokens, token);
    } else {
      CodeInRange(token);
      var b := PutAt(w.buf, w.addr, token.size, CodeOf(token));
      PutGet(w.buf, w.addr, token.size, CodeOf(token));
      HoldsAgree(w.buf, b, tokens);
      HoldsNext(b, tokens, token);
      if token.Leave? { ClearHolds(b, tokens, token); }
    }
  }

  lemma ClearHolds(b: seq<byte>, tokens: seq<C.Token>, token: C.Token)
    requires C.AllSized(tokens) && C.TokenSized(token) && token.Leave? && Holds(b, tokens)
    requires Stands(b, Address(tokens), token)
    requires Next(Address(tokens), token) / 8 < |b|
    ensures var next := Next(Address(tokens), token); var b' := b[next / 8 := 0];
      C.AllSized(tokens + [token]) && Holds(b', tokens + [token]) && Clean(b', next)
  {
    hide Weight, GetAt, Agree, Clean, Holds, Address, CodeOf, Stands;
    HoldsNext(b, tokens, token);
    AddressNext(tokens, token);
    ClearNext(b, Address(tokens + [token]), Next(Address(tokens), token));
    HoldsAgree(b, b[Next(Address(tokens), token) / 8 := 0], tokens + [token]);
  }

  /** The stream ends with the only Flush it may have. */
  predicate Framed(tokens: seq<C.Token>) {
    forall k :: 0 <= k < |tokens| - 1 ==> !tokens[k].Flush?
  }

  predicate Blank(b: seq<byte>) {
    forall i :: 0 <= i < |b| ==> b[i] == 0
  }

  /** The buffer holds every code where it was put, in the width in which it was put. */
  lemma {:induction false} PutAllHolds(b: seq<byte>, tokens: seq<C.Token>)
    requires C.AllSized(tokens) && Address(tokens) / 8 + 2 < |b| && Blank(b) && C.AllFit(tokens) && Framed(tokens)
    ensures var w := PutAll(b, tokens);
      Holds(w.buf, tokens) && (tokens == [] || !tokens[|tokens| - 1].Flush? ==> Clean(w.buf, w.addr))
    decreases |tokens|
  {
    hide Weight, PutToken, Holds, Clean, C.TokenFits;
    if tokens == [] {
      BlankClean(b);
    } else {
      var most, last := tokens[..|tokens| - 1], tokens[|tokens| - 1];
      PutAllHolds(b, most);
      PutHolds(PutAll(b, most), most, last);
      assert tokens == most + [last];
    }
  }

  lemma BlankClean(b: seq<byte>)
    requires Blank(b)
    ensures Clean(b, 0) && Holds(b, [])
  {
    assert Weight(8) == 0x100;
  }
}
