/** What the CRC of crc.c is (test-progs/src/crc.c): the remainder of the message, as a
    polynomial over the bits, on division by x^16 + x^12 + x^5 + 1. */
module CrcDivision {
  import opened Crc

  // ---------------------------------------------------------------- polynomials

  function Has(x: bv16, bit: bv16): bool {
    x & bit != 0
  }

  const POWERS: seq<bv16> :=
    [1, 2, 4, 8, 16, 32, 64, 128, 256, 512, 1024, 2048, 4096, 8192, 16384, 32768]

  /** The coefficients of a register, the one of x^k at place k. */
  function Bits(x: bv16): (r: seq<bool>)
    ensures |r| == 16
  {
    seq(16, k requires 0 <= k < 16 => Has(x, POWERS[k]))
  }

  /** The bits of a byte, the highest first. */
  function ByteBits(b: bv8): (r: seq<bool>)
    ensures |r| == 8
  {
    [b & 128 != 0, b & 64 != 0, b & 32 != 0, b & 16 != 0, b & 8 != 0, b & 4 != 0, b & 2 != 0, b & 1 != 0]
  }

  function MessageBits(bytes: seq<bv8>): (r: seq<bool>)
    ensures |r| == 8 * |bytes|
  {
    if bytes == [] then [] else MessageBits(bytes[..|bytes| - 1]) + ByteBits(bytes[|bytes| - 1])
  }

  function Coefficient(p: seq<bool>, k: int): bool {
    0 <= k < |p| && p[k]
  }

  function Plus(a: bool, b: bool): bool {
    a != b
  }

  /** The coefficient of x^k in q * (x^16 + x^12 + x^5 + 1). */
  function Multiple(q: seq<bool>, k: int): bool {
    Plus(Plus(Coefficient(q, k), Coefficient(q, k - 5)), Plus(Coefficient(q, k - 12), Coefficient(q, k - 16)))
  }

  /** The coefficient of x^k in crc * x^n + m * x^16, for the n bits m of a message, the highest
      coefficient first. */
  function Dividend(crc: bv16, m: seq<bool>, k: int): bool {
    Plus(Coefficient(Bits(crc), k - |m|), k >= 16 && Coefficient(m, |m| - 1 - (k - 16)))
  }

  /** Division with remainder: the dividend is the multiple of the generator plus r. */
  ghost predicate Divides(crc: bv16, m: seq<bool>, q: seq<bool>, r: bv16) {
    |q| == |m| && forall k: int :: Dividend(crc, m, k) == Plus(Multiple(q, k), Coefficient(Bits(r), k))
  }

  // ---------------------------------------------------------------- bit by bit

  function Top(x: bv16): bool {
    x & 0x8000 != 0
  }

  /** The bit shifted out when one more bit of the message comes in at the top. */
  function Out(x: bv16, bit: bool): bool {
    Top(x) != bit
  }

  /** One bit of the message into the register. */
  function Feed(x: bv16, bit: bool): bv16 {
    Step(Xor(x, if bit then 0x8000 else 0))
  }

  function Feeds(x: bv16, m: seq<bool>): bv16 {
    if m == [] then x else Feed(Feeds(x, m[..|m| - 1]), m[|m| - 1])
  }

  function Quotient(x: bv16, m: seq<bool>): (q: seq<bool>)
    ensures |q| == |m|
  {
    if m == [] then []
    else
      var most := m[..|m| - 1];
      [Out(Feeds(x, most), m[|m| - 1])] + Quotient(x, most)
  }

  lemma XorIs(x: bv16, y: bv16, k: int)
    ensures Coefficient(Bits(Xor(x, y)), k) == Plus(Coefficient(Bits(x), k), Coefficient(Bits(y), k))
  {
    hide Xor, Has;
    if 0 <= k < 16 {
      Power(k);
      XorHas(x, y, POWERS[k]);
    }
  }

  lemma XorHas(x: bv16, y: bv16, bit: bv16)
    requires bit != 0 && bit & (bit - 1) == 0
    ensures Has(Xor(x, y), bit) == Plus(Has(x, bit), Has(y, bit))
  {
    OneBit(x, bit);
    OneBit(y, bit);
    XorParts(x, y, bit);
    XorSelf(bit);
    hide Xor;
  }

  lemma OneBit(x: bv16, bit: bv16)
    requires bit != 0 && bit & (bit - 1) == 0
    ensures x & bit == 0 || x & bit == bit
  {
  }

  lemma XorParts(x: bv16, y: bv16, bit: bv16)
    ensures Xor(x, y) & bit == Xor(x & bit, y & bit)
  {
  }

  lemma XorSelf(x: bv16)
    ensures Xor(x, x) == 0 && Xor(x, 0) == x && Xor(0, x) == x && Xor(0, 0) == 0
  {
  }

  lemma ShiftIs(x: bv16, k: int)
    ensures Coefficient(Bits(x << 1), k) == (k < 16 && Coefficient(Bits(x), k - 1))
  {
    hide Has;
    if 0 <= k < 16 {
      Power(k);
      if k == 0 { ShiftLow(x); } else { ShiftHas(x, POWERS[k - 1]); }
    }
  }

  lemma ShiftLow(x: bv16)
    ensures !Has(x << 1, 1)
  {
  }

  lemma ShiftHas(x: bv16, bit: bv16)
    requires bit & 0x8000 == 0
    ensures Has(x << 1, bit << 1) == Has(x, bit)
  {
  }

  lemma Power(k: int)
    requires 0 <= k < 16
    ensures var bit := POWERS[k]; bit != 0 && bit & (bit - 1) == 0 && (k == 0 ==> bit == 1)
    ensures k > 0 ==> var below := POWERS[k - 1]; POWERS[k] == below << 1 && below & 0x8000 == 0
  {
  }

  lemma GeneratorIs(k: int)
    ensures Coefficient(Bits(POLYNOMIAL), k) <==> k == 0 || k == 5 || k == 12
    ensures Coefficient(Bits(0x8000), k) <==> k == 15
    ensures !Coefficient(Bits(0), k)
  {
  }

  lemma StepIs(x: bv16, k: int)
    ensures var o := Coefficient(Bits(x), 15);
      Coefficient(Bits(Step(x)), k)
      == Plus(k < 16 && Coefficient(Bits(x), k - 1), o && (k == 0 || k == 5 || k == 12))
  {
    hide Xor, Bits, Plus;
    TopIs(x);
    ShiftIs(x, k);
    XorIs(x << 1, POLYNOMIAL, k);
    GeneratorIs(k);
    NoneAdded(k < 16 && Coefficient(Bits(x), k - 1));
  }

  lemma TopIs(x: bv16)
    ensures Coefficient(Bits(x), 15) == Top(x) && (Top(x) <==> x & 0x8000 != 0)
  {
    TopHas(x);
    hide Has;
    assert POWERS[15] == 0x8000;
  }

  lemma TopHas(x: bv16)
    ensures Has(x, 0x8000) == Top(x)
  {
  }

  lemma NoneAdded(a: bool)
    ensures Plus(a, false) == a
  {
  }

  /** One bit: x times the register and the bit at x^16 is the bit shifted out times the
      generator, and the new register. */
  lemma FeedDivides(x: bv16, bit: bool, k: int)
    ensures var o := Out(x, bit);
      Plus(Coefficient(Bits(x), k - 1), k == 16 && bit)
      == Plus(o && (k == 0 || k == 5 || k == 12 || k == 16), Coefficient(Bits(Feed(x, bit)), k))
  {
    var top := if bit then 0x8000 else 0;
    var y := Xor(x, top);
    hide Xor, Bits, Step;
    TopIs(x);
    StepIs(y, k);
    XorIs(x, top, 15);
    XorIs(x, top, k - 1);
    GeneratorIs(15);
    GeneratorIs(k - 1);
  }

  lemma {:induction false} FeedsDivide(x: bv16, m: seq<bool>)
    ensures Divides(x, m, Quotient(x, m), Feeds(x, m))
  {
    hide Feed, Out, Bits;
    if m != [] {
      var most := m[..|m| - 1];
      FeedsDivide(x, most);
      forall k: int
        ensures Dividend(x, m, k) == Plus(Multiple(Quotient(x, m), k), Coefficient(Bits(Feeds(x, m)), k))
      {
        FeedDivides(Feeds(x, most), m[|m| - 1], k);
        OneMore(x, m, k);
      }
    }
  }

  lemma OneMore(x: bv16, m: seq<bool>, k: int)
    requires m != []
    ensures var most, last := m[..|m| - 1], m[|m| - 1];
      Dividend(x, m, k) == Plus(Dividend(x, most, k - 1), k == 16 && last)
    ensures var most, last := m[..|m| - 1], m[|m| - 1]; var o := Out(Feeds(x, most), last);
      Multiple(Quotient(x, m), k)
      == Plus(Multiple(Quotient(x, most), k - 1), o && (k == 0 || k == 5 || k == 12 || k == 16))
  {
    hide Feed, Out, Bits, Feeds;
    var most, last := m[..|m| - 1], m[|m| - 1];
    assert k > 16 ==> Coefficient(m, |m| - 1 - (k - 16)) == Coefficient(most, |most| - 1 - (k - 1 - 16));
    forall j: int
      ensures Coefficient(Quotient(x, m), j)
              == if j == 0 then Out(Feeds(x, most), last) else Coefficient(Quotient(x, most), j - 1)
    {
    }
  }

  // ---------------------------------------------------------------- byte by byte

  /** The low bits of y go on while its top bit is fed. */
  lemma OneFeed(f: bv16, y: bv16)
    ensures Step(Xor(f, y)) == Xor(Feed(f, Top(y)), y << 1)
  {
    hide Xor, Step;
    var top := if Top(y) then 0x8000 else 0;
    SplitTop(f, y);
    StepLinear(Xor(f, top), y & 0x7FFF);
  }

  lemma SplitTop(f: bv16, y: bv16)
    ensures Xor(f, y) == Xor(Xor(f, if Top(y) then 0x8000 else 0), y & 0x7FFF)
    ensures Step(y & 0x7FFF) == y << 1
  {
    hide Xor;
    TopApart(y);
    hide Top;
    var top := if Top(y) then 0x8000 else 0;
    XorRegroups(f, top, y & 0x7FFF);
  }

  lemma TopApart(y: bv16)
    ensures Xor(if Top(y) then 0x8000 else 0, y & 0x7FFF) == y
    ensures (y & 0x7FFF) & 0x8000 == 0
    ensures (y & 0x7FFF) << 1 == y << 1
  {
  }

  function FourSteps(x: bv16): bv16 {
    Step(Step(Step(Step(x))))
  }

  function FourFeeds(x: bv16, a: bool, b: bool, c: bool, d: bool): bv16 {
    Feed(Feed(Feed(Feed(x, a), b), c), d)
  }

  lemma FourFed(f: bv16, y: bv16)
    ensures var y1 := y << 1; var y2 := y1 << 1; var y3 := y2 << 1;
      FourSteps(Xor(f, y)) == Xor(FourFeeds(f, Top(y), Top(y1), Top(y2), Top(y3)), y3 << 1)
  {
    hide Step, Xor, Feed, Top;
    var y1 := y << 1;
    var y2 := y1 << 1;
    var y3 := y2 << 1;
    var f1 := Feed(f, Top(y));
    var f2 := Feed(f1, Top(y1));
    OneFeed(f, y);
    OneFeed(f1, y1);
    OneFeed(f2, y2);
    OneFeed(Feed(f2, Top(y2)), y3);
  }

  /** Eight steps on a byte at the top of the register are its eight bits fed. */
  lemma ByteFeeds(x: bv16, b: bv8)
    ensures Crc1(x, b) == Feeds(x, ByteBits(b))
  {
    hide Step, Steps, Xor, Up, FourFeeds, Feeds, ByteBits, Top;
    var m, y0 := ByteBits(b), Up(b);
    var y4 := y0 << 1 << 1 << 1 << 1;
    FourFed(x, y0);
    FourFed(FourFeeds(x, m[0], m[1], m[2], m[3]), y4);
    StepsEight(Xor(x, y0));
    TopBits(b);
    XorSelf(FourFeeds(FourFeeds(x, m[0], m[1], m[2], m[3]), m[4], m[5], m[6], m[7]));
    FeedsFour(x, m, 0);
    FeedsFour(x, m, 4);
    assert m[..8] == m;
    FeedsNext(x, m, 0);
  }

  lemma TopBits(b: bv8)
    ensures var m, y0 := ByteBits(b), Up(b);
      var y1 := y0 << 1; var y2 := y1 << 1; var y3 := y2 << 1; var y4 := y3 << 1;
      var y5 := y4 << 1; var y6 := y5 << 1; var y7 := y6 << 1;
      && m[0] == Top(y0) && m[1] == Top(y1) && m[2] == Top(y2) && m[3] == Top(y3)
      && m[4] == Top(y4) && m[5] == Top(y5) && m[6] == Top(y6) && m[7] == Top(y7) && y7 << 1 == 0
  {
  }

  lemma FeedsFour(x: bv16, m: seq<bool>, k: nat)
    requires k + 4 <= |m|
    ensures Feeds(x, m[..k + 4]) == FourFeeds(Feeds(x, m[..k]), m[k], m[k + 1], m[k + 2], m[k + 3])
  {
    hide Feed, Feeds;
    FeedsNext(x, m, k);
    FeedsNext(x, m, k + 1);
    FeedsNext(x, m, k + 2);
    FeedsNext(x, m, k + 3);
  }

  lemma FeedsNext(x: bv16, m: seq<bool>, k: nat)
    requires k < |m|
    ensures Feeds(x, m[..0]) == x && Feeds(x, m[..k + 1]) == Feed(Feeds(x, m[..k]), m[k])
  {
    hide Feed;
    assert m[..k + 1][..k] == m[..k];
  }

  lemma {:induction false} FoldFeeds(x: bv16, bytes: seq<bv8>)
    ensures Fold(x, bytes) == Feeds(x, MessageBits(bytes))
  {
    hide Crc1, ByteBits;
    if bytes != [] {
      hide Feeds;
      var most, last := bytes[..|bytes| - 1], bytes[|bytes| - 1];
      FoldFeeds(x, most);
      ByteFeeds(Fold(x, most), last);
      FeedsConcat(x, MessageBits(most), ByteBits(last));
    }
  }

  lemma {:induction false} FeedsConcat(x: bv16, a: seq<bool>, b: seq<bool>)
    ensures Feeds(x, a + b) == Feeds(Feeds(x, a), b)
  {
    hide Feed;
    if b == [] {
      assert a + b == a;
    } else {
      assert (a + b)[..|a + b| - 1] == a + b[..|b| - 1];
      FeedsConcat(x, a, b[..|b| - 1]);
    }
  }

  /** The CRC of a message is its remainder: with the register before as the first coefficients,
      and after 16 more places, it differs from the CRC by a multiple of the generator. */
  lemma IsRemainder(crc: bv16, bytes: seq<bv8>)
    ensures Divides(crc, MessageBits(bytes), Quotient(crc, MessageBits(bytes)), Fold(crc, bytes))
  {
    hide *;
    FoldFeeds(crc, bytes);
    FeedsDivide(crc, MessageBits(bytes));
  }

  /** There is one quotient and one remainder below x^16. */
  lemma OneRemainder(crc: bv16, bytes: seq<bv8>, q: seq<bool>, r: bv16)
    ensures var m := MessageBits(bytes);
      Divides(crc, m, q, r) <==> q == Quotient(crc, m) && r == Fold(crc, bytes)
  {
    hide *;
    var m := MessageBits(bytes);
    IsRemainder(crc, bytes);
    if Divides(crc, m, q, r) { SameDivision(crc, m, q, r, Quotient(crc, m), Fold(crc, bytes)); }
  }

  lemma SameDivision(crc: bv16, m: seq<bool>, p: seq<bool>, r: bv16, q: seq<bool>, s: bv16)
    requires Divides(crc, m, p, r) && Divides(crc, m, q, s)
    ensures p == q && r == s
  {
    hide Dividend, Bits;
    SameQuotient(crc, m, p, r, q, s, 0);
    assert p[0..] == p && q[0..] == q;
    forall k | 0 <= k < 16
      ensures Bits(r)[k] == Bits(s)[k]
    {
      assert Dividend(crc, m, k) == Plus(Multiple(p, k), Coefficient(Bits(r), k));
      assert Dividend(crc, m, k) == Plus(Multiple(q, k), Coefficient(Bits(s), k));
    }
    SameBits(r, s);
  }

  lemma {:induction false} SameQuotient(crc: bv16, m: seq<bool>, p: seq<bool>, r: bv16, q: seq<bool>, s: bv16, j: nat)
    requires Divides(crc, m, p, r) && Divides(crc, m, q, s) && j <= |m|
    ensures p[j..] == q[j..]
    decreases |m| - j
  {
    hide Dividend, Bits;
    if j < |m| {
      SameQuotient(crc, m, p, r, q, s, j + 1);
      forall k: int | k > j
        ensures Coefficient(p, k) == Coefficient(q, k)
      {
        if k < |m| { assert p[k] == p[j + 1..][k - (j + 1)] && q[k] == q[j + 1..][k - (j + 1)]; }
      }
      var k := j + 16;
      assert Dividend(crc, m, k) == Plus(Multiple(p, k), Coefficient(Bits(r), k));
      assert Dividend(crc, m, k) == Plus(Multiple(q, k), Coefficient(Bits(s), k));
      assert p[j] == Coefficient(p, k - 16) && q[j] == Coefficient(q, k - 16);
      assert p[j..] == [p[j]] + p[j + 1..] && q[j..] == [q[j]] + q[j + 1..];
    }
  }

  lemma SameBits(x: bv16, y: bv16)
    requires Bits(x) == Bits(y)
    ensures x == y
  {
    hide Xor, Bits;
    var z := Xor(x, y);
    forall k | 0 <= k < 16
      ensures !Coefficient(Bits(z), k)
    {
      XorIs(x, y, k);
    }
    NoBits(z);
    XorZero(x, y);
  }

  lemma NoBits(z: bv16)
    requires forall k :: 0 <= k < 16 ==> !Coefficient(Bits(z), k)
    ensures z == 0
  {
    hide Has;
    forall k | 0 <= k < 16
      ensures !Has(z, POWERS[k])
    {
      assert !Coefficient(Bits(z), k);
    }
    assert POWERS[0] == 1 && POWERS[1] == 2 && POWERS[2] == 4 && POWERS[3] == 8;
    assert POWERS[4] == 16 && POWERS[5] == 32 && POWERS[6] == 64 && POWERS[7] == 128;
    assert POWERS[8] == 256 && POWERS[9] == 512 && POWERS[10] == 1024 && POWERS[11] == 2048;
    assert POWERS[12] == 4096 && POWERS[13] == 8192 && POWERS[14] == 16384 && POWERS[15] == 32768;
    NoBit(z);
  }

  lemma NoBit(z: bv16)
    requires !Has(z, 1) && !Has(z, 2) && !Has(z, 4) && !Has(z, 8) && !Has(z, 16) && !Has(z, 32) && !Has(z, 64)
    requires !Has(z, 128) && !Has(z, 256) && !Has(z, 512) && !Has(z, 1024) && !Has(z, 2048) && !Has(z, 4096)
    requires !Has(z, 8192) && !Has(z, 16384) && !Has(z, 32768)
    ensures z == 0
  {
  }

  lemma XorZero(x: bv16, y: bv16)
    requires Xor(x, y) == 0
    ensures x == y
  {
  }

  /** rchr holds each byte with its bits in reverse order. */
  lemma BitsReversed(b: bv8)
    ensures var m, r := ByteBits(b), ByteBits(RevByte(b));
      r == [m[7], m[6], m[5], m[4], m[3], m[2], m[1], m[0]]
  {
  }

  /** A register is reversed by exchanging its bytes, each reversed. */
  lemma WordReversed(x: bv16)
    ensures High(RevWord(x)) == RevByte(Low(x)) && Low(RevWord(x)) == RevByte(High(x))
  {
  }
}
