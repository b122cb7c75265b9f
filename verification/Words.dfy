/** Unsigned 32-bit words as integers, and the double-word arithmetic that floatlib.c
    builds from them (test-progs/src/floatlib.c). */
module Words {

  const W16: int := 0x1_0000
  const W32: int := 0x1_0000_0000
  const W64: int := 0x1_0000_0000_0000_0000

  type word = x: int | 0 <= x < 0x1_0000_0000

  /** C's wrap-around of an unsigned result. */
  function Wrap(x: int): word {
    x % W32
  }

  function Bit(b: bool): word {
    if b then 1 else 0
  }

  /** (int) x < 0 */
  predicate Negative(x: word) {
    x >= 0x8000_0000
  }

  /** x | (b != 0) */
  function Jam(x: word, b: bool): (r: word)
    ensures r / 2 == x / 2 && (r % 2 == 1 <==> x % 2 == 1 || b)
  {
    if b && x % 2 == 0 then x + 1 else x
  }

  /** The two's complement reading of a double word. */
  function Signed64(z0: word, z1: word): int {
    if Negative(z0) then z0 * W32 + z1 - W64 else z0 * W32 + z1
  }

  lemma IntMulMono(a: int, b: int, c: int)
    requires a <= b && 0 <= c
    ensures a * c <= b * c
  {
  }

  /** The product of two halfwords fits a word. */
  function Mul16(x: int, y: int): (r: word)
    requires 0 <= x < W16 && 0 <= y < W16
  {
    IntMulMono(x, 0xFFFF, y);
    x * y
  }

  lemma Products(al: int, ah: int, bl: int, bh: int)
    ensures (ah * W16 + al) * (bh * W16 + bl) == ah * bh * W32 + (al * bh + ah * bl) * W16 + al * bl
  {
  }

  lemma SplitProduct(a: word, b: word)
    ensures a * b == Mul16(a / W16, b / W16) * W32 + (Mul16(a % W16, b / W16) + Mul16(a / W16, b % W16)) * W16
                     + Mul16(a % W16, b % W16) < W64
  {
    Products(a % W16, a / W16, b % W16, b / W16);
    MulBound(a, b);
  }

  /** The 64-bit product of two words from four 16 x 16 products and two carries. */
  method Mul32To64(a: word, b: word) returns (z0: word, z1: word)
    ensures z0 * W32 + z1 == a * b
  {
    SplitProduct(a, b);
    hide Mul16, Wrap, Bit;
    var p0, p1 := Mul16(a % W16, b % W16), Mul16(a / W16, b / W16);
    var q0, q1 := Mul16(a % W16, b / W16), Mul16(a / W16, b % W16);
    z1 := p0;
    var middleA: word := q0;
    var middleB: word := q1;
    z0 := p1;
    middleA := Wrap(middleA + middleB);
    z0 := Wrap(z0 + (Bit(middleA < middleB) * W16 + middleA / W16));
    middleA := Wrap(middleA * W16);
    z1 := Wrap(z1 + middleA);
    z0 := Wrap(z0 + Bit(z1 < middleA));
    Mul32Carries(p0, p1, q0, q1, z0, z1);
  }

  lemma MulBound(a: word, b: word)
    ensures a * b < W64
  {
    IntMulMono(a, W32 - 1, b);
  }

  lemma Mul32Carries(p0: word, p1: word, q0: word, q1: word, z0: word, z1: word)
    requires p1 * W32 + (q0 + q1) * W16 + p0 < W64
    requires z1 == Wrap(p0 + Wrap(Wrap(q0 + q1) * W16))
    requires z0 == Wrap(Wrap(p1 + (Bit(Wrap(q0 + q1) < q1) * W16 + Wrap(q0 + q1) / W16))
      + Bit(z1 < Wrap(Wrap(q0 + q1) * W16)))
    ensures z0 * W32 + z1 == p1 * W32 + (q0 + q1) * W16 + p0
  {
    var q := q0 + q1;
    CarryOfSum(q0, q1);
    assert Wrap(q) < q1 <==> q >= W32;
    MiddleHalves(q);
    var low: word := q % W16 * W16;
    var high := q / W16;
    CarryOfSum(p0, low);
    var c := Bit(z1 < low);
    assert z1 + c * W32 == p0 + low;
    HighWord(p1, high, c, z0);
  }

  lemma HighWord(p1: word, high: int, c: word, z0: word)
    requires 0 <= high && p1 + high + c < W32 && z0 == Wrap(Wrap(p1 + high) + c)
    ensures z0 == p1 + high + c
  {
  }

  lemma CarryOfSum(x: int, y: int)
    requires 0 <= x < W32 && 0 <= y < W32
    ensures Wrap(x + y) + Bit(Wrap(x + y) < y) * W32 == x + y
  {
  }

  lemma MiddleHalves(q: int)
    requires 0 <= q < 2 * W32
    ensures Bit(q >= W32) * W16 + Wrap(q) / W16 == q / W16
    ensures Wrap(Wrap(q) * W16) == q % W16 * W16
    ensures q == q / W16 * W16 + q % W16
  {
  }

  /** a - b on double words. */
  method Sub64(a0: word, a1: word, b0: word, b1: word) returns (z0: word, z1: word)
    ensures -W64 / 2 <= a0 * W32 + a1 - (b0 * W32 + b1) < W64 / 2 ==>
              Signed64(z0, z1) == a0 * W32 + a1 - (b0 * W32 + b1)
  {
    z1 := Wrap(a1 - b1);
    z0 := Wrap(a0 - b0 - Bit(a1 < b1));
  }

  /** a + b on double words, a read as signed. */
  method Add64(a0: word, a1: word, b0: word, b1: word) returns (z0: word, z1: word)
    ensures -W64 / 2 <= Signed64(a0, a1) + (b0 * W32 + b1) < W64 / 2 ==>
              Signed64(z0, z1) == Signed64(a0, a1) + (b0 * W32 + b1)
  {
    z1 := Wrap(a1 + b1);
    z0 := Wrap(a0 + b0 + Bit(z1 < a1));
  }
}
