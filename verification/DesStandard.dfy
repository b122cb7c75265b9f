/** The block function of des.c against FIPS 46-3 (test-progs/src/des.c): which bit goes where
    in the initial permutation and into the tables of a round, and the order of the rounds. */
module DesStandard {
  import opened Des

  predicate BitAt(x: word, p: nat)
    requires p < 32
  {
    (x >> p) & 1 == 1
  }

  // ---------------------------------------------------------------- the initial permutation

  /** Bit b of a block, counted from 1 as in the standard: the bytes are loaded with the first
      one lowest, and the standard counts the highest bit of a byte first. */
  predicate InputBit(x: Block, b: nat)
    requires 1 <= b <= 64
  {
    BitAt(if b <= 32 then x.l else x.r, 8 * ((b - 1) / 8 % 4) + 7 - (b - 1) % 8)
  }

  /** Bit b of a half between the permutations, where the lowest bit is the first. */
  predicate HalfBit(x: word, b: nat)
    requires 1 <= b <= 32
  {
    BitAt(x, b - 1)
  }

  /** The initial permutation of the standard, row by row. */
  const IP_1: seq<nat> := [58, 50, 42, 34, 26, 18, 10, 2]
  const IP_2: seq<nat> := [60, 52, 44, 36, 28, 20, 12, 4]
  const IP_3: seq<nat> := [62, 54, 46, 38, 30, 22, 14, 6]
  const IP_4: seq<nat> := [64, 56, 48, 40, 32, 24, 16, 8]
  const IP_5: seq<nat> := [57, 49, 41, 33, 25, 17, 9, 1]
  const IP_6: seq<nat> := [59, 51, 43, 35, 27, 19, 11, 3]
  const IP_7: seq<nat> := [61, 53, 45, 37, 29, 21, 13, 5]
  const IP_8: seq<nat> := [63, 55, 47, 39, 31, 23, 15, 7]

  const IP: seq<seq<nat>> := [IP_1, IP_2, IP_3, IP_4, IP_5, IP_6, IP_7, IP_8]

  /** Bit k after the initial permutation: the first half ends up in r, the second in l. */
  predicate OutputBit(x: Block, k: nat)
    requires 1 <= k <= 64
  {
    if k <= 32 then HalfBit(x.r, k) else HalfBit(x.l, k - 32)
  }

  /** Each bit of the permuted block is the one that the table of the standard names for it. */
  lemma PermutedIs(x: Block, i: nat, j: nat)
    requires i < 8 && j < 8
    ensures 1 <= IP[i][j] <= 64 && OutputBit(Permuted(x), 8 * i + j + 1) == InputBit(x, IP[i][j])
  {
    hide Permuted, BitAt;
    if i == 0 { Row1(x, j); } else if i == 1 { Row2(x, j); } else if i == 2 { Row3(x, j); }
    else if i == 3 { Row4(x, j); }
    else if i == 4 { Row5(x, j); } else if i == 5 { Row6(x, j); } else if i == 6 { Row7(x, j); } else { Row8(x, j); }
  }

  lemma Row1(x: Block, j: nat)
    requires j < 8
    ensures 1 <= IP[0][j] <= 64 && OutputBit(Permuted(x), 1 + j) == InputBit(x, IP[0][j])
  {
    MovedLow1(x);
    MovedHigh1(x);
    hide Permuted, BitAt;
    var y := Permuted(x);
    if j == 0 {} else if j == 1 {} else if j == 2 {} else if j == 3 {}
    else if j == 4 {} else if j == 5 {} else if j == 6 {} else {}
  }

  lemma MovedLow1(x: Block)
    ensures var y := Permuted(x);
      && BitAt(y.r, 0) == BitAt(x.r, 30) && BitAt(y.r, 1) == BitAt(x.r, 22)
      && BitAt(y.r, 2) == BitAt(x.r, 14) && BitAt(y.r, 3) == BitAt(x.r, 6)
  {
  }

  lemma MovedHigh1(x: Block)
    ensures var y := Permuted(x);
      && BitAt(y.r, 4) == BitAt(x.l, 30) && BitAt(y.r, 5) == BitAt(x.l, 22)
      && BitAt(y.r, 6) == BitAt(x.l, 14) && BitAt(y.r, 7) == BitAt(x.l, 6)
  {
  }

  lemma Row2(x: Block, j: nat)
    requires j < 8
    ensures 1 <= IP[1][j] <= 64 && OutputBit(Permuted(x), 9 + j) == InputBit(x, IP[1][j])
  {
    MovedLow2(x);
    MovedHigh2(x);
    hide Permuted, BitAt;
    var y := Permuted(x);
    if j == 0 {} else if j == 1 {} else if j == 2 {} else if j == 3 {}
    else if j == 4 {} else if j == 5 {} else if j == 6 {} else {}
  }

  lemma MovedLow2(x: Block)
    ensures var y := Permuted(x);
      && BitAt(y.r, 8) == BitAt(x.r, 28) && BitAt(y.r, 9) == BitAt(x.r, 20)
      && BitAt(y.r, 10) == BitAt(x.r, 12) && BitAt(y.r, 11) == BitAt(x.r, 4)
  {
  }

  lemma MovedHigh2(x: Block)
    ensures var y := Permuted(x);
      && BitAt(y.r, 12) == BitAt(x.l, 28) && BitAt(y.r, 13) == BitAt(x.l, 20)
      && BitAt(y.r, 14) == BitAt(x.l, 12) && BitAt(y.r, 15) == BitAt(x.l, 4)
  {
  }

  lemma Row3(x: Block, j: nat)
    requires j < 8
    ensures 1 <= IP[2][j] <= 64 && OutputBit(Permuted(x), 17 + j) == InputBit(x, IP[2][j])
  {
    MovedLow3(x);
    MovedHigh3(x);
    hide Permuted, BitAt;
    var y := Permuted(x);
    if j == 0 {} else if j == 1 {} else if j == 2 {} else if j == 3 {}
    else if j == 4 {} else if j == 5 {} else if j == 6 {} else {}
  }

  lemma MovedLow3(x: Block)
    ensures var y := Permuted(x);
      && BitAt(y.r, 16) == BitAt(x.r, 26) && BitAt(y.r, 17) == BitAt(x.r, 18)
      && BitAt(y.r, 18) == BitAt(x.r, 10) && BitAt(y.r, 19) == BitAt(x.r, 2)
  {
  }

  lemma MovedHigh3(x: Block)
    ensures var y := Permuted(x);
      && BitAt(y.r, 20) == BitAt(x.l, 26) && BitAt(y.r, 21) == BitAt(x.l, 18)
      && BitAt(y.r, 22) == BitAt(x.l, 10) && BitAt(y.r, 23) == BitAt(x.l, 2)
  {
  }

  lemma Row4(x: Block, j: nat)
    requires j < 8
    ensures 1 <= IP[3][j] <= 64 && OutputBit(Permuted(x), 25 + j) == InputBit(x, IP[3][j])
  {
    MovedLow4(x);
    MovedHigh4(x);
    hide Permuted, BitAt;
    var y := Permuted(x);
    if j == 0 {} else if j == 1 {} else if j == 2 {} else if j == 3 {}
    else if j == 4 {} else if j == 5 {} else if j == 6 {} else {}
  }

  lemma MovedLow4(x: Block)
    ensures var y := Permuted(x);
      && BitAt(y.r, 24) == BitAt(x.r, 24) && BitAt(y.r, 25) == BitAt(x.r, 16)
      && BitAt(y.r, 26) == BitAt(x.r, 8) && BitAt(y.r, 27) == BitAt(x.r, 0)
  {
  }

  lemma MovedHigh4(x: Block)
    ensures var y := Permuted(x);
      && BitAt(y.r, 28) == BitAt(x.l, 24) && BitAt(y.r, 29) == BitAt(x.l, 16)
      && BitAt(y.r, 30) == BitAt(x.l, 8) && BitAt(y.r, 31) == BitAt(x.l, 0)
  {
  }

  lemma Row5(x: Block, j: nat)
    requires j < 8
    ensures 1 <= IP[4][j] <= 64 && OutputBit(Permuted(x), 33 + j) == InputBit(x, IP[4][j])
  {
    MovedLow5(x);
    MovedHigh5(x);
    hide Permuted, BitAt;
    var y := Permuted(x);
    if j == 0 {} else if j == 1 {} else if j == 2 {} else if j == 3 {}
    else if j == 4 {} else if j == 5 {} else if j == 6 {} else {}
  }

  lemma MovedLow5(x: Block)
    ensures var y := Permuted(x);
      && BitAt(y.l, 0) == BitAt(x.r, 31) && BitAt(y.l, 1) == BitAt(x.r, 23)
      && BitAt(y.l, 2) == BitAt(x.r, 15) && BitAt(y.l, 3) == BitAt(x.r, 7)
  {
  }

  lemma MovedHigh5(x: Block)
    ensures var y := Permuted(x);
      && BitAt(y.l, 4) == BitAt(x.l, 31) && BitAt(y.l, 5) == BitAt(x.l, 23)
      && BitAt(y.l, 6) == BitAt(x.l, 15) && BitAt(y.l, 7) == BitAt(x.l, 7)
  {
  }

  lemma Row6(x: Block, j: nat)
    requires j < 8
    ensures 1 <= IP[5][j] <= 64 && OutputBit(Permuted(x), 41 + j) == InputBit(x, IP[5][j])
  {
    MovedLow6(x);
    MovedHigh6(x);
    hide Permuted, BitAt;
    var y := Permuted(x);
    if j == 0 {} else if j == 1 {} else if j == 2 {} else if j == 3 {}
    else if j == 4 {} else if j == 5 {} else if j == 6 {} else {}
  }

  lemma MovedLow6(x: Block)
    ensures var y := Permuted(x);
      && BitAt(y.l, 8) == BitAt(x.r, 29) && BitAt(y.l, 9) == BitAt(x.r, 21)
      && BitAt(y.l, 10) == BitAt(x.r, 13) && BitAt(y.l, 11) == BitAt(x.r, 5)
  {
  }

  lemma MovedHigh6(x: Block)
    ensures var y := Permuted(x);
      && BitAt(y.l, 12) == BitAt(x.l, 29) && BitAt(y.l, 13) == BitAt(x.l, 21)
      && BitAt(y.l, 14) == BitAt(x.l, 13) && BitAt(y.l, 15) == BitAt(x.l, 5)
  {
  }

  lemma Row7(x: Block, j: nat)
    requires j < 8
    ensures 1 <= IP[6][j] <= 64 && OutputBit(Permuted(x), 49 + j) == InputBit(x, IP[6][j])
  {
    MovedLow7(x);
    MovedHigh7(x);
    hide Permuted, BitAt;
    var y := Permuted(x);
    if j == 0 {} else if j == 1 {} else if j == 2 {} else if j == 3 {}
    else if j == 4 {} else if j == 5 {} else if j == 6 {} else {}
  }

  lemma MovedLow7(x: Block)
    ensures var y := Permuted(x);
      && BitAt(y.l, 16) == BitAt(x.r, 27) && BitAt(y.l, 17) == BitAt(x.r, 19)
      && BitAt(y.l, 18) == BitAt(x.r, 11) && BitAt(y.l, 19) == BitAt(x.r, 3)
  {
  }

  lemma MovedHigh7(x: Block)
    ensures var y := Permuted(x);
      && BitAt(y.l, 20) == BitAt(x.l, 27) && BitAt(y.l, 21) == BitAt(x.l, 19)
      && BitAt(y.l, 22) == BitAt(x.l, 11) && BitAt(y.l, 23) == BitAt(x.l, 3)
  {
  }

  lemma Row8(x: Block, j: nat)
    requires j < 8
    ensures 1 <= IP[7][j] <= 64 && OutputBit(Permuted(x), 57 + j) == InputBit(x, IP[7][j])
  {
    MovedLow8(x);
    MovedHigh8(x);
    hide Permuted, BitAt;
    var y := Permuted(x);
    if j == 0 {} else if j == 1 {} else if j == 2 {} else if j == 3 {}
    else if j == 4 {} else if j == 5 {} else if j == 6 {} else {}
  }

  lemma MovedLow8(x: Block)
    ensures var y := Permuted(x);
      && BitAt(y.l, 24) == BitAt(x.r, 25) && BitAt(y.l, 25) == BitAt(x.r, 17)
      && BitAt(y.l, 26) == BitAt(x.r, 9) && BitAt(y.l, 27) == BitAt(x.r, 1)
  {
  }

  lemma MovedHigh8(x: Block)
    ensures var y := Permuted(x);
      && BitAt(y.l, 28) == BitAt(x.l, 25) && BitAt(y.l, 29) == BitAt(x.l, 17)
      && BitAt(y.l, 30) == BitAt(x.l, 9) && BitAt(y.l, 31) == BitAt(x.l, 1)
  {
  }

  // ---------------------------------------------------------------- the rounds

  /** The bit selection table of the standard: the bits of a half that go to each table. */
  const E: seq<seq<nat>> := [
    [32, 1, 2, 3, 4, 5],
    [4, 5, 6, 7, 8, 9],
    [8, 9, 10, 11, 12, 13],
    [12, 13, 14, 15, 16, 17],
    [16, 17, 18, 19, 20, 21],
    [20, 21, 22, 23, 24, 25],
    [24, 25, 26, 27, 28, 29],
    [28, 29, 30, 31, 32, 1]]

  function Selected(i: nat, j: nat): (b: nat)
    requires i < 8 && j < 6
    ensures 1 <= b <= 32
  {
    E[i][j]
  }

  /** Input j of table i: the bit of the half that E selects, added to a bit of the key. */
  predicate Input(i: nat, j: nat, half: word, key: word)
    requires i < 8 && j < 6
  {
    HalfBit(half, Selected(i, j)) != BitAt(key, (4 * i + j) % 32)
  }

  /** The address at which a round looks table i up. */
  function Address(i: nat, half: word, key: word): (a: word)
    requires i < 8
    ensures a < 64
  {
    hide SixBits, Turned, Xor, RotateLeft;
    var x := Xor(RotateLeft(half), key);
    var y := if i % 2 == 1 then Turned(x) else x;
    SixBits(y, if i < 2 then 0 else if i < 4 then 8 else if i < 6 then 16 else 24)
  }

  /** Its six bits are exactly the inputs of the table. */
  lemma AddressBits(i: nat, j: nat, half: word, key: word)
    requires i < 8 && j < 6
    ensures BitAt(Address(i, half, key), j) <==> Input(i, j, half, key)
  {
    hide Address, HalfBit, BitAt, Selected;
    if i == 0 { Address0(j, half, key); } else if i == 1 { Address1(j, half, key); }
    else if i == 2 { Address2(j, half, key); } else if i == 3 { Address3(j, half, key); }
    else if i == 4 { Address4(j, half, key); } else if i == 5 { Address5(j, half, key); }
    else if i == 6 { Address6(j, half, key); } else { Address7(j, half, key); }
  }

  lemma TurnedOr(x: word)
    ensures Turned(x) == (x >> 4) | (x << 28)
  {
  }

  lemma Address0(j: nat, half: word, key: word)
    requires j < 6
    ensures BitAt(Address(0, half, key), j) <==> Input(0, j, half, key)
  {
    Taken0(Xor(RotateLeft(half), key));
    Added0(half, key);
    Added3(half, key);
    hide SixBits, Turned, Xor, RotateLeft, BitAt;
    if j == 0 {} else if j == 1 {} else if j == 2 {} else if j == 3 {} else if j == 4 {} else {}
  }

  lemma Taken0(x: word)
    ensures var a := SixBits(x, 0);
      && BitAt(a, 0) == BitAt(x, 0) && BitAt(a, 1) == BitAt(x, 1)
      && BitAt(a, 2) == BitAt(x, 2) && BitAt(a, 3) == BitAt(x, 3)
      && BitAt(a, 4) == BitAt(x, 4) && BitAt(a, 5) == BitAt(x, 5)
  {
    assert SixBits(x, 0) == (x >> 0) & 0x3f;
    hide SixBits;
  }

  lemma Address1(j: nat, half: word, key: word)
    requires j < 6
    ensures BitAt(Address(1, half, key), j) <==> Input(1, j, half, key)
  {
    Taken1(Xor(RotateLeft(half), key));
    Added4(half, key);
    Added7(half, key);
    hide SixBits, Turned, Xor, RotateLeft, BitAt;
    if j == 0 {} else if j == 1 {} else if j == 2 {} else if j == 3 {} else if j == 4 {} else {}
  }

  lemma Taken1(x: word)
    ensures var a := SixBits(Turned(x), 0);
      && BitAt(a, 0) == BitAt(x, 4) && BitAt(a, 1) == BitAt(x, 5)
      && BitAt(a, 2) == BitAt(x, 6) && BitAt(a, 3) == BitAt(x, 7)
      && BitAt(a, 4) == BitAt(x, 8) && BitAt(a, 5) == BitAt(x, 9)
  {
    TurnedOr(x);
    assert SixBits(Turned(x), 0) == (Turned(x) >> 0) & 0x3f;
    hide SixBits, Turned;
  }

  lemma Address2(j: nat, half: word, key: word)
    requires j < 6
    ensures BitAt(Address(2, half, key), j) <==> Input(2, j, half, key)
  {
    Taken2(Xor(RotateLeft(half), key));
    Added8(half, key);
    Added11(half, key);
    hide SixBits, Turned, Xor, RotateLeft, BitAt;
    if j == 0 {} else if j == 1 {} else if j == 2 {} else if j == 3 {} else if j == 4 {} else {}
  }

  lemma Taken2(x: word)
    ensures var a := SixBits(x, 8);
      && BitAt(a, 0) == BitAt(x, 8) && BitAt(a, 1) == BitAt(x, 9)
      && BitAt(a, 2) == BitAt(x, 10) && BitAt(a, 3) == BitAt(x, 11)
      && BitAt(a, 4) == BitAt(x, 12) && BitAt(a, 5) == BitAt(x, 13)
  {
    assert SixBits(x, 8) == (x >> 8) & 0x3f;
    hide SixBits;
  }

  lemma Address3(j: nat, half: word, key: word)
    requires j < 6
    ensures BitAt(Address(3, half, key), j) <==> Input(3, j, half, key)
  {
    Taken3(Xor(RotateLeft(half), key));
    Added12(half, key);
    Added15(half, key);
    hide SixBits, Turned, Xor, RotateLeft, BitAt;
    if j == 0 {} else if j == 1 {} else if j == 2 {} else if j == 3 {} else if j == 4 {} else {}
  }

  lemma Taken3(x: word)
    ensures var a := SixBits(Turned(x), 8);
      && BitAt(a, 0) == BitAt(x, 12) && BitAt(a, 1) == BitAt(x, 13)
      && BitAt(a, 2) == BitAt(x, 14) && BitAt(a, 3) == BitAt(x, 15)
      && BitAt(a, 4) == BitAt(x, 16) && BitAt(a, 5) == BitAt(x, 17)
  {
    TurnedOr(x);
    assert SixBits(Turned(x), 8) == (Turned(x) >> 8) & 0x3f;
    hide SixBits, Turned;
  }

  lemma Address4(j: nat, half: word, key: word)
    requires j < 6
    ensures BitAt(Address(4, half, key), j) <==> Input(4, j, half, key)
  {
    Taken4(Xor(RotateLeft(half), key));
    Added16(half, key);
    Added19(half, key);
    hide SixBits, Turned, Xor, RotateLeft, BitAt;
    if j == 0 {} else if j == 1 {} else if j == 2 {} else if j == 3 {} else if j == 4 {} else {}
  }

  lemma Taken4(x: word)
    ensures var a := SixBits(x, 16);
      && BitAt(a, 0) == BitAt(x, 16) && BitAt(a, 1) == BitAt(x, 17)
      && BitAt(a, 2) == BitAt(x, 18) && BitAt(a, 3) == BitAt(x, 19)
      && BitAt(a, 4) == BitAt(x, 20) && BitAt(a, 5) == BitAt(x, 21)
  {
    assert SixBits(x, 16) == (x >> 16) & 0x3f;
    hide SixBits;
  }

  lemma Address5(j: nat, half: word, key: word)
    requires j < 6
    ensures BitAt(Address(5, half, key), j) <==> Input(5, j, half, key)
  {
    Taken5(Xor(RotateLeft(half), key));
    Added20(half, key);
    Added23(half, key);
    hide SixBits, Turned, Xor, RotateLeft, BitAt;
    if j == 0 {} else if j == 1 {} else if j == 2 {} else if j == 3 {} else if j == 4 {} else {}
  }

  lemma Taken5(x: word)
    ensures var a := SixBits(Turned(x), 16);
      && BitAt(a, 0) == BitAt(x, 20) && BitAt(a, 1) == BitAt(x, 21)
      && BitAt(a, 2) == BitAt(x, 22) && BitAt(a, 3) == BitAt(x, 23)
      && BitAt(a, 4) == BitAt(x, 24) && BitAt(a, 5) == BitAt(x, 25)
  {
    TurnedOr(x);
    assert SixBits(Turned(x), 16) == (Turned(x) >> 16) & 0x3f;
    hide SixBits, Turned;
  }

  lemma Address6(j: nat, half: word, key: word)
    requires j < 6
    ensures BitAt(Address(6, half, key), j) <==> Input(6, j, half, key)
  {
    Taken6(Xor(RotateLeft(half), key));
    Added24(half, key);
    Added27(half, key);
    hide SixBits, Turned, Xor, RotateLeft, BitAt;
    if j == 0 {} else if j == 1 {} else if j == 2 {} else if j == 3 {} else if j == 4 {} else {}
  }

  lemma Taken6(x: word)
    ensures var a := SixBits(x, 24);
      && BitAt(a, 0) == BitAt(x, 24) && BitAt(a, 1) == BitAt(x, 25)
      && BitAt(a, 2) == BitAt(x, 26) && BitAt(a, 3) == BitAt(x, 27)
      && BitAt(a, 4) == BitAt(x, 28) && BitAt(a, 5) == BitAt(x, 29)
  {
    assert SixBits(x, 24) == (x >> 24) & 0x3f;
    hide SixBits;
  }

  lemma Address7(j: nat, half: word, key: word)
    requires j < 6
    ensures BitAt(Address(7, half, key), j) <==> Input(7, j, half, key)
  {
    Taken7(Xor(RotateLeft(half), key));
    Added28(half, key);
    Added31(half, key);
    Added0(half, key);
    hide SixBits, Turned, Xor, RotateLeft, BitAt;
    if j == 0 {} else if j == 1 {} else if j == 2 {} else if j == 3 {} else if j == 4 {} else {}
  }

  lemma Taken7(x: word)
    ensures var a := SixBits(Turned(x), 24);
      && BitAt(a, 0) == BitAt(x, 28) && BitAt(a, 1) == BitAt(x, 29)
      && BitAt(a, 2) == BitAt(x, 30) && BitAt(a, 3) == BitAt(x, 31)
      && BitAt(a, 4) == BitAt(x, 0) && BitAt(a, 5) == BitAt(x, 1)
  {
    TurnedOr(x);
    assert SixBits(Turned(x), 24) == (Turned(x) >> 24) & 0x3f;
    hide SixBits, Turned;
  }

  lemma Added0(half: word, key: word)
    ensures var x := Xor(RotateLeft(half), key);
      && BitAt(x, 0) == (BitAt(half, 31) != BitAt(key, 0))
      && BitAt(x, 1) == (BitAt(half, 0) != BitAt(key, 1))
      && BitAt(x, 2) == (BitAt(half, 1) != BitAt(key, 2))
  {
  }

  lemma Added3(half: word, key: word)
    ensures var x := Xor(RotateLeft(half), key);
      && BitAt(x, 3) == (BitAt(half, 2) != BitAt(key, 3))
      && BitAt(x, 4) == (BitAt(half, 3) != BitAt(key, 4))
      && BitAt(x, 5) == (BitAt(half, 4) != BitAt(key, 5))
  {
  }

  lemma Added4(half: word, key: word)
    ensures var x := Xor(RotateLeft(half), key);
      && BitAt(x, 4) == (BitAt(half, 3) != BitAt(key, 4))
      && BitAt(x, 5) == (BitAt(half, 4) != BitAt(key, 5))
      && BitAt(x, 6) == (BitAt(half, 5) != BitAt(key, 6))
  {
  }

  lemma Added7(half: word, key: word)
    ensures var x := Xor(RotateLeft(half), key);
      && BitAt(x, 7) == (BitAt(half, 6) != BitAt(key, 7))
      && BitAt(x, 8) == (BitAt(half, 7) != BitAt(key, 8))
      && BitAt(x, 9) == (BitAt(half, 8) != BitAt(key, 9))
  {
  }

  lemma Added8(half: word, key: word)
    ensures var x := Xor(RotateLeft(half), key);
      && BitAt(x, 8) == (BitAt(half, 7) != BitAt(key, 8))
      && BitAt(x, 9) == (BitAt(half, 8) != BitAt(key, 9))
      && BitAt(x, 10) == (BitAt(half, 9) != BitAt(key, 10))
  {
  }

  lemma Added11(half: word, key: word)
    ensures var x := Xor(RotateLeft(half), key);
      && BitAt(x, 11) == (BitAt(half, 10) != BitAt(key, 11))
      && BitAt(x, 12) == (BitAt(half, 11) != BitAt(key, 12))
      && BitAt(x, 13) == (BitAt(half, 12) != BitAt(key, 13))
  {
  }

  lemma Added12(half: word, key: word)
    ensures var x := Xor(RotateLeft(half), key);
      && BitAt(x, 12) == (BitAt(half, 11) != BitAt(key, 12))
      && BitAt(x, 13) == (BitAt(half, 12) != BitAt(key, 13))
      && BitAt(x, 14) == (BitAt(half, 13) != BitAt(key, 14))
  {
  }

  lemma Added15(half: word, key: word)
    ensures var x := Xor(RotateLeft(half), key);
      && BitAt(x, 15) == (BitAt(half, 14) != BitAt(key, 15))
      && BitAt(x, 16) == (BitAt(half, 15) != BitAt(key, 16))
      && BitAt(x, 17) == (BitAt(half, 16) != BitAt(key, 17))
  {
  }

  lemma Added16(half: word, key: word)
    ensures var x := Xor(RotateLeft(half), key);
      && BitAt(x, 16) == (BitAt(half, 15) != BitAt(key, 16))
      && BitAt(x, 17) == (BitAt(half, 16) != BitAt(key, 17))
      && BitAt(x, 18) == (BitAt(half, 17) != BitAt(key, 18))
  {
  }

  lemma Added19(half: word, key: word)
    ensures var x := Xor(RotateLeft(half), key);
      && BitAt(x, 19) == (BitAt(half, 18) != BitAt(key, 19))
      && BitAt(x, 20) == (BitAt(half, 19) != BitAt(key, 20))
      && BitAt(x, 21) == (BitAt(half, 20) != BitAt(key, 21))
  {
  }

  lemma Added20(half: word, key: word)
    ensures var x := Xor(RotateLeft(half), key);
      && BitAt(x, 20) == (BitAt(half, 19) != BitAt(key, 20))
      && BitAt(x, 21) == (BitAt(half, 20) != BitAt(key, 21))
      && BitAt(x, 22) == (BitAt(half, 21) != BitAt(key, 22))
  {
  }

  lemma Added23(half: word, key: word)
    ensures var x := Xor(RotateLeft(half), key);
      && BitAt(x, 23) == (BitAt(half, 22) != BitAt(key, 23))
      && BitAt(x, 24) == (BitAt(half, 23) != BitAt(key, 24))
      && BitAt(x, 25) == (BitAt(half, 24) != BitAt(key, 25))
  {
  }

  lemma Added24(half: word, key: word)
    ensures var x := Xor(RotateLeft(half), key);
      && BitAt(x, 24) == (BitAt(half, 23) != BitAt(key, 24))
      && BitAt(x, 25) == (BitAt(half, 24) != BitAt(key, 25))
      && BitAt(x, 26) == (BitAt(half, 25) != BitAt(key, 26))
  {
  }

  lemma Added27(half: word, key: word)
    ensures var x := Xor(RotateLeft(half), key);
      && BitAt(x, 27) == (BitAt(half, 26) != BitAt(key, 27))
      && BitAt(x, 28) == (BitAt(half, 27) != BitAt(key, 28))
      && BitAt(x, 29) == (BitAt(half, 28) != BitAt(key, 29))
  {
  }

  lemma Added28(half: word, key: word)
    ensures var x := Xor(RotateLeft(half), key);
      && BitAt(x, 28) == (BitAt(half, 27) != BitAt(key, 28))
      && BitAt(x, 29) == (BitAt(half, 28) != BitAt(key, 29))
      && BitAt(x, 30) == (BitAt(half, 29) != BitAt(key, 30))
  {
  }

  lemma Added31(half: word, key: word)
    ensures BitAt(Xor(RotateLeft(half), key), 31) == (BitAt(half, 30) != BitAt(key, 31))
  {
    TopTurned(half);
    TopAdded(RotateLeft(half), key);
    hide RotateLeft, Xor, BitAt;
  }

  lemma TopTurned(half: word)
    ensures BitAt(RotateLeft(half), 31) == BitAt(half, 30)
  {
  }

  predicate Odd(x: word) {
    x & 1 == 1
  }

  function Top(x: word): word {
    x >> 31
  }

  lemma TopIsOdd(x: word)
    ensures BitAt(x, 31) == Odd(Top(x))
  {
  }

  lemma TopXor(x: word, y: word)
    ensures Top(Xor(x, y)) == Xor(Top(x), Top(y))
  {
  }

  lemma OddXor(x: word, y: word)
    ensures Odd(Xor(x, y)) == (Odd(x) != Odd(y))
  {
  }

  lemma TopAdded(x: word, key: word)
    ensures BitAt(Xor(x, key), 31) == (BitAt(x, 31) != BitAt(key, 31))
  {
    hide BitAt, Odd, Top, Xor;
    TopIsOdd(x);
    TopIsOdd(key);
    TopIsOdd(Xor(x, key));
    TopXor(x, key);
    OddXor(Top(x), Top(key));
  }

  /** What a round adds to a half, from the two words of its key: the tables together, one for
      each six bits.  The tables give their bits one place higher than the halves have them. */
  function F(sp: tables, half: word, k0: word, k1: word): word {
    RotateRight(
      Looked(sp, 0, half, k0) | Looked(sp, 1, half, k1) | Looked(sp, 2, half, k0) | Looked(sp, 3, half, k1)
      | Looked(sp, 4, half, k0) | Looked(sp, 5, half, k1) | Looked(sp, 6, half, k0) | Looked(sp, 7, half, k1))
  }

  function Looked(sp: tables, i: nat, half: word, key: word): word
    requires i < 8
  {
    sp[i][Address(i, half, key) as int]
  }

  /** Table i is looked up in a round at exactly the six bits that the standard selects. */
  lemma RoundIs(sp: tables, half: word, k0: word, k1: word)
    ensures Round(sp, RotateLeft(half), k0, k1) == RotateLeft(F(sp, half, k0, k1))
  {
    hide RotateLeft, RotateRight, Turned, SixBits, Xor, Joined;
    var a, b := Looked(sp, 0, half, k0), Looked(sp, 1, half, k1);
    var c, d := Looked(sp, 2, half, k0), Looked(sp, 3, half, k1);
    var e, f := Looked(sp, 4, half, k0), Looked(sp, 5, half, k1);
    var g, h := Looked(sp, 6, half, k0), Looked(sp, 7, half, k1);
    JoinedOrder(a, b, c, d, e, f, g, h);
    RotationInverse(Joined(b, d, f, h, a, c, e, g));
    FIs(sp, half, k0, k1, a, b, c, d, e, f, g, h);
  }

  lemma FIs(sp: tables, half: word, k0: word, k1: word,
            a: word, b: word, c: word, d: word, e: word, f: word, g: word, h: word)
    requires a == Looked(sp, 0, half, k0) && b == Looked(sp, 1, half, k1) && c == Looked(sp, 2, half, k0)
    requires d == Looked(sp, 3, half, k1) && e == Looked(sp, 4, half, k0) && f == Looked(sp, 5, half, k1)
    requires g == Looked(sp, 6, half, k0) && h == Looked(sp, 7, half, k1)
    ensures F(sp, half, k0, k1) == RotateRight(a | b | c | d | e | f | g | h)
  {
    hide Looked, RotateRight;
  }

  lemma JoinedOrder(a: word, b: word, c: word, d: word, e: word, f: word, g: word, h: word)
    ensures Joined(b, d, f, h, a, c, e, g) == a | b | c | d | e | f | g | h
  {
  }

  /** The rounds of the standard on the halves L and R: R becomes the next L, and L and what the
      round makes of R the next R.  Round n uses the key words 2 n and 2 n + 1, deciphering
      from the last ones down. */
  function Rounds(sp: tables, s: schedule, x: Block, n: nat, encrypt: bool): Block
    requires n <= 16
  {
    if n == 0 then x
    else
      var y := Rounds(sp, s, x, n - 1, encrypt);
      var k := if encrypt then n - 1 else 16 - n;
      Block(y.r, Xor(y.l, F(sp, y.r, s[2 * k], s[2 * k + 1])))
  }

  function Turn(x: Block): Block {
    Block(RotateLeft(x.l), RotateLeft(x.r))
  }

  lemma TurnXor(x: word, y: word)
    ensures RotateLeft(Xor(x, y)) == Xor(RotateLeft(x), RotateLeft(y))
  {
  }

  /** Two rounds of the program are two of the standard. */
  lemma TwoAreRounds(sp: tables, s: schedule, x: Block, n: nat, encrypt: bool)
    requires n <= 14
    ensures var i := if encrypt then 2 * n else 30 - 2 * n; var j := if encrypt then 2 * n + 2 else 28 - 2 * n;
      TwoRounds(sp, s, Turn(Rounds(sp, s, x, n, encrypt)), i, j) == Turn(Rounds(sp, s, x, n + 2, encrypt))
  {
    hide Round, F, RotateLeft, Xor;
    var y, z := Rounds(sp, s, x, n, encrypt), Rounds(sp, s, x, n + 1, encrypt);
    var k, m := if encrypt then n else 15 - n, if encrypt then n + 1 else 14 - n;
    RoundIs(sp, y.r, s[2 * k], s[2 * k + 1]);
    RoundIs(sp, z.r, s[2 * m], s[2 * m + 1]);
    TurnXor(y.l, F(sp, y.r, s[2 * k], s[2 * k + 1]));
    TurnXor(z.l, F(sp, z.r, s[2 * m], s[2 * m + 1]));
  }

  lemma {:induction false} ForwardsRounds(sp: tables, s: schedule, x: Block, n: nat)
    requires n <= 8
    ensures Forwards(sp, s, Turn(x), n) == Turn(Rounds(sp, s, x, 2 * n, true))
  {
    hide TwoRounds, Rounds, Turn;
    if n == 0 {
      NoneYet(sp, s, x, true);
    } else {
      ForwardsRounds(sp, s, x, n - 1);
      TwoAreRounds(sp, s, x, 2 * n - 2, true);
    }
  }

  lemma {:induction false} BackwardsRounds(sp: tables, s: schedule, x: Block, n: nat)
    requires n <= 8
    ensures Backwards(sp, s, Turn(x), n) == Turn(Rounds(sp, s, x, 2 * n, false))
  {
    hide TwoRounds, Rounds, Turn;
    if n == 0 {
      NoneYet(sp, s, x, false);
    } else {
      BackwardsRounds(sp, s, x, n - 1);
      TwoAreRounds(sp, s, x, 2 * n - 2, false);
    }
  }

  lemma NoneYet(sp: tables, s: schedule, x: Block, encrypt: bool)
    ensures Rounds(sp, s, x, 0, encrypt) == x
  {
  }

  /** The block function is that of the standard: the initial permutation gives the halves L and
      R, sixteen rounds follow, and the block returned is the one that the initial permutation
      takes to the last R and L, in this order. */
  lemma CryptIsStandard(sp: tables, s: schedule, x: Block, encrypt: bool)
    ensures var p := Permuted(x); var z := Rounds(sp, s, Block(p.r, p.l), 16, encrypt);
      Permuted(Crypt(sp, s, x, encrypt)) == Block(z.l, z.r)
  {
    hide Permuted, Unpermuted, RotateLeft, RotateRight, Rounds, Forwards, Backwards;
    var p := Permuted(x);
    var h := Block(p.r, p.l);
    ForwardsRounds(sp, s, h, 8);
    BackwardsRounds(sp, s, h, 8);
    var z := Rounds(sp, s, h, 16, encrypt);
    RotationInverse(z.l);
    RotationInverse(z.r);
    PermutationInverse(z);
  }
}
