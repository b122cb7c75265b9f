/** The DES block function (test-progs/src/des.c): deciphering undoes enciphering, for every
    schedule and whatever the tables of the rounds. */
module Des {

  type word = bv32

  /** The eight tables des_SPtrans. */
  type tables = t: seq<seq<word>> | |t| == 8 && forall i :: 0 <= i < 8 ==> |t[i]| == 64
    witness seq(8, _ => seq(64, _ => 0))

  /** The 32 words of a key schedule. */
  type schedule = s: seq<word> | |s| == 32 witness seq(32, _ => 0)

  /** The two halves l and r. */
  datatype Block = Block(l: word, r: word)

  function Xor(x: word, y: word): word {
    x ^ y
  }

  lemma XorTwice(x: word, y: word)
    ensures Xor(Xor(x, y), y) == x
  {
  }

  // ---------------------------------------------------------------- permutations

  function ShiftedUp(x: word, n: word): word
    requires n <= 16
  {
    x << n
  }

  function ShiftedDown(x: word, n: word): word
    requires n <= 16
  {
    x >> n
  }

  function Under(x: word, mask: word): word {
    x & mask
  }

  /** The bits that differ, those an exchange moves. */
  function Moved(a: word, b: word, n: word, mask: word): word
    requires n <= 16
  {
    Under(Xor(ShiftedDown(a, n), b), mask)
  }

  /** Exchanges the bits of b under the mask with those of a that lie n places higher. */
  function Exchange(a: word, b: word, n: word, mask: word): (word, word)
    requires n <= 16
  {
    var t := Moved(a, b, n, mask);
    (Xor(a, ShiftedUp(t, n)), Xor(b, t))
  }

  /** The exchanges of the initial and final permutation. */
  predicate Used(n: word, mask: word) {
    || (n == 4 && mask == 0x0f0f_0f0f) || (n == 16 && mask == 0x0000_ffff) || (n == 2 && mask == 0x3333_3333)
    || (n == 8 && mask == 0x00ff_00ff) || (n == 1 && mask == 0x5555_5555)
  }

  lemma ExchangeTwice(a: word, b: word, n: word, mask: word)
    requires Used(n, mask)
    ensures var (c, d) := Exchange(a, b, n, mask); Exchange(c, d, n, mask) == (a, b)
  {
    hide Used, Xor, Moved, Under, ShiftedUp, ShiftedDown;
    UsedShift(n, mask);
    var t := Moved(a, b, n, mask);
    var c, d := Xor(a, ShiftedUp(t, n)), Xor(b, t);
    MovedAgain(a, b, n, mask);
    XorTwice(a, ShiftedUp(t, n));
    XorTwice(b, t);
  }

  lemma UsedShift(n: word, mask: word)
    requires Used(n, mask)
    ensures n <= 16
  {
  }

  /** The same bits differ after an exchange. */
  lemma MovedAgain(a: word, b: word, n: word, mask: word)
    requires Used(n, mask) && n <= 16
    ensures var t := Moved(a, b, n, mask); Moved(Xor(a, ShiftedUp(t, n)), Xor(b, t), n, mask) == t
  {
    hide Used, Xor, Under, ShiftedUp, ShiftedDown;
    var t := Moved(a, b, n, mask);
    UnderTwice(Xor(ShiftedDown(a, n), b), mask);
    ShiftedBack(t, n, mask);
    DownXor(a, ShiftedUp(t, n), n, mask);
    XorPairs(ShiftedDown(a, n), b, t);
  }

  lemma UnderTwice(x: word, mask: word)
    ensures Under(Under(x, mask), mask) == Under(x, mask)
  {
  }

  lemma XorCommutes(x: word, y: word)
    ensures Xor(x, y) == Xor(y, x)
  {
  }

  lemma XorAssociates(x: word, y: word, z: word)
    ensures Xor(Xor(x, y), z) == Xor(x, Xor(y, z))
  {
  }

  lemma XorPairs(x: word, y: word, t: word)
    ensures Xor(Xor(x, t), Xor(y, t)) == Xor(x, y)
  {
    hide Xor;
    XorCommutes(y, t);
    XorAssociates(Xor(x, t), t, y);
    XorTwice(x, t);
  }

  /** Nothing under a mask is lost above the word. */
  lemma ShiftedBack(t: word, n: word, mask: word)
    requires Used(n, mask) && n <= 16 && Under(t, mask) == t
    ensures ShiftedDown(ShiftedUp(t, n), n) == t
  {
    hide Under, ShiftedUp, ShiftedDown;
    if n == 4 { Back4(t); } else if n == 16 { Back16(t); } else if n == 2 { Back2(t); }
    else if n == 8 { Back8(t); } else { Back1(t); }
  }

  lemma Back4(t: word)
    requires Under(t, 0x0f0f_0f0f) == t
    ensures ShiftedDown(ShiftedUp(t, 4), 4) == t
  {
  }

  lemma Back16(t: word)
    requires Under(t, 0x0000_ffff) == t
    ensures ShiftedDown(ShiftedUp(t, 16), 16) == t
  {
  }

  lemma Back2(t: word)
    requires Under(t, 0x3333_3333) == t
    ensures ShiftedDown(ShiftedUp(t, 2), 2) == t
  {
  }

  lemma Back8(t: word)
    requires Under(t, 0x00ff_00ff) == t
    ensures ShiftedDown(ShiftedUp(t, 8), 8) == t
  {
  }

  lemma Back1(t: word)
    requires Under(t, 0x5555_5555) == t
    ensures ShiftedDown(ShiftedUp(t, 1), 1) == t
  {
  }

  lemma DownXor(x: word, y: word, n: word, mask: word)
    requires Used(n, mask) && n <= 16
    ensures ShiftedDown(Xor(x, y), n) == Xor(ShiftedDown(x, n), ShiftedDown(y, n))
  {
    hide Xor, ShiftedDown;
    if n == 4 { DownXor4(x, y); } else if n == 16 { DownXor16(x, y); } else if n == 2 { DownXor2(x, y); }
    else if n == 8 { DownXor8(x, y); } else { DownXor1(x, y); }
  }

  lemma DownXor4(x: word, y: word)
    ensures ShiftedDown(Xor(x, y), 4) == Xor(ShiftedDown(x, 4), ShiftedDown(y, 4))
  {
  }

  lemma DownXor16(x: word, y: word)
    ensures ShiftedDown(Xor(x, y), 16) == Xor(ShiftedDown(x, 16), ShiftedDown(y, 16))
  {
  }

  lemma DownXor2(x: word, y: word)
    ensures ShiftedDown(Xor(x, y), 2) == Xor(ShiftedDown(x, 2), ShiftedDown(y, 2))
  {
  }

  lemma DownXor8(x: word, y: word)
    ensures ShiftedDown(Xor(x, y), 8) == Xor(ShiftedDown(x, 8), ShiftedDown(y, 8))
  {
  }

  lemma DownXor1(x: word, y: word)
    ensures ShiftedDown(Xor(x, y), 1) == Xor(ShiftedDown(x, 1), ShiftedDown(y, 1))
  {
  }

  /** An exchange with r above, or with l above. */
  function Down(x: Block, n: word, mask: word): Block
    requires n <= 16
  {
    var (r, l) := Exchange(x.r, x.l, n, mask);
    Block(l, r)
  }

  function Up(x: Block, n: word, mask: word): Block
    requires n <= 16
  {
    var (l, r) := Exchange(x.l, x.r, n, mask);
    Block(l, r)
  }

  lemma MovesTwice(x: Block, n: word, mask: word)
    requires Used(n, mask)
    ensures Down(Down(x, n, mask), n, mask) == x && Up(Up(x, n, mask), n, mask) == x
  {
    hide Exchange;
    ExchangeTwice(x.r, x.l, n, mask);
    ExchangeTwice(x.l, x.r, n, mask);
  }

  function Permuted(x: Block): Block {
    var x1 := Down(x, 4, 0x0f0f_0f0f);
    var x2 := Up(x1, 16, 0x0000_ffff);
    var x3 := Down(x2, 2, 0x3333_3333);
    var x4 := Up(x3, 8, 0x00ff_00ff);
    Down(x4, 1, 0x5555_5555)
  }

  function Unpermuted(x: Block): Block {
    var x1 := Down(x, 1, 0x5555_5555);
    var x2 := Up(x1, 8, 0x00ff_00ff);
    var x3 := Down(x2, 2, 0x3333_3333);
    var x4 := Up(x3, 16, 0x0000_ffff);
    Down(x4, 4, 0x0f0f_0f0f)
  }

  /** The final permutation is the inverse of the initial one. */
  lemma PermutationInverse(x: Block)
    ensures Unpermuted(Permuted(x)) == x && Permuted(Unpermuted(x)) == x
  {
    hide Down, Up;
    var a1 := Down(x, 4, 0x0f0f_0f0f);
    var a2 := Up(a1, 16, 0x0000_ffff);
    var a3 := Down(a2, 2, 0x3333_3333);
    var a4 := Up(a3, 8, 0x00ff_00ff);
    MovesTwice(a4, 1, 0x5555_5555);
    MovesTwice(a3, 8, 0x00ff_00ff);
    MovesTwice(a2, 2, 0x3333_3333);
    MovesTwice(a1, 16, 0x0000_ffff);
    MovesTwice(x, 4, 0x0f0f_0f0f);
    var b1 := Down(x, 1, 0x5555_5555);
    var b2 := Up(b1, 8, 0x00ff_00ff);
    var b3 := Down(b2, 2, 0x3333_3333);
    var b4 := Up(b3, 16, 0x0000_ffff);
    MovesTwice(b4, 4, 0x0f0f_0f0f);
    MovesTwice(b3, 16, 0x0000_ffff);
    MovesTwice(b2, 2, 0x3333_3333);
    MovesTwice(b1, 8, 0x00ff_00ff);
    MovesTwice(x, 1, 0x5555_5555);
  }

  function RotateLeft(x: word): word {
    (x << 1) | (x >> 31)
  }

  function RotateRight(x: word): word {
    (x >> 1) | (x << 31)
  }

  lemma RotationInverse(x: word)
    ensures RotateRight(RotateLeft(x)) == x && RotateLeft(RotateRight(x)) == x
  {
  }

  // ---------------------------------------------------------------- rounds

  /** Six bits from n up. */
  function SixBits(x: word, n: nat): (y: word)
    requires n <= 24
    ensures y < 64
  {
    (x >> n) & 0x3f
  }

  /** Rotated right by four. */
  function Turned(x: word): word {
    (x >> 4) + (x << 28)
  }

  function Entry(sp: tables, i: nat, a: word): word
    requires i < 8 && a < 64
  {
    sp[i][a as int]
  }

  function Joined(a: word, b: word, c: word, d: word, e: word, f: word, g: word, h: word): word {
    a | b | c | d | e | f | g | h
  }

  /** The function of a round, from one half and two words of the schedule. */
  function Round(sp: tables, x: word, k0: word, k1: word): word {
    var u, t := Xor(x, k0), Turned(Xor(x, k1));
    Joined(Entry(sp, 1, SixBits(t, 0)), Entry(sp, 3, SixBits(t, 8)), Entry(sp, 5, SixBits(t, 16)),
           Entry(sp, 7, SixBits(t, 24)), Entry(sp, 0, SixBits(u, 0)), Entry(sp, 2, SixBits(u, 8)),
           Entry(sp, 4, SixBits(u, 16)), Entry(sp, 6, SixBits(u, 24)))
  }

  /** Two rounds with the words of the schedule from i on and from j on. */
  function TwoRounds(sp: tables, s: schedule, x: Block, i: nat, j: nat): Block
    requires i < 31 && j < 31
  {
    var l := Xor(x.l, Round(sp, x.r, s[i], s[i + 1]));
    Block(l, Xor(x.r, Round(sp, l, s[j], s[j + 1])))
  }

  /** The first 2 n rounds, forwards or backwards through the schedule. */
  function Forwards(sp: tables, s: schedule, x: Block, n: nat): Block
    requires n <= 8
  {
    if n == 0 then x else TwoRounds(sp, s, Forwards(sp, s, x, n - 1), 4 * n - 4, 4 * n - 2)
  }

  function Backwards(sp: tables, s: schedule, x: Block, n: nat): Block
    requires n <= 8
  {
    if n == 0 then x else TwoRounds(sp, s, Backwards(sp, s, x, n - 1), 34 - 4 * n, 32 - 4 * n)
  }

  function Swapped(x: Block): Block {
    Block(x.r, x.l)
  }

  /** Two rounds on exchanged halves undo two rounds. */
  lemma RoundsUndone(sp: tables, s: schedule, x: Block, i: nat, j: nat)
    requires i < 31 && j < 31
    ensures TwoRounds(sp, s, Swapped(TwoRounds(sp, s, x, i, j)), j, i) == Swapped(x)
  {
    hide Round, Xor;
    var l := Xor(x.l, Round(sp, x.r, s[i], s[i + 1]));
    XorTwice(x.r, Round(sp, l, s[j], s[j + 1]));
    XorTwice(x.l, Round(sp, x.r, s[i], s[i + 1]));
  }

  lemma {:induction false} BackwardsUndoes(sp: tables, s: schedule, x: Block, n: nat)
    requires n <= 8
    ensures Backwards(sp, s, Swapped(Forwards(sp, s, x, 8)), n) == Swapped(Forwards(sp, s, x, 8 - n))
  {
    hide TwoRounds, Swapped;
    if n > 0 {
      BackwardsUndoes(sp, s, x, n - 1);
      var k := 9 - n;
      RoundsUndone(sp, s, Forwards(sp, s, x, k - 1), 4 * k - 4, 4 * k - 2);
      assert 34 - 4 * n == 4 * k - 2 && 32 - 4 * n == 4 * k - 4;
    }
  }

  lemma {:induction false} ForwardsUndoes(sp: tables, s: schedule, x: Block, n: nat)
    requires n <= 8
    ensures Forwards(sp, s, Swapped(Backwards(sp, s, x, 8)), n) == Swapped(Backwards(sp, s, x, 8 - n))
  {
    hide TwoRounds, Swapped;
    if n > 0 {
      ForwardsUndoes(sp, s, x, n - 1);
      var k := 9 - n;
      RoundsUndone(sp, s, Backwards(sp, s, x, k - 1), 34 - 4 * k, 32 - 4 * k);
      assert 34 - 4 * k == 4 * n - 2 && 32 - 4 * k == 4 * n - 4;
    }
  }

  // ---------------------------------------------------------------- des_encrypt

  /** The halves rotated and exchanged before the rounds, and rotated back after them. */
  function Entered(x: Block): Block {
    Block(RotateLeft(x.r), RotateLeft(x.l))
  }

  function Leaving(x: Block): Block {
    Block(RotateRight(x.l), RotateRight(x.r))
  }

  function Crypt(sp: tables, s: schedule, x: Block, encrypt: bool): Block {
    var y := Entered(Permuted(x));
    Unpermuted(Leaving(if encrypt then Forwards(sp, s, y, 8) else Backwards(sp, s, y, 8)))
  }

  lemma EnteredLeaving(x: Block)
    ensures Entered(Leaving(x)) == Swapped(x) && Leaving(Swapped(Entered(x))) == x
  {
    hide RotateLeft, RotateRight;
    RotationInverse(x.l);
    RotationInverse(x.r);
  }

  /** Deciphering undoes enciphering and the other way round, for any tables. */
  lemma Inversion(sp: tables, s: schedule, x: Block)
    ensures Crypt(sp, s, Crypt(sp, s, x, true), false) == x
    ensures Crypt(sp, s, Crypt(sp, s, x, false), true) == x
  {
    hide Permuted, Unpermuted, Entered, Leaving, Swapped, Forwards, Backwards;
    PermutationInverse(x);
    var p := Permuted(x);
    var y := Entered(p);
    EnteredLeaving(p);
    NoRounds(sp, s, y);
    var f, b := Forwards(sp, s, y, 8), Backwards(sp, s, y, 8);
    PermutationInverse(Leaving(f));
    PermutationInverse(Leaving(b));
    EnteredLeaving(f);
    EnteredLeaving(b);
    BackwardsUndoes(sp, s, y, 8);
    ForwardsUndoes(sp, s, y, 8);
  }

  lemma NoRounds(sp: tables, s: schedule, x: Block)
    ensures Forwards(sp, s, x, 0) == x == Backwards(sp, s, x, 0)
  {
  }

  /** The loop of the rounds that encipher. */
  method Encipher(sp: tables, ks: array<word>, y: Block) returns (x: Block)
    requires ks.Length == 32
    ensures x == Forwards(sp, ks[..], y, 8)
  {
    hide Round, Xor, Forwards;
    var l, r := y.l, y.r;
    NoRounds(sp, ks[..], y);
    var i := 0;
    while i < 32
      invariant 0 <= i <= 32 && i % 4 == 0 && Block(l, r) == Forwards(sp, ks[..], y, i / 4)
    {
      ghost var n := i / 4 + 1;
      ForwardsNext(sp, ks[..], y, n);
      assert i == 4 * n - 4 && (i + 4) / 4 == n;
      l := Xor(l, Round(sp, r, ks[i + 0], ks[i + 0 + 1]));
      r := Xor(r, Round(sp, l, ks[i + 2], ks[i + 2 + 1]));
      i := i + 4;
    }
    x := Block(l, r);
  }

  /** The loop of the rounds that decipher. */
  method Decipher(sp: tables, ks: array<word>, y: Block) returns (x: Block)
    requires ks.Length == 32
    ensures x == Backwards(sp, ks[..], y, 8)
  {
    hide Round, Xor, Backwards;
    var l, r := y.l, y.r;
    NoRounds(sp, ks[..], y);
    var i := 30;
    while i > 0
      invariant -2 <= i <= 30 && (30 - i) % 4 == 0 && Block(l, r) == Backwards(sp, ks[..], y, (30 - i) / 4)
    {
      ghost var n := (30 - i) / 4 + 1;
      BackwardsNext(sp, ks[..], y, n);
      assert i == 34 - 4 * n && (30 - (i - 4)) / 4 == n;
      l := Xor(l, Round(sp, r, ks[i - 0], ks[i - 0 + 1]));
      r := Xor(r, Round(sp, l, ks[i - 2], ks[i - 2 + 1]));
      i := i - 4;
    }
    x := Block(l, r);
  }

  /** des_encrypt; the input and output may be the same array. */
  method DesEncrypt(sp: tables, input: array<word>, output: array<word>, ks: array<word>, encrypt: int)
    requires input.Length >= 2 && output.Length >= 2 && ks.Length == 32
    modifies output
    ensures Block(output[0], output[1])
      == Crypt(sp, old(ks[..]), Block(old(input[0]), old(input[1])), encrypt != 0)
    ensures output[2..] == old(output[2..])
  {
    hide Permuted, Unpermuted, RotateLeft, RotateRight, Round, Xor, Forwards, Backwards;
    var x := Permuted(Block(input[0], input[1]));
    var y := Block(RotateLeft(x.r), RotateLeft(x.l));
    if encrypt != 0 {
      y := Encipher(sp, ks, y);
    } else {
      y := Decipher(sp, ks, y);
    }
    x := Unpermuted(Block(RotateRight(y.l), RotateRight(y.r)));
    output[0] := x.l;
    output[1] := x.r;
  }

  lemma ForwardsNext(sp: tables, s: schedule, x: Block, n: nat)
    requires 0 < n <= 8
    ensures Forwards(sp, s, x, n) == TwoRounds(sp, s, Forwards(sp, s, x, n - 1), 4 * n - 4, 4 * n - 2)
  {
  }

  lemma BackwardsNext(sp: tables, s: schedule, x: Block, n: nat)
    requires 0 < n <= 8
    ensures Backwards(sp, s, x, n) == TwoRounds(sp, s, Backwards(sp, s, x, n - 1), 34 - 4 * n, 32 - 4 * n)
  {
  }
}
