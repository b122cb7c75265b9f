/** The table-driven CRC and the bitwise one that it stands for (test-progs/src/crc.c). */
module Crc {

  const POLYNOMIAL: bv16 := 4129

  function Xor(x: bv16, y: bv16): bv16 {
    x ^ y
  }

  /** A byte in the high or the low half of a register, and the halves. */
  function Up(b: bv8): bv16 {
    (b as bv16) << 8
  }

  function Widen(b: bv8): bv16 {
    b as bv16
  }

  function High(x: bv16): bv8 {
    (x >> 8) as bv8
  }

  function Low(x: bv16): bv8 {
    (x & 0xFF) as bv8
  }

  /** One bit of the register shifted out. */
  function Step(x: bv16): bv16 {
    if x & 0x8000 != 0 then Xor(x << 1, POLYNOMIAL) else x << 1
  }

  function Steps(x: bv16, n: nat): bv16 {
    if n == 0 then x else Step(Steps(x, n - 1))
  }

  /** icrc1: one byte into the register, bit by bit. */
  function Crc1(crc: bv16, b: bv8): bv16 {
    Steps(Xor(crc, Up(b)), 8)
  }

  /** The bitwise CRC of a message. */
  function Fold(crc: bv16, bytes: seq<bv8>): bv16 {
    if bytes == [] then crc else Crc1(Fold(crc, bytes[..|bytes| - 1]), bytes[|bytes| - 1])
  }

  lemma {:induction false} FoldConcat(crc: bv16, a: seq<bv8>, b: seq<bv8>)
    ensures Fold(crc, a + b) == Fold(Fold(crc, a), b)
  {
    hide Crc1;
    if b == [] {
      assert a + b == a;
    } else {
      assert (a + b)[..|a + b| - 1] == a + b[..|b| - 1];
      FoldConcat(crc, a, b[..|b| - 1]);
    }
  }

  // ---------------------------------------------------------------- the table

  lemma ShiftXor(x: bv16, y: bv16)
    ensures Xor(x, y) << 1 == Xor(x << 1, y << 1)
  {
  }

  lemma TopXor(x: bv16, y: bv16)
    ensures Xor(x, y) & 0x8000 != 0 <==> (x & 0x8000 != 0) != (y & 0x8000 != 0)
  {
  }

  lemma XorRegroups(x: bv16, y: bv16, p: bv16)
    ensures Xor(Xor(x, y), p) == Xor(Xor(x, p), y) == Xor(x, Xor(y, p))
    ensures Xor(Xor(x, p), Xor(y, p)) == Xor(x, y)
  {
  }

  lemma StepLinear(x: bv16, y: bv16)
    ensures Step(Xor(x, y)) == Xor(Step(x), Step(y))
  {
    hide Xor;
    ShiftXor(x, y);
    TopXor(x, y);
    XorRegroups(x << 1, y << 1, POLYNOMIAL);
  }

  lemma StepsNext(x: bv16, n: nat)
    ensures Steps(x, 0) == x && (n > 0 ==> Steps(x, n) == Step(Steps(x, n - 1)))
  {
    hide Step;
  }

  lemma {:induction false} StepsLinear(x: bv16, y: bv16, n: nat)
    ensures Steps(Xor(x, y), n) == Xor(Steps(x, n), Steps(y, n))
  {
    hide Step, Steps, Xor;
    StepsNext(x, n);
    StepsNext(y, n);
    StepsNext(Xor(x, y), n);
    if n > 0 {
      StepsLinear(x, y, n - 1);
      StepLinear(Steps(x, n - 1), Steps(y, n - 1));
    }
  }

  function EightSteps(x: bv16): bv16 {
    Step(Step(Step(Step(Step(Step(Step(Step(x))))))))
  }

  lemma StepsEight(x: bv16)
    ensures Steps(x, 8) == EightSteps(x)
  {
    hide Step, Steps;
    StepsNext(x, 1);
    StepsNext(x, 2);
    StepsNext(x, 3);
    StepsNext(x, 4);
    StepsNext(x, 5);
    StepsNext(x, 6);
    StepsNext(x, 7);
    StepsNext(x, 8);
  }

  /** A byte low in the register has no bit to lose in eight steps. */
  lemma LowByte(b: bv8)
    ensures EightSteps(Widen(b)) == Up(b)
  {
  }

  /** The entry of the table for a byte. */
  function Entry(b: bv8): bv16 {
    Crc1(Up(b), 0)
  }

  /** One byte of the table-driven loop. */
  function TableStep(crc: bv16, b: bv8): bv16 {
    Xor(Entry(b ^ High(crc)), Up(Low(crc)))
  }

  lemma SplitRegister(crc: bv16, b: bv8)
    ensures Xor(crc, Up(b)) == Xor(Up(b ^ High(crc)), Widen(Low(crc)))
  {
    hide Xor, Up, Widen, High, Low;
    Halves(crc);
    UpXor(b, High(crc));
    XorRegroups(Up(High(crc)), Widen(Low(crc)), Up(b));
    XorSwaps(Up(b), Up(High(crc)));
  }

  lemma Halves(x: bv16)
    ensures x == Xor(Up(High(x)), Widen(Low(x)))
  {
  }

  lemma UpXor(a: bv8, b: bv8)
    ensures Up(a ^ b) == Xor(Up(a), Up(b))
  {
  }

  lemma XorSwaps(x: bv16, y: bv16)
    ensures Xor(x, y) == Xor(y, x)
  {
  }

  lemma NothingIn(x: bv16)
    ensures Xor(x, Up(0)) == x
  {
  }

  /** The table step does what the eight bit steps do. */
  lemma TableStepIs(crc: bv16, b: bv8)
    ensures TableStep(crc, b) == Crc1(crc, b)
  {
    hide Steps, High, Low, Up, Widen, Xor, EightSteps;
    var t, low := b ^ High(crc), Low(crc);
    SplitRegister(crc, b);
    NothingIn(Up(t));
    StepsLinear(Up(t), Widen(low), 8);
    StepsEight(Widen(low));
    LowByte(low);
  }

  // ---------------------------------------------------------------- bit reversal

  /** Bit k of the result is bit 7 - k of the byte. */
  function RevByte(b: bv8): bv8 {
    ((b & 0x01) << 7) | ((b & 0x02) << 5) | ((b & 0x04) << 3) | ((b & 0x08) << 1)
    | ((b & 0x10) >> 1) | ((b & 0x20) >> 3) | ((b & 0x40) >> 5) | ((b & 0x80) >> 7)
  }

  /** A word reversed: its bytes reversed and exchanged. */
  function RevWord(x: bv16): bv16 {
    Widen(RevByte(High(x))) | Up(RevByte(Low(x)))
  }

  lemma RevWordTwice(x: bv16)
    ensures RevWord(RevWord(x)) == x
  {
  }

  /** The table it: a half byte reversed. */
  const NIBBLES: seq<bv8> := [0, 8, 4, 12, 2, 10, 6, 14, 1, 9, 5, 13, 3, 11, 7, 15]

  function RevNibble(n: bv8): bv8 {
    ((n & 1) << 3) | ((n & 2) << 1) | ((n & 4) >> 1) | ((n & 8) >> 3)
  }

  lemma NibbleTable(n: bv8)
    requires n < 16
    ensures 0 <= n as int < 16 && NIBBLES[n as int] == RevNibble(n)
  {
    if n == 0 {} else if n == 1 {} else if n == 2 {} else if n == 3 {}
    else if n == 4 {} else if n == 5 {} else if n == 6 {} else if n == 7 {}
    else if n == 8 {} else if n == 9 {} else if n == 10 {} else if n == 11 {}
    else if n == 12 {} else if n == 13 {} else if n == 14 {} else {}
  }

  lemma NibblesReverse(b: bv8)
    ensures (RevNibble(b & 0xF) << 4) | RevNibble(b >> 4) == RevByte(b) && b & 0xF < 16 && b >> 4 < 16
  {
  }

  // ---------------------------------------------------------------- icrc

  /** The bytes of a message as they enter the register. */
  function Entering(bytes: seq<bv8>, reversed: bool): (r: seq<bv8>)
    ensures |r| == |bytes|
  {
    if bytes == [] then []
    else
      var b := bytes[|bytes| - 1];
      Entering(bytes[..|bytes| - 1], reversed) + [if reversed then RevByte(b) else b]
  }

  lemma {:induction false} EnteringConcat(a: seq<bv8>, b: seq<bv8>, reversed: bool)
    ensures Entering(a + b, reversed) == Entering(a, reversed) + Entering(b, reversed)
  {
    hide RevByte;
    if b == [] {
      assert a + b == a;
    } else {
      assert (a + b)[..|a + b| - 1] == a + b[..|b| - 1];
      EnteringConcat(a, b[..|b| - 1], reversed);
    }
  }

  /** Where the register starts: from jinit in both bytes, or from a CRC so far. */
  function Initial(crc: bv16, jinit: int, reversed: bool): bv16 {
    if jinit >= 0 then var j := (jinit % 256) as bv8; Widen(j) | Up(j)
    else if reversed then RevWord(crc) else crc
  }

  /** icrc by its meaning: the bitwise CRC of the bytes, reversed on the way in and out when
      jrev is negative. */
  function Icrc(crc: bv16, bytes: seq<bv8>, jinit: int, jrev: int): bv16 {
    var r := Fold(Initial(crc, jinit, jrev < 0), Entering(bytes, jrev < 0));
    if jrev >= 0 then r else RevWord(r)
  }

  /** Going on with jinit = -1 on the rest of a message is the same as one call. */
  lemma Continues(crc: bv16, a: seq<bv8>, b: seq<bv8>, jinit: int, jrev: int)
    ensures Icrc(Icrc(crc, a, jinit, jrev), b, -1, jrev) == Icrc(crc, a + b, jinit, jrev)
  {
    hide RevWord, Fold, Entering, Crc1, Widen, Up;
    var start := Initial(crc, jinit, jrev < 0);
    FoldConcat(start, Entering(a, jrev < 0), Entering(b, jrev < 0));
    EnteringConcat(a, b, jrev < 0);
    RevWordTwice(Fold(start, Entering(a, jrev < 0)));
  }

  /** icrc1. */
  method BitwiseCrc(crc: bv16, onech: bv8) returns (ans: bv16)
    ensures ans == Crc1(crc, onech)
  {
    hide Step, Up, Xor;
    ans := Xor(crc, Up(onech));
    ghost var x := ans;
    for i := 0 to 8
      invariant ans == Steps(x, i)
    {
      if ans & 0x8000 != 0 {
        ans := Xor(ans << 1, POLYNOMIAL);
      } else {
        ans := ans << 1;
      }
      StepIs(Steps(x, i));
    }
  }

  lemma StepIs(x: bv16)
    ensures Step(x) == if x & 0x8000 != 0 then Xor(x << 1, POLYNOMIAL) else x << 1
  {
  }

  /** j++ on the 16 bits of the loop counter of icrc. */
  function NextCount(j: nat): nat {
    (j + 1) % 0x1_0000
  }

  /** The counter before pass i of the loop. */
  function Counter(i: nat): (j: nat)
    ensures j < 0x1_0000
  {
    if i == 0 then 1 else NextCount(Counter(i - 1))
  }

  /** The loop over a message comes to an end: the counter goes beyond the length. */
  ghost predicate LoopEnds(len: nat) {
    exists i: nat :: Counter(i) > len
  }

  /** It does so exactly below 65535 bytes: no value of the counter is beyond a longer one. */
  lemma CounterEnds(len: nat)
    ensures LoopEnds(len) <==> len < 65535
  {
    if len < 65535 { CounterIs(len); }
  }

  lemma {:induction false} CounterIs(i: nat)
    requires i < 65535
    ensures Counter(i) == i + 1
  {
    if i > 0 { CounterIs(i - 1); }
  }

  /** The static tables of icrc, filled at the first call. */
  class Tables {
    const icrctb: array<bv16>
    const rchr: array<bv8>
    var init: bool

    ghost predicate Ready()
      reads this, icrctb, rchr
    {
      && icrctb.Length == 256 && rchr.Length == 256
      && (init ==> forall t: bv8 :: icrctb[t as int] == Entry(t) && rchr[t as int] == RevByte(t))
    }

    constructor ()
      ensures Ready() && fresh(icrctb) && fresh(rchr)
    {
      icrctb := new bv16[256](i => 0);
      rchr := new bv8[256](i => 0);
      init := false;
    }

    /** The first call. */
    method Fill()
      requires Ready()
      modifies this, icrctb, rchr
      ensures Ready() && init
    {
      hide Entry, RevByte, RevNibble;
      if !init {
        init := true;
        var j := 0;
        while j <= 255
          invariant 0 <= j <= 256 && init
          invariant forall t: bv8 :: (t as int) < j ==> icrctb[t as int] == Entry(t) && rchr[t as int] == RevByte(t)
        {
          var t := j as bv8;
          NibblesReverse(t);
          NibbleTable(t & 0xF);
          NibbleTable(t >> 4);
          var e := TableEntry(t);
          icrctb[j] := e;
          rchr[j] := (NIBBLES[(t & 0xF) as int] << 4) | NIBBLES[(t >> 4) as int];
          j := j + 1;
        }
      }
    }

    method TableEntry(t: bv8) returns (e: bv16)
      ensures e == Entry(t)
    {
      hide Crc1;
      e := BitwiseCrc(Up(t), 0);
    }

    /** RevWord by the table. */
    method Reverse(x: bv16) returns (r: bv16)
      requires Ready() && init
      ensures r == RevWord(x)
    {
      hide RevByte, Entry, Widen, Up, High, Low;
      r := Widen(rchr[High(x) as int]) | Up(rchr[Low(x) as int]);
    }

    /** One byte of the loop of icrc. */
    method Advance(cword: bv16, b: bv8, jrev: int) returns (r: bv16)
      requires Ready() && init
      ensures r == Crc1(cword, if jrev < 0 then RevByte(b) else b)
    {
      hide RevByte, Entry, Crc1, High, Low, Up, Xor;
      var e := if jrev < 0 then rchr[b as int] else b;
      var t := e ^ High(cword);
      TableStepIs(cword, e);
      r := Xor(icrctb[t as int], Up(Low(cword)));
    }

    /** icrc, for every length at which its loop ends; lin[0] is not part of the message. */
    method Crc(crc: bv16, lin: array<bv8>, len: nat, jinit: int, jrev: int) returns (r: bv16)
      requires Ready() && LoopEnds(len) && len < lin.Length && -0x8000 <= jinit < 0x8000 && lin != rchr
      modifies this, icrctb, rchr
      ensures Ready() && r == Icrc(crc, lin[1..len + 1], jinit, jrev)
    {
      hide RevByte, Entry, RevWord, High, Crc1, Up, Widen, Fold, Entering, LoopEnds;
      CounterEnds(len);
      Fill();
      var cword := crc;
      if jinit >= 0 {
        cword := Widen((jinit % 256) as bv8) | Up((jinit % 256) as bv8);
      } else if jrev < 0 {
        cword := Reverse(cword);
      }
      ghost var start, bytes := cword, lin[1..len + 1];
      FoldNone(start, bytes, jrev < 0);
      var j := 1;
      while j <= len
        invariant 1 <= j <= len + 1 && Ready() && init && bytes == lin[1..len + 1]
        invariant cword == Fold(start, Entering(bytes[..j - 1], jrev < 0))
        decreases len - j
      {
        FoldNext(start, bytes, j - 1, jrev < 0);
        cword := Advance(cword, lin[j], jrev);
        j := NextCount(j);
      }
      assert bytes[..len] == bytes;
      if jrev >= 0 {
        r := cword;
      } else {
        r := Reverse(cword);
      }
    }
  }

  lemma FoldNone(start: bv16, bytes: seq<bv8>, reversed: bool)
    ensures Fold(start, Entering(bytes[..0], reversed)) == start
  {
  }

  lemma FoldNext(start: bv16, bytes: seq<bv8>, k: nat, reversed: bool)
    requires k < |bytes|
    ensures Fold(start, Entering(bytes[..k + 1], reversed))
      == Crc1(Fold(start, Entering(bytes[..k], reversed)), if reversed then RevByte(bytes[k]) else bytes[k])
  {
    hide Crc1, RevByte;
    assert bytes[..k + 1][..k] == bytes[..k];
    var e := Entering(bytes[..k + 1], reversed);
    assert e[..|e| - 1] == Entering(bytes[..k], reversed);
  }
}
