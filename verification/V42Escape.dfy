/** The escape byte of the V.42bis codec (test-progs/src/v42.c): it moves on by 51 whenever it
    occurs in the data, on both sides. */
module V42Escape {
  import opened V42Trie
  import opened V42Codec
  import opened Division

  // ---------------------------------------------------------------- counting

  /** The escape byte after it has occurred k times. */
  function EscapeByte(k: nat): byte {
    51 * k % 256
  }

  /** How often the escape byte of its time occurs in the data, when it has occurred k times
      before. */
  function Occurrences(k: nat, s: seq<byte>): nat {
    if s == [] then k
    else
      var n := Occurrences(k, s[..|s| - 1]);
      if s[|s| - 1] == 51 * n % 256 then n + 1 else n
  }

  lemma Moves(k: nat)
    ensures Cycle(EscapeByte(k)) == EscapeByte(k + 1)
  {
  }

  /** The escape byte is 51 times the number of its occurrences. */
  lemma {:induction false} CycledCounts(k: nat, s: seq<byte>)
    ensures Cycled(EscapeByte(k), s) == EscapeByte(Occurrences(k, s))
  {
    if s != [] {
      CycledCounts(k, s[..|s| - 1]);
      Moves(Occurrences(k, s[..|s| - 1]));
    }
  }

  /** Its values repeat after 256 occurrences and not before. */
  lemma EscapesDistinct(j: nat, k: nat)
    ensures EscapeByte(j) == EscapeByte(k) <==> j % 256 == k % 256
  {
    Inverse(j);
    Inverse(k);
  }

  lemma Inverse(k: nat)
    ensures 251 * EscapeByte(k) % 256 == k % 256
    ensures EscapeByte(k) == EscapeByte(k % 256)
  {
    var r: int := EscapeByte(k);
    var q, u, v := 51 * k / 256, k / 256, k % 256;
    Parts(251 * r, 256, u + 50 * k - 251 * q, v);
    DivAdd(51 * u, 256, 51 * v);
    assert 51 * u * 256 + 51 * v == 51 * k;
  }

  lemma Apart(m: nat, n: nat)
    requires m < n < m + 256
    ensures m % 256 != n % 256
  {
  }

  /** So two places of the data where the escape byte occurs, with fewer than 256 such places
      from one to the next, hold different bytes. */
  lemma EscapedOnce(k: nat, s: seq<byte>, i: nat, j: nat)
    requires i < j < |s| && s[i] == EscapeByte(Occurrences(k, s[..i])) && s[j] == EscapeByte(Occurrences(k, s[..j]))
    requires Occurrences(k, s[..j]) < Occurrences(k, s[..i]) + 256
    ensures s[i] != s[j]
  {
    var m, n := Occurrences(k, s[..i]), Occurrences(k, s[..j]);
    assert s[..i + 1][..i] == s[..i];
    OccurrencesGrow(k, s, i + 1, j);
    assert EscapeByte(m) == 51 * m % 256;
    assert n > m;
    Apart(m, n);
    hide EscapeByte;
    EscapesDistinct(m, n);
  }

  lemma {:induction false} OccurrencesGrow(k: nat, s: seq<byte>, i: nat, j: nat)
    requires i <= j <= |s|
    ensures Occurrences(k, s[..i]) <= Occurrences(k, s[..j])
    decreases j
  {
    if i < j {
      OccurrencesGrow(k, s, i, j - 1);
      assert s[..j][..j - 1] == s[..j - 1];
    }
  }

  // ---------------------------------------------------------------- encode

  /** How often the escape byte has occurred since encode has last started over. */
  function Marks(input: seq<byte>, choices: seq<Choice>): nat
    requires |choices| == |input|
  {
    if input == [] then 0
    else
      var k := |input| - 1;
      var before := if Applied(Before(input, choices, k), choices[k]) == Restart then 0
                    else Marks(input[..k], choices[..k]);
      before + if input[k] == 51 * before % 256 then 1 else 0
  }

  /** After any input, for any changes of mode, the escape byte of encode is 51 times the
      number of its occurrences since the last restart. */
  lemma {:induction false} EncoderEscape(input: seq<byte>, choices: seq<Choice>)
    requires |choices| == |input|
    ensures Encoded(input, choices).0.escape == EscapeByte(Marks(input, choices))
    decreases |input|
  {
    hide Encoded, Step, EscapeByte;
    if input == [] {
      Nothing();
      NoneEncoded();
    } else {
      var k := |input| - 1;
      var e, c := Encoded(input[..k], choices[..k]).0, Applied(Before(input, choices, k), choices[k]);
      EncoderEscape(input[..k], choices[..k]);
      var m := if c == Restart then 0 else Marks(input[..k], choices[..k]);
      LastStep(input, choices);
      StepEscape(e, input[k], c);
      Nothing();
      Moves(m);
      EscapeIs(m);
    }
  }

  lemma NoneEncoded()
    ensures Encoded([], []) == (NewEncoder(), [])
  {
  }

  lemma LastStep(input: seq<byte>, choices: seq<Choice>)
    requires 0 < |input| == |choices|
    ensures var k := |input| - 1; var e := Encoded(input[..k], choices[..k]).0;
      && e == Before(input, choices, k)
      && Encoded(input, choices).0 == Step(e, input[k], Applied(e, choices[k])).0
  {
    hide Step, Applied, Valid;
  }

  lemma EscapeIs(k: nat)
    ensures EscapeByte(k) == 51 * k % 256
  {
  }

  lemma Nothing()
    ensures EscapeByte(0) == 0 == NewEncoder().escape
  {
  }

  lemma StepEscape(e: Encoder, b: byte, c: Choice)
    requires e.Ok() && Possible(e, c)
    ensures var x := if c == Restart then 0 else e.escape;
      Step(e, b, c).0.escape == if b == x then Cycle(x) else x
  {
    hide Valid, Grow, Search, Add, Sent, Widened, WidenCodes, Cycle;
  }

  // ---------------------------------------------------------------- decode

  /** Whether a token makes the decoder start over. */
  predicate Resets(d: Decoder, token: Token) {
    d.Decoder? && !d.compress && d.escaped && token == Code(2, 8)
  }

  /** How much had been written when decode last started over. */
  function Since(tokens: seq<Token>): nat {
    if tokens == [] then 0
    else
      var most, last := tokens[..|tokens| - 1], tokens[|tokens| - 1];
      var d := ReceivedAll(NewDecoder(), most);
      if Resets(d, last) then |d.out| else Since(most)
  }

  /** After any tokens, the escape byte of decode is 51 times the number of its occurrences in
      what has been written since the last restart. */
  lemma DecoderEscape(tokens: seq<Token>)
    ensures var d := ReceivedAll(NewDecoder(), tokens);
      d.Decoder? ==> Since(tokens) <= |d.out| && d.escape == EscapeByte(Occurrences(0, d.out[Since(tokens)..]))
  {
    hide ReceivedAll, Cycled, EscapeByte;
    DecoderCycled(tokens);
    var d := ReceivedAll(NewDecoder(), tokens);
    Nothing();
    if d.Decoder? { CycledCounts(0, d.out[Since(tokens)..]); }
  }

  lemma {:induction false} DecoderCycled(tokens: seq<Token>)
    ensures var d := ReceivedAll(NewDecoder(), tokens);
      d.Decoder? ==> Since(tokens) <= |d.out| && d.escape == Cycled(0, d.out[Since(tokens)..])
  {
    hide Received, Cycled, Resets;
    if tokens == [] {
      assert ReceivedAll(NewDecoder(), []) == NewDecoder();
      Unmoved(0);
    } else {
      var most, last := tokens[..|tokens| - 1], tokens[|tokens| - 1];
      DecoderCycled(most);
      var d := ReceivedAll(NewDecoder(), most);
      if Received(d, last).Decoder? {
        StaysLost(d, last);
        ReceivedCycled(d, last, Since(most));
      }
    }
  }

  lemma Unmoved(escape: byte)
    ensures Cycled(escape, []) == escape
  {
  }

  lemma StaysLost(d: Decoder, token: Token)
    requires d.Ok() && Received(d, token).Decoder?
    ensures d.Decoder?
  {
  }

  lemma ReceivedCycled(d: Decoder, token: Token, n: nat)
    requires d.Ok() && d.Decoder? && n <= |d.out| && d.escape == Cycled(0, d.out[n..])
    ensures var d' := Received(d, token); var n' := if Resets(d, token) then |d.out| else n;
      d'.Decoder? ==> n' <= |d'.out| && d'.escape == Cycled(0, d'.out[n'..])
  {
    hide Valid, Search, Add, Grow, Linked, Cycled;
    var d' := Received(d, token);
    Unmoved(0);
    if d'.Decoder? {
      if Resets(d, token) {
        assert d'.out == d.out && d'.out[|d.out|..] == [];
      } else {
        var s := ReceivedMore(d, token);
        assert d'.out[n..] == d.out[n..] + s;
        CycledConcat(0, d.out[n..], s);
      }
    }
  }

  /** What a token makes decode write moves the escape byte as it says. */
  lemma {:induction false} ReceivedMore(d: Decoder, token: Token) returns (s: seq<byte>)
    requires d.Ok() && d.Decoder? && Received(d, token).Decoder? && !Resets(d, token)
    ensures var d' := Received(d, token); d'.out == d.out + s && d'.escape == Cycled(d.escape, s)
  {
    hide Valid, Search, Add, Grow, Linked, Cycled;
    Unmoved(d.escape);
    var d' := Received(d, token);
    s := [];
    if d.compress {
      if token.Code? && token.value != 2 { s := CopiedMore(d, token.value); }
    } else if d.escaped {
      if token.value == 1 {
        s := [d.escape];
        OneByte(d.escape, d.escape);
      }
    } else if token.value != d.escape {
      s := [token.value];
      OneByte(d.escape, token.value);
    }
  }

  lemma {:induction false} CopiedMore(d: Decoder, code: int) returns (s: seq<byte>)
    requires d.Ok() && d.Decoder? && Copied(d, code).Decoder?
    ensures var d' := Copied(d, code); d'.out == d.out + s && d'.escape == Cycled(d.escape, s)
  {
    s := d.trie.text[code];
  }

  lemma OneByte(escape: byte, b: byte)
    ensures Cycled(escape, [b]) == if b == escape then Cycle(escape) else escape
  {
    CycledNext(escape, [], b);
    assert [] + [b] == [b];
    Unmoved(escape);
  }

  /** The byte 0 twice at the start: it is the escape byte the first time, and marked, and is
      not the second time. */
  lemma TwoZeros()
    ensures Stream([0, 0], [Stay, Stay]) == [Code(0, 8), Code(1, 8), Code(0, 8)]
  {
    hide Valid, Search, Add, Step;
    var e0 := NewEncoder();
    var e1, e2 := Step(e0, 0, Stay).0, Step(Step(e0, 0, Stay).0, 0, Stay).0;
    PlainZero(e0);
    PlainZero(e1);
    StepEscape(e0, 0, Stay);
    assert [0][..0] == [] && [Stay][..0] == [] && [0, 0][..1] == [0] && [Stay, Stay][..1] == [Stay];
    assert Encoded([], []) == (e0, []);
    EncodedOne(0);
    EncodedTwo(0, 0);
    assert Cycle(0) == 51;
  }

  lemma EncodedOne(b: byte)
    ensures Encoded([b], [Stay]) == Step(NewEncoder(), b, Stay)
  {
    hide Valid, Step;
    assert [b][..0] == [] && [Stay][..0] == [];
    assert Encoded([], []) == (NewEncoder(), []);
    assert [] + Step(NewEncoder(), b, Stay).1 == Step(NewEncoder(), b, Stay).1;
  }

  lemma EncodedTwo(b: byte, c: byte)
    ensures var (e, sent) := Step(NewEncoder(), b, Stay); var (e', more) := Step(e, c, Stay);
      Encoded([b, c], [Stay, Stay]) == (e', sent + more)
  {
    hide Valid, Step;
    EncodedOne(b);
    assert [b, c][..1] == [b] && [Stay, Stay][..1] == [Stay];
  }

  lemma PlainZero(e: Encoder)
    requires e.Ok() && !e.compress
    ensures var (e', codes) := Step(e, 0, Stay);
      codes == [Code(0, 8)] + (if e.escape == 0 then [Code(1, 8)] else []) && !e'.compress
  {
    hide Valid, Search, Add;
  }
}
