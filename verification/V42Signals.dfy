/** What the V.42bis encoder signals and when (test-progs/src/v42.c): the control codes of the
    standard, the width of the codes, and the decisions about the mode. */
module V42Signals {
  import opened Powers
  import opened V42Trie
  import opened V42Codec
  import V42Bits

  // ---------------------------------------------------------------- controls

  /** The control codes of ITU-T V.42 bis: in the compressed mode ETM 0 to leave it, FLUSH 1 at the
      end and STEPUP 2 for a wider code; after an escape byte ECM 0 to enter the compressed mode,
      EID 1 for the escape byte itself and RESET 2 to start over. */
  lemma Controls(e: Encoder, b: byte)
    requires e.Ok()
    ensures e.compress ==>
      var (e', codes) := Switched(e, b, ToTransparent);
      && codes == (if e.cur != 0 then Sent(e).1 else []) + [Leave(e'.c2)]
      && V42Bits.CodeOf(Leave(e'.c2)) == 0 && V42Bits.CodeOf(Flush(e'.c2)) == 1
    ensures !e.compress ==>
      && Switched(e, b, ToCompressed).1 == [Code(e.escape, 8), Code(0, 8)]
      && Switched(e, b, Restart).1 == [Code(e.escape, 8), Code(2, 8)]
      && Consumed(e, b).1 == [Code(b, 8)] + if b == e.escape then [Code(1, 8)] else []
  {
    hide Valid, Grow, Search, Add, Sent;
  }

  /** A decoder that is told to starts over, with what it has written. */
  lemma StartsOver(d: Decoder)
    requires d.Ok() && d.Decoder? && !d.compress && !d.escaped
    ensures ReceivedAll(d, [Code(d.escape, 8), Code(2, 8)]) == Decoder(NewTrie(), 0, 9, 0, false, false, d.out)
  {
    hide Passed, Copied, NewTrie;
    CommandReceived(d, 2);
  }

  /** The width for the next string is the least one, from that in use on, in which the free
      slot has a code, and each step to it is announced by the code 2 in the width before. */
  lemma WidthLeast(c2: int, free: int)
    requires 9 <= c2 <= 11 && 0 <= free < END
    ensures var w := Widened(c2, free);
      && c2 <= w <= 11 && free < Weight(w)
      && (forall v :: c2 <= v < w ==> free >= Weight(v))
      && |WidenCodes(c2, free)| == w - c2
      && forall i :: 0 <= i < w - c2 ==> WidenCodes(c2, free)[i] == Code(2, c2 + i)
  {
    if free >= Weight(c2) { WidthLeastNext(c2, free); }
  }

  lemma {:induction false} WidthLeastNext(c2: int, free: int)
    requires 9 <= c2 <= 11 && Weight(c2) <= free < END
    ensures var w := Widened(c2, free);
      && (forall v :: c2 <= v < w ==> free >= Weight(v))
      && |WidenCodes(c2, free)| == w - c2
      && forall i :: 0 <= i < w - c2 ==> WidenCodes(c2, free)[i] == Code(2, c2 + i)
    decreases 11 - c2
  {
    assert Weight(9) == 512 && Weight(10) == 1024 && Weight(11) == 2048;
    if free >= Weight(c2 + 1) { WidthLeastNext(c2 + 1, free); }
  }

  // ---------------------------------------------------------------- matches

  /** The dictionary has an entry for the string matched and b; the most recent entry may not be
      used. */
  ghost predicate Entered(e: Encoder, b: byte)
    requires e.Ok()
  {
    exists m :: FIRST <= m < END && Continues(e, m, b)
  }

  ghost predicate Continues(e: Encoder, m: int, b: byte)
    requires e.Ok() && FIRST <= m < END
  {
    Linked(e.trie, m) && m != e.trie.recent && e.trie.parent[m] == e.cur && e.trie.text[m] == Text(e) + [b]
  }

  /** A match goes on as long as the dictionary has the longer string.  When it ends, its code
      is sent in the compressed mode, in the least width that is due, and the free slot becomes
      the entry of the longer string if the match is shorter than 250 bytes. */
  lemma Longest(e: Encoder, b: byte)
    requires e.Ok() && e.cur != 0
    ensures var (e', codes) := Consumed(e, b); var t := e.trie;
      if Entered(e, b) then Text(e') == Text(e) + [b] && codes == Plain(e, b) && e'.trie == t
      else
        && Text(e') == [b]
        && codes == Plain(e, b) + (if e.compress then WidenCodes(e.c2, t.free) + [Code(e.cur, e'.c2)] else [])
        && (e.compress ==> e'.c2 == Widened(e.c2, t.free))
        && (if |Text(e)| < 250 then e'.trie.recent == t.free && e'.trie.text[t.free] == Text(e) + [b]
              && e'.trie.parent[t.free] == e.cur
            else e'.trie == t)
  {
    SearchEntered(e, b);
    if Search(e.trie, e.cur, b) != 0 {
      SearchFinds(e.trie, e.cur, b);
      hide Valid, Search, Entered;
    } else {
      AddEnters(e.trie, e.cur, b);
      RootText(Consumed(e, b).0, b);
      hide Valid, Search, Entered, Add;
    }
  }

  lemma RootText(e: Encoder, b: byte)
    requires e.Ok()
    ensures e.trie.text[b + ROOT] == [b]
  {
  }

  lemma AddEnters(t: Trie, cur: int, b: byte)
    requires Valid(t) && Linked(t, cur)
    ensures var t' := Add(t, cur, b);
      t'.recent == t.free && t'.parent[t.free] == cur && t'.text[t.free] == t.text[cur] + [b]
  {
    hide Spelled, Listed;
  }

  lemma SearchEntered(e: Encoder, b: byte)
    requires e.Ok() && e.cur != 0
    ensures Search(e.trie, e.cur, b) != 0 <==> Entered(e, b)
  {
    var n := Search(e.trie, e.cur, b);
    SearchFinds(e.trie, e.cur, b);
    if n != 0 {
      KidFound(e.trie, e.cur, b);
      SearchChild(e.trie, e.cur, b);
      hide Valid, Search;
      assert Continues(e, n, b);
    }
  }

  lemma SearchChild(t: Trie, cur: int, b: byte)
    requires Valid(t) && cur != 0 && Linked(t, cur) && Search(t, cur, b) != 0
    ensures var n := Search(t, cur, b); FIRST <= n < END && t.parent[n] == cur
  {
    hide Covered, Distinct;
    var n := Search(t, cur, b);
    assert n in t.kids[cur] && t.parent[n] == cur;
  }

  // ---------------------------------------------------------------- decisions

  /** The state of encode after the first k bytes. */
  function At(input: seq<byte>, k: nat): (e: Encoder)
    requires k <= |input|
    ensures e.Ok()
  {
    Encoded(input[..k], Steered(input[..k]).1).0
  }

  function Counts(input: seq<byte>, k: nat): Meter
    requires k <= |input|
  {
    Steered(input[..k]).0
  }

  /** The bits counted are those of the bytes since the last decision, of which there is one
      every 257 bytes. */
  lemma {:induction false} WindowIs(input: seq<byte>)
    ensures Steered(input).0.inbits == if input == [] then 0 else 8 * ((|input| - 1) % 257 + 1)
  {
    hide *;
    if input == [] {
      NoneSteered();
    } else {
      WindowIs(input[..|input| - 1]);
      WindowNext(input);
    }
  }

  lemma NoneSteered()
    ensures Steered([]) == (Meter(0, 0, 0), [])
  {
  }

  lemma WindowNext(input: seq<byte>)
    requires input != []
    ensures var w := Steered(input[..|input| - 1]).0.inbits;
      Steered(input).0.inbits == if w <= 2048 then w + 8 else 8
  {
    hide *;
    MeterNext(input);
    var k := |input| - 1;
    var (m, choices) := Steered(input[..k]);
    var e := Encoded(input[..k], choices).0;
    var (c, m1) := Measured(e, m);
    OneWindow(e, Switched(e, input[k], c).0, input[k], m);
  }

  lemma OneWindow(e: Encoder, e1: Encoder, b: byte, m: Meter)
    requires e1.Ok()
    ensures Counted(e1, b, Measured(e, m).1).inbits == if m.inbits <= 2048 then m.inbits + 8 else 8
  {
    hide Consumed, Search, Valid;
  }

  lemma MeterNext(input: seq<byte>)
    requires input != []
    ensures var k := |input| - 1; var (m, choices) := Steered(input[..k]);
      var e := Encoded(input[..k], choices).0; var (c, m1) := Measured(e, m);
      Steered(input) == (Counted(Switched(e, input[k], c).0, input[k], m1), choices + [c])
  {
    hide Encoded, Switched, Measured, Counted, Valid;
  }

  /** The decisions since encode has last started over that found compression not to pay, in
      the transparent mode. */
  function Losses(input: seq<byte>): nat {
    if input == [] then 0
    else
      var k := |input| - 1;
      if Steered(input).1[k] == Restart then 0
      else if !At(input, k).compress && k > 0 && k % 257 == 0 && Counts(input, k).outbits > 2056
      then Losses(input[..k]) + 1
      else Losses(input[..k])
  }

  lemma {:induction false} LossesCounted(input: seq<byte>)
    ensures Steered(input).0.nosqueeze == Losses(input)
  {
    hide Steered, Encoded, Switched, Consumed, Valid, Search;
    if input == [] {
      NoneSteered();
    } else {
      var most := input[..|input| - 1];
      LossesCounted(most);
      WindowIs(most);
      MeterNext(input);
    }
  }

  /** The choice before a byte, when that many bits and losses have been counted. */
  predicate Chosen(e: Encoder, bits: int, losses: int, due: bool, c: Choice) {
    && (c == ToTransparent <==> due && e.compress && bits > 2056)
    && (c == ToCompressed <==> due && !e.compress && bits <= 2056)
    && (c == Restart <==> due && !e.compress && bits > 2056 && losses >= 4 && e.c2 > 9)
  }

  /** Every 257 bytes encode compares the bits of the codes with the 2056 bits of the bytes.
      Where compression has not paid it leaves the compressed mode, or starts over when it is
      the fifth time or a later one and the codes are wider than nine bits; where it has paid it
      enters the compressed mode. */
  lemma Decisions(input: seq<byte>, k: nat)
    requires k < |input|
    ensures var due := k > 0 && k % 257 == 0;
      Chosen(At(input, k), Counts(input, k).outbits, Losses(input[..k]), due, Steered(input).1[k])
  {
    hide *;
    var next := input[..k + 1];
    assert next[..k] == input[..k] && next[k] == input[k];
    SteeredPrefix(input, k + 1);
    assert Steered(input).1[k] == Steered(next).1[k];
    LastDecision(next);
    WindowIs(input[..k]);
    LossesCounted(input[..k]);
    SameCounts(input, k);
    MeasuredIs(At(input, k), Counts(input, k), k);
  }

  lemma SameCounts(input: seq<byte>, k: nat)
    requires k <= |input|
    ensures Counts(input, k) == Steered(input[..k]).0
    ensures At(input, k) == Encoded(input[..k], Steered(input[..k]).1).0
  {
  }

  lemma LastDecision(input: seq<byte>)
    requires input != []
    ensures var k := |input| - 1; var (m, choices) := Steered(input[..k]);
      Steered(input).1[k] == Measured(Encoded(input[..k], choices).0, m).0
  {
    hide Encoded, Switched, Consumed, Measured, Valid, Search;
  }

  lemma MeasuredIs(e: Encoder, m: Meter, k: nat)
    requires m.inbits == if k == 0 then 0 else 8 * ((k - 1) % 257 + 1)
    ensures Chosen(e, m.outbits, m.nosqueeze, k > 0 && k % 257 == 0, Measured(e, m).0)
  {
    if k > 0 { assert (k - 1) % 257 == 256 <==> k % 257 == 0; }
  }
}
