/** The V.42bis encoder and decoder as state machines over codes (test-progs/src/v42.c): when
    the two stay in step, in one mode and across the changes of mode. */
module V42Codec {
  import opened Powers
  import opened V42Trie

  const LONGEST: int := 250

  /** What goes over the line: a code of some width; the code 0 that leaves the compressed
      mode, padded to a byte; the code 1 that ends the stream, padded, and left out at the
      start of a byte. */
  datatype Token = Code(value: int, size: int) | Leave(size: int) | Flush(size: int)

  /** What putcode can be given: a width it handles and a code of the program. */
  predicate TokenSized(token: Token) {
    8 <= token.size <= 11 && (token.Code? ==> 0 <= token.value < END)
  }

  predicate AllSized(tokens: seq<Token>) {
    forall i :: 0 <= i < |tokens| ==> TokenSized(tokens[i])
  }

  /** The dictionary with the string extended by b, if a search does not find it. */
  function Grow(t: Trie, cur: int, b: byte): (t': Trie)
    requires Valid(t) && (cur == 0 || Linked(t, cur))
    ensures Valid(t')
  {
    if Search(t, cur, b) == 0 then Add(t, cur, b) else t
  }

  function Cycle(escape: byte): byte {
    Byte(escape + 51)
  }

  /** The escape byte moves on whenever it occurs in the data. */
  function Cycled(escape: byte, s: seq<byte>): byte {
    if s == [] then escape
    else
      var x := Cycled(escape, s[..|s| - 1]);
      if s[|s| - 1] == x then Cycle(x) else x
  }

  lemma {:induction false} CycledConcat(escape: byte, s: seq<byte>, u: seq<byte>)
    ensures Cycled(escape, s + u) == Cycled(Cycled(escape, s), u)
  {
    if u == [] {
      assert s + u == s;
    } else {
      assert (s + u)[..|s + u| - 1] == s + u[..|u| - 1];
      CycledConcat(escape, s, u[..|u| - 1]);
    }
  }

  lemma CycledNext(escape: byte, s: seq<byte>, b: byte)
    ensures Cycled(escape, s + [b]) == var x := Cycled(escape, s); if b == x then Cycle(x) else x
  {
    assert (s + [b])[..|s + [b]| - 1] == s;
  }

  // ---------------------------------------------------------------- the encoder

  /** The variables of encode between two bytes: cur is the string matched so far, not yet
      sent in the compressed mode, and len its length. */
  datatype Encoder = Encoder(trie: Trie, cur: int, len: int, c2: int, escape: byte, compress: bool)
  {
    ghost predicate Ok() {
      && Valid(trie) && 9 <= c2 <= 11
      && (if cur == 0 then len == 0 else Linked(trie, cur) && len == |trie.text[cur]|)
    }
  }

  /** What the measured compression makes encode do before a byte. */
  datatype Choice = Stay | ToCompressed | ToTransparent | Restart

  /** checksize_dict: the code width that covers the free slot, and the codes that say so. */
  function Widened(c2: int, free: int): (w: int)
    requires 9 <= c2 <= 11 && free < END
    ensures c2 <= w <= 11 && free < Weight(w)
    decreases 11 - c2
  {
    if free >= Weight(c2) then Widened(c2 + 1, free) else c2
  }

  function WidenCodes(c2: int, free: int): (codes: seq<Token>)
    requires 9 <= c2 <= 11 && free < END
    ensures AllSized(codes)
    decreases 11 - c2
  {
    if free >= Weight(c2) then [Code(2, c2)] + WidenCodes(c2 + 1, free) else []
  }

  /** Sends the string matched so far. */
  function Sent(e: Encoder): (r: (Encoder, seq<Token>))
    requires e.Ok()
    ensures AllSized(r.1) && 9 <= r.0.c2 <= 11 && r.0 == e.(c2 := r.0.c2)
  {
    var w := Widened(e.c2, e.trie.free);
    (e.(c2 := w), WidenCodes(e.c2, e.trie.free) + [Code(e.cur, w)])
  }

  /** init_dict on the encoding side. */
  function NewEncoder(): (e: Encoder)
    ensures e.Ok()
  {
    NewTrieValid();
    Encoder(NewTrie(), 0, 0, 9, 0, false)
  }

  predicate Possible(e: Encoder, choice: Choice) {
    match choice
    case Stay => true
    case ToTransparent => e.compress
    case _ => !e.compress
  }

  /** Sends the string if there is one, and the code that leaves the compressed mode. */
  function Closed(e: Encoder): (r: (int, seq<Token>))
    requires e.Ok()
    ensures 9 <= r.0 <= 11 && AllSized(r.1)
  {
    var (e1, codes) := if e.cur != 0 then Sent(e) else (e, []);
    (e1.c2, codes + [Leave(e1.c2)])
  }

  /** The change of mode, before the byte b itself. */
  function Switched(e: Encoder, b: byte, choice: Choice): (r: (Encoder, seq<Token>))
    requires e.Ok() && Possible(e, choice)
    ensures r.0.Ok() && AllSized(r.1)
  {
    hide Valid, Grow;
    match choice
    case Stay => (e, [])
    case ToTransparent =>
      var (c2, codes) := Closed(e);
      (Encoder(Grow(e.trie, e.cur, b), 0, 0, c2, e.escape, false), codes)
    case ToCompressed =>
      (e.(trie := Grow(e.trie, e.cur, b), cur := 0, len := 0, compress := true), [Code(e.escape, 8), Code(0, 8)])
    case Restart => (NewEncoder(), [Code(e.escape, 8), Code(2, 8)])
  }

  /** In the transparent mode the byte itself is sent, marked if it is the escape byte. */
  function Plain(e: Encoder, b: byte): (codes: seq<Token>)
    ensures AllSized(codes)
  {
    if e.compress then [] else [Code(b, 8)] + if b == e.escape then [Code(1, 8)] else []
  }

  /** Extends the match by b, or ends it, enters the longer string and starts again. */
  function Extended(e: Encoder, b: byte): (r: (Encoder, seq<Token>))
    requires e.Ok()
    ensures r.0.Ok() && r.0.compress == e.compress && r.0.cur != 0 && AllSized(r.1)
  {
    SearchFinds(e.trie, e.cur, b);
    var n := Search(e.trie, e.cur, b);
    if n != 0 then (e.(cur := n, len := e.len + 1), [])
    else
      var (e1, codes) := if e.compress then Sent(e) else (e, []);
      var trie := if e.len < LONGEST then Add(e.trie, e.cur, b) else e.trie;
      assert trie.text[b + ROOT] == [b];
      (e1.(trie := trie, cur := b + ROOT, len := 1), codes)
  }

  /** The byte b. */
  function Consumed(e: Encoder, b: byte): (r: (Encoder, seq<Token>))
    requires e.Ok()
    ensures r.0.Ok() && r.0.compress == e.compress && r.0.cur != 0 && AllSized(r.1)
  {
    var e1 := e.(escape := if b == e.escape then Cycle(e.escape) else e.escape);
    var (e2, codes) := Extended(e1, b);
    (e2, Plain(e, b) + codes)
  }

  function Step(e: Encoder, b: byte, choice: Choice): (r: (Encoder, seq<Token>))
    requires e.Ok() && Possible(e, choice)
    ensures r.0.Ok() && r.0.cur != 0 && AllSized(r.1)
  {
    var (e1, before) := Switched(e, b, choice);
    var (e2, after) := Consumed(e1, b);
    (e2, before + after)
  }

  /** The end of the data. */
  function Ended(e: Encoder): (codes: seq<Token>)
    requires e.Ok()
    ensures AllSized(codes)
  {
    if e.cur != 0 && e.compress then var (e1, codes) := Sent(e); codes + [Flush(e1.c2)] else []
  }

  // ---------------------------------------------------------------- the decoder

  /** The variables of decode; escaped says that an escape byte has been read and the
      command after it has not.  Lost stands for a stream that encode does not produce. */
  datatype Decoder =
    | Decoder(trie: Trie, cur: int, c2: int, escape: byte, compress: bool, escaped: bool, out: seq<byte>)
    | Lost
  {
    ghost predicate Ok() {
      Decoder? ==> Valid(trie) && (cur == 0 || Linked(trie, cur)) && 9 <= c2 <= 11
    }
  }

  /** init_dict on the decoding side. */
  function NewDecoder(): (d: Decoder)
    ensures d.Ok() && d.Decoder?
  {
    NewTrieValid();
    Decoder(NewTrie(), 0, 9, 0, false, false, [])
  }

  /** A code that stands for a string. */
  function Copied(d: Decoder, code: int): (d': Decoder)
    requires d.Ok() && d.Decoder?
    ensures d'.Ok()
  {
    if ROOT <= code < END && |d.trie.text[code]| <= LONGEST then
      var s := d.trie.text[code];
      var trie := Grow(d.trie, d.cur, s[0]);
      if Linked(trie, code) then
        d.(trie := trie, cur := code, escape := Cycled(d.escape, s), out := d.out + s)
      else Lost
    else Lost
  }

  /** A byte in the transparent mode. */
  function Passed(d: Decoder, b: byte): (d': Decoder)
    requires d.Ok() && d.Decoder?
    ensures d'.Ok()
  {
    SearchFinds(d.trie, d.cur, b);
    var n := Search(d.trie, d.cur, b);
    if n != 0 then d.(cur := n, out := d.out + [b])
    else d.(trie := Add(d.trie, d.cur, b), cur := b + ROOT, out := d.out + [b])
  }

  function Received(d: Decoder, token: Token): (d': Decoder)
    requires d.Ok()
    ensures d'.Ok()
  {
    if d.Lost? || token.size != (if d.compress then d.c2 else 8) then Lost
    else if d.compress then
      match token
      case Leave(_) => d.(compress := false)
      case Flush(_) => d
      case Code(code, _) =>
        if code == 2 then (if d.c2 < 11 then d.(c2 := d.c2 + 1) else Lost) else Copied(d, code)
    else if !token.Code? || !(0 <= token.value < 256) then Lost
    else if d.escaped then
      if token.value == 0 then d.(compress := true, escaped := false)
      else if token.value == 1 then Passed(d.(escape := Cycle(d.escape), escaped := false), d.escape)
      else if token.value == 2 then NewTrieValid(); Decoder(NewTrie(), 0, 9, 0, false, false, d.out)
      else d.(escaped := false)
    else if token.value == d.escape then d.(escaped := true)
    else Passed(d, token.value)
  }

  function ReceivedAll(d: Decoder, tokens: seq<Token>): (d': Decoder)
    requires d.Ok()
    ensures d'.Ok()
  {
    if tokens == [] then d else Received(ReceivedAll(d, tokens[..|tokens| - 1]), tokens[|tokens| - 1])
  }

  lemma {:induction false} ReceivedConcat(d: Decoder, a: seq<Token>, b: seq<Token>)
    requires d.Ok()
    ensures ReceivedAll(d, a + b) == ReceivedAll(ReceivedAll(d, a), b)
    decreases |b|
  {
    hide Received;
    if b == [] {
      assert a + b == a;
    } else {
      assert (a + b)[..|a + b| - 1] == a + b[..|b| - 1];
      ReceivedConcat(d, a, b[..|b| - 1]);
    }
  }

  lemma ReceivedOne(d: Decoder, token: Token)
    requires d.Ok()
    ensures ReceivedAll(d, [token]) == Received(d, token)
  {
    assert [token][..0] == [];
    assert ReceivedAll(d, []) == d;
  }

  // ---------------------------------------------------------------- in step

  /** What has been matched and not sent. */
  function Text(e: Encoder): seq<byte>
    requires e.Ok()
  {
    if e.cur == 0 then [] else e.trie.text[e.cur]
  }

  ghost predicate Short(t: Trie)
    requires Valid(t)
  {
    forall n :: 0 <= n <= END ==> |t.text[n]| <= LONGEST
  }

  /** The decoder has read all that the encoder has sent; the bytes taken are input.  In the
      compressed mode it lacks the entry made when the last string was sent, which it can
      make once it sees first, the byte after that string. */
  ghost predicate Sync(e: Encoder, d: Decoder, input: seq<byte>, first: byte) {
    && e.Ok() && d.Ok() && d.Decoder? && !d.escaped
    && e.compress == d.compress && e.c2 == d.c2 && Short(e.trie)
    && if e.compress then
         && e.trie == Grow(d.trie, d.cur, first)
         && d.out + Text(e) == input && e.escape == Cycled(d.escape, Text(e))
         && (e.cur != 0 ==> first == Text(e)[0] && e.cur != e.trie.recent)
       else e.trie == d.trie && e.cur == d.cur && e.escape == d.escape && d.out == input
  }

  /** In step between two bytes. */
  ghost predicate InStep(e: Encoder, d: Decoder, input: seq<byte>) {
    && e.Ok() && (e.compress ==> e.cur != 0)
    && Sync(e, d, input, if e.cur == 0 then 0 else Text(e)[0])
  }

  /** The step keeps to what decode can follow: no match of 250 bytes or more is left, and
      none is left that could go on when the transparent mode begins. */
  ghost predicate Followed(e: Encoder, b: byte, choice: Choice)
    requires e.Ok() && Possible(e, choice)
  {
    && (choice.Stay? || choice.ToCompressed? ==> Search(e.trie, e.cur, b) == 0 ==> e.len < LONGEST)
    && (choice.ToTransparent? ==> Search(e.trie, e.cur, b) == 0 && e.len < LONGEST)
  }

  lemma NewInStep()
    ensures InStep(NewEncoder(), NewDecoder(), [])
  {
    hide Sized, Spelled, Listed, Grow, Search, Cycled;
    NewTrieValid();
  }

  /** The codes that widen bring the decoder to the same width. */
  lemma {:induction false} WidenReceived(d: Decoder, free: int)
    requires d.Ok() && d.Decoder? && d.compress && free < END
    ensures ReceivedAll(d, WidenCodes(d.c2, free)) == d.(c2 := Widened(d.c2, free))
    decreases if d.Decoder? then 11 - d.c2 else 0
  {
    var codes := WidenCodes(d.c2, free);
    if free >= Weight(d.c2) {
      var rest := WidenCodes(d.c2 + 1, free);
      ReceivedOne(d, Code(2, d.c2));
      ReceivedConcat(d, [Code(2, d.c2)], rest);
      hide Copied, Passed, Grow, Weight;
      WidenReceived(d.(c2 := d.c2 + 1), free);
    } else {
      assert ReceivedAll(d, []) == d;
    }
  }

  /** An entry other than the one added spells the same in the dictionary before. */
  lemma SpellsTheSame(t: Trie, cur: int, b: byte, n: int)
    requires Valid(t) && (cur == 0 || Linked(t, cur)) && 0 <= n <= END && n != Grow(t, cur, b).recent
    ensures Grow(t, cur, b).text[n] == t.text[n]
  {
    hide Spelled, Listed;
  }

  /** Sending the match brings the decoder up to date. */
  lemma SentReceived(e: Encoder, d: Decoder, input: seq<byte>, first: byte)
    requires Sync(e, d, input, first) && e.compress && e.cur != 0
    ensures var (e1, codes) := Sent(e);
      ReceivedAll(d, codes) == Decoder(e.trie, e.cur, e1.c2, e.escape, true, false, input)
  {
    var (e1, codes) := Sent(e);
    WidenReceived(d, e.trie.free);
    SpellsTheSame(d.trie, d.cur, first, e.cur);
    hide Grow, Short, Passed, Sized, Spelled, Listed, Cycled;
    var widen := WidenCodes(e.c2, e.trie.free);
    var d1 := d.(c2 := e1.c2);
    ReceivedConcat(d, widen, [Code(e.cur, e1.c2)]);
    ReceivedOne(d1, Code(e.cur, e1.c2));
    assert Copied(d1, e.cur) == Decoder(e.trie, e.cur, e1.c2, e.escape, true, false, input);
  }

  /** A longer text stays short if the string it extends was. */
  lemma AddShort(t: Trie, cur: int, b: byte)
    requires Valid(t) && Linked(t, cur) && Short(t) && |t.text[cur]| < LONGEST
    ensures Short(Add(t, cur, b))
  {
    hide Spelled, Listed;
  }

  lemma GrowShort(t: Trie, cur: int, len: int, b: byte)
    requires Valid(t) && Short(t) && (cur == 0 || (Linked(t, cur) && len == |t.text[cur]|))
    requires Search(t, cur, b) == 0 ==> len < LONGEST
    ensures Short(Grow(t, cur, b))
  {
    SearchFinds(t, cur, b);
    if Search(t, cur, b) == 0 { AddShort(t, cur, b); }
    hide Valid, Search, Add, Short;
  }

  lemma ConsumedCompressed(e: Encoder, d: Decoder, input: seq<byte>, first: byte, b: byte)
    requires Sync(e, d, input, first) && e.compress && (e.cur == 0 ==> first == b)
    requires Search(e.trie, e.cur, b) == 0 ==> e.len < LONGEST
    ensures var (e', codes) := Consumed(e, b); InStep(e', ReceivedAll(d, codes), input + [b])
  {
    SearchFinds(e.trie, e.cur, b);
    var n := Search(e.trie, e.cur, b);
    var (e', codes) := Consumed(e, b);
    if n != 0 {
      MatchExtended(e, d, input, first, b);
    } else {
      SentReceived(e, d, input, first);
      AddShort(e.trie, e.cur, b);
      MatchEnded(e, d, input, first, b);
    }
  }

  lemma MatchExtended(e: Encoder, d: Decoder, input: seq<byte>, first: byte, b: byte)
    requires Sync(e, d, input, first) && e.compress && (e.cur == 0 ==> first == b)
    requires Search(e.trie, e.cur, b) != 0
    ensures var (e', codes) := Consumed(e, b); InStep(e', ReceivedAll(d, codes), input + [b])
  {
    SearchFinds(e.trie, e.cur, b);
    CycledNext(d.escape, Text(e), b);
    var (e', codes) := Consumed(e, b);
    assert codes == [] && ReceivedAll(d, []) == d;
    hide Grow, Valid, Short, Search, Cycled, Received, Cycle;
    assert Text(e') == Text(e) + [b];
    assert d.out + Text(e') == input + [b];
    assert Text(e')[0] == first;
  }

  lemma MatchEnded(e: Encoder, d: Decoder, input: seq<byte>, first: byte, b: byte)
    requires Sync(e, d, input, first) && e.compress && e.cur != 0
    requires Search(e.trie, e.cur, b) == 0 && e.len < LONGEST && Short(Add(e.trie, e.cur, b))
    requires ReceivedAll(d, Sent(e).1) == Decoder(e.trie, e.cur, Sent(e).0.c2, e.escape, true, false, input)
    ensures var (e', codes) := Consumed(e, b); InStep(e', ReceivedAll(d, codes), input + [b])
  {
    var (e', codes) := Consumed(e, b);
    assert codes == Sent(e).1;
    var d' := ReceivedAll(d, codes);
    assert e'.trie == Grow(d'.trie, d'.cur, b);
    assert e'.trie.text[b + ROOT] == [b];
    CycledNext(d'.escape, [], b);
    assert [] + [b] == [b] && Cycled(d'.escape, []) == d'.escape;
    hide Sent, Search, Add, Received, ReceivedAll, Cycle, Short;
  }

  lemma PlainReceived(e: Encoder, d: Decoder, b: byte)
    requires d.Ok() && d.Decoder? && !d.escaped && !d.compress && e.Ok() && e.escape == d.escape
    ensures ReceivedAll(d, [Code(b, 8)] + if b == e.escape then [Code(1, 8)] else [])
      == Passed(d.(escape := if b == e.escape then Cycle(e.escape) else e.escape), b)
  {
    hide Passed, Grow, Copied, Cycle;
    ReceivedOne(d, Code(b, 8));
    if b == e.escape {
      ReceivedConcat(d, [Code(b, 8)], [Code(1, 8)]);
      ReceivedOne(d.(escaped := true), Code(1, 8));
    } else {
      assert [Code(b, 8)] + [] == [Code(b, 8)];
    }
  }

  lemma ConsumedTransparent(e: Encoder, d: Decoder, input: seq<byte>, b: byte)
    requires Sync(e, d, input, b) && !e.compress
    requires Search(e.trie, e.cur, b) == 0 ==> e.len < LONGEST
    ensures var (e', codes) := Consumed(e, b); InStep(e', ReceivedAll(d, codes), input + [b])
  {
    var (e', codes) := Consumed(e, b);
    SearchFinds(e.trie, e.cur, b);
    if Search(e.trie, e.cur, b) == 0 { AddShort(e.trie, e.cur, b); }
    PlainReceived(e, d, b);
    hide Search, Add, Received, ReceivedAll, Cycle, Valid, Short, Grow;
    assert codes == [Code(b, 8)] + if b == e.escape then [Code(1, 8)] else [];
  }

  // ---------------------------------------------------------------- the changes of mode

  lemma CommandReceived(d: Decoder, command: byte)
    requires d.Ok() && d.Decoder? && !d.escaped && !d.compress
    ensures ReceivedAll(d, [Code(d.escape, 8), Code(command, 8)]) == Received(d.(escaped := true), Code(command, 8))
  {
    hide Passed, Copied;
    ReceivedConcat(d, [Code(d.escape, 8)], [Code(command, 8)]);
    assert [Code(d.escape, 8)] + [Code(command, 8)] == [Code(d.escape, 8), Code(command, 8)];
    ReceivedOne(d, Code(d.escape, 8));
    ReceivedOne(d.(escaped := true), Code(command, 8));
  }

  lemma SwitchedToCompressed(e: Encoder, d: Decoder, input: seq<byte>, b: byte)
    requires Sync(e, d, input, b) && !e.compress
    requires Search(e.trie, e.cur, b) == 0 ==> e.len < LONGEST
    ensures var (e1, codes) := Switched(e, b, ToCompressed); Sync(e1, ReceivedAll(d, codes), input, b)
  {
    hide Valid, Short, ReceivedAll, Search, Add;
    GrowShort(e.trie, e.cur, e.len, b);
    CommandReceived(d, 0);
    assert Cycled(d.escape, []) == d.escape;
    hide Grow, Cycled;
  }

  lemma SwitchedRestart(e: Encoder, d: Decoder, input: seq<byte>, b: byte)
    requires Sync(e, d, input, b) && !e.compress
    ensures var (e1, codes) := Switched(e, b, Restart); Sync(e1, ReceivedAll(d, codes), input, b)
  {
    NewInStep();
    CommandReceived(d, 2);
    hide Search, Add, Valid, NewTrie, ReceivedAll;
  }

  /** Leaving the compressed mode: the decoder has the string still, the encoder has not. */
  lemma Left(e: Encoder, d: Decoder, input: seq<byte>, first: byte, b: byte)
    requires Sync(e, d, input, first) && e.compress && e.cur != 0
    ensures var (e1, codes) := Switched(e, b, ToTransparent);
      && ReceivedAll(d, codes) == Decoder(e.trie, e.cur, e1.c2, e.escape, false, false, input)
      && e1 == Encoder(Grow(e.trie, e.cur, b), 0, 0, e1.c2, e.escape, false)
  {
    SentReceived(e, d, input, first);
    var (e1, codes) := Sent(e);
    ReceivedConcat(d, codes, [Leave(e1.c2)]);
    hide Search, Add, Valid, Short, Passed, Copied, Grow;
    ReceivedOne(ReceivedAll(d, codes), Leave(e1.c2));
  }

  /** A byte after the compressed mode is left: the decoder goes on from its string, the
      encoder from nothing. */
  lemma AfterLeaving(e: Encoder, d: Decoder, input: seq<byte>, first: byte, b: byte)
    requires Sync(e, d, input, first) && e.compress && e.cur != 0
    ensures var (e2, codes) := Step(e, b, ToTransparent); var d2 := ReceivedAll(d, codes);
      && e2.trie == Grow(e.trie, e.cur, b) && e2.cur == b + ROOT && e2.len == 1
      && e2.escape == (if b == e.escape then Cycle(e.escape) else e.escape) && !e2.compress
      && d2 == Passed(Decoder(e.trie, e.cur, e2.c2, e2.escape, false, false, input), b)
  {
    var (e1, before) := Switched(e, b, ToTransparent);
    var (e2, after) := Consumed(e1, b);
    Left(e, d, input, first, b);
    var d1 := ReceivedAll(d, before);
    ReceivedConcat(d, before, after);
    PlainReceived(e1, d1, b);
    hide Passed, Received, ReceivedAll, Cycle, Valid, Short, Grow, Switched;
    assert after == [Code(b, 8)] + if b == e.escape then [Code(1, 8)] else [];
  }

  /** Leaving the compressed mode keeps the two in step exactly when the string matched is
      not too long and cannot be extended by the next byte: otherwise the decoder takes the
      longer string for its next entry and the encoder the single byte. */
  lemma LeavingInStep(e: Encoder, d: Decoder, input: seq<byte>, b: byte)
    requires InStep(e, d, input) && e.compress
    ensures var (e', codes) := Step(e, b, ToTransparent);
      InStep(e', ReceivedAll(d, codes), input + [b]) <==> Search(e.trie, e.cur, b) == 0 && e.len < LONGEST
  {
    var (e', codes) := Step(e, b, ToTransparent);
    AfterLeaving(e, d, input, Text(e)[0], b);
    SearchFinds(e.trie, e.cur, b);
    if Search(e.trie, e.cur, b) != 0 {
      FoundIsEntry(e.trie, e.cur, b);
    } else if e.len < LONGEST {
      AddShort(e.trie, e.cur, b);
      hide Valid, Short, Search, Add, ReceivedAll, Step, Cycle;
    } else {
      AddLong(e.trie, e.cur, b);
      hide Valid, Search, Add, ReceivedAll, Step, Cycle;
    }
  }

  /** An entry longer than what decode can spell. */
  lemma AddLong(t: Trie, cur: int, b: byte)
    requires Valid(t) && Linked(t, cur) && |t.text[cur]| >= LONGEST
    ensures !Short(Add(t, cur, b))
  {
    AddedText(t, cur, b);
  }

  lemma EntryFound(t: Trie, cur: int, b: byte, n: int)
    requires Valid(t) && FIRST <= n < END && Linked(t, cur) && Linked(t, n) && t.parent[n] == cur
    requires Last(t.text[n]) == b && n != t.recent
    ensures Search(t, cur, b) != 0
  {
    hide Search, Valid;
    SearchFinds(t, cur, b);
  }

  lemma InStepOk(e: Encoder, d: Decoder, input: seq<byte>)
    requires InStep(e, d, input)
    ensures e.Ok() && Valid(e.trie) && d.Ok()
  {
  }

  lemma ExtendedMiss(e: Encoder, b: byte)
    requires e.Ok() && Search(e.trie, e.cur, b) == 0
    ensures e.cur != 0 && Linked(e.trie, e.cur)
    ensures var trie := if e.len < LONGEST then Add(e.trie, e.cur, b) else e.trie;
      var c2 := if e.compress then Sent(e).0.c2 else e.c2;
      && Extended(e, b) == (Encoder(trie, b + ROOT, 1, c2, e.escape, e.compress), if e.compress then Sent(e).1 else [])
      && Extended(e, b).0.Ok()
  {
    SearchFinds(e.trie, e.cur, b);
    hide Valid, Search, Add, Sent;
  }

  lemma FoundIsEntry(t: Trie, cur: int, b: byte)
    requires Valid(t) && Linked(t, cur) && Search(t, cur, b) != 0
    ensures Search(t, cur, b) >= FIRST
  {
  }

  /** Every step that decode can follow keeps the two in step. */
  lemma StepInStep(e: Encoder, d: Decoder, input: seq<byte>, b: byte, choice: Choice)
    requires InStep(e, d, input) && Possible(e, choice) && Followed(e, b, choice)
    ensures var (e', codes) := Step(e, b, choice); InStep(e', ReceivedAll(d, codes), input + [b])
  {
    if choice.ToTransparent? {
      LeavingInStep(e, d, input, b);
    } else {
      var (e1, before) := Switched(e, b, choice);
      SwitchedInSync(e, d, input, b, choice);
      var d1 := ReceivedAll(d, before);
      var first := if e1.cur == 0 then b else Text(e1)[0];
      var (e2, after) := Consumed(e1, b);
      hide Valid, Short, Search, ReceivedAll, Switched, Consumed, Received, Grow;
      if e1.cur == 0 { StartsShort(e1, b); }
      if e1.compress {
        ConsumedCompressed(e1, d1, input, first, b);
      } else {
        ConsumedTransparent(e1, d1, input, b);
      }
      ReceivedConcat(d, before, after);
    }
  }

  lemma StartsShort(e: Encoder, b: byte)
    requires e.Ok() && e.cur == 0
    ensures Search(e.trie, e.cur, b) != 0
  {
  }

  lemma SwitchedInSync(e: Encoder, d: Decoder, input: seq<byte>, b: byte, choice: Choice)
    requires InStep(e, d, input) && Possible(e, choice) && Followed(e, b, choice) && !choice.ToTransparent?
    ensures var (e1, codes) := Switched(e, b, choice);
      && Sync(e1, ReceivedAll(d, codes), input, if e1.cur == 0 then b else Text(e1)[0])
      && (e1.cur == 0 || e1 == e)
      && (e1.cur != 0 ==> Search(e1.trie, e1.cur, b) == 0 ==> e1.len < LONGEST)
  {
    if choice.Stay? {
      assert ReceivedAll(d, []) == d;
    } else if choice.ToCompressed? {
      SwitchedToCompressed(e, d, input, b);
    } else {
      SwitchedRestart(e, d, input, b);
    }
  }

  /** A match of 250 bytes that ends breaks the step, in either mode: decode enters the
      longer string and encode does not. */
  lemma LongMatch(e: Encoder, d: Decoder, input: seq<byte>, b: byte)
    requires InStep(e, d, input) && Search(e.trie, e.cur, b) == 0
    ensures var (e', codes) := Step(e, b, Stay);
      InStep(e', ReceivedAll(d, codes), input + [b]) <==> e.len < LONGEST
  {
    SearchFinds(e.trie, e.cur, b);
    if e.len < LONGEST {
      StepInStep(e, d, input, b, Stay);
    } else if e.compress {
      LongCompressed(e, d, input, b);
    } else {
      LongTransparent(e, d, input, b);
    }
  }

  lemma LongTransparent(e: Encoder, d: Decoder, input: seq<byte>, b: byte)
    requires InStep(e, d, input) && !e.compress && Search(e.trie, e.cur, b) == 0 && e.len >= LONGEST
    ensures var (e', codes) := Step(e, b, Stay); !InStep(e', ReceivedAll(d, codes), input + [b])
  {
    var (e', codes) := Consumed(e, b);
    assert [] + codes == codes;
    PlainReceived(e, d, b);
    AddedText(e.trie, e.cur, b);
    hide Valid, ReceivedAll, Search, Add;
    assert codes == [Code(b, 8)] + if b == e.escape then [Code(1, 8)] else [];
  }

  lemma LongCompressed(e: Encoder, d: Decoder, input: seq<byte>, b: byte)
    requires InStep(e, d, input) && e.compress && Search(e.trie, e.cur, b) == 0 && e.len >= LONGEST
    ensures var (e', codes) := Step(e, b, Stay); !InStep(e', ReceivedAll(d, codes), input + [b])
  {
    hide Valid, ReceivedAll, Search, Add, Sent, Extended;
    SentReceived(e, d, input, Text(e)[0]);
    ExtendedMiss(e.(escape := if b == e.escape then Cycle(e.escape) else e.escape), b);
    SentSame(e, if b == e.escape then Cycle(e.escape) else e.escape);
    AddLong(e.trie, e.cur, b);
    var (e', codes) := Step(e, b, Stay);
    assert codes == Sent(e).1;
    assert e'.trie == e.trie && Short(e.trie);
    RootText(e.trie, b);
  }

  lemma RootText(t: Trie, b: byte)
    requires Valid(t)
    ensures |t.text| == END + 1 && t.text[b + ROOT] == [b]
  {
  }

  /** The escape byte has no part in sending the match. */
  lemma SentSame(e: Encoder, escape: byte)
    requires e.Ok()
    ensures Sent(e.(escape := escape)) == (Sent(e).0.(escape := escape), Sent(e).1)
  {
  }

  /** Entering the compressed mode enters the longer string without a look at its length. */
  lemma LongEntered(e: Encoder, d: Decoder, input: seq<byte>, b: byte)
    requires InStep(e, d, input) && !e.compress && Search(e.trie, e.cur, b) == 0 && e.len >= LONGEST
    ensures var (e', codes) := Step(e, b, ToCompressed); !InStep(e', ReceivedAll(d, codes), input + [b])
  {
    hide Valid, Search, Add, ReceivedAll, Short, Step;
    InStepOk(e, d, input);
    SearchedOn(e, b);
    AddLong(e.trie, e.cur, b);
    EnteredTrie(e, b);
  }

  lemma SearchedOn(e: Encoder, b: byte)
    requires e.Ok() && Search(e.trie, e.cur, b) == 0
    ensures e.cur != 0 && Linked(e.trie, e.cur)
  {
    SearchFinds(e.trie, e.cur, b);
  }

  lemma EnteredTrie(e: Encoder, b: byte)
    requires e.Ok() && !e.compress
    ensures Step(e, b, ToCompressed).0.trie == Grow(e.trie, e.cur, b)
  {
    var (e1, before) := Switched(e, b, ToCompressed);
    StartsShort(e1, b);
    hide Valid, Search, Add, Grow;
  }

  /** A step keeps the two in step exactly when decode can follow it. */
  lemma StepExact(e: Encoder, d: Decoder, input: seq<byte>, b: byte, choice: Choice)
    requires InStep(e, d, input) && Possible(e, choice)
    ensures var (e', codes) := Step(e, b, choice);
      InStep(e', ReceivedAll(d, codes), input + [b]) <==> Followed(e, b, choice)
  {
    hide InStep, ReceivedAll, Step, Search, Valid;
    InStepOk(e, d, input);
    if Followed(e, b, choice) {
      StepInStep(e, d, input, b, choice);
    } else if choice.ToTransparent? {
      LeavingInStep(e, d, input, b);
    } else if choice.Stay? {
      LongMatch(e, d, input, b);
    } else {
      LongEntered(e, d, input, b);
    }
  }

  lemma AddedText(t: Trie, cur: int, b: byte)
    requires Valid(t) && Linked(t, cur)
    ensures var t' := Add(t, cur, b); |t'.text[t'.recent]| == |t.text[cur]| + 1
  {
  }

  // ---------------------------------------------------------------- widths

  /** Every entry has a code that fits the width in which the next string is sent. */
  ghost predicate Fits(e: Encoder)
    requires e.Ok()
  {
    e.compress ==>
      forall n :: FIRST <= n < END && Linked(e.trie, n) ==> n < Weight(Widened(e.c2, e.trie.free))
  }

  predicate TokenFits(token: Token) {
    match token
    case Code(v, s) => 8 <= s <= 11 && 0 <= v < Weight(s)
    case Leave(s) => 9 <= s <= 11
    case Flush(s) => 9 <= s <= 11
  }

  predicate AllFit(tokens: seq<Token>) {
    forall i :: 0 <= i < |tokens| ==> TokenFits(tokens[i])
  }

  lemma {:induction false} WidenFits(c2: int, free: int)
    requires 9 <= c2 <= 11 && free < END
    ensures AllFit(WidenCodes(c2, free))
    decreases 11 - c2
  {
    if free >= Weight(c2) { WidenFits(c2 + 1, free); }
  }

  lemma WidthGrows(a: int, b: int)
    requires 8 <= a <= b <= 11
    ensures Weight(a) <= Weight(b)
  {
  }

  /** What fits, fits in any width that is used later. */
  lemma WidenedFits(c2: int, free: int, n: int)
    requires 9 <= c2 <= 11 && free < END && n < Weight(c2)
    ensures n < Weight(Widened(c2, free))
  {
    WidthGrows(c2, Widened(c2, free));
  }

  lemma SentFits(e: Encoder)
    requires e.Ok() && e.compress && e.cur != 0 && Fits(e)
    ensures var (e1, codes) := Sent(e);
      AllFit(codes) && forall n :: FIRST <= n < END && (Linked(e.trie, n) || n == e.trie.free) ==> n < Weight(e1.c2)
  {
    WidenFits(e.c2, e.trie.free);
    WidthGrows(9, Sent(e).0.c2);
  }

  /** Sending a string gives a code that fits exactly when the code is below the weight of
      the width that covers the free slot: the entries fit when all of them do. */
  lemma FitsExact(e: Encoder)
    requires e.Ok() && e.compress
    ensures Fits(e) <==>
      forall n :: FIRST <= n < END && Linked(e.trie, n) ==> AllFit(Sent(e.(cur := n, len := |e.trie.text[n]|)).1)
  {
    hide Spelled, Listed, Widened, Sent;
    forall n | FIRST <= n < END && Linked(e.trie, n)
      ensures AllFit(Sent(e.(cur := n, len := |e.trie.text[n]|)).1) <==> n < Weight(Widened(e.c2, e.trie.free))
    {
      SentFitsExact(e.(cur := n, len := |e.trie.text[n]|));
    }
  }

  lemma SentFitsExact(e: Encoder)
    requires e.Ok() && e.cur != 0
    ensures AllFit(Sent(e).1) <==> e.cur < Weight(Widened(e.c2, e.trie.free))
  {
    WidenFits(e.c2, e.trie.free);
    var codes := Sent(e).1;
    assert codes[|codes| - 1] == Code(e.cur, Widened(e.c2, e.trie.free));
  }

  lemma AddLinks(t: Trie, cur: int, b: byte, n: int)
    requires Valid(t) && Linked(t, cur) && Linked(Add(t, cur, b), n)
    ensures Linked(t, n) || n == t.free
  {
  }

  /** In the compressed mode every code fits its width, from a state in which all entries do. */
  lemma StepFits(e: Encoder, b: byte, choice: Choice)
    requires e.Ok() && (e.compress ==> e.cur != 0) && Fits(e)
    requires Possible(e, choice) && Fits(Switched(e, b, choice).0)
    ensures var (e', codes) := Step(e, b, choice); Fits(e') && AllFit(codes)
  {
    hide Valid, Consumed, Switched, Linked, TokenFits;
    SwitchedFits(e, b, choice);
    ConsumedFits(Switched(e, b, choice).0, b);
  }

  lemma SwitchedFits(e: Encoder, b: byte, choice: Choice)
    requires e.Ok() && (e.compress ==> e.cur != 0) && Fits(e) && Possible(e, choice)
    ensures AllFit(Switched(e, b, choice).1)
  {
    hide Valid, Sent, Grow, Fits, Search, Add;
    if choice.ToTransparent? { SentFits(e); }
  }

  lemma ConsumedFits(e: Encoder, b: byte)
    requires e.Ok() && Fits(e)
    ensures var (e', codes) := Consumed(e, b); Fits(e') && AllFit(codes)
  {
    hide Valid, Extended, Sent;
    var e1 := e.(escape := if b == e.escape then Cycle(e.escape) else e.escape);
    ExtendedFits(e1, b);
  }

  lemma ExtendedFits(e: Encoder, b: byte)
    requires e.Ok() && Fits(e)
    ensures var (e', codes) := Extended(e, b);
      Fits(e') && (e.compress ==> AllFit(codes)) && (!e.compress ==> codes == [])
  {
    hide Spelled, Listed, Sent, Search, Add, Widened, Weight;
    SearchFinds(e.trie, e.cur, b);
    if e.compress && Search(e.trie, e.cur, b) == 0 {
      SentFits(e);
      var (e', codes) := Extended(e, b);
      forall n | FIRST <= n < END && Linked(e'.trie, n) ensures n < Weight(Widened(e'.c2, e'.trie.free)) {
        if e.len < LONGEST { AddLinks(e.trie, e.cur, b, n); }
        assert Linked(e.trie, n) || n == e.trie.free;
        assert e'.c2 == Sent(e).0.c2;
        WidenedFits(e'.c2, e'.trie.free, n);
      }
    }
  }

  lemma EndedFits(e: Encoder)
    requires e.Ok() && Fits(e)
    ensures AllFit(Ended(e))
  {
    if e.cur != 0 && e.compress { SentFits(e); }
  }

  // ---------------------------------------------------------------- whole runs

  /** The change of mode, where it applies. */
  function Applied(e: Encoder, choice: Choice): (c: Choice)
    ensures Possible(e, c)
  {
    if Possible(e, choice) then choice else Stay
  }

  /** The encoder and what it has sent after the input, for any changes of mode. */
  function Encoded(input: seq<byte>, choices: seq<Choice>): (r: (Encoder, seq<Token>))
    requires |choices| == |input|
    ensures r.0.Ok() && (input != [] ==> r.0.cur != 0) && AllSized(r.1)
  {
    hide Valid, TokenSized;
    if input == [] then (NewEncoder(), [])
    else
      var k := |input| - 1;
      var (e, sent) := Encoded(input[..k], choices[..k]);
      var (e', codes) := Step(e, input[k], Applied(e, choices[k]));
      (e', sent + codes)
  }

  /** Every step can be followed, and the entries fit whenever the compressed mode begins. */
  ghost predicate Followable(input: seq<byte>, choices: seq<Choice>)
    requires |choices| == |input|
  {
    forall k :: 0 <= k < |input| ==> FollowedFitting(Before(input, choices, k), input[k], choices[k])
  }

  /** The encoder before byte k. */
  function Before(input: seq<byte>, choices: seq<Choice>, k: nat): (e: Encoder)
    requires k <= |choices| == |input|
    ensures e.Ok()
  {
    Encoded(input[..k], choices[..k]).0
  }

  ghost predicate FollowedFitting(e: Encoder, b: byte, choice: Choice)
    requires e.Ok()
  {
    var c := Applied(e, choice);
    Followed(e, b, c) && (c.ToCompressed? ==> Fits(Switched(e, b, c).0))
  }

  lemma FollowablePrefix(input: seq<byte>, choices: seq<Choice>)
    requires 0 < |input| == |choices| && Followable(input, choices)
    ensures var k := |input| - 1;
      Followable(input[..k], choices[..k]) && FollowedFitting(Before(input, choices, k), input[k], choices[k])
  {
    hide Encoded, FollowedFitting, Applied;
    var k := |input| - 1;
    forall j | 0 <= j < k
      ensures input[..k][..j] == input[..j] && choices[..k][..j] == choices[..j]
    {
    }
  }

  lemma FirstInStep()
    ensures InStep(NewEncoder(), ReceivedAll(NewDecoder(), []), []) && Fits(NewEncoder())
  {
    NewInStep();
  }

  lemma {:induction false} RunInStep(input: seq<byte>, choices: seq<Choice>)
    requires |choices| == |input| && Followable(input, choices)
    ensures var (e, sent) := Encoded(input, choices);
      InStep(e, ReceivedAll(NewDecoder(), sent), input) && Fits(e) && AllFit(sent)
    decreases |input|
  {
    hide Step, Followable, FollowedFitting, ReceivedAll, Received, Valid, InStep, Fits;
    if input == [] {
      FirstInStep();
    } else {
      var k := |input| - 1;
      var most, chosen := input[..k], choices[..k];
      FollowablePrefix(input, choices);
      RunInStep(most, chosen);
      var (e, sent) := Encoded(most, chosen);
      NextInStep(e, ReceivedAll(NewDecoder(), sent), most, input[k], choices[k]);
      var (e', codes) := Step(e, input[k], Applied(e, choices[k]));
      ReceivedConcat(NewDecoder(), sent, codes);
      assert input == most + [input[k]];
    }
  }

  /** The two are in step after the input and after every prefix of it. */
  ghost predicate KeptInStep(input: seq<byte>, choices: seq<Choice>)
    requires |choices| == |input|
  {
    var (e, sent) := Encoded(input, choices);
    && InStep(e, ReceivedAll(NewDecoder(), sent), input)
    && (input != [] ==> KeptInStep(input[..|input| - 1], choices[..|input| - 1]))
  }

  /** Every step is one that decode can follow. */
  ghost predicate AllFollowed(input: seq<byte>, choices: seq<Choice>)
    requires |choices| == |input|
  {
    input != [] ==>
      var k := |input| - 1;
      var e := Encoded(input[..k], choices[..k]).0;
      AllFollowed(input[..k], choices[..k]) && Followed(e, input[k], Applied(e, choices[k]))
  }

  /** Over whole runs, for any changes of mode and so for those that encode chooses, the two
      stay in step exactly when every step can be followed. */
  lemma {:induction false} RunExact(input: seq<byte>, choices: seq<Choice>)
    requires |choices| == |input|
    ensures KeptInStep(input, choices) <==> AllFollowed(input, choices)
    decreases |input|
  {
    hide Step, Followed, ReceivedAll, Received, Valid, InStep;
    if input == [] {
      FirstInStep();
    } else {
      var k := |input| - 1;
      var most, chosen := input[..k], choices[..k];
      RunExact(most, chosen);
      if KeptInStep(most, chosen) {
        var (e, sent) := Encoded(most, chosen);
        var c := Applied(e, choices[k]);
        StepExact(e, ReceivedAll(NewDecoder(), sent), most, input[k], c);
        ReceivedConcat(NewDecoder(), sent, Step(e, input[k], c).1);
        assert input == most + [input[k]];
      }
    }
  }

  lemma NextInStep(e: Encoder, d: Decoder, input: seq<byte>, b: byte, choice: Choice)
    requires InStep(e, d, input) && Fits(e) && FollowedFitting(e, b, choice)
    ensures var (e', codes) := Step(e, b, Applied(e, choice));
      InStep(e', ReceivedAll(d, codes), input + [b]) && Fits(e') && AllFit(codes)
  {
    var c := Applied(e, choice);
    StepInStep(e, d, input, b, c);
    hide ReceivedAll, Received, Valid, Search, Linked;
    assert Fits(Switched(e, b, c).0);
    StepFits(e, b, c);
  }

  /** The end of the stream gives the decoder what was still unsent, and equal dictionaries. */
  lemma EndedInStep(e: Encoder, d: Decoder, input: seq<byte>)
    requires InStep(e, d, input)
    ensures var d' := ReceivedAll(d, Ended(e)); d'.Decoder? && !d'.escaped && d'.out == input && d'.trie == e.trie
  {
    if e.compress {
      var (e1, codes) := Sent(e);
      SentReceived(e, d, input, Text(e)[0]);
      ReceivedConcat(d, codes, [Flush(e1.c2)]);
      ReceivedOne(ReceivedAll(d, codes), Flush(e1.c2));
    } else {
      assert ReceivedAll(d, []) == d;
    }
  }

  /** Everything that encode sends for an input. */
  function Stream(input: seq<byte>, choices: seq<Choice>): (tokens: seq<Token>)
    requires |choices| == |input|
    ensures AllSized(tokens)
  {
    var (e, sent) := Encoded(input, choices);
    sent + Ended(e)
  }

  /** decode undoes encode, across every change of mode. */
  lemma RoundTrip(input: seq<byte>, choices: seq<Choice>)
    requires |choices| == |input| && Followable(input, choices)
    ensures AllFit(Stream(input, choices))
    ensures var d := ReceivedAll(NewDecoder(), Stream(input, choices));
      d.Decoder? && d.out == input && d.trie == Encoded(input, choices).0.trie
  {
    hide Followable, InStep, Fits, Encoded, Received, Ended, Valid, TokenFits;
    RunInStep(input, choices);
    var (e, sent) := Encoded(input, choices);
    EndedInStep(e, ReceivedAll(NewDecoder(), sent), input);
    EndedFits(e);
    ReceivedConcat(NewDecoder(), sent, Ended(e));
  }

  // ---------------------------------------------------------------- the choices of encode

  /** The counts that encode keeps: bits taken and bits that the compressed form has or would
      have had, and how often compression has failed to pay. */
  datatype Meter = Meter(inbits: int, outbits: int, nosqueeze: int)

  /** The decision before a byte. */
  function Measured(e: Encoder, m: Meter): (r: (Choice, Meter))
    ensures Possible(e, r.0)
  {
    if m.inbits <= 2048 then (Stay, m)
    else if m.inbits < m.outbits then
      if e.compress then (ToTransparent, Meter(0, 0, m.nosqueeze))
      else if m.nosqueeze + 1 >= 5 && e.c2 > 9 then (Restart, Meter(0, 0, 0))
      else (Stay, Meter(0, 0, m.nosqueeze + 1))
    else (if e.compress then Stay else ToCompressed, Meter(0, 0, m.nosqueeze))
  }

  /** The counts after the byte. */
  function Counted(e: Encoder, b: byte, m: Meter): Meter
    requires e.Ok()
  {
    var out := if Search(e.trie, e.cur, b) == 0 then Consumed(e, b).0.c2 else 0;
    Meter(m.inbits + 8, m.outbits + out, m.nosqueeze)
  }

  /** The changes of mode that encode makes on an input, and its counts. */
  function Steered(input: seq<byte>): (r: (Meter, seq<Choice>))
    ensures |r.1| == |input|
  {
    if input == [] then (Meter(0, 0, 0), [])
    else
      var k := |input| - 1;
      var (m, choices) := Steered(input[..k]);
      var e := Encoded(input[..k], choices).0;
      var (c, m1) := Measured(e, m);
      (Counted(Switched(e, input[k], c).0, input[k], m1), choices + [c])
  }

  lemma SteeredMost(input: seq<byte>)
    requires input != []
    ensures var k := |input| - 1; Steered(input[..k]).1 == Steered(input).1[..k]
  {
    hide Encoded, Measured, Counted, Switched;
  }

  lemma {:induction false} SteeredPrefix(input: seq<byte>, k: nat)
    requires k <= |input|
    ensures Steered(input[..k]).1 == Steered(input).1[..k]
    decreases |input|
  {
    hide Steered, Encoded;
    if k == |input| {
      assert input[..k] == input;
      assert Steered(input).1[..k] == Steered(input).1;
    } else {
      var most := input[..|input| - 1];
      SteeredMost(input);
      SteeredPrefix(most, k);
      assert most[..k] == input[..k];
      assert Steered(input).1[..|input| - 1][..k] == Steered(input).1[..k];
    }
  }

  lemma EncodedUnfold(input: seq<byte>, choices: seq<Choice>)
    requires 0 < |input| == |choices|
    ensures var k := |input| - 1; var (e, sent) := Encoded(input[..k], choices[..k]);
      Encoded(input, choices).1 == sent + Step(e, input[k], Applied(e, choices[k])).1
  {
    hide Step, AllSized, Applied, Valid;
  }

  lemma EncodedMost(input: seq<byte>, choices: seq<Choice>)
    requires 0 < |input| == |choices|
    ensures var k := |input| - 1; Encoded(input[..k], choices[..k]).1 <= Encoded(input, choices).1
  {
    hide *;
    EncodedUnfold(input, choices);
  }

  lemma {:induction false} EncodedPrefix(input: seq<byte>, choices: seq<Choice>, k: nat)
    requires k <= |input| == |choices|
    ensures Encoded(input[..k], choices[..k]).1 <= Encoded(input, choices).1
    decreases |input|
  {
    hide Encoded, AllSized;
    if k == |input| {
      assert input[..k] == input && choices[..k] == choices;
    } else {
      var n := |input| - 1;
      EncodedMost(input, choices);
      EncodedPrefix(input[..n], choices[..n], k);
      assert input[..n][..k] == input[..k] && choices[..n][..k] == choices[..k];
    }
  }

  /** One byte of encode. */
  lemma SteeredNext(input: seq<byte>, k: nat)
    requires k < |input|
    ensures var (m, choices) := Steered(input[..k]);
      var (e, sent) := Encoded(input[..k], choices);
      var (c, m1) := Measured(e, m);
      var (e1, before) := Switched(e, input[k], c);
      var (e2, after) := Consumed(e1, input[k]);
      var (m', choices') := Steered(input[..k + 1]);
      && Encoded(input[..k + 1], choices') == (e2, sent + (before + after))
      && m' == Counted(e1, input[k], m1)
  {
    var next := input[..k + 1];
    assert next[..k] == input[..k];
    var choices' := Steered(next).1;
    assert choices'[..k] == Steered(input[..k]).1;
    hide Switched, Consumed, Measured, Counted, AllSized;
  }

  lemma SteeredWithin(input: seq<byte>, k: nat)
    requires k <= |input|
    ensures Encoded(input[..k], Steered(input[..k]).1).1 <= Stream(input, Steered(input).1)
  {
    hide Encoded, Steered, Ended, AllSized;
    SteeredPrefix(input, k);
    EncodedPrefix(input, Steered(input).1, k);
  }
}
