/** What becomes of a code that does not fit (test-progs/src/v42.c): encode, by its own choices,
    turns an input into a buffer from which decode writes something else. */
module V42Garbles {
  import opened Powers
  import opened V42Trie
  import opened V42Bits
  import C = V42Codec
  import R = V42Runs
  import T = V42Truncates
  import V42

  // ---------------------------------------------------------------- the bits

  /** At the start of a byte, nine bits of the code 1325 are those of the code 301. */
  lemma SameStores(b: seq<byte>, a: nat)
    requires a % 8 == 0 && a / 8 + 2 < |b| && Clean(b, a)
    ensures PutAt(b, a, 9, 1325) == PutAt(b, a, 9, 301)
  {
    assert Weight(15) == 0x8000 && Weight(8) == 0x100;
    hide Weight;
    assert b[a / 8] == 0;
    SamePut();
  }

  lemma SamePut()
    ensures Put3(0, 9, 1325, 0) == Put3(0, 9, 301, 0)
  {
    assert Weight(15) == 0x8000;
    hide Weight;
    assert Or(0, 662) == 662 && Or(0, 150) == 150;
  }

  /** The buffer is the same for the two codes at the end of a stream of whole bytes. */
  lemma SameBuffer(b: seq<byte>, sent: seq<C.Token>)
    requires C.AllSized(sent) && Address(sent) % 8 == 0 && Blank(b) && C.AllFit(sent) && V42.NoFlush(sent)
    requires var tokens := sent + [C.Code(1325, 9)] + [C.Flush(9)]; Address(tokens) / 8 + 2 < |b|
    ensures var tokens, others := sent + [C.Code(1325, 9)] + [C.Flush(9)], sent + [C.Code(301, 9)] + [C.Flush(9)];
      Address(others) == Address(tokens) && PutAll(b, others) == PutAll(b, tokens)
  {
    var code, other, mark := C.Code(1325, 9), C.Code(301, 9), C.Flush(9);
    EndAddress(sent, code);
    EndAddress(sent, other);
    hide Address, PutAll, PutAt, Clean, C.AllFit;
    NoFlushFramed(sent);
    PutAllHolds(b, sent);
    SameStores(PutAll(b, sent).buf, Address(sent));
    PutAllNext(b, sent, code);
    PutAllNext(b, sent, other);
    PutAllNext(b, sent + [code], mark);
    PutAllNext(b, sent + [other], mark);
  }

  lemma NoFlushFramed(sent: seq<C.Token>)
    requires V42.NoFlush(sent)
    ensures Framed(sent) && (sent == [] || !sent[|sent| - 1].Flush?)
  {
  }

  lemma EndAddress(sent: seq<C.Token>, code: C.Token)
    requires C.AllSized(sent) && Address(sent) % 8 == 0 && code.Code? && code.size == 9 && C.TokenSized(code)
    ensures Address(sent + [code]) == Address(sent) + 9 && Address(sent + [code] + [C.Flush(9)]) == Address(sent) + 24
  {
    hide Address;
    AddressNext(sent, code);
    AddressNext(sent + [code], C.Flush(9));
  }

  // ---------------------------------------------------------------- what decode makes of it

  /** The slot 301 has been used for the second time, for a string of three bytes or more. */
  lemma ReusedText(t: Trie)
    requires T.Wrapped(t, 133)
    ensures |t.text| == END + 1 && |t.text[301]| >= 3
  {
    var p := t.parent[301];
    hide Children, Distinct;
    assert p >= FIRST && t.parent[p] != 0;
    assert |t.text[p]| == |t.text[t.parent[p]]| + 1;
  }

  lemma StillLinked(t: Trie, cur: int, b: byte)
    requires T.Wrapped(t, 133) && ROOT <= cur < FIRST
    ensures Linked(t, cur) && Linked(C.Grow(t, cur, b), 301)
  {
    hide Spelled, Listed, T.Pair, Search, Add;
    if Search(t, cur, b) == 0 { T.AddReuse(t, cur, b, 393); }
  }

  /** decode gets to the commands for the compressed mode with all before them written, and
      then copies the string of slot 301. */
  lemma OtherReceived(input: seq<byte>, e: C.Encoder, m: C.Meter, d: C.Decoder)
    requires T.Replaying(input, 266, e, m, d)
    ensures d.Ok() && e.Ok()
    ensures var d' := C.ReceivedAll(d, [C.Code(e.escape, 8), C.Code(0, 8)] + [C.Code(301, 9)] + [C.Flush(9)]);
      d'.Decoder? && !d'.escaped && d'.out != T.Sequence()
  {
    hide *;
    ReplayedTo(input, e, m, d);
    TransparentIs(input, e, d);
    C.CommandReceived(d, 0);
    CompressedThen(d);
    var commands, d1 := [C.Code(e.escape, 8), C.Code(0, 8)], d.(compress := true);
    DecoderOk(d);
    C.ReceivedConcat(d, commands + [C.Code(301, 9)], [C.Flush(9)]);
    C.ReceivedConcat(d, commands, [C.Code(301, 9)]);
    C.ReceivedOne(d1, C.Code(301, 9));
    OtherCopied(e, d1);
    C.ReceivedOne(C.Received(d1, C.Code(301, 9)), C.Flush(9));
  }

  lemma ReplayedTo(input: seq<byte>, e: C.Encoder, m: C.Meter, d: C.Decoder)
    requires T.Replaying(input, 266, e, m, d)
    ensures T.Plainly(input, 2056, e, d) && T.Wrapped(e.trie, 133) && ROOT <= e.cur < FIRST && e.c2 == 9
  {
    hide T.Plainly, T.Wrapped, T.X, T.Replayed, R.After, Valid, C.Widened;
  }

  lemma DecoderOk(d: C.Decoder)
    requires d.Ok() && d.Decoder?
    ensures d.(compress := true).Ok()
  {
  }

  lemma TransparentIs(input: seq<byte>, e: C.Encoder, d: C.Decoder)
    requires T.Plainly(input, 2056, e, d)
    ensures d.Ok() && e.Ok() && d.Decoder? && !d.escaped && !d.compress && d.trie == e.trie && d.cur == e.cur
    ensures d.escape == e.escape && d.c2 == e.c2 && d.out == input && |input| == 2056 && C.Short(e.trie)
  {
    hide T.Sequence;
  }

  lemma CompressedThen(d: C.Decoder)
    requires d.Ok() && d.Decoder? && !d.escaped && !d.compress
    ensures C.Received(d.(escaped := true), C.Code(0, 8)) == d.(compress := true)
  {
  }

  lemma OtherCopied(e: C.Encoder, d: C.Decoder)
    requires d.Ok() && d.Decoder? && d.compress && !d.escaped && d.c2 == 9 && |d.out| == 2056
    requires T.Wrapped(d.trie, 133) && ROOT <= d.cur < FIRST && C.Short(d.trie)
    ensures var d' := C.Received(d, C.Code(301, 9));
      d'.Decoder? && !d'.escaped && d'.compress && d'.c2 == 9 && |d'.out| >= 2059
    ensures var d' := C.Received(d, C.Code(301, 9)); C.Received(d', C.Flush(9)) == d'
  {
    hide T.X, C.Grow, Spelled, Listed, T.Pair;
    ReusedText(d.trie);
    StillLinked(d.trie, d.cur, d.trie.text[301][0]);
  }

  // ---------------------------------------------------------------- from encode to decode

  /** The stream that encode sends for the sequence, and another one that makes the same
      buffer: decode takes it for the other, and does not write the sequence. */
  lemma {:induction false} SequenceGarbled(b: seq<byte>) returns (others: seq<C.Token>)
    requires Blank(b) && Address(C.Stream(T.Sequence(), C.Steered(T.Sequence()).1)) / 8 + 2 < |b|
    ensures var tokens := C.Stream(T.Sequence(), C.Steered(T.Sequence()).1);
      && C.AllSized(others) && Framed(others) && Address(others) == Address(tokens) && Address(others) % 8 == 0
      && PutAll(b, others) == PutAll(b, tokens) && Holds(PutAll(b, others).buf, others)
    ensures var d := C.ReceivedAll(C.NewDecoder(), others); d.Decoder? && !d.escaped && d.out != T.Sequence()
  {
    hide *;
    var input, e, m, d := T.SequenceSent();
    var sent := R.Sending(input);
    var commands := [C.Code(e.escape, 8), C.Code(0, 8)];
    others := sent + commands + [C.Code(301, 9)] + [C.Flush(9)];
    SentPlainly(input, e, m, d);
    CommandsSent(sent, e.escape);
    SameBuffer(b, sent + commands);
    SizedCode();
    EndAddress(sent + commands, C.Code(301, 9));
    FitsToo(sent + commands);
    PutAllHolds(b, others);
    OtherReceived(input, e, m, d);
    C.ReceivedConcat(C.NewDecoder(), sent, commands + [C.Code(301, 9)] + [C.Flush(9)]);
    assert sent + (commands + [C.Code(301, 9)] + [C.Flush(9)]) == others;
  }

  /** In the transparent mode whole bytes have been sent, and all codes fit. */
  lemma SentPlainly(input: seq<byte>, e: C.Encoder, m: C.Meter, d: C.Decoder)
    requires T.Replaying(input, 266, e, m, d)
    ensures var sent := R.Sending(input);
      && C.AllSized(sent) && V42.NoFlush(sent) && Address(sent) % 8 == 0 && C.AllFit(sent)
      && d == C.ReceivedAll(C.NewDecoder(), sent) && 0 <= e.escape < 0x100
  {
    hide T.X, T.Wrapped, T.Replayed, C.InStep, T.Sequence, C.AllFit;
    V42.EncodedInBytes(input, C.Steered(input).1);
    hide Address, V42.NoFlush;
  }

  lemma CommandsSent(sent: seq<C.Token>, escape: byte)
    requires C.AllSized(sent) && V42.NoFlush(sent) && Address(sent) % 8 == 0 && C.AllFit(sent)
    ensures var all := sent + [C.Code(escape, 8), C.Code(0, 8)];
      C.AllSized(all) && V42.NoFlush(all) && Address(all) % 8 == 0 && C.AllFit(all)
  {
    hide Address;
    V42.BytesTwice(sent, escape, 0);
  }

  lemma SizedCode()
    ensures C.TokenSized(C.Code(301, 9))
  {
  }

  lemma FitsToo(sent: seq<C.Token>)
    requires C.AllSized(sent) && V42.NoFlush(sent) && C.AllFit(sent)
    ensures var all := sent + [C.Code(301, 9)] + [C.Flush(9)]; C.AllSized(all) && Framed(all) && C.AllFit(all)
  {
  }

  /** The driver on this input: encode and decode do not give it back. */
  method Garbled(size: nat) returns (input: seq<byte>, output: seq<byte>)
    requires Address(C.Stream(T.Sequence(), C.Steered(T.Sequence()).1)) / 8 + 2 < size
    ensures input == T.Sequence() && output != input
  {
    hide C.Stream, C.Steered, C.ReceivedAll, Address, PutAll, Holds, Valid, C.AllSized, T.Sequence, Framed;
    input := T.Sequence();
    var modem := new V42.Modem(size);
    ghost var others := SequenceGarbled(modem.codebuf[..]);
    modem.Encode(input);
    modem.Decode(others);
    output := modem.outbuf;
  }
}
