/** What leaving the compressed mode in the middle of a match does (test-progs/src/v42.c): an
    input that encode, by its own choices and with codes that all fit, turns into a buffer
    from which decode writes something else. */
module V42Leaving {
  import opened V42Trie
  import opened V42Codec
  import opened V42Runs

  // ---------------------------------------------------------------- one byte in the transparent mode

  /** The two agree on all but their dictionaries and strings. */
  ghost predicate Alike(input: seq<byte>, e: Encoder, d: Decoder) {
    && e.Ok() && d.Ok() && d.Decoder? && !d.escaped && !d.compress && !e.compress
    && e.c2 == d.c2 && e.escape == d.escape && d.out == input && AllFit(Sending(input))
  }

  lemma AlikeNext(input: seq<byte>, e: Encoder, m: Meter, d: Decoder, b: byte)
    requires After(input, e, m, d) && Alike(input, e, d) && m.inbits <= 2048
    ensures var e', d' := Consumed(e, b).0, Passed(d.(escape := Consumed(e, b).0.escape), b);
      After(input + [b], e', Counted(e, b, m), d') && Alike(input + [b], e', d')
  {
    hide Step, Switched, Consumed, Counted, Valid, Search, ReceivedAll, After, Add, Encoded, Steered, Passed,
      TokenFits, Sending, Linked;
    Onward(input, e, m, d, b);
    Staying(e, b);
    StepParts(e, b, Stay);
    StepFits(e, b, Stay);
    PlainConsumed(e, b);
    PlainReceived(e, d, b);
    PassedParts(d.(escape := Consumed(e, b).0.escape), b);
    assert Step(e, b, Stay).1 == Consumed(e, b).1;
    AllFitConcat(Sending(input), Consumed(e, b).1);
  }

  lemma AllFitConcat(a: seq<Token>, b: seq<Token>)
    requires AllFit(a) && AllFit(b)
    ensures AllFit(a + b)
  {
  }

  lemma {:induction false} AlikeStep(input: seq<byte>, e: Encoder, m: Meter, d: Decoder, b: byte)
    returns (e': Encoder, m': Meter, d': Decoder)
    requires After(input, e, m, d) && Alike(input, e, d) && m.inbits <= 2048
    ensures e.Ok() && d.Ok() && d.Decoder? && d'.Decoder? && After(input + [b], e', m', d')
    ensures Alike(input + [b], e', d')
    ensures e' == Consumed(e, b).0 && m' == Counted(e, b, m)
    ensures var passed := Passed(d, b); passed.Decoder? && d'.trie == passed.trie && d'.cur == passed.cur
  {
    hide Consumed, Counted, Valid, Search, After, Add, Passed, TokenFits, Sending, Linked;
    AlikeNext(input, e, m, d, b);
    e', m', d' := Consumed(e, b).0, Counted(e, b, m), Passed(d.(escape := Consumed(e, b).0.escape), b);
    PassedOn(d, b);
    PassedOn(d.(escape := e'.escape), b);
    PassedParts(d, b);
    PassedParts(d.(escape := e'.escape), b);
  }

  lemma PlainConsumed(e: Encoder, b: byte)
    requires e.Ok() && !e.compress
    ensures var (e', codes) := Consumed(e, b);
      && codes == [Code(b, 8)] + (if b == e.escape then [Code(1, 8)] else [])
      && !e'.compress && e'.c2 == e.c2 && e'.escape == if b == e.escape then Cycle(e.escape) else e.escape
  {
    hide Valid, Search, Add;
  }

  lemma PassedParts(d: Decoder, b: byte)
    requires d.Ok() && d.Decoder?
    ensures var d' := Passed(d, b);
      d'.Decoder? && d' == d.(trie := d'.trie, cur := d'.cur, out := d.out + [b])
  {
    hide Valid, Search, Add;
  }

  lemma PassedOn(d: Decoder, b: byte)
    requires d.Ok() && d.Decoder?
    ensures var d', n := Passed(d, b), Search(d.trie, d.cur, b);
      if n != 0 then d'.trie == d.trie && d'.cur == n
      else d.cur != 0 && Linked(d.trie, d.cur) && d'.trie == Add(d.trie, d.cur, b) && d'.cur == b + ROOT
  {
    hide Valid, Search, Add;
    SearchFinds(d.trie, d.cur, b);
  }

  // ---------------------------------------------------------------- the dictionaries

  /** The newest entry of the byte k is that for it and the byte that follows. */
  ghost predicate Link(t: Trie, n: int, k: byte)
    requires Valid(t)
  {
    && FIRST <= n + k < END && Last(t.text[n + k]) == (k + 1) % 256
    && t.kids[k + ROOT] != [] && t.kids[k + ROOT][0] == n + k
  }

  ghost predicate Leaf(t: Trie, n: int, k: nat)
    requires Valid(t)
  {
    0 <= n + k <= END && t.kids[n + k] == []
  }

  /** The entries for two bytes in order, from 2 on, of which those from i - 1 on have not been
      extended. */
  ghost predicate Chained(t: Trie, n: int, i: nat) {
    && Valid(t) && Fresh(t) && FIRST <= n <= FIRST + 258 && n + 258 <= t.free <= n + 258 + i && i <= 257
    && t.recent == t.free - 1
    && (forall k :: 2 <= k < 256 ==> Link(t, n, k))
    && (forall k :: 2 <= k < 256 && k + 1 >= i ==> Leaf(t, n, k))
  }

  lemma LinkIs(t: Trie, n: int, k: byte)
    requires Valid(t) && Link(t, n, k) && n + k != t.recent
    ensures Linked(t, k + ROOT) && Linked(t, n + k) && Search(t, k + ROOT, (k + 1) % 256) == n + k
  {
    hide Spelled, Covered, Distinct;
    assert t.parent[t.kids[k + ROOT][0]] == k + ROOT;
  }

  lemma LeafMisses(t: Trie, n: int, k: nat, b: byte)
    requires Valid(t) && Linked(t, n + k) && Leaf(t, n, k)
    ensures Search(t, n + k, b) == 0
  {
  }

  lemma ChainHit(t: Trie, n: int, i: nat)
    requires Chained(t, n, i) && 2 <= i < 256
    ensures Linked(t, i + ROOT) && Search(t, i + ROOT, (i + 1) % 256) == n + i
    ensures Chained(t, n, i + 1)
  {
    hide Valid, Link, Leaf, Search, Linked;
    LinkIs(t, n, i);
  }

  lemma ChainMiss(t: Trie, n: int, i: nat)
    requires Chained(t, n, i) && 3 <= i < 256
    ensures Linked(t, n + i - 1) && Search(t, n + i - 1, (i + 1) % 256) == 0
    ensures var u := Add(t, n + i - 1, (i + 1) % 256); Chained(u, n, i + 1) && u.free == t.free + 1
  {
    hide Valid, Link, Leaf, Search, Linked, Add, Fresh;
    var b := (i + 1) % 256;
    LinkIs(t, n, i - 1);
    LeafMisses(t, n, i - 1, b);
    AddChained(t, n, n + i - 1, b);
    var u := Add(t, n + i - 1, b);
    forall k | i <= k < 256 ensures Leaf(u, n, k) {
      assert Leaf(t, n, k);
      LeafKept(t, n + i - 1, b, n, k);
    }
  }

  /** An entry that does not extend a single byte leaves the links alone. */
  lemma AddChained(t: Trie, n: int, cur: int, b: byte)
    requires Valid(t) && Fresh(t) && FIRST <= n <= FIRST + 258 && n + 257 <= t.free < END - 1 && Linked(t, cur)
    requires cur >= FIRST
    requires forall k :: 2 <= k < 256 ==> Link(t, n, k)
    ensures var u := Add(t, cur, b);
      Valid(u) && Fresh(u) && u.free == t.free + 1 && u.recent == t.free && forall k :: 2 <= k < 256 ==> Link(u, n, k)
  {
    hide Spelled, Listed, Add;
    AddFresh(t, cur, b);
    var u := Add(t, cur, b);
    forall k | 2 <= k < 256 ensures Link(u, n, k) { assert Link(t, n, k); }
  }

  lemma LeafKept(t: Trie, cur: int, b: byte, n: int, k: nat)
    requires Valid(t) && Fresh(t) && t.free + 1 < END && Linked(t, cur) && Leaf(t, n, k) && n + k != cur
    ensures Leaf(Add(t, cur, b), n, k)
  {
    hide Spelled, Listed, Add;
    AddFresh(t, cur, b);
  }

  // ---------------------------------------------------------------- the entry that is different

  /** The entry of encode for the bytes 1 and 0. */
  ghost predicate Right(t: Trie, n: int) {
    && Valid(t) && FIRST <= n && n + 256 < END && Linked(t, n + 256)
    && t.kids[1 + ROOT] != [] && t.kids[1 + ROOT][0] == n + 256 && Last(t.text[n + 256]) == 0
  }

  /** The entry of decode in the same slot. */
  ghost predicate Wrong(t: Trie, n: int) {
    Valid(t) && FIRST <= n && n + 256 < END && Linked(t, n + 256) && t.text[n + 256] == [0, 1, 0]
  }

  lemma RightKept(t: Trie, n: int, cur: int, b: byte)
    requires Right(t, n) && Fresh(t) && n + 256 < t.free < END - 1 && Linked(t, cur) && cur != 1 + ROOT
    ensures Right(Add(t, cur, b), n)
  {
    hide Spelled, Listed, Add;
    AddFresh(t, cur, b);
  }

  lemma WrongKept(t: Trie, n: int, cur: int, b: byte)
    requires Wrong(t, n) && Fresh(t) && n + 256 < t.free < END - 1 && Linked(t, cur)
    ensures Wrong(Add(t, cur, b), n)
  {
    hide Spelled, Listed, Add;
    AddFresh(t, cur, b);
  }

  lemma RightFound(t: Trie, n: int)
    requires Right(t, n) && n + 256 != t.recent
    ensures Linked(t, 1 + ROOT) && Search(t, 1 + ROOT, 0) == n + 256 && n >= FIRST
  {
  }

  // ---------------------------------------------------------------- the second pass

  /** Where both are after the byte i % 256: there, or at the entry for it and the one before. */
  function Place(n: int, i: nat): int {
    if i % 2 == 0 then i % 256 + ROOT else n + i - 1
  }

  function Following(i: nat): (b: byte)
    ensures b == (i + 1) % 256
  {
    (i + 1) % 256
  }

  /** After the bytes 1, 0, and from 2 to i, starting over at 256: the dictionaries differ in the
      slot n + 256 only in so far as it matters here. */
  ghost predicate Second(input: seq<byte>, i: nat, n: int, e: Encoder, m: Meter, d: Decoder) {
    && After(input, e, m, d) && Alike(input, e, d) && 2 <= i <= 256
    && e.cur == d.cur == Place(n, i) && e.len == (if i % 2 == 0 then 1 else 2)
    && Chained(e.trie, n, i) && Chained(d.trie, n, i) && Right(e.trie, n) && Wrong(d.trie, n)
    && m.inbits == 8 * (i + 1) && m.outbits <= 11 * (i / 2 + 1)
  }

  lemma ChainBounds(t: Trie, n: int, i: nat)
    requires Chained(t, n, i)
    ensures Valid(t) && Fresh(t) && FIRST <= n <= FIRST + 258 && n + 256 < t.free < END - 1 && n + 256 != t.recent
  {
  }

  lemma CountedHit(e: Encoder, b: byte, m: Meter)
    requires e.Ok() && Search(e.trie, e.cur, b) != 0
    ensures Counted(e, b, m) == Meter(m.inbits + 8, m.outbits, m.nosqueeze)
  {
  }

  lemma CountedMiss(e: Encoder, b: byte, m: Meter)
    requires e.Ok() && Search(e.trie, e.cur, b) == 0
    ensures var m' := Counted(e, b, m); m'.inbits == m.inbits + 8 && m'.outbits <= m.outbits + 11
  {
    hide Valid, Search, Consumed;
  }

  lemma EncodeOn(e: Encoder, n: int, i: nat)
    requires e.Ok() && Chained(e.trie, n, i) && Right(e.trie, n) && 2 <= i < 256
    requires e.cur == Place(n, i) && e.len == if i % 2 == 0 then 1 else 2
    ensures Search(e.trie, e.cur, (i + 1) % 256) != 0 <==> i % 2 == 0
    ensures var e' := Consumed(e, (i + 1) % 256).0;
      && Chained(e'.trie, n, i + 1) && Right(e'.trie, n) && e'.cur == Place(n, i + 1)
      && e'.len == if i % 2 == 0 then 2 else 1
  {
    hide Chained, Right, Consumed, Search, Add, Valid, Linked, Fresh;
    var b := (i + 1) % 256;
    ChainBounds(e.trie, n, i);
    if i % 2 == 0 {
      ChainHit(e.trie, n, i);
      ConsumedHit(e, b);
    } else {
      ChainMiss(e.trie, n, i);
      ConsumedMiss(e, b);
      RightKept(e.trie, n, e.cur, b);
    }
  }

  lemma DecodeOn(d: Decoder, n: int, i: nat)
    requires d.Ok() && d.Decoder? && Chained(d.trie, n, i) && Wrong(d.trie, n) && 2 <= i < 256 && d.cur == Place(n, i)
    ensures var d' := Passed(d, (i + 1) % 256);
      d'.Decoder? && Chained(d'.trie, n, i + 1) && Wrong(d'.trie, n) && d'.cur == Place(n, i + 1)
  {
    hide Chained, Wrong, Passed, Search, Add, Valid, Linked, Fresh;
    var b := (i + 1) % 256;
    PassedOn(d, b);
    PassedParts(d, b);
    ChainBounds(d.trie, n, i);
    if i % 2 == 0 {
      ChainHit(d.trie, n, i);
    } else {
      ChainMiss(d.trie, n, i);
      WrongKept(d.trie, n, d.cur, b);
    }
  }

  lemma {:induction false} SecondNext(input: seq<byte>, i: nat, n: int, e: Encoder, m: Meter, d: Decoder)
    returns (e': Encoder, m': Meter, d': Decoder)
    requires Second(input, i, n, e, m, d) && i < 256
    ensures Second(input + [Following(i)], i + 1, n, e', m', d')
  {
    hide *;
    var b := Following(i);
    SecondIs(input, i, n, e, m, d);
    AlikeOk(input, e, d);
    assert b == (i + 1) % 256;
    e', m', d' := AlikeStep(input, e, m, d, b);
    EncodeOn(e, n, i);
    DecodeOn(d, n, i);
    CountsOn(e, b, i, m);
    IsSecond(input + [b], i + 1, n, e', m', d');
  }

  lemma SecondIs(input: seq<byte>, i: nat, n: int, e: Encoder, m: Meter, d: Decoder)
    requires Second(input, i, n, e, m, d)
    ensures After(input, e, m, d) && Alike(input, e, d) && 2 <= i <= 256
    ensures e.cur == d.cur == Place(n, i) && e.len == (if i % 2 == 0 then 1 else 2)
    ensures Chained(e.trie, n, i) && Chained(d.trie, n, i) && Right(e.trie, n) && Wrong(d.trie, n)
    ensures m.inbits == 8 * (i + 1) && m.outbits <= 11 * (i / 2 + 1)
  {
  }

  lemma IsSecond(input: seq<byte>, i: nat, n: int, e: Encoder, m: Meter, d: Decoder)
    requires After(input, e, m, d) && Alike(input, e, d) && 2 <= i <= 256 && d.Decoder?
    requires e.cur == d.cur == Place(n, i) && e.len == (if i % 2 == 0 then 1 else 2)
    requires Chained(e.trie, n, i) && Chained(d.trie, n, i) && Right(e.trie, n) && Wrong(d.trie, n)
    requires m.inbits == 8 * (i + 1) && m.outbits <= 11 * (i / 2 + 1)
    ensures Second(input, i, n, e, m, d)
  {
  }

  lemma CountsOn(e: Encoder, b: byte, i: nat, m: Meter)
    requires e.Ok() && (Search(e.trie, e.cur, b) != 0 <==> i % 2 == 0)
    requires m.inbits == 8 * (i + 1) && m.outbits <= 11 * (i / 2 + 1)
    ensures var m' := Counted(e, b, m); m'.inbits == 8 * (i + 2) && m'.outbits <= 11 * ((i + 1) / 2 + 1)
  {
    hide Counted, Search, Valid;
    if i % 2 == 0 {
      CountedHit(e, b, m);
    } else {
      CountedMiss(e, b, m);
    }
  }

  lemma AlikeOk(input: seq<byte>, e: Encoder, d: Decoder)
    requires Alike(input, e, d)
    ensures e.Ok() && d.Ok() && d.Decoder?
  {
  }

  // ---------------------------------------------------------------- leaving the compressed mode

  /** After the first pass, encode leaves the compressed mode before the byte 1: decode goes on
      with the string of the bytes 0 and 1. */
  ghost predicate LeftBehind(input: seq<byte>, n: int, e: Encoder, m: Meter, d: Decoder) {
    && After(input, e, m, d) && Alike(input, e, d) && RampTrie(e.trie, 256, n) && d.trie == e.trie
    && e.cur == 1 + ROOT && e.len == 1 && d.cur == n && m.inbits == 8 && m.outbits == 0
  }

  lemma {:induction false} Leaves() returns (input: seq<byte>, n: int, e: Encoder, m: Meter, d: Decoder)
    ensures LeftBehind(input, n, e, m, d)
  {
    hide Step, Switched, Counted, Consumed, Measured, Valid, InStep, Fits, Search, ReceivedAll, After, RampTrie,
      Passed, Sending, TokenFits;
    var ramp, e0, m0, d0;
    ramp, n, e0, m0, d0 := RampOf(256);
    FirstPair(e0.trie, n);
    RampMeasured(e0, m0);
    Onward(ramp, e0, m0, d0, 1);
    InStepSync(e0, d0, ramp);
    AfterLeaving(e0, d0, ramp, Text(e0)[0], 1);
    var e1 := Switched(e0, 1, ToTransparent).0;
    LeftAtRoot(e0);
    RootCounts(e1, Measured(e0, m0).1, 1);
    StepParts(e0, 1, ToTransparent);
    FitsPlain(e1);
    StepFits(e0, 1, ToTransparent);
    AllFitConcat(Sending(ramp), Step(e0, 1, ToTransparent).1);
    input, e, d := ramp + [1], Step(e0, 1, ToTransparent).0, ReceivedAll(d0, Step(e0, 1, ToTransparent).1);
    m := Counted(e1, 1, Measured(e0, m0).1);
    var d1 := Decoder(e0.trie, e0.cur, e.c2, e.escape, false, false, ramp);
    DecoderIs(d1);
    PassedOn(d1, 1);
    PassedParts(d1, 1);
  }

  lemma DecoderIs(d: Decoder)
    requires d.Decoder? && Valid(d.trie) && Linked(d.trie, d.cur) && 9 <= d.c2 <= 11
    ensures d.Ok()
  {
  }

  lemma FitsPlain(e: Encoder)
    requires e.Ok() && !e.compress
    ensures Fits(e)
  {
  }

  lemma RampMeasured(e: Encoder, m: Meter)
    requires e.compress && m.inbits == 8 * 257 && m.outbits >= 9 * 256
    ensures Measured(e, m) == (ToTransparent, Meter(0, 0, m.nosqueeze))
  {
  }

  lemma InStepSync(e: Encoder, d: Decoder, input: seq<byte>)
    requires InStep(e, d, input) && e.compress
    ensures e.cur != 0 && |Text(e)| > 0 && Sync(e, d, input, Text(e)[0]) && d.Ok()
  {
  }

  lemma LeftAtRoot(e: Encoder)
    requires e.Ok() && e.compress
    ensures var e1 := Switched(e, 1, ToTransparent).0; e1.cur == 0 && !e1.compress
  {
  }

  lemma FirstPair(t: Trie, n: int)
    requires RampTrie(t, 256, n)
    ensures Valid(t) && Linked(t, ROOT) && Linked(t, n) && Search(t, ROOT, 1) == n && Grow(t, ROOT, 1) == t
    ensures FIRST <= n < END
  {
    hide Spelled, Covered, Distinct, Add;
    assert PairEntry(t, n, 0) && ByteKids(t, 256, n, 0);
    assert t.parent[t.kids[0 + ROOT][0]] == ROOT;
  }

  /** The pairs in order, with one more entry in slot n + 256. */
  ghost predicate Forked(t: Trie, n: int) {
    && Valid(t) && Fresh(t) && FIRST <= n <= FIRST + 258 && t.free == n + 257 && t.recent == n + 256
    && (forall k :: 2 <= k < 256 ==> Link(t, n, k) && Leaf(t, n, k))
    && t.kids[ROOT] == [n] && Last(t.text[n]) == 1
  }

  lemma RampFork(t: Trie, n: int, cur: int)
    requires RampTrie(t, 256, n) && (cur == 1 + ROOT || cur == n)
    ensures Linked(t, cur) && Search(t, cur, 0) == 0 && Forked(Add(t, cur, 0), n)
  {
    hide Spelled, Covered, Distinct, Add, Apart, Link, Leaf;
    FirstPair(t, n);
    assert PairEntry(t, n, 0) && PairEntry(t, n, 1) && ByteKids(t, 256, n, 0) && ByteKids(t, 256, n, 1);
    FindTwo(t, t.kids[cur], 0);
    AddFresh(t, cur, 0);
    var u := Add(t, cur, 0);
    forall k | 2 <= k < 256 ensures Link(u, n, k) && Leaf(u, n, k) { PairLink(t, n, cur, k); }
  }

  lemma PairLink(t: Trie, n: int, cur: int, k: byte)
    requires RampTrie(t, 256, n) && (cur == 1 + ROOT || cur == n) && Linked(t, cur) && k >= 2
    ensures var u := Add(t, cur, 0); Link(u, n, k) && Leaf(u, n, k)
  {
    hide Spelled, Listed, Add, Apart, ByteKids;
    assert PairEntry(t, n, k);
    AddFresh(t, cur, 0);
  }

  lemma ForkRight(t: Trie, n: int)
    requires RampTrie(t, 256, n)
    ensures Linked(t, 1 + ROOT) && Right(Add(t, 1 + ROOT, 0), n)
  {
    hide Spelled, Listed, Add, Apart, ByteKids, PairEntry;
    AddFresh(t, 1 + ROOT, 0);
  }

  lemma ForkWrong(t: Trie, n: int)
    requires RampTrie(t, 256, n)
    ensures Linked(t, n) && Wrong(Add(t, n, 0), n)
  {
    hide Spelled, Listed, Add, Apart, ByteKids;
    FirstPair(t, n);
    assert PairEntry(t, n, 0);
    AddFresh(t, n, 0);
  }

  /** The byte 2 after the byte 0. */
  lemma ForkTwo(t: Trie, n: int)
    requires Forked(t, n)
    ensures Linked(t, ROOT) && Search(t, ROOT, 2) == 0 && Chained(Add(t, ROOT, 2), n, 2)
  {
    hide Spelled, Listed, Add;
    FindTwo(t, t.kids[ROOT], 2);
    AddFresh(t, ROOT, 2);
    var u := Add(t, ROOT, 2);
    forall k | 2 <= k < 256 ensures Link(u, n, k) && Leaf(u, n, k) { assert Link(t, n, k) && Leaf(t, n, k); }
  }

  lemma ForkBounds(t: Trie, n: int)
    requires Forked(t, n)
    ensures Fresh(t) && n + 256 < t.free < END - 1
  {
  }

  lemma {:induction false} SecondStarts() returns (input: seq<byte>, n: int, e: Encoder, m: Meter, d: Decoder)
    ensures Second(input, 2, n, e, m, d)
  {
    hide Alike, After, RampTrie, Consumed, Counted, Passed, Valid, Search, Add, Linked, Right, Wrong, Forked,
      Chained, Fresh;
    var left, e0, m0, d0;
    left, n, e0, m0, d0 := Leaves();
    var t := e0.trie;
    RampFork(t, n, 1 + ROOT);
    RampFork(t, n, n);
    ForkRight(t, n);
    ForkWrong(t, n);
    var e1, m1, d1 := AlikeStep(left, e0, m0, d0, 0);
    ConsumedMiss(e0, 0);
    CountedMiss(e0, 0, m0);
    PassedOn(d0, 0);
    ForkTwo(e1.trie, n);
    ForkTwo(d1.trie, n);
    ForkBounds(e1.trie, n);
    ForkBounds(d1.trie, n);
    RightKept(e1.trie, n, ROOT, 2);
    WrongKept(d1.trie, n, ROOT, 2);
    AlikeOk(left + [0], e1, d1);
    e, m, d := AlikeStep(left + [0], e1, m1, d1, 2);
    ConsumedMiss(e1, 2);
    CountedMiss(e1, 2, m1);
    PassedOn(d1, 2);
    input := left + [0] + [2];
  }

  lemma {:induction false} SecondTo(i: nat) returns (input: seq<byte>, n: int, e: Encoder, m: Meter, d: Decoder)
    requires 2 <= i <= 256
    ensures Second(input, i, n, e, m, d)
  {
    hide Second;
    if i == 2 {
      input, n, e, m, d := SecondStarts();
    } else {
      input, n, e, m, d := SecondTo(i - 1);
      var b := Following(i - 1);
      e, m, d := SecondNext(input, i - 1, n, e, m, d);
      input := input + [b];
    }
  }

  // ---------------------------------------------------------------- back in the compressed mode

  lemma GrowKeeps(t: Trie, n: int, i: nat, b: byte)
    requires Chained(t, n, i) && Linked(t, ROOT)
    ensures var u := Grow(t, ROOT, b);
      Fresh(u) && (Right(t, n) ==> Right(u, n) && n + 256 != u.recent) && (Wrong(t, n) ==> Linked(u, n + 256))
  {
    hide Valid, Chained, Add, Right, Wrong, Fresh, Linked, Search;
    ChainBounds(t, n, i);
    if Search(t, ROOT, b) == 0 {
      if Right(t, n) { RightKept(t, n, ROOT, b); }
      if Wrong(t, n) { WrongKept(t, n, ROOT, b); WrongLinked(Add(t, ROOT, b), n); }
      AddFreshOnly(t, ROOT, b);
    } else if Wrong(t, n) {
      WrongLinked(t, n);
    }
  }

  lemma WrongLinked(t: Trie, n: int)
    requires Wrong(t, n)
    ensures Valid(t) && Linked(t, n + 256) && t.text[n + 256] == [0, 1, 0]
  {
  }

  lemma AddFreshOnly(t: Trie, cur: int, b: byte)
    requires Valid(t) && Linked(t, cur) && Fresh(t) && t.free + 1 < END
    ensures Fresh(Add(t, cur, b)) && Add(t, cur, b).recent == t.free
  {
    AddFresh(t, cur, b);
  }

  /** encode enters the compressed mode with the byte 1. */
  ghost predicate Entered(input: seq<byte>, n: int, e: Encoder, m: Meter, d: Decoder) {
    && After(input + [1], e, m, d) && e.Ok() && d.Ok() && d.Decoder? && !d.escaped && d.compress && e.compress
    && e.c2 == d.c2 && d.out == input && AllFit(Sending(input + [1])) && Fits(e)
    && e.cur == 1 + ROOT && Right(e.trie, n) && n + 256 != e.trie.recent && Wrong(d.trie, n)
    && d.cur == ROOT && Linked(Grow(d.trie, ROOT, 0), n + 256) && m.inbits == 8
  }

  lemma {:induction false} Enters(input: seq<byte>, n: int, e: Encoder, m: Meter, d: Decoder)
    returns (e': Encoder, m': Meter, d': Decoder)
    requires Second(input, 256, n, e, m, d)
    ensures Entered(input, n, e', m', d')
  {
    hide After, Step, Switched, Counted, Consumed, Measured, Valid, Fits, Search, ReceivedAll, Sending, Grow, Right,
      Wrong, Linked;
    SecondIs(input, 256, n, e, m, d);
    hide Second, Alike, Chained, Place, Fresh, TokenFits;
    PlaceEnd(n);
    AlikeParts(input, e, d);
    RootLinked(e.trie);
    RootLinked(d.trie);
    PassMeasured(e, m);
    Onward(input, e, m, d, 1);
    StepParts(e, 1, ToCompressed);
    var e1 := Switched(e, 1, ToCompressed).0;
    ToCompressedIs(e);
    GrowKeeps(e.trie, n, 256, 1);
    GrowKeeps(d.trie, n, 256, 0);
    FreshFits(e1);
    FitsPlain(e);
    StepFits(e, 1, ToCompressed);
    AllFitConcat(Sending(input), Step(e, 1, ToCompressed).1);
    RootHit(e1, 1);
    RootCounts(e1, Measured(e, m).1, 1);
    RootSilent(e1, 1);
    CommandReceived(d, 0);
    CompressedThen(d);
    e', d' := Step(e, 1, ToCompressed).0, ReceivedAll(d, Step(e, 1, ToCompressed).1);
    m' := Counted(e1, 1, Measured(e, m).1);
    assert Step(e, 1, ToCompressed).1 == [Code(e.escape, 8), Code(0, 8)];
  }

  lemma PlaceEnd(n: int)
    ensures Place(n, 256) == ROOT
  {
  }

  lemma AlikeParts(input: seq<byte>, e: Encoder, d: Decoder)
    requires Alike(input, e, d)
    ensures e.Ok() && d.Ok() && d.Decoder? && !d.escaped && !d.compress && !e.compress
    ensures e.c2 == d.c2 && e.escape == d.escape && d.out == input && AllFit(Sending(input))
    ensures Valid(e.trie) && Valid(d.trie)
  {
  }

  lemma RootLinked(t: Trie)
    requires Valid(t)
    ensures Linked(t, ROOT)
  {
  }

  lemma PassMeasured(e: Encoder, m: Meter)
    requires !e.compress && m.inbits == 8 * 257 && m.outbits <= 11 * 129
    ensures Measured(e, m) == (ToCompressed, Meter(0, 0, m.nosqueeze))
  {
  }

  lemma ToCompressedIs(e: Encoder)
    requires e.Ok() && !e.compress && e.cur == ROOT
    ensures Switched(e, 1, ToCompressed)
      == (e.(trie := Grow(e.trie, ROOT, 1), cur := 0, len := 0, compress := true), [Code(e.escape, 8), Code(0, 8)])
  {
  }

  /** The first byte of a match is not sent. */
  lemma RootSilent(e: Encoder, b: byte)
    requires e.Ok() && e.cur == 0 && e.compress
    ensures Consumed(e, b).1 == []
  {
    hide Valid;
  }

  lemma CompressedThen(d: Decoder)
    requires d.Ok() && d.Decoder? && !d.compress
    ensures Received(d.(escaped := true), Code(0, 8)) == d.(compress := true, escaped := false)
  {
  }

  /** What decode makes of the code of the different entry. */
  lemma WrongCopied(d: Decoder, n: int)
    requires d.Ok() && d.Decoder? && Wrong(d.trie, n) && d.cur == ROOT && Linked(Grow(d.trie, ROOT, 0), n + 256)
    ensures var d' := Copied(d, n + 256);
      && d'.Decoder?
      && d' == d.(trie := d'.trie, cur := n + 256, escape := d'.escape, out := d.out + [0, 1, 0])
  {
    hide Grow;
    WrongLinked(d.trie, n);
  }

  lemma FlushReceived(d: Decoder, w: int)
    requires d.Ok() && d.Decoder? && d.compress && d.c2 == w
    ensures ReceivedAll(d, [Flush(w)]) == d
  {
    ReceivedOne(d, Flush(w));
  }

  /** There is an input on which encode, by its own choices and with codes that all fit, leaves
      the compressed mode in the middle of a match, and decode later writes three bytes for the
      code of the last two. */
  lemma {:induction false} LeavingGarbles() returns (input: seq<byte>)
    ensures var tokens := Stream(input + [1] + [0], Steered(input + [1] + [0]).1);
      && AllFit(tokens)
      && var d := ReceivedAll(NewDecoder(), tokens); d.Decoder? && !d.escaped && d.out == input + [0, 1, 0]
  {
    hide After, Step, Switched, Counted, Consumed, Measured, Valid, Fits, Search, ReceivedAll, Sending, Grow, Right,
      Wrong, Linked, Sent, Ended, Copied, Second, TokenFits, Stream, Encoded, Steered;
    var n, e0, m0, d0;
    input, n, e0, m0, d0 := SecondTo(256);
    var e, m, d := Enters(input, n, e0, m0, d0);
    RightFound(e.trie, n);
    Onward(input + [1], e, m, d, 0);
    Staying(e, 0);
    StepParts(e, 0, Stay);
    StayMeasured(e, m);
    StepFits(e, 0, Stay);
    StayHit(e, 0);
    var e', m', d' := Step(e, 0, Stay).0, Counted(Switched(e, 0, Stay).0, 0, Measured(e, m).1),
      ReceivedAll(d, Step(e, 0, Stay).1);
    NothingReceived(d);
    var tokens := Stream(input + [1] + [0], Steered(input + [1] + [0]).1);
    StreamOf(input + [1] + [0], e', m', d');
    EndedFits(e');
    AllFitConcat(Sending(input + [1]), Step(e, 0, Stay).1);
    AllFitConcat(Sending(input + [1] + [0]), Ended(e'));
    var w := Sent(e').0.c2;
    var widen := EndCodes(e');
    SentCopied(e', d);
    WrongCopied(d.(c2 := w), n);
    ReceivedConcat(d, Sent(e').1, [Flush(w)]);
    FlushReceived(Copied(d.(c2 := w), n + 256), w);
    ReceivedConcat(NewDecoder(), Sending(input + [1] + [0]), Ended(e'));
    AfterReceived(input + [1] + [0], e', m', d');
  }

  lemma StayMeasured(e: Encoder, m: Meter)
    requires m.inbits == 8
    ensures Measured(e, m) == (Stay, m)
  {
  }

  lemma AfterReceived(input: seq<byte>, e: Encoder, m: Meter, d: Decoder)
    requires After(input, e, m, d)
    ensures d == ReceivedAll(NewDecoder(), Sending(input)) && Sending(input) == Encoded(input, Steered(input).1).1
  {
    hide ReceivedAll;
  }

  /** Losing step need not show: there is an input on which encode leaves the compressed mode in
      the middle of a match and ends before the difference comes out. */
  lemma {:induction false} FollowableNotNeeded() returns (input: seq<byte>)
    ensures !Followable(input, Steered(input).1)
    ensures var d := ReceivedAll(NewDecoder(), Stream(input, Steered(input).1));
      d.Decoder? && !d.escaped && d.out == input
  {
    hide After, ReceivedAll, Encoded, Steered, Sending, Followable, AllFit, RampTrie, Valid;
    var n, e, m, d;
    input, n, e, m, d := Leaves();
    AfterReceived(input, e, m, d);
    StreamOf(input, e, m, d);
    assert Sending(input) + Ended(e) == Sending(input);
    AfterEncoder(input, e, m, d);
    FirstPair(e.trie, n);
    if Followable(input, Steered(input).1) { RunInStep(input, Steered(input).1); }
  }

  lemma AfterEncoder(input: seq<byte>, e: Encoder, m: Meter, d: Decoder)
    requires After(input, e, m, d)
    ensures e == Encoded(input, Steered(input).1).0
  {
    hide ReceivedAll;
  }
}
