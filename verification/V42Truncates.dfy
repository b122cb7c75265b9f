/** What encode does of its own accord with all pairs of bytes of seven distances
    (test-progs/src/v42.c): the transparent mode fills the dictionary without a change of
    width, the free slot starts over, and the compressed mode then sends a code that does not
    fit its nine bits. */
module V42Truncates {
  import opened Powers
  import opened V42Trie
  import opened V42Codec
  import opened V42Runs
  import Division

  /** The slots of the dictionary. */
  const SLOTS: nat := END - FIRST

  /** The place in the sequence from which it is repeated. */
  const BACK: nat := 799

  // ---------------------------------------------------------------- the sequence

  /** Byte k: steps of 1, then of 3, and so on, each all the way round. */
  function X(k: nat): byte {
    k % 256 * (2 * (k / 256) + 1) % 256
  }

  lemma Stride(k: nat)
    ensures (X(k + 1) - X(k)) % 256 == (2 * (k / 256) + 1) % 256
  {
    var q, r := k / 256, k % 256;
    var d := 2 * q + 1;
    if r < 255 {
      assert (k + 1) / 256 == q && (k + 1) % 256 == r + 1;
      StrideWithin(r * d, d);
      assert (r + 1) * d == r * d + d;
    } else {
      assert (k + 1) / 256 == q + 1 && (k + 1) % 256 == 0 && X(k + 1) == 0;
      StrideWithin(255 * d, d);
    }
  }

  lemma StrideWithin(u: nat, d: nat)
    ensures ((u + d) % 256 - u % 256) % 256 == d % 256
  {
  }

  /** The factor that undoes a step. */
  function Undo(q: nat): nat {
    if q == 0 then 1 else if q == 1 then 171 else if q == 2 then 205 else if q == 3 then 183
    else if q == 4 then 57 else if q == 5 then 163 else 197
  }

  lemma Undone(r: nat, q: nat)
    requires r < 256 && q <= 6
    ensures r * (2 * q + 1) % 256 * Undo(q) % 256 == r
  {
    var d, u := 2 * q + 1, Undo(q);
    Division.ModTimes(r * d, 256, u);
    var c := if q <= 0 then 0 else if q <= 1 then 2 else if q <= 2 then 4 else if q <= 3 then 5
             else if q <= 4 then 2 else if q <= 5 then 7 else 10;
    assert d * u == 256 * c + 1;
    UndoneBy(r, d, u, c);
  }

  lemma UndoneBy(r: nat, d: nat, u: nat, c: nat)
    requires r < 256 && d * u == 256 * c + 1
    ensures r * d * u % 256 == r
  {
    assert r * d * u == r * (d * u) == (r * c) * 256 + r;
    Division.Parts(r * d * u, 256, r * c, r);
  }

  /** No two places have the same byte and the same next one. */
  lemma PairsDistinct(j: nat, k: nat)
    requires j < SLOTS && k < SLOTS && X(j) == X(k) && X(j + 1) == X(k + 1)
    ensures j == k
  {
    Stride(j);
    Stride(k);
    SameStride(j / 256, k / 256);
    Undone(j % 256, j / 256);
    Undone(k % 256, k / 256);
  }

  lemma SameStride(p: nat, q: nat)
    requires p <= 6 && q <= 6 && (2 * p + 1) % 256 == (2 * q + 1) % 256
    ensures p == q
  {
  }

  // ---------------------------------------------------------------- filling the dictionary

  /** Slot p has the entry for the bytes at its own place and the next. */
  ghost predicate Pair(t: Trie, p: int)
    requires Valid(t) && FIRST <= p < END
  {
    t.parent[p] == X(p - FIRST) + ROOT && Last(t.text[p]) == X(p - FIRST + 1)
  }

  /** The dictionary with the entries for the first k pairs, before the slots run out. */
  ghost predicate Paired(t: Trie, k: nat) {
    && Valid(t) && Fresh(t) && k < SLOTS && t.free == FIRST + k
    && (forall p :: FIRST <= p < FIRST + k ==> Pair(t, p))
    && (forall p :: FIRST <= p < FIRST + k ==> t.kids[p] == [])
  }

  /** The dictionary when all slots have been used and the first s for the second time, each
      for a longer string.  The entry for the pair at BACK + 2 i has got a child for every
      i below s. */
  ghost predicate Wrapped(t: Trie, s: nat) {
    && Valid(t) && s <= 133 && t.free == FIRST + s && t.recent == (if s == 0 then END - 1 else FIRST + s - 1)
    && (forall p :: FIRST + s < p < END ==> Pair(t, p))
    && (forall p :: FIRST <= p < FIRST + s ==> t.parent[p] >= FIRST)
    && (forall p :: FIRST <= p < END && (p < FIRST + BACK || FIRST + BACK + 2 * s <= p) ==> t.kids[p] == [])
  }

  /** A pair that has not occurred has no entry. */
  lemma PairMissing(t: Trie, k: nat)
    requires Paired(t, k)
    ensures Linked(t, X(k) + ROOT) && Search(t, X(k) + ROOT, X(k + 1)) == 0
  {
    hide Covered, Distinct, X;
    var n := Search(t, X(k) + ROOT, X(k + 1));
    if n != 0 {
      SearchedKid(t, X(k) + ROOT, X(k + 1));
      assert Pair(t, n);
      PairsDistinct(n - FIRST, k);
      assert false;
    }
  }

  lemma SearchedKid(t: Trie, cur: int, b: byte)
    requires Valid(t) && ROOT <= cur < FIRST && Search(t, cur, b) != 0
    ensures var n := Search(t, cur, b);
      && FIRST <= n < END && n != t.free && n != t.recent && t.parent[n] == cur && Last(t.text[n]) == b
      && (Fresh(t) ==> n < t.free)
  {
    hide Covered, Distinct;
    assert Search(t, cur, b) in t.kids[cur];
  }

  lemma PairAdded(t: Trie, k: nat)
    requires Paired(t, k) && k + 1 < SLOTS && Linked(t, X(k) + ROOT)
    ensures Paired(Add(t, X(k) + ROOT, X(k + 1)), k + 1)
  {
    hide Spelled, Listed, X;
    AddFresh(t, X(k) + ROOT, X(k + 1));
    assert Last(t.text[X(k) + ROOT] + [X(k + 1)]) == X(k + 1);
    var u := Add(t, X(k) + ROOT, X(k + 1));
    forall p | FIRST <= p < FIRST + k + 1 ensures Pair(u, p) {
      assert p < FIRST + k ==> Pair(t, p);
    }
  }

  /** add_dict where the next slot is a leaf in use, or has none after it: that one is taken
      out of its list and is free then. */
  lemma AddReuse(t: Trie, cur: int, b: byte, me: int)
    requires Valid(t) && Linked(t, cur) && FIRST <= me < END && me != cur && t.kids[me] == []
    requires me == if t.free + 1 < END then t.free + 1 else FIRST
    ensures var u := Add(t, cur, b);
      && u.parent == t.parent[t.free := cur] && u.text == t.text[t.free := t.text[cur] + [b]]
      && u.free == me && u.recent == t.free && |u.kids| == END + 1
      && forall p :: 0 <= p <= END && p != cur && t.kids[p] == [] ==> u.kids[p] == []
  {
    hide Spelled, Listed;
    var f := Fill(t, cur, b);
    assert f.kids[me] == [];
    assert NextLeaf(f.kids, t.free) == me;
    hide NextLeaf, FirstLeaf;
  }

  /** The last slot is used, and the first one is free again. */
  lemma PairsWrap(t: Trie, k: nat)
    requires Paired(t, k) && k + 1 == SLOTS && Linked(t, X(k) + ROOT)
    ensures Wrapped(Add(t, X(k) + ROOT, X(k + 1)), 0)
  {
    hide Spelled, Listed, X, Fresh, Add;
    var cur, b := X(k) + ROOT, X(k + 1);
    AddReuse(t, cur, b, FIRST);
    var u := Add(t, cur, b);
    assert Last(t.text[cur] + [b]) == b;
    forall p | FIRST < p < END ensures Pair(u, p) {
      assert p < FIRST + k ==> Pair(t, p);
    }
  }

  // ---------------------------------------------------------------- the sequence again

  /** A pair that is still there is found, at its own slot. */
  lemma PairFound(t: Trie, s: nat, k: nat)
    requires Wrapped(t, s) && s < k < SLOTS - 1
    ensures Linked(t, X(k) + ROOT) && Search(t, X(k) + ROOT, X(k + 1)) == FIRST + k
  {
    hide Covered, Distinct, X;
    assert Pair(t, FIRST + k);
    EntryFound(t, X(k) + ROOT, X(k + 1), FIRST + k);
    SearchedKid(t, X(k) + ROOT, X(k + 1));
    var n := Search(t, X(k) + ROOT, X(k + 1));
    assert n > FIRST + s;
    assert Pair(t, n);
    PairsDistinct(n - FIRST, k);
  }

  /** The entry of a pair that has no child yet. */
  lemma PairEnds(t: Trie, s: nat, b: byte)
    requires Wrapped(t, s) && s < 133
    ensures Linked(t, FIRST + BACK + 2 * s) && Search(t, FIRST + BACK + 2 * s, b) == 0
  {
    hide Spelled, Listed, X;
    assert Pair(t, FIRST + BACK + 2 * s);
  }

  /** It gets one, in the free slot, and the next slot is free. */
  lemma WrapNext(t: Trie, s: nat, b: byte)
    requires Wrapped(t, s) && s < 133 && Linked(t, FIRST + BACK + 2 * s)
    ensures Wrapped(Add(t, FIRST + BACK + 2 * s, b), s + 1)
  {
    hide Spelled, Listed, X, Add;
    var cur := FIRST + BACK + 2 * s;
    AddReuse(t, cur, b, FIRST + s + 1);
    var u := Add(t, cur, b);
    forall p | FIRST + s + 1 < p < END ensures Pair(u, p) {
      assert Pair(t, p);
    }
  }

  // ---------------------------------------------------------------- encode on the sequence

  /** In the transparent mode a byte without an entry ends the match and keeps the width. */
  lemma PlainMiss(e: Encoder, b: byte)
    requires e.Ok() && !e.compress && Search(e.trie, e.cur, b) == 0 && e.len < LONGEST
    ensures e.cur != 0 && Linked(e.trie, e.cur)
    ensures var e' := Consumed(e, b).0;
      e'.trie == Add(e.trie, e.cur, b) && e'.cur == b + ROOT && e'.len == 1 && !e'.compress && e'.c2 == e.c2
  {
    hide Valid, Search, Add, Sent, Extended;
    ExtendedMiss(e.(escape := if b == e.escape then Cycle(e.escape) else e.escape), b);
  }

  lemma Counts(e: Encoder, m: Meter, b: byte, miss: bool)
    requires e.Ok() && (miss <==> Search(e.trie, e.cur, b) == 0) && Consumed(e, b).0.c2 == 9
    ensures Counted(e, b, m) == Meter(m.inbits + 8, m.outbits + if miss then 9 else 0, m.nosqueeze)
  {
    hide Valid, Consumed, Search;
  }

  /** The first SLOTS + 1 bytes of the sequence, and then 268 from BACK + 1 on again. */
  function Sequence(): (s: seq<byte>)
    ensures |s| == 2058
  {
    seq(2058, (k: nat) => if k <= SLOTS then X(k) else X(BACK + k - SLOTS))
  }

  /** In step, in the transparent mode, after the first k bytes, with codes that fit. */
  ghost predicate Plainly(input: seq<byte>, k: nat, e: Encoder, d: Decoder) {
    k <= 2058 && input == Sequence()[..k] && InStep(e, d, input) && !e.compress && AllFit(Sending(input))
  }

  lemma PlainlyNext(input: seq<byte>, k: nat, e: Encoder, m: Meter, d: Decoder, b: byte)
    requires After(input, e, m, d) && Plainly(input, k, e, d) && k < 2058 && b == Sequence()[k]
    requires e.Ok() && Measured(e, m).0 == Stay && (Search(e.trie, e.cur, b) == 0 ==> e.len < LONGEST)
    ensures d.Ok() && !Step(e, b, Stay).0.compress
    ensures Plainly(input + [b], k + 1, Step(e, b, Stay).0, ReceivedAll(d, Step(e, b, Stay).1))
  {
    hide Valid, InStep, Step, Search, ReceivedAll, Sequence, Switched, Consumed;
    InStepOk(e, d, input);
    Onward(input, e, m, d, b);
    StepInStep(e, d, input, b, Stay);
    Staying(e, b);
    StepParts(e, b, Stay);
    StepFits(e, b, Stay);
    assert Sequence()[..k] + [b] == Sequence()[..k + 1];
  }

  /** After byte k of the sequence, while the slots last. */
  ghost predicate Filling(input: seq<byte>, k: nat, e: Encoder, m: Meter, d: Decoder) {
    && k < SLOTS && Plainly(input, k + 1, e, d)
    && After(input, e, m, d) && e.Ok() && Paired(e.trie, k) && e.cur == X(k) + ROOT && e.len == 1
    && !e.compress && e.c2 == 9 && Window(m, k, k % 257 + 1)
  }

  /** The counts after a number of bytes in the window of 257, the number being 257 at its
      end, when all of them have ended a match, save perhaps one. */
  predicate Window(m: Meter, k: nat, bytes: nat) {
    m.inbits == 8 * bytes && m.outbits >= 9 * (bytes - 1)
  }

  lemma {:induction false} FillStarts() returns (input: seq<byte>, e: Encoder, m: Meter, d: Decoder)
    ensures Filling(input, 0, e, m, d)
  {
    hide Step, Valid, ReceivedAll, Consumed, Counted, Fresh, After, InStep, Sequence, Sending, Search, Plainly;
    AfterNothing();
    NewInStep();
    var e0, m0, d0 := NewEncoder(), Meter(0, 0, 0), NewDecoder();
    PlainlyStarts(e0, d0);
    RootHit(e0, X(0));
    SequenceAt(0);
    PlainlyNext([], 0, e0, m0, d0, X(0));
    Onward([], e0, m0, d0, X(0));
    Staying(e0, X(0));
    StepParts(e0, X(0), Stay);
    RootHit(e0, X(0));
    Counts(e0, m0, X(0), false);
    input, e, d := [] + [X(0)], Step(e0, X(0), Stay).0, ReceivedAll(d0, Step(e0, X(0), Stay).1);
    m := Counted(e0, X(0), m0);
    NothingPaired();
  }

  lemma PlainlyStarts(e: Encoder, d: Decoder)
    requires InStep(e, d, []) && !e.compress && Sending([]) == []
    ensures Plainly([], 0, e, d)
  {
    hide InStep, Sending;
    assert Sequence()[..0] == [];
  }

  lemma SequenceAt(k: nat)
    requires k < 2058
    ensures Sequence()[k] == if k <= SLOTS then X(k) else X(BACK + k - SLOTS)
  {
    hide X;
  }

  lemma NothingPaired()
    ensures Paired(NewTrie(), 0)
  {
    NewTrieValid();
  }

  /** One byte of the sequence, which ends the match; the mode stays. */
  lemma {:induction false} FillStep(input: seq<byte>, k: nat, e: Encoder, m: Meter, d: Decoder)
    returns (input': seq<byte>, e': Encoder, m': Meter, d': Decoder)
    requires Filling(input, k, e, m, d)
    ensures After(input', e', m', d') && e'.Ok() && Linked(e.trie, e.cur) && e'.trie == Add(e.trie, e.cur, X(k + 1))
    ensures e'.cur == X(k + 1) + ROOT && e'.len == 1 && !e'.compress && e'.c2 == 9
    ensures Window(m', k + 1, (k + 1) % 257 + 1) && Plainly(input', k + 2, e', d')
  {
    hide Step, Consumed, Switched, Counted, Valid, Search, ReceivedAll, After, Add, Linked, Fresh, X, Paired, Plainly;
    SequenceAt(k + 1);
    var b := X(k + 1);
    AfterOk(input, e, m, d);
    PairMissing(e.trie, k);
    Onward(input, e, m, d, b);
    Staying(e, b);
    StepParts(e, b, Stay);
    PlainMiss(e, b);
    Counts(e, Measured(e, m).1, b, true);
    WindowEnds(k);
    PlainlyNext(input, k + 1, e, m, d, b);
    input', e', d' := input + [b], Step(e, b, Stay).0, ReceivedAll(d, Step(e, b, Stay).1);
    m' := Counted(e, b, Measured(e, m).1);
  }

  lemma WindowEnds(k: nat)
    ensures (k + 1) % 257 == if k % 257 == 256 then 0 else k % 257 + 1
  {
  }

  lemma {:induction false} FillNext(input: seq<byte>, k: nat, e: Encoder, m: Meter, d: Decoder)
    returns (input': seq<byte>, e': Encoder, m': Meter, d': Decoder)
    requires Filling(input, k, e, m, d) && k + 1 < SLOTS
    ensures Filling(input', k + 1, e', m', d')
  {
    hide Valid, After, Add, Linked, Fresh, X, Paired, Search, Plainly;
    input', e', m', d' := FillStep(input, k, e, m, d);
    PairAdded(e.trie, k);
  }

  lemma {:induction false} FillUpTo(k: nat) returns (input: seq<byte>, e: Encoder, m: Meter, d: Decoder)
    requires k < SLOTS
    ensures Filling(input, k, e, m, d)
  {
    hide Filling;
    if k == 0 {
      input, e, m, d := FillStarts();
    } else {
      input, e, m, d := FillUpTo(k - 1);
      input, e, m, d := FillNext(input, k - 1, e, m, d);
    }
  }

  /** The sequence again from BACK on, i bytes of it: every other one ends a match, and the
      window that began with the first bytes of it is cheap. */
  ghost predicate Replaying(input: seq<byte>, i: nat, e: Encoder, m: Meter, d: Decoder) {
    && Plainly(input, SLOTS + 1 + i, e, d)
    && After(input, e, m, d) && e.Ok() && Wrapped(e.trie, i / 2) && i <= 266 && !e.compress && e.c2 == 9
    && (if i % 2 == 0 then e.cur == X(BACK + i) + ROOT && e.len == 1 else e.cur == FIRST + BACK + i - 1 && e.len == 2)
    && Replayed(m, i)
  }

  /** The counts: nine bytes end a window of misses, and the next one is cheap. */
  predicate Replayed(m: Meter, i: nat) {
    if i <= 9 then m.inbits == 8 * (248 + i) && m.outbits >= 2223
    else m.inbits == 8 * (i - 9) && 16 * m.outbits + (if i % 2 == 1 then 72 else 0) <= 9 * m.inbits + 144
  }

  lemma ReplayStays(e: Encoder, m: Meter, i: nat)
    requires !e.compress && e.c2 == 9 && Replayed(m, i) && i < 266
    ensures var (c, m1) := Measured(e, m);
      c == Stay && Replayed(Meter(m1.inbits + 8, m1.outbits + if i % 2 == 1 then 9 else 0, m1.nosqueeze), i + 1)
  {
  }

  lemma ReplayEnds(e: Encoder, m: Meter)
    requires !e.compress && Replayed(m, 266)
    ensures Measured(e, m).0 == ToCompressed && Measured(e, m).1 == Meter(0, 0, m.nosqueeze)
  {
  }

  lemma {:induction false} ReplayStarts() returns (input: seq<byte>, e: Encoder, m: Meter, d: Decoder)
    ensures Replaying(input, 0, e, m, d)
  {
    hide Valid, After, Add, Linked, Fresh, Paired, Wrapped, Search, X, Plainly;
    SameByte();
    var input0, e0, m0, d0 := FillUpTo(SLOTS - 1);
    input, e, m, d := FillStep(input0, SLOTS - 1, e0, m0, d0);
    PairsWrap(e0.trie, SLOTS - 1);
  }

  lemma SameByte()
    ensures X(SLOTS) == X(BACK)
  {
    Place(SLOTS, 6, 253);
    Place(BACK, 3, 31);
  }

  lemma Place(k: nat, q: nat, r: nat)
    requires k == 256 * q + r && r < 256
    ensures X(k) == r * (2 * q + 1) % 256
  {
    assert k / 256 == q && k % 256 == r;
  }

  /** The next byte: the pair is found, or its string ends the match. */
  lemma {:induction false} ReplayNext(input: seq<byte>, i: nat, e: Encoder, m: Meter, d: Decoder)
    returns (input': seq<byte>, e': Encoder, m': Meter, d': Decoder)
    requires Replaying(input, i, e, m, d) && i < 266
    ensures Replaying(input', i + 1, e', m', d')
  {
    hide Step, Consumed, Switched, Counted, Measured, Valid, Search, ReceivedAll, After, Add, Linked, X, Wrapped,
      Plainly, Replayed;
    var b := X(BACK + i + 1);
    ReplayStays(e, m, i);
    SequenceAt(SLOTS + 1 + i);
    AfterOk(input, e, m, d);
    Onward(input, e, m, d, b);
    Staying(e, b);
    StepParts(e, b, Stay);
    if i % 2 == 0 {
      PairFound(e.trie, i / 2, BACK + i);
      ConsumedHit(e, b);
      Counts(e, Measured(e, m).1, b, false);
    } else {
      PairEnds(e.trie, i / 2, b);
      WrapNext(e.trie, i / 2, b);
      PlainMiss(e, b);
      Counts(e, Measured(e, m).1, b, true);
    }
    PlainlyNext(input, SLOTS + 1 + i, e, m, d, b);
    input', e', d' := input + [b], Step(e, b, Stay).0, ReceivedAll(d, Step(e, b, Stay).1);
    m' := Counted(e, b, Measured(e, m).1);
  }

  lemma {:induction false} ReplayUpTo(i: nat) returns (input: seq<byte>, e: Encoder, m: Meter, d: Decoder)
    requires i <= 266
    ensures Replaying(input, i, e, m, d)
  {
    hide Replaying;
    if i == 0 {
      input, e, m, d := ReplayStarts();
    } else {
      input, e, m, d := ReplayUpTo(i - 1);
      input, e, m, d := ReplayNext(input, i - 1, e, m, d);
    }
  }

  /** The sequence on which encode, by its own choices, enters the compressed mode with
      entries above c3 and ends with a code of eleven bits that it sends in nine: what it sends,
      and the state of decode before the commands for the mode. */
  lemma {:induction false} SequenceSent() returns (input: seq<byte>, e: Encoder, m: Meter, d: Decoder)
    ensures Replaying(input, 266, e, m, d)
    ensures Stream(Sequence(), Steered(Sequence()).1)
      == Sending(input) + [Code(e.escape, 8), Code(0, 8)] + [Code(1325, 9)] + [Flush(9)]
  {
    hide Step, Consumed, Switched, Counted, Valid, Search, ReceivedAll, After, X, Wrapped, Linked, Plainly, Sequence,
      Sending, Fits;
    input, e, m, d := ReplayUpTo(266);
    var b, b' := X(BACK + 267), X(BACK + 268);
    AfterOk(input, e, m, d);
    ReplayEnds(e, m);
    PairFound(e.trie, 133, BACK + 266);
    Onward(input, e, m, d, b);
    EnteringKnown(e, b);
    var e1, e0 := Step(e, b, ToCompressed).0, Switched(e, b, ToCompressed).0;
    RootCounts(e0, Measured(e, m).1, b);
    var m1, d1 := Counted(e0, b, Measured(e, m).1), ReceivedAll(d, Step(e, b, ToCompressed).1);
    AfterOk(input + [b], e1, m1, d1);
    PairFound(e1.trie, 133, BACK + 267);
    Onward(input + [b], e1, m1, d1, b');
    StayHit(e1, b');
    SequenceEnds(input, e, d);
    FreeOf(e.trie, 133);
    var e2 := Step(e1, b', Stay).0;
    EndCode(e2);
    StreamOf(input + [b] + [b'], e2, Counted(Switched(e1, b', Stay).0, b', Measured(e1, m1).1),
      ReceivedAll(d1, Step(e1, b', Stay).1));
    SendingIs(Sequence());
    var commands := [Code(e.escape, 8), Code(0, 8)];
    assert Sending(input) + commands + [] + ([Code(1325, 9)] + [Flush(9)]) == Sending(input) + commands
      + [Code(1325, 9)] + [Flush(9)];
  }

  lemma SendingIs(input: seq<byte>)
    ensures Sending(input) == Encoded(input, Steered(input).1).1
  {
  }

  lemma SequenceEnds(input: seq<byte>, e: Encoder, d: Decoder)
    requires Plainly(input, 2056, e, d)
    ensures input + [X(BACK + 267)] + [X(BACK + 268)] == Sequence()
  {
    hide X, InStep, Sending;
    SequenceAt(2056);
    SequenceAt(2057);
    assert Sequence()[..2056] + [Sequence()[2056]] + [Sequence()[2057]] == Sequence();
  }

  lemma CodeTruncated()
    ensures var tokens := Stream(Sequence(), Steered(Sequence()).1); Code(1325, 9) in tokens && !AllFit(tokens)
  {
    hide Replaying, Steered, Sequence, Sending, Stream;
    var input, e, m, d := SequenceSent();
    var tokens := Stream(Sequence(), Steered(Sequence()).1);
    assert tokens[|tokens| - 2] == Code(1325, 9);
  }

  lemma FreeOf(t: Trie, s: nat)
    requires Wrapped(t, s)
    ensures t.free == FIRST + s
  {
  }

  /** Entering the compressed mode before a byte that the match goes on with. */
  lemma EnteringKnown(e: Encoder, b: byte)
    requires e.Ok() && !e.compress && Search(e.trie, e.cur, b) != 0
    ensures Switched(e, b, ToCompressed).0.cur == 0
    ensures var e' := Step(e, b, ToCompressed).0;
      e'.trie == e.trie && e'.cur == b + ROOT && e'.len == 1 && e'.compress && e'.c2 == e.c2
    ensures Step(e, b, ToCompressed).1 == [Code(e.escape, 8), Code(0, 8)]
  {
    hide Valid, Search, Consumed;
    StepParts(e, b, ToCompressed);
    var e1 := Switched(e, b, ToCompressed).0;
    RootHit(e1, b);
    NothingSent(e1, b);
  }

  lemma NothingSent(e: Encoder, b: byte)
    requires e.Ok() && e.compress && Search(e.trie, e.cur, b) != 0
    ensures Consumed(e, b).1 == []
  {
    hide Valid, Search;
  }

  lemma EndCode(e: Encoder)
    requires e.Ok() && e.compress && e.cur == 1325 && e.c2 == 9 && e.trie.free == 392
    ensures Ended(e) == [Code(1325, 9)] + [Flush(9)]
  {
    hide Valid;
    assert Widened(9, 392) == 9 && WidenCodes(9, 392) == [];
  }
}
