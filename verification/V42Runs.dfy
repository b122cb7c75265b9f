/** What encode does of its own accord on two inputs (test-progs/src/v42.c): on a run of one
    byte it comes to a match of 250 bytes, and on a run followed by all bytes in order it
    leaves the compressed mode with a match that goes on.  In both decode loses step. */
module V42Runs {
  import opened Powers
  import opened V42Trie
  import opened V42Codec

  const A: byte := 97

  // ---------------------------------------------------------------- one byte of encode

  /** The encoder, its counts and the decoder after the input. */
  ghost predicate After(input: seq<byte>, e: Encoder, m: Meter, d: Decoder) {
    var (meter, choices) := Steered(input);
    var (encoder, sent) := Encoded(input, choices);
    e == encoder && m == meter && d == ReceivedAll(NewDecoder(), sent)
  }

  /** What encode has sent. */
  function Sending(input: seq<byte>): (tokens: seq<Token>)
    ensures AllSized(tokens)
  {
    Encoded(input, Steered(input).1).1
  }

  lemma AfterNothing()
    ensures After([], NewEncoder(), Meter(0, 0, 0), NewDecoder()) && Sending([]) == []
  {
  }

  lemma AfterOk(input: seq<byte>, e: Encoder, m: Meter, d: Decoder)
    requires After(input, e, m, d)
    ensures e.Ok() && d.Ok()
  {
  }

  lemma Onward(input: seq<byte>, e: Encoder, m: Meter, d: Decoder, b: byte)
    requires After(input, e, m, d)
    ensures e.Ok() && d.Ok()
    ensures var (c, m1) := Measured(e, m); var (e', codes) := Step(e, b, c);
      && After(input + [b], e', Counted(Switched(e, b, c).0, b, m1), ReceivedAll(d, codes))
      && Sending(input + [b]) == Sending(input) + codes
  {
    hide Step, Switched, Consumed, Measured, Counted, Encoded, Steered, ReceivedAll, Valid, Received;
    var next := input + [b];
    SteeredNext(next, |input|);
    assert next[..|input|] == input && next[..|input| + 1] == next;
    var c := Measured(e, m).0;
    StepParts(e, b, c);
    ReceivedConcat(NewDecoder(), Encoded(input, Steered(input).1).1, Step(e, b, c).1);
  }

  lemma StepParts(e: Encoder, b: byte, choice: Choice)
    requires e.Ok() && Possible(e, choice)
    ensures var (e1, before) := Switched(e, b, choice); var (e2, after) := Consumed(e1, b);
      Step(e, b, choice) == (e2, before + after)
  {
    hide Switched, Consumed, Valid;
  }

  // ---------------------------------------------------------------- fresh slots

  /** No slot from the free one on has been used. */
  ghost predicate Fresh(t: Trie) {
    && |t.parent| == |t.kids| == END + 1 && FIRST <= t.free <= END
    && forall p :: t.free <= p <= END ==> t.kids[p] == [] && t.parent[p] == 0
  }

  /** add_dict on a fresh slot: the next one is free then. */
  lemma AddFresh(t: Trie, cur: int, b: byte)
    requires Valid(t) && Linked(t, cur) && Fresh(t) && t.free + 1 < END
    ensures Add(t, cur, b) == Trie(t.parent[t.free := cur], t.text[t.free := t.text[cur] + [b]],
                                   t.kids[cur := [t.free] + t.kids[cur]], t.free + 1, t.free)
    ensures Fresh(Add(t, cur, b))
  {
    var f := Fill(t, cur, b);
    assert f.kids[t.free + 1] == [];
    hide Spelled, Listed, Remove;
  }

  // ---------------------------------------------------------------- the dictionary of a run

  /** On a run the dictionary grows along a path.  Every string of the path gets two entries;
      the first of them gets one, and the second is the next string of the path. */
  predicate OnPath(p: int) {
    p == A + ROOT || (p >= FIRST + 1 && (p - FIRST - 1) % 3 == 0)
  }

  /** The string of length len on the path. */
  function Path(len: nat): int {
    if len == 1 then A + ROOT else FIRST + 3 * len - 5
  }

  /** The first entry of the string of length len on the path. */
  function Twin(len: nat): int {
    FIRST + 3 * len - 3
  }

  /** The child list of p after n entries have been made. */
  function KidsOf(p: int, n: nat): seq<int> {
    if OnPath(p) then
      var x := if p == A + ROOT then FIRST else p + 2;
      if x + 1 < FIRST + n then [x + 1, x] else if x < FIRST + n then [x] else []
    else if p >= FIRST && (p - FIRST) % 3 == 0 then if p + 2 < FIRST + n then [p + 2] else []
    else []
  }

  /** The dictionary after n entries. */
  ghost predicate Grown(t: Trie, n: nat) {
    && Valid(t) && t.free == FIRST + n && t.recent == (if n == 0 then 0 else FIRST + n - 1) && Fresh(t)
    && (forall p :: 0 <= p <= END ==> t.kids[p] == KidsOf(p, n))
    && (forall p :: FIRST <= p < FIRST + n ==> Last(t.text[p]) == A)
  }

  /** Where the encoder is: on the path, or at the first entry of its last string when the
      second one has just been made. */
  predicate Walks(cur: int, len: nat, n: nat) {
    || (1 <= len <= n / 3 + 1 && cur == Path(len))
    || (n % 3 == 2 && len == n / 3 + 2 && cur == Twin(len - 1))
  }

  /** Whether the next byte of the run ends the match. */
  predicate Ends(cur: int, len: nat, n: nat) {
    if n % 3 == 2 then len == n / 3 + 2 else len == n / 3 + 1
  }

  /** A byte of the run extends the match along the path, or ends it. */
  lemma WalkOn(t: Trie, cur: int, len: nat, n: nat)
    requires Grown(t, n) && Walks(cur, len, n) && Linked(t, cur) && FIRST + n < END
    ensures Ends(cur, len, n) <==> Search(t, cur, A) == 0
    ensures !Ends(cur, len, n) ==> Walks(Search(t, cur, A), len + 1, n)
  {
    hide Spelled, Listed, Fresh;
    FindTwo(t, t.kids[cur], A);
    assert t.kids[cur] == KidsOf(cur, n);
    if cur == Path(len) && len <= n / 3 + 1 {
      PathKids(len, n);
    } else {
      TwinKids(len - 1, n);
    }
  }

  lemma PathKids(len: nat, n: nat)
    requires 1 <= len <= n / 3 + 1
    ensures var kids := KidsOf(Path(len), n); var x := Twin(len);
      if x + 1 < FIRST + n then kids == [x + 1, x] else if x < FIRST + n then kids == [x] else kids == []
  {
    assert len > 1 ==> (Path(len) - FIRST - 1) == 3 * (len - 2);
  }

  lemma TwinKids(len: nat, n: nat)
    requires len == n / 3 + 1 && n % 3 == 2
    ensures KidsOf(Twin(len), n) == []
  {
  }

  /** A search in a list of at most two. */
  lemma FindTwo(t: Trie, list: seq<int>, b: byte)
    requires Valid(t) && |list| <= 2 && forall i :: 0 <= i < |list| ==> FIRST <= list[i] <= END
    ensures |t.text| == END + 1 && forall i :: 0 <= i < |list| ==> |t.text[list[i]]| > 0
    ensures Find(t, list, b) ==
      if |list| > 0 && list[0] != t.recent && Last(t.text[list[0]]) == b then list[0]
      else if |list| > 1 && list[1] != t.recent && Last(t.text[list[1]]) == b then list[1]
      else 0
  {
    if |list| > 1 { assert list[1..] == [list[1]] && list[1..][1..] == []; }
    else if |list| > 0 { assert list[1..] == []; }
  }

  /** The entry made at the end of a match is the next one of the pattern. */
  lemma GrownNext(t: Trie, cur: int, len: nat, n: nat)
    requires Grown(t, n) && Walks(cur, len, n) && Ends(cur, len, n) && Linked(t, cur) && FIRST + n + 1 < END
    ensures Grown(Add(t, cur, A), n + 1)
  {
    hide Spelled, Listed, Linked;
    AddFresh(t, cur, A);
    var u := Add(t, cur, A);
    forall p | 0 <= p <= END ensures u.kids[p] == KidsOf(p, n + 1) {
      KidsNext(cur, len, n, p);
    }
    assert Last(t.text[cur] + [A]) == A;
  }

  lemma KidsNext(cur: int, len: nat, n: nat, p: int)
    requires Walks(cur, len, n) && Ends(cur, len, n)
    ensures KidsOf(p, n + 1) == if p == cur then [FIRST + n] + KidsOf(cur, n) else KidsOf(p, n)
  {
  }

  // ---------------------------------------------------------------- the encoder on a run

  /** The entries made when the first match of 250 bytes ends. */
  const MOST: nat := 746

  /** The byte b after a match that has an entry for it, or has none. */
  lemma ConsumedHit(e: Encoder, b: byte)
    requires e.Ok() && Search(e.trie, e.cur, b) != 0
    ensures Consumed(e, b).0
      == e.(cur := Search(e.trie, e.cur, b), len := e.len + 1,
            escape := if b == e.escape then Cycle(e.escape) else e.escape)
  {
    hide Valid, Search;
  }

  lemma ConsumedMiss(e: Encoder, b: byte)
    requires e.Ok() && Search(e.trie, e.cur, b) == 0
    ensures e.cur != 0 && Linked(e.trie, e.cur)
    ensures var e' := Consumed(e, b).0;
      && e'.trie == (if e.len < LONGEST then Add(e.trie, e.cur, b) else e.trie) && e'.cur == b + ROOT && e'.len == 1
      && e'.compress == e.compress && 9 <= e'.c2 <= 11
  {
    hide Valid, Search, Add, Sent, Extended;
    ExtendedMiss(e.(escape := if b == e.escape then Cycle(e.escape) else e.escape), b);
  }

  /** A byte of the run without a change of mode. */
  lemma ConsumedRun(e: Encoder, n: nat)
    requires e.Ok() && e.cur != 0 && Grown(e.trie, n) && Walks(e.cur, e.len, n) && n <= MOST
    requires !(n == MOST && e.len == LONGEST)
    ensures Search(e.trie, e.cur, A) == 0 <==> Ends(e.cur, e.len, n)
    ensures Search(e.trie, e.cur, A) == 0 ==> e.len < LONGEST && n < MOST
    ensures var e' := Consumed(e, A).0; var n' := if Search(e.trie, e.cur, A) == 0 then n + 1 else n;
      && Grown(e'.trie, n') && Walks(e'.cur, e'.len, n') && e'.compress == e.compress
      && e'.len == if n' == n then e.len + 1 else 1
  {
    hide Valid, Search, Add, Grown, Consumed, Walks, Linked;
    CurLinked(e);
    WalkRuns(e.trie, e.cur, e.len, n);
    if Search(e.trie, e.cur, A) == 0 {
      ConsumedMiss(e, A);
      GrownNext(e.trie, e.cur, e.len, n);
      WalkStarts(n + 1);
    } else {
      ConsumedHit(e, A);
    }
  }

  lemma CurLinked(e: Encoder)
    requires e.Ok() && e.cur != 0
    ensures Valid(e.trie) && Linked(e.trie, e.cur) && e.len >= 0
  {
  }

  lemma WalkStarts(n: nat)
    ensures Walks(A + ROOT, 1, n)
  {
  }

  lemma WalkRuns(t: Trie, cur: int, len: nat, n: nat)
    requires Grown(t, n) && Walks(cur, len, n) && Linked(t, cur) && n <= MOST && !(n == MOST && len == LONGEST)
    ensures Valid(t)
    ensures Ends(cur, len, n) <==> Search(t, cur, A) == 0
    ensures !Ends(cur, len, n) ==> Walks(Search(t, cur, A), len + 1, n)
    ensures Ends(cur, len, n) ==> len < LONGEST && n < MOST
  {
    WalkOn(t, cur, len, n);
  }

  /** Compression pays: a string of two bytes and more costs eleven bits at most. */
  ghost predicate Thrifty(m: Meter, len: int, n: nat) {
    && 0 <= m.inbits && 0 <= m.outbits
    && 16 * m.outbits + (if len >= 2 then 88 else 0) + (if n < 2 then 88 * (2 - n) else 0) <= 11 * m.inbits + 176
  }

  /** The state of encode after a run of the byte A. */
  ghost predicate Running(input: seq<byte>, n: nat, e: Encoder, m: Meter, d: Decoder) {
    && After(input, e, m, d) && e.Ok() && InStep(e, d, input) && Fits(e) && e.cur != 0
    && n <= MOST && Grown(e.trie, n) && Walks(e.cur, e.len, n) && Thrifty(m, e.len, n)
    && n < |input| && (n < 2 ==> |input| == n + 1 && e.len == 1)
    && (e.compress <==> |input| > 257) && (!e.compress ==> m.inbits == 8 * |input|) && AllFit(Sending(input))
  }

  /** What grows from byte to byte. */
  function Progress(n: nat, e: Encoder): int {
    256 * n + e.len + if e.compress then 300 else 0
  }

  lemma {:induction false} RunStarts() returns (e: Encoder, m: Meter, d: Decoder)
    ensures Running([A], 0, e, m, d)
  {
    hide Step, Valid, InStep, Fits, ReceivedAll, Grown, Walks;
    AfterNothing();
    FirstInStep();
    var e0, d0 := NewEncoder(), NewDecoder();
    StepNext([], e0, Meter(0, 0, 0), d0, A, Stay);
    RootHit(e0, A);
    assert [] + [A] == [A];
    e, d := Step(e0, A, Stay).0, ReceivedAll(d0, Step(e0, A, Stay).1);
    m := Counted(e0, A, Meter(0, 0, 0));
    WalkStarts(0);
    NothingGrown();
  }

  lemma RootHit(e: Encoder, b: byte)
    requires e.Ok() && e.cur == 0
    ensures Search(e.trie, 0, b) == b + ROOT
    ensures var e' := Consumed(e, b).0;
      e'.trie == e.trie && e'.cur == b + ROOT && e'.len == 1 && e'.compress == e.compress && e'.c2 == e.c2
  {
    ConsumedHit(e, b);
  }

  lemma NothingGrown()
    ensures Grown(NewTrie(), 0)
  {
    NewTrieValid();
  }

  /** One byte on, with a choice that decode can follow. */
  lemma StepNext(input: seq<byte>, e: Encoder, m: Meter, d: Decoder, b: byte, c: Choice)
    requires After(input, e, m, d) && e.Ok() && InStep(e, d, input) && Fits(e) && Measured(e, m).0 == c
    requires Followed(e, b, c) && (c.ToCompressed? ==> Fits(Switched(e, b, c).0))
    ensures var (e', codes) := Step(e, b, c); var d' := ReceivedAll(d, codes);
      && After(input + [b], e', Counted(Switched(e, b, c).0, b, Measured(e, m).1), d')
      && InStep(e', d', input + [b]) && Fits(e') && e' == Consumed(Switched(e, b, c).0, b).0
    ensures AllFit(Sending(input)) ==> AllFit(Sending(input + [b]))
  {
    hide Step, Switched, Consumed, Measured, Counted, Valid, InStep, Fits, Followed, ReceivedAll;
    Onward(input, e, m, d, b);
    StepParts(e, b, c);
    NextInStep(e, d, input, b, c);
  }

  /** A byte of the run: one more entry, or a longer match, or the change of mode. */
  lemma {:induction false} RunNext(input: seq<byte>, n: nat, e: Encoder, m: Meter, d: Decoder)
    returns (n': nat, e': Encoder, m': Meter, d': Decoder)
    requires Running(input, n, e, m, d) && !(n == MOST && e.len == LONGEST)
    ensures Running(input + [A], n', e', m', d') && Progress(n', e') > Progress(n, e)
  {
    hide Step, Switched, Consumed, Counted, Valid, InStep, Fits, Search, ReceivedAll, Grown, Walks, After;
    ConsumedRun(e, n);
    LenBound(e, d, input);
    var c := Measured(e, m).0;
    if c.Stay? {
      Staying(e, A);
      StepNext(input, e, m, d, A, Stay);
      n' := if Search(e.trie, e.cur, A) == 0 then n + 1 else n;
      CountedRun(e, n, Measured(e, m).1);
    } else {
      Entering(e, n);
      StepNext(input, e, m, d, A, ToCompressed);
      n' := if Search(e.trie, e.cur, A) == 0 then n + 1 else n;
      CountedStart(Switched(e, A, ToCompressed).0, Measured(e, m).1);
    }
    e' := Step(e, A, c).0;
    d' := ReceivedAll(d, Step(e, A, c).1);
    m' := Counted(Switched(e, A, c).0, A, Measured(e, m).1);
  }

  lemma LenBound(e: Encoder, d: Decoder, input: seq<byte>)
    requires InStep(e, d, input)
    ensures 0 <= e.len <= LONGEST && d.Ok()
  {
  }

  lemma Staying(e: Encoder, b: byte)
    requires e.Ok()
    ensures Switched(e, b, Stay) == (e, [])
  {
  }

  /** The counts after a byte of the run. */
  lemma CountedRun(e: Encoder, n: nat, m: Meter)
    requires e.Ok() && e.cur != 0 && Grown(e.trie, n) && Walks(e.cur, e.len, n) && n <= MOST
    requires !(n == MOST && e.len == LONGEST)
    requires Thrifty(m, e.len, n) && (n < 2 ==> e.len == 1)
    ensures var n' := if Search(e.trie, e.cur, A) == 0 then n + 1 else n;
      Thrifty(Counted(e, A, m), Consumed(e, A).0.len, n') && Counted(e, A, m).inbits == m.inbits + 8
  {
    hide Valid, Consumed, Search, Grown, Walks;
    CurLinked(e);
    WalkRuns(e.trie, e.cur, e.len, n);
    ConsumedRun(e, n);
    if Search(e.trie, e.cur, A) == 0 { ConsumedMiss(e, A); }
  }

  lemma CountedStart(e: Encoder, m: Meter)
    requires e.Ok() && e.cur == 0
    ensures Counted(e, A, m) == Meter(m.inbits + 8, m.outbits, m.nosqueeze)
  {
    hide Valid;
    RootHit(e, A);
  }

  /** The change of mode in a run. */
  lemma Entering(e: Encoder, n: nat)
    requires e.Ok() && e.cur != 0 && Grown(e.trie, n) && Walks(e.cur, e.len, n) && n < MOST && !e.compress
    ensures var e1 := Switched(e, A, ToCompressed).0; var n' := if Search(e.trie, e.cur, A) == 0 then n + 1 else n;
      && Grown(e1.trie, n') && e1.Ok() && e1.cur == 0 && Fits(e1) && e1.compress
      && var e' := Consumed(e1, A).0; e'.trie == e1.trie && e'.len == 1 && Walks(e'.cur, e'.len, n') && e'.compress
  {
    hide Valid, Search, Add, Grown, Walks, Fits, Consumed;
    CurLinked(e);
    WalkRuns(e.trie, e.cur, e.len, n);
    if Search(e.trie, e.cur, A) == 0 { GrownNext(e.trie, e.cur, e.len, n); }
    var n' := if Search(e.trie, e.cur, A) == 0 then n + 1 else n;
    var e1 := Switched(e, A, ToCompressed).0;
    FreshOf(e1.trie, n');
    FreshFits(e1);
    RootHit(e1, A);
    WalkStarts(n');
  }

  lemma FreshOf(t: Trie, n: nat)
    requires Grown(t, n)
    ensures Valid(t) && Fresh(t) && t.free == FIRST + n
  {
  }

  /** The width that covers the free slot covers all before it. */
  lemma FreshFits(e: Encoder)
    requires e.Ok() && Fresh(e.trie)
    ensures Fits(e)
  {
    hide Spelled, Listed, Weight;
    forall p | FIRST <= p < END && Linked(e.trie, p) ensures p < Weight(Widened(e.c2, e.trie.free)) {
      assert p < e.trie.free < Weight(Widened(e.c2, e.trie.free));
    }
  }

  /** A run goes on until its match has 250 bytes. */
  lemma {:induction false} RunReaches(input: seq<byte>, n: nat, e: Encoder, m: Meter, d: Decoder)
    returns (input': seq<byte>, e': Encoder, m': Meter, d': Decoder)
    requires Running(input, n, e, m, d)
    ensures Running(input', MOST, e', m', d') && e'.len == LONGEST
    decreases 256 * MOST + 600 - Progress(n, e)
  {
    hide Running;
    if n == MOST && e.len == LONGEST {
      return input, e, m, d;
    }
    var n1, e1, m1, d1 := RunNext(input, n, e, m, d);
    RunningBound(input, n, e, m, d);
    RunningBound(input + [A], n1, e1, m1, d1);
    input', e', m', d' := RunReaches(input + [A], n1, e1, m1, d1);
  }

  lemma RunningBound(input: seq<byte>, n: nat, e: Encoder, m: Meter, d: Decoder)
    requires Running(input, n, e, m, d)
    ensures Progress(n, e) < 256 * MOST + 600
  {
    LenBound(e, d, input);
  }

  /** A run that has come to the match of 250 bytes. */
  ghost predicate Full(input: seq<byte>, e: Encoder, m: Meter, d: Decoder) {
    && After(input, e, m, d) && e.Ok() && InStep(e, d, input) && e.cur != 0 && e.compress && e.len == LONGEST
    && Grown(e.trie, MOST) && Thrifty(m, e.len, MOST) && e.cur == Twin(249)
  }

  lemma {:induction false} RunFills() returns (input: seq<byte>, e: Encoder, m: Meter, d: Decoder)
    ensures Full(input, e, m, d)
  {
    hide Valid, InStep, Fits, Grown, After, Thrifty;
    var e0, m0, d0 := RunStarts();
    input, e, m, d := RunReaches([A], 0, e0, m0, d0);
  }

  /** There is an input on which encode comes to a match of 250 bytes in the compressed mode,
      in step with decode, and no longer is after one more byte of the run: its own choices
      lead it there. */
  lemma {:induction false} LongMatchReached() returns (input: seq<byte>, e: Encoder, m: Meter, d: Decoder)
    ensures After(input, e, m, d) && InStep(e, d, input) && e.len == LONGEST
    ensures forall e', m', d' :: After(input + [A], e', m', d') ==> !InStep(e', d', input + [A])
  {
    hide Valid, InStep, Search, Step, Measured, Grown, ReceivedAll, Counted, Switched;
    input, e, m, d := RunFills();
    KidlessSearch(e.trie, e.cur, A);
    CheapStays(e, m, 0);
    Onward(input, e, m, d, A);
    LongMatch(e, d, input, A);
    forall e', m', d' | After(input + [A], e', m', d') ensures !InStep(e', d', input + [A]) {
      AfterOnly(input + [A], e', m', d', Step(e, A, Stay).0, Counted(Switched(e, A, Stay).0, A, Measured(e, m).1),
        ReceivedAll(d, Step(e, A, Stay).1));
    }
  }

  lemma AfterOnly(input: seq<byte>, e: Encoder, m: Meter, d: Decoder, e': Encoder, m': Meter, d': Decoder)
    requires After(input, e, m, d) && After(input, e', m', d')
    ensures e == e' && m == m' && d == d'
  {
  }

  lemma KidlessSearch(t: Trie, cur: int, b: byte)
    requires Grown(t, MOST) && cur == Twin(249)
    ensures Linked(t, cur) && Search(t, cur, b) == 0
  {
    assert t.kids[cur] == [];
    assert cur in t.kids[Path(249)];
  }

  /** The compressed mode goes on as long as it has cost little. */
  ghost predicate Cheap(m: Meter, k: nat) {
    0 <= m.inbits && 0 <= m.outbits && 16 * m.outbits <= 11 * m.inbits + 176 * (k + 1)
  }

  lemma CheapStays(e: Encoder, m: Meter, k: nat)
    requires e.Ok() && e.compress && Cheap(m, k) && k <= 4
    ensures Measured(e, m).0 == Stay && Cheap(Measured(e, m).1, k)
  {
  }

  // ---------------------------------------------------------------- what comes of it

  const B: byte := 98
  const C: byte := 99

  /** In the compressed mode a miss sends the match. */
  lemma StayMiss(e: Encoder, m: Meter, k: nat, b: byte)
    requires e.Ok() && e.compress && Search(e.trie, e.cur, b) == 0 && Cheap(m, k)
    ensures e.cur != 0 && Linked(e.trie, e.cur)
    ensures var (e', codes) := Step(e, b, Stay);
      && e' == Encoder(if e.len < LONGEST then Add(e.trie, e.cur, b) else e.trie, b + ROOT, 1, Sent(e).0.c2,
        e'.escape, true)
      && codes == Sent(e).1
    ensures Cheap(Counted(Switched(e, b, Stay).0, b, m), k + 1)
  {
    hide Valid, Search, Add, Sent, Extended, Step, Switched, Consumed, Counted, Linked;
    ConsumedMiss(e, b);
    Staying(e, b);
    StepParts(e, b, Stay);
    MissSends(e, b);
    MissCounts(e, m, k, b);
  }

  lemma MissSends(e: Encoder, b: byte)
    requires e.Ok() && e.compress && Search(e.trie, e.cur, b) == 0
    ensures Consumed(e, b).0.c2 == Sent(e).0.c2 && Consumed(e, b).1 == [] + Sent(e).1 == Sent(e).1
  {
    hide Valid, Search, Add, Sent, Extended;
    var escape := if b == e.escape then Cycle(e.escape) else e.escape;
    ExtendedMiss(e.(escape := escape), b);
    SentSame(e, escape);
  }

  lemma MissCounts(e: Encoder, m: Meter, k: nat, b: byte)
    requires e.Ok() && Search(e.trie, e.cur, b) == 0 && Cheap(m, k)
    ensures Cheap(Counted(e, b, m), k + 1)
  {
    hide Valid, Search, Consumed;
    ConsumedMiss(e, b);
  }

  lemma StayHit(e: Encoder, b: byte)
    requires e.Ok() && e.compress && Search(e.trie, e.cur, b) != 0
    ensures var (e', codes) := Step(e, b, Stay);
      && e' == Encoder(e.trie, Search(e.trie, e.cur, b), e.len + 1, e.c2, e'.escape, true) && codes == []
  {
    hide Valid, Search;
    ConsumedHit(e, b);
  }

  /** What decode makes of a match. */
  lemma SentCopied(e: Encoder, d: Decoder)
    requires e.Ok() && e.cur >= ROOT && d.Ok() && d.Decoder? && d.compress && d.c2 == e.c2
    ensures ReceivedAll(d, Sent(e).1) == Copied(d.(c2 := Sent(e).0.c2), e.cur)
  {
    hide Grow, Passed, Copied, Spelled, Listed;
    WidenReceived(d, e.trie.free);
    var w := Widened(e.c2, e.trie.free);
    ReceivedConcat(d, WidenCodes(e.c2, e.trie.free), [Code(e.cur, w)]);
    ReceivedOne(d.(c2 := w), Code(e.cur, w));
  }

  lemma CopiedByte(d: Decoder, b: byte)
    requires d.Ok() && d.Decoder? && d.compress && d.cur != 0 && Search(d.trie, d.cur, b) == 0
    requires Fresh(d.trie) && d.trie.free + 1 < END
    ensures var d' := Copied(d, b + ROOT);
      && d'.Decoder? && d'.trie == Add(d.trie, d.cur, b) && d'.cur == b + ROOT && d'.c2 == d.c2 && d'.compress
  {
    AddFresh(d.trie, d.cur, b);
    RootText(d.trie, b);
    hide Spelled, Listed, Search, Add;
  }

  lemma RootKidless(t: Trie, b: byte, c: byte)
    requires Valid(t) && t.kids[b + ROOT] == []
    ensures Linked(t, b + ROOT) && Search(t, b + ROOT, c) == 0
  {
  }

  /** The only child of a byte that ends in c and is not the entry made last is found. */
  lemma OnlyKid(t: Trie, b: byte, c: byte, n: int)
    requires Valid(t) && t.kids[b + ROOT] == [n] && FIRST <= n < END && n != t.recent && Last(t.text[n]) == c
    ensures Linked(t, b + ROOT) && Search(t, b + ROOT, c) == n
  {
    hide Spelled, Listed;
    FindTwo(t, t.kids[b + ROOT], c);
  }

  /** After the match of 250 bytes and the byte B, decode makes an entry of 251 bytes where
      encode makes the next one. */
  lemma {:induction false} Diverging(input: seq<byte>, e: Encoder, m: Meter, d: Decoder)
    returns (e2: Encoder, m2: Meter, d2: Decoder)
    requires Full(input, e, m, d)
    ensures After(input + [B] + [C], e2, m2, d2) && Cheap(m2, 2)
    ensures e2.Ok() && e2.compress && e2.cur == C + ROOT && e2.len == 1
    ensures e2.trie == Add(e.trie, B + ROOT, C) && Linked(e.trie, B + ROOT)
    ensures d2.Ok() && d2.Decoder? && d2.compress && d2.c2 == e2.c2 && d2.cur == B + ROOT && Linked(e.trie, e.cur)
    ensures d2.trie == Add(e.trie, e.cur, B)
  {
    hide Valid, InStep, Search, Measured, Grown, ReceivedAll, Counted, Switched, Sent, Add, Step, Copied, After,
      Linked, Fresh;
    KidlessSearch(e.trie, e.cur, B);
    CheapStays(e, m, 0);
    Onward(input, e, m, d, B);
    StayMiss(e, Measured(e, m).1, 0, B);
    var e1, m1, d1 := Step(e, B, Stay).0, Counted(Switched(e, B, Stay).0, B, Measured(e, m).1),
      ReceivedAll(d, Step(e, B, Stay).1);
    SyncOf(e, d, input);
    SentReceived(e, d, input, Text(e)[0]);
    CheapStays(e1, m1, 1);
    GrownRoots(e.trie);
    RootKidless(e.trie, B, C);
    Onward(input + [B], e1, m1, d1, C);
    StayMiss(e1, Measured(e1, m1).1, 1, C);
    SentCopied(e1, d1);
    CopiedByte(d1.(c2 := Sent(e1).0.c2), B);
    e2, m2, d2 := Step(e1, C, Stay).0, Counted(Switched(e1, C, Stay).0, C, Measured(e1, m1).1),
      ReceivedAll(d1, Step(e1, C, Stay).1);
  }

  lemma SyncOf(e: Encoder, d: Decoder, input: seq<byte>)
    requires InStep(e, d, input) && e.compress
    ensures e.cur != 0 && |Text(e)| > 0 && Sync(e, d, input, Text(e)[0])
  {
  }

  lemma GrownRoots(t: Trie)
    requires Grown(t, MOST)
    ensures Valid(t) && Fresh(t) && t.free == 1005 && t.kids[B + ROOT] == t.kids[C + ROOT] == []
  {
  }

  /** There is an input that encode turns, by its own choices, into a stream with a code for
      which decode has a string of 251 bytes, one more than it can hold: decode fails. */
  lemma {:induction false} RoundTripFails() returns (input: seq<byte>, before: seq<Token>, w: int)
    ensures Stream(input, Steered(input).1) == before + [Code(1005, w), Flush(w)]
    ensures var d := ReceivedAll(NewDecoder(), before);
      && d.Decoder? && d.compress && d.c2 == w && |d.trie.text| == END + 1 && |d.trie.text[1005]| == 251
      && Copied(d, 1005).Lost?
    ensures ReceivedAll(NewDecoder(), Stream(input, Steered(input).1)).Lost?
  {
    hide Valid, Search, Measured, Grown, ReceivedAll, Counted, Switched, Sent, Add, Step, Copied, Linked, Fresh,
      Encoded, Steered;
    var run, e, m, d := RunFills();
    var e2, m2, d2 := Diverging(run, e, m, d);
    var u, v := TriesApart(e, e2.trie, d2.trie);
    var most := run + [B] + [C];
    CheapStays(e2, m2, 2);
    Onward(most, e2, m2, d2, B);
    StayMiss(e2, Measured(e2, m2).1, 2, B);
    SentCopied(e2, d2);
    CopiedByte(d2.(c2 := Sent(e2).0.c2), C);
    var e3, m3, d3 := Step(e2, B, Stay).0, Counted(Switched(e2, B, Stay).0, B, Measured(e2, m2).1),
      ReceivedAll(d2, Step(e2, B, Stay).1);
    CheapStays(e3, m3, 3);
    Onward(most + [B], e3, m3, d3, C);
    StayHit(e3, C);
    var e4, d4 := Step(e3, C, Stay).0, ReceivedAll(d3, []);
    input := most + [B] + [C];
    before, w := LastCode(input, e4, Counted(Switched(e3, C, Stay).0, C, Measured(e3, m3).1), d4, d3);
  }

  /** The entry at 1005 on the two sides, before and after the next one. */
  lemma {:induction false} TriesApart(e: Encoder, t: Trie, u: Trie) returns (t': Trie, u': Trie)
    requires e.Ok() && e.cur != 0 && e.len == LONGEST && Grown(e.trie, MOST) && e.cur == Twin(249)
    requires Linked(e.trie, B + ROOT) && Linked(e.trie, e.cur) && t == Add(e.trie, B + ROOT, C)
    requires u == Add(e.trie, e.cur, B)
    ensures Linked(t, C + ROOT) && Search(t, C + ROOT, B) == 0 && t' == Add(t, C + ROOT, B)
    ensures Linked(t', B + ROOT) && Search(t', B + ROOT, C) == 1005
    ensures Fresh(u) && u.free == 1006 && Linked(u, B + ROOT) && Search(u, B + ROOT, C) == 0
    ensures u' == Add(u, B + ROOT, C)
    ensures |u'.text| == END + 1 && |u'.text[1005]| == LONGEST + 1
  {
    hide Spelled, Listed, Search, Grown;
    GrownRoots(e.trie);
    AddFresh(e.trie, B + ROOT, C);
    AddFresh(e.trie, e.cur, B);
    RootKidless(t, C, B);
    t' := Add(t, C + ROOT, B);
    AddFresh(t, C + ROOT, B);
    RootText(e.trie, B);
    OnlyKid(t', B, C, 1005);
    RootKidless(u, B, C);
    u' := Add(u, B + ROOT, C);
    AddFresh(u, B + ROOT, C);
  }

  lemma {:induction false} LastCode(input: seq<byte>, e: Encoder, m: Meter, d: Decoder, d': Decoder)
    returns (before: seq<Token>, w: int)
    requires After(input, e, m, d) && e.Ok() && e.compress && e.cur == 1005
    requires d'.Ok() && d == ReceivedAll(d', []) && d'.Decoder? && d'.compress && d'.c2 == e.c2
    requires |d'.trie.text| == END + 1 && |d'.trie.text[1005]| == LONGEST + 1
    ensures Stream(input, Steered(input).1) == before + [Code(1005, w), Flush(w)]
    ensures ReceivedAll(NewDecoder(), before) == d'.(c2 := w) && Copied(d'.(c2 := w), 1005).Lost?
    ensures ReceivedAll(NewDecoder(), Stream(input, Steered(input).1)).Lost?
  {
    hide Valid, Encoded, Steered, Grow, Passed, Linked, Sent, Ended, Stream, Widened, WidenCodes, ReceivedAll, Received;
    SentCopied(e, d');
    w := Sent(e).0.c2;
    var sent := Encoded(input, Steered(input).1).1;
    var widen := EndCodes(e);
    before := sent + widen;
    FreeBelow(e.trie);
    WidenReceived(d', e.trie.free);
    NothingReceived(d');
    ReceivedConcat(NewDecoder(), sent, widen);
    ReceivedConcat(NewDecoder(), sent, Ended(e));
    ReceivedConcat(d, Sent(e).1, [Flush(w)]);
    LostStays(w);
    StreamOf(input, e, m, d);
  }

  /** What ends the stream in the compressed mode: the codes that widen, the match, the mark. */
  lemma {:induction false} EndCodes(e: Encoder) returns (widen: seq<Token>)
    requires e.Ok() && e.compress && e.cur != 0
    ensures widen == WidenCodes(e.c2, e.trie.free) && Sent(e).0.c2 == Widened(e.c2, e.trie.free)
    ensures Ended(e) == Sent(e).1 + [Flush(Sent(e).0.c2)] == widen + [Code(e.cur, Sent(e).0.c2), Flush(Sent(e).0.c2)]
  {
    widen := WidenCodes(e.c2, e.trie.free);
  }

  lemma StreamOf(input: seq<byte>, e: Encoder, m: Meter, d: Decoder)
    requires After(input, e, m, d)
    ensures e.Ok() && Stream(input, Steered(input).1) == Encoded(input, Steered(input).1).1 + Ended(e)
  {
  }

  lemma NothingReceived(d: Decoder)
    requires d.Ok()
    ensures ReceivedAll(d, []) == d
  {
  }

  lemma LostStays(w: int)
    ensures ReceivedAll(Lost, [Flush(w)]) == Lost
  {
    ReceivedOne(Lost, Flush(w));
  }

  lemma FreeBelow(t: Trie)
    requires Valid(t)
    ensures FIRST <= t.free < END
  {
  }

  // ---------------------------------------------------------------- leaving the compressed mode

  /** A run of k bytes, before the first change of mode. */
  lemma {:induction false} RunOf(k: nat) returns (input: seq<byte>, n: nat, e: Encoder, m: Meter, d: Decoder)
    requires 1 <= k <= 257
    ensures |input| == k && Running(input, n, e, m, d)
  {
    if k == 1 {
      e, m, d := RunStarts();
      input, n := [A], 0;
    } else {
      input, n, e, m, d := RunOf(k - 1);
      ShortRun(input, n, e, m, d);
      hide Running;
      n, e, m, d := RunNext(input, n, e, m, d);
      input := input + [A];
    }
  }

  lemma ShortRun(input: seq<byte>, n: nat, e: Encoder, m: Meter, d: Decoder)
    requires Running(input, n, e, m, d) && |input| < MOST
    ensures n != MOST
  {
  }

  /** No entry for the byte i and the one that follows it. */
  ghost predicate Apart(t: Trie, i: byte)
    requires Valid(t)
  {
    forall kid :: kid in t.kids[i + ROOT] ==> Last(t.text[kid]) != (i + 1) % 256
  }

  /** The entry for the byte i and the one that follows it is the newest of that byte, and has none
      that extends it. */
  ghost predicate PairEntry(t: Trie, n: int, i: byte)
    requires Valid(t)
  {
    && FIRST <= n + i < END && t.kids[n + i] == [] && t.text[n + i] == [i, (i + 1) % 256]
    && t.kids[i + ROOT] != [] && t.kids[i + ROOT][0] == n + i
  }

  /** No other entries but those extend a byte other than A. */
  ghost predicate ByteKids(t: Trie, j: nat, n: int, i: byte)
    requires Valid(t)
  {
    i != A ==> t.kids[i + ROOT] == if i < j then [n + i] else []
  }

  /** The dictionary when every byte has got the entry for it and the next one, up to j; that
      for 0 and 1 is at slot n. */
  ghost predicate RampTrie(t: Trie, j: nat, n: int) {
    && Valid(t) && Fresh(t) && FIRST <= n <= FIRST + 258 && t.free == n + j && j <= 256
    && (forall i :: j <= i < 256 ==> Apart(t, i))
    && (forall i: byte :: ByteKids(t, j, n, i))
    && (forall i :: 0 <= i < j ==> PairEntry(t, n, i))
    && (j >= 1 ==> t.recent == n + j - 1 && t.parent[n] == ROOT)
  }

  /** After the run have come the bytes up to j, in order and starting over at 256, each of
      which has ended the match. */
  ghost predicate Ramping(input: seq<byte>, j: nat, n: int, e: Encoder, m: Meter, d: Decoder) {
    && After(input, e, m, d) && e.Ok() && InStep(e, d, input) && Fits(e)
    && RampTrie(e.trie, j, n) && e.compress && e.len == 1 && e.cur == j % 256 + ROOT
    && m.inbits == 8 * (j + 1) && m.outbits >= 9 * j && AllFit(Sending(input))
  }

  lemma {:induction false} RampStarts() returns (input: seq<byte>, n: int, e: Encoder, m: Meter, d: Decoder)
    ensures Ramping(input, 0, n, e, m, d)
  {
    hide Step, Switched, Counted, Consumed, Measured, Valid, InStep, Fits, Search, ReceivedAll, Grown, Walks, After,
      Running, RampTrie;
    var run, k, e0, m0, d0 := RunOf(257);
    RunEnters(run, k, e0, m0, d0);
    EnteringOther(e0, k, 0);
    StepNext(run, e0, m0, d0, 0, ToCompressed);
    var e1 := Switched(e0, 0, ToCompressed).0;
    RootCounts(e1, Measured(e0, m0).1, 0);
    RootHit(e1, 0);
    input, n := run + [0], FIRST + k + 1;
    e, d := Step(e0, 0, ToCompressed).0, ReceivedAll(d0, Step(e0, 0, ToCompressed).1);
    m := Counted(e1, 0, Measured(e0, m0).1);
  }

  /** After 257 bytes of the run, encode enters the compressed mode. */
  lemma RunEnters(input: seq<byte>, n: nat, e: Encoder, m: Meter, d: Decoder)
    requires Running(input, n, e, m, d) && |input| == 257
    ensures After(input, e, m, d) && e.Ok() && d.Ok() && InStep(e, d, input) && Fits(e) && AllFit(Sending(input))
    ensures e.cur != 0 && Grown(e.trie, n) && Walks(e.cur, e.len, n) && n < 257 && !e.compress
    ensures Measured(e, m).0 == ToCompressed && Measured(e, m).1 == Meter(0, 0, m.nosqueeze)
  {
    hide Valid, Fits, Grown, Walks, After;
    LenBound(e, d, input);
  }

  lemma RootCounts(e: Encoder, m: Meter, b: byte)
    requires e.Ok() && e.cur == 0
    ensures Counted(e, b, m) == Meter(m.inbits + 8, m.outbits, m.nosqueeze)
  {
    hide Valid;
    RootHit(e, b);
  }

  /** The change of mode after a run, before the byte 0. */
  lemma EnteringOther(e: Encoder, n: nat, b: byte)
    requires e.Ok() && e.cur != 0 && Grown(e.trie, n) && Walks(e.cur, e.len, n) && n < 257 && !e.compress && b == 0
    ensures Search(e.trie, e.cur, b) == 0 && e.len < LONGEST
    ensures var e1 := Switched(e, b, ToCompressed).0;
      e1.Ok() && e1.cur == 0 && e1.compress && Fits(e1) && RampTrie(e1.trie, 0, FIRST + n + 1)
  {
    hide Valid, Search, Add, Grown, Fits, Linked, Apart, Walks, RampTrie, Fresh;
    CurLinked(e);
    WalksPlace(e.cur, e.len, n);
    RampTrieStarts(e.trie, e.cur, n);
    var e1 := Switched(e, b, ToCompressed).0;
    RampFresh(e1.trie, 0, FIRST + n + 1);
    FreshFits(e1);
  }

  lemma RampFresh(t: Trie, j: nat, n: int)
    requires RampTrie(t, j, n)
    ensures Fresh(t)
  {
  }

  lemma RampTrieStarts(t: Trie, cur: int, n: nat)
    requires Grown(t, n) && Linked(t, cur) && n < 257 && (cur == A + ROOT || cur >= FIRST)
    ensures Valid(t) && Search(t, cur, 0) == 0 && RampTrie(Add(t, cur, 0), 0, FIRST + n + 1)
  {
    hide Spelled, Listed, Search, Add, Linked, Apart, Grown;
    FreshOf(t, n);
    OtherByte(t, cur, n, 0);
    AddFresh(t, cur, 0);
    forall i: byte ensures Apart(Add(t, cur, 0), i) {
      ApartBefore(t, n, i);
      ApartKept(t, cur, 0, i);
    }
    var u, slot := Add(t, cur, 0), FIRST + n + 1;
    forall i: byte ensures ByteKids(u, 0, slot, i) { NoKids(t, n, i); }
  }

  lemma WalksPlace(cur: int, len: int, n: nat)
    requires len >= 0 && Walks(cur, len, n) && n < 257
    ensures (cur == A + ROOT || cur >= FIRST) && len < LONGEST
  {
  }

  lemma OtherByte(t: Trie, cur: int, n: nat, b: byte)
    requires Grown(t, n) && Linked(t, cur) && b != A
    ensures Search(t, cur, b) == 0
  {
    hide Covered, Distinct;
  }

  lemma ApartBefore(t: Trie, n: nat, i: byte)
    requires Grown(t, n)
    ensures Apart(t, i)
  {
    hide Spelled, Listed, Fresh, KidsOf;
    RootKids(i + ROOT, n);
    assert t.kids[i + ROOT] == KidsOf(i + ROOT, n);
  }

  lemma NoKids(t: Trie, n: nat, i: byte)
    requires Grown(t, n)
    ensures Valid(t) && (i != A ==> t.kids[i + ROOT] == [])
  {
    hide Spelled, Listed, Fresh;
    assert t.kids[i + ROOT] == KidsOf(i + ROOT, n);
  }

  lemma RootKids(p: int, n: nat)
    requires ROOT <= p < FIRST
    ensures forall kid :: kid in KidsOf(p, n) ==> p == A + ROOT && FIRST <= kid < FIRST + n
  {
  }

  /** The next byte in order. */
  lemma {:induction false} RampNext(input: seq<byte>, j: nat, n: int, e: Encoder, m: Meter, d: Decoder)
    returns (input': seq<byte>, e': Encoder, m': Meter, d': Decoder)
    requires Ramping(input, j, n, e, m, d) && j < 256
    ensures Ramping(input', j + 1, n, e', m', d')
  {
    hide Step, Switched, Consumed, Counted, InStep, Fits, Search, ReceivedAll, After, Add, Sent, RampTrie, Valid;
    var b := (j + 1) % 256;
    LenBound(e, d, input);
    RampTrieNext(e.trie, j, n);
    StepNext(input, e, m, d, b, Stay);
    Staying(e, b);
    ConsumedMiss(e, b);
    RampCounts(e, m, b);
    input', e', d' := input + [b], Step(e, b, Stay).0, ReceivedAll(d, Step(e, b, Stay).1);
    m' := Counted(e, b, m);
  }

  lemma RampCounts(e: Encoder, m: Meter, b: byte)
    requires e.Ok() && Search(e.trie, e.cur, b) == 0
    ensures var m' := Counted(e, b, m); m'.inbits == m.inbits + 8 && m'.outbits >= m.outbits + 9
  {
    hide Valid, Search, Consumed;
    ConsumedMiss(e, b);
  }

  lemma RampTrieNext(t: Trie, j: nat, n: int)
    requires RampTrie(t, j, n) && j < 256
    ensures Valid(t) && Linked(t, j + ROOT) && Search(t, j + ROOT, (j + 1) % 256) == 0
    ensures RampTrie(Add(t, j + ROOT, (j + 1) % 256), j + 1, n)
  {
    hide Search, Add, Spelled, Listed, Apart, PairEntry, ByteKids;
    var b := (j + 1) % 256;
    ApartMiss(t, j, b);
    AddFresh(t, j + ROOT, b);
    var u := Add(t, j + ROOT, b);
    forall i: byte | j + 1 <= i < 256 ensures Apart(u, i) { ApartKept(t, j + ROOT, b, i); }
    var j' := j + 1;
    forall i: byte ensures ByteKids(u, j', n, i) { ByteKidsNext(t, j, n, i); }
    forall i | 0 <= i < j' ensures PairEntry(u, n, i) { PairEntryNext(t, j, n, i); }
  }

  lemma ByteKidsNext(t: Trie, j: nat, n: int, i: byte)
    requires RampTrie(t, j, n) && j < 256
    ensures Linked(t, j + ROOT) && ByteKids(Add(t, j + ROOT, (j + 1) % 256), j + 1, n, i)
  {
    hide Search, Add, Spelled, Listed, Apart, PairEntry;
    AddFresh(t, j + ROOT, (j + 1) % 256);
    assert ByteKids(t, j, n, i);
  }

  lemma PairEntryNext(t: Trie, j: nat, n: int, i: byte)
    requires RampTrie(t, j, n) && i <= j < 256
    ensures Linked(t, j + ROOT) && PairEntry(Add(t, j + ROOT, (j + 1) % 256), n, i)
  {
    hide Search, Add, Apart, ByteKids;
    AddFresh(t, j + ROOT, (j + 1) % 256);
    RootText(t, j);
    assert i < j ==> PairEntry(t, n, i);
  }

  lemma ApartMiss(t: Trie, i: byte, b: byte)
    requires Valid(t) && Apart(t, i) && b == (i + 1) % 256
    ensures Linked(t, i + ROOT) && Search(t, i + ROOT, b) == 0
  {
    hide Covered, Distinct;
  }

  lemma ApartKept(t: Trie, cur: int, b: byte, i: byte)
    requires Valid(t) && Linked(t, cur) && Fresh(t) && t.free + 1 < END && Apart(t, i)
    requires cur == i + ROOT ==> b != (i + 1) % 256
    ensures Apart(Add(t, cur, b), i)
  {
    AddFresh(t, cur, b);
    var u := Add(t, cur, b);
    hide Spelled, Covered, Distinct, Add;
    forall kid | kid in u.kids[i + ROOT] ensures Last(u.text[kid]) != (i + 1) % 256 {
      if kid == t.free { assert Last(t.text[cur] + [b]) == b; }
    }
  }

  lemma {:induction false} RampOf(j: nat) returns (input: seq<byte>, n: int, e: Encoder, m: Meter, d: Decoder)
    requires j <= 256
    ensures Ramping(input, j, n, e, m, d)
  {
    hide Ramping;
    if j == 0 {
      input, n, e, m, d := RampStarts();
    } else {
      input, n, e, m, d := RampOf(j - 1);
      input, e, m, d := RampNext(input, j - 1, n, e, m, d);
    }
  }

  /** There is an input on which encode leaves the compressed mode, by its own choice, while
      the match goes on with the next byte: the two are in step before it and not after. */
  lemma {:induction false} LeavingFails() returns (input: seq<byte>, e: Encoder, m: Meter, d: Decoder)
    ensures After(input, e, m, d) && InStep(e, d, input) && Measured(e, m).0 == ToTransparent
    ensures e.Ok() && Search(e.trie, e.cur, 1) != 0
    ensures forall e', m', d' :: After(input + [1], e', m', d') ==> !InStep(e', d', input + [1])
  {
    hide InStep, Search, Step, ReceivedAll, Counted, Switched, After;
    var n;
    input, n, e, m, d := RampOf(256);
    ApartRoot(e.trie, 0);
    assert PairEntry(e.trie, n, 0);
    EntryFound(e.trie, e.cur, 1, n);
    Onward(input, e, m, d, 1);
    LeavingInStep(e, d, input, 1);
    forall e', m', d' | After(input + [1], e', m', d') ensures !InStep(e', d', input + [1]) {
      AfterOnly(input + [1], e', m', d', Step(e, 1, ToTransparent).0,
        Counted(Switched(e, 1, ToTransparent).0, 1, Measured(e, m).1), ReceivedAll(d, Step(e, 1, ToTransparent).1));
    }
  }

  lemma ApartRoot(t: Trie, i: byte)
    requires Valid(t)
    ensures Linked(t, i + ROOT)
  {
  }
}
