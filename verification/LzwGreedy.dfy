/** Which codes compress chooses (test-progs/src/compress.c): the longest string of its table
    every time, and a CLEAR exactly when the full table has stopped paying. */
module LzwGreedy {
  import opened Powers
  import opened LzwCodes
  import opened LzwPack
  import opened LzwStream

  /** The codes of twelve bits are the bytes, CLEAR and the entries of a full table. */
  lemma CodeSpace()
    ensures CLEAR == Pow2(8) && FIRST == CLEAR + 1 && FIRST + CAPACITY == MAXCODES == Pow2(12)
  {
    assert Pow2(4) == 16 && Pow2(8) == 256;
  }

  // ---------------------------------------------------------------- the table

  /** What compress has in its table when it has sent the codes and matches the rest: the table
      of the decoder, and the entry that it lacks. */
  function CoderTable(input: seq<byte>, codes: seq<int>): Table {
    match DecodeAll(codes)
    case Running(t, prev, _, out) =>
      if |t| < CAPACITY && |out| < |input| then t + [Entry(prev, input[|out|])] else t
    case _ => []
  }

  lemma InStepTable(input: seq<byte>, codes: seq<int>, t: Table, ent: int)
    requires InStep(input, codes, t, ent)
    ensures t == CoderTable(input, codes)
  {
  }

  /** Between two CLEARs, the decoder has an entry for every code but the last: that code and
      the first byte of the next string. */
  lemma {:induction false} TableIs(codes: seq<int>, j: nat)
    requires !DecodeAll(codes).Corrupt? && CLEAR !in codes && codes != []
    ensures DecodeAll(codes).Running?
    ensures var t := DecodeAll(codes).table;
      && |t| == (if |codes| - 1 < CAPACITY then |codes| - 1 else CAPACITY)
      && (j < |t| ==> Known(t, codes[j + 1]) && t[j] == Entry(codes[j], Expand(t, codes[j + 1])[0]))
      && DecodeAll(codes).prev == codes[|codes| - 1]
    decreases |codes|
  {
    var most, last := codes[..|codes| - 1], codes[|codes| - 1];
    if most != [] {
      TableIs(most, j);
      var d := DecodeAll(most);
      DecodedTable(d, last);
      var t := DecodeAll(codes).table;
      if j < |d.table| {
        assert codes[j + 1] == most[j + 1];
        ExpandPrefix(d.table, t, codes[j + 1]);
      }
    }
  }

  lemma DecodedTable(d: Decoder, code: int)
    requires d.Valid() && d.Running? && code != CLEAR && !Decode(d, code).Corrupt?
    ensures var d' := Decode(d, code);
      && d'.Running? && d'.prev == code && Known(d'.table, code)
      && d'.table == Learn(d.table, Entry(d.prev, Expand(d'.table, code)[0])) && d.table <= d'.table
  {
  }

  /** The decoder d is where e is, with some output before it. */
  predicate Alike(d: Decoder, e: Decoder, before: seq<byte>) {
    match e
    case Start => d == Cleared(before)
    case Cleared(out) => d == Cleared(before + out)
    case Running(t, prev, finchar, out) => d == Running(t, prev, finchar, before + out)
    case Corrupt => d.Corrupt?
  }

  lemma AlikeNext(d: Decoder, e: Decoder, before: seq<byte>, code: int)
    requires d.Valid() && e.Valid() && Alike(d, e, before)
    ensures Alike(Decode(d, code), Decode(e, code), before)
  {
    hide Expand, Grown, Learn;
  }

  /** After a CLEAR the decoder goes on as from the beginning. */
  lemma {:induction false} ClearForgets(a: seq<int>, b: seq<int>)
    requires DecodeAll(a).Running?
    ensures Alike(DecodeAll(a + [CLEAR] + b), DecodeAll(b), DecodeAll(a).Written())
    decreases |b|
  {
    hide Decode, DecodeAll;
    DecodeNext(a, CLEAR);
    if b == [] {
      assert a + [CLEAR] + b == a + [CLEAR];
      FromStart(DecodeAll(a));
    } else {
      var most, last := b[..|b| - 1], b[|b| - 1];
      assert a + [CLEAR] + b == a + [CLEAR] + most + [last] && b == most + [last];
      DecodeNext(a + [CLEAR] + most, last);
      DecodeNext(most, last);
      ClearForgets(a, most);
      AlikeNext(DecodeAll(a + [CLEAR] + most), DecodeAll(most), DecodeAll(a).Written(), last);
    }
  }

  lemma FromStart(d: Decoder)
    requires d.Valid() && d.Running?
    ensures DecodeAll([]) == Start && Decode(d, CLEAR) == Cleared(d.Written())
  {
  }

  /** No entry but that for two zeros is there twice: its key in the hash table is that of no
      entry, so that it may not be found. */
  predicate Unique(t: Table) {
    forall i, j :: 0 <= i < j < |t| && t[i] == t[j] ==> t[i] == Entry(0, 0)
  }

  predicate ZeroZero(s: seq<byte>) {
    |s| >= 2 && s[0] == 0 && s[1] == 0
  }

  lemma ExpandLength(t: Table, c: int)
    requires Grown(t) && Known(t, c)
    ensures |Expand(t, c)| == 1 <==> c < 256
    ensures c < 256 ==> Expand(t, c) == [c]
  {
    if c >= 256 { ExpandEntry(t, c); }
  }

  lemma ZeroEntry(t: Table, a: int)
    requires Grown(t) && Known(t, a) && a >= 256
    ensures t[a - FIRST] == Entry(0, 0) ==> ZeroZero(Expand(t, a))
  {
    ExpandEntry(t, a);
    ExpandLength(t, t[a - FIRST].prefix);
  }

  /** A string has one code, unless it begins with two zeros. */
  lemma {:induction false} SameCode(t: Table, a: int, b: int)
    requires Grown(t) && Unique(t) && Known(t, a) && Known(t, b)
    requires Expand(t, a) == Expand(t, b) && !ZeroZero(Expand(t, a))
    ensures a == b
    decreases a
  {
    ExpandLength(t, a);
    ExpandLength(t, b);
    if a >= 256 {
      ExpandEntry(t, a);
      ExpandEntry(t, b);
      var e, f := t[a - FIRST], t[b - FIRST];
      var s, u := Expand(t, e.prefix), Expand(t, f.prefix);
      assert s == Expand(t, a)[..|Expand(t, a)| - 1] == u;
      assert e.suffix == Expand(t, a)[|s|] == f.suffix;
      SameCode(t, e.prefix, f.prefix);
      ZeroEntry(t, a);
    }
  }

  /** Every beginning of a string is a string, too. */
  lemma {:induction false} Beginning(t: Table, c: int, m: nat) returns (a: int)
    requires Grown(t) && Known(t, c) && 1 <= m <= |Expand(t, c)|
    ensures Known(t, a) && Expand(t, a) == Expand(t, c)[..m]
    decreases c
  {
    if m == |Expand(t, c)| {
      a := c;
    } else {
      ExpandLength(t, c);
      ExpandEntry(t, c);
      a := Beginning(t, t[c - FIRST].prefix, m);
    }
  }

  // ---------------------------------------------------------------- the longest match

  /** The code stands for the longest string of the table that the rest begins with; not
      claimed of a rest that begins with two zeros. */
  ghost predicate Longest(t: Table, code: int, rest: seq<byte>)
    requires Grown(t)
  {
    && Known(t, code) && Expand(t, code) <= rest
    && (!ZeroZero(rest) ==>
          forall c :: Known(t, c) && Expand(t, c) <= rest ==> |Expand(t, c)| <= |Expand(t, code)|)
  }

  /** The string of the code is followed by a byte with which no string of the table goes on. */
  ghost predicate Ended(t: Table, code: int, rest: seq<byte>)
    requires Grown(t)
  {
    && Known(t, code) && Expand(t, code) <= rest && |Expand(t, code)| < |rest|
    && (!ZeroZero(rest) ==>
          forall c :: Known(t, c) && |Expand(t, c)| > |Expand(t, code)| ==>
            Expand(t, c)[..|Expand(t, code)| + 1] != rest[..|Expand(t, code)| + 1])
  }

  lemma SameStart(s: seq<byte>, u: seq<byte>, n: nat)
    requires s <= u
    ensures |s| >= n ==> s[..n] == u[..n]
  {
  }

  lemma EndedLongest(t: Table, code: int, rest: seq<byte>, more: seq<byte>)
    requires Grown(t) && Ended(t, code, rest)
    ensures Ended(t, code, rest + more) && Longest(t, code, rest + more)
  {
    var n := |Expand(t, code)| + 1;
    assert (rest + more)[..n] == rest[..n];
    forall c | !ZeroZero(rest) && Known(t, c) && Expand(t, c) <= rest + more
      ensures |Expand(t, c)| < n
    {
      SameStart(Expand(t, c), rest + more, n);
    }
  }

  /** The search for the string and one more byte has failed. */
  lemma MissEnds(t: Table, ent: int, c: byte, rest: seq<byte>)
    requires Grown(t) && Unique(t) && Known(t, ent) && rest == Expand(t, ent) + [c]
    requires Entry(ent, c) in t ==> Entry(ent, c) == Entry(0, 0)
    ensures Ended(t, ent, rest)
  {
    forall a | !ZeroZero(rest) && Known(t, a) && |Expand(t, a)| > |Expand(t, ent)|
      ensures Expand(t, a)[..|Expand(t, ent)| + 1] != rest[..|Expand(t, ent)| + 1]
    {
      var n := |Expand(t, ent)| + 1;
      assert rest[..n] == rest;
      Extended(t, ent, c, rest, a);
    }
  }

  lemma Extended(t: Table, ent: int, c: byte, rest: seq<byte>, a: int)
    requires Grown(t) && Unique(t) && Known(t, ent) && rest == Expand(t, ent) + [c] && !ZeroZero(rest)
    requires Known(t, a) && |Expand(t, a)| >= |rest|
    ensures Expand(t, a)[..|rest|] == rest ==> Entry(ent, c) in t && Entry(ent, c) != Entry(0, 0)
  {
    if Expand(t, a)[..|rest|] == rest {
      var b := Beginning(t, a, |rest|);
      ExpandLength(t, b);
      ExpandEntry(t, b);
      var e := t[b - FIRST];
      assert Expand(t, e.prefix) == rest[..|rest| - 1] == Expand(t, ent) && e.suffix == rest[|rest| - 1] == c;
      SameCode(t, e.prefix, ent);
      ExpandLength(t, ent);
    }
  }

  /** Code k was sent because the next byte did not go on from its string. */
  ghost predicate Matched(input: seq<byte>, codes: seq<int>, k: nat)
    requires k < |codes|
  {
    var n, t := |DecodeAll(codes[..k]).Written()|, CoderTable(input, codes[..k]);
    n <= |input| && Grown(t) && Ended(t, codes[k], input[n..])
  }

  ghost predicate Greedy(input: seq<byte>, codes: seq<int>) {
    forall k :: 0 <= k < |codes| && codes[k] != CLEAR ==> Matched(input, codes, k)
  }

  /** Every code but CLEAR stands for the longest string that the rest of the input begins with. */
  ghost predicate AllLongest(input: seq<byte>, codes: seq<int>) {
    forall k :: 0 <= k < |codes| && codes[k] != CLEAR ==> BestAt(input, codes, k)
  }

  ghost predicate BestAt(input: seq<byte>, codes: seq<int>, k: nat)
    requires k < |codes|
  {
    var n, t := |DecodeAll(codes[..k]).Written()|, CoderTable(input, codes[..k]);
    n <= |input| && Grown(t) && Longest(t, codes[k], input[n..])
  }

  /** A code that was matched stays so, whatever follows. */
  lemma MatchedStays(input: seq<byte>, codes: seq<int>, c: byte, more: seq<int>, k: nat)
    requires k < |codes| && Matched(input, codes, k)
    ensures Matched(input + [c], codes + more, k) && BestAt(input, codes, k)
  {
    hide DecodeAll, Ended, Longest;
    assert (codes + more)[..k] == codes[..k];
    var n, t := |DecodeAll(codes[..k]).Written()|, CoderTable(input, codes[..k]);
    EndedBounds(t, codes[k], input[n..]);
    assert (input + [c])[n..] == input[n..] + [c];
    EndedLongest(t, codes[k], input[n..], [c]);
    EndedLongest(t, codes[k], input[n..], []);
    assert input[n..] + [] == input[n..];
    SameTable(input, c, codes[..k]);
  }

  lemma EndedBounds(t: Table, code: int, rest: seq<byte>)
    requires Grown(t) && Ended(t, code, rest)
    ensures rest != []
  {
  }

  lemma SameTable(input: seq<byte>, c: byte, codes: seq<int>)
    requires |DecodeAll(codes).Written()| < |input|
    ensures CoderTable(input + [c], codes) == CoderTable(input, codes)
  {
  }

  lemma GreedyHit(input: seq<byte>, codes: seq<int>, c: byte)
    requires Greedy(input, codes)
    ensures Greedy(input + [c], codes)
  {
    hide Matched;
    assert codes + [] == codes;
    forall k | 0 <= k < |codes| && codes[k] != CLEAR ensures Matched(input + [c], codes, k) {
      MatchedStays(input, codes, c, [], k);
    }
  }

  lemma GreedyMiss(input: seq<byte>, codes: seq<int>, t: Table, ent: int, c: byte)
    requires Greedy(input, codes) && InStep(input, codes, t, ent) && Unique(t)
    requires Entry(ent, c) in t ==> Entry(ent, c) == Entry(0, 0)
    ensures Greedy(input + [c], codes + [ent]) && Greedy(input + [c], codes + [ent] + [CLEAR])
  {
    hide Matched, InStep, CoderTable;
    var sent, both := codes + [ent], codes + [ent] + [CLEAR];
    MissMatched(input, codes, t, ent, c);
    forall k | 0 <= k < |both| && both[k] != CLEAR
      ensures k < |sent| && Matched(input + [c], sent, k) && Matched(input + [c], both, k)
    {
      if k < |codes| {
        MatchedStays(input, codes, c, [ent], k);
        MatchedStays(input, codes, c, [ent] + [CLEAR], k);
        assert codes + ([ent] + [CLEAR]) == both;
      }
    }
  }

  lemma MissMatched(input: seq<byte>, codes: seq<int>, t: Table, ent: int, c: byte)
    requires InStep(input, codes, t, ent) && Unique(t)
    requires Entry(ent, c) in t ==> Entry(ent, c) == Entry(0, 0)
    ensures Matched(input + [c], codes + [ent], |codes|) && Matched(input + [c], codes + [ent] + [CLEAR], |codes|)
  {
    InStepTable(input, codes, t, ent);
    var n := |DecodeAll(codes).Written()|;
    assert input[n..] == Expand(t, ent);
    assert (input + [c])[n..] == Expand(t, ent) + [c];
    assert (codes + [ent])[..|codes|] == codes && (codes + [ent] + [CLEAR])[..|codes|] == codes;
    SameTable(input, c, codes);
    hide DecodeAll, Ended, CoderTable;
    MissEnds(t, ent, c, Expand(t, ent) + [c]);
  }

  /** The last code is the whole rest. */
  lemma GreedyEnd(input: seq<byte>, codes: seq<int>, t: Table, ent: int)
    requires Greedy(input, codes) && InStep(input, codes, t, ent)
    ensures AllLongest(input, codes + [ent])
  {
    hide InStep, Matched, BestAt;
    var all := codes + [ent];
    WholeRest(input, codes, t, ent);
    forall k | 0 <= k < |all| && all[k] != CLEAR ensures BestAt(input, all, k) {
      if k < |codes| { BestStays(input, codes, ent, k); }
    }
  }

  lemma BestStays(input: seq<byte>, codes: seq<int>, ent: int, k: nat)
    requires k < |codes| && Matched(input, codes, k)
    ensures BestAt(input, codes + [ent], k)
  {
    MatchedStays(input, codes, 0, [], k);
    assert (codes + [ent])[..k] == codes[..k];
    hide DecodeAll, CoderTable, Longest;
  }

  lemma WholeRest(input: seq<byte>, codes: seq<int>, t: Table, ent: int)
    requires InStep(input, codes, t, ent)
    ensures BestAt(input, codes + [ent], |codes|)
  {
    InStepTable(input, codes, t, ent);
    assert (codes + [ent])[..|codes|] == codes;
    assert input[|DecodeAll(codes).Written()|..] == Expand(t, ent);
    hide DecodeAll, CoderTable;
  }

  lemma UniqueEntered(t: Table, e: Entry)
    requires Unique(t) && (e in t ==> e == Entry(0, 0))
    ensures Unique(t + [e])
  {
  }

  // ---------------------------------------------------------------- CLEAR

  /** The ratio at the last check, or 0 after a CLEAR, and when the next check is due. */
  datatype Gauge = Gauge(ratio: int, checkpoint: int)

  /** The bytes read when the last code is sent: its string, and the byte that did not go on. */
  function BytesRead(codes: seq<int>): nat {
    |DecodeAll(codes).Written()| + 1
  }

  /** The bytes sent by then, with the header. */
  function BytesSent(codes: seq<int>): nat
    requires !DecodeAll(codes).Corrupt?
  {
    |WriterReady(codes).sent| + 3
  }

  /** The bytes read for 256 bytes sent, rounded down, in 32 bits. */
  function Ratio(read: int, sent: int): int
    requires sent > 0
  {
    if read <= 0x007f_ffff then read * 256 / sent
    else if sent < 256 then 0x7fff_ffff
    else read / (sent / 256)
  }

  /** The last code was sent with a full table, and a check is due. */
  predicate Due(codes: seq<int>)
    decreases |codes|, 0
  {
    && codes != [] && codes[|codes| - 1] != CLEAR
    && DecodeAll(codes).Running? && |DecodeAll(codes).table| == CAPACITY
    && BytesRead(codes) >= GaugeAfter(codes[..|codes| - 1]).checkpoint
  }

  function GaugeAfter(codes: seq<int>): Gauge
    decreases |codes|, 1
  {
    if codes == [] then Gauge(0, 10000)
    else
      var g := GaugeAfter(codes[..|codes| - 1]);
      if Due(codes) then
        var r := Ratio(BytesRead(codes), BytesSent(codes));
        Gauge(if r > g.ratio then r else 0, BytesRead(codes) + 10000)
      else g
  }

  /** A check is due and the ratio has not improved. */
  predicate GivesUp(codes: seq<int>) {
    Due(codes) && Ratio(BytesRead(codes), BytesSent(codes)) <= GaugeAfter(codes[..|codes| - 1]).ratio
  }

  /** CLEAR follows exactly the codes after which the table is to be given up. */
  ghost predicate ClearsRight(codes: seq<int>) {
    && (codes != [] ==> codes[0] != CLEAR)
    && forall k :: 0 < k < |codes| ==> (codes[k] == CLEAR <==> GivesUp(codes[..k]))
  }

  lemma ClearsNext(codes: seq<int>, ent: int)
    requires ClearsRight(codes) && !GivesUp(codes) && ent != CLEAR
    ensures ClearsRight(codes + [ent])
    ensures GivesUp(codes + [ent]) ==> ClearsRight(codes + [ent] + [CLEAR])
    ensures !GivesUp(codes + [ent] + [CLEAR]) && GaugeAfter(codes + [ent] + [CLEAR]) == GaugeAfter(codes + [ent])
  {
    hide GivesUp, GaugeAfter;
    var sent, both := codes + [ent], codes + [ent] + [CLEAR];
    forall k | 0 < k < |sent| ensures sent[k] == CLEAR <==> GivesUp(sent[..k]) {
      assert sent[..k] == codes[..k];
      if k == |codes| { assert codes[..k] == codes; }
    }
    forall k | 0 < k < |both| && GivesUp(sent) ensures both[k] == CLEAR <==> GivesUp(both[..k]) {
      assert k <= |codes| ==> both[..k] == sent[..k];
      if k == |sent| { assert both[..k] == sent; }
    }
    assert both[..|both| - 1] == sent;
    NotAfterClear(both);
  }

  lemma NotAfterClear(codes: seq<int>)
    requires codes != [] && codes[|codes| - 1] == CLEAR
    ensures !GivesUp(codes) && GaugeAfter(codes) == GaugeAfter(codes[..|codes| - 1])
  {
  }

  /** When a code is sent with the table t, a check is due if t is full and enough is read. */
  lemma DueNext(input: seq<byte>, codes: seq<int>, t: Table, ent: int)
    requires InStep(input, codes, t, ent)
    ensures !DecodeAll(codes + [ent]).Corrupt? && ent != CLEAR && BytesRead(codes + [ent]) == |input| + 1
    ensures Due(codes + [ent]) <==> |t| == CAPACITY && |input| + 1 >= GaugeAfter(codes).checkpoint
  {
    InStepWrite(input, codes, t, ent);
    NotClear(input, codes, t, ent);
    assert (codes + [ent])[..|codes + [ent]| - 1] == codes;
    hide DecodeAll, InStep, GaugeAfter;
  }

  lemma NotClear(input: seq<byte>, codes: seq<int>, t: Table, ent: int)
    requires InStep(input, codes, t, ent)
    ensures ent != CLEAR
  {
    hide DecodeAll, Expand, Grown;
  }

  lemma GaugeNext(codes: seq<int>, ent: int, read: int)
    requires !DecodeAll(codes + [ent]).Corrupt? && BytesRead(codes + [ent]) == read
    ensures var g, r := GaugeAfter(codes), Ratio(read, BytesSent(codes + [ent]));
      && GaugeAfter(codes + [ent])
         == (if Due(codes + [ent]) then Gauge(if r > g.ratio then r else 0, read + 10000) else g)
      && (GivesUp(codes + [ent]) <==> Due(codes + [ent]) && r <= g.ratio)
  {
    assert (codes + [ent])[..|codes + [ent]| - 1] == codes;
    hide DecodeAll, Due, BytesRead, BytesSent, Ratio;
  }

  /** The next check is never due before 10000 bytes have been read, nor within 10000 bytes of a
      check. */
  lemma {:induction false} CheckLater(codes: seq<int>, k: nat)
    requires k <= |codes|
    ensures GaugeAfter(codes).checkpoint >= 10000
    ensures Due(codes[..k]) ==> GaugeAfter(codes).checkpoint >= BytesRead(codes[..k]) + 10000
    decreases |codes|
  {
    hide BytesRead, Ratio, BytesSent;
    if codes != [] {
      var most := codes[..|codes| - 1];
      CheckLater(most, if k < |codes| then k else |most|);
      if k < |codes| {
        assert most[..k] == codes[..k];
      } else {
        assert codes[..k] == codes;
      }
    }
  }

  /** So no CLEAR is sent for the first 9999 bytes, or within 10000 bytes of another, or while the
      table has room. */
  lemma ClearRare(codes: seq<int>, j: nat, k: nat)
    requires ClearsRight(codes) && j < k < |codes| && codes[k] == CLEAR
    ensures DecodeAll(codes[..k]).Running? && |DecodeAll(codes[..k]).table| == CAPACITY
    ensures BytesRead(codes[..k]) >= 10000
    ensures codes[j] == CLEAR ==> BytesRead(codes[..k]) >= BytesRead(codes[..j]) + 10000
  {
    hide GaugeAfter, DecodeAll, BytesRead, Ratio, BytesSent;
    var sent := codes[..k];
    var most := sent[..k - 1];
    assert GivesUp(sent);
    CheckLater(most, 0);
    if codes[j] == CLEAR && j > 0 {
      assert GivesUp(codes[..j]);
      assert most[..j] == codes[..j];
      CheckLater(most, j);
    }
  }

  // ---------------------------------------------------------------- widths

  /** The width of the next code: that of the largest code that the decoder may have by then. */
  function WidthFor(free: int): width {
    if free < 512 then 9 else if free < 1024 then 10 else if free < 2048 then 11 else 12
  }

  lemma {:induction false} WidthIs(codes: seq<int>)
    requires !DecodeAll(codes).Corrupt?
    ensures WriterReady(codes).n
      == match DecodeAll(codes) case Running(t, _, _, _) => WidthFor(FIRST + |t|) case _ => 9
    decreases |codes|
  {
    MaxCodes();
    hide DecodeAll, Decode, PutCode, MaxCode;
    if codes == [] {
      NothingWritten();
    } else {
      var most, last := codes[..|codes| - 1], codes[|codes| - 1];
      assert codes == most + [last];
      DecodeNext(most, last);
      WriterNext(most, last);
      WidthIs(most);
      DecodedSize(DecodeAll(most), last);
      hide WriterReady;
    }
  }

  lemma MaxCodes()
    ensures MaxCode(9) == 511 && MaxCode(10) == 1023 && MaxCode(11) == 2047 && MaxCode(12) == 4096
  {
  }

  lemma NothingWritten()
    ensures DecodeAll([]) == Start && WriterReady([]).n == 9
  {
    assert MaxCode(9) == 511;
  }

  /** One more entry at most. */
  lemma DecodedSize(d: Decoder, code: int)
    requires d.Valid() && !Decode(d, code).Corrupt?
    ensures match Decode(d, code)
      case Running(t, _, _, _) => if d.Running? then |d.table| <= |t| <= |d.table| + 1 && |t| <= CAPACITY else t == []
      case d' => d'.Cleared?
  {
    hide Expand, Known;
  }
}
