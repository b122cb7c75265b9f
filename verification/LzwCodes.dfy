/** The code sequences of compress and decompress (test-progs/src/compress.c) with 12-bit
    codes and block compression, and what each side knows of the other's string table. */
module LzwCodes {

  const CLEAR: int := 256
  const FIRST: int := 257
  const MAXCODES: int := 4096
  /** Table entries with codes FIRST up to MAXCODES. */
  const CAPACITY: int := 3839

  type byte = x: int | 0 <= x < 256

  /** A string: the string of an earlier code and one more byte. */
  datatype Entry = Entry(prefix: int, suffix: byte)

  /** Entry k has code FIRST + k. */
  type Table = seq<Entry>

  /** c is a byte or the code of an entry. */
  predicate Known(t: Table, c: int) {
    0 <= c < 256 || FIRST <= c < FIRST + |t|
  }

  /** Every entry extends a string that was known before it. */
  ghost predicate Grown(t: Table) {
    |t| <= CAPACITY && forall k :: 0 <= k < |t| ==> Known(t[..k], t[k].prefix)
  }

  /** The string of a code. */
  function Expand(t: Table, c: int): (s: seq<byte>)
    requires Grown(t) && Known(t, c)
    ensures |s| > 0
    decreases c
  {
    if c < 256 then [c]
    else
      var e := t[c - FIRST];
      assert Known(t[..c - FIRST], e.prefix);
      Expand(t, e.prefix) + [e.suffix]
  }

  lemma ExpandEntry(t: Table, c: int)
    requires Grown(t) && Known(t, c) && c >= 256
    ensures var e := t[c - FIRST];
            Known(t, e.prefix) && e.prefix < c && Expand(t, c) == Expand(t, e.prefix) + [e.suffix]
  {
    assert Known(t[..c - FIRST], t[c - FIRST].prefix);
  }

  lemma ExpandByte(t: Table, c: int)
    requires Grown(t) && 0 <= c < 256
    ensures Expand(t, c) == [c]
  {
  }

  lemma {:induction false} ExpandPrefix(t: Table, u: Table, c: int)
    requires Grown(t) && Grown(u) && t <= u && Known(t, c)
    ensures Known(u, c) && Expand(u, c) == Expand(t, c)
    decreases c
  {
    if c >= 256 {
      var e := t[c - FIRST];
      assert e == u[c - FIRST] && Known(t[..c - FIRST], e.prefix);
      ExpandPrefix(t, u, e.prefix);
    }
  }

  lemma GrownExtend(t: Table, e: Entry)
    requires Grown(t) && |t| < CAPACITY && Known(t, e.prefix)
    ensures Grown(t + [e])
  {
    var u := t + [e];
    forall k | 0 <= k < |u| ensures Known(u[..k], u[k].prefix) {
      if k < |t| {
        assert u[..k] == t[..k] && Known(t[..k], t[k].prefix);
      } else {
        assert u[..k] == t;
      }
    }
  }

  // ---------------------------------------------------------------- the decoder

  /** The decoder between two codes: before the first, right after a CLEAR, or with a
      table, the last code, its first byte, and what has been written. */
  datatype Decoder =
    | Start
    | Cleared(out: seq<byte>)
    | Running(table: Table, prev: int, finchar: byte, out: seq<byte>)
    | Corrupt
  {
    function Written(): seq<byte> {
      match this
      case Cleared(out) => out
      case Running(_, _, _, out) => out
      case _ => []
    }

    ghost predicate Valid() {
      Running? ==> Grown(table) && Known(table, prev) && Expand(table, prev)[0] == finchar
    }
  }

  /** The table with one more entry, unless it is full. */
  function Learn(t: Table, e: Entry): Table {
    if |t| < CAPACITY then t + [e] else t
  }

  /** One code through the loop of decompress. */
  function Decode(d: Decoder, code: int): (d': Decoder)
    requires d.Valid()
    ensures d'.Valid()
  {
    match d
    case Start => if 0 <= code < 256 then Running([], code, code, [code]) else Corrupt
    case Cleared(out) => if 0 <= code < 256 then Running([], code, code, out + [code]) else Corrupt
    case Running(t, prev, finchar, out) =>
      if code == CLEAR then Cleared(out)
      else if Known(t, code) then
        var s := Expand(t, code);
        LearnKnown(t, Entry(prev, s[0]), code);
        Running(Learn(t, Entry(prev, s[0])), code, s[0], out + s)
      else if code == FIRST + |t| && |t| < CAPACITY then
        // the code that is just being defined
        var s := Expand(t, prev) + [finchar];
        LearnPending(t, Entry(prev, finchar));
        Running(Learn(t, Entry(prev, finchar)), code, finchar, out + s)
      else Corrupt
    case Corrupt => Corrupt
  }

  lemma LearnKnown(t: Table, e: Entry, c: int)
    requires Grown(t) && Known(t, e.prefix) && Known(t, c)
    ensures Grown(Learn(t, e)) && Known(Learn(t, e), c) && Expand(Learn(t, e), c) == Expand(t, c)
  {
    if |t| < CAPACITY {
      GrownExtend(t, e);
      ExpandPrefix(t, Learn(t, e), c);
    }
  }

  lemma LearnPending(t: Table, e: Entry)
    requires Grown(t) && Known(t, e.prefix) && |t| < CAPACITY
    ensures var u := Learn(t, e);
            Grown(u) && Known(u, FIRST + |t|) && Expand(u, FIRST + |t|) == Expand(t, e.prefix) + [e.suffix]
  {
    GrownExtend(t, e);
    ExpandPrefix(t, Learn(t, e), e.prefix);
  }

  function DecodeAll(codes: seq<int>): (d: Decoder)
    ensures d.Valid()
  {
    if codes == [] then Start else Decode(DecodeAll(codes[..|codes| - 1]), codes[|codes| - 1])
  }

  lemma DecodeNext(codes: seq<int>, c: int)
    ensures DecodeAll(codes + [c]) == Decode(DecodeAll(codes), c)
  {
    assert (codes + [c])[..|codes + [c]| - 1] == codes;
  }

  // ---------------------------------------------------------------- the encoder

  /** What compress keeps between two input bytes: it has read the input up to some point,
      written codes, holds the code ent for the bytes not yet written, and has a table.
      The decoder, having read the same codes, lacks the entry made last. */
  ghost predicate InStep(input: seq<byte>, codes: seq<int>, t: Table, ent: int) {
    var d := DecodeAll(codes);
    && Grown(t) && Known(t, ent) && !d.Corrupt?
    && d.Written() + Expand(t, ent) == input
    && match d
       case Running(td, prev, _, _) =>
         if |td| < CAPACITY then t == td + [Entry(prev, Expand(t, ent)[0])] else t == td
       case _ => t == [] && ent < 256
  }

  /** The first byte of the input. */
  lemma InStepStart(c: byte)
    ensures InStep([c], [], [], c)
  {
  }

  /** The pair (ent, c) is entry k: go on with its code. */
  lemma InStepMatch(input: seq<byte>, codes: seq<int>, t: Table, ent: int, c: byte, k: int)
    requires InStep(input, codes, t, ent) && 0 <= k < |t| && t[k] == Entry(ent, c)
    ensures InStep(input + [c], codes, t, FIRST + k)
  {
    assert Expand(t, FIRST + k) == Expand(t, ent) + [c];
    assert DecodeAll(codes).Written() + (Expand(t, ent) + [c]) == input + [c];
  }

  /** Writing ent brings the decoder up to date. */
  lemma InStepWrite(input: seq<byte>, codes: seq<int>, t: Table, ent: int)
    requires InStep(input, codes, t, ent)
    ensures var d := DecodeAll(codes + [ent]);
            d.Running? && d.out == input && d.table == t && d.prev == ent
  {
    DecodeNext(codes, ent);
    var d := DecodeAll(codes);
    if d.Running? {
      var td := d.table;
      if |td| < CAPACITY {
        var e := Entry(d.prev, Expand(t, ent)[0]);
        assert t == Learn(td, e);
        if ent == FIRST + |td| {
          LearnPending(td, e);
          assert Expand(t, ent) == Expand(td, d.prev) + [e.suffix];
        } else {
          assert Known(td, ent);
          LearnKnown(td, e, ent);
        }
      }
    }
  }

  /** The pair (ent, c) is not in the table: write ent and enter the pair if there is room. */
  lemma InStepMiss(input: seq<byte>, codes: seq<int>, t: Table, ent: int, c: byte)
    requires InStep(input, codes, t, ent)
    ensures InStep(input + [c], codes + [ent], Learn(t, Entry(ent, c)), c)
  {
    InStepWrite(input, codes, t, ent);
    if |t| < CAPACITY { GrownExtend(t, Entry(ent, c)); }
  }

  /** The table is full and compress gives it up. */
  lemma InStepClear(input: seq<byte>, codes: seq<int>, t: Table, ent: int, c: byte)
    requires InStep(input, codes, t, ent)
    ensures InStep(input + [c], codes + [ent] + [CLEAR], [], c)
  {
    InStepWrite(input, codes, t, ent);
    DecodeNext(codes + [ent], CLEAR);
  }

  /** The end of the input. */
  lemma InStepEnd(input: seq<byte>, codes: seq<int>, t: Table, ent: int)
    requires InStep(input, codes, t, ent)
    ensures DecodeAll(codes + [ent]).Running? && DecodeAll(codes + [ent]).Written() == input
  {
    InStepWrite(input, codes, t, ent);
  }
}
