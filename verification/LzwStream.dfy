/** Whole code sequences as byte streams: the width at which each code travels follows from
    the codes before it, on both sides (test-progs/src/compress.c). */
module LzwStream {
  import opened Powers
  import opened LzwCodes
  import opened LzwPack

  /** free_ent and clear_flg of decompress when it asks for the next code. */
  function ControlAfter(d: Decoder): (c: Control)
    requires d.Valid()
    ensures c.free <= MAXCODES
  {
    match d
    case Running(t, _, _, _) => Control(FIRST + |t|, false)
    case Cleared(_) => Control(CLEAR, true)
    case _ => Control(FIRST, false)
  }

  /** compress counts its CLEAR as an entry, decompress does not; the width is the same. */
  lemma ClearControls(w: Writer)
    requires w.Valid()
    ensures EndGroup(w, Control(FIRST, true)) == EndGroup(w, Control(CLEAR, true))
  {
  }

  /** The codes that may come next fit the width, at most after widening it by one. */
  ghost predicate WideEnough(n: width, d: Decoder)
    requires d.Valid()
  {
    ControlAfter(d).free <= MaxCode(n) + 1
  }

  lemma CodeFits(n: width, d: Decoder, code: int)
    requires d.Valid() && WideEnough(n, d) && !Decode(d, code).Corrupt?
    ensures var n' := NextWidth(n, ControlAfter(d));
            0 <= code < Weight(n') && WideEnough(n', Decode(d, code))
  {
  }

  /** The writer when the codes are put, before it tests for a change of width. */
  function WriterAfter(codes: seq<int>): (w: Writer)
    requires !DecodeAll(codes).Corrupt?
    ensures w.Valid() && WideEnough(w.n, DecodeAll(codes))
  {
    if codes == [] then NEW_WRITER
    else
      var most, last := codes[..|codes| - 1], codes[|codes| - 1];
      var w := WriterAfter(most);
      CodeFits(w.n, DecodeAll(most), last);
      PutCode(EndGroup(w, ControlAfter(DecodeAll(most))), last)
  }

  /** The writer after the test. */
  function WriterReady(codes: seq<int>): (w: Writer)
    requires !DecodeAll(codes).Corrupt?
    ensures w.Valid()
  {
    EndGroup(WriterAfter(codes), ControlAfter(DecodeAll(codes)))
  }

  /** One more code through output. */
  lemma WriterNext(codes: seq<int>, code: int)
    requires !DecodeAll(codes + [code]).Corrupt?
    ensures !DecodeAll(codes).Corrupt? && 0 <= code < Weight(WriterReady(codes).n)
    ensures WriterAfter(codes + [code]) == PutCode(WriterReady(codes), code)
    ensures WriterReady(codes + [code])
      == EndGroup(PutCode(WriterReady(codes), code), ControlAfter(DecodeAll(codes + [code])))
  {
    DecodeNext(codes, code);
    CodeFits(WriterAfter(codes).n, DecodeAll(codes), code);
    assert (codes + [code])[..|codes + [code]| - 1] == codes;
  }

  /** The bytes that output sends for a code sequence, with the end of the stream. */
  function Packed(codes: seq<int>): seq<byte>
    requires !DecodeAll(codes).Corrupt?
  {
    Flush(WriterReady(codes))
  }

  /** The reader and the codes it has returned after k calls of getcode. */
  function Unpack(s: seq<byte>, k: nat): (Reader, seq<int>)
  {
    if k == 0 then (NEW_READER, [])
    else
      var (r, codes) := Unpack(s, k - 1);
      var g := GetCode(r, s, ControlAfter(DecodeAll(codes)));
      (g.0, codes + [g.1])
  }

  /** After every prefix of the codes, the reader has returned them and stands where the
      writer stood. */
  ghost predicate InPlace(codes: seq<int>, s: seq<byte>)
    requires !DecodeAll(codes).Corrupt?
  {
    && Unpack(s, |codes|).1 == codes && Together(Unpack(s, |codes|).0, s, WriterAfter(codes))
    && (codes != [] ==> InPlace(codes[..|codes| - 1], s))
  }

  /** No byte 0xFF of the stream disturbs the reader before any of the codes. */
  predicate Clear(codes: seq<int>, s: seq<byte>)
    requires !DecodeAll(codes).Corrupt?
  {
    codes != [] ==>
      var most := codes[..|codes| - 1];
      Clear(most, s) && Undisturbed(s, WriterAfter(most), ControlAfter(DecodeAll(most)))
  }

  /** The bytes 0xFF of the packed form are where getcode does not go astray over them. */
  predicate Unmarked(codes: seq<int>)
    requires !DecodeAll(codes).Corrupt?
  {
    var s := Packed(codes);
    Clear(codes, s) && EndClear(s, WriterAfter(codes), ControlAfter(DecodeAll(codes)))
  }

  lemma {:induction false} UnpackWritten(codes: seq<int>, s: seq<byte>)
    requires !DecodeAll(codes).Corrupt? && Extends(s, WriterAfter(codes))
    ensures InPlace(codes, s) <==> Clear(codes, s)
    decreases |codes|
  {
    hide Extends, Together, GetCode, PutCode, EndGroup, Holds, ControlAfter, Undisturbed;
    if codes == [] {
      NothingRead(s);
    } else {
      var most, last := codes[..|codes| - 1], codes[|codes| - 1];
      assert codes == most + [last];
      WriterNext(most, last);
      var w, c := WriterAfter(most), ControlAfter(DecodeAll(most));
      ExtendsPut(s, EndGroup(w, c), last);
      ExtendsEndGroup(s, w, c);
      UnpackWritten(most, s);
      if InPlace(most, s) { ReadNext(Unpack(s, |most|).0, s, w, c, last); }
    }
  }

  lemma NothingRead(s: seq<byte>)
    ensures Together(NEW_READER, s, NEW_WRITER)
  {
  }

  /** Unpacking inverts packing exactly where no byte 0xFF is in the way: the codes come back
      one by one, each read where it was written, and then the end of the input. */
  lemma UnpackExact(codes: seq<int>)
    requires !DecodeAll(codes).Corrupt?
    ensures InPlace(codes, Packed(codes)) && Unpack(Packed(codes), |codes| + 1).1 == codes + [-1] <==> Unmarked(codes)
  {
    var s, w, c := Packed(codes), WriterAfter(codes), ControlAfter(DecodeAll(codes));
    hide Extends, Together, GetCode, PutCode, EndGroup, ControlAfter, Clear, EndClear, Available;
    FlushExtends(WriterReady(codes));
    ExtendsEndGroup(s, w, c);
    UnpackWritten(codes, s);
    if InPlace(codes, s) { ReadEnd(Unpack(s, |codes|).0, s, w, c); }
  }

  lemma UnpackPacked(codes: seq<int>)
    requires !DecodeAll(codes).Corrupt? && Unmarked(codes)
    ensures Unpack(Packed(codes), |codes|).1 == codes
    ensures Unpack(Packed(codes), |codes| + 1).1 == codes + [-1]
    ensures forall k :: 0 <= k <= |codes| ==> Unpack(Packed(codes), k).1 == codes[..k]
  {
    var s := Packed(codes);
    UnpackExact(codes);
    forall k | 0 <= k <= |codes| ensures Unpack(s, k).1 == codes[..k] {
      UnpackPrefix(s, k, |codes|);
    }
  }

  /** A stream without any byte 0xFF is in the clear. */
  lemma NoMarkUnmarked(codes: seq<int>)
    requires !DecodeAll(codes).Corrupt? && NoEndMark(Packed(codes))
    ensures Unmarked(codes)
  {
    hide Extends, Available, Undisturbed, EndGroup, ControlAfter;
    var s, w, c := Packed(codes), WriterAfter(codes), ControlAfter(DecodeAll(codes));
    FlushExtends(WriterReady(codes));
    ExtendsEndGroup(s, w, c);
    NoMarkClear(codes, s);
    AvailableAll(s, |w.sent|, w.n, 0);
  }

  lemma {:induction false} NoMarkClear(codes: seq<int>, s: seq<byte>)
    requires !DecodeAll(codes).Corrupt? && NoEndMark(s) && Extends(s, WriterAfter(codes))
    ensures Clear(codes, s)
    decreases |codes|
  {
    hide Extends, EndGroup, PutCode, Holds, ControlAfter, Undisturbed;
    if codes != [] {
      var most, last := codes[..|codes| - 1], codes[|codes| - 1];
      assert codes == most + [last];
      WriterNext(most, last);
      var w, c := WriterAfter(most), ControlAfter(DecodeAll(most));
      ExtendsPut(s, EndGroup(w, c), last);
      ExtendsEndGroup(s, w, c);
      NothingDisturbs(s, w, c, last);
      NoMarkClear(most, s);
    }
  }

  lemma {:induction false} UnpackPrefix(s: seq<byte>, k: nat, m: nat)
    requires k <= m
    ensures |Unpack(s, m).1| == m && |Unpack(s, k).1| == k && Unpack(s, k).1 == Unpack(s, m).1[..k]
    decreases m
  {
    hide GetCode, ControlAfter;
    if m > 0 { UnpackPrefix(s, if k == m then k - 1 else k, m - 1); }
  }

  /** A byte 0xFF in the stream is taken for its end: the one byte 0xFF is compressed to a
      stream that decompresses to nothing. */
  lemma EndMarkInData()
    ensures !DecodeAll([255]).Corrupt? && DecodeAll([255]).Written() == [255]
    ensures Packed([255]) == [255, 0] && Unpack(Packed([255]), 1).1 == [-1] && !Unmarked([255])
  {
    hide DecodeAll, Decode, Packed, Unpack, Unmarked;
    DecodeOne();
    WriterOne();
    UnpackOne();
    if Unmarked([255]) { UnpackPacked([255]); }
  }

  lemma DecodeOne()
    ensures DecodeAll([255]) == Running([], 255, 255, [255])
  {
    DecodeNext([], 255);
    assert [] + [255] == [255];
  }

  lemma PutOne()
    ensures 255 < Weight(9) && PutCode(NEW_WRITER, 255) == Writer([], [255, 0, 0, 0, 0, 0, 0, 0, 0, 0, 0, 0], 9, 9)
  {
    assert Put3(0, 9, 255, 0, 0, 0) == (255, 0, 0);
    hide Put3, Weight;
    assert Put(EMPTY, 0, 9, 255) == [255, 0, 0, 0, 0, 0, 0, 0, 0, 0, 0, 0];
  }

  lemma WriterOne()
    ensures !DecodeAll([255]).Corrupt? && Packed([255]) == [255, 0]
  {
    DecodeOne();
    PutOne();
    WriterNext([], 255);
    assert [] + [255] == [255];
    hide PutCode, Decode, DecodeAll;
    assert WriterReady([]) == NEW_WRITER;
    var w := WriterReady([255]);
    assert w == Writer([], [255, 0, 0, 0, 0, 0, 0, 0, 0, 0, 0, 0], 9, 9);
    assert Flush(w) == [255, 0];
  }

  lemma UnpackOne()
    ensures Unpack([255, 0], 1).1 == [-1]
  {
    var s: seq<byte> := [255, 0];
    assert Available(s, 0, 9, 0) == 0;
    assert Unpack(s, 0) == (NEW_READER, []);
    assert GetCode(NEW_READER, s, Control(FIRST, false)).1 == -1;
  }

  // ---------------------------------------------------------------- any stream

  /** getcode returns these codes and then -1. */
  ghost predicate Reads(s: seq<byte>, codes: seq<int>) {
    Unpack(s, |codes| + 1).1 == codes + [-1]
  }

  /** Bounds the calls of getcode before it returns -1. */
  function Unread(r: Reader, s: seq<byte>): nat {
    (if r.pos < |s| then 200 * (|s| - r.pos) else 0) + if r.offset < r.size then r.size - r.offset else 0
  }

  lemma GetCodeReads(r: Reader, s: seq<byte>, c: Control)
    requires c.free <= MAXCODES
    ensures var g := GetCode(r, s, c); g.1 >= -1 && (g.1 != -1 ==> Unread(g.0, s) < Unread(r, s))
  {
    hide Get;
    if Breaks(r.n, c) || r.offset >= r.size {
      GetBelow(Refill(r, s, NextWidth(r.n, c)).buf, 0, NextWidth(r.n, c));
    } else {
      GetBelow(r.buf, r.offset, r.n);
    }
  }

  /** The codes that decompress takes from s after those given: up to the first -1, or to the
      first code that no coder would send here. */
  function Taken(r: Reader, s: seq<byte>, codes: seq<int>): seq<int>
    decreases Unread(r, s)
  {
    var c := ControlAfter(DecodeAll(codes));
    var g := GetCode(r, s, c);
    GetCodeReads(r, s, c);
    if g.1 == -1 then codes
    else if DecodeAll(codes + [g.1]).Corrupt? then codes + [g.1]
    else Taken(g.0, s, codes + [g.1])
  }

  function CodesRead(s: seq<byte>): seq<int> {
    Taken(NEW_READER, s, [])
  }

  lemma {:induction false} TakenReads(r: Reader, s: seq<byte>, codes: seq<int>)
    requires Unpack(s, |codes|) == (r, codes) && !DecodeAll(Taken(r, s, codes)).Corrupt?
    ensures Reads(s, Taken(r, s, codes))
    decreases Unread(r, s)
  {
    hide GetCode, DecodeAll, ControlAfter;
    var c := ControlAfter(DecodeAll(codes));
    var g := GetCode(r, s, c);
    GetCodeReads(r, s, c);
    assert Unpack(s, |codes| + 1) == (g.0, codes + [g.1]) by { UnpackStep(s, |codes|); }
    if g.1 != -1 && !DecodeAll(codes + [g.1]).Corrupt? { TakenReads(g.0, s, codes + [g.1]); }
  }

  lemma UnpackStep(s: seq<byte>, k: nat)
    ensures var u := Unpack(s, k); var g := GetCode(u.0, s, ControlAfter(DecodeAll(u.1)));
      Unpack(s, k + 1) == (g.0, u.1 + [g.1])
  {
    hide GetCode, ControlAfter, DecodeAll;
  }

  /** Any stream whose codes a coder may have sent is read to its end. */
  lemma CodesReadReads(s: seq<byte>)
    requires !DecodeAll(CodesRead(s)).Corrupt?
    ensures Reads(s, CodesRead(s))
  {
    hide Taken, DecodeAll;
    TakenReads(NEW_READER, s, []);
  }

  lemma {:induction false} TakenIs(r: Reader, s: seq<byte>, codes: seq<int>, k: nat)
    requires Reads(s, codes) && !DecodeAll(codes).Corrupt? && k <= |codes| && Unpack(s, k) == (r, codes[..k])
    ensures Taken(r, s, codes[..k]) == codes
    decreases |codes| - k
  {
    hide GetCode, DecodeAll, ControlAfter;
    UnpackPrefix(s, k + 1, |codes| + 1);
    UnpackStep(s, k);
    assert (codes + [-1])[..k + 1][k] == (codes + [-1])[k];
    if k < |codes| {
      SoundPrefix(codes, k);
      assert codes[..k + 1] == codes[..k] + [codes[k]] == (codes + [-1])[..k + 1];
      TakenIs(Unpack(s, k + 1).0, s, codes, k + 1);
    } else {
      assert codes[..k] == codes;
    }
  }

  lemma {:induction false} SoundPrefix(codes: seq<int>, k: nat)
    requires !DecodeAll(codes).Corrupt? && k < |codes|
    ensures !DecodeAll(codes[..k + 1]).Corrupt? && codes[k] >= 0
    decreases |codes| - k
  {
    hide DecodeAll;
    if k + 1 < |codes| {
      SoundPrefix(codes, k + 1);
      assert codes[..k + 2] == codes[..k + 1] + [codes[k + 1]];
      DecodeNext(codes[..k + 1], codes[k + 1]);
    }
    assert codes[..k + 1] == codes[..k] + [codes[k]];
    if k + 1 == |codes| { assert codes[..k + 1] == codes; }
    DecodeNext(codes[..k], codes[k]);
  }

  /** Where no byte 0xFF is in the way, the codes read are those sent. */
  lemma UnmarkedRead(codes: seq<int>)
    requires !DecodeAll(codes).Corrupt? && Unmarked(codes)
    ensures CodesRead(Packed(codes)) == codes && Reads(Packed(codes), codes)
  {
    hide DecodeAll, Unmarked, Packed, Taken, Unpack;
    UnpackPacked(codes);
    assert codes[..0] == [];
    UnpackNone(Packed(codes));
    TakenIs(NEW_READER, Packed(codes), codes, 0);
  }

  lemma UnpackNone(s: seq<byte>)
    ensures Unpack(s, 0) == (NEW_READER, [])
  {
  }

  // A stream that begins with the byte 0xFF.

  /** The first code stays in front of the stream, whatever comes after it. */
  lemma {:induction false} FirstKept(codes: seq<int>, s: seq<byte>)
    requires !DecodeAll(codes).Corrupt? && codes != [] && Extends(s, WriterAfter(codes))
    ensures !DecodeAll(codes[..1]).Corrupt? && Extends(s, WriterAfter(codes[..1]))
    decreases |codes|
  {
    hide Extends, PutCode, EndGroup, ControlAfter, DecodeAll;
    if |codes| == 1 {
      assert codes[..1] == codes;
    } else {
      var most, last := codes[..|codes| - 1], codes[|codes| - 1];
      assert codes == most + [last];
      WriterNext(most, last);
      var w, c := WriterAfter(most), ControlAfter(DecodeAll(most));
      ExtendsPut(s, EndGroup(w, c), last);
      ExtendsEndGroup(s, w, c);
      FirstKept(most, s);
      assert most[..1] == codes[..1];
    }
  }

  lemma FirstByteOf(s: seq<byte>)
    requires Extends(s, PutCode(NEW_WRITER, 255))
    ensures s != [] && s[0] == 255
  {
    hide Put, PutCode;
    PutOne();
    assert s[0..] == s;
  }

  /** If the first code is the byte 0xFF, decompress takes the whole stream for empty. */
  lemma FirstMarkEnds(codes: seq<int>)
    requires !DecodeAll(codes).Corrupt? && codes != [] && codes[0] == 255
    ensures CodesRead(Packed(codes)) == []
  {
    hide Extends, PutCode, EndGroup, ControlAfter, DecodeAll, WriterAfter, Flush;
    var s := Packed(codes);
    var w := WriterAfter(codes);
    FlushExtends(WriterReady(codes));
    ExtendsEndGroup(s, w, ControlAfter(DecodeAll(codes)));
    FirstKept(codes, s);
    assert codes[..1] == [255];
    FirstWriter();
    FirstByteOf(s);
    MarkFirst(s);
  }

  lemma FirstWriter()
    ensures !DecodeAll([255]).Corrupt? && WriterAfter([255]) == PutCode(NEW_WRITER, 255)
  {
    hide PutCode, DecodeAll, Decode;
    DecodeOne();
    assert [] + [255] == [255];
    WriterNext([], 255);
    ReadyFirst();
  }

  lemma ReadyFirst()
    ensures WriterReady([]) == NEW_WRITER
  {
    assert Weight(9) == 512;
  }

  lemma MarkFirst(s: seq<byte>)
    requires s != [] && s[0] == 255
    ensures CodesRead(s) == []
  {
    hide Get;
    assert Available(s, 0, 9, 0) == 0;
    assert GetCode(NEW_READER, s, Control(FIRST, false)).1 == -1;
  }
}
