/** compress and decompress in place: the hash table, the packer's buffer and the string
    tables are arrays that the loops update (test-progs/src/compress.c). */
module Compress {
  import opened Powers
  import opened LzwCodes
  import opened LzwHash
  import opened LzwPack
  import opened LzwStream
  import opened LzwGreedy

  lemma InStepCode(input: seq<byte>, codes: seq<int>, t: Table, ent: int)
    requires InStep(input, codes, t, ent)
    ensures 0 <= ent < 4096
  {
  }

  lemma NothingDecoded()
    ensures DecodeAll([]) == Start
  {
  }

  lemma NothingTwice()
    ensures Unique([])
  {
  }

  lemma NothingChosen(input: seq<byte>)
    ensures AllLongest([], []) && ClearsRight([]) && Greedy(input, []) && !GivesUp([]) && Unique([])
    ensures GaugeAfter([]) == Gauge(0, 10000)
  {
  }

  /** The search has ended without the pair: the table does not have it, unless its key is 0. */
  lemma NotThere(htab: seq<int>, codetab: seq<int>, t: Table, used: set<int>, e: Entry, j: nat)
    requires Indexes(htab, codetab, t, used) && 0 <= e.prefix < 4096
    requires Vacant(htab, Hash(e.prefix, e.suffix), Key(e), j)
    ensures e in t ==> e == Entry(0, 0)
  {
    hide Indexes, Vacant, Hash;
    if e != Entry(0, 0) {
      forall k | 0 <= k < |t| ensures t[k] != e { MissIsComplete(htab, codetab, t, used, e, j, k); }
    }
  }

  lemma ClearDecoded(codes: seq<int>)
    requires DecodeAll(codes).Running?
    ensures DecodeAll(codes + [CLEAR]).Cleared? && ControlAfter(DecodeAll(codes + [CLEAR])) == Control(CLEAR, true)
  {
    DecodeNext(codes, CLEAR);
  }

  /** The globals of the compressing side. */
  class Compressor {
    const htab: array<int>
    const codetab: array<int>
    const buf: array<byte>
    var outbuf: seq<byte>
    var offset: nat
    var nBits: width
    var maxcode: int
    var freeEnt: int
    var clearFlg: bool
    var inCount: int
    var bytesOut: int
    var ratio: int
    var checkpoint: int

    /** The codes output so far, the string table and the slots in use. */
    var codes: seq<int>
    ghost var table: Table
    ghost var used: set<int>

    ghost predicate Shaped()
      reads this`outbuf, this`nBits, this`maxcode, this`bytesOut
    {
      && htab.Length == HSIZE && codetab.Length == HSIZE && buf.Length == BUFFER && htab != codetab
      && maxcode == MaxCode(nBits) && bytesOut == |outbuf| + 3
    }

    ghost function Packer(): Writer
      requires Shaped()
      reads this`outbuf, this`nBits, this`maxcode, this`bytesOut, this`offset, buf
    {
      Writer(outbuf, buf[..], offset, nBits)
    }

    /** The packer is where the codes output so far have brought it. */
    ghost predicate Packed()
      reads this`outbuf, this`nBits, this`maxcode, this`bytesOut, this`offset, this`clearFlg, this`codes, buf
    {
      Shaped() && !clearFlg && !DecodeAll(codes).Corrupt? && Packer() == WriterReady(codes)
    }

    /** The hash table is an index of the string table. */
    ghost predicate Indexed()
      reads this`freeEnt, this`table, this`used, htab, codetab
    {
      && htab.Length == HSIZE && codetab.Length == HSIZE && htab != codetab
      && |table| <= CAPACITY && freeEnt == FIRST + |table|
      && Indexes(htab[..], codetab[..], table, used)
    }

    ghost predicate Valid()
      reads this, htab, codetab, buf
    {
      Packed() && Indexed()
    }

    /** The initialisation in compress. */
    constructor ()
      ensures Valid() && codes == [] && table == [] && outbuf == []
      ensures inCount == 1 && ratio == 0 && checkpoint == 10000
      ensures fresh(htab) && fresh(codetab) && fresh(buf)
    {
      htab := new int[HSIZE](i => -1);
      codetab := new int[HSIZE](i => 0);
      buf := new byte[BUFFER](i => 0);
      outbuf, offset, nBits, maxcode, freeEnt, clearFlg := [], 0, 9, 511, FIRST, false;
      inCount, bytesOut, ratio, checkpoint := 1, 3, 0, 10000;
      codes, table, used := [], [], {};
      new;
      EmptyIndex(htab[..], codetab[..]);
      assert buf[..] == EMPTY;
    }

    /** The code goes into the buffer at the current offset. */
    method PutBits(code: int)
      requires Shaped() && Packer().Valid() && 0 <= code < Weight(nBits)
      modifies buf
      ensures buf[..] == Put(old(buf[..]), offset, nBits, code)
    {
      hide Weight, Put;
      var i, r := offset / 8, offset % 8;
      ghost var b := buf[..];
      PutStores(b, offset, nBits, code);
      var bits, c := nBits - (8 - r), code / Weight(8 - r);
      buf[i] := (buf[i] % Weight(r) + code * Weight(r)) % 256;
      i := i + 1;
      if bits >= 8 {
        buf[i] := c % 256;
        i := i + 1;
        c := c / 256;
        bits := bits - 8;
      }
      if bits > 0 {
        buf[i] := c % 256;
      }
    }

    /** The part of output that packs a code: a full group is sent. */
    method PackCode(code: int)
      requires Shaped() && Packer().Valid() && 0 <= code < Weight(nBits)
      modifies buf, this`outbuf, this`offset, this`bytesOut
      ensures Shaped() && Packer() == PutCode(old(Packer()), code)
    {
      hide Put, Weight;
      PutBits(code);
      offset := offset + nBits;
      if offset == 8 * nBits {
        outbuf := outbuf + buf[..nBits];
        bytesOut := bytesOut + nBits;
        offset := 0;
      }
    }

    /** output(code) for a code: packs it, sends full groups, and changes the width when the
        table has outgrown it or has been cleared. */
    method Output(code: int)
      requires Shaped() && Packer().Valid() && 0 <= code < Weight(nBits) && freeEnt <= MAXCODES
      modifies buf, this`outbuf, this`offset, this`nBits, this`maxcode, this`clearFlg, this`bytesOut
      ensures Shaped() && !clearFlg
      ensures Packer() == EndGroup(PutCode(old(Packer()), code), Control(freeEnt, old(clearFlg)))
    {
      assert MaxCode(9) == 511;
      hide Put, Weight, PutCode, Aligned;
      PackCode(code);
      if freeEnt > maxcode || clearFlg {
        if offset > 0 {
          outbuf := outbuf + buf[..nBits];
          bytesOut := bytesOut + nBits;
        }
        offset := 0;
        if clearFlg {
          nBits := 9;
          maxcode := 511;
          clearFlg := false;
        } else {
          nBits := nBits + 1;
          maxcode := if nBits == 12 then MAXCODES else Weight(nBits) - 1;
        }
      }
    }

    /** output(-1): sends what is left in the buffer. */
    method Finish()
      requires Shaped() && Packer().Valid()
      modifies this`outbuf, this`offset, this`bytesOut
      ensures outbuf == Flush(old(Packer()))
    {
      if offset > 0 {
        outbuf := outbuf + buf[..(offset + 7) / 8];
      }
      bytesOut := bytesOut + (offset + 7) / 8;
      offset := 0;
    }

    /** cl_hash: empties the hash table, sixteen slots at a time from the end. */
    method ClHash()
      requires htab.Length == HSIZE
      modifies htab
      ensures forall p :: 0 <= p < HSIZE ==> htab[p] == -1
    {
      var p := HSIZE;
      var i := HSIZE - 16;
      while i >= 0
        invariant i == p - 16 && -16 <= i
        invariant forall q :: p <= q < HSIZE ==> htab[q] == -1
      {
        forall q | p - 16 <= q < p { htab[q] := -1; }
        p := p - 16;
        i := i - 16;
      }
      i := i + 16;
      while i > 0
        invariant i == p && 0 <= i
        invariant forall q :: p <= q < HSIZE ==> htab[q] == -1
      {
        p := p - 1;
        htab[p] := -1;
        i := i - 1;
      }
    }

    /** Outputs the code of the string that ends before the current byte. */
    method Emit(ghost input: seq<byte>, ent: int)
      requires Packed() && 0 <= freeEnt - FIRST == |table| <= CAPACITY && InStep(input, codes, table, ent)
      modifies buf, this`outbuf, this`offset, this`nBits, this`maxcode, this`clearFlg, this`bytesOut, this`codes
      ensures Packed() && codes == old(codes) + [ent]
    {
      hide PutCode, EndGroup, WriterReady, DecodeAll, InStep;
      InStepWrite(input, codes, table, ent);
      WriterNext(codes, ent);
      var next := codes + [ent];
      assert ControlAfter(DecodeAll(next)) == Control(freeEnt, clearFlg);
      Output(ent);
      codes := next;
    }

    /** Outputs CLEAR; the table is to be emptied. */
    method EmitClear()
      requires Packed() && DecodeAll(codes).Running?
      modifies buf, this`outbuf, this`offset, this`nBits, this`maxcode, this`clearFlg, this`bytesOut, this`codes,
        this`freeEnt
      ensures Packed() && codes == old(codes) + [CLEAR] && freeEnt == FIRST
    {
      hide PutCode, EndGroup, WriterReady, DecodeAll, ControlAfter, Decode;
      var next := codes + [CLEAR];
      ClearDecoded(codes);
      WriterNext(codes, CLEAR);
      ClearControls(PutCode(Packer(), CLEAR));
      freeEnt := FIRST;
      clearFlg := true;
      Output(CLEAR);
      codes := next;
    }

    /** The choices made so far are right: after the input, ent is the code held. */
    ghost predicate Kept(input: seq<byte>, ent: int)
      reads this`codes, this`table, this`inCount, this`ratio, this`checkpoint
    {
      && InStep(input, codes, table, ent) && Unique(table) && Greedy(input, codes)
      && ClearsRight(codes) && !GivesUp(codes)
      && inCount == |input| && Gauge(ratio, checkpoint) == GaugeAfter(codes)
    }

    /** Whether cl_block is to clear: the ratio of bytes read to bytes sent has not improved. */
    method RatioDropped() returns (dropped: bool)
      requires Shaped()
      modifies this`checkpoint, this`ratio
      ensures dropped <==> old(ratio) >= CurrentRatio()
      ensures ratio == (if dropped then 0 else CurrentRatio()) && checkpoint == inCount + 10000
    {
      checkpoint := inCount + 10000;
      var rat;
      if inCount > 0x007f_ffff {
        rat := bytesOut / 256;
        if rat == 0 {
          rat := 0x7fff_ffff;
        } else {
          rat := inCount / rat;
        }
      } else {
        rat := inCount * 256 / bytesOut;
      }
      if rat > ratio {
        ratio := rat;
        dropped := false;
      } else {
        ratio := 0;
        dropped := true;
      }
    }

    /** The bytes read for every byte sent, times 256, rounded down; of a long input, the
        bytes read for every 256 sent. */
    function CurrentRatio(): (r: int)
      requires Shaped()
      reads this`inCount, this`bytesOut, this`outbuf, this`nBits, this`maxcode
      ensures inCount <= 0x007f_ffff ==> r * bytesOut <= inCount * 256 < (r + 1) * bytesOut
      ensures inCount > 0x007f_ffff && bytesOut >= 256 ==>
        r * (bytesOut / 256) <= inCount < (r + 1) * (bytesOut / 256)
    {
      Ratio(inCount, bytesOut)
    }

    /** cl_block: gives up the full table when the ratio has not improved.  Before it, ent has
        been output and c is the byte after it. */
    method ClBlock(ghost input: seq<byte>, ghost before: seq<int>, ghost ent: int, c: byte)
      requires Valid() && codes == before + [ent] && InStep(input, before, table, ent) && |table| == CAPACITY
      requires inCount == |input| + 1 && Gauge(ratio, checkpoint) == GaugeAfter(before) && Due(codes)
      modifies this, htab, buf
      ensures Valid() && InStep(input + [c], codes, table, c) && inCount == old(inCount)
      ensures codes == old(codes) + if GivesUp(old(codes)) then [CLEAR] else []
      ensures table == if GivesUp(old(codes)) then [] else old(table)
      ensures Gauge(ratio, checkpoint) == GaugeAfter(old(codes))
    {
      hide InStep, DecodeAll, WriterReady, Indexes, Due, GivesUp, GaugeAfter, Ratio;
      ghost var t := table;
      InStepWrite(input, before, t, ent);
      InStepMiss(input, before, t, ent, c);
      InStepClear(input, before, t, ent, c);
      GaugeNext(before, ent, inCount) by { DueNext(input, before, t, ent); }
      var dropped := RatioDropped();
      if dropped {
        ClHash();
        EmptyIndex(htab[..], codetab[..]);
        EmitClear();
        table, used := [], {};
      }
    }

    /** Enters the pair in the slot where its search ended. */
    method Enter(i: int, ghost j: nat, ent: int, c: byte)
      requires Indexed() && |table| < CAPACITY && 0 <= ent < 4096 && 0 <= i < HSIZE && i == Probe(Hash(ent, c), j)
      requires Vacant(htab[..], Hash(ent, c), Key(Entry(ent, c)), j)
      modifies htab, codetab, this`freeEnt, this`table, this`used
      ensures Indexed() && table == old(table) + [Entry(ent, c)]
    {
      EnterKeepsIndex(htab[..], codetab[..], table, used, Entry(ent, c), j);
      ghost var h, d := htab[..], codetab[..];
      codetab[i] := freeEnt;
      freeEnt := freeEnt + 1;
      htab[i] := Key(Entry(ent, c));
      assert htab[..] == h[i := Key(Entry(ent, c))] && codetab[..] == d[i := FIRST + |table|];
      hide Indexes;
      table, used := table + [Entry(ent, c)], used + {i};
    }

    /** The pair (ent, c) is new: outputs ent, and enters the pair or considers clearing. */
    method Miss(ghost input: seq<byte>, ent: int, c: byte, i: int, ghost j: nat)
      requires Valid() && InStep(input, codes, table, ent) && 0 <= ent < 4096
      requires 0 <= i < HSIZE && i == Probe(Hash(ent, c), j)
      requires Vacant(htab[..], Hash(ent, c), Key(Entry(ent, c)), j)
      requires inCount == |input| + 1 && Gauge(ratio, checkpoint) == GaugeAfter(codes)
      modifies this, htab, codetab, buf
      ensures Valid() && InStep(input + [c], codes, table, c) && inCount == old(inCount)
      ensures codes == old(codes) + [ent] + if GivesUp(old(codes) + [ent]) then [CLEAR] else []
      ensures Gauge(ratio, checkpoint) == GaugeAfter(old(codes) + [ent])
      ensures table == if GivesUp(old(codes) + [ent]) then []
                       else if |old(table)| < CAPACITY then old(table) + [Entry(ent, c)] else old(table)
    {
      hide InStep, DecodeAll, WriterReady, Vacant, Indexes, Hash, Key, Probe, Due, GivesUp, GaugeAfter, Ratio;
      ghost var before, t := codes, table;
      InStepMiss(input, codes, table, ent, c);
      DueNext(input, codes, table, ent);
      GaugeNext(codes, ent, inCount);
      Emit(input, ent);
      if freeEnt < MAXCODES {
        Enter(i, j, ent, c);
      } else if inCount >= checkpoint {
        ClBlock(input, before, ent, c);
      }
    }

    /** One input byte through the loop of compress: the string goes on with it if the table
        has it, and otherwise the code held is sent and the byte starts a new string. */
    method Next(ghost input: seq<byte>, ent: int, c: byte) returns (next: int)
      requires Valid() && Kept(input, ent)
      modifies this, htab, codetab, buf
      ensures Valid() && Kept(input + [c], next)
      ensures Entry(ent, c) in old(table) && Entry(ent, c) != Entry(0, 0) ==>
        && codes == old(codes) && table == old(table)
        && FIRST <= next < FIRST + |table| && table[next - FIRST] == Entry(ent, c)
      ensures Entry(ent, c) !in old(table) ==>
        next == c && codes == old(codes) + [ent] + if GivesUp(old(codes) + [ent]) then [CLEAR] else []
    {
      hide InStep, DecodeAll, WriterReady, Vacant, Indexes, Hash, Key, Probe, Greedy, ClearsRight, GivesUp, GaugeAfter,
        Unique;
      InStepCode(input, codes, table, ent);
      inCount := inCount + 1;
      var found, i;
      ghost var j;
      found, i, j := Search(htab, codetab, ent, c, table, used);
      if found {
        HitIsSound(htab[..], codetab[..], table, used, Entry(ent, c), i);
        InStepMatch(input, codes, table, ent, c, codetab[i] - FIRST);
        GreedyHit(input, codes, c);
        next := codetab[i];
      } else {
        NotThere(htab[..], codetab[..], table, used, Entry(ent, c), j);
        GreedyMiss(input, codes, table, ent, c);
        NotClear(input, codes, table, ent);
        ClearsNext(codes, ent);
        UniqueEntered(table, Entry(ent, c));
        NothingTwice();
        assert codes + [ent] + [] == codes + [ent];
        Miss(input, ent, c, i, j);
        next := c;
      }
    }

    /** compress: the bytes sent are a packed code sequence that the decoder turns back into
        the input. */
    method Run(input: seq<byte>)
      requires Valid() && codes == [] && table == [] && outbuf == []
      requires inCount == 1 && ratio == 0 && checkpoint == 10000
      modifies this, htab, codetab, buf
      ensures !DecodeAll(codes).Corrupt? && DecodeAll(codes).Written() == input
      ensures outbuf == LzwStream.Packed(codes)
      ensures AllLongest(input, codes) && ClearsRight(codes)
    {
      hide InStep, WriterReady, Indexes, DecodeAll, GivesUp, Greedy, AllLongest, ClearsRight, Unique;
      NothingChosen(if input == [] then [] else [input[0]]);
      if input == [] {
        NothingDecoded();
        Finish();
        return;
      }
      var ent: int := input[0];
      var p := 1;
      assert input[..1] == [input[0]];
      InStepStart(input[0]);
      while p < |input|
        invariant 1 <= p <= |input| && Valid() && Kept(input[..p], ent)
      {
        assert input[..p + 1] == input[..p] + [input[p]];
        ent := Next(input[..p], ent, input[p]);
        p := p + 1;
      }
      assert input[..p] == input;
      InStepEnd(input, codes, table, ent);
      GreedyEnd(input, codes, table, ent);
      NotClear(input, codes, table, ent);
      ClearsNext(codes, ent);
      Emit(input, ent);
      Finish();
    }
  }

  /** Where the stack of decompress starts in the memory of htab. */
  const STACK: int := 4096
  /** The bytes of htab. */
  const MEMORY: int := 20012

  function Reversed(s: seq<byte>): (r: seq<byte>)
    ensures |r| == |s|
  {
    if s == [] then [] else Reversed(s[1..]) + [s[0]]
  }

  /** The globals of the decompressing side.  The bytes of htab hold the last byte of every
      string and, from STACK on, the stack on which a string is unwound. */
  class Decompressor {
    const input: seq<byte>
    const mem: array<byte>
    const codetab: array<int>
    const buf: array<byte>
    var outbuf: seq<byte>
    var pos: nat
    var offset: nat
    var size: int
    var nBits: width
    var maxcode: int
    var freeEnt: int
    var clearFlg: bool

    ghost predicate Shaped()
      reads this`nBits, this`maxcode, this`freeEnt, this`size
    {
      && mem.Length == MEMORY && codetab.Length == HSIZE && buf.Length == BUFFER && mem != buf
      && maxcode == MaxCode(nBits) && freeEnt <= MAXCODES && size <= 85
    }

    ghost function State(): Reader
      requires Shaped()
      reads this`nBits, this`maxcode, this`freeEnt, this`pos, this`offset, this`size, buf
    {
      Reader(pos, buf[..], offset, size, nBits)
    }

    /** The arrays hold the string table. */
    ghost predicate Tabled(t: Table)
      reads mem, codetab
    {
      && mem.Length == MEMORY && codetab.Length == HSIZE && |t| <= CAPACITY
      && (forall c :: 0 <= c < 256 ==> mem[c] == c)
      && (forall k :: 0 <= k < |t| ==> codetab[FIRST + k] == t[k].prefix && mem[FIRST + k] == t[k].suffix)
    }

    constructor (input: seq<byte>)
      ensures Shaped() && Tabled([]) && State() == NEW_READER && freeEnt == FIRST && !clearFlg && outbuf == []
      ensures this.input == input && fresh(mem) && fresh(codetab) && fresh(buf)
    {
      this.input := input;
      mem := new byte[MEMORY](i => if 0 <= i < 256 then i else 0);
      codetab := new int[HSIZE](i => 0);
      buf := new byte[BUFFER](i => 0);
      outbuf, pos, offset, size, nBits, maxcode, freeEnt, clearFlg := [], 0, 0, 0, 9, 511, FIRST, false;
      new;
      assert buf[..] == EMPTY;
    }

    /** The next byte of the stream, or -1 at its end, which is 0xFF as a byte. */
    method ReadByte()
      requires Shaped() && 0 <= size < buf.Length
      modifies buf, this`pos
      ensures pos == old(pos) + if old(pos) < |input| then 1 else 0
      ensures buf[..] == old(buf[..])[size := if old(pos) < |input| then input[old(pos)] else 255]
    {
      if pos < |input| {
        buf[size] := input[pos];
        pos := pos + 1;
      } else {
        buf[size] := 255;
      }
    }

    /** The loop of getcode that reads the next group. */
    method ReadGroup()
      requires Shaped()
      modifies buf, this`pos, this`size
      ensures var k := Available(input, old(pos), nBits, 0);
              && size == k && pos == old(pos) + k + (if k < nBits && old(pos) + k < |input| then 1 else 0)
              && var b := Filled(old(buf[..]), input, old(pos), k);
                 buf[..] == if k < nBits then b[k := 255] else b
    {
      hide Available, MaxCode, Filled;
      ghost var start, k, b0: buffer := pos, Available(input, pos, nBits, 0), buf[..];
      size := 0;
      FilledNone(b0, input, start);
      while size < nBits
        invariant 0 <= size <= k && pos == start + size && (size > 0 ==> pos <= |input|)
        invariant buf[..] == Filled(b0, input, start, size)
      {
        GroupGoesOn(input, start, nBits, size);
        ReadByte();
        if buf[size] == 255 {
          assert buf[..] == Filled(b0, input, start, size)[size := 255];
          break;
        }
        FilledNext(b0, input, start, size);
        size := size + 1;
      }
    }

    /** The refill at the start of getcode. */
    method RefillBuffer() returns (more: bool)
      requires Shaped()
      modifies buf, this`pos, this`offset, this`size
      ensures Shaped() && (more ==> offset == 0)
      ensures more <==> Available(input, old(pos), nBits, 0) > 0
      ensures forall n: width :: State() == Refill(old(State()).(n := n), input, nBits)
    {
      hide Available, MaxCode, Filled;
      ReadGroup();
      more := size > 0;
      if more {
        offset := 0;
        size := 8 * size - (nBits - 1);
      }
    }

    /** getcode: -1 at the end of the input. */
    method NextCode() returns (code: int)
      requires Shaped()
      modifies buf, this`pos, this`offset, this`size, this`nBits, this`maxcode, this`clearFlg
      ensures Shaped() && !clearFlg
      ensures (State(), code) == GetCode(old(State()), input, Control(freeEnt, old(clearFlg)))
    {
      hide Refill, Get, Weight, Available;
      ghost var r := State();
      if clearFlg || offset >= size || freeEnt > maxcode {
        if freeEnt > maxcode {
          nBits := nBits + 1;
          maxcode := MaxCode(nBits);
        }
        if clearFlg {
          nBits := 9;
          maxcode := MaxCode(9);
          clearFlg := false;
        }
        assert State() == r.(n := nBits) && State().(n := r.n) == r;
        var more := RefillBuffer();
        if !more {
          return -1;
        }
      }
      code := GetBits();
      offset := offset + nBits;
    }

    /** The code at the current offset. */
    method GetBits() returns (code: int)
      requires Shaped() && offset + nBits <= 96
      ensures code == Get(buf[..], offset, nBits)
    {
      var i, r := offset / 8, offset % 8;
      var bits := nBits - (8 - r);
      code := buf[i] / Weight(r);
      i := i + 1;
      if bits >= 8 {
        code := code + buf[i] * Weight(8 - r);
        i := i + 1;
        bits := bits - 8;
        if bits > 0 {
          code := code + buf[i] % Weight(bits) * (256 * Weight(8 - r));
        }
      } else {
        code := code + buf[i] % Weight(bits) * Weight(8 - r);
      }
    }

    /** Pushes the string of a code, last byte first, and returns its first byte. */
    method Unwind(ghost t: Table, start: int, base: int) returns (sp: int, first: byte)
      requires mem.Length == MEMORY && codetab.Length == HSIZE && |t| <= CAPACITY
      requires Tabled(t) && Grown(t) && Known(t, start) && STACK <= base <= STACK + 1
      modifies mem
      ensures Tabled(t) && base < sp <= MEMORY && mem[base..sp] == Reversed(Expand(t, start))
      ensures first == Expand(t, start)[0] && mem[..base] == old(mem[..base])
    {
      hide Expand, Grown, Reversed, Tabled;
      var code := start;
      sp := base;
      ghost var rest: seq<byte> := [];
      ghost var low := mem[..base];
      assert mem[base..sp] == Reversed(rest) by { ReversedNone(); }
      while code >= 256
        invariant Known(t, code) && base <= sp <= base + start - code
        invariant Expand(t, start) == Expand(t, code) + rest && mem[base..sp] == Reversed(rest)
        invariant mem[..base] == low && Tabled(t)
        decreases code
      {
        TableAt(t, code);
        ExpandEntry(t, code);
        var x := mem[code];
        Push(t, base, sp, x, rest);
        sp := sp + 1;
        code := codetab[code];
        rest := [x] + rest;
      }
      TableAt(t, code);
      first := mem[code];
      Push(t, base, sp, first, rest);
      sp := sp + 1;
      ExpandByte(t, code);
      assert Expand(t, start) == [first] + rest;
    }

    lemma Emptied(t: Table)
      requires Tabled(t)
      ensures Tabled([])
    {
    }

    lemma TableAt(t: Table, code: int)
      requires Tabled(t) && Known(t, code) && mem.Length == MEMORY && codetab.Length == HSIZE
      ensures if code < 256 then mem[code] == code
              else
                && 0 <= code - FIRST < |t| && codetab[code] == t[code - FIRST].prefix
                && mem[code] == t[code - FIRST].suffix
    {
    }

    /** One byte on the stack. */
    method Push(ghost t: Table, ghost base: int, sp: int, x: byte, ghost rest: seq<byte>)
      requires mem.Length == MEMORY && Tabled(t) && STACK <= base <= sp < MEMORY && mem[base..sp] == Reversed(rest)
      modifies mem
      ensures Tabled(t) && mem[..base] == old(mem[..base]) && mem[base..sp + 1] == Reversed([x] + rest)
    {
      ghost var m, low := mem[base..sp], mem[..base];
      mem[sp] := x;
      assert mem[base..sp + 1] == m + [x];
      assert mem[..base] == low;
      assert ([x] + rest)[1..] == rest;
    }

    /** Pops the stack into the output. */
    method Pop(top: int)
      requires mem.Length == MEMORY && STACK < top <= MEMORY
      modifies this`outbuf
      ensures outbuf == old(outbuf) + Reversed(mem[STACK..top])
    {
      var sp := top;
      ghost var popped: seq<byte> := [];
      assert mem[sp..top] == [];
      while sp > STACK
        invariant STACK <= sp <= top && outbuf == old(outbuf) + Reversed(mem[sp..top])
      {
        sp := sp - 1;
        outbuf := outbuf + [mem[sp]];
        assert mem[sp..top] == [mem[sp]] + mem[sp + 1..top];
      }
    }

    /** The arrays and variables are those of the decoder d. */
    ghost predicate Holding(d: Decoder, oldcode: int, finchar: int)
      reads this`outbuf, this`freeEnt, mem, codetab
    {
      match d
      case Start => Tabled([]) && freeEnt == FIRST && outbuf == []
      case Cleared(out) => Tabled([]) && freeEnt == CLEAR && outbuf == out
      case Running(t, prev, first, out) =>
        Tabled(t) && freeEnt == FIRST + |t| && outbuf == out && prev == oldcode && first == finchar
      case Corrupt => false
    }

    /** Writes the string of a code that is in the table, or of the one being defined. */
    method WriteString(ghost t: Table, code: int, oldcode: int, finchar: byte) returns (first: byte)
      requires mem.Length == MEMORY && codetab.Length == HSIZE && Tabled(t) && Grown(t)
      requires if code >= freeEnt then Known(t, oldcode) else Known(t, code)
      modifies mem, this`outbuf
      ensures Tabled(t)
      ensures var s := if code >= freeEnt then Expand(t, oldcode) + [finchar] else Expand(t, code);
              outbuf == old(outbuf) + s && first == s[0]
    {
      assert |t| <= CAPACITY;
      hide Expand, Grown, Reversed, Tabled, Known;
      var sp: int := STACK;
      if code >= freeEnt {
        assert mem[STACK..sp] == Reversed([]) by { ReversedNone(); }
        Push(t, STACK, sp, finchar, []);
        assert [finchar] + [] == [finchar];
        ghost var low := mem[STACK..STACK + 1];
        ghost var below := mem[..STACK + 1];
        sp, first := Unwind(t, oldcode, STACK + 1);
        ghost var s := Expand(t, oldcode);
        assert mem[STACK..sp] == low + mem[STACK + 1..sp] by {
          assert mem[..STACK + 1] == below;
          assert low == below[STACK..];
          assert mem[STACK..STACK + 1] == mem[..STACK + 1][STACK..];
        }
        ReversedOne(finchar);
        ReversedAppend(s, finchar);
        Pop(sp);
        ReversedTwice(s + [finchar]);
      } else {
        sp, first := Unwind(t, code, STACK);
        Pop(sp);
        ReversedTwice(Expand(t, code));
      }
    }

    /** Enters the last code and the first byte of the new string, if there is room. */
    method Enter(ghost t: Table, oldcode: int, first: byte)
      requires mem.Length == MEMORY && codetab.Length == HSIZE && Tabled(t)
      requires freeEnt == FIRST + |t| || (t == [] && freeEnt == CLEAR)
      modifies mem, codetab, this`freeEnt
      ensures freeEnt == old(freeEnt) + if old(freeEnt) < MAXCODES then 1 else 0
      ensures Tabled(if old(freeEnt) == CLEAR then [] else Learn(t, Entry(oldcode, first)))
    {
      if freeEnt < MAXCODES {
        codetab[freeEnt] := oldcode;
        mem[freeEnt] := first;
        freeEnt := freeEnt + 1;
      }
    }

    /** A code that is not CLEAR goes through the loop of decompress. */
    method Accept(ghost d: Decoder, code: int, oldcode: int, finchar: byte) returns (first: byte)
      requires mem.Length == MEMORY && codetab.Length == HSIZE && d.Valid() && Holding(d, oldcode, finchar)
      requires (d.Running? && code != CLEAR) || d.Cleared?
      requires !Decode(d, code).Corrupt?
      modifies mem, codetab, this`outbuf, this`freeEnt
      ensures Holding(Decode(d, code), code, first)
    {
      hide Expand, Tabled, Grown;
      ghost var t := if d.Running? then d.table else [];
      NothingGrown();
      AcceptedCode(d, code);
      first := WriteString(t, code, oldcode, finchar);
      Enter(t, oldcode, first);
    }

    /** getcode at code k of the sequence whose packed form the input is. */
    method Fetch(ghost codes: seq<int>, ghost k: nat) returns (code: int)
      requires Shaped() && !DecodeAll(codes).Corrupt? && k <= |codes|
      requires Reads(input, codes) && State() == Unpack(input, k).0
      requires Control(freeEnt, clearFlg) == ControlAfter(DecodeAll(codes[..k]))
      modifies buf, this`pos, this`offset, this`size, this`nBits, this`maxcode, this`clearFlg
      ensures Shaped() && !clearFlg && State() == Unpack(input, k + 1).0
      ensures code == if k < |codes| then codes[k] else -1
    {
      hide DecodeAll, Reads, GetCode, Unpack, ControlAfter, MaxCode;
      CodeRead(input, codes, k);
      code := NextCode();
    }

    /** Between two codes: the first k codes have been decoded. */
    ghost predicate Reached(codes: seq<int>, k: nat, oldcode: int, finchar: int)
      reads this, mem, codetab, buf
    {
      && Shaped() && !clearFlg && k <= |codes| && !DecodeAll(codes).Corrupt?
      && Reads(input, codes) && State() == Unpack(input, k).0
      && DecodeAll(codes[..k]).Running? && Holding(DecodeAll(codes[..k]), oldcode, finchar)
    }

    /** The CLEAR branch: empties the table and fetches the next code. */
    method Clear(ghost codes: seq<int>, ghost k: nat, ghost oldcode: int, ghost finchar: int) returns (code: int)
      requires Shaped() && k < |codes| && !DecodeAll(codes).Corrupt?
      requires Reads(input, codes) && State() == Unpack(input, k + 1).0
      requires DecodeAll(codes[..k + 1]) == Cleared(outbuf) && Tabled([])
      modifies this, codetab, buf
      ensures Shaped() && !clearFlg && State() == Unpack(input, k + 2).0 && outbuf == old(outbuf)
      ensures Holding(Cleared(outbuf), oldcode, finchar)
      ensures code == if k + 1 < |codes| then codes[k + 1] else -1
    {
      hide DecodeAll, Reads, GetCode, Unpack, Decode, MaxCode;
      forall c | 0 <= c < 256 { codetab[c] := 0; }
      clearFlg := true;
      freeEnt := CLEAR;
      code := Fetch(codes, k + 1);
    }

    /** The loop of decompress. */
    method Loop(ghost codes: seq<int>, first: byte)
      requires Reached(codes, 1, first, first)
      modifies this, mem, codetab, buf
      ensures outbuf == DecodeAll(codes).Written()
    {
      hide DecodeAll, Reads, Tabled, Unpack, Decode, MaxCode;
      var oldcode: int, finchar := first, first;
      ghost var k: nat := 1;
      assert codes[..|codes|] == codes;
      while true
        invariant Reached(codes, k, oldcode, finchar)
        decreases |codes| - k
      {
        var code := Fetch(codes, k);
        if k < |codes| { PrefixValid(codes, k); }
        if code <= -1 {
          break;
        }
        ghost var d := DecodeAll(codes[..k]);
        if code == CLEAR {
          Emptied(d.table);
          code := Clear(codes, k, oldcode, finchar);
          k := k + 1;
          if k < |codes| { PrefixValid(codes, k); }
          if code == -1 {
            break;
          }
          d := Cleared(outbuf);
        }
        finchar := Accept(d, code, oldcode, finchar);
        oldcode := code;
        k := k + 1;
      }
    }

    /** decompress: from the packed form of a code sequence, writes what the decoder writes
        on those codes. */
    method Run(ghost codes: seq<int>)
      requires Shaped() && Tabled([]) && State() == NEW_READER && freeEnt == FIRST && !clearFlg && outbuf == []
      requires !DecodeAll(codes).Corrupt? && Reads(input, codes)
      modifies this, mem, codetab, buf
      ensures outbuf == DecodeAll(codes).Written()
    {
      hide DecodeAll, Reads, Tabled, Unpack, Decode, MaxCode;
      StartOf(codes);
      assert codes[..|codes|] == codes;
      var oldcode := Fetch(codes, 0);
      if |codes| > 0 { PrefixValid(codes, 0); FirstCode(codes[0]); }
      if oldcode == -1 {
        return;
      }
      outbuf := outbuf + [oldcode];
      Loop(codes, oldcode);
    }
  }

  lemma StartOf(codes: seq<int>)
    ensures codes[..0] == [] && DecodeAll([]) == Start
    ensures forall s :: Unpack(s, 0) == (NEW_READER, [])
  {
  }

  lemma FirstCode(code: int)
    requires !Decode(Start, code).Corrupt?
    ensures 0 <= code < 256 && Decode(Start, code) == Running([], code, code, [code])
  {
  }

  lemma NextCodeKind(d: Decoder, code: int)
    requires d.Valid() && !Decode(d, code).Corrupt?
    ensures code >= 0
    ensures d.Running? && code == CLEAR ==> Decode(d, code) == Cleared(d.out)
    ensures d.Running? && code != CLEAR ==> Decode(d, code).Running?
    ensures d.Cleared? ==> Decode(d, code).Running?
  {
  }

  lemma {:induction false} PrefixValid(codes: seq<int>, k: nat)
    requires !DecodeAll(codes).Corrupt? && k < |codes|
    ensures !DecodeAll(codes[..k]).Corrupt? && !DecodeAll(codes[..k + 1]).Corrupt?
    ensures Decode(DecodeAll(codes[..k]), codes[k]) == DecodeAll(codes[..k + 1])
    ensures var d := DecodeAll(codes[..k]);
      && codes[k] >= 0
      && (d.Running? && codes[k] == CLEAR ==> DecodeAll(codes[..k + 1]) == Cleared(d.out))
      && (d.Running? && codes[k] != CLEAR ==> DecodeAll(codes[..k + 1]).Running?)
      && (d.Cleared? ==> DecodeAll(codes[..k + 1]).Running?)
    decreases |codes| - k
  {
    if k + 1 < |codes| {
      PrefixValid(codes, k + 1);
    } else {
      assert codes[..k + 1] == codes;
    }
    assert codes[..k + 1] == codes[..k] + [codes[k]];
    DecodeNext(codes[..k], codes[k]);
    hide DecodeAll;
    NextCodeKind(DecodeAll(codes[..k]), codes[k]);
  }

  lemma NothingGrown()
    ensures Grown([])
  {
  }

  /** Which string an acceptable code stands for. */
  lemma AcceptedCode(d: Decoder, code: int)
    requires d.Valid() && ((d.Running? && code != CLEAR) || d.Cleared?) && !Decode(d, code).Corrupt?
    ensures d.Cleared? ==> 0 <= code < 256 && Known([], code) && Grown([]) && Expand([], code) == [code]
    ensures d.Running? ==>
      && Grown(d.table)
      && (if code >= FIRST + |d.table| then Known(d.table, d.prev) else Known(d.table, code))
      && var s := if code >= FIRST + |d.table| then Expand(d.table, d.prev) + [d.finchar] else Expand(d.table, code);
         Decode(d, code) == Running(Learn(d.table, Entry(d.prev, s[0])), code, s[0], d.out + s)
  {
  }

  lemma {:induction false} UnpackNext(s: seq<byte>, k: nat, most: seq<int>, code: int)
    requires Unpack(s, k).1 == most && Unpack(s, k + 1).1 == most + [code]
    ensures GetCode(Unpack(s, k).0, s, ControlAfter(DecodeAll(most))) == (Unpack(s, k + 1).0, code)
  {
    hide GetCode, ControlAfter, DecodeAll;
    var g := GetCode(Unpack(s, k).0, s, ControlAfter(DecodeAll(most)));
    assert Unpack(s, k + 1) == (g.0, most + [g.1]);
    assert (most + [code])[|most|] == code && (most + [g.1])[|most|] == g.1;
  }

  /** The k-th call of getcode returns the k-th code, and -1 after the last. */
  lemma CodeRead(s: seq<byte>, codes: seq<int>, k: nat)
    requires Reads(s, codes) && k <= |codes|
    ensures GetCode(Unpack(s, k).0, s, ControlAfter(DecodeAll(codes[..k])))
      == (Unpack(s, k + 1).0, if k < |codes| then codes[k] else -1)
  {
    hide DecodeAll, GetCode, ControlAfter, Unpack;
    UnpackPrefix(s, k, |codes| + 1);
    UnpackPrefix(s, k + 1, |codes| + 1);
    assert (codes + [-1])[..k] == codes[..k];
    assert (codes + [-1])[..k + 1] == codes[..k] + [if k < |codes| then codes[k] else -1];
    UnpackNext(s, k, codes[..k], if k < |codes| then codes[k] else -1);
  }

  lemma ReversedOne(x: byte)
    ensures Reversed([x]) == [x]
  {
  }

  lemma ReversedNone()
    ensures Reversed([]) == []
  {
  }

  lemma {:induction false} ReversedAppend(s: seq<byte>, x: byte)
    ensures Reversed(s + [x]) == [x] + Reversed(s)
  {
    if s != [] {
      ReversedAppend(s[1..], x);
      assert (s + [x])[1..] == s[1..] + [x];
    }
  }

  lemma {:induction false} ReversedTwice(s: seq<byte>)
    ensures Reversed(Reversed(s)) == s
  {
    if s != [] {
      ReversedTwice(s[1..]);
      ReversedAppend(Reversed(s[1..]), s[0]);
    }
  }

  /** The group goes on with a byte of the stream that is not 0xFF. */
  lemma GroupGoesOn(s: seq<byte>, start: nat, n: width, size: nat)
    requires size <= Available(s, start, n, 0) && size < n
    ensures size < Available(s, start, n, 0) <==> start + size < |s| && s[start + size] != 255
  {
    AvailableAll(s, start, n, 0);
    hide Available;
  }

  lemma FilledNone(b: buffer, s: seq<byte>, pos: nat)
    ensures Filled(b, s, pos, 0) == b
  {
  }

  /** The driver Compress: compresses, then decompresses what it has sent, as long as the codes
      read are codes that a coder may send.  The input comes back whenever no byte 0xFF of the
      stream leads getcode astray, as in a stream that has none.  An input that begins with the
      byte 0xFF is lost entirely. */
  method RoundTrip(input: seq<byte>) returns (packed: seq<byte>, codes: seq<int>, output: seq<byte>)
    ensures !DecodeAll(codes).Corrupt? && DecodeAll(codes).Written() == input && packed == LzwStream.Packed(codes)
    ensures var read := DecodeAll(CodesRead(packed)); !read.Corrupt? ==> output == read.Written()
    ensures LzwStream.Unmarked(codes) ==> output == input
    ensures NoEndMark(packed) ==> output == input
    ensures input != [] && input[0] == 255 ==> output == []
  {
    hide DecodeAll, LzwStream.Packed, LzwStream.Unmarked, NoEndMark, CodesRead, Reads;
    var c := new Compressor();
    c.Run(input);
    packed, codes, output := c.outbuf, c.codes, [];
    if NoEndMark(packed) { NoMarkUnmarked(codes); }
    if LzwStream.Unmarked(codes) { UnmarkedRead(codes); }
    if input != [] && input[0] == 255 { FirstLost(codes); }
    if !DecodeAll(CodesRead(packed)).Corrupt? {
      CodesReadReads(packed);
      var d := new Decompressor(packed);
      d.Run(CodesRead(packed));
      output := d.outbuf;
    }
  }

  /** The first code is the first byte written. */
  lemma {:induction false} FirstWritten(codes: seq<int>)
    requires !DecodeAll(codes).Corrupt? && DecodeAll(codes).Written() != []
    ensures codes != [] && codes[0] == DecodeAll(codes).Written()[0]
    decreases |codes|
  {
    if |codes| > 1 {
      var most := codes[..|codes| - 1];
      if DecodeAll(most).Written() != [] {
        FirstWritten(most);
      } else {
        NothingWritten(most);
      }
    }
  }

  lemma {:induction false} NothingWritten(codes: seq<int>)
    requires !DecodeAll(codes).Corrupt? && codes != []
    ensures DecodeAll(codes).Written() != []
    decreases |codes|
  {
    if |codes| > 1 { NothingWritten(codes[..|codes| - 1]); }
  }

  /** Of an input that begins with the byte 0xFF, nothing is read back. */
  lemma FirstLost(codes: seq<int>)
    requires !DecodeAll(codes).Corrupt? && DecodeAll(codes).Written() != [] && DecodeAll(codes).Written()[0] == 255
    ensures DecodeAll(CodesRead(LzwStream.Packed(codes))).Written() == []
    ensures !DecodeAll(CodesRead(LzwStream.Packed(codes))).Corrupt?
  {
    hide CodesRead, LzwStream.Packed;
    FirstWritten(codes);
    FirstMarkEnds(codes);
  }
}
