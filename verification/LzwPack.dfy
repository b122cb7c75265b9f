/** The bit packer of compress and the unpacker of decompress (test-progs/src/compress.c):
    codes of 9 to 12 bits, low bit first, in groups of eight codes.  A group is as many
    bytes long as its codes are bits wide, and a change of width ends it early. */
module LzwPack {
  import opened LzwCodes
  import opened Powers
  import Division

  const BUFFER: int := 12

  type width = n: int | 9 <= n <= 12 witness 9
  type buffer = b: seq<byte> | |b| == 12 witness [0, 0, 0, 0, 0, 0, 0, 0, 0, 0, 0, 0]

  // ---------------------------------------------------------------- one code in the buffer

  /** The three bytes that a code put at bit r of the first one makes of them. */
  function Put3(r: int, n: width, code: int, b0: byte, b1: byte, b2: byte): (byte, byte, byte)
    requires 0 <= r < 8 && 0 <= code < Weight(n)
  {
    var c0: byte := (b0 % Weight(r) + code * Weight(r)) % 256;
    var bits, c := n - (8 - r), code / Weight(8 - r);
    if bits >= 8 then (c0, c % 256, if bits > 8 then c / 256 % 256 else b2)
    else (c0, c % 256, b2)
  }

  /** The code at bit r of the first of three bytes. */
  function Get3(r: int, n: width, b0: byte, b1: byte, b2: byte): int
    requires 0 <= r < 8
  {
    var bits := n - (8 - r);
    if bits >= 8 then b0 / Weight(r) + b1 * Weight(8 - r) + b2 % Weight(bits - 8) * (256 * Weight(8 - r))
    else b0 / Weight(r) + b1 % Weight(bits) * Weight(8 - r)
  }

  /** The first byte keeps its low bits and takes the low bits of the code. */
  lemma FirstByte(r: int, code: int, b0: byte)
    requires 0 <= r < 8 && 0 <= code
    ensures var c0 := (b0 % Weight(r) + code * Weight(r)) % 256;
            c0 / Weight(r) == code % Weight(8 - r) && c0 % Weight(r) == b0 % Weight(r)
  {
    var p, q := Weight(r), Weight(8 - r);
    assert p * q == 256;
    hide Weight;
    var d, m, a := code / q, code % q, b0 % p;
    assert code == d * q + m;
    ShiftedCode(d, m, p, q);
    LowPart(a, m, p, q);
    AddMultiple(a + m * p, d);
    Division.Parts(a + m * p, p, m, a);
  }

  lemma AddMultiple(x: int, d: int)
    requires 0 <= x < 256
    ensures (x + d * 256) % 256 == x
  {
  }

  lemma ShiftedCode(d: int, m: int, p: int, q: int)
    requires p * q == 256
    ensures (d * q + m) * p == d * 256 + m * p
  {
    assert d * q * p == d * (p * q);
  }

  lemma LowPart(a: int, m: int, p: int, q: int)
    requires p * q == 256 && p > 0 && 0 <= a < p && 0 <= m < q
    ensures 0 <= a + m * p < 256
  {
    assert m * p <= (q - 1) * p;
  }

  /** The bits left for the other bytes. */
  lemma HighBits(r: int, n: width, code: int)
    requires 0 <= r < 8 && 0 <= code < Weight(n)
    ensures 0 <= code / Weight(8 - r) < Weight(n - 8 + r)
    ensures code == code % Weight(8 - r) + code / Weight(8 - r) * Weight(8 - r)
  {
    if r == 0 {} else if r == 1 {} else if r == 2 {} else if r == 3 {}
    else if r == 4 {} else if r == 5 {} else if r == 6 {} else {}
  }

  lemma GetPut3(r: int, n: width, code: int, b0: byte, b1: byte, b2: byte)
    requires 0 <= r < 8 && 0 <= code < Weight(n)
    ensures var p := Put3(r, n, code, b0, b1, b2);
            Get3(r, n, p.0, p.1, p.2) == code && p.0 % Weight(r) == b0 % Weight(r)
  {
    FirstByte(r, code, b0);
    HighBits(r, n, code);
    var q, c, bits := Weight(8 - r), code / Weight(8 - r), n - 8 + r;
    MiddleByte(bits, c);
    hide Weight;
    assert c % 256 * q + c / 256 * (256 * q) == c * q by { SplitBytes(c, q); }
  }

  lemma MiddleByte(bits: int, c: int)
    requires 1 <= bits <= 11 && 0 <= c < Weight(bits)
    ensures bits < 8 ==> c % 256 % Weight(bits) == c
    ensures bits == 8 ==> c % 256 == c && c / 256 == 0
    ensures bits > 8 ==> c / 256 % 256 % Weight(bits - 8) == c / 256
  {
  }

  lemma SplitBytes(c: int, q: int)
    ensures c % 256 * q + c / 256 * (256 * q) == c * q
  {
    assert c == c % 256 + c / 256 * 256;
  }

  /** The byte at i; past the end of the buffer nothing of it is used. */
  function At(b: seq<byte>, i: int): byte
    requires 0 <= i
  {
    if i < |b| then b[i] else 0
  }

  /** The code written at bit off of the buffer. */
  function Put(b: buffer, off: nat, n: width, code: int): buffer
    requires off + n <= 8 * n && 0 <= code < Weight(n)
  {
    var i := off / 8;
    var p := Put3(off % 8, n, code, At(b, i), At(b, i + 1), At(b, i + 2));
    var b' := b[i := p.0][i + 1 := p.1];
    if i + 2 < 12 then b'[i + 2 := p.2] else b'
  }

  /** The stores that put a code. */
  lemma PutStores(b: buffer, off: nat, n: width, code: int)
    requires off + n <= 8 * n && 0 <= code < Weight(n)
    ensures var i, r := off / 8, off % 8;
      var bits, c := n - (8 - r), code / Weight(8 - r);
      var b1 := b[i := (b[i] % Weight(r) + code * Weight(r)) % 256][i + 1 := c % 256];
      i + 1 < 12 && bits > 0 && (bits > 8 ==> i + 2 < 12)
      && Put(b, off, n, code) == if bits > 8 then b1[i + 2 := c / 256 % 256] else b1
  {
    hide Weight;
  }

  /** The code that starts at bit off. */
  function Get(b: seq<byte>, off: nat, n: width): int {
    Get3(off % 8, n, At(b, off / 8), At(b, off / 8 + 1), At(b, off / 8 + 2))
  }

  /** Two byte strings have the same first lim bits. */
  ghost predicate Agree(b: seq<byte>, b': seq<byte>, lim: nat) {
    && lim <= 8 * |b| && lim <= 8 * |b'|
    && (forall i :: 0 <= i < lim / 8 ==> b[i] == b'[i])
    && At(b, lim / 8) % Weight(lim % 8) == At(b', lim / 8) % Weight(lim % 8)
  }

  lemma AgreeTrans(a: seq<byte>, b: seq<byte>, c: seq<byte>, lim: nat)
    requires Agree(a, b, lim) && Agree(b, c, lim)
    ensures Agree(a, c, lim)
  {
  }

  lemma AgreeSym(a: seq<byte>, b: seq<byte>, lim: nat)
    requires Agree(a, b, lim)
    ensures Agree(b, a, lim)
  {
  }

  lemma ModHalf(x: byte, k: int)
    requires 0 <= k < 7
    ensures x % Weight(k + 1) % Weight(k) == x % Weight(k)
  {
    var p := Weight(k);
    assert Weight(k + 1) == 2 * p;
    hide Weight;
    var q, r := x / (2 * p), x % (2 * p);
    assert x == q * (2 * p) + r && r == r / p * p + r % p;
    assert q * (2 * p) + r / p * p == (2 * q + r / p) * p;
    Division.Parts(r % p + (2 * q + r / p) * p, p, 2 * q + r / p, r % p);
  }

  lemma {:induction false} ModOfMod(x: byte, y: byte, k: int, m: int)
    requires 0 <= k <= m < 8 && x % Weight(m) == y % Weight(m)
    ensures x % Weight(k) == y % Weight(k)
    decreases m - k
  {
    hide Weight;
    if k < m {
      ModHalf(x, m - 1);
      ModHalf(y, m - 1);
      ModOfMod(x, y, k, m - 1);
    }
  }

  lemma AgreeLess(a: seq<byte>, b: seq<byte>, lim: nat, lim': nat)
    requires Agree(a, b, lim) && lim' <= lim
    ensures Agree(a, b, lim')
  {
    if lim' / 8 == lim / 8 {
      ModOfMod(At(a, lim / 8), At(b, lim / 8), lim' % 8, lim % 8);
    }
  }

  /** A code is told by the bits up to its end. */
  lemma GetAgree(a: seq<byte>, b: seq<byte>, off: nat, n: width)
    requires Agree(a, b, off + n)
    ensures Get(a, off, n) == Get(b, off, n)
  {
    var i, r, end := off / 8, off % 8, off + n;
    var bits := n - (8 - r);
    assert end == 8 * (i + 1) + bits;
    if bits >= 8 {
      assert end / 8 == i + 2 && end % 8 == bits - 8;
    } else {
      assert end / 8 == i + 1 && end % 8 == bits;
    }
  }

  lemma GetPut(b: buffer, off: nat, n: width, code: int)
    requires off + n <= 8 * n && 0 <= code < Weight(n)
    ensures Get(Put(b, off, n, code), off, n) == code
    ensures Agree(b, Put(b, off, n, code), off)
  {
    var i := off / 8;
    GetPut3(off % 8, n, code, At(b, i), At(b, i + 1), At(b, i + 2));
    hide Put3, Get3, Weight;
  }

  // ---------------------------------------------------------------- widths

  /** maxcode at a width: at the full width the table limit, which is never exceeded. */
  function MaxCode(n: width): int {
    if n == 12 then MAXCODES else Weight(n) - 1
  }

  /** free_ent and clear_flg when output has written a code or getcode is called. */
  datatype Control = Control(free: int, clear: bool)

  /** Whether the group ends here. */
  predicate Breaks(n: width, c: Control) {
    c.free > MaxCode(n) || c.clear
  }

  function NextWidth(n: width, c: Control): width
    requires c.free <= MAXCODES
  {
    if c.clear then 9 else if c.free > MaxCode(n) then n + 1 else n
  }

  // ---------------------------------------------------------------- the writer

  /** A place in a group of eight codes. */
  predicate Aligned(off: int, n: width) {
    || off == 0 || off == n || off == 2 * n || off == 3 * n
    || off == 4 * n || off == 5 * n || off == 6 * n || off == 7 * n
  }

  /** The bytes sent, the group being filled and how many bits of it are. */
  datatype Writer = Writer(sent: seq<byte>, buf: buffer, offset: nat, n: width)
  {
    predicate Valid() {
      Aligned(offset, n)
    }
  }

  const EMPTY: buffer := [0, 0, 0, 0, 0, 0, 0, 0, 0, 0, 0, 0]
  const NEW_WRITER: Writer := Writer([], EMPTY, 0, 9)

  /** One code through output, up to the test for a change of width. */
  function PutCode(w: Writer, code: int): (w': Writer)
    requires w.Valid() && 0 <= code < Weight(w.n)
    ensures w'.Valid() && w'.n == w.n
  {
    var b := Put(w.buf, w.offset, w.n, code);
    if w.offset + w.n == 8 * w.n then Writer(w.sent + b[..w.n], b, 0, w.n)
    else Writer(w.sent, b, w.offset + w.n, w.n)
  }

  /** The rest of output: a change of width sends the group, padded. */
  function EndGroup(w: Writer, c: Control): (w': Writer)
    requires w.Valid() && c.free <= MAXCODES
    ensures w'.Valid() && w'.n == NextWidth(w.n, c)
  {
    if Breaks(w.n, c) then
      Writer(if w.offset > 0 then w.sent + w.buf[..w.n] else w.sent, w.buf, 0, NextWidth(w.n, c))
    else w
  }

  /** output(-1): the bytes of the last group that are in use. */
  function Flush(w: Writer): seq<byte>
    requires w.Valid()
  {
    w.sent + w.buf[..(w.offset + 7) / 8]
  }

  /** The stream s continues what the writer has sent and put into its group. */
  ghost predicate Extends(s: seq<byte>, w: Writer) {
    |w.sent| <= |s| && s[..|w.sent|] == w.sent && Agree(s[|w.sent|..], w.buf, w.offset)
  }

  /** The stream holds the code that is put next. */
  ghost predicate Holds(s: seq<byte>, w: Writer, code: int)
    requires w.Valid() && 0 <= code < Weight(w.n)
  {
    && |w.sent| <= |s| && s[..|w.sent|] == w.sent
    && Agree(s[|w.sent|..], Put(w.buf, w.offset, w.n, code), w.offset + w.n)
  }

  lemma AgreeOfPrefix(s: seq<byte>, b: seq<byte>, k: nat, lim: nat)
    requires k <= |s| && k <= |b| && s[..k] == b[..k] && lim <= 8 * k
    ensures Agree(s, b, lim)
  {
    forall i | 0 <= i < lim / 8 ensures s[i] == b[i] {
      assert s[i] == s[..k][i] && b[i] == b[..k][i];
    }
    if lim / 8 < k {
      assert s[lim / 8] == s[..k][lim / 8] && b[lim / 8] == b[..k][lim / 8];
    }
  }

  lemma FlushExtends(w: Writer)
    requires w.Valid()
    ensures Extends(Flush(w), w)
  {
    var k := (w.offset + 7) / 8;
    var s := Flush(w);
    assert s[|w.sent|..] == w.buf[..k];
    assert s[..|w.sent|] == w.sent;
    AgreeOfPrefix(w.buf[..k], w.buf, k, w.offset);
  }

  lemma RoomFor(off: int, n: width)
    requires Aligned(off, n)
    ensures 0 <= off && off + n <= 8 * n
  {
  }

  lemma HoldsAfterPut(s: seq<byte>, w: Writer, code: int)
    requires w.Valid() && 0 <= code < Weight(w.n) && Extends(s, PutCode(w, code))
    ensures Holds(s, w, code)
  {
    hide Put, Weight, Agree, Aligned;
    RoomFor(w.offset, w.n);
    if w.offset + w.n == 8 * w.n {
      var b := Put(w.buf, w.offset, w.n, code);
      SentGroup(s, w.sent, b, w.n);
      AgreeOfPrefix(s[|w.sent|..], b, w.n, w.offset + w.n);
    }
  }

  lemma AgreeBeforePut(t: seq<byte>, w: Writer, code: int)
    requires w.Valid() && 0 <= code < Weight(w.n) && Agree(t, Put(w.buf, w.offset, w.n, code), w.offset + w.n)
    ensures Agree(t, w.buf, w.offset)
  {
    assert w.offset + w.n <= 8 * w.n;
    hide Put, Weight, Agree, Aligned, Get;
    var b := Put(w.buf, w.offset, w.n, code);
    GetPut(w.buf, w.offset, w.n, code);
    AgreeLess(t, b, w.offset + w.n, w.offset);
    AgreeSym(w.buf, b, w.offset);
    AgreeTrans(t, b, w.buf, w.offset);
  }

  /** A stream that extends the writer after a code holds the code and extends the writer before. */
  lemma ExtendsPut(s: seq<byte>, w: Writer, code: int)
    requires w.Valid() && 0 <= code < Weight(w.n) && Extends(s, PutCode(w, code))
    ensures Holds(s, w, code) && Extends(s, w)
  {
    hide Put, Weight, Agree, Aligned;
    HoldsAfterPut(s, w, code);
    AgreeBeforePut(s[|w.sent|..], w, code);
  }

  lemma SentGroup(s: seq<byte>, sent: seq<byte>, b: buffer, n: width)
    requires |sent| + n <= |s| && s[..|sent| + n] == sent + b[..n]
    ensures s[..|sent|] == sent && s[|sent|..][..n] == b[..n]
  {
    assert s[..|sent| + n][..|sent|] == s[..|sent|];
    assert s[..|sent| + n][|sent|..] == b[..n];
  }

  lemma ExtendsEndGroup(s: seq<byte>, w: Writer, c: Control)
    requires w.Valid() && c.free <= MAXCODES && Extends(s, EndGroup(w, c))
    ensures Extends(s, w)
    ensures Breaks(w.n, c) && w.offset > 0 ==> |w.sent| + w.n <= |s|
  {
    if Breaks(w.n, c) && w.offset > 0 {
      SentGroup(s, w.sent, w.buf, w.n);
      AgreeOfPrefix(s[|w.sent|..], w.buf, w.n, w.offset);
    }
  }

  // ---------------------------------------------------------------- the reader

  /** The static variables of getcode: how much of the stream is read, the group in the
      buffer, and the offset past which no whole code is left in it. */
  datatype Reader = Reader(pos: nat, buf: buffer, offset: nat, size: int, n: width)

  const NEW_READER: Reader := Reader(0, EMPTY, 0, 0, 9)

  /** How many bytes of a group are there: it ends early at the end of the stream, or at a
      byte 0xFF, which getcode takes for the end. */
  function Available(s: seq<byte>, pos: nat, n: width, k: nat): (m: nat)
    requires k <= n
    ensures k <= m <= n && (m > k ==> pos + m <= |s|)
    decreases n - k
  {
    if k < n && pos + k < |s| && s[pos + k] != 255 then Available(s, pos, n, k + 1) else k
  }

  /** The buffer with k bytes of the stream in front. */
  function Filled(b: buffer, s: seq<byte>, pos: nat, k: nat): buffer
    requires k <= 12 && (k > 0 ==> pos + k <= |s|)
  {
    if k == 0 then b else s[pos..pos + k] + b[k..]
  }

  lemma FilledNext(b: buffer, s: seq<byte>, pos: nat, k: nat)
    requires k < 12 && pos + k < |s|
    ensures Filled(b, s, pos, k)[k := s[pos + k]] == Filled(b, s, pos, k + 1)
  {
  }

  /** Where the stream goes on after a group: the byte 0xFF that ends one is passed. */
  function Skipped(s: seq<byte>, pos: nat, n: width): nat {
    var k := Available(s, pos, n, 0);
    pos + k + if k < n && pos + k < |s| then 1 else 0
  }

  /** The next group of the stream. */
  function Refill(r: Reader, s: seq<byte>, n: width): Reader {
    var k := Available(s, r.pos, n, 0);
    var b := Filled(r.buf, s, r.pos, k);
    Reader(Skipped(s, r.pos, n), if k < n then b[k := 255] else b,
           if k == 0 then r.offset else 0, if k == 0 then 0 else 8 * k - (n - 1), n)
  }

  /** getcode: the next code, or -1 where no byte is left.  The number of bytes is tested, not
      the offset made of it: a code is taken from a group of one byte, too. */
  function GetCode(r: Reader, s: seq<byte>, c: Control): (Reader, int)
    requires c.free <= MAXCODES
  {
    if Breaks(r.n, c) || r.offset >= r.size then
      var n := NextWidth(r.n, c);
      var r' := Refill(r, s, n);
      if Available(s, r.pos, n, 0) == 0 then (r', -1) else (r'.(offset := n), Get(r'.buf, 0, n))
    else (r.(offset := r.offset + r.n), Get(r.buf, r.offset, r.n))
  }

  predicate NoEndMark(s: seq<byte>) {
    forall i :: 0 <= i < |s| ==> s[i] != 255
  }

  /** The bytes counted are there and are not 0xFF; the next one is missing or is 0xFF. */
  lemma {:induction false} AvailableAll(s: seq<byte>, pos: nat, n: width, k: nat)
    requires k <= n
    ensures var m := Available(s, pos, n, k);
            && (forall j :: pos + k <= j < pos + m ==> j < |s| && s[j] != 255)
            && (m < n ==> pos + m >= |s| || s[pos + m] == 255)
    decreases n - k
  {
    if k < n && pos + k < |s| && s[pos + k] != 255 { AvailableAll(s, pos, n, k + 1); }
  }

  /** The reader has the group that starts at g in its buffer, as far as a byte 0xFF. */
  ghost predicate Loaded(r: Reader, s: seq<byte>, g: nat) {
    var k := Available(s, g, r.n, 0);
    && k > 0 && r.pos == Skipped(s, g, r.n) && r.size == 8 * k - (r.n - 1)
    && r.buf[..k] == s[g..g + k] && (k < r.n ==> r.buf[k] == 255)
  }

  /** The reader stands where the writer stood: with nothing of the next group read, or
      at the same place of the same group. */
  ghost predicate Together(r: Reader, s: seq<byte>, w: Writer) {
    && r.n == w.n
    && if w.offset == 0 then r.offset >= r.size && r.pos == |w.sent|
       else
         && r.offset == w.offset && Loaded(r, s, |w.sent|)
         && (w.offset == w.n || w.offset <= 8 * Available(s, |w.sent|, w.n, 0))
  }

  /** No byte 0xFF disturbs the reader on its way to the next code: in a group that ends
      early there is none, or the last byte of the group is the first; and the code lies
      before the first one of its own group, or starts the group in a byte other than it. */
  predicate Undisturbed(s: seq<byte>, w: Writer, c: Control)
    requires w.Valid() && c.free <= MAXCODES
  {
    var w1 := EndGroup(w, c);
    var k := Available(s, |w1.sent|, w1.n, 0);
    && (Breaks(w.n, c) && w.offset > 0 ==> Available(s, |w.sent|, w.n, 0) >= w.n - 1)
    && if w1.offset == 0 then k > 0 else w1.offset + w1.n <= 8 * k
  }

  lemma HoldsBounds(s: seq<byte>, w: Writer, code: int)
    requires w.Valid() && 0 <= code < Weight(w.n) && Holds(s, w, code)
    ensures |w.sent| < |s| && w.offset + w.n <= 8 * w.n && w.offset + w.n <= 8 * (|s| - |w.sent|)
  {
  }

  lemma BufferHolds(b: buffer, t: seq<byte>, b0: buffer, off: nat, n: width, code: int, k: nat)
    requires 0 <= code < Weight(n) && k <= 12 && k <= |t| && b[..k] == t[..k]
    requires off + n <= 8 * n && off + n <= 8 * k && Agree(t, Put(b0, off, n, code), off + n)
    ensures Get(b, off, n) == code
  {
    hide Put, Get, Weight, Agree;
    AgreeOfPrefix(b, t, k, off + n);
    GetPut(b0, off, n, code);
    AgreeTrans(b, t, Put(b0, off, n, code), off + n);
    GetAgree(b, Put(b0, off, n, code), off, n);
  }

  // With the group in the buffer.

  /** A code before the first byte 0xFF of the group in the buffer is read. */
  lemma ReadLoaded(r: Reader, s: seq<byte>, w: Writer, code: int)
    requires w.Valid() && 0 <= code < Weight(w.n) && Holds(s, w, code)
    requires r.n == w.n && r.offset == w.offset && Loaded(r, s, |w.sent|) && r.offset < r.size
    ensures Get(r.buf, r.offset, r.n) == code && Together(r.(offset := r.offset + r.n), s, PutCode(w, code))
  {
    hide Put, Get, Weight, Agree, Aligned;
    HoldsBounds(s, w, code);
    var g, k := |w.sent|, Available(s, |w.sent|, w.n, 0);
    assert s[g..][..k] == s[g..g + k];
    BufferHolds(r.buf, s[g..], w.buf, w.offset, w.n, code, k);
  }

  /** The first code of a group is read unless its first byte is 0xFF. */
  lemma ReadFirst(r: Reader, s: seq<byte>, w: Writer, code: int)
    requires w.Valid() && 0 <= code < Weight(w.n) && Holds(s, w, code) && w.offset == 0 && r.pos == |w.sent|
    requires Available(s, r.pos, w.n, 0) > 0
    ensures var r' := Refill(r, s, w.n);
      Get(r'.buf, 0, w.n) == code && Together(r'.(offset := w.n), s, PutCode(w, code))
  {
    hide Put, Get, Weight, Agree, Available;
    HoldsBounds(s, w, code);
    AvailableAll(s, r.pos, w.n, 0);
    var g, k, b := r.pos, Available(s, r.pos, w.n, 0), Refill(r, s, w.n).buf;
    var m := if k == 1 then 2 else k;
    assert b[..m] == s[g..][..m] by {
      forall i | 0 <= i < m ensures b[i] == s[g..][i] {}
    }
    BufferHolds(b, s[g..], w.buf, 0, w.n, code, m);
    assert b[..k] == s[g..g + k];
  }

  // Away from the place.

  /** A code behind the first byte 0xFF of the group in the buffer is lost. */
  lemma LostInGroup(r: Reader, s: seq<byte>, w: Writer, c: Control, code: int)
    requires w.Valid() && c.free <= MAXCODES && Together(r, s, w) && w.offset > 0 && !Breaks(w.n, c)
    requires r.offset >= r.size
    requires 0 <= code < Weight(w.n) && Holds(s, w, code)
    ensures var g := GetCode(r, s, c); g.1 == -1 || !Together(g.0, s, PutCode(w, code))
  {
    hide Put, Get, Weight, Agree, Available;
    HoldsBounds(s, w, code);
  }

  /** After a byte 0xFF in the padding of a group that ended early, other than its last, the
      reader goes on too early in the stream. */
  lemma LostInPadding(r: Reader, s: seq<byte>, w: Writer, c: Control, code: int)
    requires w.Valid() && c.free <= MAXCODES && Together(r, s, w) && w.offset > 0 && Breaks(w.n, c)
    requires |w.sent| + w.n <= |s| && Available(s, |w.sent|, w.n, 0) < w.n - 1
    requires var w1 := EndGroup(w, c); 0 <= code < Weight(w1.n)
    ensures var g := GetCode(r, s, c); g.1 == -1 || !Together(g.0, s, PutCode(EndGroup(w, c), code))
  {
    hide Put, Get, Weight, Agree, Available;
    var w1 := EndGroup(w, c);
    assert r.pos < |w1.sent|;
    TooEarly(s, r.pos, |w1.sent|, w1.n);
  }

  lemma TooEarly(s: seq<byte>, p: nat, q: nat, n: width)
    requires p < q
    ensures var k, m := Available(s, p, n, 0), Available(s, q, n, 0);
      k == m > 0 ==> Skipped(s, p, n) != Skipped(s, q, n)
  {
    hide Available;
    AvailableAll(s, p, n, 0);
    AvailableAll(s, q, n, 0);
  }

  /** The next code is read at the width and the place at which it was written exactly when
      no byte 0xFF disturbs it. */
  lemma ReadNext(r: Reader, s: seq<byte>, w: Writer, c: Control, code: int)
    requires w.Valid() && c.free <= MAXCODES && Together(r, s, w)
    requires Breaks(w.n, c) && w.offset > 0 ==> |w.sent| + w.n <= |s|
    requires var w1 := EndGroup(w, c); 0 <= code < Weight(w1.n) && Holds(s, w1, code)
    ensures var g := GetCode(r, s, c);
            g.1 == code && Together(g.0, s, PutCode(EndGroup(w, c), code)) <==> Undisturbed(s, w, c)
  {
    hide Put, Get, Weight, Agree, Available, PutCode, Holds, Aligned, MaxCode;
    var w1 := EndGroup(w, c);
    if w.offset > 0 && !Breaks(w.n, c) {
      if r.offset < r.size { ReadLoaded(r, s, w, code); } else { LostInGroup(r, s, w, c, code); }
    } else if w.offset > 0 && Available(s, |w.sent|, w.n, 0) < w.n - 1 {
      LostInPadding(r, s, w, c, code);
    } else {
      assert r.pos == |w1.sent| && w1.offset == 0;
      if Available(s, r.pos, w1.n, 0) > 0 { ReadFirst(r, s, w1, code); }
    }
  }

  /** No byte 0xFF is left to be taken for a code at the end: in a group that ended early the
      first one is the last byte or is followed by another. */
  predicate EndClear(s: seq<byte>, w: Writer, c: Control) {
    var k := Available(s, |w.sent|, w.n, 0);
    Breaks(w.n, c) && w.offset > 0 && k < w.n - 1 && |w.sent| + k + 1 < |s| ==> s[|w.sent| + k + 1] == 255
  }

  lemma GetBelow(b: seq<byte>, off: nat, n: width)
    ensures Get(b, off, n) >= 0
  {
  }

  /** After the last code the reader reports the end exactly when none is left. */
  lemma ReadEnd(r: Reader, s: seq<byte>, w: Writer, c: Control)
    requires w.Valid() && c.free <= MAXCODES && Together(r, s, w) && s == Flush(EndGroup(w, c))
    ensures GetCode(r, s, c).1 == -1 <==> EndClear(s, w, c)
  {
    hide Get, Available, MaxCode;
    var w1 := EndGroup(w, c);
    assert |s| == |w1.sent| + (w1.offset + 7) / 8;
    AvailableAll(s, |w.sent|, w.n, 0);
    AvailableAll(s, r.pos, w1.n, 0);
    GetBelow(Refill(r, s, w1.n).buf, 0, w1.n);
    GetBelow(r.buf, r.offset, r.n);
  }

  /** A stream without the byte 0xFF does not disturb. */
  lemma NothingDisturbs(s: seq<byte>, w: Writer, c: Control, code: int)
    requires w.Valid() && c.free <= MAXCODES && NoEndMark(s)
    requires Breaks(w.n, c) && w.offset > 0 ==> |w.sent| + w.n <= |s|
    requires var w1 := EndGroup(w, c); 0 <= code < Weight(w1.n) && Holds(s, w1, code)
    ensures Undisturbed(s, w, c)
  {
    hide Put, Weight, Agree, Available, MaxCode;
    var w1 := EndGroup(w, c);
    HoldsBounds(s, w1, code);
    AvailableAll(s, |w.sent|, w.n, 0);
    AvailableAll(s, |w1.sent|, w1.n, 0);
  }
}
