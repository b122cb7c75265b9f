/** The block allocator (test-progs/src/nostdlib-dynmem.c): an implicit chain of headers in
    an array of words, with first fit, splitting and merging. */
module Allocator {

  const FREE: int := 0x4000_0000
  const USED: int := 0x8000_0000

  /** A block: its payload in words, without the header word. */
  datatype Block = Block(len: nat, used: bool)

  function Header(b: Block): int {
    b.len + if b.used then USED else FREE
  }

  /** The words from the first header to the end of the last block. */
  function Span(bs: seq<Block>): nat {
    if bs == [] then 0 else Span(bs[..|bs| - 1]) + bs[|bs| - 1].len + 1
  }

  /** Where the header of block i is. */
  function Pos(bs: seq<Block>, i: nat): nat
    requires i <= |bs|
  {
    Span(bs[..i])
  }

  lemma {:induction false} SpanConcat(a: seq<Block>, b: seq<Block>)
    ensures Span(a + b) == Span(a) + Span(b)
    decreases |b|
  {
    if b == [] {
      assert a + b == a;
    } else {
      SpanConcat(a, b[..|b| - 1]);
      assert (a + b)[..|a + b| - 1] == a + b[..|b| - 1];
    }
  }

  lemma PosNext(bs: seq<Block>, i: nat)
    requires i < |bs|
    ensures Pos(bs, i + 1) == Pos(bs, i) + bs[i].len + 1
  {
    assert bs[..i + 1][..i] == bs[..i];
  }

  lemma {:induction false} PosGrows(bs: seq<Block>, i: nat, j: nat)
    requires i < j <= |bs|
    ensures Pos(bs, i) + bs[i].len + 1 <= Pos(bs, j)
    decreases j
  {
    PosNext(bs, j - 1);
    if i < j - 1 { PosGrows(bs, i, j - 1); }
  }

  lemma PosEnd(bs: seq<Block>)
    ensures Pos(bs, |bs|) == Span(bs)
  {
    assert bs[..|bs|] == bs;
  }

  /** The header of block i is in its place. */
  predicate HeaderFits(data: seq<int>, bs: seq<Block>, i: nat)
    requires i < |bs|
  {
    Pos(bs, i) < |data| && data[Pos(bs, i)] == Header(bs[i])
  }

  /** The words hold the headers of the chain, each at the end of the block before it. */
  ghost predicate Chain(data: seq<int>, bs: seq<Block>) {
    && |data| < 0x3FFF_FFFF && Span(bs) <= |data| + 1
    && forall i :: 0 <= i < |bs| ==> HeaderFits(data, bs, i)
  }

  // ---------------------------------------------------------------- the chain as a value

  /** The first free block with n words, or the number of blocks. */
  function FirstFit(bs: seq<Block>, n: nat, i: nat): (k: nat)
    requires i <= |bs|
    ensures i <= k <= |bs| && (k < |bs| ==> !bs[k].used && n <= bs[k].len)
    ensures forall j :: i <= j < k ==> bs[j].used || bs[j].len < n
    decreases |bs| - i
  {
    if i == |bs| || (!bs[i].used && n <= bs[i].len) then i else FirstFit(bs, n, i + 1)
  }

  /** Block i given out for n words: split unless the rest would have no payload. */
  function Claimed(bs: seq<Block>, i: nat, n: nat): seq<Block>
    requires i < |bs| && n <= bs[i].len
  {
    if bs[i].len <= n + 1 then bs[i := Block(bs[i].len, true)]
    else bs[..i] + [Block(n, true), Block(bs[i].len - n - 1, false)] + bs[i + 1..]
  }

  predicate FreeAt(bs: seq<Block>, i: int) {
    0 <= i < |bs| && !bs[i].used
  }

  /** The block that block i and its free neighbours make together. */
  function Merged(bs: seq<Block>, i: nat): Block
    requires i < |bs|
  {
    var after := if FreeAt(bs, i + 1) then bs[i + 1].len + 1 else 0;
    var before := if FreeAt(bs, i - 1) then bs[i - 1].len + 1 else 0;
    Block(bs[i].len + after + before, false)
  }

  function Before(bs: seq<Block>, i: nat): (k: nat)
    requires i < |bs|
    ensures k <= i
  {
    if FreeAt(bs, i - 1) then i - 1 else i
  }

  function After(bs: seq<Block>, i: nat): (k: nat)
    requires i < |bs|
    ensures i < k <= |bs|
  {
    if FreeAt(bs, i + 1) then i + 2 else i + 1
  }

  /** Block i freed and merged with its free neighbours. */
  function Freed(bs: seq<Block>, i: nat): seq<Block>
    requires i < |bs|
  {
    bs[..Before(bs, i)] + [Merged(bs, i)] + bs[After(bs, i)..]
  }

  lemma SpanOne(b: Block)
    ensures Span([b]) == b.len + 1
  {
    assert [b][..0] == [];
  }

  /** Taking blocks i to k out of a chain and others in. */
  lemma SpanReplaced(bs: seq<Block>, i: nat, k: nat, mid: seq<Block>)
    requires i <= k <= |bs| && Span(bs[i..k]) == Span(mid)
    ensures Span(bs[..i] + mid + bs[k..]) == Span(bs)
  {
    hide Span;
    SpanConcat(bs[..i], mid);
    SpanConcat(bs[..i] + mid, bs[k..]);
    SpanConcat(bs[..i], bs[i..k]);
    SpanConcat(bs[..i] + bs[i..k], bs[k..]);
    assert bs[..i] + bs[i..k] + bs[k..] == bs;
  }

  lemma SpanTwo(a: Block, b: Block)
    ensures Span([a, b]) == a.len + 1 + b.len + 1
  {
    SpanOne(a);
    SpanOne(b);
    SpanConcat([a], [b]);
    assert [a] + [b] == [a, b];
  }

  /** malloc and free conserve the words of the chain, headers included. */
  lemma ClaimedSpan(bs: seq<Block>, i: nat, n: nat)
    requires i < |bs| && n <= bs[i].len
    ensures Span(Claimed(bs, i, n)) == Span(bs)
  {
    hide Span;
    SpanOne(bs[i]);
    var mid := if bs[i].len <= n + 1 then [Block(bs[i].len, true)]
      else [Block(n, true), Block(bs[i].len - n - 1, false)];
    assert Claimed(bs, i, n) == bs[..i] + mid + bs[i + 1..];
    SliceOne(bs, i);
    if bs[i].len <= n + 1 {
      SpanOne(Block(bs[i].len, true));
    } else {
      SpanTwo(Block(n, true), Block(bs[i].len - n - 1, false));
    }
    SpanReplaced(bs, i, i + 1, mid);
  }

  lemma SliceOne(bs: seq<Block>, i: nat)
    requires i < |bs|
    ensures bs[i..i + 1] == [bs[i]]
  {
  }

  lemma SpanOfSlice(bs: seq<Block>, i: nat, k: nat)
    requires i <= k <= |bs|
    ensures Span(bs[i..k]) == Pos(bs, k) - Pos(bs, i)
  {
    SpanConcat(bs[..i], bs[i..k]);
    assert bs[..i] + bs[i..k] == bs[..k];
  }

  lemma MergedSpan(bs: seq<Block>, i: nat)
    requires i < |bs|
    ensures Pos(bs, After(bs, i)) - Pos(bs, Before(bs, i)) == Merged(bs, i).len + 1
  {
    PosNext(bs, i);
    if FreeAt(bs, i - 1) { PosNext(bs, i - 1); }
    if FreeAt(bs, i + 1) { PosNext(bs, i + 1); }
  }

  lemma FreedSpan(bs: seq<Block>, i: nat)
    requires i < |bs|
    ensures Span(Freed(bs, i)) == Span(bs)
  {
    MergedSpan(bs, i);
    SpanOfSlice(bs, Before(bs, i), After(bs, i));
    SpanOne(Merged(bs, i));
    SpanReplaced(bs, Before(bs, i), After(bs, i), [Merged(bs, i)]);
  }

  /** No two free blocks are neighbours: merging leaves nothing to merge. */
  predicate Coalesced(bs: seq<Block>) {
    forall i :: 0 <= i < |bs| - 1 ==> bs[i].used || bs[i + 1].used
  }

  lemma ClaimedCoalesced(bs: seq<Block>, i: nat, n: nat)
    requires i < |bs| && n <= bs[i].len && !bs[i].used && Coalesced(bs)
    ensures Coalesced(Claimed(bs, i, n))
  {
    var cs := Claimed(bs, i, n);
    if bs[i].len > n + 1 {
      forall j | 0 <= j < |cs| - 1 ensures cs[j].used || cs[j + 1].used {
        assert j > i + 1 ==> cs[j] == bs[j - 1] && cs[j + 1] == bs[j];
        assert j == i + 1 ==> cs[j + 1] == bs[i + 1];
      }
    }
  }

  lemma FreedCoalesced(bs: seq<Block>, i: nat)
    requires i < |bs| && Coalesced(bs)
    ensures Coalesced(Freed(bs, i))
  {
    var cs, l, r := Freed(bs, i), Before(bs, i), After(bs, i);
    forall j | 0 <= j < |cs| - 1 ensures cs[j].used || cs[j + 1].used {
      if j + 1 < l {
      } else if j + 1 == l {
        assert cs[j] == bs[l - 1];
      } else if j == l {
        assert cs[j + 1] == bs[r];
      } else {
        assert cs[j] == bs[j - l - 1 + r] && cs[j + 1] == bs[j - l + r];
      }
    }
  }

  // ---------------------------------------------------------------- positions

  /** Blocks l to r of a chain replaced by others of the same span. */
  function Replaced(bs: seq<Block>, l: nat, r: nat, mid: seq<Block>): (cs: seq<Block>)
    requires l <= r <= |bs|
    ensures |cs| == |bs| - (r - l) + |mid|
  {
    bs[..l] + mid + bs[r..]
  }

  lemma PosBelow(bs: seq<Block>, l: nat, r: nat, mid: seq<Block>, j: nat)
    requires l <= r <= |bs| && j <= l
    ensures Pos(Replaced(bs, l, r, mid), j) == Pos(bs, j)
  {
    assert Replaced(bs, l, r, mid)[..j] == bs[..j];
  }

  /** The blocks after the replaced ones stay where they are. */
  lemma PosAbove(bs: seq<Block>, l: nat, r: nat, mid: seq<Block>, j: nat)
    requires l <= r <= j <= |bs| && Span(mid) == Span(bs[l..r])
    ensures Pos(Replaced(bs, l, r, mid), j - r + l + |mid|) == Pos(bs, j)
  {
    hide Span;
    CutAbove(bs, l, r, mid, j);
    SpanConcat(bs[..l], mid);
    SpanConcat(bs[..l] + mid, bs[r..j]);
    SpanConcat(bs[..l], bs[l..r]);
    SpanConcat(bs[..l] + bs[l..r], bs[r..j]);
  }

  lemma CutAbove(bs: seq<Block>, l: nat, r: nat, mid: seq<Block>, j: nat)
    requires l <= r <= j <= |bs|
    ensures Replaced(bs, l, r, mid)[..j - r + l + |mid|] == bs[..l] + mid + bs[r..j]
    ensures bs[..l] + bs[l..r] + bs[r..j] == bs[..j]
  {
    var cs, m := Replaced(bs, l, r, mid), l + |mid|;
    assert cs == (bs[..l] + mid) + bs[r..];
    assert cs[..m + (j - r)] == (bs[..l] + mid) + bs[r..][..j - r];
    assert bs[r..][..j - r] == bs[r..j];
  }

  lemma PosWithin(bs: seq<Block>, l: nat, r: nat, mid: seq<Block>, j: nat)
    requires l <= r <= |bs| && j <= |mid|
    ensures Pos(Replaced(bs, l, r, mid), l + j) == Pos(bs, l) + Span(mid[..j])
  {
    assert Replaced(bs, l, r, mid)[..l + j] == bs[..l] + mid[..j];
    SpanConcat(bs[..l], mid[..j]);
  }

  /** The headers of the blocks outside l to r have not changed. */
  ghost predicate OthersKept(data: seq<int>, data': seq<int>, bs: seq<Block>, l: nat, r: nat) {
    |data'| == |data| && forall j :: 0 <= j < |bs| && (j < l || r <= j) ==> HeaderFits(data', bs, j)
  }

  /** The words from p on hold the headers of the blocks. */
  ghost predicate Placed(data: seq<int>, p: nat, mid: seq<Block>) {
    forall j :: 0 <= j < |mid| ==> p + Pos(mid, j) < |data| && data[p + Pos(mid, j)] == Header(mid[j])
  }

  lemma HeaderReplaced(data': seq<int>, bs: seq<Block>, l: nat, r: nat, mid: seq<Block>, k: nat)
    requires l <= r <= |bs| && Span(mid) == Span(bs[l..r]) && k < |Replaced(bs, l, r, mid)|
    requires OthersKept(data', data', bs, l, r) && Placed(data', Pos(bs, l), mid)
    ensures HeaderFits(data', Replaced(bs, l, r, mid), k)
  {
    hide Span;
    if k < l {
      PosBelow(bs, l, r, mid, k);
      assert HeaderFits(data', bs, k);
    } else if k < l + |mid| {
      PosWithin(bs, l, r, mid, k - l);
      assert Pos(bs, l) + Pos(mid, k - l) == Pos(Replaced(bs, l, r, mid), k);
    } else {
      PosAbove(bs, l, r, mid, k - l - |mid| + r);
      assert HeaderFits(data', bs, k - l - |mid| + r);
    }
  }

  /** The headers of a chain after some blocks have been replaced. */
  lemma ChainReplaced(data: seq<int>, data': seq<int>, bs: seq<Block>, l: nat, r: nat, mid: seq<Block>)
    requires Chain(data, bs) && l <= r <= |bs| && Span(mid) == Span(bs[l..r])
    requires OthersKept(data, data', bs, l, r) && Placed(data', Pos(bs, l), mid)
    ensures Chain(data', Replaced(bs, l, r, mid))
  {
    hide Pos, Span, HeaderFits, Placed;
    var cs := Replaced(bs, l, r, mid);
    SpanReplaced(bs, l, r, mid);
    forall k | 0 <= k < |cs| ensures HeaderFits(data', cs, k) {
      HeaderReplaced(data', bs, l, r, mid, k);
    }
  }

  /** No word of a payload is a header. */
  lemma PayloadIsNoHeader(bs: seq<Block>, j: nat, x: nat, i: nat)
    requires j < |bs| && i < |bs| && Pos(bs, j) < x <= Pos(bs, j) + bs[j].len
    ensures x != Pos(bs, i)
  {
    if i < j { PosGrows(bs, i, j); } else if j < i { PosGrows(bs, j, i); }
  }

  /** Payloads of different blocks have no word in common. */
  lemma PayloadsDisjoint(bs: seq<Block>, i: nat, j: nat, x: nat)
    requires i < |bs| && j < |bs| && i != j && Pos(bs, i) < x <= Pos(bs, i) + bs[i].len
    ensures !(Pos(bs, j) < x <= Pos(bs, j) + bs[j].len)
  {
    if i < j { PosGrows(bs, i, j); } else { PosGrows(bs, j, i); }
  }

  /** Every other block keeps its place and its state when block i is given out. */
  lemma ClaimedKeeps(bs: seq<Block>, i: nat, n: nat, j: nat)
    requires i < |bs| && n <= bs[i].len && j < |bs| && j != i
    ensures var cs := Claimed(bs, i, n); var k := if j < i then j else j + |cs| - |bs|;
      k < |cs| && cs[k] == bs[j] && Pos(cs, k) == Pos(bs, j)
  {
    var mid := if bs[i].len <= n + 1 then [Block(bs[i].len, true)]
      else [Block(n, true), Block(bs[i].len - n - 1, false)];
    ClaimedMid(bs, i, n);
    if j < i { PosBelow(bs, i, i + 1, mid, j); } else { PosAbove(bs, i, i + 1, mid, j); }
  }

  lemma ClaimedMid(bs: seq<Block>, i: nat, n: nat)
    requires i < |bs| && n <= bs[i].len
    ensures var mid := if bs[i].len <= n + 1 then [Block(bs[i].len, true)]
      else [Block(n, true), Block(bs[i].len - n - 1, false)];
      Claimed(bs, i, n) == Replaced(bs, i, i + 1, mid) && Span(mid) == Span(bs[i..i + 1])
  {
    SpanOne(bs[i]);
    assert bs[i..i + 1] == [bs[i]];
    if bs[i].len <= n + 1 {
      SpanOne(Block(bs[i].len, true));
    } else {
      SpanTwo(Block(n, true), Block(bs[i].len - n - 1, false));
    }
  }

  /** The payload of the block given out is at most one word longer than asked for, and what
      is cut off it is a free block; its words and its header are those that are left. */
  lemma ClaimedTight(bs: seq<Block>, i: nat, n: nat)
    requires i < |bs| && n <= bs[i].len
    ensures var cs := Claimed(bs, i, n);
      && cs[i].used && n <= cs[i].len <= n + 1 && |bs| <= |cs| <= |bs| + 1
      && (|cs| == |bs| ==> cs[i].len == bs[i].len)
      && (|cs| > |bs| ==> !cs[i + 1].used && cs[i + 1].len > 0 && cs[i].len + 1 + cs[i + 1].len == bs[i].len)
  {
  }

  /** Every block that is in use keeps its place when block i is freed. */
  lemma FreedKeeps(bs: seq<Block>, i: nat, j: nat)
    requires i < |bs| && j < |bs| && j != i && bs[j].used
    ensures var cs := Freed(bs, i); var k := if j < i then j else j + |cs| - |bs|;
      0 <= k < |cs| && cs[k] == bs[j] && Pos(cs, k) == Pos(bs, j)
  {
    FreedMid(bs, i);
    var l, r := Before(bs, i), After(bs, i);
    if j < i { PosBelow(bs, l, r, [Merged(bs, i)], j); } else { PosAbove(bs, l, r, [Merged(bs, i)], j); }
  }

  lemma FreedMid(bs: seq<Block>, i: nat)
    requires i < |bs|
    ensures Freed(bs, i) == Replaced(bs, Before(bs, i), After(bs, i), [Merged(bs, i)])
    ensures Span([Merged(bs, i)]) == Span(bs[Before(bs, i)..After(bs, i)])
  {
    MergedSpan(bs, i);
    SpanOfSlice(bs, Before(bs, i), After(bs, i));
    SpanOne(Merged(bs, i));
  }

  /** Only words from block l up to block r have changed. */
  lemma KeepOthers(data: seq<int>, data': seq<int>, bs: seq<Block>, l: nat, r: nat)
    requires Chain(data, bs) && |data'| == |data| && l <= r <= |bs|
    requires forall x :: 0 <= x < |data| && (x < Pos(bs, l) || Pos(bs, r) <= x) ==> data'[x] == data[x]
    ensures OthersKept(data, data', bs, l, r)
  {
    hide Pos;
    forall j | 0 <= j < |bs| && (j < l || r <= j) ensures HeaderFits(data', bs, j) {
      assert HeaderFits(data, bs, j);
      if j < l { PosGrows(bs, j, l); } else if r < j { PosGrows(bs, r, j); }
    }
  }

  lemma PlacedOne(data: seq<int>, p: nat, b: Block)
    requires p < |data| && data[p] == Header(b)
    ensures Placed(data, p, [b])
  {
    PosZero([b]);
  }

  lemma PlacedTwo(data: seq<int>, p: nat, a: Block, b: Block)
    requires p + a.len + 1 < |data| && data[p] == Header(a) && data[p + a.len + 1] == Header(b)
    ensures Placed(data, p, [a, b])
  {
    hide Pos;
    PosZero([a, b]);
    PosNext([a, b], 0);
  }

  lemma ClaimedChain(data: seq<int>, bs: seq<Block>, i: nat, n: nat)
    requires Chain(data, bs) && i < |bs| && n <= bs[i].len
    ensures Pos(bs, i) < |data|
    ensures var p := Pos(bs, i);
      if bs[i].len <= n + 1 then Chain(data[p := bs[i].len + USED], Claimed(bs, i, n))
      else p + n + 1 < |data|
           && Chain(data[p := n + USED][p + n + 1 := bs[i].len - n - 1 + FREE], Claimed(bs, i, n))
  {
    hide Pos, Span, Placed, OthersKept;
    var p := Pos(bs, i);
    ClaimedMid(bs, i, n);
    BlockEnds(data, bs, i);
    PosNext(bs, i);
    if bs[i].len <= n + 1 {
      var b := Block(bs[i].len, true);
      var data' := data[p := Header(b)];
      PlacedOne(data', p, b);
      KeepOthers(data, data', bs, i, i + 1);
      ChainReplaced(data, data', bs, i, i + 1, [b]);
    } else {
      var a, b := Block(n, true), Block(bs[i].len - n - 1, false);
      var data' := data[p := n + USED][p + n + 1 := bs[i].len - n - 1 + FREE];
      PlacedTwo(data', p, a, b);
      KeepOthers(data, data', bs, i, i + 1);
      ChainReplaced(data, data', bs, i, i + 1, [a, b]);
    }
  }

  lemma BlockEnds(data: seq<int>, bs: seq<Block>, i: nat)
    requires Chain(data, bs) && i < |bs|
    ensures Pos(bs, i) + bs[i].len <= |data| && HeaderFits(data, bs, i)
  {
    PosEnd(bs);
    PosGrows(bs, i, |bs|);
  }

  lemma FreedChain(data: seq<int>, bs: seq<Block>, i: nat)
    requires Chain(data, bs) && i < |bs|
    ensures Pos(bs, Before(bs, i)) < |data|
    ensures Chain(data[Pos(bs, Before(bs, i)) := Header(Merged(bs, i))], Freed(bs, i))
  {
    hide Pos, Span, Placed, OthersKept;
    var l, r := Before(bs, i), After(bs, i);
    FreedMid(bs, i);
    BlockEnds(data, bs, l);
    PosGrows(bs, l, r);
    var data' := data[Pos(bs, l) := Header(Merged(bs, i))];
    PlacedOne(data', Pos(bs, l), Merged(bs, i));
    KeepOthers(data, data', bs, l, r);
    ChainReplaced(data, data', bs, l, r, [Merged(bs, i)]);
  }

  /** The header that line 152 stores when the block after is free: its own header word is
      missing.  It does not describe the chain: the walk arrives one word before the next
      block. */
  lemma ShortHeader(data: seq<int>, bs: seq<Block>, i: nat)
    requires Chain(data, bs) && FreeAt(bs, i + 1)
    ensures var p := Pos(bs, Before(bs, i));
      && p < |data| && 0 < Merged(bs, i).len <= FREE
      && var short := data[p := WithFree(Merged(bs, i).len - 1)];
         p + short[p] % FREE + 1 == Pos(bs, After(bs, i)) - 1 && !Chain(short, Freed(bs, i))
  {
    var l := Before(bs, i);
    BlockEnds(data, bs, l);
    MergedFits(data, bs, i);
    MergedSpan(bs, i);
    PosBelow(bs, l, After(bs, i), [Merged(bs, i)], l);
    assert Freed(bs, i)[l] == Merged(bs, i);
    hide Chain, Span, Pos, Freed, Merged;
    var short := data[Pos(bs, l) := WithFree(Merged(bs, i).len - 1)];
    if Chain(short, Freed(bs, i)) { HeaderAt(short, Freed(bs, i), l); }
  }

  /** A payload lies in the array unless it is that of the last block of a chain that claims
      one word more than there is, as the first block does as it is written. */
  lemma PayloadInside(data: seq<int>, bs: seq<Block>, j: nat)
    requires Chain(data, bs) && j < |bs|
    ensures Pos(bs, j) + bs[j].len < |data| <==> j + 1 < |bs| || Span(bs) <= |data|
  {
    PosNext(bs, j);
    if j + 1 == |bs| { PosEnd(bs); } else { BlockEnds(data, bs, j + 1); }
  }

  // ---------------------------------------------------------------- the heap

  /** size + 3 >> 2 in 32 bits: the words for a number of bytes. */
  function Words(size: int): (n: nat)
    requires 0 <= size < 0x1_0000_0000
    ensures size <= 0xFFFF_FFFC ==> 4 * n - 4 < size <= 4 * n
  {
    (size + 3) % 0x1_0000_0000 / 4
  }

  /** len | 0x40000000 */
  function WithFree(len: nat): int {
    if len / FREE % 2 == 1 then len else len + FREE
  }

  /** dyn_data and dyn_nblocks.  With repaired, the first block leaves room for its own
      header (line 31) and merging keeps the header of the block after (line 152). */
  class Heap {
    const data: array<int>
    const repaired: bool
    var nblocks: int
    ghost var blocks: seq<Block>

    ghost predicate Valid()
      reads this, data
    {
      0 < nblocks == |blocks| && Chain(data[..], blocks)
    }

    ghost predicate Ready()
      reads this, data
    {
      if nblocks == 0 then 2 <= data.Length < 0x3FFF_FFFF else Valid()
    }

    /** The chain, or the one block that is made of the whole heap at the first call. */
    ghost function Blocks(): seq<Block>
      requires Ready()
      reads this, data
    {
      if nblocks == 0 then [Block(data.Length - if repaired then 1 else 0, false)] else blocks
    }

    constructor (size: nat, repaired: bool)
      requires 2 <= size < 0x3FFF_FFFF
      ensures Ready() && nblocks == 0 && data.Length == size && this.repaired == repaired && fresh(data)
    {
      data := new int[size](i => 0);
      this.repaired := repaired;
      nblocks, blocks := 0, [];
    }

    /** DYN_INIT. */
    method Init()
      requires Ready()
      modifies this, data
      ensures Valid() && blocks == old(Blocks())
      ensures old(nblocks) != 0 ==> data[..] == old(data[..])
      ensures old(nblocks) == 0 ==> data[1..] == old(data[1..]) && data.Length <= Span(blocks)
    {
      if nblocks == 0 {
        nblocks := 1;
        data[0] := WithFree(data.Length - if repaired then 1 else 0);
        blocks := [Block(data.Length - if repaired then 1 else 0, false)];
        assert blocks[..0] == [];
        SpanOne(blocks[0]);
      }
    }

    /** malloc: the index of the first payload word, or 0 when no block is large enough. */
    method Malloc(size: int) returns (p: int)
      requires Ready() && 0 <= size < 0x1_0000_0000
      modifies this, data
      ensures Valid()
      ensures var bs := old(Blocks()); var n := Words(size); var k := FirstFit(bs, n, 0);
        && (if k == |bs| then p == 0 && blocks == bs && (old(nblocks) != 0 ==> data[..] == old(data[..]))
            else p == Pos(bs, k) + 1 && blocks == Claimed(bs, k, n))
        && Span(blocks) == Span(bs)
      ensures PayloadsKept(old(Blocks()), old(data[..]), data[..])
    {
      hide Span, Pos, Chain, Claimed, FirstFit, InPayload;
      ghost var was := data[..];
      Init();
      ghost var bs, d := blocks, data[..];
      assert PayloadsKept(bs, was, d);
      var n: nat := Words(size);
      var remain := nblocks;
      var ptr := 0;
      ghost var i: nat := 0;
      PosZero(bs);
      while remain != 0
        invariant i <= |bs| && remain == |bs| - i && ptr == Pos(bs, i) && FirstFit(bs, n, i) == FirstFit(bs, n, 0)
        invariant blocks == bs && data[..] == d && nblocks == |bs|
        decreases remain
      {
        ClaimedCount(bs, i, n);
        if n <= bs[i].len { ClaimedSpan(bs, i, n); }
        PayloadsApart(bs, i);
        HeaderAt(data[..], bs, i);
        PosNext(bs, i);
        FitHere(bs, n, i);
        var len, state := data[ptr] % FREE, data[ptr] / FREE;
        if state == 1 {
          if len == n || len == n + 1 {
            ClaimedChain(data[..], bs, i, n);
            data[ptr] := len + USED;
            blocks := Claimed(bs, i, n);
            return ptr + 1;
          } else if len > n {
            ClaimedChain(data[..], bs, i, n);
            data[ptr] := n + USED;
            data[ptr + n + 1] := len - n - 1 + FREE;
            nblocks := nblocks + 1;
            blocks := Claimed(bs, i, n);
            return ptr + 1;
          }
        }
        ptr := ptr + len + 1;
        remain := remain - 1;
        i := i + 1;
      }
      FitNone(bs, n);
      p := 0;
    }

    /** The word that free reads as the header of the block after: past the array it is
        whatever comes there. */
    function WordAt(x: nat, beyond: nat): int
      reads data
    {
      if x < data.Length then data[x] else beyond
    }

    /** free.  A pointer that no block has changes nothing.  Otherwise the block is freed and
        merged with its free neighbours, and the payloads in use stay.  The heap is in order
        afterwards exactly when no header word is lost, in the merge with the block after as
        it is written, and the word that comes after the last block does not look like the
        header of a free one. */
    method Free(p: int, beyond: nat) returns (ghost found: bool, ghost i: nat)
      requires Ready() && 0 <= beyond < 0x1_0000_0000
      modifies this, data
      ensures var bs := old(Blocks());
        if found then i < |bs| && Pos(bs, i) + 1 == p
        else
          && (forall j :: 0 <= j < |bs| ==> Pos(bs, j) + 1 != p)
          && blocks == bs && (old(nblocks) != 0 ==> data[..] == old(data[..]))
      ensures var bs := old(Blocks());
        found ==>
          && blocks == Freed(bs, i) && Span(blocks) == Span(bs)
          && PayloadsKept(Freed(bs, i), old(data[..]), data[..])
      ensures var bs := old(Blocks()); var after := old(WordAt(Span(Blocks()), beyond));
        found ==> nblocks == |blocks| - if i + 1 == |bs| && after / FREE == 1 then 1 else 0
      ensures var bs := old(Blocks()); var after := old(WordAt(Span(Blocks()), beyond));
        Valid() <==> !found || ((repaired || !FreeAt(bs, i + 1)) && !(i + 1 == |bs| && after / FREE == 1))
    {
      hide Span, Pos, Chain, Freed, InPayload, Merged;
      ghost var was := data[..];
      Init();
      ghost var bs, d := blocks, data[..];
      assert WordAt(Span(bs), beyond) == old(WordAt(Span(Blocks()), beyond));
      assert forall x :: 1 <= x < |d| ==> d[x] == d[1..][x - 1] == was[1..][x - 1] == was[x];
      var remain := nblocks;
      var ptr, prev, prevlen := 0, -1, 0;
      i := 0;
      PosZero(bs);
      while remain != 0
        invariant i <= |bs| && remain == |bs| - i && ptr == Pos(bs, i)
        invariant if FreeAt(bs, i - 1) then prev == Pos(bs, i - 1) && prevlen == bs[i - 1].len else prev == -1
        invariant forall j :: 0 <= j < i ==> Pos(bs, j) + 1 != p
        invariant blocks == bs && data[..] == d && nblocks == |bs|
        decreases remain
      {
        HeaderAt(d, bs, i);
        PosNext(bs, i);
        var len: nat, state := data[ptr] % FREE, data[ptr] / FREE;
        if ptr + 1 == p {
          found := true;
          Release(ptr, len, prev, prevlen, beyond, i);
          KeptBefore(Freed(bs, i), was, d, data[..]);
          return;
        }
        if state == 1 {
          prev := ptr;
          prevlen := len;
        } else {
          prev := -1;
        }
        ptr := ptr + data[ptr] % FREE + 1;
        remain := remain - 1;
        i := i + 1;
      }
      found := false;
    }

    /** The part of free that runs when the block has been found. */
    method Release(ptr: nat, length: nat, prev: int, prevlen: nat, beyond: nat, ghost i: nat)
      requires Valid() && i < |blocks| && ptr == Pos(blocks, i) && length == blocks[i].len
      requires if FreeAt(blocks, i - 1) then prev == Pos(blocks, i - 1) && prevlen == blocks[i - 1].len else prev == -1
      modifies this, data
      ensures var bs := old(blocks);
        blocks == Freed(bs, i) && Span(blocks) == Span(bs) && PayloadsKept(Freed(bs, i), old(data[..]), data[..])
      ensures var bs := old(blocks); var after := old(WordAt(Span(blocks), beyond));
        nblocks == |blocks| - if i + 1 == |bs| && after / FREE == 1 then 1 else 0
      ensures var bs := old(blocks); var after := old(WordAt(Span(blocks), beyond));
        Valid() <==> (repaired || !FreeAt(bs, i + 1)) && !(i + 1 == |bs| && after / FREE == 1)
    {
      hide Span, Pos, Chain, Freed, InPayload;
      ghost var bs, d := blocks, data[..];
      PosNext(bs, i);
      NextWord(d, bs, i);
      FreedCount(bs, i);
      FreedSpan(bs, i);
      var len := length;
      var next := ptr + len + 1;
      var word := if next < data.Length then data[next] else beyond;
      if word / FREE == 1 {
        len := len + word % FREE + if repaired then 1 else 0;
        nblocks := nblocks - 1;
      }
      var block := ptr;
      if prev != -1 {
        block := prev;
        len := len + prevlen + 1;
        nblocks := nblocks - 1;
      }
      FreedChain(d, bs, i);
      data[block] := WithFree(len);
      blocks := Freed(bs, i);
      MergedFits(d, bs, i);
      HeaderKeeps(bs, i);
      if !(repaired || !FreeAt(bs, i + 1)) { ShortHeader(d, bs, i); }
    }
  }

  /** The first word is in no payload. */
  lemma KeptBefore(bs: seq<Block>, was: seq<int>, d: seq<int>, data: seq<int>)
    requires |was| == |d| && (forall x :: 1 <= x < |d| ==> d[x] == was[x])
    ensures PayloadsKept(bs, d, data) ==> PayloadsKept(bs, was, data)
  {
  }

  lemma FreedCount(bs: seq<Block>, i: nat)
    requires i < |bs|
    ensures |Freed(bs, i)| == |bs| - (if FreeAt(bs, i + 1) then 1 else 0) - (if FreeAt(bs, i - 1) then 1 else 0)
  {
  }

  /** The word after block i: the next header, or the one after the chain. */
  lemma NextWord(data: seq<int>, bs: seq<Block>, i: nat)
    requires Chain(data, bs) && i < |bs|
    ensures i + 1 == |bs| ==> Pos(bs, i + 1) == Span(bs)
    ensures i + 1 < |bs| ==> var h := Pos(bs, i + 1);
      h < |data| && (data[h] / FREE == 1 <==> FreeAt(bs, i + 1)) && data[h] % FREE == bs[i + 1].len
  {
    if i + 1 == |bs| { PosEnd(bs); } else { HeaderAt(data, bs, i + 1); }
  }

  lemma MergedFits(data: seq<int>, bs: seq<Block>, i: nat)
    requires Chain(data, bs) && i < |bs|
    ensures Merged(bs, i).len < FREE
  {
    MergedSpan(bs, i);
    PosEnd(bs);
    if After(bs, i) < |bs| { PosGrows(bs, After(bs, i), |bs|); }
  }

  /** The header of a freed block is in no payload of a block in use. */
  lemma HeaderKeeps(bs: seq<Block>, i: nat)
    requires i < |bs|
    ensures var cs := Freed(bs, i);
      forall j, x :: 0 <= j < |cs| && cs[j].used && InPayload(cs, j, x) ==> x != Pos(bs, Before(bs, i))
  {
    hide Pos, Span;
    var cs, l := Freed(bs, i), Before(bs, i);
    PosBelow(bs, l, After(bs, i), [Merged(bs, i)], l);
    forall j, x | 0 <= j < |cs| && cs[j].used && InPayload(cs, j, x) ensures x != Pos(bs, l) {
      PayloadIsNoHeader(cs, j, x, l);
    }
  }

  lemma PosZero(bs: seq<Block>)
    ensures Pos(bs, 0) == 0
  {
  }

  /** What a header says. */
  lemma HeaderAt(data: seq<int>, bs: seq<Block>, i: nat)
    requires Chain(data, bs) && i < |bs|
    ensures var h := Pos(bs, i);
      h < |data| && data[h] % FREE == bs[i].len && data[h] / FREE == if bs[i].used then 2 else 1
  {
    BlockEnds(data, bs, i);
  }

  lemma FitHere(bs: seq<Block>, n: nat, i: nat)
    requires i < |bs|
    ensures FirstFit(bs, n, i) == if !bs[i].used && n <= bs[i].len then i else FirstFit(bs, n, i + 1)
  {
  }

  lemma FitNone(bs: seq<Block>, n: nat)
    ensures FirstFit(bs, n, |bs|) == |bs|
  {
  }

  lemma ClaimedCount(bs: seq<Block>, i: nat, n: nat)
    requires i < |bs|
    ensures n <= bs[i].len ==> |Claimed(bs, i, n)| == |bs| + if bs[i].len <= n + 1 then 0 else 1
  {
  }

  predicate InPayload(bs: seq<Block>, j: nat, x: int)
    requires j < |bs|
  {
    Pos(bs, j) < x <= Pos(bs, j) + bs[j].len
  }

  /** The payloads of all blocks in use are unchanged. */
  ghost predicate PayloadsKept(bs: seq<Block>, data: seq<int>, data': seq<int>) {
    && |data'| == |data|
    && forall j, x :: 0 <= j < |bs| && bs[j].used && 0 <= x < |data| && InPayload(bs, j, x) ==> data'[x] == data[x]
  }

  /** The payloads of the blocks in use and the words of a free block. */
  lemma PayloadsApart(bs: seq<Block>, i: nat)
    requires i < |bs|
    ensures !bs[i].used ==> forall j, x :: 0 <= j < |bs| && bs[j].used && InPayload(bs, j, x) ==>
      x < Pos(bs, i) || Pos(bs, i) + bs[i].len < x
  {
    hide Pos;
    forall j, x | 0 <= j < |bs| && bs[j].used && InPayload(bs, j, x) && !bs[i].used
      ensures x < Pos(bs, i) || Pos(bs, i) + bs[i].len < x
    {
      if j < i { PosGrows(bs, j, i); } else { PosGrows(bs, i, j); }
    }
  }

  // ---------------------------------------------------------------- where the source fails

  /** As it is written, the one block of a new heap can be given out as a whole, and the last
      word of its payload is then behind the array. */
  method WholeHeap(size: nat) returns (h: Heap, p: int)
    requires 2 <= size < 0x3FFF_FFFF
    ensures fresh(h) && fresh(h.data) && h.Valid() && h.data.Length == size && !h.repaired
    ensures h.blocks == [Block(size, true)] && p == 1 && p + size - 1 == h.data.Length
  {
    h := new Heap(size, false);
    OneBlock(size);
    p := h.Malloc(4 * size);
  }

  lemma OneBlock(size: nat)
    ensures var bs := [Block(size, false)];
      FirstFit(bs, size, 0) == 0 && Claimed(bs, 0, size) == [Block(size, true)] && Pos(bs, 0) == 0
    ensures Span([Block(size, true)]) == size + 1 && Freed([Block(size, true)], 0) == [Block(size, false)]
  {
    PosZero([Block(size, false)]);
    SpanOne(Block(size, true));
    assert [Block(size, true)][1..] == [];
  }

  /** Taking it back, free reads the word after the block, which the array does not have: if
      it looks like the header of a free block, the heap is out of order. */
  method WholeFreed(size: nat, beyond: nat) returns (h: Heap)
    requires 2 <= size < 0x3FFF_FFFF && beyond < 0x1_0000_0000
    ensures fresh(h) && h.blocks == [Block(size, false)]
    ensures h.Valid() <==> beyond / FREE != 1
  {
    var p;
    h, p := WholeHeap(size);
    OneBlock(size);
    PosZero(h.blocks);
    var found, i := h.Free(p, beyond);
  }

  /** Giving out one word of a new heap and taking it back: the headers tile the heap again
      exactly when the merge with the block after is repaired. */
  method OneWord(size: nat, repaired: bool, beyond: nat) returns (h: Heap)
    requires 4 <= size < 0x3FFF_FFFF && beyond < 0x1_0000_0000
    ensures fresh(h) && h.repaired == repaired
    ensures h.Valid() <==> repaired
  {
    h := new Heap(size, repaired);
    ghost var bs := h.Blocks();
    SplitBlock(bs[0].len);
    var p := h.Malloc(4);
    PosZero(h.blocks);
    var found, i := h.Free(p, beyond);
  }

  lemma SplitBlock(len: nat)
    requires len >= 3
    ensures var bs := [Block(len, false)];
      FirstFit(bs, 1, 0) == 0 && Claimed(bs, 0, 1) == [Block(1, true), Block(len - 2, false)] && Pos(bs, 0) == 0
    ensures Words(4) == 1
  {
    PosZero([Block(len, false)]);
    assert [Block(len, false)][..0] == [] && [Block(len, false)][1..] == [];
  }
}
