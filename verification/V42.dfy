/** The V.42bis codec in place: encode and decode over the dictionary array and the code
    buffer (test-progs/src/v42.c). */
module V42 {
  import opened Powers
  import opened V42Trie
  import opened V42Dict
  import opened V42Bits
  import C = V42Codec

  /** The global variables of the program. */
  class Modem {
    const dict: array<Node>
    const codebuf: array<byte>
    const str: array<byte>
    var c1: int
    var c2: int
    var c3: int
    var escape: byte
    var compress: bool
    var last: int
    var baddr: nat
    var eaddr: nat
    var codedone: int
    var outbuf: seq<byte>
    /** The dictionary as a value. */
    ghost var trie: Trie

    ghost predicate Tabled()
      reads this`c1, this`last, this`trie, dict
    {
      && dict.Length == END + 1 && Valid(trie) && c1 == trie.free && last == trie.recent
      && Represents(dict[..], trie)
    }

    /** The arrays, all zero as globals are. */
    constructor (size: nat)
      ensures dict.Length == END + 1 && codebuf.Length == size && str.Length == C.LONGEST + 1 && str != codebuf
      ensures fresh(dict) && fresh(codebuf) && fresh(str) && Blank(codebuf[..]) && baddr == 0 && outbuf == []
    {
      dict := new Node[END + 1](i => Node(0, 0, 0, 0));
      codebuf := new byte[size](i => 0);
      str := new byte[C.LONGEST + 1](i => 0);
      c1, c2, c3, escape, compress, last := 0, 0, 0, 0, false, 0;
      baddr, eaddr, codedone, outbuf := 0, 0, 0, [];
    }

    /** init_dict. */
    method InitDict()
      requires dict.Length == END + 1
      modifies dict, this`c1, this`c2, this`c3, this`escape, this`compress, this`last, this`trie
      ensures Tabled() && trie == NewTrie() && c2 == 9 && c3 == 512 && escape == 0 && !compress
    {
      var dp := 0;
      while dp <= END
        invariant 0 <= dp <= END + 1
        invariant forall n :: 0 <= n < dp ==> dict[n] == Node(0, 0, 0, Byte(n - ROOT))
      {
        dict[dp] := Node(0, 0, 0, Byte(dp - ROOT));
        dp := dp + 1;
      }
      c1, c2, c3, escape, compress, last := FIRST, 9, 512, 0, false, 0;
      trie := NewTrie();
      NewTrieValid();
    }

    /** search_dict. */
    method SearchDict(cur: int, data: byte) returns (n: int)
      requires Tabled() && (cur == 0 || Linked(trie, cur))
      ensures n == Search(trie, cur, data)
    {
      hide Represents, Covered, Distinct, Spelled, Children;
      if cur == 0 {
        return data + ROOT;
      }
      ghost var i: nat := 0;
      ghost var list := trie.kids[cur];
      KidsListed(cur);
      assert list[0..] == list;
      n := dict[cur].kids;
      while n != 0
        invariant i <= |list| && n == Head(list, i)
        invariant Find(trie, list[i..], data) == Find(trie, list, data)
        decreases |list| - i
      {
        if n != last && dict[n].data == data {
          return;
        }
        assert list[i..][1..] == list[i + 1..];
        n := dict[n].sibling;
        i := i + 1;
      }
    }

    /** The list of p, as the array links it. */
    lemma KidsListed(p: int)
      requires Tabled() && 0 <= p <= END
      ensures dict[p].kids == Head(trie.kids[p], 0) && |trie.text| == END + 1
      ensures forall i :: 0 <= i < |trie.kids[p]| ==>
        0 < trie.kids[p][i] <= END && |trie.text[trie.kids[p][i]]| > 0
      ensures forall i :: 0 <= i < |trie.kids[p]| ==>
        var m := trie.kids[p][i];
        FIRST <= m < END && dict[m].sibling == Head(trie.kids[p], i + 1) && dict[m].data == Last(trie.text[m])
    {
      hide Covered, Distinct;
      assert Entry(dict[..], trie, p);
      forall i | 0 <= i < |trie.kids[p]|
        ensures var m := trie.kids[p][i];
          FIRST <= m < END && dict[m].sibling == Head(trie.kids[p], i + 1) && dict[m].data == Last(trie.text[m])
      {
        assert Entry(dict[..], trie, trie.kids[p][i]) && Chain(dict[..], trie.kids[p]);
      }
    }

    /** The leaf search of add_dict: from the slot after n to the end, then from the first. */
    method FindLeaf(n: int, ghost kids: seq<seq<int>>) returns (dp: int)
      requires dict.Length == |kids| == END + 1 && FIRST <= n < END && kids[n] == [] && kids[END] == []
      requires forall j :: 0 <= j <= END ==> (dict[j].kids == 0 <==> kids[j] == [])
      ensures dp == NextLeaf(kids, n)
    {
      dp := n + 1;
      ghost var wrapped := false;
      while true
        invariant !wrapped ==> dp == n + 1
        invariant wrapped ==> dp == FIRST && FirstLeaf(kids, n + 1, END) == END
        decreases !wrapped
      {
        ghost var from, end := dp, if wrapped then n + 1 else END;
        while dict[dp].kids != 0
          invariant from <= dp <= end && FirstLeaf(kids, dp, end) == FirstLeaf(kids, from, end)
          invariant wrapped ==> dp <= n
          decreases end - dp
        {
          dp := dp + 1;
        }
        if dp < END {
          break;
        }
        dp := FIRST;
        wrapped := true;
      }
    }

    /** The entry before me in the list that starts at first, 0 if there is none. */
    method FindPrevious(first: int, me: int, ghost list: seq<int>, ghost at: nat) returns (prev: int, ghost i: nat)
      requires dict.Length == END + 1 && Chain(dict[..], list) && first == Head(list, 0) && at < |list|
      requires list[at] == me
      requires forall j :: 0 <= j < |list| ==> FIRST <= list[j] < END
      ensures i < |list| && list[i] == me && prev == if i == 0 then 0 else list[i - 1]
      ensures prev == 0 || exists k :: 0 < k < |list| && list[k] == me && prev == list[k - 1]
    {
      hide Chain;
      var kid := first;
      prev := 0;
      i := 0;
      while kid != 0
        invariant i <= at && kid == list[i] && prev == (if i == 0 then 0 else list[i - 1])
        decreases at - i
      {
        if kid == me {
          break;
        }
        ChainAt(dict[..], list, i);
        prev := kid;
        kid := dict[kid].sibling;
        i := i + 1;
      }
    }

    /** The end of add_dict: takes entry me out of the list of its parent. */
    method Unlink(me: int, ghost f: Trie)
      requires dict.Length == END + 1 && Filled(f) && Represents(dict[..], f) && FIRST <= me < END && f.kids[me] == []
      modifies dict
      ensures Represents(dict[..], Release(f, me))
    {
      ghost var nodes, p := dict[..], f.parent[me];
      ParentList(nodes, f, me);
      hide Represents, Filled;
      if dict[me].parent != 0 {
        ghost var list := f.kids[p];
        var prev;
        ghost var i;
        ghost var at :| 0 <= at < |list| && list[at] == me;
        prev, i := FindPrevious(dict[dict[me].parent].kids, me, list, at);
        ReleaseRepresents(nodes, f, me, i);
        if prev != 0 {
          dict[prev] := dict[prev].(sibling := dict[me].sibling);
        } else {
          dict[dict[me].parent] := dict[dict[me].parent].(kids := dict[me].sibling);
        }
        assert dict[..] == Unlinking(nodes, p, list, i);
      }
    }

    /** add_dict. */
    method AddDict(cur: int, data: byte)
      requires Tabled() && (cur == 0 || Linked(trie, cur))
      modifies dict, this`c1, this`last, this`trie
      ensures Tabled() && trie == if cur == 0 then old(trie) else Add(old(trie), cur, data)
    {
      hide Valid, Filled, Represents, Fill, Release;
      if cur == 0 {
        return;
      }
      ghost var t := trie;
      BeforeFill(t, cur, data);
      ghost var f := Fill(t, cur, data);
      FillRepresents(dict[..], t, cur, data);
      FillFilled(t, cur, data);
      AddIs(t, cur, data);
      ghost var nodes := dict[..];
      dict[c1] := Node(cur, 0, dict[cur].kids, data);
      dict[cur] := dict[cur].(kids := c1);
      assert dict[..] == Filling(nodes, t.free, cur, data);
      last := c1;
      Leaves(dict[..], f);
      var me := FindLeaf(c1, f.kids);
      Unlink(me, f);
      ReleaseValid(f, me);
      c1 := me;
      trie := Release(f, me);
    }

    // -------------------------------------------------------------- the code buffer

    /** putcode: -5 ends the stream, size 0 pads to a byte. */
    method PutCode(code: int, size: int)
      requires code == -5 || size == 0 || (8 <= size <= 11 && 0 <= code < END)
      requires code == -5 || (if size == 0 then RoundUp(baddr) / 8 else baddr / 8 + 2) < codebuf.Length
      modifies codebuf, this`baddr, this`eaddr, this`codedone
      ensures code == -5 ==>
        && eaddr == RoundUp(old(baddr)) && baddr == 0 && codedone == 1
        && codebuf[..] == old(codebuf[..])
      ensures code != -5 ==> eaddr == old(eaddr) && codedone == old(codedone)
      ensures code != -5 && size == 0 ==>
        baddr == RoundUp(old(baddr)) && codebuf[..] == old(codebuf[..])[baddr / 8 := 0]
      ensures code != -5 && size != 0 ==>
        if size != 8 && code == 1 && old(baddr) % 8 == 0 then baddr == old(baddr) && codebuf[..] == old(codebuf[..])
        else baddr == old(baddr) + size && codebuf[..] == PutAt(old(codebuf[..]), old(baddr), size, code)
    {
      hide PutAt;
      if code == -5 {
        eaddr := RoundUp(baddr);
        baddr := 0;
        codedone := 1;
        return;
      }
      if size == 0 {
        baddr := RoundUp(baddr);
        codebuf[baddr / 8] := 0;
        return;
      }
      if size != 8 && code == 1 && baddr % 8 == 0 {
        return;
      }
      StoreBits(code, size);
      baddr := baddr + size;
    }

    /** The three stores of putcode. */
    method StoreBits(code: int, size: int)
      requires 8 <= size <= 11 && 0 <= code < END && baddr / 8 + 2 < codebuf.Length
      modifies codebuf
      ensures codebuf[..] == PutAt(old(codebuf[..]), baddr, size, code)
    {
      hide Weight, Or;
      var p := baddr / 8;
      ghost var b := codebuf[..];
      ghost var q := Put3(baddr % 8, size, code, b[p]);
      var x := code * Weight(24 - size - baddr % 8);
      assert q == (Byte(Or(b[p], x / 0x1_0000)), x / 0x100 % 0x100, x % 0x100);
      codebuf[p + 2] := x % 0x100;
      codebuf[p + 1] := x / 0x100 % 0x100;
      codebuf[p] := Byte(Or(codebuf[p], x / 0x1_0000));
      hide Put3, Byte;
      assert codebuf[..] == b[p := q.0][p + 1 := q.1][p + 2 := q.2];
    }

    /** The buffer, blank at first, holds the tokens, the first of those in total, for all of
        which there is room. */
    ghost predicate Lined(b: seq<byte>, tokens: seq<C.Token>, total: seq<C.Token>)
      reads this`baddr, codebuf
    {
      && |b| == codebuf.Length && C.AllSized(total) && Address(total) / 8 + 2 < |b|
      && tokens <= total && C.AllSized(tokens) && Address(tokens) <= Address(total)
      && Line(codebuf[..], baddr) == PutAll(b, tokens)
    }

    lemma Room(b: seq<byte>, tokens: seq<C.Token>, total: seq<C.Token>, token: C.Token)
      requires Lined(b, tokens, total) && tokens + [token] <= total
      ensures C.TokenSized(token) && Next(baddr, token) / 8 + 2 < codebuf.Length
      ensures C.AllSized(tokens + [token]) && Address(tokens + [token]) == Next(baddr, token) <= Address(total)
      ensures PutAll(b, tokens + [token]) == PutToken(Line(codebuf[..], baddr), token)
    {
      hide PutToken, Next, PutAll, Address;
      assert token == (tokens + [token])[|tokens|] == total[|tokens|];
      AddressNext(tokens, token);
      AddressGrows(total, |tokens| + 1);
      assert total[..|tokens| + 1] == tokens + [token];
      PutAllNext(b, tokens, token);
    }

    /** putcode of a code other than the end mark. */
    method Send(code: int, size: int, ghost b: seq<byte>, ghost tokens: seq<C.Token>, ghost total: seq<C.Token>)
      requires Lined(b, tokens, total) && tokens + [C.Code(code, size)] <= total && (code == 1 ==> size == 8)
      modifies codebuf, this`baddr, this`eaddr, this`codedone
      ensures Lined(b, tokens + [C.Code(code, size)], total) && eaddr == old(eaddr) && codedone == old(codedone)
    {
      hide PutAll, Address, PutAt, C.AllSized;
      Room(b, tokens, total, C.Code(code, size));
      PutCode(code, size);
    }

    /** putcode(0, c2) and putcode(0, 0). */
    method SendLeave(ghost b: seq<byte>, ghost tokens: seq<C.Token>, ghost total: seq<C.Token>)
      requires Lined(b, tokens, total) && tokens + [C.Leave(c2)] <= total
      modifies codebuf, this`baddr, this`eaddr, this`codedone
      ensures Lined(b, tokens + [C.Leave(c2)], total) && eaddr == old(eaddr) && codedone == old(codedone)
    {
      hide PutAll, Address, PutAt, C.AllSized;
      Room(b, tokens, total, C.Leave(c2));
      PutCode(0, c2);
      PutCode(0, 0);
    }

    /** checksize_dict. */
    method ChecksizeDict(ghost b: seq<byte>, ghost tokens: seq<C.Token>, ghost total: seq<C.Token>)
      requires 9 <= c2 <= 11 && c3 == Weight(c2) && c1 < END
      requires Lined(b, tokens, total) && tokens + C.WidenCodes(c2, c1) <= total
      modifies codebuf, this`baddr, this`eaddr, this`codedone, this`c2, this`c3
      ensures c2 == C.Widened(old(c2), c1) && c3 == Weight(c2)
      ensures Lined(b, tokens + C.WidenCodes(old(c2), c1), total) && eaddr == old(eaddr) && codedone == old(codedone)
    {
      hide Lined, C.AllSized, C.WidenCodes, C.Widened;
      ghost var sent: seq<C.Token> := [];
      ghost var codes := C.WidenCodes(c2, c1);
      assert tokens + [] == tokens;
      while c1 >= c3
        invariant 9 <= c2 <= 11 && c3 == Weight(c2)
        invariant codes == sent + C.WidenCodes(c2, c1) && C.Widened(c2, c1) == C.Widened(old(c2), c1)
        invariant Lined(b, tokens + sent, total) && eaddr == old(eaddr) && codedone == old(codedone)
        decreases 11 - c2
      {
        WidenUnfold(c2, c1);
        assert tokens + sent + [C.Code(2, c2)] <= tokens + codes;
        Send(2, c2, b, tokens + sent, total);
        assert tokens + sent + [C.Code(2, c2)] == tokens + (sent + [C.Code(2, c2)]);
        sent := sent + [C.Code(2, c2)];
        c2 := c2 + 1;
        c3 := c3 * 2;
      }
      WidenUnfold(c2, c1);
      assert sent == codes;
    }

    // -------------------------------------------------------------- encode

    /** The variables of encode as a value; cur and len are its locals. */
    ghost function Encoder(cur: int, len: int): C.Encoder
      reads this`trie, this`c2, this`escape, this`compress
    {
      C.Encoder(trie, cur, len, c2, escape, compress)
    }

    ghost predicate Encoding(cur: int, len: int)
      reads this`c1, this`c2, this`c3, this`escape, this`compress, this`last, this`trie, dict
    {
      Tabled() && Encoder(cur, len).Ok() && c3 == Weight(c2)
    }

    /** checksize_dict and putcode of the string matched. */
    method SendMatch(cur: int, ghost len: int, ghost b: seq<byte>, ghost tokens: seq<C.Token>,
      ghost total: seq<C.Token>)
      requires Encoding(cur, len) && cur != 0
      requires Lined(b, tokens, total) && tokens + C.Sent(Encoder(cur, len)).1 <= total
      modifies codebuf, this`baddr, this`eaddr, this`codedone, this`c2, this`c3
      ensures Encoding(cur, len) && Encoder(cur, len) == C.Sent(old(Encoder(cur, len))).0
      ensures Lined(b, tokens + C.Sent(old(Encoder(cur, len))).1, total)
    {
      hide Lined, Valid, Represents;
      ghost var codes := C.WidenCodes(c2, c1);
      ghost var w := C.Widened(c2, c1);
      assert C.Sent(Encoder(cur, len)).1 == codes + [C.Code(cur, w)];
      assert tokens + codes + [C.Code(cur, w)] == tokens + (codes + [C.Code(cur, w)]);
      assert tokens + codes <= tokens + codes + [C.Code(cur, w)];
      ChecksizeDict(b, tokens, total);
      Send(cur, c2, b, tokens + codes, total);
    }

    /** Enters the string and the byte unless a search finds them. */
    method GrowDict(cur: int, data: byte)
      requires Tabled() && (cur == 0 || Linked(trie, cur))
      modifies dict, this`c1, this`last, this`trie
      ensures Tabled() && trie == C.Grow(old(trie), cur, data)
    {
      var n := SearchDict(cur, data);
      if n == 0 {
        AddDict(cur, data);
      }
    }

    /** The loop of encode, before the byte itself: the decisions that the counts lead to. */
    method Regulate(data: byte, cur: int, len: int, inbits: int, outbits: int, nosqueeze: int,
                    ghost b: seq<byte>, ghost tokens: seq<C.Token>, ghost total: seq<C.Token>)
      returns (cur': int, len': int, inbits': int, outbits': int, nosqueeze': int)
      requires Encoding(cur, len) && Lined(b, tokens, total)
      requires var e := Encoder(cur, len);
        tokens + C.Switched(e, data, C.Measured(e, C.Meter(inbits, outbits, nosqueeze)).0).1 <= total
      modifies this, dict, codebuf
      ensures var e := old(Encoder(cur, len));
        var (c, m) := C.Measured(e, C.Meter(inbits, outbits, nosqueeze));
        && Encoding(cur', len') && Encoder(cur', len') == C.Switched(e, data, c).0
        && C.Meter(inbits', outbits', nosqueeze') == m
        && Lined(b, tokens + C.Switched(e, data, c).1, total)
      ensures outbuf == old(outbuf)
    {
      hide Valid, Lined, Represents, C.Sent, C.Grow, NewTrie;
      cur', len', inbits', outbits', nosqueeze' := cur, len, inbits, outbits, nosqueeze;
      ghost var e := Encoder(cur, len);
      assert tokens + [] == tokens;
      if inbits > 2048 {
        if inbits < outbits {
          if compress {
            LeaveCompressed(data, cur, len, b, tokens, total);
            cur', len' := 0, 0;
          } else {
            nosqueeze' := nosqueeze' + 1;
            WidthOverFirst(c2);
            if nosqueeze' >= 5 && c3 > 512 {
              nosqueeze' := 0;
              SendCommand(2, b, tokens, total);
              InitDict();
              cur', len' := 0, 0;
              assert C.NewEncoder().Ok();
            }
          }
        } else if !compress {
          GrowDict(cur, data);
          SendCommand(0, b, tokens, total);
          compress := true;
          cur', len' := 0, 0;
        }
        inbits' := 0;
        outbits' := 0;
      }
    }

    /** Leaves the compressed mode. */
    method LeaveCompressed(data: byte, cur: int, len: int, ghost b: seq<byte>, ghost tokens: seq<C.Token>,
      ghost total: seq<C.Token>)
      requires Encoding(cur, len) && compress && Lined(b, tokens, total)
      requires tokens + C.Switched(Encoder(cur, len), data, C.ToTransparent).1 <= total
      modifies this, dict, codebuf
      ensures var r := C.Switched(old(Encoder(cur, len)), data, C.ToTransparent);
        Encoding(0, 0) && Encoder(0, 0) == r.0 && Lined(b, tokens + r.1, total)
      ensures outbuf == old(outbuf)
    {
      hide Valid, Lined, Represents, C.Sent, C.Grow, Weight;
      ghost var e := Encoder(cur, len);
      ghost var codes: seq<C.Token> := if cur != 0 then C.Sent(e).1 else [];
      ghost var c2' := C.Closed(e).0;
      assert tokens + (codes + [C.Leave(c2')]) == tokens + codes + [C.Leave(c2')];
      assert tokens + codes <= tokens + codes + [C.Leave(c2')];
      if cur != 0 {
        SendMatch(cur, len, b, tokens, total);
      } else {
        assert tokens + codes == tokens;
      }
      GrowDict(cur, data);
      SendLeave(b, tokens + codes, total);
      compress := false;
    }

    /** The escape byte and a command. */
    method SendCommand(command: int, ghost b: seq<byte>, ghost tokens: seq<C.Token>, ghost total: seq<C.Token>)
      requires Lined(b, tokens, total) && tokens + [C.Code(escape, 8), C.Code(command, 8)] <= total
      modifies codebuf, this`baddr, this`eaddr, this`codedone
      ensures Lined(b, tokens + [C.Code(escape, 8), C.Code(command, 8)], total)
    {
      hide Lined;
      ghost var codes := [C.Code(escape, 8), C.Code(command, 8)];
      assert tokens + [C.Code(escape, 8)] <= tokens + codes;
      assert tokens + [C.Code(escape, 8)] + [C.Code(command, 8)] == tokens + codes;
      Send(escape, 8, b, tokens, total);
      Send(command, 8, b, tokens + [C.Code(escape, 8)], total);
    }

    /** A byte in the transparent mode, with the mark that it is data. */
    method SendPlain(data: byte, ghost b: seq<byte>, ghost tokens: seq<C.Token>, ghost total: seq<C.Token>)
      requires Lined(b, tokens, total)
      requires tokens + ([C.Code(data, 8)] + if data == escape then [C.Code(1, 8)] else []) <= total
      modifies codebuf, this`baddr, this`eaddr, this`codedone
      ensures Lined(b, tokens + ([C.Code(data, 8)] + if data == escape then [C.Code(1, 8)] else []), total)
    {
      hide Lined;
      ghost var codes := [C.Code(data, 8)] + if data == escape then [C.Code(1, 8)] else [];
      assert tokens + [C.Code(data, 8)] <= tokens + codes;
      Send(data, 8, b, tokens, total);
      if data == escape {
        assert tokens + [C.Code(data, 8)] + [C.Code(1, 8)] == tokens + codes;
        Send(1, 8, b, tokens + [C.Code(data, 8)], total);
      } else {
        assert tokens + [C.Code(data, 8)] == tokens + codes;
      }
    }

    /** The string and the byte are in the dictionary, or the string is sent and the two entered. */
    method Extend(data: byte, cur: int, len: int, outbits: int,
                  ghost b: seq<byte>, ghost tokens: seq<C.Token>, ghost total: seq<C.Token>)
      returns (cur': int, len': int, outbits': int)
      requires Encoding(cur, len) && Lined(b, tokens, total)
      requires tokens + C.Extended(Encoder(cur, len), data).1 <= total
      modifies this, dict, codebuf
      ensures var e := old(Encoder(cur, len));
        && Encoding(cur', len') && Encoder(cur', len') == C.Extended(e, data).0
        && Lined(b, tokens + C.Extended(e, data).1, total)
        && outbits' == outbits + if Search(e.trie, cur, data) == 0 then c2 else 0
      ensures outbuf == old(outbuf)
    {
      hide Valid, Lined, Represents, C.Sent, Add, Search, C.Extended, Linked;
      ghost var e := Encoder(cur, len);
      ghost var codes := C.Extended(e, data).1;
      outbits' := outbits;
      var dp := SearchDict(cur, data);
      if dp != 0 {
        ExtendedHit(e, data);
        assert tokens + codes == tokens;
        cur', len' := dp, len + 1;
        return;
      }
      C.ExtendedMiss(e, data);
      if cur != 0 {
        if compress {
          SendMatch(cur, len, b, tokens, total);
        } else {
          assert tokens + codes == tokens;
        }
      }
      outbits' := outbits' + c2;
      if len < C.LONGEST {
        AddDict(cur, data);
      }
      cur', len' := data + ROOT, 1;
    }

    lemma ExtendedHit(e: C.Encoder, b: byte)
      requires e.Ok() && Search(e.trie, e.cur, b) != 0
      ensures C.Extended(e, b) == (e.(cur := Search(e.trie, e.cur, b), len := e.len + 1), [])
      ensures e.(cur := Search(e.trie, e.cur, b), len := e.len + 1).Ok()
    {
      SearchFinds(e.trie, e.cur, b);
      hide Valid, Search;
    }

    /** The byte itself in the loop of encode. */
    method Take(data: byte, cur: int, len: int, inbits: int, outbits: int,
                ghost b: seq<byte>, ghost tokens: seq<C.Token>, ghost total: seq<C.Token>)
      returns (cur': int, len': int, inbits': int, outbits': int)
      requires Encoding(cur, len) && Lined(b, tokens, total)
      requires tokens + C.Consumed(Encoder(cur, len), data).1 <= total
      modifies this, dict, codebuf
      ensures var e := old(Encoder(cur, len));
        && Encoding(cur', len') && Encoder(cur', len') == C.Consumed(e, data).0
        && Lined(b, tokens + C.Consumed(e, data).1, total)
        && forall q :: C.Meter(inbits', outbits', q) == C.Counted(e, data, C.Meter(inbits, outbits, q))
      ensures outbuf == old(outbuf)
    {
      ghost var e := Encoder(cur, len);
      hide Valid, Lined, Represents, C.Extended;
      ghost var plain := C.Plain(e, data);
      inbits' := inbits + 8;
      if !compress {
        assert tokens + plain <= tokens + C.Consumed(e, data).1;
        SendPlain(data, b, tokens, total);
      } else {
        assert tokens + plain == tokens;
      }
      if data == escape {
        escape := (escape + 51) % 256;
      }
      assert tokens + plain + C.Extended(Encoder(cur, len), data).1 == tokens + C.Consumed(e, data).1;
      cur', len', outbits' := Extend(data, cur, len, outbits, b, tokens + plain, total);
    }

    /** The end of the data: sends the string and the end mark. */
    method Close(cur: int, ghost len: int, ghost b: seq<byte>, ghost tokens: seq<C.Token>)
      requires Encoding(cur, len) && Lined(b, tokens, tokens + C.Ended(Encoder(cur, len)))
      modifies codebuf, this`baddr, this`eaddr, this`codedone, this`c2, this`c3
      ensures var total := tokens + C.Ended(old(Encoder(cur, len)));
        C.AllSized(total) && Address(total) / 8 + 2 < |b| == codebuf.Length
        && codebuf[..] == PutAll(b, total).buf && eaddr == RoundUp(Address(total)) && baddr == 0 && codedone == 1
      ensures 9 <= c2 <= 11
    {
      hide Valid, Represents, C.Sent, PutAll, Address, PutAt, C.AllSized;
      ghost var e := Encoder(cur, len);
      ghost var total := tokens + C.Ended(e);
      if cur != 0 && compress {
        ghost var (e1, codes) := C.Sent(e);
        assert total == tokens + codes + [C.Flush(e1.c2)];
        SendMatch(cur, len, b, tokens, total);
        SendFlush(b, tokens + codes, total);
      } else {
        assert total == tokens;
      }
      PutCode(-5, 0);
    }

    /** putcode(1, c2), not yet padded. */
    method SendFlush(ghost b: seq<byte>, ghost tokens: seq<C.Token>, ghost total: seq<C.Token>)
      requires Lined(b, tokens, total) && tokens + [C.Flush(c2)] == total && c2 > 8
      modifies codebuf, this`baddr, this`eaddr, this`codedone
      ensures C.AllSized(total) && Address(total) / 8 + 2 < |b| == codebuf.Length
      ensures codebuf[..] == PutAll(b, total).buf && RoundUp(baddr) == RoundUp(Address(total))
    {
      hide PutAll, Address, PutAt, C.AllSized;
      Room(b, tokens, total, C.Flush(c2));
      PutCode(1, c2);
    }

    /** encode, from the start of the data to its end. */
    method Encode(input: seq<byte>)
      requires dict.Length == END + 1 && Blank(codebuf[..]) && baddr == 0
      requires Address(C.Stream(input, C.Steered(input).1)) / 8 + 2 < codebuf.Length
      modifies this, dict, codebuf
      ensures var total := C.Stream(input, C.Steered(input).1);
        && codebuf[..] == PutAll(old(codebuf[..]), total).buf
        && eaddr == RoundUp(Address(total)) && baddr == 0 && codedone == 1 && outbuf == old(outbuf)
      ensures 9 <= c2 <= 11
    {
      hide C.Step, C.Switched, C.Consumed, C.Measured, C.Counted, C.Sent, Valid, Represents;
      ghost var b := codebuf[..];
      ghost var total := C.Stream(input, C.Steered(input).1);
      InitDict();
      var cur, len, inbits, outbits, nosqueeze := 0, 0, 0, 0, 0;
      var p := 0;
      StartsLined(b, total);
      while p < |input|
        invariant 0 <= p <= |input| && outbuf == old(outbuf)
        invariant AtByte(input, p, cur, len, inbits, outbits, nosqueeze, b)
      {
        cur, len, inbits, outbits, nosqueeze := EncodeByte(input, p, cur, len, inbits, outbits, nosqueeze, b);
        p := p + 1;
      }
      assert input[..p] == input;
      Close(cur, len, b, C.Encoded(input, C.Steered(input).1).1);
    }

    /** Before byte p of encode. */
    ghost predicate AtByte(input: seq<byte>, p: nat, cur: int, len: int, inbits: int, outbits: int, nosqueeze: int,
      b: seq<byte>)
      requires p <= |input|
      reads this, dict, codebuf
    {
      var (m, choices) := C.Steered(input[..p]);
      var (e, sent) := C.Encoded(input[..p], choices);
      && Encoding(cur, len) && Encoder(cur, len) == e && m == C.Meter(inbits, outbits, nosqueeze)
      && Lined(b, sent, C.Stream(input, C.Steered(input).1))
    }

    lemma StartsLined(b: seq<byte>, total: seq<C.Token>)
      requires C.AllSized(total) && b == codebuf[..] && baddr == 0 && Address(total) / 8 + 2 < |b|
      ensures Lined(b, [], total)
    {
    }

    /** The loop of encode. */
    method EncodeByte(input: seq<byte>, p: nat, cur: int, len: int, inbits: int, outbits: int, nosqueeze: int,
      ghost b: seq<byte>)
      returns (cur': int, len': int, inbits': int, outbits': int, nosqueeze': int)
      requires p < |input| && AtByte(input, p, cur, len, inbits, outbits, nosqueeze, b)
      modifies this, dict, codebuf
      ensures AtByte(input, p + 1, cur', len', inbits', outbits', nosqueeze', b) && outbuf == old(outbuf)
    {
      hide C.Steered, C.Encoded, C.Stream, C.Switched, C.Consumed, C.Measured, Valid, Represents, Lined, Encoding,
        C.AllSized;
      C.SteeredNext(input, p);
      C.SteeredWithin(input, p + 1);
      ghost var total := C.Stream(input, C.Steered(input).1);
      ghost var (m, choices) := C.Steered(input[..p]);
      ghost var (e, sent) := C.Encoded(input[..p], choices);
      ghost var (c, m1) := C.Measured(e, m);
      ghost var (e1, before) := C.Switched(e, input[p], c);
      ghost var after := C.Consumed(e1, input[p]).1;
      assert sent + (before + after) == sent + before + after;
      cur', len', inbits', outbits', nosqueeze' := Regulate(input[p], cur, len, inbits, outbits, nosqueeze, b, sent,
        total);
      cur', len', inbits', outbits' := Take(input[p], cur', len', inbits', outbits', b, sent + before, total);
    }

    // -------------------------------------------------------------- decode

    /** getcode: -1 at the start, -5 at the end and -6 after it; size 0 skips to a byte. */
    method GetCode(size: int) returns (code: int)
      requires size == 0 || (8 <= size <= 11 && (codedone == 0 && baddr < eaddr ==> baddr / 8 + 2 < codebuf.Length))
      modifies this`baddr, this`codedone
      ensures size == 0 ==> code == 0 && baddr == RoundUp(old(baddr)) && codedone == old(codedone)
      ensures size != 0 ==>
        if old(codedone) < 0 then code == -6 && codedone == old(codedone) && baddr == old(baddr)
        else if old(codedone) > 0 then code == -1 && codedone == 0 && baddr == old(baddr)
        else if old(baddr) >= eaddr then code == -5 && codedone == -1 && baddr == old(baddr)
        else code == GetAt(codebuf[..], old(baddr), size) && codedone == 0 && baddr == old(baddr) + size
    {
      if size == 0 {
        baddr := RoundUp(baddr);
        return 0;
      }
      if codedone != 0 {
        if codedone < 0 {
          return -6;
        }
        codedone := 0;
        return -1;
      }
      if baddr >= eaddr {
        codedone := -1;
        return -5;
      }
      var p := baddr / 8;
      hide Weight;
      code := ((codebuf[p] * 0x100 + codebuf[p + 1]) * 0x100 + codebuf[p + 2]) * 0x100 * Weight(baddr % 8)
        % 0x1_0000_0000 / (Weight(24 - size) * 0x100);
      baddr := baddr + size;
    }

    /** The variables of decode are those of the decoder d; cur is its local. */
    ghost predicate Decoding(d: C.Decoder, cur: int, before: seq<byte>)
      reads this`c1, this`c2, this`c3, this`escape, this`compress, this`last, this`trie, this`outbuf, dict
    {
      && Tabled() && d.Ok() && d.Decoder? && !d.escaped && d.trie == trie && d.cur == cur && d.c2 == c2
      && c3 == Weight(c2) && d.escape == escape && d.compress == compress && outbuf == before + d.out
    }

    /** The walk from a code to its first byte: fills the end of str with the string. */
    method Spell(code: int) returns (s: int)
      requires Tabled() && ROOT <= code < END && |trie.text[code]| <= C.LONGEST && str.Length == C.LONGEST + 1
      modifies str
      ensures 0 <= s < C.LONGEST && str[s..C.LONGEST] == trie.text[code]
    {
      hide Valid, Represents;
      s := C.LONGEST;
      var dp := code;
      NodeSpells(code);
      ghost var text := trie.text[code];
      assert str[s..C.LONGEST] == [];
      while dp != 0
        invariant dp == 0 || ROOT <= dp < END
        invariant 0 <= s <= C.LONGEST && |str[s..C.LONGEST]| == C.LONGEST - s
        invariant text == (if dp == 0 then [] else trie.text[dp]) + str[s..C.LONGEST]
        decreases s, dp
      {
        NodeSpells(dp);
        ghost var rest := str[s..C.LONGEST];
        var x := dict[dp].data;
        s := s - 1;
        str[s] := x;
        assert str[s..C.LONGEST] == [x] + rest;
        dp := dict[dp].parent;
        Regroup(if dp == 0 then [] else trie.text[dp], x, rest);
      }
    }

    lemma NodeSpells(n: int)
      requires Tabled() && ROOT <= n < END
      ensures |trie.text| == END + 1 && |trie.text[n]| > 0
      ensures dict[n].parent == 0 || ROOT <= dict[n].parent < END
      ensures trie.text[n] == (if dict[n].parent == 0 then [] else trie.text[dict[n].parent]) + [dict[n].data]
    {
      hide Chain, Listed;
      assert Entry(dict[..], trie, n);
      hide Represents;
      var t := trie.text[n];
      assert t == t[..|t| - 1] + [Last(t)];
    }

    /** Writes the string that ends str. */
    method PutString(first: int)
      requires 0 <= first <= C.LONGEST && str.Length == C.LONGEST + 1
      modifies this`outbuf, this`escape
      ensures outbuf == old(outbuf) + str[first..C.LONGEST] && escape == C.Cycled(old(escape), str[first..C.LONGEST])
    {
      hide C.Cycled;
      var s := first;
      CycledNone(escape);
      assert str[first..s] == [];
      while s < C.LONGEST
        invariant first <= s <= C.LONGEST
        invariant outbuf == old(outbuf) + str[first..s] && escape == C.Cycled(old(escape), str[first..s])
      {
        assert str[first..s + 1] == str[first..s] + [str[s]];
        C.CycledNext(old(escape), str[first..s], str[s]);
        outbuf := outbuf + [str[s]];
        if str[s] == escape {
          escape := (escape + 51) % 256;
        }
        s := s + 1;
      }
    }

    /** A code that stands for a string. */
    method Copy(ghost d: C.Decoder, code: int, cur: int, ghost before: seq<byte>)
      requires Decoding(d, cur, before) && compress && C.Copied(d, code).Decoder? && str.Length == C.LONGEST + 1
      modifies str, dict, this`c1, this`last, this`trie, this`outbuf, this`escape
      ensures Decoding(C.Copied(d, code), code, before)
    {
      hide Valid, Represents, C.Grow, C.Cycled, Linked;
      NodeSpells(code);
      var s := Spell(code);
      assert str[s] == str[s..C.LONGEST][0] == trie.text[code][0];
      GrowDict(cur, str[s]);
      PutString(s);
    }

    /** A byte in the transparent mode. */
    method Pass(ghost d: C.Decoder, code: byte, cur: int, ghost before: seq<byte>) returns (cur': int)
      requires Decoding(d, cur, before)
      modifies dict, this`c1, this`last, this`trie, this`outbuf
      ensures Decoding(C.Passed(d, code), cur', before)
    {
      hide Valid, Represents, Search, Add, Linked, C.Passed;
      PassedCases(d, code);
      outbuf := outbuf + [code];
      var dp := SearchDict(cur, code);
      if dp != 0 {
        return dp;
      }
      AddDict(cur, code);
      cur' := code + ROOT;
    }

    lemma PassedCases(d: C.Decoder, b: byte)
      requires d.Ok() && d.Decoder?
      ensures C.Passed(d, b).Ok()
      ensures var n := Search(d.trie, d.cur, b);
        if n != 0 then
          C.Passed(d, b) == d.(cur := n, out := d.out + [b])
        else
          && d.cur != 0 && Linked(d.trie, d.cur)
          && C.Passed(d, b) == d.(trie := Add(d.trie, d.cur, b), cur := b + ROOT, out := d.out + [b])
    {
      hide Valid, Search, Add;
      SearchFinds(d.trie, d.cur, b);
    }

    /** The buffer holds a whole stream that decode can follow to its end. */
    ghost predicate Readable(tokens: seq<C.Token>)
      reads this`eaddr, codebuf
    {
      && C.AllSized(tokens) && Framed(tokens) && Holds(codebuf[..], tokens)
      && Address(tokens) % 8 == 0 && eaddr == Address(tokens) && Address(tokens) / 8 + 2 < codebuf.Length
      && var d := C.ReceivedAll(C.NewDecoder(), tokens); d.Decoder? && !d.escaped
    }

    /** Between two codes: the first k tokens have been decoded. */
    ghost predicate AtToken(tokens: seq<C.Token>, k: nat, cur: int, before: seq<byte>)
      reads this, dict, codebuf
    {
      && Readable(tokens) && k <= |tokens| && baddr == Address(tokens[..k]) && codedone == 0
      && str.Length == C.LONGEST + 1 && str != codebuf
      && Decoding(C.ReceivedAll(C.NewDecoder(), tokens[..k]), cur, before)
    }

    /** The code of token k has been read. */
    ghost predicate Got(tokens: seq<C.Token>, k: nat, code: int, cur: int, before: seq<byte>)
      reads this, dict, codebuf
    {
      && Readable(tokens) && k < |tokens| && baddr == Address(tokens[..k]) + tokens[k].size && codedone == 0
      && (tokens[k].Flush? ==> Address(tokens[..k]) % 8 != 0) && code == CodeOf(tokens[k])
      && str.Length == C.LONGEST + 1 && str != codebuf
      && Decoding(C.ReceivedAll(C.NewDecoder(), tokens[..k]), cur, before)
    }

    /** Where the next code stands: at the end of the stream, or before it. */
    lemma NextStands(tokens: seq<C.Token>, k: nat)
      requires Readable(tokens) && k <= |tokens|
      ensures var a := Address(tokens[..k]);
        if k == |tokens| then a == eaddr
        else
          && C.TokenSized(tokens[k])
          && Address(tokens[..k + 1]) == Next(a, tokens[k]) <= eaddr
          && if tokens[k].Flush? && a % 8 == 0 then k + 1 == |tokens| && a == eaddr
             else GetAt(codebuf[..], a, tokens[k].size) == CodeOf(tokens[k]) && a < eaddr
    {
      hide C.ReceivedAll, GetAt, Address;
      if k == |tokens| {
        assert tokens[..k] == tokens;
      } else {
        AddressNext(tokens[..k], tokens[k]);
        assert tokens[..k] + [tokens[k]] == tokens[..k + 1];
        AddressGrows(tokens, k + 1);
        assert Stands(codebuf[..], Address(tokens[..k]), tokens[k]);
        if k + 1 == |tokens| { assert tokens[..k + 1] == tokens; }
      }
    }

    /** getcode for the next code, or at the end of the stream. */
    method Fetch(ghost tokens: seq<C.Token>, ghost k: nat, cur: int, ghost before: seq<byte>) returns (code: int)
      requires AtToken(tokens, k, cur, before)
      modifies this`baddr, this`codedone
      ensures code == -5 ==> codedone == -1 && outbuf == before + C.ReceivedAll(C.NewDecoder(), tokens).out
      ensures code != -5 ==> Got(tokens, k, code, cur, before) && code >= 0
      ensures compress ==> 9 <= c2 <= 11
    {
      hide C.ReceivedAll, Address, GetAt, Valid, Represents, Holds, C.Received;
      NextStands(tokens, k);
      if k < |tokens| {
        ReceivedNext(tokens, k);
        ReadSize(C.ReceivedAll(C.NewDecoder(), tokens[..k]), tokens[k]);
      }
      if k == |tokens| || (tokens[k].Flush? && k + 1 == |tokens|) { AtEnd(tokens, k); }
      code := GetCode(if compress then c2 else 8);
    }

    /** What follows when token k has been received. */
    lemma Advance(tokens: seq<C.Token>, k: nat)
      requires Readable(tokens) && k < |tokens|
      ensures C.TokenSized(tokens[k]) && Address(tokens[..k + 1]) == Next(Address(tokens[..k]), tokens[k])
      ensures var d, d' := C.ReceivedAll(C.NewDecoder(), tokens[..k]), C.ReceivedAll(C.NewDecoder(), tokens[..k + 1]);
        && d.Decoder? && d'.Decoder? && d' == C.Received(d, tokens[k])
        && tokens[k].size == (if d.compress then d.c2 else 8)
        && (!d.compress ==> tokens[k].Code? && 0 <= tokens[k].value < 256)
        && (d.compress && tokens[k].Code? ==> tokens[k].value >= 2)
    {
      hide C.ReceivedAll, Address, C.Received, GetAt, Holds;
      NextStands(tokens, k);
      ReceivedNext(tokens, k);
      ReadSize(C.ReceivedAll(C.NewDecoder(), tokens[..k]), tokens[k]);
    }

    /** The compressed mode of decode. */
    method InCompressed(code: int, cur: int, ghost tokens: seq<C.Token>, ghost k: nat, ghost before: seq<byte>)
      returns (cur': int)
      requires Got(tokens, k, code, cur, before) && compress
      modifies this`baddr, this`codedone, this`compress, this`c2, this`c3, str, dict, this`c1, this`last, this`trie,
        this`outbuf, this`escape
      ensures AtToken(tokens, k + 1, cur', before)
    {
      hide Readable, C.ReceivedAll, Address, Valid, Represents, C.Copied, C.Passed;
      Advance(tokens, k);
      cur' := cur;
      if code == 0 {
        var aligned := GetCode(0);
        compress := false;
      } else if code == 1 {
        var aligned := GetCode(0);
      } else if code == 2 {
        c2 := c2 + 1;
        c3 := c3 * 2;
      } else {
        Copy(C.ReceivedAll(C.NewDecoder(), tokens[..k]), code, cur, before);
        cur' := code;
      }
    }

    /** The transparent mode of decode; n is the number of tokens it has taken. */
    method InTransparent(code: int, cur: int, ghost tokens: seq<C.Token>, ghost k: nat, ghost before: seq<byte>)
      returns (cur': int, ghost n: nat)
      requires Got(tokens, k, code, cur, before) && !compress
      modifies this, dict
      ensures n > k && AtToken(tokens, n, cur', before)
    {
      hide Readable, C.ReceivedAll, Address, Valid, Represents, C.Copied, C.Passed;
      Advance(tokens, k);
      n := k + 1;
      if code == escape {
        cur', n := Command(code, cur, tokens, k, before);
        return;
      }
      cur' := Pass(C.ReceivedAll(C.NewDecoder(), tokens[..k]), code, cur, before);
    }

    /** The escape byte has been read: the command after it. */
    method Command(code: byte, cur: int, ghost tokens: seq<C.Token>, ghost k: nat, ghost before: seq<byte>)
      returns (cur': int, ghost n: nat)
      requires Got(tokens, k, code, cur, before) && !compress && code == escape
      modifies this, dict
      ensures n > k && AtToken(tokens, n, cur', before)
    {
      hide Readable, C.ReceivedAll, Address, Valid, Represents, C.Copied, C.Passed, Holds, NewTrie;
      Advance(tokens, k);
      NotLast(tokens, k);
      Advance(tokens, k + 1);
      NextStands(tokens, k + 1);
      n := k + 2;
      cur' := cur;
      ghost var d := C.ReceivedAll(C.NewDecoder(), tokens[..k]);
      RoomToRead(tokens);
      var command := GetCode(8);
      if command == 0 {
        compress := true;
      } else if command == 2 {
        InitDict();
        cur' := 0;
      } else if command == 1 {
        escape := (escape + 51) % 256;
        cur' := Pass(d.(escape := C.Cycle(d.escape)), code, cur, before);
      }
    }

    lemma RoomToRead(tokens: seq<C.Token>)
      requires Readable(tokens)
      ensures baddr < eaddr ==> baddr / 8 + 2 < codebuf.Length
    {
      hide C.ReceivedAll, Address, Holds;
    }

    /** A stream does not end after an escape byte. */
    lemma NotLast(tokens: seq<C.Token>, k: nat)
      requires Readable(tokens) && k < |tokens| && C.ReceivedAll(C.NewDecoder(), tokens[..k + 1]).Decoder?
      requires C.ReceivedAll(C.NewDecoder(), tokens[..k + 1]).escaped
      ensures k + 1 < |tokens|
    {
      hide C.ReceivedAll, Address, Holds;
      assert tokens[..|tokens|] == tokens;
    }

    /** decode: what the decoder writes on the tokens that the buffer holds. */
    method Decode(ghost tokens: seq<C.Token>)
      requires Readable(tokens) && baddr == 0 && codedone == 1 && (compress ==> 9 <= c2 <= 11)
      requires dict.Length == END + 1 && str.Length == C.LONGEST + 1 && str != codebuf
      modifies this, dict, str
      ensures outbuf == old(outbuf) + C.ReceivedAll(C.NewDecoder(), tokens).out
    {
      hide Readable, C.ReceivedAll, Address, Valid, Represents, Decoding, NewTrie;
      ghost var before := outbuf;
      var code := GetCode(if compress then c2 else 8);
      assert code == -1;
      InitDict();
      var cur := 0;
      ghost var k: nat := 0;
      Starts(tokens, before);
      while true
        invariant AtToken(tokens, k, cur, before)
        decreases |tokens| - k
      {
        code := Fetch(tokens, k, cur, before);
        if code == -5 {
          break;
        }
        if compress {
          cur := InCompressed(code, cur, tokens, k, before);
          k := k + 1;
        } else {
          cur, k := InTransparent(code, cur, tokens, k, before);
        }
      }
      code := GetCode(if compress then c2 else 8);
      assert code == -6;
    }

    lemma Starts(tokens: seq<C.Token>, before: seq<byte>)
      requires Readable(tokens) && baddr == 0 && codedone == 0 && str.Length == C.LONGEST + 1 && str != codebuf
      requires outbuf == before
      requires Tabled() && trie == NewTrie() && c2 == 9 && c3 == 512 && escape == 0 && !compress
      ensures AtToken(tokens, 0, 0, before)
    {
      hide Valid, Represents;
      assert tokens[..0] == [];
      assert C.NewDecoder().Ok();
    }
  }

  // ---------------------------------------------------------------- streams of encode

  predicate NoFlush(tokens: seq<C.Token>) {
    forall i :: 0 <= i < |tokens| ==> !tokens[i].Flush?
  }

  /** The transparent mode stays at whole bytes. */
  ghost predicate InBytes(e: C.Encoder, sent: seq<C.Token>) {
    C.AllSized(sent) && NoFlush(sent) && (!e.compress ==> Address(sent) % 8 == 0)
  }

  lemma BytesNext(sent: seq<C.Token>, v: int)
    requires C.AllSized(sent) && 0 <= v < END
    ensures C.AllSized(sent + [C.Code(v, 8)]) && Address(sent + [C.Code(v, 8)]) == Address(sent) + 8
  {
    hide Address;
    AddressNext(sent, C.Code(v, 8));
  }

  lemma BytesTwice(sent: seq<C.Token>, v: int, w: int)
    requires C.AllSized(sent) && 0 <= v < END && 0 <= w < END
    ensures C.AllSized(sent + [C.Code(v, 8), C.Code(w, 8)])
    ensures Address(sent + [C.Code(v, 8), C.Code(w, 8)]) == Address(sent) + 16
  {
    hide Address;
    BytesNext(sent, v);
    BytesNext(sent + [C.Code(v, 8)], w);
    assert sent + [C.Code(v, 8)] + [C.Code(w, 8)] == sent + [C.Code(v, 8), C.Code(w, 8)];
  }

  lemma {:induction false} WidenNoFlush(c2: int, free: int)
    requires 9 <= c2 <= 11 && free < END
    ensures NoFlush(C.WidenCodes(c2, free))
    decreases 11 - c2
  {
    if free >= Weight(c2) { WidenNoFlush(c2 + 1, free); }
  }

  lemma SentNoFlush(e: C.Encoder)
    requires e.Ok()
    ensures NoFlush(C.Sent(e).1)
  {
    WidenNoFlush(e.c2, e.trie.free);
  }

  lemma LeaveAligned(sent: seq<C.Token>, codes: seq<C.Token>, size: int)
    requires C.AllSized(sent) && C.AllSized(codes) && 9 <= size <= 11
    ensures C.AllSized(sent + (codes + [C.Leave(size)])) && Address(sent + (codes + [C.Leave(size)])) % 8 == 0
  {
    hide Address;
    AddressNext(sent + codes, C.Leave(size));
    assert sent + codes + [C.Leave(size)] == sent + (codes + [C.Leave(size)]);
  }

  lemma SwitchedInBytes(e: C.Encoder, sent: seq<C.Token>, b: byte, choice: C.Choice)
    requires e.Ok() && C.Possible(e, choice) && InBytes(e, sent)
    ensures var (e1, codes) := C.Switched(e, b, choice); InBytes(e1, sent + codes)
  {
    hide Valid, C.Sent, C.Grow, Address;
    match choice
    case Stay =>
      assert sent + [] == sent;
    case ToTransparent =>
      SentNoFlush(e);
      var codes: seq<C.Token> := if e.cur != 0 then C.Sent(e).1 else [];
      LeaveAligned(sent, codes, C.Closed(e).0);
    case ToCompressed =>
    case Restart =>
      BytesTwice(sent, e.escape, 2);
  }

  lemma ConsumedInBytes(e: C.Encoder, sent: seq<C.Token>, b: byte)
    requires e.Ok() && InBytes(e, sent)
    ensures var (e1, codes) := C.Consumed(e, b); InBytes(e1, sent + codes)
  {
    hide Valid, C.Sent, Search, Add, Address;
    if e.compress {
      SentNoFlush(e.(escape := if b == e.escape then C.Cycle(e.escape) else e.escape));
    } else if b == e.escape {
      assert C.Consumed(e, b).1 == [C.Code(b, 8), C.Code(1, 8)];
      BytesTwice(sent, b, 1);
    } else {
      assert C.Consumed(e, b).1 == [C.Code(b, 8)];
      BytesNext(sent, b);
    }
  }

  lemma {:induction false} EncodedInBytes(input: seq<byte>, choices: seq<C.Choice>)
    requires |choices| == |input|
    ensures var (e, sent) := C.Encoded(input, choices); InBytes(e, sent)
    decreases |input|
  {
    hide C.Switched, C.Consumed, Valid, C.AllSized, InBytes;
    if input == [] {
      NothingInBytes();
    } else {
      var k := |input| - 1;
      EncodedInBytes(input[..k], choices[..k]);
      var (e, sent) := C.Encoded(input[..k], choices[..k]);
      var choice := C.Applied(e, choices[k]);
      var (e1, before) := C.Switched(e, input[k], choice);
      SwitchedInBytes(e, sent, input[k], choice);
      ConsumedInBytes(e1, sent + before, input[k]);
      var after := C.Consumed(e1, input[k]).1;
      assert sent + before + after == sent + (before + after);
    }
  }

  lemma NothingInBytes()
    ensures InBytes(C.NewEncoder(), [])
  {
  }

  lemma EndedInBytes(e: C.Encoder, sent: seq<C.Token>)
    requires e.Ok() && InBytes(e, sent) && (e.compress ==> e.cur != 0)
    ensures C.AllSized(sent + C.Ended(e)) && Framed(sent + C.Ended(e)) && Address(sent + C.Ended(e)) % 8 == 0
  {
    hide Valid, C.Sent, Address;
    if e.compress {
      var (e1, codes) := C.Sent(e);
      SentNoFlush(e);
      AddressNext(sent + codes, C.Flush(e1.c2));
      assert sent + codes + [C.Flush(e1.c2)] == sent + C.Ended(e);
    } else {
      assert sent + C.Ended(e) == sent;
    }
  }

  /** A buffer into which encode puts codes that fit holds them. */
  lemma StreamHeld(input: seq<byte>, choices: seq<C.Choice>, b: seq<byte>)
    requires |choices| == |input| && C.AllFit(C.Stream(input, choices))
    requires Blank(b) && Address(C.Stream(input, choices)) / 8 + 2 < |b|
    ensures var total := C.Stream(input, choices);
      Framed(total) && Address(total) % 8 == 0 && Holds(PutAll(b, total).buf, total)
  {
    hide C.Encoded, Address, PutAll, Holds, Valid, C.AllFit, Framed;
    var (e, sent) := C.Encoded(input, choices);
    EncodedInBytes(input, choices);
    MatchHeld(input, choices);
    EndedInBytes(e, sent);
    PutAllHolds(b, C.Stream(input, choices));
  }

  lemma MatchHeld(input: seq<byte>, choices: seq<C.Choice>)
    requires |choices| == |input|
    ensures var e := C.Encoded(input, choices).0; e.compress ==> e.cur != 0
  {
    hide C.Step;
  }

  /** What encode leaves in a blank buffer, decode can read. */
  lemma StreamReadable(input: seq<byte>, choices: seq<C.Choice>, b: seq<byte>)
    requires |choices| == |input| && C.Followable(input, choices)
    requires Blank(b) && Address(C.Stream(input, choices)) / 8 + 2 < |b|
    ensures var total := C.Stream(input, choices);
      && Framed(total) && Address(total) % 8 == 0 && Holds(PutAll(b, total).buf, total)
      && var d := C.ReceivedAll(C.NewDecoder(), total); d.Decoder? && !d.escaped && d.out == input
  {
    hide C.Stream, C.ReceivedAll, Address, PutAll, Holds, Valid, C.Followable, C.AllFit, Framed;
    C.RoundTrip(input, choices);
    NotEscaped(input, choices);
    StreamHeld(input, choices, b);
  }

  lemma NotEscaped(input: seq<byte>, choices: seq<C.Choice>)
    requires |choices| == |input| && C.Followable(input, choices)
    ensures var d := C.ReceivedAll(C.NewDecoder(), C.Stream(input, choices)); d.Decoder? && !d.escaped
  {
    hide C.Encoded, C.ReceivedAll, C.Followable, C.AllFit;
    var (e, sent) := C.Encoded(input, choices);
    C.RunInStep(input, choices);
    C.EndedInStep(e, C.ReceivedAll(C.NewDecoder(), sent), input);
    C.ReceivedConcat(C.NewDecoder(), sent, C.Ended(e));
  }

  /** The driver: encodes into a blank buffer of the given size and decodes it.  What comes
      out is what the specified decoder writes on the stream, if all codes fit their widths
      and the decoder is not lost on the way. */
  method Drive(input: seq<byte>, size: nat) returns (output: seq<byte>)
    requires Address(C.Stream(input, C.Steered(input).1)) / 8 + 2 < size
    requires var total := C.Stream(input, C.Steered(input).1);
      C.AllFit(total) && var d := C.ReceivedAll(C.NewDecoder(), total); d.Decoder? && !d.escaped
    ensures output == C.ReceivedAll(C.NewDecoder(), C.Stream(input, C.Steered(input).1)).out
  {
    hide C.Stream, C.Steered, C.ReceivedAll, Address, PutAll, Holds, Valid, C.AllSized, C.AllFit;
    var modem := new Modem(size);
    ghost var total := C.Stream(input, C.Steered(input).1);
    StreamHeld(input, C.Steered(input).1, modem.codebuf[..]);
    modem.Encode(input);
    modem.Decode(total);
    output := modem.outbuf;
  }

  /** The input comes back whenever every step of encode can be followed. */
  method RoundTrip(input: seq<byte>, size: nat) returns (output: seq<byte>)
    requires C.Followable(input, C.Steered(input).1)
    requires Address(C.Stream(input, C.Steered(input).1)) / 8 + 2 < size
    ensures output == input
  {
    hide C.Stream, C.Steered, C.ReceivedAll, Address, C.Followable, C.AllFit;
    C.RoundTrip(input, C.Steered(input).1);
    NotEscaped(input, C.Steered(input).1);
    output := Drive(input, size);
  }

  /** At the end of the stream, apart perhaps from its mark, everything has been received. */
  lemma AtEnd(tokens: seq<C.Token>, k: nat)
    requires C.ReceivedAll(C.NewDecoder(), tokens).Decoder? && k <= |tokens|
    requires k < |tokens| ==> tokens[k].Flush? && k + 1 == |tokens|
    ensures C.ReceivedAll(C.NewDecoder(), tokens[..k]).Decoder?
    ensures C.ReceivedAll(C.NewDecoder(), tokens).out == C.ReceivedAll(C.NewDecoder(), tokens[..k]).out
  {
    hide C.ReceivedAll, C.Copied, C.Passed, C.NewDecoder;
    if k < |tokens| {
      ReceivedNext(tokens, k);
      assert tokens[..k + 1] == tokens;
    } else {
      assert tokens[..k] == tokens;
    }
  }

  /** The token that a decoder that is not lost receives has the width it expects. */
  lemma ReadSize(d: C.Decoder, token: C.Token)
    requires d.Ok() && d.Decoder? && C.Received(d, token).Decoder?
    ensures token.size == if d.compress then d.c2 else 8
    ensures !d.compress ==> token.Code? && 0 <= token.value < 256
    ensures d.compress && token.Code? ==> token.value >= 2
    ensures CodeOf(token) >= 0
  {
  }

  lemma {:induction false} ReceivedNext(tokens: seq<C.Token>, k: nat)
    requires k < |tokens| && C.ReceivedAll(C.NewDecoder(), tokens).Decoder?
    ensures C.ReceivedAll(C.NewDecoder(), tokens[..k]).Decoder?
    ensures C.ReceivedAll(C.NewDecoder(), tokens[..k + 1]).Decoder?
    ensures C.ReceivedAll(C.NewDecoder(), tokens[..k + 1])
      == C.Received(C.ReceivedAll(C.NewDecoder(), tokens[..k]), tokens[k])
    decreases |tokens| - k
  {
    if k + 1 < |tokens| {
      ReceivedNext(tokens, k + 1);
    } else {
      assert tokens[..k + 1] == tokens;
    }
    assert tokens[..k + 1][..k] == tokens[..k];
  }

  lemma WidenUnfold(c2: int, free: int)
    requires 9 <= c2 <= 11 && free < END
    ensures free < Weight(c2) ==> C.WidenCodes(c2, free) == [] && C.Widened(c2, free) == c2
    ensures free >= Weight(c2) ==> c2 < 11 && C.Widened(c2, free) == C.Widened(c2 + 1, free)
    ensures free >= Weight(c2) ==> C.WidenCodes(c2, free) == [C.Code(2, c2)] + C.WidenCodes(c2 + 1, free)
  {
  }

  lemma Regroup(a: seq<byte>, x: byte, rest: seq<byte>)
    ensures a + [x] + rest == a + ([x] + rest)
  {
  }

  lemma CycledNone(escape: byte)
    ensures C.Cycled(escape, []) == escape
  {
  }

  lemma WidthOverFirst(c2: int)
    requires 9 <= c2 <= 11
    ensures Weight(c2) > 512 <==> c2 > 9
  {
  }

  lemma BeforeFill(t: Trie, cur: int, b: byte)
    requires Valid(t) && Linked(t, cur)
    ensures Sized(t) && 0 <= cur < END && FIRST <= t.free < END && t.free != cur
    ensures var f := Fill(t, cur, b);
      |f.kids| == |f.parent| == END + 1 && f.kids[t.free] == [] && f.kids[END] == [] && f.free == t.free
  {
  }

  lemma AddIs(t: Trie, cur: int, b: byte)
    requires Valid(t) && Linked(t, cur)
    ensures var f := Fill(t, cur, b); var me := NextLeaf(f.kids, t.free);
      Filled(f) && f.kids[me] == [] && 0 <= f.parent[me] <= END && Add(t, cur, b) == Release(f, me)
      && Release(f, me).free == me && Release(f, me).recent == t.free
  {
    hide NextLeaf;
    FillFilled(t, cur, b);
  }

  lemma Leaves(nodes: seq<Node>, f: Trie)
    requires Filled(f) && Represents(nodes, f)
    ensures forall j :: 0 <= j <= END ==> (nodes[j].kids == 0 <==> f.kids[j] == [])
  {
    hide Spelled, Covered, Distinct;
    forall j | 0 <= j <= END ensures nodes[j].kids == 0 <==> f.kids[j] == [] {
      assert Entry(nodes, f, j);
    }
  }

  lemma ParentList(nodes: seq<Node>, f: Trie, me: int)
    requires Filled(f) && Represents(nodes, f) && FIRST <= me < END
    ensures nodes[me].parent == f.parent[me] && (f.parent[me] == 0 || ROOT <= f.parent[me] < END)
    ensures f.parent[me] == 0 ==> Represents(nodes, Release(f, me))
    ensures f.parent[me] != 0 ==> var list := f.kids[f.parent[me]];
      && me in list && Chain(nodes, list) && nodes[f.parent[me]].kids == Head(list, 0)
      && forall j :: 0 <= j < |list| ==> FIRST <= list[j] < END
  {
    hide Distinct;
    assert Entry(nodes, f, me);
    if f.parent[me] == 0 {
      forall n | 0 <= n <= END ensures Entry(nodes, Release(f, me), n) {
        assert Entry(nodes, f, n);
      }
    } else {
      assert Entry(nodes, f, f.parent[me]);
    }
  }
}
