/** The string dictionary of the V.42bis codec as a value (test-progs/src/v42.c): every entry
    has a parent, the string it stands for and the list of its children, newest first.  One
    slot is free; filling it frees the next leaf in cyclic order. */
module V42Trie {

  /** Codes 0 to 2 are commands; then come the 256 single bytes, then the entries. */
  const ROOT: int := 3
  const FIRST: int := 259
  const END: int := 2048

  type byte = x: int | 0 <= x < 256

  /** free is c1 of the program, recent is last: the entry made most recently. */
  datatype Trie = Trie(parent: seq<int>, text: seq<seq<byte>>, kids: seq<seq<int>>, free: int, recent: int)

  /** Tables of the right size; the slot in use for filling and the sentinel have no children. */
  ghost predicate Sized(t: Trie) {
    && |t.parent| == |t.text| == |t.kids| == END + 1
    && FIRST <= t.free < END && t.kids[t.free] == []
    && (t.recent == 0 || (FIRST <= t.recent < END && t.kids[t.recent] == []))
    && t.kids[0] == t.kids[1] == t.kids[2] == t.kids[END] == []
  }

  /** Every entry with a parent extends the parent's string by one byte. */
  ghost predicate Spelled(t: Trie)
    requires Sized(t)
  {
    && (forall n :: ROOT <= n < FIRST ==> t.text[n] == [n - ROOT])
    && (forall n :: 0 <= n < FIRST || n == END ==> t.parent[n] == 0)
    && (forall n :: 0 <= n <= END ==> |t.text[n]| > 0 && (t.parent[n] == 0 ==> |t.text[n]| == 1))
    && (forall n :: 0 <= n <= END && t.parent[n] != 0 ==>
         ROOT <= t.parent[n] < END && t.text[n][..|t.text[n]| - 1] == t.text[t.parent[n]])
  }

  /** The entry is a single byte or has been linked into the list of its parent. */
  predicate Linked(t: Trie, n: int)
    requires |t.parent| == END + 1
  {
    ROOT <= n < FIRST || (FIRST <= n < END && n != t.free && t.parent[n] != 0)
  }

  predicate Distinct(list: seq<int>) {
    forall i, j :: 0 <= i < j < |list| ==> list[i] != list[j]
  }

  /** The lists hold entries other than x, each in the list of its parent. */
  ghost predicate Children(t: Trie, x: int)
    requires Sized(t)
  {
    forall p, i :: 0 <= p <= END && 0 <= i < |t.kids[p]| ==>
      FIRST <= t.kids[p][i] < END && t.kids[p][i] != x && t.parent[t.kids[p][i]] == p
  }

  /** Every entry with a parent, other than x, is in its list, and so is the parent. */
  ghost predicate Covered(t: Trie, x: int)
    requires Sized(t) && Spelled(t)
  {
    forall n :: FIRST <= n < END && n != x && t.parent[n] != 0 ==>
      n in t.kids[t.parent[n]] && (t.parent[n] >= FIRST ==> t.parent[t.parent[n]] != 0)
  }

  /** The child lists hold exactly the entries with a parent but x, each once. */
  ghost predicate Listed(t: Trie, x: int)
    requires Sized(t) && Spelled(t)
  {
    Children(t, x) && Covered(t, x) && forall p :: 0 <= p <= END ==> Distinct(t.kids[p])
  }

  ghost predicate Valid(t: Trie) {
    Sized(t) && Spelled(t) && Listed(t, t.free)
  }

  /** Between the two halves of add_dict no slot is free. */
  ghost predicate Filled(t: Trie) {
    Sized(t) && Spelled(t) && Listed(t, 0) && t.recent == t.free
  }

  // ---------------------------------------------------------------- init_dict

  function Byte(x: int): byte {
    x % 256
  }

  function NewTrie(): (t: Trie) {
    Trie(seq(END + 1, n => 0), seq(END + 1, n => [Byte(n - ROOT)]), seq(END + 1, n => []), FIRST, 0)
  }

  lemma NewTrieValid()
    ensures Valid(NewTrie())
  {
    var t := NewTrie();
    assert forall p :: 0 <= p <= END ==> t.kids[p] == [] && t.parent[p] == 0;
    forall n | ROOT <= n < FIRST ensures t.text[n] == [n - ROOT] {
      assert Byte(n - ROOT) == n - ROOT;
    }
  }

  // ---------------------------------------------------------------- search_dict

  function Last(s: seq<byte>): byte
    requires |s| > 0
  {
    s[|s| - 1]
  }

  /** The first entry of the list, other than the most recent one, that ends in b. */
  function Find(t: Trie, list: seq<int>, b: byte): (kid: int)
    requires |t.text| == END + 1 && (forall i :: 0 <= i < |list| ==> 0 < list[i] <= END && |t.text[list[i]]| > 0)
    ensures kid == 0 || (kid in list && kid != t.recent && Last(t.text[kid]) == b)
    ensures kid == 0 ==> forall i :: 0 <= i < |list| ==> list[i] == t.recent || Last(t.text[list[i]]) != b
  {
    if list == [] then 0
    else if list[0] != t.recent && Last(t.text[list[0]]) == b then list[0]
    else Find(t, list[1..], b)
  }

  function Search(t: Trie, cur: int, b: byte): (n: int)
    requires Valid(t) && (cur == 0 || Linked(t, cur))
  {
    if cur == 0 then b + ROOT else Find(t, t.kids[cur], b)
  }

  /** What a search finds: the string extended by b, or that no entry but the most recent
      one has that string and parent. */
  lemma SearchFinds(t: Trie, cur: int, b: byte)
    requires Valid(t) && (cur == 0 || Linked(t, cur))
    ensures var n := Search(t, cur, b);
      if n != 0 then Linked(t, n) && n != t.recent && t.text[n] == (if cur == 0 then [] else t.text[cur]) + [b]
      else
        && cur != 0
        && forall m :: FIRST <= m < END && Linked(t, m) && t.parent[m] == cur && Last(t.text[m]) == b ==> m == t.recent
  {
    hide Search, Spelled, Covered, Children;
    if cur == 0 {
      RootFound(t, b);
    } else if Search(t, cur, b) != 0 {
      KidFound(t, cur, b);
    } else {
      NoneFound(t, cur, b);
    }
  }

  lemma RootFound(t: Trie, b: byte)
    requires Valid(t)
    ensures var n := Search(t, 0, b); n == b + ROOT && n != t.recent && t.text[n] == [b]
  {
    hide Covered, Children;
  }

  lemma KidFound(t: Trie, cur: int, b: byte)
    requires Valid(t) && cur != 0 && Linked(t, cur) && Search(t, cur, b) != 0
    ensures var n := Search(t, cur, b); FIRST <= n && Linked(t, n) && n != t.recent && t.text[n] == t.text[cur] + [b]
  {
    hide Covered, Distinct;
    var n := Search(t, cur, b);
    assert n in t.kids[cur] && t.parent[n] == cur;
    assert t.text[n] == t.text[n][..|t.text[n]| - 1] + [Last(t.text[n])];
  }

  lemma NoneFound(t: Trie, cur: int, b: byte)
    requires Valid(t) && cur != 0 && Linked(t, cur) && Search(t, cur, b) == 0
    ensures forall m :: FIRST <= m < END && Linked(t, m) && t.parent[m] == cur && Last(t.text[m]) == b ==> m == t.recent
  {
    hide Spelled, Children, Distinct;
    assert forall m :: FIRST <= m < END && Linked(t, m) && t.parent[m] == cur ==> m in t.kids[cur];
  }

  // ---------------------------------------------------------------- add_dict

  /** The first entry from i on without children, or end. */
  function FirstLeaf(kids: seq<seq<int>>, i: int, end: int): (k: int)
    requires 0 <= i <= end <= |kids|
    ensures i <= k <= end && (k < end ==> kids[k] == [])
    ensures forall j :: i <= j < k ==> kids[j] != []
    decreases end - i
  {
    if i == end || kids[i] == [] then i else FirstLeaf(kids, i + 1, end)
  }

  /** The next entry without children after n, in cyclic order. */
  function NextLeaf(kids: seq<seq<int>>, n: int): (k: int)
    requires |kids| == END + 1 && FIRST <= n < END && kids[n] == []
    ensures FIRST <= k < END && kids[k] == []
    ensures forall j :: n < j < END && (j < k || k <= n) ==> kids[j] != []
    ensures k <= n ==> forall j :: FIRST <= j < k ==> kids[j] != []
  {
    var k := FirstLeaf(kids, n + 1, END);
    if k < END then k else FirstLeaf(kids, FIRST, n + 1)
  }

  function Remove(list: seq<int>, n: int): (rest: seq<int>)
    ensures forall m :: m in rest ==> m in list
    ensures forall m :: m in list && m != n ==> m in rest
    ensures n !in list ==> rest == list
  {
    if list == [] then [] else if list[0] == n then list[1..] else [list[0]] + Remove(list[1..], n)
  }

  lemma {:induction false} RemoveDistinct(list: seq<int>, n: int)
    requires Distinct(list)
    ensures Distinct(Remove(list, n)) && n !in Remove(list, n)
  {
    if list != [] && list[0] != n {
      RemoveDistinct(list[1..], n);
      var rest := Remove(list[1..], n);
      forall j | 0 <= j < |rest| ensures rest[j] != list[0] {
        assert rest[j] in list[1..];
      }
    }
  }

  /** The free slot becomes the newest child of string. */
  function Fill(t: Trie, cur: int, b: byte): Trie
    requires Sized(t) && 0 <= cur < END
  {
    var n := t.free;
    Trie(t.parent[n := cur], t.text[n := t.text[cur] + [b]], t.kids[cur := [n] + t.kids[cur]], n, n)
  }

  /** The entry leaves the list of its parent and is the free slot. */
  function Release(t: Trie, me: int): Trie
    requires |t.parent| == |t.kids| == END + 1 && FIRST <= me < END && 0 <= t.parent[me] <= END
  {
    var p := t.parent[me];
    t.(kids := if p != 0 then t.kids[p := Remove(t.kids[p], me)] else t.kids, free := me)
  }

  /** add_dict on a linked string. */
  function Add(t: Trie, cur: int, b: byte): (t': Trie)
    requires Valid(t) && Linked(t, cur)
    ensures Valid(t') && t'.recent == t.free && t'.free == NextLeaf(Fill(t, cur, b).kids, t.free)
  {
    var f := Fill(t, cur, b);
    FillFilled(t, cur, b);
    var me := NextLeaf(f.kids, t.free);
    ReleaseValid(f, me);
    Release(f, me)
  }

  lemma FillSpelled(t: Trie, cur: int, b: byte)
    requires Valid(t) && Linked(t, cur)
    ensures Sized(Fill(t, cur, b)) && Spelled(Fill(t, cur, b))
  {
    hide Listed;
    var f, n := Fill(t, cur, b), t.free;
    NothingBelowFree(t);
    assert f.text[n][..|f.text[n]| - 1] == t.text[cur];
  }

  lemma NothingBelowFree(t: Trie)
    requires Valid(t)
    ensures forall n :: 0 <= n <= END && n != t.free ==> t.parent[n] != t.free
  {
    forall n | 0 <= n <= END && n != t.free ensures t.parent[n] != t.free {
    }
  }

  lemma FillListed(t: Trie, cur: int, b: byte)
    requires Valid(t) && Linked(t, cur)
    ensures var f := Fill(t, cur, b); Sized(f) && Spelled(f) && Listed(f, 0)
  {
    FillSpelled(t, cur, b);
    hide Spelled;
    var f, n := Fill(t, cur, b), t.free;
    forall p, i | 0 <= p <= END && 0 <= i < |f.kids[p]|
      ensures FIRST <= f.kids[p][i] < END && f.kids[p][i] != 0 && f.parent[f.kids[p][i]] == p
    {
      if p == cur && i > 0 { assert f.kids[p][i] == t.kids[p][i - 1]; }
    }
    forall p | 0 <= p <= END ensures Distinct(f.kids[p]) {
      FillDistinct(t, cur, b, p);
    }
    forall m | FIRST <= m < END && f.parent[m] != 0
      ensures 0 <= f.parent[m] <= END && m in f.kids[f.parent[m]]
      ensures f.parent[m] >= FIRST ==> f.parent[f.parent[m]] != 0
    {
      FillCovers(t, cur, b, m);
    }
  }

  lemma FillDistinct(t: Trie, cur: int, b: byte, p: int)
    requires Valid(t) && Linked(t, cur) && 0 <= p <= END
    ensures Distinct(Fill(t, cur, b).kids[p])
  {
    hide Spelled, Covered;
    var n := t.free;
    if p == cur {
      assert Distinct(t.kids[p]);
      forall i | 0 <= i < |t.kids[p]| ensures t.kids[p][i] != n {}
    }
  }

  lemma FillCovers(t: Trie, cur: int, b: byte, m: int)
    requires Valid(t) && Linked(t, cur) && FIRST <= m < END && Fill(t, cur, b).parent[m] != 0
    ensures var f := Fill(t, cur, b);
      0 <= f.parent[m] <= END && m in f.kids[f.parent[m]] && (f.parent[m] >= FIRST ==> f.parent[f.parent[m]] != 0)
  {
    hide Children;
    var f := Fill(t, cur, b);
    if m == t.free {
      assert f.kids[cur][0] == m;
    } else {
      assert m in t.kids[t.parent[m]];
      assert f.kids[cur][1..] == t.kids[cur];
    }
  }

  lemma FillFilled(t: Trie, cur: int, b: byte)
    requires Valid(t) && Linked(t, cur)
    ensures Filled(Fill(t, cur, b))
  {
    FillListed(t, cur, b);
    hide Spelled, Listed;
  }

  lemma ReleaseListed(f: Trie, me: int)
    requires Filled(f) && FIRST <= me < END && f.kids[me] == []
    ensures var t := Release(f, me); Sized(t) && Children(t, me) && forall p :: 0 <= p <= END ==> Distinct(t.kids[p])
  {
    var t, p := Release(f, me), f.parent[me];
    hide Spelled, Covered;
    if p != 0 { RemoveDistinct(f.kids[p], me); }
    forall q, i | 0 <= q <= END && 0 <= i < |t.kids[q]|
      ensures FIRST <= t.kids[q][i] < END && t.kids[q][i] != me && t.parent[t.kids[q][i]] == q
    {
      var m := t.kids[q][i];
      assert m in t.kids[q] && m in f.kids[q];
    }
  }

  lemma ReleaseValid(f: Trie, me: int)
    requires Filled(f) && FIRST <= me < END && f.kids[me] == []
    ensures Valid(Release(f, me))
  {
    ReleaseListed(f, me);
    var t := Release(f, me);
    assert Spelled(t) by { hide Listed; }
    hide Spelled, Children, Distinct;
  }

  /** Every entry with a parent, except the free slot, is in one list, once: that of its
      parent, which spells a shorter string, so following parents ends. */
  lemma InOneList(t: Trie, n: int)
    requires Valid(t) && FIRST <= n < END && n != t.free && t.parent[n] != 0
    ensures exists i :: 0 <= i < |t.kids[t.parent[n]]| && t.kids[t.parent[n]][i] == n
    ensures forall p, i :: 0 <= p <= END && 0 <= i < |t.kids[p]| && t.kids[p][i] == n ==> p == t.parent[n]
    ensures Distinct(t.kids[t.parent[n]])
    ensures Linked(t, t.parent[n]) && |t.text[t.parent[n]]| < |t.text[n]|
  {
    assert n in t.kids[t.parent[n]];
  }

  /** The free slot is an unlinked leaf. */
  lemma FreeSlot(t: Trie, p: int)
    requires Valid(t) && 0 <= p <= END
    ensures FIRST <= t.free < END && t.kids[t.free] == [] && t.free !in t.kids[p]
  {
  }
}
