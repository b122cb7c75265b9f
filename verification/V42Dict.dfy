/** The dictionary of the V.42bis codec in place: an array of entries linked by child and
    sibling indices (test-progs/src/v42.c), which implements the dictionary on values. */
module V42Dict {
  import opened V42Trie

  datatype Node = Node(parent: int, kids: int, sibling: int, data: byte)

  /** Element i of a list, 0 after the end. */
  function Head(list: seq<int>, i: nat): int {
    if i < |list| then list[i] else 0
  }

  /** The entry as init_dict or add_dict has left it, apart from its sibling. */
  ghost predicate Entry(nodes: seq<Node>, t: Trie, n: int)
    requires |nodes| == |t.parent| == |t.text| == |t.kids| == END + 1 && 0 <= n <= END
  {
    && nodes[n].parent == t.parent[n] && nodes[n].kids == Head(t.kids[n], 0)
    && |t.text[n]| > 0 && nodes[n].data == Last(t.text[n])
  }

  /** The entries of the list are linked by their siblings, in order. */
  ghost predicate Chain(nodes: seq<Node>, list: seq<int>)
    requires |nodes| == END + 1
  {
    forall i :: 0 <= i < |list| ==> 0 <= list[i] <= END && nodes[list[i]].sibling == Head(list, i + 1)
  }

  lemma ChainAt(nodes: seq<Node>, list: seq<int>, i: nat)
    requires |nodes| == END + 1 && Chain(nodes, list) && i < |list|
    ensures 0 <= list[i] <= END && nodes[list[i]].sibling == Head(list, i + 1)
  {
  }

  ghost predicate Represents(nodes: seq<Node>, t: Trie) {
    && |nodes| == |t.parent| == |t.text| == |t.kids| == END + 1
    && (forall n :: 0 <= n <= END ==> Entry(nodes, t, n))
    && (forall p :: 0 <= p <= END ==> Chain(nodes, t.kids[p]))
  }

  /** Another entry than those of the list has changed, or nothing but its children. */
  lemma ChainStays(nodes: seq<Node>, list: seq<int>, n: int, x: Node)
    requires |nodes| == END + 1 && Chain(nodes, list) && 0 <= n <= END
    requires n !in list || x.sibling == nodes[n].sibling
    ensures Chain(nodes[n := x], list)
  {
  }

  lemma ChainPush(nodes: seq<Node>, list: seq<int>, n: int)
    requires |nodes| == END + 1 && Chain(nodes, list) && 0 <= n <= END && nodes[n].sibling == Head(list, 0)
    ensures Chain(nodes, [n] + list)
  {
  }

  lemma ChainTail(nodes: seq<Node>, list: seq<int>)
    requires |nodes| == END + 1 && Chain(nodes, list) && list != []
    ensures Chain(nodes, list[1..])
  {
  }

  lemma CutHead(list: seq<int>, i: nat, j: nat)
    requires 0 < i < |list|
    ensures Head(list[..i] + list[i + 1..], j) == Head(list, if j < i then j else j + 1)
  {
  }

  lemma ChainCutAt(nodes: seq<Node>, list: seq<int>, i: nat, k: nat)
    requires |nodes| == END + 1 && Chain(nodes, list) && Distinct(list) && 0 < i < |list| && k < |list| && k != i
    ensures 0 <= list[k] <= END && 0 <= list[i - 1] <= END && 0 <= list[i] <= END
    ensures nodes[list[i - 1] := nodes[list[i - 1]].(sibling := nodes[list[i]].sibling)][list[k]].sibling
         == Head(list, if k + 1 == i then i + 1 else k + 1)
  {
  }

  lemma ChainCutNext(nodes: seq<Node>, list: seq<int>, rest: seq<int>, i: nat, j: nat)
    requires |nodes| == END + 1 && Chain(nodes, list) && Distinct(list) && 0 < i < |list|
    requires rest == list[..i] + list[i + 1..] && j < |rest|
    ensures 0 <= rest[j] <= END && 0 <= list[i - 1] <= END && 0 <= list[i] <= END
    ensures nodes[list[i - 1] := nodes[list[i - 1]].(sibling := nodes[list[i]].sibling)][rest[j]].sibling
      == Head(rest, j + 1)
  {
    CutHead(list, i, j);
    CutHead(list, i, j + 1);
    ChainCutAt(nodes, list, i, if j < i then j else j + 1);
    hide Chain, Distinct;
  }

  lemma ChainCut(nodes: seq<Node>, list: seq<int>, rest: seq<int>, i: nat)
    requires |nodes| == END + 1 && Chain(nodes, list) && Distinct(list) && 0 < i < |list|
    requires rest == list[..i] + list[i + 1..]
    ensures 0 <= list[i - 1] <= END && 0 <= list[i] <= END
    ensures Chain(nodes[list[i - 1] := nodes[list[i - 1]].(sibling := nodes[list[i]].sibling)], rest)
  {
    hide Distinct, Head;
    ChainCutAt(nodes, list, i, i - 1);
    var nodes' := nodes[list[i - 1] := nodes[list[i - 1]].(sibling := nodes[list[i]].sibling)];
    forall j | 0 <= j < |rest| ensures 0 <= rest[j] <= END && nodes'[rest[j]].sibling == Head(rest, j + 1) {
      ChainCutNext(nodes, list, rest, i, j);
    }
  }

  lemma {:induction false} RemoveAt(list: seq<int>, i: nat)
    requires Distinct(list) && i < |list|
    ensures Remove(list, list[i]) == list[..i] + list[i + 1..]
  {
    if i > 0 {
      assert Distinct(list[1..]);
      RemoveAt(list[1..], i - 1);
      assert list[1..][..i - 1] == list[1..i] && list[1..][i..] == list[i + 1..];
      assert list[..i] == [list[0]] + list[1..i];
    }
  }

  function Filling(nodes: seq<Node>, n: int, cur: int, b: byte): (nodes': seq<Node>)
    requires |nodes| == END + 1 && 0 <= n <= END && 0 <= cur <= END && n != cur
    ensures |nodes'| == END + 1
  {
    nodes[n := Node(cur, 0, nodes[cur].kids, b)][cur := nodes[cur].(kids := n)]
  }

  lemma FillChain(nodes: seq<Node>, t: Trie, cur: int, b: byte, p: int)
    requires Valid(t) && Linked(t, cur) && Represents(nodes, t) && 0 <= p <= END
    ensures Chain(Filling(nodes, t.free, cur, b), Fill(t, cur, b).kids[p])
  {
    hide Chain, Spelled, Covered, Distinct;
    var n := t.free;
    var x := Node(cur, 0, nodes[cur].kids, b);
    assert Chain(nodes, t.kids[p]) && n !in t.kids[p];
    ChainStays(nodes, t.kids[p], n, x);
    ChainStays(nodes[n := x], t.kids[p], cur, nodes[cur].(kids := n));
    if p == cur {
      assert Entry(nodes, t, cur);
      ChainPush(Filling(nodes, n, cur, b), t.kids[p], n);
    }
  }

  lemma FillRepresents(nodes: seq<Node>, t: Trie, cur: int, b: byte)
    requires Valid(t) && Linked(t, cur) && Represents(nodes, t)
    ensures Represents(Filling(nodes, t.free, cur, b), Fill(t, cur, b))
  {
    hide Spelled, Covered, Distinct, Chain, Children;
    var f, n := Fill(t, cur, b), t.free;
    var nodes' := Filling(nodes, n, cur, b);
    forall m | 0 <= m <= END ensures Entry(nodes', f, m) {
      assert Entry(nodes, t, m);
    }
    forall p | 0 <= p <= END ensures Chain(nodes', f.kids[p]) {
      FillChain(nodes, t, cur, b, p);
    }
  }

  /** The predecessor of entry i of the list, or the parent, points past it. */
  function Unlinking(nodes: seq<Node>, p: int, list: seq<int>, i: nat): (nodes': seq<Node>)
    requires |nodes| == END + 1 && 0 <= p <= END && i < |list| && forall j :: 0 <= j < |list| ==> 0 <= list[j] <= END
    ensures |nodes'| == END + 1
  {
    if i > 0 then nodes[list[i - 1] := nodes[list[i - 1]].(sibling := nodes[list[i]].sibling)]
    else nodes[p := nodes[p].(kids := nodes[list[i]].sibling)]
  }

  lemma ReleaseChain(nodes: seq<Node>, f: Trie, me: int, i: nat, r: int)
    requires Filled(f) && Represents(nodes, f) && FIRST <= me < END && 0 <= r <= END
    requires 0 < f.parent[me] < END && i < |f.kids[f.parent[me]]| && f.kids[f.parent[me]][i] == me
    ensures Chain(Unlinking(nodes, f.parent[me], f.kids[f.parent[me]], i), Release(f, me).kids[r])
  {
    hide Chain, Spelled, Covered, Distinct;
    var p := f.parent[me];
    var list := f.kids[p];
    assert Chain(nodes, list) && Distinct(list) && Chain(nodes, f.kids[r]);
    if r == p {
      RemoveAt(list, i);
      if i > 0 {
        ChainCut(nodes, list, list[..i] + list[i + 1..], i);
      } else {
        ChainTail(nodes, list);
        assert list[..i] + list[i + 1..] == list[1..];
        ChainStays(nodes, list[1..], p, nodes[p].(kids := nodes[me].sibling));
      }
    } else if i > 0 {
      var q := list[i - 1];
      assert f.parent[q] == p;
      ChainStays(nodes, f.kids[r], q, nodes[q].(sibling := nodes[me].sibling));
    } else {
      ChainStays(nodes, f.kids[r], p, nodes[p].(kids := nodes[me].sibling));
    }
  }

  lemma ReleaseEntry(nodes: seq<Node>, f: Trie, me: int, i: nat, m: int)
    requires Filled(f) && Represents(nodes, f) && FIRST <= me < END && 0 <= m <= END
    requires 0 < f.parent[me] < END && i < |f.kids[f.parent[me]]| && f.kids[f.parent[me]][i] == me
    ensures Entry(Unlinking(nodes, f.parent[me], f.kids[f.parent[me]], i), Release(f, me), m)
  {
    hide Spelled, Covered, Distinct;
    var p := f.parent[me];
    var list := f.kids[p];
    assert Entry(nodes, f, m) && Entry(nodes, f, p) && Distinct(list) && Chain(nodes, list);
    if m == p {
      RemoveAt(list, i);
      assert Head(Remove(list, me), 0) == if i == 0 then Head(list, 1) else Head(list, 0);
    }
  }

  lemma ReleaseRepresents(nodes: seq<Node>, f: Trie, me: int, i: nat)
    requires Filled(f) && Represents(nodes, f) && FIRST <= me < END
    requires 0 < f.parent[me] < END && i < |f.kids[f.parent[me]]| && f.kids[f.parent[me]][i] == me
    ensures Represents(Unlinking(nodes, f.parent[me], f.kids[f.parent[me]], i), Release(f, me))
  {
    hide Spelled, Covered, Distinct, Chain, Entry;
    var nodes' := Unlinking(nodes, f.parent[me], f.kids[f.parent[me]], i);
    forall m | 0 <= m <= END ensures Entry(nodes', Release(f, me), m) {
      ReleaseEntry(nodes, f, me, i, m);
    }
    forall r | 0 <= r <= END ensures Chain(nodes', Release(f, me).kids[r]) {
      ReleaseChain(nodes, f, me, i, r);
    }
  }
}
