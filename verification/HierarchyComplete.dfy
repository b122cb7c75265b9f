/** When taking the closest ancestor (config/scripts/common/interpreter.py) loses nothing: for
    rules in which no command is accepted both by a parent and by something that may stand
    below that parent, a tree is returned whenever the commands have one. */
module HierarchyComplete {
  import opened Hierarchy

  // ---------------------------------------------------------------- placements

  /** The tree in which command k + 1 is put under ps[k]. */
  function Grown(ps: seq<nat>): (sub: seq<seq<nat>>)
    requires forall k :: 0 <= k < |ps| ==> ps[k] <= k
    ensures |sub| == |ps| + 1 && Downward(sub)
  {
    if ps == [] then [[]]
    else
      var most := Grown(ps[..|ps| - 1]);
      AddedDownward(most, ps[|ps| - 1]);
      Added(most, ps[|ps| - 1])
  }

  /** Each command is put under a command that the one before ends, so that the commands stay in
      the order of the document. */
  predicate InOrder(ps: seq<nat>) {
    && (forall k :: 0 <= k < |ps| ==> ps[k] <= k)
    && forall k :: 0 <= k < |ps| ==> End(Grown(ps[..k]), ps[k]) == k + 1
  }

  /** A placement of all commands under which each has the children that its rule asks for. */
  ghost predicate Placement(rules: seq<Rule>, cmds: seq<string>, ps: seq<nat>)
    requires |rules| > 0 && |cmds| > 0
  {
    && |ps| == |cmds| - 1 && InOrder(ps)
    && forall i :: 0 <= i < |cmds| ==> Done(rules, cmds, Grown(ps), i)
  }

  // ---------------------------------------------------------------- ambiguity

  /** What children are given to: the document or the commands of a name. */
  datatype Parent = Root | Command(name: string)

  function KindOf(cmds: seq<string>, i: nat): Parent
    requires i < |cmds|
  {
    if i == 0 then Root else Command(cmds[i])
  }

  function Rest(rules: seq<Rule>, p: Parent): Option<seq<Pattern>>
    requires |rules| > 0
  {
    if p.Root? then Some(rules[0].children) else Accepts(rules[1..], p.name)
  }

  predicate Names(patterns: seq<Pattern>, cmd: string) {
    exists j :: 0 <= j < |patterns| && patterns[j].name == cmd
  }

  predicate Takes(rules: seq<Rule>, p: Parent, cmd: string)
    requires |rules| > 0
  {
    Rest(rules, p).Some? && Names(Rest(rules, p).value, cmd)
  }

  /** q may stand below p, with k commands in between. */
  ghost predicate Beneath(rules: seq<Rule>, p: Parent, q: Parent, k: nat)
    requires |rules| > 0
    decreases k
  {
    q.Command? &&
      if k == 0 then Takes(rules, p, q.name)
      else exists r :: Beneath(rules, p, r, k - 1) && Takes(rules, r, q.name)
  }

  predicate Distinct(patterns: seq<Pattern>) {
    forall i, j :: 0 <= i < j < |patterns| ==> patterns[i].name != patterns[j].name
  }

  /** No command is accepted by a parent and also by one that may stand below it, and no rule
      names a command twice. */
  ghost predicate Unambiguous(rules: seq<Rule>)
    requires |rules| > 0
  {
    && (forall p :: Rest(rules, p).Some? ==> Distinct(Rest(rules, p).value))
    && forall p, q, k: nat, cmd :: Beneath(rules, p, q, k) && Takes(rules, p, cmd) ==> !Takes(rules, q, cmd)
  }

  // ---------------------------------------------------------------- patterns by name

  lemma {:induction false} TallyNames(patterns: seq<Pattern>, name: string, kind: Kind)
    requires Tally(patterns, name, kind) > 0
    ensures Names(patterns, name)
  {
    var n := |patterns| - 1;
    if Tally(patterns[..n], name, kind) > 0 {
      TallyNames(patterns[..n], name, kind);
      var j :| 0 <= j < n && patterns[..n][j].name == name;
      assert patterns[j].name == name;
    } else {
      assert patterns[n].name == name;
    }
  }

  lemma NamesTally(patterns: seq<Pattern>, j: nat)
    requires j < |patterns|
    ensures var p := patterns[j];
      && (Required(p) ==> Tally(patterns, p.name, Needed) > 0)
      && Tally(patterns, p.name, Single) + Tally(patterns, p.name, Unlimited) > 0
  {
    hide Tally;
    var p := patterns[j];
    TallySplit(patterns, j, p.name, Needed);
    TallySplit(patterns, j, p.name, Single);
    TallySplit(patterns, j, p.name, Unlimited);
    TallyOne(p, p.name, Needed);
    TallyOne(p, p.name, Single);
    TallyOne(p, p.name, Unlimited);
  }

  /** A name that is left was there from the start. */
  lemma LeftNames(patterns: seq<Pattern>, rest: seq<Pattern>, name: string, count: nat)
    requires Left(patterns, rest, name, count) && (Names(rest, name) || count > 0)
    ensures Names(patterns, name)
  {
    hide Tally, Names;
    if Names(rest, name) { NamedTally(rest, name); }
    if Tally(patterns, name, Unlimited) > 0 {
      TallyNames(patterns, name, Unlimited);
    } else {
      TallyNames(patterns, name, Single);
    }
  }

  lemma NamedTally(patterns: seq<Pattern>, name: string)
    requires Names(patterns, name)
    ensures Tally(patterns, name, Single) + Tally(patterns, name, Unlimited) > 0
  {
    hide Tally;
    var j :| 0 <= j < |patterns| && patterns[j].name == name;
    NamesTally(patterns, j);
  }

  /** A name is left as long as more of it is allowed. */
  lemma MoreLeft(patterns: seq<Pattern>, rest: seq<Pattern>, name: string, count: nat, all: nat)
    requires Left(patterns, rest, name, count) && Allowed(patterns, name, all) && count < all
    ensures Names(rest, name)
  {
    hide Tally, Names;
    if Tally(rest, name, Unlimited) > 0 {
      TallyNames(rest, name, Unlimited);
    } else {
      TallyNames(rest, name, Single);
    }
  }

  // ---------------------------------------------------------------- entries

  /** What an entry still requires has not occurred, and its rule requires it. */
  ghost predicate Sharp(rules: seq<Rule>, cmds: seq<string>, sub: seq<seq<nat>>, f: Frame)
    requires |rules| > 0 && f.node < |sub| <= |cmds|
  {
    var c := Children(rules, cmds, f.node);
    && c.Some? && Distinct(f.patterns)
    && forall name :: Tally(f.patterns, name, Needed) > 0
         ==> Tally(c.value, name, Needed) > 0 && Occurs(cmds, sub[f.node], name) == 0
  }

  /** With all the children that its rule asks for, an entry requires nothing more. */
  lemma DoneComplete(rules: seq<Rule>, cmds: seq<string>, sub: seq<seq<nat>>, f: Frame)
    requires |rules| > 0 && f.node < |sub| <= |cmds| && Sharp(rules, cmds, sub, f) && Done(rules, cmds, sub, f.node)
    ensures Complete(f.patterns)
  {
    hide Tally;
    var patterns := Children(rules, cmds, f.node).value;
    forall i | 0 <= i < |f.patterns| ensures !Required(f.patterns[i]) {
      var name := f.patterns[i].name;
      NamesTally(f.patterns, i);
      assert Allowed(patterns, name, Occurs(cmds, sub[f.node], name));
    }
  }

  lemma ConsumedDistinct(patterns: seq<Pattern>, i: nat)
    requires i < |patterns| && Distinct(patterns)
    ensures Distinct(Consumed(patterns, i))
    ensures Tally(Consumed(patterns, i), patterns[i].name, Needed) == 0
  {
    var rest := Consumed(patterns, i);
    if Tally(rest, patterns[i].name, Needed) > 0 { RequiredOf(rest, patterns[i].name); }
  }

  lemma {:induction false} RequiredOf(patterns: seq<Pattern>, name: string)
    requires Tally(patterns, name, Needed) > 0
    ensures exists j :: 0 <= j < |patterns| && patterns[j].name == name && Required(patterns[j])
  {
    var n := |patterns| - 1;
    if Tally(patterns[..n], name, Needed) > 0 {
      RequiredOf(patterns[..n], name);
      var j :| 0 <= j < n && patterns[..n][j].name == name && Required(patterns[..n][j]);
      assert patterns[j].name == name && Required(patterns[j]);
    } else {
      assert patterns[n].name == name && Required(patterns[n]);
    }
  }

  /** Other names are not affected. */
  lemma ConsumedOther(patterns: seq<Pattern>, i: nat, name: string)
    requires i < |patterns| && name != patterns[i].name
    ensures Tally(Consumed(patterns, i), name, Needed) == Tally(patterns, name, Needed)
  {
    hide Tally, Consumed;
    ConsumedTally(patterns, i, name, Needed);
    var p := patterns[i];
    TallyOne(p, name, Needed);
    TallyOne(Pattern(p.name, if p.multip == '+' then '*' else p.multip), name, Needed);
  }

  lemma SharpNext(rules: seq<Rule>, cmds: seq<string>, sub: seq<seq<nat>>, f: Frame, i: nat)
    requires |rules| > 0 && f.node < |sub| < |cmds| && Sharp(rules, cmds, sub, f)
    requires i < |f.patterns| && f.patterns[i].name == cmds[|sub|]
    ensures Sharp(rules, cmds, Added(sub, f.node), Frame(f.node, Consumed(f.patterns, i)))
  {
    hide Consumed, Distinct, Tally;
    var sub' := Added(sub, f.node);
    var rest := Consumed(f.patterns, i);
    ConsumedDistinct(f.patterns, i);
    var patterns := Children(rules, cmds, f.node).value;
    forall name | Tally(rest, name, Needed) > 0
      ensures Tally(patterns, name, Needed) > 0 && Occurs(cmds, sub'[f.node], name) == 0
    {
      ConsumedOther(f.patterns, i, name);
      assert sub'[f.node] == sub[f.node] + [|sub|];
      assert sub'[f.node][..|sub'[f.node]| - 1] == sub[f.node];
    }
  }

  lemma SharpNew(rules: seq<Rule>, cmds: seq<string>, sub: seq<seq<nat>>, j: nat)
    requires |rules| > 0 && j < |sub| <= |cmds| && sub[j] == [] && Unambiguous(rules)
    requires Children(rules, cmds, j).Some?
    ensures Sharp(rules, cmds, sub, Frame(j, Children(rules, cmds, j).value))
  {
    assert Rest(rules, KindOf(cmds, j)) == Children(rules, cmds, j);
    forall name ensures Occurs(cmds, [], name) == 0 {
    }
  }

  // ---------------------------------------------------------------- the stack

  /** What the builder keeps: its stack has all commands that the last one ends and that may
      have children, with nothing required that has occurred. */
  ghost predicate Whole(rules: seq<Rule>, cmds: seq<string>, s: State)
    requires |rules| > 0
  {
    && OnPath(s) && Fitting(rules, cmds, s)
    && (forall k :: 0 <= k < |s.stack| ==> Sharp(rules, cmds, s.sub, s.stack[k]))
    && forall i :: 0 <= i < |s.sub| && End(s.sub, i) == |s.sub| && Children(rules, cmds, i).Some? ==>
         Stacked(s.stack, i)
  }

  lemma LastOccurs(cmds: seq<string>, list: seq<nat>)
    requires list != [] && Last(list) < |cmds|
    ensures Occurs(cmds, list, cmds[Last(list)]) > 0
  {
  }

  /** Each entry accepts the command of the next one. */
  lemma StackTakes(rules: seq<Rule>, cmds: seq<string>, s: State, k: nat)
    requires |rules| > 0 && Whole(rules, cmds, s) && 0 < k < |s.stack|
    ensures s.stack[k - 1].node < s.stack[k].node < |cmds|
    ensures Takes(rules, KindOf(cmds, s.stack[k - 1].node), cmds[s.stack[k].node])
  {
    hide Left, Sharp, Names;
    var f, c := s.stack[k - 1], s.stack[k].node;
    assert Follows(s.sub, f.node, c) && Open(rules, cmds, s.sub, f) && Ordered(s.sub);
    LastOccurs(cmds, s.sub[f.node]);
    LeftNames(Children(rules, cmds, f.node).value, f.patterns, cmds[c], Occurs(cmds, s.sub[f.node], cmds[c]));
  }

  lemma {:induction false} StackBeneath(rules: seq<Rule>, cmds: seq<string>, s: State, a: nat, b: nat)
    requires |rules| > 0 && Whole(rules, cmds, s) && a < b < |s.stack|
    ensures s.stack[a].node < s.stack[b].node < |cmds|
    ensures Beneath(rules, KindOf(cmds, s.stack[a].node), KindOf(cmds, s.stack[b].node), b - a - 1)
    decreases b
  {
    hide Whole, Takes;
    StackTakes(rules, cmds, s, b);
    if a < b - 1 { StackBeneath(rules, cmds, s, a, b - 1); }
  }

  /** The entry that accepts the command is found: those above it neither accept it nor require
      anything. */
  lemma {:induction false} PlaceAt(rules: seq<Rule>, s: State, cmd: string, a: nat)
    requires forall k :: 0 <= k < |s.stack| ==> s.stack[k].node < |s.sub|
    requires a < |s.stack| && Names(s.stack[a].patterns, cmd)
    requires forall b :: a < b < |s.stack| ==> !Names(s.stack[b].patterns, cmd) && Complete(s.stack[b].patterns)
    ensures var f, c := s.stack[a], Accepts(rules, cmd);
      var i := Matching(f.patterns, cmd);
      && i < |f.patterns|
      && var stack := s.stack[..a] + [Frame(f.node, Consumed(f.patterns, i))];
         Place(rules, s, cmd) ==
           Some(State(Added(s.sub, f.node), if c.Some? then stack + [Frame(|s.sub|, c.value)] else stack))
    decreases |s.stack|
  {
    hide Added, Consumed, Accepts, Complete, Place, Matching, Names;
    var top := |s.stack| - 1;
    MatchingNames(s.stack[a].patterns, cmd);
    if a == top {
      PlaceStep(rules, s, cmd);
    } else {
      var popped := State(s.sub, s.stack[..top]);
      PlacePopped(rules, s, cmd);
      assert popped.stack[..a] == s.stack[..a];
      PlaceAt(rules, popped, cmd, a);
    }
  }

  lemma PlacePopped(rules: seq<Rule>, s: State, cmd: string)
    requires s.stack != [] && forall k :: 0 <= k < |s.stack| ==> s.stack[k].node < |s.sub|
    requires var top := s.stack[|s.stack| - 1]; !Names(top.patterns, cmd) && Complete(top.patterns)
    ensures Place(rules, s, cmd) == Place(rules, State(s.sub, s.stack[..|s.stack| - 1]), cmd)
  {
    hide Added, Consumed, Accepts, Complete, Place, Matching, Names;
    PlaceStep(rules, s, cmd);
    MatchingNames(s.stack[|s.stack| - 1].patterns, cmd);
  }

  lemma MatchingNames(patterns: seq<Pattern>, cmd: string)
    ensures Matching(patterns, cmd) < |patterns| <==> Names(patterns, cmd)
  {
    if Names(patterns, cmd) {
      var j :| 0 <= j < |patterns| && patterns[j].name == cmd;
      assert !(j < Matching(patterns, cmd));
    }
  }

  lemma WholeStart(rules: seq<Rule>, cmds: seq<string>)
    requires |rules| > 0 && |cmds| > 0 && Unambiguous(rules)
    ensures Whole(rules, cmds, Start(rules))
  {
    StartOnPath(rules);
    StartFitting(rules, cmds);
    SharpNew(rules, cmds, [[]], 0);
    assert Start(rules).stack[0].node == 0;
  }

  /** The command goes to entry a; t is the state afterwards. */
  ghost predicate Puts(rules: seq<Rule>, cmds: seq<string>, s: State, a: nat, t: State)
    requires |rules| > 0 && |s.sub| < |cmds| && a < |s.stack| && s.stack[a].node < |s.sub|
  {
    var f, c := s.stack[a], Accepts(rules[1..], cmds[|s.sub|]);
    var i := Matching(f.patterns, cmds[|s.sub|]);
    && i < |f.patterns| && t.sub == Added(s.sub, f.node)
    && var stack := s.stack[..a] + [Frame(f.node, Consumed(f.patterns, i))];
       t.stack == if c.Some? then stack + [Frame(|s.sub|, c.value)] else stack
  }

  lemma PutsSharp(rules: seq<Rule>, cmds: seq<string>, s: State, a: nat, t: State, k: nat)
    requires |rules| > 0 && Unambiguous(rules) && Whole(rules, cmds, s) && |s.sub| < |cmds| && a < |s.stack|
    requires Puts(rules, cmds, s, a, t) && k < |t.stack|
    ensures t.stack[k].node < |t.sub| && Sharp(rules, cmds, t.sub, t.stack[k])
  {
    hide Consumed, Sharp, OnPath, Unambiguous;
    var f := s.stack[a];
    AddedShape(s.sub, f.node);
    if k < a {
      NodesUp(s, k, a);
      assert t.stack[k] == s.stack[k];
      SameSharp(rules, cmds, s.sub, t.sub, s.stack[k]);
    } else if k == a {
      SharpNext(rules, cmds, s.sub, f, Matching(f.patterns, cmds[|s.sub|]));
    } else {
      AddedEmpty(s.sub, f.node);
      RootFirst(s);
      SharpNew(rules, cmds, t.sub, |s.sub|);
    }
  }

  lemma SameSharp(rules: seq<Rule>, cmds: seq<string>, sub: seq<seq<nat>>, sub': seq<seq<nat>>, f: Frame)
    requires |rules| > 0 && f.node < |sub| <= |sub'| <= |cmds| && sub'[f.node] == sub[f.node]
    ensures Sharp(rules, cmds, sub, f) ==> Sharp(rules, cmds, sub', f)
  {
  }

  lemma {:induction false} NodesUp(s: State, j: nat, k: nat)
    requires OnPath(s) && j < k < |s.stack|
    ensures s.stack[j].node < s.stack[k].node
    decreases k
  {
    assert Follows(s.sub, s.stack[k - 1].node, s.stack[k].node);
    if j < k - 1 { NodesUp(s, j, k - 1); }
  }

  lemma PutsStacked(rules: seq<Rule>, cmds: seq<string>, s: State, a: nat, t: State, i: nat)
    requires |rules| > 0 && Whole(rules, cmds, s) && |s.sub| < |cmds| && a < |s.stack|
    requires Puts(rules, cmds, s, a, t) && Downward(t.sub)
    requires i < |t.sub| && End(t.sub, i) == |t.sub| && Children(rules, cmds, i).Some?
    ensures Stacked(t.stack, i)
  {
    hide Consumed, Sharp, Fitting;
    var p := s.stack[a].node;
    AddedShape(s.sub, p);
    if i == |s.sub| {
      RootFirst(s);
      assert t.stack[a + 1].node == i;
    } else if i == p {
      assert t.stack[a].node == i;
    } else {
      if i > p || End(s.sub, i) < |s.sub| { EndKept(s.sub, p, i); }
      EndInside(s.sub, i);
      var k :| 0 <= k < |s.stack| && s.stack[k].node == i;
      if k > a { NodesUp(s, a, k); }
      assert t.stack[k].node == i;
    }
  }

  lemma EndInside(sub: seq<seq<nat>>, i: nat)
    requires Downward(sub) && i < |sub|
    ensures End(sub, i) <= |sub|
  {
  }

  lemma WholeNext(rules: seq<Rule>, cmds: seq<string>, s: State, a: nat, t: State)
    requires |rules| > 0 && Unambiguous(rules) && Whole(rules, cmds, s) && |s.sub| < |cmds| && a < |s.stack|
    requires Puts(rules, cmds, s, a, t) && Place(rules[1..], s, cmds[|s.sub|]) == Some(t)
    ensures Whole(rules, cmds, t)
  {
    PlaceOnPath(rules[1..], s, cmds[|s.sub|]);
    PlaceFitting(rules, cmds, s);
    hide Puts, Sharp, Fitting, Unambiguous, Place, End, Follows;
    forall k | 0 <= k < |t.stack| ensures t.stack[k].node < |t.sub| && Sharp(rules, cmds, t.sub, t.stack[k]) {
      PutsSharp(rules, cmds, s, a, t, k);
    }
    forall i | 0 <= i < |t.sub| && End(t.sub, i) == |t.sub| && Children(rules, cmds, i).Some?
      ensures Stacked(t.stack, i)
    {
      PutsStacked(rules, cmds, s, a, t, i);
    }
  }

  // ---------------------------------------------------------------- trees that grow

  lemma GrownNext(ps: seq<nat>, k: nat)
    requires k < |ps| && forall m :: 0 <= m < |ps| ==> ps[m] <= m
    ensures Grown(ps[..k + 1]) == Added(Grown(ps[..k]), ps[k])
  {
    assert ps[..k + 1][..k] == ps[..k];
  }

  /** Children are only added. */
  lemma {:induction false} GrownPrefix(ps: seq<nat>, k: nat, m: nat, i: nat)
    requires i <= k <= m <= |ps| && forall j :: 0 <= j < |ps| ==> ps[j] <= j
    ensures Grown(ps[..k])[i] <= Grown(ps[..m])[i]
    decreases m
  {
    if k < m {
      GrownPrefix(ps, k, m - 1, i);
      GrownNext(ps, m - 1);
    }
  }

  /** A command that has ended gets no more children. */
  lemma {:induction false} Closed(ps: seq<nat>, k: nat, m: nat, i: nat)
    requires InOrder(ps) && i <= k <= m <= |ps| && End(Grown(ps[..k]), i) <= k
    ensures Grown(ps[..m])[i] == Grown(ps[..k])[i] && End(Grown(ps[..m]), i) == End(Grown(ps[..k]), i)
    decreases m
  {
    hide End, Grown;
    if k < m {
      Closed(ps, k, m - 1, i);
      GrownNext(ps, m - 1);
      var sub, p := Grown(ps[..m - 1]), ps[m - 1];
      assert End(sub, p) == m;
      EndKept(sub, p, i);
      AddedShape(sub, p);
    }
  }

  lemma {:induction false} OccursPrefix(cmds: seq<string>, list: seq<nat>, list': seq<nat>, name: string)
    requires list <= list'
    ensures Occurs(cmds, list, name) <= Occurs(cmds, list', name)
    decreases |list'|
  {
    if |list| < |list'| {
      OccursPrefix(cmds, list, list'[..|list'| - 1], name);
    } else {
      assert list == list';
    }
  }

  // ---------------------------------------------------------------- nothing is lost

  /** The tree so far is that of the placement. */
  ghost predicate Following(rules: seq<Rule>, cmds: seq<string>, ps: seq<nat>, s: State, k: nat)
    requires |rules| > 0 && |cmds| > 0
  {
    Placement(rules, cmds, ps) && k <= |ps| && Whole(rules, cmds, s) && s.sub == Grown(ps[..k])
  }

  /** The command that the placement puts the next one under is still on the stack. */
  lemma StillThere(rules: seq<Rule>, cmds: seq<string>, ps: seq<nat>, s: State, k: nat) returns (a: nat)
    requires |rules| > 0 && |cmds| > 0 && Following(rules, cmds, ps, s, k) && k < |ps|
    ensures a < |s.stack| && s.stack[a].node == ps[k] && Names(s.stack[a].patterns, cmds[k + 1])
  {
    hide OnPath, Sharp, Left, Allowed, Names, Grown, Occurs, End;
    var p, c := ps[k], cmds[k + 1];
    OneMore(cmds, ps, k);
    assert End(s.sub, p) == |s.sub|;
    assert Done(rules, cmds, Grown(ps), p);
    a :| 0 <= a < |s.stack| && s.stack[a].node == p;
    assert Open(rules, cmds, s.sub, s.stack[a]);
    var now, all := Occurs(cmds, s.sub[p], c), Occurs(cmds, Grown(ps)[p], c);
    MoreLeft(Children(rules, cmds, p).value, s.stack[a].patterns, c, now, all);
  }

  /** The parent has the next command among its children in the end. */
  lemma OneMore(cmds: seq<string>, ps: seq<nat>, k: nat)
    requires InOrder(ps) && k < |ps| == |cmds| - 1
    ensures var now, all := Grown(ps[..k])[ps[k]], Grown(ps)[ps[k]];
      all != [] && Occurs(cmds, now, cmds[k + 1]) < Occurs(cmds, all, cmds[k + 1])
  {
    hide Grown, End;
    var p := ps[k];
    var now, later, all := Grown(ps[..k])[p], Grown(ps[..k + 1])[p], Grown(ps)[p];
    GrownNext(ps, k);
    GrownPrefix(ps, k + 1, |ps|, p);
    assert ps[..|ps|] == ps;
    assert later == now + [k + 1] && later[..|later| - 1] == now;
    OccursPrefix(cmds, later, all, cmds[k + 1]);
  }

  /** An entry above it has all its children, and does not accept the next one. */
  lemma Passed(rules: seq<Rule>, cmds: seq<string>, ps: seq<nat>, s: State, k: nat, a: nat, b: nat)
    requires |rules| > 0 && |cmds| > 0 && Following(rules, cmds, ps, s, k) && k < |ps| && Unambiguous(rules)
    requires a < b < |s.stack| && s.stack[a].node == ps[k] && Names(s.stack[a].patterns, cmds[k + 1])
    ensures Complete(s.stack[b].patterns) && !Names(s.stack[b].patterns, cmds[k + 1])
  {
    hide Sharp, Left, Names, Complete, Beneath, End, Distinct;
    var f, c := s.stack[b], cmds[k + 1];
    StackBeneath(rules, cmds, s, a, b);
    NodesUp(s, a, b);
    GrownNext(ps, k);
    EndKept(s.sub, ps[k], f.node);
    AddedShape(s.sub, ps[k]);
    assert End(s.sub, f.node) == k + 1;
    Closed(ps, k + 1, |ps|, f.node);
    assert ps[..|ps|] == ps;
    SameDone(rules, cmds, Grown(ps), s.sub, f.node);
    DoneComplete(rules, cmds, s.sub, f);
    EntryTakes(rules, cmds, s, a, c);
    if Names(f.patterns, c) { EntryTakes(rules, cmds, s, b, c); }
  }

  lemma SameDone(rules: seq<Rule>, cmds: seq<string>, sub: seq<seq<nat>>, sub': seq<seq<nat>>, i: nat)
    requires |rules| > 0 && i < |sub| <= |cmds| && i < |sub'| <= |cmds| && sub[i] == sub'[i]
    ensures Done(rules, cmds, sub, i) ==> Done(rules, cmds, sub', i)
  {
  }

  lemma EntryTakes(rules: seq<Rule>, cmds: seq<string>, s: State, k: nat, cmd: string)
    requires |rules| > 0 && Fitting(rules, cmds, s) && k < |s.stack| && Names(s.stack[k].patterns, cmd)
    ensures s.stack[k].node < |cmds| && Takes(rules, KindOf(cmds, s.stack[k].node), cmd)
  {
    hide Left, Names;
    var f := s.stack[k];
    assert Open(rules, cmds, s.sub, f);
    LeftNames(Children(rules, cmds, f.node).value, f.patterns, cmd, Occurs(cmds, s.sub[f.node], cmd));
  }

  lemma {:induction false} BuiltFollows(rules: seq<Rule>, cmds: seq<string>, ps: seq<nat>, k: nat)
    requires |rules| > 0 && |cmds| > 0 && Placement(rules, cmds, ps) && Unambiguous(rules) && k <= |ps|
    ensures Built(rules, cmds, k + 1).Some? && Following(rules, cmds, ps, Built(rules, cmds, k + 1).value, k)
  {
    hide Place, Whole, Placement, Grown, Unambiguous;
    PlacementSize(rules, cmds, ps);
    if k == 0 {
      WholeStart(rules, cmds);
      NothingGrown(ps);
    } else {
      BuiltFollows(rules, cmds, ps, k - 1);
      var s := Built(rules, cmds, k).value;
      var t := PlacedNext(rules, cmds, ps, s, k - 1);
    }
  }

  lemma NothingGrown(ps: seq<nat>)
    ensures ps[..0] == [] && Grown([]) == [[]]
  {
  }

  lemma PlacementSize(rules: seq<Rule>, cmds: seq<string>, ps: seq<nat>)
    requires |rules| > 0 && |cmds| > 0 && Placement(rules, cmds, ps)
    ensures |ps| == |cmds| - 1 && forall k :: 0 <= k < |ps| ==> ps[k] <= k
  {
  }

  lemma PlacedNext(rules: seq<Rule>, cmds: seq<string>, ps: seq<nat>, s: State, k: nat) returns (t: State)
    requires |rules| > 0 && |cmds| > 0 && Following(rules, cmds, ps, s, k) && k < |ps| && Unambiguous(rules)
    ensures |s.sub| == k + 1 < |cmds| && (forall j :: 0 <= j < |s.stack| ==> s.stack[j].node < |s.sub|)
    ensures Place(rules[1..], s, cmds[k + 1]) == Some(t) && Following(rules, cmds, ps, t, k + 1)
  {
    var a := StillThere(rules, cmds, ps, s, k);
    GrownNext(ps, k);
    hide Whole, Unambiguous, InOrder, Done, Place, Consumed, Names, Complete, Added;
    forall b | a < b < |s.stack| ensures !Names(s.stack[b].patterns, cmds[k + 1]) && Complete(s.stack[b].patterns) {
      Passed(rules, cmds, ps, s, k, a, b);
    }
    assert OnPath(s) by { WholeOnPath(rules, cmds, s); }
    PathNodes(s);
    PlaceAt(rules[1..], s, cmds[k + 1], a);
    t := Place(rules[1..], s, cmds[k + 1]).value;
    assert Puts(rules, cmds, s, a, t);
    WholeNext(rules, cmds, s, a, t);
  }

  lemma WholeOnPath(rules: seq<Rule>, cmds: seq<string>, s: State)
    requires |rules| > 0 && Whole(rules, cmds, s)
    ensures OnPath(s)
  {
  }

  /** Whenever the commands have a placement, the builder returns its tree. */
  lemma Completes(rules: seq<Rule>, cmds: seq<string>, ps: seq<nat>)
    requires |rules| > 0 && |cmds| > 0 && Unambiguous(rules) && Placement(rules, cmds, ps)
    ensures var s := Built(rules, cmds, |cmds|); s.Some? && AllComplete(s.value.stack) && s.value.sub == Grown(ps)
  {
    hide Sharp, Done, Unambiguous, Complete, InOrder;
    BuiltFollows(rules, cmds, ps, |ps|);
    assert ps[..|ps|] == ps;
    var s := Built(rules, cmds, |cmds|).value;
    forall k | 0 <= k < |s.stack| ensures Complete(s.stack[k].patterns) {
      DoneComplete(rules, cmds, s.sub, s.stack[k]);
    }
  }

  // ---------------------------------------------------------------- and nothing is made up

  /** Every tree built is that of a placement in document order. */
  lemma {:induction false} BuiltGrown(rules: seq<Rule>, cmds: seq<string>, n: nat) returns (ps: seq<nat>)
    requires |rules| > 0 && 1 <= n <= |cmds| && Built(rules, cmds, n).Some?
    ensures |ps| == n - 1 && InOrder(ps) && Built(rules, cmds, n).value.sub == Grown(ps)
  {
    hide Place, End;
    if n == 1 {
      ps := [];
    } else {
      var most := BuiltGrown(rules, cmds, n - 1);
      var s := Built(rules, cmds, n - 1).value;
      var p := PlacedUnder(rules[1..], s, cmds[n - 1]);
      ps := most + [p];
      InOrderNext(most, p);
    }
  }

  lemma GrownLast(most: seq<nat>, p: nat)
    requires p <= |most| && forall k :: 0 <= k < |most| ==> most[k] <= k
    ensures Grown(most + [p]) == Added(Grown(most), p)
  {
    assert (most + [p])[..|most|] == most;
  }

  lemma InOrderNext(most: seq<nat>, p: nat)
    requires InOrder(most) && p <= |most| && End(Grown(most), p) == |most| + 1
    ensures InOrder(most + [p]) && Grown(most + [p]) == Added(Grown(most), p)
  {
    hide End, Added, Grown;
    var ps := most + [p];
    assert ps[..|most|] == most;
    GrownLast(most, p);
    forall k | 0 <= k < |ps| ensures ps[k] <= k && End(Grown(ps[..k]), ps[k]) == k + 1 {
      if k < |most| { assert ps[..k] == most[..k]; }
    }
  }

  lemma {:induction false} PlacedUnder(rules: seq<Rule>, s: State, cmd: string) returns (p: nat)
    requires OnPath(s) && Place(rules, s, cmd).Some?
    ensures p < |s.sub| && End(s.sub, p) == |s.sub| && Place(rules, s, cmd).value.sub == Added(s.sub, p)
    decreases |s.stack|
  {
    hide OnPath, End, Added, Consumed, Accepts, Complete;
    PathNodes(s);
    var top := |s.stack| - 1;
    if Matching(s.stack[top].patterns, cmd) < |s.stack[top].patterns| {
      p := s.stack[top].node;
      PathEnd(s, top);
    } else {
      PopOnPath(s);
      p := PlacedUnder(rules, State(s.sub, s.stack[..top]), cmd);
    }
  }

  lemma PathEnd(s: State, k: nat)
    requires OnPath(s) && k < |s.stack|
    ensures End(s.sub, s.stack[k].node) == |s.sub|
  {
  }

  /** For unambiguous rules the builder returns a tree exactly when the commands have a placement
      that meets every multiplicity, and it is the only one. */
  lemma NothingLost(rules: seq<Rule>, cmds: seq<string>)
    requires |rules| > 0 && |cmds| > 0 && Unambiguous(rules)
    ensures var s := Built(rules, cmds, |cmds|);
      && (s.Some? && AllComplete(s.value.stack) <==> exists ps :: Placement(rules, cmds, ps))
      && forall ps :: Placement(rules, cmds, ps) ==> s.Some? && s.value.sub == Grown(ps)
  {
    hide Unambiguous, Done, Grown, End;
    var s := Built(rules, cmds, |cmds|);
    forall ps | Placement(rules, cmds, ps)
      ensures s.Some? && AllComplete(s.value.stack) && s.value.sub == Grown(ps)
    {
      Completes(rules, cmds, ps);
    }
    if s.Some? && AllComplete(s.value.stack) {
      TreeIsRight(rules, cmds);
      var ps := BuiltGrown(rules, cmds, |cmds|);
      assert Placement(rules, cmds, ps);
    }
  }

  // ---------------------------------------------------------------- what may be lost

  /** The document needs x itself and takes a, which may have x, too. */
  const AT_ROOT: seq<Pattern> := [Pattern("a", '*'), Pattern("x", '!')]
  const AT_A: seq<Pattern> := [Pattern("x", '?')]
  const RULES: seq<Rule> := [Rule([], AT_ROOT), Rule(["a"], AT_A)]
  const COMMANDS: seq<string> := ["", "a", "x"]

  lemma RulesSay()
    ensures Accepts(RULES[1..], "a") == Some(AT_A) && Accepts(RULES[1..], "x") == None
  {
    assert RULES[1..] == [RULES[1]] && RULES[1].parents == ["a"];
    assert "a"[0] == 'a' && "x"[0] == 'x';
    assert "x" !in ["a"];
    assert RULES[1..][1..] == [];
  }

  /** The builder puts x under a, and then misses one under the document. */
  lemma PutUnderA()
    ensures Built(RULES, COMMANDS, 3) == Some(State([[1], [2], []], [Frame(0, AT_ROOT), Frame(1, [])]))
  {
    hide Accepts, OnPath, Place;
    var s := State([[]], [Frame(0, AT_ROOT)]);
    var t := State([[1], []], [Frame(0, AT_ROOT), Frame(1, AT_A)]);
    assert Built(RULES, COMMANDS, 1) == Some(s);
    PutA(s);
    assert Built(RULES, COMMANDS, 2) == Some(t);
    PutX(t);
  }

  lemma AddedIs(sub: seq<seq<nat>>, p: nat, sub': seq<seq<nat>>)
    requires p < |sub| && |sub'| == |sub| + 1 && sub'[p] == sub[p] + [|sub|] && sub'[|sub|] == []
    requires forall i :: 0 <= i < |sub| && i != p ==> sub'[i] == sub[i]
    ensures Added(sub, p) == sub'
  {
  }

  lemma PutA(s: State)
    requires s == State([[]], [Frame(0, AT_ROOT)])
    ensures Place(RULES[1..], s, "a") == Some(State([[1], []], [Frame(0, AT_ROOT), Frame(1, AT_A)]))
  {
    hide Place, Matching;
    RulesSay();
    Names12();
    PlaceStep(RULES[1..], s, "a");
    assert s.stack[..0] == [] && Consumed(AT_ROOT, 0) == AT_ROOT;
    assert [] + [Frame(0, AT_ROOT)] + [Frame(1, AT_A)] == [Frame(0, AT_ROOT), Frame(1, AT_A)];
    assert Added([[]], 0) == [[1], []] by { AddedIs([[]], 0, [[1], []]); }
  }

  lemma PutX(t: State)
    requires t == State([[1], []], [Frame(0, AT_ROOT), Frame(1, AT_A)])
    ensures Place(RULES[1..], t, "x") == Some(State([[1], [2], []], [Frame(0, AT_ROOT), Frame(1, [])]))
  {
    hide Place, Matching;
    RulesSay();
    Names12();
    PlaceStep(RULES[1..], t, "x");
    assert t.stack[..1] == [Frame(0, AT_ROOT)] && Consumed(AT_A, 0) == [];
    assert [Frame(0, AT_ROOT)] + [Frame(1, [])] == [Frame(0, AT_ROOT), Frame(1, [])];
    assert Added([[1], []], 1) == [[1], [2], []] by { AddedIs([[1], []], 1, [[1], [2], []]); }
  }

  lemma Names12()
    ensures Matching(AT_ROOT, "a") == 0 && Matching(AT_A, "x") == 0 && "a" != "x"
  {
    assert "a"[0] == 'a' && "x"[0] == 'x';
  }

  lemma Allowed12(name: string)
    ensures Allowed(AT_ROOT, name, Occurs(COMMANDS, [1, 2], name)) && Allowed(AT_A, name, Occurs(COMMANDS, [], name))
  {
    hide Tally, Occurs;
    assert AT_ROOT == [AT_ROOT[0]] + [AT_ROOT[1]];
    forall kind ensures Tally(AT_ROOT, name, kind) == Tally([AT_ROOT[0]], name, kind)
      + Tally([AT_ROOT[1]], name, kind) {
      TallyConcat([AT_ROOT[0]], [AT_ROOT[1]], name, kind);
    }
    TallyOne(AT_ROOT[0], name, Needed);
    TallyOne(AT_ROOT[1], name, Needed);
    TallyOne(AT_ROOT[0], name, Single);
    TallyOne(AT_ROOT[1], name, Single);
    TallyOne(AT_ROOT[0], name, Unlimited);
    TallyOne(AT_A[0], name, Needed);
    Occurs12(name);
    Names12();
  }

  lemma Occurs12(name: string)
    ensures Occurs(COMMANDS, [], name) == 0
    ensures Occurs(COMMANDS, [1, 2], name) == (if name == "a" then 1 else 0) + (if name == "x" then 1 else 0)
  {
    assert [1, 2][..1] == [1] && [1][..0] == [];
    assert Occurs(COMMANDS, [1], name) == if name == "a" then 1 else 0;
  }

  lemma BothUnderRoot()
    ensures InOrder([0, 0]) && Grown([0, 0]) == [[1, 2], [], []]
  {
    assert [0, 0][..0] == [] && [0, 0][..1] == [0] && [0][..0] == [];
    assert Grown([]) == [[]];
    AddedIs([[]], 0, [[1], []]);
    AddedIs([[1], []], 0, [[1, 2], [], []]);
    assert Grown([0]) == [[1], []];
  }

  lemma NotUnambiguous()
    ensures !Unambiguous(RULES)
  {
    RulesSay();
    hide Accepts;
    assert AT_ROOT[0].name == "a" && AT_ROOT[1].name == "x" && AT_A[0].name == "x";
    assert Takes(RULES, Root, "a") && Takes(RULES, Root, "x") && Takes(RULES, Command("a"), "x");
    assert Beneath(RULES, Root, Command("a"), 0);
  }

  lemma MissingX()
    ensures !AllComplete([Frame(0, AT_ROOT), Frame(1, [])])
  {
    assert Required(AT_ROOT[1]);
    assert !Complete([Frame(0, AT_ROOT), Frame(1, [])][0].patterns);
  }

  /** With ambiguous rules the closest ancestor may be the wrong one: the commands have a
      placement, and the builder fails. */
  lemma ClosestFails()
    ensures Placement(RULES, COMMANDS, [0, 0])
    ensures var s := Built(RULES, COMMANDS, 3); s.Some? && !AllComplete(s.value.stack)
    ensures !Unambiguous(RULES)
  {
    hide InOrder, Grown, Built, Accepts, Allowed, AllComplete, Unambiguous, Occurs;
    PutUnderA();
    MissingX();
    NotUnambiguous();
    BothUnderRoot();
    RulesSay();
    forall name ensures Allowed(AT_ROOT, name, Occurs(COMMANDS, [1, 2], name)) { Allowed12(name); }
    forall name ensures Allowed(AT_A, name, Occurs(COMMANDS, [], name)) { Allowed12(name); }
  }

  // ---------------------------------------------------------------- the rules of the registers

  /** Rules are unambiguous if parents can be ranked: every command ranks above the parents that
      accept it, and these are all of one rank. */
  lemma RankedUnambiguous(rules: seq<Rule>, rank: Parent -> int)
    requires |rules| > 0 && forall p :: Rest(rules, p).Some? ==> Distinct(Rest(rules, p).value)
    requires forall p, cmd :: Takes(rules, p, cmd) ==> rank(p) < rank(Command(cmd))
    requires forall p, q, cmd :: Takes(rules, p, cmd) && Takes(rules, q, cmd) ==> rank(p) == rank(q)
    ensures Unambiguous(rules)
  {
    hide Takes, Distinct;
    forall p, q, k: nat, cmd | Beneath(rules, p, q, k) && Takes(rules, p, cmd) ensures !Takes(rules, q, cmd) {
      RankRises(rules, rank, p, q, k);
    }
  }

  lemma {:induction false} RankRises(rules: seq<Rule>, rank: Parent -> int, p: Parent, q: Parent, k: nat)
    requires |rules| > 0 && forall p, cmd :: Takes(rules, p, cmd) ==> rank(p) < rank(Command(cmd))
    requires Beneath(rules, p, q, k)
    ensures rank(p) < rank(q)
    decreases k
  {
    hide Takes;
    if k == 0 {
      assert Takes(rules, p, q.name);
    } else {
      var r :| Beneath(rules, p, r, k - 1) && Takes(rules, r, q.name);
      RankRises(rules, rank, p, r, k - 1);
    }
  }

  function Many(name: string): Pattern {
    Pattern(name, '*')
  }

  function AtMostOnce(name: string): Pattern {
    Pattern(name, '?')
  }

  /** The hierarchy that config/scripts/cregs/registers.py asks for. */
  const REGISTERS: seq<Rule> := [
    Rule([], [Many("contextInterface"), Many("globalInterface"), Many("register"), Many("registergen"),
              Many("perfCounter")]),
    Rule(["contextInterface", "globalInterface"], [Many("ifaceGroup")]),
    Rule(["ifaceGroup"], [Many("ifaceSubGroup")]),
    Rule(["ifaceSubGroup"], [Many("ifaceIn"), Many("ifaceOut"), Many("ifaceInCtxt"), Many("ifaceOutCtxt")]),
    Rule(["register", "registergen"], [Many("field")]),
    Rule(["perfCounter"], [AtMostOnce("declaration"), Pattern("implementation", '!')]),
    Rule(["field"], [AtMostOnce("reset"), AtMostOnce("signed"), Many("id"), AtMostOnce("declaration"),
                     Many("connect"), Pattern("implementation", '!'), AtMostOnce("resetImplementation"),
                     AtMostOnce("finally")]),
    Rule(["declaration"], [Many("declRegister"), Many("declVariable"), Many("declConstant")])]

  // Lengths and first letters are enough to tell the names apart that have to be.

  function Rank(p: Parent): int {
    if p.Root? then 0
    else
      var n := p.name;
      if |n| == 16 || |n| == 15 then 1
      else if |n| == 8 && n[0] == 'r' then 1
      else if |n| == 11 && n[0] == 'r' then 1
      else if |n| == 11 && n[0] == 'p' then 2
      else if |n| == 10 then 2
      else if |n| == 5 && n[0] == 'f' then 2
      else if |n| == 13 then 3
      else if |n| == 11 && n[0] == 'd' then 3
      else 4
  }

  /** The rank of the parents that accept a command. */
  function TakerRank(n: string): int {
    if |n| == 16 || |n| == 15 || (|n| == 8 && n[0] == 'r') || (|n| == 11 && (n[0] == 'r' || n[0] == 'p')) then 0
    else if |n| == 10 || (|n| == 5 && n[0] == 'f') then 1
    else if |n| == 12 && n[0] == 'd' then 3
    else if |n| > 0 && n[0] == 'i' && (|n| == 7 || |n| == 8 || |n| == 11 || |n| == 12) then 3
    else 2
  }

  lemma {:induction false} AcceptsRule(rules: seq<Rule>, cmd: string) returns (j: nat)
    requires Accepts(rules, cmd).Some?
    ensures j < |rules| && cmd in rules[j].parents && Accepts(rules, cmd).value == rules[j].children
  {
    if cmd in rules[0].parents {
      j := 0;
    } else {
      j := AcceptsRule(rules[1..], cmd);
      j := j + 1;
    }
  }

  /** Under parents of rank r the commands are those that they accept, and rank higher. */
  predicate NameRanked(n: string, r: int) {
    TakerRank(n) == r && r < Rank(Command(n))
  }

  ghost predicate RuleRanked(rule: Rule, r: int) {
    && Distinct(rule.children)
    && (forall i :: 0 <= i < |rule.parents| ==> Rank(Command(rule.parents[i])) == r)
    && forall i :: 0 <= i < |rule.children| ==> NameRanked(rule.children[i].name, r)
  }

  lemma RootRanked()
    ensures RuleRanked(REGISTERS[0], 0)
  {
    assert "registergen"[0] == 'r' && "perfCounter"[0] == 'p' && "register"[0] == 'r';
  }

  lemma InterfaceRanked()
    ensures RuleRanked(REGISTERS[1], 1)
  {
  }

  lemma GroupRanked()
    ensures RuleRanked(REGISTERS[2], 2)
  {
  }

  lemma SubGroupRanked()
    ensures RuleRanked(REGISTERS[3], 3)
  {
    assert "ifaceIn"[0] == 'i' && "ifaceOut"[0] == 'i' && "ifaceInCtxt"[0] == 'i' && "ifaceOutCtxt"[0] == 'i';
  }

  lemma RegisterRanked()
    ensures RuleRanked(REGISTERS[4], 1)
  {
    assert "register"[0] == 'r' && "registergen"[0] == 'r' && "field"[0] == 'f';
  }

  lemma CounterRanked()
    ensures RuleRanked(REGISTERS[5], 2)
  {
    assert "perfCounter"[0] == 'p' && "declaration"[0] == 'd';
  }

  lemma FieldRanked()
    ensures RuleRanked(REGISTERS[6], 2)
  {
    FieldDistinct();
    hide Distinct;
    assert "field"[0] == 'f' && "reset"[0] == 'r' && "declaration"[0] == 'd';
  }

  lemma FieldDistinct()
    ensures Distinct(REGISTERS[6].children)
  {
    assert "reset"[0] == 'r' && "connect"[0] == 'c' && "finally"[0] == 'f';
  }

  lemma DeclarationRanked()
    ensures RuleRanked(REGISTERS[7], 3)
  {
    assert "declaration"[0] == 'd' && "declRegister"[0] == 'd' && "declVariable"[0] == 'd' && "declConstant"[0] == 'd';
    assert "declRegister"[4] == 'R' && "declVariable"[4] == 'V' && "declConstant"[4] == 'C';
  }

  lemma AllRanked(j: nat) returns (r: int)
    requires j < |REGISTERS|
    ensures RuleRanked(REGISTERS[j], r) && (j == 0 ==> r == 0)
  {
    hide RuleRanked;
    RootRanked();
    InterfaceRanked();
    GroupRanked();
    SubGroupRanked();
    RegisterRanked();
    CounterRanked();
    FieldRanked();
    DeclarationRanked();
    r := if j == 0 then 0 else if j == 1 || j == 4 then 1 else if j == 3 || j == 7 then 3 else 2;
  }

  lemma RestRanked(p: Parent)
    requires Rest(REGISTERS, p).Some?
    ensures Distinct(Rest(REGISTERS, p).value)
    ensures forall cmd :: Takes(REGISTERS, p, cmd) ==> NameRanked(cmd, Rank(p))
  {
    hide Rank, Accepts, Distinct, NameRanked;
    var j, r;
    if p.Root? {
      j := 0;
      r := AllRanked(0);
      RankOfRoot();
    } else {
      j := AcceptsRule(REGISTERS[1..], p.name);
      j := j + 1;
      r := AllRanked(j);
      var i :| 0 <= i < |REGISTERS[j].parents| && REGISTERS[j].parents[i] == p.name;
      assert Rank(Command(REGISTERS[j].parents[i])) == r;
    }
    assert Rest(REGISTERS, p).value == REGISTERS[j].children;
  }

  lemma RankOfRoot()
    ensures Rank(Root) == 0
  {
  }

  /** So for the commands of a register file nothing is lost. */
  lemma RegistersUnambiguous()
    ensures Unambiguous(REGISTERS)
  {
    hide Unambiguous, Rest, Rank, TakerRank, Distinct, Names;
    forall p | Rest(REGISTERS, p).Some? ensures Distinct(Rest(REGISTERS, p).value) { RestRanked(p); }
    forall p, cmd | Takes(REGISTERS, p, cmd) ensures NameRanked(cmd, Rank(p)) { RestRanked(p); }
    RankedUnambiguous(REGISTERS, p => Rank(p));
  }
}
