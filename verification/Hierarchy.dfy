/** The hierarchy of a command file (config/scripts/common/interpreter.py): from the list of
    commands and the allowed children of each, the tree that has them in order. */
module Hierarchy {

  datatype Option<+T> = None | Some(value: T)

  /** A child command and how often it may occur: ? ! + or any other character for *. */
  datatype Pattern = Pattern(name: string, multip: char)

  /** One line of the specification: parent commands and the children they accept. */
  datatype Rule = Rule(parents: seq<string>, children: seq<Pattern>)

  /** A stack entry: a command that may get more children, and what it still accepts. */
  datatype Frame = Frame(node: nat, patterns: seq<Pattern>)

  /** The child lists by command, and the stack. */
  datatype State = State(sub: seq<seq<nat>>, stack: seq<Frame>)

  // ---------------------------------------------------------------- the algorithm

  /** The first pattern for a command. */
  function Matching(patterns: seq<Pattern>, cmd: string): (i: nat)
    ensures i <= |patterns| && (i < |patterns| ==> patterns[i].name == cmd)
    ensures forall j :: 0 <= j < i ==> patterns[j].name != cmd
  {
    if patterns == [] || patterns[0].name == cmd then 0 else 1 + Matching(patterns[1..], cmd)
  }

  /** The patterns after one occurrence. */
  function Consumed(patterns: seq<Pattern>, i: nat): seq<Pattern>
    requires i < |patterns|
  {
    var m := patterns[i].multip;
    if m == '?' || m == '!' then patterns[..i] + patterns[i + 1..]
    else if m == '+' then patterns[i := Pattern(patterns[i].name, '*')]
    else patterns
  }

  predicate Required(p: Pattern) {
    p.multip == '+' || p.multip == '!'
  }

  /** The requirements of an entry are met. */
  predicate Complete(patterns: seq<Pattern>) {
    forall i :: 0 <= i < |patterns| ==> !Required(patterns[i])
  }

  /** What a command accepts: the first rule for it. */
  function Accepts(rules: seq<Rule>, cmd: string): Option<seq<Pattern>> {
    if rules == [] then None
    else if cmd in rules[0].parents then Some(rules[0].children)
    else Accepts(rules[1..], cmd)
  }

  /** One more command, as the last child of p. */
  function Added(sub: seq<seq<nat>>, p: nat): seq<seq<nat>>
    requires p < |sub|
  {
    sub[p := sub[p] + [|sub|]] + [[]]
  }

  /** Puts the next command under the closest entry that accepts it; entries on the way must
      be complete. */
  function Place(rules: seq<Rule>, s: State, cmd: string): Option<State>
    requires forall k :: 0 <= k < |s.stack| ==> s.stack[k].node < |s.sub|
    decreases |s.stack|
  {
    if s.stack == [] then None
    else
      var top := s.stack[|s.stack| - 1];
      var below := s.stack[..|s.stack| - 1];
      var i := Matching(top.patterns, cmd);
      if i < |top.patterns| then
        var stack := below + [Frame(top.node, Consumed(top.patterns, i))];
        var a := Accepts(rules, cmd);
        Some(State(Added(s.sub, top.node), if a.Some? then stack + [Frame(|s.sub|, a.value)] else stack))
      else if Complete(top.patterns) then Place(rules, State(s.sub, below), cmd)
      else None
  }

  // ---------------------------------------------------------------- the tree

  function Last(l: seq<nat>): nat
    requires |l| > 0
  {
    l[|l| - 1]
  }

  /** Children come after their parent. */
  predicate Downward(sub: seq<seq<nat>>) {
    forall i, k :: 0 <= i < |sub| && 0 <= k < |sub[i]| ==> i < sub[i][k] < |sub|
  }

  /** The number after the last descendant. */
  function End(sub: seq<seq<nat>>, i: nat): (e: nat)
    requires Downward(sub) && i < |sub|
    ensures i < e <= |sub|
    decreases |sub| - i
  {
    if sub[i] == [] then i + 1 else End(sub, Last(sub[i]))
  }

  /** The first child follows its parent and every other one the descendants of the one before. */
  ghost predicate Ordered(sub: seq<seq<nat>>) {
    && Downward(sub)
    && (forall i :: 0 <= i < |sub| && sub[i] != [] ==> sub[i][0] == i + 1)
    && (forall i, k :: 0 <= i < |sub| && 0 < k < |sub[i]| ==> sub[i][k] == End(sub, sub[i][k - 1]))
  }

  /** The commands below i in document order, i first. */
  function Preorder(sub: seq<seq<nat>>, i: nat): seq<nat>
    requires Downward(sub) && i < |sub|
    decreases |sub| - i, 1, 0
  {
    [i] + Preorders(sub, i, sub[i])
  }

  function Preorders(sub: seq<seq<nat>>, i: nat, list: seq<nat>): seq<nat>
    requires Downward(sub) && i < |sub| && forall k :: 0 <= k < |list| ==> i < list[k] < |sub|
    decreases |sub| - i, 0, |list|
  {
    if list == [] then [] else Preorders(sub, i, list[..|list| - 1]) + Preorder(sub, list[|list| - 1])
  }

  function Range(a: nat, b: nat): (r: seq<nat>)
    requires a <= b
    ensures |r| == b - a && forall k :: 0 <= k < |r| ==> r[k] == a + k
    decreases b - a
  {
    if a == b then [] else [a] + Range(a + 1, b)
  }

  lemma RangeConcat(a: nat, b: nat, c: nat)
    requires a <= b <= c
    ensures Range(a, b) + Range(b, c) == Range(a, c)
  {
  }

  /** The preorder walk of an ordered tree counts up. */
  lemma {:induction false} PreorderCounts(sub: seq<seq<nat>>, i: nat)
    requires Ordered(sub) && i < |sub|
    ensures Preorder(sub, i) == Range(i, End(sub, i))
    decreases |sub| - i, 1, 0
  {
    var list := sub[i];
    if list == [] {
      assert Range(i, i + 1) == [i];
    } else {
      PreordersCount(sub, i, |list|);
      assert list[..|list|] == list;
      RangeConcat(i, i + 1, End(sub, i));
    }
  }

  lemma {:induction false} PreordersCount(sub: seq<seq<nat>>, i: nat, k: nat)
    requires Ordered(sub) && i < |sub| && 0 < k <= |sub[i]|
    ensures Preorders(sub, i, sub[i][..k]) == Range(i + 1, End(sub, sub[i][k - 1]))
    decreases |sub| - i, 0, k
  {
    var list := sub[i][..k];
    PreorderCounts(sub, sub[i][k - 1]);
    assert list[..k - 1] == sub[i][..k - 1];
    if k > 1 {
      PreordersCount(sub, i, k - 1);
      RangeConcat(i + 1, sub[i][k - 1], End(sub, sub[i][k - 1]));
    }
  }

  // ---------------------------------------------------------------- adding a command

  lemma AddedDownward(sub: seq<seq<nat>>, p: nat)
    requires Downward(sub) && p < |sub|
    ensures Downward(Added(sub, p))
  {
  }

  /** Only entries that ended with the last command end later now. */
  lemma {:induction false} EndKept(sub: seq<seq<nat>>, p: nat, i: nat)
    requires Downward(sub) && p < |sub| && i < |sub| && (p < i || End(sub, i) < End(sub, p))
    ensures Downward(Added(sub, p)) && End(Added(sub, p), i) == End(sub, i)
    decreases |sub| - i
  {
    AddedDownward(sub, p);
    if i == p {
    } else if sub[i] != [] {
      EndKept(sub, p, Last(sub[i]));
    }
  }

  lemma AddedEnd(sub: seq<seq<nat>>, p: nat)
    requires Downward(sub) && p < |sub|
    ensures Downward(Added(sub, p)) && End(Added(sub, p), p) == End(Added(sub, p), |sub|) == |sub| + 1
  {
    AddedDownward(sub, p);
  }

  lemma AddedOrdered(sub: seq<seq<nat>>, p: nat)
    requires Ordered(sub) && p < |sub| && End(sub, p) == |sub|
    ensures Ordered(Added(sub, p))
  {
    AddedDownward(sub, p);
    var sub' := Added(sub, p);
    forall i, k | 0 <= i < |sub'| && 0 < k < |sub'[i]| ensures sub'[i][k] == End(sub', sub'[i][k - 1]) {
      AddedNext(sub, p, i, k);
    }
  }

  lemma AddedNext(sub: seq<seq<nat>>, p: nat, i: nat, k: nat)
    requires Ordered(sub) && p < |sub| && End(sub, p) == |sub|
    requires i < |sub| && 0 < k < |Added(sub, p)[i]|
    ensures Downward(Added(sub, p)) && Added(sub, p)[i][k - 1] < |sub|
    ensures Added(sub, p)[i][k] == End(Added(sub, p), Added(sub, p)[i][k - 1])
  {
    AddedDownward(sub, p);
    var c := Added(sub, p)[i][k - 1];
    if i == p && k == |sub[p]| {
      EndKept(sub, p, c);
    } else {
      assert sub[i][k] == End(sub, c) < |sub|;
      EndKept(sub, p, c);
    }
  }

  // ---------------------------------------------------------------- what the builder keeps

  /** c is the last child of p. */
  predicate Follows(sub: seq<seq<nat>>, p: nat, c: nat) {
    p < |sub| && sub[p] != [] && c == Last(sub[p])
  }

  /** The stack is a path from the root along last children, and ends with the last command. */
  ghost predicate OnPath(s: State) {
    && Ordered(s.sub) && |s.sub| > 0 && End(s.sub, 0) == |s.sub|
    && (forall k :: 0 <= k < |s.stack| ==> s.stack[k].node < |s.sub| && End(s.sub, s.stack[k].node) == |s.sub|)
    && (forall k :: 0 < k < |s.stack| ==> Follows(s.sub, s.stack[k - 1].node, s.stack[k].node))
    && (s.stack != [] ==> s.stack[0].node == 0)
  }

  /** Every entry of the stack ends with the command just added to its top. */
  lemma {:induction false} PathEnds(s: State, k: nat)
    requires OnPath(s) && k < |s.stack|
    ensures var p := s.stack[|s.stack| - 1].node; var sub := Added(s.sub, p);
      Downward(sub) && End(sub, s.stack[k].node) == |sub| && s.stack[k].node <= p
    decreases |s.stack| - k
  {
    var p := s.stack[|s.stack| - 1].node;
    AddedDownward(s.sub, p);
    AddedEnd(s.sub, p);
    if k + 1 < |s.stack| {
      PathEnds(s, k + 1);
      assert Follows(s.sub, s.stack[k].node, s.stack[k + 1].node);
    }
  }

  lemma PopOnPath(s: State)
    requires OnPath(s) && s.stack != []
    ensures OnPath(State(s.sub, s.stack[..|s.stack| - 1]))
  {
  }

  lemma TopOnPath(s: State, patterns: seq<Pattern>)
    requires OnPath(s) && s.stack != []
    ensures var top := s.stack[|s.stack| - 1];
      OnPath(State(Added(s.sub, top.node), s.stack[..|s.stack| - 1] + [Frame(top.node, patterns)]))
  {
    hide Ordered, End, Added;
    var n := |s.stack|;
    var top := s.stack[n - 1];
    AddedOrdered(s.sub, top.node);
    PathEnds(s, 0);
    var t := State(Added(s.sub, top.node), s.stack[..n - 1] + [Frame(top.node, patterns)]);
    forall k | 0 <= k < n ensures t.stack[k].node < |t.sub| && End(t.sub, t.stack[k].node) == |t.sub| {
      PathEnds(s, k);
      AddedShape(s.sub, top.node);
    }
    forall k | 0 < k < n ensures Follows(t.sub, t.stack[k - 1].node, t.stack[k].node) {
      assert Follows(s.sub, s.stack[k - 1].node, s.stack[k].node);
      PathBelow(s, k - 1);
      AddedShape(s.sub, top.node);
    }
    AddedShape(s.sub, top.node);
  }

  lemma AddedShape(sub: seq<seq<nat>>, p: nat)
    requires p < |sub|
    ensures |Added(sub, p)| == |sub| + 1 && Follows(Added(sub, p), p, |sub|)
    ensures forall i :: 0 <= i < |sub| && i != p ==> Added(sub, p)[i] == sub[i]
  {
  }

  /** The entries below the top come before it. */
  lemma {:induction false} PathBelow(s: State, k: nat)
    requires OnPath(s) && k + 1 < |s.stack|
    ensures s.stack[k].node < s.stack[|s.stack| - 1].node
    decreases |s.stack| - k
  {
    assert Follows(s.sub, s.stack[k].node, s.stack[k + 1].node);
    assert s.stack[k].node < s.stack[k + 1].node;
    if k + 2 < |s.stack| { PathBelow(s, k + 1); }
  }

  /** A new entry for the command that has just been added to the top. */
  lemma PushOnPath(s: State, patterns: seq<Pattern>)
    requires OnPath(s) && s.stack != [] && 0 < |s.sub| && Follows(s.sub, s.stack[|s.stack| - 1].node, |s.sub| - 1)
    ensures OnPath(State(s.sub, s.stack + [Frame(|s.sub| - 1, patterns)]))
  {
    assert End(s.sub, |s.sub| - 1) == |s.sub|;
  }

  lemma {:induction false} PlaceOnPath(rules: seq<Rule>, s: State, cmd: string)
    requires OnPath(s) && Place(rules, s, cmd).Some?
    ensures var t := Place(rules, s, cmd).value; OnPath(t) && |t.sub| == |s.sub| + 1
    decreases |s.stack|
  {
    hide OnPath, Consumed, Accepts;
    PathNodes(s);
    var n := |s.stack|;
    var top := s.stack[n - 1];
    var i := Matching(top.patterns, cmd);
    if i < |top.patterns| {
      var patterns := Consumed(top.patterns, i);
      TopOnPath(s, patterns);
      AddedShape(s.sub, top.node);
      var t := State(Added(s.sub, top.node), s.stack[..n - 1] + [Frame(top.node, patterns)]);
      var a := Accepts(rules, cmd);
      if a.Some? { PushOnPath(t, a.value); }
    } else {
      PopOnPath(s);
      PlaceOnPath(rules, State(s.sub, s.stack[..n - 1]), cmd);
    }
  }

  lemma PathNodes(s: State)
    requires OnPath(s)
    ensures forall k :: 0 <= k < |s.stack| ==> s.stack[k].node < |s.sub|
  {
  }

  // ---------------------------------------------------------------- multiplicities

  datatype Kind = Needed | Single | Unlimited

  predicate Is(p: Pattern, kind: Kind) {
    match kind
    case Needed => Required(p)
    case Single => p.multip == '?' || p.multip == '!'
    case Unlimited => p.multip != '?' && p.multip != '!'
  }

  /** How many patterns of a kind there are for a name. */
  function Tally(patterns: seq<Pattern>, name: string, kind: Kind): nat {
    if patterns == [] then 0
    else
      var p := patterns[|patterns| - 1];
      Tally(patterns[..|patterns| - 1], name, kind) + if p.name == name && Is(p, kind) then 1 else 0
  }

  lemma {:induction false} TallyConcat(a: seq<Pattern>, b: seq<Pattern>, name: string, kind: Kind)
    ensures Tally(a + b, name, kind) == Tally(a, name, kind) + Tally(b, name, kind)
    decreases |b|
  {
    if b == [] {
      assert a + b == a;
    } else {
      TallyConcat(a, b[..|b| - 1], name, kind);
      assert (a + b)[..|a + b| - 1] == a + b[..|b| - 1];
    }
  }

  lemma TallyOne(p: Pattern, name: string, kind: Kind)
    ensures Tally([p], name, kind) == if p.name == name && Is(p, kind) then 1 else 0
  {
    assert [p][..0] == [];
  }

  lemma TallySplit(patterns: seq<Pattern>, i: nat, name: string, kind: Kind)
    requires i < |patterns|
    ensures Tally(patterns, name, kind)
      == Tally(patterns[..i], name, kind) + Tally([patterns[i]], name, kind) + Tally(patterns[i + 1..], name, kind)
  {
    hide Tally;
    TallyConcat(patterns[..i], [patterns[i]], name, kind);
    TallyConcat(patterns[..i] + [patterns[i]], patterns[i + 1..], name, kind);
    assert patterns[..i] + [patterns[i]] + patterns[i + 1..] == patterns;
  }

  lemma ConsumedTally(patterns: seq<Pattern>, i: nat, name: string, kind: Kind)
    requires i < |patterns|
    ensures Tally(Consumed(patterns, i), name, kind) == Tally(patterns, name, kind)
      - Tally([patterns[i]], name, kind)
      + (if Is(patterns[i], Single) then 0
         else Tally([Pattern(patterns[i].name, if patterns[i].multip == '+' then '*' else patterns[i].multip)],
                    name, kind))
  {
    hide Tally;
    var p := patterns[i];
    TallySplit(patterns, i, name, kind);
    if Is(p, Single) {
      TallyConcat(patterns[..i], patterns[i + 1..], name, kind);
    } else {
      var q := Pattern(p.name, if p.multip == '+' then '*' else p.multip);
      assert Consumed(patterns, i) == patterns[i := q];
      TallySplit(patterns[i := q], i, name, kind);
      assert patterns[i := q][..i] == patterns[..i] && patterns[i := q][i + 1..] == patterns[i + 1..];
    }
  }

  lemma {:induction false} CompleteTally(patterns: seq<Pattern>, name: string)
    requires Complete(patterns)
    ensures Tally(patterns, name, Needed) == 0
  {
    if patterns != [] { CompleteTally(patterns[..|patterns| - 1], name); }
  }

  /** How often a name occurs in a list of commands. */
  function Occurs(cmds: seq<string>, list: seq<nat>, name: string): nat {
    if list == [] then 0
    else
      var c := list[|list| - 1];
      Occurs(cmds, list[..|list| - 1], name) + if c < |cmds| && cmds[c] == name then 1 else 0
  }

  /** The number of children of a name is what the patterns allow. */
  predicate Allowed(patterns: seq<Pattern>, name: string, count: nat) {
    && Tally(patterns, name, Needed) <= count
    && (Tally(patterns, name, Unlimited) == 0 ==> count <= Tally(patterns, name, Single))
  }

  /** What is left of the patterns after a number of occurrences of a name. */
  predicate Left(patterns: seq<Pattern>, rest: seq<Pattern>, name: string, count: nat) {
    && Tally(patterns, name, Needed) <= count + Tally(rest, name, Needed)
    && (Tally(patterns, name, Unlimited) == 0 <==> Tally(rest, name, Unlimited) == 0)
    && (Tally(patterns, name, Unlimited) == 0 ==> count + Tally(rest, name, Single) == Tally(patterns, name, Single))
  }

  /** One more occurrence. */
  lemma LeftNext(patterns: seq<Pattern>, rest: seq<Pattern>, name: string, count: nat, i: nat)
    requires Left(patterns, rest, name, count) && i < |rest|
    ensures Left(patterns, Consumed(rest, i), name, count + if rest[i].name == name then 1 else 0)
  {
    hide Tally;
    var p := rest[i];
    var q := Pattern(p.name, if p.multip == '+' then '*' else p.multip);
    ConsumedTally(rest, i, name, Needed);
    ConsumedTally(rest, i, name, Single);
    ConsumedTally(rest, i, name, Unlimited);
    TallyOne(p, name, Needed);
    TallyOne(p, name, Single);
    TallyOne(p, name, Unlimited);
    TallyOne(q, name, Needed);
    TallyOne(q, name, Single);
    TallyOne(q, name, Unlimited);
    TallySplit(rest, i, name, Unlimited);
  }

  /** The children that a command may have: those of the first rule for the root. */
  function Children(rules: seq<Rule>, cmds: seq<string>, i: nat): Option<seq<Pattern>>
    requires |rules| > 0 && i < |cmds|
  {
    if i == 0 then Some(rules[0].children) else Accepts(rules[1..], cmds[i])
  }

  /** A command has the children that its rule asks for, or none if there is no rule. */
  ghost predicate Done(rules: seq<Rule>, cmds: seq<string>, sub: seq<seq<nat>>, i: nat)
    requires |rules| > 0 && i < |sub| <= |cmds|
  {
    match Children(rules, cmds, i)
    case None => sub[i] == []
    case Some(patterns) => forall name :: Allowed(patterns, name, Occurs(cmds, sub[i], name))
  }

  /** An entry of the stack: its patterns are what its children have left of its rule. */
  ghost predicate Open(rules: seq<Rule>, cmds: seq<string>, sub: seq<seq<nat>>, f: Frame)
    requires |rules| > 0 && f.node < |sub| <= |cmds|
  {
    var c := Children(rules, cmds, f.node);
    c.Some? && forall name :: Left(c.value, f.patterns, name, Occurs(cmds, sub[f.node], name))
  }

  predicate Stacked(stack: seq<Frame>, i: nat) {
    exists k :: 0 <= k < |stack| && stack[k].node == i
  }

  lemma StackedTop(stack: seq<Frame>, i: nat)
    requires stack != []
    ensures Stacked(stack, i) ==> Stacked(stack[..|stack| - 1], i) || i == stack[|stack| - 1].node
  {
    if Stacked(stack, i) {
      var k :| 0 <= k < |stack| && stack[k].node == i;
      assert k < |stack| - 1 ==> stack[..|stack| - 1][k].node == i;
    }
  }

  /** A stack of the same commands, perhaps with more. */
  lemma StackedToo(a: seq<Frame>, b: seq<Frame>, i: nat)
    requires |a| <= |b| && forall k :: 0 <= k < |a| ==> a[k].node == b[k].node
    ensures Stacked(a, i) ==> Stacked(b, i)
  {
    if Stacked(a, i) {
      var k :| 0 <= k < |a| && a[k].node == i;
      assert b[k].node == i;
    }
  }

  ghost predicate Fitting(rules: seq<Rule>, cmds: seq<string>, s: State)
    requires |rules| > 0
  {
    && |s.sub| <= |cmds|
    && (forall k :: 0 <= k < |s.stack| ==> s.stack[k].node < |s.sub| && Open(rules, cmds, s.sub, s.stack[k]))
    && (forall i :: 0 <= i < |s.sub| && !Stacked(s.stack, i) ==> Done(rules, cmds, s.sub, i))
  }

  /** A complete entry is done. */
  lemma CompleteDone(rules: seq<Rule>, cmds: seq<string>, sub: seq<seq<nat>>, f: Frame)
    requires |rules| > 0 && f.node < |sub| <= |cmds| && Open(rules, cmds, sub, f) && Complete(f.patterns)
    ensures Done(rules, cmds, sub, f.node)
  {
    var patterns := Children(rules, cmds, f.node).value;
    forall name ensures Allowed(patterns, name, Occurs(cmds, sub[f.node], name)) {
      assert Left(patterns, f.patterns, name, Occurs(cmds, sub[f.node], name));
      CompleteTally(f.patterns, name);
    }
  }

  lemma PopFitting(rules: seq<Rule>, cmds: seq<string>, s: State)
    requires |rules| > 0 && Fitting(rules, cmds, s) && s.stack != [] && Complete(s.stack[|s.stack| - 1].patterns)
    ensures Fitting(rules, cmds, State(s.sub, s.stack[..|s.stack| - 1]))
  {
    hide Open, Done;
    var n := |s.stack|;
    var below := s.stack[..n - 1];
    CompleteDone(rules, cmds, s.sub, s.stack[n - 1]);
    forall i | 0 <= i < |s.sub| && !Stacked(below, i) ensures Done(rules, cmds, s.sub, i) {
      StackedTop(s.stack, i);
    }
  }

  /** The top entry with one more child. */
  lemma OpenNext(rules: seq<Rule>, cmds: seq<string>, sub: seq<seq<nat>>, f: Frame, i: nat)
    requires |rules| > 0 && f.node < |sub| < |cmds| && Open(rules, cmds, sub, f)
    requires i < |f.patterns| && f.patterns[i].name == cmds[|sub|]
    ensures Open(rules, cmds, Added(sub, f.node), Frame(f.node, Consumed(f.patterns, i)))
  {
    hide Left, Consumed;
    var patterns := Children(rules, cmds, f.node).value;
    var sub' := Added(sub, f.node);
    assert sub'[f.node] == sub[f.node] + [|sub|];
    forall name ensures Left(patterns, Consumed(f.patterns, i), name, Occurs(cmds, sub'[f.node], name)) {
      LeftNext(patterns, f.patterns, name, Occurs(cmds, sub[f.node], name), i);
      assert sub'[f.node][..|sub'[f.node]| - 1] == sub[f.node];
    }
  }

  /** The entry for a command that has no children yet. */
  lemma OpenNew(rules: seq<Rule>, cmds: seq<string>, sub: seq<seq<nat>>, j: nat)
    requires |rules| > 0 && 0 < j < |sub| <= |cmds| && sub[j] == []
    ensures var a := Accepts(rules[1..], cmds[j]);
      if a.Some? then Open(rules, cmds, sub, Frame(j, a.value)) else Done(rules, cmds, sub, j)
  {
    var a := Accepts(rules[1..], cmds[j]);
    if a.Some? {
      forall name ensures Left(a.value, a.value, name, Occurs(cmds, sub[j], name)) {
        assert Occurs(cmds, [], name) == 0;
      }
    }
  }

  /** A command whose children have not changed. */
  lemma SameChildren(rules: seq<Rule>, cmds: seq<string>, sub: seq<seq<nat>>, sub': seq<seq<nat>>, f: Frame)
    requires |rules| > 0 && f.node < |sub| <= |sub'| <= |cmds| && sub'[f.node] == sub[f.node]
    ensures Open(rules, cmds, sub, f) ==> Open(rules, cmds, sub', f)
    ensures Done(rules, cmds, sub, f.node) ==> Done(rules, cmds, sub', f.node)
  {
  }

  lemma TopFitting(rules: seq<Rule>, cmds: seq<string>, s: State, i: nat)
    requires |rules| > 0 && |s.sub| < |cmds| && OnPath(s) && Fitting(rules, cmds, s) && s.stack != []
    requires var top := s.stack[|s.stack| - 1]; i < |top.patterns| && top.patterns[i].name == cmds[|s.sub|]
    ensures var top := s.stack[|s.stack| - 1];
      var t := State(Added(s.sub, top.node), s.stack[..|s.stack| - 1] + [Frame(top.node, Consumed(top.patterns, i))]);
      && (forall k :: 0 <= k < |t.stack| ==> t.stack[k].node < |t.sub| && Open(rules, cmds, t.sub, t.stack[k]))
      && (forall m :: 0 <= m < |s.sub| && !Stacked(t.stack, m) ==> Done(rules, cmds, t.sub, m))
  {
    hide Open, Done, OnPath, Consumed, Added;
    var n := |s.stack|;
    var top := s.stack[n - 1];
    var t := State(Added(s.sub, top.node), s.stack[..n - 1] + [Frame(top.node, Consumed(top.patterns, i))]);
    AddedShape(s.sub, top.node);
    forall k | 0 <= k < n ensures t.stack[k].node < |t.sub| && Open(rules, cmds, t.sub, t.stack[k]) {
      if k < n - 1 {
        PathBelow(s, k);
        SameChildren(rules, cmds, s.sub, t.sub, s.stack[k]);
      } else {
        OpenNext(rules, cmds, s.sub, top, i);
      }
    }
    forall m | 0 <= m < |s.sub| && !Stacked(t.stack, m) ensures Done(rules, cmds, t.sub, m) {
      StackedToo(s.stack, t.stack, m);
      assert t.stack[n - 1].node == top.node;
      SameChildren(rules, cmds, s.sub, t.sub, Frame(m, []));
    }
  }

  lemma {:induction false} PlaceFitting(rules: seq<Rule>, cmds: seq<string>, s: State)
    requires |rules| > 0 && |s.sub| < |cmds| && OnPath(s) && Fitting(rules, cmds, s)
    requires Place(rules[1..], s, cmds[|s.sub|]).Some?
    ensures Fitting(rules, cmds, Place(rules[1..], s, cmds[|s.sub|]).value)
    decreases |s.stack|
  {
    hide Open, Done, OnPath, Consumed, Added, Accepts;
    var n := |s.stack|;
    var cmd, top := cmds[|s.sub|], s.stack[n - 1];
    var i := Matching(top.patterns, cmd);
    if i < |top.patterns| {
      TopFitting(rules, cmds, s, i);
      var u := State(Added(s.sub, top.node), s.stack[..n - 1] + [Frame(top.node, Consumed(top.patterns, i))]);
      var t := Place(rules[1..], s, cmd).value;
      AddedShape(s.sub, top.node);
      AddedEmpty(s.sub, top.node);
      RootFirst(s);
      OpenNew(rules, cmds, u.sub, |s.sub|);
      PushFitting(rules, cmds, u, t);
    } else {
      PopFitting(rules, cmds, s);
      PopOnPath(s);
      PlaceFitting(rules, cmds, State(s.sub, s.stack[..n - 1]));
    }
  }

  lemma AddedEmpty(sub: seq<seq<nat>>, p: nat)
    requires p < |sub|
    ensures |Added(sub, p)| > |sub| && Added(sub, p)[|sub|] == []
  {
  }

  lemma RootFirst(s: State)
    requires OnPath(s)
    ensures |s.sub| > 0
  {
  }

  /** With the entry of the new command on top, if it has one. */
  lemma PushFitting(rules: seq<Rule>, cmds: seq<string>, u: State, t: State)
    requires |rules| > 0 && 1 < |u.sub| <= |cmds| && t.sub == u.sub
    requires forall k :: 0 <= k < |u.stack| ==> u.stack[k].node < |u.sub| && Open(rules, cmds, u.sub, u.stack[k])
    requires forall m :: 0 <= m < |u.sub| - 1 && !Stacked(u.stack, m) ==> Done(rules, cmds, u.sub, m)
    requires var a := Accepts(rules[1..], cmds[|u.sub| - 1]);
      if a.Some? then t.stack == u.stack + [Frame(|u.sub| - 1, a.value)]
        && Open(rules, cmds, u.sub, Frame(|u.sub| - 1, a.value))
      else t.stack == u.stack && Done(rules, cmds, u.sub, |u.sub| - 1)
    ensures Fitting(rules, cmds, t)
  {
    hide Open, Done, Accepts;
    forall m | 0 <= m < |t.sub| && !Stacked(t.stack, m) ensures Done(rules, cmds, t.sub, m) {
      StackedToo(u.stack, t.stack, m);
      assert t.stack != u.stack ==> t.stack[|u.stack|].node == |u.sub| - 1;
    }
  }

  // ---------------------------------------------------------------- whole files

  /** The state before any command: the root, with what the first rule says. */
  function Start(rules: seq<Rule>): State
    requires |rules| > 0
  {
    State([[]], [Frame(0, rules[0].children)])
  }

  /** The state after the commands; None where the builder raises an error. */
  function Built(rules: seq<Rule>, cmds: seq<string>, n: nat): (s: Option<State>)
    requires |rules| > 0 && 1 <= n <= |cmds|
    ensures s.Some? ==> OnPath(s.value) && |s.value.sub| == n
  {
    if n == 1 then StartOnPath(rules); Some(Start(rules))
    else
      var s := Built(rules, cmds, n - 1);
      if s.None? then None
      else
        var t := Place(rules[1..], s.value, cmds[n - 1]);
        if t.Some? then PlaceOnPath(rules[1..], s.value, cmds[n - 1]); t else None
  }

  lemma StartOnPath(rules: seq<Rule>)
    requires |rules| > 0
    ensures OnPath(Start(rules))
  {
  }

  lemma StartFitting(rules: seq<Rule>, cmds: seq<string>)
    requires |rules| > 0 && |cmds| > 0
    ensures Fitting(rules, cmds, Start(rules))
  {
    var s := Start(rules);
    forall name ensures Left(rules[0].children, rules[0].children, name, Occurs(cmds, s.sub[0], name)) {
      assert Occurs(cmds, [], name) == 0;
    }
    assert s.stack[0].node == 0;
  }

  lemma {:induction false} BuiltFitting(rules: seq<Rule>, cmds: seq<string>, n: nat)
    requires |rules| > 0 && 1 <= n <= |cmds| && Built(rules, cmds, n).Some?
    ensures Fitting(rules, cmds, Built(rules, cmds, n).value)
  {
    hide Place, Fitting, OnPath;
    if n == 1 {
      StartFitting(rules, cmds);
    } else {
      BuiltFitting(rules, cmds, n - 1);
      PlaceFitting(rules, cmds, Built(rules, cmds, n - 1).value);
    }
  }

  /** Every entry still on the stack is complete: the last check of the builder. */
  predicate AllComplete(stack: seq<Frame>) {
    forall k :: 0 <= k < |stack| ==> Complete(stack[k].patterns)
  }

  /** What hierarchy returns: the preorder walk of the tree is the list of commands, and
      every command has the children that its rule allows, each as often as it says. */
  lemma TreeIsRight(rules: seq<Rule>, cmds: seq<string>)
    requires |rules| > 0 && |cmds| > 0
    requires var s := Built(rules, cmds, |cmds|); s.Some? && AllComplete(s.value.stack)
    ensures var sub := Built(rules, cmds, |cmds|).value.sub;
      && |sub| == |cmds| && Downward(sub) && Preorder(sub, 0) == Range(0, |cmds|)
      && forall i :: 0 <= i < |cmds| ==> Done(rules, cmds, sub, i)
  {
    var s := Built(rules, cmds, |cmds|).value;
    PreorderCounts(s.sub, 0);
    BuiltFitting(rules, cmds, |cmds|);
    hide Done, Open;
    forall i | 0 <= i < |cmds| ensures Done(rules, cmds, s.sub, i) {
      if Stacked(s.stack, i) {
        var k :| 0 <= k < |s.stack| && s.stack[k].node == i;
        CompleteDone(rules, cmds, s.sub, s.stack[k]);
      }
    }
  }

  // ---------------------------------------------------------------- the loops

  /** One entry of the stack in the search for a place. */
  lemma PlaceStep(rules: seq<Rule>, s: State, cmd: string)
    requires s.stack != [] && forall k :: 0 <= k < |s.stack| ==> s.stack[k].node < |s.sub|
    ensures var top, below := s.stack[|s.stack| - 1], s.stack[..|s.stack| - 1];
      var i, a := Matching(top.patterns, cmd), Accepts(rules, cmd);
      Place(rules, s, cmd) ==
        if i < |top.patterns| then
          var stack := below + [Frame(top.node, Consumed(top.patterns, i))];
          Some(State(Added(s.sub, top.node), if a.Some? then stack + [Frame(|s.sub|, a.value)] else stack))
        else if Complete(top.patterns) then Place(rules, State(s.sub, below), cmd)
        else None
  {
    hide Added, Consumed, Accepts;
  }

  lemma NoPlace(rules: seq<Rule>, s: State, cmd: string)
    requires s.stack == []
    ensures Place(rules, s, cmd).None?
  {
  }

  lemma MatchingIs(patterns: seq<Pattern>, cmd: string, i: nat)
    requires i <= |patterns| && (forall j :: 0 <= j < i ==> patterns[j].name != cmd)
    requires i == |patterns| || patterns[i].name == cmd
    ensures Matching(patterns, cmd) == i
  {
  }

  /** The child lists and the stack of the builder; a command is known by its number. */
  class Builder {
    var sub: seq<seq<nat>>
    var stack: seq<Frame>

    ghost function Now(): State
      reads this
    {
      State(sub, stack)
    }

    constructor (rules: seq<Rule>)
      requires |rules| > 0
      ensures Now() == Start(rules)
    {
      sub, stack := [[]], [Frame(0, rules[0].children)];
    }

    /** pop_stack: pops the top entry if nothing that it requires is missing. */
    method PopStack() returns (popped: bool)
      requires stack != []
      modifies this`stack
      ensures popped <==> Complete(old(stack)[|old(stack)| - 1].patterns)
      ensures stack == if popped then old(stack)[..|old(stack)| - 1] else old(stack)
    {
      var patterns := stack[|stack| - 1].patterns;
      for i := 0 to |patterns|
        invariant forall j :: 0 <= j < i ==> !Required(patterns[j])
      {
        if patterns[i].multip == '+' || patterns[i].multip == '!' {
          return false;
        }
      }
      stack := stack[..|stack| - 1];
      return true;
    }

    /** The rule of a command, if it may have children. */
    method Lookup(rules: seq<Rule>, cmd: string) returns (a: Option<seq<Pattern>>)
      ensures a == Accepts(rules, cmd)
    {
      for i := 0 to |rules|
        invariant Accepts(rules, cmd) == Accepts(rules[i..], cmd)
      {
        if cmd in rules[i].parents {
          return Some(rules[i].children);
        }
        assert rules[i..][1..] == rules[i + 1..];
      }
      return None;
    }

    /** Puts the command under the top entry at pattern i. */
    method Insert(rules: seq<Rule>, cmd: string, i: nat)
      requires stack != [] && OnPath(Now())
      requires i < |stack[|stack| - 1].patterns| && i == Matching(stack[|stack| - 1].patterns, cmd)
      modifies this
      ensures Some(Now()) == Place(rules, old(Now()), cmd)
    {
      hide OnPath, Accepts, Place;
      PathNodes(Now());
      PlaceStep(rules, Now(), cmd);
      var top := stack[|stack| - 1];
      sub := sub[top.node := sub[top.node] + [|sub|]];
      var multip := top.patterns[i].multip;
      var patterns := top.patterns;
      if multip == '?' || multip == '!' {
        patterns := patterns[..i] + patterns[i + 1..];
      } else if multip == '+' {
        patterns := patterns[i := Pattern(cmd, '*')];
      }
      stack := stack[..|stack| - 1] + [Frame(top.node, patterns)];
      sub := sub + [[]];
      var a := Lookup(rules, cmd);
      if a.Some? {
        stack := stack + [Frame(|sub| - 1, a.value)];
      }
    }

    /** The search for a place for the next command. */
    method Add(rules: seq<Rule>, cmd: string) returns (ok: bool)
      requires OnPath(Now())
      modifies this
      ensures ok <==> Place(rules, old(Now()), cmd).Some?
      ensures ok ==> Some(Now()) == Place(rules, old(Now()), cmd)
    {
      hide OnPath, Accepts, Place, Added, Consumed;
      PathNodes(Now());
      while |stack| > 0
        invariant OnPath(Now()) && forall k :: 0 <= k < |stack| ==> stack[k].node < |sub|
        invariant Place(rules, Now(), cmd) == Place(rules, old(Now()), cmd)
        decreases |stack|
      {
        PlaceStep(rules, Now(), cmd);
        var patterns := stack[|stack| - 1].patterns;
        var i := 0;
        while i < |patterns| && patterns[i].name != cmd
          invariant i <= |patterns| && forall j :: 0 <= j < i ==> patterns[j].name != cmd
        {
          i := i + 1;
        }
        MatchingIs(patterns, cmd, i);
        if i < |patterns| {
          Insert(rules, cmd, i);
          return true;
        }
        PopOnPath(Now());
        var popped := PopStack();
        if !popped {
          return false;
        }
        PathNodes(Now());
      }
      NoPlace(rules, Now(), cmd);
      return false;
    }

    /** hierarchy: the tree, or false where the source raises an exception. */
    method Run(rules: seq<Rule>, cmds: seq<string>) returns (ok: bool)
      requires |rules| > 0 && |cmds| > 0 && Now() == Start(rules)
      modifies this
      ensures ok <==> var s := Built(rules, cmds, |cmds|); s.Some? && AllComplete(s.value.stack)
      ensures ok ==> sub == Built(rules, cmds, |cmds|).value.sub
    {
      hide OnPath, Place;
      for n := 1 to |cmds|
        invariant Built(rules, cmds, n) == Some(Now())
      {
        var placed := Add(rules[1..], cmds[n]);
        if !placed {
          BuiltFails(rules, cmds, n + 1, |cmds|);
          return false;
        }
      }
      ghost var s := stack;
      while |stack| > 0
        invariant stack <= s && sub == Built(rules, cmds, |cmds|).value.sub
        invariant forall k :: |stack| <= k < |s| ==> Complete(s[k].patterns)
        decreases |stack|
      {
        ghost var top := |stack| - 1;
        var popped := PopStack();
        if !popped {
          assert !Complete(s[top].patterns);
          return false;
        }
      }
      return true;
    }
  }

  lemma {:induction false} BuiltFails(rules: seq<Rule>, cmds: seq<string>, n: nat, m: nat)
    requires |rules| > 0 && 1 <= n <= m <= |cmds| && Built(rules, cmds, n).None?
    ensures Built(rules, cmds, m).None?
  {
    if n < m { BuiltFails(rules, cmds, n, m - 1); }
  }
}
