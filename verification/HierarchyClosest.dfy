/** Which ancestor a command of a hierarchy goes to, for rules of any kind, and what the
    multiplicity characters mean (config/scripts/common/interpreter.py). */
module HierarchyClosest {
  import opened Hierarchy
  import opened HierarchyComplete

  /** The entry a accepts the command, and every entry above it neither accepts it nor still
      requires a child. */
  ghost predicate Closest(stack: seq<Frame>, cmd: string, a: nat) {
    && a < |stack| && Names(stack[a].patterns, cmd)
    && forall b :: a < b < |stack| ==> !Names(stack[b].patterns, cmd) && Complete(stack[b].patterns)
  }

  /** A command is placed if and only if there is such an entry, under it and nowhere else. */
  lemma PlacedExactly(rules: seq<Rule>, s: State, cmd: string)
    requires forall k :: 0 <= k < |s.stack| ==> s.stack[k].node < |s.sub|
    ensures Place(rules, s, cmd).Some? <==> exists a: nat :: Closest(s.stack, cmd, a)
    ensures forall a: nat :: Closest(s.stack, cmd, a) ==>
      Place(rules, s, cmd).value.sub == Added(s.sub, s.stack[a].node)
  {
    hide Place, Accepts, Consumed, Added, Complete, Names;
    forall a: nat | Closest(s.stack, cmd, a)
      ensures Place(rules, s, cmd).Some? && Place(rules, s, cmd).value.sub == Added(s.sub, s.stack[a].node)
    {
      PlaceAt(rules, s, cmd, a);
    }
    if Place(rules, s, cmd).Some? { var a := ClosestThere(rules, s, cmd); }
  }

  lemma {:induction false} ClosestThere(rules: seq<Rule>, s: State, cmd: string) returns (a: nat)
    requires forall k :: 0 <= k < |s.stack| ==> s.stack[k].node < |s.sub|
    requires Place(rules, s, cmd).Some?
    ensures Closest(s.stack, cmd, a)
    decreases |s.stack|
  {
    hide Place, Accepts, Consumed, Added, Complete, Names, Matching;
    if s.stack == [] { NoPlace(rules, s, cmd); }
    var top := |s.stack| - 1;
    PlaceStep(rules, s, cmd);
    MatchingNames(s.stack[top].patterns, cmd);
    if Names(s.stack[top].patterns, cmd) {
      a := top;
    } else {
      a := ClosestThere(rules, State(s.sub, s.stack[..top]), cmd);
    }
  }

  /** What the multiplicity of a child says about how often it occurs. */
  predicate Meant(multip: char, count: nat) {
    if multip == '?' then count <= 1
    else if multip == '!' then count == 1
    else if multip == '+' then count >= 1
    else true
  }

  /** A child that a rule lists once may occur as often as its multiplicity says, and a command
      that it does not list not at all. */
  lemma AllowedMeans(patterns: seq<Pattern>, name: string, i: nat, count: nat)
    requires forall j :: 0 <= j < |patterns| && patterns[j].name == name ==> j == i
    ensures Allowed(patterns, name, count) <==>
      if i < |patterns| && patterns[i].name == name then Meant(patterns[i].multip, count) else count == 0
  {
    hide Tally;
    if i < |patterns| && patterns[i].name == name {
      TallyListed(patterns, name, i, Needed);
      TallyListed(patterns, name, i, Single);
      TallyListed(patterns, name, i, Unlimited);
    } else {
      TallyNone(patterns, name, Needed);
      TallyNone(patterns, name, Single);
      TallyNone(patterns, name, Unlimited);
    }
  }

  lemma TallyListed(patterns: seq<Pattern>, name: string, i: nat, kind: Kind)
    requires i < |patterns| && patterns[i].name == name
    requires forall j :: 0 <= j < |patterns| && patterns[j].name == name ==> j == i
    ensures Tally(patterns, name, kind) == if Is(patterns[i], kind) then 1 else 0
  {
    TallySplit(patterns, i, name, kind);
    TallyNone(patterns[..i], name, kind);
    TallyOne(patterns[i], name, kind);
    TallyNone(patterns[i + 1..], name, kind);
  }

  lemma {:induction false} TallyNone(patterns: seq<Pattern>, name: string, kind: Kind)
    requires forall j :: 0 <= j < |patterns| ==> patterns[j].name != name
    ensures Tally(patterns, name, kind) == 0
  {
    if patterns != [] { TallyNone(patterns[..|patterns| - 1], name, kind); }
  }

  predicate FirstFor(rules: seq<Rule>, cmd: string, i: nat) {
    i < |rules| && cmd in rules[i].parents && forall j :: 0 <= j < i ==> cmd !in rules[j].parents
  }

  /** The children of a command are those of the first rule that names it. */
  lemma {:induction false} AcceptsFirst(rules: seq<Rule>, cmd: string)
    ensures Accepts(rules, cmd).None? <==> forall i :: 0 <= i < |rules| ==> cmd !in rules[i].parents
    ensures forall i: nat :: FirstFor(rules, cmd, i) ==> Accepts(rules, cmd) == Some(rules[i].children)
  {
    if rules != [] && cmd !in rules[0].parents {
      var rest := rules[1..];
      AcceptsFirst(rest, cmd);
      assert forall i :: 0 < i < |rules| ==> rules[i] == rest[i - 1];
      assert forall i :: 0 <= i < |rest| ==> rest[i] == rules[i + 1];
      forall i: nat | FirstFor(rules, cmd, i)
        ensures Accepts(rules, cmd) == Some(rules[i].children)
      {
        assert FirstFor(rest, cmd, i - 1);
      }
    }
  }
}
