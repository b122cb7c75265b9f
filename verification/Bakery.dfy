/** Lamport's bakery lock over shared volatile words (test-progs/src/lamport_spinlock.c).

    Every load and every store of entering, ticket and a lock's counter is one step
    of one thread; a schedule names, step by step, the thread that moves.  Tickets are
    mathematical integers. */
module Bakery {

  /** Number of locks: the first dimension of the shared arrays. */
  const LOCKS: nat := 4

  /** Where a thread is, together with its live local variables (l, i, max, mine, v). */
  datatype PC =
    | Idle
    | SetEntering(l: nat)                        // entering[l][me] = 1
    | MaxTest(l: nat, i: nat, max: int)          // load ticket[l][i], compare with max
    | MaxLoad(l: nat, i: nat, max: int)          // load ticket[l][i] again, assign max
    | WriteTicket(l: nat, max: int)              // ticket[l][me] = max + 1
    | ClearEntering(l: nat)                      // entering[l][me] = 0
    | WaitEntering(l: nat, i: nat)               // while (entering[l][i])
    | WaitNonzero(l: nat, i: nat)                // ticket[l][i] &&
    | GreaterMine(l: nat, i: nat)                // load ticket[l][me]
    | GreaterOther(l: nat, i: nat, mine: int)    //   > ticket[l][i] ||
    | EqualMine(l: nat, i: nat)                  // load ticket[l][me]
    | EqualOther(l: nat, i: nat, mine: int)      //   == ticket[l][i] && me > i
    | CounterLoad(l: nat)                        // v = counter[l]
    | CounterStore(l: nat, v: int)               // counter[l] = v + 1
    | Release(l: nat)                            // ticket[l][me] = 0

  /** A thread and the shared words that only it writes: entering[l][me] and
      ticket[l][me] for every lock l. */
  datatype Thread = Thread(pc: PC, entering: seq<int>, ticket: seq<int>)
  {
    predicate Shaped(n: nat) {
      |entering| == LOCKS && |ticket| == LOCKS && PCOk(pc, n)
    }
  }

  datatype State = State(threads: seq<Thread>, counter: seq<int>)
  {
    predicate Shaped(n: nat) {
      |threads| == n && |counter| == LOCKS && forall t :: 0 <= t < n ==> threads[t].Shaped(n)
    }

    function PC(t: nat): PC
      requires t < |threads|
    {
      threads[t].pc
    }

    function Entering(l: nat, t: nat): int
      requires t < |threads| && l < |threads[t].entering|
    {
      threads[t].entering[l]
    }

    function Ticket(l: nat, t: nat): int
      requires t < |threads| && l < |threads[t].ticket|
    {
      threads[t].ticket[l]
    }
  }

  /** One scheduled step: the thread that moves and, should it be idle, the lock it claims. */
  datatype Move = Move(thread: nat, pick: nat)

  /** The next round of the wait loop from index i: it skips the thread itself. */
  function NextWait(l: nat, i: nat, me: nat, n: nat): PC {
    var k := if i == me then i + 1 else i;
    if k < n then WaitEntering(l, k) else CounterLoad(l)
  }

  function NextMax(l: nat, i: nat, max: int, n: nat): PC {
    if i < n then MaxTest(l, i, max) else WriteTicket(l, max)
  }

  predicate PCOk(p: PC, n: nat) {
    match p
    case Idle => true
    case MaxTest(l, i, _) => l < LOCKS && i < n
    case MaxLoad(l, i, _) => l < LOCKS && i < n
    case WaitEntering(l, i) => l < LOCKS && i < n
    case WaitNonzero(l, i) => l < LOCKS && i < n
    case GreaterMine(l, i) => l < LOCKS && i < n
    case GreaterOther(l, i, _) => l < LOCKS && i < n
    case EqualMine(l, i) => l < LOCKS && i < n
    case EqualOther(l, i, _) => l < LOCKS && i < n
    case _ => p.l < LOCKS
  }

  function Init(n: nat): (s: State)
    ensures s.Shaped(n)
  {
    State(seq(n, t => Thread(Idle, seq(LOCKS, l => 0), seq(LOCKS, l => 0))), seq(LOCKS, l => 0))
  }

  /** What thread me is after its next step; the loads read the state s. */
  function Moved(s: State, n: nat, me: nat, pick: nat): (th: Thread)
    requires s.Shaped(n) && me < n
    ensures th.Shaped(n)
  {
    var th := s.threads[me];
    match th.pc
    case Idle => th.(pc := SetEntering(pick % LOCKS))
    case SetEntering(l) => th.(entering := th.entering[l := 1], pc := NextMax(l, 0, 0, n))
    case MaxTest(l, i, max) =>
      th.(pc := if s.Ticket(l, i) > max then MaxLoad(l, i, max) else NextMax(l, i + 1, max, n))
    case MaxLoad(l, i, max) => th.(pc := NextMax(l, i + 1, s.Ticket(l, i), n))
    case WriteTicket(l, max) => th.(ticket := th.ticket[l := max + 1], pc := ClearEntering(l))
    case ClearEntering(l) => th.(entering := th.entering[l := 0], pc := NextWait(l, 0, me, n))
    case WaitEntering(l, i) => if s.Entering(l, i) != 0 then th else th.(pc := WaitNonzero(l, i))
    case WaitNonzero(l, i) =>
      th.(pc := if s.Ticket(l, i) != 0 then GreaterMine(l, i) else NextWait(l, i + 1, me, n))
    case GreaterMine(l, i) => th.(pc := GreaterOther(l, i, th.ticket[l]))
    case GreaterOther(l, i, mine) =>
      th.(pc := if mine > s.Ticket(l, i) then WaitNonzero(l, i) else EqualMine(l, i))
    case EqualMine(l, i) => th.(pc := EqualOther(l, i, th.ticket[l]))
    case EqualOther(l, i, mine) =>
      th.(pc := if mine == s.Ticket(l, i) && me > i then WaitNonzero(l, i) else NextWait(l, i + 1, me, n))
    case CounterLoad(l) => th.(pc := CounterStore(l, s.counter[l]))
    case CounterStore(l, v) => th.(pc := Release(l))
    case Release(l) => th.(ticket := th.ticket[l := 0], pc := Idle)
  }

  function Step(s: State, n: nat, me: nat, pick: nat): (s': State)
    requires s.Shaped(n) && me < n
    ensures s'.Shaped(n)
  {
    var p := s.PC(me);
    State(s.threads[me := Moved(s, n, me, pick)],
          if p.CounterStore? then s.counter[p.l := p.v + 1] else s.counter)
  }

  /** A run of n threads: the states it goes through and the moves between them. */
  ghost predicate IsRun(n: nat, states: seq<State>, moves: seq<Move>) {
    && |states| == |moves| + 1 && states[0] == Init(n)
    && (forall i :: 0 <= i < |states| ==> states[i].Shaped(n))
    && forall i :: 0 <= i < |moves| ==> IsStep(n, states[i], moves[i], states[i + 1])
  }

  ghost predicate IsStep(n: nat, s: State, m: Move, s': State)
    requires s.Shaped(n)
  {
    m.thread < n && s' == Step(s, n, m.thread, m.pick)
  }

  // ---------------------------------------------------------------- observations

  predicate Critical(p: PC) {
    p.CounterLoad? || p.CounterStore? || p.Release?
  }

  /** Between claim_lock(l) and free_lock(l). */
  predicate InCritical(p: PC, l: nat) {
    Critical(p) && p.l == l
  }

  /** entering[l][me] is set. */
  predicate Choosing(p: PC, l: nat) {
    (p.MaxTest? || p.MaxLoad? || p.WriteTicket? || p.ClearEntering?) && p.l == l
  }

  predicate Waits(p: PC) {
    p.WaitEntering? || p.WaitNonzero? || p.GreaterMine? || p.GreaterOther? || p.EqualMine? || p.EqualOther?
  }

  predicate Waiting(p: PC, l: nat) {
    Waits(p) && p.l == l
  }

  /** ticket[l][me] has been written and not yet reset. */
  predicate Holds(p: PC, l: nat) {
    (p.ClearEntering? && p.l == l) || Waiting(p, l) || InCritical(p, l)
  }

  /** The thread at p has seen entering[l][k] clear and is now in the ticket loop for k. */
  predicate AtTicket(p: PC, l: nat, k: nat) {
    Waiting(p, l) && !p.WaitEntering? && p.i == k
  }

  /** The thread at p is done with thread k. */
  predicate Past(p: PC, l: nat, k: nat) {
    (Waiting(p, l) && p.i > k) || InCritical(p, l)
  }

  /** The order in which tickets are served. */
  predicate Before(a: int, i: nat, b: int, j: nat) {
    a < b || (a == b && i < j)
  }

  // ---------------------------------------------------------------- the invariant

  /** The part of the invariant that speaks of one thread alone. */
  ghost predicate ThreadOk(th: Thread, t: nat, n: nat)
    requires th.Shaped(n)
  {
    && (forall l :: 0 <= l < LOCKS ==> (th.entering[l] != 0 <==> Choosing(th.pc, l)))
    && (forall l :: 0 <= l < LOCKS ==> if Holds(th.pc, l) then th.ticket[l] > 0 else th.ticket[l] == 0)
    && match th.pc
       case MaxTest(l, i, max) => max >= 0
       case MaxLoad(l, i, max) => max >= 0 && i != t
       case WriteTicket(l, max) => max >= 0
       case WaitEntering(l, i) => i != t
       case WaitNonzero(l, i) => i != t
       case GreaterMine(l, i) => i != t
       case GreaterOther(l, i, mine) => i != t && mine == th.ticket[l]
       case EqualMine(l, i) => i != t
       case EqualOther(l, i, mine) => i != t && mine == th.ticket[l]
       case _ => true
  }

  ghost predicate ThreadsOk(s: State, n: nat)
    requires s.Shaped(n)
  {
    forall t :: 0 <= t < n ==> ThreadOk(s.threads[t], t, n)
  }

  /** Thread j holds a ticket that thread k, choosing or holding, is bound to exceed. */
  ghost predicate Older(s: State, n: nat, l: nat, j: nat, k: nat)
    requires s.Shaped(n) && l < LOCKS && j < n && k < n
  {
    && j != k && Holds(s.PC(j), l)
    && match s.PC(k)
       case MaxTest(l', i, max) => l' == l && (j < i ==> s.Ticket(l, j) <= max)
       case MaxLoad(l', i, max) => l' == l && (j < i ==> s.Ticket(l, j) <= max && s.Ticket(l, j) < s.Ticket(l, i))
       case WriteTicket(l', max) => l' == l && s.Ticket(l, j) <= max
       case _ => Holds(s.PC(k), l) && s.Ticket(l, j) < s.Ticket(l, k)
  }

  /** What thread j's progress in the wait loop says about thread k. */
  ghost predicate Ordered(s: State, n: nat, l: nat, j: nat, k: nat)
    requires s.Shaped(n) && l < LOCKS && j < n && k < n
  {
    && (Past(s.PC(j), l, k) && Holds(s.PC(k), l) ==> Before(s.Ticket(l, j), j, s.Ticket(l, k), k))
    && (AtTicket(s.PC(j), l, k) && (s.PC(j).EqualMine? || s.PC(j).EqualOther?) && Holds(s.PC(k), l)
        ==> s.Ticket(l, j) <= s.Ticket(l, k))
    && ((AtTicket(s.PC(j), l, k) || Past(s.PC(j), l, k)) && Choosing(s.PC(k), l) ==> Older(s, n, l, j, k))
  }

  ghost predicate Pairs(s: State, n: nat)
    requires s.Shaped(n)
  {
    forall l, j, k :: 0 <= l < LOCKS && 0 <= j < n && 0 <= k < n && j != k ==> Ordered(s, n, l, j, k)
  }

  /** A counter loaded inside the lock is still current when it is stored. */
  ghost predicate Fresh(s: State, n: nat)
    requires s.Shaped(n)
  {
    forall t :: 0 <= t < n && s.PC(t).CounterStore? ==> s.counter[s.PC(t).l] == s.PC(t).v
  }

  ghost predicate Inv(s: State, n: nat)
    requires s.Shaped(n)
  {
    ThreadsOk(s, n) && Pairs(s, n) && Fresh(s, n)
  }

  lemma InitInv(n: nat)
    ensures Inv(Init(n), n)
  {
  }

  lemma ThreadsStep(s: State, n: nat, me: nat, pick: nat)
    requires s.Shaped(n) && me < n && ThreadsOk(s, n)
    ensures ThreadsOk(Step(s, n, me, pick), n)
  {
    assert ThreadOk(s.threads[me], me, n);
    assert s.PC(me).MaxTest? ==> ThreadOk(s.threads[s.PC(me).i], s.PC(me).i, n);
    assert s.PC(me).MaxLoad? ==> ThreadOk(s.threads[s.PC(me).i], s.PC(me).i, n);
    assert ThreadOk(Moved(s, n, me, pick), me, n);
  }

  /** The hypotheses about the threads j and k that one step of thread me needs. */
  ghost predicate Local(s: State, n: nat, me: nat, l: nat, j: nat, k: nat)
    requires s.Shaped(n) && me < n && l < LOCKS && j < n && k < n
  {
    && ThreadOk(s.threads[me], me, n) && ThreadOk(s.threads[j], j, n) && ThreadOk(s.threads[k], k, n)
    && j != k && (me != j ==> Ordered(s, n, l, me, j)) && Ordered(s, n, l, j, k)
  }

  lemma OlderStepOfOlder(s: State, n: nat, l: nat, j: nat, k: nat)
    requires s.Shaped(n) && l < LOCKS && j < n && k < n
    requires Local(s, n, j, l, j, k) && Older(s, n, l, j, k) && !s.PC(j).Release?
    ensures Older(Step(s, n, j, 0), n, l, j, k)
  {
  }

  lemma OlderStepOfYounger(s: State, n: nat, l: nat, j: nat, k: nat)
    requires s.Shaped(n) && l < LOCKS && j < n && k < n
    requires Local(s, n, k, l, j, k) && Older(s, n, l, j, k) && !s.PC(k).Release?
    ensures Older(Step(s, n, k, 0), n, l, j, k)
  {
    hide ThreadOk, Ordered, Older;
    var p := s.PC(k);
    if p.MaxTest? || p.MaxLoad? { OlderWhileMax(s, n, l, j, k); }
    else if p.WriteTicket? { OlderWhenWritten(s, n, l, j, k); }
    else { OlderWhileHolding(s, n, l, j, k); }
  }

  lemma OlderWhileMax(s: State, n: nat, l: nat, j: nat, k: nat)
    requires s.Shaped(n) && l < LOCKS && j < n && k < n && (s.PC(k).MaxTest? || s.PC(k).MaxLoad?)
    requires Local(s, n, k, l, j, k) && Older(s, n, l, j, k)
    ensures Older(Step(s, n, k, 0), n, l, j, k)
  {
  }

  lemma OlderWhenWritten(s: State, n: nat, l: nat, j: nat, k: nat)
    requires s.Shaped(n) && l < LOCKS && j < n && k < n && s.PC(k).WriteTicket?
    requires Local(s, n, k, l, j, k) && Older(s, n, l, j, k)
    ensures Older(Step(s, n, k, 0), n, l, j, k)
  {
    hide ThreadOk, Ordered;
  }

  lemma OlderWhileHolding(s: State, n: nat, l: nat, j: nat, k: nat)
    requires s.Shaped(n) && l < LOCKS && j < n && k < n
    requires !(s.PC(k).MaxTest? || s.PC(k).MaxLoad? || s.PC(k).WriteTicket? || s.PC(k).Release?)
    requires Local(s, n, k, l, j, k) && Older(s, n, l, j, k)
    ensures Older(Step(s, n, k, 0), n, l, j, k)
  {
    hide ThreadOk, Ordered;
  }

  lemma OlderStepOfThird(s: State, n: nat, me: nat, pick: nat, l: nat, j: nat, k: nat)
    requires s.Shaped(n) && me < n && l < LOCKS && j < n && k < n && me != j && me != k
    requires Local(s, n, me, l, j, k) && Older(s, n, l, j, k)
    ensures Older(Step(s, n, me, pick), n, l, j, k)
  {
    var s' := Step(s, n, me, pick);
    assert s'.threads[j] == s.threads[j] && s'.threads[k] == s.threads[k];
  }

  /** Being older is kept by every step except the older thread's own release
      and the younger one's: a release by a third thread in the middle of the
      two loads of line 43 cannot happen. */
  lemma OlderStep(s: State, n: nat, me: nat, pick: nat, l: nat, j: nat, k: nat)
    requires s.Shaped(n) && me < n && l < LOCKS && j < n && k < n
    requires Local(s, n, me, l, j, k) && Older(s, n, l, j, k)
    requires !(me == j && s.PC(j) == Release(l)) && !(me == k && s.PC(k) == Release(l))
    ensures Older(Step(s, n, me, pick), n, l, j, k)
  {
    if me == j { OlderStepOfOlder(s, n, l, j, k); }
    else if me == k { OlderStepOfYounger(s, n, l, j, k); }
    else { OlderStepOfThird(s, n, me, pick, l, j, k); }
  }

  /** How a step of j can change what j knows about k. */
  lemma Progress(s: State, n: nat, pick: nat, l: nat, j: nat, k: nat)
    requires s.Shaped(n) && l < LOCKS && j < n && k < n && j != k && ThreadOk(s.threads[j], j, n)
    ensures var p, p' := s.PC(j), Moved(s, n, j, pick).pc;
            && (AtTicket(p', l, k) ==> AtTicket(p, l, k) || (p == WaitEntering(l, k) && s.Entering(l, k) == 0))
            && (p'.EqualMine? && AtTicket(p', l, k) ==>
                  p.GreaterOther? && AtTicket(p, l, k) && p.mine <= s.Ticket(l, k))
            && (p'.EqualOther? && AtTicket(p', l, k) ==> p.EqualMine? && AtTicket(p, l, k))
            && (Past(p', l, k) ==>
                  || Past(p, l, k)
                  || (AtTicket(p, l, k) && s.Ticket(l, k) == 0)
                  || (AtTicket(p, l, k) && p.EqualOther? && !(p.mine == s.Ticket(l, k) && j > k)))
  {
  }

  lemma OrderedStepOfFirst(s: State, n: nat, pick: nat, l: nat, j: nat, k: nat)
    requires s.Shaped(n) && l < LOCKS && j < n && k < n && Local(s, n, j, l, j, k)
    ensures Ordered(Step(s, n, j, pick), n, l, j, k)
  {
    Progress(s, n, pick, l, j, k);
    if Older(s, n, l, j, k) && !s.PC(j).Release? {
      OlderStepOfOlder(s, n, l, j, k);
    }
    var s' := Step(s, n, j, pick);
    assert s'.threads[k] == s.threads[k];
    assert Choosing(s.PC(k), l) <==> s.Entering(l, k) != 0;
    assert Holds(s.PC(k), l) <==> s.Ticket(l, k) != 0;
  }

  /** How a step of k changes what the others may see of it. */
  lemma Exposure(s: State, n: nat, pick: nat, l: nat, k: nat)
    requires s.Shaped(n) && l < LOCKS && k < n && ThreadOk(s.threads[k], k, n)
    ensures var p, th' := s.PC(k), Moved(s, n, k, pick);
            && (Holds(th'.pc, l) ==>
                  || (Holds(p, l) && th'.ticket[l] == s.Ticket(l, k))
                  || (p.WriteTicket? && p.l == l && th'.ticket[l] > p.max))
            && (Choosing(th'.pc, l) ==> Choosing(p, l) || p == SetEntering(l))
            && (p == SetEntering(l) ==> th'.pc == MaxTest(l, 0, 0))
  {
  }

  lemma OrderedStepOfSecond(s: State, n: nat, pick: nat, l: nat, j: nat, k: nat)
    requires s.Shaped(n) && l < LOCKS && j < n && k < n && Local(s, n, k, l, j, k)
    ensures Ordered(Step(s, n, k, pick), n, l, j, k)
  {
    Exposure(s, n, pick, l, k);
    if Older(s, n, l, j, k) && !s.PC(k).Release? {
      OlderStepOfYounger(s, n, l, j, k);
    }
    var s' := Step(s, n, k, pick);
    assert s'.threads[j] == s.threads[j];
    assert s'.PC(k) == Moved(s, n, k, pick).pc;
    hide Moved, ThreadOk, Step;
  }

  lemma OrderedStep(s: State, n: nat, me: nat, pick: nat, l: nat, j: nat, k: nat)
    requires s.Shaped(n) && me < n && l < LOCKS && j < n && k < n && Local(s, n, me, l, j, k)
    ensures Ordered(Step(s, n, me, pick), n, l, j, k)
  {
    if me == j {
      OrderedStepOfFirst(s, n, pick, l, j, k);
    } else if me == k {
      OrderedStepOfSecond(s, n, pick, l, j, k);
    } else if Older(s, n, l, j, k) {
      OlderStepOfThird(s, n, me, pick, l, j, k);
    }
  }

  /** Mutual exclusion in one state that satisfies the invariant. */
  lemma Exclusive(s: State, n: nat, l: nat, i: nat, j: nat)
    requires s.Shaped(n) && ThreadsOk(s, n) && Pairs(s, n)
    requires l < LOCKS && i < n && j < n && InCritical(s.PC(i), l) && InCritical(s.PC(j), l)
    ensures i == j
  {
    assert i == j || (Ordered(s, n, l, i, j) && Ordered(s, n, l, j, i));
  }

  lemma FreshStep(s: State, n: nat, me: nat, pick: nat)
    requires s.Shaped(n) && me < n && Inv(s, n)
    ensures Fresh(Step(s, n, me, pick), n)
  {
    var s' := Step(s, n, me, pick);
    forall t | 0 <= t < n && s'.PC(t).CounterStore?
      ensures s'.counter[s'.PC(t).l] == s'.PC(t).v
    {
      if t != me {
        assert s'.PC(t) == s.PC(t);
        assert s.counter[s.PC(t).l] == s.PC(t).v;
        if s.PC(me).CounterStore? && s.PC(t).l == s.PC(me).l {
          Exclusive(s, n, s.PC(me).l, me, t);
          assert false;
        }
      } else {
        assert s'.PC(t) == Moved(s, n, me, pick).pc;
        assert s.PC(t).CounterLoad?;
      }
    }
  }

  lemma StepInv(s: State, n: nat, me: nat, pick: nat)
    requires s.Shaped(n) && me < n && Inv(s, n)
    ensures Inv(Step(s, n, me, pick), n)
  {
    var s' := Step(s, n, me, pick);
    ThreadsStep(s, n, me, pick);
    FreshStep(s, n, me, pick);
    forall l, j, k | 0 <= l < LOCKS && 0 <= j < n && 0 <= k < n && j != k
      ensures Ordered(s', n, l, j, k)
    {
      assert ThreadOk(s.threads[me], me, n) && ThreadOk(s.threads[j], j, n) && ThreadOk(s.threads[k], k, n);
      assert Ordered(s, n, l, j, k) && (me == j || Ordered(s, n, l, me, j));
      OrderedStep(s, n, me, pick, l, j, k);
    }
  }

  lemma {:induction false} RunInv(n: nat, states: seq<State>, moves: seq<Move>, c: nat)
    requires IsRun(n, states, moves) && c < |states|
    ensures Inv(states[c], n)
  {
    hide Step, Inv;
    if c == 0 {
      InitInv(n);
    } else {
      RunInv(n, states, moves, c - 1);
      assert IsStep(n, states[c - 1], moves[c - 1], states[c - 1 + 1]);
      StepInv(states[c - 1], n, moves[c - 1].thread, moves[c - 1].pick);
    }
  }

  // ---------------------------------------------------------------- theorems

  /** In every interleaving, at most one thread is between claim_lock(l) and free_lock(l). */
  lemma MutualExclusion(n: nat, states: seq<State>, moves: seq<Move>, c: nat, l: nat, i: nat, j: nat)
    requires IsRun(n, states, moves) && c < |states| && l < LOCKS && i < n && j < n
    requires InCritical(states[c].PC(i), l) && InCritical(states[c].PC(j), l)
    ensures i == j
  {
    RunInv(n, states, moves, c);
    Exclusive(states[c], n, l, i, j);
  }

  /** How many increments of the counter of lock l are complete in states[c]. */
  ghost function Increments(n: nat, states: seq<State>, moves: seq<Move>, c: nat, l: nat): nat
    requires IsRun(n, states, moves) && c < |states|
  {
    if c == 0 then 0
    else
      assert IsStep(n, states[c - 1], moves[c - 1], states[c]);
      var p := states[c - 1].PC(moves[c - 1].thread);
      Increments(n, states, moves, c - 1, l) + if p.CounterStore? && p.l == l then 1 else 0
  }

  /** An increment done as separate load and store inside the lock never loses an update. */
  lemma {:induction false} NoLostUpdate(n: nat, states: seq<State>, moves: seq<Move>, c: nat, l: nat)
    requires IsRun(n, states, moves) && c < |states| && l < LOCKS
    ensures states[c].counter[l] == Increments(n, states, moves, c, l)
  {
    if c != 0 {
      NoLostUpdate(n, states, moves, c - 1, l);
      RunInv(n, states, moves, c - 1);
      var s := states[c - 1];
      var me := moves[c - 1].thread;
      assert IsStep(n, s, moves[c - 1], states[c]);
      assert s.PC(me).CounterStore? ==> s.counter[s.PC(me).l] == s.PC(me).v;
    }
  }

  /** As long as neither of the two releases the lock, the younger one stays behind. */
  lemma {:induction false} StaysOlder(n: nat, states: seq<State>, moves: seq<Move>,
                                      a: nat, c: nat, l: nat, j: nat, k: nat)
    requires IsRun(n, states, moves) && a <= c < |states| && l < LOCKS && j < n && k < n && j != k
    requires Older(states[a], n, l, j, k)
    requires forall b :: a <= b < c ==> !Releases(states[b], n, moves[b], j, l)
    requires forall b :: a <= b < c ==> !Releases(states[b], n, moves[b], k, l)
    ensures Older(states[c], n, l, j, k)
  {
    hide Step, Older, Ordered, ThreadOk, Init, Fresh;
    if a < c {
      StaysOlder(n, states, moves, a, c - 1, l, j, k);
      RunInv(n, states, moves, c - 1);
      var s, me := states[c - 1], moves[c - 1].thread;
      assert IsStep(n, s, moves[c - 1], states[c - 1 + 1]);
      assert ThreadOk(s.threads[me], me, n) && ThreadOk(s.threads[j], j, n) && ThreadOk(s.threads[k], k, n);
      assert Ordered(s, n, l, j, k) && (me == j || Ordered(s, n, l, me, j));
      assert !Releases(s, n, moves[c - 1], j, l) && !Releases(s, n, moves[c - 1], k, l);
      OlderStep(s, n, me, moves[c - 1].pick, l, j, k);
    }
  }

  /** The move m is thread j's free_lock(l). */
  predicate Releases(s: State, n: nat, m: Move, j: nat, l: nat)
    requires s.Shaped(n) && j < n
  {
    m.thread == j && s.PC(j) == Release(l)
  }

  lemma FlagMakesYounger(s: State, n: nat, pick: nat, l: nat, j: nat, k: nat)
    requires s.Shaped(n) && l < LOCKS && j < n && k < n && j != k
    requires s.PC(k) == SetEntering(l) && Holds(s.PC(j), l)
    ensures Older(Step(s, n, k, pick), n, l, j, k)
  {
  }

  lemma YoungerStaysOut(s: State, n: nat, l: nat, j: nat, k: nat)
    requires s.Shaped(n) && l < LOCKS && j < n && k < n && Inv(s, n) && Older(s, n, l, j, k)
    ensures !InCritical(s.PC(k), l)
  {
    assert Ordered(s, n, l, k, j);
  }

  /** First come, first served.  Thread j has written its ticket for lock l when thread k
      sets its flag in move a; whatever follows, when k is in its critical section in
      states[c], without a release since, j has been in its own before. */
  lemma FirstComeFirstServed(n: nat, states: seq<State>, moves: seq<Move>,
                             a: nat, c: nat, l: nat, j: nat, k: nat)
    requires IsRun(n, states, moves) && a < c < |states| && l < LOCKS && j < n && k < n && j != k
    requires Holds(states[a].PC(j), l)
    requires moves[a].thread == k && states[a].PC(k) == SetEntering(l)
    requires forall b :: a < b < c ==> !Releases(states[b], n, moves[b], k, l)
    requires InCritical(states[c].PC(k), l)
    ensures exists b :: a <= b < c && InCritical(states[b].PC(j), l)
  {
    hide Step, Older, Inv, Init;
    if forall b :: a + 1 <= b < c ==> !Releases(states[b], n, moves[b], j, l) {
      assert IsStep(n, states[a], moves[a], states[a + 1]);
      FlagMakesYounger(states[a], n, moves[a].pick, l, j, k);
      StaysOlder(n, states, moves, a + 1, c, l, j, k);
      RunInv(n, states, moves, c);
      YoungerStaysOut(states[c], n, l, j, k);
    } else {
      var b :| a + 1 <= b < c && Releases(states[b], n, moves[b], j, l);
      assert InCritical(states[b].PC(j), l);
    }
  }

  // ---------------------------------------------------------------- no deadlock

  /** The state after a schedule. */
  ghost function After(s: State, n: nat, moves: seq<Move>): (s': State)
    requires s.Shaped(n) && forall i :: 0 <= i < |moves| ==> moves[i].thread < n
    ensures s'.Shaped(n)
    decreases |moves|
  {
    if moves == [] then s else After(Step(s, n, moves[0].thread, moves[0].pick), n, moves[1..])
  }

  lemma {:induction false} AfterAppend(s: State, n: nat, xs: seq<Move>, ys: seq<Move>)
    requires s.Shaped(n)
    requires forall i :: 0 <= i < |xs| ==> xs[i].thread < n
    requires forall i :: 0 <= i < |ys| ==> ys[i].thread < n
    ensures After(s, n, xs + ys) == After(After(s, n, xs), n, ys)
    decreases |xs|
  {
    if xs == [] {
      assert xs + ys == ys;
    } else {
      AfterAppend(Step(s, n, xs[0].thread, xs[0].pick), n, xs[1..], ys);
      assert (xs + ys)[1..] == xs[1..] + ys;
    }
  }

  /** Inside claim_lock(l), before the wait loop. */
  predicate InDoorway(p: PC, l: nat) {
    p == SetEntering(l) || Choosing(p, l)
  }

  /** Bounds the steps left in the doorway. */
  function DoorwayRank(p: PC, n: nat): nat
    requires PCOk(p, n)
  {
    match p
    case SetEntering(_) => 2 * n + 3
    case MaxTest(_, i, _) => 2 * (n - i) + 2
    case MaxLoad(_, i, _) => 2 * (n - i) + 1
    case WriteTicket(_, _) => 2
    case ClearEntering(_) => 1
    case _ => 0
  }

  /** Bounds the steps left in the wait loop of a thread that nobody precedes. */
  ghost function WaitRank(s: State, n: nat, me: nat): nat
    requires s.Shaped(n) && me < n
  {
    match s.PC(me)
    case WaitEntering(_, i) => 8 * (n - i)
    case WaitNonzero(l, i) => 8 * (n - i) - if s.Ticket(l, i) == 0 then 7 else 2
    case GreaterMine(l, i) => 8 * (n - i) - if s.Ticket(l, i) == 0 then 5 else 3
    case GreaterOther(l, i, _) => 8 * (n - i) - if s.Ticket(l, i) == 0 then 6 else 4
    case EqualMine(_, i) => 8 * (n - i) - 5
    case EqualOther(_, i, _) => 8 * (n - i) - 6
    case _ => 0
  }

  /** Thread me holds a ticket for l, no other holder precedes it, and nobody is choosing. */
  ghost predicate First(s: State, n: nat, l: nat, me: nat)
    requires s.Shaped(n) && l < LOCKS && me < n
  {
    && Holds(s.PC(me), l)
    && (forall t :: 0 <= t < n ==> !InDoorway(s.PC(t), l))
    && forall t :: 0 <= t < n && t != me && Holds(s.PC(t), l) ==> Before(s.Ticket(l, me), me, s.Ticket(l, t), t)
  }

  lemma FirstMoves(s: State, n: nat, l: nat, me: nat)
    requires s.Shaped(n) && l < LOCKS && me < n && Inv(s, n) && First(s, n, l, me) && Waiting(s.PC(me), l)
    ensures var s' := Step(s, n, me, 0);
            First(s', n, l, me) && 0 <= WaitRank(s', n, me) < WaitRank(s, n, me)
  {
    var s' := Step(s, n, me, 0);
    var p := s.PC(me);
    assert ThreadOk(s.threads[me], me, n) && ThreadOk(s.threads[p.i], p.i, n);
    assert forall t :: 0 <= t < n && t != me ==> s'.threads[t] == s.threads[t];
    assert s'.threads[me].ticket == s.threads[me].ticket;
    assert !InDoorway(s.PC(p.i), l);
    assert Holds(s.PC(p.i), l) <==> s.Ticket(l, p.i) > 0;
    assert forall t :: 0 <= t < n && t != me ==> s'.PC(t) == s.PC(t);
  }

  lemma {:induction false} FirstEnters(s: State, n: nat, l: nat, me: nat) returns (moves: seq<Move>)
    requires s.Shaped(n) && l < LOCKS && me < n && Inv(s, n) && First(s, n, l, me)
    ensures forall i :: 0 <= i < |moves| ==> moves[i].thread < n
    ensures InCritical(After(s, n, moves).PC(me), l)
    decreases WaitRank(s, n, me)
  {
    hide Inv, First, Step, WaitRank;
    assert Holds(s.PC(me), l) && !InDoorway(s.PC(me), l) by { FirstHolds(s, n, l, me); }
    if InCritical(s.PC(me), l) {
      moves := [];
    } else {
      FirstMoves(s, n, l, me);
      StepInv(s, n, me, 0);
      var rest := FirstEnters(Step(s, n, me, 0), n, l, me);
      moves := [Move(me, 0)] + rest;
      assert moves[1..] == rest;
    }
  }

  lemma FirstHolds(s: State, n: nat, l: nat, me: nat)
    requires s.Shaped(n) && l < LOCKS && me < n && First(s, n, l, me)
    ensures Holds(s.PC(me), l) && !InDoorway(s.PC(me), l)
  {
  }

  /** The least holder among the threads below the bound. */
  lemma {:induction false} LeastHolder(s: State, n: nat, l: nat, u: nat, bound: nat) returns (me: nat)
    requires s.Shaped(n) && l < LOCKS && u < bound <= n && Holds(s.PC(u), l)
    ensures me < bound && Holds(s.PC(me), l)
    ensures forall t :: 0 <= t < bound && t != me && Holds(s.PC(t), l) ==>
      Before(s.Ticket(l, me), me, s.Ticket(l, t), t)
    decreases bound
  {
    var last := bound - 1;
    if !(exists t :: 0 <= t < last && Holds(s.PC(t), l)) {
      me := u;
    } else {
      var t :| 0 <= t < last && Holds(s.PC(t), l);
      me := LeastHolder(s, n, l, t, last);
      if Holds(s.PC(last), l) && !Before(s.Ticket(l, me), me, s.Ticket(l, last), last) {
        me := last;
      }
    }
  }

  lemma DoorwayMoves(s: State, n: nat, l: nat, t: nat)
    requires s.Shaped(n) && l < LOCKS && t < n && InDoorway(s.PC(t), l)
    ensures var p := Step(s, n, t, 0).PC(t);
            && 0 <= DoorwayRank(p, n) < DoorwayRank(s.PC(t), n)
            && (InDoorway(p, l) || Holds(p, l))
  {
  }

  /** Lets every thread from t on leave the doorway. */
  lemma {:induction false} Settle(s: State, n: nat, l: nat, u: nat, t: nat) returns (moves: seq<Move>)
    requires s.Shaped(n) && l < LOCKS && u < n && t <= n && Inv(s, n)
    requires InDoorway(s.PC(u), l) || Holds(s.PC(u), l)
    requires forall i :: 0 <= i < t ==> !InDoorway(s.PC(i), l)
    ensures forall i :: 0 <= i < |moves| ==> moves[i].thread < n
    ensures var s' := After(s, n, moves);
            Inv(s', n) && Holds(s'.PC(u), l) && forall i :: 0 <= i < n ==> !InDoorway(s'.PC(i), l)
    decreases n - t, if t < n then DoorwayRank(s.PC(t), n) else 0
  {
    hide Inv, Moved, DoorwayRank;
    if t == n {
      moves := [];
    } else if !InDoorway(s.PC(t), l) {
      moves := Settle(s, n, l, u, t + 1);
    } else {
      DoorwayMoves(s, n, l, t);
      StepInv(s, n, t, 0);
      var s' := Step(s, n, t, 0);
      assert forall i :: 0 <= i < n && i != t ==> s'.PC(i) == s.PC(i);
      var rest := Settle(s', n, l, u, t);
      moves := [Move(t, 0)] + rest;
      assert moves[1..] == rest;
    }
  }

  /** The lock never deadlocks: in every reachable state in which some thread claims or holds
      lock l there is a continuation that brings a thread into its critical section. */
  lemma NoDeadlock(n: nat, states: seq<State>, moves: seq<Move>, c: nat, l: nat, u: nat)
    requires IsRun(n, states, moves) && c < |states| && l < LOCKS && u < n
    requires InDoorway(states[c].PC(u), l) || Holds(states[c].PC(u), l)
    ensures exists next: seq<Move>, t: nat ::
              && (forall i :: 0 <= i < |next| ==> next[i].thread < n)
              && t < n && InCritical(After(states[c], n, next).PC(t), l)
  {
    hide Inv, After, InCritical;
    RunInv(n, states, moves, c);
    var settle := Settle(states[c], n, l, u, 0);
    var s := After(states[c], n, settle);
    var t := LeastHolder(s, n, l, u, n);
    var enter := FirstEnters(s, n, l, t);
    AfterAppend(states[c], n, settle, enter);
    assert InCritical(After(states[c], n, settle + enter).PC(t), l);
  }

  // ---------------------------------------------------------------- the shared memory in place

  /** The arrays of lamport_spinlock.c, updated in place one access at a time. */
  class Machine {
    const n: nat
    const entering: array2<int>
    const ticket: array2<int>
    const counter: array<int>
    const pc: array<PC>

    ghost predicate Valid()
      reads this, entering, ticket, counter, pc
    {
      && entering.Length0 == LOCKS && entering.Length1 == n
      && ticket.Length0 == LOCKS && ticket.Length1 == n
      && counter.Length == LOCKS && pc.Length == n && entering != ticket
      && forall t :: 0 <= t < n ==> PCOk(pc[t], n)
    }

    ghost function ThreadState(t: nat): (th: Thread)
      requires Valid() && t < n
      reads this, entering, ticket, counter, pc
      ensures th.Shaped(n)
    {
      Thread(pc[t], seq(LOCKS, l requires 0 <= l < LOCKS requires Valid()
                      reads this, entering, ticket, counter, pc => entering[l, t]),
             seq(LOCKS, l requires 0 <= l < LOCKS requires Valid()
                      reads this, entering, ticket, counter, pc => ticket[l, t]))
    }

    ghost function Abs(): (s: State)
      requires Valid()
      reads this, entering, ticket, counter, pc
      ensures s.Shaped(n)
    {
      State(seq(n, t requires 0 <= t < n requires Valid()
                   reads this, entering, ticket, counter, pc => ThreadState(t)), counter[..])
    }

    constructor (n: nat)
      ensures Valid() && Abs() == Init(n)
      ensures fresh(entering) && fresh(ticket) && fresh(counter) && fresh(pc)
    {
      this.n := n;
      entering := new int[LOCKS, n]((l, t) => 0);
      ticket := new int[LOCKS, n]((l, t) => 0);
      counter := new int[LOCKS](l => 0);
      pc := new PC[n](t => Idle);
      new;
      assert forall t :: 0 <= t < n ==> ThreadState(t) == Init(n).threads[t];
    }

    /** A volatile load. */
    method LoadTicket(l: nat, t: nat) returns (x: int)
      requires Valid() && l < LOCKS && t < n
      ensures x == Abs().Ticket(l, t)
    {
      x := ticket[l, t];
    }

    method LoadEntering(l: nat, t: nat) returns (x: int)
      requires Valid() && l < LOCKS && t < n
      ensures x == Abs().Entering(l, t)
    {
      x := entering[l, t];
    }

    method LoadCounter(l: nat) returns (x: int)
      requires Valid() && l < LOCKS
      ensures x == Abs().counter[l]
    {
      x := counter[l];
    }

    method Goto(me: nat, p: PC)
      requires Valid() && me < n && PCOk(p, n)
      modifies pc
      ensures Valid() && Abs() == State(old(Abs()).threads[me := old(Abs()).threads[me].(pc := p)], old(Abs()).counter)
    {
      ghost var s := Abs();
      pc[me] := p;
      assert forall t :: 0 <= t < n && t != me ==> ThreadState(t) == s.threads[t];
      assert ThreadState(me) == s.threads[me].(pc := p);
    }

    /** A volatile store; the thread then stands at next. */
    method StoreTicket(l: nat, me: nat, x: int, next: PC)
      requires Valid() && l < LOCKS && me < n && PCOk(next, n)
      modifies ticket, pc
      ensures Valid()
      ensures var th := old(Abs()).threads[me];
              Abs() == State(old(Abs()).threads[me := th.(ticket := th.ticket[l := x], pc := next)], old(Abs()).counter)
    {
      ghost var s := Abs();
      ticket[l, me] := x;
      pc[me] := next;
      assert forall t :: 0 <= t < n && t != me ==> ThreadState(t) == s.threads[t];
      assert ThreadState(me) == s.threads[me].(ticket := s.threads[me].ticket[l := x], pc := next);
    }

    method StoreEntering(l: nat, me: nat, x: int, next: PC)
      requires Valid() && l < LOCKS && me < n && PCOk(next, n)
      modifies entering, pc
      ensures Valid()
      ensures var th := old(Abs()).threads[me];
              Abs() == State(old(Abs()).threads[me := th.(entering := th.entering[l := x], pc := next)],
                old(Abs()).counter)
    {
      ghost var s := Abs();
      entering[l, me] := x;
      pc[me] := next;
      assert forall t :: 0 <= t < n && t != me ==> ThreadState(t) == s.threads[t];
      assert ThreadState(me) == s.threads[me].(entering := s.threads[me].entering[l := x], pc := next);
    }

    method StoreCounter(l: nat, me: nat, x: int, next: PC)
      requires Valid() && l < LOCKS && me < n && PCOk(next, n)
      modifies counter, pc
      ensures Valid()
      ensures Abs() == State(old(Abs()).threads[me := old(Abs()).threads[me].(pc := next)], old(Abs()).counter[l := x])
    {
      ghost var s := Abs();
      counter[l] := x;
      pc[me] := next;
      assert forall t :: 0 <= t < n && t != me ==> ThreadState(t) == s.threads[t];
      assert ThreadState(me) == s.threads[me].(pc := next);
    }

    /** The next access in claim_lock before the wait loop. */
    method StepDoorway(me: nat, pick: nat)
      requires Valid() && me < n && !Waits(pc[me]) && !Critical(pc[me])
      modifies entering, ticket, pc
      ensures Valid() && Abs() == Step(old(Abs()), n, me, pick)
    {
      ghost var s := Abs();
      var x: int;
      var p := pc[me];
      assert s.PC(me) == p && PCOk(p, n);
      hide Abs, ThreadState, Valid;
      match p {
        case Idle => Goto(me, SetEntering(pick % LOCKS));
        case SetEntering(l) => StoreEntering(l, me, 1, NextMax(l, 0, 0, n));
        case MaxTest(l, i, max) =>
          x := LoadTicket(l, i);
          Goto(me, if x > max then MaxLoad(l, i, max) else NextMax(l, i + 1, max, n));
        case MaxLoad(l, i, max) =>
          x := LoadTicket(l, i);
          Goto(me, NextMax(l, i + 1, x, n));
        case WriteTicket(l, max) => StoreTicket(l, me, max + 1, ClearEntering(l));
        case ClearEntering(l) => StoreEntering(l, me, 0, NextWait(l, 0, me, n));
      }
    }

    /** while (entering[l][i]), then the first operand of the ticket loop. */
    method StepPoll(me: nat, pick: nat)
      requires Valid() && me < n && (pc[me].WaitEntering? || pc[me].WaitNonzero?)
      modifies pc
      ensures Valid() && Abs() == Step(old(Abs()), n, me, pick)
    {
      ghost var s := Abs();
      var x: int;
      var p := pc[me];
      assert s.PC(me) == p && PCOk(p, n);
      hide Abs, ThreadState, Valid;
      match p {
        case WaitEntering(l, i) =>
          x := LoadEntering(l, i);
          assert s.threads[me := s.threads[me]] == s.threads;
          if x == 0 { Goto(me, WaitNonzero(l, i)); }
        case WaitNonzero(l, i) =>
          x := LoadTicket(l, i);
          Goto(me, if x != 0 then GreaterMine(l, i) else NextWait(l, i + 1, me, n));
      }
    }

    /** ticket[l][me] > ticket[l][i]. */
    method StepGreater(me: nat, pick: nat)
      requires Valid() && me < n && (pc[me].GreaterMine? || pc[me].GreaterOther?)
      modifies pc
      ensures Valid() && Abs() == Step(old(Abs()), n, me, pick)
    {
      ghost var s := Abs();
      var x: int;
      var p := pc[me];
      assert s.PC(me) == p && PCOk(p, n);
      hide Abs, ThreadState, Valid;
      match p {
        case GreaterMine(l, i) =>
          x := LoadTicket(l, me);
          Goto(me, GreaterOther(l, i, x));
        case GreaterOther(l, i, mine) =>
          x := LoadTicket(l, i);
          Goto(me, if mine > x then WaitNonzero(l, i) else EqualMine(l, i));
      }
    }

    /** ticket[l][me] == ticket[l][i] && me > i. */
    method StepEqual(me: nat, pick: nat)
      requires Valid() && me < n && (pc[me].EqualMine? || pc[me].EqualOther?)
      modifies pc
      ensures Valid() && Abs() == Step(old(Abs()), n, me, pick)
    {
      ghost var s := Abs();
      var x: int;
      var p := pc[me];
      assert s.PC(me) == p && PCOk(p, n);
      hide Abs, ThreadState, Valid;
      match p {
        case EqualMine(l, i) =>
          x := LoadTicket(l, me);
          Goto(me, EqualOther(l, i, x));
        case EqualOther(l, i, mine) =>
          x := LoadTicket(l, i);
          Goto(me, if mine == x && me > i then WaitNonzero(l, i) else NextWait(l, i + 1, me, n));
      }
    }

    /** The increment of the counter and free_lock. */
    method StepCritical(me: nat, pick: nat)
      requires Valid() && me < n && Critical(pc[me])
      modifies ticket, counter, pc
      ensures Valid() && Abs() == Step(old(Abs()), n, me, pick)
    {
      ghost var s := Abs();
      var x: int;
      var p := pc[me];
      assert s.PC(me) == p && PCOk(p, n);
      hide Abs, ThreadState, Valid;
      match p {
        case CounterLoad(l) =>
          x := LoadCounter(l);
          Goto(me, CounterStore(l, x));
        case CounterStore(l, v) => StoreCounter(l, me, v + 1, Release(l));
        case Release(l) => StoreTicket(l, me, 0, Idle);
      }
    }

    /** Thread me performs its next access. */
    method StepThread(me: nat, pick: nat)
      requires Valid() && me < n
      modifies entering, ticket, counter, pc
      ensures Valid() && Abs() == Step(old(Abs()), n, me, pick)
    {
      if pc[me].WaitEntering? || pc[me].WaitNonzero? {
        StepPoll(me, pick);
      } else if pc[me].GreaterMine? || pc[me].GreaterOther? {
        StepGreater(me, pick);
      } else if pc[me].EqualMine? || pc[me].EqualOther? {
        StepEqual(me, pick);
      } else if Critical(pc[me]) {
        StepCritical(me, pick);
      } else {
        StepDoorway(me, pick);
      }
    }
  }
}
