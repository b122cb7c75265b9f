/** The bakery lock (test-progs/src/lamport_spinlock.c) in runs without end in which every
    thread that is under way goes on moving: no thread that claims a lock waits for ever. */
module BakeryFair {
  import opened Bakery
  import opened Division

  /** A run without end. */
  ghost predicate Forever(n: nat, states: nat -> State, moves: nat -> Move) {
    && states(0) == Init(n)
    && (forall i: nat :: states(i).Shaped(n))
    && forall i: nat :: IsStep(n, states(i), moves(i), states(i + 1))
  }

  /** Thread t moves in step i or later. */
  ghost predicate MovesAfter(moves: nat -> Move, t: nat, i: nat) {
    exists j: nat :: j >= i && moves(j).thread == t
  }

  /** A thread that is under way moves again, if only to poll; an idle one need not. */
  ghost predicate Fair(n: nat, states: nat -> State, moves: nat -> Move)
    requires Forever(n, states, moves)
  {
    forall t: nat, i: nat :: t < n && states(i).PC(t) != Idle ==> MovesAfter(moves, t, i)
  }

  lemma {:induction false} ForeverInv(n: nat, states: nat -> State, moves: nat -> Move, i: nat)
    requires Forever(n, states, moves)
    ensures Inv(states(i), n)
  {
    hide Step, Inv, Init;
    if i == 0 {
      InitInv(n);
    } else {
      ForeverInv(n, states, moves, i - 1);
      assert IsStep(n, states(i - 1), moves(i - 1), states(i - 1 + 1));
      StepInv(states(i - 1), n, moves(i - 1).thread, moves(i - 1).pick);
    }
  }

  /** The state in which n threads that take turns are after i steps. */
  ghost function Turns(n: nat, i: nat): (s: State)
    requires n > 0
    ensures s.Shaped(n)
  {
    if i == 0 then Init(n) else Step(Turns(n, i - 1), n, (i - 1) % n, 0)
  }

  /** Taking turns is one of the fair runs. */
  lemma {:induction false} RoundRobin(n: nat)
    requires n > 0
    ensures Forever(n, (i: nat) => Turns(n, i), (i: nat) => Move(i % n, 0))
    ensures Fair(n, (i: nat) => Turns(n, i), (i: nat) => Move(i % n, 0))
  {
    hide Step, Init;
    var states := (i: nat) => Turns(n, i);
    var moves := (i: nat) => Move(i % n, 0);
    forall i: nat ensures IsStep(n, states(i), moves(i), states(i + 1)) {
      assert states(i + 1) == Step(Turns(n, i), n, i % n, 0);
    }
    forall t: nat, i: nat | t < n ensures MovesAfter(moves, t, i) {
      var j := i * n + t;
      TurnNotBefore(n, i);
      Parts(j, n, i, t);
      assert moves(j).thread == t;
    }
  }

  lemma TurnNotBefore(n: nat, i: nat)
    requires n > 0
    ensures i * n >= i
  {
    assert i * (n - 1) >= 0;
  }

  // ---------------------------------------------------------------- what has still to happen

  /** u holds a ticket for l and is not yet in its critical section. */
  predicate Queues(s: State, n: nat, l: nat, u: nat)
    requires s.Shaped(n) && u < n
  {
    Holds(s.PC(u), l) && !InCritical(s.PC(u), l)
  }

  /** Bounds the steps with which thread k can still get in the way of u: a thread that need
      not let u go first may finish and come back, but then it is behind u. */
  ghost function Weight(s: State, n: nat, l: nat, u: nat, k: nat): nat
    requires s.Shaped(n) && l < LOCKS && u < n && k < n
  {
    var p := s.PC(k);
    var door := if InDoorway(p, l) then DoorwayRank(p, n) else 0;
    if k == u || Older(s, n, l, u, k) || p == SetEntering(l) then door
    else if Choosing(p, l) || Holds(p, l) then 2 * n + 5 + door
    else 2 * n + 4
  }

  /** The weights of the threads below the bound. */
  ghost function Total(s: State, n: nat, l: nat, u: nat, bound: nat): nat
    requires s.Shaped(n) && l < LOCKS && u < n && bound <= n
  {
    if bound == 0 then 0 else Total(s, n, l, u, bound - 1) + Weight(s, n, l, u, bound - 1)
  }

  /** A step that changes what other threads may see of thread t at lock l. */
  predicate Shows(p: PC, l: nat) {
    InDoorway(p, l) || p == Release(l)
  }

  /** u stays older as long as it has not been served. */
  lemma OlderKept(s: State, n: nat, t: nat, pick: nat, l: nat, u: nat, k: nat)
    requires s.Shaped(n) && Inv(s, n) && t < n && l < LOCKS && u < n && k < n && Queues(s, n, l, u)
    requires Older(s, n, l, u, k)
    ensures Older(Step(s, n, t, pick), n, l, u, k)
  {
    hide Step, Older, Ordered, ThreadOk, Fresh;
    assert ThreadOk(s.threads[t], t, n) && ThreadOk(s.threads[u], u, n) && ThreadOk(s.threads[k], k, n);
    YoungerIsIn(s, n, l, u, k);
    YoungerStaysOut(s, n, l, u, k);
    assert Ordered(s, n, l, u, k) && (t == u || Ordered(s, n, l, t, u));
    OlderStep(s, n, t, pick, l, u, k);
  }

  lemma YoungerIsIn(s: State, n: nat, l: nat, u: nat, k: nat)
    requires s.Shaped(n) && l < LOCKS && u < n && k < n && Older(s, n, l, u, k)
    ensures u != k && (Choosing(s.PC(k), l) || Holds(s.PC(k), l))
  {
  }

  lemma WeightKept(s: State, n: nat, t: nat, pick: nat, l: nat, u: nat, k: nat)
    requires s.Shaped(n) && Inv(s, n) && t < n && l < LOCKS && u < n && k < n && k != t && Queues(s, n, l, u)
    ensures Weight(Step(s, n, t, pick), n, l, u, k) <= Weight(s, n, l, u, k)
  {
    if Older(s, n, l, u, k) { OlderKept(s, n, t, pick, l, u, k); }
    hide Older, Inv, DoorwayRank, Moved;
    assert Step(s, n, t, pick).threads[k] == s.threads[k];
  }

  /** Where a step leads as far as lock l is concerned. */
  lemma Onward(s: State, n: nat, t: nat, pick: nat, l: nat)
    requires s.Shaped(n) && t < n
    ensures var p, p' := s.PC(t), Step(s, n, t, pick).PC(t);
            && (InDoorway(p, l) ==> DoorwayRank(p', n) < DoorwayRank(p, n) && (Choosing(p', l) || Holds(p', l)))
            && (Choosing(p', l) ==> InDoorway(p, l))
            && (Holds(p', l) ==> Choosing(p, l) || (Holds(p, l) && p != Release(l)))
            && (p' == SetEntering(l) ==> !InDoorway(p, l) && !Holds(p, l))
            && (Holds(p, l) && p != Release(l) ==> Holds(p', l))
            && (p == Release(l) ==> p' == Idle)
  {
  }

  /** The thread that moves loses weight with every step that the others may see. */
  lemma WeightMoved(s: State, n: nat, t: nat, pick: nat, l: nat, u: nat)
    requires s.Shaped(n) && Inv(s, n) && t < n && l < LOCKS && u < n && Queues(s, n, l, u)
    ensures Weight(Step(s, n, t, pick), n, l, u, t) <= Weight(s, n, l, u, t)
    ensures Shows(s.PC(t), l) || Step(s, n, t, pick).PC(t) == SetEntering(l)
            ==> Weight(Step(s, n, t, pick), n, l, u, t) < Weight(s, n, l, u, t)
  {
    hide Older, Inv, DoorwayRank, Step;
    Onward(s, n, t, pick, l);
    if t != u && Older(s, n, l, u, t) {
      OlderKept(s, n, t, pick, l, u, t);
      YoungerIsIn(s, n, l, u, t);
      YoungerStaysOut(s, n, l, u, t);
    }
    if t != u && s.PC(t) == SetEntering(l) { FlagMakesYounger(s, n, pick, l, u, t); }
    FlagRank(Step(s, n, t, pick).PC(t), n, l);
  }

  lemma FlagRank(p: PC, n: nat, l: nat)
    requires PCOk(p, n)
    ensures p == SetEntering(l) ==> DoorwayRank(p, n) == 2 * n + 3
  {
  }

  lemma {:induction false} TotalStep(s: State, n: nat, t: nat, pick: nat, l: nat, u: nat, bound: nat)
    requires s.Shaped(n) && Inv(s, n) && t < n && l < LOCKS && u < n && bound <= n && Queues(s, n, l, u)
    ensures Total(Step(s, n, t, pick), n, l, u, bound) <= Total(s, n, l, u, bound)
    ensures t < bound && (Shows(s.PC(t), l) || Step(s, n, t, pick).PC(t) == SetEntering(l))
            ==> Total(Step(s, n, t, pick), n, l, u, bound) < Total(s, n, l, u, bound)
  {
    hide Inv, Step, Weight, Queues, Shows;
    if bound > 0 {
      TotalStep(s, n, t, pick, l, u, bound - 1);
      if t == bound - 1 {
        WeightMoved(s, n, t, pick, l, u);
      } else {
        WeightKept(s, n, t, pick, l, u, bound - 1);
      }
    }
  }

  // ---------------------------------------------------------------- whose step helps

  /** Thread h is in the doorway of l, or nobody is and h is the first in the queue. */
  ghost predicate Helps(s: State, n: nat, l: nat, h: nat)
    requires s.Shaped(n) && l < LOCKS && h < n
  {
    InDoorway(s.PC(h), l) || First(s, n, l, h)
  }

  /** Bounds the steps of the first in the queue before its release. */
  ghost function QueueRank(s: State, n: nat, l: nat, h: nat): nat
    requires s.Shaped(n) && h < n
  {
    var p := s.PC(h);
    if InDoorway(p, l) then 0
    else if Waiting(p, l) then 3 + WaitRank(s, n, h)
    else if p.CounterLoad? then 3
    else if p.CounterStore? then 2
    else if p.Release? then 1
    else 0
  }

  lemma Helper(s: State, n: nat, l: nat, u: nat) returns (h: nat)
    requires s.Shaped(n) && l < LOCKS && u < n && Holds(s.PC(u), l)
    ensures h < n && Helps(s, n, l, h)
  {
    if t: nat :| t < n && InDoorway(s.PC(t), l) {
      h := t;
    } else {
      h := LeastHolder(s, n, l, u, n);
    }
  }

  /** The others see nothing of a step outside the doorway and the release. */
  lemma Unseen(s: State, n: nat, t: nat, pick: nat, l: nat)
    requires s.Shaped(n) && t < n && l < LOCKS
    requires !Shows(s.PC(t), l) && Step(s, n, t, pick).PC(t) != SetEntering(l)
    ensures var s' := Step(s, n, t, pick);
            && s'.Ticket(l, t) == s.Ticket(l, t) && !InDoorway(s'.PC(t), l)
            && (Holds(s'.PC(t), l) <==> Holds(s.PC(t), l))
  {
  }

  lemma FirstKept(s: State, n: nat, t: nat, pick: nat, l: nat, h: nat)
    requires s.Shaped(n) && t < n && l < LOCKS && h < n && First(s, n, l, h)
    requires !Shows(s.PC(t), l) && Step(s, n, t, pick).PC(t) != SetEntering(l)
    ensures First(Step(s, n, t, pick), n, l, h)
  {
    hide Moved, Holds, InDoorway, Shows;
    var s' := Step(s, n, t, pick);
    Unseen(s, n, t, pick, l);
    forall k | 0 <= k < n
      ensures s'.Ticket(l, k) == s.Ticket(l, k) && !InDoorway(s'.PC(k), l)
      ensures Holds(s'.PC(k), l) <==> Holds(s.PC(k), l)
    {
      assert k != t ==> s'.threads[k] == s.threads[k];
    }
  }

  /** A third thread's unseen step leaves the first in the queue where it is. */
  lemma RankKept(s: State, n: nat, t: nat, pick: nat, l: nat, h: nat)
    requires s.Shaped(n) && t < n && l < LOCKS && h < n && h != t
    requires !Shows(s.PC(t), l) && Step(s, n, t, pick).PC(t) != SetEntering(l)
    ensures QueueRank(Step(s, n, t, pick), n, l, h) == QueueRank(s, n, l, h)
  {
    hide Moved, Holds, InDoorway, Shows;
    var s' := Step(s, n, t, pick);
    Unseen(s, n, t, pick, l);
    assert s'.threads[h] == s.threads[h];
    if Waiting(s.PC(h), l) {
      var i := s.PC(h).i;
      assert i != t ==> s'.threads[i] == s.threads[i];
      assert s'.Ticket(l, i) == s.Ticket(l, i);
    }
  }

  /** The first in the queue comes closer to its release with every step. */
  lemma RankFalls(s: State, n: nat, pick: nat, l: nat, h: nat)
    requires s.Shaped(n) && l < LOCKS && h < n && Inv(s, n) && First(s, n, l, h) && s.PC(h) != Release(l)
    ensures QueueRank(Step(s, n, h, pick), n, l, h) < QueueRank(s, n, l, h)
  {
    hide Inv, WaitRank;
    if Waiting(s.PC(h), l) {
      assert Step(s, n, h, pick) == Step(s, n, h, 0);
      FirstMoves(s, n, l, h);
    } else {
      hide First;
      FirstHolds(s, n, l, h);
    }
  }

  /** Either a step takes something out of the way of u, or the thread that helps still does,
      and it has come closer to its release if the step was its own. */
  lemma HelpStep(s: State, n: nat, t: nat, pick: nat, l: nat, u: nat, h: nat)
    requires s.Shaped(n) && Inv(s, n) && t < n && l < LOCKS && u < n && h < n
    requires Queues(s, n, l, u) && Helps(s, n, l, h)
    ensures var s' := Step(s, n, t, pick);
            || Total(s', n, l, u, n) < Total(s, n, l, u, n)
            || (&& Total(s', n, l, u, n) == Total(s, n, l, u, n)
                && Helps(s', n, l, h) && if t == h then QueueRank(s', n, l, h) < QueueRank(s, n, l, h)
                                         else QueueRank(s', n, l, h) == QueueRank(s, n, l, h))
  {
    hide Inv, Total, QueueRank, First, Step;
    TotalStep(s, n, t, pick, l, u, n);
    if !Shows(s.PC(t), l) && Step(s, n, t, pick).PC(t) != SetEntering(l) {
      if First(s, n, l, h) { FirstKept(s, n, t, pick, l, h); }
      if t == h {
        RankFalls(s, n, pick, l, h);
      } else {
        RankKept(s, n, t, pick, l, h);
        Others(s, n, t, pick, h);
      }
    }
  }

  lemma Others(s: State, n: nat, t: nat, pick: nat, k: nat)
    requires s.Shaped(n) && t < n && k < n && k != t
    ensures Step(s, n, t, pick).PC(k) == s.PC(k)
  {
  }

  // ---------------------------------------------------------------- theorems

  /** The moves of the threads that help, one after another, bring u into its critical
      section; the next of them is the move of h in step j. */
  lemma {:induction false} Served(n: nat, states: nat -> State, moves: nat -> Move,
                                  i: nat, l: nat, u: nat, h: nat, j: nat) returns (c: nat)
    requires Forever(n, states, moves) && Fair(n, states, moves) && l < LOCKS && u < n && h < n
    requires Queues(states(i), n, l, u) && Helps(states(i), n, l, h)
    requires j >= i && moves(j).thread == h
    ensures c >= i && InCritical(states(c).PC(u), l)
    decreases Total(states(i), n, l, u, n), QueueRank(states(i), n, l, h), j - i
  {
    hide Inv, Init, Step, Total, QueueRank, Helps;
    var s, s', t := states(i), states(i + 1), moves(i).thread;
    assert IsStep(n, s, moves(i), s');
    ForeverInv(n, states, moves, i);
    StillHolds(s, n, t, moves(i).pick, l, u);
    if InCritical(s'.PC(u), l) {
      c := i + 1;
    } else {
      HelpStep(s, n, t, moves(i).pick, l, u, h);
      if Total(s', n, l, u, n) < Total(s, n, l, u, n) {
        var h' := Helper(s', n, l, u);
        var j' := NextMove(n, states, moves, i + 1, l, h');
        c := Served(n, states, moves, i + 1, l, u, h', j');
      } else {
        var j' := j;
        if t == h { j' := NextMove(n, states, moves, i + 1, l, h); }
        c := Served(n, states, moves, i + 1, l, u, h, j');
      }
    }
  }

  lemma StillHolds(s: State, n: nat, t: nat, pick: nat, l: nat, u: nat)
    requires s.Shaped(n) && t < n && u < n && Queues(s, n, l, u)
    ensures Holds(Step(s, n, t, pick).PC(u), l)
  {
    if t == u { Onward(s, n, t, pick, l); } else { Others(s, n, t, pick, u); }
  }

  /** The next move of a thread that helps. */
  lemma NextMove(n: nat, states: nat -> State, moves: nat -> Move, i: nat, l: nat, h: nat) returns (j: nat)
    requires Forever(n, states, moves) && Fair(n, states, moves) && l < LOCKS && h < n
    requires Helps(states(i), n, l, h)
    ensures j >= i && moves(j).thread == h
  {
    assert states(i).PC(h) != Idle;
    assert MovesAfter(moves, h, i);
    j :| j >= i && moves(j).thread == h;
  }

  /** The doorway is left after a bounded number of the thread's own steps. */
  lemma {:induction false} Leaves(n: nat, states: nat -> State, moves: nat -> Move,
                                  i: nat, l: nat, u: nat, j: nat) returns (c: nat)
    requires Forever(n, states, moves) && Fair(n, states, moves) && l < LOCKS && u < n
    requires InDoorway(states(i).PC(u), l) && j >= i && moves(j).thread == u
    ensures c >= i && Holds(states(c).PC(u), l)
    decreases DoorwayRank(states(i).PC(u), n), j - i
  {
    hide Init, Step, DoorwayRank;
    var s, s', t := states(i), states(i + 1), moves(i).thread;
    assert IsStep(n, s, moves(i), s');
    if t != u {
      Others(s, n, t, moves(i).pick, u);
      c := Leaves(n, states, moves, i + 1, l, u, j);
    } else {
      Onward(s, n, t, moves(i).pick, l);
      if Holds(s'.PC(u), l) {
        c := i + 1;
      } else {
        var j' := NextMove(n, states, moves, i + 1, l, u);
        c := Leaves(n, states, moves, i + 1, l, u, j');
      }
    }
  }

  /** Nobody starves.  In every fair run without end, a thread that has called claim_lock(l)
      comes to its critical section, however many others compete and however often they return. */
  lemma NoStarvation(n: nat, states: nat -> State, moves: nat -> Move, i: nat, l: nat, u: nat)
    requires Forever(n, states, moves) && Fair(n, states, moves) && l < LOCKS && u < n
    requires InDoorway(states(i).PC(u), l) || Holds(states(i).PC(u), l)
    ensures exists c: nat :: c >= i && InCritical(states(c).PC(u), l)
  {
    hide Init, Step, First;
    var i' := i;
    if !Holds(states(i).PC(u), l) {
      var j := NextMove(n, states, moves, i, l, u);
      i' := Leaves(n, states, moves, i, l, u, j);
    }
    if InCritical(states(i').PC(u), l) { return; }
    var h := Helper(states(i'), n, l, u);
    var j := NextMove(n, states, moves, i', l, h);
    var c := Served(n, states, moves, i', l, u, h, j);
  }
}
