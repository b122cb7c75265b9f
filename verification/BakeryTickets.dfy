/** Tickets of the bakery lock (test-progs/src/lamport_spinlock.c): which one a thread takes, whom
    it lets in first, and that each thread can take each lock. */
module BakeryTickets {
  import opened Bakery

  /** Inside the critical section of lock l a thread has the least ticket of all that hold one, and
      of equal tickets the least index. */
  lemma CriticalFirst(n: nat, states: seq<State>, moves: seq<Move>, c: nat, l: nat, i: nat, j: nat)
    requires IsRun(n, states, moves) && c < |states| && l < LOCKS && i < n && j < n && i != j
    requires InCritical(states[c].PC(i), l) && states[c].Ticket(l, j) != 0
    ensures var mine, other := states[c].Ticket(l, i), states[c].Ticket(l, j);
      0 < mine <= other && (mine == other ==> i < j)
  {
    RunInv(n, states, moves, c);
    var s := states[c];
    assert ThreadOk(s.threads[i], i, n) && ThreadOk(s.threads[j], j, n);
    assert Ordered(s, n, l, i, j);
  }

  /** The greatest of the first k tickets of lock l, or 0. */
  function MaxTicket(s: State, n: nat, l: nat, k: nat): int
    requires s.Shaped(n) && l < LOCKS && k <= n
  {
    if k == 0 then 0
    else
      var m, x := MaxTicket(s, n, l, k - 1), s.Ticket(l, k - 1);
      if x > m then x else m
  }

  /** Thread me at another place. */
  function At(s: State, me: nat, p: PC): State
    requires me < |s.threads|
  {
    s.(threads := s.threads[me := s.threads[me].(pc := p)])
  }

  lemma OneMore(s: State, n: nat, me: nat, pick: nat, moves: seq<Move>)
    requires s.Shaped(n) && me < n && forall i :: 0 <= i < |moves| ==> moves[i].thread < n
    ensures After(s, n, [Move(me, pick)] + moves) == After(Step(s, n, me, pick), n, moves)
  {
    hide Step;
    assert ([Move(me, pick)] + moves)[1..] == moves;
  }

  /** The loop over the tickets, when no other thread moves. */
  lemma {:induction false} MaxFound(s: State, n: nat, l: nat, me: nat, i: nat) returns (moves: seq<Move>)
    requires s.Shaped(n) && l < LOCKS && me < n && i <= n && s.PC(me) == NextMax(l, i, MaxTicket(s, n, l, i), n)
    ensures forall j :: 0 <= j < |moves| ==> moves[j].thread == me
    ensures After(s, n, moves) == At(s, me, WriteTicket(l, MaxTicket(s, n, l, n)))
    decreases n - i
  {
    if i == n {
      moves := [];
      assert At(s, me, s.PC(me)) == s;
    } else {
      var max := MaxTicket(s, n, l, i + 1);
      var t := At(s, me, NextMax(l, i + 1, max, n));
      SameMax(s, t, n, l, i + 1);
      SameMax(s, t, n, l, n);
      moves := MaxFound(t, n, l, me, i + 1);
      assert At(t, me, WriteTicket(l, MaxTicket(s, n, l, n))) == At(s, me, WriteTicket(l, MaxTicket(s, n, l, n)));
      var before := OneTicket(s, n, l, me, i);
      AfterAppend(s, n, before, moves);
      moves := before + moves;
    }
  }

  lemma {:induction false} SameMax(s: State, t: State, n: nat, l: nat, k: nat)
    requires s.Shaped(n) && t.Shaped(n) && l < LOCKS && k <= n
    requires forall i :: 0 <= i < n ==> s.Ticket(l, i) == t.Ticket(l, i)
    ensures MaxTicket(t, n, l, k) == MaxTicket(s, n, l, k)
  {
    if k > 0 { SameMax(s, t, n, l, k - 1); }
  }

  /** One round of that loop. */
  lemma {:induction false} OneTicket(s: State, n: nat, l: nat, me: nat, i: nat) returns (moves: seq<Move>)
    requires s.Shaped(n) && l < LOCKS && me < n && i < n && s.PC(me) == MaxTest(l, i, MaxTicket(s, n, l, i))
    ensures forall j :: 0 <= j < |moves| ==> moves[j].thread == me
    ensures After(s, n, moves) == At(s, me, NextMax(l, i + 1, MaxTicket(s, n, l, i + 1), n))
  {
    var s1 := Step(s, n, me, 0);
    moves := [Move(me, 0)];
    OneMore(s, n, me, 0, []);
    assert moves + [] == moves;
    if s.Ticket(l, i) > MaxTicket(s, n, l, i) {
      assert s1 == At(s, me, MaxLoad(l, i, MaxTicket(s, n, l, i)));
      OneMore(s1, n, me, 0, []);
      OneMore(s, n, me, 0, moves);
      assert Step(s1, n, me, 0) == At(s, me, NextMax(l, i + 1, s.Ticket(l, i), n));
      moves := moves + [Move(me, 0)];
    }
  }

  /** A thread alone in the doorway of lock l takes a ticket greater by one than the greatest. */
  lemma {:induction false} TicketTaken(s: State, n: nat, l: nat, me: nat) returns (moves: seq<Move>)
    requires s.Shaped(n) && l < LOCKS && me < n && s.PC(me) == Idle
    ensures forall j :: 0 <= j < |moves| ==> moves[j].thread == me
    ensures var s' := After(s, n, moves); var th := s.threads[me];
      s' == s.(threads := s.threads[me := Thread(ClearEntering(l), th.entering[l := 1],
                                                 th.ticket[l := MaxTicket(s, n, l, n) + 1])])
  {
    hide After, MaxTicket;
    var s1 := Step(s, n, me, l);
    var s2 := Step(s1, n, me, 0);
    assert s1.PC(me) == SetEntering(l);
    SameMax(s, s2, n, l, n);
    NoTicket(s2, n, l);
    var loop := MaxFound(s2, n, l, me, 0);
    var s3 := After(s2, n, loop);
    OneMore(s3, n, me, 0, []);
    AfterAppend(s2, n, loop, [Move(me, 0)] + []);
    var rest := loop + ([Move(me, 0)] + []);
    OneMore(s1, n, me, 0, rest);
    OneMore(s, n, me, l, [Move(me, 0)] + rest);
    moves := [Move(me, l)] + ([Move(me, 0)] + rest);
    NoMoves(Step(s3, n, me, 0), n);
  }

  lemma NoTicket(s: State, n: nat, l: nat)
    requires s.Shaped(n) && l < LOCKS
    ensures MaxTicket(s, n, l, 0) == 0
  {
  }

  lemma NoMoves(s: State, n: nat)
    requires s.Shaped(n)
    ensures After(s, n, []) == s
  {
  }

  /** From every reachable state in which all threads are idle, each thread can come to be
      between claim_lock(l) and free_lock(l), for each lock l. */
  lemma EachLock(n: nat, states: seq<State>, moves: seq<Move>, c: nat, l: nat, me: nat) returns (next: seq<Move>)
    requires IsRun(n, states, moves) && c < |states| && l < LOCKS && me < n
    requires forall t :: 0 <= t < n ==> states[c].PC(t) == Idle
    ensures forall i :: 0 <= i < |next| ==> next[i].thread < n
    ensures InCritical(After(states[c], n, next).PC(me), l)
  {
    hide After, MaxTicket, Inv;
    var s := states[c];
    RunInv(n, states, moves, c);
    var taken := TicketTaken(s, n, l, me);
    var s1 := After(s, n, taken);
    AfterInv(s, n, taken);
    var s2 := Step(s1, n, me, 0);
    StepInv(s1, n, me, 0);
    assert Holds(s2.PC(me), l);
    forall t | 0 <= t < n && t != me
      ensures s2.PC(t) == Idle
    {
      assert states[c].PC(t) == Idle;
      assert s2.threads[t] == s1.threads[t] && s1.threads[t] == s.threads[t];
    }
    assert First(s2, n, l, me);
    var enter := FirstEnters(s2, n, l, me);
    OneMore(s1, n, me, 0, enter);
    next := taken + ([Move(me, 0)] + enter);
    AfterAppend(s, n, taken, [Move(me, 0)] + enter);
  }

  lemma {:induction false} AfterInv(s: State, n: nat, moves: seq<Move>)
    requires s.Shaped(n) && Inv(s, n) && forall i :: 0 <= i < |moves| ==> moves[i].thread < n
    ensures Inv(After(s, n, moves), n)
    decreases |moves|
  {
    hide Step, Inv;
    if moves != [] {
      StepInv(s, n, moves[0].thread, moves[0].pick);
      AfterInv(Step(s, n, moves[0].thread, moves[0].pick), n, moves[1..]);
    }
  }
}
