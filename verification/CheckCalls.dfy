/**
 Which checks of the queue are called (src/checkqueue.h). A thread handles the checks of its batch one by
 one, but calls one only while none before it is known to have failed.
 */
module CheckCalls {
  import opened CheckQueue

  /** The checks a thread has still to handle. */
  function TodoOf(l: Local): multiset<Check> {
    if l.Working? && l.done <= |l.batch| then multiset(l.batch[l.done..]) else multiset{}
  }

  type Bag = Local -> multiset<Check>

  const Todo: Bag := (l: Local) => TodoOf(l)

  function BagTo(f: Bag, locals: seq<Local>, n: nat): multiset<Check>
    requires n <= |locals|
  {
    if n == 0 then multiset{} else BagTo(f, locals, n - 1) + f(locals[n - 1])
  }

  /** Queued or still to be handled. */
  function Unhandled(s: State): multiset<Check> { multiset(s.queue) + BagTo(Todo, s.locals, |s.locals|) }

  lemma {:induction false} BagSame(f: Bag, locals: seq<Local>, locals': seq<Local>, n: nat)
    requires n <= |locals| && n <= |locals'| && forall u :: 0 <= u < n ==> f(locals'[u]) == f(locals[u])
    ensures BagTo(f, locals', n) == BagTo(f, locals, n)
  {
    if n > 0 { BagSame(f, locals, locals', n - 1); }
  }

  lemma {:induction false} BagUpdate(f: Bag, locals: seq<Local>, t: nat, l: Local, n: nat)
    requires t < n <= |locals|
    ensures BagTo(f, locals[t := l], n) + f(locals[t]) == BagTo(f, locals, n) + f(l)
  {
    if t < n - 1 {
      BagUpdate(f, locals, t, l, n - 1);
      var rest, rest', last := BagTo(f, locals, n - 1), BagTo(f, locals[t := l], n - 1), f(locals[n - 1]);
      assert locals[t := l][n - 1] == locals[n - 1];
      Exchange(rest', last, f(locals[t]));
      Exchange(rest, last, f(l));
    } else {
      BagSame(f, locals, locals[t := l], n - 1);
      Exchange(BagTo(f, locals, n - 1), f(l), f(locals[t]));
    }
  }

  /** The check a step handles. */
  function Handled(s: State, a: Action): multiset<Check> {
    if a.Exec? && a.t < |s.locals| && s.locals[a.t].Working? && s.locals[a.t].done < |s.locals[a.t].batch|
    then multiset{s.locals[a.t].batch[s.locals[a.t].done]} else multiset{}
  }

  /** The check a step calls: the one it handles, unless the thread knows of a failure. */
  function Called(s: State, a: Action): multiset<Check> {
    if a.Exec? && a.t < |s.locals| && s.locals[a.t].Working? && !s.locals[a.t].fOk then multiset{} else Handled(s, a)
  }

  function AddedBy(a: Action): multiset<Check> { if a.Add? then multiset(a.checks) else multiset{} }

  // ---- One step ----

  // Where a thread's checks go when only that thread changes.
  lemma Moved(q: seq<Check>, q': seq<Check>, locals: seq<Local>, t: nat, l: Local, h: multiset<Check>)
    requires t < |locals| && multiset(q') + Todo(l) + h == multiset(q) + Todo(locals[t])
    ensures multiset(q') + BagTo(Todo, locals[t := l], |locals|) + h == multiset(q) + BagTo(Todo, locals, |locals|)
  {
    BagUpdate(Todo, locals, t, l, |locals|);
    Rebalance(multiset(q), multiset(q'), Todo(locals[t]), Todo(l), h, BagTo(Todo, locals, |locals|),
              BagTo(Todo, locals[t := l], |locals|));
  }

  lemma Rebalance(q: multiset<Check>, q': multiset<Check>, l: multiset<Check>, l': multiset<Check>, h: multiset<Check>,
                  b: multiset<Check>, b': multiset<Check>)
    requires b' + l == b + l' && q' + l' + h == q + l
    ensures q' + b' + h == q + b
  {
    forall c ensures (q' + b' + h)[c] == (q + b)[c] {
      assert (b' + l)[c] == (b + l')[c] && (q' + l' + h)[c] == (q + l)[c];
    }
  }

  lemma TakeUnhandled(s: State, t: nat)
    requires t < |s.locals| && s.nTotal >= 0 && s.nIdle >= 0 && !s.locals[t].Working? && s.queue != []
    ensures Unhandled(Decide(s, t)) == Unhandled(s)
  {
    var n := BatchSize(s);
    var taken := TakenFromBack(s.queue, n);
    TakenParts(s.queue, n);
    assert taken[0..] == taken;
    assert Todo(Working(taken, 0, s.fAllOk)) == multiset(taken);
    Moved(s.queue, s.queue[..|s.queue| - n], s.locals, t, Working(taken, 0, s.fAllOk), multiset{});
  }

  lemma DecideUnhandled(s: State, t: nat)
    requires t < |s.locals| && s.nTotal >= 0 && s.nIdle >= 0 && !s.locals[t].Working?
    ensures Unhandled(Decide(s, t)) == Unhandled(s)
  {
    if s.queue != [] {
      TakeUnhandled(s, t);
    } else if t == 0 && s.nTodo == 0 {
      Moved(s.queue, s.queue, s.locals, t, Outside, multiset{});
    } else {
      Moved(s.queue, s.queue, s.locals, t, Waiting(false), multiset{});
    }
  }

  lemma AccountUnhandled(s: State, t: nat)
    requires t < |s.locals| && s.locals[t].Entering?
    ensures Unhandled(Account(s, t)) == Unhandled(s) && |Account(s, t).locals| == |s.locals|
  {
    Moved(s.queue, s.queue, s.locals, t, Entering([], true), multiset{});
  }

  lemma NotifyUnhandled(s: State, t: nat)
    requires 0 < |s.locals|
    ensures Unhandled(NotifyMaster(s, t)) == Unhandled(s)
  {
    assert Todo(Signalled(s.locals[0])) == Todo(s.locals[0]);
    Moved(s.queue, s.queue, s.locals, 0, Signalled(s.locals[0]), multiset{});
  }

  lemma CleanUpUnhandled(s: State, t: nat)
    requires t < |s.locals| && s.locals[t].Entering?
    ensures Unhandled(CleanUp(s, t)) == Unhandled(s)
  {
    if s.locals[t].batch != [] {
      AccountUnhandled(s, t);
      NotifyUnhandled(Account(s, t), t);
    }
  }

  lemma CleanUpLocked(s: State, t: nat)
    requires t < |s.locals| && s.locals[t].Entering?
    ensures t < |CleanUp(s, t).locals| && CleanUp(s, t).locals[t].Entering?
    ensures CleanUp(s, t).nTotal >= s.nTotal && CleanUp(s, t).nIdle == s.nIdle
  {
  }

  lemma ExecUnhandled(s: State, t: nat)
    requires Possible(s, Exec(t))
    ensures Unhandled(Next(s, Exec(t))) + Handled(s, Exec(t)) == Unhandled(s)
  {
    var l, s' := s.locals[t], Next(s, Exec(t));
    assert l.batch[l.done..] == [l.batch[l.done]] + l.batch[l.done + 1..];
    Moved(s.queue, s'.queue, s.locals, t, s'.locals[t], Handled(s, Exec(t)));
  }

  lemma AddUnhandled(s: State, checks: seq<Check>, woken: nat)
    ensures Unhandled(Added(s, checks, woken)) == Unhandled(s) + multiset(checks)
  {
    BagSame(Todo, s.locals, Added(s, checks, woken).locals, |s.locals|);
  }

  lemma EnterUnhandled(s: State, t: nat, nIdle: int)
    requires t < |s.locals| && !s.locals[t].Working?
    ensures Unhandled(s.(nIdle := nIdle, locals := s.locals[t := Entering([], true)])) == Unhandled(s)
  {
    BagSame(Todo, s.locals, s.locals[t := Entering([], true)], |s.locals|);
  }

  lemma LockUnhandled(s: State, t: nat)
    requires Possible(s, Lock(t))
    ensures Unhandled(Next(s, Lock(t))) == Unhandled(s)
  {
    CleanUpUnhandled(s, t);
    CleanUpLocked(s, t);
    DecideUnhandled(CleanUp(s, t), t);
  }

  lemma WakeUnhandled(s: State, t: nat)
    requires Possible(s, Wake(t))
    ensures Unhandled(Next(s, Wake(t))) == Unhandled(s)
  {
    var u := s.(nIdle := s.nIdle - 1, locals := s.locals[t := Entering([], true)]);
    assert Unhandled(u) == Unhandled(s) by { EnterUnhandled(s, t, s.nIdle - 1); }
    assert Unhandled(Decide(u, t)) == Unhandled(u) by { DecideUnhandled(u, t); }
  }

  /** Every step handles what it takes from the unhandled checks, and nothing is lost. */
  lemma StepUnhandled(s: State, a: Action)
    requires Possible(s, a)
    ensures Unhandled(Next(s, a)) + Handled(s, a) == Unhandled(s) + AddedBy(a)
  {
    match a
    case Add(checks, woken) => AddUnhandled(s, checks, woken);
    case CallWait => EnterUnhandled(s, 0, s.nIdle);
    case Start(t) => EnterUnhandled(s, t, s.nIdle);
    case Lock(t) => LockUnhandled(s, t);
    case Wake(t) => WakeUnhandled(s, t);
    case Exec(t) => ExecUnhandled(s, t);
  }

  // ---- Whole runs ----

  /** The checks called in a run, each as often as it is called. */
  function CallsIn(s: State, acts: seq<Action>): multiset<Check>
    requires IsRun(s, acts)
    decreases |acts|
  {
    if acts == [] then multiset{} else Called(s, acts[0]) + CallsIn(Next(s, acts[0]), acts[1..])
  }

  function AddedIn(acts: seq<Action>): multiset<Check> {
    if acts == [] then multiset{} else AddedBy(acts[0]) + AddedIn(acts[1..])
  }

  lemma CallsStep(called: multiset<Check>, handled: multiset<Check>, calls: multiset<Check>, before: multiset<Check>,
                  mid: multiset<Check>, after: multiset<Check>, a: multiset<Check>, more: multiset<Check>)
    requires called <= handled && mid + handled == before + a && calls + after <= mid + more
    ensures called + calls + after <= before + (a + more)
    ensures called == handled && calls + after == mid + more ==> called + calls + after == before + (a + more)
  {
    forall c ensures (called + calls + after)[c] <= (before + (a + more))[c] {
      assert (mid + handled)[c] == (before + a)[c] && (calls + after)[c] <= (mid + more)[c];
    }
    if called == handled && calls + after == mid + more {
      forall c ensures (called + calls + after)[c] == (before + (a + more))[c] {
        assert (mid + handled)[c] == (before + a)[c] && (calls + after)[c] == (mid + more)[c];
      }
    }
  }

  /** Under every interleaving no check is called more often than it was added. */
  lemma {:induction false} CalledOnce(s: State, acts: seq<Action>)
    requires IsRun(s, acts)
    ensures CallsIn(s, acts) + Unhandled(After(s, acts)) <= Unhandled(s) + AddedIn(acts)
    decreases |acts|
  {
    if acts != [] {
      var s' := Next(s, acts[0]);
      StepUnhandled(s, acts[0]);
      CalledOnce(s', acts[1..]);
      CallsStep(Called(s, acts[0]), Handled(s, acts[0]), CallsIn(s', acts[1..]), Unhandled(s), Unhandled(s'),
                Unhandled(After(s, acts)), AddedBy(acts[0]), AddedIn(acts[1..]));
    }
  }

  // ---- What a round calls ----

  /** No round ends on the way. */
  predicate SameRound(s: State, acts: seq<Action>)
    requires IsRun(s, acts)
    decreases |acts|
  {
    acts == [] || (Next(s, acts[0]).rounds == s.rounds && SameRound(Next(s, acts[0]), acts[1..]))
  }

  lemma RoundGrows(s: State, a: Action)
    requires Possible(s, a) && Next(s, a).rounds == s.rounds
    ensures Next(s, a).added == s.added + (if a.Add? then a.checks else [])
  {
  }

  lemma {:induction false} RoundAdds(s: State, acts: seq<Action>)
    requires IsRun(s, acts) && SameRound(s, acts)
    ensures multiset(After(s, acts).added) == multiset(s.added) + AddedIn(acts) && After(s, acts).rounds == s.rounds
    ensures SomeBad(s.added) ==> SomeBad(After(s, acts).added)
    decreases |acts|
  {
    if acts != [] {
      RoundGrows(s, acts[0]);
      RoundAdds(Next(s, acts[0]), acts[1..]);
    }
  }

  // While every check of the round passes, a step calls what it handles.
  lemma CallsAll(s: State, a: Action)
    requires Inv(s) && Possible(s, a) && !SomeBad(s.added)
    ensures Called(s, a) == Handled(s, a)
  {
    if a.Exec? { assert LocalOk(s.locals[a.t], s.added); }
  }

  /** In a round whose checks all pass, every check added is called or still waits to be, once for each time added. */
  lemma {:induction false} CalledAll(s: State, acts: seq<Action>)
    requires Inv(s) && IsRun(s, acts) && SameRound(s, acts) && !SomeBad(After(s, acts).added)
    ensures CallsIn(s, acts) + Unhandled(After(s, acts)) == Unhandled(s) + AddedIn(acts)
    decreases |acts|
  {
    if acts != [] {
      var s' := Next(s, acts[0]);
      RoundAdds(s, acts);
      CallsAll(s, acts[0]);
      StepUnhandled(s, acts[0]);
      StepInv(s, acts[0]);
      CalledAll(s', acts[1..]);
      CallsStep(Called(s, acts[0]), Handled(s, acts[0]), CallsIn(s', acts[1..]), Unhandled(s), Unhandled(s'),
                Unhandled(After(s, acts)), AddedBy(acts[0]), AddedIn(acts[1..]));
    }
  }

  lemma {:induction false} NothingHeldNothingTodo(locals: seq<Local>, n: nat)
    requires n <= |locals| && HeldTo(locals, n) == multiset{}
    ensures BagTo(Todo, locals, n) == multiset{}
  {
    if n > 0 {
      var rest, last := HeldTo(locals, n - 1), BatchOf(locals[n - 1]);
      assert forall c :: rest[c] <= (rest + last)[c] && last[c] <= (rest + last)[c];
      NothingHeldNothingTodo(locals, n - 1);
      EmptyBatch(locals[n - 1]);
    }
  }

  lemma EmptyBatch(l: Local)
    requires BatchOf(l) == multiset{}
    ensures Todo(l) == multiset{}
  {
    if l.Working? {
      assert |multiset(l.batch)| == 0;
      assert l.batch == [];
    }
  }

  /** Between rounds: nothing is added, queued or held. */
  predicate Fresh(s: State) { s.added == [] && s.queue == [] && Held(s.locals) == multiset{} }

  lemma FreshUnhandled(s: State)
    requires s.queue == [] && Held(s.locals) == multiset{}
    ensures Unhandled(s) == multiset{}
  {
    NothingHeldNothingTodo(s.locals, |s.locals|);
  }

  /**
   A whole round, under every interleaving: no check is called more often than it was added, and if Wait
   returns true, each was called exactly as often.
   */
  lemma RoundCalls(s: State, acts: seq<Action>, a: Action)
    requires Inv(s) && Fresh(s) && IsRun(s, acts) && SameRound(s, acts)
    requires Possible(After(s, acts), a) && |Next(After(s, acts), a).rounds| > |s.rounds|
    ensures var r := Next(After(s, acts), a).rounds;
            && |r| == |s.rounds| + 1 && multiset(r[|s.rounds|].added) == AddedIn(acts)
            && CallsIn(s, acts) <= AddedIn(acts) && (r[|s.rounds|].result ==> CallsIn(s, acts) == AddedIn(acts))
    ensures Fresh(Next(After(s, acts), a))
  {
    var e := After(s, acts);
    RunInv(s, acts);
    RoundAdds(s, acts);
    RoundEndsClean(e, a);
    FreshUnhandled(s);
    FreshUnhandled(Next(e, a));
    StepUnhandled(e, a);
    CalledOnce(s, acts);
    NoneLeft(CallsIn(s, acts), Unhandled(e), AddedIn(acts));
    if !SomeBad(e.added) { CalledAll(s, acts); }
  }

  lemma NoneLeft(calls: multiset<Check>, left: multiset<Check>, added: multiset<Check>)
    requires calls + left <= multiset{} + added
    ensures calls <= added
  {
    assert forall c :: calls[c] <= (calls + left)[c] <= (multiset{} + added)[c] == added[c];
  }

  // ---- After a failure ----

  /** Everyone who still handles checks knows of a failure. */
  predicate FailureKnown(s: State) {
    !s.fAllOk && forall t :: 0 <= t < |s.locals| ==> s.locals[t].Working? ==> !s.locals[t].fOk
  }

  lemma DecideKnown(s: State, t: nat)
    requires t < |s.locals| && s.nTotal >= 0 && s.nIdle >= 0 && FailureKnown(s) && Decide(s, t).rounds == s.rounds
    ensures FailureKnown(Decide(s, t))
  {
  }

  lemma StepKnown(s: State, a: Action)
    requires Possible(s, a) && FailureKnown(s) && Next(s, a).rounds == s.rounds
    ensures FailureKnown(Next(s, a)) && Called(s, a) == multiset{}
  {
    match a
    case Lock(t) => CleanUpLocked(s, t); DecideKnown(CleanUp(s, t), t);
    case Wake(t) => DecideKnown(s.(nIdle := s.nIdle - 1, locals := s.locals[t := Entering([], true)]), t);
    case _ =>
  }

  /** From then on no check is called any more in that round. */
  lemma {:induction false} NoMoreCalls(s: State, acts: seq<Action>)
    requires FailureKnown(s) && IsRun(s, acts) && SameRound(s, acts)
    ensures CallsIn(s, acts) == multiset{} && FailureKnown(After(s, acts))
    decreases |acts|
  {
    if acts != [] {
      StepKnown(s, acts[0]);
      NoMoreCalls(Next(s, acts[0]), acts[1..]);
    }
  }
}
