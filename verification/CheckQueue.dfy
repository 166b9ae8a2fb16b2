/**
 The check queue (src/checkqueue.h): a master pushes checks, workers and the master take batches of
 them, and Wait returns the conjunction. The protocol is a transition system with one step per
 critical section and one per executed check; thread 0 is the master.
 */
module CheckQueue {

  /** A verification job and what it will answer. */
  datatype Check = Check(id: nat, ok: bool)

  /**
   Where a thread is. `Entering` is just before the lock: with no batch on its first pass, else with a finished
   batch.
   */
  datatype Local =
    | Outside
    | Entering(batch: seq<Check>, fOk: bool)
    | Waiting(signalled: bool)
    | Working(batch: seq<Check>, done: nat, fOk: bool)

  /** One finished round: what was added and what Wait returned. */
  datatype Round = Round(added: seq<Check>, result: bool)

  /**
   The shared fields of the queue, the threads, and three history variables: the checks added in
   this round, those accounted for in this round, and the rounds finished so far.
   */
  datatype State = State(
    queue: seq<Check>, nIdle: int, nTotal: int, fAllOk: bool, nTodo: int, nBatchSize: nat,
    locals: seq<Local>, added: seq<Check>, settled: multiset<Check>, rounds: seq<Round>)

  datatype Action =
    // the master adds a batch; `woken` is the worker a single notification reaches
    | Add(checks: seq<Check>, woken: nat)
    | CallWait                              // the master calls Wait
    | Start(t: nat)                         // a worker thread starts
    | Lock(t: nat)                          // a thread enters the critical section at the top of the loop
    | Wake(t: nat)                          // a sleeping thread wakes, notified or spuriously
    | Exec(t: nat)                          // a thread handles the next check of its batch

  function Init(batchSize: nat, threads: nat): State {
    State([], 0, 0, true, 0, batchSize, seq(threads, _ => Outside), [], multiset{}, [])
  }

  // ---- The steps ----

  function Max(a: nat, b: nat): nat { if a < b then b else a }
  function Min(a: nat, b: nat): nat { if a < b then a else b }

  /** How many checks a thread takes at once. */
  function BatchSize(s: State): (n: nat)
    requires s.queue != [] && s.nTotal >= 0 && s.nIdle >= 0
    ensures 1 <= n <= |s.queue| && n <= Max(1, s.nBatchSize) && (n > 1 ==> n * (s.nTotal + s.nIdle + 1) <= |s.queue|)
    ensures n < s.nBatchSize ==> |s.queue| < (n + 1) * (s.nTotal + s.nIdle + 1)
  {
    BatchBounds(s.nBatchSize, |s.queue|, s.nTotal + s.nIdle + 1);
    Max(1, Min(s.nBatchSize, |s.queue| / (s.nTotal + s.nIdle + 1)))
  }

  lemma BatchBounds(limit: nat, queued: nat, threads: nat)
    requires queued > 0 && threads > 0
    ensures var n := Max(1, Min(limit, queued / threads));
            && n <= queued && (n > 1 ==> n * threads <= queued) && (n < limit ==> queued < (n + 1) * threads)
  {
    var q := queued / threads;
    var n := Max(1, Min(limit, q));
    Quotient(queued, threads);
    Multiple(q, threads);
    if n <= q { Smaller(n, q, threads); }
    if q <= n { Smaller(q + 1, n + 1, threads); }
  }

  lemma Quotient(a: nat, k: nat)
    requires k > 0
    ensures (a / k) * k <= a < (a / k) * k + k
  {
  }

  lemma Multiple(q: nat, k: nat)
    requires k > 0
    ensures q <= q * k && (q + 1) * k == q * k + k
  {
  }

  lemma Smaller(n: nat, q: nat, threads: nat)
    requires n <= q
    ensures n * threads <= q * threads
  {
  }

  /** The last `n` checks of the queue, taken from the back one by one. */
  function TakenFromBack(q: seq<Check>, n: nat): seq<Check>
    requires n <= |q|
  {
    if n == 0 then [] else [q[|q| - 1]] + TakenFromBack(q[..|q| - 1], n - 1)
  }

  /** The rest of the critical section: take a batch, return (master only), or go to sleep. */
  function Decide(s: State, t: nat): State
    requires t < |s.locals| && s.nTotal >= 0 && s.nIdle >= 0
  {
    if s.queue != [] then
      var n := BatchSize(s);
      s.(queue := s.queue[..|s.queue| - n],
         locals := s.locals[t := Working(TakenFromBack(s.queue, n), 0, s.fAllOk)])
    else if t == 0 && s.nTodo == 0 then
      s.(nTotal := s.nTotal - 1, fAllOk := true, locals := s.locals[t := Outside],
         added := [], settled := multiset{}, rounds := s.rounds + [Round(s.added, s.fAllOk)])
    else
      s.(nIdle := s.nIdle + 1, locals := s.locals[t := Waiting(false)])
  }

  function Signalled(l: Local): Local { if l.Waiting? then Waiting(true) else l }

  /** Account for a finished batch; the thread now holds the lock and no batch. */
  function Account(s: State, t: nat): State
    requires t < |s.locals| && s.locals[t].Entering?
  {
    var l := s.locals[t];
    s.(fAllOk := s.fAllOk && l.fOk, nTodo := s.nTodo - |l.batch|, settled := s.settled + multiset(l.batch),
       locals := s.locals[t := Entering([], true)])
  }

  /** Tell the master when a worker finds nothing left to do. */
  function NotifyMaster(s: State, t: nat): State
    requires 0 < |s.locals|
  {
    if s.nTodo == 0 && t != 0 then s.(locals := s.locals[0 := Signalled(s.locals[0])]) else s
  }

  /** The clean-up at the top of the loop: account for the previous batch, or join on the first pass. */
  function CleanUp(s: State, t: nat): State
    requires t < |s.locals| && s.locals[t].Entering?
  {
    if s.locals[t].batch == [] then s.(nTotal := s.nTotal + 1) else NotifyMaster(Account(s, t), t)
  }

  /** Which sleeping workers a call to Add notifies. */
  function Notified(locals: seq<Local>, count: nat, woken: nat): seq<Local> {
    seq(|locals|, t requires 0 <= t < |locals| =>
          if t != 0 && (count > 1 || (count == 1 && t == woken)) then Signalled(locals[t]) else locals[t])
  }

  /** A worker that waits and was not notified. */
  predicate Sleeps(s: State, t: nat) { 0 < t < |s.locals| && s.locals[t] == Waiting(false) }

  predicate Enabled(s: State, a: Action) {
    match a
    case Add(checks, woken) =>
      // a single notification goes to a sleeping worker, if there is one
      0 < |s.locals| && s.locals[0].Outside? &&
        (|checks| == 1 && (exists t :: 0 < t < |s.locals| && Sleeps(s, t)) ==> Sleeps(s, woken))
    case CallWait => 0 < |s.locals| && s.locals[0].Outside?
    case Start(t) => 0 < t < |s.locals| && s.locals[t].Outside?
    case Lock(t) => t < |s.locals| && s.locals[t].Entering?
    case Wake(t) => t < |s.locals| && s.locals[t].Waiting?
    case Exec(t) => t < |s.locals| && s.locals[t].Working? && s.locals[t].done < |s.locals[t].batch|
  }

  function Added(s: State, checks: seq<Check>, woken: nat): State {
    s.(queue := s.queue + checks, nTodo := s.nTodo + |checks|, added := s.added + checks,
       locals := Notified(s.locals, |checks|, woken))
  }

  function Next(s: State, a: Action): State
    requires Enabled(s, a) && s.nTotal >= 0 && s.nIdle >= (if a.Wake? then 1 else 0)
  {
    match a
    case Add(checks, woken) => Added(s, checks, woken)
    case CallWait => s.(locals := s.locals[0 := Entering([], true)])
    case Start(t) => s.(locals := s.locals[t := Entering([], true)])
    case Lock(t) => Decide(CleanUp(s, t), t)
    case Wake(t) => Decide(s.(nIdle := s.nIdle - 1, locals := s.locals[t := Entering([], true)]), t)
    case Exec(t) =>
      var l := s.locals[t];
      var ok := l.fOk && l.batch[l.done].ok;
      s.(locals :=
         s.locals[t := if l.done + 1 == |l.batch| then Entering(l.batch, ok) else Working(l.batch, l.done + 1, ok)])
  }

  // ---- Sums over threads ----

  function SumTo(f: Local -> nat, locals: seq<Local>, n: nat): nat
    requires n <= |locals|
  {
    if n == 0 then 0 else SumTo(f, locals, n - 1) + f(locals[n - 1])
  }

  function Sum(f: Local -> nat, locals: seq<Local>): nat { SumTo(f, locals, |locals|) }

  lemma {:induction false} SumUpdate(f: Local -> nat, locals: seq<Local>, t: nat, l: Local, n: nat)
    requires t < |locals| && n <= |locals|
    ensures SumTo(f, locals[t := l], n) + (if t < n then f(locals[t]) else 0) ==
            SumTo(f, locals, n) + (if t < n then f(l) else 0)
  {
    if n > 0 { SumUpdate(f, locals, t, l, n - 1); }
  }

  /** The checks of a thread's batch that are not accounted for yet. */
  function BatchOf(l: Local): multiset<Check> {
    if l.Entering? || l.Working? then multiset(l.batch) else multiset{}
  }

  function HeldTo(locals: seq<Local>, n: nat): multiset<Check>
    requires n <= |locals|
  {
    if n == 0 then multiset{} else HeldTo(locals, n - 1) + BatchOf(locals[n - 1])
  }

  function Held(locals: seq<Local>): multiset<Check> { HeldTo(locals, |locals|) }

  lemma {:induction false} HeldSame(locals: seq<Local>, locals': seq<Local>, n: nat)
    requires n <= |locals| && n <= |locals'|
    requires forall u :: 0 <= u < n ==> BatchOf(locals'[u]) == BatchOf(locals[u])
    ensures HeldTo(locals', n) == HeldTo(locals, n)
  {
    if n > 0 { HeldSame(locals, locals', n - 1); }
  }

  lemma Exchange(a: multiset<Check>, b: multiset<Check>, c: multiset<Check>)
    ensures a + b + c == a + c + b
  {
  }

  lemma {:induction false} HeldUpdate(locals: seq<Local>, t: nat, l: Local, n: nat)
    requires t < n <= |locals|
    ensures HeldTo(locals[t := l], n) + BatchOf(locals[t]) == HeldTo(locals, n) + BatchOf(l)
  {
    if t < n - 1 {
      HeldUpdate(locals, t, l, n - 1);
      var rest, rest', last := HeldTo(locals, n - 1), HeldTo(locals[t := l], n - 1), BatchOf(locals[n - 1]);
      assert locals[t := l][n - 1] == locals[n - 1];
      Exchange(rest', last, BatchOf(locals[t]));
      Exchange(rest, last, BatchOf(l));
    } else {
      HeldSame(locals, locals[t := l], n - 1);
      Exchange(HeldTo(locals, n - 1), BatchOf(l), BatchOf(locals[t]));
    }
  }

  lemma {:induction false} HeldContains(locals: seq<Local>, t: nat, n: nat)
    requires t < n <= |locals|
    ensures BatchOf(locals[t]) <= HeldTo(locals, n)
  {
    if t < n - 1 { HeldContains(locals, t, n - 1); }
  }

  lemma {:induction false} HeldSome(locals: seq<Local>, n: nat) returns (t: nat)
    requires n <= |locals| && |HeldTo(locals, n)| > 0
    ensures t < |locals| && BatchOf(locals[t]) != multiset{}
  {
    if BatchOf(locals[n - 1]) != multiset{} { return n - 1; }
    t := HeldSome(locals, n - 1);
  }

  // ---- The invariant ----

  const Idle: Local -> nat := (l: Local) => if l.Waiting? then 1 else 0
  const Joined: Local -> nat := (l: Local) => if l.Outside? || (l.Entering? && l.batch == []) then 0 else 1

  predicate AllOk(cs: multiset<Check>) { forall c :: c in cs ==> c.ok }

  predicate SomeBad(cs: seq<Check>) { exists c :: c in cs && !c.ok }

  /** A thread's running verdict is true only of checks that passed, and false only if some check fails. */
  predicate LocalOk(l: Local, added: seq<Check>) {
    && (l.Working? ==> l.done < |l.batch| && (l.fOk ==> forall i :: 0 <= i < l.done ==> l.batch[i].ok))
    && (l.Entering? && l.fOk ==> forall i :: 0 <= i < |l.batch| ==> l.batch[i].ok)
    && (l.Entering? && l.batch == [] ==> l.fOk)
    && ((l.Working? || l.Entering?) && !l.fOk ==> SomeBad(added))
  }

  /** Counters are exact; `extra` threads have joined without it showing in their state yet. */
  predicate Counted(s: State, extra: nat) {
    && s.nIdle == Sum(Idle, s.locals)
    && s.nTotal == Sum(Joined, s.locals) + extra
    && s.nTodo == |s.queue| + |Held(s.locals)|
  }

  /** Every check added in this round is queued, in one batch, or accounted for, exactly once. */
  predicate Conserved(s: State) {
    multiset(s.added) == multiset(s.queue) + Held(s.locals) + s.settled
  }

  predicate Truthful(s: State) {
    && (s.fAllOk ==> AllOk(s.settled))
    && (!s.fAllOk ==> SomeBad(s.added))
    && forall t :: 0 <= t < |s.locals| ==> LocalOk(s.locals[t], s.added)
  }

  /** The master sleeps only on an empty queue, and with nothing left to do only if it was notified. */
  predicate MasterSleep(s: State) {
    && |s.locals| > 0
    && (s.locals[0].Waiting? ==> s.queue == [] && (s.nTodo == 0 ==> s.locals[0].signalled))
  }

  predicate RoundsCorrect(s: State) {
    forall i :: 0 <= i < |s.rounds| ==> (s.rounds[i].result <==> !SomeBad(s.rounds[i].added))
  }

  predicate Inv(s: State) {
    Counted(s, 0) && Conserved(s) && Truthful(s) && MasterSleep(s) && RoundsCorrect(s)
  }

  /** Inside the critical section, after the clean-up: thread `t` holds the lock and no batch. */
  predicate InvLocked(s: State, t: nat) {
    && t < |s.locals| && s.locals[t] == Entering([], true)
    && Counted(s, 1) && Conserved(s) && Truthful(s) && MasterSleep(s) && RoundsCorrect(s)
  }

  // ---- Every step keeps the invariant ----

  lemma Cancel(a: multiset<Check>, b: multiset<Check>, x: multiset<Check>)
    requires a + x == b + x
    ensures a == b
  {
    assert forall c :: a[c] == (a + x)[c] - x[c];
    assert forall c :: b[c] == (b + x)[c] - x[c];
  }

  lemma LocalsUpdate(locals: seq<Local>, t: nat, l: Local)
    requires t < |locals|
    ensures Sum(Idle, locals[t := l]) + Idle(locals[t]) == Sum(Idle, locals) + Idle(l)
    ensures Sum(Joined, locals[t := l]) + Joined(locals[t]) == Sum(Joined, locals) + Joined(l)
    ensures BatchOf(l) == BatchOf(locals[t]) ==> Held(locals[t := l]) == Held(locals)
    ensures BatchOf(locals[t]) == multiset{} ==> Held(locals[t := l]) == Held(locals) + BatchOf(l)
    ensures BatchOf(l) == multiset{} ==> Held(locals[t := l]) + BatchOf(locals[t]) == Held(locals)
  {
    SumUpdate(Idle, locals, t, l, |locals|);
    SumUpdate(Joined, locals, t, l, |locals|);
    HeldUpdate(locals, t, l, |locals|);
    if BatchOf(l) == BatchOf(locals[t]) { Cancel(Held(locals[t := l]), Held(locals), BatchOf(l)); }
    if BatchOf(locals[t]) == multiset{} { assert Held(locals[t := l]) + multiset{} == Held(locals[t := l]); }
    if BatchOf(l) == multiset{} { assert Held(locals) + multiset{} == Held(locals); }
  }

  lemma {:induction false} TakenParts(q: seq<Check>, n: nat)
    requires n <= |q|
    ensures |TakenFromBack(q, n)| == n
    ensures multiset(q) == multiset(q[..|q| - n]) + multiset(TakenFromBack(q, n))
  {
    if n == 0 {
      assert q[..|q|] == q;
    } else {
      var r, x := q[..|q| - 1], q[|q| - 1];
      TakenParts(r, n - 1);
      assert q == r + [x];
      assert r[..|r| - (n - 1)] == q[..|q| - n];
      TakenLast(r, x, q[..|q| - n], TakenFromBack(r, n - 1));
    }
  }

  lemma TakenLast(r: seq<Check>, x: Check, front: seq<Check>, taken: seq<Check>)
    requires multiset(r) == multiset(front) + multiset(taken)
    ensures multiset(r + [x]) == multiset(front) + multiset([x] + taken)
  {
  }

  predicate Locked(s: State, t: nat) {
    t < |s.locals| && s.locals[t] == Entering([], true) && s.nTotal >= 0 && s.nIdle >= 0
  }

  // The batch moves from the queue to the thread.
  lemma TakeMoves(s: State, t: nat)
    requires Locked(s, t) && s.queue != []
    ensures var n := BatchSize(s); var taken := TakenFromBack(s.queue, n); var s' := Decide(s, t);
            && multiset(s.queue) == multiset(s'.queue) + multiset(taken) && |multiset(taken)| == n
            && Held(s'.locals) == Held(s.locals) + multiset(taken)
            && Sum(Idle, s'.locals) == Sum(Idle, s.locals) && Sum(Joined, s'.locals) == Sum(Joined, s.locals) + 1
  {
    var n := BatchSize(s);
    TakenParts(s.queue, n);
    TakeLocals(s.locals, t, TakenFromBack(s.queue, n), s.fAllOk);
  }

  lemma TakeLocals(locals: seq<Local>, t: nat, taken: seq<Check>, ok: bool)
    requires t < |locals| && locals[t] == Entering([], true)
    ensures var locals' := locals[t := Working(taken, 0, ok)];
            && Held(locals') == Held(locals) + multiset(taken)
            && Sum(Idle, locals') == Sum(Idle, locals) && Sum(Joined, locals') == Sum(Joined, locals) + 1
  {
    LocalsUpdate(locals, t, Working(taken, 0, ok));
  }

  lemma Regroup(q: multiset<Check>, taken: multiset<Check>, h: multiset<Check>, settled: multiset<Check>)
    ensures (q + taken) + h + settled == q + (h + taken) + settled
  {
  }

  lemma TakeCounted(s: State, t: nat)
    requires Locked(s, t) && s.queue != [] && Counted(s, 1) && Conserved(s)
    ensures Counted(Decide(s, t), 0) && Conserved(Decide(s, t))
  {
    var taken := TakenFromBack(s.queue, BatchSize(s));
    TakeMoves(s, t);
    Regroup(multiset(Decide(s, t).queue), multiset(taken), Held(s.locals), s.settled);
  }

  lemma TakeTruthful(s: State, t: nat)
    requires Locked(s, t) && s.queue != [] && Truthful(s)
    ensures Truthful(Decide(s, t))
  {
    var s' := Decide(s, t);
    TakenParts(s.queue, BatchSize(s));
    forall u | 0 <= u < |s'.locals| ensures LocalOk(s'.locals[u], s'.added) {
      assert u != t ==> LocalOk(s.locals[u], s.added);
    }
  }

  lemma DecideTake(s: State, t: nat)
    requires InvLocked(s, t) && s.queue != [] && s.nTotal >= 0 && s.nIdle >= 0
    ensures Inv(Decide(s, t))
  {
    TakeCounted(s, t);
    TakeTruthful(s, t);
  }

  lemma ReturnCounted(s: State)
    requires Locked(s, 0) && s.queue == [] && s.nTodo == 0 && Counted(s, 1) && Conserved(s)
    ensures Counted(Decide(s, 0), 0) && Conserved(Decide(s, 0))
    ensures multiset(s.added) == s.settled && Held(s.locals) == multiset{}
  {
    LocalsUpdate(s.locals, 0, Outside);
    assert multiset(s.queue) == multiset{};
    assert multiset{} + multiset{} + s.settled == s.settled;
  }

  // With nothing held, no thread carries a verdict over.
  lemma ReturnTruthful(s: State)
    requires Locked(s, 0) && s.queue == [] && s.nTodo == 0 && Truthful(s) && Held(s.locals) == multiset{}
    ensures Truthful(Decide(s, 0))
  {
    var s' := Decide(s, 0);
    forall u | 0 <= u < |s'.locals| ensures LocalOk(s'.locals[u], s'.added) {
      HeldContains(s.locals, u, |s.locals|);
      assert LocalOk(s.locals[u], s.added);
      var l := s.locals[u];
      assert l.Working? || l.Entering? ==> |multiset(l.batch)| == 0;
    }
  }

  lemma DecideReturn(s: State)
    requires InvLocked(s, 0) && s.queue == [] && s.nTodo == 0 && s.nTotal >= 0 && s.nIdle >= 0
    ensures Inv(Decide(s, 0))
  {
    ReturnCounted(s);
    ReturnTruthful(s);
    assert forall c :: c in s.added <==> c in multiset(s.added);
  }

  lemma DecideSleep(s: State, t: nat)
    requires InvLocked(s, t) && s.queue == [] && !(t == 0 && s.nTodo == 0) && s.nTotal >= 0 && s.nIdle >= 0
    ensures Inv(Decide(s, t))
  {
    LocalsUpdate(s.locals, t, Waiting(false));
  }

  lemma DecideInv(s: State, t: nat)
    requires InvLocked(s, t) && s.nTotal >= 0 && s.nIdle >= 0
    ensures Inv(Decide(s, t))
  {
    if s.queue != [] { DecideTake(s, t); }
    else if t == 0 && s.nTodo == 0 { DecideReturn(s); }
    else { DecideSleep(s, t); }
  }

  lemma AccountCounted(s: State, t: nat)
    requires t < |s.locals| && s.locals[t].Entering? && s.locals[t].batch != []
    requires Counted(s, 0) && Conserved(s)
    ensures Counted(Account(s, t), 1) && Conserved(Account(s, t))
  {
    var l, s' := s.locals[t], Account(s, t);
    LocalsUpdate(s.locals, t, Entering([], true));
    var q, h, b := multiset(s.queue), Held(s'.locals), multiset(l.batch);
    assert h + b == Held(s.locals) && |b| == |l.batch|;
    assert q + (h + b) + s.settled == q + h + (s.settled + b);
  }

  lemma AccountTruthful(s: State, t: nat)
    requires t < |s.locals| && s.locals[t].Entering? && s.locals[t].batch != []
    requires Truthful(s)
    ensures Truthful(Account(s, t))
  {
    var l, s' := s.locals[t], Account(s, t);
    assert LocalOk(l, s.added);
    assert forall c :: c in multiset(l.batch) <==> c in l.batch;
    forall u | 0 <= u < |s'.locals| ensures LocalOk(s'.locals[u], s'.added) {
      assert u != t ==> LocalOk(s.locals[u], s.added);
    }
  }

  // A notification changes nothing that is counted.
  lemma NotifyKeeps(s: State, t: nat)
    requires 0 < |s.locals| && Counted(s, 1) && Conserved(s) && Truthful(s)
    ensures var s' := NotifyMaster(s, t); Counted(s', 1) && Conserved(s') && Truthful(s')
  {
    var s' := NotifyMaster(s, t);
    LocalsUpdate(s.locals, 0, Signalled(s.locals[0]));
    forall u | 0 <= u < |s'.locals| ensures LocalOk(s'.locals[u], s'.added) {
      assert LocalOk(s.locals[u], s.added);
    }
  }

  lemma CleanUpInv(s: State, t: nat)
    requires Inv(s) && t < |s.locals| && s.locals[t].Entering?
    ensures InvLocked(CleanUp(s, t), t)
  {
    if s.locals[t].batch == [] {
      FirstTime(s, t);
    } else {
      AccountCounted(s, t);
      AccountTruthful(s, t);
      NotifyKeeps(Account(s, t), t);
      NotifySleep(s, t);
    }
  }

  lemma FirstTime(s: State, t: nat)
    requires Inv(s) && t < |s.locals| && s.locals[t].Entering? && s.locals[t].batch == []
    ensures InvLocked(s.(nTotal := s.nTotal + 1), t)
  {
    assert LocalOk(s.locals[t], s.added);
  }

  // A worker that finishes the last check notifies the master.
  lemma NotifySleep(s: State, t: nat)
    requires MasterSleep(s) && RoundsCorrect(s) && t < |s.locals| && s.locals[t].Entering?
    ensures var s' := NotifyMaster(Account(s, t), t);
            MasterSleep(s') && RoundsCorrect(s') && |s'.locals| == |s.locals| && s'.locals[t] == Entering([], true)
  {
  }

  lemma {:induction false} NotifiedSame(locals: seq<Local>, locals': seq<Local>, n: nat)
    requires |locals'| == |locals| && n <= |locals|
    requires forall t :: 0 <= t < |locals| ==> locals'[t] == locals[t] || locals'[t] == Signalled(locals[t])
    ensures SumTo(Idle, locals', n) == SumTo(Idle, locals, n) && SumTo(Joined, locals', n) == SumTo(Joined, locals, n)
    ensures HeldTo(locals', n) == HeldTo(locals, n)
  {
    if n > 0 { NotifiedSame(locals, locals', n - 1); }
  }

  lemma AddInv(s: State, checks: seq<Check>, woken: nat)
    requires Inv(s) && s.locals[0].Outside?
    ensures Inv(Added(s, checks, woken))
  {
    var s' := Added(s, checks, woken);
    NotifiedSame(s.locals, s'.locals, |s.locals|);
    assert multiset(s'.added) == multiset(s.added) + multiset(checks);
    assert multiset(s'.queue) == multiset(s.queue) + multiset(checks);
    assert SomeBad(s.added) ==> SomeBad(s'.added);
    forall t | 0 <= t < |s.locals| ensures LocalOk(s'.locals[t], s'.added) {
      assert LocalOk(s.locals[t], s.added);
    }
  }

  /** New work wakes a sleeping worker if there is one, and all of them if there is more than one check. */
  lemma AddWakes(s: State, checks: seq<Check>, woken: nat, t: nat)
    requires Enabled(s, Add(checks, woken)) && s.nTotal >= 0 && s.nIdle >= 0 && checks != [] && Sleeps(s, t)
    ensures exists u :: 0 < u < |s.locals| && Sleeps(s, u) && Next(s, Add(checks, woken)).locals[u] == Waiting(true)
    ensures |checks| > 1 ==> Next(s, Add(checks, woken)).locals[t] == Waiting(true)
  {
    var u := if |checks| > 1 then t else woken;
    assert Sleeps(s, u) && Next(s, Add(checks, woken)).locals[u] == Waiting(true);
  }

  lemma EnterInv(s: State, t: nat)
    requires Inv(s) && t < |s.locals| && s.locals[t].Outside?
    ensures Inv(s.(locals := s.locals[t := Entering([], true)]))
  {
    LocalsUpdate(s.locals, t, Entering([], true));
  }

  lemma WakeInv(s: State, t: nat)
    requires Inv(s) && t < |s.locals| && s.locals[t].Waiting?
    ensures s.nIdle >= 1
    ensures InvLocked(s.(nIdle := s.nIdle - 1, locals := s.locals[t := Entering([], true)]), t)
  {
    LocalsUpdate(s.locals, t, Entering([], true));
    assert Held(s.locals[t := Entering([], true)]) == Held(s.locals);
  }

  lemma ExecTruthful(s: State, t: nat)
    requires Enabled(s, Exec(t)) && s.nTotal >= 0 && s.nIdle >= 0
    requires Truthful(s) && Conserved(s)
    ensures Truthful(Next(s, Exec(t)))
  {
    var l, s' := s.locals[t], Next(s, Exec(t));
    HeldContains(s.locals, t, |s.locals|);
    assert l.batch[l.done] in multiset(l.batch);
    assert l.batch[l.done] in multiset(s.added);
    forall u | 0 <= u < |s'.locals| ensures LocalOk(s'.locals[u], s'.added) {
      assert LocalOk(s.locals[u], s.added);
    }
  }

  lemma ExecInv(s: State, t: nat)
    requires Inv(s) && Enabled(s, Exec(t)) && s.nTotal >= 0 && s.nIdle >= 0
    ensures Inv(Next(s, Exec(t)))
  {
    ExecTruthful(s, t);
    LocalsUpdate(s.locals, t, Next(s, Exec(t)).locals[t]);
  }

  /** One step, any action: enabled actions are possible and keep the invariant. */
  lemma StepInv(s: State, a: Action)
    requires Inv(s) && Enabled(s, a)
    ensures s.nTotal >= 0 && s.nIdle >= (if a.Wake? then 1 else 0)
    ensures Inv(Next(s, a))
  {
    match a
    case Add(checks, woken) => AddInv(s, checks, woken);
    case CallWait => EnterInv(s, 0);
    case Start(t) => EnterInv(s, t);
    case Lock(t) => CleanUpInv(s, t); DecideInv(CleanUp(s, t), t);
    case Wake(t) => WakeInv(s, t); DecideInv(s.(nIdle := s.nIdle - 1, locals := s.locals[t := Entering([], true)]), t);
    case Exec(t) => ExecInv(s, t);
  }

  // ---- Whole runs ----

  predicate Possible(s: State, a: Action) {
    Enabled(s, a) && s.nTotal >= 0 && s.nIdle >= (if a.Wake? then 1 else 0)
  }

  predicate IsRun(s: State, acts: seq<Action>)
    decreases |acts|
  {
    acts == [] || (Possible(s, acts[0]) && IsRun(Next(s, acts[0]), acts[1..]))
  }

  function After(s: State, acts: seq<Action>): State
    requires IsRun(s, acts)
    decreases |acts|
  {
    if acts == [] then s else After(Next(s, acts[0]), acts[1..])
  }

  lemma {:induction false} RunInv(s: State, acts: seq<Action>)
    requires Inv(s) && IsRun(s, acts)
    ensures Inv(After(s, acts))
    decreases |acts|
  {
    if acts != [] {
      StepInv(s, acts[0]);
      RunInv(Next(s, acts[0]), acts[1..]);
    }
  }

  lemma {:induction false} NobodyInside(locals: seq<Local>, n: nat)
    requires n <= |locals| && forall t :: 0 <= t < |locals| ==> locals[t].Outside?
    ensures SumTo(Idle, locals, n) == 0 && SumTo(Joined, locals, n) == 0 && HeldTo(locals, n) == multiset{}
  {
    if n > 0 { NobodyInside(locals, n - 1); }
  }

  /**
   Under every interleaving: nTodo is the number of queued checks plus those in unaccounted batches,
   every added check is in exactly one place, each finished Wait returned true exactly when every
   check added in its round passes, and the master sleeps with nothing left only if notified.
   */
  lemma EveryInterleaving(batchSize: nat, threads: nat, acts: seq<Action>)
    requires threads > 0 && IsRun(Init(batchSize, threads), acts)
    ensures var s := After(Init(batchSize, threads), acts);
            && s.nTodo == |s.queue| + |Held(s.locals)|
            && multiset(s.added) == multiset(s.queue) + Held(s.locals) + s.settled
            && (forall i :: 0 <= i < |s.rounds| ==>
                (s.rounds[i].result <==> forall c :: c in s.rounds[i].added ==> c.ok))
            && |s.locals| > 0 && (s.locals[0].Waiting? && s.nTodo == 0 ==> s.locals[0].signalled)
  {
    var s0 := Init(batchSize, threads);
    NobodyInside(s0.locals, threads);
    RunInv(s0, acts);
    var s := After(s0, acts);
    forall i | 0 <= i < |s.rounds| ensures s.rounds[i].result <==> forall c :: c in s.rounds[i].added ==> c.ok {
      assert s.rounds[i].result <==> !SomeBad(s.rounds[i].added);
    }
  }

  lemma DecideEndsClean(s: State, t: nat)
    requires InvLocked(s, t) && s.nTotal >= 0 && s.nIdle >= 0 && |Decide(s, t).rounds| > |s.rounds|
    ensures var s' := Decide(s, t);
            && s'.rounds == s.rounds + [Round(s.added, s.fAllOk)] && s.fAllOk == !SomeBad(s.added)
            && s'.queue == [] && s'.nTodo == 0 && s'.fAllOk && s'.added == [] && s'.settled == multiset{}
            && Held(s'.locals) == multiset{} && s'.locals[0].Outside?
  {
    DecideReturn(s);
    var s' := Decide(s, t);
    assert s'.nTodo == |s'.queue| + |Held(s'.locals)|;
    assert s'.rounds[|s.rounds|] == Round(s.added, s.fAllOk);
  }

  /** The round of `s` is recorded with the verdict on all its checks, and nothing of it is left. */
  predicate Clean(s: State, s': State) {
    && s'.rounds == s.rounds + [Round(s.added, !SomeBad(s.added))]
    && s'.queue == [] && s'.nTodo == 0 && s'.fAllOk && s'.added == [] && s'.settled == multiset{}
    && Held(s'.locals) == multiset{} && |s'.locals| > 0 && s'.locals[0].Outside?
  }

  /** When Wait returns, every check of the round has been settled once and the next round starts clean. */
  lemma RoundEndsClean(s: State, a: Action)
    requires Inv(s) && Possible(s, a) && |Next(s, a).rounds| > |s.rounds|
    ensures Clean(s, Next(s, a))
  {
    match a
    case Lock(t) => LockEndsClean(s, t);
    case Wake(t) => WakeEndsClean(s, t);
  }

  lemma LockEndsClean(s: State, t: nat)
    requires Inv(s) && Possible(s, Lock(t)) && |Next(s, Lock(t)).rounds| > |s.rounds|
    ensures Clean(s, Next(s, Lock(t)))
  {
    var u := CleanUp(s, t);
    CleanUpSame(s, t);
    assert InvLocked(u, t) by { CleanUpInv(s, t); }
    assert Clean(u, Decide(u, t)) by { DecideEndsClean(u, t); }
  }

  // The clean-up leaves the round alone.
  lemma CleanUpSame(s: State, t: nat)
    requires t < |s.locals| && s.locals[t].Entering?
    ensures CleanUp(s, t).rounds == s.rounds && CleanUp(s, t).added == s.added
  {
  }

  lemma WakeEndsClean(s: State, t: nat)
    requires Inv(s) && Possible(s, Wake(t)) && |Next(s, Wake(t)).rounds| > |s.rounds|
    ensures Clean(s, Next(s, Wake(t)))
  {
    var u := s.(nIdle := s.nIdle - 1, locals := s.locals[t := Entering([], true)]);
    assert InvLocked(u, t) by { WakeInv(s, t); }
    assert Clean(u, Decide(u, t)) by { DecideEndsClean(u, t); }
  }

  // ---- Progress ----

  /** Steps that move a call to Wait towards its end: anything but starting threads and spurious wake-ups. */
  predicate Productive(s: State, a: Action) {
    Enabled(s, a) && (a.Lock? || a.Exec? || (a.Wake? && s.locals[a.t].signalled))
  }

  /** While the master is inside Wait, some thread can make a productive step. */
  lemma NeverStuck(s: State) returns (a: Action)
    requires Inv(s) && !s.locals[0].Outside?
    ensures Productive(s, a)
  {
    match s.locals[0]
    case Entering(_, _) => a := Lock(0);
    case Working(_, _, _) => a := Exec(0); assert LocalOk(s.locals[0], s.added);
    case Waiting(signalled) =>
      if signalled { a := Wake(0); }
      else {
        var t := HeldSome(s.locals, |s.locals|);
        assert LocalOk(s.locals[t], s.added);
        a := if s.locals[t].Working? then Exec(t) else Lock(t);
      }
  }

  const Left: Local -> nat := (l: Local) =>
    match l
    case Outside => 0
    case Waiting(signalled) => if signalled then 1 else 0
    case Entering(_, _) => 2
    case Working(batch, done, _) => (if done < |batch| then |batch| - done else 0) + 2

  /** Work left in a round. */
  function Remaining(s: State): nat { 3 * |s.queue| + Sum(Left, s.locals) }

  lemma DecideRemaining(s: State, t: nat)
    requires Locked(s, t)
    ensures Remaining(Decide(s, t)) <= Remaining(s) - 2
  {
    SumUpdate(Left, s.locals, t, Decide(s, t).locals[t], |s.locals|);
    if s.queue != [] { TakenParts(s.queue, BatchSize(s)); }
  }

  lemma CleanUpRemaining(s: State, t: nat)
    requires t < |s.locals| && s.locals[t].Entering?
    ensures Remaining(CleanUp(s, t)) <= Remaining(s) + 1
  {
    if s.locals[t].batch != [] {
      SumUpdate(Left, s.locals, t, Entering([], true), |s.locals|);
      var m := Account(s, t);
      SumUpdate(Left, m.locals, 0, Signalled(m.locals[0]), |m.locals|);
    }
  }

  /** Every productive step uses up some of the work left, so Wait ends after finitely many of them. */
  lemma ProductiveDecreases(s: State, a: Action)
    requires Inv(s) && Possible(s, a) && Productive(s, a)
    ensures Remaining(Next(s, a)) < Remaining(s)
  {
    match a
    case Exec(t) =>
      SumUpdate(Left, s.locals, t, Next(s, a).locals[t], |s.locals|);
    case Wake(t) =>
      SumUpdate(Left, s.locals, t, Entering([], true), |s.locals|);
      DecideRemaining(s.(nIdle := s.nIdle - 1, locals := s.locals[t := Entering([], true)]), t);
    case Lock(t) =>
      CleanUpInv(s, t);
      CleanUpRemaining(s, t);
      DecideRemaining(CleanUp(s, t), t);
  }

  predicate IsProductiveRun(s: State, acts: seq<Action>)
    decreases |acts|
  {
    acts == [] || (Possible(s, acts[0]) && Productive(s, acts[0]) && IsProductiveRun(Next(s, acts[0]), acts[1..]))
  }

  /** Inside a call to Wait or between calls, productive steps alone cannot go on for longer than there is work left. */
  lemma {:induction false} ProductiveRunsEnd(s: State, acts: seq<Action>)
    requires Inv(s) && IsProductiveRun(s, acts)
    ensures |acts| <= Remaining(s)
    decreases |acts|
  {
    if acts != [] {
      StepInv(s, acts[0]);
      ProductiveDecreases(s, acts[0]);
      ProductiveRunsEnd(Next(s, acts[0]), acts[1..]);
    }
  }

  // ---- Whole calls to Wait, whatever the scheduler does ----

  const Unstarted: Local -> nat := (l: Local) => if l.Outside? then 2 else 0

  /** The work left, and the first passes of the threads that have not started. */
  function Bound(s: State): nat { Remaining(s) + Sum(Unstarted, s.locals) }

  lemma {:induction false} SumSame(f: Local -> nat, locals: seq<Local>, locals': seq<Local>, n: nat)
    requires n <= |locals| && n <= |locals'| && forall u :: 0 <= u < n ==> f(locals'[u]) == f(locals[u])
    ensures SumTo(f, locals', n) == SumTo(f, locals, n)
  {
    if n > 0 { SumSame(f, locals, locals', n - 1); }
  }

  /** Threads leave only by the master's return. */
  lemma NobodyLeaves(s: State, a: Action)
    requires Possible(s, a) && (a.Lock? || a.Wake? || a.Exec?) && Next(s, a).locals[0].Outside? == s.locals[0].Outside?
    ensures Sum(Unstarted, Next(s, a).locals) == Sum(Unstarted, s.locals)
  {
    forall u | 0 <= u < |s.locals| ensures Unstarted(Next(s, a).locals[u]) == Unstarted(s.locals[u]) {
      if a.Exec? { assert !Next(s, a).locals[a.t].Outside?; } else { NotOutside(s, a, u); }
    }
    SumSame(Unstarted, s.locals, Next(s, a).locals, |s.locals|);
  }

  lemma NotOutside(s: State, a: Action, u: nat)
    requires Possible(s, a) && (a.Lock? || a.Wake?) && u < |s.locals|
    requires u == 0 ==> Next(s, a).locals[0].Outside? == s.locals[0].Outside?
    ensures Next(s, a).locals[u].Outside? == s.locals[u].Outside?
  {
    if a.Lock? {
      DecideOthers(CleanUp(s, a.t), a.t, u);
    } else {
      DecideOthers(s.(nIdle := s.nIdle - 1, locals := s.locals[a.t := Entering([], true)]), a.t, u);
    }
  }

  // Only the thread itself moves, and only the master can leave.
  lemma DecideOthers(s: State, t: nat, u: nat)
    requires t < |s.locals| && u < |s.locals| && s.nTotal >= 0 && s.nIdle >= 0
    ensures |Decide(s, t).locals| == |s.locals|
    ensures u != t ==> Decide(s, t).locals[u] == s.locals[u]
    ensures u == t != 0 ==> !Decide(s, t).locals[u].Outside?
  {
  }

  /** A spurious wake-up makes no work. */
  lemma WakeRemaining(s: State, t: nat)
    requires Possible(s, Wake(t))
    ensures Remaining(Next(s, Wake(t))) <= Remaining(s)
  {
    SumUpdate(Left, s.locals, t, Entering([], true), |s.locals|);
    DecideRemaining(s.(nIdle := s.nIdle - 1, locals := s.locals[t := Entering([], true)]), t);
  }

  predicate MasterInside(s: State) { |s.locals| > 0 && !s.locals[0].Outside? }

  /** While the master stays inside, no step adds to the bound and every productive one takes from it. */
  lemma StepBound(s: State, a: Action)
    requires Inv(s) && Possible(s, a) && MasterInside(s) && MasterInside(Next(s, a))
    ensures Bound(Next(s, a)) + (if Productive(s, a) then 1 else 0) <= Bound(s)
  {
    if a.Start? {
      SumUpdate(Left, s.locals, a.t, Entering([], true), |s.locals|);
      SumUpdate(Unstarted, s.locals, a.t, Entering([], true), |s.locals|);
    } else {
      NobodyLeaves(s, a);
      if Productive(s, a) { ProductiveDecreases(s, a); } else { WakeRemaining(s, a.t); }
    }
  }

  /** A run in which the master is inside Wait before every step: the call, up to its return at most. */
  predicate IsWait(s: State, acts: seq<Action>)
    decreases |acts|
  {
    acts == [] || (Possible(s, acts[0]) && MasterInside(s) && IsWait(Next(s, acts[0]), acts[1..]))
  }

  function ProductiveSteps(s: State, acts: seq<Action>): nat
    requires IsWait(s, acts)
    decreases |acts|
  {
    if acts == [] then 0 else
      (if Productive(s, acts[0]) then 1 else 0) + ProductiveSteps(Next(s, acts[0]), acts[1..])
  }

  /** No scheduler can draw a call to Wait out: its productive steps, with any others in between, are bounded. */
  lemma {:induction false} WaitIsBounded(s: State, acts: seq<Action>)
    requires Inv(s) && IsWait(s, acts)
    ensures ProductiveSteps(s, acts) <= Bound(s)
    decreases |acts|
  {
    if acts != [] {
      var s' := Next(s, acts[0]);
      StepInv(s, acts[0]);
      if MasterInside(s') {
        StepBound(s, acts[0]);
        WaitIsBounded(s', acts[1..]);
      } else if Productive(s, acts[0]) {
        ProductiveDecreases(s, acts[0]);
      }
    }
  }

  /** An infinite run with the master inside throughout. */
  ghost predicate WaitsAt(states: nat -> State, acts: nat -> Action, n: nat) {
    Possible(states(n), acts(n)) && states(n + 1) == Next(states(n), acts(n)) && MasterInside(states(n))
  }

  lemma {:induction false} WaitsInv(states: nat -> State, acts: nat -> Action, n: nat)
    requires Inv(states(0)) && forall m: nat :: WaitsAt(states, acts, m)
    ensures Inv(states(n))
  {
    if n > 0 {
      WaitsInv(states, acts, n - 1);
      assert WaitsAt(states, acts, n - 1);
      StepInv(states(n - 1), acts(n - 1));
    }
  }

  /** From some point on nothing productive is done... */
  lemma {:induction false} LastProductive(states: nat -> State, acts: nat -> Action, n: nat) returns (last: nat)
    requires forall m: nat :: FallsBy(states, acts, m)
    ensures forall m: nat :: m >= last ==> !Productive(states(m), acts(m))
    decreases Bound(states(n))
  {
    last := n;
    if m: nat :| m >= n && Productive(states(m), acts(m)) {
      BoundFalls(states, acts, n, m);
      last := LastProductive(states, acts, m + 1);
    }
  }

  lemma {:induction false} BoundFalls(states: nat -> State, acts: nat -> Action, n: nat, m: nat)
    requires n <= m && forall k: nat :: FallsBy(states, acts, k)
    ensures Bound(states(m + 1)) + (if Productive(states(m), acts(m)) then 1 else 0) <= Bound(states(n))
    decreases m - n
  {
    assert FallsBy(states, acts, m);
    if n < m { BoundFalls(states, acts, n, m - 1); }
  }

  ghost predicate FallsBy(states: nat -> State, acts: nat -> Action, n: nat) {
    Bound(states(n + 1)) + (if Productive(states(n), acts(n)) then 1 else 0) <= Bound(states(n))
  }

  lemma FallsAt(states: nat -> State, acts: nat -> Action, n: nat)
    requires Inv(states(0)) && forall m: nat :: WaitsAt(states, acts, m)
    ensures FallsBy(states, acts, n)
  {
    WaitsInv(states, acts, n);
    assert WaitsAt(states, acts, n) && WaitsAt(states, acts, n + 1);
    StepBound(states(n), acts(n));
  }

  /**
   ... although something productive could be done all the time: a call to Wait that never returns is
   one in which threads that could go on are never scheduled again.
   */
  lemma WaitReturnsIfScheduled(states: nat -> State, acts: nat -> Action) returns (last: nat)
    requires Inv(states(0)) && forall m: nat :: WaitsAt(states, acts, m)
    ensures forall m: nat :: m >= last ==>
      !Productive(states(m), acts(m)) && exists a :: Productive(states(m), a)
  {
    forall m: nat ensures FallsBy(states, acts, m) { FallsAt(states, acts, m); }
    last := LastProductive(states, acts, 0);
    forall m: nat | m >= last ensures exists a :: Productive(states(m), a) {
      WaitsInv(states, acts, m);
      assert WaitsAt(states, acts, m);
      var a := NeverStuck(states(m));
    }
  }
}
