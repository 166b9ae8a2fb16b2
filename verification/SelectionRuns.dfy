/**
 Whole selections (src/miner.cpp): why a transaction is left out, when the loop never ends because of the
 age filter, and when every total recorded on the way is exact.
 */
module SelectionRuns {
  import opened Options
  import opened Mempool
  import opened MinerSpec
  import opened Records
  import opened Selection

  // ---- Traces ----

  /** What is left of a package does not pass the tests of size and finality. */
  ghost predicate RefusedAt(r: Rules, t: TxId, block: set<TxId>) {
    !Small(r, block, RestEntry(r.pool, t, block)) || exists u ::
      u in Package(r.pool, t) - block && !Admissible(r.pool, u)
  }

  /** A candidate refused. */
  predicate Refuses(l: Look, t: TxId) { l.Judge? && l.t == t && (l.v == TooBig || l.v == Unfit) }

  // The candidate is the best modified entry or the entry of the pool the cursor is at.
  predicate Next(r: Rules, s: State, t: TxId, um: bool) {
    if um then t in s.c.modified else s.c.mi < |r.order| && t == r.order[s.c.mi]
  }

  /** What a turn sees, and what follows from the verdict. */
  ghost predicate LookOk(r: Rules, s: State, l: Look) {
    match l
    case Skip =>
      s.c.mi < |r.order| && var t := r.order[s.c.mi]; t in s.c.modified || t in s.block || t in s.c.failed
    case Young(t, um) => r.Young(t) && Next(r, s, t, um)
    case Judge(t, um, v) =>
      && !r.Young(t) && Next(r, s, t, um) && t !in s.block && t in r.pool.txs
      && (Refuses(l, t) && t !in s.c.failed ==> RefusedAt(r, t, s.block))
  }

  lemma RefusedHere(r: Rules, s: State)
    requires r.Ok() && Inv(r, s) && Running(r, s.c) && !Stale(r, s) && Candidate(r, s.c) !in s.c.failed
    requires VerdictOn(r, s) == TooBig || VerdictOn(r, s) == Unfit
    ensures RefusedAt(r, Candidate(r, s.c), s.block)
  {
    TotalsOk(r, s);
  }

  lemma LookAtOk(r: Rules, s: State)
    requires r.Ok() && Inv(r, s) && Running(r, s.c)
    ensures LookOk(r, s, LookAt(r, s))
  {
    if !Stale(r, s) {
      CandidateOk(r, s);
      var t, v := Candidate(r, s.c), VerdictOn(r, s);
      if (v == TooBig || v == Unfit) && t !in s.c.failed { RefusedHere(r, s); }
    }
  }

  /** States, and what was seen on the way from one to the next; nothing where the loop has ended. */
  datatype Trace = Trace(st: nat -> State, look: nat -> Option<Look>)

  ghost predicate Stepped(r: Rules, tr: Trace, n: nat) {
    && Inv(r, tr.st(n))
    && match tr.look(n)
       case None => tr.st(n + 1) == tr.st(n)
       case Some(l) =>
         && LookOk(r, tr.st(n), l) && tr.st(n + 1) == Taken(r, tr.st(n), l).0
         && Taken(r, tr.st(n), l).1 != LowFee && Taken(r, tr.st(n), l).1 != GaveUp
  }

  ghost predicate IsTrace(r: Rules, tr: Trace) { tr.st(0) == START && forall n: nat :: Stepped(r, tr, n) }

  ghost function TraceOf(r: Rules): Trace {
    Trace((n: nat) => At(r, n), (n: nat) => if Over(r, At(r, n)) then None else Some(LookAt(r, At(r, n))))
  }

  lemma NextAt(r: Rules, n: nat)
    ensures At(r, n + 1) == if Over(r, At(r, n)) then At(r, n) else Turn(r, At(r, n)).0
  {
  }

  lemma TraceStepped(r: Rules, n: nat)
    requires r.Ok()
    ensures Stepped(r, TraceOf(r), n)
  {
    AtInv(r, n);
    NextAt(r, n);
    if !Over(r, At(r, n)) { LookAtOk(r, At(r, n)); }
  }

  lemma TraceOk(r: Rules)
    requires r.Ok()
    ensures IsTrace(r, TraceOf(r))
  {
    forall n: nat ensures Stepped(r, TraceOf(r), n) { TraceStepped(r, n); }
  }

  /** What a turn does to block, side table, failures, and the entry of the pool it passes. */
  ghost predicate Moves(r: Rules, s: State, s': State, l: Look) {
    && s.block <= s'.block && s.c.mi <= s'.c.mi <= s.c.mi + 1
    && (forall u :: u in s.c.modified ==> u in s'.c.modified || u in s'.block || Refuses(l, u))
    && (forall u :: u in s'.c.failed ==> u in s.c.failed || (Refuses(l, u) && !r.Young(u)))
    && (s.c.mi < s'.c.mi && s.c.mi < |r.order| ==>
        var t := r.order[s.c.mi];
        t in s.c.modified || t in s.c.failed || r.Young(t) || Refuses(l, t) || t in s'.block)
  }

  lemma TakenMoves(r: Rules, s: State, l: Look)
    requires LookOk(r, s, l) && Taken(r, s, l).1 != LowFee
    ensures Moves(r, s, Taken(r, s, l).0, l)
  {
    if l.Judge? && l.v == Fits {
      var package := Package(r.pool, l.t) - s.block;
      AccountedGrows(r.pool, s.c.modified - package, package, package);
    }
  }

  // ---- Why a transaction is left out ----

  /** It did not pass the tests in one of the states up to now. */
  ghost predicate RefusedBy(r: Rules, tr: Trace, n: nat, t: TxId) {
    exists j: nat :: j <= n && RefusedAt(r, t, tr.st(j).block)
  }

  ghost predicate Settled(r: Rules, tr: Trace, n: nat, t: TxId) {
    t in tr.st(n).block || t in tr.st(n).c.modified || r.Young(t) || RefusedBy(r, tr, n, t)
  }

  /** What the cursor has passed is in the block, still to be considered, too young, or was refused. */
  ghost predicate Considered(r: Rules, tr: Trace, n: nat) {
    && (forall i :: 0 <= i < |r.order| && i < tr.st(n).c.mi ==> Settled(r, tr, n, r.order[i]))
    && (forall t :: t in tr.st(n).c.failed ==> RefusedBy(r, tr, n, t) && !r.Young(t))
  }

  lemma ConsideredNext(r: Rules, tr: Trace, n: nat, l: Look)
    requires Considered(r, tr, n) && Moves(r, tr.st(n), tr.st(n + 1), l)
    requires forall t :: Refuses(l, t) && t !in tr.st(n).c.failed ==> RefusedAt(r, t, tr.st(n).block)
    ensures Considered(r, tr, n + 1)
  {
    var s, s' := tr.st(n), tr.st(n + 1);
    forall t | RefusedBy(r, tr, n, t) || Refuses(l, t) ensures RefusedBy(r, tr, n + 1, t) {
      if t !in s.c.failed && Refuses(l, t) { assert RefusedAt(r, t, tr.st(n).block); }
    }
    forall i | 0 <= i < |r.order| && i < s'.c.mi ensures Settled(r, tr, n + 1, r.order[i]) {
      if i < s.c.mi { SettledNext(r, tr, n, l, r.order[i]); }
    }
  }

  lemma SettledNext(r: Rules, tr: Trace, n: nat, l: Look, t: TxId)
    requires Settled(r, tr, n, t) && Moves(r, tr.st(n), tr.st(n + 1), l)
    requires Refuses(l, t) || RefusedBy(r, tr, n, t) ==> RefusedBy(r, tr, n + 1, t)
    ensures Settled(r, tr, n + 1, t)
  {
  }

  lemma ConsideredSame(r: Rules, tr: Trace, n: nat)
    requires Considered(r, tr, n) && tr.st(n + 1) == tr.st(n)
    ensures Considered(r, tr, n + 1)
  {
    assert forall t :: RefusedBy(r, tr, n, t) ==> RefusedBy(r, tr, n + 1, t);
    forall i | 0 <= i < |r.order| && i < tr.st(n).c.mi ensures Settled(r, tr, n + 1, r.order[i]) {
      assert Settled(r, tr, n, r.order[i]);
    }
  }

  ghost predicate MovesAt(r: Rules, tr: Trace, n: nat) {
    match tr.look(n)
    case None => tr.st(n + 1) == tr.st(n)
    case Some(l) =>
      && Moves(r, tr.st(n), tr.st(n + 1), l)
      && (forall t :: Refuses(l, t) && t !in tr.st(n).c.failed ==> RefusedAt(r, t, tr.st(n).block))
  }

  lemma SteppedMoves(r: Rules, tr: Trace, n: nat)
    requires Stepped(r, tr, n)
    ensures MovesAt(r, tr, n)
  {
    if tr.look(n).Some? { TakenMoves(r, tr.st(n), tr.look(n).value); }
  }

  lemma ConsideredStep(r: Rules, tr: Trace, n: nat)
    requires Considered(r, tr, n) && MovesAt(r, tr, n)
    ensures Considered(r, tr, n + 1)
  {
    match tr.look(n)
    case None => ConsideredSame(r, tr, n);
    case Some(l) => ConsideredNext(r, tr, n, l);
  }

  lemma {:induction false} ConsideredFrom(r: Rules, tr: Trace, n: nat)
    requires tr.st(0) == START && forall k: nat :: MovesAt(r, tr, k)
    ensures Considered(r, tr, n)
  {
    if n > 0 {
      ConsideredFrom(r, tr, n - 1);
      ConsideredStep(r, tr, n - 1);
    }
  }

  lemma ConsideredAt(r: Rules, tr: Trace, n: nat)
    requires IsTrace(r, tr)
    ensures Considered(r, tr, n)
  {
    forall k: nat ensures MovesAt(r, tr, k) {
      assert Stepped(r, tr, k);
      SteppedMoves(r, tr, k);
    }
    ConsideredFrom(r, tr, n);
  }

  /** Once there is no candidate left, every transaction is in the block, too young, or was refused. */
  lemma NothingForgotten(r: Rules, n: nat, t: TxId)
    requires r.Ok() && !Running(r, At(r, n).c) && t in r.pool.txs
    ensures t in At(r, n).block || r.Young(t) || RefusedBy(r, TraceOf(r), n, t)
  {
    TraceOk(r);
    var tr := TraceOf(r);
    ConsideredAt(r, tr, n);
    assert Stepped(r, tr, n);
    ElemsIff(r.order, t);
    var i :| 0 <= i < |r.order| && r.order[i] == t;
    assert Settled(r, tr, n, r.order[i]);
  }

  // ---- When the loop never ends ----

  /**
   With an age filter: a transaction old enough, whose package may enter a block and then leaves behind
   a descendant that is too young.
   */
  ghost predicate LeavesYoung(p: Pool, requiredAge: int, now: int, x: TxId, t: TxId) {
    && x in p.txs && !TooYoung(p, x, requiredAge, now) && Clean(p, x)
    && TooYoung(p, t, requiredAge, now) && t !in Package(p, x) && Anc(p, t) * Package(p, x) != {}
  }

  ghost predicate CanStall(p: Pool, requiredAge: int, now: int) {
    exists x, t :: LeavesYoung(p, requiredAge, now, x, t)
  }

  /** A transaction of the block came with a package of one old enough. */
  ghost predicate Rooted(r: Rules, block: set<TxId>, b: TxId) { exists x :: RootedIn(r, block, x, b) }

  ghost predicate RootedIn(r: Rules, block: set<TxId>, x: TxId, b: TxId) {
    x in r.pool.txs && !r.Young(x) && b in Package(r.pool, x) && Package(r.pool, x) <= block
  }

  ghost predicate Grown(r: Rules, block: set<TxId>) {
    forall b {:trigger Rooted(r, block, b)} :: b in block ==> Rooted(r, block, b)
  }

  lemma GrownMore(r: Rules, block: set<TxId>, t: TxId)
    requires Grown(r, block) && t in r.pool.txs && !r.Young(t)
    ensures Grown(r, block + Package(r.pool, t))
  {
    var block' := block + Package(r.pool, t);
    forall b | b in block' ensures Rooted(r, block', b) {
      if b in Package(r.pool, t) {
        assert RootedIn(r, block', t, b);
      } else {
        assert Rooted(r, block, b);
        var x :| RootedIn(r, block, x, b);
        assert RootedIn(r, block', x, b);
      }
    }
  }

  /** The block stays or gains the package of one old enough. */
  ghost predicate GrowsAt(r: Rules, tr: Trace, n: nat) {
    || tr.st(n + 1).block == tr.st(n).block
    || exists t :: t in r.pool.txs && !r.Young(t) && tr.st(n + 1).block == tr.st(n).block + Package(r.pool, t)
  }

  lemma SteppedGrows(r: Rules, tr: Trace, n: nat)
    requires Stepped(r, tr, n)
    ensures GrowsAt(r, tr, n)
  {
  }

  lemma {:induction false} GrownFrom(r: Rules, tr: Trace, n: nat)
    requires tr.st(0) == START && forall k: nat :: GrowsAt(r, tr, k)
    ensures Grown(r, tr.st(n).block)
  {
    if n > 0 {
      GrownFrom(r, tr, n - 1);
      assert GrowsAt(r, tr, n - 1);
      if tr.st(n).block != tr.st(n - 1).block {
        var t :| t in r.pool.txs && !r.Young(t) && tr.st(n).block == tr.st(n - 1).block + Package(r.pool, t);
        GrownMore(r, tr.st(n - 1).block, t);
      }
    }
  }

  lemma GrownAt(r: Rules, n: nat)
    requires r.Ok()
    ensures Grown(r, At(r, n).block)
  {
    TraceOk(r);
    var tr := TraceOf(r);
    forall k: nat ensures GrowsAt(r, tr, k) {
      assert Stepped(r, tr, k);
      SteppedGrows(r, tr, k);
    }
    GrownFrom(r, tr, n);
    assert tr.st(n) == At(r, n);
  }

  /** A transaction that is too young and has an ancestor in the block was left behind. */
  lemma YoungLeftBehind(r: Rules, s: State, t: TxId)
    requires Inv(r, s) && Grown(r, s.block)
    requires t !in s.block && Anc(r.pool, t) * s.block != {} && r.Young(t)
    ensures CanStall(r.pool, r.requiredAge, r.now)
  {
    var b :| b in Anc(r.pool, t) * s.block;
    assert Rooted(r, s.block, b);
    var x :| RootedIn(r, s.block, x, b);
    assert b in Anc(r.pool, t) * Package(r.pool, x);
    assert LeavesYoung(r.pool, r.requiredAge, r.now, x, t);
  }

  lemma StuckYoung(r: Rules, s: State)
    requires r.Ok() && Inv(r, s) && Grown(r, s.block) && Stuck(r, s)
    ensures CanStall(r.pool, r.requiredAge, r.now)
  {
    CandidateOk(r, s);
    var t := Candidate(r, s.c);
    RecordBounds(r.pool, t, s.c.modified[t], s.block, t in s.c.failed);
    YoungLeftBehind(r, s, t);
  }

  /** The loop never ends only if a young transaction can be left behind, whatever the order. */
  lemma NeverEndsOnlyIf(r: Rules)
    requires r.Ok() && NeverEnds(r)
    ensures CanStall(r.pool, r.requiredAge, r.now)
  {
    var n: nat :| Stuck(r, At(r, n));
    AtInv(r, n);
    GrownAt(r, n);
    StuckYoung(r, At(r, n));
  }

  // ---- Room for everything ----

  /** The whole pool is within the limits. */
  ghost predicate RoomForAll(p: Pool, maxWeight: nat) {
    && COINBASE_WEIGHT + 4 * Total(p, Size, p.txs.Keys) < maxWeight
    && COINBASE_SIGOPS + Total(p, Sigops, p.txs.Keys) < MAX_BLOCK_SIGOPS_COST
  }

  lemma PartOfAll(p: Pool, k: Kind, block: set<TxId>, t: TxId)
    requires WellFormed(p) && (k == Size || k == Sigops) && block <= p.txs.Keys && t in p.txs
    ensures Total(p, k, block) + Rest(p, k, t, block) <= Total(p, k, p.txs.Keys)
  {
    var s := block + (Package(p, t) - block);
    TotalUnion(p, k, block, Package(p, t) - block);
    TotalUnion(p, k, s, p.txs.Keys - s);
    assert s + (p.txs.Keys - s) == p.txs.Keys;
    TotalNonNegative(p, k, p.txs.Keys - s);
  }

  lemma RoomSmall(r: Rules, block: set<TxId>, t: TxId)
    requires r.Ok() && RoomForAll(r.pool, r.maxWeight) && block <= r.pool.txs.Keys && t in r.pool.txs
    ensures Small(r, block, RestEntry(r.pool, t, block))
  {
    PartOfAll(r.pool, Size, block, t);
    PartOfAll(r.pool, Sigops, block, t);
    WeightAtMostSize(r.pool, block);
  }

  /**
   A transaction that cannot enter a block with its package, and two of its ancestors that can with
   theirs: it may fail between their inclusions and then get a second entry.
   */
  ghost predicate Revivable(p: Pool, t: TxId, a: TxId, b: TxId) {
    t in p.txs && !Clean(p, t) && TwoAncestors(p, t, a, b)
  }

  ghost predicate NoRevival(p: Pool) { forall t, a, b :: !Revivable(p, t, a, b) }

  lemma NotRevived(r: Rules, n: nat, t: TxId)
    requires r.Ok() && RoomForAll(r.pool, r.maxWeight) && NoRevival(r.pool) && t in At(r, n).c.modified
    ensures t !in At(r, n).c.failed
  {
    AtInv(r, n);
    if t in At(r, n).c.failed {
      FailedUnclean(r, n, t);
      RevivedFrom(r, At(r, n), t);
    }
  }

  lemma FailedUnclean(r: Rules, n: nat, t: TxId)
    requires r.Ok() && RoomForAll(r.pool, r.maxWeight) && t in At(r, n).c.failed && t in r.pool.txs
    ensures !Clean(r.pool, t)
  {
    TraceOk(r);
    var tr := TraceOf(r);
    assert tr.st(n) == At(r, n);
    ConsideredAt(r, tr, n);
    var j: nat :| j <= n && RefusedAt(r, t, tr.st(j).block);
    assert Stepped(r, tr, j);
    RoomSmall(r, tr.st(j).block, t);
  }

  lemma RevivedFrom(r: Rules, s: State, t: TxId)
    requires TableOk(r.pool, s.c.modified, s.c.failed, s.block, {}) && t in s.c.modified && t in s.c.failed
    requires WellFormed(r.pool) && Closed(r.pool, s.block) && (forall u :: u in s.block ==> Admissible(r.pool, u))
    requires !Clean(r.pool, t)
    ensures exists a, b :: Revivable(r.pool, t, a, b)
  {
    var base, f :| RecordedFrom(r.pool, t, s.c.modified[t], s.block, base, f) && base != {};
    var b :| b in base;
    assert Revivable(r.pool, t, b, f);
  }

  // ---- Exact totals ----

  /** Every total recorded on the way is that of what is left of the package. */
  ghost predicate AlwaysExact(r: Rules) { forall n: nat :: ExactlyAt(r, n) }

  ghost predicate ExactlyAt(r: Rules, n: nat) { Exact(r.pool, At(r, n)) }

  ghost predicate Exact(p: Pool, s: State) {
    forall t :: t in s.c.modified ==> s.c.modified[t] == RestEntry(p, t, s.block)
  }

  lemma ExactAt(r: Rules, n: nat, t: TxId)
    requires r.Ok() && RoomForAll(r.pool, r.maxWeight) && NoRevival(r.pool) && AdjustedLead(r.pool)
    requires t in At(r, n).c.modified
    ensures At(r, n).c.modified[t] == RestEntry(r.pool, t, At(r, n).block)
  {
    AtInv(r, n);
    NotRevived(r, n, t);
    RecordExact(r.pool, t, At(r, n).c.modified[t], At(r, n).block);
  }

  /** For every order and every age filter. */
  lemma ExactWhenLed(r: Rules)
    requires r.Ok() && RoomForAll(r.pool, r.maxWeight) && NoRevival(r.pool) && AdjustedLead(r.pool)
    ensures AlwaysExact(r)
  {
    forall n: nat ensures ExactlyAt(r, n) {
      forall t | t in At(r, n).c.modified
        ensures At(r, n).c.modified[t] == RestEntry(r.pool, t, At(r, n).block)
      {
        ExactAt(r, n, t);
      }
    }
  }

  /** Whatever part of a package is left pays the fee floor. */
  ghost predicate PaysFloor(p: Pool, minFee: int -> int) {
    forall t, gone :: t in p.txs && t !in gone ==> Rest(p, ModFee, t, gone) >= minFee(Rest(p, Size, t, gone))
  }

  /** Then the verdict depends on finality alone. */
  lemma ExactVerdict(r: Rules, n: nat)
    requires r.Ok() && RoomForAll(r.pool, r.maxWeight) && PaysFloor(r.pool, r.minFee) && AlwaysExact(r)
    requires Running(r, At(r, n).c) && !Stale(r, At(r, n))
    ensures VerdictOn(r, At(r, n)) == if Clean(r.pool, Candidate(r, At(r, n).c)) then Fits else Unfit
  {
    var s := At(r, n);
    AtInv(r, n);
    CandidateOk(r, s);
    TotalsOk(r, s);
    assert ExactlyAt(r, n);
    JudgedExactly(r, s);
  }

  lemma JudgedExactly(r: Rules, s: State)
    requires r.Ok() && RoomForAll(r.pool, r.maxWeight) && PaysFloor(r.pool, r.minFee) && Inv(r, s)
    requires Candidate(r, s.c) in r.pool.txs && Candidate(r, s.c) !in s.block
    requires Totals(r, s.c) == RestEntry(r.pool, Candidate(r, s.c), s.block)
    ensures VerdictOn(r, s) == if Clean(r.pool, Candidate(r, s.c)) then Fits else Unfit
  {
    RoomSmall(r, s.block, Candidate(r, s.c));
  }

  // ---- The exact condition for never ending ----

  /** The selection ends because a package falls short of the fee floor. */
  ghost predicate ReachesFloor(r: Rules) { exists n: nat :: Running(r, At(r, n).c) && Turn(r, At(r, n)).1 == LowFee }

  lemma FloorNotReached(r: Rules)
    requires r.Ok() && RoomForAll(r.pool, r.maxWeight) && PaysFloor(r.pool, r.minFee)
    requires NoRevival(r.pool) && AdjustedLead(r.pool)
    ensures !ReachesFloor(r)
  {
    ExactWhenLed(r);
    forall n: nat | Running(r, At(r, n).c) ensures Turn(r, At(r, n)).1 != LowFee { ExactlyPaid(r, n); }
  }

  lemma ExactlyPaid(r: Rules, n: nat)
    requires r.Ok() && RoomForAll(r.pool, r.maxWeight) && PaysFloor(r.pool, r.minFee) && AlwaysExact(r)
    requires Running(r, At(r, n).c)
    ensures Turn(r, At(r, n)).1 != LowFee
  {
    if !Stale(r, At(r, n)) { ExactVerdict(r, n); }
    PaidTurn(r, At(r, n));
  }

  lemma PaidTurn(r: Rules, s: State)
    requires !Stale(r, s) ==> VerdictOn(r, s) != FeeTooLow
    ensures Turn(r, s).1 != LowFee
  {
  }

  /** The selection ends because the block is nearly full and too many packages were too large. */
  ghost predicate GivesUp(r: Rules) { exists n: nat :: Running(r, At(r, n).c) && Turn(r, At(r, n)).1 == GaveUp }

  /** There is room for the whole pool counted twice. */
  ghost predicate RoomTwice(p: Pool, maxWeight: nat) {
    && COINBASE_WEIGHT + 8 * Total(p, Size, p.txs.Keys) < maxWeight
    && COINBASE_SIGOPS + 2 * Total(p, Sigops, p.txs.Keys) < MAX_BLOCK_SIGOPS_COST
  }

  /** With room for everything it does not, unless what a failed candidate counts again needs more room. */
  lemma NeverGivesUp(r: Rules)
    requires r.Ok() && RoomForAll(r.pool, r.maxWeight) && (NoRevival(r.pool) || RoomTwice(r.pool, r.maxWeight))
    ensures !GivesUp(r)
  {
    forall n: nat | Running(r, At(r, n).c) ensures Turn(r, At(r, n)).1 != GaveUp { NotGivenUp(r, n); }
  }

  lemma NotGivenUp(r: Rules, n: nat)
    requires r.Ok() && RoomForAll(r.pool, r.maxWeight) && (NoRevival(r.pool) || RoomTwice(r.pool, r.maxWeight))
    requires Running(r, At(r, n).c)
    ensures Turn(r, At(r, n)).1 != GaveUp
  {
    var s := At(r, n);
    if !Stale(r, s) {
      AtInv(r, n);
      CandidateOk(r, s);
      if RoomTwice(r.pool, r.maxWeight) {
        NeverTooBig(r, s, Candidate(r, s.c));
      } else {
        if UsesModified(r, s.c) { NotRevived(r, n, Candidate(r, s.c)); }
        NotTooBig(r, s);
      }
    }
  }

  lemma NeverTooBig(r: Rules, s: State, t: TxId)
    requires r.Ok() && RoomTwice(r.pool, r.maxWeight) && Inv(r, s) && Running(r, s.c) && !Stale(r, s)
    requires t == Candidate(r, s.c) && t in r.pool.txs && t !in s.block
    ensures VerdictOn(r, s) != TooBig
  {
    TotalsOk(r, s);
    if t in s.c.modified {
      RecordMost(r.pool, t, s.c.modified[t], s.block, t in s.c.failed);
      SmallTwice(r, s.block, t, s.c.modified[t]);
    }
    SmallTwice(r, s.block, t, RestEntry(r.pool, t, s.block));
  }

  lemma SmallTwice(r: Rules, block: set<TxId>, t: TxId, e: Modified)
    requires r.Ok() && RoomTwice(r.pool, r.maxWeight) && block <= r.pool.txs.Keys && t in r.pool.txs
    requires e.size <= Rest(r.pool, Size, t, block) ||
             e.size <= Rest(r.pool, Size, t, block) + Total(r.pool, Size, block)
    requires e.sigops <= Rest(r.pool, Sigops, t, block) ||
             e.sigops <= Rest(r.pool, Sigops, t, block) + Total(r.pool, Sigops, block)
    ensures Small(r, block, e)
  {
    PartOfAll(r.pool, Size, block, t);
    PartOfAll(r.pool, Sigops, block, t);
    TotalNonNegative(r.pool, Size, Package(r.pool, t) - block);
    TotalNonNegative(r.pool, Sigops, Package(r.pool, t) - block);
    TotalNonNegative(r.pool, Size, block);
    TotalNonNegative(r.pool, Sigops, block);
    WeightAtMostSize(r.pool, block);
  }

  lemma NotTooBig(r: Rules, s: State)
    requires r.Ok() && RoomForAll(r.pool, r.maxWeight) && Inv(r, s) && Running(r, s.c) && !Stale(r, s)
    requires Candidate(r, s.c) in r.pool.txs && Candidate(r, s.c) !in s.c.failed
    ensures VerdictOn(r, s) != TooBig
  {
    TotalsOk(r, s);
    RoomSmall(r, s.block, Candidate(r, s.c));
  }

  /** Descendants are never older than their ancestors. */
  ghost predicate Aging(p: Pool) {
    forall t, a :: t in p.txs && a in Anc(p, t) ==> a in p.txs && p.txs[a].time <= p.txs[t].time
  }

  // When no candidate is left, a transaction old enough with a clean package is in the block, and no young one is.
  lemma OldIncluded(r: Rules, n: nat, x: TxId)
    requires r.Ok() && RoomForAll(r.pool, r.maxWeight) && !Running(r, At(r, n).c)
    requires x in r.pool.txs && Clean(r.pool, x) && !r.Young(x)
    ensures Package(r.pool, x) <= At(r, n).block
  {
    AtInv(r, n);
    NothingForgotten(r, n, x);
    if x !in At(r, n).block {
      TraceOk(r);
      var tr := TraceOf(r);
      var j: nat :| j <= n && RefusedAt(r, x, tr.st(j).block);
      assert Stepped(r, tr, j);
      RoomSmall(r, tr.st(j).block, x);
    }
  }

  lemma OnlyOld(r: Rules, s: State, t: TxId)
    requires Grown(r, s.block) && Aging(r.pool) && t in s.block
    ensures !r.Young(t)
  {
    assert Rooted(r, s.block, t);
    var x :| RootedIn(r, s.block, x, t);
  }

  lemma NotExhausted(r: Rules, n: nat, x: TxId, t: TxId)
    requires r.Ok() && RoomForAll(r.pool, r.maxWeight) && Aging(r.pool)
    requires LeavesYoung(r.pool, r.requiredAge, r.now, x, t)
    ensures Running(r, At(r, n).c)
  {
    if !Running(r, At(r, n).c) {
      OldIncluded(r, n, x);
      GrownAt(r, n);
      if t in At(r, n).block { OnlyOld(r, At(r, n), t); }
      TraceOk(r);
      assert TraceOf(r).st(n) == At(r, n);
      ConsideredAt(r, TraceOf(r), n);
      AtInv(r, n);
      LeftAlone(r, At(r, n), x, t);
    }
  }

  // A transaction without entry that never failed has no ancestor in the block.
  lemma LeftAlone(r: Rules, s: State, x: TxId, t: TxId)
    requires Inv(r, s) && t in r.pool.txs && t !in s.block && t !in s.c.failed && t !in s.c.modified
    requires Package(r.pool, x) <= s.block
    ensures Anc(r.pool, t) * Package(r.pool, x) == {}
  {
  }

  /**
   Where descendants are never older than their ancestors and there is room for everything, a selection
   that neither reaches the fee floor nor gives up never ends just if a young transaction can be left
   behind, whatever the order of the candidates.
   */
  lemma NeverEndsIff(r: Rules)
    requires r.Ok() && RoomForAll(r.pool, r.maxWeight) && Aging(r.pool)
    ensures ReachesFloor(r) || GivesUp(r) || (NeverEnds(r) <==> CanStall(r.pool, r.requiredAge, r.now))
  {
    if NeverEnds(r) { NeverEndsOnlyIf(r); }
    if CanStall(r.pool, r.requiredAge, r.now) && !ReachesFloor(r) && !GivesUp(r) {
      EndsIff(r);
      var x, t :| LeavesYoung(r.pool, r.requiredAge, r.now, x, t);
      forall n: nat ensures !Over(r, At(r, n)) { NotExhausted(r, n, x, t); }
    }
  }

  lemma NeverEndsWhen(r: Rules)
    requires r.Ok() && RoomForAll(r.pool, r.maxWeight) && PaysFloor(r.pool, r.minFee) && AdjustedLead(r.pool)
    requires NoRevival(r.pool) && Aging(r.pool) && CanStall(r.pool, r.requiredAge, r.now)
    ensures NeverEnds(r)
  {
    FloorNotReached(r);
    NeverGivesUp(r);
    NeverEndsIff(r);
  }
}
