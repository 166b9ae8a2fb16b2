/**
 The selection of packages for a block template (src/miner.cpp) as a function: one turn of the loop,
 what every turn keeps, and the states of whole runs. Which candidate is best (by fee rate) is any
 function of the candidates, so everything holds for every order.
 */
module Selection {
  import opened Mempool
  import opened MinerSpec
  import opened Records

  const MAX_BLOCK_WEIGHT := 4000000
  const MAX_BLOCK_SIGOPS_COST := 80000
  const COINBASE_WEIGHT := 4000
  const COINBASE_SIGOPS := 400
  const MAX_CONSECUTIVE_FAILURES := 1000

  /** The local variables of addPackageTxs. */
  datatype Cursor = Cursor(modified: ModifiedTx, failed: set<TxId>, mi: nat, nConsecutiveFailed: nat)

  /** The transactions in the block, and the cursor. */
  datatype State = State(block: set<TxId>, c: Cursor)

  const START := State({}, Cursor(map[], {}, 0, 0))

  /** How a turn of the selection loop ended. */
  datatype Outcome = Continue | LowFee | GaveUp | Stalled

  /** What the tests say of a candidate. */
  datatype Verdict = FeeTooLow | TooBig | Unfit | Fits

  /**
   What a selection depends on: the pool, the fee floor by size, the weight limit, all transactions with
   the best package fee rate first, the best entry of the side table and whether it beats a transaction
   of the pool, and the age filter.
   */
  datatype Rules = Rules(pool: Pool, minFee: int -> int, maxWeight: nat, order: seq<TxId>,
                         best: ModifiedTx -> TxId, wins: (ModifiedTx, TxId) -> bool, requiredAge: int, now: int)
  {
    ghost predicate Ok() {
      WellFormed(pool) && Elems(order) == pool.txs.Keys && Picks(best) && maxWeight >= COINBASE_WEIGHT
    }

    predicate Young(t: TxId) { TooYoung(pool, t, requiredAge, now) }
  }

  /** The best entry of a side table is one of its entries. */
  ghost predicate Picks(best: ModifiedTx -> TxId) { forall m: ModifiedTx :: m != map[] ==> best(m) in m }

  ghost function BlockWeight(p: Pool, block: set<TxId>): int { COINBASE_WEIGHT + Total(p, Weight, block) }

  ghost function BlockSigops(p: Pool, block: set<TxId>): int { COINBASE_SIGOPS + Total(p, Sigops, block) }

  // ---- One turn ----

  /** There is a candidate left. */
  predicate Running(r: Rules, c: Cursor) { c.mi < |r.order| || c.modified != map[] }

  // The entry of the pool the cursor is at is to be skipped.
  predicate Stale(r: Rules, s: State) {
    s.c.mi < |r.order| &&
    var t := r.order[s.c.mi]; t in s.c.modified || t in s.block || t in s.c.failed
  }

  // The best modified entry is evaluated next, rather than the entry of the pool the cursor is at.
  predicate UsesModified(r: Rules, c: Cursor) {
    c.mi >= |r.order| || (c.modified != map[] && r.wins(c.modified, r.order[c.mi]))
  }

  function Candidate(r: Rules, c: Cursor): TxId {
    if UsesModified(r, c) then r.best(c.modified) else r.order[c.mi]
  }

  // The cursor past a candidate taken from the pool.
  function Past(c: Cursor, usingModified: bool): Cursor { if usingModified then c else c.(mi := c.mi + 1) }

  /** The totals recorded for the candidate. */
  ghost function Totals(r: Rules, c: Cursor): Modified {
    var t := Candidate(r, c);
    if UsesModified(r, c) && t in c.modified then c.modified[t] else CachedEntry(r.pool, t)
  }

  ghost predicate Small(r: Rules, block: set<TxId>, e: Modified) {
    && BlockWeight(r.pool, block) + 4 * e.size < r.maxWeight
    && BlockSigops(r.pool, block) + e.sigops < MAX_BLOCK_SIGOPS_COST
  }

  ghost function VerdictOn(r: Rules, s: State): Verdict {
    var t, e := Candidate(r, s.c), Totals(r, s.c);
    if e.modFees < r.minFee(e.size) then FeeTooLow
    else if !Small(r, s.block, e) then TooBig
    else if forall u :: u in Package(r.pool, t) - s.block ==> Admissible(r.pool, u) then Fits
    else Unfit
  }

  // A modified candidate that failed its tests is dropped from the side table for good.
  function Dropped(c: Cursor, t: TxId, usingModified: bool): Cursor {
    if usingModified then c.(modified := c.modified - {t}, failed := c.failed + {t}) else c
  }

  /** The package of a transaction is in the block and accounted for. */
  ghost function Included(p: Pool, block: set<TxId>, c: Cursor, t: TxId): State {
    var package := Package(p, t) - block;
    State(block + Package(p, t),
          c.(modified := Accounted(p, c.modified - package, package, package), nConsecutiveFailed := 0))
  }

  /** What a turn sees: a stale entry to skip, a candidate that is too young, or one with a verdict. */
  datatype Look = Skip | Young(t: TxId, um: bool) | Judge(t: TxId, um: bool, v: Verdict)

  ghost function LookAt(r: Rules, s: State): Look {
    if Stale(r, s) then Skip
    else
      var t, um := Candidate(r, s.c), UsesModified(r, s.c);
      if r.Young(t) then Look.Young(t, um) else Judge(t, um, VerdictOn(r, s))
  }

  /**
   A stale entry is skipped; a candidate that is too young is passed by or, if it is a modified one, left
   where it is; any other ends the selection, is set aside, or gets its package into the block.
   */
  ghost function Taken(r: Rules, s: State, l: Look): (State, Outcome) {
    match l
    case Skip => (State(s.block, s.c.(mi := s.c.mi + 1)), Continue)
    case Young(t, um) => (State(s.block, Past(s.c, um)), if um then Stalled else Continue)
    case Judge(t, um, v) => Evaluated(r, v, s.block, Past(s.c, um), t, um)
  }

  /** What evaluating a candidate does. */
  ghost function Evaluated(r: Rules, v: Verdict, block: set<TxId>, c: Cursor, t: TxId, um: bool): (State, Outcome) {
    match v
    case FeeTooLow => (State(block, c), LowFee)
    case TooBig =>
      var n := c.nConsecutiveFailed + 1;
      var full := BlockWeight(r.pool, block) > r.maxWeight - 4000;
      (State(block, Dropped(c, t, um).(nConsecutiveFailed := n)),
       if n > MAX_CONSECUTIVE_FAILURES && full then GaveUp else Continue)
    case Unfit => (State(block, Dropped(c, t, um)), Continue)
    case Fits => (Included(r.pool, block, c, t), Continue)
  }

  /** One turn of the selection loop. */
  ghost function Turn(r: Rules, s: State): (State, Outcome) { Taken(r, s, LookAt(r, s)) }

  /** The loop is stuck: the best modified entry comes next, is too young, and is left where it is. */
  predicate Stuck(r: Rules, s: State) {
    Running(r, s.c) && !Stale(r, s) && UsesModified(r, s.c) && r.Young(Candidate(r, s.c))
  }

  lemma StuckStays(r: Rules, s: State)
    requires Running(r, s.c)
    ensures Stuck(r, s) <==> Turn(r, s).1 == Stalled
    ensures Stuck(r, s) ==> Turn(r, s).0 == s
  {
  }

  lemma TurnJudges(r: Rules, s: State)
    requires !Stale(r, s) && !r.Young(Candidate(r, s.c))
    ensures var t, um := Candidate(r, s.c), UsesModified(r, s.c);
            Turn(r, s) == Evaluated(r, VerdictOn(r, s), s.block, Past(s.c, um), t, um)
  {
  }

  lemma TurnEnds(r: Rules, s: State)
    requires Turn(r, s).1 != Continue
    ensures Turn(r, s).0.block == s.block
  {
  }

  // ---- What every turn keeps ----

  /** The block is closed under ancestors, within the limits, and the side table is right. */
  ghost predicate Inv(r: Rules, s: State) {
    && Closed(r.pool, s.block) && s.block <= r.pool.txs.Keys && (forall t :: t in s.block ==> Admissible(r.pool, t))
    && BlockWeight(r.pool, s.block) <= r.maxWeight && BlockSigops(r.pool, s.block) < MAX_BLOCK_SIGOPS_COST
    && s.c.mi <= |r.order| && TableOk(r.pool, s.c.modified, s.c.failed, s.block, {})
  }

  lemma StartInv(r: Rules)
    requires r.Ok()
    ensures Inv(r, START)
  {
  }

  lemma CandidateOk(r: Rules, s: State)
    requires r.Ok() && Inv(r, s) && !Stale(r, s) && Running(r, s.c)
    ensures var t := Candidate(r, s.c);
            && t in r.pool.txs && t !in s.block
            && (if UsesModified(r, s.c) then t in s.c.modified
                else s.c.mi < |r.order| && t !in s.c.modified && t !in s.c.failed)
  {
    if !UsesModified(r, s.c) { ElemsIff(r.order, r.order[s.c.mi]); }
  }

  /** The totals used never understate what is left of a package, and are exact unless the candidate failed before. */
  lemma TotalsOk(r: Rules, s: State)
    requires r.Ok() && Inv(r, s) && !Stale(r, s) && Running(r, s.c)
    ensures var t, e := Candidate(r, s.c), Totals(r, s.c);
            && e.size >= Rest(r.pool, Size, t, s.block) && e.sigops >= Rest(r.pool, Sigops, t, s.block)
            && (t !in s.c.failed ==>
                e.size == Rest(r.pool, Size, t, s.block) && e.sigops == Rest(r.pool, Sigops, t, s.block))
            && (t !in s.c.modified || (t !in s.c.failed && AdjustedLead(r.pool)) ==> e == RestEntry(r.pool, t, s.block))
  {
    CandidateOk(r, s);
    var t := Candidate(r, s.c);
    if UsesModified(r, s.c) {
      RecordBounds(r.pool, t, s.c.modified[t], s.block, t in s.c.failed);
      if t !in s.c.failed { RecordExact(r.pool, t, s.c.modified[t], s.block); }
    } else {
      assert Package(r.pool, t) - s.block == Package(r.pool, t);
    }
  }

  lemma IncludedInv(r: Rules, block: set<TxId>, c: Cursor, t: TxId, e: Modified)
    requires r.Ok() && Inv(r, State(block, c)) && t in r.pool.txs && t !in block && Small(r, block, e)
    requires e.size >= Rest(r.pool, Size, t, block) && e.sigops >= Rest(r.pool, Sigops, t, block)
    requires forall u :: u in Package(r.pool, t) - block ==> Admissible(r.pool, u)
    ensures Inv(r, Included(r.pool, block, c, t))
  {
    var p, package := r.pool, Package(r.pool, t) - block;
    PackageParents(p, t, block);
    PackageFits(p, t, block, e.size, e.sigops);
    EraseKeeps(p, c.modified, c.failed, block, package);
    assert block + (package - package) == block && block + package == block + Package(p, t);
    AccountedKeeps(p, c.modified - package, c.failed, block, package, package);
  }

  lemma EvaluatedInv(r: Rules, v: Verdict, block: set<TxId>, c: Cursor, t: TxId, um: bool)
    requires r.Ok() && Inv(r, State(block, c)) && (um ==> t in c.modified)
    requires v == Fits ==> Inv(r, Included(r.pool, block, c, t))
    ensures Inv(r, Evaluated(r, v, block, c, t, um).0)
  {
    if um { FailKeeps(r.pool, c.modified, c.failed, block, t); }
  }

  // What a look needs for the invariant.
  ghost predicate LookKeeps(r: Rules, s: State, l: Look) {
    && (l.Skip? ==> s.c.mi < |r.order|)
    && (!l.Skip? ==> if l.um then l.t in s.c.modified else s.c.mi < |r.order|)
    && (l.Judge? && l.v == Fits ==> Inv(r, Included(r.pool, s.block, Past(s.c, l.um), l.t)))
  }

  lemma TakenInv(r: Rules, s: State, l: Look)
    requires r.Ok() && Inv(r, s) && LookKeeps(r, s, l)
    ensures Inv(r, Taken(r, s, l).0)
  {
    if l.Judge? {
      assert Inv(r, State(s.block, Past(s.c, l.um)));
      EvaluatedInv(r, l.v, s.block, Past(s.c, l.um), l.t, l.um);
    }
  }

  lemma LookAtKeeps(r: Rules, s: State)
    requires r.Ok() && Inv(r, s) && Running(r, s.c)
    ensures LookKeeps(r, s, LookAt(r, s))
  {
    if !Stale(r, s) {
      CandidateOk(r, s);
      if VerdictOn(r, s) == Fits { FitsInv(r, s); }
    }
  }

  lemma TurnInv(r: Rules, s: State)
    requires r.Ok() && Inv(r, s) && Running(r, s.c)
    ensures Inv(r, Turn(r, s).0)
  {
    LookAtKeeps(r, s);
    TakenInv(r, s, LookAt(r, s));
  }

  lemma FitsInv(r: Rules, s: State)
    requires r.Ok() && Inv(r, s) && Running(r, s.c) && !Stale(r, s) && VerdictOn(r, s) == Fits
    ensures Inv(r, Included(r.pool, s.block, Past(s.c, UsesModified(r, s.c)), Candidate(r, s.c)))
  {
    CandidateOk(r, s);
    TotalsOk(r, s);
    IncludedInv(r, s.block, Past(s.c, UsesModified(r, s.c)), Candidate(r, s.c), Totals(r, s.c));
  }

  // ---- Whole runs ----

  /** The loop ends here. */
  ghost predicate Over(r: Rules, s: State) {
    !Running(r, s.c) || Turn(r, s).1 == LowFee || Turn(r, s).1 == GaveUp
  }

  /** The state after `n` turns, or at the end of the loop. */
  ghost function At(r: Rules, n: nat): State {
    if n == 0 then START
    else
      var s := At(r, n - 1);
      if Over(r, s) then s else Turn(r, s).0
  }

  lemma {:induction false} AtInv(r: Rules, n: nat)
    requires r.Ok()
    ensures Inv(r, At(r, n))
  {
    if n == 0 {
      StartInv(r);
    } else {
      AtInv(r, n - 1);
      if !Over(r, At(r, n - 1)) { TurnInv(r, At(r, n - 1)); }
    }
  }

  /** Some state of the run is stuck. */
  ghost predicate NeverEnds(r: Rules) { exists n: nat :: Stuck(r, At(r, n)) }

  ghost predicate Ends(r: Rules) { exists n: nat :: Over(r, At(r, n)) }

  /** Once stuck, no number of turns changes anything. */
  lemma {:induction false} StuckForever(r: Rules, n: nat, m: nat)
    requires Stuck(r, At(r, n)) && n <= m
    ensures At(r, m) == At(r, n) && !Over(r, At(r, m))
  {
    StuckStays(r, At(r, n));
    if n < m { StuckForever(r, n, m - 1); }
  }

  ghost predicate OverKeeps(r: Rules, f: nat -> State, n: nat) { Over(r, f(n)) ==> f(n + 1) == f(n) }

  lemma {:induction false} OverForever(r: Rules, f: nat -> State, n: nat, m: nat)
    requires Over(r, f(n)) && n <= m && forall k: nat :: OverKeeps(r, f, k)
    ensures f(m) == f(n)
  {
    if n < m {
      OverForever(r, f, n, m - 1);
      assert OverKeeps(r, f, m - 1);
    }
  }

  lemma OverStays(r: Rules, n: nat, m: nat)
    requires Over(r, At(r, n)) && n <= m
    ensures At(r, m) == At(r, n)
  {
    var f := (k: nat) => At(r, k);
    assert forall k: nat :: OverKeeps(r, f, k);
    OverForever(r, f, n, m);
  }

  /** Candidates still to be considered. */
  ghost function Left(r: Rules, c: Cursor): int { |r.order| - c.mi + |c.modified| }

  /** More is in the block, or a candidate has been used up. */
  ghost predicate Further(r: Rules, s: State, s': State) {
    s.block < s'.block || (s'.block == s.block && Left(r, s'.c) < Left(r, s.c))
  }

  lemma EvaluatedFurther(r: Rules, v: Verdict, s: State, t: TxId, um: bool)
    requires t !in s.block && (um ==> t in s.c.modified) && v != FeeTooLow
    ensures Further(r, s, Evaluated(r, v, s.block, Past(s.c, um), t, um).0)
  {
    if v == Fits {
      assert t in Evaluated(r, v, s.block, Past(s.c, um), t, um).0.block;
    } else if um {
      assert s.c.modified.Keys == (s.c.modified - {t}).Keys + {t};
    }
  }

  lemma TurnFurther(r: Rules, s: State)
    requires r.Ok() && Inv(r, s) && Running(r, s.c) && Turn(r, s).1 == Continue
    ensures Further(r, s, Turn(r, s).0)
  {
    if !Stale(r, s) {
      CandidateOk(r, s);
      var t, um, v := Candidate(r, s.c), UsesModified(r, s.c), VerdictOn(r, s);
      if !r.Young(t) { EvaluatedFurther(r, v, s, t, um); }
    }
  }

  lemma FewerMissing(all: set<TxId>, block: set<TxId>, block': set<TxId>)
    requires block <= block' <= all
    ensures all - block' <= all - block && (block < block' ==> all - block' < all - block)
  {
    if block < block' {
      var t :| t in block' && t !in block;
      assert t in all - block && t !in all - block';
    }
  }

  lemma GoesOn(r: Rules, s: State)
    requires !Over(r, s) && !Stuck(r, s)
    ensures Running(r, s.c) && Turn(r, s).1 == Continue
  {
    StuckStays(r, s);
  }

  lemma NextFurther(r: Rules, n: nat)
    requires r.Ok() && !Over(r, At(r, n)) && !Stuck(r, At(r, n))
    ensures Further(r, At(r, n), At(r, n + 1))
    ensures At(r, n).block <= r.pool.txs.Keys && At(r, n + 1).block <= r.pool.txs.Keys && Left(r, At(r, n + 1).c) >= 0
  {
    AtInv(r, n);
    AtInv(r, n + 1);
    GoesOn(r, At(r, n));
    TurnFurther(r, At(r, n));
  }

  /** Every selection ends or gets stuck. */
  lemma {:induction false} EndsOrStuck(r: Rules, n: nat) returns (m: nat)
    requires r.Ok()
    ensures m >= n && (Over(r, At(r, m)) || Stuck(r, At(r, m)))
    decreases r.pool.txs.Keys - At(r, n).block, Left(r, At(r, n).c)
  {
    var s := At(r, n);
    m := n;
    if !Over(r, s) {
      StuckStays(r, s);
      if !Stuck(r, s) {
        NextFurther(r, n);
        FewerMissing(r.pool.txs.Keys, s.block, At(r, n + 1).block);
        m := EndsOrStuck(r, n + 1);
      }
    }
  }

  /** It does not do both. */
  lemma EndsIff(r: Rules)
    requires r.Ok()
    ensures Ends(r) <==> !NeverEnds(r)
  {
    var m := EndsOrStuck(r, 0);
    if Ends(r) && NeverEnds(r) {
      var n: nat :| Over(r, At(r, n));
      var k: nat :| Stuck(r, At(r, k));
      if n <= k { OverStays(r, n, k); } else { StuckForever(r, k, n); }
      StuckStays(r, At(r, k));
    }
  }
}
