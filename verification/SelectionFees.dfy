/**
 What fees decide in a selection (src/miner.cpp): which candidate comes next, that every package of the
 block pays the fee floor, when the floor ends the selection, and when the loop may give up.
 */
module SelectionFees {
  import opened Sets
  import opened Mempool
  import opened MinerSpec
  import opened Records
  import opened Selection
  import opened SelectionRuns

  // ---- The best candidate ----

  /** Whether a candidate with its totals scores better than another with its own. */
  type Score = (TxId, Modified, TxId, Modified) -> bool

  /** The candidates a score is meant for. */
  type Domain = (TxId, Modified) -> bool

  /** No candidate scores better than itself, of two at most one is better, and being no better is transitive. */
  ghost predicate StrictWeak(better: Score, dom: Domain) {
    && (forall t, e :: !better(t, e, t, e))
    && (forall t, e, u, f, v, g {:trigger better(v, g, u, f), better(u, f, t, e)} ::
        dom(t, e) && dom(u, f) && dom(v, g) && !better(v, g, u, f) && !better(u, f, t, e) ==> !better(v, g, t, e))
    && (forall t, e, u, f {:trigger better(t, e, u, f)} :: better(t, e, u, f) ==> !better(u, f, t, e))
  }

  /** The order of the pool, the best modified entry and the comparison of the two follow one score. */
  ghost predicate Ranked(r: Rules, better: Score) {
    && (forall i, j :: 0 <= i < j < |r.order| ==>
        !better(r.order[j], CachedEntry(r.pool, r.order[j]), r.order[i], CachedEntry(r.pool, r.order[i])))
    && (forall m: ModifiedTx, t :: t in m && r.best(m) in m ==> !better(t, m[t], r.best(m), m[r.best(m)]))
    && (forall m: ModifiedTx, t :: r.best(m) in m ==>
        (r.wins(m, t) <==> better(r.best(m), m[r.best(m)], t, CachedEntry(r.pool, t))))
  }

  /** All candidates are such. */
  ghost predicate Scored(r: Rules, s: State, dom: Domain) {
    && (forall u :: u in s.c.modified ==> dom(u, s.c.modified[u]))
    && (forall i :: 0 <= i < |r.order| ==> dom(r.order[i], CachedEntry(r.pool, r.order[i])))
  }

  lemma NotBetter(better: Score, dom: Domain, t: TxId, e: Modified, u: TxId, f: Modified, v: TxId, g: Modified)
    requires StrictWeak(better, dom) && dom(t, e) && dom(u, f) && dom(v, g) && !better(v, g, u, f) &&
             !better(u, f, t, e)
    ensures !better(v, g, t, e)
  {
  }

  lemma NoBetterModified(r: Rules, better: Score, dom: Domain, s: State, u: TxId)
    requires r.Ok() && Inv(r, s) && Running(r, s.c) && !Stale(r, s) && StrictWeak(better, dom) && Ranked(r, better)
    requires Scored(r, s, dom) && u in s.c.modified
    ensures !better(u, s.c.modified[u], Candidate(r, s.c), Totals(r, s.c))
  {
    CandidateOk(r, s);
    var m := s.c.modified;
    var b := r.best(m);
    assert b in m && !better(u, m[u], b, m[b]);
    NotBetter(better, dom, Candidate(r, s.c), Totals(r, s.c), b, m[b], u, m[u]);
  }

  lemma NoBetterAhead(r: Rules, better: Score, dom: Domain, s: State, i: nat)
    requires r.Ok() && Inv(r, s) && Running(r, s.c) && !Stale(r, s) && StrictWeak(better, dom) && Ranked(r, better)
    requires Scored(r, s, dom) && s.c.mi <= i < |r.order|
    ensures !better(r.order[i], CachedEntry(r.pool, r.order[i]), Candidate(r, s.c), Totals(r, s.c))
  {
    CandidateOk(r, s);
    var t, u := r.order[s.c.mi], r.order[i];
    var e, f := CachedEntry(r.pool, t), CachedEntry(r.pool, u);
    assert !better(u, f, t, e);
    if UsesModified(r, s.c) {
      assert better(Candidate(r, s.c), Totals(r, s.c), t, e);
      NotBetter(better, dom, Candidate(r, s.c), Totals(r, s.c), t, e, u, f);
    }
  }

  /** No candidate still to come scores better than the one a turn looks at. */
  lemma GreedyChoice(r: Rules, better: Score, dom: Domain, s: State)
    requires r.Ok() && Inv(r, s) && Running(r, s.c) && !Stale(r, s) && StrictWeak(better, dom) && Ranked(r, better)
    requires Scored(r, s, dom)
    ensures dom(Candidate(r, s.c), Totals(r, s.c))
    ensures forall u :: u in s.c.modified ==> !better(u, s.c.modified[u], Candidate(r, s.c), Totals(r, s.c))
    ensures forall i :: s.c.mi <= i < |r.order| ==>
              !better(r.order[i], CachedEntry(r.pool, r.order[i]), Candidate(r, s.c), Totals(r, s.c))
  {
    CandidateOk(r, s);
    forall u | u in s.c.modified ensures !better(u, s.c.modified[u], Candidate(r, s.c), Totals(r, s.c)) {
      NoBetterModified(r, better, dom, s, u);
    }
    forall i | s.c.mi <= i < |r.order|
      ensures !better(r.order[i], CachedEntry(r.pool, r.order[i]), Candidate(r, s.c), Totals(r, s.c))
    {
      NoBetterAhead(r, better, dom, s, i);
    }
  }

  // ---- The fee floor ----

  /** A candidate that is looked at and not too young ends the selection just if its totals fall short. */
  lemma FloorIff(r: Rules, s: State)
    requires !Stale(r, s) && !r.Young(Candidate(r, s.c))
    ensures Turn(r, s).1 == LowFee <==> Totals(r, s.c).modFees < r.minFee(Totals(r, s.c).size)
  {
  }

  /** A turn adds nothing to the block but the package of a candidate whose totals pay the floor. */
  lemma PaysToEnter(r: Rules, s: State)
    requires Turn(r, s).0.block != s.block
    ensures !Stale(r, s) && Turn(r, s).0.block == s.block + Package(r.pool, Candidate(r, s.c))
    ensures Totals(r, s.c).modFees >= r.minFee(Totals(r, s.c).size)
  {
  }

  /** What the floor asks of the packages taken in `n` turns, one by one. */
  ghost function Due(r: Rules, n: nat): int {
    if n == 0 then 0
    else Due(r, n - 1) + DueAt(r, At(r, n - 1), At(r, n).block)
  }

  ghost function DueAt(r: Rules, s: State, block: set<TxId>): int {
    if block == s.block then 0 else r.minFee(Rest(r.pool, Size, Candidate(r, s.c), s.block))
  }

  lemma PaidStep(r: Rules, s: State)
    requires r.Ok() && Inv(r, s) && Running(r, s.c) && Exact(r.pool, s) && Turn(r, s).0.block != s.block
    ensures var t, block := Candidate(r, s.c), Turn(r, s).0.block;
            && Total(r.pool, ModFee, block) == Total(r.pool, ModFee, s.block) + Rest(r.pool, ModFee, t, s.block)
            && Total(r.pool, Size, block) == Total(r.pool, Size, s.block) + Rest(r.pool, Size, t, s.block)
            && Rest(r.pool, ModFee, t, s.block) >= r.minFee(Rest(r.pool, Size, t, s.block))
  {
    PaysToEnter(r, s);
    CandidateOk(r, s);
    TotalsOk(r, s);
    AddsUp(r.pool, ModFee, Candidate(r, s.c), s.block);
    AddsUp(r.pool, Size, Candidate(r, s.c), s.block);
  }

  lemma AddsUp(p: Pool, k: Kind, t: TxId, block: set<TxId>)
    ensures Total(p, k, block + Package(p, t)) == Total(p, k, block) + Rest(p, k, t, block)
  {
    TotalUnion(p, k, block, Package(p, t) - block);
    assert block + (Package(p, t) - block) == block + Package(p, t);
  }

  /** Where every recorded total is exact, the fees of the block cover what the floor asks of each package. */
  lemma {:induction false} FloorPaid(r: Rules, n: nat)
    requires r.Ok() && AlwaysExact(r)
    ensures Total(r.pool, ModFee, At(r, n).block) >= Due(r, n)
  {
    if n > 0 {
      FloorPaid(r, n - 1);
      AtInv(r, n - 1);
      NextAt(r, n - 1);
      assert ExactlyAt(r, n - 1);
      if At(r, n).block != At(r, n - 1).block { PaidStep(r, At(r, n - 1)); }
    }
  }

  /** For a floor that asks no more of a whole than of its parts, the block as a whole pays it. */
  lemma {:induction false} BlockPays(r: Rules, n: nat)
    requires r.Ok() && AlwaysExact(r) && r.minFee(0) <= 0
    requires forall a, b :: r.minFee(a + b) <= r.minFee(a) + r.minFee(b)
    ensures Total(r.pool, ModFee, At(r, n).block) >= r.minFee(Total(r.pool, Size, At(r, n).block))
  {
    if n > 0 {
      BlockPays(r, n - 1);
      AtInv(r, n - 1);
      NextAt(r, n - 1);
      assert ExactlyAt(r, n - 1);
      if At(r, n).block != At(r, n - 1).block { PaidStep(r, At(r, n - 1)); }
    }
  }

  // ---- Selections that end at once ----

  /** Nothing has been included or set aside. */
  predicate Untouched(s: State) { s.block == {} && s.c.modified == map[] && s.c.failed == {} }

  ghost predicate FallsShort(r: Rules, t: TxId) {
    Cached(r.pool, ModFee, t) < r.minFee(Cached(r.pool, Size, t))
  }

  /** The first `k` candidates are too young. */
  predicate NoneUpTo(r: Rules, k: nat) {
    k <= |r.order| && forall i :: 0 <= i < k ==> r.Young(r.order[i])
  }

  /** The first candidate old enough falls short of the floor. */
  ghost predicate FirstShort(r: Rules, k: nat) {
    k < |r.order| && NoneUpTo(r, k) && !r.Young(r.order[k]) && FallsShort(r, r.order[k])
  }

  lemma {:induction false} UntouchedUpTo(r: Rules, k: nat, n: nat)
    requires NoneUpTo(r, k) && n <= k
    ensures At(r, n) == State({}, Cursor(map[], {}, n, 0))
  {
    if n > 0 {
      UntouchedUpTo(r, k, n - 1);
      NextAt(r, n - 1);
      var s := At(r, n - 1);
      assert !Stale(r, s) && Candidate(r, s.c) == r.order[n - 1];
    }
  }

  /** Then the selection ends there, with an empty block, however the rest of the pool looks. */
  lemma EndsAtFloor(r: Rules, k: nat, n: nat)
    requires FirstShort(r, k)
    ensures At(r, n).block == {} && (Over(r, At(r, n)) <==> n >= k) && !Stuck(r, At(r, n))
    ensures Over(r, At(r, n)) ==> Running(r, At(r, n).c) && Turn(r, At(r, n)).1 == LowFee
  {
    UntouchedUpTo(r, k, k);
    var s := At(r, k);
    assert !Stale(r, s) && Candidate(r, s.c) == r.order[k];
    FloorIff(r, s);
    if n >= k {
      OverStays(r, k, n);
    } else {
      UntouchedUpTo(r, k, n);
      assert !Stale(r, At(r, n)) && Candidate(r, At(r, n).c) == r.order[n];
    }
  }

  lemma UntouchedNext(r: Rules, s: State)
    requires r.Ok() && Inv(r, s) && Untouched(s) && Running(r, s.c) && Turn(r, s).1 != LowFee
    requires forall t :: t in r.pool.txs ==> FallsShort(r, t)
    ensures Untouched(Turn(r, s).0)
  {
    CandidateOk(r, s);
    if !r.Young(Candidate(r, s.c)) { FloorIff(r, s); }
  }

  /** If no package pays the floor, no order and no age filter gets anything into the block. */
  lemma {:induction false} NothingPays(r: Rules, n: nat)
    requires r.Ok() && forall t :: t in r.pool.txs ==> FallsShort(r, t)
    ensures Untouched(At(r, n))
  {
    if n > 0 {
      NothingPays(r, n - 1);
      AtInv(r, n - 1);
      NextAt(r, n - 1);
      if !Over(r, At(r, n - 1)) { UntouchedNext(r, At(r, n - 1)); }
    }
  }

  // ---- Giving up ----

  /** The candidates that may still be looked at. */
  ghost function Open(r: Rules, s: State): set<TxId> {
    (set i | s.c.mi <= i < |r.order| && r.order[i] !in s.c.failed && r.order[i] !in s.block :: r.order[i]) +
    s.c.modified.Keys
  }

  /** Every failure since the last package was included has used up a candidate. */
  ghost predicate Counted(r: Rules, s: State) {
    Open(r, s) <= r.pool.txs.Keys && s.c.nConsecutiveFailed + |Open(r, s)| <= |r.pool.txs|
  }

  lemma FewerOpen(r: Rules, s: State, s': State, t: TxId)
    requires Counted(r, s) && t in Open(r, s) && Open(r, s') <= Open(r, s) - {t}
    requires s'.c.nConsecutiveFailed <= s.c.nConsecutiveFailed + 1
    ensures Counted(r, s')
  {
    SubsetSize(Open(r, s'), Open(r, s) - {t});
  }

  lemma AllOpen(r: Rules, s: State)
    requires r.Ok() && Inv(r, s) && s.c.nConsecutiveFailed == 0
    ensures Counted(r, s)
  {
    forall t | t in Open(r, s) ensures t in r.pool.txs {
      if t !in s.c.modified { ElemsIff(r.order, t); }
    }
    SubsetSize(Open(r, s), r.pool.txs.Keys);
    assert |r.pool.txs.Keys| == |r.pool.txs|;
  }

  lemma SameOpen(r: Rules, s: State, s': State)
    requires Counted(r, s) && Open(r, s') <= Open(r, s) && s'.c.nConsecutiveFailed == s.c.nConsecutiveFailed
    ensures Counted(r, s')
  {
    SubsetSize(Open(r, s'), Open(r, s));
  }

  lemma AsideFewer(r: Rules, s: State, t: TxId, um: bool)
    requires Counted(r, s) && NoDuplicates(r.order) && Next(r, s, t, um)
    requires !um ==> t !in s.c.modified && t !in s.c.failed && t !in s.block
    ensures var s' := State(s.block, Dropped(Past(s.c, um), t, um));
            Counted(r, s') && Counted(r, s'.(c := s'.c.(nConsecutiveFailed := s.c.nConsecutiveFailed + 1)))
  {
    var s' := State(s.block, Dropped(Past(s.c, um), t, um));
    var s'' := s'.(c := s'.c.(nConsecutiveFailed := s.c.nConsecutiveFailed + 1));
    assert t in Open(r, s) && Open(r, s'') == Open(r, s');
    forall u | u in Open(r, s') ensures u in Open(r, s) && u != t {
      if u !in s'.c.modified {
        var i :| s'.c.mi <= i < |r.order| && r.order[i] == u && u !in s'.c.failed && u !in s'.block;
        assert u in Open(r, s);
      }
    }
    FewerOpen(r, s, s', t);
    FewerOpen(r, s, s'', t);
  }

  lemma PassedFewer(r: Rules, s: State)
    requires Counted(r, s)
    ensures Counted(r, State(s.block, s.c.(mi := s.c.mi + 1)))
  {
    SameOpen(r, s, State(s.block, s.c.(mi := s.c.mi + 1)));
  }

  lemma CountedJudged(r: Rules, s: State, t: TxId, um: bool, v: Verdict)
    requires r.Ok() && NoDuplicates(r.order) && Counted(r, s) && Next(r, s, t, um) && v != FeeTooLow
    requires !um ==> t !in s.c.modified && t !in s.c.failed && t !in s.block
    requires v == Fits ==> Inv(r, Evaluated(r, v, s.block, Past(s.c, um), t, um).0)
    ensures Counted(r, Evaluated(r, v, s.block, Past(s.c, um), t, um).0)
  {
    if v == Fits {
      AllOpen(r, Evaluated(r, v, s.block, Past(s.c, um), t, um).0);
    } else {
      AsideFewer(r, s, t, um);
    }
  }

  lemma CountedTurn(r: Rules, s: State)
    requires r.Ok() && NoDuplicates(r.order) && Inv(r, s) && Running(r, s.c) && Counted(r, s)
    requires Turn(r, s).1 == Continue
    ensures Counted(r, Turn(r, s).0)
  {
    var t, um, v := Candidate(r, s.c), UsesModified(r, s.c), VerdictOn(r, s);
    if Stale(r, s) || r.Young(t) {
      PassedFewer(r, s);
    } else {
      CandidateOk(r, s);
      TurnJudges(r, s);
      TurnInv(r, s);
      CountedJudged(r, s, t, um, v);
    }
  }

  lemma {:induction false} CountedAt(r: Rules, n: nat)
    requires r.Ok() && NoDuplicates(r.order)
    ensures Counted(r, At(r, n))
  {
    if n == 0 {
      StartInv(r);
      AllOpen(r, START);
    } else {
      CountedAt(r, n - 1);
      AtInv(r, n - 1);
      NextAt(r, n - 1);
      if !Over(r, At(r, n - 1)) { CountedStep(r, At(r, n - 1)); }
    }
  }

  lemma CountedStep(r: Rules, s: State)
    requires r.Ok() && NoDuplicates(r.order) && Inv(r, s) && Counted(r, s) && !Over(r, s)
    ensures Counted(r, Turn(r, s).0)
  {
    StuckStays(r, s);
    if !Stuck(r, s) { CountedTurn(r, s); }
  }

  /**
   The selection gives up only with a block within 4000 of the weight limit, and only with more than a
   thousand transactions in the pool: failures between two inclusions are of different transactions.
   */
  lemma GivesUpOnlyIf(r: Rules, n: nat)
    requires r.Ok() && NoDuplicates(r.order) && Running(r, At(r, n).c) && Turn(r, At(r, n)).1 == GaveUp
    ensures |r.pool.txs| > 1000 && BlockWeight(r.pool, At(r, n).block) > r.maxWeight - 4000
    ensures At(r, n).c.nConsecutiveFailed >= 1000 && !Small(r, At(r, n).block, Totals(r, At(r, n).c))
  {
    var s := At(r, n);
    AtInv(r, n);
    CountedAt(r, n);
    GaveUpMeans(r, s);
    CandidateOk(r, s);
    OpenHas(r, s, Candidate(r, s.c), UsesModified(r, s.c));
  }

  lemma GaveUpMeans(r: Rules, s: State)
    requires Turn(r, s).1 == GaveUp
    ensures !Stale(r, s) && s.c.nConsecutiveFailed >= 1000 && BlockWeight(r.pool, s.block) > r.maxWeight - 4000
    ensures !Small(r, s.block, Totals(r, s.c))
  {
  }

  lemma OpenHas(r: Rules, s: State, t: TxId, um: bool)
    requires Next(r, s, t, um) && (!um ==> t !in s.c.failed && t !in s.block)
    ensures |Open(r, s)| >= 1
  {
    assert t in Open(r, s);
    SubsetSize({t}, Open(r, s));
  }
}
