/**
 The block assembler (src/miner.cpp): greedy selection of transaction packages into a block template,
 in place. One turn of its loop is the turn of the specification, so its runs are the specified ones.
 */
module Miner {
  import opened Sets
  import opened Mempool
  import opened MinerSpec
  import opened Records
  import opened Selection
  import opened SelectionRuns
  import opened SelectionFees

  /** How the selection ended. */
  datatype End = Exhausted | FeeFloor | NearlyFull | Never

  // The weight limit lies between the reserve for the coinbase and the most a block may weigh, less that reserve.
  function MaxWeight(option: nat): nat {
    var capped := if option < MAX_BLOCK_WEIGHT - 4000 then option else MAX_BLOCK_WEIGHT - 4000;
    if capped < 4000 then 4000 else capped
  }

  class BlockAssembler {
    const pool: Pool
    // The fee floor for a package of a given size.
    const minFee: int -> int
    const nBlockMaxWeight: nat
    // All transactions of the pool, best package fee rate first.
    const order: seq<TxId>
    // The best entry of the side table, and whether it beats a transaction of the pool.
    const best: ModifiedTx -> TxId
    const wins: (ModifiedTx, TxId) -> bool

    var vtx: seq<TxId>
    var inBlock: set<TxId>
    var nBlockWeight: nat
    var nBlockSigOpsCost: nat
    var nBlockTx: nat
    var nFees: int

    constructor (pool: Pool, minFee: int -> int, optionMaxWeight: nat, order: seq<TxId>,
                 best: ModifiedTx -> TxId, wins: (ModifiedTx, TxId) -> bool)
      requires WellFormed(pool) && Elems(order) == pool.txs.Keys && Picks(best)
      ensures Valid() && vtx == []
      ensures this.pool == pool && this.minFee == minFee && this.order == order && this.best == best &&
              this.wins == wins
      ensures nBlockMaxWeight == MaxWeight(optionMaxWeight)
    {
      this.pool, this.minFee, this.order, this.best, this.wins := pool, minFee, order, best, wins;
      nBlockMaxWeight := MaxWeight(optionMaxWeight);
      vtx, inBlock := [], {};
      nBlockWeight, nBlockSigOpsCost, nBlockTx, nFees := COINBASE_WEIGHT, COINBASE_SIGOPS, 0, 0;
    }

    /** The template without the limits: no duplicates, ancestors first, counters exact, all final. */
    ghost predicate Consistent()
      reads this
    {
      && WellFormed(pool) && Elems(order) == pool.txs.Keys && Picks(best) && nBlockMaxWeight >= COINBASE_WEIGHT
      && NoDuplicates(vtx) && AncestorsFirst(pool, vtx) && inBlock == Elems(vtx) && inBlock <= pool.txs.Keys
      && nBlockWeight == COINBASE_WEIGHT + Total(pool, Weight, inBlock)
      && nBlockSigOpsCost == COINBASE_SIGOPS + Total(pool, Sigops, inBlock)
      && nBlockTx == |vtx|
      && nFees == Total(pool, Fee, inBlock)
      && (forall t :: t in inBlock ==> Admissible(pool, t))
    }

    ghost predicate Valid()
      reads this
    {
      Consistent() && nBlockWeight <= nBlockMaxWeight && nBlockSigOpsCost < MAX_BLOCK_SIGOPS_COST
    }

    // The rules of a selection with an age filter.
    function RulesFor(requiredAge: int, now: int): Rules {
      Rules(pool, minFee, nBlockMaxWeight, order, best, wins, requiredAge, now)
    }

    ghost predicate Follows(r: Rules) { r == RulesFor(r.requiredAge, r.now) }

    method ResetBlock()
      requires Consistent()
      modifies this
      ensures Valid() && vtx == [] && inBlock == {}
    {
      vtx, inBlock := [], {};
      nBlockWeight, nBlockSigOpsCost, nBlockTx, nFees := COINBASE_WEIGHT, COINBASE_SIGOPS, 0, 0;
    }

    function TestPackage(packageSize: int, packageSigOps: int): bool
      reads this
    {
      nBlockWeight + 4 * packageSize < nBlockMaxWeight && nBlockSigOpsCost + packageSigOps < MAX_BLOCK_SIGOPS_COST
    }

    method TestPackageTransactions(package: set<TxId>) returns (ok: bool)
      requires package <= pool.txs.Keys
      ensures ok <==> forall t :: t in package ==> Admissible(pool, t)
    {
      var rest := package;
      while rest != {}
        invariant rest <= package
        invariant forall t :: t in package - rest ==> Admissible(pool, t)
        decreases rest
      {
        var t :| t in rest;
        if !pool.txs[t].isFinal { return false; }
        if pool.txs[t].hasWitness { return false; }
        rest := rest - {t};
      }
      return true;
    }

    method AddToBlock(t: TxId)
      requires Consistent()
      requires t in pool.txs && t !in inBlock && pool.anc[t] <= inBlock
      requires Admissible(pool, t)
      modifies this
      ensures Consistent()
      ensures vtx == old(vtx) + [t] && inBlock == old(inBlock) + {t}
    {
      TotalPut(pool, Weight, inBlock, t);
      TotalPut(pool, Sigops, inBlock, t);
      TotalPut(pool, Fee, inBlock, t);
      AppendToBlock(pool, vtx, t);
      var tx := pool.txs[t];
      vtx := vtx + [t];
      nBlockWeight := nBlockWeight + tx.weight;
      nBlockTx := nBlockTx + 1;
      nBlockSigOpsCost := nBlockSigOpsCost + tx.sigops;
      nFees := nFees + tx.fee;
      inBlock := inBlock + {t};
    }

    /** A package in an order fit for the block: by number of ancestors. */
    method SortForBlock(package: set<TxId>) returns (sorted: seq<TxId>)
      requires package <= pool.anc.Keys
      ensures NoDuplicates(sorted) && Elems(sorted) == package && ByAncestorCount(pool, sorted)
    {
      sorted := [];
      var rest := package;
      while rest != {}
        invariant PartlySorted(pool, package, sorted, rest)
        decreases rest
      {
        var t := FewestAncestors(rest);
        SortStep(pool, package, sorted, rest, t);
        sorted := sorted + [t];
        rest := rest - {t};
      }
    }

    method FewestAncestors(s: set<TxId>) returns (t: TxId)
      requires s != {} && s <= pool.anc.Keys
      ensures t in s && forall u :: u in s ==> |pool.anc[t]| <= |pool.anc[u]|
    {
      t :| t in s;
      var rest := s - {t};
      while rest != {}
        invariant t in s && rest <= s && forall u :: u in s - rest ==> |pool.anc[t]| <= |pool.anc[u]|
        decreases rest
      {
        var u :| u in rest;
        if |pool.anc[u]| < |pool.anc[t]| { t := u; }
        rest := rest - {u};
      }
    }
  
    // Add the next transaction of a sorted package.
    method AddNext(sorted: seq<TxId>, i: nat, ghost block: set<TxId>, ghost txs: seq<TxId>)
      requires Consistent() && i < |sorted| && Addable(pool, sorted, block)
      requires vtx == txs + sorted[..i] && inBlock == block + Elems(sorted[..i])
      modifies this
      ensures Consistent() && vtx == txs + sorted[..i + 1] && inBlock == block + Elems(sorted[..i + 1])
    {
      NextSorted(pool, sorted, block, i);
      AddToBlock(sorted[i]);
    }

    // Add a sorted package, parents first.
    method AddSorted(sorted: seq<TxId>)
      requires Consistent() && Addable(pool, sorted, inBlock)
      modifies this
      ensures Consistent()
      ensures vtx == old(vtx) + sorted && inBlock == old(inBlock) + Elems(sorted)
    {
      ghost var block, txs := inBlock, vtx;
      assert sorted[..0] == [];
      for i := 0 to |sorted|
        invariant Consistent() && vtx == txs + sorted[..i] && inBlock == block + Elems(sorted[..i])
      {
        AddNext(sorted, i, block, txs);
      }
      assert sorted[..|sorted|] == sorted;
    }

    // Account an included transaction in the entries of the given descendants.
    method UpdateDescendants(t: TxId, ds: set<TxId>, modified: ModifiedTx) returns (m: ModifiedTx)
      requires WellFormed(pool) && ds <= pool.txs.Keys
      ensures m == IncludedTable(pool, modified, t, ds)
    {
      var rest := ds;
      m := modified;
      assert m == IncludedTable(pool, modified, t, ds - rest);
      while rest != {}
        invariant rest <= ds && m == IncludedTable(pool, modified, t, ds - rest)
        decreases rest
      {
        var d := Least(rest);
        m := UpdateEntry(d, t, m, modified, ds - rest);
        assert ds - rest + {d} == ds - (rest - {d});
        rest := rest - {d};
      }
      assert ds - rest == ds;
    }

    // Account it in the entry of one more descendant.
    method UpdateEntry(d: TxId, t: TxId, m: ModifiedTx, ghost before: ModifiedTx, ghost done: set<TxId>)
      returns (m': ModifiedTx)
      requires WellFormed(pool) && d in pool.txs && d !in done && m == IncludedTable(pool, before, t, done)
      ensures m' == IncludedTable(pool, before, t, done + {d})
    {
      if d in m {
        m' := m[d := UpdatedEntry(pool, m[d], t)];
      } else {
        var cached := CachedTotals(d);
        m' := m[d := FreshEntry(pool, cached, t)];
      }
      OneMore(pool, before, t, done, d);
    }

    // The ancestor totals kept by the mempool.
    method CachedTotals(t: TxId) returns (e: Modified)
      requires t in pool.anc && Package(pool, t) <= pool.txs.Keys
      ensures e == CachedEntry(pool, t)
    {
      e := Modified(0, 0, 0);
      var rest := Package(pool, t);
      while rest != {}
        invariant rest <= Package(pool, t)
        invariant e.size + Total(pool, Size, rest) == Cached(pool, Size, t)
        invariant e.modFees + Total(pool, ModFee, rest) == Cached(pool, ModFee, t)
        invariant e.sigops + Total(pool, Sigops, rest) == Cached(pool, Sigops, t)
        decreases rest
      {
        var u :| u in rest;
        TotalTake(pool, Size, rest, u);
        TotalTake(pool, ModFee, rest, u);
        TotalTake(pool, Sigops, rest, u);
        e := Modified(e.size + pool.txs[u].size, e.modFees + pool.txs[u].modFee, e.sigops + pool.txs[u].sigops);
        rest := rest - {u};
      }
    }

    /** Account a newly included package in all its descendants, in the order of hashes. */
    method UpdatePackagesForAdded(alreadyAdded: set<TxId>, modified: ModifiedTx) returns (m: ModifiedTx)
      requires WellFormed(pool)
      ensures m == Accounted(pool, modified, alreadyAdded, alreadyAdded)
    {
      var rest := alreadyAdded;
      m := modified;
      while rest != {}
        invariant rest <= alreadyAdded
        invariant Accounted(pool, m, rest, alreadyAdded) == Accounted(pool, modified, alreadyAdded, alreadyAdded)
        decreases rest
      {
        var t := Least(rest);
        m := UpdateDescendants(t, Descendants(pool, t) - alreadyAdded, m);
        rest := rest - {t};
      }
    }

    // ---- One turn ----

    method PackageTotals(r: Rules, c: Cursor) returns (e: Modified)
      requires Follows(r) && Consistent() && Candidate(r, c) in pool.txs
      ensures e == Totals(r, c)
    {
      var t := Candidate(r, c);
      if UsesModified(r, c) && t in c.modified {
        e := c.modified[t];
      } else {
        e := CachedTotals(t);
      }
    }

    // Put the remaining part of a package into the block and bring the side table up to date.
    method AddPackage(t: TxId, package: set<TxId>, c: Cursor) returns (c': Cursor)
      requires Consistent() && t in pool.txs && package == Package(pool, t) - inBlock
      requires forall u :: u in package ==> Admissible(pool, u)
      modifies this
      ensures Consistent() && old(vtx) <= vtx
      ensures State(inBlock, c') == Included(pool, old(inBlock), c, t)
    {
      AncestorsFirstClosed(pool, vtx);
      PackageParents(pool, t, inBlock);
      var sorted := SortForBlock(package);
      AddSorted(sorted);
      var modified := UpdatePackagesForAdded(package, c.modified - package);
      c' := c.(modified := modified, nConsecutiveFailed := 0);
    }

    // Include the package of a candidate if all of it may enter a block.
    method TryPackage(t: TxId, um: bool, c: Cursor) returns (fits: bool, c': Cursor)
      requires Consistent() && t in pool.txs && t !in inBlock
      modifies this
      ensures Consistent() && old(vtx) <= vtx && (inBlock == old(inBlock) ==> vtx == old(vtx))
      ensures fits <==> forall u :: u in Package(pool, t) - old(inBlock) ==> Admissible(pool, u)
      ensures State(inBlock, c') ==
              if fits then Included(pool, old(inBlock), c, t) else State(old(inBlock), Dropped(c, t, um))
    {
      AncestorsFirstClosed(pool, vtx);
      PackageParents(pool, t, inBlock);
      var package := Anc(pool, t) - inBlock + {t};
      assert package == Package(pool, t) - inBlock;
      fits := TestPackageTransactions(package);
      if fits {
        c' := AddPackage(t, package, c);
        assert t in inBlock;
      } else {
        c' := Dropped(c, t, um);
      }
    }

    // Test a candidate and include its package if it passes; `c` is past it.
    method Evaluate(r: Rules, t: TxId, um: bool, e: Modified, c: Cursor, ghost v: Verdict)
      returns (c': Cursor, o: Outcome)
      requires Follows(r) && Consistent() && t in pool.txs && t !in inBlock && Judged(t, e, v)
      modifies this
      ensures Consistent() && old(vtx) <= vtx && (inBlock == old(inBlock) ==> vtx == old(vtx))
      ensures (State(inBlock, c'), o) == Evaluated(r, v, old(inBlock), c, t, um)
      ensures o == LowFee <==> e.modFees < minFee(e.size)
      ensures inBlock != old(inBlock) <==>
              && e.modFees >= minFee(e.size) && old(TestPackage(e.size, e.sigops))
              && forall u :: u in Package(pool, t) - old(inBlock) ==> Admissible(pool, u)
      ensures inBlock == old(inBlock) || inBlock == old(inBlock) + Package(pool, t)
      ensures o == GaveUp <==>
              && e.modFees >= minFee(e.size) && !old(TestPackage(e.size, e.sigops))
              && c.nConsecutiveFailed >= 1000 && old(nBlockWeight) > nBlockMaxWeight - 4000
    {
      if e.modFees < minFee(e.size) { return c, LowFee; }
      if TestPackage(e.size, e.sigops) {
        var fits;
        fits, c' := TryPackage(t, um, c);
        return c', Continue;
      }
      var n := c.nConsecutiveFailed + 1;
      c' := Dropped(c, t, um).(nConsecutiveFailed := n);
      o := if n > MAX_CONSECUTIVE_FAILURES && nBlockWeight > nBlockMaxWeight - 4000 then GaveUp else Continue;
    }

    // What the tests say of a candidate with the given totals.
    ghost predicate Judged(t: TxId, e: Modified, v: Verdict)
      reads this
    {
      v == if e.modFees < minFee(e.size) then FeeTooLow
           else if !TestPackage(e.size, e.sigops) then TooBig
           else if forall u :: u in Package(pool, t) - inBlock ==> Admissible(pool, u) then Fits
           else Unfit
    }

    /** One turn of the selection loop is the specified one. */
    method Iterate(r: Rules, c: Cursor) returns (c': Cursor, o: Outcome)
      requires Follows(r) && Consistent() && Inv(r, State(inBlock, c)) && Running(r, c)
      modifies this
      ensures Consistent() && old(vtx) <= vtx && (inBlock == old(inBlock) ==> vtx == old(vtx))
      ensures (State(inBlock, c'), o) == Turn(r, State(old(inBlock), c))
    {
      if Stale(r, State(inBlock, c)) { return c.(mi := c.mi + 1), Continue; }
      CandidateOk(r, State(inBlock, c));
      var t, um := Candidate(r, c), UsesModified(r, c);
      if r.Young(t) { return Past(c, um), if um then Stalled else Continue; }
      TurnJudges(r, State(inBlock, c));
      c', o := JudgeCandidate(r, c);
    }

    method JudgeCandidate(r: Rules, c: Cursor) returns (c': Cursor, o: Outcome)
      requires Follows(r) && Consistent() && Candidate(r, c) in pool.txs && Candidate(r, c) !in inBlock
      modifies this
      ensures Consistent() && old(vtx) <= vtx && (inBlock == old(inBlock) ==> vtx == old(vtx))
      ensures var t, um := Candidate(r, c), UsesModified(r, c);
              (State(inBlock, c'), o) ==
              Evaluated(r, VerdictOn(r, State(old(inBlock), c)), old(inBlock), Past(c, um), t, um)
    {
      var e := PackageTotals(r, c);
      var t, um := Candidate(r, c), UsesModified(r, c);
      c', o := Evaluate(r, t, um, e, Past(c, um), VerdictOn(r, State(inBlock, c)));
    }

    // ---- The whole selection ----

    // The selection loop.
    method Select(r: Rules) returns (end: End, c: Cursor, ghost n: nat)
      requires Follows(r) && Valid() && inBlock == {}
      modifies this
      ensures Consistent() && Inv(r, State(inBlock, c)) && State(inBlock, c) == At(r, n)
      ensures EndedBy(r, end, At(r, n))
    {
      c, n := START.c, 0;
      StartInv(r);
      while Running(r, c)
        invariant Consistent() && Inv(r, State(inBlock, c)) && State(inBlock, c) == At(r, n)
        decreases pool.txs.Keys - inBlock, Left(r, c)
      {
        ghost var s := State(inBlock, c);
        var c', o := Iterate(r, c);
        StepOk(r, n, s, State(inBlock, c'), o);
        if o != Continue {
          end := EndOf(o);
          return;
        }
        c, n := c', n + 1;
      }
      return Exhausted, c, n;
    }

    /**
     The whole selection. The template has no duplicates, holds every ancestor of its members earlier in
     the block, and respects both limits. It is the state of the specified run where that ends or is stuck.
     It is empty if no package pays the fee floor, or if the first candidate old enough does not.
     */
    method AddPackageTxs(requiredAge: int, now: int) returns (end: End, c: Cursor, ghost n: nat)
      requires Valid() && inBlock == {}
      modifies this
      ensures Valid() && NoDuplicates(vtx) && AncestorsFirst(pool, vtx) && Closed(pool, Elems(vtx))
      ensures COINBASE_WEIGHT + Total(pool, Weight, Elems(vtx)) <= nBlockMaxWeight
      ensures COINBASE_SIGOPS + Total(pool, Sigops, Elems(vtx)) < MAX_BLOCK_SIGOPS_COST
      ensures var r := RulesFor(requiredAge, now);
              && r.Ok() && State(inBlock, c) == At(r, n) && EndedBy(r, end, At(r, n))
              && (end == Never <==> NeverEnds(r)) && (end == FeeFloor <==> ReachesFloor(r))
              && ((exists k :: FirstShort(r, k)) ==> end == FeeFloor && vtx == [])
              && ((forall t :: t in pool.txs ==> FallsShort(r, t)) ==> vtx == [])
      ensures end == NearlyFull && NoDuplicates(order) ==>
              |pool.txs| > 1000 && nBlockWeight > nBlockMaxWeight - 4000
    {
      var r := RulesFor(requiredAge, now);
      end, c, n := Select(r);
      AncestorsFirstClosed(pool, vtx);
      EndsIff(r);
      EndMeans(r, end, n);
    }
  }

  function EndOf(o: Outcome): End { match o case LowFee => FeeFloor case GaveUp => NearlyFull case _ => Never }

  // What a turn of the loop means for the run.
  lemma StepOk(r: Rules, n: nat, s: State, s': State, o: Outcome)
    requires r.Ok() && Inv(r, s) && Running(r, s.c) && s == At(r, n) && (s', o) == Turn(r, s)
    ensures o != Continue ==> s'.block == s.block && EndedBy(r, EndOf(o), s)
    ensures o == Continue ==> s' == At(r, n + 1) && Inv(r, s') && Further(r, s, s')
    ensures r.pool.txs.Keys - s'.block < r.pool.txs.Keys - s.block || s'.block == s.block
  {
    StuckStays(r, s);
    TurnInv(r, s);
    if o == Continue {
      TurnFurther(r, s);
      FewerMissing(r.pool.txs.Keys, s.block, s'.block);
    } else {
      TurnEnds(r, s);
    }
  }

  /** Why the loop ends in a state, or that it does not. */
  ghost predicate EndedBy(r: Rules, end: End, s: State) {
    match end
    case Exhausted => !Running(r, s.c)
    case FeeFloor => Running(r, s.c) && Turn(r, s).1 == LowFee
    case NearlyFull => Running(r, s.c) && Turn(r, s).1 == GaveUp
    case Never => Stuck(r, s)
  }

  // What the way the loop ends says of the pool and the block.
  lemma EndMeans(r: Rules, end: End, n: nat)
    requires r.Ok() && EndedBy(r, end, At(r, n))
    ensures end == FeeFloor <==> ReachesFloor(r)
    ensures (exists k :: FirstShort(r, k)) ==> end == FeeFloor && At(r, n).block == {}
    ensures (forall t :: t in r.pool.txs ==> FallsShort(r, t)) ==> At(r, n).block == {}
    ensures end == NearlyFull && NoDuplicates(r.order) ==>
            |r.pool.txs| > 1000 && BlockWeight(r.pool, At(r, n).block) > r.maxWeight - 4000
  {
    if ReachesFloor(r) { SameEnd(r, end, n); }
    if k :| FirstShort(r, k) { EndsAtFloor(r, k, n); }
    if forall t :: t in r.pool.txs ==> FallsShort(r, t) { NothingPays(r, n); }
    if end == NearlyFull && NoDuplicates(r.order) { GivesUpOnlyIf(r, n); }
  }

  lemma SameEnd(r: Rules, end: End, n: nat)
    requires EndedBy(r, end, At(r, n)) && ReachesFloor(r)
    ensures end == FeeFloor
  {
    var m: nat :| Running(r, At(r, m).c) && Turn(r, At(r, m)).1 == LowFee;
    StuckStays(r, At(r, m));
    if end == Never {
      StuckStays(r, At(r, n));
      if n <= m { StuckForever(r, n, m); } else { OverStays(r, m, n); }
    } else {
      if n <= m { OverStays(r, n, m); } else { OverStays(r, m, n); }
    }
  }
}
