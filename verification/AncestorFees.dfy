/**
 The fee rate that ranks candidates for a block (src/txmempool.h): the lower of a transaction's own and that of
 what is left of its package. What it says of the rest when a package falls short of the floor.
 */
module AncestorFees {
  import opened Mempool
  import opened MinerSpec
  import opened Records
  import opened Selection
  import opened SelectionFees

  // ---- Fee rates ----

  /** A fee and the size it is paid for. */
  datatype Rate = Rate(fee: int, size: int)

  predicate AtMost(a: Rate, b: Rate) { a.fee * b.size <= b.fee * a.size }

  lemma {:induction false} MulKeeps(x: int, y: int, z: int)
    requires z > 0
    ensures x <= y <==> x * z <= y * z
  {
  }

  lemma AtMostTrans(a: Rate, b: Rate, c: Rate)
    requires a.size > 0 && b.size > 0 && c.size > 0 && AtMost(a, b) && AtMost(b, c)
    ensures AtMost(a, c)
  {
    MulKeeps(a.fee * b.size, b.fee * a.size, c.size);
    MulKeeps(b.fee * c.size, c.fee * b.size, a.size);
    assert a.fee * b.size * c.size == a.fee * c.size * b.size;
    assert b.fee * a.size * c.size == b.fee * c.size * a.size;
    assert c.fee * b.size * a.size == c.fee * a.size * b.size;
    MulKeeps(a.fee * c.size, c.fee * a.size, b.size);
  }

  /** The rate of the transaction alone. */
  function Own(p: Pool, t: TxId): Rate { Rate(Val(p, ModFee, t), Val(p, Size, t)) }

  /** The lower of the two rates. */
  function RateOf(p: Pool, t: TxId, e: Modified): Rate {
    if Own(p, t).fee * e.size > e.modFees * Own(p, t).size then Rate(e.modFees, e.size) else Own(p, t)
  }

  /** The higher rate first, ties by hash. */
  predicate ByAncestorFee(p: Pool, t: TxId, e: Modified, u: TxId, f: Modified) {
    var a, b := RateOf(p, t, e), RateOf(p, u, f);
    if a.fee * b.size == a.size * b.fee then t < u else a.fee * b.size > a.size * b.fee
  }

  predicate Sized(p: Pool, t: TxId, e: Modified) { Val(p, Size, t) > 0 && e.size > 0 }

  function ScoreOf(p: Pool): Score {
    (t: TxId, e: Modified, u: TxId, f: Modified) => ByAncestorFee(p, t, e, u, f)
  }

  function SizedOf(p: Pool): Domain { (t: TxId, e: Modified) => Sized(p, t, e) }

  lemma LowerOfBoth(p: Pool, t: TxId, e: Modified)
    requires Sized(p, t, e)
    ensures RateOf(p, t, e).size > 0
    ensures AtMost(RateOf(p, t, e), Own(p, t)) && AtMost(RateOf(p, t, e), Rate(e.modFees, e.size))
  {
  }

  // Not better: at most the rate of the other, and in a tie not before it.
  lemma NotBetterMeans(p: Pool, v: TxId, g: Modified, u: TxId, f: Modified)
    ensures !ByAncestorFee(p, v, g, u, f) <==>
            && AtMost(RateOf(p, v, g), RateOf(p, u, f))
            && (AtMost(RateOf(p, u, f), RateOf(p, v, g)) ==> u <= v)
  {
  }

  lemma AncestorFeeTrans(p: Pool, t: TxId, e: Modified, u: TxId, f: Modified, v: TxId, g: Modified)
    requires Sized(p, t, e) && Sized(p, u, f) && Sized(p, v, g)
    requires !ByAncestorFee(p, v, g, u, f) && !ByAncestorFee(p, u, f, t, e)
    ensures !ByAncestorFee(p, v, g, t, e)
  {
    var a, b, c := RateOf(p, v, g), RateOf(p, u, f), RateOf(p, t, e);
    LowerOfBoth(p, t, e);
    LowerOfBoth(p, u, f);
    LowerOfBoth(p, v, g);
    NotBetterMeans(p, v, g, u, f);
    NotBetterMeans(p, u, f, t, e);
    NotBetterMeans(p, v, g, t, e);
    AtMostTrans(a, b, c);
    if AtMost(c, a) {
      AtMostTrans(c, a, b);
      AtMostTrans(b, c, a);
    }
  }

  /** The comparison of the source is one the selection can follow. */
  lemma AncestorFeeOrder(p: Pool)
    ensures StrictWeak(ScoreOf(p), SizedOf(p))
  {
    var better, dom := ScoreOf(p), SizedOf(p);
    forall t, e, u, f, v, g {:trigger better(v, g, u, f), better(u, f, t, e)} |
        dom(t, e) && dom(u, f) && dom(v, g) && !better(v, g, u, f) && !better(u, f, t, e)
      ensures !better(v, g, t, e)
    {
      AncestorFeeTrans(p, t, e, u, f, v, g);
    }
    forall t, e, u, f | better(t, e, u, f) ensures !better(u, f, t, e) {
      NotBetterMeans(p, t, e, u, f);
      NotBetterMeans(p, u, f, t, e);
    }
  }

  // ---- All candidates are ranked ----

  predicate PositiveSizes(p: Pool) { forall t :: t in p.txs ==> p.txs[t].size > 0 }

  lemma RestPositive(p: Pool, t: TxId, gone: set<TxId>)
    requires PositiveSizes(p) && t in p.txs && t !in gone
    ensures Rest(p, Size, t, gone) > 0
  {
    TotalTake(p, Size, Package(p, t) - gone, t);
    TotalNonNegative(p, Size, Package(p, t) - gone - {t});
  }

  lemma EntriesSized(r: Rules, s: State)
    requires r.Ok() && Inv(r, s) && PositiveSizes(r.pool)
    ensures Scored(r, s, SizedOf(r.pool))
  {
    forall u | u in s.c.modified ensures Sized(r.pool, u, s.c.modified[u]) {
      RecordBounds(r.pool, u, s.c.modified[u], s.block, u in s.c.failed);
      RestPositive(r.pool, u, s.block);
    }
    forall i | 0 <= i < |r.order| ensures Sized(r.pool, r.order[i], CachedEntry(r.pool, r.order[i])) {
      ElemsIff(r.order, r.order[i]);
      RestPositive(r.pool, r.order[i], {});
      assert Package(r.pool, r.order[i]) - {} == Package(r.pool, r.order[i]);
    }
  }

  // ---- When a package falls short ----

  predicate Less(a: Rate, b: Rate) { a.fee * b.size < b.fee * a.size }

  lemma LessTrans(a: Rate, b: Rate, c: Rate)
    requires a.size > 0 && b.size > 0 && c.size > 0 && AtMost(a, b) && Less(b, c)
    ensures Less(a, c)
  {
    if AtMost(c, a) { AtMostTrans(c, a, b); }
  }

  /** A floor that asks no more than a rate, as rounding down does. */
  ghost predicate FloorWithin(minFee: int -> int, floor: Rate) {
    floor.size > 0 && forall n :: n > 0 ==> minFee(n) * floor.size <= floor.fee * n
  }

  lemma ShortIsLess(minFee: int -> int, floor: Rate, e: Modified)
    requires FloorWithin(minFee, floor) && e.size > 0 && e.modFees < minFee(e.size)
    ensures Less(Rate(e.modFees, e.size), floor)
  {
    MulKeeps(e.modFees + 1, minFee(e.size), floor.size);
    assert (e.modFees + 1) * floor.size == e.modFees * floor.size + floor.size;
  }

  /** The transaction alone, or what is left of its package, pays less than a rate. */
  predicate PaysLess(p: Pool, t: TxId, e: Modified, floor: Rate) {
    Less(Own(p, t), floor) || Less(Rate(e.modFees, e.size), floor)
  }

  lemma WorsePaysLess(p: Pool, t: TxId, e: Modified, u: TxId, f: Modified, floor: Rate)
    requires Sized(p, t, e) && Sized(p, u, f) && floor.size > 0 && !ByAncestorFee(p, u, f, t, e)
    requires Less(Rate(e.modFees, e.size), floor)
    ensures PaysLess(p, u, f, floor)
  {
    LowerOfBoth(p, t, e);
    LowerOfBoth(p, u, f);
    NotBetterMeans(p, u, f, t, e);
    LessTrans(RateOf(p, t, e), Rate(e.modFees, e.size), floor);
    LessTrans(RateOf(p, u, f), RateOf(p, t, e), floor);
  }

  /**
   When the selection ends at the fee floor, of every candidate left the transaction alone or what is left of
   its package pays less than the floor.
   */
  lemma FloorEndsAll(r: Rules, s: State, floor: Rate)
    requires r.Ok() && Inv(r, s) && Running(r, s.c) && !Stale(r, s) && Ranked(r, ScoreOf(r.pool))
    requires PositiveSizes(r.pool) && FloorWithin(r.minFee, floor)
    requires !r.Young(Candidate(r, s.c)) && Turn(r, s).1 == LowFee
    ensures forall u :: u in s.c.modified ==> PaysLess(r.pool, u, s.c.modified[u], floor)
    ensures forall i :: s.c.mi <= i < |r.order| ==>
              PaysLess(r.pool, r.order[i], CachedEntry(r.pool, r.order[i]), floor)
  {
    var p, t, e := r.pool, Candidate(r, s.c), Totals(r, s.c);
    FloorIff(r, s);
    EntriesSized(r, s);
    AncestorFeeOrder(p);
    GreedyChoice(r, ScoreOf(p), SizedOf(p), s);
    ShortIsLess(r.minFee, floor, e);
    forall u | u in s.c.modified ensures PaysLess(p, u, s.c.modified[u], floor) {
      assert !ScoreOf(p)(u, s.c.modified[u], t, e);
      WorsePaysLess(p, t, e, u, s.c.modified[u], floor);
    }
    forall i | s.c.mi <= i < |r.order| ensures PaysLess(p, r.order[i], CachedEntry(p, r.order[i]), floor) {
      assert !ScoreOf(p)(r.order[i], CachedEntry(p, r.order[i]), t, e);
      WorsePaysLess(p, t, e, r.order[i], CachedEntry(p, r.order[i]), floor);
    }
  }

  // ---- A package that pays is left out ----

  /** A parent without fee, two children that pay for it only together, and a child of theirs without fee. */
  function Diamond(): Pool {
    Pool(map[0 := Tx(0, 0, 100, 400, 4, true, false, 0), 1 := Tx(180, 180, 100, 400, 4, true, false, 0),
             2 := Tx(180, 180, 100, 400, 4, true, false, 0), 3 := Tx(0, 0, 1, 4, 4, true, false, 0)],
         map[0 := {}, 1 := {0}, 2 := {0}, 3 := {0, 1, 2}])
  }

  lemma OneOf(p: Pool, k: Kind)
    ensures Total(p, k, {0}) == Val(p, k, 0) && Total(p, k, {0, 1}) == Val(p, k, 0) + Val(p, k, 1)
    ensures Total(p, k, {0, 2}) == Val(p, k, 0) + Val(p, k, 2)
    ensures Total(p, k, {0, 1, 2, 3}) == Val(p, k, 0) + Val(p, k, 1) + Val(p, k, 2) + Val(p, k, 3)
  {
    var none: set<TxId> := {};
    assert none + {0} == {0} && {0} + {1} == {0, 1} && {0} + {2} == {0, 2};
    assert {0, 1} + {2} == {0, 1, 2} && {0, 1, 2} + {3} == {0, 1, 2, 3};
    TotalPut(p, k, none, 0);
    TotalPut(p, k, {0}, 1);
    TotalPut(p, k, {0}, 2);
    TotalPut(p, k, {0, 1}, 2);
    TotalPut(p, k, {0, 1, 2}, 3);
  }

  lemma DiamondTotals()
    ensures var p := Diamond();
            && CachedEntry(p, 0) == Modified(100, 0, 4) && CachedEntry(p, 1) == Modified(200, 180, 8)
            && CachedEntry(p, 2) == Modified(200, 180, 8) && CachedEntry(p, 3) == Modified(301, 360, 16)
  {
    var p := Diamond();
    OneOf(p, Size);
    OneOf(p, ModFee);
    OneOf(p, Sigops);
    assert Package(p, 0) == {0} && Package(p, 1) == {0, 1} && Package(p, 2) == {0, 2} && Package(p, 3) == {0, 1, 2, 3};
  }

  // The transactions of the diamond in the order of their rates.
  lemma DiamondRanked(i: nat, j: nat)
    requires i < j < 4
    ensures var p, order := Diamond(), [1, 2, 0, 3];
            !ByAncestorFee(p, order[j], CachedEntry(p, order[j]), order[i], CachedEntry(p, order[i]))
  {
    DiamondTotals();
    var p := Diamond();
    assert RateOf(p, 1, CachedEntry(p, 1)) == Rate(180, 200) && RateOf(p, 2, CachedEntry(p, 2)) == Rate(180, 200);
    assert RateOf(p, 0, CachedEntry(p, 0)) == Rate(0, 100) && RateOf(p, 3, CachedEntry(p, 3)) == Rate(0, 1);
  }

  /**
   The package itself may pay: ranked by these rates, a selection from the diamond with a floor of one per unit
   of size ends with an empty block, although the package of the last transaction pays more than the floor.
   */
  lemma PayingPackageLeft(r: Rules, n: nat)
    requires r.pool == Diamond() && r.order == [1, 2, 0, 3] && r.requiredAge == 0 && forall k :: r.minFee(k) == k
    ensures WellFormed(r.pool) && At(r, n).block == {} && !FallsShort(r, 3)
  {
    DiamondTotals();
    assert FirstShort(r, 0);
    EndsAtFloor(r, 0, n);
  }
}
