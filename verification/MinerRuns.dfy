/**
 Small selections that show what can go wrong (src/miner.cpp): one that never ends because of the age
 filter, and two that record wrong totals.
 */
module MinerRuns {
  import opened Sets
  import opened Mempool
  import opened MinerSpec
  import opened Records
  import opened Selection
  import opened SelectionRuns
  import opened SelectionScripts
  import opened Miner

  // ---- A selection that never ends ----

  /** A parent old enough and a child too young. */
  function ParentAndChild(): Pool {
    Pool(map[0 := Tx(500, 500, 100, 400, 4, true, false, 0), 1 := Tx(500, 500, 100, 400, 4, true, false, 990)],
         map[0 := {}, 1 := {0}])
  }

  lemma TwoTotal(p: Pool, k: Kind, a: TxId, b: TxId)
    requires a != b
    ensures Total(p, k, {a, b}) == Val(p, k, a) + Val(p, k, b)
  {
    OneTotal(p, k, a);
    TotalPut(p, k, {a}, b);
    assert {a} + {b} == {a, b};
  }

  lemma ParentAndChildEasy()
    ensures var p := ParentAndChild();
            && WellFormed(p) && p.txs.Keys == {0, 1} && AdjustedLead(p) && NoRevival(p) && Aging(p)
            && RoomForAll(p, 5000) && LeavesYoung(p, 60, 1000, 0, 1)
  {
    var p := ParentAndChild();
    TwoTotal(p, Size, 0, 1);
    TwoTotal(p, Sigops, 0, 1);
    assert p.txs.Keys == {0, 1};
    assert Package(p, 0) == {0} && 0 in Anc(p, 1) * {0};
  }

  /** Fees that are not negative pay a floor of zero. */
  lemma {:induction false} ZeroFloor(p: Pool, s: set<TxId>)
    requires forall t :: t in p.txs ==> p.txs[t].modFee >= 0
    ensures Total(p, ModFee, s) >= 0
    decreases |s|
  {
    if s != {} {
      var t :| t in s;
      TotalTake(p, ModFee, s, t);
      ZeroFloor(p, s - {t});
    }
  }

  /** Whatever the order of the candidates, a selection from these two never ends. */
  lemma YoungChild(r: Rules)
    requires r.Ok() && r.pool == ParentAndChild() && r.maxWeight >= 5000 && r.requiredAge == 60 && r.now == 1000
    requires forall s :: r.minFee(s) <= 0
    ensures NeverEnds(r)
  {
    ParentAndChildEasy();
    ZeroFloorPaid(r.pool, r.minFee);
    NeverEndsWhen(r);
  }

  lemma ZeroFloorPaid(p: Pool, minFee: int -> int)
    requires (forall t :: t in p.txs ==> p.txs[t].modFee >= 0) && forall s :: minFee(s) <= 0
    ensures PaysFloor(p, minFee)
  {
    forall t, gone | t in p.txs && t !in gone ensures Rest(p, ModFee, t, gone) >= minFee(Rest(p, Size, t, gone)) {
      ZeroFloor(p, Package(p, t) - gone);
    }
  }

  // ---- Selections that record wrong totals ----

  /** Two parents and their child. */
  function Family(fees: int, modFees: int, childSize: nat, childFees: int): Pool {
    var parent := Tx(fees, modFees, 100, 400, 4, true, false, 0);
    Pool(map[0 := parent, 1 := parent, 2 := Tx(childFees, childFees, childSize, 4 * childSize, 4, true, false, 0)],
         map[0 := {}, 1 := {}, 2 := {0, 1}])
  }

  // The parents in turn, and the child as soon as it has an entry if `eager`.
  function FamilyRules(p: Pool, eager: bool): Rules {
    Rules(p, _ => 0, 3_996_000, [0, 1, 2], (m: ModifiedTx) => if m.Keys == {} then 0 else Least(m.Keys),
          (m: ModifiedTx, t: TxId) => eager, 0, 0)
  }

  lemma FamilyOk(p: Pool, eager: bool, fees: int, modFees: int, childSize: nat, childFees: int)
    requires p == Family(fees, modFees, childSize, childFees)
    ensures FamilyRules(p, eager).Ok() && p.txs.Keys == {0, 1, 2} && Package(p, 0) == {0} && Package(p, 1) == {1}
  {
    FamilyOrder();
    FamilyPicks(p, eager);
    assert p.txs.Keys == {0, 1, 2};
  }

  lemma FamilyOrder()
    ensures Elems([0, 1, 2]) == {0, 1, 2}
  {
    Appended([], 0);
    Appended([] + [0], 1);
    Appended([] + [0] + [1], 2);
    assert [0, 1, 2] == [] + [0] + [1] + [2];
  }

  lemma FamilyPicks(p: Pool, eager: bool)
    ensures Picks(FamilyRules(p, eager).best)
  {
    forall m: ModifiedTx | m != map[] ensures FamilyRules(p, eager).best(m) in m { assert m.Keys != {}; }
  }

  // A parent that is up passes all tests.
  lemma ParentFits(r: Rules, s: State, x: TxId, childSize: nat, fees: int, modFees: int, childFees: int)
    requires r.pool == Family(fees, modFees, childSize, childFees) && r.maxWeight == 3_996_000 &&
             r.minFee(100) <= modFees
    requires x < 2 && s.block <= {0, 1} && x !in s.block && !UsesModified(r, s.c) && Candidate(r, s.c) == x
    ensures VerdictOn(r, s) == Fits
  {
    var p := r.pool;
    assert Package(p, x) == {x};
    OneTotal(p, Size, x);
    OneTotal(p, ModFee, x);
    OneTotal(p, Sigops, x);
    assert s.block == {} || s.block == {1 - x};
    OneTotal(p, Weight, 1 - x);
    OneTotal(p, Sigops, 1 - x);
  }

  function Parents(x: TxId): set<TxId> { if x == 0 then {} else if x == 1 then {0} else {0, 1} }

  /** The parents before `x` are in the block, the cursor is at `x`, and only the child may have an entry. */
  ghost predicate UpTo(r: Rules, s: State, x: TxId) {
    && Inv(r, s) && s.block == Parents(x) && s.c.mi == x && s.c.modified.Keys <= {2} && s.c.failed <= {2}
  }

  lemma ParentTurn(r: Rules, s: State, x: TxId)
    requires r.requiredAge == 0 && r.order == [0, 1, 2] && x < 2 && UpTo(r, s, x) && !UsesModified(r, s.c)
    requires VerdictOn(r, s) == Fits
    ensures Turn(r, s) == (Included(r.pool, s.block, s.c.(mi := x + 1), x), Continue)
  {
    assert !Stale(r, s) && Candidate(r, s.c) == x;
  }

  lemma ParentIncluded(r: Rules, s: State, s': State, x: TxId, fees: int, modFees: int, childSize: nat, childFees: int)
    requires r.pool == Family(fees, modFees, childSize, childFees) && x < 2 && UpTo(r, s, x)
    requires s' == Included(r.pool, s.block, s.c.(mi := x + 1), x) && Inv(r, s')
    ensures UpTo(r, s', x + 1) && s'.c.failed == s.c.failed && s'.c.modified.Keys == {2}
  {
    var p := r.pool;
    assert Package(p, x) == {x} && {x} - s.block == {x} && s'.block == s.block + {x};
    Revives(p, s.c.modified - {x}, {x}, 2, x);
    OnlyChild(r, s', fees, modFees, childSize, childFees);
  }

  lemma OnlyChild(r: Rules, s: State, fees: int, modFees: int, childSize: nat, childFees: int)
    requires r.pool == Family(fees, modFees, childSize, childFees)
    requires TableOk(r.pool, s.c.modified, s.c.failed, s.block, {})
    ensures s.c.modified.Keys <= {2}
  {
    forall t | t in s.c.modified ensures t == 2 { RecordBounds(r.pool, t, s.c.modified[t], s.block, t in s.c.failed); }
  }

  // The next parent is included and the child gets an entry.
  lemma ParentTaken(r: Rules, s: State, x: TxId, fees: int, modFees: int, childSize: nat, childFees: int)
    requires r.Ok() && r.pool == Family(fees, modFees, childSize, childFees) && r.maxWeight == 3_996_000
    requires r.minFee(100) <= modFees && r.requiredAge == 0 && r.order == [0, 1, 2]
    requires x < 2 && UpTo(r, s, x) && !UsesModified(r, s.c)
    ensures var (s', o) := Turn(r, s);
            o == Continue && UpTo(r, s', x + 1) && s'.c.failed == s.c.failed && s'.c.modified.Keys == {2}
  {
    ParentFits(r, s, x, childSize, fees, modFees, childFees);
    ParentTurn(r, s, x);
    TurnInv(r, s);
    ParentIncluded(r, s, Turn(r, s).0, x, fees, modFees, childSize, childFees);
  }

  // A child that is too large fails once it has an entry.
  lemma ChildFails(r: Rules, s: State, fees: int, childFees: int)
    requires r.Ok() && r.pool == Family(fees, fees, 1_000_000, childFees) && r.maxWeight == 3_996_000
    requires r.requiredAge == 0 && fees >= 0 && childFees >= 0 && forall z :: r.minFee(z) <= 0
    requires UpTo(r, s, 1) && s.c.modified.Keys == {2} && s.c.failed == {} && s.c.nConsecutiveFailed == 0
    requires r.order == [0, 1, 2] && UsesModified(r, s.c)
    ensures var (s', o) := Turn(r, s); o == Continue && UpTo(r, s', 1) && s'.c.failed == {2} && s'.c.modified == map[]
  {
    var p := r.pool;
    assert !Stale(r, s) && r.best(s.c.modified) in s.c.modified && Candidate(r, s.c) == 2;
    RecordExact(p, 2, s.c.modified[2], s.block);
    ZeroFloor(p, Package(p, 2) - s.block);
    assert s.block == {0} && Package(p, 2) - s.block == {1, 2};
    TwoTotal(p, Size, 1, 2);
    OneTotal(p, Weight, 0);
    assert VerdictOn(r, s) == TooBig;
    TurnInv(r, s);
  }

  ghost predicate RecordsWrongFee(p: Pool, s: State, t: TxId) {
    t in s.c.modified && s.c.modified[t].modFees != Rest(p, ModFee, t, s.block)
  }

  lemma ChildOff(r: Rules, s: State, fees: int, modFees: int, childSize: nat, childFees: int)
    requires r.pool == Family(fees, modFees, childSize, childFees) && fees != modFees
    requires UpTo(r, s, 2) && s.c.modified.Keys == {2} && s.c.failed == {}
    ensures RecordsWrongFee(r.pool, s, 2)
  {
    var p, e := r.pool, s.c.modified[2];
    var base, f :| RecordedFrom(p, 2, e, s.block, base, f) && base == {};
    assert Anc(p, 2) * s.block - base - {f} == {1 - f};
    OneTotal(p, ModFee, 1 - f);
    OneTotal(p, Fee, 1 - f);
  }

  lemma ChildTwice(r: Rules, s: State, fees: int, childSize: nat, childFees: int)
    requires r.pool == Family(fees, fees, childSize, childFees) && fees > 0
    requires UpTo(r, s, 2) && s.c.modified.Keys == {2} && s.c.failed == {2}
    ensures RecordsWrongFee(r.pool, s, 2) && s.c.modified[2].size != Rest(r.pool, Size, 2, s.block)
  {
    var p, e := r.pool, s.c.modified[2];
    RevivedOff(p, 2, e, s.block);
    var base, f :| RecordedFrom(p, 2, e, s.block, base, f) && base != {};
    assert base == {1 - f} && Anc(p, 2) * s.block - base - {f} == {};
    OneTotal(p, ModFee, 1 - f);
  }

  // An assembler for a family.
  method ForFamily(p: Pool, eager: bool) returns (a: BlockAssembler)
    requires FamilyRules(p, eager).Ok()
    ensures fresh(a) && a.Valid() && a.inBlock == {} && a.Follows(FamilyRules(p, eager))
  {
    var r := FamilyRules(p, eager);
    a := new BlockAssembler(p, r.minFee, 3_996_000, r.order, r.best, r.wins);
  }

  // Include the next parent.
  method TakeParent(a: BlockAssembler, r: Rules, c: Cursor, x: TxId,
                    ghost fees: int, ghost modFees: int, ghost childSize: nat, ghost childFees: int)
    returns (c': Cursor)
    requires a.Consistent() && a.Follows(r) && r.Ok() && r.pool == Family(fees, modFees, childSize, childFees)
    requires r.maxWeight == 3_996_000 && r.minFee(100) <= modFees && r.requiredAge == 0 && r.order == [0, 1, 2]
    requires x < 2 && UpTo(r, State(a.inBlock, c), x) && !UsesModified(r, c)
    modifies a
    ensures a.Consistent() && UpTo(r, State(a.inBlock, c'), x + 1) && c'.failed == c.failed && c'.modified.Keys == {2}
    ensures c'.nConsecutiveFailed == 0
  {
    ParentFits(r, State(a.inBlock, c), x, childSize, fees, modFees, childFees);
    ParentTurn(r, State(a.inBlock, c), x);
    ParentTaken(r, State(a.inBlock, c), x, fees, modFees, childSize, childFees);
    var o;
    c', o := a.Iterate(r, c);
  }

  /** Both parents have adjusted fees and are included, one after the other; the fee of the child is then off. */
  method WrongFee() returns (a: BlockAssembler, c: Cursor)
    ensures a.Consistent() && c.failed == {} && RecordsWrongFee(a.pool, State(a.inBlock, c), 2)
  {
    var p := Family(500, 600, 100, 500);
    var r := FamilyRules(p, false);
    FamilyOk(p, false, 500, 600, 100, 500);
    a := ForFamily(p, false);
    StartInv(r);
    c := TakeParent(a, r, START.c, 0, 500, 600, 100, 500);
    c := TakeParent(a, r, c, 1, 500, 600, 100, 500);
    ChildOff(r, State(a.inBlock, c), 500, 600, 100, 500);
  }

  // The child fails.
  method TryChild(a: BlockAssembler, r: Rules, c: Cursor, ghost fees: int, ghost childFees: int) returns (c': Cursor)
    requires a.Consistent() && a.Follows(r) && r.Ok() && r.pool == Family(fees, fees, 1_000_000, childFees)
    requires r.maxWeight == 3_996_000 && r.requiredAge == 0 && r.order == [0, 1, 2]
    requires fees >= 0 && childFees >= 0 && forall z :: r.minFee(z) <= 0
    requires UpTo(r, State(a.inBlock, c), 1) && c.modified.Keys == {2} && c.failed == {} && c.nConsecutiveFailed == 0
    requires UsesModified(r, c)
    modifies a
    ensures a.Consistent() && UpTo(r, State(a.inBlock, c'), 1) && c'.failed == {2} && c'.modified == map[]
  {
    ChildFails(r, State(a.inBlock, c), fees, childFees);
    var o;
    c', o := a.Iterate(r, c);
  }

  // Parent, child, parent.
  method ThreeTurns(a: BlockAssembler, r: Rules, ghost fees: int, ghost childFees: int) returns (c: Cursor)
    requires a.Consistent() && a.inBlock == {} && a.Follows(r) && r.Ok()
    requires r.pool == Family(fees, fees, 1_000_000, childFees) && fees >= 0 && childFees >= 0
    requires r.maxWeight == 3_996_000 && r.requiredAge == 0 && r.order == [0, 1, 2]
    requires (forall z :: r.minFee(z) <= 0) && forall m, t :: r.wins(m, t)
    modifies a
    ensures a.Consistent() && UpTo(r, State(a.inBlock, c), 2) && c.modified.Keys == {2} && c.failed == {2}
  {
    StartInv(r);
    c := TakeParent(a, r, START.c, 0, fees, fees, 1_000_000, childFees);
    c := TryChild(a, r, c, fees, childFees);
    c := TakeParent(a, r, c, 1, fees, fees, 1_000_000, childFees);
  }

  /**
   No fee is adjusted. The first parent is included, the child is too large and fails, the second parent
   is included: the second entry of the child still counts the first parent, in size and in fees.
   */
  method WrongSize() returns (a: BlockAssembler, c: Cursor)
    ensures a.Consistent() && (forall t :: t in a.pool.txs ==> !IsAdjusted(a.pool, t))
    ensures RecordsWrongFee(a.pool, State(a.inBlock, c), 2) && c.modified[2].size != Rest(a.pool, Size, 2, a.inBlock)
  {
    var p := Family(500, 500, 1_000_000, 5_000_000);
    var r := FamilyRules(p, true);
    FamilyOk(p, true, 500, 500, 1_000_000, 5_000_000);
    a := ForFamily(p, true);
    c := ThreeTurns(a, r, 500, 5_000_000);
    ChildTwice(r, State(a.inBlock, c), 500, 1_000_000, 5_000_000);
  }
}
