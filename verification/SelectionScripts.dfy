/**
 Selections that take the candidates in a given order (src/miner.cpp). They show that the conditions for
 exact totals and for ending are not only sufficient.
 */
module SelectionScripts {
  import opened Sets
  import opened Mempool
  import opened MinerSpec
  import opened Records
  import opened Selection
  import opened SelectionRuns

  // ---- Rankings ----

  /** Position of the first element that is in a set, or the length if there is none. */
  function FirstIn(order: seq<TxId>, s: set<TxId>): (i: nat)
    ensures i <= |order| && (i < |order| ==> order[i] in s) && forall j :: 0 <= j < i ==> order[j] !in s
  {
    if order == [] || order[0] in s then 0 else FirstIn(order[1..], s) + 1
  }

  lemma FirstIs(order: seq<TxId>, s: set<TxId>, k: nat)
    requires k < |order| && order[k] in s && forall j :: 0 <= j < k ==> order[j] !in s
    ensures FirstIn(order, s) == k
  {
  }

  /** Of all candidates the first in the order is the best. */
  function Ranked(p: Pool, minFee: int -> int, maxWeight: nat, order: seq<TxId>, requiredAge: int, now: int): Rules {
    Rules(p, minFee, maxWeight, order,
          (m: ModifiedTx) =>
            var i := FirstIn(order, m.Keys);
            if i < |order| then order[i] else if m.Keys == {} then 0 else Least(m.Keys),
          (m: ModifiedTx, t: TxId) => FirstIn(order, m.Keys) < FirstIn(order, {t}),
          requiredAge, now)
  }

  ghost predicate IsRanked(r: Rules) {
    && r.Ok() && NoDuplicates(r.order)
    && r == Ranked(r.pool, r.minFee, r.maxWeight, r.order, r.requiredAge, r.now)
  }

  lemma RankedOk(p: Pool, minFee: int -> int, maxWeight: nat, order: seq<TxId>, requiredAge: int, now: int)
    requires WellFormed(p) && maxWeight >= COINBASE_WEIGHT && NoDuplicates(order) && Elems(order) == p.txs.Keys
    ensures IsRanked(Ranked(p, minFee, maxWeight, order, requiredAge, now))
  {
    var r := Ranked(p, minFee, maxWeight, order, requiredAge, now);
    forall m: ModifiedTx | m != map[] ensures r.best(m) in m { assert m.Keys != {}; }
  }

  /** The first `k` in the order are done with, and what the cursor passed is in the block, in the table, or failed. */
  ghost predicate Scripted(r: Rules, s: State, k: nat) {
    && (forall j :: 0 <= j < k && j < |r.order| ==>
        (r.order[j] in s.block || r.order[j] in s.c.failed) && r.order[j] !in s.c.modified)
    && (forall j :: 0 <= j < s.c.mi && j < |r.order| ==>
        r.order[j] in s.block || r.order[j] in s.c.failed || r.order[j] in s.c.modified)
  }

  /** The next in the order is up; only stale entries were skipped. */
  ghost predicate UpNext(r: Rules, s: State, s': State, k: nat) {
    && k < |r.order| && s' == s.(c := s.c.(mi := s'.c.mi)) && Scripted(r, s', k)
    && !Stale(r, s') && Running(r, s'.c) && Candidate(r, s'.c) == r.order[k]
    && (UsesModified(r, s'.c) <==> r.order[k] in s'.c.modified)
  }

  ghost predicate Ready(r: Rules, s: State, k: nat) {
    Scripted(r, s, k) && k < |r.order| && !Stale(r, s) && r.order[k] !in s.block && r.order[k] !in s.c.failed
  }

  /** All there is to know of a ranking. */
  ghost predicate Ranks(r: Rules) {
    NoDuplicates(r.order) && forall s, k: nat :: Ready(r, s, k) ==> UpNext(r, s, s, k)
  }

  lemma RankedRanks(r: Rules)
    requires IsRanked(r)
    ensures Ranks(r)
  {
    forall s, k: nat | Ready(r, s, k) ensures UpNext(r, s, s, k) { NextUp(r, s, k); }
  }

  lemma NextUp(r: Rules, s: State, k: nat)
    requires IsRanked(r) && Ready(r, s, k)
    ensures UpNext(r, s, s, k)
  {
    var x, m := r.order[k], s.c.modified;
    FirstIs(r.order, {x}, k);
    if x in m {
      FirstIs(r.order, m.Keys, k);
      assert s.c.mi > k;
      if s.c.mi < |r.order| { FirstIs(r.order, {r.order[s.c.mi]}, s.c.mi); }
    } else {
      assert s.c.mi == k;
      assert FirstIn(r.order, m.Keys) >= k;
    }
  }

  function Skipped(s: State): State { State(s.block, s.c.(mi := s.c.mi + 1)) }

  lemma SkipScripted(r: Rules, s: State, s': State, k: nat)
    requires Stale(r, s) && Scripted(r, s, k)
    ensures Scripted(r, Skipped(s), k) && (UpNext(r, Skipped(s), s', k) ==> UpNext(r, s, s', k))
  {
  }

  // ---- Runs where all goes well ----

  type States = nat -> State

  /** What happens to a candidate when only finality matters. */
  ghost function Done(r: Rules, s: State): State {
    var t, um := Candidate(r, s.c), UsesModified(r, s.c);
    if Clean(r.pool, t) then Included(r.pool, s.block, Past(s.c, um), t)
      else State(s.block, Dropped(Past(s.c, um), t, um))
  }

  /** Entries are exact, are for transactions outside the block, and none is missing. */
  ghost predicate Neat(r: Rules, s: State) {
    && Exact(r.pool, s) && s.c.modified.Keys !! s.block
    && (forall t :: t in r.pool.txs && t !in s.block && t !in s.c.modified && t !in s.c.failed ==>
        Anc(r.pool, t) !! s.block)
  }

  ghost predicate Skips(r: Rules, f: States, n: nat) { Stale(r, f(n)) ==> f(n + 1) == Skipped(f(n)) }

  ghost predicate Follows(r: Rules, f: States, n: nat) {
    && Neat(r, f(n)) && (Running(r, f(n).c) && !Stale(r, f(n)) ==> f(n + 1) == Done(r, f(n)))
  }

  ghost predicate Easy(r: Rules, f: States) {
    Ranks(r) && f(0) == START && (forall n: nat :: Skips(r, f, n)) && forall n: nat :: Follows(r, f, n)
  }

  /** Stale entries are skipped until the next in the order is up. */
  lemma {:induction false} SkipTo(r: Rules, f: States, n: nat, k: nat) returns (m: nat)
    requires Ranks(r) && forall i: nat :: Skips(r, f, i)
    requires Scripted(r, f(n), k) && k < |r.order| && r.order[k] !in f(n).block && r.order[k] !in f(n).c.failed
    ensures UpNext(r, f(n), f(m), k)
    decreases |r.order| - f(n).c.mi
  {
    assert Skips(r, f, n);
    if Stale(r, f(n)) {
      SkipScripted(r, f(n), f(n), k);
      m := SkipTo(r, f, n + 1, k);
      SkipScripted(r, f(n), f(m), k);
    } else {
      m := n;
      assert Ready(r, f(n), k);
    }
  }

  /** The package of a transaction was included and accounted for. */
  ghost predicate Took(p: Pool, s: State, s': State, t: TxId) {
    var package := Package(p, t) - s.block;
    && s'.block == s.block + Package(p, t) && s'.c.failed == s.c.failed
    && s'.c.modified == Accounted(p, s.c.modified - package, package, package)
  }

  lemma TookScripted(r: Rules, s: State, s': State, k: nat)
    requires Scripted(r, s, k) && k < |r.order| && s.c.failed == {} && s'.c.modified.Keys !! s'.block
    requires Took(r.pool, s, s', r.order[k]) && (s'.c.mi == s.c.mi || (s'.c.mi == s.c.mi + 1 && s.c.mi == k))
    ensures Scripted(r, s', k + 1)
  {
    var package := Package(r.pool, r.order[k]) - s.block;
    AccountedGrows(r.pool, s.c.modified - package, package, package);
  }

  lemma DoneTook(r: Rules, s0: State, s: State, k: nat)
    requires UpNext(r, s0, s, k) && NoDuplicates(r.order) && Clean(r.pool, r.order[k])
    ensures Took(r.pool, s0, Done(r, s), r.order[k]) && Took(r.pool, s, Done(r, s), r.order[k])
    ensures Done(r, s).c.mi == s.c.mi || (Done(r, s).c.mi == s.c.mi + 1 && s.c.mi == k)
  {
  }

  /** If the next in the order may enter a block with its package, that is included next. */
  lemma IncludeNext(r: Rules, f: States, n: nat, k: nat) returns (m: nat)
    requires Easy(r, f) && Scripted(r, f(n), k) && f(n).c.failed == {}
    requires k < |r.order| && r.order[k] !in f(n).block && Clean(r.pool, r.order[k])
    ensures Took(r.pool, f(n), f(m), r.order[k]) && Scripted(r, f(m), k + 1)
  {
    var i := SkipTo(r, f, n, k);
    m := i + 1;
    assert Follows(r, f, i) && Follows(r, f, m);
    DoneTook(r, f(n), f(i), k);
    TookScripted(r, f(i), f(m), k);
  }

  lemma DoneFails(r: Rules, s0: State, s: State, k: nat)
    requires UpNext(r, s0, s, k) && r.order[k] in s.c.modified && !Clean(r.pool, r.order[k])
    ensures var s' := Done(r, s);
            && s'.block == s0.block && s'.c.failed == s0.c.failed + {r.order[k]} && s'.c.mi == s.c.mi
            && s'.c.modified == s.c.modified - {r.order[k]}
  {
  }

  lemma FailedScripted(r: Rules, s: State, s': State, k: nat)
    requires Scripted(r, s, k) && k < |r.order| && s'.block == s.block && s'.c.failed == s.c.failed + {r.order[k]}
    requires s'.c.mi == s.c.mi && s'.c.modified == s.c.modified - {r.order[k]}
    ensures Scripted(r, s', k + 1)
  {
  }

  lemma FailStep(r: Rules, s0: State, s: State, s': State, k: nat)
    requires UpNext(r, s0, s, k) && r.order[k] in s.c.modified && !Clean(r.pool, r.order[k]) && s' == Done(r, s)
    ensures s'.block == s0.block && s'.c.failed == s0.c.failed + {r.order[k]} && Scripted(r, s', k + 1)
  {
    DoneFails(r, s0, s, k);
    FailedScripted(r, s, s', k);
  }

  /** If it may not and has an entry, it fails. */
  lemma FailNext(r: Rules, f: States, n: nat, k: nat) returns (m: nat)
    requires Easy(r, f) && Scripted(r, f(n), k) && f(n).c.failed == {}
    requires k < |r.order| && r.order[k] in f(n).c.modified && r.order[k] !in f(n).block && !Clean(r.pool, r.order[k])
    ensures f(m).block == f(n).block && f(m).c.failed == {r.order[k]} && Scripted(r, f(m), k + 1)
  {
    var i := SkipTo(r, f, n, k);
    m := i + 1;
    assert Follows(r, f, i);
    FailStep(r, f(n), f(i), f(m), k);
  }

  /** All of a part of the order that may enter a block is included, and nothing outside a given set. */
  lemma {:induction false} IncludeRange(r: Rules, f: States, n: nat, k: nat, end: nat, within: set<TxId>)
    returns (m: nat)
    requires Easy(r, f) && Scripted(r, f(n), k) && f(n).c.failed == {} && k <= end <= |r.order| && f(n).block <= within
    requires forall j :: 0 <= j < k ==> r.order[j] in f(n).block
    requires forall j :: k <= j < end ==> Clean(r.pool, r.order[j]) && Package(r.pool, r.order[j]) <= within
    ensures Scripted(r, f(m), end) && f(m).c.failed == {} && f(m).block <= within
    ensures forall j :: 0 <= j < end ==> r.order[j] in f(m).block
    decreases end - k
  {
    m := n;
    if k < end {
      assert Follows(r, f, n);
      if r.order[k] !in f(n).block { m := IncludeNext(r, f, n, k); }
      m := IncludeRange(r, f, m, k + 1, end, within);
    }
  }

  // ---- Three scripts ----

  lemma HasEntry(r: Rules, s: State, t: TxId, a: TxId)
    requires Neat(r, s) && t in r.pool.txs && t !in s.block && t !in s.c.failed && a in Anc(r.pool, t) && a in s.block
    ensures t in s.c.modified
  {
    assert a in Anc(r.pool, t) * s.block;
  }

  // Accounting for one transaction alone.
  lemma AccountedOne(p: Pool, m: ModifiedTx, u: TxId, t: TxId)
    requires t in p.txs && u in Anc(p, t) && t != u && t in m
    ensures t in Accounted(p, m - {u}, {u}, {u})
    ensures Accounted(p, m - {u}, {u}, {u})[t].modFees == m[t].modFees - Val(p, Fee, u)
  {
    AccountedUpdates(p, m - {u}, {u}, {u}, t);
    assert Anc(p, t) * {u} == {u};
    OneTotal(p, Fee, u);
  }

  lemma OneTotal(p: Pool, k: Kind, t: TxId)
    ensures Total(p, k, {t}) == Val(p, k, t)
  {
    TotalPut(p, k, {}, t);
    assert {} + {t} == {t};
  }

  /**
   An adjusted ancestor `u` that is included on its own when there is an entry for a descendant already:
   one of the entries before and after is off.
   */
  lemma AdjustedAlone(r: Rules, f: States, n: nat, k: nat, t: TxId, a: TxId)
    requires Easy(r, f) && WellFormed(r.pool) && Scripted(r, f(n), k) && f(n).c.failed == {} && k < |r.order|
    requires var u := r.order[k];
             && u !in f(n).block && Clean(r.pool, u) && Anc(r.pool, u) <= f(n).block && u in Anc(r.pool, t)
    requires t in r.pool.txs && t !in f(n).block && a in Anc(r.pool, t) && a in f(n).block
    ensures !IsAdjusted(r.pool, r.order[k])
  {
    var p, u := r.pool, r.order[k];
    assert Follows(r, f, n);
    HasEntry(r, f(n), t, a);
    var m := IncludeNext(r, f, n, k);
    assert Follows(r, f, m);
    assert Package(p, u) - f(n).block == {u} && f(m).block == f(n).block + {u};
    AncOfAnc(p, u, t);
    AccountedOne(p, f(n).c.modified, u, t);
    RestStep(p, ModFee, t, f(n).block, u);
  }

  /** A package whose first member by hash is not the one adjusted: the entry of a descendant is off. */
  lemma AdjustedLater(r: Rules, f: States, t: TxId, u: TxId)
    requires Easy(r, f) && WellFormed(r.pool) && r.order != [] && Clean(r.pool, r.order[0]) && t in r.pool.txs
    requires var x := r.order[0]; x in Anc(r.pool, t) && u in Anc(r.pool, x) && x < u
    requires forall w :: w in Package(r.pool, r.order[0]) && w != u ==> !IsAdjusted(r.pool, w)
    ensures !IsAdjusted(r.pool, u)
  {
    var p, x := r.pool, r.order[0];
    var m := IncludeNext(r, f, 0, 0);
    assert Follows(r, f, m);
    AncOfAnc(p, x, t);
    var s := Package(p, x);
    var none: ModifiedTx := map[];
    assert s - {} == s && Anc(p, t) * s == s && f(m).block == s && none - s == none;
    AccountedFresh(p, none, s, s, t);
    CachedSplit(p, ModFee, t, s);
    AllButOne(p, s, Least(s), u);
  }

  lemma AllButOne(p: Pool, s: set<TxId>, c: TxId, u: TxId)
    requires c in s && u in s && c != u && forall w :: w in s && w != u ==> !IsAdjusted(p, w)
    requires Total(p, ModFee, s) == Val(p, ModFee, c) + Total(p, Fee, s - {c})
    ensures !IsAdjusted(p, u)
  {
    TotalTake(p, ModFee, s, c);
    TotalTake(p, ModFee, s - {c}, u);
    TotalTake(p, Fee, s - {c}, u);
    TotalSame(p, ModFee, Fee, s - {c} - {u});
  }

  /** A transaction that fails between the inclusions of two ancestors gets a second entry. */
  lemma FailsBetween(r: Rules, f: States, t: TxId, a: TxId, b: TxId) returns (n: nat)
    requires Easy(r, f) && WellFormed(r.pool) && Revivable(r.pool, t, a, b) && b !in Anc(r.pool, a)
    requires |r.order| >= 3 && r.order[0] == a && r.order[1] == t && r.order[2] == b
    ensures t in f(n).c.modified && t in f(n).c.failed
  {
    var p := r.pool;
    AncOfAnc(p, a, t);
    AncOfAnc(p, b, t);
    n := IncludeNext(r, f, 0, 0);
    assert Follows(r, f, n);
    HasEntry(r, f(n), t, a);
    n := FailNext(r, f, n, 1);
    n := ReviveNext(r, f, n, t, b);
  }

  // Included after the failure, the second ancestor brings the entry back.
  lemma ReviveNext(r: Rules, f: States, m: nat, t: TxId, b: TxId) returns (n: nat)
    requires Easy(r, f) && WellFormed(r.pool) && t in r.pool.txs && b in Anc(r.pool, t) && Clean(r.pool, b)
    requires Scripted(r, f(m), 2) && |r.order| >= 3 && r.order[2] == b && b !in f(m).block && f(m).c.failed == {t}
    requires t !in f(m).block
    ensures t in f(n).c.modified && t in f(n).c.failed
  {
    var p := r.pool;
    AncOfAnc(p, b, t);
    var i := SkipTo(r, f, m, 2);
    assert Follows(r, f, i);
    DoneTook(r, f(m), f(i), 2);
    var package := Package(p, b) - f(m).block;
    Revives(p, f(m).c.modified - package, package, t, b);
    n := i + 1;
    assert f(n).c.modified == Accounted(p, f(m).c.modified - package, package, package);
  }

  lemma Revives(p: Pool, m: ModifiedTx, package: set<TxId>, t: TxId, b: TxId)
    requires t in p.txs && t !in package && b in package && b in Anc(p, t)
    ensures t in Accounted(p, m, package, package)
  {
    if t in m {
      AccountedUpdates(p, m, package, package, t);
    } else {
      assert b in Anc(p, t) * package;
      AccountedFresh(p, m, package, package, t);
    }
  }

  // ---- Exact runs are such runs ----

  ghost function StatesOf(r: Rules): States { (n: nat) => At(r, n) }

  lemma NeatAt(r: Rules, n: nat)
    requires r.Ok() && ExactlyAt(r, n)
    ensures Neat(r, At(r, n))
  {
    AtInv(r, n);
  }

  lemma JudgedNext(r: Rules, s: State)
    requires Running(r, s.c) && !Stale(r, s) && !r.Young(Candidate(r, s.c))
    requires VerdictOn(r, s) == if Clean(r.pool, Candidate(r, s.c)) then Fits else Unfit
    ensures Turn(r, s) == (Done(r, s), Continue)
  {
  }

  lemma NextFrom(r: Rules, n: nat, s: State)
    requires Running(r, At(r, n).c) && Turn(r, At(r, n)) == (s, Continue)
    ensures At(r, n + 1) == s
  {
  }

  lemma FollowsAt(r: Rules, n: nat)
    requires r.Ok() && r.requiredAge == 0 && RoomForAll(r.pool, r.maxWeight) && PaysFloor(r.pool, r.minFee) &&
             AlwaysExact(r)
    ensures Follows(r, StatesOf(r), n)
  {
    assert ExactlyAt(r, n);
    NeatAt(r, n);
    if !Stale(r, At(r, n)) && Running(r, At(r, n).c) {
      ExactVerdict(r, n);
      JudgedNext(r, At(r, n));
      NextFrom(r, n, Done(r, At(r, n)));
    }
  }

  lemma AllFollow(r: Rules)
    requires r.Ok() && r.requiredAge == 0 && RoomForAll(r.pool, r.maxWeight) && PaysFloor(r.pool, r.minFee) &&
             AlwaysExact(r)
    ensures forall n: nat :: Follows(r, StatesOf(r), n)
  {
    forall n: nat ensures Follows(r, StatesOf(r), n) { FollowsAt(r, n); }
  }

  lemma AllSkip(r: Rules)
    ensures forall n: nat :: Skips(r, StatesOf(r), n)
  {
    forall n: nat ensures Skips(r, StatesOf(r), n) {
      if Stale(r, At(r, n)) { NextFrom(r, n, Skipped(At(r, n))); }
    }
  }

  lemma EasyFrom(r: Rules, f: States)
    requires Ranks(r) && f(0) == START && (forall n: nat :: Skips(r, f, n)) && forall n: nat :: Follows(r, f, n)
    ensures Easy(r, f)
  {
  }

  lemma ExactIsEasy(r: Rules)
    requires r.Ok() && r.requiredAge == 0 && RoomForAll(r.pool, r.maxWeight) && PaysFloor(r.pool, r.minFee)
    requires AlwaysExact(r) && Ranks(r)
    ensures Easy(r, StatesOf(r))
  {
    AllFollow(r);
    AllSkip(r);
    EasyFrom(r, StatesOf(r));
  }

  // ---- Orders ----

  ghost function Listing(s: set<TxId>): seq<TxId> { if s == {} then [] else Listing(s - {Least(s)}) + [Least(s)] }

  lemma {:induction false} ListingOk(s: set<TxId>)
    ensures NoDuplicates(Listing(s)) && Elems(Listing(s)) == s
    decreases s
  {
    if s != {} {
      ListingOk(s - {Least(s)});
      Appended(Listing(s - {Least(s)}), Least(s));
    }
  }

  lemma Appended(xs: seq<TxId>, t: TxId)
    requires NoDuplicates(xs) && t !in Elems(xs)
    ensures NoDuplicates(xs + [t]) && Elems(xs + [t]) == Elems(xs) + {t}
  {
    ElemsAppend(xs, t);
    ElemsIff(xs, t);
  }

  lemma {:induction false} Joined(xs: seq<TxId>, ys: seq<TxId>)
    requires NoDuplicates(xs) && NoDuplicates(ys) && Elems(xs) !! Elems(ys)
    ensures NoDuplicates(xs + ys) && Elems(xs + ys) == Elems(xs) + Elems(ys)
  {
    if ys == [] {
      assert xs + ys == xs;
    } else {
      var init, t := ys[..|ys| - 1], ys[|ys| - 1];
      ElemsIff(init, t);
      Joined(xs, init);
      Appended(xs + init, t);
      assert xs + ys == xs + init + [t];
    }
  }

  /** An order of all transactions that begins with the given ones. */
  lemma OrderFrom(xs: seq<TxId>, all: set<TxId>) returns (order: seq<TxId>)
    requires NoDuplicates(xs) && Elems(xs) <= all
    ensures xs <= order && NoDuplicates(order) && Elems(order) == all
  {
    ListingOk(all - Elems(xs));
    order := xs + Listing(all - Elems(xs));
    Joined(xs, Listing(all - Elems(xs)));
  }

  lemma ThreeOrder(a: TxId, b: TxId, c: TxId, all: set<TxId>) returns (order: seq<TxId>)
    requires a != b && b != c && a != c && {a, b, c} <= all
    ensures |order| >= 3 && order[0] == a && order[1] == b && order[2] == c && NoDuplicates(order) &&
            Elems(order) == all
  {
    ThreeElems(a, b, c);
    var xs := [a, b, c];
    order := OrderFrom(xs, all);
    assert order[0] == xs[0] && order[1] == xs[1] && order[2] == xs[2];
  }

  lemma ThreeElems(a: TxId, b: TxId, c: TxId)
    requires a != b && b != c && a != c
    ensures NoDuplicates([a, b, c]) && Elems([a, b, c]) == {a, b, c}
  {
    ElemsAppend([], a);
    ElemsAppend([] + [a], b);
    ElemsAppend([] + [a] + [b], c);
    assert [a, b, c] == [] + [a] + [b] + [c];
  }

  // ---- The exact condition for exact totals ----

  /** In every selection from a pool all totals recorded are exact. */
  ghost predicate ExactForAll(p: Pool, minFee: int -> int, maxWeight: nat) {
    forall r: Rules :: r.Ok() && r.pool == p && r.minFee == minFee && r.maxWeight == maxWeight ==> AlwaysExact(r)
  }

  /** There is room for everything, whatever is left of a package pays the floor, and sizes are positive. */
  ghost predicate Plenty(p: Pool, minFee: int -> int, maxWeight: nat) {
    && WellFormed(p) && maxWeight >= COINBASE_WEIGHT && RoomForAll(p, maxWeight) && PaysFloor(p, minFee)
    && forall t :: t in p.txs ==> p.txs[t].size > 0
  }

  lemma EasyFor(p: Pool, minFee: int -> int, maxWeight: nat, order: seq<TxId>) returns (r: Rules)
    requires Plenty(p, minFee, maxWeight) && ExactForAll(p, minFee, maxWeight)
    requires NoDuplicates(order) && Elems(order) == p.txs.Keys
    ensures r.Ok() && r.pool == p && r.order == order && AlwaysExact(r) && Easy(r, StatesOf(r))
  {
    r := Ranked(p, minFee, maxWeight, order, 0, 0);
    RankedOk(p, minFee, maxWeight, order, 0, 0);
    RankedRanks(r);
    ExactIsEasy(r);
  }

  // The ancestors of `u` after another transaction, and then `u`.
  lemma AncestorsThen(p: Pool, f: TxId, u: TxId) returns (order: seq<TxId>, k: nat)
    requires WellFormed(p) && u in p.txs && f in p.txs && u !in Package(p, f)
    ensures NoDuplicates(order) && Elems(order) == p.txs.Keys && k < |order| && order[k] == u
    ensures Elems(order[..k]) == {f} + Anc(p, u)
  {
    var rest := Anc(p, u) - {f};
    ListingOk(rest);
    Appended([], f);
    Joined([] + [f], Listing(rest));
    var xs := [] + [f] + Listing(rest);
    Appended(xs, u);
    var ys := xs + [u];
    order := OrderFrom(ys, p.txs.Keys);
    k := |xs|;
    assert order[k] == ys[k] && order[..|ys|] == ys && ys[..k] == xs && order[..k] == order[..|ys|][..k];
  }

  /** An adjusted ancestor must be an ancestor of the others. */
  lemma LeadsAnc(p: Pool, minFee: int -> int, maxWeight: nat, t: TxId, u: TxId, f: TxId)
    requires Plenty(p, minFee, maxWeight) && ExactForAll(p, minFee, maxWeight)
    requires TwoAncestors(p, t, u, f) && u !in Anc(p, f)
    ensures !IsAdjusted(p, u)
  {
    AncOfAnc(p, u, t);
    AncOfAnc(p, f, t);
    var order, k := AncestorsThen(p, f, u);
    var r := EasyFor(p, minFee, maxWeight, order);
    IncludesThen(r, StatesOf(r), t, u, f, k);
  }

  lemma IncludesThen(r: Rules, g: States, t: TxId, u: TxId, f: TxId, k: nat)
    requires WellFormed(r.pool) && Easy(r, g) && TwoAncestors(r.pool, t, u, f) && u !in Anc(r.pool, f)
    requires k < |r.order| && r.order[k] == u && Elems(r.order[..k]) == {f} + Anc(r.pool, u)
    ensures !IsAdjusted(r.pool, u)
  {
    var p := r.pool;
    AncOfAnc(p, u, t);
    AncOfAnc(p, f, t);
    forall j | 0 <= j < k
      ensures Clean(p, r.order[j]) && Package(p, r.order[j]) <= Package(p, f) + Anc(p, u)
    {
      ElemsIff(r.order[..k], r.order[j]);
      if r.order[j] != f { AncOfAnc(p, r.order[j], u); }
    }
    var m := IncludeRange(r, g, 0, 0, k, Package(p, f) + Anc(p, u));
    AllIn(r.order[..k], {f} + Anc(p, u), g(m).block);
    AdjustedAlone(r, g, m, k, t, f);
  }

  lemma AllIn(xs: seq<TxId>, s: set<TxId>, block: set<TxId>)
    requires Elems(xs) == s && forall j :: 0 <= j < |xs| ==> xs[j] in block
    ensures s <= block
  {
    forall x | x in s ensures x in block { ElemsIff(xs, x); }
  }

  /** And it must come before them in the order of hashes. */
  lemma LeadsHash(p: Pool, minFee: int -> int, maxWeight: nat, t: TxId, u: TxId, f: TxId)
    requires Plenty(p, minFee, maxWeight) && ExactForAll(p, minFee, maxWeight)
    requires TwoAncestors(p, t, u, f) && u in Anc(p, f) && f < u
    ensures !IsAdjusted(p, u)
  {
    AncOfAnc(p, u, t);
    AncOfAnc(p, f, t);
    if w :| w in Anc(p, u) {
      AncOfAnc(p, w, u);
      LeadsAnc(p, minFee, maxWeight, t, u, w);
    } else {
      forall w | w in Package(p, f) && w != u ensures !IsAdjusted(p, w) {
        if w != f { AncOfAnc(p, w, f); }
        LeadsAnc(p, minFee, maxWeight, t, w, u);
      }
      LeadsFirst(p, minFee, maxWeight, t, u, f);
    }
  }

  lemma LeadsFirst(p: Pool, minFee: int -> int, maxWeight: nat, t: TxId, u: TxId, f: TxId)
    requires Plenty(p, minFee, maxWeight) && ExactForAll(p, minFee, maxWeight)
    requires t in p.txs && f in Anc(p, t) && f in p.txs && Clean(p, f) && u in Anc(p, f) && f < u
    requires forall w :: w in Package(p, f) && w != u ==> !IsAdjusted(p, w)
    ensures !IsAdjusted(p, u)
  {
    var r, g := FirstEasy(p, minFee, maxWeight, f);
    AdjustedLater(r, g, t, u);
  }

  lemma FirstEasy(p: Pool, minFee: int -> int, maxWeight: nat, f: TxId) returns (r: Rules, g: States)
    requires Plenty(p, minFee, maxWeight) && ExactForAll(p, minFee, maxWeight) && f in p.txs
    ensures r.pool == p && r.order != [] && r.order[0] == f && Easy(r, g)
  {
    var order := OrderWith(f, p.txs.Keys);
    r := EasyFor(p, minFee, maxWeight, order);
    g := StatesOf(r);
  }

  lemma OrderWith(f: TxId, all: set<TxId>) returns (order: seq<TxId>)
    requires f in all
    ensures order != [] && order[0] == f && NoDuplicates(order) && Elems(order) == all
  {
    Appended([], f);
    var xs := [] + [f];
    order := OrderFrom(xs, all);
    assert order[0] == xs[0];
  }

  lemma RevivedNot(p: Pool, minFee: int -> int, maxWeight: nat, t: TxId, a: TxId, b: TxId)
    requires Plenty(p, minFee, maxWeight) && ExactForAll(p, minFee, maxWeight) && b !in Anc(p, a)
    ensures !Revivable(p, t, a, b)
  {
    if Revivable(p, t, a, b) {
      AncOfAnc(p, a, t);
      AncOfAnc(p, b, t);
      var order := ThreeOrder(a, t, b, p.txs.Keys);
      var r := EasyFor(p, minFee, maxWeight, order);
      var n := FailsBetween(r, StatesOf(r), t, a, b);
      RevivedInexact(r, n, t);
    }
  }

  lemma RevivedInexact(r: Rules, n: nat, t: TxId)
    requires r.Ok() && t in At(r, n).c.modified && t in At(r, n).c.failed
    requires forall u :: u in r.pool.txs ==> r.pool.txs[u].size > 0
    ensures !ExactlyAt(r, n)
  {
    AtInv(r, n);
    RevivedOff(r.pool, t, At(r, n).c.modified[t], At(r, n).block);
  }

  lemma ExactNeedsLead(p: Pool, minFee: int -> int, maxWeight: nat)
    requires Plenty(p, minFee, maxWeight) && ExactForAll(p, minFee, maxWeight)
    ensures AdjustedLead(p)
  {
    forall t: TxId, u: TxId, f: TxId | TwoAncestors(p, t, u, f) && IsAdjusted(p, u) ensures u in Anc(p, f) && u < f {
      if u !in Anc(p, f) {
        LeadsAnc(p, minFee, maxWeight, t, u, f);
      } else if f < u {
        LeadsHash(p, minFee, maxWeight, t, u, f);
      }
    }
  }

  lemma NeverRevivable(p: Pool, minFee: int -> int, maxWeight: nat, t: TxId, a: TxId, b: TxId)
    requires Plenty(p, minFee, maxWeight) && ExactForAll(p, minFee, maxWeight)
    ensures !Revivable(p, t, a, b)
  {
    if b !in Anc(p, a) {
      RevivedNot(p, minFee, maxWeight, t, a, b);
    } else {
      AncOfAnc(p, b, a);
      RevivedNot(p, minFee, maxWeight, t, b, a);
    }
  }

  /**
   With room for everything, all totals recorded are exact in every selection just if adjusted ancestors
   lead and no transaction can fail between the inclusions of two ancestors.
   */
  lemma ExactIff(p: Pool, minFee: int -> int, maxWeight: nat)
    requires Plenty(p, minFee, maxWeight)
    ensures ExactForAll(p, minFee, maxWeight) <==> AdjustedLead(p) && NoRevival(p)
  {
    if AdjustedLead(p) && NoRevival(p) {
      forall r: Rules | r.Ok() && r.pool == p && r.minFee == minFee && r.maxWeight == maxWeight ensures AlwaysExact(r) {
        ExactWhenLed(r);
      }
    }
    if ExactForAll(p, minFee, maxWeight) {
      ExactNeedsLead(p, minFee, maxWeight);
      forall t, a, b ensures !Revivable(p, t, a, b) { NeverRevivable(p, minFee, maxWeight, t, a, b); }
    }
  }

  // ---- An order that never ends ----

  /** A transaction whose whole package passes the tests of fee and size on an empty block. */
  ghost predicate FitsAlone(r: Rules, x: TxId) {
    var e := CachedEntry(r.pool, x);
    e.modFees >= r.minFee(e.size) && Small(r, {}, e)
  }

  lemma FirstTaken(r: Rules)
    requires r.order != [] && !r.Young(r.order[0]) && FitsAlone(r, r.order[0]) && Clean(r.pool, r.order[0])
    ensures At(r, 1) == Included(r.pool, {}, Cursor(map[], {}, 1, 0), r.order[0])
  {
    assert At(r, 0) == START && VerdictOn(r, START) == Fits;
    NextFrom(r, 0, Included(r.pool, {}, Cursor(map[], {}, 1, 0), r.order[0]));
  }

  lemma YoungNext(r: Rules, s: State, t: TxId)
    requires TableOk(r.pool, s.c.modified, s.c.failed, s.block, {}) && |r.order| >= 2 && s.c.failed == {} && s.c.mi == 1
    requires r.order[0] in s.block && r.order[1] == t && t in r.pool.txs && t !in s.block &&
             Anc(r.pool, t) * s.block != {}
    ensures Scripted(r, s, 1) && t in s.c.modified
  {
    EntryThere(r.pool, s.c.modified, s.c.failed, s.block, t);
    InBlockGone(r.pool, s.c.modified, s.c.failed, s.block, r.order[0]);
  }

  /**
   Whenever an old enough transaction fits an empty block with its package and leaves a young one behind,
   some order of the candidates makes a selection that never ends.
   */
  lemma StallsInSomeOrder(p: Pool, minFee: int -> int, maxWeight: nat, x: TxId, t: TxId, requiredAge: int, now: int)
    returns (r: Rules)
    requires WellFormed(p) && maxWeight >= COINBASE_WEIGHT && LeavesYoung(p, requiredAge, now, x, t)
    requires FitsAlone(Rules(p, minFee, maxWeight, [], _ => 0, (_, _) => true, requiredAge, now), x)
    ensures r.Ok() && r.pool == p && r.minFee == minFee && r.maxWeight == maxWeight
    ensures r.requiredAge == requiredAge && r.now == now && NeverEnds(r)
  {
    Appended([], x);
    Appended([] + [x], t);
    var order := OrderFrom([] + [x] + [t], p.txs.Keys);
    r := Ranked(p, minFee, maxWeight, order, requiredAge, now);
    RankedOk(p, minFee, maxWeight, order, requiredAge, now);
    RankedRanks(r);
    StallsRanked(r, t);
  }

  lemma StallsRanked(r: Rules, t: TxId)
    requires r.Ok() && Ranks(r) && |r.order| >= 2 && r.order[1] == t && FitsAlone(r, r.order[0])
    requires LeavesYoung(r.pool, r.requiredAge, r.now, r.order[0], t)
    ensures NeverEnds(r)
  {
    FirstTaken(r);
    AtInv(r, 1);
    YoungNext(r, At(r, 1), t);
    AllSkip(r);
    var m := SkipTo(r, StatesOf(r), 1, 1);
    assert Stuck(r, At(r, m));
  }
}
