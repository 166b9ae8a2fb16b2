/**
 The side table of package totals for transactions some of whose ancestors are in the block already
 (src/miner.cpp, src/miner.h): what its entries record, and how inclusion of a transaction changes them.
 */
module Records {
  import opened Sets
  import opened Mempool
  import opened MinerSpec

  /** An entry of mapModifiedTx. */
  datatype Modified = Modified(size: int, modFees: int, sigops: int)

  type ModifiedTx = map<TxId, Modified>

  // ---- Package totals ----

  /** What a package still adds to the block once the transactions in `gone` are in it. */
  ghost function Rest(p: Pool, k: Kind, t: TxId, gone: set<TxId>): int { Total(p, k, Package(p, t) - gone) }

  /** The total the mempool caches for a transaction and its ancestors. */
  ghost function Cached(p: Pool, k: Kind, t: TxId): int { Total(p, k, Package(p, t)) }

  ghost function RestEntry(p: Pool, t: TxId, gone: set<TxId>): Modified {
    Modified(Rest(p, Size, t, gone), Rest(p, ModFee, t, gone), Rest(p, Sigops, t, gone))
  }

  ghost function CachedEntry(p: Pool, t: TxId): Modified {
    Modified(Cached(p, Size, t), Cached(p, ModFee, t), Cached(p, Sigops, t))
  }

  lemma CachedSplit(p: Pool, k: Kind, t: TxId, gone: set<TxId>)
    requires t !in gone
    ensures Cached(p, k, t) == Rest(p, k, t, gone) + Total(p, k, Anc(p, t) * gone)
  {
    var s := Package(p, t);
    TotalUnion(p, k, s - gone, Anc(p, t) * gone);
    assert (s - gone) + (Anc(p, t) * gone) == s;
  }

  lemma RestStep(p: Pool, k: Kind, d: TxId, gone: set<TxId>, t: TxId)
    ensures t in Package(p, d) && t !in gone ==> Rest(p, k, d, gone + {t}) == Rest(p, k, d, gone) - Val(p, k, t)
    ensures t !in Package(p, d) ==> Rest(p, k, d, gone + {t}) == Rest(p, k, d, gone)
  {
    var s := Package(p, d);
    assert s - (gone + {t}) == s - gone - {t};
    if t in s && t !in gone { TotalTake(p, k, s - gone, t); }
    if t !in s { assert s - gone - {t} == s - gone; }
  }

  // ---- Entries ----

  /** A first entry for a descendant of an included transaction. */
  function FreshEntry(p: Pool, cached: Modified, t: TxId): Modified {
    Modified(cached.size - Val(p, Size, t), cached.modFees - Val(p, ModFee, t), cached.sigops - Val(p, Sigops, t))
  }

  /** The update of an existing entry; it takes the plain fee off, not the modified one. */
  function UpdatedEntry(p: Pool, e: Modified, t: TxId): Modified {
    Modified(e.size - Val(p, Size, t), e.modFees - Val(p, Fee, t), e.sigops - Val(p, Sigops, t))
  }

  /** By how much the modified fees of a set of transactions exceed their plain fees. */
  ghost function Adjustment(p: Pool, s: set<TxId>): int { Total(p, ModFee, s) - Total(p, Fee, s) }

  predicate IsAdjusted(p: Pool, t: TxId) { Val(p, Fee, t) != Val(p, ModFee, t) }

  /** Two ancestors of a transaction that may both enter a block. */
  ghost predicate TwoAncestors(p: Pool, t: TxId, u: TxId, f: TxId) {
    u in Anc(p, t) && f in Anc(p, t) && u != f && Clean(p, u) && Clean(p, f)
  }

  /**
   An ancestor with an adjusted fee is an ancestor of all others that may enter a block, and comes before
   them in the order of hashes, in which the members of a package are accounted for.
   */
  ghost predicate AdjustedLead(p: Pool) {
    forall t, u, f :: TwoAncestors(p, t, u, f) && IsAdjusted(p, u) ==> u in Anc(p, f) && u < f
  }

  /**
   An entry was made when its ancestors `base` were in the block already and `f` was included. It still
   counts the former. Ancestors included since then were taken off with their plain fees.
   */
  ghost predicate RecordedFrom(p: Pool, t: TxId, e: Modified, gone: set<TxId>, base: set<TxId>, f: TxId) {
    var later := Anc(p, t) * gone - base - {f};
    && base <= Anc(p, t) * gone && f in Anc(p, t) * gone - base
    && e.size == Rest(p, Size, t, gone) + Total(p, Size, base)
    && e.sigops == Rest(p, Sigops, t, gone) + Total(p, Sigops, base)
    && e.modFees == Rest(p, ModFee, t, gone) + Total(p, ModFee, base) + Adjustment(p, later)
    && (AdjustedLead(p) ==> forall u :: u in later ==> !IsAdjusted(p, u))
  }

  /** Only the entry of a candidate that failed before counts transactions in the block, and it always does. */
  ghost predicate Recorded(p: Pool, t: TxId, e: Modified, gone: set<TxId>, failed: bool) {
    exists base, f :: RecordedFrom(p, t, e, gone, base, f) && (base != {} <==> failed)
  }

  /** No entry understates what is left of its package. */
  lemma RecordBounds(p: Pool, t: TxId, e: Modified, gone: set<TxId>, failed: bool)
    requires Recorded(p, t, e, gone, failed)
    ensures Anc(p, t) * gone != {}
    ensures e.size >= Rest(p, Size, t, gone) && e.sigops >= Rest(p, Sigops, t, gone)
  {
    var base, f :| RecordedFrom(p, t, e, gone, base, f) && (base != {} <==> failed);
    TotalNonNegative(p, Size, base);
    TotalNonNegative(p, Sigops, base);
  }

  /** Nor does it count more than what is in the block again. */
  lemma RecordMost(p: Pool, t: TxId, e: Modified, gone: set<TxId>, failed: bool)
    requires Recorded(p, t, e, gone, failed)
    ensures e.size <= Rest(p, Size, t, gone) + Total(p, Size, gone)
    ensures e.sigops <= Rest(p, Sigops, t, gone) + Total(p, Sigops, gone)
  {
    var base, f :| RecordedFrom(p, t, e, gone, base, f) && (base != {} <==> failed);
    TotalUnion(p, Size, base, gone - base);
    TotalUnion(p, Sigops, base, gone - base);
    assert base + (gone - base) == gone;
    TotalNonNegative(p, Size, gone - base);
    TotalNonNegative(p, Sigops, gone - base);
  }

  /** Size and operations of a candidate that never failed are exact, and if adjusted ancestors lead the fee is. */
  lemma RecordExact(p: Pool, t: TxId, e: Modified, gone: set<TxId>)
    requires Recorded(p, t, e, gone, false)
    ensures e.size == Rest(p, Size, t, gone) && e.sigops == Rest(p, Sigops, t, gone)
    ensures AdjustedLead(p) ==> e == RestEntry(p, t, gone)
  {
    var base, f :| RecordedFrom(p, t, e, gone, base, f) && base == {};
    if AdjustedLead(p) { TotalSame(p, Fee, ModFee, Anc(p, t) * gone - base - {f}); }
  }

  /** Of a candidate that failed before, too much is recorded. */
  lemma RevivedOff(p: Pool, t: TxId, e: Modified, gone: set<TxId>)
    requires Recorded(p, t, e, gone, true) && forall u :: u in Anc(p, t) ==> Val(p, Size, u) > 0
    ensures e.size > Rest(p, Size, t, gone)
  {
    var base, f :| RecordedFrom(p, t, e, gone, base, f) && base != {};
    var b :| b in base;
    TotalTake(p, Size, base, b);
    TotalNonNegative(p, Size, base - {b});
  }

  // ---- Including one transaction ----

  lemma FreshRecord(p: Pool, d: TxId, gone: set<TxId>, t: TxId)
    requires t in Anc(p, d) && t !in gone && d !in gone && d != t
    ensures RecordedFrom(p, d, FreshEntry(p, CachedEntry(p, d), t), gone + {t}, Anc(p, d) * gone, t)
  {
    FreshTotal(p, Size, d, gone, t);
    FreshTotal(p, ModFee, d, gone, t);
    FreshTotal(p, Sigops, d, gone, t);
    assert Anc(p, d) * (gone + {t}) - Anc(p, d) * gone - {t} == {};
  }

  lemma FreshTotal(p: Pool, k: Kind, d: TxId, gone: set<TxId>, t: TxId)
    requires t in Anc(p, d) && t !in gone && d !in gone
    ensures Cached(p, k, d) - Val(p, k, t) == Rest(p, k, d, gone + {t}) + Total(p, k, Anc(p, d) * gone)
  {
    CachedSplit(p, k, d, gone);
    RestStep(p, k, d, gone, t);
  }

  lemma UpdatedRecord(p: Pool, d: TxId, e: Modified, gone: set<TxId>, t: TxId, base: set<TxId>, f: TxId)
    requires RecordedFrom(p, d, e, gone, base, f) && t in Anc(p, d) && t !in gone
    requires Clean(p, t) && Clean(p, f) && (t in Anc(p, f) ==> f < t)
    ensures RecordedFrom(p, d, UpdatedEntry(p, e, t), gone + {t}, base, f)
  {
    RestStep(p, Size, d, gone, t);
    RestStep(p, ModFee, d, gone, t);
    RestStep(p, Sigops, d, gone, t);
    var later := Anc(p, d) * gone - base - {f};
    assert Anc(p, d) * (gone + {t}) - base - {f} == later + {t};
    TotalPut(p, ModFee, later, t);
    TotalPut(p, Fee, later, t);
    assert TwoAncestors(p, d, t, f);
  }

  lemma UntouchedRecord(p: Pool, d: TxId, e: Modified, gone: set<TxId>, t: TxId, base: set<TxId>, f: TxId)
    requires RecordedFrom(p, d, e, gone, base, f) && t !in Package(p, d)
    ensures RecordedFrom(p, d, e, gone + {t}, base, f)
  {
    RestStep(p, Size, d, gone, t);
    RestStep(p, ModFee, d, gone, t);
    RestStep(p, Sigops, d, gone, t);
    assert Anc(p, d) * (gone + {t}) == Anc(p, d) * gone;
  }

  /** The entry of a descendant `d` once `t` is included. */
  ghost function IncludedEntry(p: Pool, m: ModifiedTx, t: TxId, d: TxId): Modified {
    if d in m then UpdatedEntry(p, m[d], t) else FreshEntry(p, CachedEntry(p, d), t)
  }

  /** The side table once `t` is included and its descendants `ds` are updated. */
  ghost function IncludedTable(p: Pool, m: ModifiedTx, t: TxId, ds: set<TxId>): ModifiedTx {
    map d | d in m.Keys + ds :: if d in ds then IncludedEntry(p, m, t, d) else m[d]
  }

  lemma OneMore(p: Pool, m: ModifiedTx, t: TxId, ds: set<TxId>, d: TxId)
    requires d !in ds
    ensures IncludedTable(p, m, t, ds + {d}) == IncludedTable(p, m, t, ds)[d := IncludedEntry(p, m, t, d)]
    ensures d in IncludedTable(p, m, t, ds) <==> d in m
    ensures d in m ==> IncludedTable(p, m, t, ds)[d] == m[d]
  {
    var m', m'' := IncludedTable(p, m, t, ds + {d}), IncludedTable(p, m, t, ds)[d := IncludedEntry(p, m, t, d)];
    assert m'.Keys == m''.Keys;
    assert forall e :: e in m' ==> m'[e] == m''[e];
  }

  // ---- The table ----

  /**
   The side table once the transactions `gone` have been accounted for and those in `added` are in the
   block: every entry is recorded as above, a candidate that failed had an ancestor accounted for, and a
   transaction without an entry that never failed has none.
   */
  ghost predicate TableOk(p: Pool, m: ModifiedTx, failed: set<TxId>, gone: set<TxId>, added: set<TxId>) {
    && (forall t :: t in m ==> t in p.txs && t !in gone && t !in added && Recorded(p, t, m[t], gone, t in failed))
    && (forall t :: t in failed ==> Anc(p, t) * gone != {})
    && (forall t :: t in p.txs && t !in gone + added && t !in m && t !in failed ==> Anc(p, t) !! gone)
  }

  lemma EntryThere(p: Pool, m: ModifiedTx, failed: set<TxId>, gone: set<TxId>, t: TxId)
    requires TableOk(p, m, failed, gone, {}) && t in p.txs && t !in gone && t !in failed && Anc(p, t) * gone != {}
    ensures t in m
  {
    assert t !in gone + {};
  }

  lemma InBlockGone(p: Pool, m: ModifiedTx, failed: set<TxId>, gone: set<TxId>, t: TxId)
    requires TableOk(p, m, failed, gone, {}) && t in gone
    ensures t !in m
  {
  }

  /** Accounting for `t` after `gone`: all may enter a block, and none that depends on `t` has a larger hash. */
  ghost predicate InTurn(p: Pool, gone: set<TxId>, t: TxId) {
    t !in gone && Clean(p, t) && forall g :: g in gone ==> Clean(p, g) && (t in Anc(p, g) ==> g < t)
  }

  lemma IncludeOne(p: Pool, d: TxId, m: ModifiedTx, failed: set<TxId>, gone: set<TxId>, added: set<TxId>, t: TxId)
    requires TableOk(p, m, failed, gone, added) && InTurn(p, gone, t)
    requires d in p.txs && d !in added && d !in gone && t in Anc(p, d) && d != t
    ensures Recorded(p, d, IncludedEntry(p, m, t, d), gone + {t}, d in failed)
  {
    if d in m {
      var base, f :| RecordedFrom(p, d, m[d], gone, base, f) && (base != {} <==> d in failed);
      UpdatedRecord(p, d, m[d], gone, t, base, f);
    } else {
      FreshRecord(p, d, gone, t);
    }
  }

  lemma KeepOne(p: Pool, d: TxId, e: Modified, failed: bool, gone: set<TxId>, t: TxId)
    requires Recorded(p, d, e, gone, failed) && t !in Package(p, d)
    ensures Recorded(p, d, e, gone + {t}, failed)
  {
    var base, f :| RecordedFrom(p, d, e, gone, base, f) && (base != {} <==> failed);
    UntouchedRecord(p, d, e, gone, t, base, f);
  }

  /** Updating all descendants of one included transaction keeps the side table right. */
  lemma IncludeKeeps(p: Pool, m: ModifiedTx, failed: set<TxId>, gone: set<TxId>, added: set<TxId>, t: TxId)
    requires WellFormed(p) && TableOk(p, m, failed, gone, added) && InTurn(p, gone, t) && t in added
    requires Closed(p, gone - added)
    ensures TableOk(p, IncludedTable(p, m, t, Descendants(p, t) - added), failed, gone + {t}, added)
  {
    var ds := Descendants(p, t) - added;
    var m' := IncludedTable(p, m, t, ds);
    forall d | d in m'
      ensures d in p.txs && d !in gone + {t} && d !in added && Recorded(p, d, m'[d], gone + {t}, d in failed)
    {
      if d in ds {
        assert d !in gone - added;
        IncludeOne(p, d, m, failed, gone, added, t);
      } else {
        KeepOne(p, d, m[d], d in failed, gone, t);
      }
    }
    forall d | d in failed ensures Anc(p, d) * (gone + {t}) != {} {
      assert Anc(p, d) * gone <= Anc(p, d) * (gone + {t});
    }
  }

  /** The side table once the transactions `todo` of those added are accounted for, in the order of hashes. */
  ghost function Accounted(p: Pool, m: ModifiedTx, todo: set<TxId>, added: set<TxId>): ModifiedTx
    decreases todo
  {
    if todo == {} then m
    else
      var t := Least(todo);
      Accounted(p, IncludedTable(p, m, t, Descendants(p, t) - added), todo - {t}, added)
  }

  lemma {:induction false} AccountedKeeps(p: Pool, m: ModifiedTx, failed: set<TxId>, before: set<TxId>,
                                          todo: set<TxId>, added: set<TxId>)
    requires WellFormed(p) && Closed(p, before) && Closed(p, before + added) && before !! added && todo <= added
    requires forall t :: t in before + added ==> Admissible(p, t)
    requires forall d, t :: d in added - todo && t in todo ==> d < t
    requires TableOk(p, m, failed, before + (added - todo), added)
    ensures TableOk(p, Accounted(p, m, todo, added), failed, before + added, {})
    decreases todo
  {
    var gone := before + (added - todo);
    if todo == {} {
      assert gone == before + added && gone + added == before + added + {};
    } else {
      var t := Least(todo);
      assert before + (added - (todo - {t})) == gone + {t};
      AccountedOnce(p, m, failed, before, gone, added, t);
      AccountedKeeps(p, IncludedTable(p, m, t, Descendants(p, t) - added), failed, before, todo - {t}, added);
    }
  }

  lemma AccountedOnce(p: Pool, m: ModifiedTx, failed: set<TxId>, before: set<TxId>, gone: set<TxId>,
                      added: set<TxId>, t: TxId)
    requires WellFormed(p) && Closed(p, before) && Closed(p, before + added) && before !! added
    requires before <= gone <= before + added && t in added && t !in gone
    requires forall t :: t in before + added ==> Admissible(p, t)
    requires (forall d :: d in gone - before ==> d < t) && TableOk(p, m, failed, gone, added)
    ensures TableOk(p, IncludedTable(p, m, t, Descendants(p, t) - added), failed, gone + {t}, added)
  {
    assert gone - added == before;
    AccountedTurn(p, before, gone, added, t);
    IncludeKeeps(p, m, failed, gone, added, t);
  }

  lemma AccountedTurn(p: Pool, before: set<TxId>, gone: set<TxId>, added: set<TxId>, t: TxId)
    requires WellFormed(p) && Closed(p, before) && Closed(p, before + added) && before <= gone <= before + added
    requires forall t :: t in before + added ==> Admissible(p, t)
    requires t in added && t !in gone && forall d :: d in gone - before ==> d < t
    ensures InTurn(p, gone, t)
  {
    forall g | g in gone ensures Clean(p, g) && (t in Anc(p, g) ==> g < t) {
      assert g in p.anc && p.anc[g] <= before + added;
      if g in before { assert p.anc[g] <= before; } else { assert g in gone - before; }
    }
  }

  // Accounting erases nothing.
  lemma {:induction false} AccountedGrows(p: Pool, m: ModifiedTx, todo: set<TxId>, added: set<TxId>)
    ensures m.Keys <= Accounted(p, m, todo, added).Keys
    decreases todo
  {
    if todo != {} {
      var t := Least(todo);
      AccountedGrows(p, IncludedTable(p, m, t, Descendants(p, t) - added), todo - {t}, added);
    }
  }

  // An entry that is there is updated by all its ancestors among those accounted for.
  lemma {:induction false} AccountedUpdates(p: Pool, m: ModifiedTx, todo: set<TxId>, added: set<TxId>, d: TxId)
    requires d in p.txs && d !in added && d in m && todo <= added
    ensures d in Accounted(p, m, todo, added)
    ensures Accounted(p, m, todo, added)[d].modFees == m[d].modFees - Total(p, Fee, Anc(p, d) * todo)
    decreases todo
  {
    if todo == {} {
      assert Anc(p, d) * todo == {};
    } else {
      var t := Least(todo);
      AccountedUpdates(p, IncludedTable(p, m, t, Descendants(p, t) - added), todo - {t}, added, d);
      assert Anc(p, d) * (todo - {t}) == Anc(p, d) * todo - {t};
      if t in Anc(p, d) { TotalTake(p, Fee, Anc(p, d) * todo, t); }
      else { assert Anc(p, d) * todo - {t} == Anc(p, d) * todo; }
    }
  }

  /** A new entry is made for the ancestor with the least hash; the others are taken off with their plain fees. */
  lemma {:induction false} AccountedFresh(p: Pool, m: ModifiedTx, todo: set<TxId>, added: set<TxId>, d: TxId)
    requires d in p.txs && d !in added && d !in m && todo <= added && Anc(p, d) * todo != {}
    ensures d in Accounted(p, m, todo, added)
    ensures var f := Least(Anc(p, d) * todo);
            Accounted(p, m, todo, added)[d].modFees ==
            Cached(p, ModFee, d) - Val(p, ModFee, f) - Total(p, Fee, Anc(p, d) * todo - {f})
    decreases todo
  {
    var t := Least(todo);
    var m' := IncludedTable(p, m, t, Descendants(p, t) - added);
    assert Anc(p, d) * (todo - {t}) == Anc(p, d) * todo - {t};
    if t in Anc(p, d) {
      LeastIs(Anc(p, d) * todo, t);
      AccountedUpdates(p, m', todo - {t}, added, d);
    } else {
      assert Anc(p, d) * todo - {t} == Anc(p, d) * todo;
      AccountedFresh(p, m', todo - {t}, added, d);
    }
  }

  // ---- Steps of the selection loop ----

  /** A failed candidate leaves the table and is remembered as failed. */
  lemma FailKeeps(p: Pool, m: ModifiedTx, failed: set<TxId>, gone: set<TxId>, t: TxId)
    requires TableOk(p, m, failed, gone, {}) && t in m
    ensures TableOk(p, m - {t}, failed + {t}, gone, {})
  {
    RecordBounds(p, t, m[t], gone, t in failed);
  }

  /** Once a package is in the block its members leave the table; the other entries are then out of date. */
  lemma EraseKeeps(p: Pool, m: ModifiedTx, failed: set<TxId>, gone: set<TxId>, package: set<TxId>)
    requires TableOk(p, m, failed, gone, {})
    ensures TableOk(p, m - package, failed, gone, package)
  {
  }

  /** The not yet included part of a package: its ancestors are in the block or in it. */
  lemma PackageParents(p: Pool, t: TxId, block: set<TxId>)
    requires WellFormed(p) && t in p.txs && Closed(p, block)
    ensures Package(p, t) - block <= p.txs.Keys && Closed(p, block + Package(p, t))
    ensures forall u :: u in Package(p, t) - block ==> p.anc[u] <= block + (Package(p, t) - block)
  {
    forall u | u in Package(p, t) ensures u in p.anc && p.anc[u] <= Package(p, t) {
      if u != t { AncOfAnc(p, u, t); }
    }
  }

  /** A package that fits by its recorded totals fits in fact. */
  lemma PackageFits(p: Pool, t: TxId, block: set<TxId>, size: int, sigops: int)
    requires WellFormed(p)
    requires size >= Rest(p, Size, t, block) && sigops >= Rest(p, Sigops, t, block)
    ensures Total(p, Weight, block + Package(p, t)) <= Total(p, Weight, block) + 4 * size
    ensures Total(p, Sigops, block + Package(p, t)) <= Total(p, Sigops, block) + sigops
  {
    var package := Package(p, t) - block;
    assert block + Package(p, t) == block + package;
    TotalUnion(p, Weight, block, package);
    TotalUnion(p, Sigops, block, package);
    WeightAtMostSize(p, package);
  }
}
