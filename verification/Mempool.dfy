/**
 The memory pool as the block assembler sees it: a finite graph of transactions, each with its set
 of unconfirmed ancestors, and totals over sets of transactions (src/txmempool.h).
 */
module Mempool {
  import opened Sets

  type TxId = nat

  datatype Tx = Tx(fee: int, modFee: int, size: nat, weight: nat, sigops: nat,
                   isFinal: bool, hasWitness: bool, time: int)

  datatype Pool = Pool(txs: map<TxId, Tx>, anc: map<TxId, set<TxId>>)

  /** Whether a transaction may enter a block at all. */
  predicate Admissible(p: Pool, t: TxId) { t in p.txs && p.txs[t].isFinal && !p.txs[t].hasWitness }

  /** Whether the age filter skips a transaction. */
  predicate TooYoung(p: Pool, t: TxId, requiredAge: int, now: int) {
    t in p.txs && requiredAge != 0 && p.txs[t].time > now - requiredAge
  }

  predicate IsAncestor(p: Pool, a: TxId, t: TxId) { t in p.anc && a in p.anc[t] }

  /** Ancestor sets are within the pool, transitively closed and acyclic; weight is within four times the size. */
  ghost predicate WellFormed(p: Pool) {
    && p.anc.Keys == p.txs.Keys
    && (forall t :: t in p.txs ==> p.anc[t] <= p.txs.Keys && t !in p.anc[t])
    && (forall t, a {:trigger IsAncestor(p, a, t)} :: IsAncestor(p, a, t) ==> a in p.anc && p.anc[a] <= p.anc[t])
    && (forall t :: t in p.txs ==> p.txs[t].weight <= 4 * p.txs[t].size)
  }

  function Anc(p: Pool, t: TxId): set<TxId> { if t in p.anc then p.anc[t] else {} }

  /** A transaction together with its ancestors. */
  function Package(p: Pool, t: TxId): set<TxId> { Anc(p, t) + {t} }

  /** The transaction and everything that depends on it. */
  function Descendants(p: Pool, t: TxId): set<TxId> { set d | d in p.txs && (d == t || t in Anc(p, d)) }

  /** All of a package may enter a block. */
  ghost predicate Clean(p: Pool, t: TxId) { forall v :: v in Package(p, t) ==> Admissible(p, v) }

  /** The ancestors of an ancestor are ancestors. */
  lemma AncOfAnc(p: Pool, a: TxId, t: TxId)
    requires WellFormed(p) && a in Anc(p, t)
    ensures Anc(p, a) <= Anc(p, t) && Package(p, a) <= Anc(p, t) && a in p.txs && t !in Package(p, a)
    ensures Clean(p, t) ==> Clean(p, a)
  {
    assert IsAncestor(p, a, t);
  }

  datatype Kind = Size | Weight | Sigops | Fee | ModFee | Count

  function Val(p: Pool, k: Kind, t: TxId): int {
    if t !in p.txs then 0 else
      var x := p.txs[t];
      match k
      case Size => x.size
      case Weight => x.weight
      case Sigops => x.sigops
      case Fee => x.fee
      case ModFee => x.modFee
      case Count => 1
  }

  /** Sum of one attribute over a set of transactions. */
  ghost function Total(p: Pool, k: Kind, s: set<TxId>): int {
    if s == {} then 0 else
      var t :| t in s;
      Val(p, k, t) + Total(p, k, s - {t})
  }

  lemma {:induction false} TotalTake(p: Pool, k: Kind, s: set<TxId>, t: TxId)
    requires t in s
    ensures Total(p, k, s) == Val(p, k, t) + Total(p, k, s - {t})
    decreases |s|
  {
    var u :| u in s && Total(p, k, s) == Val(p, k, u) + Total(p, k, s - {u});
    if u != t {
      TotalTake(p, k, s - {u}, t);
      TotalTake(p, k, s - {t}, u);
      assert s - {u} - {t} == s - {t} - {u};
    }
  }

  lemma TotalPut(p: Pool, k: Kind, s: set<TxId>, t: TxId)
    requires t !in s
    ensures Total(p, k, s + {t}) == Total(p, k, s) + Val(p, k, t)
  {
    TotalTake(p, k, s + {t}, t);
    assert s + {t} - {t} == s;
  }

  lemma {:induction false} TotalUnion(p: Pool, k: Kind, s: set<TxId>, r: set<TxId>)
    requires s !! r
    ensures Total(p, k, s + r) == Total(p, k, s) + Total(p, k, r)
    decreases |r|
  {
    if r == {} {
      assert s + r == s;
    } else {
      var t :| t in r;
      TotalUnion(p, k, s, r - {t});
      TotalPut(p, k, r - {t}, t);
      TotalPut(p, k, s + (r - {t}), t);
      assert s + (r - {t}) + {t} == s + r && r - {t} + {t} == r;
    }
  }

  /** Two attributes that agree on a set have the same sum over it. */
  lemma {:induction false} TotalSame(p: Pool, k: Kind, l: Kind, s: set<TxId>)
    requires forall t :: t in s ==> Val(p, k, t) == Val(p, l, t)
    ensures Total(p, k, s) == Total(p, l, s)
    decreases |s|
  {
    if s != {} {
      var t :| t in s;
      TotalTake(p, k, s, t);
      TotalTake(p, l, s, t);
      TotalSame(p, k, l, s - {t});
    }
  }

  lemma {:induction false} TotalNonNegative(p: Pool, k: Kind, s: set<TxId>)
    requires k == Size || k == Weight || k == Sigops || k == Count
    ensures Total(p, k, s) >= 0
    decreases |s|
  {
    if s != {} {
      var t :| t in s;
      TotalTake(p, k, s, t);
      TotalNonNegative(p, k, s - {t});
    }
  }

  lemma {:induction false} WeightAtMostSize(p: Pool, s: set<TxId>)
    requires WellFormed(p)
    ensures Total(p, Weight, s) <= 4 * Total(p, Size, s)
    decreases |s|
  {
    if s != {} {
      var t :| t in s;
      TotalTake(p, Weight, s, t);
      TotalTake(p, Size, s, t);
      WeightAtMostSize(p, s - {t});
    }
  }

  /** An ancestor has strictly fewer ancestors. */
  lemma AncestorsFewer(p: Pool, a: TxId, t: TxId)
    requires WellFormed(p) && t in p.txs && a in p.anc[t]
    ensures a in p.anc && |p.anc[a]| < |p.anc[t]|
  {
    assert IsAncestor(p, a, t);
    assert p.anc[a] + {a} <= p.anc[t];
    SubsetSize(p.anc[a] + {a}, p.anc[t]);
  }
}
