/**
 The order of a block template (src/miner.cpp): transactions come after all their ancestors, and sorting
 a package by number of ancestors is enough for that.
 */
module MinerSpec {
  import opened Mempool

  function Elems(s: seq<TxId>): set<TxId> {
    if s == [] then {} else Elems(s[..|s| - 1]) + {s[|s| - 1]}
  }

  lemma {:induction false} ElemsIff(s: seq<TxId>, t: TxId)
    ensures t in Elems(s) <==> exists i :: 0 <= i < |s| && s[i] == t
  {
    if s != [] {
      ElemsIff(s[..|s| - 1], t);
      var r := s[..|s| - 1];
      assert forall i :: 0 <= i < |r| ==> r[i] == s[i];
    }
  }

  ghost predicate NoDuplicates(s: seq<TxId>) {
    forall i, j :: 0 <= i < j < |s| ==> s[i] != s[j]
  }

  /** Every transaction comes after all its ancestors. */
  ghost predicate AncestorsFirst(p: Pool, s: seq<TxId>) {
    forall i :: 0 <= i < |s| ==> s[i] in p.anc && p.anc[s[i]] <= Elems(s[..i])
  }

  /** A set of transactions that contains all their ancestors. */
  ghost predicate Closed(p: Pool, s: set<TxId>) {
    s <= p.anc.Keys && forall t :: t in s ==> p.anc[t] <= s
  }

  lemma {:induction false} ElemsPrefix(s: seq<TxId>, i: nat)
    requires i <= |s|
    ensures Elems(s[..i]) <= Elems(s)
    decreases |s|
  {
    if i < |s| {
      ElemsPrefix(s[..|s| - 1], i);
      assert s[..|s| - 1][..i] == s[..i];
    } else {
      assert s[..i] == s;
    }
  }

  lemma AncestorsFirstClosed(p: Pool, s: seq<TxId>)
    requires AncestorsFirst(p, s)
    ensures Closed(p, Elems(s))
  {
    forall t | t in Elems(s) ensures t in p.anc && p.anc[t] <= Elems(s) {
      ElemsIff(s, t);
      var i :| 0 <= i < |s| && s[i] == t;
      ElemsPrefix(s, i);
    }
  }

  lemma ElemsAppend(s: seq<TxId>, t: TxId)
    ensures Elems(s + [t]) == Elems(s) + {t}
  {
    assert (s + [t])[..|s|] == s;
  }

  lemma AppendToBlock(p: Pool, s: seq<TxId>, t: TxId)
    requires AncestorsFirst(p, s) && NoDuplicates(s) && t in p.anc && p.anc[t] <= Elems(s) && t !in Elems(s)
    ensures AncestorsFirst(p, s + [t]) && NoDuplicates(s + [t]) && Elems(s + [t]) == Elems(s) + {t}
  {
    var r := s + [t];
    ElemsIff(s, t);
    ElemsAppend(s, t);
    forall i | 0 <= i < |r| ensures r[i] in p.anc && p.anc[r[i]] <= Elems(r[..i]) {
      assert r[..i] == if i < |s| then s[..i] else s;
    }
  }

  /** In order of number of ancestors. */
  ghost predicate ByAncestorCount(p: Pool, s: seq<TxId>)
  {
    && (forall i :: 0 <= i < |s| ==> s[i] in p.anc)
    && (forall i, j :: 0 <= i < j < |s| ==> |p.anc[s[i]]| <= |p.anc[s[j]]|)
  }

  lemma AppendInOrder(p: Pool, s: seq<TxId>, t: TxId)
    requires Elems(s) + {t} <= p.anc.Keys && NoDuplicates(s) && ByAncestorCount(p, s) && t !in Elems(s)
    requires forall u :: u in Elems(s) ==> |p.anc[u]| <= |p.anc[t]|
    ensures Elems(s + [t]) == Elems(s) + {t} && NoDuplicates(s + [t]) && ByAncestorCount(p, s + [t])
  {
    ElemsAppend(s, t);
    var r := s + [t];
    forall i | 0 <= i < |r| ensures r[i] in p.anc { ElemsIff(r, r[i]); }
    forall i, j | 0 <= i < j < |r| ensures r[i] != r[j] && |p.anc[r[i]]| <= |p.anc[r[j]]| {
      ElemsIff(s, s[i]);
      if j < |s| { assert s[i] != s[j] && |p.anc[s[i]]| <= |p.anc[s[j]]|; }
    }
  }

  /** A package partly sorted: `s` holds the smallest members in order, `rest` the others. */
  ghost predicate PartlySorted(p: Pool, package: set<TxId>, s: seq<TxId>, rest: set<TxId>) {
    && package <= p.anc.Keys && rest !! Elems(s) && Elems(s) + rest == package
    && NoDuplicates(s) && ByAncestorCount(p, s)
    && forall u, t :: u in Elems(s) && t in rest ==> |p.anc[u]| <= |p.anc[t]|
  }

  lemma SortStep(p: Pool, package: set<TxId>, s: seq<TxId>, rest: set<TxId>, t: TxId)
    requires PartlySorted(p, package, s, rest)
    requires t in rest && forall u :: u in rest ==> |p.anc[t]| <= |p.anc[u]|
    ensures PartlySorted(p, package, s + [t], rest - {t})
  {
    AppendInOrder(p, s, t);
  }

  lemma PrefixStep(s: seq<TxId>, i: nat)
    requires i < |s| && NoDuplicates(s)
    ensures s[..i + 1] == s[..i] + [s[i]] && Elems(s[..i + 1]) == Elems(s[..i]) + {s[i]}
    ensures s[i] in Elems(s) && s[i] !in Elems(s[..i])
  {
    assert s[..i + 1] == s[..i] + [s[i]];
    ElemsAppend(s[..i], s[i]);
    ElemsIff(s, s[i]);
    ElemsIff(s[..i], s[i]);
  }

  /** A package sorted for the block: its ancestors are in the block or in it, and its transactions may be included. */
  ghost predicate Addable(p: Pool, s: seq<TxId>, block: set<TxId>)
    requires WellFormed(p)
  {
    && NoDuplicates(s) && Elems(s) <= p.txs.Keys && Elems(s) !! block && ByAncestorCount(p, s)
    && (forall t :: t in Elems(s) ==> p.anc[t] <= block + Elems(s))
    && (forall t :: t in Elems(s) ==> p.txs[t].isFinal && !p.txs[t].hasWitness)
  }

  // What adding the next transaction of a sorted package needs.
  lemma NextSorted(p: Pool, s: seq<TxId>, block: set<TxId>, i: nat)
    requires WellFormed(p) && Addable(p, s, block) && i < |s|
    ensures s[i] in p.txs && s[i] !in block + Elems(s[..i]) && p.anc[s[i]] <= block + Elems(s[..i])
    ensures p.txs[s[i]].isFinal && !p.txs[s[i]].hasWitness
    ensures s[..i + 1] == s[..i] + [s[i]] && block + Elems(s[..i + 1]) == block + Elems(s[..i]) + {s[i]}
  {
    SortedParents(p, s, block, i);
    PrefixStep(s, i);
  }

  /** The ancestors of a package member are in the block or earlier in the sorted package. */
  lemma SortedParents(p: Pool, s: seq<TxId>, block: set<TxId>, i: nat)
    requires WellFormed(p) && i < |s| && Elems(s) <= p.txs.Keys && ByAncestorCount(p, s)
    requires forall t :: t in Elems(s) ==> p.anc[t] <= block + Elems(s)
    ensures p.anc[s[i]] <= block + Elems(s[..i])
  {
    ElemsIff(s, s[i]);
    forall a | a in p.anc[s[i]] && a !in block ensures a in Elems(s[..i]) {
      ElemsIff(s, a);
      ElemsIff(s[..i], a);
      var j :| 0 <= j < |s| && s[j] == a;
      AncestorsFewer(p, a, s[i]);
      assert !(i < j);
      assert s[..i][j] == a;
    }
  }
}
