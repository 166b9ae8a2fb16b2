/**
 Partial merkle trees that announce any number of transactions (src/merkleblock.cpp). The number is not
 committed to by the root, so these results say what can be believed when the root is right all the same.
 */
module MerkleCounts {
  import opened MerkleSpec

  /** The tree over `n` leaves and the block's own tree, at heights `k` and `h` and the same position. */
  ghost predicate Agrees(H: PairHash, txids: seq<Hash>, bits: seq<bool>, hashes: seq<Hash>, n: nat, k: nat, h: nat,
                         pos: nat, i: nat, j: nat) {
    && pos < Width(|txids|, h) && Fits(Shape(|txids|, h, pos), |txids|)
    && var w := Walk(H, bits, hashes, Shape(n, k, pos), i, j);
       !w.bad && w.hash == HashOf(H, txids, Shape(|txids|, h, pos))
  }

  lemma ShapeOk(n: nat, h: nat, pos: nat)
    requires pos < Width(n, h)
    ensures Balanced(Shape(n, h, pos), h) && Fits(Shape(n, h, pos), n)
  {
    ShapeBalanced(n, h, pos);
    BalancedFits(Shape(n, h, pos), h, n);
  }

  /**
   One level down: a node with the right hash has as many children as the true one, with the right hashes.
   A missing right child is not mistaken for a repeated left one, nor the other way round.
   */
  lemma DownALevel(H: PairHash, txids: seq<Hash>, bits: seq<bool>, hashes: seq<Hash>, n: nat, k: nat, h: nat, pos: nat,
                   i: nat, j: nat)
    requires Injective(H) && Distinct(txids) && k > 0 && h > 0
    requires Agrees(H, txids, bits, hashes, n, k, h, pos, i, j) && bits[i]
    ensures 2 * pos + 1 < Width(n, k - 1) <==> 2 * pos + 1 < Width(|txids|, h - 1)
    ensures Agrees(H, txids, bits, hashes, n, k - 1, h - 1, 2 * pos, i + 1, j)
    ensures 2 * pos + 1 < Width(n, k - 1) ==>
            var v := Walk(H, bits, hashes, Shape(n, k - 1, 2 * pos), i + 1, j);
            Agrees(H, txids, bits, hashes, n, k - 1, h - 1, 2 * pos + 1, v.bitsUsed, v.hashUsed)
  {
    var t, u := Shape(n, k, pos), Shape(|txids|, h, pos);
    ShapeOk(|txids|, h, pos);
    if t.Single? && u.Node? { SiblingsDiffer(H, txids, u, h); }
  }

  lemma StoredHere(H: PairHash, bits: seq<bool>, hashes: seq<Hash>, n: nat, k: nat, pos: nat, i: nat, j: nat)
    requires i < |bits| && (k == 0 || !bits[i]) && !Walk(H, bits, hashes, Shape(n, k, pos), i, j).bad
    ensures var w := Walk(H, bits, hashes, Shape(n, k, pos), i, j);
            w.found == if k == 0 && bits[i] then [Match(w.hash, pos)] else []
  {
  }

  lemma FoundBelow(H: PairHash, bits: seq<bool>, hashes: seq<Hash>, n: nat, k: nat, pos: nat, i: nat, j: nat, v: Walked)
    requires k > 0 && i < |bits| && bits[i] && v == Walk(H, bits, hashes, Shape(n, k - 1, 2 * pos), i + 1, j)
    ensures Walk(H, bits, hashes, Shape(n, k, pos), i, j).found ==
            if 2 * pos + 1 < Width(n, k - 1)
            then v.found + Walk(H, bits, hashes, Shape(n, k - 1, 2 * pos + 1), v.bitsUsed, v.hashUsed).found
            else v.found
  {
  }

  /** At the true height whatever is reported is true. */
  lemma {:induction false} AnnouncedSound(H: PairHash, txids: seq<Hash>, bits: seq<bool>, hashes: seq<Hash>, n: nat,
                                          h: nat, pos: nat, i: nat, j: nat)
    requires Injective(H) && Distinct(txids) && Agrees(H, txids, bits, hashes, n, h, h, pos, i, j)
    ensures Genuine(txids, Walk(H, bits, hashes, Shape(n, h, pos), i, j).found)
    decreases h
  {
    if h == 0 || !bits[i] {
      StoredHere(H, bits, hashes, n, h, pos, i, j);
    } else {
      DownALevel(H, txids, bits, hashes, n, h, h, pos, i, j);
      AnnouncedSound(H, txids, bits, hashes, n, h - 1, 2 * pos, i + 1, j);
      var v := Walk(H, bits, hashes, Shape(n, h - 1, 2 * pos), i + 1, j);
      FoundBelow(H, bits, hashes, n, h, pos, i, j, v);
      if 2 * pos + 1 < Width(n, h - 1) {
        AnnouncedSound(H, txids, bits, hashes, n, h - 1, 2 * pos + 1, v.bitsUsed, v.hashUsed);
      }
    }
  }

  predicate IsPair(H: PairHash, x: Hash, a: Hash, b: Hash) { x == H(a, b) }

  ghost predicate Pair(H: PairHash, x: Hash) { exists a, b :: IsPair(H, x, a, b) }

  ghost predicate AllPairs(H: PairHash, found: seq<Match>) {
    forall m :: 0 <= m < |found| ==> Pair(H, found[m].hash)
  }

  lemma InnerIsPair(H: PairHash, txids: seq<Hash>, t: Tree)
    requires Fits(t, |txids|) && !t.Leaf?
    ensures Pair(H, HashOf(H, txids, t))
  {
    var l, r := if t.Single? then t.child else t.left, if t.Single? then t.child else t.right;
    assert IsPair(H, HashOf(H, txids, t), HashOf(H, txids, l), HashOf(H, txids, r));
  }

  /** Below the true height only hashes of pairs are reported. */
  lemma {:induction false} TooLowReportsPairs(H: PairHash, txids: seq<Hash>, bits: seq<bool>, hashes: seq<Hash>, n: nat,
                                              k: nat, h: nat, pos: nat, i: nat, j: nat)
    requires Injective(H) && Distinct(txids) && k < h && Agrees(H, txids, bits, hashes, n, k, h, pos, i, j)
    ensures AllPairs(H, Walk(H, bits, hashes, Shape(n, k, pos), i, j).found)
    decreases k
  {
    if k == 0 || !bits[i] {
      InnerIsPair(H, txids, Shape(|txids|, h, pos));
      StoredHere(H, bits, hashes, n, k, pos, i, j);
    } else {
      DownALevel(H, txids, bits, hashes, n, k, h, pos, i, j);
      TooLowReportsPairs(H, txids, bits, hashes, n, k - 1, h - 1, 2 * pos, i + 1, j);
      var v := Walk(H, bits, hashes, Shape(n, k - 1, 2 * pos), i + 1, j);
      FoundBelow(H, bits, hashes, n, k, pos, i, j, v);
      if 2 * pos + 1 < Width(n, k - 1) {
        TooLowReportsPairs(H, txids, bits, hashes, n, k - 1, h - 1, 2 * pos + 1, v.bitsUsed, v.hashUsed);
      }
    }
  }

  /** No transaction id is itself the hash of a pair. */
  ghost predicate NoPairs(H: PairHash, txids: seq<Hash>) { forall p :: 0 <= p < |txids| ==> !Pair(H, txids[p]) }

  /** Above the true height nothing is reported. */
  lemma {:induction false} TooHighReportsNothing(H: PairHash, txids: seq<Hash>, bits: seq<bool>, hashes: seq<Hash>,
                                                 n: nat, k: nat, h: nat, pos: nat, i: nat, j: nat)
    requires Injective(H) && Distinct(txids) && NoPairs(H, txids)
    requires k > h && Agrees(H, txids, bits, hashes, n, k, h, pos, i, j)
    ensures Walk(H, bits, hashes, Shape(n, k, pos), i, j).found == []
    decreases h
  {
    if !bits[i] {
      StoredHere(H, bits, hashes, n, k, pos, i, j);
    } else if h == 0 {
      TopIsPair(H, bits, hashes, n, k, pos, i, j);
    } else {
      DownALevel(H, txids, bits, hashes, n, k, h, pos, i, j);
      TooHighReportsNothing(H, txids, bits, hashes, n, k - 1, h - 1, 2 * pos, i + 1, j);
      var v := Walk(H, bits, hashes, Shape(n, k - 1, 2 * pos), i + 1, j);
      FoundBelow(H, bits, hashes, n, k, pos, i, j, v);
      if 2 * pos + 1 < Width(n, k - 1) {
        TooHighReportsNothing(H, txids, bits, hashes, n, k - 1, h - 1, 2 * pos + 1, v.bitsUsed, v.hashUsed);
      }
    }
  }

  lemma TopIsPair(H: PairHash, bits: seq<bool>, hashes: seq<Hash>, n: nat, k: nat, pos: nat, i: nat, j: nat)
    requires k > 0 && i < |bits| && bits[i]
    ensures Pair(H, Walk(H, bits, hashes, Shape(n, k, pos), i, j).hash)
  {
    var v := Walk(H, bits, hashes, Shape(n, k - 1, 2 * pos), i + 1, j);
    var w := Walk(H, bits, hashes, Shape(n, k - 1, 2 * pos + 1), v.bitsUsed, v.hashUsed);
    assert IsPair(H, Walk(H, bits, hashes, Shape(n, k, pos), i, j).hash, v.hash, v.hash) ||
           IsPair(H, Walk(H, bits, hashes, Shape(n, k, pos), i, j).hash, v.hash, w.hash);
  }

  /** The result for an announced number of transactions is the block's own root. */
  predicate Believed(H: PairHash, txids: seq<Hash>, n: nat, bits: seq<bool>, hashes: seq<Hash>, bad: bool)
    requires |txids| > 0
  {
    var x := Extract(H, n, bits, hashes, bad); x.root != NULL_HASH && x.root == MerkleRoot(H, txids)
  }

  lemma RootAgrees(H: PairHash, txids: seq<Hash>, n: nat, bits: seq<bool>, hashes: seq<Hash>, bad: bool)
    requires |txids| > 0 && Believed(H, txids, n, bits, hashes, bad)
    ensures n > 0 && Agrees(H, txids, bits, hashes, n, RootHeight(n, 0), RootHeight(|txids|, 0), 0, 0, 0)
    ensures Extract(H, n, bits, hashes, bad).found == Walk(H, bits, hashes, WholeTree(n), 0, 0).found
  {
    WholeTreeShape(|txids|);
  }

  /**
   Soundness for every announced number that gives the tree its true height: if the root is the block's
   own, every reported pair is a transaction of the block at that very index, and indexes increase strictly.
   */
  lemma AnyCountSound(H: PairHash, txids: seq<Hash>, n: nat, bits: seq<bool>, hashes: seq<Hash>, bad: bool)
    requires Injective(H) && Distinct(txids) && |txids| > 0 && Believed(H, txids, n, bits, hashes, bad)
    requires RootHeight(n, 0) == RootHeight(|txids|, 0)
    ensures var x := Extract(H, n, bits, hashes, bad); Genuine(txids, x.found) && InRange(x.found, 0, n)
  {
    RootAgrees(H, txids, n, bits, hashes, bad);
    AnnouncedSound(H, txids, bits, hashes, n, RootHeight(n, 0), 0, 0, 0);
    WholeTreeShape(n);
    WalkInRange(H, bits, hashes, WholeTree(n), RootHeight(n, 0), 0, 0);
  }

  lemma PairsNotGenuine(H: PairHash, txids: seq<Hash>, found: seq<Match>)
    requires NoPairs(H, txids) && AllPairs(H, found) && found != []
    ensures !Genuine(txids, found)
  {
    assert Pair(H, found[0].hash);
  }

  /**
   For all announced numbers: as long as no transaction id is the hash of a pair, what is reported with the
   block's own root is true just if it is nothing at all or the tree has its true height.
   */
  lemma GenuineIff(H: PairHash, txids: seq<Hash>, n: nat, bits: seq<bool>, hashes: seq<Hash>, bad: bool)
    requires Injective(H) && Distinct(txids) && |txids| > 0 && Believed(H, txids, n, bits, hashes, bad)
    requires NoPairs(H, txids)
    ensures var x := Extract(H, n, bits, hashes, bad);
            Genuine(txids, x.found) <==> x.found == [] || RootHeight(n, 0) == RootHeight(|txids|, 0)
  {
    var x, k, h := Extract(H, n, bits, hashes, bad), RootHeight(n, 0), RootHeight(|txids|, 0);
    RootAgrees(H, txids, n, bits, hashes, bad);
    if k == h {
      AnnouncedSound(H, txids, bits, hashes, n, h, 0, 0, 0);
    } else if k > h {
      TooHighReportsNothing(H, txids, bits, hashes, n, k, h, 0, 0, 0);
    } else {
      TooLowReportsPairs(H, txids, bits, hashes, n, k, h, 0, 0, 0);
      if x.found != [] { PairsNotGenuine(H, txids, x.found); }
    }
  }

  /** At a lower height it need not be: announced as one transaction, the root of any block is reported as that one. */
  lemma RootAsTransaction(H: PairHash, txids: seq<Hash>)
    requires |txids| > 0 && MerkleRoot(H, txids) != NULL_HASH
    ensures Believed(H, txids, 1, [true], [MerkleRoot(H, txids)], false)
    ensures Extract(H, 1, [true], [MerkleRoot(H, txids)], false).found == [Match(MerkleRoot(H, txids), 0)]
  {
    assert WholeTree(1) == Leaf(0);
    var w := Walk(H, [true], [MerkleRoot(H, txids)], WholeTree(1), 0, 0);
    assert w == Walked(MerkleRoot(H, txids), 1, 1, [Match(MerkleRoot(H, txids), 0)], false);
  }
}
