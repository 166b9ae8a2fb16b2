/**
 The partial merkle tree object: building it from a block, packing its flag bits into bytes and
 back, and extracting the matches (src/merkleblock.cpp, src/merkleblock.h).
 */
module PartialMerkleTree {
  import opened Powers
  import opened Bits
  import opened MerkleSpec

  /** Hash of a node computed by position, as the source does. */
  function CalcHash(H: PairHash, txids: seq<Hash>, height: nat, pos: nat): Hash
    requires pos < Width(|txids|, height)
    decreases height
  {
    if height == 0 then txids[pos]
    else
      var left := CalcHash(H, txids, height - 1, pos * 2);
      var right := if pos * 2 + 1 < Width(|txids|, height - 1) then CalcHash(H, txids, height - 1, pos * 2 + 1)
          else left;
      H(left, right)
  }

  lemma ShapeFits(n: nat, height: nat, pos: nat)
    requires pos < Width(n, height)
    ensures Fits(Shape(n, height, pos), n)
  {
    ShapeBalanced(n, height, pos);
    BalancedFits(Shape(n, height, pos), height, n);
  }

  lemma {:induction false} CalcHashIsHashOf(H: PairHash, txids: seq<Hash>, height: nat, pos: nat)
    requires pos < Width(|txids|, height)
    ensures Fits(Shape(|txids|, height, pos), |txids|)
    ensures CalcHash(H, txids, height, pos) == HashOf(H, txids, Shape(|txids|, height, pos))
    decreases height
  {
    ShapeFits(|txids|, height, pos);
    if height > 0 {
      CalcHashIsHashOf(H, txids, height - 1, pos * 2);
      if pos * 2 + 1 < Width(|txids|, height - 1) {
        CalcHashIsHashOf(H, txids, height - 1, pos * 2 + 1);
      }
    }
  }

  lemma {:induction false} SelectedIff(mask: seq<bool>, t: Tree, h: nat)
    requires Fits(t, |mask|) && Balanced(t, h)
    ensures First(t) <= End(t) <= |mask|
    ensures Selected(mask, t) <==> exists p :: First(t) <= p < End(t) && mask[p]
  {
    match t
    case Leaf(i) => assert mask[i] == mask[First(t)];
    case Single(c) => SelectedIff(mask, c, h - 1);
    case Node(l, r) => SelectedIff(mask, l, h - 1); SelectedIff(mask, r, h - 1);
  }

  function Hashes(found: seq<Match>): seq<Hash> {
    seq(|found|, k requires 0 <= k < |found| => found[k].hash)
  }

  function Indexes(found: seq<Match>): seq<nat> {
    seq(|found|, k requires 0 <= k < |found| => found[k].index)
  }

  lemma ConcatFound(hs: seq<Hash>, ns: seq<nat>, a: seq<Match>, b: seq<Match>)
    ensures hs + Hashes(a + b) == hs + Hashes(a) + Hashes(b)
    ensures ns + Indexes(a + b) == ns + Indexes(a) + Indexes(b)
  {
  }

  lemma Regroup<T>(a: seq<T>, b: seq<T>, c: seq<T>, d: seq<T>)
    ensures a + b + c + d == a + (b + c + d)
    ensures a + [] == a && [] + c + d == c + d && a + c + d == a + (c + d) && c + [] == c
    ensures a + b + c == a + (b + c)
  {
  }

  class MerkleBlockTree {
    const H: PairHash
    var nTransactions: nat
    var vBits: seq<bool>
    var vHash: seq<Hash>
    var fBad: bool

    method CalcTreeWidth(height: nat) returns (w: nat)
      ensures w == Width(nTransactions, height)
    {
      WidthClosedForm(nTransactions, height);
      w := (nTransactions + Pow2(height) - 1) / Pow2(height);
    }

    method TreeHeight() returns (height: nat)
      ensures height == RootHeight(nTransactions, 0)
    {
      height := 0;
      var width := CalcTreeWidth(height);
      while width > 1
        invariant width == Width(nTransactions, height)
        invariant RootHeight(nTransactions, 0) == RootHeight(nTransactions, height)
        decreases Width(nTransactions, height)
      {
        WidthShrinks(nTransactions, height);
        height := height + 1;
        width := CalcTreeWidth(height);
      }
    }

    /** Build the partial tree of a block: the stored bits and hashes are its encoding. */
    constructor (hash: PairHash, vTxid: seq<Hash>, vMatch: seq<bool>)
      requires |vMatch| == |vTxid| > 0
      ensures H == hash && nTransactions == |vTxid| && !fBad
      ensures vBits == EncodeBlock(hash, vTxid, vMatch).bits
      ensures vHash == EncodeBlock(hash, vTxid, vMatch).hashes
    {
      H := hash;
      nTransactions := |vTxid|;
      vBits, vHash, fBad := [], [], false;
      new;
      Build(vTxid, vMatch);
    }

    method Build(vTxid: seq<Hash>, vMatch: seq<bool>)
      requires |vMatch| == |vTxid| == nTransactions > 0 && vBits == [] && vHash == []
      modifies this`vBits, this`vHash
      ensures vBits == EncodeBlock(H, vTxid, vMatch).bits && vHash == EncodeBlock(H, vTxid, vMatch).hashes
    {
      var height := TreeHeight();
      WholeTreeShape(|vTxid|);
      TraverseAndBuild(height, 0, vTxid, vMatch, WholeTree(|vTxid|));
    }

    // The tree as it is read from a stream.
    constructor Read(hash: PairHash, n: nat, bits: seq<bool>, hashes: seq<Hash>)
      ensures H == hash && nTransactions == n && vBits == bits && vHash == hashes && !fBad
    {
      H := hash;
      nTransactions, vBits, vHash, fBad := n, bits, hashes, false;
    }

    // Append the encoding of the node at (height, pos), which is the subtree `t`.
    method TraverseAndBuild(height: nat, pos: nat, vTxid: seq<Hash>, vMatch: seq<bool>, ghost t: Tree)
      requires |vMatch| == |vTxid| == nTransactions
      requires pos < Width(nTransactions, height)
      requires t == Shape(nTransactions, height, pos) && Fits(t, nTransactions)
      modifies this`vBits, this`vHash
      ensures vBits == old(vBits) + Encode(H, vTxid, vMatch, t).bits
      ensures vHash == old(vHash) + Encode(H, vTxid, vMatch, t).hashes
      decreases height
    {
      var fParentOfMatch := ParentOfMatch(height, pos, vMatch);
      vBits := vBits + [fParentOfMatch];
      if height == 0 || !fParentOfMatch {
        CalcHashIsHashOf(H, vTxid, height, pos);
        vHash := vHash + [CalcHash(H, vTxid, height, pos)];
      } else {
        ghost var l := if t.Single? then t.child else t.left;
        ghost var e := Encode(H, vTxid, vMatch, l);
        TraverseAndBuild(height - 1, pos * 2, vTxid, vMatch, l);
        var width := CalcTreeWidth(height - 1);
        if pos * 2 + 1 < width {
          ghost var f := Encode(H, vTxid, vMatch, t.right);
          TraverseAndBuild(height - 1, pos * 2 + 1, vTxid, vMatch, t.right);
          Regroup(old(vBits), [true], e.bits, f.bits);
          Regroup(old(vHash), [], e.hashes, f.hashes);
        } else {
          Regroup(old(vBits), [true], e.bits, []);
        }
      }
    }

    // The scan over the leaves below a node.
    method ParentOfMatch(height: nat, pos: nat, vMatch: seq<bool>) returns (found: bool)
      requires |vMatch| == nTransactions && pos < Width(nTransactions, height)
      ensures Fits(Shape(nTransactions, height, pos), nTransactions)
      ensures found <==> Selected(vMatch, Shape(nTransactions, height, pos))
    {
      ghost var t := Shape(nTransactions, height, pos);
      ShapeFits(nTransactions, height, pos);
      ShapeBalanced(nTransactions, height, pos);
      ShapeFirst(nTransactions, height, pos);
      ShapeLoopBound(nTransactions, height, pos);
      SelectedIff(vMatch, t, height);
      found := false;
      var p, end := pos * Pow2(height), (pos + 1) * Pow2(height);
      while p < end && p < nTransactions
        invariant First(t) <= p <= End(t)
        invariant found <==> exists q :: First(t) <= q < p && vMatch[q]
      {
        found := found || vMatch[p];
        p := p + 1;
      }
    }

    /** Decode the node at (height, pos), the subtree `t`, from the cursors on. */
    method TraverseAndExtract(height: nat, pos: nat, nBitsUsed: nat, nHashUsed: nat,
                              vMatch: seq<Hash>, vnIndex: seq<nat>, ghost t: Tree)
      returns (hash: Hash, bitsUsed: nat, hashUsed: nat, vMatch': seq<Hash>, vnIndex': seq<nat>)
      requires t == Shape(nTransactions, height, pos)
      modifies this`fBad
      ensures var w := Walk(H, vBits, vHash, t, nBitsUsed, nHashUsed);
              && hash == w.hash && bitsUsed == w.bitsUsed && hashUsed == w.hashUsed
              && vMatch' == vMatch + Hashes(w.found) && vnIndex' == vnIndex + Indexes(w.found)
              && fBad == (old(fBad) || w.bad)
      decreases height
    {
      bitsUsed, hashUsed, vMatch', vnIndex' := nBitsUsed, nHashUsed, vMatch, vnIndex;
      if bitsUsed >= |vBits| {
        fBad := true;
        return NULL_HASH, bitsUsed, hashUsed, vMatch', vnIndex';
      }
      var fParentOfMatch := vBits[bitsUsed];
      bitsUsed := bitsUsed + 1;
      if height == 0 || !fParentOfMatch {
        if hashUsed >= |vHash| {
          fBad := true;
          return NULL_HASH, bitsUsed, hashUsed, vMatch', vnIndex';
        }
        hash := vHash[hashUsed];
        hashUsed := hashUsed + 1;
        if height == 0 && fParentOfMatch {
          vMatch' := vMatch' + [hash];
          vnIndex' := vnIndex' + [pos];
        }
      } else {
        ghost var l := if t.Single? then t.child else t.left;
        ghost var v := Walk(H, vBits, vHash, l, nBitsUsed + 1, nHashUsed);
        var left, right;
        left, bitsUsed, hashUsed, vMatch', vnIndex' :=
          TraverseAndExtract(height - 1, pos * 2, bitsUsed, hashUsed, vMatch', vnIndex', l);
        var width := CalcTreeWidth(height - 1);
        if pos * 2 + 1 < width {
          ghost var w := Walk(H, vBits, vHash, t.right, v.bitsUsed, v.hashUsed);
          right, bitsUsed, hashUsed, vMatch', vnIndex' :=
            TraverseAndExtract(height - 1, pos * 2 + 1, bitsUsed, hashUsed, vMatch', vnIndex', t.right);
          if right == left { fBad := true; }
          ConcatFound(vMatch, vnIndex, v.found, w.found);
        } else {
          right := left;
        }
        hash := H(left, right);
      }
    }

    /**
     Extract the matches. The match list is reset first but the index list is not, so the two lists
     line up exactly when the caller passes an empty index list.
     */
    method ExtractMatches(vnIndex: seq<nat>) returns (root: Hash, vMatch: seq<Hash>, vnIndex': seq<nat>)
      modifies this`fBad
      ensures var x := Extract(H, nTransactions, vBits, vHash, old(fBad));
              && root == x.root && vMatch == Hashes(x.found) && vnIndex' == vnIndex + Indexes(x.found)
      ensures |vMatch| == |vnIndex'| <==> vnIndex == []
      ensures nTransactions == 0 || nTransactions > 16666 ==> root == NULL_HASH && vMatch == []
    {
      vMatch, vnIndex' := [], vnIndex;
      if nTransactions == 0 { return NULL_HASH, vMatch, vnIndex'; }
      if nTransactions > MAX_BLOCK_WEIGHT / MIN_TRANSACTION_WEIGHT { return NULL_HASH, vMatch, vnIndex'; }
      if |vHash| > nTransactions { return NULL_HASH, vMatch, vnIndex'; }
      if |vBits| < |vHash| { return NULL_HASH, vMatch, vnIndex'; }
      var height := TreeHeight();
      var bitsUsed, hashUsed;
      root, bitsUsed, hashUsed, vMatch,
        vnIndex' := TraverseAndExtract(height, 0, 0, 0, vMatch, vnIndex', WholeTree(nTransactions));
      if fBad { return NULL_HASH, vMatch, vnIndex'; }
      if (bitsUsed + 7) / 8 != (|vBits| + 7) / 8 { return NULL_HASH, vMatch, vnIndex'; }
      if hashUsed != |vHash| { return NULL_HASH, vMatch, vnIndex'; }
    }
  }

  // ---- Flag bits as bytes ----

  /** Eight flags to a byte, least significant first, the rest zero. */
  ghost predicate Packed(bits: seq<bool>, bytes: seq<bv8>) {
    && |bytes| == (|bits| + 7) / 8
    && forall p {:trigger bytes[p / 8]} :: 0 <= p < 8 * |bytes| ==>
       (BitOf(bytes[p / 8], p % 8) <==> p < |bits| && bits[p])
  }

  method PackBits(bits: seq<bool>) returns (bytes: array<bv8>)
    ensures fresh(bytes) && Packed(bits, bytes[..])
  {
    bytes := new bv8[(|bits| + 7) / 8](_ => 0);
    forall k | 0 <= k < 8 ensures !BitOf(0, k) { SetBit(0, 0, k); }
    for p := 0 to |bits|
      invariant forall q {:trigger bytes[q / 8]} :: 0 <= q < 8 * bytes.Length ==>
                  (BitOf(bytes[q / 8], q % 8) <==> q < p && bits[q])
    {
      if bits[p] {
        ghost var before := bytes[p / 8];
        bytes[p / 8] := bytes[p / 8] | BitMask(p % 8);
        forall k | 0 <= k < 8 ensures BitOf(bytes[p / 8], k) <==> k == p % 8 || BitOf(before, k) {
          SetBit(before, p % 8, k);
        }
      }
    }
  }

  method UnpackBits(bytes: seq<bv8>) returns (bits: seq<bool>)
    ensures |bits| == 8 * |bytes|
    ensures forall p :: 0 <= p < |bits| ==> bits[p] == BitOf(bytes[p / 8], p % 8)
  {
    bits := [];
    for p := 0 to 8 * |bytes|
      invariant |bits| == p
      invariant forall q :: 0 <= q < p ==> bits[q] == BitOf(bytes[q / 8], q % 8)
    {
      bits := bits + [BitOf(bytes[p / 8], p % 8)];
    }
  }

  /**
   Build, pack, unpack, extract: the receiver gets the block's root and exactly the selected
   transactions with their indexes.
   */
  method SendAndExtract(hash: PairHash, vTxid: seq<Hash>, vMatch: seq<bool>)
    returns (root: Hash, matches: seq<Hash>, indexes: seq<nat>)
    requires Injective(hash) && Distinct(vTxid)
    requires |vMatch| == |vTxid| && 0 < |vTxid| <= MAX_BLOCK_WEIGHT / MIN_TRANSACTION_WEIGHT
    ensures root == MerkleRoot(hash, vTxid)
    ensures matches == Hashes(MatchedUpTo(vTxid, vMatch, |vTxid|))
    ensures indexes == Indexes(MatchedUpTo(vTxid, vMatch, |vTxid|))
  {
    var sender := new MerkleBlockTree(hash, vTxid, vMatch);
    ghost var e := EncodeBlock(hash, vTxid, vMatch);
    var bytes := PackBits(sender.vBits);
    var bits := UnpackBits(bytes[..]);
    ghost var pad := seq(|bits| - |e.bits|, _ => false);
    assert bits == e.bits + pad by {
      forall p | 0 <= p < |bits| ensures bits[p] == (e.bits + pad)[p] {
        assert bits[p] == BitOf(bytes[..][p / 8], p % 8);
      }
    }
    var receiver := new MerkleBlockTree.Read(hash, sender.nTransactions, bits, sender.vHash);
    ExtractComplete(hash, vTxid, vMatch, bits);
    root, matches, indexes := receiver.ExtractMatches([]);
  }
}
