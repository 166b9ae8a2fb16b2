/**
 Compact blocks as defined by BIP 152 (src/blockencodings.h, src/blockencodings.cpp): which slots the
 prefilled transactions and the short ids of a message stand for, and differential index lists.
 */
module CompactSpec {
  import opened Options

  datatype Tx = Tx(hash: nat, isNull: bool)

  datatype Block = Block(header: nat, vtx: seq<Tx>)

  const U16 := 0x1_0000

  type Index = i: int | 0 <= i < U16

  /** What is left of a position in 16 bits. */
  function Wrap(p: nat): (r: nat)
    ensures r < U16 && (p < U16 ==> r == p)
  {
    p % U16
  }

  datatype Prefilled = Prefilled(index: Index, tx: Tx)

  datatype Compact = Compact(header: Option<nat>, nonce: nat, shorttxids: seq<nat>, prefilledtxn: seq<Prefilled>)
  {
    function BlockTxCount(): nat { |shorttxids| + |prefilledtxn| }
  }

  /** The keyed hash behind short ids, by header, nonce and transaction hash. */
  type ShortHash = (nat, nat, nat) -> nat

  /** The lower six bytes of the hash. */
  function GetShortID(h: ShortHash, header: nat, nonce: nat, txhash: nat): (id: nat)
    ensures id < 0x1_0000_0000_0000 && (h(header, nonce, txhash) - id) % 0x1_0000_0000_0000 == 0
  {
    h(header, nonce, txhash) % 0x1_0000_0000_0000
  }

  // ---- Free slots ----

  type Slots = seq<Option<Tx>>

  /** The empty slots among the first `n`, in order. */
  function FreeTo(a: Slots, n: nat): (ps: seq<nat>)
    requires n <= |a|
    ensures |ps| <= n
    ensures forall k :: 0 <= k < |ps| ==> ps[k] < n && a[ps[k]].None?
  {
    if n == 0 then [] else FreeTo(a, n - 1) + (if a[n - 1].None? then [n - 1] else [])
  }

  lemma {:induction false} FreeIncreasing(a: Slots, n: nat)
    requires n <= |a|
    ensures forall k, l :: 0 <= k < l < |FreeTo(a, n)| ==> FreeTo(a, n)[k] < FreeTo(a, n)[l]
  {
    if n > 0 { FreeIncreasing(a, n - 1); }
  }

  lemma {:induction false} FreeComplete(a: Slots, n: nat, p: nat)
    requires p < n <= |a| && a[p].None?
    ensures |FreeTo(a, p)| < |FreeTo(a, n)| && FreeTo(a, n)[|FreeTo(a, p)|] == p
  {
    if p < n - 1 { FreeComplete(a, n - 1, p); }
  }

  lemma {:induction false} FreeFilled(a: Slots, p: nat, tx: Tx, n: nat)
    requires p < |a| && n <= |a| && a[p].None?
    ensures |FreeTo(a[p := Some(tx)], n)| == |FreeTo(a, n)| - (if p < n then 1 else 0)
  {
    if n > 0 { FreeFilled(a, p, tx, n - 1); }
  }

  lemma {:induction false} FreeGrows(a: Slots, m: nat, n: nat)
    requires m <= n <= |a|
    ensures FreeTo(a, m) <= FreeTo(a, n)
  {
    if m < n { FreeGrows(a, m, n - 1); }
  }

  function NoTxs(n: nat): (a: Slots)
    ensures |a| == n && forall p :: 0 <= p < n ==> a[p].None?
  {
    seq(n, _ => None)
  }

  lemma {:induction false} AllFree(n: nat, k: nat)
    requires k <= n
    ensures |FreeTo(NoTxs(n), k)| == k
  {
    if k > 0 { AllFree(n, k - 1); }
  }

  // ---- Prefilled transactions ----

  /** The slot of the i-th prefilled transaction (counting from one): each index counts from the one before. */
  function Pos(c: Compact, i: nat): (p: int)
    requires i <= |c.prefilledtxn|
    ensures p >= i - 1
  {
    if i == 0 then -1 else Pos(c, i - 1) + c.prefilledtxn[i - 1].index + 1
  }

  /** A prefilled transaction is there, and all slots before its own can be accounted for. */
  predicate PrefilledFits(c: Compact, i: nat)
    requires i < |c.prefilledtxn|
  {
    !c.prefilledtxn[i].tx.isNull && Pos(c, i + 1) < U16 && Pos(c, i + 1) <= |c.shorttxids| + i
  }

  predicate PrefilledOk(c: Compact, n: nat)
    requires n <= |c.prefilledtxn|
  {
    forall i :: 0 <= i < n ==> PrefilledFits(c, i)
  }

  /** The slots with the first `n` prefilled transactions in place. */
  function Placed(c: Compact, n: nat): (a: Slots)
    requires n <= |c.prefilledtxn| && PrefilledOk(c, n)
    ensures |a| == c.BlockTxCount() && |FreeTo(a, |a|)| == |a| - n
    ensures forall p :: Pos(c, n) < p < |a| ==> a[p].None?
  {
    if n == 0 then AllFree(c.BlockTxCount(), c.BlockTxCount()); NoTxs(c.BlockTxCount())
    else
      var a := Placed(c, n - 1);
      assert PrefilledFits(c, n - 1);
      FreeFilled(a, Pos(c, n), c.prefilledtxn[n - 1].tx, |a|);
      a[Pos(c, n) := Some(c.prefilledtxn[n - 1].tx)]
  }

  /** Prefilled transactions end up in their own slots and nowhere else. */
  lemma {:induction false} PlacedExactly(c: Compact, n: nat, p: nat)
    requires n <= |c.prefilledtxn| && PrefilledOk(c, n) && p < c.BlockTxCount()
    ensures Placed(c, n)[p].Some? <==> exists i :: 1 <= i <= n && Pos(c, i) == p
    ensures forall i :: 1 <= i <= n && Pos(c, i) == p ==> Placed(c, n)[p] == Some(c.prefilledtxn[i - 1].tx)
  {
    if n > 0 {
      PlacedExactly(c, n - 1, p);
      assert PrefilledFits(c, n - 1);
      forall i | 1 <= i < n ensures Pos(c, i) < Pos(c, n) { PosIncreasing(c, i, n); }
      PlacedLast(c, n, p);
    }
  }

  lemma PlacedLast(c: Compact, n: nat, p: nat)
    requires 0 < n <= |c.prefilledtxn| && PrefilledOk(c, n) && p < c.BlockTxCount()
    ensures Placed(c, n)[p] == if p == Pos(c, n) then Some(c.prefilledtxn[n - 1].tx) else Placed(c, n - 1)[p]
  {
    assert PrefilledFits(c, n - 1);
    assert Placed(c, n) == Placed(c, n - 1)[Pos(c, n) := Some(c.prefilledtxn[n - 1].tx)];
  }

  lemma {:induction false} PosIncreasing(c: Compact, i: nat, j: nat)
    requires i < j <= |c.prefilledtxn|
    ensures Pos(c, i) < Pos(c, j)
  {
    if i < j - 1 { PosIncreasing(c, i, j - 1); }
  }

  // ---- What a compact block stands for ----

  /** Prefilled transactions and short ids are those of a block, the ids in the order of the other slots. */
  ghost predicate Describes(h: ShortHash, c: Compact, b: Block) {
    && c.header == Some(b.header) && |b.vtx| == c.BlockTxCount() && PrefilledOk(c, |c.prefilledtxn|)
    && (var a := Placed(c, |c.prefilledtxn|);
        && (forall p :: 0 <= p < |a| && a[p].Some? ==> a[p] == Some(b.vtx[p]))
        && (forall i :: 0 <= i < |c.shorttxids| ==>
            c.shorttxids[i] == GetShortID(h, b.header, c.nonce, b.vtx[FreeTo(a, |a|)[i]].hash)))
  }

  /** No transaction at hand has the short id of a different transaction of the block. */
  ghost predicate NoFalseMatch(h: ShortHash, c: Compact, b: Block, txs: set<Tx>)
    requires Describes(h, c, b)
  {
    var a := Placed(c, |c.prefilledtxn|);
    forall x, i ::
           x in txs && 0 <= i < |c.shorttxids| && GetShortID(h, b.header, c.nonce, x.hash) == c.shorttxids[i] ==>
      x == b.vtx[FreeTo(a, |a|)[i]]
  }

  // ---- Index lists ----

  predicate Increasing(ix: seq<Index>) { forall i :: 0 < i < |ix| ==> ix[i - 1] < ix[i] }

  /** The difference to the index before, less one. */
  function Difference(ix: seq<Index>, i: nat): int
    requires i < |ix|
  {
    if i == 0 then ix[0] else (ix[i] as int) - (ix[i - 1] as int) - 1
  }

  function EncodeIndexes(ix: seq<Index>): (ds: seq<Index>)
    requires Increasing(ix)
    ensures |ds| == |ix| && forall i :: 0 <= i < |ix| ==> ds[i] == Difference(ix, i)
  {
    seq(|ix|, i requires 0 <= i < |ix| => Difference(ix, i))
  }

  /** The next base: one after an index, in sixteen bits. */
  function NextOffset(i: Index): Index { ((i as int) + 1) % U16 }

  /** The base for the index after the ones so far. */
  function Offset(ix: seq<Index>): Index { if ix == [] then 0 else NextOffset(ix[|ix| - 1]) }

  /** Rebuild the first `n` indexes, if none overflows. */
  function DecodeTo(ds: seq<Index>, n: nat): (r: Option<seq<Index>>)
    requires n <= |ds|
    ensures r.Some? ==> |r.value| == n
  {
    if n == 0 then Some([]) else
      match DecodeTo(ds, n - 1)
      case None => None
      case Some(ix) =>
        var i := (ds[n - 1] as int) + (Offset(ix) as int);
        if i >= U16 then None else Some(ix + [i])
  }

  /** A list of increasing indexes survives the encoding. */
  lemma {:induction false} IndexesRoundTrip(ix: seq<Index>, n: nat)
    requires Increasing(ix) && n <= |ix|
    ensures DecodeTo(EncodeIndexes(ix), n) == Some(ix[..n])
  {
    if n > 0 {
      IndexesRoundTrip(ix, n - 1);
      assert ix[..n] == ix[..n - 1] + [ix[n - 1]];
    }
  }

  lemma IncreasingStep(was: seq<Index>, i: Index)
    ensures Increasing(was + [i]) <==> Increasing(was) && (was == [] || was[|was| - 1] < i)
  {
    var ix := was + [i];
    assert forall k :: 0 <= k < |was| ==> ix[k] == was[k];
    if Increasing(ix) {
      if was != [] { assert ix[|was| - 1] < ix[|was|]; }
      forall k | 0 < k < |was| ensures was[k - 1] < was[k] { assert ix[k - 1] < ix[k]; }
    }
  }

  // One more index.
  lemma DecodeStep(was: seq<Index>, d: Index, i: Index)
    requires (i as int) == (d as int) + (Offset(was) as int)
    ensures was == [] || (was[|was| - 1] < i <==> was[|was| - 1] != U16 - 1)
    ensures Increasing(was + [i]) ==> Increasing(was) && EncodeIndexes(was + [i]) == EncodeIndexes(was) + [d]
  {
    IncreasingStep(was, i);
    if Increasing(was + [i]) {
      var ix := was + [i];
      forall k | 0 <= k < |ix| ensures EncodeIndexes(ix)[k] == (EncodeIndexes(was) + [d])[k] {
        if k < |was| { assert Difference(ix, k) == Difference(was, k); }
      }
    }
  }

  function Sum(ds: seq<Index>, n: nat): (s: nat)
    requires n <= |ds|
  {
    if n == 0 then 0 else Sum(ds, n - 1) + ds[n - 1]
  }

  /** The last of the indexes the first `n` differences stand for, in unbounded numbers. */
  function LastIndex(ds: seq<Index>, n: nat): int
    requires n <= |ds|
  {
    Sum(ds, n) + n - 1
  }

  /**
   Differences are accepted and give increasing indexes just when the last index fits sixteen bits; and then
   they are the encoding of those indexes.
   */
  lemma {:induction false} DecodedIncreasing(ds: seq<Index>, n: nat)
    requires n <= |ds|
    ensures DecodeTo(ds, n).Some? && Increasing(DecodeTo(ds, n).value) <==> LastIndex(ds, n) < U16
    ensures LastIndex(ds, n) < U16 ==>
            EncodeIndexes(DecodeTo(ds, n).value) == ds[..n] &&
              (n > 0 ==> DecodeTo(ds, n).value[n - 1] == LastIndex(ds, n))
  {
    if n > 0 {
      DecodedIncreasing(ds, n - 1);
      if DecodeTo(ds, n).Some? {
        var was, ix := DecodeTo(ds, n - 1).value, DecodeTo(ds, n).value;
        var i := ix[n - 1];
        assert ix == was + [i];
        IncreasingStep(was, i);
        DecodeStep(was, ds[n - 1], i);
        assert ds[..n] == ds[..n - 1] + [ds[n - 1]];
      }
    }
  }

  /** Decoding accepts a list that goes back to the start after the largest index. */
  lemma WrappedIndexes(ds: seq<Index>)
    requires ds == [U16 - 1, 0]
    ensures DecodeTo(ds, 2) == Some(ds) && !Increasing(ds)
  {
    var one: seq<Index> := [U16 - 1];
    assert [] + one == one;
    assert DecodeTo(ds, 1) == Some([] + [ds[0]]);
    assert one + [0] == ds;
    assert ds[1 - 1] > ds[1];
  }
}
