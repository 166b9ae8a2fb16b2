/**
 Compact block relay (src/blockencodings.cpp, src/blockencodings.h): building a compact block, matching
 it against transactions at hand, requesting the rest, and putting the block together again.
 */
module CompactBlocks {
  import opened Options
  import opened CompactSpec

  // ---- Sender ----

  /** The coinbase in full, short ids for the rest. */
  method MakeCompact(h: ShortHash, block: Block, nonce: nat) returns (c: Compact)
    requires block.vtx != []
    ensures c.BlockTxCount() == |block.vtx|
    ensures !block.vtx[0].isNull ==> Describes(h, c, block)
  {
    var ids: seq<nat> := [];
    for i := 1 to |block.vtx|
      invariant |ids| == i - 1
      invariant forall k :: 0 <= k < i - 1 ==> ids[k] == GetShortID(h, block.header, nonce, block.vtx[k + 1].hash)
    {
      ids := ids + [GetShortID(h, block.header, nonce, block.vtx[i].hash)];
    }
    c := Compact(Some(block.header), nonce, ids, [Prefilled(0, block.vtx[0])]);
    if !block.vtx[0].isNull { CoinbaseOnly(c); }
  }

  /** With one prefilled transaction at index zero, the other slots follow in order. */
  lemma CoinbaseOnly(c: Compact)
    requires |c.prefilledtxn| == 1 && c.prefilledtxn[0].index == 0 && !c.prefilledtxn[0].tx.isNull
    ensures PrefilledOk(c, 1)
    ensures var a := Placed(c, 1);
            && a[0] == Some(c.prefilledtxn[0].tx) && (forall p :: 0 < p < |a| ==> a[p].None?)
            && FreeTo(a, |a|) == seq(|a| - 1, i => i + 1)
  {
    assert Pos(c, 1) == Pos(c, 0) + 1 == 0;
    assert PrefilledFits(c, 0);
    var a := Placed(c, 1);
    assert Placed(c, 0)[0 := Some(c.prefilledtxn[0].tx)] == a;
    FreeAfterFirst(a, |a|);
  }

  lemma {:induction false} FreeAfterFirst(a: Slots, n: nat)
    requires 1 <= n <= |a| && a[0].Some? && forall p :: 0 < p < |a| ==> a[p].None?
    ensures FreeTo(a, n) == seq(n - 1, i => i + 1)
  {
    if n > 1 {
      FreeAfterFirst(a, n - 1);
      assert FreeTo(a, n) == FreeTo(a, n - 1) + [n - 1];
    } else {
      assert FreeTo(a, 1) == FreeTo(a, 0) + [] == [];
    }
  }

  // ---- Index lists on the wire ----

  method WriteIndexes(ix: seq<Index>) returns (ds: seq<Index>)
    requires Increasing(ix)
    ensures ds == EncodeIndexes(ix)
  {
    ds := [];
    for i := 0 to |ix|
      invariant ds == EncodeIndexes(ix)[..i]
    {
      ds := ds + [(ix[i] as int) - (if i == 0 then 0 else (ix[i - 1] as int) + 1)];
    }
  }

  predicate Fits16(wire: seq<nat>) { forall i :: 0 <= i < |wire| ==> wire[i] < U16 }

  function AsIndexes(wire: seq<nat>): (ds: seq<Index>)
    requires Fits16(wire)
    ensures |ds| == |wire| && forall i :: 0 <= i < |wire| ==> ds[i] == wire[i]
  {
    seq(|wire|, i requires 0 <= i < |wire| => wire[i])
  }

  /** Read the announced number of differences in batches, then add them up; an overflow is an error. */
  method ReadIndexes(wire: seq<nat>) returns (r: Option<seq<Index>>)
    ensures r == if Fits16(wire) then DecodeTo(AsIndexes(wire), |wire|) else None
  {
    var ds: seq<Index> := [];
    while |ds| < |wire|
      invariant |ds| <= |wire| && forall k :: 0 <= k < |ds| ==> ds[k] == wire[k]
    {
      var batch := if 1000 + |ds| < |wire| then 1000 + |ds| else |wire|;
      while |ds| < batch
        invariant |ds| <= batch && forall k :: 0 <= k < |ds| ==> ds[k] == wire[k]
      {
        if wire[|ds|] >= U16 { return None; }
        ds := ds + [wire[|ds|]];
      }
    }
    assert Fits16(wire) && ds == AsIndexes(wire);
    var ix: seq<Index> := [];
    var offset: Index := 0;
    for j := 0 to |ds|
      invariant DecodeTo(ds, j) == Some(ix) && offset == Offset(ix)
    {
      var i := (ds[j] as int) + (offset as int);
      if i >= U16 {
        DecodeFails(ds, j + 1, |ds|);
        return None;
      }
      ix := ix + [i];
      offset := NextOffset(i);
    }
    return Some(ix);
  }

  lemma {:induction false} DecodeFails(ds: seq<Index>, j: nat, n: nat)
    requires j <= n <= |ds| && DecodeTo(ds, j).None?
    ensures DecodeTo(ds, n).None?
  {
    if j < n { DecodeFails(ds, j, n - 1); }
  }

  // ---- Receiver ----

  datatype ReadStatus = OK | INVALID | FAILED | CHECKBLOCK_FAILED

  /** The verdict of the block check that follows reconstruction. */
  datatype Check = Passed | PossiblyCorrupt | Bad

  const MAX_BLOCK_WEIGHT := 4_000_000
  const MIN_SERIALIZABLE_TRANSACTION_WEIGHT := 40

  /** Conditions under which a message is refused outright. */
  predicate Refused(c: Compact) {
    || c.header.None? || (c.shorttxids == [] && c.prefilledtxn == [])
    || c.BlockTxCount() > MAX_BLOCK_WEIGHT / MIN_SERIALIZABLE_TRANSACTION_WEIGHT
    || !PrefilledOk(c, |c.prefilledtxn|)
  }

  // Put prefilled transactions in place.
  method PlacePrefilled(c: Compact) returns (ok: bool, a: Slots)
    ensures ok <==> PrefilledOk(c, |c.prefilledtxn|)
    ensures ok ==> a == Placed(c, |c.prefilledtxn|)
  {
    a := NoTxs(c.BlockTxCount());
    var last := -1;
    for i := 0 to |c.prefilledtxn|
      invariant last == Pos(c, i) && PrefilledOk(c, i) && a == Placed(c, i)
    {
      assert Pos(c, i + 1) == last + c.prefilledtxn[i].index + 1;
      if c.prefilledtxn[i].tx.isNull {
        assert !PrefilledFits(c, i);
        return false, a;
      }
      last := last + c.prefilledtxn[i].index + 1;
      if last >= U16 || last > |c.shorttxids| + i {
        assert !PrefilledFits(c, i);
        return false, a;
      }
      assert PrefilledFits(c, i);
      a := a[last := Some(c.prefilledtxn[i].tx)];
    }
    ok := true;
  }

  /** Short ids are mapped to the empty slots in order; positions are kept in 16 bits. */
  ghost predicate Mapped(m: map<nat, nat>, c: Compact, a: Slots, n: nat)
    requires n <= |c.shorttxids| <= |FreeTo(a, |a|)|
  {
    && m.Keys == IdsTo(c.shorttxids, n)
    && (forall i :: 0 <= i < n ==> c.shorttxids[i] in m)
    && (Unclashing(c.shorttxids[..n]) ==> forall i :: 0 <= i < n ==> m[c.shorttxids[i]] == Wrap(FreeTo(a, |a|)[i]))
  }

  // The next empty slot; there is one for every short id. The 16-bit offset does not wrap if fewer slots are taken.
  method NextFree(a: Slots, i: nat, indexOffset: nat) returns (next: nat)
    requires |a| - |FreeTo(a, |a|)| < U16
    requires i < |FreeTo(a, |a|)| && Reached(a, i, indexOffset)
    ensures i + next < |a| && FreeTo(a, |a|)[i] == i + next && Reached(a, i + 1, next)
  {
    next := indexOffset;
    while a[i + next].Some?
      invariant i + next < |a| && Reached(a, i, next)
      decreases |a| - next
    {
      FreeRest(a, i + next + 1);
      next := Wrap(next + 1);
    }
    FreeComplete(a, |a|, i + next);
    assert i + 1 + next == i + next + 1;
  }

  lemma FreeRest(a: Slots, n: nat)
    requires n <= |a|
    ensures |FreeTo(a, |a|)| - |FreeTo(a, n)| <= |a| - n
  {
    FreeAtMost(a, n, |a|);
  }

  lemma {:induction false} FreeAtMost(a: Slots, m: nat, n: nat)
    requires m <= n <= |a|
    ensures |FreeTo(a, n)| - |FreeTo(a, m)| <= n - m
  {
    if m < n { FreeAtMost(a, m, n - 1); }
  }

  /** With all slots a 16-bit offset can reach taken, the search for the first empty slot would not end. */
  predicate Endless(c: Compact) { |c.prefilledtxn| == U16 && c.shorttxids != [] }

  lemma EndlessSearch(c: Compact, next: nat)
    requires PrefilledOk(c, |c.prefilledtxn|)
    ensures |c.prefilledtxn| <= U16
    ensures Endless(c) ==> Placed(c, |c.prefilledtxn|)[next % U16].Some?
  {
    if |c.prefilledtxn| > 0 { assert PrefilledFits(c, |c.prefilledtxn| - 1); }
    if Endless(c) {
      var p := next % U16;
      PosGap(c, p + 1, U16);
      PlacedExactly(c, U16, p);
    }
  }

  /** Otherwise it ends. */
  lemma SearchEnds(c: Compact)
    requires PrefilledOk(c, |c.prefilledtxn|) && !Endless(c) && c.shorttxids != []
    ensures exists p :: 0 <= p < c.BlockTxCount() && p < U16 && Placed(c, |c.prefilledtxn|)[p].None?
  {
    var a := Placed(c, |c.prefilledtxn|);
    EndlessSearch(c, 0);
    var n := if |a| < U16 then |a| else U16;
    FreeRest(a, n);
    assert a[FreeTo(a, n)[0]].None?;
  }

  // Whether the search for a first empty slot, with an offset of 16 bits, ever ends.
  method FindsFree(a: Slots) returns (ends: bool)
    ensures ends <==> exists p :: 0 <= p < |a| && p < U16 && a[p].None?
  {
    for p := 0 to |a|
      invariant p <= U16 && forall q :: 0 <= q < p ==> a[q].Some?
    {
      if p == U16 { return false; }
      if a[p].None? { return true; }
    }
    return false;
  }

  /** Such a message: 65536 prefilled transactions, one after the other, and a short id. */
  lemma EndlessMessage(c: Compact, x: Tx)
    requires c.prefilledtxn == seq(U16, _ => Prefilled(0, x)) && c.shorttxids == [0] && c.header.Some? && !x.isNull
    ensures !Refused(c) && Endless(c)
  {
    forall i | 0 <= i < U16 ensures PrefilledFits(c, i) { PosAt(c, i + 1); }
  }

  lemma {:induction false} PosAt(c: Compact, i: nat)
    requires i <= |c.prefilledtxn| && forall k :: 0 <= k < |c.prefilledtxn| ==> c.prefilledtxn[k].index == 0
    ensures Pos(c, i) == i - 1
  {
    if i > 0 { PosAt(c, i - 1); }
  }

  lemma {:induction false} PosGap(c: Compact, i: nat, j: nat)
    requires i <= j <= |c.prefilledtxn|
    ensures Pos(c, j) - Pos(c, i) >= j - i
  {
    if i < j { PosGap(c, i, j - 1); }
  }

  // Assign the next short id.
  method Assign(c: Compact, a: Slots, m: map<nat, nat>, i: nat, indexOffset: nat) returns (m': map<nat, nat>, next: nat)
    requires |FreeTo(a, |a|)| == |c.shorttxids| && |a| - |c.shorttxids| < U16 && i < |c.shorttxids| &&
             Mapped(m, c, a, i)
    requires Reached(a, i, indexOffset)
    ensures Mapped(m', c, a, i + 1) && Reached(a, i + 1, next)
  {
    next := NextFree(a, i, indexOffset);
    MappedStep(m, c, a, i);
    m' := m[c.shorttxids[i] := Wrap(i + next)];
  }

  /**
   Assign short ids to the empty slots in order. It fails if a hash bucket gets crowded or two ids are
   equal; `crowded` says at which ids the former happens.
   */
  method MapShortIds(c: Compact, a: Slots, crowded: int -> bool) returns (ok: bool, m: map<nat, nat>)
    requires |FreeTo(a, |a|)| == |c.shorttxids| && (c.shorttxids == [] || |a| - |c.shorttxids| < U16)
    ensures ok <==> Unclashing(c.shorttxids) && forall i :: 0 <= i < |c.shorttxids| ==> !crowded(i)
    ensures ok ==> Mapped(m, c, a, |c.shorttxids|)
  {
    m := map[];
    var indexOffset: nat := 0;
    for i := 0 to |c.shorttxids|
      invariant Reached(a, i, indexOffset) && Mapped(m, c, a, i)
      invariant forall k :: 0 <= k < i ==> !crowded(k)
    {
      m, indexOffset := Assign(c, a, m, i, indexOffset);
      if crowded(i) { return false, m; }
    }
    NoneLost(m, c, a);
    ok := |m.Keys| == |c.shorttxids|;
  }

  lemma NoneLost(m: map<nat, nat>, c: Compact, a: Slots)
    requires |c.shorttxids| <= |FreeTo(a, |a|)| && Mapped(m, c, a, |c.shorttxids|)
    ensures |m.Keys| == |c.shorttxids| <==> Unclashing(c.shorttxids)
  {
    AllDistinct(c.shorttxids);
  }

  // The slots up to the offset hold as many gaps as short ids were assigned.
  predicate Reached(a: Slots, i: nat, indexOffset: nat) { i + indexOffset <= |a| && |FreeTo(a, i + indexOffset)| == i }

  lemma MappedStep(m: map<nat, nat>, c: Compact, a: Slots, i: nat)
    requires i < |c.shorttxids| <= |FreeTo(a, |a|)| && Mapped(m, c, a, i)
    ensures Mapped(m[c.shorttxids[i] := Wrap(FreeTo(a, |a|)[i])], c, a, i + 1)
  {
    var m' := m[c.shorttxids[i] := Wrap(FreeTo(a, |a|)[i])];
    assert m'.Keys == IdsTo(c.shorttxids, i + 1);
    if Unclashing(c.shorttxids[..i + 1]) {
      UnclashingStep(c.shorttxids, i + 1);
      forall k | 0 <= k < i ensures m'[c.shorttxids[k]] == Wrap(FreeTo(a, |a|)[k]) {
        assert c.shorttxids[..i + 1][k] != c.shorttxids[..i + 1][i];
      }
    }
  }

  predicate Unclashing(ids: seq<nat>) { forall i, j :: 0 <= i < j < |ids| ==> ids[i] != ids[j] }

  ghost function IdsTo(ids: seq<nat>, n: nat): set<nat>
    requires n <= |ids|
  {
    if n == 0 then {} else IdsTo(ids, n - 1) + {ids[n - 1]}
  }

  lemma {:induction false} IdsIn(ids: seq<nat>, n: nat)
    requires n <= |ids|
    ensures forall x :: x in IdsTo(ids, n) <==> exists i :: 0 <= i < n && ids[i] == x
  {
    if n > 0 { IdsIn(ids, n - 1); }
  }

  /** As many different ids as ids means none twice. */
  lemma {:induction false} IdsDistinct(ids: seq<nat>, n: nat)
    requires n <= |ids|
    ensures |IdsTo(ids, n)| <= n
    ensures |IdsTo(ids, n)| == n <==> Unclashing(ids[..n])
  {
    if n > 0 {
      IdsDistinct(ids, n - 1);
      IdsIn(ids, n - 1);
      assert Unclashing(ids[..n]) <==> Unclashing(ids[..n - 1]) && ids[n - 1] !in IdsTo(ids, n - 1) by {
        UnclashingStep(ids, n);
      }
    }
  }

  lemma AllDistinct(ids: seq<nat>)
    ensures |IdsTo(ids, |ids|)| == |ids| <==> Unclashing(ids)
  {
    IdsDistinct(ids, |ids|);
    assert ids[..|ids|] == ids;
  }

  lemma UnclashingStep(ids: seq<nat>, n: nat)
    requires 0 < n <= |ids|
    ensures Unclashing(ids[..n]) <==> Unclashing(ids[..n - 1]) && ids[n - 1] !in IdsTo(ids, n - 1)
  {
    IdsIn(ids, n - 1);
    var s, t := ids[..n], ids[..n - 1];
    assert forall i :: 0 <= i < n - 1 ==> s[i] == t[i] == ids[i];
    if Unclashing(s) {
      assert forall i :: 0 <= i < n - 1 ==> s[i] != s[n - 1];
    }
  }
}
