/**
 Matching the short ids of a compact block against transactions at hand, requesting the others and
 filling the block (src/blockencodings.cpp).
 */
module CompactMatch {
  import opened Options
  import opened CompactSpec
  import opened CompactBlocks

  /** Slots, whether a transaction was found for each, and how many are held through a match. */
  datatype Matches = Matches(a: Slots, have: seq<bool>, count: nat)

  /** How many of the first slots hold a matched transaction. */
  function Held(a: Slots, have: seq<bool>, n: nat): (r: nat)
    requires n <= |a| == |have|
    ensures r <= n
  {
    if n == 0 then 0 else Held(a, have, n - 1) + (if have[n - 1] && a[n - 1].Some? then 1 else 0)
  }

  lemma {:induction false} HeldUpdate(a: Slots, have: seq<bool>, p: nat, x: Option<Tx>, n: nat)
    requires n <= |a| == |have| && p < |a|
    ensures Held(a[p := x], have[p := true], n) ==
            Held(a, have, n) +
              (if p < n then (if x.Some? then 1 else 0) - (if have[p] && a[p].Some? then 1 else 0) else 0)
  {
    if n > 0 { HeldUpdate(a, have, p, x, n - 1); }
  }

  /** A transaction has the short id of a slot. */
  predicate Hits(m: map<nat, nat>, sid: nat -> nat, x: Tx, p: nat) { sid(x.hash) in m && m[sid(x.hash)] == p }

  /** Two transactions that rule each other out: different ones, or two among the first `n`. */
  predicate Rivals(txs: seq<Tx>, n: nat, i: nat, j: nat)
    requires i < |txs| && j < |txs|
  {
    j < n || txs[i].hash != txs[j].hash
  }

  /** Two such transactions have the short id of a slot. */
  ghost predicate TwoHits(m: map<nat, nat>, sid: nat -> nat, txs: seq<Tx>, n: nat, p: nat) {
    exists i, j ::
      0 <= i < j < |txs| && Hits(m, sid, txs[i], p) && Hits(m, sid, txs[j], p) && Rivals(txs, n, i, j)
  }

  /** Slots keep their prefilled transactions; others hold at most a transaction with the slot's short id. */
  ghost predicate Sound(s: Matches, a0: Slots, m: map<nat, nat>, sid: nat -> nat, txs: seq<Tx>) {
    && |s.a| == |s.have| == |a0| && s.count == Held(s.a, s.have, |s.a|)
    && (forall p :: 0 <= p < |a0| && a0[p].Some? ==> s.a[p] == a0[p] && !s.have[p])
    && (forall p :: 0 <= p < |a0| && a0[p].None? && s.a[p].Some? ==>
        s.have[p] && s.a[p].value in txs && Hits(m, sid, s.a[p].value, p))
  }

  /** A slot hit by a transaction is held, unless two rivals hit it. */
  ghost predicate Thorough(s: Matches, m: map<nat, nat>, sid: nat -> nat, txs: seq<Tx>, n: nat) {
    && (forall x, p :: x in txs && 0 <= p < |s.have| && Hits(m, sid, x, p) ==> s.have[p])
    && (forall p :: 0 <= p < |s.have| && p < |s.a| && s.have[p] && s.a[p].None? ==> TwoHits(m, sid, txs, n, p))
  }

  /** A slot is held only if all transactions that hit it are the same. */
  ghost predicate Unrivalled(s: Matches, a0: Slots, m: map<nat, nat>, sid: nat -> nat, txs: seq<Tx>)
    requires |s.a| == |a0|
  {
    forall p, x :: 0 <= p < |a0| && a0[p].None? && s.a[p].Some? && x in txs && Hits(m, sid, x, p) ==>
      x.hash == s.a[p].value.hash
  }

  /** Some empty slot is hit by none of the transactions. */
  ghost predicate Unanswered(a0: Slots, m: map<nat, nat>, sid: nat -> nat, txs: seq<Tx>) {
    exists p :: 0 <= p < |a0| && a0[p].None? && forall x :: x in txs ==> !Hits(m, sid, x, p)
  }

  predicate IntoFree(m: map<nat, nat>, a0: Slots) {
    |m.Keys| == |FreeTo(a0, |a0|)| && forall id :: id in m ==> m[id] < |a0| && a0[m[id]].None?
  }

  /** Sizes and the count are right, and slots out of reach of 16-bit positions are left alone. */
  ghost predicate Kept(s: Matches, a0: Slots) {
    && |s.a| == |s.have| == |a0| && s.count == Held(s.a, s.have, |s.a|)
    && (forall p :: U16 <= p < |a0| ==> s.a[p] == a0[p])
  }

  predicate Low(m: map<nat, nat>, a0: Slots) { forall id :: id in m ==> m[id] < |a0| && m[id] < U16 }

  /**
   A transaction that hits a slot fills it; a second one empties it again, unless it is the same and that is allowed.
   */
  function Match(s: Matches, m: map<nat, nat>, id: nat, tx: Tx, sameAllowed: bool): (s': Matches)
    requires |s.a| == |s.have| && s.count == Held(s.a, s.have, |s.a|) && (id in m ==> m[id] < |s.a|)
    ensures |s'.a| == |s'.have| == |s.a| && s'.count == Held(s'.a, s'.have, |s'.a|)
  {
    if id !in m then s
    else
      var p := m[id];
      if !s.have[p] then
        HeldUpdate(s.a, s.have, p, Some(tx), |s.a|);
        Matches(s.a[p := Some(tx)], s.have[p := true], s.count + 1)
      else if s.a[p].Some? && !(sameAllowed && s.a[p].value.hash == tx.hash) then
        HeldUpdate(s.a, s.have, p, None, |s.a|);
        assert s.have[p := true] == s.have;
        Matches(s.a[p := None], s.have, s.count - 1)
      else s
  }

  lemma MatchSound(s: Matches, m: map<nat, nat>, tx: Tx, sameAllowed: bool, a0: Slots, sid: nat -> nat, txs: seq<Tx>)
    requires Sound(s, a0, m, sid, txs) && IntoFree(m, a0)
    ensures Sound(Match(s, m, sid(tx.hash), tx, sameAllowed), a0, m, sid, txs + [tx])
  {
  }

  lemma MatchThorough(s: Matches, m: map<nat, nat>, tx: Tx, sameAllowed: bool, a0: Slots, sid: nat -> nat, txs: seq<Tx>,
                      n: nat)
    requires Sound(s, a0, m, sid, txs) && Thorough(s, m, sid, txs, n) && IntoFree(m, a0) && (sameAllowed || |txs| < n)
    ensures Thorough(Match(s, m, sid(tx.hash), tx, sameAllowed), m, sid, txs + [tx], n)
  {
    var id := sid(tx.hash);
    if id in m && s.have[m[id]] && s.a[m[id]].Some? && !(sameAllowed && s.a[m[id]].value.hash == tx.hash) {
      SecondHit(m, sid, txs, n, s.a[m[id]].value, tx, m[id]);
    }
    HitsKept(m, sid, txs, n, tx);
  }

  lemma SecondHit(m: map<nat, nat>, sid: nat -> nat, txs: seq<Tx>, n: nat, x: Tx, tx: Tx, p: nat)
    requires x in txs && Hits(m, sid, x, p) && Hits(m, sid, tx, p) && (|txs| < n || x.hash != tx.hash)
    ensures TwoHits(m, sid, txs + [tx], n, p)
  {
    var i :| 0 <= i < |txs| && txs[i] == x;
    assert (txs + [tx])[i] == x && (txs + [tx])[|txs|] == tx && Rivals(txs + [tx], n, i, |txs|);
  }

  lemma HitsKept(m: map<nat, nat>, sid: nat -> nat, txs: seq<Tx>, n: nat, tx: Tx)
    ensures forall p :: TwoHits(m, sid, txs, n, p) ==> TwoHits(m, sid, txs + [tx], n, p)
  {
    forall p | TwoHits(m, sid, txs, n, p) ensures TwoHits(m, sid, txs + [tx], n, p) {
      var i, j :|
        0 <= i < j < |txs| && Hits(m, sid, txs[i], p) && Hits(m, sid, txs[j], p) && Rivals(txs, n, i, j);
      assert (txs + [tx])[i] == txs[i] && (txs + [tx])[j] == txs[j] && Rivals(txs + [tx], n, i, j);
    }
  }

  lemma MatchUnrivalled(s: Matches, m: map<nat, nat>, tx: Tx, sameAllowed: bool, a0: Slots, sid: nat -> nat,
                        txs: seq<Tx>, n: nat)
    requires Sound(s, a0, m, sid, txs) && Thorough(s, m, sid, txs, n) && IntoFree(m, a0)
    requires Unrivalled(s, a0, m, sid, txs)
    ensures Unrivalled(Match(s, m, sid(tx.hash), tx, sameAllowed), a0, m, sid, txs + [tx])
  {
    var s' := Match(s, m, sid(tx.hash), tx, sameAllowed);
    forall p, x | 0 <= p < |a0| && a0[p].None? && s'.a[p].Some? && x in txs + [tx] && Hits(m, sid, x, p)
      ensures x.hash == s'.a[p].value.hash
    {
      if x in txs { assert s.have[p]; }
    }
  }

  /** Look through transactions until as many are held as there are short ids. */
  method MatchAll(s: Matches, m: map<nat, nat>, sid: nat -> nat, txs: seq<Tx>, sameAllowed: bool,
                  ghost a0: Slots, ghost before: seq<Tx>, ghost n: nat) returns (s': Matches)
    requires Kept(s, a0) && Low(m, a0) && (IntoFree(m, a0) ==> Matched(s, a0, m, sid, before, before + txs, n))
    requires sameAllowed || |before + txs| <= n
    ensures Kept(s', a0) && (IntoFree(m, a0) ==> Matched(s', a0, m, sid, before + txs, before + txs, n))
  {
    s' := s;
    assert before + txs[..0] == before;
    for i := 0 to |txs|
      invariant Kept(s', a0) && (IntoFree(m, a0) ==> Matched(s', a0, m, sid, before + txs[..i], before + txs, n))
    {
      assert before + txs[..i + 1] == before + txs[..i] + [txs[i]];
      if IntoFree(m, a0) { MatchNext(s', m, txs[i], sameAllowed, a0, sid, before + txs[..i], before + txs, n); }
      s' := Match(s', m, sid(txs[i].hash), txs[i], sameAllowed);
      if s'.count == |m.Keys| {
        if IntoFree(m, a0) { NothingLeft(s', a0, m, sid, before + txs[..i + 1], before + txs, n); }
        return;
      }
    }
    assert txs[..|txs|] == txs;
  }

  /** What was matched so far of `all`: the last only as long as the search cannot stop early. */
  ghost predicate Matched(s: Matches, a0: Slots, m: map<nat, nat>, sid: nat -> nat, txs: seq<Tx>, all: seq<Tx>,
                          n: nat) {
    && Sound(s, a0, m, sid, txs) && Thorough(s, m, sid, txs, n)
    && (Unanswered(a0, m, sid, all) ==> Unrivalled(s, a0, m, sid, txs))
  }

  lemma MatchNext(s: Matches, m: map<nat, nat>, tx: Tx, sameAllowed: bool, a0: Slots, sid: nat -> nat, txs: seq<Tx>,
                  all: seq<Tx>, n: nat)
    requires Matched(s, a0, m, sid, txs, all, n) && IntoFree(m, a0) && (sameAllowed || |txs| < n)
    ensures Matched(Match(s, m, sid(tx.hash), tx, sameAllowed), a0, m, sid, txs + [tx], all, n)
  {
    MatchSound(s, m, tx, sameAllowed, a0, sid, txs);
    MatchThorough(s, m, tx, sameAllowed, a0, sid, txs, n);
    if Unanswered(a0, m, sid, all) { MatchUnrivalled(s, m, tx, sameAllowed, a0, sid, txs, n); }
  }

  lemma {:induction false} HeldAtMost(s: Matches, a0: Slots, m: map<nat, nat>, sid: nat -> nat, txs: seq<Tx>, n: nat)
    requires Sound(s, a0, m, sid, txs) && n <= |a0|
    ensures Held(s.a, s.have, n) <= |FreeTo(a0, n)|
    ensures Held(s.a, s.have, n) == |FreeTo(a0, n)| ==> forall p :: 0 <= p < n && a0[p].None? ==> s.a[p].Some?
  {
    if n > 0 { HeldAtMost(s, a0, m, sid, txs, n - 1); }
  }

  /** With as many matches as short ids, no other transaction can change anything. */
  lemma NothingLeft(s: Matches, a0: Slots, m: map<nat, nat>, sid: nat -> nat, txs: seq<Tx>, txs': seq<Tx>, n: nat)
    requires Sound(s, a0, m, sid, txs) && IntoFree(m, a0) && s.count == |m.Keys| && forall x :: x in txs ==> x in txs'
    ensures Sound(s, a0, m, sid, txs') && Thorough(s, m, sid, txs', n) && !Unanswered(a0, m, sid, txs')
  {
    HeldAtMost(s, a0, m, sid, txs, |a0|);
    assert forall p :: 0 <= p < |a0| && s.have[p] ==> a0[p].None?;
    forall p | 0 <= p < |a0| && a0[p].None? ensures exists x :: x in txs' && Hits(m, sid, x, p) {
      assert s.a[p].value in txs' && Hits(m, sid, s.a[p].value, p);
    }
  }

  // ---- What a matched compact block says of the block ----

  /** Every transaction in place is the block's. */
  predicate Agrees(a: Slots, vtx: seq<Tx>) {
    |a| == |vtx| && forall p :: 0 <= p < |a| && a[p].Some? ==> a[p] == Some(vtx[p])
  }

  function Sid(h: ShortHash, header: nat, nonce: nat): nat -> nat { (x: nat) => GetShortID(h, header, nonce, x) }

  // The slot of a short id.
  function SlotOf(c: Compact, i: nat): (p: nat)
    requires PrefilledOk(c, |c.prefilledtxn|) && i < |c.shorttxids|
    ensures p < c.BlockTxCount()
  {
    var a := Placed(c, |c.prefilledtxn|);
    FreeTo(a, |a|)[i]
  }

  lemma MappedIntoFree(m: map<nat, nat>, c: Compact)
    requires PrefilledOk(c, |c.prefilledtxn|) && Unclashing(c.shorttxids)
    requires Mapped(m, c, Placed(c, |c.prefilledtxn|), |c.shorttxids|) && c.BlockTxCount() <= U16
    ensures IntoFree(m, Placed(c, |c.prefilledtxn|))
    ensures forall id :: id in m ==> exists i ::
            0 <= i < |c.shorttxids| && id == c.shorttxids[i] && m[id] == SlotOf(c, i)
  {
    AllDistinct(c.shorttxids);
    IdsIn(c.shorttxids, |c.shorttxids|);
    assert c.shorttxids[..|c.shorttxids|] == c.shorttxids;
  }

  lemma HitIsTheTx(h: ShortHash, c: Compact, b: Block, m: map<nat, nat>, txs: seq<Tx>, x: Tx, p: nat)
    requires Describes(h, c, b) && NoFalseMatch(h, c, b, set x | x in txs) && Unclashing(c.shorttxids)
    requires Mapped(m, c, Placed(c, |c.prefilledtxn|), |c.shorttxids|) && c.BlockTxCount() <= U16
    requires x in txs && Hits(m, Sid(h, b.header, c.nonce), x, p)
    ensures p < |b.vtx| && x == b.vtx[p]
  {
    MappedIntoFree(m, c);
    var id := GetShortID(h, b.header, c.nonce, x.hash);
    var i :| 0 <= i < |c.shorttxids| && id == c.shorttxids[i] && m[id] == SlotOf(c, i);
  }

  lemma MatchesAgree(h: ShortHash, c: Compact, b: Block, m: map<nat, nat>, s: Matches, txs: seq<Tx>)
    requires Describes(h, c, b) && NoFalseMatch(h, c, b, set x | x in txs) && Unclashing(c.shorttxids)
    requires Mapped(m, c, Placed(c, |c.prefilledtxn|), |c.shorttxids|) && c.BlockTxCount() <= U16
    requires Sound(s, Placed(c, |c.prefilledtxn|), m, Sid(h, b.header, c.nonce), txs)
    ensures Agrees(s.a, b.vtx)
  {
    var a0 := Placed(c, |c.prefilledtxn|);
    forall p | 0 <= p < |s.a| && s.a[p].Some? ensures s.a[p] == Some(b.vtx[p]) {
      if a0[p].None? { HitIsTheTx(h, c, b, m, txs, s.a[p].value, p); }
    }
  }

  /** Two transactions that rule each other out have a short id. */
  ghost predicate MatchedTwice(h: ShortHash, header: nat, nonce: nat, txs: seq<Tx>, n: nat, id: nat) {
    exists i, j ::
      0 <= i < j < |txs| && GetShortID(h, header, nonce, txs[i].hash) == id &&
        GetShortID(h, header, nonce, txs[j].hash) == id && Rivals(txs, n, i, j)
  }

  /** A slot is left empty only if no transaction at hand has its short id, or two rivals have. */
  lemma EmptyForReason(h: ShortHash, c: Compact, header: nat, m: map<nat, nat>, s: Matches, txs: seq<Tx>, n: nat,
                       i: nat,
                       x: Tx)
    requires PrefilledOk(c, |c.prefilledtxn|) && Unclashing(c.shorttxids) && i < |c.shorttxids| && x in txs
    requires Mapped(m, c, Placed(c, |c.prefilledtxn|), |c.shorttxids|) && |s.a| == |s.have| == c.BlockTxCount() <= U16
    requires Thorough(s, m, Sid(h, header, c.nonce), txs, n)
    requires s.a[SlotOf(c, i)].None? && GetShortID(h, header, c.nonce, x.hash) == c.shorttxids[i]
    ensures MatchedTwice(h, header, c.nonce, txs, n, c.shorttxids[i])
  {
    MappedIntoFree(m, c);
    assert c.shorttxids[..|c.shorttxids|] == c.shorttxids;
    var sid, p := Sid(h, header, c.nonce), SlotOf(c, i);
    assert m[c.shorttxids[i]] == p;
    assert Hits(m, sid, x, p);
    var k, l :| 0 <= k < l < |txs| && Hits(m, sid, txs[k], p) && Hits(m, sid, txs[l], p) && Rivals(txs, n, k, l);
    OneIdPerSlot(c, m, sid(txs[k].hash), i);
    OneIdPerSlot(c, m, sid(txs[l].hash), i);
  }

  lemma OneIdPerSlot(c: Compact, m: map<nat, nat>, id: nat, i: nat)
    requires PrefilledOk(c, |c.prefilledtxn|) && Unclashing(c.shorttxids) && i < |c.shorttxids| &&
             c.BlockTxCount() <= U16
    requires Mapped(m, c, Placed(c, |c.prefilledtxn|), |c.shorttxids|) && id in m && m[id] == SlotOf(c, i)
    ensures id == c.shorttxids[i]
  {
    MappedIntoFree(m, c);
    var k :| 0 <= k < |c.shorttxids| && id == c.shorttxids[k] && m[id] == SlotOf(c, k);
    SlotsApart(c, i, k);
  }

  lemma SlotsApart(c: Compact, i: nat, k: nat)
    requires PrefilledOk(c, |c.prefilledtxn|) && i < |c.shorttxids| && k < |c.shorttxids| &&
             SlotOf(c, i) == SlotOf(c, k)
    ensures i == k
  {
    FreeIncreasing(Placed(c, |c.prefilledtxn|), c.BlockTxCount());
  }

  // ---- The partially downloaded block ----

  predicate HasId(h: ShortHash, c: Compact, x: Tx, i: nat)
    requires c.header.Some? && i < |c.shorttxids|
  {
    GetShortID(h, c.header.value, c.nonce, x.hash) == c.shorttxids[i]
  }

  /**
   What a successful start guarantees: agreement with any block described, no needless gaps, no null
   transactions but those at hand, and no choice between two transactions with the same short id, as
   long as some short id is nobody's and so the search does not stop early.
   */
  ghost predicate Initialized(a: Slots, h: ShortHash, c: Compact, txs: seq<Tx>, n: nat) {
    && c.header.Some? && PrefilledOk(c, |c.prefilledtxn|) && |a| == c.BlockTxCount()
    && (forall b :: Describes(h, c, b) && NoFalseMatch(h, c, b, set x | x in txs) ==> Agrees(a, b.vtx))
    && (forall i, x :: 0 <= i < |c.shorttxids| && x in txs && HasId(h, c, x, i) && a[SlotOf(c, i)].None? ==>
        MatchedTwice(h, c.header.value, c.nonce, txs, n, c.shorttxids[i]))
    && (forall p :: 0 <= p < |a| && a[p].Some? ==> !a[p].value.isNull || a[p].value in txs)
    && (SomeUnknown(h, c, txs) ==> NoChoice(a, h, c, txs))
  }

  /** Some short id is that of no transaction at hand. */
  ghost predicate SomeUnknown(h: ShortHash, c: Compact, txs: seq<Tx>)
    requires c.header.Some?
  {
    exists i :: 0 <= i < |c.shorttxids| && Unknown(h, c, txs, i)
  }

  ghost predicate Unknown(h: ShortHash, c: Compact, txs: seq<Tx>, i: nat)
    requires c.header.Some? && i < |c.shorttxids|
  {
    forall x :: x in txs ==> !HasId(h, c, x, i)
  }

  /** A slot is filled only if all transactions at hand with its short id are the same. */
  ghost predicate NoChoice(a: Slots, h: ShortHash, c: Compact, txs: seq<Tx>)
    requires c.header.Some? && PrefilledOk(c, |c.prefilledtxn|) && |a| == c.BlockTxCount()
  {
    forall i, x :: 0 <= i < |c.shorttxids| && x in txs && HasId(h, c, x, i) && a[SlotOf(c, i)].Some? ==>
      x.hash == a[SlotOf(c, i)].value.hash
  }

  lemma NoChoiceMade(h: ShortHash, c: Compact, m: map<nat, nat>, s: Matches, txs: seq<Tx>)
    requires c.header.Some? && PrefilledOk(c, |c.prefilledtxn|) && Unclashing(c.shorttxids) && c.BlockTxCount() <= U16
    requires Mapped(m, c, Placed(c, |c.prefilledtxn|), |c.shorttxids|) && |s.a| == c.BlockTxCount()
    requires Unrivalled(s, Placed(c, |c.prefilledtxn|), m, Sid(h, c.header.value, c.nonce), txs)
    ensures NoChoice(s.a, h, c, txs)
  {
    assert c.shorttxids[..|c.shorttxids|] == c.shorttxids;
    forall i, x | 0 <= i < |c.shorttxids| && x in txs && HasId(h, c, x, i) && s.a[SlotOf(c, i)].Some?
      ensures x.hash == s.a[SlotOf(c, i)].value.hash
    {
      assert m[c.shorttxids[i]] == SlotOf(c, i);
      assert Hits(m, Sid(h, c.header.value, c.nonce), x, SlotOf(c, i));
    }
  }

  lemma UnknownUnanswered(h: ShortHash, c: Compact, m: map<nat, nat>, txs: seq<Tx>)
    requires c.header.Some? && PrefilledOk(c, |c.prefilledtxn|) && Unclashing(c.shorttxids) && c.BlockTxCount() <= U16
    requires Mapped(m, c, Placed(c, |c.prefilledtxn|), |c.shorttxids|) && SomeUnknown(h, c, txs)
    ensures Unanswered(Placed(c, |c.prefilledtxn|), m, Sid(h, c.header.value, c.nonce), txs)
  {
    var i :| 0 <= i < |c.shorttxids| && Unknown(h, c, txs, i);
    var sid, p := Sid(h, c.header.value, c.nonce), SlotOf(c, i);
    forall x | x in txs ensures !Hits(m, sid, x, p) {
      if Hits(m, sid, x, p) { OneIdPerSlot(c, m, sid(x.hash), i); }
    }
  }

  lemma MatchesInitialized(h: ShortHash, c: Compact, m: map<nat, nat>, s: Matches, txs: seq<Tx>, n: nat)
    requires c.header.Some? && PrefilledOk(c, |c.prefilledtxn|) && Unclashing(c.shorttxids) && c.BlockTxCount() <= U16
    requires Mapped(m, c, Placed(c, |c.prefilledtxn|), |c.shorttxids|)
    requires Matched(s, Placed(c, |c.prefilledtxn|), m, Sid(h, c.header.value, c.nonce), txs, txs, n)
    ensures Initialized(s.a, h, c, txs, n)
  {
    if SomeUnknown(h, c, txs) {
      UnknownUnanswered(h, c, m, txs);
      NoChoiceMade(h, c, m, s, txs);
    }
    forall p | 0 <= p < |s.a| && s.a[p].Some? ensures !s.a[p].value.isNull || s.a[p].value in txs {
      if Placed(c, |c.prefilledtxn|)[p].Some? { PlacedNotNull(c, |c.prefilledtxn|, p); }
    }
    forall b | Describes(h, c, b) && NoFalseMatch(h, c, b, set x | x in txs) ensures Agrees(s.a, b.vtx) {
      MatchesAgree(h, c, b, m, s, txs);
    }
    forall i, x | 0 <= i < |c.shorttxids| && x in txs && HasId(h, c, x, i) && s.a[SlotOf(c, i)].None?
      ensures MatchedTwice(h, c.header.value, c.nonce, txs, n, c.shorttxids[i])
    {
      EmptyForReason(h, c, c.header.value, m, s, txs, n, i, x);
    }
  }

  /**
   Short ids of slots beyond 16-bit positions never get their transactions: a message with more slots
   leaves a gap for which there is a transaction at hand.
   */
  lemma TooWide(a: Slots, h: ShortHash, c: Compact, x: Tx) returns (i: nat)
    requires c.header.Some? && PrefilledOk(c, |c.prefilledtxn|) && |a| == c.BlockTxCount() > U16
    requires forall p :: U16 <= p < |a| ==> a[p].None?
    ensures i < |c.shorttxids| && SlotOf(c, i) == U16
    ensures HasId(h, c, x, i) ==> !Initialized(a, h, c, [x], 1)
  {
    var a0 := Placed(c, |c.prefilledtxn|);
    HighSlotsFree(c);
    FreeComplete(a0, |a0|, U16);
    i :| 0 <= i < |FreeTo(a0, |a0|)| && FreeTo(a0, |a0|)[i] == U16;
    assert x in [x];
  }

  lemma PlacedNotNull(c: Compact, n: nat, p: nat)
    requires n <= |c.prefilledtxn| && PrefilledOk(c, n) && p < c.BlockTxCount() && Placed(c, n)[p].Some?
    ensures !Placed(c, n)[p].value.isNull
  {
    PlacedExactly(c, n, p);
    var i :| 1 <= i <= n && Pos(c, i) == p;
    assert PrefilledFits(c, i - 1);
  }

  lemma HighSlotsFree(c: Compact)
    requires PrefilledOk(c, |c.prefilledtxn|)
    ensures forall p :: U16 <= p < c.BlockTxCount() ==> Placed(c, |c.prefilledtxn|)[p].None?
  {
    if |c.prefilledtxn| > 0 { assert PrefilledFits(c, |c.prefilledtxn| - 1); }
  }

  lemma MappedLow(m: map<nat, nat>, c: Compact)
    requires PrefilledOk(c, |c.prefilledtxn|) && Unclashing(c.shorttxids)
    requires Mapped(m, c, Placed(c, |c.prefilledtxn|), |c.shorttxids|)
    ensures Low(m, Placed(c, |c.prefilledtxn|))
  {
    IdsIn(c.shorttxids, |c.shorttxids|);
    assert c.shorttxids[..|c.shorttxids|] == c.shorttxids;
  }

  // Match the mempool, then the extra transactions.
  method MatchBoth(h: ShortHash, c: Compact, a0: Slots, m: map<nat, nat>, pool: seq<Tx>, extra: seq<Tx>)
    returns (s: Matches)
    requires c.header.Some? && PrefilledOk(c, |c.prefilledtxn|) && Unclashing(c.shorttxids)
    requires a0 == Placed(c, |c.prefilledtxn|) && Mapped(m, c, a0, |c.shorttxids|)
    ensures Kept(s, a0) && (c.BlockTxCount() <= U16 ==> Initialized(s.a, h, c, pool + extra, |pool|))
  {
    var sid := Sid(h, c.header.value, c.nonce);
    MappedLow(m, c);
    s := Start(a0, m, sid, pool);
    assert [] + pool == pool;
    s := MatchAll(s, m, sid, pool, false, a0, [], |pool|);
    if IntoFree(m, a0) { StillMatched(s, a0, m, sid, pool, extra, |pool|); }
    s := MatchAll(s, m, sid, extra, true, a0, pool, |pool|);
    if c.BlockTxCount() <= U16 {
      MappedIntoFree(m, c);
      MatchesInitialized(h, c, m, s, pool + extra, |pool|);
    }
  }

  // With more transactions to come, a slot nobody hits is one nobody hit before.
  lemma StillMatched(s: Matches, a0: Slots, m: map<nat, nat>, sid: nat -> nat, txs: seq<Tx>, more: seq<Tx>, n: nat)
    requires Matched(s, a0, m, sid, txs, txs, n)
    ensures Matched(s, a0, m, sid, txs, txs + more, n)
  {
    if Unanswered(a0, m, sid, txs + more) {
      var p :| 0 <= p < |a0| && a0[p].None? && forall x :: x in txs + more ==> !Hits(m, sid, x, p);
      assert forall x :: x in txs ==> x in txs + more;
    }
  }

  method Start(a0: Slots, m: map<nat, nat>, ghost sid: nat -> nat, ghost all: seq<Tx>) returns (s: Matches)
    ensures Kept(s, a0) && Matched(s, a0, m, sid, [], all, |all|)
  {
    s := Matches(a0, seq(|a0|, _ => false), 0);
    NothingHeld(s.a, s.have, |a0|);
  }

  lemma {:induction false} NothingHeld(a: Slots, have: seq<bool>, n: nat)
    requires n <= |a| == |have| && forall p :: 0 <= p < |have| ==> !have[p]
    ensures Held(a, have, n) == 0
  {
    if n > 0 { NothingHeld(a, have, n - 1); }
  }

  /** Available transactions in their slots, the missing ones in the gaps, in order. */
  ghost predicate CompletedTo(vtx: seq<Tx>, a: Slots, missing: seq<Tx>, n: nat)
    requires n <= |a|
  {
    && |vtx| == n && |FreeTo(a, n)| <= |missing|
    && (forall p :: 0 <= p < n && a[p].Some? ==> vtx[p] == a[p].value)
    && (forall k :: 0 <= k < |FreeTo(a, n)| ==> vtx[FreeTo(a, n)[k]] == missing[k])
  }

  // Merge available and missing transactions, unless the latter run out.
  method Fill(a: Slots, missing: seq<Tx>) returns (enough: bool, used: nat, vtx: seq<Tx>)
    ensures enough <==> |missing| >= |FreeTo(a, |a|)|
    ensures enough ==> used == |FreeTo(a, |a|)| && CompletedTo(vtx, a, missing, |a|)
  {
    vtx, used := [], 0;
    for i := 0 to |a|
      invariant used == |FreeTo(a, i)| && CompletedTo(vtx, a, missing, i)
    {
      if a[i].None? {
        if |missing| <= used {
          FreeGrows(a, i + 1, |a|);
          return false, used, vtx;
        }
        vtx := vtx + [missing[used]];
        used := used + 1;
      } else {
        vtx := vtx + [a[i].value];
      }
    }
    enough := true;
  }

  /** An agreeing block, completed with its own transactions in the gaps, is the block. */
  lemma CompletedIsBlock(vtx: seq<Tx>, a: Slots, missing: seq<Tx>, b: Block)
    requires Agrees(a, b.vtx) && CompletedTo(vtx, a, missing, |a|)
    requires forall k :: 0 <= k < |FreeTo(a, |a|)| ==> missing[k] == b.vtx[FreeTo(a, |a|)[k]]
    ensures vtx == b.vtx
  {
    forall p | 0 <= p < |a| ensures vtx[p] == b.vtx[p] {
      if a[p].None? { FreeComplete(a, |a|, p); }
    }
  }

  // Whether the search for slots of short ids ends.
  method Ends(c: Compact, placed: Slots) returns (ends: bool)
    requires PrefilledOk(c, |c.prefilledtxn|) && placed == Placed(c, |c.prefilledtxn|)
    ensures ends <==> !Endless(c)
    ensures ends ==> c.shorttxids == [] || |c.prefilledtxn| < U16
  {
    EndlessSearch(c, 0);
    if c.shorttxids == [] { return true; }
    ends := FindsFree(placed);
    if Endless(c) {
      forall p | 0 <= p < |placed| && p < U16 ensures placed[p].Some? { EndlessSearch(c, p); }
    } else {
      SearchEnds(c);
    }
  }

  class PartialBlock {
    var header: Option<nat>
    var txnAvailable: Slots

    constructor ()
      ensures header == None && txnAvailable == []
    {
      header, txnAvailable := None, [];
    }

    /** Start from a compact block and the transactions at hand. There is no result if it never returns. */
    method InitData(h: ShortHash, c: Compact, pool: seq<Tx>, extra: seq<Tx>, crowded: int -> bool)
      returns (status: Option<ReadStatus>)
      requires header == None && txnAvailable == []
      modifies this
      ensures status == None <==> !Refused(c) && Endless(c)
      ensures status == Some(INVALID) <==> Refused(c)
      ensures status == Some(FAILED) <==>
              !Refused(c) && !Endless(c) &&
                !(Unclashing(c.shorttxids) && forall i :: 0 <= i < |c.shorttxids| ==> !crowded(i))
      ensures status == Some(OK) <==> status != None && status != Some(INVALID) && status != Some(FAILED)
      ensures status == Some(OK) ==> header == c.header && |txnAvailable| == c.BlockTxCount()
      ensures status == Some(OK) && c.BlockTxCount() <= U16 ==>
              Initialized(txnAvailable, h, c, pool + extra, |pool|)
      ensures c.header.None? || c.BlockTxCount() == 0 || c.BlockTxCount() > 100000 ==> status == Some(INVALID)
      ensures status == Some(OK) ==> forall p :: U16 <= p < |txnAvailable| ==> txnAvailable[p].None?
    {
      if c.header.None? || (c.shorttxids == [] && c.prefilledtxn == []) { return Some(INVALID); }
      if c.BlockTxCount() > MAX_BLOCK_WEIGHT / MIN_SERIALIZABLE_TRANSACTION_WEIGHT { return Some(INVALID); }
      header := c.header;
      var ok, placed := PlacePrefilled(c);
      if !ok { return Some(INVALID); }
      var ends := Ends(c, placed);
      if !ends { return None; }
      var unclashing, m := MapShortIds(c, placed, crowded);
      if !unclashing { return Some(FAILED); }
      var s := MatchBoth(h, c, placed, m, pool, extra);
      HighSlotsFree(c);
      txnAvailable := s.a;
      return Some(OK);
    }

    predicate IsTxAvailable(index: nat)
      requires index < |txnAvailable|
      reads this
    {
      txnAvailable[index].Some?
    }

    /** The indexes to request: those of the empty slots, in 16 bits. */
    method MissingIndexes() returns (ix: seq<Index>)
      ensures |ix| == |FreeTo(txnAvailable, |txnAvailable|)|
      ensures forall k :: 0 <= k < |ix| ==> ix[k] == Wrap(FreeTo(txnAvailable, |txnAvailable|)[k])
      ensures |txnAvailable| <= U16 ==> Increasing(ix)
    {
      ix := [];
      for i := 0 to |txnAvailable|
        invariant |ix| == |FreeTo(txnAvailable, i)| && forall k :: 0 <= k < |ix| ==>
                  ix[k] == Wrap(FreeTo(txnAvailable, i)[k])
      {
        if !IsTxAvailable(i) { ix := ix + [Wrap(i)]; }
      }
      FreeIncreasing(txnAvailable, |txnAvailable|);
    }

    /**
     Complete the block with the missing transactions, in order. Too few or too many are invalid; the
     verdict of the block check decides the rest.
     */
    method FillBlock(missing: seq<Tx>, check: seq<Tx> -> Check) returns (status: ReadStatus, vtx: seq<Tx>)
      requires header.Some?
      modifies this
      ensures status == INVALID <==> |missing| != |FreeTo(old(txnAvailable), |old(txnAvailable)|)|
      ensures status != INVALID ==> |vtx| == |old(txnAvailable)| && CompletedTo(vtx, old(txnAvailable), missing, |vtx|)
      ensures status != INVALID ==> header == None && txnAvailable == []
      ensures status != INVALID ==>
              status == match check(vtx) case Passed => OK case PossiblyCorrupt => FAILED case Bad => CHECKBLOCK_FAILED
    {
      var enough, used;
      enough, used, vtx := Fill(txnAvailable, missing);
      if !enough { return INVALID, vtx; }
      header, txnAvailable := None, [];
      if |missing| != used { return INVALID, vtx; }
      status := match check(vtx) case Passed => OK case PossiblyCorrupt => FAILED case Bad => CHECKBLOCK_FAILED;
    }
  }

  // ---- The exchange ----

  /** Answer a request with the block's transactions, unless an index is out of bounds. */
  method SendBlockTransactions(block: Block, ix: seq<Index>) returns (r: Option<seq<Tx>>)
    ensures r.Some? <==> forall k :: 0 <= k < |ix| ==> ix[k] < |block.vtx|
    ensures r.Some? ==> |r.value| == |ix| && forall k :: 0 <= k < |ix| ==> r.value[k] == block.vtx[ix[k]]
  {
    var txn: seq<Tx> := [];
    for i := 0 to |ix|
      invariant |txn| == i && forall k :: 0 <= k < i ==> ix[k] < |block.vtx| && txn[k] == block.vtx[ix[k]]
    {
      if ix[i] >= |block.vtx| { return None; }
      txn := txn + [block.vtx[ix[i]]];
    }
    return Some(txn);
  }

  // Send a request over the wire and answer it.
  method Request(block: Block, ix: seq<Index>) returns (txn: seq<Tx>)
    requires Increasing(ix) && forall k :: 0 <= k < |ix| ==> ix[k] < |block.vtx|
    ensures |txn| == |ix| && forall k :: 0 <= k < |ix| ==> txn[k] == block.vtx[ix[k]]
  {
    var wire := WriteIndexes(ix);
    IndexesRoundTrip(ix, |ix|);
    assert ix[..|ix|] == ix;
    var got := ReadIndexes(wire);
    assert AsIndexes(wire) == wire;
    assert got == Some(ix);
    var r := SendBlockTransactions(block, got.value);
    txn := r.value;
  }

  /**
   Relay a block: send it compactly, match, request what is missing, complete. Unless short ids clash, a
   hash bucket is crowded or a short id matches a foreign transaction, the block arrives unchanged.
   */
  method Relay(h: ShortHash, block: Block, nonce: nat, pool: seq<Tx>, extra: seq<Tx>, crowded: int -> bool,
               check: seq<Tx> -> Check)
    returns (started: ReadStatus, status: ReadStatus, vtx: seq<Tx>, ghost c: Compact)
    requires 0 < |block.vtx| <= U16 && !block.vtx[0].isNull
    ensures Describes(h, c, block) && started != INVALID
    ensures started == OK <==> Unclashing(c.shorttxids) && forall i :: 0 <= i < |c.shorttxids| ==> !crowded(i)
    ensures started == OK && NoFalseMatch(h, c, block, set x | x in pool + extra) && check(block.vtx) == Passed ==>
            status == OK && vtx == block.vtx
  {
    var sent := MakeCompact(h, block, nonce);
    c := sent;
    var partial := new PartialBlock();
    var first := partial.InitData(h, sent, pool, extra, crowded);
    started := first.value;
    status, vtx := FAILED, [];
    if started == OK {
      var ix := partial.MissingIndexes();
      var txn := Request(block, ix);
      ghost var a := partial.txnAvailable;
      status, vtx := partial.FillBlock(txn, check);
      if Agrees(a, block.vtx) { CompletedIsBlock(vtx, a, txn, block); }
    }
  }
}
