/**
 The contents of the cuckoo cache as values (src/cuckoocache.h): the table, its garbage marks and
 its epoch marks, the invariant they keep, and what one eviction does to them.
 */
module CuckooSpec {
  import opened Seqs

  type Element = nat

  // The value an unused slot holds; it is never inserted.
  const NO_ELEMENT: Element := 0

  const TWO32 := 0x1_0000_0000
  type uint32 = x: nat | x < 0x1_0000_0000

  /** The eight hash functions of the cache. */
  type Hasher = (nat, Element) -> uint32

  lemma ScaledBelow(h: uint32, size: nat)
    requires size > 0
    ensures h * size / TWO32 < size
  {
    assert h * size <= (TWO32 - 1) * size;
    assert h * size < TWO32 * size;
  }

  /** One of an element's eight slots: the hash as a fraction of the table. */
  function Loc(H: Hasher, size: nat, e: Element, k: nat): (l: nat)
    ensures size > 0 ==> l < size
  {
    if size > 0 then ScaledBelow(H(k, e), size); H(k, e) * size / TWO32 else 0
  }

  function Locs(H: Hasher, size: nat, e: Element): (ls: seq<nat>)
    ensures |ls| == 8
    ensures size > 0 ==> forall k :: 0 <= k < 8 ==> ls[k] < size
  {
    seq(8, (k: nat) => Loc(H, size, e, k))
  }

  /** The eight slots of every element. */
  type Slots = Element -> seq<nat>

  function LocsOf(H: Hasher, size: nat): Slots { (e: Element) => Locs(H, size, e) }

  ghost predicate Located(L: Slots, size: nat) {
    forall e :: |L(e)| == 8 && forall k :: 0 <= k < 8 ==> L(e)[k] < size
  }

  /** Every stored element lies at one of its own slots. */
  ghost predicate Placed(L: Slots, table: seq<Element>) {
    forall i :: 0 <= i < |table| && table[i] != NO_ELEMENT ==> i in L(table[i])
  }

  /** No element is stored twice. */
  ghost predicate Unique(table: seq<Element>) {
    forall i, j :: 0 <= i < j < |table| && table[i] != NO_ELEMENT ==> table[i] != table[j]
  }

  /** Only slots marked as garbage can be unused. */
  ghost predicate Live(table: seq<Element>, garbage: seq<bool>) {
    |garbage| == |table| && forall i :: 0 <= i < |table| && !garbage[i] ==> table[i] != NO_ELEMENT
  }

  ghost predicate Consistent(L: Slots, table: seq<Element>, garbage: seq<bool>) {
    Placed(L, table) && Unique(table) && Live(table, garbage)
  }

  /** In a consistent table, probing an element's slots decides membership. */
  lemma ProbeDecides(L: Slots, table: seq<Element>, e: Element)
    requires Placed(L, table) && e != NO_ELEMENT && Located(L, |table|)
    ensures e in table <==> exists k :: 0 <= k < 8 && table[L(e)[k]] == e
  {
    if e in table {
      var i :| 0 <= i < |table| && table[i] == e;
      var k :| 0 <= k < 8 && L(e)[k] == i;
    }
  }

  /** Number of kept entries of the current epoch among the first `n` slots. */
  function Kept(garbage: seq<bool>, recent: seq<bool>, n: nat): (c: nat)
    requires n <= |garbage| && n <= |recent|
    ensures c <= n
  {
    if n == 0 then 0 else Kept(garbage, recent, n - 1) + (if recent[n - 1] && !garbage[n - 1] then 1 else 0)
  }

  function One(b: bool): nat { if b then 1 else 0 }

  lemma {:induction false} KeptUpdate(garbage: seq<bool>, recent: seq<bool>, n: nat, i: nat, g: bool, r: bool)
    requires n <= |garbage| && n <= |recent| && i < |garbage| && i < |recent|
    ensures Kept(garbage[i := g], recent[i := r], n) ==
            if i < n then Kept(garbage, recent, n) - One(recent[i] && !garbage[i]) + One(r && !g)
            else Kept(garbage, recent, n)
  {
    if n > 0 { KeptUpdate(garbage, recent, n - 1, i, g, r); }
  }

  lemma MultisetUpdate(table: seq<Element>, i: nat, e: Element)
    requires i < |table|
    ensures multiset(table[i := e]) + multiset{table[i]} == multiset(table) + multiset{e}
  {
    assert table == table[..i] + [table[i]] + table[i + 1..];
    assert table[i := e] == table[..i] + [e] + table[i + 1..];
  }

  /**
   Storing an absent element at one of its slots keeps the table consistent, and the element that
   was there is no longer stored (unless the slot was unused).
   */
  lemma PutConsistent(L: Slots, table: seq<Element>, garbage: seq<bool>, i: nat, e: Element)
    requires Consistent(L, table, garbage)
    requires i < |table| && e != NO_ELEMENT && e !in table && i in L(e)
    ensures Consistent(L, table[i := e], garbage) && Consistent(L, table[i := e], garbage[i := false])
    ensures table[i] != NO_ELEMENT ==> table[i] !in table[i := e]
    ensures multiset(table[i := e]) + multiset{table[i]} == multiset(table) + multiset{e}
  {
    MultisetUpdate(table, i, e);
    var after := table[i := e];
    assert forall j :: 0 <= j < |table| && j != i ==> after[j] == table[j];
    forall j | 0 <= j < |table| && table[i] != NO_ELEMENT ensures after[j] != table[i] {
      if j < i { assert table[j] != table[i]; } else if i < j { assert table[i] != table[j]; }
    }
  }

  /** The bound on kept entries of the current epoch, by epoch size. */
  function EpochBound(epochSize: nat): nat {
    epochSize + (if epochSize / 16 > 1 then epochSize / 16 else 1)
  }

  // ---- Epoch ageing ----

  /** The size of an epoch: 45 percent of the slots, in 32-bit arithmetic, and at least one. */
  function EpochSizeFor(size: nat): (es: nat)
    ensures es >= 1
    ensures 3 <= size && 45 * size < TWO32 ==> 100 * es <= 45 * size < 100 * (es + 1)
  {
    var es := (45 * size) % TWO32 / 100;
    if es < 1 then 1 else es
  }

  /** Whether epoch_check starts a new epoch: only when its counter has run out and the epoch is full. */
  predicate Ages(garbage: seq<bool>, recent: seq<bool>, counter: nat, epochSize: nat)
    requires |garbage| == |recent|
  {
    counter == 0 && Kept(garbage, recent, |garbage|) >= epochSize
  }

  function Demoted(garbage: seq<bool>, recent: seq<bool>): (g: seq<bool>)
    requires |garbage| == |recent|
    ensures |g| == |garbage| && forall i :: 0 <= i < |g| ==> g[i] == (garbage[i] || !recent[i])
  {
    seq(|garbage|, i requires 0 <= i < |garbage| => garbage[i] || !recent[i])
  }

  /** Garbage marks after the check: ageing gives up every entry of the previous epoch. */
  function AgedGarbage(garbage: seq<bool>, recent: seq<bool>, counter: nat, epochSize: nat): (g: seq<bool>)
    requires |garbage| == |recent|
    ensures |g| == |garbage|
  {
    if Ages(garbage, recent, counter, epochSize)
    then Demoted(garbage, recent) else garbage
  }

  /** Epoch marks after the check: ageing demotes every entry. */
  function AgedRecent(garbage: seq<bool>, recent: seq<bool>, counter: nat, epochSize: nat): (r: seq<bool>)
    requires |garbage| == |recent|
    ensures |r| == |recent|
  {
    if Ages(garbage, recent, counter, epochSize) then seq(|recent|, _ => false) else recent
  }

  lemma {:induction false} KeptNone(garbage: seq<bool>, recent: seq<bool>, n: nat)
    requires n <= |garbage| && n <= |recent|
    requires forall i :: 0 <= i < n ==> !recent[i]
    ensures Kept(garbage, recent, n) == 0
  {
    if n > 0 { KeptNone(garbage, recent, n - 1); }
  }

  /** Everything stored in the table. */
  function Stored(table: seq<Element>): set<Element> {
    set i | 0 <= i < |table| && table[i] != NO_ELEMENT :: table[i]
  }

  /** In terms of sets, exchanging one occurrence adds the new element and removes the other. */
  lemma StoredExchange(before: seq<Element>, after: seq<Element>, e: Element, dropped: Element)
    requires Unique(after) && e != NO_ELEMENT && e !in before
    requires multiset(after) + multiset{dropped} == multiset(before) + multiset{e}
    requires dropped != NO_ELEMENT ==> dropped !in after
    ensures Stored(after) == Stored(before) + {e} - {dropped}
  {
    forall x ensures x in Stored(after) <==> x in Stored(before) + {e} - {dropped} {
      assert x in after <==> multiset(after)[x] > 0;
      assert x in before <==> multiset(before)[x] > 0;
      assert (multiset(after) + multiset{dropped})[x] == (multiset(before) + multiset{e})[x];
    }
  }

  // ---- The chain of evictions ----

  /** None of an element's slots is garbage. */
  ghost predicate Crowded(L: Slots, garbage: seq<bool>, e: Element) {
    forall l :: l in L(e) ==> l < |garbage| && !garbage[l]
  }

  /**
   The elements in hand during an insertion: it starts with the new one, each but the last found all its
   slots kept, and was put into one of them in place of the next.
   */
  ghost predicate EvictionPath(L: Slots, garbage: seq<bool>, e: Element, path: seq<Element>) {
    && path != [] && path[0] == e
    && forall k :: 0 <= k < |path| - 1 ==> Crowded(L, garbage, path[k]) && SharesSlot(L, path[k], path[k + 1])
  }

  /** An element none of whose slots coincide never displaces the one it was displaced by. */
  ghost predicate NoReturn(L: Slots, path: seq<Element>) {
    forall k :: 0 <= k < |path| - 2 && Spread(L(path[k + 1])) ==> path[k + 2] != path[k]
  }

  ghost predicate SharesSlot(L: Slots, e: Element, f: Element) {
    exists i :: i in L(e) && i in L(f)
  }

  /** An element's own garbage slot held the element dropped for it. */
  ghost predicate Overwritten(L: Slots, table: seq<Element>, garbage: seq<bool>, e: Element, dropped: Element) {
    exists i :: 0 <= i < |table| && i < |garbage| && table[i] == dropped && garbage[i] && i in L(e)
  }

  /** Slots, their garbage marks and their epoch marks. */
  datatype Contents = Contents(table: seq<Element>, garbage: seq<bool>, recent: seq<bool>) {
    predicate Shaped() { |table| == |garbage| == |recent| > 0 }
  }

  // A slot kept and made part of the current epoch.
  function Refreshed(c: Contents, i: nat): Contents
    requires c.Shaped() && i < |c.table|
  {
    c.(garbage := c.garbage[i := false], recent := c.recent[i := true])
  }

  /** The first of some slots that is garbage, as an index into them; their number if there is none. */
  function FirstGarbage(garbage: seq<bool>, locs: seq<nat>): (g: nat)
    requires forall k :: 0 <= k < |locs| ==> locs[k] < |garbage|
    ensures g <= |locs| && (forall j :: 0 <= j < g ==> !garbage[locs[j]]) && (g < |locs| ==> garbage[locs[g]])
  {
    if locs == [] || garbage[locs[0]] then 0 else FirstGarbage(garbage, locs[1..]) + 1
  }

  /** The slot after the one last used, wrapping around; the second slot when there is none. */
  function NextLoc(locs: seq<nat>, lastLoc: nat): (l: nat)
    requires |locs| == 8
    ensures l in locs
  {
    locs[(1 + IndexOf(locs, lastLoc)) % 8]
  }

  /** The eight slots are pairwise different. */
  predicate Spread(locs: seq<nat>) { forall j, k :: 0 <= j < k < |locs| ==> locs[j] != locs[k] }

  /**
   The slot looked at next is the one last used only if that is listed twice, in this place and the one
   before; an element none of whose slots coincide never goes back to where it came from.
   */
  lemma MovesOn(locs: seq<nat>, lastLoc: nat)
    requires |locs| == 8
    ensures lastLoc in locs ==>
            (NextLoc(locs, lastLoc) == lastLoc <==>
              exists k :: FirstAt(locs, lastLoc, k) && locs[if k == 7 then 0 else k + 1] == lastLoc)
    ensures Spread(locs) ==> NextLoc(locs, lastLoc) != lastLoc
    ensures lastLoc !in locs ==> NextLoc(locs, lastLoc) == locs[1]
  {
    if lastLoc in locs { assert FirstAt(locs, lastLoc, IndexOf(locs, lastLoc)); }
  }

  predicate FirstAt(locs: seq<nat>, l: nat, k: nat) {
    k < |locs| && locs[k] == l && forall j :: 0 <= j < k ==> locs[j] != l
  }

  /**
   An element goes into its first garbage slot; if it has none, it displaces the element after the slot
   last used, which is then the one in hand, `depth` times at most. The result is what is left in hand.
   */
  function Walk(L: Slots, c: Contents, e: Element, lastLoc: nat, recent: bool, depth: nat): (r: (Contents, Element))
    requires c.Shaped() && Located(L, |c.table|)
    decreases depth
  {
    if depth == 0 then (c, e)
    else
      var locs := L(e);
      var g := FirstGarbage(c.garbage, locs);
      if g < |locs| then (Settled(c, locs[g], e, recent), c.table[locs[g]])
      else
        var l := NextLoc(L(e), lastLoc);
        Walk(L, Displaced(c, l, e, recent), c.table[l], l, c.recent[l], depth - 1)
  }

  lemma WalkEnds(L: Slots, c: Contents, e: Element, lastLoc: nat, recent: bool, r: (Contents, Element))
    requires c.Shaped() && Located(L, |c.table|) && r == Walk(L, c, e, lastLoc, recent, 0)
    ensures r == (c, e)
  {
  }

  lemma WalkSettles(L: Slots, c: Contents, e: Element, lastLoc: nat, recent: bool, depth: nat, l: nat)
    requires c.Shaped() && Located(L, |c.table|) && depth > 0 && FirstGarbage(c.garbage, L(e)) < 8 &&
             l == L(e)[FirstGarbage(c.garbage, L(e))]
    ensures l < |c.table| && Walk(L, c, e, lastLoc, recent, depth) == (Settled(c, l, e, recent), c.table[l])
  {
  }

  lemma WalkDisplaces(L: Slots, c: Contents, e: Element, lastLoc: nat, recent: bool, depth: nat, l: nat)
    requires c.Shaped() && Located(L, |c.table|) && depth > 0 && FirstGarbage(c.garbage, L(e)) == 8 &&
             l == NextLoc(L(e), lastLoc)
    ensures l < |c.table| &&
            Walk(L, c, e, lastLoc, recent, depth) ==
              Walk(L, Displaced(c, l, e, recent), c.table[l], l, c.recent[l], depth - 1)
  {
  }

  // An element put into a garbage slot.
  function Settled(c: Contents, l: nat, e: Element, recent: bool): (c': Contents)
    requires c.Shaped() && l < |c.table|
    ensures c'.Shaped() && |c'.table| == |c.table|
  {
    Contents(c.table[l := e], c.garbage[l := false], c.recent[l := recent])
  }

  // An element put in place of another.
  function Displaced(c: Contents, l: nat, e: Element, recent: bool): (c': Contents)
    requires c.Shaped() && l < |c.table|
    ensures c'.Shaped() && |c'.table| == |c.table|
  {
    Contents(c.table[l := e], c.garbage, c.recent[l := recent])
  }

  /** What inserting an absent element does to the contents. */
  ghost predicate Inserted(L: Slots, c: Contents, c': Contents, e: Element, dropped: Element, path: seq<Element>,
                           recent: bool, depth: nat)
    requires c.Shaped()
  {
    && c'.Shaped() && |c'.table| == |c.table| && Consistent(L, c'.table, c'.garbage)
    && multiset(c'.table) + multiset{dropped} == multiset(c.table) + multiset{e} &&
       (dropped != NO_ELEMENT ==> dropped !in c'.table)
    && EvictionPath(L, c.garbage, e, path) && |path| <= depth + 1 && NoReturn(L, path)
    && (if |path| == depth + 1 then dropped == path[depth]
        else Overwritten(L, c.table, c.garbage, path[|path| - 1], dropped))
    && Kept(c'.garbage, c'.recent, |c'.table|) <= Kept(c.garbage, c.recent, |c.table|) + One(recent)
  }

  /**
   The walk exchanges one element for another: that of a garbage slot, unless as many elements as the depth
   allows found all their slots kept.
   */
  lemma {:induction false} WalkInserts(L: Slots, c: Contents, e: Element, lastLoc: nat, recent: bool, depth: nat)
    returns (path: seq<Element>)
    requires c.Shaped() && Located(L, |c.table|) && Consistent(L, c.table, c.garbage) && e != NO_ELEMENT &&
             e !in c.table
    ensures var r := Walk(L, c, e, lastLoc, recent, depth); Inserted(L, c, r.0, e, r.1, path, recent, depth)
    ensures |path| > 1 ==> c.table[NextLoc(L(e), lastLoc)] == path[1]
    decreases depth, 1
  {
    var r := Walk(L, c, e, lastLoc, recent, depth);
    path := [e];
    if depth > 0 {
      var locs := L(e);
      if FirstGarbage(c.garbage, locs) < |locs| {
        SettledInserts(L, c, locs[FirstGarbage(c.garbage, locs)], e, recent, depth, r);
      } else {
        NoneGarbage(L, c.garbage, e);
        path := WalkOn(L, c, e, NextLoc(L(e), lastLoc), recent, depth, r);
      }
    }
  }

  // From the displaced element on.
  lemma {:induction false} WalkOn(L: Slots, c: Contents, e: Element, l: nat, recent: bool, depth: nat,
                                  r: (Contents, Element)) returns (path: seq<Element>)
    requires c.Shaped() && Located(L, |c.table|) && Consistent(L, c.table, c.garbage) && e != NO_ELEMENT &&
             e !in c.table
    requires l < |c.table| && l in L(e) && Crowded(L, c.garbage, e)
    requires depth > 0 && r == Walk(L, Displaced(c, l, e, recent), c.table[l], l, c.recent[l], depth - 1)
    ensures Inserted(L, c, r.0, e, r.1, path, recent, depth) && |path| > 1 && path[1] == c.table[l]
    decreases depth, 0
  {
    DisplacedOk(L, c, l, e, recent);
    var c1, f := Displaced(c, l, e, recent), c.table[l];
    var rest := WalkInserts(L, c1, f, l, c.recent[l], depth - 1);
    path := [e] + rest;
    if |rest| > 1 { NotBack(L, c, l, e, rest[1]); }
    DisplacedInserts(L, c, r.0, l, e, recent, r.1, rest, depth - 1);
  }

  // The element displaced next is not the one just put in.
  lemma NotBack(L: Slots, c: Contents, l: nat, e: Element, x: Element)
    requires c.Shaped() && Located(L, |c.table|) && l < |c.table| && e !in c.table
    requires x == c.table[l := e][NextLoc(L(c.table[l]), l)]
    ensures Spread(L(c.table[l])) ==> x != e
  {
    MovesOn(L(c.table[l]), l);
  }

  lemma NoneGarbage(L: Slots, garbage: seq<bool>, e: Element)
    requires Located(L, |garbage|) && FirstGarbage(garbage, L(e)) == 8
    ensures Crowded(L, garbage, e)
  {
  }

  lemma SettledInserts(L: Slots, c: Contents, l: nat, e: Element, recent: bool, depth: nat, r: (Contents, Element))
    requires c.Shaped() && Located(L, |c.table|) && Consistent(L, c.table, c.garbage) && e != NO_ELEMENT &&
             e !in c.table && depth > 0
    requires l < |c.table| && l in L(e) && c.garbage[l]
    requires r == (Settled(c, l, e, recent), c.table[l])
    ensures Inserted(L, c, r.0, e, r.1, [e], recent, depth)
  {
    PutConsistent(L, c.table, c.garbage, l, e);
    KeptUpdate(c.garbage, c.recent, |c.table|, l, false, recent);
    assert Overwritten(L, c.table, c.garbage, e, c.table[l]);
  }

  lemma DisplacedOk(L: Slots, c: Contents, l: nat, e: Element, recent: bool)
    requires c.Shaped() && Located(L, |c.table|) && Consistent(L, c.table, c.garbage) && e != NO_ELEMENT &&
             e !in c.table
    requires l < |c.table| && l in L(e) && Crowded(L, c.garbage, e)
    ensures !c.garbage[l]
    ensures var c1 := Displaced(c, l, e, recent);
            && Consistent(L, c1.table, c1.garbage) && c.table[l] != NO_ELEMENT && c.table[l] !in c1.table
            && multiset(c1.table) + multiset{c.table[l]} == multiset(c.table) + multiset{e}
            && Kept(c1.garbage, c1.recent, |c.table|) ==
               Kept(c.garbage, c.recent, |c.table|) - One(c.recent[l]) + One(recent)
  {
    PutConsistent(L, c.table, c.garbage, l, e);
    KeptUpdate(c.garbage, c.recent, |c.table|, l, false, recent);
    assert c.garbage[l := false] == c.garbage;
  }

  lemma DisplacedInserts(L: Slots, c: Contents, c': Contents, l: nat, e: Element, recent: bool, dropped: Element,
                         rest: seq<Element>, depth: nat)
    requires c.Shaped() && Located(L, |c.table|) && Consistent(L, c.table, c.garbage) && e != NO_ELEMENT &&
             e !in c.table
    requires l < |c.table| && l in L(e) && Crowded(L, c.garbage, e)
    requires Inserted(L, Displaced(c, l, e, recent), c', c.table[l], dropped, rest, c.recent[l], depth)
    requires |rest| > 1 && Spread(L(c.table[l])) ==> rest[1] != e
    ensures Inserted(L, c, c', e, dropped, [e] + rest, recent, depth + 1)
  {
    DisplacedOk(L, c, l, e, recent);
    Longer(L, c, Displaced(c, l, e, recent), e, rest, l);
    NoReturnLonger(L, e, rest);
    MultisetExchange(multiset(c'.table), multiset(Displaced(c, l, e, recent).table), multiset(c.table), dropped,
                     c.table[l], e);
  }

  lemma MultisetExchange(a: multiset<Element>, b: multiset<Element>, c: multiset<Element>, x: Element, y: Element,
                         z: Element)
    requires a + multiset{x} == b + multiset{y} && b + multiset{y} == c + multiset{z}
    ensures a + multiset{x} == c + multiset{z}
  {
  }

  lemma NoReturnLonger(L: Slots, e: Element, rest: seq<Element>)
    requires NoReturn(L, rest) && (|rest| > 1 && Spread(L(rest[0])) ==> rest[1] != e)
    ensures NoReturn(L, [e] + rest)
  {
    var path := [e] + rest;
    forall k | 0 <= k < |path| - 2 && Spread(L(path[k + 1])) ensures path[k + 2] != path[k] {
      if k > 0 { assert path[k + 1] == rest[k] && path[k + 2] == rest[k + 1] && path[k] == rest[k - 1]; }
    }
  }

  lemma Longer(L: Slots, c: Contents, c1: Contents, e: Element, rest: seq<Element>, l: nat)
    requires c.Shaped() && l < |c.table| && !c.garbage[l] && c1.garbage == c.garbage && c1.table == c.table[l := e]
    requires Placed(L, c.table) && c.table[l] != NO_ELEMENT && l in L(e) && Crowded(L, c.garbage, e)
    requires EvictionPath(L, c.garbage, c.table[l], rest)
    ensures EvictionPath(L, c.garbage, e, [e] + rest)
    ensures forall x, d :: Overwritten(L, c1.table, c.garbage, x, d) ==> Overwritten(L, c.table, c.garbage, x, d)
  {
    var path := [e] + rest;
    assert SharesSlot(L, e, c.table[l]);
    forall k | 0 <= k < |path| - 1 ensures Crowded(L, c.garbage, path[k]) && SharesSlot(L, path[k], path[k + 1]) {
      if k > 0 { assert path[k] == rest[k - 1] && path[k + 1] == rest[k]; }
    }
  }

  /** If the walk ends at a garbage slot, the new element is stored. */
  lemma NewIsStored(L: Slots, c: Contents, c': Contents, e: Element, dropped: Element, path: seq<Element>, recent: bool,
                    depth: nat)
    requires c.Shaped() && Inserted(L, c, c', e, dropped, path, recent, depth) && e != NO_ELEMENT && e !in c.table
    ensures Stored(c'.table) == Stored(c.table) + {e} - {dropped} && (|path| <= depth ==> e in c'.table)
  {
    StoredExchange(c.table, c'.table, e, dropped);
    if |path| <= depth {
      assert dropped in c.table;
      assert (multiset(c'.table) + multiset{dropped})[e] > 0;
    }
  }

  // ---- Marks ----

  /** The slot of an element holds the marks it had before; that of the new one is kept, with its own epoch mark. */
  ghost predicate MarksTravel(c: Contents, c': Contents, e: Element, recent: bool)
    requires c.Shaped() && c'.Shaped()
  {
    forall i :: 0 <= i < |c'.table| && c'.table[i] != NO_ELEMENT ==>
      if c'.table[i] == e then !c'.garbage[i] && c'.recent[i] == recent else HadMarks(c, c', i)
  }

  ghost predicate HadMarks(c: Contents, c': Contents, i: nat)
    requires c.Shaped() && c'.Shaped() && i < |c'.table|
  {
    exists j :: 0 <= j < |c.table| && c.table[j] == c'.table[i] && c'.garbage[i] == c.garbage[j] &&
      c'.recent[i] == c.recent[j]
  }

  /** Garbage and epoch marks follow the elements along the chain of evictions. */
  lemma {:induction false} WalkMarks(L: Slots, c: Contents, e: Element, lastLoc: nat, recent: bool, depth: nat)
    requires c.Shaped() && Located(L, |c.table|) && Consistent(L, c.table, c.garbage) && e != NO_ELEMENT &&
             e !in c.table
    ensures var r := Walk(L, c, e, lastLoc, recent, depth); r.0.Shaped() && MarksTravel(c, r.0, e, recent)
    decreases depth
  {
    var r := Walk(L, c, e, lastLoc, recent, depth);
    if depth == 0 {
      forall i | 0 <= i < |c.table| ensures HadMarks(c, c, i) { SameMarks(c, i); }
    } else {
      var locs := L(e);
      if FirstGarbage(c.garbage, locs) < |locs| {
        SettledMarks(c, locs[FirstGarbage(c.garbage, locs)], e, recent);
      } else {
        NoneGarbage(L, c.garbage, e);
        var l := NextLoc(L(e), lastLoc);
        DisplacedOk(L, c, l, e, recent);
        WalkMarks(L, Displaced(c, l, e, recent), c.table[l], l, c.recent[l], depth - 1);
        DisplacedMarks(c, l, e, recent, r.0);
      }
    }
  }

  lemma SameMarks(c: Contents, i: nat)
    requires c.Shaped() && i < |c.table|
    ensures HadMarks(c, c, i)
  {
    var x, g, m := c.table[i], c.garbage[i], c.recent[i];
    assert exists j :: 0 <= j < |c.table| && c.table[j] == x && g == c.garbage[j] && m == c.recent[j];
  }

  /** So do those of an element that is stored already and becomes kept and recent. */
  lemma RefreshedMarks(c: Contents, i: nat)
    requires c.Shaped() && i < |c.table| && Unique(c.table) && c.table[i] != NO_ELEMENT
    ensures MarksTravel(c, Refreshed(c, i), c.table[i], true)
  {
    var c' := Refreshed(c, i);
    forall j | 0 <= j < |c.table| && j != i ensures HadMarks(c, c', j) { assert c'.table[j] == c.table[j]; }
    assert forall j :: 0 <= j < |c.table| && j != i ==> c.table[j] != c.table[i];
  }

  lemma SettledMarks(c: Contents, l: nat, e: Element, recent: bool)
    requires c.Shaped() && l < |c.table| && e !in c.table
    ensures MarksTravel(c, Settled(c, l, e, recent), e, recent)
  {
    var c' := Settled(c, l, e, recent);
    forall i | 0 <= i < |c'.table| && i != l ensures HadMarks(c, c', i) { assert c'.table[i] == c.table[i]; }
  }

  lemma DisplacedMarks(c: Contents, l: nat, e: Element, recent: bool, c': Contents)
    requires c.Shaped() && c'.Shaped() && l < |c.table| && !c.garbage[l] && e !in c.table && e != NO_ELEMENT
    requires MarksTravel(Displaced(c, l, e, recent), c', c.table[l], c.recent[l])
    ensures MarksTravel(c, c', e, recent)
  {
    var c1 := Displaced(c, l, e, recent);
    forall i | 0 <= i < |c'.table| && c'.table[i] != NO_ELEMENT
      ensures if c'.table[i] == e then !c'.garbage[i] && c'.recent[i] == recent else HadMarks(c, c', i)
    {
      if c'.table[i] == c.table[l] {
        assert HadMarks(c, c', i);
      } else {
        var j :| 0 <= j < |c1.table| && c1.table[j] == c'.table[i] && c'.garbage[i] == c1.garbage[j] &&
          c'.recent[i] == c1.recent[j];
        assert j == l || c1.table[j] == c.table[j];
      }
    }
  }

  /** The floor of the logarithm to base two. */
  function Log2(n: nat): (d: nat)
    requires n > 0
    ensures n >= 2 ==> d >= 1
  {
    if n == 1 then 0 else Log2(n / 2) + 1
  }
}
