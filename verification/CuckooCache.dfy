/**
 The signature cache (src/cuckoocache.h): a table with eight slots per element, lazily collected
 garbage, insertion by chains of evictions, and ageing of entries by epochs.
 */
module CuckooCache {
  import opened Bits
  import opened Seqs
  import opened CuckooSpec

  // An index no element can be stored at.
  const INVALID: nat := TWO32 - 1

  function Max(a: nat, b: nat): nat { if a < b then b else a }

  predicate BitAt(mem: array<bv8>, i: nat)
    requires i < 8 * mem.Length
    reads mem
  {
    BitOf(mem[i / 8], i % 8)
  }

  /** Collection flags, eight to a byte; `marks` is their meaning. */
  class BitPackedFlags {
    var mem: array<bv8>
    ghost var marks: seq<bool>

    ghost predicate Valid()
      reads this, mem
    {
      && |marks| <= 8 * mem.Length
      && forall i {:trigger BitAt(mem, i)} :: 0 <= i < |marks| ==> (marks[i] <==> BitAt(mem, i))
    }

    // All flags start set.
    constructor (size: nat)
      ensures Valid() && fresh(mem)
      ensures marks == seq(size, _ => true)
    {
      mem := new bv8[(size + 7) / 8](_ => 0xFF);
      marks := seq(size, _ => true);
      new;
      forall k | 0 <= k < 8 ensures BitOf(0xFF, k) { SetBit(0, 0, k); }
    }

    method BitSet(s: nat)
      requires Valid() && s < |marks|
      modifies this`marks, mem
      ensures Valid() && mem == old(mem)
      ensures marks == old(marks)[s := true]
    {
      ghost var before := mem[s / 8];
      mem[s / 8] := mem[s / 8] | BitMask(s % 8);
      marks := marks[s := true];
      forall k | 0 <= k < 8 ensures BitOf(mem[s / 8], k) <==> k == s % 8 || BitOf(before, k) {
        SetBit(before, s % 8, k);
      }
      forall i | 0 <= i < |marks| ensures marks[i] <==> BitAt(mem, i) {
        assert old(marks)[i] <==> old(BitAt(mem, i));
      }
    }

    method BitUnset(s: nat)
      requires Valid() && s < |marks|
      modifies this`marks, mem
      ensures Valid() && mem == old(mem)
      ensures marks == old(marks)[s := false]
    {
      ghost var before := mem[s / 8];
      mem[s / 8] := mem[s / 8] & !BitMask(s % 8);
      marks := marks[s := false];
      forall k | 0 <= k < 8 ensures BitOf(mem[s / 8], k) <==> k != s % 8 && BitOf(before, k) {
        ClearBit(before, s % 8, k);
      }
      forall i | 0 <= i < |marks| ensures marks[i] <==> BitAt(mem, i) {
        assert old(marks)[i] <==> old(BitAt(mem, i));
      }
    }

    function BitIsSet(s: nat): (b: bool)
      requires Valid() && s < |marks|
      reads this, mem
      ensures b == marks[s]
    {
      BitAt(mem, s)
    }
  }

  class Cache {
    // The slots of an element, as its hashes give them.
    const L: Slots
    const size: nat
    const epochSize: nat
    const depthLimit: nat
    const table: array<Element>
    const epochFlags: array<bool>
    const flags: BitPackedFlags
    var counter: nat

    ghost predicate Shaped()
      reads this, flags, flags.mem
    {
      && 2 <= size < TWO32 && epochSize >= 1 && depthLimit >= 1 && Located(L, size)
      && table.Length == size && epochFlags.Length == size
      && flags.Valid() && |flags.marks| == size
      && flags.mem as object != table && flags.mem as object != epochFlags && table as object != epochFlags
    }

    ghost function KeptNow(): nat
      requires Shaped()
      reads this, flags, flags.mem, epochFlags
    {
      Kept(flags.marks, epochFlags[..], size)
    }

    ghost predicate Valid()
      reads this, flags, flags.mem, table, epochFlags
    {
      && Shaped()
      && Consistent(L, table[..], flags.marks)
      && KeptNow() + counter <= EpochBound(epochSize)
    }

    /** An empty cache; the depth limit is the logarithm of the size, which rounding may raise by one. */
    constructor (hash: Hasher, newSize: nat, depth: nat)
      requires newSize < TWO32 &&
               Log2(if newSize < 2 then 2 else newSize) <= depth <= Log2(if newSize < 2 then 2 else newSize) + 1
      ensures Valid() && fresh(table) && fresh(epochFlags) && fresh(flags) && fresh(flags.mem)
      ensures epochSize == EpochSizeFor(size) && counter == epochSize
      ensures L == LocsOf(hash, size) && size == (if newSize < 2 then 2 else newSize) && depthLimit == depth
      ensures Stored(table[..]) == {} && KeptNow() == 0
    {
      var n := if newSize < 2 then 2 else newSize;
      L, size, depthLimit := LocsOf(hash, n), n, depth;
      epochSize := EpochSizeFor(n);
      table := new Element[n](_ => NO_ELEMENT);
      epochFlags := new bool[n](_ => false);
      flags := new BitPackedFlags(n);
      counter := EpochSizeFor(n);
      new;
      KeptNone(flags.marks, epochFlags[..], size);
    }

    // The first of the element's slots that holds it, if any.
    method Probe(e: Element) returns (found: bool, loc: nat)
      requires Shaped() && Consistent(L, table[..], flags.marks)
      ensures e != NO_ELEMENT ==> (found <==> e in table[..])
      ensures found <==> exists k :: 0 <= k < 8 && table[L(e)[k]] == e
      ensures loc < size && (found ==> table[loc] == e)
    {
      var locs := L(e);
      if e != NO_ELEMENT { ProbeDecides(L, table[..], e); }
      for k := 0 to 8
        invariant forall j :: 0 <= j < k ==> table[locs[j]] != e
      {
        if table[locs[k]] == e { return true, locs[k]; }
      }
      return false, 0;
    }

    // Mark a slot as garbage.
    method AllowErase(n: nat)
      requires Valid() && n < size
      modifies flags`marks, flags.mem
      ensures Valid() && flags.mem == old(flags.mem)
      ensures flags.marks == old(flags.marks)[n := true]
    {
      KeptUpdate(flags.marks, epochFlags[..], size, n, true, epochFlags[n]);
      assert epochFlags[..][n := epochFlags[n]] == epochFlags[..];
      flags.BitSet(n);
    }

    /**
     Membership, exactly; with `erase`, the entry found becomes garbage but stays stored. The default
     element, which empty slots hold, is found if one of its own slots is empty.
     */
    method Contains(e: Element, erase: bool) returns (found: bool)
      requires Valid()
      modifies flags`marks, flags.mem
      ensures Valid() && flags.mem == old(flags.mem)
      ensures e != NO_ELEMENT ==> (found <==> e in table[..])
      ensures found <==> exists k :: 0 <= k < 8 && table[L(e)[k]] == e
      ensures !found || !erase ==> flags.marks == old(flags.marks)
      ensures found && erase ==> exists i ::
              0 <= i < size && table[i] == e && flags.marks == old(flags.marks)[i := true]
      ensures KeptNow() <= EpochBound(epochSize)
    {
      var loc;
      found, loc := Probe(e);
      if found && erase { AllowErase(loc); }
    }

    // Run before every insertion: count down, and when the counter runs out scan and perhaps age.
    method EpochCheck()
      requires Valid()
      modifies this`counter, flags`marks, flags.mem, epochFlags
      ensures Shaped() && flags.mem == old(flags.mem) && Consistent(L, table[..], flags.marks)
      ensures flags.marks == AgedGarbage(old(flags.marks), old(epochFlags[..]), old(counter), epochSize)
      ensures epochFlags[..] == AgedRecent(old(flags.marks), old(epochFlags[..]), old(counter), epochSize)
      ensures KeptNow() + counter + 1 <= EpochBound(epochSize)
      ensures old(counter) > 0 ==> counter == old(counter) - 1
      ensures old(counter) == 0 && old(KeptNow()) >= epochSize ==> counter == epochSize && KeptNow() == 0
      ensures old(counter) == 0 && old(KeptNow()) < epochSize ==>
                counter >= 1 && counter >= epochSize - KeptNow() && counter <= epochSize
    {
      if counter != 0 {
        counter := counter - 1;
        return;
      }
      var unused := CountUnused();
      if unused >= epochSize {
        Age();
        KeptNone(flags.marks, epochFlags[..], size);
        counter := epochSize;
      } else {
        counter := Max(1, Max(epochSize / 16, epochSize - unused));
      }
    }

    method CountUnused() returns (count: nat)
      requires Shaped()
      ensures count == KeptNow()
    {
      count := 0;
      for i := 0 to size
        invariant count == Kept(flags.marks, epochFlags[..], i)
      {
        if epochFlags[i] && !flags.BitIsSet(i) { count := count + 1; }
      }
    }

    // Give up the old epoch and demote the current one.
    method Age()
      requires Shaped()
      modifies flags`marks, flags.mem, epochFlags
      ensures Shaped() && flags.mem == old(flags.mem)
      ensures flags.marks == Demoted(old(flags.marks), old(epochFlags[..]))
      ensures epochFlags[..] == seq(size, _ => false)
    {
      for i := 0 to size
        invariant Shaped() && flags.mem == old(flags.mem)
        invariant forall j :: 0 <= j < size ==>
                    flags.marks[j] == (old(flags.marks)[j] || (j < i && !old(epochFlags[..])[j]))
        invariant forall j :: 0 <= j < size ==> epochFlags[j] == (j >= i && old(epochFlags[..])[j])
      {
        if epochFlags[i] { epochFlags[i] := false; } else { flags.BitSet(i); }
      }
    }
  
    // Keep the entry of a slot and make it part of the current epoch.
    method Refresh(loc: nat)
      requires Shaped() && loc < size && Consistent(L, table[..], flags.marks)
      requires table[loc] != NO_ELEMENT
      modifies epochFlags, flags`marks, flags.mem
      ensures Shaped() && flags.mem == old(flags.mem) && Consistent(L, table[..], flags.marks)
      ensures Holds() == Refreshed(old(Holds()), loc)
      ensures KeptNow() <= old(KeptNow()) + 1
    {
      KeptUpdate(flags.marks, epochFlags[..], size, loc, false, true);
      flags.BitUnset(loc);
      epochFlags[loc] := true;
      assert epochFlags[..] == old(epochFlags[..])[loc := true];
    }

    // Store an element in a slot, with its epoch mark.
    method Swap(loc: nat, e: Element, recent: bool) returns (e': Element, recent': bool)
      requires Shaped() && loc < size
      modifies table, epochFlags
      ensures Shaped() && Holds() == Displaced(old(Holds()), loc, e, recent)
      ensures e' == old(table[loc]) && recent' == old(epochFlags[loc])
    {
      e', recent' := table[loc], epochFlags[loc];
      table[loc] := e;
      epochFlags[loc] := recent;
      assert table[..] == old(table[..])[loc := e] && epochFlags[..] == old(epochFlags[..])[loc := recent];
    }

    // Store an element in a garbage slot, which is then kept.
    method Put(loc: nat, e: Element, recent: bool) returns (e': Element)
      requires Shaped() && loc < size
      modifies table, epochFlags, flags`marks, flags.mem
      ensures Shaped() && flags.mem == old(flags.mem) && Holds() == Settled(old(Holds()), loc, e, recent)
      ensures e' == old(table[loc])
    {
      var epoch;
      e', epoch := Swap(loc, e, recent);
      flags.BitUnset(loc);
    }

    // The first garbage slot among an element's slots, if any.
    method FindGarbage(e: Element) returns (found: bool, loc: nat)
      requires Shaped()
      ensures loc < size && loc in L(e)
      ensures var g := FirstGarbage(flags.marks, L(e)); (found <==> g < 8) && (found ==> loc == L(e)[g])
    {
      var locs := L(e);
      assert locs[0..] == locs;
      for k := 0 to 8
        invariant FirstGarbage(flags.marks, locs) == k + FirstGarbage(flags.marks, locs[k..])
      {
        assert locs[k..][1..] == locs[k + 1..];
        if flags.BitIsSet(locs[k]) { return true, locs[k]; }
      }
      return false, locs[0];
    }

    method FindNext(e: Element, lastLoc: nat) returns (loc: nat)
      requires Located(L, size)
      ensures loc == NextLoc(L(e), lastLoc)
    {
      var locs := L(e);
      var i := 0;
      assert locs[0..] == locs;
      while i < 8 && locs[i] != lastLoc
        invariant 0 <= i <= 8
        invariant IndexOf(locs, lastLoc) == i + IndexOf(locs[i..], lastLoc)
      {
        assert locs[i..][1..] == locs[i + 1..];
        i := i + 1;
      }
      loc := locs[(1 + i) % 8];
    }

    ghost function Holds(): Contents
      reads this, flags, flags.mem, table, epochFlags
    {
      Contents(table[..], flags.marks, epochFlags[..])
    }

    // One link of the chain: the element goes into a garbage slot, or displaces another.
    method Hop(e: Element, lastLoc: nat, recent: bool, ghost depth: nat, ghost r: (Contents, Element))
      returns (done: bool, e': Element, loc: nat, recent': bool)
      requires Shaped() && depth > 0 && r == Walk(L, Holds(), e, lastLoc, recent, depth)
      modifies table, epochFlags, flags`marks, flags.mem
      ensures Shaped() && flags.mem == old(flags.mem)
      ensures r == if done then (Holds(), e') else Walk(L, Holds(), e', loc, recent', depth - 1)
    {
      done, loc := FindGarbage(e);
      if done {
        WalkSettles(L, Holds(), e, lastLoc, recent, depth, loc);
        recent' := recent;
        e' := Put(loc, e, recent);
      } else {
        loc := FindNext(e, lastLoc);
        WalkDisplaces(L, Holds(), e, lastLoc, recent, depth, loc);
        e', recent' := Swap(loc, e, recent);
      }
    }

    // The chain of evictions for an element that is not stored yet.
    method InsertAbsent(e: Element) returns (dropped: Element)
      requires Shaped()
      modifies table, epochFlags, flags`marks, flags.mem
      ensures Shaped() && flags.mem == old(flags.mem)
      ensures (Holds(), dropped) == Walk(L, old(Holds()), e, INVALID, true, depthLimit)
    {
      var lastLoc, recent := INVALID, true;
      dropped := e;
      ghost var r := Walk(L, Holds(), e, INVALID, true, depthLimit);
      ghost var left := depthLimit;
      for depth := 0 to depthLimit
        invariant Shaped() && flags.mem == old(flags.mem) && left == depthLimit - depth
        invariant r == Walk(L, Holds(), dropped, lastLoc, recent, left)
      {
        var done;
        done, dropped, lastLoc, recent := Hop(dropped, lastLoc, recent, left, r);
        if done { return; }
        left := left - 1;
      }
      WalkEnds(L, Holds(), dropped, lastLoc, recent, r);
    }

    /** The contents after the check of the epoch. */
    ghost function Aged(): Contents
      requires Shaped()
      reads this, flags, flags.mem, table, epochFlags
    {
      Contents(table[..], AgedGarbage(flags.marks, epochFlags[..], counter, epochSize),
               AgedRecent(flags.marks, epochFlags[..], counter, epochSize))
    }

    /**
     Insert an element. If it is stored already, it is only marked as kept and recent. Otherwise the
     table gains it and loses exactly one slot's content: that of a garbage slot, or, when as many
     elements as the depth limit allows found all their slots kept, the last one displaced.
     */
    method Insert(e: Element) returns (dropped: Element, ghost path: seq<Element>)
      requires Valid()
      requires e != NO_ELEMENT
      modifies this`counter, table, epochFlags, flags`marks, flags.mem
      ensures Valid() && flags.mem == old(flags.mem)
      ensures e in old(table[..]) ==>
                exists i :: 0 <= i < size && table[i] == e && Holds() == Refreshed(old(Aged()), i)
      ensures e !in old(table[..]) ==>
                && (Holds(), dropped) == Walk(L, old(Aged()), e, INVALID, true, depthLimit)
                && Inserted(L, old(Aged()), Holds(), e, dropped, path, true, depthLimit)
                && (|path| > 1 ==> path[1] == old(table[..])[L(e)[1]])
                && Stored(table[..]) == Stored(old(table[..])) + {e} - {dropped} &&
                   (|path| <= depthLimit ==> e in table[..])
      ensures MarksTravel(old(Aged()), Holds(), e, true) && KeptNow() <= EpochBound(epochSize)
    {
      EpochCheck();
      var found, loc := Probe(e);
      if found {
        RefreshedMarks(Holds(), loc);
        Refresh(loc);
        return NO_ELEMENT, [];
      }
      path := WalkInserts(L, Holds(), e, INVALID, true, depthLimit);
      WalkMarks(L, Holds(), e, INVALID, true, depthLimit);
      assert INVALID !in L(e);
      MovesOn(L(e), INVALID);
      dropped := InsertAbsent(e);
      NewIsStored(L, old(Aged()), Holds(), e, dropped, path, true, depthLimit);
    }
  }
}
