/**
 Which records of a peers file survive loading (src/addrman.h), in terms of the file alone: of several
 records that belong into one slot only the first gets it.
 */
module AddrFiles {
  import opened AddrTables
  import opened AddrManager
  import opened AddrSerial
  import opened AddrLoad

  /** Buckets are used from files of version one with 1024 of them; the file has the number with bit 30 flipped. */
  lemma UsableIff(d: Dump)
    requires d.nUBuckets < 0x8000_0000
    ensures Usable(d) <==> d.version == 1 && d.nUBuckets == 1073742848
  {
  }

  // ---- Tried records ----

  datatype Spot = Spot(bucket: nat, pos: nat)

  function TriedSpot(H: Hashing, key: nat, x: Saved): Spot {
    var b := H.TriedBucket(key, x.addr);
    Spot(b, H.Position(key, false, b, x.addr))
  }

  /** No tried record of the file before this one has its slot. */
  predicate FirstTried(H: Hashing, d: Dump, n: nat)
    requires n < |d.triedInfos|
  {
    forall j :: 0 <= j < n ==> TriedSpot(H, d.key, d.triedInfos[j]) != TriedSpot(H, d.key, d.triedInfos[n])
  }

  /** The first tried records, without those that come after another of the same slot. */
  function FirstTrieds(H: Hashing, d: Dump, n: nat): seq<Saved>
    requires n <= |d.triedInfos|
  {
    if n == 0 then []
    else FirstTrieds(H, d, n - 1) + (if FirstTried(H, d, n - 1) then [d.triedInfos[n - 1]] else [])
  }

  /** A tried slot is free as long as no record of the file before has it. */
  ghost predicate TriedFree(H: Hashing, d: Dump, r: Reading, n: nat)
    requires n <= |d.triedInfos| && r.t.Shaped()
  {
    forall b: nat, p: nat :: b < TRIED_BUCKETS && p < BUCKET_SIZE ==>
      (r.t.vvTried[b][p] == EMPTY <==> forall j :: 0 <= j < n ==> TriedSpot(H, d.key, d.triedInfos[j]) != Spot(b, p))
  }

  lemma {:induction false} NewsLeaveTried(H: Hashing, d: Dump, n: nat)
    requires Complete(d) && n <= d.nNew
    ensures NewsTo(H, d, n).t.vvTried == EmptyTable(TRIED_BUCKETS)
  {
    if n > 0 { NewsLeaveTried(H, d, n - 1); }
  }

  lemma TriedFreeNext(H: Hashing, d: Dump, r: Reading, n: nat, r': Reading)
    requires Complete(d) && n < d.nTried && r.t.Shaped() && r.t.H == H && r.t.key == d.key && TriedFree(H, d, r, n)
    requires r' == TriedNext(r, d.triedInfos[n])
    ensures r'.t.Shaped() && TriedFree(H, d, r', n + 1)
    ensures r'.kept == r.kept + (if FirstTried(H, d, n) then [d.triedInfos[n]] else [])
  {
    assert TriedSlotFree(r.t, d.triedInfos[n]) <==> FirstTried(H, d, n);
  }

  lemma TriedStart(H: Hashing, d: Dump)
    requires Complete(d)
    ensures TriedsTo(H, d, 0).kept == d.newInfos && TriedFree(H, d, TriedsTo(H, d, 0), 0)
  {
    NewsLeaveTried(H, d, d.nNew);
    assert d.newInfos[..d.nNew] == d.newInfos;
  }

  /** A sequence of readings, each after one more tried record. */
  ghost predicate Follows(H: Hashing, d: Dump, f: nat -> Reading, n: nat) {
    && n < |d.triedInfos| && f(n).t.Shaped() && f(n).t.H == H && f(n).t.key == d.key
    && f(n + 1) == TriedNext(f(n), d.triedInfos[n])
  }

  lemma TriedsFollow(H: Hashing, d: Dump, f: nat -> Reading, n: nat)
    requires Complete(d) && n < d.nTried && f(n) == TriedsTo(H, d, n) && f(n + 1) == TriedsTo(H, d, n + 1)
    ensures Follows(H, d, f, n)
  {
  }

  /** The readings of a file. */
  ghost function Readings(H: Hashing, d: Dump): nat -> Reading
    requires Complete(d)
  {
    (n: nat) => if n <= d.nTried then TriedsTo(H, d, n) else TriedsTo(H, d, 0)
  }

  lemma ReadingsFollow(H: Hashing, d: Dump)
    requires Complete(d)
    ensures forall n: nat :: n < d.nTried ==> Follows(H, d, Readings(H, d), n)
  {
    forall n: nat | n < d.nTried ensures Follows(H, d, Readings(H, d), n) {
      TriedsFollow(H, d, Readings(H, d), n);
    }
  }

  lemma {:induction false} FreeFrom(H: Hashing, d: Dump, f: nat -> Reading, n: nat)
    requires Complete(d) && n <= d.nTried && f(0).t.Shaped() && TriedFree(H, d, f(0), 0)
    requires forall k: nat :: k < d.nTried ==> Follows(H, d, f, k)
    ensures f(n).t.Shaped() && TriedFree(H, d, f(n), n)
  {
    if n > 0 {
      FreeFrom(H, d, f, n - 1);
      assert Follows(H, d, f, n - 1);
      TriedFreeNext(H, d, f(n - 1), n - 1, f(n));
    }
  }

  // Each reading keeps the next record or not.
  ghost predicate KeepsNext(H: Hashing, d: Dump, f: nat -> Reading, n: nat) {
    n < |d.triedInfos| && f(n + 1).kept == f(n).kept + (if FirstTried(H, d, n) then [d.triedInfos[n]] else [])
  }

  lemma KeepsAll(H: Hashing, d: Dump, f: nat -> Reading)
    requires Complete(d) && f(0).t.Shaped() && TriedFree(H, d, f(0), 0)
    requires forall k: nat :: k < d.nTried ==> Follows(H, d, f, k)
    ensures forall k: nat :: k < d.nTried ==> KeepsNext(H, d, f, k)
  {
    forall k: nat | k < d.nTried ensures KeepsNext(H, d, f, k) {
      FreeFrom(H, d, f, k);
      assert Follows(H, d, f, k);
      TriedFreeNext(H, d, f(k), k, f(k + 1));
    }
  }

  lemma {:induction false} KeptFrom(H: Hashing, d: Dump, f: nat -> Reading, n: nat)
    requires n <= |d.triedInfos| && f(0).kept == d.newInfos
    requires forall k: nat :: k < |d.triedInfos| ==> KeepsNext(H, d, f, k)
    ensures f(n).kept == d.newInfos + FirstTrieds(H, d, n)
  {
    if n > 0 {
      KeptFrom(H, d, f, n - 1);
      assert KeepsNext(H, d, f, n - 1);
      Assoc(d.newInfos, FirstTrieds(H, d, n - 1), if FirstTried(H, d, n - 1) then [d.triedInfos[n - 1]] else []);
    }
  }

  /** The records read are those of the new table and the first tried record of each slot. */
  lemma TriedsKept(H: Hashing, d: Dump)
    requires Complete(d)
    ensures Loaded(H, d).kept == d.newInfos + FirstTrieds(H, d, d.nTried)
  {
    var f := Readings(H, d);
    TriedStart(H, d);
    ReadingsFollow(H, d);
    KeepsAll(H, d, f);
    KeptFrom(H, d, f, d.nTried);
  }

  lemma Assoc<T>(a: seq<T>, b: seq<T>, c: seq<T>)
    ensures a + b + c == a + (b + c)
  {
  }

  // ---- New records of a file whose buckets cannot be used ----

  function NewSpot(H: Hashing, key: nat, x: Saved): Spot {
    var b := H.NewBucket(key, x.addr, x.source);
    Spot(b, H.Position(key, true, b, x.addr))
  }

  /** No new record of the file before this one has the slot its source gives it. */
  predicate FirstNew(H: Hashing, d: Dump, i: nat)
    requires i < |d.newInfos|
  {
    forall j :: 0 <= j < i ==> NewSpot(H, d.key, d.newInfos[j]) != NewSpot(H, d.key, d.newInfos[i])
  }

  /** A new slot is free as long as no record of the file before has it, and the first one there has a reference. */
  ghost predicate NewFree(H: Hashing, d: Dump, t: Tables, n: nat)
    requires n <= |d.newInfos| && t.Shaped()
  {
    && (forall b: nat, p: nat :: b < NEW_BUCKETS && p < BUCKET_SIZE ==>
        (t.vvNew[b][p] == EMPTY <==> forall j :: 0 <= j < n ==> NewSpot(H, d.key, d.newInfos[j]) != Spot(b, p)))
    && (forall i :: i in t.places <==> 0 <= i < n)
    && (forall i :: 0 <= i < n ==> t.places[i].refCount == if FirstNew(H, d, i) then 1 else 0)
  }

  lemma NewFreeNext(H: Hashing, d: Dump, t: Tables, n: nat, t': Tables)
    requires Complete(d) && n < d.nNew && t.Shaped() && t.H == H && t.key == d.key && NewFree(H, d, t, n)
    requires t' == AddNewId(t, n, d.newInfos[n], false)
    ensures t'.Shaped() && NewFree(H, d, t', n + 1)
  {
    var x, s := d.newInfos[n], NewSpot(H, d.key, d.newInfos[n]);
    assert t.vvNew[s.bucket][s.pos] == EMPTY <==> FirstNew(H, d, n);
  }

  lemma {:induction false} NewsFree(H: Hashing, d: Dump, n: nat)
    requires Complete(d) && n <= d.nNew && !Usable(d)
    ensures NewFree(H, d, NewsTo(H, d, n).t, n)
  {
    if n > 0 {
      NewsFree(H, d, n - 1);
      NewFreeNext(H, d, NewsTo(H, d, n - 1).t, n - 1, NewsTo(H, d, n).t);
    }
  }

  ghost predicate FollowsOk(H: Hashing, d: Dump, f: nat -> Reading, n: nat) {
    Follows(H, d, f, n) && TriedTables(d, f(n))
  }

  lemma {:induction false} LeaveNewFrom(H: Hashing, d: Dump, f: nat -> Reading, n: nat, i: nat)
    requires n <= d.nTried && i in f(0).t.places
    requires forall k: nat :: k < d.nTried ==> FollowsOk(H, d, f, k)
    ensures i in f(n).t.places && f(n).t.places[i] == f(0).t.places[i]
  {
    if n > 0 {
      LeaveNewFrom(H, d, f, n - 1, i);
      assert FollowsOk(H, d, f, n - 1);
      TriedLeaves(d, f(n - 1), d.triedInfos[n - 1], i, f(n));
    }
  }

  lemma TriedsLeaveNew(H: Hashing, d: Dump, i: nat)
    requires Complete(d) && i in NewsTo(H, d, d.nNew).t.places
    ensures i in Loaded(H, d).t.places || Usable(d)
    ensures !Usable(d) ==> Loaded(H, d).t.places[i] == NewsTo(H, d, d.nNew).t.places[i]
  {
    var f := Readings(H, d);
    ReadingsFollow(H, d);
    forall k: nat | k < d.nTried ensures FollowsOk(H, d, f, k) {
      assert Follows(H, d, f, k);
      TriedsLoading(H, d, k);
    }
    LeaveNewFrom(H, d, f, d.nTried, i);
  }

  lemma TriedLeaves(d: Dump, r: Reading, x: Saved, i: nat, r': Reading)
    requires TriedTables(d, r) && r.t.Shaped() && i in r.t.places && r' == TriedNext(r, x)
    ensures i in r'.t.places && r'.t.places[i] == r.t.places[i]
  {
    if TriedSlotFree(r.t, x) { TriedIdPlaces(r.t, |r.kept|, x); }
  }

  /**
   If the buckets of a file cannot be used, a new record stays just if it is the first of the file in the
   slot that its source gives it.
   */
  lemma FallbackStays(H: Hashing, d: Dump, i: nat)
    requires Complete(d) && !Usable(d) && i < d.nNew
    ensures Stays(Loaded(H, d), i) <==> FirstNew(H, d, i)
  {
    NewsFree(H, d, d.nNew);
    TriedsLeaveNew(H, d, i);
    TriedsLoading(H, d, d.nTried);
  }
}
