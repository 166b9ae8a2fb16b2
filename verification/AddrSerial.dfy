/**
 Saving and restoring the address manager (src/addrman.h): what Serialize writes and what
 Unserialize rebuilds from it. Ids are renumbered: new ids first, then tried ids.
 */
module AddrSerial {
  import opened Seqs
  import opened AddrTables
  import opened AddrManager

  /** The persisted part of a record. */
  datatype Saved = Saved(addr: Service, time: int, services: set<nat>, source: NetAddr, lastSuccess: int, attempts: int)

  function Save(i: Info): Saved { Saved(i.addr, i.time, i.services, i.source, i.lastSuccess, i.attempts) }

  function Restore(x: Saved, refCount: int, inTried: bool, randomPos: int): Info {
    Info(x.addr, x.time, x.services, x.source, 0, 0, x.lastSuccess, x.attempts, refCount, inTried, randomPos)
  }

  /** The fields of the serialized form, in the order they are written. */
  datatype Dump = Dump(version: nat, keySize: nat, key: nat, nNew: nat, nTried: nat, nUBuckets: nat,
                       newInfos: seq<Saved>, triedInfos: seq<Saved>, buckets: seq<seq<int>>)

  const TWO30 := 0x4000_0000

  /** Exclusive or with 2^30. */
  function Xor30(n: nat): nat { if n / TWO30 % 2 == 1 then n - TWO30 else n + TWO30 }

  // ---- Enumerations ----

  predicate Distinct(ids: seq<int>) { forall i, j :: 0 <= i < j < |ids| ==> ids[i] != ids[j] }

  lemma IndexUnique(ids: seq<int>, k: nat)
    requires Distinct(ids) && k < |ids|
    ensures IndexOf(ids, ids[k]) == k
  {
    assert ids[k] in ids;
  }

  /** An enumeration of the new ids and one of the tried ids. */
  ghost predicate Enumerates(m: map<int, Info>, news: seq<int>, tried: seq<int>) {
    && Distinct(news) && Distinct(tried)
    && (forall i :: 0 <= i < |news| ==> news[i] in m && !m[news[i]].inTried)
    && (forall i :: 0 <= i < |tried| ==> tried[i] in m && m[tried[i]].inTried)
    && (forall id :: id in m && !m[id].inTried ==> id in news)
    && (forall id :: id in m && m[id].inTried ==> id in tried)
  }

  // ---- What is written ----

  function SaveAll(m: map<int, Info>, ids: seq<int>): (r: seq<Saved>)
    requires forall i :: 0 <= i < |ids| ==> ids[i] in m
    ensures |r| == |ids| && forall i :: 0 <= i < |ids| ==> r[i] == Save(m[ids[i]])
  {
    seq(|ids|, i requires 0 <= i < |ids| => Save(m[ids[i]]))
  }

  /** The occupied positions of a bucket among the first `n`, in order. */
  function Occupied(row: seq<int>, n: nat): (ps: seq<nat>)
    requires n <= |row|
    ensures forall k :: 0 <= k < |ps| ==> ps[k] < n && row[ps[k]] != EMPTY
    ensures forall k, l :: 0 <= k < l < |ps| ==> ps[k] < ps[l]
    ensures forall p: nat :: p < n && row[p] != EMPTY ==> p in ps
  {
    if n == 0 then [] else Occupied(row, n - 1) + (if row[n - 1] == EMPTY then [] else [n - 1])
  }

  /** The indexes written for one bucket: those of its occupants, by position. */
  function RowIndexes(row: seq<int>, news: seq<int>, n: nat): (r: seq<int>)
    requires n <= |row|
  {
    var ps := Occupied(row, n);
    seq(|ps|, k requires 0 <= k < |ps| => IndexOf(news, row[ps[k]]))
  }

  /** The serialized form of a manager. */
  ghost predicate IsDump(d: Dump, key: nat, m: map<int, Info>, vvNew: Table, news: seq<int>, tried: seq<int>)
    requires TableOf(vvNew, NEW_BUCKETS) && Enumerates(m, news, tried)
  {
    && d.version == 1 && d.keySize == 32 && d.key == key && d.nNew == |news| && d.nTried == |tried|
    && d.nUBuckets == Xor30(NEW_BUCKETS)
    && d.newInfos == SaveAll(m, news) && d.triedInfos == SaveAll(m, tried)
    && |d.buckets| == NEW_BUCKETS
    && forall b :: 0 <= b < NEW_BUCKETS ==> d.buckets[b] == RowIndexes(vvNew[b], news, BUCKET_SIZE)
  }

  /** How the source tells the two kinds of records apart. */
  predicate OfKind(i: Info, tried: bool) { if tried then i.inTried else i.refCount != 0 }

  /** The ids of one kind below a bound, in order. */
  function IdsBelow(m: map<int, Info>, tried: bool, n: nat): (ids: seq<int>)
    ensures Distinct(ids) && forall i :: 0 <= i < |ids| ==> 0 <= ids[i] < n && ids[i] in m && OfKind(m[ids[i]], tried)
    ensures forall id :: 0 <= id < n && id in m && OfKind(m[id], tried) ==> id in ids
  {
    if n == 0 then []
    else
      var ids := IdsBelow(m, tried, n - 1);
      if n - 1 in m && OfKind(m[n - 1], tried) then ids + [n - 1] else ids
  }

  /** Write the manager out. Both internal assertions on the counters hold. */
  method Serialize(am: AddrMan) returns (d: Dump, ghost news: seq<int>, ghost tried: seq<int>)
    requires am.Valid()
    ensures Enumerates(am.mapInfo, news, tried)
    ensures IsDump(d, am.key, am.mapInfo, am.vvNew, news, tried)
    ensures d.nNew == am.nNew && d.nTried == am.nTried
  {
    var newIds, newInfos := WriteRecords(am.mapInfo, false, am.nIdCount);
    var triedIds, triedInfos := WriteRecords(am.mapInfo, true, am.nIdCount);
    news, tried := newIds, triedIds;
    CountsMatch(am.Tabs(), am.mapInfo, am.nIdCount, newIds, triedIds);
    assert |newIds| == am.nNew && |triedIds| == am.nTried;
    var buckets := WriteBuckets(am.vvNew, newIds);
    d := Dump(1, 32, am.key, am.nNew, am.nTried, Xor30(NEW_BUCKETS), newInfos, triedInfos, buckets);
  }

  method WriteBuckets(vvNew: Table, news: seq<int>) returns (buckets: seq<seq<int>>)
    requires TableOf(vvNew, NEW_BUCKETS)
    ensures |buckets| == NEW_BUCKETS
    ensures forall b :: 0 <= b < NEW_BUCKETS ==> buckets[b] == RowIndexes(vvNew[b], news, BUCKET_SIZE)
  {
    buckets := [];
    for b := 0 to NEW_BUCKETS
      invariant |buckets| == b && forall c :: 0 <= c < b ==> buckets[c] == RowIndexes(vvNew[c], news, BUCKET_SIZE)
    {
      var row := WriteRow(vvNew[b], news);
      buckets := buckets + [row];
    }
  }

  // The records of one kind, by increasing id.
  method WriteRecords(m: map<int, Info>, tried: bool, n: nat) returns (ids: seq<int>, infos: seq<Saved>)
    ensures ids == IdsBelow(m, tried, n) && infos == SaveAll(m, ids)
  {
    ids, infos := [], [];
    for id := 0 to n
      invariant ids == IdsBelow(m, tried, id) && infos == SaveAll(m, ids)
    {
      if id in m && OfKind(m[id], tried) {
        assert SaveAll(m, ids + [id]) == SaveAll(m, ids) + [Save(m[id])];
        ids, infos := ids + [id], infos + [Save(m[id])];
      }
    }
  }

  method WriteRow(row: seq<int>, news: seq<int>) returns (r: seq<int>)
    requires |row| == BUCKET_SIZE
    ensures r == RowIndexes(row, news, BUCKET_SIZE)
  {
    r := [];
    for p := 0 to BUCKET_SIZE
      invariant r == RowIndexes(row, news, p)
    {
      if row[p] != EMPTY { r := r + [IndexOf(news, row[p])]; }
    }
  }

  lemma SizeOfEnumeration(ids: seq<int>, s: set<int>)
    requires Distinct(ids) && (forall i :: 0 <= i < |ids| ==> ids[i] in s) && (forall id :: id in s ==> id in ids)
    ensures |ids| == |s|
  {
    InjectiveSize(ids, |ids|);
    var r := set i | 0 <= i < |ids| :: ids[i];
    forall id | id in s ensures id in r { var i :| 0 <= i < |ids| && ids[i] == id; }
    forall id | id in r ensures id in s { var i :| 0 <= i < |ids| && ids[i] == id; }
    assert s == r;
  }

  lemma CountsMatch(t: Tables, m: map<int, Info>, n: nat, newIds: seq<int>, triedIds: seq<int>)
    requires t.Ok({}, 0) && t.places == Places(m) && IdsOk(m, n)
    requires newIds == IdsBelow(m, false, n) && triedIds == IdsBelow(m, true, n)
    ensures |newIds| == t.nNew && |triedIds| == t.nTried
    ensures Enumerates(m, newIds, triedIds)
  {
    KindsApart(t, m);
    KindCount(t, m, n, newIds, triedIds);
    assert t.NewIds() - {} == t.NewIds();
  }

  lemma KindsApart(t: Tables, m: map<int, Info>)
    requires t.Ok({}, 0) && t.places == Places(m)
    ensures forall id :: id in m ==> (OfKind(m[id], false) <==> !m[id].inTried)
  {
    forall id | id in m ensures OfKind(m[id], false) <==> !m[id].inTried { assert t.RefOk(id, {}); }
  }

  lemma KindCount(t: Tables, m: map<int, Info>, n: nat, newIds: seq<int>, triedIds: seq<int>)
    requires t.places == Places(m) && IdsOk(m, n) && forall id :: id in m ==> (OfKind(m[id], false) <==> !m[id].inTried)
    requires newIds == IdsBelow(m, false, n) && triedIds == IdsBelow(m, true, n)
    ensures |newIds| == |t.NewIds()| && |triedIds| == |t.TriedIds()| && Enumerates(m, newIds, triedIds)
  {
    SizeOfEnumeration(newIds, t.NewIds());
    SizeOfEnumeration(triedIds, t.TriedIds());
  }

  // ---- Renumbering ----

  /** A table with every id replaced by its index in the enumeration. */
  ghost predicate Renamed(t: Table, t': Table, order: seq<int>, buckets: nat)
    requires TableOf(t, buckets) && TableOf(t', buckets)
  {
    forall b: nat, p: nat :: b < buckets && p < BUCKET_SIZE ==>
      t'[b][p] == if t[b][p] == EMPTY then EMPTY else IndexOf(order, t[b][p])
  }

  /** Tables over renumbered ids, apart from reference counts. */
  ghost predicate Renumbered(src: Tables, t: Tables, order: seq<int>) {
    && src.Shaped() && t.Shaped() && t.H == src.H && t.key == src.key && t.nNew == src.nNew && t.nTried == src.nTried
    && Distinct(order) && (forall id :: id in src.places ==> id in order)
    && (forall i :: i in t.places <==> 0 <= i < |order|)
    && (forall i :: 0 <= i < |order| ==>
        && order[i] in src.places
        && t.places[i].addr == src.places[order[i]].addr && t.places[i].inTried == src.places[order[i]].inTried)
    && Renamed(src.vvNew, t.vvNew, order, NEW_BUCKETS) && Renamed(src.vvTried, t.vvTried, order, TRIED_BUCKETS)
  }

  ghost predicate Isomorphic(src: Tables, t: Tables, order: seq<int>) {
    Renumbered(src, t, order) && forall i :: 0 <= i < |order| ==> t.places[i] == src.places[order[i]]
  }

  /** A renumbered id occupies the same new buckets. */
  lemma SameRefs(src: Tables, t: Tables, order: seq<int>, i: nat)
    requires Renumbered(src, t, order) && src.NewOk() && EMPTY !in src.places && i < |order|
    ensures order[i] in src.places && t.Refs(i) == src.Refs(order[i])
  {
    var id := order[i];
    assert id in order;
    forall b: nat | b < NEW_BUCKETS ensures t.Occupies(i, b) <==> src.Occupies(id, b) {
      var p := src.NewPosOf(id, b);
      assert t.NewPosOf(i, b) == p;
      assert src.NewSlotOk(b, p);
      IndexUnique(order, i);
    }
  }
}
