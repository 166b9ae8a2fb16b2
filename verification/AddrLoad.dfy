/**
 Restoring the address manager (src/addrman.h, Unserialize). Whatever the file says, the rebuilt tables
 are consistent, and the whole manager is just if no entry that stays shares its address or has
 implausible statistics. A file written by Serialize rebuilds the same tables with ids renumbered.
 */
module AddrLoad {
  import opened Sets
  import opened Seqs
  import opened AddrTables
  import opened AddrManager
  import opened AddrSerial

  // ---- What is read ----

  /** The number of buckets in the file, recovered from its masked form. */
  function Buckets(d: Dump): nat { if d.version == 0 then d.nUBuckets else Xor30(d.nUBuckets) }

  /** Whether the recorded buckets can be used. */
  predicate Usable(d: Dump) { d.version == 1 && Buckets(d) == NEW_BUCKETS }

  predicate InLimits(d: Dump) {
    d.nNew <= NEW_BUCKETS * BUCKET_SIZE && d.nTried <= TRIED_BUCKETS * BUCKET_SIZE
  }

  function Records(d: Dump): seq<Saved> { d.newInfos + d.triedInfos }

  /** As many records and buckets as the header announces. */
  predicate Complete(d: Dump) {
    |d.newInfos| == d.nNew && |d.triedInfos| == d.nTried && |d.buckets| == Buckets(d)
  }

  /** No address twice; times of success are not negative, and positive for tried records. */
  predicate Plausible(d: Dump) {
    var rs := Records(d);
    && (forall i, j :: 0 <= i < j < |rs| ==> rs[i].addr.ip != rs[j].addr.ip)
    && (forall i :: 0 <= i < |rs| ==> rs[i].lastSuccess >= 0)
    && (forall i :: 0 <= i < |d.triedInfos| ==> d.triedInfos[i].lastSuccess > 0)
  }

  // Addresses among the first records.
  ghost function IpsTo(rs: seq<Saved>, n: nat): set<NetAddr>
    requires n <= |rs|
  {
    set j | 0 <= j < n :: rs[j].addr.ip
  }

  // ---- Tables under construction ----

  /** The new ids that are in no bucket yet. */
  ghost function Loose(t: Tables): set<int> {
    set id | id in t.places && !t.places[id].inTried && t.places[id].refCount == 0
  }

  /** Consistent but for the loose ids; `pending` more are counted than are there. */
  ghost predicate Loading(t: Tables, pending: int) { t.Ok(Loose(t), |Loose(t)| + pending) }

  lemma LoadingAdd(t: Tables, id: int, a: Service, pending: int)
    requires Loading(t, pending) && id !in t.places && id != EMPTY
    ensures Loading(AddId(t, id, a), pending - 1) && id in Loose(AddId(t, id, a))
  {
    AddIdOk(t, id, a, Loose(t), |Loose(t)| + pending);
    LooseAdd(t, id, a);
  }

  lemma LooseAdd(t: Tables, id: int, a: Service)
    requires id !in t.places
    ensures Loose(AddId(t, id, a)) == Loose(t) + {id} && |Loose(AddId(t, id, a))| == |Loose(t)| + 1
  {
    var t' := AddId(t, id, a);
    forall j ensures j in Loose(t') <==> j in Loose(t) || j == id {
      assert j != id && j in t.places ==> t'.places[j] == t.places[j];
    }
    assert Loose(t') == Loose(t) + {id};
  }

  lemma LoadingSlot(t: Tables, b: nat, id: int, pending: int)
    requires Loading(t, pending) && b < NEW_BUCKETS && id in t.places && !t.places[id].inTried
    requires t.places[id].refCount < NEW_BUCKETS_PER_ADDRESS && t.vvNew[b][t.NewPosOf(id, b)] == EMPTY
    ensures Loading(Slot(t, b, id), pending)
  {
    assert t.RefOk(id, Loose(t));
    SlotOk(t, b, id, Loose(t), |Loose(t)| + pending);
    assert Loose(Slot(t, b, id)) == Loose(t) - {id};
    assert id !in Loose(t) ==> Loose(t) - {id} == Loose(t);
  }

  lemma LoadingTry(t: Tables, id: int, pending: int)
    requires Loading(t, pending) && id in Loose(t) && t.vvTried[t.TriedBucketOf(id)][t.TriedPosOf(id)] == EMPTY
    ensures Loading(Try(t, id), pending + 1)
  {
    TryOk(t, id, Loose(t), |Loose(t)| + pending);
    LooseTry(t, id);
  }

  lemma LooseTry(t: Tables, id: int)
    requires t.Shaped() && id in Loose(t)
    ensures Loose(Try(t, id)) == Loose(t) - {id} && |Loose(Try(t, id))| == |Loose(t)| - 1
  {
  }

  lemma LoadingRemove(t: Tables, id: int, pending: int)
    requires Loading(t, pending) && id in Loose(t)
    ensures Loading(RemoveId(t, id), pending) && Loose(RemoveId(t, id)) == Loose(t) - {id}
  {
    RemoveIdOk(t, id, Loose(t), |Loose(t)| + pending);
    assert Loose(RemoveId(t, id)) == Loose(t) - {id};
  }

  // ---- Where a file comes from ----

  /** A consistent manager and the order in which its ids were written. */
  datatype Origin = Origin(src: Tables, m: map<int, Info>, news: seq<int>, tried: seq<int>)
  {
    function Order(): seq<int> { news + tried }
  }

  ghost predicate From(o: Origin, d: Dump, H: Hashing) {
    && o.src.Ok({}, 0) && o.src.H == H && o.src.places == Places(o.m)
    && Enumerates(o.m, o.news, o.tried) && IsDump(d, o.src.key, o.m, o.src.vvNew, o.news, o.tried)
    && d.nNew == o.src.nNew && d.nTried == o.src.nTried
  }

  lemma OrderDistinct(o: Origin)
    requires Enumerates(o.m, o.news, o.tried)
    ensures Distinct(o.Order()) && |o.Order()| == |o.news| + |o.tried|
    ensures forall i :: 0 <= i < |o.Order()| ==> o.Order()[i] in o.m && (o.m[o.Order()[i]].inTried <==> i >= |o.news|)
    ensures forall id :: id in o.m ==> id in o.Order()
  {
  }

  lemma IndexInNews(o: Origin, id: int)
    requires Enumerates(o.m, o.news, o.tried) && id in o.news
    ensures IndexOf(o.Order(), id) == IndexOf(o.news, id) < |o.news|
  {
    OrderDistinct(o);
    IndexUnique(o.Order(), IndexOf(o.news, id));
  }

  predicate Before(b: nat, p: nat, b': nat, p': nat) { b < b' || (b == b' && p < p') }

  /** The tried table restored for the first `k` ids. */
  ghost predicate TriedTo(o: Origin, t: Table, k: nat)
    requires o.src.Shaped() && TableOf(t, TRIED_BUCKETS)
  {
    forall b: nat, p: nat :: b < TRIED_BUCKETS && p < BUCKET_SIZE ==>
      t[b][p] == var i := IndexOf(o.Order(), o.src.vvTried[b][p]); if i < k then i else EMPTY
  }

  /** The new table restored up to a slot. */
  ghost predicate NewTo(o: Origin, t: Table, b': nat, p': nat)
    requires o.src.Shaped() && TableOf(t, NEW_BUCKETS)
  {
    forall b: nat, p: nat :: b < NEW_BUCKETS && p < BUCKET_SIZE ==>
      t[b][p] == if o.src.vvNew[b][p] != EMPTY && Before(b, p, b', p') then IndexOf(o.Order(), o.src.vvNew[b][p])
        else EMPTY
  }

  /** The first `k` records restored, with reference counts to come. */
  ghost predicate RecordsTo(o: Origin, m: map<int, Info>, k: nat) {
    && k <= |o.Order()| && (forall i :: i in m <==> 0 <= i < k)
    && (forall i :: 0 <= i < k ==> o.Order()[i] in o.m)
    && (forall i :: 0 <= i < k ==>
        m[i] == Restore(Save(o.m[o.Order()[i]]), m[i].refCount, o.m[o.Order()[i]].inTried, i))
  }

  // ---- Steps on the record of progress ----

  lemma TriedStepNew(o: Origin, t: Table, k: nat)
    requires o.src.Ok({}, 0) && o.src.places == Places(o.m) && Enumerates(o.m, o.news, o.tried)
    requires TableOf(t, TRIED_BUCKETS) && TriedTo(o, t, k) && k < |o.news|
    ensures TriedTo(o, t, k + 1)
  {
    forall b: nat, p: nat | b < TRIED_BUCKETS && p < BUCKET_SIZE ensures IndexOf(o.Order(), o.src.vvTried[b][p]) != k {
      assert o.src.TriedSlotOk(b, p);
    }
  }

  /** The slot of the next tried record is free, and filling it is all that is to do. */
  lemma TriedStep(o: Origin, t: Table, k: nat)
    requires o.src.Ok({}, 0) && o.src.places == Places(o.m) && Enumerates(o.m, o.news, o.tried)
    requires TableOf(t, TRIED_BUCKETS) && TriedTo(o, t, k) && |o.news| <= k < |o.Order()|
    ensures o.Order()[k] in o.src.places
    ensures var b, p := o.src.TriedBucketOf(o.Order()[k]), o.src.TriedPosOf(o.Order()[k]);
            t[b][p] == EMPTY && TriedTo(o, Put(t, b, p, k), k + 1)
  {
    OrderDistinct(o);
    var id := o.Order()[k];
    var b, p := o.src.TriedBucketOf(id), o.src.TriedPosOf(id);
    IndexUnique(o.Order(), k);
    assert o.src.vvTried[b][p] == id;
    PutTwice(t, b, p, k, k);
    forall c: nat, q: nat | c < TRIED_BUCKETS && q < BUCKET_SIZE && !(c == b && q == p)
      ensures IndexOf(o.Order(), o.src.vvTried[c][q]) != k
    {
      assert o.src.TriedSlotOk(c, q);
    }
  }

  lemma NewStep(o: Origin, t: Table, b: nat, p: nat, p': nat)
    requires o.src.Shaped() && TableOf(t, NEW_BUCKETS) && b < NEW_BUCKETS && p < p' <= BUCKET_SIZE
    requires NewTo(o, t, b, p) && o.src.vvNew[b][p] != EMPTY
    requires forall q: nat :: p < q < p' ==> o.src.vvNew[b][q] == EMPTY
    ensures t[b][p] == EMPTY && NewTo(o, Put(t, b, p, IndexOf(o.Order(), o.src.vvNew[b][p])), b, p')
  {
    PutTwice(t, b, p, IndexOf(o.Order(), o.src.vvNew[b][p]), 0);
  }

  lemma NewSkip(o: Origin, t: Table, b: nat, p: nat, p': nat)
    requires o.src.Shaped() && TableOf(t, NEW_BUCKETS) && b < NEW_BUCKETS && p <= p' <= BUCKET_SIZE
    requires NewTo(o, t, b, p) && forall q: nat :: p <= q < p' ==> o.src.vvNew[b][q] == EMPTY
    ensures NewTo(o, t, b, p')
    ensures p' == BUCKET_SIZE ==> NewTo(o, t, b + 1, 0)
  {
  }

  /** The next occupied position of a bucket, if any. */
  function NextOccupied(row: seq<int>, n: nat): (p: nat)
    requires |row| == BUCKET_SIZE && n <= |Occupied(row, BUCKET_SIZE)|
    ensures p <= BUCKET_SIZE
  {
    var ps := Occupied(row, BUCKET_SIZE);
    if n < |ps| then ps[n] else BUCKET_SIZE
  }

  lemma NothingBetween(ps: seq<nat>, q: nat, n: nat)
    requires (forall k, l :: 0 <= k < l < |ps| ==> ps[k] < ps[l]) && q in ps && n <= |ps| && (n > 0 ==> ps[n - 1] < q)
    ensures n < |ps| && ps[n] <= q
  {
    var k :| 0 <= k < |ps| && ps[k] == q;
  }

  lemma NextIsNext(row: seq<int>, n: nat)
    requires |row| == BUCKET_SIZE && n <= |Occupied(row, BUCKET_SIZE)|
    ensures forall q: nat :: q < NextOccupied(row, n) && (n > 0 ==> NextOccupied(row, n - 1) < q) ==> row[q] == EMPTY
    ensures n > 0 ==> NextOccupied(row, n - 1) < NextOccupied(row, n)
  {
    var ps := Occupied(row, BUCKET_SIZE);
    forall q: nat | q < NextOccupied(row, n) && (n > 0 ==> NextOccupied(row, n - 1) < q) ensures row[q] == EMPTY {
      if row[q] != EMPTY { NothingBetween(ps, q, n); }
    }
  }

  /** An id of the file has had fewer references restored than it has, before the slot at hand. */
  lemma RoomForRef(o: Origin, t: Tables, b: nat, p: nat, i: nat)
    requires o.src.Ok({}, 0) && t.Shaped() && t.H == o.src.H && t.key == o.src.key && NewTo(o, t.vvNew, b, p)
    requires b < NEW_BUCKETS && p < BUCKET_SIZE && i in t.places && Distinct(o.Order())
    requires i < |o.Order()| && o.Order()[i] in o.src.places && t.places[i].addr == o.src.places[o.Order()[i]].addr
    requires o.src.vvNew[b][p] == o.Order()[i]
    ensures |t.Refs(i)| < NEW_BUCKETS_PER_ADDRESS && t.NewPosOf(i, b) == p && !o.src.places[o.Order()[i]].inTried
  {
    var id := o.Order()[i];
    assert o.src.NewSlotOk(b, p) && o.src.RefOk(id, {});
    assert b in o.src.Refs(id) && b !in t.Refs(i);
    forall c: nat | c in t.Refs(i) ensures c in o.src.Refs(id) {
      assert t.Occupies(i, c) && t.NewPosOf(i, c) == o.src.NewPosOf(id, c);
    }
    Smaller(t.Refs(i), o.src.Refs(id), b);
  }

  lemma Smaller(s: set<nat>, s': set<nat>, x: nat)
    requires s <= s' && x in s' && x !in s
    ensures |s| < |s'|
  {
    SubsetSize(s, s' - {x});
  }

  lemma TablesRestored(o: Origin, t: Tables)
    requires o.src.Ok({}, 0) && o.src.places == Places(o.m) && Enumerates(o.m, o.news, o.tried) && t.Shaped()
    requires TriedTo(o, t.vvTried, |o.Order()|) && NewTo(o, t.vvNew, NEW_BUCKETS, 0)
    ensures Renamed(o.src.vvNew, t.vvNew, o.Order(), NEW_BUCKETS) &&
            Renamed(o.src.vvTried, t.vvTried, o.Order(), TRIED_BUCKETS)
  {
    OrderDistinct(o);
    forall b: nat, p: nat | b < TRIED_BUCKETS && p < BUCKET_SIZE
      ensures t.vvTried[b][p] == if o.src.vvTried[b][p] == EMPTY then EMPTY else IndexOf(o.Order(), o.src.vvTried[b][p])
    {
      assert o.src.TriedSlotOk(b, p);
    }
  }

  lemma PlaceRestored(src: Tables, t: Tables, order: seq<int>, i: nat)
    requires src.Ok({}, 0) && Loading(t, 0) && Renumbered(src, t, order) && i < |order|
    ensures t.places[i] == src.places[order[i]] && i !in Loose(t)
  {
    SameRefs(src, t, order, i);
    assert t.RefOk(i, Loose(t)) && src.RefOk(order[i], {});
  }

  lemma AllRenumbered(o: Origin, m: map<int, Info>, t: Tables)
    requires o.src.Ok({}, 0) && o.src.places == Places(o.m) && Enumerates(o.m, o.news, o.tried)
    requires t.places == Places(m) && t.Shaped() && t.H == o.src.H && t.key == o.src.key
    requires t.nNew == o.src.nNew && t.nTried == o.src.nTried
    requires RecordsTo(o, m, |o.Order()|) && TriedTo(o, t.vvTried, |o.Order()|) && NewTo(o, t.vvNew, NEW_BUCKETS, 0)
    ensures Renumbered(o.src, t, o.Order())
  {
    OrderDistinct(o);
    TablesRestored(o, t);
  }

  /** Everything restored: the tables are those of the origin, renumbered, and nothing is loose. */
  lemma AllRestored(o: Origin, m: map<int, Info>, t: Tables)
    requires o.src.Ok({}, 0) && o.src.places == Places(o.m) && Enumerates(o.m, o.news, o.tried)
    requires t.places == Places(m) && Loading(t, 0) && t.H == o.src.H && t.key == o.src.key
    requires t.nNew == o.src.nNew && t.nTried == o.src.nTried
    requires RecordsTo(o, m, |o.Order()|) && TriedTo(o, t.vvTried, |o.Order()|) && NewTo(o, t.vvNew, NEW_BUCKETS, 0)
    ensures Isomorphic(o.src, t, o.Order()) && Loose(t) == {}
  {
    AllRenumbered(o, m, t);
    forall i: nat | i < |o.Order()| ensures t.places[i] == o.src.places[o.Order()[i]] && i !in Loose(t) {
      PlaceRestored(o.src, t, o.Order(), i);
    }
    forall id ensures id !in Loose(t) { assert id in t.places ==> 0 <= id < |o.Order()|; }
  }

  // ---- Reading a file ----

  /** Every record is one of the file's. */
  predicate FromFile(d: Dump, m: map<int, Info>) { forall id :: id in m ==> Save(m[id]) in Records(d) }

  /** The records read so far, by id. */
  ghost predicate Holds(d: Dump, kept: seq<Saved>, m: map<int, Info>) {
    && (forall i :: i in m <==> 0 <= i < |kept|)
    && (forall i :: 0 <= i < |kept| ==> m[i] == Restore(kept[i], m[i].refCount, i >= d.nNew, i))
  }

  /** An address leads to the last record that has it. */
  ghost predicate Latest(kept: seq<Saved>, mapAddr: map<NetAddr, int>) {
    && (forall i :: 0 <= i < |kept| ==> kept[i].addr.ip in mapAddr && i <= mapAddr[kept[i].addr.ip])
    && (forall a :: a in mapAddr ==> 0 <= mapAddr[a] < |kept| && kept[mapAddr[a]].addr.ip == a)
  }

  ghost predicate Listed(d: Dump, kept: seq<Saved>, m: map<int, Info>, mapAddr: map<NetAddr, int>) {
    Holds(d, kept, m) && Latest(kept, mapAddr)
  }

  lemma ListedMore(d: Dump, kept: seq<Saved>, m: map<int, Info>, mapAddr: map<NetAddr, int>, x: Saved, i: Info)
    requires Listed(d, kept, m, mapAddr) && i == Restore(x, i.refCount, |kept| >= d.nNew, |kept|)
    ensures Listed(d, kept + [x], m[|kept| := i], mapAddr[x.addr.ip := |kept|])
  {
  }

  // A restored record, not yet in any bucket.
  method Append(am: AddrMan, x: Saved) returns (id: int)
    requires am.Linked()
    modifies am`nIdCount, am`mapInfo, am`mapAddr, am`vRandom
    ensures am.Linked() && id == old(am.nIdCount) && am.nIdCount == id + 1 && |am.vRandom| == |old(am.vRandom)| + 1
    ensures am.mapInfo == old(am.mapInfo)[id := Restore(x, 0, false, |old(am.vRandom)|)]
    ensures am.mapAddr == old(am.mapAddr)[x.addr.ip := id]
    ensures am.Tabs() == AddId(old(am.Tabs()), id, x.addr)
  {
    id := am.nIdCount;
    var i := Restore(x, 0, false, |am.vRandom|);
    PlacesPut(am.mapInfo, id, i);
    am.nIdCount := id + 1;
    am.StoreIndex(am.mapInfo[id := i], am.mapAddr[x.addr.ip := id], am.vRandom + [id]);
  }

  // ---- What a file is read into ----

  /** The tables before anything is read. */
  function Start(H: Hashing, d: Dump): Tables {
    Tables(H, d.key, map[], 0, EmptyTable(TRIED_BUCKETS), d.nNew, EmptyTable(NEW_BUCKETS))
  }

  /** The tables and the records read so far; a record's place in the list is its id. */
  datatype Reading = Reading(t: Tables, kept: seq<Saved>)

  /** One more record of the new table... */
  function NewNext(r: Reading, x: Saved, usable: bool): Reading
    requires r.t.Shaped()
  {
    Reading(AddNewId(r.t, |r.kept|, x, usable), r.kept + [x])
  }

  /** ... or of the tried table, which is skipped if its slot is taken. */
  function TriedNext(r: Reading, x: Saved): Reading
    requires r.t.Shaped()
  {
    if TriedSlotFree(r.t, x) then Reading(AddTriedId(r.t, |r.kept|, x), r.kept + [x]) else r
  }

  /** After the first records of the new table. */
  function NewsTo(H: Hashing, d: Dump, n: nat): (r: Reading)
    requires Complete(d) && n <= d.nNew
    ensures r.t.Shaped() && r.t.H == H && r.t.key == d.key && r.t.nTried == 0 && r.kept == d.newInfos[..n]
  {
    if n == 0 then Reading(Start(H, d), []) else NewNext(NewsTo(H, d, n - 1), d.newInfos[n - 1], Usable(d))
  }

  /** After the first records of the tried table. */
  function TriedsTo(H: Hashing, d: Dump, n: nat): (r: Reading)
    requires Complete(d) && n <= d.nTried
    ensures r.t.Shaped() && r.t.H == H && r.t.key == d.key && |r.kept| >= d.nNew
  {
    if n == 0 then NewsTo(H, d, d.nNew) else TriedNext(TriedsTo(H, d, n - 1), d.triedInfos[n - 1])
  }

  /** After the first indexes of a bucket. */
  function RowTo(t: Tables, d: Dump, b: nat, n: nat): (t': Tables)
    requires t.Shaped() && b < NEW_BUCKETS && b < |d.buckets| && n <= |d.buckets[b]|
    ensures t'.Shaped()
  {
    if n == 0 then t else AddRef(RowTo(t, d, b, n - 1), b, d.buckets[b][n - 1], d.nNew)
  }

  /** After the first buckets. */
  function BucketsTo(t: Tables, d: Dump, b: nat): (t': Tables)
    requires t.Shaped() && b <= NEW_BUCKETS <= |d.buckets|
    ensures t'.Shaped()
  {
    if b == 0 then t else RowTo(BucketsTo(t, d, b - 1), d, b - 1, |d.buckets[b - 1]|)
  }

  /** After the whole file, before pruning. */
  function Loaded(H: Hashing, d: Dump): Reading
    requires Complete(d)
  {
    var r := TriedsTo(H, d, d.nTried);
    if Usable(d) then r.(t := BucketsTo(r.t, d, NEW_BUCKETS)) else r
  }

  lemma {:induction false} KeptInFile(H: Hashing, d: Dump, n: nat)
    requires Complete(d) && n <= d.nTried
    ensures forall i :: 0 <= i < |TriedsTo(H, d, n).kept| ==> TriedsTo(H, d, n).kept[i] in Records(d)
  {
    if n > 0 {
      KeptInFile(H, d, n - 1);
      assert Records(d)[d.nNew + n - 1] == d.triedInfos[n - 1];
    } else {
      forall i | 0 <= i < d.nNew ensures d.newInfos[i] in Records(d) { assert Records(d)[i] == d.newInfos[i]; }
    }
  }

  // ---- Records of the new table ----

  /** A record joins the new ids; without usable buckets it gets the one of its primary source, if free. */
  function AddNewId(t: Tables, id: int, x: Saved, usable: bool): Tables
    requires t.Shaped()
  {
    var u := AddId(t, id, x.addr);
    var bucket := t.H.NewBucket(t.key, x.addr, x.source);
    if !usable && u.vvNew[bucket][u.NewPosOf(id, bucket)] == EMPTY then Slot(u, bucket, id) else u
  }

  method ReadNew(am: AddrMan, x: Saved, usable: bool)
    requires am.Linked() && am.Tabs().Shaped()
    modifies am`nIdCount, am`mapInfo, am`mapAddr, am`vRandom, am`vvNew
    ensures am.Linked() && am.nIdCount == old(am.nIdCount) + 1 && |am.vRandom| == |old(am.vRandom)| + 1
    ensures am.mapAddr == old(am.mapAddr)[x.addr.ip := old(am.nIdCount)]
    ensures am.Tabs() == AddNewId(old(am.Tabs()), old(am.nIdCount), x, usable)
    ensures old(am.nIdCount) in am.mapInfo
    ensures am.mapInfo ==
            old(am.mapInfo)[old(am.nIdCount) :=
                            Restore(x, am.mapInfo[old(am.nIdCount)].refCount, false, |old(am.vRandom)|)]
  {
    var id := Append(am, x);
    if !usable {
      var bucket := am.H.NewBucket(am.key, x.addr, x.source);
      if am.vvNew[bucket][am.H.Position(am.key, true, bucket, x.addr)] == EMPTY {
        am.FillSlot(bucket, id);
      }
    }
  }

  lemma LoadingNew(t: Tables, id: int, x: Saved, usable: bool, pending: int)
    requires Loading(t, pending) && id !in t.places && id != EMPTY
    ensures Loading(AddNewId(t, id, x, usable), pending - 1)
  {
    LoadingAdd(t, id, x.addr, pending);
    var u, bucket := AddId(t, id, x.addr), t.H.NewBucket(t.key, x.addr, x.source);
    if !usable && u.vvNew[bucket][u.NewPosOf(id, bucket)] == EMPTY {
      LoadingSlot(u, bucket, id, pending - 1);
    }
  }

  /** The tables after some records of the new table, whose ids are the first. */
  ghost predicate NewTables(d: Dump, t: Tables, n: nat) { Loading(t, d.nNew - n) && OnlyNew(d, t, n) }

  ghost predicate OnlyNew(d: Dump, t: Tables, n: nat) {
    && t.nNew == d.nNew && t.key == d.key && t.nTried == 0
    && (forall i :: i in t.places <==> 0 <= i < n) && (forall i :: 0 <= i < n ==> !t.places[i].inTried)
  }

  lemma {:induction false} NewsLoading(H: Hashing, d: Dump, n: nat)
    requires Complete(d) && n <= d.nNew
    ensures NewTables(d, NewsTo(H, d, n).t, n)
  {
    if n == 0 {
      StartLoading(H, d);
    } else {
      NewsLoading(H, d, n - 1);
      NewLoading(d, NewsTo(H, d, n - 1).t, n - 1, n);
    }
  }

  lemma StartLoading(H: Hashing, d: Dump)
    ensures NewTables(d, Start(H, d), 0)
  {
    var t := Tables(H, d.key, map[], 0, EmptyTable(TRIED_BUCKETS), 0, EmptyTable(NEW_BUCKETS));
    EmptyOk(H, d.key);
    CountOk(t, {}, 0, d.nNew);
    assert Loose(t.(nNew := d.nNew)) == {};
  }

  // What a new record changes but for the buckets.
  lemma NewIdPlaces(t: Tables, id: int, x: Saved, usable: bool)
    requires t.Shaped() && id !in t.places
    ensures var t' := AddNewId(t, id, x, usable);
            && t'.nNew == t.nNew && t'.key == t.key && t'.nTried == t.nTried && t'.places.Keys == t.places.Keys + {id}
            && !t'.places[id].inTried && forall i :: i in t.places ==> t'.places[i] == t.places[i]
  {
  }

  lemma NewLoading(d: Dump, t: Tables, n: nat, n': nat)
    requires Complete(d) && n < d.nNew && NewTables(d, t, n) && n' == n + 1
    ensures NewTables(d, AddNewId(t, n, d.newInfos[n], Usable(d)), n')
  {
    var x := d.newInfos[n];
    LoadingNew(t, n, x, Usable(d), d.nNew - n);
    NewIdPlaces(t, n, x, Usable(d));
    OneNewId(d, t, n, AddNewId(t, n, x, Usable(d)));
  }

  lemma OneNewId(d: Dump, t: Tables, n: nat, t': Tables)
    requires OnlyNew(d, t, n) && t'.places.Keys == t.places.Keys + {n}
    requires t'.nNew == t.nNew && t'.key == t.key && t'.nTried == t.nTried
    requires !t'.places[n].inTried && forall i :: i in t.places ==> t'.places[i] == t.places[i]
    ensures OnlyNew(d, t', n + 1)
  {
    forall i ensures i in t'.places <==> 0 <= i < n + 1 {
      assert i in t'.places.Keys <==> i in t.places.Keys || i == n;
    }
  }

  /** With a file from `o`, the records of the new table leave both tables empty. */
  lemma {:induction false} NewsFrom(o: Origin, H: Hashing, d: Dump, n: nat)
    requires Complete(d) && n <= d.nNew && From(o, d, H)
    ensures TriedTo(o, NewsTo(H, d, n).t.vvTried, n) && NewTo(o, NewsTo(H, d, n).t.vvNew, 0, 0)
  {
    if n == 0 {
      StartsEmpty(o, H, d);
    } else {
      NewsFrom(o, H, d, n - 1);
      OrderDistinct(o);
      TriedStepNew(o, NewsTo(H, d, n - 1).t.vvTried, n - 1);
    }
  }

  lemma StartsEmpty(o: Origin, H: Hashing, d: Dump)
    requires o.src.Shaped()
    ensures TriedTo(o, Start(H, d).vvTried, 0) && NewTo(o, Start(H, d).vvNew, 0, 0)
  {
  }

  /** What has been read is what the manager holds. */
  ghost predicate Reads(am: AddrMan, d: Dump, r: Reading)
    reads am
  {
    && am.Linked() && am.nIdCount == |am.vRandom| == |r.kept| && am.Tabs() == r.t
    && Listed(d, r.kept, am.mapInfo, am.mapAddr)
  }

  method ReadNews(am: AddrMan, d: Dump)
    requires Complete(d) && Reads(am, d, Reading(Start(am.H, d), []))
    modifies am`nIdCount, am`mapInfo, am`mapAddr, am`vRandom, am`vvNew
    ensures Reads(am, d, NewsTo(am.H, d, d.nNew))
  {
    for n := 0 to d.nNew
      invariant Reads(am, d, NewsTo(am.H, d, n))
    {
      ReadOneNew(am, d, d.newInfos[n], NewsTo(am.H, d, n));
    }
  }

  method ReadOneNew(am: AddrMan, d: Dump, x: Saved, ghost r: Reading)
    requires Reads(am, d, r) && r.t.Shaped() && |r.kept| < d.nNew
    modifies am`nIdCount, am`mapInfo, am`mapAddr, am`vRandom, am`vvNew
    ensures Reads(am, d, NewNext(r, x, Usable(d)))
  {
    ghost var m, a := am.mapInfo, am.mapAddr;
    ReadNew(am, x, Usable(d));
    ListedMore(d, r.kept, m, a, x, am.mapInfo[|r.kept|]);
  }

  // ---- Records of the tried table ----

  /** A record enters its tried slot, or is lost if that is taken. */
  function AddTriedId(t: Tables, id: int, x: Saved): Tables
    requires t.Shaped()
  {
    if TriedSlotFree(t, x) then Try(AddId(t, id, x.addr), id) else t
  }

  predicate TriedSlotFree(t: Tables, x: Saved)
    requires t.Shaped()
  {
    var b := t.H.TriedBucket(t.key, x.addr);
    t.vvTried[b][t.H.Position(t.key, false, b, x.addr)] == EMPTY
  }

  method ReadTried(am: AddrMan, x: Saved) returns (lost: bool)
    requires am.Linked() && am.Tabs().Shaped()
    modifies am`nIdCount, am`mapInfo, am`mapAddr, am`vRandom, am`vvTried, am`nTried
    ensures am.Linked() && lost == !TriedSlotFree(old(am.Tabs()), x)
    ensures am.Tabs() == AddTriedId(old(am.Tabs()), old(am.nIdCount), x)
    ensures if lost then am.nIdCount == old(am.nIdCount) && |am.vRandom| == |old(am.vRandom)| &&
                         am.mapAddr == old(am.mapAddr) && am.mapInfo == old(am.mapInfo)
            else am.nIdCount == old(am.nIdCount) + 1 && |am.vRandom| == |old(am.vRandom)| + 1 &&
                 am.mapAddr == old(am.mapAddr)[x.addr.ip := old(am.nIdCount)] &&
                 am.mapInfo == old(am.mapInfo)[old(am.nIdCount) := Restore(x, 0, true, |old(am.vRandom)|)]
  {
    var bucket := am.H.TriedBucket(am.key, x.addr);
    lost := am.vvTried[bucket][am.H.Position(am.key, false, bucket, x.addr)] != EMPTY;
    if !lost {
      var id := Append(am, x);
      am.SetTried(id, true);
    }
  }

  lemma LoadingTried(t: Tables, id: int, x: Saved)
    requires Loading(t, 0) && id !in t.places && id != EMPTY
    ensures Loading(AddTriedId(t, id, x), 0)
  {
    if TriedSlotFree(t, x) {
      LoadingAdd(t, id, x.addr, 0);
      LoadingTry(AddId(t, id, x.addr), id, -1);
    }
  }

  lemma TriedSlotStep(o: Origin, t: Tables, k: nat, x: Saved)
    requires o.src.Ok({}, 0) && o.src.places == Places(o.m) && Enumerates(o.m, o.news, o.tried)
    requires t.Shaped() && t.H == o.src.H && t.key == o.src.key && TriedTo(o, t.vvTried, k) &&
             |o.news| <= k < |o.Order()|
    requires o.Order()[k] in o.m && x.addr == o.m[o.Order()[k]].addr
    ensures TriedSlotFree(t, x) && AddTriedId(t, k, x).Shaped() && TriedTo(o, AddTriedId(t, k, x).vvTried, k + 1)
  {
    TriedStep(o, t.vvTried, k);
  }

  /** The tables after some records of the tried table. */
  ghost predicate TriedTables(d: Dump, r: Reading) {
    && Loading(r.t, 0) && r.t.nNew == d.nNew && r.t.key == d.key && |r.kept| == d.nNew + r.t.nTried
    && (forall i :: i in r.t.places <==> 0 <= i < |r.kept|)
    && (forall i :: 0 <= i < |r.kept| ==> (r.t.places[i].inTried <==> i >= d.nNew))
  }

  lemma {:induction false} TriedsLoading(H: Hashing, d: Dump, n: nat)
    requires Complete(d) && n <= d.nTried
    ensures TriedTables(d, TriedsTo(H, d, n))
  {
    if n == 0 {
      NewsLoading(H, d, d.nNew);
    } else {
      TriedsLoading(H, d, n - 1);
      var r := TriedsTo(H, d, n - 1);
      if TriedSlotFree(r.t, d.triedInfos[n - 1]) { TriedLoading(d, r, d.triedInfos[n - 1]); }
    }
  }

  lemma TriedIdPlaces(t: Tables, id: int, x: Saved)
    requires t.Shaped() && id !in t.places && TriedSlotFree(t, x)
    ensures var t' := AddTriedId(t, id, x);
            && t'.nNew == t.nNew && t'.key == t.key && t'.nTried == t.nTried + 1 &&
               t'.places.Keys == t.places.Keys + {id}
            && t'.places[id].inTried && forall i :: i in t.places ==> t'.places[i] == t.places[i]
  {
  }

  lemma TriedLoading(d: Dump, r: Reading, x: Saved)
    requires TriedTables(d, r) && TriedSlotFree(r.t, x)
    ensures TriedTables(d, Reading(AddTriedId(r.t, |r.kept|, x), r.kept + [x]))
  {
    var k := |r.kept|;
    var t' := AddTriedId(r.t, k, x);
    assert Loading(t', 0) by { LoadingTried(r.t, k, x); }
    TriedIdPlaces(r.t, k, x);
    forall i ensures i in t'.places <==> 0 <= i < k + 1 {
      assert i in t'.places.Keys <==> i in r.t.places.Keys || i == k;
    }
    TriedIdsCount(r.t);
  }

  /** The first `k` records have been read and all were kept. */
  ghost predicate AllKept(o: Origin, d: Dump, r: Reading, k: nat) {
    && r.t.Shaped() && o.src.Shaped() && d.nNew <= k == |r.kept| <= |Records(d)| && r.t.nTried == k - d.nNew
    && (forall i :: 0 <= i < k ==> r.kept[i] == Records(d)[i])
    && TriedTo(o, r.t.vvTried, k) && NewTo(o, r.t.vvNew, 0, 0)
  }

  /** With a file from `o` no tried record is lost. */
  lemma {:induction false} TriedsFrom(o: Origin, H: Hashing, d: Dump, n: nat)
    requires Complete(d) && n <= d.nTried && From(o, d, H)
    ensures AllKept(o, d, TriedsTo(H, d, n), d.nNew + n)
  {
    if n == 0 {
      NewsKept(o, H, d);
    } else {
      TriedsFrom(o, H, d, n - 1);
      TriedFrom(o, H, d, TriedsTo(H, d, n - 1), n - 1, d.nNew + n, TriedsTo(H, d, n));
    }
  }

  lemma NewsKept(o: Origin, H: Hashing, d: Dump)
    requires Complete(d) && From(o, d, H)
    ensures AllKept(o, d, NewsTo(H, d, d.nNew), d.nNew)
  {
    NewsFrom(o, H, d, d.nNew);
    assert d.newInfos[..d.nNew] == d.newInfos;
  }

  lemma TriedFrom(o: Origin, H: Hashing, d: Dump, r: Reading, n: nat, k': nat, r': Reading)
    requires Complete(d) && n < d.nTried && From(o, d, H) && r.t.H == H && r.t.key == d.key
    requires AllKept(o, d, r, d.nNew + n) && k' == d.nNew + n + 1 && r' == TriedNext(r, d.triedInfos[n])
    ensures AllKept(o, d, r', k')
  {
    var x, k := d.triedInfos[n], d.nNew + n;
    assert Records(d)[k] == x;
    assert k < |o.Order()| && o.Order()[k] == o.tried[n];
    TriedSlotStep(o, r.t, k, x);
  }

  /** Read the tried records; those whose slot is taken are lost and no longer counted. */
  method ReadTrieds(am: AddrMan, d: Dump) returns (nLost: nat)
    requires Complete(d) && Reads(am, d, NewsTo(am.H, d, d.nNew)) && am.nTried == 0
    modifies am`nIdCount, am`mapInfo, am`mapAddr, am`vRandom, am`vvTried, am`nTried
    ensures Reads(am, d, TriedsTo(am.H, d, d.nTried)) && am.nTried == d.nTried - nLost
  {
    nLost := 0;
    for n := 0 to d.nTried
      invariant Reads(am, d, TriedsTo(am.H, d, n)) && am.nTried == n - nLost
    {
      var lost := ReadOneTried(am, d, d.triedInfos[n], TriedsTo(am.H, d, n));
      if lost { nLost := nLost + 1; }
    }
  }

  method ReadOneTried(am: AddrMan, d: Dump, x: Saved, ghost r: Reading) returns (lost: bool)
    requires Reads(am, d, r) && r.t.Shaped() && |r.kept| >= d.nNew
    modifies am`nIdCount, am`mapInfo, am`mapAddr, am`vRandom, am`vvTried, am`nTried
    ensures Reads(am, d, TriedNext(r, x)) && am.nTried == old(am.nTried) + (if lost then 0 else 1)
  {
    ghost var m, a := am.mapInfo, am.mapAddr;
    lost := ReadTried(am, x);
    if !lost { ListedMore(d, r.kept, m, a, x, am.mapInfo[|r.kept|]); }
  }

  // ---- Positions in the new table ----

  /** A recorded index takes its place in a bucket, if it is one, its place is free and its record has room. */
  function AddRef(t: Tables, b: nat, i: int, nNew: nat): Tables
    requires t.Shaped() && b < NEW_BUCKETS
  {
    if 0 <= i < nNew && i in t.places && t.vvNew[b][t.NewPosOf(i, b)] == EMPTY &&
      t.places[i].refCount < NEW_BUCKETS_PER_ADDRESS
    then Slot(t, b, i) else t
  }

  predicate NewIdsPresent(m: map<int, Info>, nNew: nat) { forall i :: 0 <= i < nNew ==> i in m && !m[i].inTried }

  method ReadRef(am: AddrMan, b: nat, i: int, nNew: nat)
    requires am.Linked() && am.Tabs().Shaped() && b < NEW_BUCKETS && NewIdsPresent(am.mapInfo, nNew)
    modifies am`mapInfo, am`vvNew
    ensures am.Linked() && am.Tabs() == AddRef(old(am.Tabs()), b, i, nNew)
    ensures SameButCounts(old(am.mapInfo), am.mapInfo)
  {
    if 0 <= i < nNew {
      var info := am.mapInfo[i];
      var pos := am.H.Position(am.key, true, b, info.addr);
      if am.vvNew[b][pos] == EMPTY && info.refCount < NEW_BUCKETS_PER_ADDRESS {
        am.FillSlot(b, i);
      }
    }
  }

  lemma LoadingRef(t: Tables, b: nat, i: int, nNew: nat)
    requires Loading(t, 0) && b < NEW_BUCKETS && (0 <= i < nNew && i in t.places ==> !t.places[i].inTried)
    ensures Loading(AddRef(t, b, i, nNew), 0)
  {
    if AddRef(t, b, i, nNew) != t { LoadingSlot(t, b, i, 0); }
  }

  /** Records with the same contents but for reference counts. */
  predicate SameButCounts(m: map<int, Info>, m': map<int, Info>) {
    m'.Keys == m.Keys && forall id :: id in m' ==> m'[id] == m[id].(refCount := m'[id].refCount)
  }

  /** With a file from `o`, the next index of a bucket goes where its id was. */
  lemma RefLands(o: Origin, m: map<int, Info>, t: Tables, b: nat, p: nat)
    requires o.src.Ok({}, 0) && o.src.places == Places(o.m) && Enumerates(o.m, o.news, o.tried)
    requires t.places == Places(m) && Loading(t, 0) && RecordsTo(o, m, |o.Order()|) && t.key == o.src.key &&
             t.H == o.src.H
    requires b < NEW_BUCKETS && p < BUCKET_SIZE && o.src.vvNew[b][p] != EMPTY && NewTo(o, t.vvNew, b, p)
    ensures var i := IndexOf(o.news, o.src.vvNew[b][p]);
            && i == IndexOf(o.Order(), o.src.vvNew[b][p]) && i in t.places
            && AddRef(t, b, i, |o.news|) == Slot(t, b, i) && t.NewPosOf(i, b) == p
  {
    var id := o.src.vvNew[b][p];
    assert o.src.NewSlotOk(b, p);
    IndexInNews(o, id);
    OrderDistinct(o);
    var i := IndexOf(o.news, id);
    RoomForRef(o, t, b, p, i);
    assert t.RefOk(i, Loose(t));
  }

  // The new table with the next index of a bucket in its place.
  lemma NextRef(o: Origin, t: Table, b: nat, n: nat)
    requires o.src.Shaped() && TableOf(t, NEW_BUCKETS) && b < NEW_BUCKETS && n < |Occupied(o.src.vvNew[b], BUCKET_SIZE)|
    requires NewTo(o, t, b, NextOccupied(o.src.vvNew[b], n))
    ensures var p := NextOccupied(o.src.vvNew[b], n);
            NewTo(o, Put(t, b, p, IndexOf(o.Order(), o.src.vvNew[b][p])), b, NextOccupied(o.src.vvNew[b], n + 1))
  {
    NextIsNext(o.src.vvNew[b], n + 1);
    NewStep(o, t, b, NextOccupied(o.src.vvNew[b], n), NextOccupied(o.src.vvNew[b], n + 1));
  }

  lemma ProgressRef(o: Origin, m: map<int, Info>, t: Tables, b: nat, n: nat)
    requires o.src.Ok({}, 0) && o.src.places == Places(o.m) && Enumerates(o.m, o.news, o.tried)
    requires t.places == Places(m) && Loading(t, 0) && RecordsTo(o, m, |o.Order()|) && t.key == o.src.key &&
             t.H == o.src.H
    requires b < NEW_BUCKETS && n < |Occupied(o.src.vvNew[b], BUCKET_SIZE)|
    requires NewTo(o, t.vvNew, b, NextOccupied(o.src.vvNew[b], n))
    ensures var t' := AddRef(t, b, RowIndexes(o.src.vvNew[b], o.news, BUCKET_SIZE)[n], |o.news|);
            t'.Shaped() && NewTo(o, t'.vvNew, b, NextOccupied(o.src.vvNew[b], n + 1))
  {
    var p, i := NextOccupied(o.src.vvNew[b], n), RowIndexes(o.src.vvNew[b], o.news, BUCKET_SIZE)[n];
    assert i == IndexOf(o.Order(), o.src.vvNew[b][p]) && AddRef(t, b, i, |o.news|).vvNew == Put(t.vvNew, b, p, i) by {
      RefLands(o, m, t, b, p);
    }
    NextRef(o, t.vvNew, b, n);
  }

  /** What holds while the buckets are read, up to slot `p` of bucket `b`. */
  ghost predicate RefsRead(o: Origin, d: Dump, b: nat, p: nat, m: map<int, Info>, t: Tables) {
    && Loading(t, 0) && NewIdsPresent(m, d.nNew) && t.nNew == d.nNew && t.key == d.key
    && (From(o, d, t.H) ==>
        t.nTried == d.nTried && RecordsTo(o, m, |o.Order()|) && TriedTo(o, t.vvTried, |o.Order()|) &&
          NewTo(o, t.vvNew, b, p))
  }

  // The slot reached after `n` indexes of a bucket.
  ghost function SlotAfter(o: Origin, d: Dump, b: nat, n: nat): (p: nat)
    requires b < NEW_BUCKETS
  {
    if o.src.Shaped() && n <= |Occupied(o.src.vvNew[b], BUCKET_SIZE)| then NextOccupied(o.src.vvNew[b], n) else 0
  }

  lemma CountsKeep(o: Origin, d: Dump, m: map<int, Info>, m': map<int, Info>, k: nat)
    requires SameButCounts(m, m')
    ensures RecordsTo(o, m, k) ==> RecordsTo(o, m', k)
    ensures NewIdsPresent(m, d.nNew) ==> NewIdsPresent(m', d.nNew)
  {
    assert forall id :: id in m' <==> id in m;
  }

  lemma RefRead(o: Origin, d: Dump, b: nat, n: nat, m: map<int, Info>, m': map<int, Info>, t: Tables)
    requires Complete(d) && b < NEW_BUCKETS <= |d.buckets| && n < |d.buckets[b]| && t.places == Places(m) &&
             SameButCounts(m, m')
    requires RefsRead(o, d, b, SlotAfter(o, d, b, n), m, t)
    ensures RefsRead(o, d, b, SlotAfter(o, d, b, n + 1), m', AddRef(t, b, d.buckets[b][n], d.nNew))
  {
    var t' := AddRef(t, b, d.buckets[b][n], d.nNew);
    assert Loading(t', 0) by { LoadingRef(t, b, d.buckets[b][n], d.nNew); }
    CountsKeep(o, d, m, m', |o.Order()|);
    assert t'.nNew == d.nNew && t'.key == d.key && t'.H == t.H && t'.nTried == t.nTried && t'.vvTried == t.vvTried;
    if From(o, d, t.H) { ProgressRef(o, m, t, b, n); }
  }

  lemma RowStart(o: Origin, d: Dump, b: nat, m: map<int, Info>, t: Tables)
    requires b < NEW_BUCKETS && RefsRead(o, d, b, 0, m, t)
    ensures RefsRead(o, d, b, SlotAfter(o, d, b, 0), m, t)
  {
    if From(o, d, t.H) {
      NextIsNext(o.src.vvNew[b], 0);
      NewSkip(o, t.vvNew, b, 0, NextOccupied(o.src.vvNew[b], 0));
    }
  }

  lemma RowEnd(o: Origin, d: Dump, b: nat, m: map<int, Info>, t: Tables)
    requires b < NEW_BUCKETS <= |d.buckets| && RefsRead(o, d, b, SlotAfter(o, d, b, |d.buckets[b]|), m, t)
    ensures RefsRead(o, d, b + 1, 0, m, t)
  {
    if From(o, d, t.H) { NewSkip(o, t.vvNew, b, BUCKET_SIZE, BUCKET_SIZE); }
  }

  method ReadRow(am: AddrMan, d: Dump, b: nat, ghost o: Origin)
    requires Complete(d) && am.Linked() && b < NEW_BUCKETS <= |d.buckets|
    requires RefsRead(o, d, b, 0, am.mapInfo, am.Tabs())
    modifies am`mapInfo, am`vvNew
    ensures am.Linked() && RefsRead(o, d, b + 1, 0, am.mapInfo, am.Tabs()) && SameButCounts(old(am.mapInfo), am.mapInfo)
    ensures am.Tabs() == RowTo(old(am.Tabs()), d, b, |d.buckets[b]|)
  {
    RowStart(o, d, b, am.mapInfo, am.Tabs());
    for n := 0 to |d.buckets[b]|
      invariant am.Linked() && RefsRead(o, d, b, SlotAfter(o, d, b, n), am.mapInfo, am.Tabs())
      invariant SameButCounts(old(am.mapInfo), am.mapInfo) && am.Tabs() == RowTo(old(am.Tabs()), d, b, n)
    {
      ghost var m, t := am.mapInfo, am.Tabs();
      ReadRef(am, b, d.buckets[b][n], d.nNew);
      RefRead(o, d, b, n, m, am.mapInfo, t);
    }
    RowEnd(o, d, b, am.mapInfo, am.Tabs());
  }

  /** Read the recorded buckets, which only count if there are as many as in use. */
  method ReadBuckets(am: AddrMan, d: Dump, ghost o: Origin)
    requires Complete(d) && am.Linked() && RefsRead(o, d, 0, 0, am.mapInfo, am.Tabs())
    modifies am`mapInfo, am`vvNew
    ensures am.Linked() && RefsRead(o, d, NEW_BUCKETS, 0, am.mapInfo, am.Tabs()) &&
            SameButCounts(old(am.mapInfo), am.mapInfo)
    ensures am.Tabs() == if Usable(d) then BucketsTo(old(am.Tabs()), d, NEW_BUCKETS) else old(am.Tabs())
  {
    if !Usable(d) { return; }
    for b := 0 to NEW_BUCKETS
      invariant am.Linked() && RefsRead(o, d, b, 0, am.mapInfo, am.Tabs())
      invariant SameButCounts(old(am.mapInfo), am.mapInfo) && am.Tabs() == BucketsTo(old(am.Tabs()), d, b)
    {
      ReadRow(am, d, b, o);
    }
  }

  // ---- Dropping what found no place ----

  ghost function Ips(m: map<int, Info>, ids: set<int>): set<NetAddr> { set id | id in ids && id in m :: m[id].addr.ip }

  /** What holds while loose ids are deleted: those below `id` are gone, and so are their addresses. */
  ghost predicate Pruning(id: int, m: map<int, Info>, a: map<NetAddr, int>, loose: set<int>,
                          m0: map<int, Info>, a0: map<NetAddr, int>, loose0: set<int>)
  {
    && loose <= loose0 && (forall j :: j in loose ==> j >= id)
    && SameButPos(m0 - (loose0 - loose), m) && a == a0 - Ips(m0, loose0 - loose)
    && (loose0 == {} ==> m == m0)
  }

  lemma PruneStart(m: map<int, Info>, a: map<NetAddr, int>, loose: set<int>)
    requires forall j :: j in loose ==> j >= 0
    ensures Pruning(0, m, a, loose, m, a, loose)
  {
    assert loose - loose == {} && Ips(m, {}) == {};
  }

  lemma PruneDrop(id: int, m: map<int, Info>, a: map<NetAddr, int>, loose: set<int>,
                  m0: map<int, Info>, a0: map<NetAddr, int>, loose0: set<int>, m': map<int, Info>)
    requires Pruning(id, m, a, loose, m0, a0, loose0) && id in loose && id in m && SameButPos(m - {id}, m')
    ensures Pruning(id + 1, m', a - {m[id].addr.ip}, loose - {id}, m0, a0, loose0)
  {
    var gone, gone' := loose0 - loose, loose0 - (loose - {id});
    assert gone' == gone + {id};
    assert id in m0 - gone && m[id].addr == m0[id].addr;
    assert Ips(m0, gone') == Ips(m0, gone) + {m[id].addr.ip};
    assert a - {m[id].addr.ip} == a0 - Ips(m0, gone');
    assert SameButPos(m0 - gone', m');
  }

  method PruneOne(am: AddrMan, id: int, ghost m0: map<int, Info>, ghost a0: map<NetAddr, int>, ghost loose0: set<int>)
    requires am.Linked() && Loading(am.Tabs(), 0)
    requires Pruning(id, am.mapInfo, am.mapAddr, Loose(am.Tabs()), m0, a0, loose0)
    modifies am`mapInfo, am`mapAddr, am`vRandom, am`nNew
    ensures am.Linked() && Loading(am.Tabs(), 0) && am.key == old(am.key)
    ensures Pruning(id + 1, am.mapInfo, am.mapAddr, Loose(am.Tabs()), m0, a0, loose0)
    ensures loose0 == {} ==> am.Tabs() == old(am.Tabs())
  {
    ghost var m, a, t := am.mapInfo, am.mapAddr, am.Tabs();
    if id in am.mapInfo && !am.mapInfo[id].inTried && am.mapInfo[id].refCount == 0 {
      am.Delete(id);
      LoadingRemove(t, id, 0);
      PruneDrop(id, m, a, Loose(t), m0, a0, loose0, am.mapInfo);
    }
  }

  method Prune(am: AddrMan)
    requires am.Linked() && Loading(am.Tabs(), 0)
    modifies am`mapInfo, am`mapAddr, am`vRandom, am`nNew
    ensures am.Linked() && am.Tabs().Ok({}, 0) && am.key == old(am.key)
    ensures var loose := Loose(old(am.Tabs()));
            SameButPos(old(am.mapInfo) - loose, am.mapInfo) &&
              am.mapAddr == old(am.mapAddr) - Ips(old(am.mapInfo), loose)
    ensures Loose(old(am.Tabs())) == {} ==> am.mapInfo == old(am.mapInfo) && am.Tabs() == old(am.Tabs())
  {
    ghost var m0, a0, loose0 := am.mapInfo, am.mapAddr, Loose(am.Tabs());
    PruneStart(m0, a0, loose0);
    for id := 0 to am.nIdCount
      invariant am.Linked() && Loading(am.Tabs(), 0) && am.key == old(am.key)
      invariant Pruning(id, am.mapInfo, am.mapAddr, Loose(am.Tabs()), m0, a0, loose0)
      invariant loose0 == {} ==> am.Tabs() == old(am.Tabs())
    {
      PruneOne(am, id, m0, a0, loose0);
    }
    NoneLoose(am.nIdCount, am.mapInfo, am.Tabs());
    assert loose0 - {} == loose0;
  }

  lemma NoneLoose(n: int, m: map<int, Info>, t: Tables)
    requires IdsOk(m, n) && t.places == Places(m) && Loading(t, 0) && forall j :: j in Loose(t) ==> j >= n
    ensures Loose(t) == {} && t.Ok({}, 0)
  {
    forall id ensures id !in Loose(t) { assert id in m ==> id < n; }
    assert Loose(t) == {};
  }

  // ---- Which files give a consistent manager ----

  /** A record stays: it is tried, or some bucket has it. */
  ghost predicate Stays(r: Reading, i: nat) { i !in Loose(r.t) }

  /** Records with a common address all fail to find a place, and those that stay have plausible statistics. */
  ghost predicate Consistent(d: Dump, r: Reading) {
    && Unshared(r) && (forall i: nat :: i < |r.kept| && Stays(r, i) ==> SavedOk(r.kept[i], i >= d.nNew))
  }

  ghost predicate Loadable(H: Hashing, d: Dump)
    requires Complete(d)
  {
    Consistent(d, Loaded(H, d))
  }

  predicate SavedOk(x: Saved, inTried: bool) { x.lastSuccess >= 0 && (inTried ==> x.lastSuccess != 0) }

  lemma StatsIff(d: Dump, r: Reading, m0: map<int, Info>, m: map<int, Info>)
    requires Holds(d, r.kept, m0) && r.t.places == Places(m0) && SameButPos(m0 - Loose(r.t), m)
    ensures StatsOk(m) <==> forall i: nat :: i < |r.kept| && Stays(r, i) ==> SavedOk(r.kept[i], i >= d.nNew)
  {
    forall i: nat | i < |r.kept| && Stays(r, i) ensures i in m && (StatOk(m[i]) <==> SavedOk(r.kept[i], i >= d.nNew)) {
      assert i in m0 - Loose(r.t);
    }
    forall id | id in m ensures id >= 0 && id < |r.kept| && Stays(r, id) { assert id in m0 - Loose(r.t); }
  }

  /** Addresses that several records have are those of loose ones only. */
  ghost predicate Unshared(r: Reading) {
    forall i: nat, j: nat :: i < j < |r.kept| && r.kept[i].addr.ip == r.kept[j].addr.ip ==> !Stays(r, i) && !Stays(r, j)
  }

  lemma AddrIff(d: Dump, r: Reading, m0: map<int, Info>, a0: map<NetAddr, int>, m: map<int, Info>, a: map<NetAddr, int>)
    requires Listed(d, r.kept, m0, a0) && SameButPos(m0 - Loose(r.t), m) && a == a0 - Ips(m0, Loose(r.t))
    ensures AddrOk(m, a) <==> Unshared(r)
  {
    if AddrOk(m, a) { UnsharedIf(d, r, m0, m, a, a0); }
    if Unshared(r) { AddrIf(d, r, m0, a0, m, a); }
  }

  lemma UnsharedIf(d: Dump, r: Reading, m0: map<int, Info>, m: map<int, Info>, a: map<NetAddr, int>,
                   a0: map<NetAddr, int>)
    requires Holds(d, r.kept, m0) && SameButPos(m0 - Loose(r.t), m) && a == a0 - Ips(m0, Loose(r.t)) && AddrOk(m, a)
    ensures Unshared(r)
  {
    forall i: nat, j: nat | i < j < |r.kept| && r.kept[i].addr.ip == r.kept[j].addr.ip
      ensures !Stays(r, i) && !Stays(r, j)
    {
      Alone(d, r, m0, m, a, a0, i);
      Alone(d, r, m0, m, a, a0, j);
    }
  }

  // The address of a record that stays leads to it, and to no loose one.
  lemma Alone(d: Dump, r: Reading, m0: map<int, Info>, m: map<int, Info>, a: map<NetAddr, int>, a0: map<NetAddr, int>,
              i: nat)
    requires Holds(d, r.kept, m0) && SameButPos(m0 - Loose(r.t), m) && a == a0 - Ips(m0, Loose(r.t)) && AddrOk(m, a)
    requires i < |r.kept|
    ensures Stays(r, i) ==> r.kept[i].addr.ip in a && a[r.kept[i].addr.ip] == i
    ensures !Stays(r, i) ==> r.kept[i].addr.ip !in a
  {
    assert m0[i].addr.ip == r.kept[i].addr.ip;
    if Stays(r, i) {
      assert i in m0 - Loose(r.t);
    } else {
      assert m0[i].addr.ip in Ips(m0, Loose(r.t));
    }
  }

  lemma AddrIf(d: Dump, r: Reading, m0: map<int, Info>, a0: map<NetAddr, int>, m: map<int, Info>, a: map<NetAddr, int>)
    requires Listed(d, r.kept, m0, a0) && SameButPos(m0 - Loose(r.t), m) && a == a0 - Ips(m0, Loose(r.t)) && Unshared(r)
    ensures AddrOk(m, a)
  {
    forall id | id in m ensures m[id].addr.ip in a && a[m[id].addr.ip] == id {
      assert id in m0 - Loose(r.t);
      Remains(d, r, m0, a0, id);
    }
    forall ip | ip in a ensures a[ip] in m && m[a[ip]].addr.ip == ip {
      var id := a0[ip];
      assert id in m0 && m0[id].addr.ip == ip && ip !in Ips(m0, Loose(r.t));
      assert id in m0 - Loose(r.t);
    }
  }

  lemma Remains(d: Dump, r: Reading, m0: map<int, Info>, a0: map<NetAddr, int>, id: nat)
    requires Listed(d, r.kept, m0, a0) && Unshared(r) && id < |r.kept| && Stays(r, id)
    ensures var ip := r.kept[id].addr.ip; ip !in Ips(m0, Loose(r.t)) && a0[ip] == id
  {
    var ip := r.kept[id].addr.ip;
    forall j: nat | j < |r.kept| && j != id ensures r.kept[j].addr.ip != ip { }
    forall j | j in Loose(r.t) && j in m0 ensures m0[j].addr.ip != ip {
      assert j != id && r.kept[j].addr == m0[j].addr;
    }
  }

  // ---- Files that load, and files that do not ----

  // The addresses of some records are among the first `k`, and different.
  ghost predicate AmongFirst(rs: seq<Saved>, k: nat, kept: seq<Saved>) {
    && k <= |rs| && (forall i :: 0 <= i < |kept| ==> kept[i].addr.ip in IpsTo(rs, k))
    && (forall i, j :: 0 <= i < j < |kept| ==> kept[i].addr.ip != kept[j].addr.ip)
  }

  lemma AmongMore(rs: seq<Saved>, k: nat, kept: seq<Saved>)
    requires AmongFirst(rs, k, kept) && k < |rs| && forall i, j :: 0 <= i < j < |rs| ==> rs[i].addr.ip != rs[j].addr.ip
    ensures AmongFirst(rs, k + 1, kept) && AmongFirst(rs, k + 1, kept + [rs[k]])
  {
    assert rs[k].addr.ip !in IpsTo(rs, k);
    assert IpsTo(rs, k + 1) == IpsTo(rs, k) + {rs[k].addr.ip};
  }

  lemma {:induction false} KeptDistinct(H: Hashing, d: Dump, n: nat)
    requires Complete(d) && Plausible(d) && n <= d.nTried
    ensures AmongFirst(Records(d), d.nNew + n, TriedsTo(H, d, n).kept)
  {
    var rs := Records(d);
    if n == 0 {
      assert d.newInfos[..d.nNew] == d.newInfos;
      forall i | 0 <= i < d.nNew ensures rs[i] == d.newInfos[i] { }
    } else {
      KeptDistinct(H, d, n - 1);
      assert rs[d.nNew + n - 1] == d.triedInfos[n - 1];
      AmongMore(rs, d.nNew + n - 1, TriedsTo(H, d, n - 1).kept);
    }
  }

  lemma {:induction false} KeptPlausible(H: Hashing, d: Dump, n: nat)
    requires Complete(d) && Plausible(d) && n <= d.nTried
    ensures forall i: nat :: i < |TriedsTo(H, d, n).kept| ==> SavedOk(TriedsTo(H, d, n).kept[i], i >= d.nNew)
  {
    if n == 0 {
      forall i: nat | i < d.nNew ensures SavedOk(d.newInfos[i], false) { assert Records(d)[i] == d.newInfos[i]; }
    } else {
      KeptPlausible(H, d, n - 1);
      var kept, x := TriedsTo(H, d, n - 1).kept, d.triedInfos[n - 1];
      assert SavedOk(x, true);
      forall i: nat | i < |kept + [x]| ensures SavedOk((kept + [x])[i], i >= d.nNew) {
        assert i < |kept| || (kept + [x])[i] == x;
      }
    }
  }

  /** A file without repeated addresses and with plausible statistics always loads. */
  lemma PlausibleLoads(H: Hashing, d: Dump)
    requires Complete(d) && Plausible(d)
    ensures Loadable(H, d)
  {
    KeptDistinct(H, d, d.nTried);
    KeptPlausible(H, d, d.nTried);
    assert Loaded(H, d).kept == TriedsTo(H, d, d.nTried).kept;
  }

  // A file with one record in each table.
  function TwoRecords(key: nat, x: Saved, y: Saved): Dump { Dump(0, 32, key, 1, 1, 0, [x], [y], []) }

  /** A file whose tried record repeats the address of the new one never loads... */
  lemma RepeatedAddress(H: Hashing, key: nat, x: Saved, y: Saved)
    requires x.addr.ip == y.addr.ip
    ensures Complete(TwoRecords(key, x, y)) && InLimits(TwoRecords(key, x, y)) && !Loadable(H, TwoRecords(key, x, y))
  {
    var d := TwoRecords(key, x, y);
    SecondStays(H, d);
    var r := Loaded(H, d);
    assert r.kept[0].addr.ip == r.kept[1].addr.ip;
  }

  /** ... nor does one with a tried record that never succeeded. */
  lemma NeverSucceeded(H: Hashing, key: nat, x: Saved, y: Saved)
    requires y.lastSuccess == 0
    ensures Complete(TwoRecords(key, x, y)) && InLimits(TwoRecords(key, x, y)) && !Loadable(H, TwoRecords(key, x, y))
  {
    var d := TwoRecords(key, x, y);
    SecondStays(H, d);
  }

  // The tried record of such a file gets the second id.
  lemma SecondStays(H: Hashing, d: Dump)
    requires Complete(d) && d.version == 0 && d.nUBuckets == 0 && d.nNew == 1 && d.nTried == 1
    ensures Loaded(H, d).kept == [d.newInfos[0], d.triedInfos[0]] && Stays(Loaded(H, d), 1)
  {
    var r0 := NewsTo(H, d, 1);
    assert r0 == NewNext(NewsTo(H, d, 0), d.newInfos[0], Usable(d));
    assert NewsTo(H, d, 0) == Reading(Start(H, d), []);
    assert r0.t.vvTried == EmptyTable(TRIED_BUCKETS);
    assert TriedSlotFree(r0.t, d.triedInfos[0]);
    assert d.newInfos[..1] == d.newInfos == [d.newInfos[0]];
    NewsLoading(H, d, 1);
    TriedIdPlaces(r0.t, 1, d.triedInfos[0]);
    assert TriedsTo(H, d, 0) == r0;
  }

  // ---- The whole file ----

  /** With a file from `o` the records are those written, in the same order. */
  lemma RecordsFrom(o: Origin, d: Dump, H: Hashing, m: map<int, Info>)
    requires Complete(d) && From(o, d, H) && Holds(d, Records(d), m)
    ensures RecordsTo(o, m, |o.Order()|)
  {
    OrderDistinct(o);
    assert |Records(d)| == |o.Order()|;
    forall i | 0 <= i < |o.Order()| ensures Records(d)[i] == Save(o.m[o.Order()[i]]) { }
  }

  lemma TriedsDone(o: Origin, d: Dump, H: Hashing, m: map<int, Info>, a: map<NetAddr, int>)
    requires Complete(d) && Listed(d, TriedsTo(H, d, d.nTried).kept, m, a)
    ensures RefsRead(o, d, 0, 0, m, TriedsTo(H, d, d.nTried).t)
  {
    var r := TriedsTo(H, d, d.nTried);
    TriedsLoading(H, d, d.nTried);
    assert Loading(r.t, 0) && r.t.nNew == d.nNew && r.t.key == d.key;
    assert NewIdsPresent(m, d.nNew) by { TriedIdsCount(r.t); }
    if From(o, d, H) { AllFrom(o, d, H, m, a); }
  }

  lemma AllFrom(o: Origin, d: Dump, H: Hashing, m: map<int, Info>, a: map<NetAddr, int>)
    requires Complete(d) && From(o, d, H) && Listed(d, TriedsTo(H, d, d.nTried).kept, m, a)
    ensures var t := TriedsTo(H, d, d.nTried).t;
            && t.nTried == d.nTried && RecordsTo(o, m, |o.Order()|)
            && TriedTo(o, t.vvTried, |o.Order()|) && NewTo(o, t.vvNew, 0, 0)
  {
    TriedsFrom(o, H, d, d.nTried);
    assert TriedsTo(H, d, d.nTried).kept == Records(d);
    RecordsFrom(o, d, H, m);
    assert |o.Order()| == d.nNew + d.nTried;
  }

  lemma TriedIdsCount(t: Tables)
    requires Loading(t, 0)
    ensures t.nTried >= 0
  {
  }

  lemma ListedCounts(d: Dump, kept: seq<Saved>, m: map<int, Info>, m': map<int, Info>, a: map<NetAddr, int>)
    requires Listed(d, kept, m, a) && SameButCounts(m, m')
    ensures Listed(d, kept, m', a)
  {
    assert forall i :: i in m' <==> i in m;
  }

  /** What a file from `o` restores: the records but for their transient fields, and the tables renumbered. */
  ghost predicate Restored(o: Origin, m: map<int, Info>, t: Tables) {
    && Isomorphic(o.src, t, o.Order()) && m.Keys == t.places.Keys
    && forall i :: 0 <= i < |o.Order()| ==>
        && o.Order()[i] in o.m && i in m
        && m[i] == o.m[o.Order()[i]].(lastTry := 0, lastCountAttempt := 0, randomPos := i)
  }

  lemma RefsDone(o: Origin, d: Dump, m: map<int, Info>, t: Tables)
    requires RefsRead(o, d, NEW_BUCKETS, 0, m, t) && t.places == Places(m)
    ensures From(o, d, t.H) ==> Restored(o, m, t) && Loose(t) == {}
  {
    if From(o, d, t.H) {
      AllRestored(o, m, t);
      RecordsRestored(o, m, t);
    }
  }

  lemma RecordsRestored(o: Origin, m: map<int, Info>, t: Tables)
    requires o.src.places == Places(o.m) && t.places == Places(m) && Isomorphic(o.src, t, o.Order())
    requires RecordsTo(o, m, |o.Order()|)
    ensures Restored(o, m, t)
  {
    forall i | 0 <= i < |o.Order()| ensures m[i].refCount == o.m[o.Order()[i]].refCount {
      var id := o.Order()[i];
      assert t.places[i] == o.src.places[id];
      assert Places(m)[i].refCount == m[i].refCount && Places(o.m)[id].refCount == o.m[id].refCount;
    }
  }

  lemma NothingIndexed(m: map<int, Info>, vRandom: seq<int>, mapAddr: map<NetAddr, int>)
    requires m == map[] && RandomOk(m, vRandom) && AddrOk(m, mapAddr)
    ensures vRandom == [] && mapAddr == map[]
  {
    RandomLength(m, vRandom);
  }

  // Forget everything and take over the header.
  method ReadHeader(am: AddrMan, d: Dump, newKey: nat) returns (ok: bool)
    modifies am
    ensures ok <==> d.keySize == 32 && InLimits(d)
    ensures am.collisions == old(am.collisions) && am.nLastGood == 1 && am.mapInfo == map[] && am.mapAddr == map[]
    ensures am.IndexOk() && am.nIdCount == |am.vRandom| == 0
    ensures !ok ==> (am.Valid() <==> d.keySize != 32)
    ensures ok ==>
            am.Tabs() == Tables(am.H, d.key, map[], 0, EmptyTable(TRIED_BUCKETS), d.nNew, EmptyTable(NEW_BUCKETS))
  {
    am.Clear(newKey);
    NothingIndexed(am.mapInfo, am.vRandom, am.mapAddr);
    if d.keySize != 32 { return false; }
    am.key, am.nNew, am.nTried := d.key, d.nNew, d.nTried;
    assert am.Tabs().TriedIds() == {} && am.Tabs().NewIds() - {} == {};
    if !InLimits(d) { return false; }
    // Counted up again while reading; the source takes the losses off instead.
    am.nTried := 0;
    ok := true;
  }

  // Records and buckets, after the header.
  method ReadBody(am: AddrMan, d: Dump, ghost o: Origin) returns (nLost: nat)
    requires Complete(d) && Reads(am, d, Reading(Start(am.H, d), []))
    modifies am`nIdCount, am`mapInfo, am`mapAddr, am`vRandom, am`vvTried, am`nTried, am`vvNew
    ensures am.Linked() && am.nTried == d.nTried - nLost && Loading(am.Tabs(), 0) && am.key == d.key
    ensures am.Tabs() == Loaded(am.H, d).t && Listed(d, Loaded(am.H, d).kept, am.mapInfo, am.mapAddr)
    ensures From(o, d, am.H) ==> Restored(o, am.mapInfo, am.Tabs()) && Loose(am.Tabs()) == {}
  {
    ReadNews(am, d);
    nLost := ReadTrieds(am, d);
    TriedsDone(o, d, am.H, am.mapInfo, am.mapAddr);
    ghost var m := am.mapInfo;
    ReadBuckets(am, d, o);
    ListedCounts(d, Loaded(am.H, d).kept, m, am.mapInfo, am.mapAddr);
    RefsDone(o, d, am.mapInfo, am.Tabs());
  }

  method ReadRest(am: AddrMan, d: Dump, ghost o: Origin)
    requires Complete(d) && Reads(am, d, Reading(Start(am.H, d), []))
    modifies am`nIdCount, am`mapInfo, am`mapAddr, am`vRandom, am`vvTried, am`nTried, am`vvNew, am`nNew
    ensures am.Linked() && am.Tabs().Ok({}, 0) && (am.Valid() <==> Loadable(am.H, d))
    ensures am.key == d.key && FromFile(d, am.mapInfo) && Remaining(d, Loaded(am.H, d), am.mapInfo)
    ensures From(o, d, am.H) ==> Restored(o, am.mapInfo, am.Tabs())
  {
    var nLost := ReadBody(am, d, o);
    ghost var m0, a0, r := am.mapInfo, am.mapAddr, Loaded(am.H, d);
    Prune(am);
    LoadedIff(d, r, m0, a0, am.mapInfo, am.mapAddr);
    KeptInFile(am.H, d, d.nTried);
    RestFromFile(d, r, m0, am.mapInfo);
  }

  lemma LoadedIff(d: Dump, r: Reading, m0: map<int, Info>, a0: map<NetAddr, int>, m: map<int, Info>,
                  a: map<NetAddr, int>)
    requires Complete(d) && Listed(d, r.kept, m0, a0) && r.t.places == Places(m0) && SameButPos(m0 - Loose(r.t), m)
    requires a == a0 - Ips(m0, Loose(r.t))
    ensures AddrOk(m, a) && StatsOk(m) <==> Consistent(d, r)
  {
    StatsIff(d, r, m0, m);
    AddrIff(d, r, m0, a0, m, a);
  }

  lemma RestFromFile(d: Dump, r: Reading, m0: map<int, Info>, m: map<int, Info>)
    requires Holds(d, r.kept, m0) && SameButPos(m0 - Loose(r.t), m) && forall i :: 0 <= i < |r.kept| ==>
             r.kept[i] in Records(d)
    ensures FromFile(d, m) && Remaining(d, r, m)
  {
    forall id | id in m ensures Save(m[id]) in Records(d) { assert id in m0 - Loose(r.t) && Save(m[id]) == r.kept[id]; }
    forall i: nat ensures i in m <==> i < |r.kept| && Stays(r, i) { assert i in m <==> i in m0 - Loose(r.t); }
  }

  /** The records of the manager are those read that stay, by number, with what the file says of them. */
  ghost predicate Remaining(d: Dump, r: Reading, m: map<int, Info>) {
    && (forall id :: id in m ==> 0 <= id < |r.kept|) && (forall i: nat :: i in m <==> i < |r.kept| && Stays(r, i))
    && (forall i: nat :: i in m ==> i < |r.kept| && SameRecord(m[i], r.kept[i]) && (m[i].inTried <==> i >= d.nNew))
  }

  predicate SameRecord(i: Info, x: Saved) {
    && i.addr == x.addr && i.time == x.time && i.services == x.services && i.source == x.source
    && i.lastSuccess == x.lastSuccess && i.attempts == x.attempts && i.lastTry == 0
  }

  /**
   Rebuild the manager from any complete file. It fails only for a wrong key size or excessive counts;
   otherwise the tables are consistent, all records are of the file, and the whole manager is consistent
   just if no record that stays shares its address or has implausible statistics. It is what was saved if
   the file comes from `o`.
   */
  method Unserialize(am: AddrMan, d: Dump, newKey: nat, ghost o: Origin) returns (ok: bool)
    requires Complete(d)
    modifies am
    ensures ok <==> d.keySize == 32 && d.nNew <= 65536 && d.nTried <= 16384
    ensures am.collisions == old(am.collisions)
    ensures ok ==> am.Linked() && am.Tabs().Ok({}, 0) && (am.Valid() <==> Loadable(am.H, d))
    ensures ok ==> am.key == d.key && FromFile(d, am.mapInfo) && Remaining(d, Loaded(am.H, d), am.mapInfo)
    ensures ok && From(o, d, am.H) ==> Restored(o, am.mapInfo, am.Tabs())
    ensures !ok ==> am.mapInfo == map[] && (am.Valid() <==> d.keySize != 32)
  {
    ok := ReadHeader(am, d, newKey);
    if ok {
      ReadRest(am, d, o);
    }
  }

  /** Read the peers file; a failed attempt leaves an empty, consistent manager. */
  method Read(am: AddrMan, d: Dump, newKey: nat, ghost o: Origin) returns (ok: bool)
    requires Complete(d)
    modifies am
    ensures (ok <==> d.keySize == 32 && InLimits(d)) && (am.Valid() <==> !ok || Loadable(am.H, d))
    ensures am.Checked() <==> if ok then Loadable(am.H, d) && d.key != NULL_KEY else newKey != NULL_KEY
    ensures if ok then FromFile(d, am.mapInfo) else am.mapInfo == map[]
    ensures ok && From(o, d, am.H) ==> Restored(o, am.mapInfo, am.Tabs())
  {
    ok := Unserialize(am, d, newKey, o);
    if !ok { am.Clear(newKey); }
  }

  /** Saving a manager and reading it back gives the same manager with ids renumbered. */
  method SaveAndRead(am: AddrMan, am': AddrMan, newKey: nat) returns (ghost o: Origin)
    requires am.Valid() && am != am' && am.H == am'.H
    modifies am'
    ensures am'.Valid() && (am'.Checked() <==> am.Checked()) && o.src == am.Tabs() && o.m == am.mapInfo &&
            Restored(o, am'.mapInfo, am'.Tabs())
  {
    var d, news, tried := Serialize(am);
    o := Origin(am.Tabs(), am.mapInfo, news, tried);
    DumpReadable(o, d, am.mapAddr);
    PlausibleLoads(am.H, d);

    var ok := Read(am', d, newKey, o);
    assert ok;
  }

  // What a table holds, by rows.
  ghost function RowIds(row: seq<int>, n: nat): (s: set<int>)
    requires n <= |row|
    ensures |s| <= n && forall p :: 0 <= p < n ==> row[p] in s
  {
    if n == 0 then {} else RowIds(row, n - 1) + {row[n - 1]}
  }

  ghost function TableIds(t: Table, n: nat): (s: set<int>)
    requires n <= |t| && TableOf(t, |t|)
    ensures |s| <= n * BUCKET_SIZE && forall b, p :: 0 <= b < n && 0 <= p < BUCKET_SIZE ==> t[b][p] in s
  {
    if n == 0 then {} else TableIds(t, n - 1) + RowIds(t[n - 1], BUCKET_SIZE)
  }

  /** There are no more ids than slots. */
  lemma SlotLimits(t: Tables)
    requires t.Ok({}, 0)
    ensures t.nNew <= NEW_BUCKETS * BUCKET_SIZE && t.nTried <= TRIED_BUCKETS * BUCKET_SIZE
  {
    var news, trieds := TableIds(t.vvNew, NEW_BUCKETS), TableIds(t.vvTried, TRIED_BUCKETS);
    forall id | id in t.NewIds() ensures id in news {
      assert t.RefOk(id, {});
      assert t.Refs(id) != {};
      var b: nat :| b in t.Refs(id);
      assert t.vvNew[b][t.NewPosOf(id, b)] == id;
    }
    forall id | id in t.TriedIds() ensures id in trieds {
      assert t.vvTried[t.TriedBucketOf(id)][t.TriedPosOf(id)] == id;
    }
    SubsetSize(t.NewIds(), news);
    SubsetSize(t.TriedIds(), trieds);
    assert t.NewIds() - {} == t.NewIds();
  }

  /** A written file is complete and plausible, and within the limits. */
  lemma DumpReadable(o: Origin, d: Dump, mapAddr: map<NetAddr, int>)
    requires From(o, d, o.src.H) && AddrOk(o.m, mapAddr) && StatsOk(o.m)
    ensures Complete(d) && Plausible(d) && InLimits(d)
  {
    var rs := Records(d);
    forall i, j | 0 <= i < j < |rs| ensures rs[i].addr.ip != rs[j].addr.ip {
      OneRecord(o, d, mapAddr, i);
      OneRecord(o, d, mapAddr, j);
      OrderDistinct(o);
    }
    forall i | 0 <= i < |rs| ensures rs[i].lastSuccess >= 0 && (i >= d.nNew ==> rs[i].lastSuccess > 0) {
      OneRecord(o, d, mapAddr, i);
    }
    forall i | 0 <= i < |d.triedInfos| ensures d.triedInfos[i].lastSuccess > 0 {
      assert rs[d.nNew + i] == d.triedInfos[i];
    }
    SlotLimits(o.src);
  }

  // A record of a written file and the id it belongs to.
  lemma OneRecord(o: Origin, d: Dump, mapAddr: map<NetAddr, int>, i: nat)
    requires From(o, d, o.src.H) && AddrOk(o.m, mapAddr) && StatsOk(o.m) && i < |Records(d)|
    ensures i < |o.Order()| && o.Order()[i] in o.m && Records(d)[i] == Save(o.m[o.Order()[i]])
    ensures Records(d)[i].addr.ip in mapAddr && mapAddr[Records(d)[i].addr.ip] == o.Order()[i]
    ensures Records(d)[i].lastSuccess >= 0 && (i >= d.nNew ==> Records(d)[i].lastSuccess > 0)
  {
    assert |Records(d)| == |o.Order()| && d.nNew == |o.news|;
    if i < |o.news| {
      assert o.Order()[i] == o.news[i] && Records(d)[i] == d.newInfos[i] == Save(o.m[o.news[i]]);
    } else {
      var j := i - |o.news|;
      assert o.Order()[i] == o.tried[j] && Records(d)[i] == d.triedInfos[j] == Save(o.m[o.tried[j]]);
      assert o.m[o.tried[j]].inTried;
    }
    var id := o.Order()[i];
    assert id in o.m && o.m[id].addr.ip in mapAddr && mapAddr[o.m[id].addr.ip] == id && o.m[id].lastSuccess >= 0;
  }
}
