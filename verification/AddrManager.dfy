/**
 The address manager (src/addrman.h, src/addrman.cpp). Every operation keeps the source's own
 consistency check; where the source takes records out of one table before putting them into
 another, the check holds for everything but the ids in `limbo`.
 */
module AddrManager {
  import opened Sets
  import opened AddrTables

  /** Extended statistics about an address. */
  datatype Info = Info(
    addr: Service, time: int, services: set<nat>, source: NetAddr,
    lastTry: int, lastCountAttempt: int, lastSuccess: int, attempts: int,
    refCount: int, inTried: bool, randomPos: int)

  /** An address as announced by a peer. */
  datatype Address = Address(service: Service, time: nat, services: set<nat>)

  const HORIZON := 30 * 24 * 60 * 60
  const RETRIES := 3
  const MAX_FAILURES := 10
  const MIN_FAIL := 7 * 24 * 60 * 60
  const REPLACEMENT := 4 * 60 * 60
  const GETADDR_MAX_PCT := 100
  const GETADDR_MAX := 2500

  const NULL_KEY := 0

  /** Whether the statistics of an entry are bad enough to drop it. */
  predicate IsTerrible(i: Info, now: int) {
    if i.lastTry != 0 && i.lastTry >= now - 60 then false
    else
      || i.time > now + 10 * 60
      || i.time == 0 || now - i.time > HORIZON
      || (i.lastSuccess == 0 && i.attempts >= RETRIES)
      || (now - i.lastSuccess > MIN_FAIL && i.attempts >= MAX_FAILURES)
  }

  /**
   An entry is kept if it was tried in the last minute. Otherwise it must have been seen in the last thirty
   days and not more than ten minutes ahead of the clock. It may not have failed three times without any
   success, nor ten times since a success over a week ago.
   */
  lemma NotTerrible(i: Info, now: int)
    ensures !IsTerrible(i, now) <==>
            || (i.lastTry != 0 && now - i.lastTry <= 60)
            || (&& i.time != 0 && i.time - now <= 600 && now - i.time <= 2592000
                && (i.lastSuccess == 0 ==> i.attempts <= 2)
                && (now - i.lastSuccess > 604800 ==> i.attempts <= 9))
  {
  }

  // The record of a default-constructed entry.
  const NO_INFO := Info(Service(0, 0), 0, {}, 0, 0, 0, 0, 0, 0, false, -1)

  function Min(a: nat, b: nat): nat { if a < b then a else b }

  predicate AllIn(ids: seq<int>, m: map<int, Info>) { forall i :: 0 <= i < |ids| ==> ids[i] in m }

  /** The addresses of the records that are not terrible, in order. */
  function GoodOf(m: map<int, Info>, ids: seq<int>, now: int): seq<Service>
    requires AllIn(ids, m)
  {
    if ids == [] then [] else
      var i := m[ids[|ids| - 1]];
      GoodOf(m, ids[..|ids| - 1], now) + (if IsTerrible(i, now) then [] else [i.addr])
  }

  /** Exactly the addresses of those that are kept. */
  lemma {:induction false} GoodOfIff(m: map<int, Info>, ids: seq<int>, now: int, a: Service)
    requires AllIn(ids, m)
    ensures a in GoodOf(m, ids, now) <==>
            exists k :: 0 <= k < |ids| && m[ids[k]].addr == a && !IsTerrible(m[ids[k]], now)
  {
    if ids != [] {
      var front := ids[..|ids| - 1];
      GoodOfIff(m, front, now, a);
      if a in GoodOf(m, front, now) {
        var k :| 0 <= k < |front| && m[front[k]].addr == a && !IsTerrible(m[front[k]], now);
        assert m[ids[k]].addr == a;
      } else if a in GoodOf(m, ids, now) {
        assert m[ids[|ids| - 1]].addr == a;
      }
      if k :| 0 <= k < |ids| && m[ids[k]].addr == a && !IsTerrible(m[ids[k]], now) {
        if k < |front| { assert m[front[k]].addr == a; }
      }
    }
  }

  lemma {:induction false} GoodOfSame(m: map<int, Info>, m': map<int, Info>, ids: seq<int>, now: int)
    requires AllIn(ids, m) && SameButPos(m, m')
    ensures AllIn(ids, m') && GoodOf(m', ids, now) == GoodOf(m, ids, now)
  {
    if ids != [] {
      GoodOfSame(m, m', ids[..|ids| - 1], now);
      var id := ids[|ids| - 1];
      assert id in m && id in m' && m'[id].addr == m[id].addr && IsTerrible(m'[id], now) == IsTerrible(m[id], now);
    }
  }

  // Stepping through the new buckets from a random start.
  function Rotated(k: nat, rnd: nat): (b: nat)
    ensures b < NEW_BUCKETS
  {
    (k + rnd) % NEW_BUCKETS
  }

  function Max(a: int, b: int): int { if a < b then b else a }

  /** A known record after an announcement: a clearly newer time is taken over, services are joined. */
  function Refreshed(i: Info, addr: Address, timePenalty: int, now: int): Info {
    var interval := if now - addr.time < 24 * 60 * 60 then 60 * 60 else 24 * 60 * 60;
    var newer := addr.time != 0 && (i.time == 0 || i.time < addr.time - interval - timePenalty);
    i.(time := if newer then Max(0, addr.time - timePenalty) else i.time, services := i.services + addr.services)
  }

  /**
   News of the last day counts if it is more than an hour newer, older news if it is more than a day newer,
   after the penalty. What is known never becomes older, and nothing but time and services changes.
   */
  lemma NewsTaken(i: Info, addr: Address, timePenalty: int, now: int)
    ensures var i' := Refreshed(i, addr, timePenalty, now);
            && i' == i.(time := i'.time, services := i.services + addr.services)
            && (addr.time == 0 ==> i'.time == i.time)
            && (addr.time != 0 && i.time == 0 ==> i'.time == Max(0, addr.time - timePenalty))
            && (addr.time != 0 && i.time != 0 ==>
                var ahead := addr.time - timePenalty - i.time;
                i'.time == if ahead > (if now - addr.time < 86400 then 3600 else 86400)
                           then Max(0, addr.time - timePenalty) else i.time)
            && (i.time != 0 ==> i'.time >= i.time)
  {
  }

  /** Whether a known record may gain a slot: fresher information, still new, below the limit, and lucky. */
  predicate WantsSlot(i: Info, addr: Address, lucky: bool) {
    && addr.time != 0 && (i.time == 0 || addr.time > i.time) && !i.inTried
    && i.refCount != NEW_BUCKETS_PER_ADDRESS && (i.refCount > 0 ==> lucky)
  }

  function PlaceOf(i: Info): Place { Place(i.addr, i.refCount, i.inTried) }

  function Places(m: map<int, Info>): map<int, Place> { map id | id in m :: PlaceOf(m[id]) }

  lemma PlacesPut(m: map<int, Info>, id: int, i: Info)
    ensures Places(m[id := i]) == Places(m)[id := PlaceOf(i)]
    ensures id in m && PlaceOf(m[id]) == PlaceOf(i) ==> Places(m[id := i]) == Places(m)
  {
  }

  lemma PlacesRemove(m: map<int, Info>, id: int)
    ensures Places(m - {id}) == Places(m) - {id}
  {
  }

  predicate StatsOk(m: map<int, Info>) { forall id :: id in m ==> StatOk(m[id]) }

  predicate StatOk(i: Info) { i.lastTry >= 0 && i.lastSuccess >= 0 && (i.inTried ==> i.lastSuccess != 0) }

  /** vRandom and the recorded positions are inverse to each other. */
  predicate RandomOk(m: map<int, Info>, vRandom: seq<int>) {
    && (forall i :: 0 <= i < |vRandom| ==> vRandom[i] in m && m[vRandom[i]].randomPos == i)
    && (forall id :: id in m ==> 0 <= m[id].randomPos < |vRandom| && vRandom[m[id].randomPos] == id)
  }

  /** mapAddr and mapInfo are inverse to each other. */
  predicate AddrOk(m: map<int, Info>, mapAddr: map<NetAddr, int>) {
    && (forall id :: id in m ==> m[id].addr.ip in mapAddr && mapAddr[m[id].addr.ip] == id)
    && (forall a :: a in mapAddr ==> mapAddr[a] in m && m[mapAddr[a]].addr.ip == a)
  }

  predicate IdsOk(m: map<int, Info>, nIdCount: int) {
    nIdCount >= 0 && forall id :: id in m ==> 0 <= id < nIdCount
  }

  /** Records that differ only in the position in vRandom. */
  predicate SameButPos(m: map<int, Info>, m': map<int, Info>) {
    m'.Keys == m.Keys && forall id :: id in m ==> id in m' && m'[id] == m[id].(randomPos := m'[id].randomPos)
  }

  /** Some records may be gone; the others differ only in position and reference count. */
  predicate SameButRefs(m: map<int, Info>, m': map<int, Info>) {
    forall id :: id in m' ==> id in m && m'[id] == m[id].(randomPos := m'[id].randomPos, refCount := m'[id].refCount)
  }

  /** Some records may be gone; the others keep their address and statistics. */
  predicate SameStats(m: map<int, Info>, m': map<int, Info>) {
    forall id :: id in m' ==>
      id in m && m'[id] == m[id].(randomPos := m'[id].randomPos, refCount := m'[id].refCount, inTried := m'[id].inTried)
  }

  lemma SameStatsTrans(m0: map<int, Info>, m1: map<int, Info>, m2: map<int, Info>)
    requires SameStats(m0, m1) && SameStats(m1, m2)
    ensures SameStats(m0, m2)
  {
  }

  lemma SameButPosPlaces(m: map<int, Info>, m': map<int, Info>)
    requires SameButPos(m, m')
    ensures Places(m') == Places(m)
  {
    forall id | id in m ensures Places(m')[id] == Places(m)[id] { assert id in m'; }
  }

  /** All ids are in vRandom, so its length is the number of records. */
  lemma {:induction false} RandomLength(m: map<int, Info>, vRandom: seq<int>)
    requires RandomOk(m, vRandom)
    ensures |vRandom| == |m.Keys|
  {
    var ids := set i | 0 <= i < |vRandom| :: vRandom[i];
    assert ids == m.Keys by {
      forall id | id in m ensures id in ids { assert vRandom[m[id].randomPos] == id; }
    }
    InjectiveSize(vRandom, |vRandom|);
  }

  lemma AddrLength(m: map<int, Info>, mapAddr: map<NetAddr, int>, vRandom: seq<int>)
    requires RandomOk(m, vRandom) && AddrOk(m, mapAddr)
    ensures |vRandom| == |mapAddr.Keys|
  {
    var ips := seq(|vRandom|, i requires 0 <= i < |vRandom| => m[vRandom[i]].addr.ip);
    var seen := set i | 0 <= i < |ips| :: ips[i];
    assert seen == mapAddr.Keys by {
      forall a | a in seen ensures a in mapAddr {
        var i :| 0 <= i < |ips| && ips[i] == a;
        var id := vRandom[i];
        assert id in m && m[id].addr.ip == a;
      }
      forall a | a in mapAddr ensures a in seen {
        var id := mapAddr[a];
        assert id in m;
        var p := m[id].randomPos;
        assert 0 <= p < |vRandom| && vRandom[p] == id;
        assert ips[p] == a;
      }
    }
    forall i, j | 0 <= i < j < |ips| ensures ips[i] != ips[j] {
      assert mapAddr[ips[i]] == vRandom[i] && mapAddr[ips[j]] == vRandom[j];
    }
    InjectiveSize(ips, |ips|);
  }

  lemma {:induction false} InjectiveSize(s: seq<int>, n: nat)
    requires n <= |s| && forall i, j :: 0 <= i < j < n ==> s[i] != s[j]
    ensures |set i | 0 <= i < n :: s[i]| == n
  {
    if n > 0 {
      InjectiveSize(s, n - 1);
      var t := set i | 0 <= i < n - 1 :: s[i];
      assert s[n - 1] !in t;
      assert (set i | 0 <= i < n :: s[i]) == t + {s[n - 1]};
    }
  }

  class AddrMan {
    const H: Hashing
    var key: nat
    var nIdCount: int
    var mapInfo: map<int, Info>
    var mapAddr: map<NetAddr, int>
    var vRandom: seq<int>
    var nTried: int
    var vvTried: Table
    var nNew: int
    var vvNew: Table
    var nLastGood: int
    var collisions: set<nat>

    /** The bucket tables and what they say of each id. */
    ghost function Tabs(): Tables
      reads this
    {
      Tables(H, key, Places(mapInfo), nTried, vvTried, nNew, vvNew)
    }

    /** Records and their order agree. */
    ghost predicate Linked()
      reads this
    {
      RandomOk(mapInfo, vRandom) && IdsOk(mapInfo, nIdCount)
    }

    ghost predicate IndexOk()
      reads this
    {
      Linked() && AddrOk(mapInfo, mapAddr) && StatsOk(mapInfo)
    }

    /** The consistency check for everything but the ids in `limbo`, `counted` of which nNew includes. */
    ghost predicate ValidBut(limbo: set<int>, counted: int)
      reads this
    {
      IndexOk() && Tabs().Ok(limbo, counted)
    }

    /** The source's consistency check but for its last test, that of the key. */
    ghost predicate Valid()
      reads this
    {
      ValidBut({}, 0)
    }

    /** The source's consistency check. */
    ghost predicate Checked()
      reads this
    {
      Valid() && key != NULL_KEY
    }

    /** Every live id in the collision set has an occupied tried slot to contend for. */
    ghost predicate Settled()
      reads this
    {
      Tabs().Shaped() && CollisionsOk(Tabs(), nIdCount, collisions)
    }

    /** Forget everything but the collision set, whose ids are then meaningless. */
    method Clear(newKey: nat)
      modifies this
      ensures Valid() && mapInfo == map[] && nIdCount == 0 && key == newKey
      ensures Checked() <==> newKey != NULL_KEY
      ensures Tabs() == Tables(H, newKey, map[], 0, EmptyTable(TRIED_BUCKETS), 0, EmptyTable(NEW_BUCKETS))
      ensures nLastGood == 1 && collisions == old(collisions)
      ensures Settled() <==> collisions == {}
    {
      vRandom := [];
      key := newKey;
      vvNew, vvTried := EmptyTable(NEW_BUCKETS), EmptyTable(TRIED_BUCKETS);
      nIdCount, nTried, nNew, nLastGood := 0, 0, 0, 1;
      mapInfo, mapAddr := map[], map[];
      assert Places(map[]) == map[];
      EmptyOk(H, key);
      NoIdsNoCollisions(Tabs(), collisions);
    }

    constructor (hash: Hashing, newKey: nat)
      ensures Valid() && Settled() && mapInfo == map[] && nIdCount == 0 && H == hash && key == newKey &&
              collisions == {}
      ensures Checked() <==> newKey != NULL_KEY
    {
      H := hash;
      key, collisions, nLastGood := newKey, {}, 1;
      vRandom, mapInfo, mapAddr, nIdCount, nTried, nNew := [], map[], map[], 0, 0, 0;
      vvNew, vvTried := EmptyTable(NEW_BUCKETS), EmptyTable(TRIED_BUCKETS);
      new;
      assert Places(map[]) == map[];
      EmptyOk(H, key);
    }

    /** The number of addresses is the sum of the two counters. */
    lemma Sizes()
      requires Valid()
      ensures |vRandom| == nTried + nNew == |mapInfo.Keys| == |mapAddr.Keys|
    {
      RandomLength(mapInfo, vRandom);
      var t := Tabs();
      assert t.places.Keys == mapInfo.Keys;
      IdsCounted(t);
      AddrLength(mapInfo, mapAddr, vRandom);
    }

    // ---- Index maintenance ----

    function Find(addr: NetAddr): (id: int)
      requires IndexOk()
      reads this
      ensures if addr in mapAddr then id in mapInfo && mapInfo[id].addr.ip == addr else id == EMPTY
    {
      if addr in mapAddr then mapAddr[addr] else EMPTY
    }

    // Write the record map and both indexes.
    method StoreIndex(m: map<int, Info>, a: map<NetAddr, int>, r: seq<int>)
      modifies this`mapInfo, this`mapAddr, this`vRandom
      ensures mapInfo == m && mapAddr == a && vRandom == r
      ensures Tabs() == old(Tabs()).(places := Places(m))
    {
      mapInfo, mapAddr, vRandom := m, a, r;
    }

    // A new record, not yet in any bucket.
    method Create(addr: Address, source: NetAddr) returns (id: int)
      requires IndexOk() && addr.service.ip !in mapAddr
      modifies this`nIdCount, this`mapInfo, this`mapAddr, this`vRandom
      ensures IndexOk() && id == old(nIdCount) && nIdCount == id + 1
      ensures mapInfo ==
              old(mapInfo)[id :=
                           Info(addr.service, addr.time, addr.services, source, 0, 0, 0, 0, 0, false, |old(vRandom)|)]
      ensures Tabs() == AddId(old(Tabs()), id, addr.service)
    {
      id := nIdCount;
      nIdCount := nIdCount + 1;
      var i := Info(addr.service, addr.time, addr.services, source, 0, 0, 0, 0, 0, false, |vRandom|);
      PlacesPut(mapInfo, id, i);
      CreateIndex(mapInfo, mapAddr, vRandom, id, i);
      StoreIndex(mapInfo[id := i], mapAddr[addr.service.ip := id], vRandom + [id]);
    }

    method SwapRandom(pos1: nat, pos2: nat)
      requires Linked() && pos1 < |vRandom| && pos2 < |vRandom|
      modifies this`mapInfo, this`mapAddr, this`vRandom
      ensures Linked() && (old(IndexOk()) ==> IndexOk())
      ensures SameButPos(old(mapInfo), mapInfo) && Tabs() == old(Tabs()) && mapAddr == old(mapAddr)
      ensures vRandom == old(vRandom)[pos1 := old(vRandom)[pos2]][pos2 := old(vRandom)[pos1]]
    {
      if pos1 == pos2 { return; }
      var id1, id2 := vRandom[pos1], vRandom[pos2];
      assert id1 in mapInfo && id2 in mapInfo;
      var m := mapInfo[id1 := mapInfo[id1].(randomPos := pos2)];
      m := m[id2 := m[id2].(randomPos := pos1)];
      SwapIndex(mapInfo, mapAddr, vRandom, pos1, pos2);
      StoreIndex(m, mapAddr, vRandom[pos1 := id2][pos2 := id1]);
    }

    // Remove a record that is in no bucket.
    method Delete(id: int)
      requires Linked() && id in mapInfo && !mapInfo[id].inTried && mapInfo[id].refCount == 0
      modifies this`mapInfo, this`mapAddr, this`vRandom, this`nNew
      ensures Linked() && (old(IndexOk()) ==> IndexOk()) && Tabs() == RemoveId(old(Tabs()), id)
      ensures SameButPos(old(mapInfo) - {id}, mapInfo)
      ensures mapAddr == old(mapAddr) - {old(mapInfo)[id].addr.ip}
    {
      SwapRandom(mapInfo[id].randomPos, |vRandom| - 1);
      PlacesRemove(mapInfo, id);
      DeleteIndex(mapInfo, mapAddr, vRandom, id);
      StoreIndex(mapInfo - {id}, mapAddr - {mapInfo[id].addr.ip}, vRandom[..|vRandom| - 1]);
      nNew := nNew - 1;
    }

    // Empty a new slot and lower its occupant's count.
    method TakeSlot(bucket: nat, pos: nat)
      requires Tabs().Shaped() && bucket < NEW_BUCKETS && pos < BUCKET_SIZE && vvNew[bucket][pos] in mapInfo &&
               IndexOk()
      modifies this`mapInfo, this`vvNew
      ensures IndexOk() && Tabs() == Unslot(old(Tabs()), bucket, pos)
      ensures var id := old(vvNew)[bucket][pos];
              mapInfo == old(mapInfo)[id := old(mapInfo)[id].(refCount := old(mapInfo)[id].refCount - 1)]
    {
      var id := vvNew[bucket][pos];
      var i := mapInfo[id].(refCount := mapInfo[id].refCount - 1);
      PlacesPut(mapInfo, id, i);
      mapInfo := mapInfo[id := i];
      vvNew := Put(vvNew, bucket, pos, EMPTY);
    }

    // Put an id into its place in a new bucket and raise its count.
    method FillSlot(bucket: nat, id: int)
      requires Tabs().Shaped() && bucket < NEW_BUCKETS && id in mapInfo && Linked()
      modifies this`mapInfo, this`vvNew
      ensures Linked() && (old(IndexOk()) ==> IndexOk()) && Tabs() == Slot(old(Tabs()), bucket, id)
      ensures mapInfo == old(mapInfo)[id := old(mapInfo)[id].(refCount := old(mapInfo)[id].refCount + 1)]
    {
      var i := mapInfo[id].(refCount := mapInfo[id].refCount + 1);
      PlacesPut(mapInfo, id, i);
      vvNew := Put(vvNew, bucket, H.Position(key, true, bucket, mapInfo[id].addr), id);
      mapInfo := mapInfo[id := i];
    }

    // Take the occupant of a new slot out, deleting it with its last slot.
    method ClearNew(bucket: nat, pos: nat)
      requires Tabs().Shaped() && IndexOk() && bucket < NEW_BUCKETS && pos < BUCKET_SIZE
      requires var id := vvNew[bucket][pos];
               id == EMPTY || (id in mapInfo && !mapInfo[id].inTried && mapInfo[id].refCount > 0)
      modifies this`mapInfo, this`mapAddr, this`vRandom, this`nNew, this`vvNew
      ensures IndexOk() && Tabs() == AddrTables.ClearNew(old(Tabs()), bucket, pos)
      ensures SameButRefs(old(mapInfo), mapInfo)
    {
      if vvNew[bucket][pos] != EMPTY {
        var id := vvNew[bucket][pos];
        TakeSlot(bucket, pos);
        if mapInfo[id].refCount == 0 {
          Delete(id);
        }
      }
    }

    // Take an id out of all new buckets, no longer counting it as new.
    method LeaveNew(id: int)
      requires Tabs().Shaped() && IndexOk() && id in mapInfo
      modifies this`mapInfo, this`vvNew, this`nNew
      ensures IndexOk() && Tabs() == Left(old(Tabs()), id)
      ensures id in mapInfo && mapInfo == old(mapInfo)[id := old(mapInfo)[id].(refCount := mapInfo[id].refCount)]
    {
      for bucket := 0 to NEW_BUCKETS
        invariant IndexOk() && id in mapInfo && Tabs() == Unlist(old(Tabs()), id, bucket)
        invariant mapInfo == old(mapInfo)[id := old(mapInfo)[id].(refCount := mapInfo[id].refCount)]
      {
        var pos := H.Position(key, true, bucket, mapInfo[id].addr);
        if vvNew[bucket][pos] == id {
          TakeSlot(bucket, pos);
        }
      }
      nNew := nNew - 1;
    }

    // Enter or leave the tried slot an id belongs to.
    method SetTried(id: int, tried: bool)
      requires Tabs().Shaped() && id in mapInfo && Linked()
      modifies this`mapInfo, this`vvTried, this`nTried
      ensures Linked() && (old(IndexOk()) && (tried ==> mapInfo[id].lastSuccess != 0) ==> IndexOk())
      ensures Tabs() == if tried then Try(old(Tabs()), id) else Untry(old(Tabs()), id)
      ensures mapInfo == old(mapInfo)[id := old(mapInfo)[id].(inTried := tried)]
    {
      var bucket := H.TriedBucket(key, mapInfo[id].addr);
      var pos := H.Position(key, false, bucket, mapInfo[id].addr);
      var i := mapInfo[id].(inTried := tried);
      PlacesPut(mapInfo, id, i);
      mapInfo := mapInfo[id := i];
      vvTried := Put(vvTried, bucket, pos, if tried then id else EMPTY);
      nTried := if tried then nTried + 1 else nTried - 1;
    }

    // Enter a record into a new bucket, clearing its place first.
    method Reenter(id: int, bucket: nat)
      requires Tabs().Shaped() && IndexOk() && bucket < NEW_BUCKETS && id in mapInfo
      requires var d := vvNew[bucket][H.Position(key, true, bucket, mapInfo[id].addr)];
               d == EMPTY || (d in mapInfo && d != id && !mapInfo[d].inTried && mapInfo[d].refCount > 0)
      modifies this`mapInfo, this`mapAddr, this`vRandom, this`nNew, this`vvNew
      ensures IndexOk() && SameButRefs(old(mapInfo), mapInfo)
      ensures Tabs() == AddrTables.Reenter(old(Tabs()), id, bucket)
    {
      var pos := H.Position(key, true, bucket, mapInfo[id].addr);
      ClearNew(bucket, pos);
      assert vvNew[bucket][pos] == EMPTY;
      assert id in Tabs().places;
      FillSlot(bucket, id);
      nNew := nNew + 1;
    }

    // Make room in the tried slot of `id`; its occupant goes back to the new table.
    method Evict(victim: int, ghost id: int) returns (bucket: nat)
      requires IndexOk() && Tabs().Ok({id}, 0) && victim in mapInfo && mapInfo[victim].inTried
      modifies this`mapInfo, this`mapAddr, this`vRandom, this`nNew, this`vvNew, this`vvTried, this`nTried
      ensures IndexOk() && SameStats(old(mapInfo), mapInfo)
      ensures bucket == Home(H, key, old(mapInfo), victim) && Tabs() == AddrTables.Evict(old(Tabs()), victim, bucket)
    {
      UntryOk(Tabs(), victim, {id}, 0);
      bucket := H.NewBucket(key, mapInfo[victim].addr, mapInfo[victim].source);
      SlotRecord(Untry(Tabs(), victim), bucket, H.Position(key, true, bucket, mapInfo[victim].addr), {id} + {victim},
                 0);
      SetTried(victim, false);
      Reenter(victim, bucket);
    }

    // Free the tried slot a record belongs to.
    method Vacate(id: int) returns (ghost bucket: nat)
      requires IndexOk() && Tabs().Ok({id}, 0) && id in mapInfo
      modifies this`mapInfo, this`mapAddr, this`vRandom, this`nNew, this`vvNew, this`vvTried, this`nTried
      ensures IndexOk() && SameStats(old(mapInfo), mapInfo)
      ensures bucket == Home(H, key, old(mapInfo), Rival(old(Tabs()), id)) && Tabs() == Cleared(old(Tabs()), id, bucket)
    {
      RivalOk(Tabs(), id, {id}, 0);
      var tb := H.TriedBucket(key, mapInfo[id].addr);
      var tp := H.Position(key, false, tb, mapInfo[id].addr);
      var rival := vvTried[tb][tp];
      bucket := Home(H, key, mapInfo, rival);
      if rival != EMPTY {
        var _ := Evict(rival, id);
      }
    }

    // Put a record that is in no table into its tried slot.
    method EnterTried(id: int) returns (ghost bucket: nat)
      requires IndexOk() && Tabs().Ok({id}, 0) && id in mapInfo && mapInfo[id].lastSuccess != 0
      modifies this`mapInfo, this`mapAddr, this`vRandom, this`nNew, this`vvNew, this`vvTried, this`nTried
      ensures IndexOk() && SameStats(old(mapInfo), mapInfo)
      ensures bucket == Home(H, key, old(mapInfo), Rival(old(Tabs()), id))
      ensures id in Cleared(old(Tabs()), id, bucket).places && Cleared(old(Tabs()), id, bucket).Shaped()
      ensures Tabs() == Try(Cleared(old(Tabs()), id, bucket), id)
    {
      ghost var t := Tabs();
      bucket := Vacate(id);
      ghost var m1 := mapInfo;
      ClearedOk(t, id, bucket);
      assert id in Tabs().places;
      SetTried(id, true);
      SameStatsTrans(old(mapInfo), m1, mapInfo);
    }

    // Move a record from the new table to the tried table.
    method MakeTried(id: int)
      requires Valid() && id in mapInfo && !mapInfo[id].inTried && mapInfo[id].lastSuccess != 0
      modifies this`mapInfo, this`mapAddr, this`vRandom, this`nNew, this`vvNew, this`vvTried, this`nTried
      ensures IndexOk() && SameStats(old(mapInfo), mapInfo)
      ensures Tabs() == Entered(old(Tabs()), old(mapInfo), id)
    {
      LeftOk(Tabs(), id);
      LeaveNew(id);
      ghost var m1 := mapInfo;
      assert id in Tabs().places && mapInfo[id].refCount == 0;
      ghost var bucket := EnterTried(id);
      SameStatsTrans(old(mapInfo), m1, mapInfo);
    }

    // ---- Statistics ----

    // Update a record without moving it.
    method SetInfo(id: int, i: Info)
      requires IndexOk() && id in mapInfo && PlaceOf(i) == PlaceOf(mapInfo[id]) && i.randomPos == mapInfo[id].randomPos
      modifies this`mapInfo
      ensures (IndexOk() <==> StatOk(i)) && Tabs() == old(Tabs()) && mapInfo == old(mapInfo)[id := i]
    {
      PlacesPut(mapInfo, id, i);
      mapInfo := mapInfo[id := i];
      assert StatsOk(mapInfo) ==> StatOk(mapInfo[id]);
    }

    /** Record a connection attempt to an exactly matching address; the check objects to a negative time. */
    method Attempt(addr: Service, countFailure: bool, time: int)
      requires Valid()
      modifies this`mapInfo
      ensures Tabs() == old(Tabs())
      ensures Valid() <==> time >= 0 || addr.ip !in mapAddr || old(mapInfo)[mapAddr[addr.ip]].addr != addr
      ensures addr.ip !in mapAddr || old(mapInfo)[mapAddr[addr.ip]].addr != addr ==> mapInfo == old(mapInfo)
      ensures addr.ip in mapAddr && old(mapInfo)[mapAddr[addr.ip]].addr == addr ==>
                var id := mapAddr[addr.ip];
                var i := old(mapInfo)[id].(lastTry := time);
                mapInfo == old(mapInfo)[id := if countFailure && i.lastCountAttempt < nLastGood
                                              then i.(lastCountAttempt := time, attempts := i.attempts + 1) else i]
    {
      var id := Find(addr.ip);
      if id == EMPTY || mapInfo[id].addr != addr { return; }
      var i := mapInfo[id].(lastTry := time);
      if countFailure && i.lastCountAttempt < nLastGood {
        i := i.(lastCountAttempt := time, attempts := i.attempts + 1);
      }
      SetInfo(id, i);
    }

    /** Refresh the time of a connected peer, at most every twenty minutes. */
    method Connected(addr: Service, time: int)
      requires Valid()
      modifies this`mapInfo
      ensures Valid() && Tabs() == old(Tabs())
      ensures mapInfo == if addr.ip in mapAddr && old(mapInfo)[mapAddr[addr.ip]].addr == addr &&
              time - old(mapInfo)[mapAddr[addr.ip]].time > 20 * 60
                         then old(mapInfo)[mapAddr[addr.ip] := old(mapInfo)[mapAddr[addr.ip]].(time := time)]
                              else old(mapInfo)
    {
      var id := Find(addr.ip);
      if id == EMPTY || mapInfo[id].addr != addr { return; }
      if time - mapInfo[id].time > 20 * 60 {
        SetInfo(id, mapInfo[id].(time := time));
      }
    }

    method SetServices(addr: Service, services: set<nat>)
      requires Valid()
      modifies this`mapInfo
      ensures Valid() && Tabs() == old(Tabs())
      ensures mapInfo == if addr.ip in mapAddr && old(mapInfo)[mapAddr[addr.ip]].addr == addr
                         then old(mapInfo)[mapAddr[addr.ip] := old(mapInfo)[mapAddr[addr.ip]].(services := services)]
                              else old(mapInfo)
    {
      var id := Find(addr.ip);
      if id == EMPTY || mapInfo[id].addr != addr { return; }
      SetInfo(id, mapInfo[id].(services := services));
    }

    // ---- Promoting an address ----

    // Whether some new bucket holds the id, searching from a random one.
    method InSomeNewBucket(id: int, rnd: nat) returns (found: bool)
      requires Tabs().Shaped() && id in mapInfo && rnd < NEW_BUCKETS
      ensures found <==> Tabs().Refs(id) != {}
    {
      found := false;
      for n := 0 to NEW_BUCKETS
        invariant forall k: nat :: k < n ==> !Tabs().Occupies(id, Rotated(k, rnd))
      {
        var b := Rotated(n, rnd);
        if vvNew[b][H.Position(key, true, b, mapInfo[id].addr)] == id {
          assert b in Tabs().Refs(id);
          return true;
        }
      }
      forall b: nat | b < NEW_BUCKETS ensures !Tabs().Occupies(id, b) {
        var k := if b >= rnd then b - rnd else b - rnd + NEW_BUCKETS;
        assert Rotated(k, rnd) == b;
      }
      assert Tabs().Refs(id) == {};
    }

    // Move a new record that proved good to the tried table, or remember the collision.
    method Promote(id: int, testBeforeEvict: bool, rnd: nat)
      requires Valid() && id in mapInfo && !mapInfo[id].inTried && mapInfo[id].lastSuccess != 0 && rnd < NEW_BUCKETS
      modifies this`mapInfo, this`mapAddr, this`vRandom, this`nNew, this`vvNew, this`vvTried, this`nTried,
        this`collisions
      ensures Valid() && SameStats(old(mapInfo), mapInfo) && id in mapInfo
      ensures Evolves(old(Tabs()), nIdCount, Tabs(), nIdCount)
      ensures collisions == CollisionsAfter(old(Tabs()), old(collisions), id, testBeforeEvict)
      ensures mapInfo[id].inTried <==> !testBeforeEvict || Rival(old(Tabs()), id) == EMPTY
      ensures Tabs() == if mapInfo[id].inTried then Entered(old(Tabs()), old(mapInfo), id) else old(Tabs())
    {
      var found := IsListed(id, rnd);
      var tb := H.TriedBucket(key, mapInfo[id].addr);
      var tp := H.Position(key, false, tb, mapInfo[id].addr);
      ghost var t, m, c := Tabs(), mapInfo, collisions;
      assert t.Shaped() && id in t.places && !t.places[id].inTried && vvTried[tb][tp] == Rival(t, id);
      if testBeforeEvict && vvTried[tb][tp] != EMPTY {
        Remember(id);
        assert mapInfo == m && Tabs() == t && collisions == CollisionsAfter(t, c, id, testBeforeEvict);
      } else {
        Move(id);
        assert Tabs() == Entered(t, m, id) && collisions == c == CollisionsAfter(t, c, id, testBeforeEvict);
      }
    }

    // A new record is always listed in some bucket, so the search for one succeeds.
    method IsListed(id: int, rnd: nat) returns (found: bool)
      requires Valid() && id in mapInfo && !mapInfo[id].inTried && rnd < NEW_BUCKETS
      ensures found
    {
      NewHasRefs(Tabs(), id);
      found := InSomeNewBucket(id, rnd);
    }

    // Remember a collision, if there is room.
    method Remember(id: int)
      requires Valid() && id in mapInfo && !mapInfo[id].inTried && Rival(Tabs(), id) != EMPTY
      modifies this`collisions
      ensures Valid() && Tabs() == old(Tabs()) && Evolves(Tabs(), nIdCount, Tabs(), nIdCount)
      ensures collisions == CollisionsAfter(Tabs(), old(collisions), id, true)
    {
      EvolvesSame(Tabs(), nIdCount);
      if |collisions| < TRIED_COLLISION_SIZE {
        collisions := collisions + {id};
      }
    }

    // Move a new record to the tried table, consistently.
    method Move(id: int)
      requires Valid() && id in mapInfo && !mapInfo[id].inTried && mapInfo[id].lastSuccess != 0
      modifies this`mapInfo, this`mapAddr, this`vRandom, this`nNew, this`vvNew, this`vvTried, this`nTried
      ensures Valid() && SameStats(old(mapInfo), mapInfo) && id in mapInfo && mapInfo[id].inTried
      ensures Evolves(old(Tabs()), nIdCount, Tabs(), nIdCount) && Tabs() == Entered(old(Tabs()), old(mapInfo), id)
    {
      ghost var t := Tabs();
      MakeTriedOk(t, id, Home(H, key, mapInfo, Rival(t, id)), nIdCount);
      MakeTried(id);
      assert id in Tabs().places && Tabs().places[id].inTried;
    }

    // Promote and keep the collision set meaningful.
    method PromoteSettled(id: int, testBeforeEvict: bool, rnd: nat)
      requires Valid() && id in mapInfo && !mapInfo[id].inTried && mapInfo[id].lastSuccess != 0 && rnd < NEW_BUCKETS
      modifies this`mapInfo, this`mapAddr, this`vRandom, this`nNew, this`vvNew, this`vvTried, this`nTried,
        this`collisions
      ensures Valid() && SameStats(old(mapInfo), mapInfo) && id in mapInfo
      ensures Evolves(old(Tabs()), nIdCount, Tabs(), nIdCount)
      ensures collisions == CollisionsAfter(old(Tabs()), old(collisions), id, testBeforeEvict)
      ensures mapInfo[id].inTried <==> !testBeforeEvict || Rival(old(Tabs()), id) == EMPTY
      ensures Tabs() == if mapInfo[id].inTried then Entered(old(Tabs()), old(mapInfo), id) else old(Tabs())
      ensures old(Settled()) ==> Settled()
    {
      ghost var t := Tabs();
      Promote(id, testBeforeEvict, rnd);
      if old(Settled()) {
        CollisionsKept(t, nIdCount, Tabs(), nIdCount, old(collisions));
        if collisions != old(collisions) { CollisionsGrown(t, nIdCount, Tabs(), old(collisions), id); }
      }
    }

    // A success on a record that matches exactly.
    method GoodKnown(id: int, testBeforeEvict: bool, time: int, rnd: nat)
      requires Valid() && id in mapInfo && time > 0 && rnd < NEW_BUCKETS
      modifies this`mapInfo, this`mapAddr, this`vRandom, this`nNew, this`vvNew, this`vvTried, this`nTried,
        this`collisions
      ensures Valid() && id in mapInfo && SameStats(old(mapInfo)[id := Succeeded(old(mapInfo)[id], time)], mapInfo)
      ensures mapInfo[id].lastSuccess == mapInfo[id].lastTry == time && mapInfo[id].attempts == 0
      ensures Evolves(old(Tabs()), nIdCount, Tabs(), nIdCount)
      ensures collisions == old(collisions) +
              (if !mapInfo[id].inTried && |old(collisions)| < TRIED_COLLISION_SIZE then {id} else {})
      ensures mapInfo[id].inTried <==> old(mapInfo)[id].inTried || !testBeforeEvict || Rival(old(Tabs()), id) == EMPTY
      ensures Tabs() == if mapInfo[id].inTried && !old(mapInfo)[id].inTried then Entered(old(Tabs()), old(mapInfo), id)
              else old(Tabs())
      ensures old(Settled()) ==> Settled()
    {
      EvolvesSame(Tabs(), nIdCount);
      ghost var m := mapInfo;
      SetInfo(id, Succeeded(mapInfo[id], time));
      if mapInfo[id].inTried { return; }
      EnteredSame(Tabs(), m, id, mapInfo[id]);
      PromoteSettled(id, testBeforeEvict, rnd);
    }

    /**
     Mark an address as good. A new id either moves to the tried table or, when its slot is taken
     and eviction needs a test first, joins the collision set if there is room.
     */
    method Good(addr: Service, testBeforeEvict: bool, time: int, rnd: nat)
      requires Valid() && time > 0 && rnd < NEW_BUCKETS
      modifies this
      ensures Valid() && nLastGood == time && nIdCount == old(nIdCount)
      ensures Evolves(old(Tabs()), nIdCount, Tabs(), nIdCount)
      ensures addr.ip !in old(mapAddr) || old(mapInfo)[old(mapAddr)[addr.ip]].addr != addr ==>
                mapInfo == old(mapInfo) && collisions == old(collisions)
      ensures addr.ip in old(mapAddr) && old(mapInfo)[old(mapAddr)[addr.ip]].addr == addr ==>
                var id := old(mapAddr)[addr.ip];
                && id in mapInfo && SameStats(old(mapInfo)[id := Succeeded(old(mapInfo)[id], time)], mapInfo)
                && mapInfo[id].lastSuccess == mapInfo[id].lastTry == time && mapInfo[id].attempts == 0
                && collisions == old(collisions) +
                   (if !mapInfo[id].inTried && |old(collisions)| < TRIED_COLLISION_SIZE then {id} else {})
                && (mapInfo[id].inTried <==>
                    old(mapInfo)[id].inTried || !testBeforeEvict || Rival(old(Tabs()), id) == EMPTY)
                && Tabs() ==
                   (if mapInfo[id].inTried && !old(mapInfo)[id].inTried then Entered(old(Tabs()), old(mapInfo), id)
                    else old(Tabs()))
      ensures old(Settled()) ==> Settled()
    {
      nLastGood := time;
      EvolvesSame(Tabs(), nIdCount);
      var id := Find(addr.ip);
      if id == EMPTY || mapInfo[id].addr != addr { return; }
      GoodKnown(id, testBeforeEvict, time, rnd);
    }

    // ---- Learning addresses ----

    // Give a record a slot in the new bucket its source selects, or drop it if it has none.
    method PlaceNew(id: int, source: NetAddr, now: int)
      requires IndexOk() && id in mapInfo && Placeable(Tabs(), id)
      modifies this`mapInfo, this`mapAddr, this`vRandom, this`nNew, this`vvNew
      ensures IndexOk() && SameButRefs(old(mapInfo), mapInfo)
      ensures Tabs() == Slotted(old(Tabs()), old(mapInfo), id, source, now)
    {
      var bucket := H.NewBucket(key, mapInfo[id].addr, source);
      var pos := H.Position(key, true, bucket, mapInfo[id].addr);
      PlaceableSlot(Tabs(), id, bucket, pos);
      var occupant := vvNew[bucket][pos];
      if occupant != id {
        if occupant == EMPTY || GivesWay(mapInfo, occupant, id, now) {
          ClearNew(bucket, pos);
          assert id in Tabs().places;
          FillSlot(bucket, id);
        } else if mapInfo[id].refCount == 0 {
          Delete(id);
        }
      }
    }

    // What an announcement of a known address changes; whether it may also gain it a slot.
    method UpdateKnown(id: int, addr: Address, timePenalty: int, now: int, lucky: bool) returns (more: bool)
      requires IndexOk() && id in mapInfo
      modifies this`mapInfo
      ensures IndexOk() && Tabs() == old(Tabs())
      ensures mapInfo == old(mapInfo)[id := Refreshed(old(mapInfo)[id], addr, timePenalty, now)]
      ensures more <==> WantsSlot(mapInfo[id], addr, lucky)
    {
      var i := mapInfo[id];
      var currentlyOnline := now - addr.time < 24 * 60 * 60;
      var updateInterval := if currentlyOnline then 60 * 60 else 24 * 60 * 60;
      if addr.time != 0 && (i.time == 0 || i.time < addr.time - updateInterval - timePenalty) {
        i := i.(time := Max(0, addr.time - timePenalty));
      }
      i := i.(services := i.services + addr.services);
      SetInfo(id, i);
      if addr.time == 0 || (i.time != 0 && addr.time <= i.time) { return false; }
      if i.inTried { return false; }
      if i.refCount == NEW_BUCKETS_PER_ADDRESS { return false; }
      // each further slot is twice as hard to get
      if i.refCount > 0 && !lucky { return false; }
      return true;
    }

    // The last part of Add: try to give the record one more slot.
    method AddSlot(id: int, source: NetAddr, now: int)
      requires IndexOk() && id in mapInfo && Placeable(Tabs(), id)
      modifies this`mapInfo, this`mapAddr, this`vRandom, this`nNew, this`vvNew
      ensures Valid() && SameButRefs(old(mapInfo), mapInfo) && Evolves(old(Tabs()), nIdCount, Tabs(), nIdCount)
      ensures Tabs() == Slotted(old(Tabs()), old(mapInfo), id, source, now)
      ensures id in mapInfo && old(mapInfo)[id].refCount == 0 ==> mapInfo[id].refCount == 1
      ensures Awarded(old(Tabs()), old(mapInfo), id, source, now, Tabs(), mapInfo)
    {
      ghost var t, m := Tabs(), mapInfo;
      ghost var displace := Displaces(t, mapInfo, id, source, now);
      PlaceNew(id, source, now);
      PlaceInNewOk(t, id, H.NewBucket(key, t.places[id].addr, source), displace);
      if t.places[id].refCount == 0 {
        PlaceInNewCount(t, id, H.NewBucket(key, t.places[id].addr, source), displace);
      }
      assert id in mapInfo ==> Tabs().places[id].refCount == mapInfo[id].refCount;
      SlotAwarded(t, m, id, source, now, mapInfo);
    }

    // Create a record for an unknown address, counted as new but in no bucket yet.
    method AddNew(addr: Address, source: NetAddr, penalty: int) returns (id: int)
      requires Valid() && addr.service.ip !in mapAddr
      modifies this`nIdCount, this`mapInfo, this`mapAddr, this`vRandom, this`nNew
      ensures IndexOk() && id == old(nIdCount) && nIdCount == id + 1 && id in mapInfo
      ensures Tabs() == Joined(old(Tabs()), id, addr.service)
      ensures mapInfo == old(mapInfo)[id := FreshInfo(addr, source, penalty, |old(vRandom)|)]
    {
      id := Create(addr, source);
      SetInfo(id, mapInfo[id].(time := Max(0, mapInfo[id].time - penalty)));
      nNew := nNew + 1;
    }

    // An announcement of an unknown address.
    method AddUnknown(addr: Address, source: NetAddr, penalty: int, now: int) returns (id: int)
      requires Valid() && addr.service.ip !in mapAddr
      modifies this`nIdCount, this`mapInfo, this`mapAddr, this`vRandom, this`nNew, this`vvNew
      ensures Valid() && id == old(nIdCount) && nIdCount == id + 1
      ensures Evolves(old(Tabs()), old(nIdCount), Tabs(), nIdCount)
      ensures OthersKept(old(mapInfo), mapInfo, id, addr.service.ip)
      ensures Tabs() ==
              Slotted(Joined(old(Tabs()), id, addr.service),
                      old(mapInfo)[id := FreshInfo(addr, source, penalty, |old(vRandom)|)], id, source, now)
      ensures id in mapInfo ==>
              mapInfo[id] == FreshInfo(addr, source, penalty, 0).(randomPos := mapInfo[id].randomPos, refCount := 1)
      ensures NewcomerStays(old(Tabs()), old(mapInfo), addr.service, source, now) <==> id in mapInfo
      ensures GoodStay(old(mapInfo), mapInfo, now)
    {
      ghost var t, m, n := Tabs(), mapInfo, nIdCount;
      JoinedPlaceable(t, n, addr.service);
      id := AddNew(addr, source, penalty);
      ghost var t1, m1 := Tabs(), mapInfo;
      AddSlot(id, source, now);
      EvolvesTrans(t, n, t1, nIdCount, Tabs(), nIdCount);
      OthersKeptBySlot(m, m1, mapInfo, id, id, addr.service.ip);
      NewcomerAwarded(t, m, id, addr, source, now, m1, Tabs(), mapInfo);
    }

    // An announcement of a known address.
    method AddKnown(id: int, addr: Address, source: NetAddr, penalty: int, now: int, lucky: bool)
      requires Valid() && id in mapInfo && mapInfo[id].addr.ip == addr.service.ip
      modifies this`mapInfo, this`mapAddr, this`vRandom, this`nNew, this`vvNew
      ensures Valid() && Evolves(old(Tabs()), nIdCount, Tabs(), nIdCount)
      ensures OthersKept(old(mapInfo), mapInfo, nIdCount, addr.service.ip)
      ensures id in mapInfo &&
              mapInfo[id] ==
                Refreshed(old(mapInfo)[id], addr, penalty, now).(randomPos := mapInfo[id].randomPos,
                                                                 refCount := mapInfo[id].refCount)
      ensures var i := Refreshed(old(mapInfo)[id], addr, penalty, now);
              Tabs() == if WantsSlot(i, addr, lucky) then Slotted(old(Tabs()), old(mapInfo)[id := i], id, source, now)
                else old(Tabs())
      ensures GoodStay(old(mapInfo), mapInfo, now)
      ensures GainsSlot(old(Tabs()), old(mapInfo), id, addr, source, now, lucky, mapInfo[id])
    {
      ghost var t, m := Tabs(), mapInfo;
      EvolvesSame(t, nIdCount);
      var more := UpdateKnown(id, addr, penalty, now, lucky);
      ghost var m1 := mapInfo;
      if !m[id].inTried { KnownCounts(t, id); }
      if more {
        KnownPlaceable(t, id);
        AddSlot(id, source, now);
      }
      OthersKeptBySlot(m, m1, mapInfo, id, nIdCount, addr.service.ip);
      KnownAwarded(t, m, id, m1[id], addr, source, now, lucky, Tabs(), mapInfo);
    }

    // Learn of an address that can be reached.
    method AddRoutable(addr: Address, source: NetAddr, penalty: int, now: int, lucky: bool) returns (isNew: bool)
      requires Valid()
      modifies this`nIdCount, this`mapInfo, this`mapAddr, this`vRandom, this`nNew, this`vvNew
      ensures Valid() && Evolves(old(Tabs()), old(nIdCount), Tabs(), nIdCount)
      ensures isNew <==> addr.service.ip !in old(mapAddr)
      ensures nIdCount == old(nIdCount) + (if isNew then 1 else 0)
      ensures OthersKept(old(mapInfo), mapInfo, old(nIdCount), addr.service.ip)
      ensures isNew ==>
                var m := old(mapInfo)[old(nIdCount) :=
                                      FreshInfo(addr, source, penalty, |old(vRandom)|)];
                Tabs() == Slotted(Joined(old(Tabs()), old(nIdCount), addr.service), m, old(nIdCount), source, now)
      ensures !isNew ==>
                var id := old(mapAddr)[addr.service.ip];
                var i := Refreshed(old(mapInfo)[id], addr, penalty, now);
                && id in mapInfo &&
                   mapInfo[id] == i.(randomPos := mapInfo[id].randomPos, refCount := mapInfo[id].refCount)
                && Tabs() == if WantsSlot(i, addr, lucky)
                   then Slotted(old(Tabs()), old(mapInfo)[id := i], id, source, now) else old(Tabs())
      ensures isNew && old(nIdCount) in mapInfo ==>
                var i := mapInfo[old(nIdCount)];
                && i.addr == addr.service && i.source == source && i.services == addr.services && i.refCount == 1
                && i.time == Max(0, addr.time - penalty)
                && i.attempts == i.lastTry == i.lastSuccess == 0
      ensures !isNew ==>
                var id := old(mapAddr)[addr.service.ip];
                GainsSlot(old(Tabs()), old(mapInfo), id, addr, source, now, lucky, mapInfo[id])
      ensures isNew ==>
                (old(nIdCount) in mapInfo <==> NewcomerStays(old(Tabs()), old(mapInfo), addr.service, source, now))
      ensures GoodStay(old(mapInfo), mapInfo, now)
    {
      var id := Find(addr.service.ip);
      isNew := id == EMPTY;
      if isNew {
        id := AddUnknown(addr, source, penalty, now);
      } else {
        AddKnown(id, addr, source, penalty, now, lucky);
      }
    }

    /**
     Learn of an address. The result says whether its ip was unknown; even then the address may not
     stay, when its slot is taken by an entry that does not give way.
     */
    method Add(addr: Address, routable: bool, source: NetAddr, timePenalty: int, now: int, lucky: bool)
      returns (isNew: bool)
      requires Valid()
      modifies this`nIdCount, this`mapInfo, this`mapAddr, this`vRandom, this`nNew, this`vvNew
      ensures Valid() && Evolves(old(Tabs()), old(nIdCount), Tabs(), nIdCount)
      ensures isNew <==> routable && addr.service.ip !in old(mapAddr)
      ensures !routable ==> mapInfo == old(mapInfo) && Tabs() == old(Tabs())
      ensures nIdCount == old(nIdCount) + (if isNew then 1 else 0)
      ensures OthersKept(old(mapInfo), mapInfo, old(nIdCount), addr.service.ip)
      ensures isNew ==>
                var m := old(mapInfo)[old(nIdCount) :=
                                      FreshInfo(addr, source, Penalty(addr, source, timePenalty), |old(vRandom)|)];
                Tabs() == Slotted(Joined(old(Tabs()), old(nIdCount), addr.service), m, old(nIdCount), source, now)
      ensures routable && !isNew ==>
                var id := old(mapAddr)[addr.service.ip];
                var i := Refreshed(old(mapInfo)[id], addr, Penalty(addr, source, timePenalty), now);
                && id in mapInfo &&
                   mapInfo[id] == i.(randomPos := mapInfo[id].randomPos, refCount := mapInfo[id].refCount)
                && Tabs() == if WantsSlot(i, addr, lucky)
                   then Slotted(old(Tabs()), old(mapInfo)[id := i], id, source, now) else old(Tabs())
      ensures isNew && old(nIdCount) in mapInfo ==>
                var i := mapInfo[old(nIdCount)];
                && i.addr == addr.service && i.source == source && i.services == addr.services && i.refCount == 1
                && i.time == (if addr.service.ip == source then addr.time else Max(0, addr.time - timePenalty))
                && i.attempts == i.lastTry == i.lastSuccess == 0
      ensures routable && !isNew ==>
                var id := old(mapAddr)[addr.service.ip];
                GainsSlot(old(Tabs()), old(mapInfo), id, addr, source, now, lucky, mapInfo[id])
      ensures isNew ==>
                (old(nIdCount) in mapInfo <==> NewcomerStays(old(Tabs()), old(mapInfo), addr.service, source, now))
      ensures GoodStay(old(mapInfo), mapInfo, now)
      ensures old(Settled()) ==> Settled()
    {
      ghost var t, n := Tabs(), nIdCount;
      if !routable {
        EvolvesSame(Tabs(), nIdCount);
        return false;
      }
      isNew := AddRoutable(addr, source, Penalty(addr, source, timePenalty), now, lucky);
      if old(Settled()) { CollisionsKept(t, n, Tabs(), nIdCount, collisions); }
    }

    // ---- Handing out addresses ----

    /**
     A random selection of good addresses: a shuffled prefix of all records without the terrible
     ones, cut off at the limit.
     */
    method GetAddr(now: int) returns (vAddr: seq<Service>)
      requires Valid()
      modifies this`mapInfo, this`mapAddr, this`vRandom
      ensures Valid() && Tabs() == old(Tabs()) && SameButPos(old(mapInfo), mapInfo)
      ensures |vRandom| == |old(vRandom)|
      ensures exists k: nat ::
              k <= |vRandom| && AllIn(vRandom[..k], mapInfo) && vAddr == GoodOf(mapInfo, vRandom[..k], now)
                               && (k == |vRandom| || |vAddr| == Min(|vRandom|, GETADDR_MAX))
      ensures |vAddr| <= Min(|vRandom|, GETADDR_MAX)
    {
      var nodes := GETADDR_MAX_PCT * |vRandom| / 100;
      if nodes > GETADDR_MAX { nodes := GETADDR_MAX; }
      vAddr := [];
      var n := 0;
      while n < |vRandom| && |vAddr| < nodes
        invariant IndexOk() && Tabs() == old(Tabs()) && SameButPos(old(mapInfo), mapInfo) && |vRandom| == |old(vRandom)|
        invariant n <= |vRandom| && |vAddr| <= nodes && |vAddr| <= n
        invariant AllIn(vRandom[..n], mapInfo) && vAddr == GoodOf(mapInfo, vRandom[..n], now)
        decreases |vRandom| - n
      {
        vAddr := DrawOne(n, now, vAddr);
        n := n + 1;
      }
    }

    // Draw one of the records not drawn yet.
    method DrawOne(n: nat, now: int, vAddr: seq<Service>) returns (vAddr': seq<Service>)
      requires IndexOk() && n < |vRandom| && AllIn(vRandom[..n], mapInfo) && vAddr == GoodOf(mapInfo, vRandom[..n], now)
      modifies this`mapInfo, this`mapAddr, this`vRandom
      ensures IndexOk() && Tabs() == old(Tabs()) && SameButPos(old(mapInfo), mapInfo) && |vRandom| == |old(vRandom)|
      ensures AllIn(vRandom[..n + 1], mapInfo) && vAddr' == GoodOf(mapInfo, vRandom[..n + 1], now)
      ensures |vAddr| <= |vAddr'| <= |vAddr| + 1
    {
      var pos :| n <= pos < |vRandom|;
      ghost var m, r := mapInfo, vRandom[..n];
      SwapRandom(n, pos);
      assert vRandom[..n] == r;
      GoodOfSame(m, mapInfo, r, now);
      assert vRandom[n] in mapInfo;
      assert vRandom[..n + 1][..n] == vRandom[..n];
      vAddr' := if IsTerrible(mapInfo[vRandom[n]], now) then vAddr else vAddr + [mapInfo[vRandom[n]].addr];
    }

    // ---- Collisions ----

    // Look at one collision: forget it, let the new address replace the old one, or wait.
    method ResolveOne(id: nat, isValid: Service -> bool, now: int, rnd: nat) returns (erase: bool)
      requires Valid() && now > 0 && rnd < NEW_BUCKETS
      modifies this
      ensures Valid() && nIdCount == old(nIdCount) && collisions == old(collisions)
      ensures Evolves(old(Tabs()), nIdCount, Tabs(), nIdCount)
      ensures old(Settled()) ==> Settled()
      ensures var d := Decide(old(Now()), id, isValid, now);
              (erase <==> d != Wait) && Decided(d, id, now, old(Now()), Now())
    {
      EvolvesSame(Tabs(), nIdCount);
      if id !in mapInfo { return true; }
      var addr := mapInfo[id].addr;
      if !isValid(addr) { return true; }
      var tb := H.TriedBucket(key, addr);
      var old_ := vvTried[tb][H.Position(key, false, tb, addr)];
      RivalOk(Tabs(), id, {}, 0);
      if old_ == EMPTY {
        Supersede(id, now, rnd);
        return true;
      }
      if now - mapInfo[old_].lastSuccess < REPLACEMENT { return true; }
      if now - mapInfo[old_].lastTry < REPLACEMENT && now - mapInfo[old_].lastTry > 60 {
        Supersede(id, now, rnd);
        return true;
      }
      return false;
    }

    // Mark a pending address as good, whether its slot is taken or not.
    method Supersede(id: nat, now: int, rnd: nat)
      requires Valid() && id in mapInfo && now > 0 && rnd < NEW_BUCKETS
      modifies this
      ensures Valid() && nIdCount == old(nIdCount) && collisions == old(collisions)
      ensures Evolves(old(Tabs()), nIdCount, Tabs(), nIdCount)
      ensures old(Settled()) ==> Settled()
      ensures Decided(Replace, id, now, old(Now()), Now())
    {
      Good(mapInfo[id].addr, false, now, rnd);
    }

    ghost function Now(): Moment
      reads this
    {
      Moment(Tabs(), mapInfo)
    }

    /** Go through the collision set once, in order; those that must wait are left. */
    method ResolveCollisions(isValid: Service -> bool, now: int, rnd: nat) returns (ghost log: seq<Visit>)
      requires Valid() && now > 0 && rnd < NEW_BUCKETS
      modifies this
      ensures Valid() && nIdCount == old(nIdCount)
      ensures Evolves(old(Tabs()), nIdCount, Tabs(), nIdCount)
      ensures old(Settled()) ==> Settled()
      ensures Sweep(log, old(Now()), Now(), isValid, now)
      ensures Ids(log) == old(collisions) && collisions == Waiting(log)
      ensures forall r :: r in old(mapInfo) && old(mapInfo)[r].inTried && MayStay(old(mapInfo)[r], now) ==>
                r in mapInfo && mapInfo[r].inTried
    {
      EvolvesSame(Tabs(), nIdCount);
      var rest := collisions;
      log := [];
      while rest != {}
        invariant Valid() && nIdCount == old(nIdCount)
        invariant Evolves(old(Tabs()), nIdCount, Tabs(), nIdCount)
        invariant old(Settled()) ==> Settled()
        invariant Sweep(log, old(Now()), Now(), isValid, now)
        invariant Remains(log, old(collisions), rest, collisions)
        decreases rest
      {
        HasLeast(rest);
        var id :| id in rest && forall other :: other in rest ==> id <= other;
        log := VisitOne(id, isValid, now, rnd, log, old(Now()), old(nIdCount), old(collisions), rest);
        rest := rest - {id};
      }
      forall r | r in old(mapInfo) && old(mapInfo)[r].inTried && MayStay(old(mapInfo)[r], now)
        ensures r in mapInfo && mapInfo[r].inTried
      {
        SweepSpares(log, old(Now()), Now(), isValid, now, r);
      }
    }

    // Visit one collision and forget it unless it must wait.
    method VisitOne(id: nat, isValid: Service -> bool, now: int, rnd: nat,
                    ghost log: seq<Visit>, ghost first: Moment, ghost n: int, ghost all: set<nat>, ghost rest: set<nat>)
                      returns (ghost log': seq<Visit>)
      requires Valid() && now > 0 && rnd < NEW_BUCKETS && n == nIdCount && Evolves(first.t, n, Tabs(), n)
      requires Sweep(log, first, Now(), isValid, now) && Remains(log, all, rest, collisions)
      requires id in rest && forall other :: other in rest ==> id <= other
      modifies this
      ensures Valid() && n == nIdCount && Evolves(first.t, n, Tabs(), n) && (old(Settled()) ==> Settled())
      ensures Sweep(log', first, Now(), isValid, now) && Remains(log', all, rest - {id}, collisions)
    {
      ghost var before, waiting := Now(), collisions;
      var erase := ResolveOne(id, isValid, now, rnd);
      EvolvesTrans(first.t, n, before.t, n, Tabs(), n);
      if erase {
        if Settled() { FewerCollisions(Tabs(), nIdCount, collisions, id); }
        collisions := collisions - {id};
      }
      ghost var v := Visit(id, Decide(before, id, isValid, now), before, Now());
      log' := log + [v];
      NextVisit(log, first, isValid, now, v);
      NextRemains(log, all, rest, waiting, v);
    }

    /**
     Some occupant of a contended tried slot. There is one for every live collision of a settled
     manager; otherwise the lookup itself creates a record, and the consistency check fails.
     */
    method SelectTriedCollision() returns (found: bool, i: Info)
      requires Valid()
      modifies this`collisions, this`mapInfo
      ensures old(Settled()) ==> Valid() && Settled()
      ensures Valid() <==> mapInfo == old(mapInfo)
      ensures mapInfo != old(mapInfo) ==>
                mapInfo == old(mapInfo)[EMPTY := NO_INFO] && exists id ::
                  id in collisions && id in old(mapInfo) && Rival(old(Tabs()), id) == EMPTY
      ensures found ==> collisions == old(collisions) && exists id ::
              id in collisions && id in old(mapInfo) && Holds(mapInfo, Rival(old(Tabs()), id), i)
      ensures !found ==> i == NO_INFO && mapInfo == old(mapInfo)
      ensures !found ==> old(collisions) == {} || exists id ::
              id in old(collisions) && id !in mapInfo && collisions == old(collisions) - {id}
    {
      if collisions == {} { return false, NO_INFO; }
      var id :| id in collisions;
      if id !in mapInfo {
        if old(Settled()) { FewerCollisions(Tabs(), nIdCount, collisions, id); }
        collisions := collisions - {id};
        return false, NO_INFO;
      }
      var tb := H.TriedBucket(key, mapInfo[id].addr);
      var old_ := vvTried[tb][H.Position(key, false, tb, mapInfo[id].addr)];
      RivalOk(Tabs(), id, {}, 0);
      if old_ !in mapInfo { mapInfo := mapInfo[old_ := NO_INFO]; }
      return true, mapInfo[old_];
    }
  }

  /** The new bucket an evicted id goes back to: the one for its primary source. */
  function Home(H: Hashing, key: nat, m: map<int, Info>, id: int): (bucket: nat)
    ensures bucket < NEW_BUCKETS
  {
    if id in m then H.NewBucket(key, m[id].addr, m[id].source) else 0
  }

  /** The tables after an id has entered its tried slot; a rival it found there has gone home. */
  ghost function Entered(t: Tables, m: map<int, Info>, id: int): Tables
    requires t.Shaped() && id in t.places
  {
    AddrTables.MakeTried(t, id, Home(t.H, t.key, m, Rival(t, id)))
  }

  // Statistics do not matter for it.
  lemma EnteredSame(t: Tables, m: map<int, Info>, id: int, i: Info)
    requires t.Shaped() && id in t.places && id in m && i.addr == m[id].addr && i.source == m[id].source
    ensures Entered(t, m[id := i], id) == Entered(t, m, id)
  {
  }

  /**
   What a promotion does: the id holds its tried slot and no new one. The rival it displaces, if any, goes
   back to the new bucket its own source gives it, where it takes the place of whoever is there. Nothing
   else changes.
   */
  ghost predicate Promoted(t: Tables, m: map<int, Info>, id: int, t': Tables) {
    && t.Shaped() && t'.Shaped() && id in t.places && t'.H == t.H && t'.key == t.key
    && id in t'.places && t'.places[id] == Place(t.places[id].addr, 0, true)
    && t'.vvTried == Put(t.vvTried, t.TriedBucketOf(id), t.TriedPosOf(id), id)
    && var r := Rival(t, id);
    && (r == EMPTY ==> KeepsAllBut(t, t', {id}))
    && (r != EMPTY ==>
        && r in m && r in t'.places && t'.places[r] == Place(m[r].addr, 1, false)
        && NewSlotOf(t', m[r].addr, m[r].source) == r
        && KeepsAllBut(t, t', {id, r, NewSlotOf(t, m[r].addr, m[r].source)}))
  }

  lemma EnteredFates(t: Tables, m: map<int, Info>, id: int)
    requires t.Ok({}, 0) && t.places == Places(m) && id in m && !m[id].inTried
    ensures Promoted(t, m, id, Entered(t, m, id))
  {
    var r := Rival(t, id);
    RivalOk(t, id, {}, 0);
    MakeTriedSlot(t, id, Home(t.H, t.key, m, r));
    MakeTriedFates(t, id, Home(t.H, t.key, m, r));
  }

  lemma IdsCounted(t: Tables)
    requires t.Ok({}, 0)
    ensures t.nTried + t.nNew == |t.places.Keys|
  {
    assert t.TriedIds() + t.NewIds() == t.places.Keys && t.TriedIds() !! t.NewIds();
    assert t.NewIds() - {} == t.NewIds();
  }

  predicate Holds(m: map<int, Info>, id: int, i: Info) { id in m && m[id] == i }

  /** The record after a success: time stamps set and failures forgotten. */
  function Succeeded(i: Info, time: int): Info { i.(lastSuccess := time, lastTry := time, attempts := 0) }

  // ---- A pass over the pending collisions ----

  /** Tables and records at one moment. */
  datatype Moment = Moment(t: Tables, m: map<int, Info>) {
    ghost predicate Ok() { t.Ok({}, 0) && t.places == Places(m) }
  }

  /** What a look at a pending collision decides. */
  datatype Decision = Forget | Replace | Wait

  /**
   A vanished or invalid address is forgotten, and so is one whose rival had success lately. If the slot
   is free after all, or the rival failed when it was tried, the new address takes it.
   */
  ghost function Decide(s: Moment, id: int, isValid: Service -> bool, now: int): Decision
    requires s.Ok()
  {
    if id !in s.m || !isValid(s.m[id].addr) then Forget
    else
      RivalOk(s.t, id, {}, 0);
      var r := Rival(s.t, id);
      if r == EMPTY then Replace
      else if now - s.m[r].lastSuccess < REPLACEMENT then Forget
      else if 60 < now - s.m[r].lastTry < REPLACEMENT then Replace
      else Wait
  }

  /** In hours and seconds. */
  lemma DecideMeans(s: Moment, id: int, isValid: Service -> bool, now: int)
    requires s.Ok() && id in s.m && isValid(s.m[id].addr)
    ensures var r, d := Rival(s.t, id), Decide(s, id, isValid, now);
            && (r == EMPTY ==> d == Replace)
            && (r != EMPTY ==>
                && r in s.m
                && (d == Forget <==> now - s.m[r].lastSuccess < 4 * 60 * 60)
                && (d == Replace <==>
                    now - s.m[r].lastSuccess >= 4 * 60 * 60 && 60 < now - s.m[r].lastTry < 4 * 60 * 60))
  {
    RivalOk(s.t, id, {}, 0);
  }

  /** A replacement puts the address into the tried table with a fresh success; otherwise nothing changes. */
  ghost predicate Decided(d: Decision, id: int, now: int, s: Moment, s': Moment)
    requires s.Ok()
  {
    if d == Replace then
      && id in s.m && id in s'.m && s'.m[id].inTried && SameStats(s.m[id := Succeeded(s.m[id], now)], s'.m)
      && s'.t == if s.m[id].inTried then s.t else Entered(s.t, s.m, id)
    else s' == s
  }

  /** A look at one collision: the decision, and the states before and after. */
  datatype Visit = Visit(id: nat, d: Decision, before: Moment, after: Moment)

  /** Visits in increasing order of ids, each decided in the state the one before it left. */
  ghost predicate Sweep(log: seq<Visit>, first: Moment, last: Moment, isValid: Service -> bool, now: int) {
    if log == [] then first == last
    else
      var n := |log| - 1;
      var v := log[n];
      && Sweep(log[..n], first, v.before, isValid, now) && (forall u :: u in log[..n] ==> u.id < v.id)
      && v.before.Ok() && v.d == Decide(v.before, v.id, isValid, now) && Decided(v.d, v.id, now, v.before, v.after) &&
         v.after == last
  }

  ghost function Ids(log: seq<Visit>): set<nat> {
    if log == [] then {} else Ids(log[..|log| - 1]) + {log[|log| - 1].id}
  }

  ghost function Waiting(log: seq<Visit>): set<nat> {
    if log == [] then {}
    else Waiting(log[..|log| - 1]) + (if log[|log| - 1].d == Wait then {log[|log| - 1].id} else {})
  }

  // Part way through, the rest is still to be visited and still pending.
  ghost predicate Remains(log: seq<Visit>, all: set<nat>, rest: set<nat>, pending: set<nat>) {
    && all == Ids(log) + rest && pending == Waiting(log) + rest
    && (forall u, id :: u in log && id in rest ==> u.id < id)
  }

  lemma NextVisit(log: seq<Visit>, first: Moment, isValid: Service -> bool, now: int, v: Visit)
    requires Sweep(log, first, v.before, isValid, now) && v.before.Ok() && forall u :: u in log ==> u.id < v.id
    requires v.d == Decide(v.before, v.id, isValid, now) && Decided(v.d, v.id, now, v.before, v.after)
    ensures Sweep(log + [v], first, v.after, isValid, now)
  {
    assert (log + [v])[..|log|] == log;
  }

  lemma NextRemains(log: seq<Visit>, all: set<nat>, rest: set<nat>, pending: set<nat>, v: Visit)
    requires Remains(log, all, rest, pending) && v.id in rest && forall other :: other in rest ==> v.id <= other
    ensures Remains(log + [v], all, rest - {v.id}, if v.d == Wait then pending else pending - {v.id})
  {
    assert (log + [v])[..|log|] == log;
    WaitingIds(log);
    IdsOf(log);
    assert v.id !in Waiting(log);
  }

  /** A success in the last four hours, or no attempt to connect between one minute and four hours ago. */
  predicate MayStay(i: Info, now: int) {
    now - i.lastSuccess < 4 * 60 * 60 || now - i.lastTry <= 60 || now - i.lastTry >= 4 * 60 * 60
  }

  /** A tried record with its statistics, or with a success just now. */
  ghost predicate Spared(s: Moment, r: int, i: Info, now: int) {
    && r in s.m && s.m[r].inTried
    && ((s.m[r].lastSuccess == i.lastSuccess && s.m[r].lastTry == i.lastTry) || s.m[r].lastSuccess == now)
  }

  /** No such occupant of the tried table is ever replaced, whatever else happens in the pass. */
  lemma {:induction false} SweepSpares(log: seq<Visit>, first: Moment, last: Moment, isValid: Service -> bool, now: int,
                                       r: int)
    requires Sweep(log, first, last, isValid, now) && first.Ok() && last.Ok()
    requires r in first.m && first.m[r].inTried && MayStay(first.m[r], now)
    ensures Spared(last, r, first.m[r], now)
  {
    if log != [] {
      var v := log[|log| - 1];
      SweepSpares(log[..|log| - 1], first, v.before, isValid, now, r);
      VisitSpares(v.before, last, v.id, isValid, now, r, first.m[r]);
    }
  }

  lemma VisitSpares(s: Moment, s': Moment, id: int, isValid: Service -> bool, now: int, r: int, i: Info)
    requires s.Ok() && s'.Ok() && Decided(Decide(s, id, isValid, now), id, now, s, s')
    requires Spared(s, r, i, now) && MayStay(i, now)
    ensures Spared(s', r, i, now)
  {
    if Decide(s, id, isValid, now) == Replace {
      NotReplaced(s, id, isValid, now, r, i);
      if s.m[id].inTried {
        assert r in s'.t.places;
      } else {
        TriedStays(s, id, r);
      }
      assert r in s'.m && s'.t.places[r] == PlaceOf(s'.m[r]);
    }
  }

  lemma NotReplaced(s: Moment, id: int, isValid: Service -> bool, now: int, r: int, i: Info)
    requires s.Ok() && Decide(s, id, isValid, now) == Replace && Spared(s, r, i, now) && MayStay(i, now)
    ensures id in s.m && r != Rival(s.t, id)
  {
    RivalOk(s.t, id, {}, 0);
  }

  lemma TriedStays(s: Moment, id: int, r: int)
    requires s.Ok() && id in s.m && !s.m[id].inTried && r in s.m && s.m[r].inTried && r != Rival(s.t, id)
    ensures var t' := Entered(s.t, s.m, id); r in t'.places && t'.places[r] == s.t.places[r]
  {
    EnteredFates(s.t, s.m, id);
    var q := Rival(s.t, id);
    if q != EMPTY {
      var b := s.t.H.NewBucket(s.t.key, s.m[q].addr, s.m[q].source);
      assert s.t.NewSlotOk(b, s.t.H.Position(s.t.key, true, b, s.m[q].addr));
    }
  }

  lemma {:induction false} WaitingIds(log: seq<Visit>)
    ensures Waiting(log) <= Ids(log)
  {
    if log != [] { WaitingIds(log[..|log| - 1]); }
  }

  lemma {:induction false} IdsOf(log: seq<Visit>)
    ensures forall id :: id in Ids(log) ==> exists u :: u in log && u.id == id
  {
    if log != [] {
      IdsOf(log[..|log| - 1]);
      forall id | id in Ids(log) ensures exists u :: u in log && u.id == id {
        if id == log[|log| - 1].id {
          assert log[|log| - 1] in log;
        } else {
          assert id in Ids(log[..|log| - 1]);
          var u :| u in log[..|log| - 1] && u.id == id;
          assert u in log;
        }
      }
    }
  }

  // Dropping the last element of vRandom.
  lemma DeleteIndex(m: map<int, Info>, mapAddr: map<NetAddr, int>, vRandom: seq<int>, id: int)
    requires RandomOk(m, vRandom) && |vRandom| > 0 && vRandom[|vRandom| - 1] == id
    ensures RandomOk(m - {id}, vRandom[..|vRandom| - 1])
    ensures AddrOk(m, mapAddr) ==> AddrOk(m - {id}, mapAddr - {m[id].addr.ip})
  {
  }

  lemma CreateIndex(m: map<int, Info>, mapAddr: map<NetAddr, int>, vRandom: seq<int>, id: int, i: Info)
    requires RandomOk(m, vRandom) && AddrOk(m, mapAddr) && StatsOk(m) && IdsOk(m, id) && i.addr.ip !in mapAddr &&
             i.randomPos == |vRandom|
    requires i.lastTry >= 0 && i.lastSuccess >= 0 && !i.inTried
    ensures RandomOk(m[id := i], vRandom + [id]) && AddrOk(m[id := i], mapAddr[i.addr.ip := id])
    ensures StatsOk(m[id := i]) && IdsOk(m[id := i], id + 1)
  {
  }

  lemma SwapIndex(m: map<int, Info>, mapAddr: map<NetAddr, int>, r: seq<int>, i: nat, j: nat)
    requires RandomOk(m, r) && i < |r| && j < |r| && i != j
    ensures r[i] in m && r[j] in m && r[i] != r[j]
    ensures var m1 := m[r[i] := m[r[i]].(randomPos := j)];
            var m2 := m1[r[j] := m1[r[j]].(randomPos := i)];
            && RandomOk(m2, r[i := r[j]][j := r[i]])
            && (AddrOk(m, mapAddr) ==> AddrOk(m2, mapAddr)) && (StatsOk(m) ==> StatsOk(m2))
            && SameButPos(m, m2) && Places(m2) == Places(m)
  {
    var m1 := m[r[i] := m[r[i]].(randomPos := j)];
    var m2 := m1[r[j] := m1[r[j]].(randomPos := i)];
    SameButPosPlaces(m, m2);
  }

  /** A new id occupies some bucket. */
  lemma NewHasRefs(t: Tables, id: int)
    requires t.Ok({}, 0) && id in t.places && !t.places[id].inTried
    ensures t.Refs(id) != {}
  {
    assert t.RefOk(id, {});
  }

  lemma EvolvesSame(t: Tables, n: int)
    requires t.Shaped()
    ensures Evolves(t, n, t, n)
  {
  }

  lemma PlaceableSlot(t: Tables, id: int, bucket: nat, pos: nat)
    requires Placeable(t, id) && bucket < NEW_BUCKETS && pos < BUCKET_SIZE
    ensures var d := t.vvNew[bucket][pos];
            d == EMPTY || (d in t.places && !t.places[d].inTried && t.places[d].refCount > 0)
  {
    if t.places[id].refCount == 0 { SlotRecord(t, bucket, pos, {id}, 1); } else { SlotRecord(t, bucket, pos, {}, 0); }
  }

  // A record without slots has exactly one afterwards, if it stays.
  lemma PlaceInNewCount(t: Tables, id: int, bucket: nat, displace: bool)
    requires Placeable(t, id) && bucket < NEW_BUCKETS && t.places[id].refCount == 0
    ensures var t' := PlaceInNew(t, id, bucket, displace); id in t'.places ==> t'.places[id].refCount == 1
  {
    SlotRecord(t, bucket, t.NewPosOf(id, bucket), {id}, 1);
    ClearNewOk(t, bucket, t.NewPosOf(id, bucket), {id}, 1);
  }

  /** A fresh id, counted as new. */
  function Joined(t: Tables, id: int, a: Service): Tables {
    var u := AddId(t, id, a); u.(nNew := u.nNew + 1)
  }

  lemma JoinedPlaceable(t: Tables, n: int, a: Service)
    requires t.Ok({}, 0) && n !in t.places && n >= 0
    ensures Placeable(Joined(t, n, a), n) && Evolves(t, n, Joined(t, n, a), n + 1)
  {
    AddIdOk(t, n, a, {}, 0);
    assert {} + {n} == {n};
    CountOk(AddId(t, n, a), {n}, 0, 1);
  }

  lemma KnownPlaceable(t: Tables, id: int)
    requires t.Ok({}, 0) && id in t.places && !t.places[id].inTried && t.places[id].refCount != NEW_BUCKETS_PER_ADDRESS
    ensures Placeable(t, id) && t.places[id].refCount > 0
  {
    assert t.RefOk(id, {});
  }

  lemma KnownCounts(t: Tables, id: int)
    requires t.Ok({}, 0) && id in t.places && !t.places[id].inTried
    ensures t.places[id].refCount > 0
  {
    assert t.RefOk(id, {});
  }

  lemma EvolvesTrans(t0: Tables, n0: int, t1: Tables, n1: int, t2: Tables, n2: int)
    requires Evolves(t0, n0, t1, n1) && Evolves(t1, n1, t2, n2)
    ensures Evolves(t0, n0, t2, n2)
  {
  }

  /** Ids below `n` are old ones, and records of other addresses keep everything but position and reference count. */
  predicate OthersKept(m: map<int, Info>, m': map<int, Info>, n: int, ip: NetAddr) {
    forall id :: id in m' && id < n ==>
      id in m && (m'[id].addr.ip != ip ==> m'[id] == m[id].(randomPos := m'[id].randomPos, refCount := m'[id].refCount))
  }

  lemma OthersKeptBySlot(m: map<int, Info>, m1: map<int, Info>, m2: map<int, Info>, id: int, n: int, ip: NetAddr)
    requires id in m1 && m1 == m[id := m1[id]] && m1[id].addr.ip == ip && SameButRefs(m1, m2)
    requires id < n ==> id in m
    ensures OthersKept(m, m2, n, ip)
  {
  }

  // There is no penalty for announcing oneself.
  function Penalty(addr: Address, source: NetAddr, timePenalty: int): int {
    if addr.service.ip == source then 0 else timePenalty
  }

  /** The record of an address heard of for the first time. */
  function FreshInfo(addr: Address, source: NetAddr, penalty: int, pos: int): Info {
    Info(addr.service, Max(0, addr.time - penalty), addr.services, source, 0, 0, 0, 0, 0, false, pos)
  }

  /** Whether the occupant of a slot gives way to another id. */
  predicate GivesWay(m: map<int, Info>, occupant: int, id: int, now: int)
    requires occupant in m && id in m
  {
    IsTerrible(m[occupant], now) || (m[occupant].refCount > 1 && m[id].refCount == 0)
  }

  ghost predicate Displaces(t: Tables, m: map<int, Info>, id: int, source: NetAddr, now: int)
    requires t.Shaped() && id in m
  {
    var occupant := NewSlotOf(t, m[id].addr, source);
    occupant in m && GivesWay(m, occupant, id, now)
  }

  /** The tables after an id asked for the slot its source selects. */
  ghost function Slotted(t: Tables, m: map<int, Info>, id: int, source: NetAddr, now: int): Tables {
    if t.Shaped() && id in t.places && id in m
    then PlaceInNew(t, id, t.H.NewBucket(t.key, m[id].addr, source), Displaces(t, m, id, source, now)) else t
  }

  /**
   Who holds the slot asked for afterwards: the asker if it is free, or if its occupant is terrible or can spare it.
   */
  lemma SlotGoesTo(t: Tables, m: map<int, Info>, id: int, source: NetAddr, now: int)
    requires Placeable(t, id) && t.places == Places(m)
    ensures var o, t' := NewSlotOf(t, m[id].addr, source), Slotted(t, m, id, source, now);
            && t'.Shaped() && (o == EMPTY || o in m)
            && NewSlotOf(t', m[id].addr, source) ==
               (if o == EMPTY || IsTerrible(m[o], now) || (m[o].refCount > 1 && m[id].refCount == 0) then id else o)
  {
    var b := t.H.NewBucket(t.key, m[id].addr, source);
    var p := t.NewPosOf(id, b);
    PlaceableSlot(t, id, b, p);
    PlaceInNewOk(t, id, b, Displaces(t, m, id, source, now));
    PlaceInNewHolder(t, id, b, Displaces(t, m, id, source, now));
  }

  /** No record is lost that was not terrible. */
  predicate GoodStay(m: map<int, Info>, m': map<int, Info>, now: int) {
    forall j :: j in m && !IsTerrible(m[j], now) ==> j in m'
  }

  /** The slot an unknown address asks for is free, or held by a terrible record, or by one with another slot. */
  ghost predicate NewcomerStays(t: Tables, m: map<int, Info>, a: Service, source: NetAddr, now: int)
    requires t.Shaped()
  {
    var o := NewSlotOf(t, a, source);
    o == EMPTY || (o in m && (IsTerrible(m[o], now) || m[o].refCount > 1))
  }

  /**
   A known address gains a slot just if the news is newer than its record now says, it is not tried, has
   fewer than eight slots, is lucky if it has one, and the slot is free or held by a terrible record.
   */
  ghost predicate GainsSlot(t: Tables, m: map<int, Info>, id: int, addr: Address, source: NetAddr, now: int,
                            lucky: bool,
                            i: Info)
  {
    && t.Shaped() && id in m
    && var o := NewSlotOf(t, m[id].addr, source);
    var gains := && addr.time != 0 && (i.time == 0 || addr.time > i.time) && !i.inTried && m[id].refCount < 8 && lucky
                 && (o == EMPTY || (o != id && o in m && IsTerrible(m[o], now)));
    i.refCount == m[id].refCount + if gains then 1 else 0
  }

  /** What asking for a slot does to the slot, to the asker and to the others. */
  ghost predicate Awarded(t: Tables, m: map<int, Info>, id: int, source: NetAddr, now: int, t': Tables,
                          m': map<int, Info>)
  {
    && t.Shaped() && t'.Shaped() && id in m
    && var o, o' := NewSlotOf(t, m[id].addr, source), NewSlotOf(t', m[id].addr, source);
    && (o == EMPTY || o in m)
    && o' == (if o == EMPTY || IsTerrible(m[o], now) || (m[o].refCount > 1 && m[id].refCount == 0) then id else o)
    && (id in m' <==> m[id].refCount > 0 || o' == id)
    && (id in m' ==> m'[id].refCount == m[id].refCount + (if o' == id && o != id then 1 else 0))
    && (forall j :: j in m && j != id && !IsTerrible(m[j], now) ==> j in m')
  }

  // What a known address gains, and that no good record is lost.
  lemma KnownAwarded(t: Tables, m: map<int, Info>, id: int, i: Info, addr: Address, source: NetAddr, now: int,
                     lucky: bool,
                     t': Tables, m': map<int, Info>)
    requires t.Shaped() && id in m && id != EMPTY && i == m[id].(time := i.time, services := i.services)
    requires !i.inTried ==> i.refCount > 0
    requires if WantsSlot(i, addr, lucky) then i.refCount < 8 && Awarded(t, m[id := i], id, source, now, t', m')
             else m' == m[id := i]
    requires id in m' && m'[id] == i.(randomPos := m'[id].randomPos, refCount := m'[id].refCount)
    ensures GainsSlot(t, m, id, addr, source, now, lucky, m'[id]) && GoodStay(m, m', now)
  {
    assert forall j :: j in m && j != id ==> m[id := i][j] == m[j];
  }

  lemma SlotAwarded(t: Tables, m: map<int, Info>, id: int, source: NetAddr, now: int, m': map<int, Info>)
    requires Placeable(t, id) && t.places == Places(m) && Slotted(t, m, id, source, now).places == Places(m')
    ensures Awarded(t, m, id, source, now, Slotted(t, m, id, source, now), m')
  {
    SlotGoesTo(t, m, id, source, now);
    forall j | j in m && j != id && !IsTerrible(m[j], now) ensures j in m' {
      SlotKeepsGood(t, m, id, source, now, j);
      assert j in Places(m');
    }
    AskerStays(t, m, id, source, now);
    assert id in m' <==> id in Places(m');
    assert id in m' ==> Places(m')[id].refCount == m'[id].refCount;
  }

  lemma AskerStays(t: Tables, m: map<int, Info>, id: int, source: NetAddr, now: int)
    requires Placeable(t, id) && t.places == Places(m)
    ensures var t' := Slotted(t, m, id, source, now);
            && t'.Shaped() && (id in t'.places <==> m[id].refCount > 0 || NewSlotOf(t', m[id].addr, source) == id)
            && (id in t'.places ==>
                var gained := NewSlotOf(t', m[id].addr, source) == id && NewSlotOf(t, m[id].addr, source) != id;
                t'.places[id].refCount == m[id].refCount + (if gained then 1 else 0))
  {
    var b := t.H.NewBucket(t.key, m[id].addr, source);
    var p := t.NewPosOf(id, b);
    SlotGoesTo(t, m, id, source, now);
    PlaceableSlot(t, id, b, p);
    var limbo, counted := if t.places[id].refCount == 0 then {id} else {}, if t.places[id].refCount == 0 then 1 else 0;
    if t.vvNew[b][p] != id { ClearNewOk(t, b, p, limbo, counted); }
  }

  lemma NewcomerAwarded(t: Tables, m: map<int, Info>, id: int, addr: Address, source: NetAddr, now: int,
                        m1: map<int, Info>, t': Tables, m': map<int, Info>)
    requires t.Ok({}, 0) && id !in m && t.places == Places(m) && id in m1 && m1 == m[id := m1[id]]
    requires m1[id].addr == addr.service && m1[id].refCount == 0
    requires Awarded(Joined(t, id, addr.service), m1, id, source, now, t', m')
    ensures (id in m' <==> NewcomerStays(t, m, addr.service, source, now)) && GoodStay(m, m', now)
  {
    var o := NewSlotOf(t, addr.service, source);
    assert NewSlotOf(Joined(t, id, addr.service), addr.service, source) == o;
    var b := t.H.NewBucket(t.key, addr.service, source);
    assert t.NewSlotOk(b, t.H.Position(t.key, true, b, addr.service));
  }

  lemma PlaceInNewHolder(t: Tables, id: int, bucket: nat, displace: bool)
    requires Placeable(t, id) && bucket < NEW_BUCKETS
    ensures var p := t.NewPosOf(id, bucket);
            var t' := PlaceInNew(t, id, bucket, displace);
            t'.Shaped() && t'.vvNew[bucket][p] == if t.vvNew[bucket][p] == EMPTY || displace then id
              else t.vvNew[bucket][p]
  {
    var p := t.NewPosOf(id, bucket);
    PlaceInNewOk(t, id, bucket, displace);
    PlaceableSlot(t, id, bucket, p);
    var limbo, counted := if t.places[id].refCount == 0 then {id} else {}, if t.places[id].refCount == 0 then 1 else 0;
    if t.vvNew[bucket][p] != id { ClearNewOk(t, bucket, p, limbo, counted); }
  }

  /** Nobody is lost but a terrible occupant of the slot, or the asker if it had no slot and did not get this one. */
  lemma SlotKeepsGood(t: Tables, m: map<int, Info>, id: int, source: NetAddr, now: int, j: int)
    requires Placeable(t, id) && t.places == Places(m) && j in m && j != id
    ensures var o, t' := NewSlotOf(t, m[id].addr, source), Slotted(t, m, id, source, now);
            && (!IsTerrible(m[j], now) || j != o ==> j in t'.places)
            && (j != o ==> t'.places[j] == t.places[j])
  {
    var b := t.H.NewBucket(t.key, m[id].addr, source);
    var p := t.NewPosOf(id, b);
    var o := t.vvNew[b][p];
    PlaceableSlot(t, id, b, p);
    var limbo, counted := if t.places[id].refCount == 0 then {id} else {}, if t.places[id].refCount == 0 then 1 else 0;
    if o != id { ClearNewOk(t, b, p, limbo, counted); }
  }

  /** The new slot an address gets from a source. */
  function NewSlotOf(t: Tables, a: Service, source: NetAddr): int
    requires t.Shaped()
  {
    var b := t.H.NewBucket(t.key, a, source);
    t.vvNew[b][t.H.Position(t.key, true, b, a)]
  }

  /** The collision set after a success of `id`. */
  function CollisionsAfter(t: Tables, collisions: set<nat>, id: int, testBeforeEvict: bool): set<nat>
    requires t.Shaped() && id in t.places
  {
    if id >= 0 && !t.places[id].inTried && testBeforeEvict && Rival(t, id) != EMPTY &&
      |collisions| < TRIED_COLLISION_SIZE
    then collisions + {id} else collisions
  }
}
