/**
 Whole runs of the address manager: any sequence of public operations on a fresh manager keeps the
 consistency check and the meaning of the collision set. Clearing a used manager does not.
 */
module AddrRuns {
  import opened AddrTables
  import opened AddrManager

  datatype Op =
    | Learn(addr: Address, routable: bool, source: NetAddr, timePenalty: int, lucky: bool)
    | Success(service: Service, testBeforeEvict: bool, rnd: nat)
    | Attempted(service: Service, countFailure: bool)
    | Seen(service: Service)
    | Services(service: Service, services: set<nat>)
    | Sample
    | Resolve(rnd: nat)
    | PickCollision

  predicate Drawn(op: Op) {
    match op
    case Success(_, _, rnd) => rnd < NEW_BUCKETS
    case Resolve(rnd) => rnd < NEW_BUCKETS
    case _ => true
  }

  method Step(am: AddrMan, op: Op, isValid: Service -> bool, now: int)
    requires am.Valid() && am.Settled() && Drawn(op) && now > 0
    modifies am
    ensures am.Valid() && am.Settled() && Evolves(old(am.Tabs()), old(am.nIdCount), am.Tabs(), am.nIdCount)
    ensures am.key == old(am.key) && (old(am.Checked()) ==> am.Checked())
  {
    EvolvesSame(am.Tabs(), am.nIdCount);
    match op {
      case Learn(addr, routable, source, timePenalty, lucky) =>
        var _ := am.Add(addr, routable, source, timePenalty, now, lucky);
      case Success(service, testBeforeEvict, rnd) =>
        am.Good(service, testBeforeEvict, now, rnd);
      case Attempted(service, countFailure) =>
        am.Attempt(service, countFailure, now);
      case Seen(service) =>
        am.Connected(service, now);
      case Services(service, services) =>
        am.SetServices(service, services);
      case Sample =>
        var _ := am.GetAddr(now);
      case Resolve(rnd) =>
        var _ := am.ResolveCollisions(isValid, now, rnd);
      case PickCollision =>
        var _, _ := am.SelectTriedCollision();
    }
  }

  /**
   Every run from a fresh manager: the check holds throughout, tried slots once filled stay filled,
   the collision set stays within its limit and every live member has an occupant to replace.
   */
  method Run(hash: Hashing, key: nat, ops: seq<Op>, times: seq<int>, isValid: Service -> bool) returns (am: AddrMan)
    requires |times| == |ops| && forall i :: 0 <= i < |ops| ==> Drawn(ops[i]) && times[i] > 0
    ensures am.Valid() && (am.Checked() <==> key != NULL_KEY)
    ensures am.Settled() && |am.collisions| <= TRIED_COLLISION_SIZE
    ensures forall c :: c in am.collisions && c in am.mapInfo ==> c in am.Tabs().places && Rival(am.Tabs(), c) != EMPTY
  {
    am := new AddrMan(hash, key);
    for i := 0 to |ops|
      invariant fresh(am) && am.Valid() && am.Settled() && am.key == key
    {
      Step(am, ops[i], isValid, times[i]);
    }
  }

  /**
   Clear keeps the collision set although ids start from zero again: the next address learned takes
   over a stale collision, and contends for a slot that is empty.
   */
  method StaleCollision(am: AddrMan, key: nat, addr: Address, source: NetAddr, now: int)
    requires am.Valid() && 0 in am.collisions
    modifies am
    ensures am.Valid() && 0 in am.collisions && 0 in am.mapInfo
    ensures 0 in am.Tabs().places && Rival(am.Tabs(), 0) == EMPTY && !am.Settled()
  {
    am.Clear(key);
    var _ := am.Add(addr, true, source, 0, now, true);
    assert 0 in am.Tabs().places;
  }

  // Every address has its own position in the new table; all contend for one slot of the tried table.
  function OneTriedSlot(): Hashing {
    Hashing((key: nat, a: Service) => 0, (key: nat, a: Service, source: NetAddr) => 0,
            (key: nat, isNew: bool, bucket: nat, a: Service) => if isNew then a.ip else 0)
  }

  // A further address, whose slot in the new table is free, joins the others.
  method Learned(am: AddrMan, addr: Address, now: int)
    requires am.Valid() && am.Settled() && am.H == OneTriedSlot() && addr.service.ip < BUCKET_SIZE
    requires forall id :: id in am.mapInfo ==>
             am.mapInfo[id].addr.ip < BUCKET_SIZE && am.mapInfo[id].addr.ip != addr.service.ip
    modifies am`nIdCount, am`mapInfo, am`mapAddr, am`vRandom, am`nNew, am`vvNew
    ensures am.Valid() && am.Settled() && am.nIdCount == old(am.nIdCount) + 1 &&
            am.mapInfo.Keys == old(am.mapInfo.Keys) + {old(am.nIdCount)}
    ensures am.mapInfo[old(am.nIdCount)].addr == addr.service && !am.mapInfo[old(am.nIdCount)].inTried
    ensures forall id :: id in old(am.mapInfo) ==>
            am.mapInfo[id].addr == old(am.mapInfo)[id].addr && am.mapInfo[id].inTried == old(am.mapInfo)[id].inTried
  {
    ghost var t, m, n := am.Tabs(), am.mapInfo, am.nIdCount;
    assert addr.service.ip in am.mapAddr ==>
           am.mapAddr[addr.service.ip] in m && m[am.mapAddr[addr.service.ip]].addr.ip == addr.service.ip;
    FreeSlot(t, m, addr.service);
    JoinedPlaces(t, m[n := FreshInfo(addr, addr.service.ip, 0, |am.vRandom|)], n, addr.service, now);
    var _ := am.Add(addr, true, addr.service.ip, 0, now, true);
    PlacesTell(m, am.mapInfo, n, Place(addr.service, 1, false));
  }

  lemma JoinedPlaces(t: Tables, m: map<int, Info>, n: int, a: Service, now: int)
    requires t.Ok({}, 0) && n != EMPTY && n in m && m[n].addr == a && NewSlotOf(t, a, a.ip) == EMPTY
    ensures Slotted(Joined(t, n, a), m, n, a.ip, now).places == t.places[n := Place(a, 1, false)]
  {
    var u := Joined(t, n, a);
    assert u.Shaped() && n in u.places && u.places[n] == Place(a, 0, false);
    var b := u.H.NewBucket(u.key, a, a.ip);
    assert u.vvNew[b][u.NewPosOf(n, b)] == EMPTY;
  }

  lemma PlacesTell(m: map<int, Info>, m': map<int, Info>, n: int, p: Place)
    requires Places(m') == Places(m)[n := p] && n !in m
    ensures m'.Keys == m.Keys + {n} && m'[n].addr == p.addr && m'[n].inTried == p.inTried
    ensures forall id :: id in m ==> m'[id].addr == m[id].addr && m'[id].inTried == m[id].inTried
  {
    assert Places(m').Keys == m'.Keys && Places(m).Keys == m.Keys;
    assert forall id :: id in m ==> Places(m')[id] == Places(m)[id];
    assert Places(m')[n] == p;
  }

  lemma FreeSlot(t: Tables, m: map<int, Info>, a: Service)
    requires t.Ok({}, 0) && t.places == Places(m) && t.H == OneTriedSlot() && a.ip < BUCKET_SIZE
    requires forall id :: id in m ==> m[id].addr.ip < BUCKET_SIZE && m[id].addr.ip != a.ip
    ensures NewSlotOf(t, a, a.ip) == EMPTY
  {
    assert t.NewSlotOk(0, a.ip);
  }

  // An untried address enters a free slot of the tried table; the others stay as they are.
  lemma EnteredFree(t: Tables, m: map<int, Info>, id: int)
    requires t.Ok({}, 0) && id in t.places && !t.places[id].inTried && Rival(t, id) == EMPTY
    ensures Entered(t, m, id).places == t.places[id := t.places[id].(refCount := 0, inTried := true)]
  {
    LeftOk(t, id);
    var u := Left(t, id);
    assert u.Shaped() && id in u.places && Rival(u, id) == EMPTY && EMPTY !in u.places;
  }

  /** Two addresses that contend for a slot of the tried table; the first one learned has to wait. */
  method Contend(key: nat, now: int) returns (am: AddrMan)
    requires now > 0
    ensures fresh(am) && am.Valid() && am.Settled() && am.collisions == {0}
  {
    am := OneKnown(key, Service(1, 0), now);
    Learned(am, Address(Service(2, 0), 0, {}), now);
    assert am.mapInfo.Keys == {0, 1};
    FirstTried(am, Service(1, 0), Service(2, 0), now);
  }

  method OneKnown(key: nat, a: Service, now: int) returns (am: AddrMan)
    requires a.ip < BUCKET_SIZE
    ensures fresh(am) && am.Valid() && am.Settled() && am.H == OneTriedSlot() && am.collisions == {} && am.nIdCount == 1
    ensures am.mapInfo.Keys == {0} && am.mapInfo[0].addr == a && !am.mapInfo[0].inTried
  {
    am := new AddrMan(OneTriedSlot(), key);
    Learned(am, Address(a, 0, {}), now);
    assert am.mapInfo.Keys == {0};
  }

  method FirstTried(am: AddrMan, a: Service, b: Service, now: int)
    requires am.Valid() && am.Settled() && am.H == OneTriedSlot() && now > 0 && a != b && am.collisions == {}
    requires am.mapInfo.Keys == {0, 1} && am.mapInfo[0].addr == a && am.mapInfo[1].addr == b &&
             !am.mapInfo[0].inTried && !am.mapInfo[1].inTried
    modifies am
    ensures am.Valid() && am.Settled() && am.collisions == {0}
  {
    ghost var t, m := am.Tabs(), am.mapInfo;
    NobodyTried(t, m, 1);
    EnteredFree(t, m, 1);
    am.Good(b, false, now, 0);
    Taken(am.Tabs(), am.mapInfo, m);
    am.Good(a, true, now, 0);
  }

  lemma NobodyTried(t: Tables, m: map<int, Info>, id: int)
    requires t.Ok({}, 0) && t.places == Places(m) && id in m && forall j :: j in m ==> !m[j].inTried
    ensures Rival(t, id) == EMPTY
  {
    RivalOk(t, id, {}, 0);
  }

  // With the second address tried, the first finds the slot taken.
  lemma Taken(t: Tables, m: map<int, Info>, was: map<int, Info>)
    requires t.Ok({}, 0) && t.places == Places(m) && t.H == OneTriedSlot() && 0 in was && 1 in was
    requires t.places == Places(was)[1 := Places(was)[1].(refCount := 0, inTried := true)]
    ensures 0 in m && 1 in m && m[0].addr == was[0].addr && m[0].inTried == was[0].inTried && Rival(t, 0) == 1
  {
    assert Places(m)[0] == Places(was)[0] && t.places[1].inTried;
    assert t.vvTried[t.TriedBucketOf(1)][t.TriedPosOf(1)] == 1;
  }

  /** So a run from a fresh manager, a clearing and a new address leave a collision that collides with nothing. */
  method StaleRun(key: nat, newKey: nat, addr: Address, source: NetAddr, now: int) returns (am: AddrMan)
    requires now > 0
    ensures am.Valid() && 0 in am.collisions && 0 in am.mapInfo && !am.Settled()
  {
    am := Contend(key, now);
    StaleCollision(am, newKey, addr, source, now);
  }
}
