/**
 The bucket tables of the address manager (src/addrman.h, src/addrman.cpp): which id sits in which
 "new" and "tried" slots, and the part of the source's consistency check that concerns them.
 */
module AddrTables {

  type NetAddr = nat
  datatype Service = Service(ip: NetAddr, port: nat)

  const TRIED_BUCKETS := 256
  const NEW_BUCKETS := 1024
  const BUCKET_SIZE := 64
  const NEW_BUCKETS_PER_ADDRESS := 8
  const EMPTY := -1

  /** The keyed hash functions that place addresses in buckets. */
  datatype Hashing = Hashing(
    triedBucketHash: (nat, Service) -> nat,
    newBucketHash: (nat, Service, NetAddr) -> nat,
    positionHash: (nat, bool, nat, Service) -> nat)
  {
    function TriedBucket(key: nat, a: Service): (b: nat)
      ensures b < TRIED_BUCKETS
    {
      triedBucketHash(key, a) % TRIED_BUCKETS
    }

    function NewBucket(key: nat, a: Service, source: NetAddr): (b: nat)
      ensures b < NEW_BUCKETS
    {
      newBucketHash(key, a, source) % NEW_BUCKETS
    }

    function Position(key: nat, isNew: bool, bucket: nat, a: Service): (p: nat)
      ensures p < BUCKET_SIZE
    {
      positionHash(key, isNew, bucket, a) % BUCKET_SIZE
    }
  }

  type Table = seq<seq<int>>

  predicate TableOf(t: Table, buckets: nat) {
    |t| == buckets && forall b :: 0 <= b < |t| ==> |t[b]| == BUCKET_SIZE
  }

  function Put(t: Table, b: nat, p: nat, id: int): (t': Table)
    requires b < |t| && p < |t[b]|
    ensures |t'| == |t| && forall c :: 0 <= c < |t| ==> |t'[c]| == |t[c]|
  {
    t[b := t[b][p := id]]
  }

  /** What the tables need to know of an id. */
  datatype Place = Place(addr: Service, refCount: int, inTried: bool)

  datatype Tables = Tables(H: Hashing, key: nat, places: map<int, Place>, nTried: int, vvTried: Table, nNew: int,
                           vvNew: Table)
  {
    predicate Shaped() { TableOf(vvTried, TRIED_BUCKETS) && TableOf(vvNew, NEW_BUCKETS) }

    function TriedBucketOf(id: int): nat
      requires id in places
    {
      H.TriedBucket(key, places[id].addr)
    }

    function TriedPosOf(id: int): nat
      requires id in places
    {
      H.Position(key, false, TriedBucketOf(id), places[id].addr)
    }

    function NewPosOf(id: int, b: nat): nat
      requires id in places
    {
      H.Position(key, true, b, places[id].addr)
    }

    /** A tried slot holds nothing, or a tried id that hashes to it. */
    predicate TriedSlotOk(b: nat, p: nat)
      requires Shaped() && b < TRIED_BUCKETS && p < BUCKET_SIZE
    {
      var id := vvTried[b][p];
      id == EMPTY || (id in places && places[id].inTried && TriedBucketOf(id) == b && TriedPosOf(id) == p)
    }

    ghost predicate TriedOk()
      requires Shaped()
    {
      && (forall b: nat, p: nat :: b < TRIED_BUCKETS && p < BUCKET_SIZE ==> TriedSlotOk(b, p))
      && (forall id :: id in places && places[id].inTried ==> vvTried[TriedBucketOf(id)][TriedPosOf(id)] == id)
    }

    /** A new slot holds nothing, or an untried id that hashes to that position. */
    predicate NewSlotOk(b: nat, p: nat)
      requires Shaped() && b < NEW_BUCKETS && p < BUCKET_SIZE
    {
      var id := vvNew[b][p];
      id == EMPTY || (id in places && !places[id].inTried && NewPosOf(id, b) == p)
    }

    ghost predicate NewOk()
      requires Shaped()
    {
      forall b: nat, p: nat :: b < NEW_BUCKETS && p < BUCKET_SIZE ==> NewSlotOk(b, p)
    }

    predicate Occupies(id: int, b: nat)
      requires Shaped() && id in places && b < NEW_BUCKETS
    {
      vvNew[b][NewPosOf(id, b)] == id
    }

    /** The new buckets an id occupies. */
    ghost function Refs(id: int): set<nat>
      requires Shaped() && id in places
    {
      set b: nat | b < NEW_BUCKETS && Occupies(id, b)
    }

    /** Reference counts: none for a tried id, one to eight for a new one; an id in limbo is in no table. */
    ghost predicate RefOk(id: int, limbo: set<int>)
      requires Shaped() && id in places
    {
      && places[id].refCount == |Refs(id)|
      && (if id in limbo then !places[id].inTried && places[id].refCount == 0
          else if places[id].inTried then places[id].refCount == 0
          else 1 <= places[id].refCount <= NEW_BUCKETS_PER_ADDRESS)
    }

    ghost predicate RefsOk(limbo: set<int>)
      requires Shaped()
    {
      limbo <= places.Keys && forall id :: id in places ==> RefOk(id, limbo)
    }

    ghost function TriedIds(): set<int> { set id | id in places && places[id].inTried }

    ghost function NewIds(): set<int> { set id | id in places && !places[id].inTried }

    /** Counters are exact; `counted` of the ids in limbo are included in nNew. */
    ghost predicate CountsOk(limbo: set<int>, counted: int) {
      nTried == |TriedIds()| && nNew == |NewIds() - limbo| + counted
    }

    /** The consistency of the tables, weakened for ids in limbo. */
    ghost predicate Ok(limbo: set<int>, counted: int) {
      Shaped() && EMPTY !in places && TriedOk() && NewOk() && RefsOk(limbo) && CountsOk(limbo, counted)
    }
  }

  function EmptyTable(buckets: nat): (t: Table)
    ensures TableOf(t, buckets) && forall b: nat, p: nat :: b < buckets && p < BUCKET_SIZE ==> t[b][p] == EMPTY
  {
    seq(buckets, _ => seq(BUCKET_SIZE, _ => EMPTY))
  }

  lemma EmptyOk(H: Hashing, key: nat)
    ensures Tables(H, key, map[], 0, EmptyTable(TRIED_BUCKETS), 0, EmptyTable(NEW_BUCKETS)).Ok({}, 0)
  {
    var t := Tables(H, key, map[], 0, EmptyTable(TRIED_BUCKETS), 0, EmptyTable(NEW_BUCKETS));
    assert t.TriedIds() == {} && t.NewIds() - {} == {};
  }

  // ---- Taking an id out of a new slot ----

  function Unslot(t: Tables, b: nat, p: nat): Tables
    requires t.Shaped() && b < NEW_BUCKETS && p < BUCKET_SIZE && t.vvNew[b][p] in t.places
  {
    var id := t.vvNew[b][p];
    t.(vvNew := Put(t.vvNew, b, p, EMPTY),
       places := t.places[id := t.places[id].(refCount := t.places[id].refCount - 1)])
  }

  // What TriedOk depends on.
  lemma TriedSame(t: Tables, t': Tables)
    requires t.Shaped() && t'.Shaped() && t.TriedOk() && t'.vvTried == t.vvTried && t'.H == t.H && t'.key == t.key
    requires t'.places.Keys == t.places.Keys
    requires forall id :: id in t.places ==>
             t'.places[id].addr == t.places[id].addr && t'.places[id].inTried == t.places[id].inTried
    ensures t'.TriedOk() && t'.TriedIds() == t.TriedIds() && t'.NewIds() == t.NewIds()
  {
    forall b: nat, p: nat | b < TRIED_BUCKETS && p < BUCKET_SIZE ensures t'.TriedSlotOk(b, p) {
      assert t.TriedSlotOk(b, p);
    }
    forall id ensures (id in t'.TriedIds() <==> id in t.TriedIds()) && (id in t'.NewIds() <==> id in t.NewIds()) {
      assert id in t'.places <==> id in t.places;
    }
  }

  lemma RefsSame(t: Tables, t': Tables, id: int)
    requires t.Shaped() && t'.Shaped() && id in t.places && id in t'.places && t'.places[id].addr == t.places[id].addr
    requires t'.H == t.H && t'.key == t.key
    requires forall b: nat :: b < NEW_BUCKETS ==> (t'.Occupies(id, b) <==> t.Occupies(id, b))
    ensures t'.Refs(id) == t.Refs(id)
  {
  }

  lemma UnslotRefs(t: Tables, b: nat, p: nat, id: int)
    requires t.Shaped() && t.NewOk() && b < NEW_BUCKETS && p < BUCKET_SIZE && t.vvNew[b][p] != EMPTY &&
             t.vvNew[b][p] in t.places
    requires id in t.places && id != EMPTY
    ensures var t' := Unslot(t, b, p); t'.Refs(id) == if id == t.vvNew[b][p] then t.Refs(id) - {b} else t.Refs(id)
    ensures b in t.Refs(t.vvNew[b][p])
  {
    var t' := Unslot(t, b, p);
    assert t.NewSlotOk(b, p);
    forall c: nat | c < NEW_BUCKETS
      ensures t'.Occupies(id, c) <==> t.Occupies(id, c) && !(c == b && id == t.vvNew[b][p])
    {
    }
  }

  lemma UnslotNewOk(t: Tables, b: nat, p: nat)
    requires t.Shaped() && t.NewOk() && b < NEW_BUCKETS && p < BUCKET_SIZE && t.vvNew[b][p] in t.places
    ensures Unslot(t, b, p).NewOk()
  {
    var t' := Unslot(t, b, p);
    forall c: nat, q: nat | c < NEW_BUCKETS && q < BUCKET_SIZE ensures t'.NewSlotOk(c, q) {
      assert t.NewSlotOk(c, q);
    }
  }

  /** Losing a slot; with its last one a new id goes into limbo, still counted. */
  lemma UnslotOk(t: Tables, b: nat, p: nat, limbo: set<int>, counted: int)
    requires t.Ok(limbo, counted) && b < NEW_BUCKETS && p < BUCKET_SIZE && t.vvNew[b][p] != EMPTY
    ensures var id := t.vvNew[b][p];
            && id in t.places && id !in limbo && t.places[id].refCount > 0
            && (if t.places[id].refCount == 1 then Unslot(t, b, p).Ok(limbo + {id}, counted + 1)
                else Unslot(t, b, p).Ok(limbo, counted))
  {
    assert t.NewSlotOk(b, p);
    var id, t' := t.vvNew[b][p], Unslot(t, b, p);
    var limbo' := if t.places[id].refCount == 1 then limbo + {id} else limbo;
    UnslotRefs(t, b, p, id);
    assert t.RefOk(id, limbo);
    assert t.Refs(id) != {};
    TriedSame(t, t');
    UnslotNewOk(t, b, p);
    forall j | j in t'.places ensures t'.RefOk(j, limbo') {
      assert t.RefOk(j, limbo);
      UnslotRefs(t, b, p, j);
    }
    assert t.places[id].refCount == 1 ==> t.NewIds() - limbo == (t'.NewIds() - limbo') + {id};
  }

  /** The occupant of a new slot is a counted new id. */
  lemma SlotRecord(t: Tables, b: nat, p: nat, limbo: set<int>, counted: int)
    requires t.Ok(limbo, counted) && b < NEW_BUCKETS && p < BUCKET_SIZE
    ensures var id := t.vvNew[b][p];
            id == EMPTY || (id in t.places && id !in limbo && !t.places[id].inTried && t.places[id].refCount > 0)
  {
    assert t.NewSlotOk(b, p);
    if t.vvNew[b][p] != EMPTY {
      UnslotOk(t, b, p, limbo, counted);
    }
  }

  // ---- Putting an id into a new slot ----

  function Slot(t: Tables, b: nat, id: int): Tables
    requires t.Shaped() && b < NEW_BUCKETS && id in t.places
  {
    t.(vvNew := Put(t.vvNew, b, t.NewPosOf(id, b), id),
       places := t.places[id := t.places[id].(refCount := t.places[id].refCount + 1)])
  }

  lemma SlotRefs(t: Tables, b: nat, id: int, j: int)
    requires t.Shaped() && b < NEW_BUCKETS && id in t.places && id != EMPTY && t.vvNew[b][t.NewPosOf(id, b)] == EMPTY
    requires j in t.places && j != EMPTY
    ensures Slot(t, b, id).Refs(j) == if j == id then t.Refs(j) + {b} else t.Refs(j)
    ensures b !in t.Refs(id)
  {
    var t' := Slot(t, b, id);
    forall c: nat | c < NEW_BUCKETS ensures t'.Occupies(j, c) <==> t.Occupies(j, c) || (c == b && j == id) {
    }
  }

  /** Gaining a slot; an id in limbo becomes a new id again. */
  lemma SlotOk(t: Tables, b: nat, id: int, limbo: set<int>, counted: int)
    requires t.Ok(limbo, counted) && b < NEW_BUCKETS && id in t.places && !t.places[id].inTried
    requires t.places[id].refCount < NEW_BUCKETS_PER_ADDRESS && t.vvNew[b][t.NewPosOf(id, b)] == EMPTY
    ensures if id in limbo then Slot(t, b, id).Ok(limbo - {id}, counted - 1) else Slot(t, b, id).Ok(limbo, counted)
  {
    var t', limbo' := Slot(t, b, id), limbo - {id};
    TriedSame(t, t');
    SlotNewOk(t, b, id);
    SlotRefsOk(t, b, id, limbo);
    SlotCounts(t, t', id, limbo);
    if id !in limbo { assert limbo' == limbo; }
  }

  lemma SlotCounts(t: Tables, t': Tables, id: int, limbo: set<int>)
    requires id in t.NewIds() && t'.NewIds() == t.NewIds()
    ensures |t'.NewIds() - (limbo - {id})| == |t.NewIds() - limbo| + (if id in limbo then 1 else 0)
  {
    if id in limbo {
      assert t'.NewIds() - (limbo - {id}) == (t.NewIds() - limbo) + {id};
    } else {
      assert limbo - {id} == limbo;
    }
  }

  lemma SlotNewOk(t: Tables, b: nat, id: int)
    requires t.Shaped() && t.NewOk() && b < NEW_BUCKETS && id in t.places && !t.places[id].inTried && id != EMPTY
    ensures Slot(t, b, id).NewOk()
  {
    forall c: nat, q: nat | c < NEW_BUCKETS && q < BUCKET_SIZE ensures Slot(t, b, id).NewSlotOk(c, q) {
      assert t.NewSlotOk(c, q);
    }
  }

  lemma SlotRefsOk(t: Tables, b: nat, id: int, limbo: set<int>)
    requires t.Shaped() && t.RefsOk(limbo) && EMPTY !in t.places && b < NEW_BUCKETS && id in t.places &&
             !t.places[id].inTried
    requires t.places[id].refCount < NEW_BUCKETS_PER_ADDRESS && t.vvNew[b][t.NewPosOf(id, b)] == EMPTY
    ensures Slot(t, b, id).RefsOk(limbo - {id})
  {
    forall j | j in t.places ensures Slot(t, b, id).RefOk(j, limbo - {id}) {
      assert t.RefOk(j, limbo);
      SlotRefs(t, b, id, j);
    }
  }

  // ---- Leaving and entering the tried table ----

  function Untry(t: Tables, id: int): Tables
    requires t.Shaped() && id in t.places
  {
    t.(vvTried := Put(t.vvTried, t.TriedBucketOf(id), t.TriedPosOf(id), EMPTY), nTried := t.nTried - 1,
       places := t.places[id := t.places[id].(inTried := false)])
  }

  function Try(t: Tables, id: int): Tables
    requires t.Shaped() && id in t.places
  {
    t.(vvTried := Put(t.vvTried, t.TriedBucketOf(id), t.TriedPosOf(id), id), nTried := t.nTried + 1,
       places := t.places[id := t.places[id].(inTried := true)])
  }

  lemma NoRefsNoSlots(t: Tables, id: int, limbo: set<int>)
    requires t.Shaped() && t.NewOk() && id in t.places && t.RefOk(id, limbo) && t.places[id].refCount == 0 &&
             id != EMPTY
    ensures forall b: nat, p: nat :: b < NEW_BUCKETS && p < BUCKET_SIZE ==> t.vvNew[b][p] != id
  {
    assert t.Refs(id) == {};
    forall b: nat, p: nat | b < NEW_BUCKETS && p < BUCKET_SIZE ensures t.vvNew[b][p] != id {
      assert b !in t.Refs(id);
      assert t.NewSlotOk(b, p);
    }
  }

  // What NewOk and RefsOk depend on, apart from one id.
  lemma NewSame(t: Tables, t': Tables, id: int, limbo: set<int>, limbo': set<int>)
    requires t.Shaped() && t'.Shaped() && t'.vvNew == t.vvNew && t'.H == t.H && t'.key == t.key
    requires t.NewOk() && t.RefsOk(limbo) && limbo' <= t.places.Keys && EMPTY !in t.places
    requires id in t.places && id in t'.places &&
             t'.places == t.places[id := t.places[id].(inTried := t'.places[id].inTried)]
    requires forall j :: j in t.places && j != id ==> (j in limbo' <==> j in limbo)
    requires t.places[id].refCount == 0 && (id in limbo' <==> !t'.places[id].inTried)
    ensures t'.NewOk() && t'.RefsOk(limbo')
  {
    assert t.RefOk(id, limbo);
    NoRefsNoSlots(t, id, limbo);
    forall b: nat, p: nat | b < NEW_BUCKETS && p < BUCKET_SIZE ensures t'.NewSlotOk(b, p) {
      assert t.NewSlotOk(b, p);
    }
    forall j | j in t'.places ensures t'.RefOk(j, limbo') {
      assert t.RefOk(j, limbo);
      RefsSame(t, t', j);
    }
  }

  lemma UntryTriedOk(t: Tables, id: int)
    requires t.Shaped() && t.TriedOk() && id in t.places && t.places[id].inTried && id != EMPTY
    ensures Untry(t, id).TriedOk()
  {
    var t' := Untry(t, id);
    assert t.vvTried[t.TriedBucketOf(id)][t.TriedPosOf(id)] == id;
    forall b: nat, p: nat | b < TRIED_BUCKETS && p < BUCKET_SIZE ensures t'.TriedSlotOk(b, p) {
      assert t.TriedSlotOk(b, p);
    }
    forall j | j in t'.places && t'.places[j].inTried ensures t'.vvTried[t'.TriedBucketOf(j)][t'.TriedPosOf(j)] == j {
      assert t.vvTried[t.TriedBucketOf(j)][t.TriedPosOf(j)] == j;
    }
  }

  lemma TryTriedOk(t: Tables, id: int)
    requires t.Shaped() && t.TriedOk() && id in t.places && id != EMPTY
    requires t.vvTried[t.TriedBucketOf(id)][t.TriedPosOf(id)] == EMPTY && EMPTY !in t.places
    ensures Try(t, id).TriedOk()
  {
    var t' := Try(t, id);
    forall b: nat, p: nat | b < TRIED_BUCKETS && p < BUCKET_SIZE ensures t'.TriedSlotOk(b, p) {
      assert t.TriedSlotOk(b, p);
    }
    forall j | j in t'.places && t'.places[j].inTried ensures t'.vvTried[t'.TriedBucketOf(j)][t'.TriedPosOf(j)] == j {
      assert j != id ==> t.vvTried[t.TriedBucketOf(j)][t.TriedPosOf(j)] == j;
    }
  }

  lemma UntryCounts(t: Tables, id: int, limbo: set<int>, counted: int)
    requires t.Shaped() && id in t.places && t.places[id].inTried && t.CountsOk(limbo, counted)
    ensures Untry(t, id).CountsOk(limbo + {id}, counted)
  {
    var t' := Untry(t, id);
    assert t.TriedIds() == t'.TriedIds() + {id};
    assert t'.NewIds() - (limbo + {id}) == t.NewIds() - limbo;
  }

  lemma TryCounts(t: Tables, id: int, limbo: set<int>, counted: int)
    requires t.Shaped() && id in t.places && !t.places[id].inTried && id in limbo && t.CountsOk(limbo, counted)
    ensures Try(t, id).CountsOk(limbo - {id}, counted)
  {
    var t' := Try(t, id);
    assert t'.TriedIds() == t.TriedIds() + {id};
    assert t'.NewIds() - (limbo - {id}) == t.NewIds() - limbo;
  }

  /** A tried id leaves its slot and is in limbo. */
  lemma UntryOk(t: Tables, id: int, limbo: set<int>, counted: int)
    requires t.Ok(limbo, counted) && id in t.places && t.places[id].inTried
    ensures id !in limbo && Untry(t, id).Ok(limbo + {id}, counted)
  {
    var t' := Untry(t, id);
    assert t.RefOk(id, limbo);
    NewSame(t, t', id, limbo, limbo + {id});
    UntryTriedOk(t, id);
    UntryCounts(t, id, limbo, counted);
  }

  /** An id in limbo enters its empty tried slot. */
  lemma TryOk(t: Tables, id: int, limbo: set<int>, counted: int)
    requires t.Ok(limbo, counted) && id in limbo && t.vvTried[t.TriedBucketOf(id)][t.TriedPosOf(id)] == EMPTY
    ensures Try(t, id).Ok(limbo - {id}, counted)
  {
    var t' := Try(t, id);
    assert t.RefOk(id, limbo);
    NewSame(t, t', id, limbo, limbo - {id});
    TryTriedOk(t, id);
    TryCounts(t, id, limbo, counted);
  }

  // ---- Ids coming and going ----

  function AddId(t: Tables, id: int, a: Service): Tables { t.(places := t.places[id := Place(a, 0, false)]) }

  function RemoveId(t: Tables, id: int): Tables { t.(places := t.places - {id}, nNew := t.nNew - 1) }

  // What the tables need when ids in no table come or go.
  lemma TablesSame(t: Tables, t': Tables)
    requires t.Shaped() && t.TriedOk() && t.NewOk() && EMPTY !in t.places
    requires t'.vvNew == t.vvNew && t'.vvTried == t.vvTried && t'.H == t.H && t'.key == t.key
    requires forall id :: id in t.places && id in t'.places ==> t'.places[id] == t.places[id]
    requires forall id :: id in t'.places && id !in t.places ==> !t'.places[id].inTried
    requires forall b: nat, p: nat :: b < TRIED_BUCKETS && p < BUCKET_SIZE && t.vvTried[b][p] != EMPTY ==>
             t.vvTried[b][p] in t'.places
    requires forall b: nat, p: nat :: b < NEW_BUCKETS && p < BUCKET_SIZE && t.vvNew[b][p] != EMPTY ==>
             t.vvNew[b][p] in t'.places
    ensures t'.TriedOk() && t'.NewOk() && t'.TriedIds() == t.TriedIds()
    ensures forall id :: id in t.places && id in t'.places ==> t'.Refs(id) == t.Refs(id)
  {
    forall b: nat, p: nat | b < TRIED_BUCKETS && p < BUCKET_SIZE ensures t'.TriedSlotOk(b, p) {
      assert t.TriedSlotOk(b, p);
    }
    forall b: nat, p: nat | b < NEW_BUCKETS && p < BUCKET_SIZE ensures t'.NewSlotOk(b, p) {
      assert t.NewSlotOk(b, p);
    }
    forall id | id in t.places && id in t'.places ensures t'.Refs(id) == t.Refs(id) { RefsSame(t, t', id); }
    forall id | id in t.TriedIds() ensures id in t'.TriedIds() {
      assert t.vvTried[t.TriedBucketOf(id)][t.TriedPosOf(id)] == id;
    }
    forall id | id in t'.TriedIds() ensures id in t.TriedIds() {
    }
  }

  /** A fresh id starts in limbo, not counted. */
  lemma AddIdOk(t: Tables, id: int, a: Service, limbo: set<int>, counted: int)
    requires t.Ok(limbo, counted) && id !in t.places && id != EMPTY
    ensures AddId(t, id, a).Ok(limbo + {id}, counted)
  {
    var t' := AddId(t, id, a);
    forall b: nat, p: nat | b < NEW_BUCKETS && p < BUCKET_SIZE ensures t.vvNew[b][p] != id {
      assert t.NewSlotOk(b, p);
    }
    forall b: nat, p: nat | b < TRIED_BUCKETS && p < BUCKET_SIZE
      ensures t.vvTried[b][p] != EMPTY ==> t.vvTried[b][p] in t'.places
    {
      assert t.TriedSlotOk(b, p);
    }
    forall b: nat, p: nat | b < NEW_BUCKETS && p < BUCKET_SIZE
      ensures t.vvNew[b][p] != EMPTY ==> t.vvNew[b][p] in t'.places
    {
      assert t.NewSlotOk(b, p);
    }
    TablesSame(t, t');
    assert t'.Refs(id) == {};
    forall j | j in t'.places ensures t'.RefOk(j, limbo + {id}) {
      if j != id { assert t.RefOk(j, limbo); }
    }
    assert t'.NewIds() - (limbo + {id}) == t.NewIds() - limbo;
  }

  /** A counted id in limbo can go. */
  lemma RemoveIdOk(t: Tables, id: int, limbo: set<int>, counted: int)
    requires t.Ok(limbo, counted) && id in limbo
    ensures RemoveId(t, id).Ok(limbo - {id}, counted - 1)
  {
    var t' := RemoveId(t, id);
    assert t.RefOk(id, limbo);
    NoRefsNoSlots(t, id, limbo);
    forall b: nat, p: nat | b < TRIED_BUCKETS && p < BUCKET_SIZE && t.vvTried[b][p] != EMPTY
      ensures t.vvTried[b][p] in t'.places
    {
      assert t.TriedSlotOk(b, p);
    }
    forall b: nat, p: nat | b < NEW_BUCKETS && p < BUCKET_SIZE && t.vvNew[b][p] != EMPTY
      ensures t.vvNew[b][p] in t'.places
    {
      assert t.NewSlotOk(b, p);
    }
    TablesSame(t, t');
    RemoveIdRefs(t, id, limbo);
    assert t'.NewIds() - (limbo - {id}) == t.NewIds() - limbo;
  }

  lemma RemoveIdRefs(t: Tables, id: int, limbo: set<int>)
    requires t.Shaped() && t.RefsOk(limbo) && id in limbo
    ensures RemoveId(t, id).RefsOk(limbo - {id})
  {
    var t' := RemoveId(t, id);
    forall j | j in t'.places ensures t'.RefOk(j, limbo - {id}) {
      assert t.RefOk(j, limbo);
      RefsSame(t, t', j);
    }
  }

  /** Adjusting the count of new ids. */
  lemma CountOk(t: Tables, limbo: set<int>, counted: int, d: int)
    requires t.Ok(limbo, counted)
    ensures t.(nNew := t.nNew + d).Ok(limbo, counted + d)
  {
    var t' := t.(nNew := t.nNew + d);
    forall b: nat, p: nat | b < TRIED_BUCKETS && p < BUCKET_SIZE && t.vvTried[b][p] != EMPTY
      ensures t.vvTried[b][p] in t'.places
    {
      assert t.TriedSlotOk(b, p);
    }
    forall b: nat, p: nat | b < NEW_BUCKETS && p < BUCKET_SIZE && t.vvNew[b][p] != EMPTY
      ensures t.vvNew[b][p] in t'.places
    {
      assert t.NewSlotOk(b, p);
    }
    TablesSame(t, t');
    forall j | j in t'.places ensures t'.RefOk(j, limbo) { assert t.RefOk(j, limbo); }
    assert t'.NewIds() - limbo == t.NewIds() - limbo;
  }

  // ---- Clearing a new slot ----

  /** Clear a new slot; an id that loses its last slot is removed. */
  function ClearNew(t: Tables, b: nat, p: nat): Tables
    requires t.Shaped() && b < NEW_BUCKETS && p < BUCKET_SIZE
  {
    var id := t.vvNew[b][p];
    if id == EMPTY || id !in t.places then t
    else if t.places[id].refCount == 1 then RemoveId(Unslot(t, b, p), id)
    else Unslot(t, b, p)
  }

  lemma ClearNewOk(t: Tables, b: nat, p: nat, limbo: set<int>, counted: int)
    requires t.Ok(limbo, counted) && b < NEW_BUCKETS && p < BUCKET_SIZE
    ensures var t' := ClearNew(t, b, p);
            && t'.Ok(limbo, counted) && t'.vvNew[b][p] == EMPTY && t'.vvTried == t.vvTried && t'.nTried == t.nTried
            && t'.H == t.H && t'.key == t.key
            && (forall id :: id in limbo ==> id in t'.places && t'.places[id] == t.places[id])
            && (forall id :: id in t.places && id != t.vvNew[b][p] ==> id in t'.places && t'.places[id] == t.places[id])
            && (forall id :: id in t'.places ==>
                id in t.places && t'.places[id].addr == t.places[id].addr &&
                  t'.places[id].inTried == t.places[id].inTried)
  {
    assert t.NewSlotOk(b, p);
    if t.vvNew[b][p] != EMPTY {
      var id := t.vvNew[b][p];
      UnslotOk(t, b, p, limbo, counted);
      if t.places[id].refCount == 1 {
        RemoveIdOk(Unslot(t, b, p), id, limbo + {id}, counted + 1);
        assert limbo + {id} - {id} == limbo;
      }
    }
  }

  // ---- Leaving all new slots ----

  /** Clear an id's slots in the first `n` new buckets. */
  function Unlist(t: Tables, id: int, n: nat): (t': Tables)
    requires t.Shaped() && id in t.places && n <= NEW_BUCKETS
    ensures t'.Shaped() && id in t'.places && t'.places[id].addr == t.places[id].addr
    ensures t' == t.(vvNew := t'.vvNew, places := t.places[id := t.places[id].(refCount := t'.places[id].refCount)])
  {
    if n == 0 then
      assert t.places[id := t.places[id].(refCount := t.places[id].refCount)] == t.places;
      t
    else
      var u := Unlist(t, id, n - 1);
      if u.Occupies(id, n - 1) then Unslot(u, n - 1, u.NewPosOf(id, n - 1)) else u
  }

  /** An id on its way out of the new table: no slots left in the first `n` buckets. */
  ghost predicate Leaving(t: Tables, id: int, n: nat) {
    && t.Shaped() && id in t.places
    && (if t.places[id].refCount == 0 then t.Ok({id}, 1) else t.Ok({}, 0))
    && t.places[id].refCount == |t.Refs(id)|
    && (forall b :: b in t.Refs(id) ==> b >= n)
  }

  lemma LeavingStep(u: Tables, b: nat, id: int)
    requires Leaving(u, id, b) && b < NEW_BUCKETS
    ensures if u.Occupies(id, b) then Leaving(Unslot(u, b, u.NewPosOf(id, b)), id, b + 1) else Leaving(u, id, b + 1)
  {
    if u.Occupies(id, b) {
      assert b in u.Refs(id);
      assert u.RefOk(id, {});
      UnslotOk(u, b, u.NewPosOf(id, b), {}, 0);
      UnslotRefs(u, b, u.NewPosOf(id, b), id);
      assert {} + {id} == {id};
    }
  }

  lemma {:induction false} UnlistLeaving(t: Tables, id: int, n: nat)
    requires Leaving(t, id, 0) && n <= NEW_BUCKETS
    ensures Leaving(Unlist(t, id, n), id, n)
  {
    if n > 0 {
      UnlistLeaving(t, id, n - 1);
      LeavingStep(Unlist(t, id, n - 1), n - 1, id);
    }
  }

  /** An id that has left all new buckets is in limbo. */
  lemma UnlistAll(t: Tables, id: int)
    requires t.Ok({}, 0) && id in t.places && !t.places[id].inTried
    ensures var t' := Unlist(t, id, NEW_BUCKETS); t'.places[id].refCount == 0 && t'.Ok({id}, 1)
  {
    assert t.RefOk(id, {});
    UnlistLeaving(t, id, NEW_BUCKETS);
    assert Unlist(t, id, NEW_BUCKETS).Refs(id) == {};
  }

  // ---- Adding an id to a bucket ----

  /**
   Give an id a slot in a new bucket if the slot is free or its occupant may be displaced;
   otherwise an id without any slot is dropped.
   */
  function PlaceInNew(t: Tables, id: int, bucket: nat, displace: bool): Tables
    requires t.Shaped() && bucket < NEW_BUCKETS && id in t.places
  {
    var pos := t.NewPosOf(id, bucket);
    var occupant := t.vvNew[bucket][pos];
    if occupant == id then t
    else if occupant == EMPTY || displace then
      var u := ClearNew(t, bucket, pos);
      if id in u.places then Slot(u, bucket, id) else u
    else if t.places[id].refCount == 0 then RemoveId(t, id)
    else t
  }

  /** The id being placed is either fresh, in limbo and counted, or a new id with room for another slot. */
  ghost predicate Placeable(t: Tables, id: int) {
    && id in t.places && !t.places[id].inTried && t.places[id].refCount < NEW_BUCKETS_PER_ADDRESS
    && (if t.places[id].refCount == 0 then t.Ok({id}, 1) else t.Ok({}, 0))
  }

  lemma PlaceInNewOk(t: Tables, id: int, bucket: nat, displace: bool)
    requires Placeable(t, id) && bucket < NEW_BUCKETS
    ensures var t' := PlaceInNew(t, id, bucket, displace);
            && t'.Ok({}, 0) && t'.vvTried == t.vvTried && t'.H == t.H && t'.key == t.key
            && (forall j :: j in t'.places ==> j in t.places && t'.places[j].addr == t.places[j].addr)
  {
    var pos := t.NewPosOf(id, bucket);
    var occupant := t.vvNew[bucket][pos];
    if occupant == id {
      InPlaceOk(t, id, bucket, pos);
    } else if occupant == EMPTY || displace {
      var unplaced := t.places[id].refCount == 0;
      TakeSlotOk(t, id, bucket, pos, if unplaced then {id} else {}, if unplaced then 1 else 0);
      TakeSlotKeeps(t, id, bucket, pos);
      assert {id} - {id} == {};
    } else if t.places[id].refCount == 0 {
      RemoveIdOk(t, id, {id}, 1);
      assert {id} - {id} == {};
    }
  }

  // An id in some slot is not fresh.
  lemma InPlaceOk(t: Tables, id: int, bucket: nat, pos: nat)
    requires Placeable(t, id) && bucket < NEW_BUCKETS && pos < BUCKET_SIZE && t.vvNew[bucket][pos] == id
    ensures t.Ok({}, 0)
  {
    if t.places[id].refCount == 0 { SlotRecord(t, bucket, pos, {id}, 1); }
  }

  // The slot is cleared and taken.
  lemma TakeSlotOk(t: Tables, id: int, bucket: nat, pos: nat, limbo: set<int>, counted: int)
    requires t.Ok(limbo, counted) && bucket < NEW_BUCKETS && id in t.places && !t.places[id].inTried
    requires t.places[id].refCount < NEW_BUCKETS_PER_ADDRESS && pos == t.NewPosOf(id, bucket)
    requires t.vvNew[bucket][pos] != id && (t.places[id].refCount == 0 ==> id in limbo)
    ensures id in ClearNew(t, bucket, pos).places
    ensures var t' := Slot(ClearNew(t, bucket, pos), bucket, id);
            if id in limbo then t'.Ok(limbo - {id}, counted - 1) else t'.Ok(limbo, counted)
  {
    SlotRecord(t, bucket, pos, limbo, counted);
    ClearNewOk(t, bucket, pos, limbo, counted);
    SlotOk(ClearNew(t, bucket, pos), bucket, id, limbo, counted);
  }

  lemma TakeSlotKeeps(t: Tables, id: int, bucket: nat, pos: nat)
    requires t.Shaped() && bucket < NEW_BUCKETS && pos < BUCKET_SIZE && id in ClearNew(t, bucket, pos).places
    ensures var t' := Slot(ClearNew(t, bucket, pos), bucket, id);
            && t'.vvTried == t.vvTried && t'.H == t.H && t'.key == t.key
            && (forall j :: j in t'.places ==> j in t.places && t'.places[j].addr == t.places[j].addr)
  {
  }

  // ---- Moving an id to the tried table ----

  /** Enter an id that is in no table into a new bucket, clearing its place first. */
  function Reenter(t: Tables, id: int, bucket: nat): Tables
    requires t.Shaped() && bucket < NEW_BUCKETS && id in t.places
  {
    var u := ClearNew(t, bucket, t.NewPosOf(id, bucket));
    if id in u.places then var v := Slot(u, bucket, id); v.(nNew := v.nNew + 1) else u
  }

  lemma ReenterOk(t: Tables, id: int, victim: int, bucket: nat)
    requires t.Ok({id, victim}, 0) && id != victim && bucket < NEW_BUCKETS
    ensures victim in t.places
    ensures var t' := Reenter(t, victim, bucket);
            && t'.Ok({id}, 0) && t'.vvTried == t.vvTried && t'.H == t.H && t'.key == t.key
            && id in t'.places && t'.places[id] == t.places[id]
            && victim in ClearNew(t, bucket, t.NewPosOf(victim, bucket)).places
            && (forall j :: j in t'.places ==>
                j in t.places && t'.places[j].addr == t.places[j].addr && t'.places[j].inTried == t.places[j].inTried)
  {
    var limbo := {id, victim};
    assert t.RefOk(victim, limbo);
    var u := ClearNew(t, bucket, t.NewPosOf(victim, bucket));
    ClearNewOk(t, bucket, t.NewPosOf(victim, bucket), limbo, 0);
    SlotOk(u, bucket, victim, limbo, 0);
    CountOk(Slot(u, bucket, victim), limbo - {victim}, -1, 1);
    assert limbo - {victim} == {id};
  }

  /** Make room in a tried slot: its occupant goes back to the new table. */
  function Evict(t: Tables, victim: int, bucket: nat): Tables
    requires t.Shaped() && bucket < NEW_BUCKETS && victim in t.places
  {
    Reenter(Untry(t, victim), victim, bucket)
  }

  lemma EvictOk(t: Tables, id: int, victim: int, bucket: nat)
    requires t.Ok({id}, 0) && bucket < NEW_BUCKETS && victim in t.places && t.places[victim].inTried
    ensures var t' := Evict(t, victim, bucket);
            && t'.Ok({id}, 0) && t'.vvTried == Untry(t, victim).vvTried && t'.H == t.H && t'.key == t.key
            && id in t'.places && t'.places[id] == t.places[id]
            && (forall j :: j in t'.places ==> j in t.places && t'.places[j].addr == t.places[j].addr)
  {
    assert t.RefOk(id, {id});
    UntryOk(t, victim, {id}, 0);
    assert {id} + {victim} == {id, victim};
    ReenterOk(Untry(t, victim), id, victim, bucket);
  }

  /** The occupant of the tried slot an id belongs to. */
  function Rival(t: Tables, id: int): int
    requires t.Shaped() && id in t.places
  {
    t.vvTried[t.TriedBucketOf(id)][t.TriedPosOf(id)]
  }

  /** An id that has left the new table, and is not counted. */
  function Left(t: Tables, id: int): (t': Tables)
    requires t.Shaped() && id in t.places
    ensures t'.Shaped() && id in t'.places
  {
    var u := Unlist(t, id, NEW_BUCKETS);
    u.(nNew := u.nNew - 1)
  }

  /** Move an id from new to tried; `bucket` is where a rival for the slot goes. */
  function MakeTried(t: Tables, id: int, bucket: nat): Tables
    requires t.Shaped() && id in t.places && bucket < NEW_BUCKETS
  {
    var v := Cleared(Left(t, id), id, bucket);
    if v.Shaped() && id in v.places then Try(v, id) else v
  }

  /** The tables with the tried slot of an id made free. */
  function Cleared(u: Tables, id: int, bucket: nat): Tables
    requires u.Shaped() && id in u.places && bucket < NEW_BUCKETS
  {
    if Rival(u, id) in u.places then Evict(u, Rival(u, id), bucket) else u
  }

  lemma ClearedOk(u: Tables, id: int, bucket: nat)
    requires u.Ok({id}, 0) && id in u.places && bucket < NEW_BUCKETS
    ensures var v := Cleared(u, id, bucket);
            && v.Ok({id}, 0) && id in v.places && v.places[id] == u.places[id] && v.H == u.H && v.key == u.key
            && v.vvTried == Put(u.vvTried, u.TriedBucketOf(id), u.TriedPosOf(id), EMPTY)
            && (forall j :: j in v.places ==> j in u.places && v.places[j].addr == u.places[j].addr)
  {
    RivalOk(u, id, {id}, 0);
    var r := Rival(u, id);
    if r == EMPTY {
      PutTwice(u.vvTried, u.TriedBucketOf(id), u.TriedPosOf(id), EMPTY, EMPTY);
    } else {
      EvictOk(u, id, r, bucket);
    }
  }

  lemma LeftOk(t: Tables, id: int)
    requires t.Ok({}, 0) && id in t.places && !t.places[id].inTried
    ensures Left(t, id).Ok({id}, 0) && Left(t, id).places[id].refCount == 0
    ensures Left(t, id).vvTried == t.vvTried && Left(t, id).places == t.places[id := t.places[id].(refCount := 0)]
  {
    UnlistAll(t, id);
    CountOk(Unlist(t, id, NEW_BUCKETS), {id}, 1, -1);
  }

  lemma RivalOk(t: Tables, id: int, limbo: set<int>, counted: int)
    requires t.Ok(limbo, counted) && id in t.places
    ensures var r := Rival(t, id);
            r == EMPTY ||
              (r in t.places && t.places[r].inTried && t.TriedBucketOf(r) == t.TriedBucketOf(id) &&
               t.TriedPosOf(r) == t.TriedPosOf(id))
  {
    assert t.TriedSlotOk(t.TriedBucketOf(id), t.TriedPosOf(id));
  }

  lemma PutTwice(t: Table, b: nat, p: nat, x: int, y: int)
    requires b < |t| && p < |t[b]|
    ensures Put(Put(t, b, p, x), b, p, y) == Put(t, b, p, y)
    ensures t[b][p] == x ==> Put(t, b, p, x) == t
    ensures forall c, q :: 0 <= c < |t| && 0 <= q < |t[c]| ==>
            Put(t, b, p, x)[c][q] == if c == b && q == p then x else t[c][q]
  {
    assert t[b][p := x][p := y] == t[b][p := y];
    assert t[b][p] == x ==> t[b][p := x] == t[b];
  }

  /** Moving an id to tried keeps everything consistent and leaves no tried slot empty that was not. */
  lemma MakeTriedOk(t: Tables, id: int, bucket: nat, n: int)
    requires t.Ok({}, 0) && id in t.places && !t.places[id].inTried && bucket < NEW_BUCKETS
    ensures var t' := MakeTried(t, id, bucket);
            && t'.Ok({}, 0) && id in t'.places && t'.places[id].inTried
            && t'.vvTried == Put(t.vvTried, t.TriedBucketOf(id), t.TriedPosOf(id), id)
            && Evolves(t, n, t', n)
  {
    LeftOk(t, id);
    var u := Left(t, id);
    ClearedOk(u, id, bucket);
    var v := Cleared(u, id, bucket);
    PutTwice(t.vvTried, t.TriedBucketOf(id), t.TriedPosOf(id), EMPTY, id);
    TryOk(v, id, {id}, 0);
    assert {id} - {id} == {};
    var t' := Try(v, id);
    assert t' == MakeTried(t, id, bucket);
    PutTwice(t.vvTried, t.TriedBucketOf(id), t.TriedPosOf(id), id, id);
  }

  // ---- What becomes of everyone else ----

  /** All records but some are as they were. */
  ghost predicate KeepsAllBut(t: Tables, t': Tables, some: set<int>) {
    forall j :: j in t.places && j !in some ==> j in t'.places && t'.places[j] == t.places[j]
  }

  lemma {:induction false} UnlistSlots(t: Tables, id: int, n: nat, b: nat, p: nat)
    requires t.Shaped() && id in t.places && n <= NEW_BUCKETS && b < NEW_BUCKETS && p < BUCKET_SIZE
    ensures var x := Unlist(t, id, n).vvNew[b][p]; x == t.vvNew[b][p] || (x == EMPTY && t.vvNew[b][p] == id)
  {
    if n > 0 {
      UnlistSlots(t, id, n - 1, b, p);
      var u := Unlist(t, id, n - 1);
      if u.Occupies(id, n - 1) { PutTwice(u.vvNew, n - 1, u.NewPosOf(id, n - 1), EMPTY, EMPTY); }
    }
  }

  /** An id that enters a bucket holds its place there; only the occupant of that place is affected. */
  lemma ReenterFates(t: Tables, id: int, victim: int, bucket: nat)
    requires t.Ok({id, victim}, 0) && id != victim && bucket < NEW_BUCKETS && victim in t.places
    ensures var p, t' := t.NewPosOf(victim, bucket), Reenter(t, victim, bucket);
            && t'.Shaped() && t'.vvNew[bucket][p] == victim
            && victim in t'.places && t'.places[victim] == t.places[victim].(refCount := t.places[victim].refCount + 1)
            && KeepsAllBut(t, t', {victim, t.vvNew[bucket][p]})
  {
    var p := t.NewPosOf(victim, bucket);
    ReenterOk(t, id, victim, bucket);
    ClearNewOk(t, bucket, p, {id, victim}, 0);
    PutTwice(ClearNew(t, bucket, p).vvNew, bucket, p, victim, victim);
  }

  /**
   A promoted id has no new slot left. Its rival goes back to the new table, to the place its own source
   gives it, and is not lost; all others but the occupant of that place stay as they are.
   */
  lemma MakeTriedFates(t: Tables, id: int, bucket: nat)
    requires t.Ok({}, 0) && id in t.places && !t.places[id].inTried && bucket < NEW_BUCKETS
    ensures var r, t' := Rival(t, id), MakeTried(t, id, bucket);
            && t'.Shaped() && id in t'.places && t'.places[id].refCount == 0
            && (r == EMPTY ==> KeepsAllBut(t, t', {id}))
            && (r != EMPTY ==>
                && r in t.places && r in t'.places && t'.places[r] == Place(t.places[r].addr, 1, false)
                && t'.vvNew[bucket][t.NewPosOf(r, bucket)] == r
                && KeepsAllBut(t, t', {id, r, t.vvNew[bucket][t.NewPosOf(r, bucket)]}))
  {
    LeftOk(t, id);
    RivalOk(t, id, {}, 0);
    var u, r := Left(t, id), Rival(t, id);
    assert u.Shaped() && Rival(u, id) == r;
    ClearedFates(u, id, bucket);
    if r != EMPTY { UnlistSlots(t, id, NEW_BUCKETS, bucket, t.NewPosOf(r, bucket)); }
    TriedFates(t, u, id, r, bucket, Cleared(u, id, bucket));
  }

  lemma MakeTriedSlot(t: Tables, id: int, bucket: nat)
    requires t.Ok({}, 0) && id in t.places && !t.places[id].inTried && bucket < NEW_BUCKETS
    ensures var t' := MakeTried(t, id, bucket);
            && t'.H == t.H && t'.key == t.key && id in t'.places && t'.places[id].inTried
            && t'.places[id].addr == t.places[id].addr
            && t'.vvTried == Put(t.vvTried, t.TriedBucketOf(id), t.TriedPosOf(id), id)
  {
    MakeTriedOk(t, id, bucket, id + 1);
  }

  lemma ClearedFates(u: Tables, id: int, bucket: nat)
    requires u.Ok({id}, 0) && id in u.places && u.places[id].refCount == 0 && bucket < NEW_BUCKETS
    ensures var r, v := Rival(u, id), Cleared(u, id, bucket);
            && v.Shaped() && id in v.places && v.places[id] == u.places[id] && v.H == u.H && v.key == u.key
            && (r == EMPTY ==> v == u)
            && (r != EMPTY ==>
                && r in u.places && r in v.places && v.places[r] == Place(u.places[r].addr, 1, false)
                && v.vvNew[bucket][u.NewPosOf(r, bucket)] == r
                && KeepsAllBut(u, v, {r, u.vvNew[bucket][u.NewPosOf(r, bucket)]}))
  {
    RivalOk(u, id, {id}, 0);
    ClearedOk(u, id, bucket);
    var r := Rival(u, id);
    if r != EMPTY { EvictFates(u, id, r, bucket); }
  }

  lemma EvictFates(u: Tables, id: int, r: int, bucket: nat)
    requires u.Ok({id}, 0) && id in u.places && bucket < NEW_BUCKETS && r in u.places && u.places[r].inTried
    ensures var v := Evict(u, r, bucket);
            && v.Shaped() && r in v.places && v.places[r] == Place(u.places[r].addr, 1, false)
            && v.vvNew[bucket][u.NewPosOf(r, bucket)] == r
            && KeepsAllBut(u, v, {r, u.vvNew[bucket][u.NewPosOf(r, bucket)]})
  {
    assert u.RefOk(id, {id}) && u.RefOk(r, {id});
    UntryOk(u, r, {id}, 0);
    assert {id} + {r} == {id, r};
    ReenterFates(Untry(u, r), id, r, bucket);
  }

  // From leaving the new table to entering the tried one.
  lemma TriedFates(t: Tables, u: Tables, id: int, r: int, bucket: nat, v: Tables)
    requires t.Shaped() && u.Shaped() && v.Shaped() && id in t.places && bucket < NEW_BUCKETS
    requires u.H == t.H && u.key == t.key && v.H == t.H && v.key == t.key
    requires u.places == t.places[id := t.places[id].(refCount := 0)] && id in v.places && v.places[id] == u.places[id]
    requires r == EMPTY ==> v == u
    requires r != EMPTY ==>
             && r in t.places && r != id && r in v.places && v.places[r] == Place(t.places[r].addr, 1, false)
             && v.vvNew[bucket][t.NewPosOf(r, bucket)] == r
             && KeepsAllBut(u, v, {r, u.vvNew[bucket][t.NewPosOf(r, bucket)]})
             && (u.vvNew[bucket][t.NewPosOf(r, bucket)] == t.vvNew[bucket][t.NewPosOf(r, bucket)] ||
                 (u.vvNew[bucket][t.NewPosOf(r, bucket)] == EMPTY && t.vvNew[bucket][t.NewPosOf(r, bucket)] == id))
    requires EMPTY !in t.places
    ensures var t' := Try(v, id);
            && t'.Shaped() && id in t'.places && t'.places[id].refCount == 0
            && (r == EMPTY ==> KeepsAllBut(t, t', {id}))
            && (r != EMPTY ==>
                && r in t'.places && t'.places[r] == Place(t.places[r].addr, 1, false)
                && t'.vvNew[bucket][t.NewPosOf(r, bucket)] == r
                && KeepsAllBut(t, t', {id, r, t.vvNew[bucket][t.NewPosOf(r, bucket)]}))
  {
  }

  // ---- Evolution of the manager over time ----

  /** Ids are never reused or readdressed, and an occupied tried slot stays occupied. */
  ghost predicate Evolves(t: Tables, n: int, t': Tables, n': int) {
    && t.Shaped() && t'.Shaped() && n <= n' && t'.H == t.H && t'.key == t.key
    && (forall id :: id in t'.places && id < n ==> id in t.places && t'.places[id].addr == t.places[id].addr)
    && (forall b: nat, p: nat :: b < TRIED_BUCKETS && p < BUCKET_SIZE && t.vvTried[b][p] != EMPTY ==>
        t'.vvTried[b][p] != EMPTY)
  }

  const TRIED_COLLISION_SIZE := 10

  /** Every live id waiting for a tried slot has an occupant to replace there. */
  ghost predicate CollisionsOk(t: Tables, n: int, collisions: set<nat>)
    requires t.Shaped()
  {
    && |collisions| <= TRIED_COLLISION_SIZE
    && forall c :: c in collisions ==>
       c < n && (c in t.places ==> t.vvTried[t.TriedBucketOf(c)][t.TriedPosOf(c)] != EMPTY)
  }

  lemma CollisionsKept(t: Tables, n: int, t': Tables, n': int, collisions: set<nat>)
    requires Evolves(t, n, t', n') && CollisionsOk(t, n, collisions)
    ensures CollisionsOk(t', n', collisions)
  {
  }

  /** A new collision is added only with an occupied slot and with room left. */
  lemma CollisionsGrown(t: Tables, n: int, t': Tables, collisions: set<nat>, id: nat)
    requires Evolves(t, n, t', n) && CollisionsOk(t, n, collisions)
    requires id in t.places && id < n && Rival(t, id) != EMPTY && |collisions| < TRIED_COLLISION_SIZE
    ensures CollisionsOk(t', n, collisions + {id})
  {
    CollisionsKept(t, n, t', n, collisions);
    assert id in collisions ==> collisions + {id} == collisions;
  }

  lemma FewerCollisions(t: Tables, n: int, collisions: set<nat>, id: nat)
    requires t.Shaped() && CollisionsOk(t, n, collisions)
    ensures CollisionsOk(t, n, collisions - {id})
  {
    assert id in collisions ==> collisions == (collisions - {id}) + {id};
    assert id !in collisions ==> collisions - {id} == collisions;
  }

  lemma NoIdsNoCollisions(t: Tables, collisions: set<nat>)
    requires t.Shaped()
    ensures CollisionsOk(t, 0, collisions) <==> collisions == {}
  {
    if CollisionsOk(t, 0, collisions) { assert forall c: nat :: c !in collisions; }
  }
}
