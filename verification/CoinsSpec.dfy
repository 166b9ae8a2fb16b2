/**
 Values of the unspent-output cache (src/coins.h, src/coins.cpp) and the meaning of one
 cache layer: what a layer of flagged entries shows on top of the coins underneath it.
 */
module CoinsSpec {
  import opened Options

  type Hash256 = nat
  const NULL_HASH: Hash256 := 0

  datatype OutPoint = OutPoint(txid: Hash256, n: nat)

  const OP_RETURN := 0x6a
  const MAX_SCRIPT_SIZE := 10000
  const DIRECT_SCRIPT_SIZE := 28

  type Script = seq<nat>

  predicate IsUnspendable(s: Script) {
    (|s| > 0 && s[0] == OP_RETURN) || |s| > MAX_SCRIPT_SIZE
  }

  // Heap memory of a script: none while it fits the in-place buffer, otherwise the
  // allocator's rounded block size on a 64-bit machine.
  function ScriptUsage(s: Script): (u: nat)
    ensures |s| <= 28 ==> u == 0
    ensures |s| > 28 ==> u % 16 == 0 && |s| + 16 <= u <= |s| + 31
  {
    if |s| <= DIRECT_SCRIPT_SIZE then 0 else (|s| + 31) / 16 * 16
  }

  datatype TxOut = TxOut(value: int, script: Script)

  datatype Coin = Coin(out: TxOut, coinBase: bool, height: nat) {
    predicate IsSpent() { out.value == -1 }
    function Usage(): nat { ScriptUsage(out.script) }
  }

  // Both the default coin and the state Clear() leaves behind.
  const NO_COIN := Coin(TxOut(-1, []), false, 0)

  datatype Entry = Entry(coin: Coin, isDirty: bool, isFresh: bool)

  type CoinsMap = map<OutPoint, Entry>
  type Utxo = map<OutPoint, Coin>

  /** What a layer shows at one outpoint: its own entry if it has one, else what is underneath. */
  function Seen(under: Option<Coin>, ours: Option<Entry>): Option<Coin> {
    match ours
    case None => under
    case Some(e) => if e.coin.IsSpent() then None else Some(e.coin)
  }

  /** The whole flat map a layer shows. */
  function Overlay(under: Utxo, layer: CoinsMap): Utxo {
    map o | o in under.Keys + layer.Keys && Seen(Get(under, o), Get(layer, o)).Some?
      :: Seen(Get(under, o), Get(layer, o)).value
  }

  lemma OverlayAt(under: Utxo, layer: CoinsMap, o: OutPoint)
    ensures Get(Overlay(under, layer), o) == Seen(Get(under, o), Get(layer, o))
  {
  }

  lemma UtxoExtensional(a: Utxo, b: Utxo)
    requires forall o :: Get(a, o) == Get(b, o)
    ensures a == b
  {
    assert forall o :: o in a <==> Get(a, o).Some?;
    assert forall o :: o in b <==> Get(b, o).Some?;
    assert forall o :: o in a ==> Get(a, o) == Some(a[o]) && Get(b, o) == Some(b[o]);
  }

  lemma OverlayNothing(under: Utxo)
    ensures Overlay(under, map[]) == under
  {
    forall o ensures Get(Overlay(under, map[]), o) == Get(under, o) { OverlayAt(under, map[], o); }
    UtxoExtensional(Overlay(under, map[]), under);
  }

  /** FRESH means a coin with nothing underneath; a clean entry repeats what is underneath. */
  predicate EntryOk(under: Option<Coin>, e: Entry) {
    && (e.isFresh ==> under == None && !e.coin.IsSpent())
    && (!e.isDirty ==> Seen(under, Some(e)) == under)
  }

  ghost predicate LayerOk(under: Utxo, layer: CoinsMap) {
    forall o :: o in layer ==> EntryOk(Get(under, o), layer[o])
  }

  ghost predicate AllUnspent(u: Utxo) {
    forall o :: o in u ==> !u[o].IsSpent()
  }

  /** Exact memory of all cached coins. */
  ghost function UsageSum(m: CoinsMap): nat {
    if m == map[] then 0 else
      var o :| o in m;
      m[o].coin.Usage() + UsageSum(m - {o})
  }

  // The sum does not depend on the order in which entries are taken out.
  lemma {:induction false} UsageSumTake(m: CoinsMap, o: OutPoint)
    requires o in m
    ensures UsageSum(m) == m[o].coin.Usage() + UsageSum(m - {o})
    decreases |m|
  {
    var p :| p in m && UsageSum(m) == m[p].coin.Usage() + UsageSum(m - {p});
    if p != o {
      UsageSumTake(m - {p}, o);
      UsageSumTake(m - {o}, p);
      assert m - {p} - {o} == m - {o} - {p};
    }
  }

  lemma UsageSumPut(m: CoinsMap, o: OutPoint, e: Entry)
    ensures UsageSum(m[o := e]) == UsageSum(m - {o}) + e.coin.Usage()
    ensures o !in m ==> m - {o} == m
  {
    UsageSumTake(m[o := e], o);
    assert m[o := e] - {o} == m - {o};
  }

  // ---- Writing a child's entries into a parent layer ----

  /** The parent's entry after one entry of a flushed child has been taken in (src/coins.cpp:152-193). */
  function Merged(ours: Option<Entry>, child: Entry): Option<Entry> {
    if !child.isDirty then ours
    else match ours
      case None =>
        if child.isFresh && child.coin.IsSpent() then None else Some(Entry(child.coin, true, child.isFresh))
      case Some(e) =>
        if e.isFresh && child.coin.IsSpent() then None else Some(Entry(child.coin, true, e.isFresh))
  }

  /** The condition under which the write is refused with an exception. */
  predicate Misapplied(ours: Option<Entry>, child: Entry) {
    child.isDirty && child.isFresh && ours.Some? && !ours.value.coin.IsSpent()
  }

  /**
   One merged entry: the parent keeps its invariant over the grandparent, shows exactly what the
   child showed, and the exception is impossible, whenever the child's entry obeyed its invariant
   over the parent.
   */
  lemma MergedSound(under: Option<Coin>, ours: Option<Entry>, child: Entry)
    requires ours.Some? ==> EntryOk(under, ours.value)
    requires EntryOk(Seen(under, ours), child)
    ensures !Misapplied(ours, child)
    ensures Merged(ours, child).Some? ==> EntryOk(under, Merged(ours, child).value)
    ensures Seen(under, Merged(ours, child)) == Seen(Seen(under, ours), Some(child))
    ensures !child.isDirty ==> Merged(ours, child) == ours
    ensures var knownEmpty := if ours.Some? then ours.value.isFresh else child.isFresh;
            child.isDirty ==>
              (Merged(ours, child) == None <==> child.coin.IsSpent() && knownEmpty) &&
              (Merged(ours, child).Some? ==> Merged(ours, child).value == Entry(child.coin, true, knownEmpty))
  {
  }

  /** `after` is `before` with the entries of `child` outside `rest` merged in. */
  ghost predicate PartlyMerged(before: CoinsMap, after: CoinsMap, child: CoinsMap, rest: set<OutPoint>) {
    forall o :: Get(after, o) ==
      if o in child && o !in rest then Merged(Get(before, o), child[o]) else Get(before, o)
  }

  lemma MergeSound(under: Utxo, before: CoinsMap, after: CoinsMap, child: CoinsMap)
    requires LayerOk(under, before)
    requires LayerOk(Overlay(under, before), child)
    requires PartlyMerged(before, after, child, {})
    ensures LayerOk(under, after)
    ensures Overlay(under, after) == Overlay(Overlay(under, before), child)
    ensures forall o :: o in child ==> !Misapplied(Get(before, o), child[o])
  {
    var mid := Overlay(under, before);
    forall o
      ensures o in child ==> !Misapplied(Get(before, o), child[o])
      ensures o in after ==> EntryOk(Get(under, o), after[o])
      ensures Get(Overlay(under, after), o) == Get(Overlay(mid, child), o)
    {
      OverlayAt(under, before, o);
      OverlayAt(under, after, o);
      OverlayAt(mid, child, o);
      assert Get(after, o) == if o in child then Merged(Get(before, o), child[o]) else Get(before, o);
      assert o in before ==> EntryOk(Get(under, o), before[o]);
      if o in child {
        assert EntryOk(Get(mid, o), child[o]);
        MergedSound(Get(under, o), Get(before, o), child[o]);
      }
    }
    UtxoExtensional(Overlay(under, after), Overlay(mid, child));
  }

  // ---- Adding a coin ----

  /** The entry AddCoin writes (src/coins.cpp:70-87), when it does not throw. */
  function Added(ours: Option<Entry>, coin: Coin, possibleOverwrite: bool): Entry {
    var e := if ours.Some? then ours.value else Entry(NO_COIN, false, false);
    Entry(coin, true, e.isFresh || (!possibleOverwrite && !e.isDirty))
  }

  /**
   Exactly when adding a coin is safe. AddCoin throws on a cached unspent coin; where it does not
   throw, the written entry obeys the layer invariant if and only if the caller allowed overwriting
   or the view had no coin there.
   */
  lemma AddedSafeIff(under: Option<Coin>, ours: Option<Entry>, coin: Coin, possibleOverwrite: bool)
    requires ours.Some? ==> EntryOk(under, ours.value)
    requires !coin.IsSpent()
    requires possibleOverwrite || ours.None? || ours.value.coin.IsSpent()
    ensures EntryOk(under, Added(ours, coin, possibleOverwrite)) <==>
            possibleOverwrite || Seen(under, ours) == None
  {
  }

  // ---- One entry of a layer is replaced ----

  /** A key of a layer takes the entry `e`, or is erased. */
  function Replaced(layer: CoinsMap, o: OutPoint, e: Option<Entry>): CoinsMap {
    if e.Some? then layer[o := e.value] else layer - {o}
  }

  /** The flat map with one outpoint set or cleared. */
  function Updated(u: Utxo, o: OutPoint, c: Option<Coin>): Utxo {
    if c.Some? then u[o := c.value] else u - {o}
  }

  lemma ReplaceShown(under: Utxo, layer: CoinsMap, o: OutPoint, e: Option<Entry>)
    ensures Overlay(under, Replaced(layer, o, e)) == Updated(Overlay(under, layer), o, Seen(Get(under, o), e))
  {
    var after := Replaced(layer, o, e);
    var shown := Updated(Overlay(under, layer), o, Seen(Get(under, o), e));
    forall p ensures Get(Overlay(under, after), p) == Get(shown, p) {
      OverlayAt(under, layer, p);
      OverlayAt(under, after, p);
      assert Get(after, p) == if p == o then e else Get(layer, p);
    }
    UtxoExtensional(Overlay(under, after), shown);
  }

  lemma ReplaceUsage(layer: CoinsMap, o: OutPoint, e: Option<Entry>)
    ensures UsageSum(Replaced(layer, o, e)) == UsageSum(layer)
              - (if o in layer then layer[o].coin.Usage() else 0) + (if e.Some? then e.value.coin.Usage() else 0)
  {
    if e.Some? { UsageSumPut(layer, o, e.value); }
    if o in layer { UsageSumTake(layer, o); } else { assert layer - {o} == layer; }
  }

  /** Replacing one entry of a layer changes what it shows at that outpoint only. */
  lemma ReplaceSound(under: Utxo, layer: CoinsMap, o: OutPoint, e: Option<Entry>)
    requires LayerOk(under, layer)
    ensures Overlay(under, Replaced(layer, o, e)) == Updated(Overlay(under, layer), o, Seen(Get(under, o), e))
    ensures LayerOk(under, Replaced(layer, o, e)) <==> (e.Some? ==> EntryOk(Get(under, o), e.value))
    ensures UsageSum(Replaced(layer, o, e)) == UsageSum(layer)
              - (if o in layer then layer[o].coin.Usage() else 0) + (if e.Some? then e.value.coin.Usage() else 0)
  {
    ReplaceShown(under, layer, o, e);
    ReplaceUsage(layer, o, e);
    assert e.Some? ==> o in Replaced(layer, o, e);
  }

  lemma UpdatedSame(u: Utxo, o: OutPoint)
    ensures Updated(u, o, Get(u, o)) == u
  {
  }

  lemma AddedLayer(under: Utxo, layer: CoinsMap, o: OutPoint, coin: Coin, possibleOverwrite: bool)
    requires LayerOk(under, layer)
    requires !coin.IsSpent()
    requires possibleOverwrite || o !in layer || layer[o].coin.IsSpent()
    ensures var after := layer[o := Added(Get(layer, o), coin, possibleOverwrite)];
            && Overlay(under, after) == Overlay(under, layer)[o := coin]
            && (LayerOk(under, after) <==> possibleOverwrite || o !in Overlay(under, layer))
            && UsageSum(after) == UsageSum(layer) - (if o in layer then layer[o].coin.Usage() else 0) + coin.Usage()
  {
    assert o in layer ==> EntryOk(Get(under, o), layer[o]);
    OverlayAt(under, layer, o);
    AddedSafeIff(Get(under, o), Get(layer, o), coin, possibleOverwrite);
    ReplaceSound(under, layer, o, Some(Added(Get(layer, o), coin, possibleOverwrite)));
  }

  /** The entry SpendCoin leaves (src/coins.cpp:106-111): none if FRESH, else a dirty tombstone. */
  function SpentEntry(e: Entry): Option<Entry> {
    if e.isFresh then None else Some(Entry(NO_COIN, true, e.isFresh))
  }

  lemma SpentLayer(under: Utxo, layer: CoinsMap, o: OutPoint)
    requires LayerOk(under, layer)
    requires o in layer
    ensures var after := Replaced(layer, o, SpentEntry(layer[o]));
            && Overlay(under, after) == Overlay(under, layer) - {o}
            && LayerOk(under, after)
            && UsageSum(after) == UsageSum(layer) - layer[o].coin.Usage()
  {
    assert EntryOk(Get(under, o), layer[o]);
    ReplaceSound(under, layer, o, SpentEntry(layer[o]));
  }

  /** A coin that is new to a layer leaves no entry there once it is spent, in the layer or in one above. */
  lemma NoTrace(coin: Coin, child: Entry)
    requires child.isDirty && child.coin.IsSpent()
    ensures SpentEntry(Added(None, coin, false)) == None
    ensures Merged(Some(Added(None, coin, false)), child) == None
  {
  }

  lemma CachedSeen(under: Utxo, layer: CoinsMap, o: OutPoint)
    requires o in layer
    ensures o in Overlay(under, layer) <==> !layer[o].coin.IsSpent()
    ensures o in Overlay(under, layer) ==> Overlay(under, layer)[o] == layer[o].coin
  {
    OverlayAt(under, layer, o);
  }
}
