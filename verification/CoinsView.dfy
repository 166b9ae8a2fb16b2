/**
 The stack of coin views: a database at the bottom and any number of write-back caches on top
 (src/coins.cpp, src/txdb.cpp). Every view denotes one flat map from outpoint to unspent coin,
 `Coins()`; each operation is specified by what it does to that map.
 */
module CoinsView {
  import opened Options
  import opened CoinsSpec

  /** How an operation ended: normally, with a logic_error, by a failed assert, or by a crash. */
  datatype Outcome = Done | Threw | Aborted | Crashed

  // One outpoint of the database once the batch entries outside `rest` are written.
  ghost function Written(before: Utxo, batch: CoinsMap, rest: set<OutPoint>, o: OutPoint): Option<Coin> {
    if o in batch && o !in rest && batch[o].isDirty then Seen(Get(before, o), Some(batch[o])) else Get(before, o)
  }

  /** The database once the batch entries outside `rest` are written. */
  ghost predicate WrittenBut(before: Utxo, after: Utxo, batch: CoinsMap, rest: set<OutPoint>) {
    forall o :: Get(after, o) == Written(before, batch, rest, o)
  }

  lemma WrittenLayer(before: Utxo, after: Utxo, batch: CoinsMap)
    requires LayerOk(before, batch) && WrittenBut(before, after, batch, {})
    ensures after == Overlay(before, batch)
  {
    forall o ensures Get(after, o) == Get(Overlay(before, batch), o) {
      OverlayAt(before, batch, o);
      assert o in batch ==> EntryOk(Get(before, o), batch[o]);
    }
    UtxoExtensional(after, Overlay(before, batch));
  }

  /** Of a batch written in part twice, only what was left out both times is missing. */
  lemma WrittenAgain(before: Utxo, mid: Utxo, after: Utxo, batch: CoinsMap, rest: set<OutPoint>, rest': set<OutPoint>)
    requires WrittenBut(before, mid, batch, rest) && WrittenBut(mid, after, batch, rest')
    ensures WrittenBut(before, after, batch, rest * rest')
  {
  }

  class CoinsViewDB {
    var coins: Utxo
    var bestBlock: Hash256
    // While a write is under way: the block it leads to and the one it started from.
    var headBlocks: seq<Hash256>

    ghost predicate Sound() reads this { AllUnspent(coins) }

    /** No write was interrupted. */
    ghost predicate Valid() reads this { Sound() && headBlocks == [] }

    method GetCoin(o: OutPoint) returns (found: bool, coin: Coin)
      ensures found <==> o in coins
      ensures found ==> coin == coins[o]
    {
      found := o in coins;
      coin := if found then coins[o] else NO_COIN;
    }

    // The block a write starts from, also if it repeats an interrupted one.
    function OldTip(): Hash256
      reads this
    {
      if bestBlock == NULL_HASH && |headBlocks| == 2 then headBlocks[1] else bestBlock
    }

    /**
     Write the dirty entries of a flushed cache, in batches: `full` says after which entries a batch is
     written, `crash` after which of these writes the program dies. An interrupted write leaves the marks
     of its two ends, no best block, and some of the entries written.
     */
    method BatchWrite(mapCoins: CoinsMap, hash: Hash256, full: int -> bool, crash: int -> bool)
      returns (r: Outcome, ghost rest: set<OutPoint>)
      requires Sound()
      modifies this
      ensures Sound() && !r.Threw?
      ensures r == Aborted <==>
              hash == NULL_HASH || (old(bestBlock) == NULL_HASH && |old(headBlocks)| == 2 && old(headBlocks)[0] != hash)
      ensures r == Aborted ==> coins == old(coins) && bestBlock == old(bestBlock) && headBlocks == old(headBlocks)
      ensures r == Done ==>
              bestBlock == hash && headBlocks == [] && rest == {} && WrittenBut(old(coins), coins, mapCoins, {})
      ensures r == Crashed ==>
              bestBlock == NULL_HASH && headBlocks == [hash, old(OldTip())] &&
                WrittenBut(old(coins), coins, mapCoins, rest)
      ensures (forall k :: !crash(k)) ==> r != Crashed
      ensures r == Done && LayerOk(old(coins), mapCoins) ==> coins == Overlay(old(coins), mapCoins)
    {
      rest := mapCoins.Keys;
      if hash == NULL_HASH { return Aborted, rest; }
      if bestBlock == NULL_HASH && |headBlocks| == 2 && headBlocks[0] != hash { return Aborted, rest; }
      var tip := OldTip();
      var todo, pending, count := mapCoins.Keys, coins, 0;
      while todo != {}
        invariant todo <= mapCoins.Keys && AllUnspent(coins) && AllUnspent(pending)
        invariant WrittenBut(old(coins), pending, mapCoins, todo)
        decreases todo
      {
        var o :| o in todo;
        pending := WriteOne(pending, mapCoins, o, todo, old(coins));
        todo, count := todo - {o}, count + 1;
        if full(count) {
          coins, bestBlock, headBlocks := pending, NULL_HASH, [hash, tip];
          if crash(count) { return Crashed, todo; }
        }
      }
      coins, bestBlock, headBlocks := pending, hash, [];
      if LayerOk(old(coins), mapCoins) { WrittenLayer(old(coins), coins, mapCoins); }
      return Done, {};
    }

    // Write or erase one dirty entry.
    method WriteOne(pending: Utxo, mapCoins: CoinsMap, o: OutPoint, ghost todo: set<OutPoint>, ghost before: Utxo)
      returns (pending': Utxo)
      requires o in todo && o in mapCoins && AllUnspent(pending) && WrittenBut(before, pending, mapCoins, todo)
      ensures AllUnspent(pending') && WrittenBut(before, pending', mapCoins, todo - {o})
    {
      var e := mapCoins[o];
      pending' := if !e.isDirty then pending else if e.coin.IsSpent() then pending - {o} else pending[o := e.coin];
      assert forall p :: p != o ==> Get(pending', p) == Get(pending, p);
    }

    /** However often a write crashes, repeating it ends as if it never had. */
    method WriteUntilDone(mapCoins: CoinsMap, hash: Hash256, full: int -> bool, crashes: seq<int -> bool>)
      returns (r: Outcome)
      requires Valid() && hash != NULL_HASH && LayerOk(coins, mapCoins)
      modifies this
      ensures r == Done && Valid() && bestBlock == hash && coins == Overlay(old(coins), mapCoins)
    {
      ghost var rest := mapCoins.Keys;
      for i := 0 to |crashes|
        invariant Sound() && WrittenBut(old(coins), coins, mapCoins, rest)
        invariant |headBlocks| == 2 ==> headBlocks[0] == hash
      {
        ghost var mid, rest' := coins, {};
        r, rest' := BatchWrite(mapCoins, hash, full, crashes[i]);
        WrittenAgain(old(coins), mid, coins, mapCoins, rest, rest');
        rest := rest * rest';
        if r == Done {
          WrittenLayer(old(coins), coins, mapCoins);
          return;
        }
      }
      ghost var mid, none := coins, {};
      r, none := BatchWrite(mapCoins, hash, full, _ => false);
      WrittenAgain(old(coins), mid, coins, mapCoins, rest, {});
      WrittenLayer(old(coins), coins, mapCoins);
    }
  }

  datatype BaseView = Database(db: CoinsViewDB) | Cache(cache: CoinsViewCache)

  class CoinsViewCache {
    const base: BaseView
    ghost const Repr: set<object>

    var hashBlock: Hash256
    var cacheCoins: CoinsMap
    var cachedCoinsUsage: int

    /** The fixed shape of the stack: each view owns the views below it. */
    ghost predicate Linked()
      decreases Repr
    {
      && this in Repr
      && match base
         case Database(db) => db in Repr
         case Cache(c) => c in Repr && c.Repr <= Repr && this !in c.Repr && c.Linked()
    }

    ghost predicate BaseValid()
      requires Linked()
      reads Repr - {this}
      decreases Repr, 0
    {
      match base
      case Database(db) => db.Valid()
      case Cache(c) => c.Valid()
    }

    /** Flags mean what they say at every level, and every memory counter is the exact sum. */
    ghost predicate Valid()
      reads this, Repr
      decreases Repr, 1
    {
      && Linked()
      && BaseValid()
      && LayerOk(BaseCoins(), cacheCoins)
      && cachedCoinsUsage == UsageSum(cacheCoins)
    }

    ghost function BaseCoins(): Utxo
      requires Linked()
      reads Repr - {this}
      decreases Repr, 0
    {
      match base
      case Database(db) => db.coins
      case Cache(c) => c.Coins()
    }

    /** The flat map this view stands for. */
    ghost function Coins(): Utxo
      requires Linked()
      reads Repr
      decreases Repr, 1
    {
      Overlay(BaseCoins(), cacheCoins)
    }

    ghost function BaseBest(): Hash256
      requires Linked()
      reads Repr - {this}
      decreases Repr, 0
    {
      match base
      case Database(db) => db.bestBlock
      case Cache(c) => c.Best()
    }

    /** The block this view's state belongs to. */
    ghost function Best(): Hash256
      requires Linked()
      reads Repr
      decreases Repr, 1
    {
      if hashBlock == NULL_HASH then BaseBest() else hashBlock
    }

    constructor (b: BaseView)
      requires match b case Database(db) => db.Valid() case Cache(c) => c.Valid()
      ensures Valid() && base == b
      ensures Repr == {this} + (match b case Database(db) => {db} case Cache(c) => c.Repr)
      ensures Coins() == BaseCoins() && Best() == BaseBest()
    {
      base := b;
      Repr := {this} + (match b case Database(db) => {db} case Cache(c) => c.Repr);
      hashBlock := NULL_HASH;
      cacheCoins := map[];
      cachedCoinsUsage := 0;
      new;
      OverlayNothing(BaseCoins());
    }

    // Replace the cached entries and their memory total; nothing below this cache changes.
    method Store(layer: CoinsMap, usage: int)
      requires Linked()
      modifies this`cacheCoins, this`cachedCoinsUsage
      ensures cacheCoins == layer && cachedCoinsUsage == usage
      ensures BaseCoins() == old(BaseCoins()) && BaseValid() == old(BaseValid()) && BaseBest() == old(BaseBest())
    {
      cacheCoins, cachedCoinsUsage := layer, usage;
    }

    // The virtual call base->GetCoin.
    method BaseGetCoin(o: OutPoint) returns (found: bool, coin: Coin)
      requires Valid()
      modifies Repr
      ensures Valid()
      ensures BaseCoins() == old(BaseCoins()) && BaseBest() == old(BaseBest())
      ensures cacheCoins == old(cacheCoins) && hashBlock == old(hashBlock)
      ensures cachedCoinsUsage == old(cachedCoinsUsage)
      ensures found <==> o in BaseCoins()
      ensures found ==> coin == BaseCoins()[o]
      decreases Repr, 0
    {
      match base {
        case Database(db) => found, coin := db.GetCoin(o);
        case Cache(c) => found, coin := c.GetCoin(o);
      }
    }

    // Look an outpoint up, filling this cache and every cache below on the way.
    method FetchCoin(o: OutPoint) returns (found: bool)
      requires Valid()
      modifies Repr
      ensures Valid()
      ensures Coins() == old(Coins()) && BaseCoins() == old(BaseCoins())
      ensures Best() == old(Best()) && BaseBest() == old(BaseBest()) && hashBlock == old(hashBlock)
      ensures found <==> o in old(cacheCoins) || o in old(Coins())
      ensures cacheCoins == if found && o !in old(cacheCoins)
                            then old(cacheCoins)[o := Entry(old(Coins())[o], false, false)] else old(cacheCoins)
      decreases Repr, 1
    {
      if o in cacheCoins { return true; }
      var ok, tmp := BaseGetCoin(o);
      OverlayAt(BaseCoins(), cacheCoins, o);
      if !ok { return false; }
      BaseUnspent();
      // a pruned copy would count as fresh
      var e := Entry(tmp, false, tmp.IsSpent());
      ReplaceSound(BaseCoins(), cacheCoins, o, Some(e));
      UpdatedSame(Coins(), o);
      Store(cacheCoins[o := e], cachedCoinsUsage + tmp.Usage());
      return true;
    }

    lemma BaseUnspent()
      requires Valid()
      ensures AllUnspent(BaseCoins())
      decreases Repr
    {
      match base
      case Database(_) =>
      case Cache(c) =>
        c.BaseUnspent();
        forall o | o in c.Coins() ensures !c.Coins()[o].IsSpent() {
          OverlayAt(c.BaseCoins(), c.cacheCoins, o);
        }
    }

    method GetCoin(o: OutPoint) returns (found: bool, coin: Coin)
      requires Valid()
      modifies Repr
      ensures Valid()
      ensures Coins() == old(Coins()) && BaseCoins() == old(BaseCoins())
      ensures Best() == old(Best()) && BaseBest() == old(BaseBest()) && hashBlock == old(hashBlock)
      ensures found <==> o in Coins()
      ensures found ==> coin == Coins()[o]
      decreases Repr, 2
    {
      var cached := FetchCoin(o);
      coin := if cached then cacheCoins[o].coin else NO_COIN;
      found := cached && !coin.IsSpent();
      OverlayAt(BaseCoins(), cacheCoins, o);
    }
  
    method AccessCoin(o: OutPoint) returns (coin: Coin)
      requires Valid()
      modifies Repr
      ensures Valid()
      ensures Coins() == old(Coins()) && BaseCoins() == old(BaseCoins())
      ensures if o in Coins() then coin == Coins()[o] else coin.IsSpent()
    {
      var cached := FetchCoin(o);
      coin := if cached then cacheCoins[o].coin else NO_COIN;
      OverlayAt(BaseCoins(), cacheCoins, o);
    }

    method HaveCoin(o: OutPoint) returns (have: bool)
      requires Valid()
      modifies Repr
      ensures Valid()
      ensures Coins() == old(Coins()) && BaseCoins() == old(BaseCoins())
      ensures Best() == old(Best()) && BaseBest() == old(BaseBest()) && hashBlock == old(hashBlock)
      ensures have <==> o in Coins()
    {
      var cached := FetchCoin(o);
      have := cached && !cacheCoins[o].coin.IsSpent();
      OverlayAt(BaseCoins(), cacheCoins, o);
    }

    // A read-only query: never true for a coin the view does not have.
    method HaveCoinInCache(o: OutPoint) returns (have: bool)
      requires Valid()
      ensures have ==> o in Coins()
      ensures !have ==> o !in Coins() || (o !in cacheCoins && o in BaseCoins())
    {
      have := o in cacheCoins && !cacheCoins[o].coin.IsSpent();
      OverlayAt(BaseCoins(), cacheCoins, o);
    }

    method GetBestBlock() returns (h: Hash256)
      requires Valid()
      modifies Repr
      ensures Valid()
      ensures Coins() == old(Coins()) && BaseCoins() == old(BaseCoins())
      ensures Best() == old(Best()) && BaseBest() == old(BaseBest())
      ensures h == Best()
      decreases Repr
    {
      if hashBlock == NULL_HASH {
        match base {
          case Database(db) => hashBlock := db.bestBlock;
          case Cache(c) => var b := c.GetBestBlock(); hashBlock := b;
        }
      }
      return hashBlock;
    }

    method SetBestBlock(h: Hash256)
      requires Valid()
      modifies this`hashBlock
      ensures Valid()
      ensures Coins() == old(Coins())
      ensures hashBlock == h
    {
      hashBlock := h;
    }

    /**
     Add a coin. The view takes the new coin and stays valid exactly when overwriting was allowed or
     no coin was there; the exception leaves the memory counter short by the existing coin's usage.
     */
    method AddCoin(o: OutPoint, coin: Coin, possibleOverwrite: bool) returns (r: Outcome)
      requires Valid()
      requires !coin.IsSpent()
      modifies this`cacheCoins, this`cachedCoinsUsage
      ensures IsUnspendable(coin.out.script) ==> r.Done? && cacheCoins == old(cacheCoins) && Valid()
      ensures r == if !IsUnspendable(coin.out.script) && !possibleOverwrite && o in old(cacheCoins)
                      && !old(cacheCoins)[o].coin.IsSpent() then Threw else Done
      ensures r.Done? && !IsUnspendable(coin.out.script) ==>
                Coins() == old(Coins())[o := coin] && (Valid() <==> possibleOverwrite || o !in old(Coins()))
      ensures var s := coin.out.script;
              r.Done? ==> |s| <= 10000 && (s == [] || s[0] != 0x6a) ==> o in Coins() && Coins()[o] == coin
      ensures r.Threw? ==> Coins() == old(Coins()) && o in old(Coins())
      ensures r.Threw? ==> (Valid() <==> old(cacheCoins)[o].coin.Usage() == 0)
    {
      if IsUnspendable(coin.out.script) { return Done; }
      var e := if o in cacheCoins then cacheCoins[o] else Entry(NO_COIN, false, false);
      if o in cacheCoins {
        CachedSeen(BaseCoins(), cacheCoins, o);
        cachedCoinsUsage := cachedCoinsUsage - e.coin.Usage();
      }
      var markFresh := false;
      if !possibleOverwrite {
        if !e.coin.IsSpent() { return Threw; }
        markFresh := !e.isDirty;
      }
      e := Entry(coin, true, e.isFresh || markFresh);
      AddedLayer(BaseCoins(), cacheCoins, o, coin, possibleOverwrite);
      Store(cacheCoins[o := e], cachedCoinsUsage + coin.Usage());
      return Done;
    }

    /** Spend a coin: afterwards the view has none there. True also for an entry already spent. */
    method SpendCoin(o: OutPoint) returns (ok: bool, moved: Coin)
      requires Valid()
      modifies Repr
      ensures Valid()
      ensures Coins() == old(Coins()) - {o} && BaseCoins() == old(BaseCoins())
      ensures Best() == old(Best()) && BaseBest() == old(BaseBest()) && hashBlock == old(hashBlock)
      ensures ok <==> o in old(cacheCoins) || o in old(Coins())
      ensures if o in old(Coins()) then moved == old(Coins())[o] else moved.IsSpent()
    {
      var cached := FetchCoin(o);
      if !cached { return false, NO_COIN; }
      var e := cacheCoins[o];
      CachedSeen(BaseCoins(), cacheCoins, o);
      SpentLayer(BaseCoins(), cacheCoins, o);
      moved := e.coin;
      Store(if e.isFresh then cacheCoins - {o} else cacheCoins[o := Entry(NO_COIN, true, e.isFresh)],
            cachedCoinsUsage - e.coin.Usage());
      return true, moved;
    }

    /** Drop an unmodified entry: the view is unchanged. */
    method Uncache(o: OutPoint)
      requires Valid()
      modifies this`cacheCoins, this`cachedCoinsUsage
      ensures Valid()
      ensures Coins() == old(Coins())
      ensures cacheCoins == if o in old(cacheCoins) && !old(cacheCoins)[o].isDirty && !old(cacheCoins)[o].isFresh
                            then old(cacheCoins) - {o} else old(cacheCoins)
    {
      if o in cacheCoins && !cacheCoins[o].isDirty && !cacheCoins[o].isFresh {
        assert EntryOk(Get(BaseCoins(), o), cacheCoins[o]);
        OverlayAt(BaseCoins(), cacheCoins, o);
        ReplaceSound(BaseCoins(), cacheCoins, o, None);
        UpdatedSame(Coins(), o);
        cachedCoinsUsage := cachedCoinsUsage - cacheCoins[o].coin.Usage();
        cacheCoins := cacheCoins - {o};
      }
    }

    /** Take in the entries of a cache that is being flushed into this one. */
    method BatchWrite(mapCoins: CoinsMap, hash: Hash256) returns (r: Outcome)
      requires Valid()
      modifies this
      ensures r == if exists o :: o in mapCoins && Misapplied(Get(old(cacheCoins), o), mapCoins[o])
                   then Threw else Done
      ensures r.Done? ==> hashBlock == hash
      ensures cachedCoinsUsage == UsageSum(cacheCoins)
      ensures LayerOk(old(Coins()), mapCoins) ==>
                r.Done? && Valid() && Coins() == Overlay(old(Coins()), mapCoins)
    {
      var rest := mapCoins.Keys;
      while rest != {}
        invariant rest <= mapCoins.Keys
        invariant hashBlock == old(hashBlock)
        invariant cachedCoinsUsage == UsageSum(cacheCoins)
        invariant PartlyMerged(old(cacheCoins), cacheCoins, mapCoins, rest)
        invariant forall o :: o in mapCoins && o !in rest ==> !Misapplied(Get(old(cacheCoins), o), mapCoins[o])
      {
        var o :| o in rest;
        ghost var before := cacheCoins;
        assert Get(cacheCoins, o) == Get(old(cacheCoins), o);
        var threw := MergeOne(o, mapCoins[o]);
        if threw {
          if LayerOk(old(Coins()), mapCoins) {
            OverlayAt(old(BaseCoins()), old(cacheCoins), o);
            assert EntryOk(Get(old(Coins()), o), mapCoins[o]);
            assert EntryOk(Get(old(BaseCoins()), o), old(cacheCoins)[o]);
            MergedSound(Get(old(BaseCoins()), o), Get(old(cacheCoins), o), mapCoins[o]);
          }
          return Threw;
        }
        rest := rest - {o};
        assert forall p :: p != o ==> Get(cacheCoins, p) == Get(before, p);
      }
      hashBlock := hash;
      if LayerOk(old(Coins()), mapCoins) {
        MergeSound(old(BaseCoins()), old(cacheCoins), cacheCoins, mapCoins);
      }
      return Done;
    }

    // The body of the BatchWrite loop.
    method MergeOne(o: OutPoint, child: Entry) returns (threw: bool)
      requires cachedCoinsUsage == UsageSum(cacheCoins)
      modifies this`cacheCoins, this`cachedCoinsUsage
      ensures threw <==> Misapplied(Get(old(cacheCoins), o), child)
      ensures cachedCoinsUsage == UsageSum(cacheCoins)
      ensures cacheCoins == if threw then old(cacheCoins)
                            else Replaced(old(cacheCoins), o, Merged(Get(old(cacheCoins), o), child))
    {
      ReplaceUsage(cacheCoins, o, Merged(Get(cacheCoins, o), child));
      if !child.isDirty { return false; }
      if o !in cacheCoins {
        if !(child.isFresh && child.coin.IsSpent()) {
          cacheCoins := cacheCoins[o := Entry(child.coin, true, child.isFresh)];
          cachedCoinsUsage := cachedCoinsUsage + child.coin.Usage();
        }
      } else {
        var ours := cacheCoins[o];
        if child.isFresh && !ours.coin.IsSpent() { return true; }
        if ours.isFresh && child.coin.IsSpent() {
          cachedCoinsUsage := cachedCoinsUsage - ours.coin.Usage();
          cacheCoins := cacheCoins - {o};
        } else {
          cachedCoinsUsage := cachedCoinsUsage - ours.coin.Usage() + child.coin.Usage();
          cacheCoins := cacheCoins[o := Entry(child.coin, true, ours.isFresh)];
        }
      }
      return false;
    }

    // The virtual call base->BatchWrite.
    method BaseBatchWrite(mapCoins: CoinsMap) returns (r: Outcome)
      requires Valid()
      requires LayerOk(BaseCoins(), mapCoins)
      modifies Repr - {this}
      ensures r == if base.Database? && hashBlock == NULL_HASH then Aborted else Done
      ensures BaseValid()
      ensures BaseCoins() == if r.Done? then Overlay(old(BaseCoins()), mapCoins) else old(BaseCoins())
      ensures r.Done? && base.Cache? ==> base.cache.hashBlock == hashBlock
      ensures r.Done? && hashBlock != NULL_HASH ==> BaseBest() == hashBlock
      ensures r.Done? && hashBlock == NULL_HASH ==> base.Cache? && BaseBest() == old(base.cache.BaseBest())
    {
      match base {
        case Database(db) =>
          ghost var rest;
          r, rest := db.BatchWrite(mapCoins, hashBlock, _ => false, _ => false);
        case Cache(c) => r := c.BatchWrite(mapCoins, hashBlock);
      }
    }

    /**
     Push every modification down one level: the parent now shows what this cache showed. The best
     block is carried over when this cache has one, and otherwise falls back past the parent's own.
     */
    method Flush() returns (r: Outcome)
      requires Valid()
      modifies Repr
      ensures r == if base.Database? && hashBlock == NULL_HASH then Aborted else Done
      ensures Valid()
      ensures Coins() == old(Coins()) && hashBlock == old(hashBlock)
      ensures r.Done? ==> cacheCoins == map[] && BaseCoins() == old(Coins())
      ensures r.Done? && base.Cache? ==> base.cache.hashBlock == hashBlock
      ensures r.Done? && hashBlock != NULL_HASH ==> Best() == old(Best()) && BaseBest() == old(Best())
      ensures r.Done? && hashBlock == NULL_HASH ==> base.Cache? && Best() == old(base.cache.BaseBest())
    {
      r := BaseBatchWrite(cacheCoins);
      if !r.Done? { return; }
      cacheCoins := map[];
      cachedCoinsUsage := 0;
      OverlayNothing(BaseCoins());
    }
  
    /** The database at the bottom of the stack. */
    ghost function Bottom(): CoinsViewDB
      requires Linked()
      ensures Bottom() in Repr
      decreases Repr
    {
      match base
      case Database(db) => db
      case Cache(c) => c.Bottom()
    }

    /** Flush the cache `depth` levels down; what this view shows does not change. */
    method FlushAt(depth: nat) returns (r: Outcome)
      requires Valid()
      modifies Repr
      ensures Valid()
      ensures Coins() == old(Coins())
      ensures !r.Threw?
      decreases depth
    {
      if depth == 0 {
        r := Flush();
      } else {
        match base {
          case Database(_) => r := Done;
          case Cache(c) => r := c.FlushAt(depth - 1);
        }
      }
    }

    /** Flush every level, top to bottom: with a best block set, the database ends up holding the view. */
    method FlushAll() returns (r: Outcome)
      requires Valid()
      modifies Repr
      ensures Valid()
      ensures Coins() == old(Coins())
      ensures !r.Threw? && (old(hashBlock) != NULL_HASH ==> r.Done?)
      ensures r.Done? ==> Bottom().coins == old(Coins())
      ensures r.Done? && old(hashBlock) != NULL_HASH ==> Bottom().bestBlock == old(hashBlock)
      decreases Repr
    {
      r := Flush();
      if r.Done? && base.Cache? {
        r := base.cache.FlushAll();
      }
    }
  }

  // ---- A transaction's outputs ----

  datatype Tx = Tx(txid: Hash256, coinBase: bool, vout: seq<TxOut>)

  /** The flat map after the first `n` outputs of a transaction have been added. */
  ghost function WithOutputs(u: Utxo, tx: Tx, height: nat, n: nat): Utxo
    requires n <= |tx.vout|
  {
    if n == 0 then u else
      var prev := WithOutputs(u, tx, height, n - 1);
      if IsUnspendable(tx.vout[n - 1].script) then prev
      else prev[OutPoint(tx.txid, n - 1) := Coin(tx.vout[n - 1], tx.coinBase, height)]
  }

  lemma {:induction false} WithOutputsKeys(u: Utxo, tx: Tx, height: nat, n: nat, k: nat)
    requires n <= |tx.vout| && n <= k
    ensures OutPoint(tx.txid, k) in WithOutputs(u, tx, height, n) <==> OutPoint(tx.txid, k) in u
  {
    if n > 0 { WithOutputsKeys(u, tx, height, n - 1, k); }
  }

  /** Add all outputs of a transaction. Without `check`, only a coinbase may replace existing coins. */
  method AddCoins(view: CoinsViewCache, tx: Tx, height: nat, check: bool) returns (r: Outcome)
    requires view.Valid()
    requires forall i :: 0 <= i < |tx.vout| ==> tx.vout[i].value != -1
    requires check || tx.coinBase ||
             forall i {:trigger tx.vout[i]} :: 0 <= i < |tx.vout| ==> OutPoint(tx.txid, i) !in view.Coins()
    modifies view.Repr
    ensures r.Done? && view.Valid()
    ensures view.Coins() == WithOutputs(old(view.Coins()), tx, height, |tx.vout|)
  {
    r := Done;
    for i := 0 to |tx.vout|
      invariant r.Done? && view.Valid()
      invariant view.Coins() == WithOutputs(old(view.Coins()), tx, height, i)
    {
      var o := OutPoint(tx.txid, i);
      WithOutputsKeys(old(view.Coins()), tx, height, i, i);
      var overwrite := tx.coinBase;
      if check { overwrite := view.HaveCoin(o); }
      assert tx.vout[i].value != -1;
      OverlayAt(view.BaseCoins(), view.cacheCoins, o);
      r := view.AddCoin(o, Coin(tx.vout[i], tx.coinBase, height), overwrite);
    }
  }

  // ---- Whole runs ----

  datatype Op =
    | Fetch(o: OutPoint)
    | Add(o: OutPoint, coin: Coin, possibleOverwrite: bool)
    | Spend(o: OutPoint)
    | Drop(o: OutPoint)
    | SetBest(h: Hash256)
    | FlushLevel(depth: nat)

  /** What an operation means on one flat map. */
  ghost function Apply(u: Utxo, op: Op): Utxo {
    match op
    case Add(o, coin, _) => if IsUnspendable(coin.out.script) then u else u[o := coin]
    case Spend(o) => u - {o}
    case _ => u
  }

  ghost function ApplyAll(u: Utxo, ops: seq<Op>): Utxo {
    if ops == [] then u else Apply(ApplyAll(u, ops[..|ops| - 1]), ops[|ops| - 1])
  }

  /** The documented duty of callers of AddCoin, judged on the flat map alone. */
  ghost predicate Legal(u: Utxo, op: Op) {
    op.Add? ==> !op.coin.IsSpent() && (op.possibleOverwrite || op.o !in u)
  }

  ghost predicate LegalRun(u: Utxo, ops: seq<Op>) {
    forall i :: 0 <= i < |ops| ==> Legal(ApplyAll(u, ops[..i]), ops[i])
  }

  method Step(view: CoinsViewCache, op: Op) returns (r: Outcome)
    requires view.Valid()
    requires Legal(view.Coins(), op)
    modifies view.Repr
    ensures view.Valid()
    ensures view.Coins() == Apply(old(view.Coins()), op)
    ensures !r.Threw? && (r.Aborted? ==> op.FlushLevel?)
  {
    r := Done;
    match op {
      case Fetch(o) =>
        var _, _ := view.GetCoin(o);
      case Add(o, coin, possibleOverwrite) =>
        if o in view.cacheCoins { CachedSeen(view.BaseCoins(), view.cacheCoins, o); }
        r := view.AddCoin(o, coin, possibleOverwrite);
      case Spend(o) =>
        var _, _ := view.SpendCoin(o);
      case Drop(o) =>
        view.Uncache(o);
      case SetBest(h) =>
        view.SetBestBlock(h);
      case FlushLevel(depth) =>
        r := view.FlushAt(depth);
    }
  }

  /**
   Every run on a stack of any height agrees with one flat map at every step, throws nowhere, and
   can stop early only at a flush into the database without a best block.
   */
  method Run(view: CoinsViewCache, ops: seq<Op>) returns (r: Outcome, done: nat)
    requires view.Valid()
    requires LegalRun(view.Coins(), ops)
    modifies view.Repr
    ensures view.Valid()
    ensures done <= |ops| && !r.Threw?
    ensures r.Done? ==> done == |ops|
    ensures r.Aborted? ==> 0 < done && ops[done - 1].FlushLevel?
    ensures view.Coins() == ApplyAll(old(view.Coins()), ops[..done])
  {
    r, done := Done, 0;
    while done < |ops| && r.Done?
      invariant view.Valid()
      invariant done <= |ops| && !r.Threw?
      invariant r.Aborted? ==> 0 < done && ops[done - 1].FlushLevel?
      invariant view.Coins() == ApplyAll(old(view.Coins()), ops[..done])
      decreases |ops| - done
    {
      r := Step(view, ops[done]);
      assert ops[..done + 1][..done] == ops[..done];
      done := done + 1;
    }
  }
}
