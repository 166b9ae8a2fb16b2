/**
 The rolling bloom filter (src/bloom.h, src/bloom.cpp). Each position has two bits that hold the number
 of the generation it was last set in; old generations are wiped as their numbers are used again.
 */
module RollingBloom {

  // ---- Words ----

  predicate Is64(s: seq<bool>) { |s| == 64 }

  /** A 64-bit word, by bits. */
  type Word = s: seq<bool> | Is64(s) witness seq(64, _ => false)

  function Make(f: nat -> bool): (w: Word)
    ensures forall k :: 0 <= k < 64 ==> w[k] == f(k)
  {
    seq(64, k requires 0 <= k < 64 => f(k))
  }

  function Zero(): Word { Make(_ => false) }

  /** The word 1 << k. */
  function One(k: nat): Word { Make(i => i == k) }

  function And(x: Word, y: Word): (r: Word)
    ensures forall k :: 0 <= k < 64 ==> r[k] == (x[k] && y[k])
  {
    seq(64, k requires 0 <= k < 64 => x[k] && y[k])
  }

  function Or(x: Word, y: Word): (r: Word)
    ensures forall k :: 0 <= k < 64 ==> r[k] == (x[k] || y[k])
  {
    seq(64, k requires 0 <= k < 64 => x[k] || y[k])
  }

  function Xor(x: Word, y: Word): (r: Word)
    ensures forall k :: 0 <= k < 64 ==> r[k] == (x[k] != y[k])
  {
    seq(64, k requires 0 <= k < 64 => x[k] != y[k])
  }

  function Not(x: Word): (r: Word)
    ensures forall k :: 0 <= k < 64 ==> r[k] == !x[k]
  {
    seq(64, k requires 0 <= k < 64 => !x[k])
  }

  // The low and the high bit of a generation number.
  predicate Low(g: nat) { g % 2 == 1 }

  predicate High(g: nat) { g / 2 % 2 == 1 }

  /** All bits equal to a bit: zero minus the bit. */
  function Spread(b: bool): Word { Make(_ => b) }

  /** A word with one bit replaced. */
  function WithBit(x: Word, k: nat, v: bool): Word
    requires k < 64
  {
    Or(And(x, Not(One(k))), if v then One(k) else Zero())
  }

  // ---- Two-bit cells in pairs of words ----

  /** The number in a cell. */
  function Number(p1: Word, p2: Word, k: nat): (r: nat)
    requires k < 64
    ensures r <= 3
  {
    (if p1[k] then 1 else 0) + (if p2[k] then 2 else 0)
  }

  function KeepMask(p1: Word, p2: Word, g: nat): Word { Or(Xor(p1, Spread(Low(g))), Xor(p2, Spread(High(g)))) }

  /** Masking clears exactly the cells with a given number. */
  lemma Wiped(p1: Word, p2: Word, g: nat, k: nat)
    requires k < 64 && g <= 3
    ensures var mask := KeepMask(p1, p2, g);
            Number(And(p1, mask), And(p2, mask), k) == if Number(p1, p2, k) == g then 0 else Number(p1, p2, k)
  {
  }

  /** Setting both bits changes one cell only. */
  lemma CellSet(p1: Word, p2: Word, g: nat, k: nat, j: nat)
    requires k < 64 && j < 64 && g <= 3
    ensures Number(WithBit(p1, k, Low(g)), WithBit(p2, k, High(g)), j) == if j == k then g else Number(p1, p2, j)
  {
  }

  // ---- Generations ----

  /** The number of the e-th generation: one, two, three and over again. */
  function GenerationOf(e: nat): (g: nat)
    ensures 1 <= g <= 3
  {
    e % 3 + 1
  }

  /** A cell of the filter: a pair of words and a bit. */
  datatype Cell = Cell(pair: nat, bit: nat)

  /** What a cell holds: the generation of its last writer, unless that is three generations old. */
  function Expected(writer: map<Cell, nat>, epoch: nat, c: Cell): nat {
    if c in writer && writer[c] + 2 >= epoch then GenerationOf(writer[c]) else 0
  }

  ghost predicate CellsOk(data: seq<Word>, writer: map<Cell, nat>, epoch: nat) {
    && |data| % 2 == 0 && (forall c :: c in writer ==> writer[c] <= epoch)
    && (forall p: nat, k: nat :: 2 * p + 1 < |data| && k < 64 ==>
        Number(data[2 * p], data[2 * p + 1], k) == Expected(writer, epoch, Cell(p, k)))
  }

  /** The next generation takes over its number from the one three before, whose cells are wiped. */
  lemma NextGenerationOk(data: seq<Word>, data': seq<Word>, writer: map<Cell, nat>, epoch: nat)
    requires CellsOk(data, writer, epoch) && |data'| == |data|
    requires forall p: nat :: 2 * p + 1 < |data| ==> WipedPair(data, data', p, GenerationOf(epoch + 1))
    ensures CellsOk(data', writer, epoch + 1)
  {
    var g := GenerationOf(epoch + 1);
    forall p: nat, k: nat | 2 * p + 1 < |data| && k < 64
      ensures Number(data'[2 * p], data'[2 * p + 1], k) == Expected(writer, epoch + 1, Cell(p, k))
    {
      assert WipedPair(data, data', p, g);
      Wiped(data[2 * p], data[2 * p + 1], g, k);
      assert Number(data[2 * p], data[2 * p + 1], k) == Expected(writer, epoch, Cell(p, k));
      NumbersApart(writer, epoch, Cell(p, k));
    }
  }

  predicate WipedPair(data: seq<Word>, data': seq<Word>, p: nat, g: nat)
    requires |data'| == |data| && 2 * p + 1 < |data|
  {
    var p1, p2 := data[2 * p], data[2 * p + 1];
    data'[2 * p] == And(p1, KeepMask(p1, p2, g)) && data'[2 * p + 1] == And(p2, KeepMask(p1, p2, g))
  }

  lemma NumbersApart(writer: map<Cell, nat>, epoch: nat, c: Cell)
    requires c in writer ==> writer[c] <= epoch
    ensures Expected(writer, epoch + 1, c) ==
            if Expected(writer, epoch, c) == GenerationOf(epoch + 1) then 0 else Expected(writer, epoch, c)
  {
  }

  /** Setting a cell in the current generation. */
  lemma SetCellOk(data: seq<Word>, data': seq<Word>, writer: map<Cell, nat>, epoch: nat, c: Cell)
    requires CellsOk(data, writer, epoch) && 2 * c.pair + 1 < |data| && c.bit < 64
    requires var g := GenerationOf(epoch);
             data' == data[2 * c.pair := WithBit(data[2 * c.pair], c.bit, Low(g))][2 * c.pair + 1 :=
                 WithBit(data[2 * c.pair + 1], c.bit, High(g))]
    ensures CellsOk(data', writer[c := epoch], epoch)
  {
    var g := GenerationOf(epoch);
    forall p: nat, k: nat | 2 * p + 1 < |data| && k < 64
      ensures Number(data'[2 * p], data'[2 * p + 1], k) == Expected(writer[c := epoch], epoch, Cell(p, k))
    {
      assert Number(data[2 * p], data[2 * p + 1], k) == Expected(writer, epoch, Cell(p, k));
      if p == c.pair { CellSet(data[2 * p], data[2 * p + 1], g, c.bit, k); }
    }
  }

  // ---- Positions of a key ----

  type Key = seq<nat>

  const TWO32 := 0x1_0000_0000

  /** A multiplication instead of a remainder: the upper half of the product. */
  function FastMod(x: nat, n: nat): (r: nat)
    requires x < TWO32
    ensures n > 0 ==> r < n
  {
    if n > 0 then MulBound(x, n); x * n / TWO32 else 0
  }

  lemma MulBound(x: nat, n: nat)
    requires x < TWO32 && n > 0
    ensures 0 <= x * n / TWO32 < n
  {
    assert x * n < TWO32 * n;
  }

  datatype Hasher = Hasher(hash: (nat, nat, Key) -> nat, nHashFuncs: nat)
  {
    function Value(n: nat, tweak: nat, key: Key): (h: nat)
      ensures h < TWO32
    {
      hash(n, tweak, key) % TWO32
    }

    /** The cell of a key under the n-th hash function, in a table of so many words. */
    function CellOf(n: nat, tweak: nat, key: Key, size: nat): (c: Cell)
      requires size >= 2 && size % 2 == 0
      ensures 2 * c.pair + 1 < size && c.bit < 64
    {
      var h := Value(n, tweak, key);
      Cell(FastMod(h, size) / 2, h % 64)
    }
  }

  /** Every cell of a key was last written no earlier than some generation. */
  ghost predicate Covered(hs: Hasher, tweak: nat, key: Key, size: nat, writer: map<Cell, nat>, e: int, n: nat)
    requires size >= 2 && size % 2 == 0
  {
    forall i: nat :: i < n ==> var c := hs.CellOf(i, tweak, key, size); c in writer && writer[c] >= e
  }

  /** A cell is one of those of a key. */
  ghost predicate HasCell(hs: Hasher, tweak: nat, key: Key, size: nat, c: Cell)
    requires size >= 2 && size % 2 == 0
  {
    exists m: nat :: m < hs.nHashFuncs && hs.CellOf(m, tweak, key, size) == c
  }

  /** Only the cells of a key are written. */
  ghost predicate WritesOnly(hs: Hasher, tweak: nat, key: Key, size: nat, w: map<Cell, nat>, w': map<Cell, nat>, e: nat)
    requires size >= 2 && size % 2 == 0
  {
    forall c :: c in w' ==>
      (c in w && w'[c] == w[c]) || (w'[c] == e && HasCell(hs, tweak, key, size, c))
  }

  /** Every written cell was last written with a key that has it. */
  ghost predicate WriterOk(hs: Hasher, tweak: nat, size: nat, w: map<Cell, nat>, keys: seq<Key>, epochs: seq<nat>)
    requires size >= 2 && size % 2 == 0 && |keys| == |epochs|
  {
    forall c :: c in w ==> WrittenBy(hs, tweak, size, w, keys, epochs, c)
  }

  ghost predicate WrittenBy(hs: Hasher, tweak: nat, size: nat, w: map<Cell, nat>, keys: seq<Key>, epochs: seq<nat>,
                            c: Cell)
    requires size >= 2 && size % 2 == 0 && |keys| == |epochs| && c in w
  {
    exists i :: 0 <= i < |keys| && epochs[i] == w[c] && HasCell(hs, tweak, keys[i], size, c)
  }

  lemma WriterInsert(hs: Hasher, tweak: nat, size: nat, w: map<Cell, nat>, keys: seq<Key>, epochs: seq<nat>,
                     w': map<Cell, nat>, key: Key, e: nat)
    requires size >= 2 && size % 2 == 0 && |keys| == |epochs|
    requires WriterOk(hs, tweak, size, w, keys, epochs) && WritesOnly(hs, tweak, key, size, w, w', e)
    ensures WriterOk(hs, tweak, size, w', keys + [key], epochs + [e])
  {
    var keys', epochs' := keys + [key], epochs + [e];
    forall c | c in w' ensures WrittenBy(hs, tweak, size, w', keys', epochs', c) {
      if c in w && w'[c] == w[c] {
        assert WrittenBy(hs, tweak, size, w, keys, epochs, c);
        var i :| 0 <= i < |keys| && epochs[i] == w[c] && HasCell(hs, tweak, keys[i], size, c);
        assert keys'[i] == keys[i] && epochs'[i] == epochs[i];
      } else {
        assert keys'[|keys|] == key && epochs'[|keys|] == e;
      }
    }
  }

  ghost predicate Later(w: map<Cell, nat>, w': map<Cell, nat>) { forall c :: c in w ==> c in w' && w'[c] >= w[c] }

  // One more cell of a key is written.
  lemma WriteStep(hs: Hasher, tweak: nat, key: Key, size: nat, w: map<Cell, nat>, w': map<Cell, nat>, e: nat, n: nat)
    requires size >= 2 && size % 2 == 0 && n < hs.nHashFuncs && Later(w, w') && forall c :: c in w' ==> w'[c] <= e
    requires Covered(hs, tweak, key, size, w', e, n) && WritesOnly(hs, tweak, key, size, w, w', e)
    ensures var w'' := w'[hs.CellOf(n, tweak, key, size) := e];
            && Later(w, w'') && Covered(hs, tweak, key, size, w'', e, n + 1)
            && WritesOnly(hs, tweak, key, size, w, w'', e)
  {
    assert HasCell(hs, tweak, key, size, hs.CellOf(n, tweak, key, size));
  }

  lemma CoveredLater(hs: Hasher, tweak: nat, key: Key, size: nat, w: map<Cell, nat>, w': map<Cell, nat>, e: int, n: nat)
    requires size >= 2 && size % 2 == 0 && Later(w, w') && Covered(hs, tweak, key, size, w, e, n)
    ensures Covered(hs, tweak, key, size, w', e, n)
  {
  }

  // ---- Which keys are recent ----

  /** The generation of each insertion: so many per generation. */
  ghost predicate EpochsOk(epochs: seq<nat>, epoch: nat, perGen: nat, current: nat) {
    && |epochs| == epoch * perGen + current && current <= perGen
    && (forall i :: 0 <= i < |epochs| ==>
        epochs[i] <= epoch && epochs[i] * perGen <= i < (epochs[i] + 1) * perGen)
  }

  lemma EpochsInsert(epochs: seq<nat>, epoch: nat, perGen: nat, current: nat)
    requires EpochsOk(epochs, epoch, perGen, current) && perGen >= 1
    ensures if current == perGen then EpochsOk(epochs + [epoch + 1], epoch + 1, perGen, 1)
            else EpochsOk(epochs + [epoch], epoch, perGen, current + 1)
  {
    assert (epoch + 1) * perGen == epoch * perGen + perGen;
    assert (epoch + 2) * perGen == epoch * perGen + perGen + perGen;
  }

  /** The last two full generations and the current one reach back this far. */
  lemma RecentEpoch(epochs: seq<nat>, epoch: nat, perGen: nat, current: nat, i: nat)
    requires EpochsOk(epochs, epoch, perGen, current) && i < |epochs| && |epochs| - i <= 2 * perGen + current
    ensures epochs[i] + 2 >= epoch
  {
    assert (epoch - 2) * perGen == epoch * perGen - 2 * perGen;
    if epochs[i] + 1 <= epoch - 2 { Monotone(epochs[i] + 1, epoch - 2, perGen); }
  }

  /** And no further. */
  lemma RecentOnly(epochs: seq<nat>, epoch: nat, perGen: nat, current: nat, i: nat)
    requires EpochsOk(epochs, epoch, perGen, current) && i < |epochs| && epochs[i] + 2 >= epoch
    ensures |epochs| - i <= 2 * perGen + current
  {
    assert (epoch - 2) * perGen == epoch * perGen - 2 * perGen;
    if epoch >= 2 { Monotone(epoch - 2, epochs[i], perGen); }
  }

  lemma Monotone(a: nat, b: nat, n: nat)
    requires a <= b
    ensures a * n <= b * n
  {
  }

  class RollingBloomFilter {
    const hs: Hasher
    const nEntriesPerGeneration: nat
    const data: array<Word>
    var nEntriesThisGeneration: nat
    var nGeneration: nat
    var nTweak: nat
    /** The keys inserted since the last reset, the generation of each, and the last writer of each cell. */
    ghost var history: seq<Key>
    ghost var epochs: seq<nat>
    ghost var epoch: nat
    ghost var writer: map<Cell, nat>

    ghost predicate Valid()
      reads this, data
    {
      && data.Length >= 2 && nEntriesPerGeneration >= 1 && nGeneration == GenerationOf(epoch)
      && CellsOk(data[..], writer, epoch) && |history| == |epochs|
      && EpochsOk(epochs, epoch, nEntriesPerGeneration, nEntriesThisGeneration)
      && HistoryOk(history, epochs) && WriterOk(hs, nTweak, data.Length, writer, history, epochs)
    }

    ghost predicate HistoryOk(keys: seq<Key>, es: seq<nat>)
      requires data.Length >= 2 && data.Length % 2 == 0 && |keys| == |es|
      reads this
    {
      forall i :: 0 <= i < |keys| ==> Covered(hs, nTweak, keys[i], data.Length, writer, es[i], hs.nHashFuncs)
    }

    /** A filter for so many recent elements; the number of words comes from the wanted error rate. */
    constructor (hasher: Hasher, nElements: nat, nWords: nat, tweak: nat)
      requires nElements >= 1 && nWords >= 2 && nWords % 2 == 0
      ensures Valid() && fresh(data) && history == [] && nElements <= 2 * nEntriesPerGeneration <= nElements + 1
    {
      hs, nEntriesPerGeneration := hasher, (nElements + 1) / 2;
      data := new Word[nWords](_ => Zero());
      nEntriesThisGeneration, nGeneration, nTweak := 0, 1, tweak;
      history, epochs, epoch, writer := [], [], 0, map[];
      new;
      assert forall k :: 0 <= k < 64 ==> !Zero()[k];
    }

    method Reset(tweak: nat)
      requires Valid()
      modifies this, data
      ensures Valid() && history == [] && nTweak == tweak
    {
      for i := 0 to data.Length
        invariant forall j :: 0 <= j < i ==> data[j] == Zero()
        modifies data
      {
        data[i] := Zero();
      }
      nEntriesThisGeneration, nGeneration, nTweak := 0, 1, tweak;
      history, epochs, epoch, writer := [], [], 0, map[];
      assert forall k :: 0 <= k < 64 ==> !Zero()[k];
    }

    // Wipe the cells of a generation number.
    method Wipe(g: nat)
      requires data.Length % 2 == 0
      modifies data
      ensures forall p: nat :: 2 * p + 1 < data.Length ==> WipedPair(old(data[..]), data[..], p, g)
    {
      for p := 0 to data.Length / 2
        invariant forall q: nat :: q < p ==> WipedPair(old(data[..]), data[..], q, g)
        invariant forall i :: 2 * p <= i < data.Length ==> data[i] == old(data[i])
      {
        ghost var before := data[..];
        var p1, p2 := data[2 * p], data[2 * p + 1];
        var mask := KeepMask(p1, p2, g);
        data[2 * p] := And(p1, mask);
        data[2 * p + 1] := And(p2, mask);
        forall q: nat | q < p + 1 ensures WipedPair(old(data[..]), data[..], q, g) {
          if q < p {
            assert WipedPair(old(data[..]), before, q, g);
            assert data[..][2 * q] == before[2 * q] && data[..][2 * q + 1] == before[2 * q + 1];
          }
        }
      }
    }

    // Write the current generation into a cell.
    method SetCell(c: Cell)
      requires data.Length >= 2 && CellsOk(data[..], writer, epoch) && 2 * c.pair + 1 < data.Length && c.bit < 64
      requires nGeneration == GenerationOf(epoch)
      modifies data, this`writer
      ensures CellsOk(data[..], writer, epoch) && writer == old(writer)[c := epoch]
    {
      ghost var before := data[..];
      data[2 * c.pair] := WithBit(data[2 * c.pair], c.bit, Low(nGeneration));
      data[2 * c.pair + 1] := WithBit(data[2 * c.pair + 1], c.bit, High(nGeneration));
      SetCellOk(before, data[..], writer, epoch, c);
      writer := writer[c := epoch];
    }

    // Write the current generation into all cells of a key.
    method SetAll(key: Key)
      requires data.Length >= 2 && CellsOk(data[..], writer, epoch) && nGeneration == GenerationOf(epoch)
      modifies data, this`writer
      ensures CellsOk(data[..], writer, epoch) && Later(old(writer), writer)
      ensures Covered(hs, nTweak, key, data.Length, writer, epoch, hs.nHashFuncs)
      ensures WritesOnly(hs, nTweak, key, data.Length, old(writer), writer, epoch)
    {
      for n := 0 to hs.nHashFuncs
        invariant CellsOk(data[..], writer, epoch) && Later(old(writer), writer)
        invariant Covered(hs, nTweak, key, data.Length, writer, epoch, n)
        invariant WritesOnly(hs, nTweak, key, data.Length, old(writer), writer, epoch)
      {
        WriteStep(hs, nTweak, key, data.Length, old(writer), writer, epoch, n);
        SetCell(hs.CellOf(n, nTweak, key, data.Length));
      }
    }

    /** Insert a key; a full generation gives way to the next. */
    method Insert(key: Key)
      requires Valid()
      modifies this, data
      ensures Valid() && history == old(history) + [key] && nTweak == old(nTweak)
    {
      ghost var before := writer;
      NextIfFull();
      nEntriesThisGeneration := nEntriesThisGeneration + 1;
      SetAll(key);
      forall i | 0 <= i < |history|
        ensures Covered(hs, nTweak, history[i], data.Length, writer, epochs[i], hs.nHashFuncs)
      {
        CoveredLater(hs, nTweak, history[i], data.Length, before, writer, epochs[i], hs.nHashFuncs);
      }
      WriterInsert(hs, nTweak, data.Length, before, history, epochs, writer, key, epoch);
      history, epochs := history + [key], epochs + [epoch];
    }

    /** Inserted among the keys of the last two full generations and the current one. */
    ghost predicate Recent(i: nat)
      reads this
    {
      i < |history| && |history| - i <= 2 * nEntriesPerGeneration + nEntriesThisGeneration
    }

    /** A cell belongs to some recent key. */
    ghost predicate Marked(c: Cell)
      requires data.Length >= 2 && data.Length % 2 == 0
      reads this
    {
      exists i: nat :: Recent(i) && HasCell(hs, nTweak, history[i], data.Length, c)
    }

    /** The cells last written in the last three generations are those of the recent keys. */
    lemma MarkedIff(c: Cell)
      requires Valid()
      ensures Marked(c) <==> c in writer && writer[c] >= epoch - 2
    {
      if c in writer && writer[c] >= epoch - 2 {
        assert WrittenBy(hs, nTweak, data.Length, writer, history, epochs, c);
        var i :| 0 <= i < |history| && epochs[i] == writer[c] && HasCell(hs, nTweak, history[i], data.Length, c);
        RecentOnly(epochs, epoch, nEntriesPerGeneration, nEntriesThisGeneration, i);
        assert Recent(i);
      }
      if Marked(c) {
        var i: nat :| Recent(i) && HasCell(hs, nTweak, history[i], data.Length, c);
        RecentEpoch(epochs, epoch, nEntriesPerGeneration, nEntriesThisGeneration, i);
        assert Covered(hs, nTweak, history[i], data.Length, writer, epochs[i], hs.nHashFuncs);
      }
    }

    /**
     Whether a key may have been inserted: just if each of its cells is one of a key inserted recently. So
     every recent key is found, and a key with a cell of its own is not.
     */
    method Contains(key: Key) returns (r: bool)
      requires Valid()
      ensures r <==> forall n: nat :: n < hs.nHashFuncs ==> Marked(hs.CellOf(n, nTweak, key, data.Length))
      ensures forall i: nat :: Recent(i) && history[i] == key ==> r
    {
      for n := 0 to hs.nHashFuncs
        invariant forall m: nat :: m < n ==> Marked(hs.CellOf(m, nTweak, key, data.Length))
      {
        var c := hs.CellOf(n, nTweak, key, data.Length);
        assert Number(data[..][2 * c.pair], data[..][2 * c.pair + 1], c.bit) == Expected(writer, epoch, c);
        MarkedIff(c);
        if !Or(data[2 * c.pair], data[2 * c.pair + 1])[c.bit] {
          r := false;
          RecentMarked(key, n);
          return;
        }
      }
      r := true;
    }

    // All cells of a recent key are marked.
    lemma RecentMarked(key: Key, n: nat)
      requires data.Length >= 2 && data.Length % 2 == 0 && n < hs.nHashFuncs
      ensures forall i: nat :: Recent(i) && history[i] == key ==> Marked(hs.CellOf(n, nTweak, key, data.Length))
    {
      assert HasCell(hs, nTweak, key, data.Length, hs.CellOf(n, nTweak, key, data.Length));
    }

    // Start the next generation when the current one is full.
    method NextIfFull()
      requires Valid()
      modifies this`nEntriesThisGeneration, this`nGeneration, this`epoch, data
      ensures nGeneration == GenerationOf(epoch) && CellsOk(data[..], writer, epoch)
      ensures epoch >= old(epoch) &&
              EpochsOk(epochs + [epoch], epoch, nEntriesPerGeneration, nEntriesThisGeneration + 1)
    {
      EpochsInsert(epochs, epoch, nEntriesPerGeneration, nEntriesThisGeneration);
      if nEntriesThisGeneration == nEntriesPerGeneration {
        nEntriesThisGeneration := 0;
        NextGeneration();
      }
    }

    method NextGeneration()
      requires nGeneration == GenerationOf(epoch) && CellsOk(data[..], writer, epoch)
      modifies this`nGeneration, this`epoch, data
      ensures nGeneration == GenerationOf(epoch) && CellsOk(data[..], writer, epoch) && epoch == old(epoch) + 1
    {
      nGeneration := nGeneration + 1;
      if nGeneration == 4 { nGeneration := 1; }
      ghost var before := data[..];
      Wipe(nGeneration);
      NextGenerationOk(before, data[..], writer, epoch);
      epoch := epoch + 1;
    }
  }
}
