/**
 The block index and the active chain (src/chain.h, src/chain.cpp): skip links, incremental tip
 changes, forks and locators, each against the plain walk along parent links.
 */
module Chain {

  // ---- Skip heights ----

  /** Bitwise and. */
  function And(a: nat, b: nat): (r: nat)
    ensures r <= a && r <= b
  {
    if a == 0 || b == 0 then 0 else (a % 2) * (b % 2) + 2 * And(a / 2, b / 2)
  }

  /** Turn the lowest one bit of a number into a zero. */
  function InvertLowestOne(n: nat): (r: nat)
    ensures n > 0 ==> r < n
  {
    if n == 0 then 0 else And(n, n - 1)
  }

  /** The value of the lowest one bit. */
  function LowestOne(n: nat): (b: nat)
    requires n > 0
    ensures 0 < b <= n
  {
    if n % 2 == 1 then 1 else 2 * LowestOne(n / 2)
  }

  lemma {:induction false} AndSelf(n: nat)
    ensures And(n, n) == n
  {
    if n > 0 { AndSelf(n / 2); }
  }

  /** Exactly the lowest one bit is taken off. */
  lemma {:induction false} LowestOneInverted(n: nat)
    requires n > 0
    ensures InvertLowestOne(n) == n - LowestOne(n)
  {
    if n % 2 == 1 {
      assert (n - 1) / 2 == n / 2 && (n - 1) % 2 == 0;
      AndSelf(n / 2);
    } else {
      assert (n - 1) / 2 == n / 2 - 1;
      LowestOneInverted(n / 2);
    }
  }

  /** Compute what height to jump back to with the skip link. */
  function GetSkipHeight(height: nat): (r: nat)
    ensures height > 0 ==> r < height
  {
    if height < 2 then 0
    else if height % 2 == 1 then InvertLowestOne(InvertLowestOne(height - 1)) + 1
    else InvertLowestOne(height)
  }

  /** An even height loses its lowest one bit, an odd one its second and third lowest. */
  lemma SkipHeightIs(height: nat)
    requires height >= 2
    ensures GetSkipHeight(height) ==
            if height % 2 == 0 then height - LowestOne(height)
            else
              var rest := height - 1 - LowestOne(height - 1);
              if rest == 0 then 1 else rest - LowestOne(rest) + 1
  {
    if height % 2 == 0 {
      LowestOneInverted(height);
    } else {
      LowestOneInverted(height - 1);
      var rest := height - 1 - LowestOne(height - 1);
      if rest > 0 { LowestOneInverted(rest); }
    }
  }

  // ---- Blocks and their ancestors ----

  class BlockIndex {
    const pprev: BlockIndex?
    const nHeight: nat
    const hash: nat
    var pskip: BlockIndex?

    constructor (prev: BlockIndex?, blockHash: nat)
      ensures pprev == prev && nHeight == (if prev == null then 0 else prev.nHeight + 1) && hash == blockHash &&
              pskip == null
      ensures prev != null && Linked(prev) ==> Linked(this)
      ensures prev == null ==> Linked(this)
    {
      pprev, hash, pskip := prev, blockHash, null;
      nHeight := if prev == null then 0 else prev.nHeight + 1;
    }

    /** The ancestor at a height, through skip links where they help. */
    method GetAncestor(height: int, ghost tree: set<BlockIndex>) returns (r: BlockIndex?)
      requires Built(tree) && this in tree
      ensures r == if 0 <= height <= nHeight then Ancestor(this, height) else null
    {
      if height > nHeight || height < 0 { return null; }
      var walk: BlockIndex := this;
      var heightWalk := nHeight;
      while heightWalk > height
        invariant walk in tree && walk.nHeight == heightWalk >= height &&
                  Ancestor(walk, height) == Ancestor(this, height)
        decreases heightWalk
      {
        var heightSkip := GetSkipHeight(heightWalk);
        var heightSkipPrev := GetSkipHeight(heightWalk - 1);
        assert Linked(walk) && SkipOk(walk);
        if walk.pskip != null &&
           (heightSkip == height ||
            (heightSkip > height && !(heightSkipPrev < heightSkip - 2 && heightSkipPrev >= height))) {
          AncestorOfAncestor(walk, heightSkip, height);
          AncestorIn(walk, heightSkip, tree);
          walk := walk.pskip;
          heightWalk := heightSkip;
        } else {
          walk := walk.pprev;
          heightWalk := heightWalk - 1;
        }
      }
      r := walk;
    }

    /** Build the skip link of a block whose parent is in the tree. */
    method BuildSkip(ghost tree: set<BlockIndex>)
      requires Built(tree) && Linked(this) && SkipOk(this) && (pprev != null ==> pprev in tree)
      modifies this`pskip
      ensures Built(tree + {this})
      ensures pprev != null ==> pskip == Ancestor(this, GetSkipHeight(nHeight))
    {
      if pprev != null {
        pskip := pprev.GetAncestor(GetSkipHeight(nHeight), tree);
      }
    }
  }

  /** Heights count the parent links. */
  ghost predicate Linked(b: BlockIndex)
    decreases b.nHeight
  {
    if b.pprev == null then b.nHeight == 0 else b.nHeight == b.pprev.nHeight + 1 && Linked(b.pprev)
  }

  /** The ancestor at a height, by parent links. */
  ghost function Ancestor(b: BlockIndex, height: nat): (r: BlockIndex)
    requires Linked(b) && height <= b.nHeight
    ensures Linked(r) && r.nHeight == height
    decreases b.nHeight
  {
    if height == b.nHeight then b else Ancestor(b.pprev, height)
  }

  lemma {:induction false} AncestorOfAncestor(b: BlockIndex, k: nat, height: nat)
    requires Linked(b) && height <= k <= b.nHeight
    ensures Ancestor(Ancestor(b, k), height) == Ancestor(b, height)
    decreases b.nHeight
  {
    if k < b.nHeight { AncestorOfAncestor(b.pprev, k, height); }
  }

  lemma AncestorPrev(b: BlockIndex, height: nat)
    requires Linked(b) && height <= b.nHeight
    ensures Ancestor(b, height).pprev == if height == 0 then null else Ancestor(b, height - 1)
  {
    if height > 0 { AncestorOfAncestor(b, height, height - 1); }
  }

  ghost predicate SkipOk(b: BlockIndex)
    requires Linked(b)
    reads b
  {
    b.pskip == null || (b.nHeight > 0 && b.pskip == Ancestor(b, GetSkipHeight(b.nHeight)))
  }

  /** A set of blocks with their ancestors, whose skip links lead where they should. */
  ghost predicate Built(tree: set<BlockIndex>)
    reads tree
  {
    forall b :: b in tree ==> Linked(b) && SkipOk(b) && (b.pprev != null ==> b.pprev in tree)
  }

  lemma {:induction false} AncestorIn(b: BlockIndex, height: nat, tree: set<BlockIndex>)
    requires Built(tree) && b in tree && Linked(b) && height <= b.nHeight
    ensures Ancestor(b, height) in tree
    decreases b.nHeight
  {
    if height < b.nHeight { AncestorIn(b.pprev, height, tree); }
  }

  // ---- The active chain ----

  /** All ancestors of a block, by height. */
  ghost function FullChain(b: BlockIndex): (c: seq<BlockIndex?>)
    requires Linked(b)
    ensures |c| == b.nHeight + 1 && forall h :: 0 <= h < |c| ==> c[h] == Ancestor(b, h)
  {
    seq(b.nHeight + 1, h requires 0 <= h <= b.nHeight => Ancestor(b, h))
  }

  /** The blocks on two branches that the two have in common are those up to some height. */
  lemma {:induction false} SharedBelow(a: BlockIndex, b: BlockIndex, k: nat, height: nat)
    requires Linked(a) && Linked(b) && height <= k <= a.nHeight && k <= b.nHeight && Ancestor(a, k) == Ancestor(b, k)
    ensures Ancestor(a, height) == Ancestor(b, height)
  {
    AncestorOfAncestor(a, k, height);
    AncestorOfAncestor(b, k, height);
  }

  function Resized(s: seq<BlockIndex?>, n: nat): (r: seq<BlockIndex?>)
    ensures |r| == n && forall h :: 0 <= h < n ==> r[h] == if h < |s| then s[h] else null
  {
    seq(n, h requires 0 <= h < n => if h < |s| then s[h] else null)
  }

  // ---- Locators ----

  /** The distance to the entry after the n-th one: one for ten entries, then doubling. */
  function StepAt(n: nat): (r: nat)
    ensures r > 0
  {
    if n <= 11 then 1 else 2 * StepAt(n - 1)
  }

  /** How far below the start the entry after the n-th one is. */
  function Descent(n: nat): (r: nat)
    ensures r >= n
  {
    if n == 0 then 0 else Descent(n - 1) + StepAt(n)
  }

  lemma {:induction false} DescentClosed(n: nat)
    requires n >= 11
    ensures Descent(n) == 2 * StepAt(n) + 9
  {
    if n > 11 {
      DescentClosed(n - 1);
    } else {
      assert Descent(5) == 5 && Descent(8) == 8;
    }
  }

  lemma {:induction false} DescentGrows(k: nat, n: nat)
    requires k <= n
    ensures Descent(k) <= Descent(n)
  {
    if k < n { DescentGrows(k, n - 1); }
  }

  /** Forty-one entries reach past every 31-bit height. */
  lemma FarEnough(n: nat)
    requires Descent(n) < 0x8000_0000
    ensures n <= 40
  {
    DescentClosed(41);
    StepForty();
    if n > 40 { DescentGrows(41, n); }
  }

  lemma StepForty()
    ensures StepAt(41) == 0x4000_0000
  {
    assert StepAt(13) == 4;
    assert StepAt(15) == 16;
    assert StepAt(17) == 0x40;
    assert StepAt(19) == 0x100;
    assert StepAt(21) == 0x400;
    assert StepAt(23) == 0x1000;
    assert StepAt(25) == 0x4000;
    assert StepAt(27) == 0x1_0000;
    assert StepAt(29) == 0x4_0000;
    assert StepAt(31) == 0x10_0000;
    assert StepAt(33) == 0x40_0000;
    assert StepAt(35) == 0x100_0000;
    assert StepAt(37) == 0x400_0000;
    assert StepAt(39) == 0x1000_0000;
  }

  function Max(a: int, b: int): int { if a < b then b else a }

  /** The first entries of a locator: exponentially spaced ancestors, genesis only at the end. */
  ghost predicate LocatorTo(v: seq<BlockIndex>, start: BlockIndex)
    requires Linked(start)
  {
    && (forall k :: 0 <= k < |v| ==> v[k] == Ancestor(start, Max(start.nHeight - Descent(k), 0)))
    && (forall k :: 0 <= k < |v| - 1 ==> v[k].nHeight > 0)
  }

  ghost predicate IsLocator(v: seq<BlockIndex>, start: BlockIndex)
    requires Linked(start)
  {
    |v| > 0 && v[|v| - 1].nHeight == 0 && LocatorTo(v, start)
  }

  lemma LocatorStep(v: seq<BlockIndex>, start: BlockIndex)
    requires Linked(start) && |v| > 0 && LocatorTo(v, start) && v[|v| - 1].nHeight > 0
    ensures var last := v[|v| - 1];
            && Linked(last) && last == Ancestor(start, last.nHeight)
            && LocatorTo(v + [Ancestor(last, Max(last.nHeight - StepAt(|v|), 0))], start)
  {
    var last := v[|v| - 1];
    AncestorOfAncestor(start, last.nHeight, Max(last.nHeight - StepAt(|v|), 0));
    assert Descent(|v|) == Descent(|v| - 1) + StepAt(|v|);
  }

  /** Heights strictly decrease from the start to genesis, and there are at most 42 below height 2^31. */
  lemma LocatorShape(v: seq<BlockIndex>, start: BlockIndex)
    requires Linked(start) && IsLocator(v, start)
    ensures v[0] == start && forall i, j :: 0 <= i < j < |v| ==> v[j].nHeight < v[i].nHeight
    ensures start.nHeight < 0x8000_0000 ==> |v| <= 42
  {
    forall i, j | 0 <= i < j < |v| ensures v[j].nHeight < v[i].nHeight { DescentStrict(i, j); }
    if |v| >= 2 {
      assert v[|v| - 2].nHeight > 0;
      if start.nHeight < 0x8000_0000 { FarEnough(|v| - 2); }
    }
  }

  lemma {:induction false} DescentStrict(i: nat, j: nat)
    requires i < j
    ensures Descent(i) < Descent(j)
  {
    DescentGrows(i, j - 1);
  }

  // ---- Forks ----

  /** Two branches differ at every height above `h` that both reach. */
  ghost predicate ApartAbove(a: BlockIndex, b: BlockIndex, h: int)
    requires Linked(a) && Linked(b)
  {
    forall k: nat :: h < k <= a.nHeight && k <= b.nHeight ==> Ancestor(a, k) != Ancestor(b, k)
  }

  lemma ApartStep(a: BlockIndex, b: BlockIndex, h: nat)
    requires Linked(a) && Linked(b) && ApartAbove(a, b, h) && h <= a.nHeight && h <= b.nHeight
    requires Ancestor(a, h) != Ancestor(b, h)
    ensures ApartAbove(a, b, h - 1)
  {
  }

  /** The highest block two branches share, or null if they share none. */
  ghost predicate IsForkOf(r: BlockIndex?, a: BlockIndex, b: BlockIndex)
    requires Linked(a) && Linked(b)
  {
    if r == null then ApartAbove(a, b, -1)
    else
      && r.nHeight <= a.nHeight && r.nHeight <= b.nHeight && r == Ancestor(a, r.nHeight) == Ancestor(b, r.nHeight)
      && ApartAbove(a, b, r.nHeight)
  }

  // The ancestor at a height, or null below genesis.
  ghost function Below(b: BlockIndex, h: int): (r: BlockIndex?)
    requires Linked(b) && h <= b.nHeight
    ensures h >= 0 ==> r != null && r.nHeight == h
  {
    if h < 0 then null else Ancestor(b, h)
  }

  lemma ForkAt(a: BlockIndex, b: BlockIndex, h: int)
    requires Linked(a) && Linked(b) && -1 <= h <= a.nHeight && h <= b.nHeight && ApartAbove(a, b, h) &&
             Below(a, h) == Below(b, h)
    ensures IsForkOf(Below(a, h), a, b)
  {
  }

  // One step up along both branches that still differ.
  lemma ForkStep(a: BlockIndex, b: BlockIndex, h: int)
    requires Linked(a) && Linked(b) && 0 <= h <= a.nHeight && h <= b.nHeight && ApartAbove(a, b, h) &&
             Below(a, h) != Below(b, h)
    ensures Below(a, h).pprev == Below(a, h - 1) && Below(b, h).pprev == Below(b, h - 1) && ApartAbove(a, b, h - 1)
  {
    AncestorPrev(a, h);
    AncestorPrev(b, h);
    ApartStep(a, b, h);
  }

  /** Find the last common ancestor two blocks have; the final assertion holds even without one. */
  method LastCommonAncestor(a: BlockIndex, b: BlockIndex, ghost tree: set<BlockIndex>) returns (r: BlockIndex?)
    requires Built(tree) && a in tree && b in tree
    ensures Linked(a) && Linked(b) && IsForkOf(r, a, b)
  {
    var pa: BlockIndex?, pb: BlockIndex? := a, b;
    assert Linked(a) && Linked(b);
    if a.nHeight > b.nHeight {
      pa := a.GetAncestor(b.nHeight, tree);
    } else if b.nHeight > a.nHeight {
      pb := b.GetAncestor(a.nHeight, tree);
    }
    ghost var h: int := if a.nHeight < b.nHeight then a.nHeight else b.nHeight;
    while pa != pb && pa != null && pb != null
      invariant -1 <= h <= a.nHeight && h <= b.nHeight
      invariant pa == Below(a, h) && pb == Below(b, h) && ApartAbove(a, b, h)
      decreases h
    {
      ForkStep(a, b, h);
      pa, pb := pa.pprev, pb.pprev;
      h := h - 1;
    }
    assert pa == pb;
    ForkAt(a, b, h);
    r := pa;
  }

  class ActiveChain {
    var vChain: seq<BlockIndex?>

    /** The chain is the whole branch of its tip. */
    ghost predicate Valid()
      reads this
    {
      vChain == [] ||
        (vChain[|vChain| - 1] != null && Linked(vChain[|vChain| - 1]) && vChain == FullChain(vChain[|vChain| - 1]))
    }

    constructor ()
      ensures Valid() && vChain == []
    {
      vChain := [];
    }

    function At(height: int): BlockIndex?
      reads this
    {
      if height < 0 || height >= |vChain| then null else vChain[height]
    }

    function Height(): int
      reads this
    {
      |vChain| - 1
    }

    predicate Contains(b: BlockIndex)
      reads this
    {
      At(b.nHeight) == b
    }

    lemma ContainsIff(b: BlockIndex)
      requires Valid() && Linked(b)
      ensures Contains(b) <==> vChain != [] && b.nHeight <= Height() && b == Ancestor(vChain[|vChain| - 1], b.nHeight)
    {
    }

    /** Change the tip, rewriting only from the fork up: the result is the whole branch of the new tip. */
    method SetTip(tip: BlockIndex?)
      requires Valid() && (tip != null ==> Linked(tip))
      modifies this
      ensures Valid() && vChain == if tip == null then [] else FullChain(tip)
    {
      if tip == null {
        vChain := [];
        return;
      }
      ghost var was := vChain;
      vChain := Resized(vChain, tip.nHeight + 1);
      var walk: BlockIndex? := tip;
      ghost var h: int := tip.nHeight;
      while walk != null && vChain[walk.nHeight] != walk
        invariant -1 <= h <= tip.nHeight && |vChain| == tip.nHeight + 1
        invariant if h < 0 then walk == null else walk == Ancestor(tip, h)
        invariant forall k :: h < k <= tip.nHeight ==> vChain[k] == Ancestor(tip, k)
        invariant forall k :: 0 <= k <= h ==> vChain[k] == if k < |was| then was[k] else null
        decreases h
      {
        assert walk == Ancestor(tip, h);
        AncestorPrev(tip, h);
        vChain := vChain[walk.nHeight := walk];
        walk := walk.pprev;
        h := h - 1;
      }
      forall k | 0 <= k <= h ensures vChain[k] == Ancestor(tip, k) {
        SharedBelow(tip, was[|was| - 1], h, k);
      }
      assert vChain == FullChain(tip);
    }

    // A block off the chain: both branches still differ at its height.
    lemma NotContained(b: BlockIndex, h: nat)
      requires Valid() && vChain != [] && Linked(b) && h <= b.nHeight && h <= Height() && !Contains(Ancestor(b, h))
      requires ApartAbove(vChain[|vChain| - 1], b, h)
      ensures ApartAbove(vChain[|vChain| - 1], b, h - 1) && Below(b, h).pprev == Below(b, h - 1)
    {
      ContainsIff(Ancestor(b, h));
      ForkStep(vChain[|vChain| - 1], b, h);
    }

    /** Find the last common block between this chain and a block. */
    method FindFork(b: BlockIndex?, ghost tree: set<BlockIndex>) returns (r: BlockIndex?)
      requires Valid() && Built(tree) && (b != null ==> b in tree)
      ensures b != null ==> Linked(b)
      ensures b == null || vChain == [] ==> r == null
      ensures b != null && vChain != [] ==> IsForkOf(r, vChain[|vChain| - 1], b)
    {
      if b == null { return null; }
      assert Linked(b);
      var walk: BlockIndex? := b;
      if b.nHeight > Height() {
        walk := b.GetAncestor(Height(), tree);
      }
      r := WalkToChain(b, walk, if b.nHeight > Height() then Height() else b.nHeight);
    }

    // Walk back from an ancestor of a block to the chain.
    method WalkToChain(b: BlockIndex, start: BlockIndex?, ghost from: int) returns (walk: BlockIndex?)
      requires Valid() && Linked(b) && -1 <= from <= Height() && from <= b.nHeight && start == Below(b, from)
      requires vChain != [] ==> ApartAbove(vChain[|vChain| - 1], b, from)
      ensures vChain == [] ==> walk == null
      ensures vChain != [] ==> IsForkOf(walk, vChain[|vChain| - 1], b)
    {
      walk := start;
      ghost var h := from;
      while walk != null && !Contains(walk)
        invariant -1 <= h <= Height() && h <= b.nHeight && walk == Below(b, h)
        invariant vChain != [] ==> ApartAbove(vChain[|vChain| - 1], b, h)
        decreases h
      {
        NotContained(b, h);
        walk := walk.pprev;
        h := h - 1;
      }
      if walk != null { ContainsIff(walk); }
      if vChain != [] { ForkAt(vChain[|vChain| - 1], b, h); }
    }

    // An ancestor, looked up by height where the chain has the block.
    method LookBack(walk: BlockIndex, height: nat, ghost tree: set<BlockIndex>) returns (r: BlockIndex)
      requires Valid() && Built(tree) && walk in tree && Linked(walk) && height <= walk.nHeight
      ensures r == Ancestor(walk, height)
    {
      if Contains(walk) {
        ContainsIff(walk);
        AncestorOfAncestor(vChain[|vChain| - 1], walk.nHeight, height);
        r := At(height);
      } else {
        r := walk.GetAncestor(height, tree);
      }
    }

    // One step back: the next entry and the next step.
    method LocateNext(v: seq<BlockIndex>, start: BlockIndex, nStep: nat, ghost tree: set<BlockIndex>)
      returns (r: BlockIndex, next: nat)
      requires Valid() && Built(tree) && start in tree && Linked(start)
      requires |v| > 0 && LocatorTo(v, start) && v[|v| - 1].nHeight > 0 && nStep == StepAt(|v|)
      ensures r.nHeight < v[|v| - 1].nHeight && next == StepAt(|v| + 1) && LocatorTo(v + [r], start)
    {
      var walk := v[|v| - 1];
      LocatorStep(v, start);
      AncestorIn(start, walk.nHeight, tree);
      r := LookBack(walk, Max(walk.nHeight - nStep, 0), tree);
      next := if |v| > 10 then nStep * 2 else nStep;
    }

    /** Describe a block, or by default the tip, to a peer. */
    method GetLocator(b: BlockIndex?, ghost tree: set<BlockIndex>) returns (v: seq<BlockIndex>)
      requires Valid() && Built(tree) && (b != null ==> b in tree) && (vChain != [] ==> vChain[|vChain| - 1] in tree)
      ensures var start := if b == null then At(Height()) else b;
              if start == null then v == [] else Linked(start) && IsLocator(v, start)
    {
      var start := if b == null then At(Height()) else b;
      if start == null { return []; }
      assert Linked(start);
      var walk, nStep := start, 1;
      v := [walk];
      assert LocatorTo(v, start);
      while walk.nHeight != 0
        invariant |v| > 0 && v[|v| - 1] == walk && nStep == StepAt(|v|) && LocatorTo(v, start)
        decreases walk.nHeight
      {
        walk, nStep := LocateNext(v, start, nStep, tree);
        v := v + [walk];
      }
    }
  }
}
