/**
 The merkle tree over a list of transaction ids, the depth-first encoding of a partial tree, and the
 walk that decodes it (src/merkleblock.cpp). The pair hash is a parameter.
 */
module MerkleSpec {
  import opened Powers

  type Hash = nat
  const NULL_HASH: Hash := 0

  type PairHash = (Hash, Hash) -> Hash

  ghost predicate Injective(H: PairHash) {
    forall a, b, c, d :: H(a, b) == H(c, d) ==> a == c && b == d
  }

  predicate Distinct(txids: seq<Hash>) {
    forall i, j :: 0 <= i < j < |txids| ==> txids[i] != txids[j]
  }

  /** Number of nodes at a height: each level halves the one below, rounding up. */
  function Width(n: nat, h: nat): nat {
    if h == 0 then n else (Width(n, h - 1) + 1) / 2
  }

  lemma CeilHalf(n: nat, p: nat)
    requires p >= 1
    ensures (n + 2 * p - 1) / (2 * p) == ((n + p - 1) / p + 1) / 2
  {
    var c := (n + p - 1) / p;
    var d := (c + 1) / 2;
    QuotientBounds(n + p - 1, p);
    TwiceHalf(c, d, p);
    DivUnique(n + 2 * p - 1, 2 * p, d);
  }

  lemma QuotientBounds(a: nat, p: nat)
    requires p >= 1
    ensures (a / p) * p <= a < (a / p) * p + p
  {
  }

  lemma TwiceHalf(c: nat, d: nat, p: nat)
    requires c == 2 * d || c == 2 * d - 1
    ensures d * (2 * p) == if c == 2 * d then c * p else c * p + p
  {
    assert d * (2 * p) == (2 * d) * p;
  }

  /** The closed form used by CalcTreeWidth. */
  lemma {:induction false} WidthClosedForm(n: nat, h: nat)
    ensures Width(n, h) == (n + Pow2(h) - 1) / Pow2(h)
  {
    if h > 0 {
      WidthClosedForm(n, h - 1);
      var p := Pow2(h - 1);
      CeilHalf(n, p);
      assert Width(n, h - 1) == (n + p - 1) / p && Pow2(h) == 2 * p;
    }
  }

  /** A subtree of the merkle tree: a txid position, or a node with one or two children. */
  datatype Tree = Leaf(index: nat) | Single(child: Tree) | Node(left: Tree, right: Tree)

  /** The subtree at a height and position of the tree over `n` leaves. */
  function Shape(n: nat, h: nat, pos: nat): Tree {
    if h == 0 then Leaf(pos)
    else if 2 * pos + 1 < Width(n, h - 1) then Node(Shape(n, h - 1, 2 * pos), Shape(n, h - 1, 2 * pos + 1))
    else Single(Shape(n, h - 1, 2 * pos))
  }

  /** The leaves below a subtree are [First, End). */
  function First(t: Tree): nat {
    match t
    case Leaf(i) => i
    case Single(c) => First(c)
    case Node(l, _) => First(l)
  }

  function End(t: Tree): nat {
    match t
    case Leaf(i) => i + 1
    case Single(c) => End(c)
    case Node(_, r) => End(r)
  }

  /** All leaves are `h` levels down, and a right child starts where the left one ends. */
  predicate Balanced(t: Tree, h: nat) {
    match t
    case Leaf(_) => h == 0
    case Single(c) => h > 0 && Balanced(c, h - 1)
    case Node(l, r) => h > 0 && Balanced(l, h - 1) && Balanced(r, h - 1) && End(l) == First(r)
  }

  lemma {:induction false} BalancedNonempty(t: Tree, h: nat)
    requires Balanced(t, h)
    ensures First(t) < End(t)
  {
    match t
    case Leaf(_) =>
    case Single(c) => BalancedNonempty(c, h - 1);
    case Node(l, r) => BalancedNonempty(l, h - 1); BalancedNonempty(r, h - 1);
  }

  /** Neighbouring nodes cover neighbouring leaves, and the last node ends with the last leaf. */
  lemma {:induction false} ShapeBalanced(n: nat, h: nat, pos: nat)
    requires pos < Width(n, h)
    ensures Balanced(Shape(n, h, pos), h)
    ensures End(Shape(n, h, pos)) == if pos + 1 < Width(n, h) then First(Shape(n, h, pos + 1)) else n
    ensures First(Shape(n, h, pos)) < End(Shape(n, h, pos)) <= n
  {
    if h > 0 {
      ShapeBalanced(n, h - 1, 2 * pos);
      if 2 * pos + 1 < Width(n, h - 1) {
        ShapeBalanced(n, h - 1, 2 * pos + 1);
      }
    }
  }

  lemma {:induction false} ShapeFirst(n: nat, h: nat, pos: nat)
    ensures First(Shape(n, h, pos)) == pos * Pow2(h)
  {
    if h > 0 {
      ShapeFirst(n, h - 1, 2 * pos);
      assert pos * (2 * Pow2(h - 1)) == 2 * pos * Pow2(h - 1);
    }
  }

  lemma CeilCovers(n: nat, p: nat, q: nat)
    requires p >= 1 && (n + p - 1) / p <= q
    ensures n <= q * p
  {
    var c := (n + p - 1) / p;
    assert n + p - 1 < c * p + p;
    assert c * p <= q * p;
  }

  /** The loop bounds of the source: leaves below a node, cut off at the end of the list. */
  lemma ShapeLoopBound(n: nat, h: nat, pos: nat)
    requires pos < Width(n, h)
    ensures End(Shape(n, h, pos)) == if (pos + 1) * Pow2(h) < n then (pos + 1) * Pow2(h) else n
  {
    ShapeBalanced(n, h, pos);
    ShapeFirst(n, h, pos + 1);
    WidthClosedForm(n, h);
    if pos + 1 < Width(n, h) {
      ShapeBalanced(n, h, pos + 1);
    } else {
      CeilCovers(n, Pow2(h), pos + 1);
    }
  }

  predicate Fits(t: Tree, n: nat) {
    match t
    case Leaf(i) => i < n
    case Single(c) => Fits(c, n)
    case Node(l, r) => Fits(l, n) && Fits(r, n)
  }

  lemma {:induction false} BalancedFits(t: Tree, h: nat, n: nat)
    requires Balanced(t, h) && End(t) <= n
    ensures Fits(t, n)
  {
    match t
    case Leaf(_) =>
    case Single(c) => BalancedFits(c, h - 1, n);
    case Node(l, r) => BalancedNonempty(r, h - 1); BalancedFits(l, h - 1, n); BalancedFits(r, h - 1, n);
  }

  /** Hash of a node of the full tree; a missing right child repeats the left one. */
  function HashOf(H: PairHash, txids: seq<Hash>, t: Tree): Hash
    requires Fits(t, |txids|)
  {
    match t
    case Leaf(i) => txids[i]
    case Single(c) => var x := HashOf(H, txids, c); H(x, x)
    case Node(l, r) => H(HashOf(H, txids, l), HashOf(H, txids, r))
  }

  /** Some leaf below is selected. */
  predicate Selected(mask: seq<bool>, t: Tree)
    requires Fits(t, |mask|)
  {
    match t
    case Leaf(i) => mask[i]
    case Single(c) => Selected(mask, c)
    case Node(l, r) => Selected(mask, l) || Selected(mask, r)
  }

  /** A matched leaf as reported: its hash and its index. */
  datatype Match = Match(hash: Hash, index: nat)

  /** The selected leaves below, in order. */
  function Matched(txids: seq<Hash>, mask: seq<bool>, t: Tree): seq<Match>
    requires |mask| == |txids| && Fits(t, |txids|)
  {
    match t
    case Leaf(i) => if mask[i] then [Match(txids[i], i)] else []
    case Single(c) => Matched(txids, mask, c)
    case Node(l, r) => Matched(txids, mask, l) + Matched(txids, mask, r)
  }

  datatype Encoding = Encoding(bits: seq<bool>, hashes: seq<Hash>)

  /** What TraverseAndBuild appends for a subtree. */
  function Encode(H: PairHash, txids: seq<Hash>, mask: seq<bool>, t: Tree): Encoding
    requires |mask| == |txids| && Fits(t, |txids|)
  {
    if t.Leaf? || !Selected(mask, t) then
      Encoding([Selected(mask, t)], [HashOf(H, txids, t)])
    else match t
      case Single(c) =>
        var e := Encode(H, txids, mask, c);
        Encoding([true] + e.bits, e.hashes)
      case Node(l, r) =>
        var e, f := Encode(H, txids, mask, l), Encode(H, txids, mask, r);
        Encoding([true] + e.bits + f.bits, e.hashes + f.hashes)
  }

  /** Outcome of decoding a subtree: its hash, the moved cursors, the matches and the failure flag. */
  datatype Walked = Walked(hash: Hash, bitsUsed: nat, hashUsed: nat, found: seq<Match>, bad: bool)

  /** TraverseAndExtract, starting from bit `i` and hash `j`. */
  function Walk(H: PairHash, bits: seq<bool>, hashes: seq<Hash>, t: Tree, i: nat, j: nat): Walked {
    if i >= |bits| then Walked(NULL_HASH, i, j, [], true)
    else if t.Leaf? || !bits[i] then
      if j >= |hashes| then Walked(NULL_HASH, i + 1, j, [], true)
      else Walked(hashes[j], i + 1, j + 1, if t.Leaf? && bits[i] then [Match(hashes[j], t.index)] else [], false)
    else match t
      case Single(c) =>
        var w := Walk(H, bits, hashes, c, i + 1, j);
        w.(hash := H(w.hash, w.hash))
      case Node(l, r) =>
        var v := Walk(H, bits, hashes, l, i + 1, j);
        var w := Walk(H, bits, hashes, r, v.bitsUsed, v.hashUsed);
        Walked(H(v.hash, w.hash), w.bitsUsed, w.hashUsed, v.found + w.found, v.bad || w.bad || w.hash == v.hash)
  }

  // ---- Soundness ----

  ghost predicate Genuine(txids: seq<Hash>, found: seq<Match>) {
    forall k :: 0 <= k < |found| ==> found[k].index < |txids| && found[k].hash == txids[found[k].index]
  }

  /** If a decoded subtree has the true hash, everything reported below it is true, whatever was decoded. */
  lemma {:induction false} WalkSound(H: PairHash, txids: seq<Hash>, bits: seq<bool>, hashes: seq<Hash>,
                                     t: Tree, i: nat, j: nat)
    requires Injective(H)
    requires Fits(t, |txids|)
    requires var w := Walk(H, bits, hashes, t, i, j); !w.bad && w.hash == HashOf(H, txids, t)
    ensures Genuine(txids, Walk(H, bits, hashes, t, i, j).found)
  {
    if !t.Leaf? && bits[i] {
      match t
      case Single(c) => WalkSound(H, txids, bits, hashes, c, i + 1, j);
      case Node(l, r) =>
        var v := Walk(H, bits, hashes, l, i + 1, j);
        WalkSound(H, txids, bits, hashes, l, i + 1, j);
        WalkSound(H, txids, bits, hashes, r, v.bitsUsed, v.hashUsed);
    }
  }

  ghost predicate InRange(found: seq<Match>, lo: nat, hi: nat) {
    && (forall k :: 0 <= k < |found| ==> lo <= found[k].index < hi)
    && (forall k, l :: 0 <= k < l < |found| ==> found[k].index < found[l].index)
  }

  /** Reported positions lie below the subtree and increase strictly. */
  lemma {:induction false} WalkInRange(H: PairHash, bits: seq<bool>, hashes: seq<Hash>, t: Tree, h: nat, i: nat, j: nat)
    requires Balanced(t, h)
    ensures InRange(Walk(H, bits, hashes, t, i, j).found, First(t), End(t))
  {
    if !t.Leaf? && i < |bits| && bits[i] {
      match t
      case Single(c) => WalkInRange(H, bits, hashes, c, h - 1, i + 1, j);
      case Node(l, r) =>
        var v := Walk(H, bits, hashes, l, i + 1, j);
        WalkInRange(H, bits, hashes, l, h - 1, i + 1, j);
        WalkInRange(H, bits, hashes, r, h - 1, v.bitsUsed, v.hashUsed);
        BalancedNonempty(l, h - 1);
        BalancedNonempty(r, h - 1);
    }
  }

  // ---- Completeness ----

  lemma {:induction false} MatchedNone(txids: seq<Hash>, mask: seq<bool>, t: Tree)
    requires |mask| == |txids| && Fits(t, |txids|)
    ensures Matched(txids, mask, t) == [] <==> !Selected(mask, t)
  {
    match t
    case Leaf(_) =>
    case Single(c) => MatchedNone(txids, mask, c);
    case Node(l, r) => MatchedNone(txids, mask, l); MatchedNone(txids, mask, r);
  }

  // Equal hashes at one height force equal first leaves.
  lemma {:induction false} EqualHashesShareFirstLeaf(H: PairHash, txids: seq<Hash>, t: Tree, u: Tree, h: nat)
    requires Injective(H)
    requires Fits(t, |txids|) && Fits(u, |txids|) && Balanced(t, h) && Balanced(u, h)
    requires HashOf(H, txids, t) == HashOf(H, txids, u)
    ensures First(t) < |txids| && First(u) < |txids| && txids[First(t)] == txids[First(u)]
  {
    if h > 0 {
      EqualHashesShareFirstLeaf(H, txids, if t.Single? then t.child else t.left, if u.Single? then u.child
                                else u.left, h - 1);
    }
  }

  lemma SiblingsDiffer(H: PairHash, txids: seq<Hash>, t: Tree, h: nat)
    requires Injective(H) && Distinct(txids)
    requires t.Node? && Fits(t, |txids|) && Balanced(t, h)
    ensures HashOf(H, txids, t.left) != HashOf(H, txids, t.right)
  {
    BalancedNonempty(t.left, h - 1);
    if HashOf(H, txids, t.left) == HashOf(H, txids, t.right) {
      EqualHashesShareFirstLeaf(H, txids, t.left, t.right, h - 1);
      assert false;
    }
  }

  /** No node has two equal children. */
  predicate Separated(H: PairHash, txids: seq<Hash>, t: Tree)
    requires Fits(t, |txids|)
  {
    match t
    case Leaf(_) => true
    case Single(c) => Separated(H, txids, c)
    case Node(l, r) =>
      Separated(H, txids, l) && Separated(H, txids, r) && HashOf(H, txids, l) != HashOf(H, txids, r)
  }

  lemma {:induction false} DistinctSeparated(H: PairHash, txids: seq<Hash>, t: Tree, h: nat)
    requires Injective(H) && Distinct(txids)
    requires Fits(t, |txids|) && Balanced(t, h)
    ensures Separated(H, txids, t)
  {
    match t
    case Leaf(_) =>
    case Single(c) => DistinctSeparated(H, txids, c, h - 1);
    case Node(l, r) =>
      DistinctSeparated(H, txids, l, h - 1);
      DistinctSeparated(H, txids, r, h - 1);
      SiblingsDiffer(H, txids, t, h);
  }

  /** `t` occurs in `s` at index `i`. */
  predicate At<T(==)>(s: seq<T>, i: nat, t: seq<T>) {
    i + |t| <= |s| && s[i..i + |t|] == t
  }

  lemma AtSplit<T>(s: seq<T>, i: nat, a: seq<T>, b: seq<T>)
    requires At(s, i, a + b)
    ensures At(s, i, a) && At(s, i + |a|, b)
  {
    assert s[i..i + |a|] == (a + b)[..|a|] == a;
    assert s[i + |a|..i + |a| + |b|] == (a + b)[|a|..] == b;
  }

  lemma AtOne<T>(s: seq<T>, i: nat)
    requires i < |s|
    ensures At(s, i, [s[i]])
  {
  }

  lemma AtFirst<T>(s: seq<T>, i: nat, x: T)
    requires At(s, i, [x])
    ensures i < |s| && s[i] == x
  {
    assert s[i] == s[i..i + 1][0];
  }

  lemma AtJoin<T>(s: seq<T>, i: nat, a: seq<T>, b: seq<T>)
    requires At(s, i, a) && At(s, i + |a|, b)
    ensures At(s, i, a + b)
  {
    assert s[i..i + |a + b|] == s[i..i + |a|] + s[i + |a|..i + |a| + |b|];
  }

  /** Where an encoding stops going down: at a leaf, reported or not, or at the hash of an inner node. */
  datatype Cut = Stop(hit: bool) | Down(child: Cut) | Split(left: Cut, right: Cut)

  predicate CutOf(cut: Cut, t: Tree) {
    match cut
    case Stop(hit) => t.Leaf? || !hit
    case Down(c) => t.Single? && CutOf(c, t.child)
    case Split(l, r) => t.Node? && CutOf(l, t.left) && CutOf(r, t.right)
  }

  /** The bits and hashes that stand for a subtree cut that way. */
  function CutCode(H: PairHash, txids: seq<Hash>, t: Tree, cut: Cut): Encoding
    requires Fits(t, |txids|) && CutOf(cut, t)
  {
    match cut
    case Stop(hit) => Encoding([hit], [HashOf(H, txids, t)])
    case Down(c) =>
      var e := CutCode(H, txids, t.child, c);
      Encoding([true] + e.bits, e.hashes)
    case Split(l, r) =>
      var e, f := CutCode(H, txids, t.left, l), CutCode(H, txids, t.right, r);
      Encoding([true] + e.bits + f.bits, e.hashes + f.hashes)
  }

  function CutFound(txids: seq<Hash>, t: Tree, cut: Cut): seq<Match>
    requires Fits(t, |txids|) && CutOf(cut, t)
  {
    match cut
    case Stop(hit) => if hit then [Match(txids[t.index], t.index)] else []
    case Down(c) => CutFound(txids, t.child, c)
    case Split(l, r) => CutFound(txids, t.left, l) + CutFound(txids, t.right, r)
  }

  /** The cut of a selection: down to the selected leaves and nowhere else. */
  function CutFor(mask: seq<bool>, t: Tree): Cut
    requires Fits(t, |mask|)
  {
    if t.Leaf? || !Selected(mask, t) then Stop(Selected(mask, t))
    else match t
      case Single(c) => Down(CutFor(mask, c))
      case Node(l, r) => Split(CutFor(mask, l), CutFor(mask, r))
  }

  lemma {:induction false} EncodeIsCut(H: PairHash, txids: seq<Hash>, mask: seq<bool>, t: Tree)
    requires |mask| == |txids| && Fits(t, |txids|)
    ensures CutOf(CutFor(mask, t), t) && CutCode(H, txids, t, CutFor(mask, t)) == Encode(H, txids, mask, t)
    ensures CutFound(txids, t, CutFor(mask, t)) == Matched(txids, mask, t)
  {
    MatchedNone(txids, mask, t);
    if !t.Leaf? && Selected(mask, t) {
      match t
      case Single(c) => EncodeIsCut(H, txids, mask, c);
      case Node(l, r) => EncodeIsCut(H, txids, mask, l); EncodeIsCut(H, txids, mask, r);
    }
  }

  /** The encoding of a subtree stands at bit `i` and hash `j`. */
  predicate EncodedAt(H: PairHash, txids: seq<Hash>, t: Tree, cut: Cut, bits: seq<bool>, hashes: seq<Hash>, i: nat,
                      j: nat)
    requires Fits(t, |txids|) && CutOf(cut, t)
  {
    At(bits, i, CutCode(H, txids, t, cut).bits) && At(hashes, j, CutCode(H, txids, t, cut).hashes)
  }

  /** Decoding from there gives the subtree's hash and exactly the leaves hit, and stops right after it. */
  predicate Decodes(H: PairHash, txids: seq<Hash>, t: Tree, cut: Cut, bits: seq<bool>, hashes: seq<Hash>, i: nat,
                    j: nat)
    requires Fits(t, |txids|) && CutOf(cut, t)
  {
    var e := CutCode(H, txids, t, cut);
    Walk(H, bits, hashes, t, i, j) ==
    Walked(HashOf(H, txids, t), i + |e.bits|, j + |e.hashes|, CutFound(txids, t, cut), false)
  }

  lemma DecodesNode(H: PairHash, txids: seq<Hash>, t: Tree, cut: Cut, bits: seq<bool>, hashes: seq<Hash>, i: nat,
                    j: nat,
                    i': nat, j': nat)
    requires Fits(t, |txids|) && t.Node? && cut.Split? && CutOf(cut, t) && i < |bits| && bits[i]
    requires HashOf(H, txids, t.left) != HashOf(H, txids, t.right)
    requires Decodes(H, txids, t.left, cut.left, bits, hashes, i + 1, j)
    requires i' == i + 1 + |CutCode(H, txids, t.left, cut.left).bits|
    requires j' == j + |CutCode(H, txids, t.left, cut.left).hashes|
    requires Decodes(H, txids, t.right, cut.right, bits, hashes, i', j')
    ensures Decodes(H, txids, t, cut, bits, hashes, i, j)
  {
  }

  lemma AtNode(bits: seq<bool>, hashes: seq<Hash>, f: Encoding, g: Encoding, i: nat, j: nat)
    ensures At(bits, i, [true] + f.bits + g.bits) && At(hashes, j, f.hashes + g.hashes) <==>
            && i < |bits| && bits[i] && At(bits, i + 1, f.bits) && At(bits, i + 1 + |f.bits|, g.bits)
            && At(hashes, j, f.hashes) && At(hashes, j + |f.hashes|, g.hashes)
  {
    if At(bits, i, [true] + f.bits + g.bits) && At(hashes, j, f.hashes + g.hashes) {
      AtSplit(bits, i, [true] + f.bits, g.bits);
      AtTrue(bits, i, f.bits);
      AtSplit(hashes, j, f.hashes, g.hashes);
    }
    if i < |bits| && bits[i] && At(bits, i + 1, f.bits) && At(bits, i + 1 + |f.bits|, g.bits) {
      AtTrue(bits, i, f.bits);
      AtJoin(bits, i, [true] + f.bits, g.bits);
      if At(hashes, j, f.hashes) && At(hashes, j + |f.hashes|, g.hashes) { AtJoin(hashes, j, f.hashes, g.hashes); }
    }
  }

  lemma AtTrue(bits: seq<bool>, i: nat, rest: seq<bool>)
    ensures At(bits, i, [true] + rest) <==> i < |bits| && bits[i] && At(bits, i + 1, rest)
  {
    if At(bits, i, [true] + rest) { AtSplit(bits, i, [true], rest); assert bits[i..i + 1][0]; }
    if i < |bits| && bits[i] && At(bits, i + 1, rest) {
      assert bits[i..i + 1] == [true];
      AtJoin(bits, i, [true], rest);
    }
  }

  lemma EncodedAtChildren(H: PairHash, txids: seq<Hash>, t: Tree, cut: Cut, bits: seq<bool>, hashes: seq<Hash>, i: nat,
                          j: nat)
    requires Fits(t, |txids|) && CutOf(cut, t) && !cut.Stop?
    ensures cut.Down? ==>
            (EncodedAt(H, txids, t, cut, bits, hashes, i, j) <==>
              i < |bits| && bits[i] && EncodedAt(H, txids, t.child, cut.child, bits, hashes, i + 1, j))
    ensures cut.Split? ==>
            var e := CutCode(H, txids, t.left, cut.left);
            (EncodedAt(H, txids, t, cut, bits, hashes, i, j) <==>
              && i < |bits| && bits[i] && EncodedAt(H, txids, t.left, cut.left, bits, hashes, i + 1, j)
              && EncodedAt(H, txids, t.right, cut.right, bits, hashes, i + 1 + |e.bits|, j + |e.hashes|))
  {
    match cut
    case Down(c) => AtTrue(bits, i, CutCode(H, txids, t.child, c).bits);
    case Split(l, r) => AtNode(bits, hashes, CutCode(H, txids, t.left, l), CutCode(H, txids, t.right, r), i, j);
  }

  /** Whatever surrounds it, an encoded subtree decodes to exactly the leaves hit. */
  lemma {:induction false} WalkEncode(H: PairHash, txids: seq<Hash>, t: Tree, cut: Cut, bits: seq<bool>,
                                      hashes: seq<Hash>, i: nat, j: nat)
    requires Fits(t, |txids|) && Separated(H, txids, t) && CutOf(cut, t)
    requires EncodedAt(H, txids, t, cut, bits, hashes, i, j)
    ensures Decodes(H, txids, t, cut, bits, hashes, i, j)
    decreases t
  {
    if cut.Stop? {
      AtFirst(bits, i, cut.hit);
      AtFirst(hashes, j, HashOf(H, txids, t));
    } else {
      EncodedAtChildren(H, txids, t, cut, bits, hashes, i, j);
      if cut.Down? {
        WalkEncode(H, txids, t.child, cut.child, bits, hashes, i + 1, j);
      } else {
        var e := CutCode(H, txids, t.left, cut.left);
        WalkEncode(H, txids, t.left, cut.left, bits, hashes, i + 1, j);
        var i', j' := i + 1 + |e.bits|, j + |e.hashes|;
        WalkEncode(H, txids, t.right, cut.right, bits, hashes, i', j');
        DecodesNode(H, txids, t, cut, bits, hashes, i, j, i', j');
      }
    }
  }

  /** Nothing else decodes to the subtree's hash: what was read is the encoding of some cut. */
  lemma {:induction false} WalkIsCut(H: PairHash, txids: seq<Hash>, t: Tree, bits: seq<bool>, hashes: seq<Hash>,
                                     i: nat, j: nat) returns (cut: Cut)
    requires Injective(H) && Fits(t, |txids|)
    requires var w := Walk(H, bits, hashes, t, i, j); !w.bad && w.hash == HashOf(H, txids, t)
    ensures CutOf(cut, t) && EncodedAt(H, txids, t, cut, bits, hashes, i, j)
    ensures Decodes(H, txids, t, cut, bits, hashes, i, j)
    decreases t, 1
  {
    if t.Leaf? || !bits[i] {
      cut := Stop(bits[i]);
      AtOne(bits, i);
      AtOne(hashes, j);
    } else if t.Single? {
      var c := WalkIsCut(H, txids, t.child, bits, hashes, i + 1, j);
      cut := Down(c);
      EncodedAtChildren(H, txids, t, cut, bits, hashes, i, j);
    } else {
      cut := WalkIsSplit(H, txids, t, bits, hashes, i, j);
    }
  }

  lemma WalkedNode(H: PairHash, txids: seq<Hash>, t: Tree, bits: seq<bool>, hashes: seq<Hash>, i: nat, j: nat,
                   v: Walked)
    requires Injective(H) && Fits(t, |txids|) && t.Node? && i < |bits| && bits[i]
    requires var w := Walk(H, bits, hashes, t, i, j); !w.bad && w.hash == HashOf(H, txids, t)
    requires v == Walk(H, bits, hashes, t.left, i + 1, j)
    ensures var w := Walk(H, bits, hashes, t.right, v.bitsUsed, v.hashUsed);
            && !v.bad && !w.bad && v.hash == HashOf(H, txids, t.left) && w.hash == HashOf(H, txids, t.right)
            && HashOf(H, txids, t.left) != HashOf(H, txids, t.right)
  {
  }

  lemma {:induction false} WalkIsSplit(H: PairHash, txids: seq<Hash>, t: Tree, bits: seq<bool>, hashes: seq<Hash>,
                                       i: nat, j: nat) returns (cut: Cut)
    requires Injective(H) && Fits(t, |txids|) && t.Node? && i < |bits| && bits[i]
    requires var w := Walk(H, bits, hashes, t, i, j); !w.bad && w.hash == HashOf(H, txids, t)
    ensures CutOf(cut, t) && EncodedAt(H, txids, t, cut, bits, hashes, i, j)
    ensures Decodes(H, txids, t, cut, bits, hashes, i, j)
    decreases t, 0
  {
    var v := Walk(H, bits, hashes, t.left, i + 1, j);
    WalkedNode(H, txids, t, bits, hashes, i, j, v);
    var l := WalkIsCut(H, txids, t.left, bits, hashes, i + 1, j);
    var r := WalkIsCut(H, txids, t.right, bits, hashes, v.bitsUsed, v.hashUsed);
    cut := Split(l, r);
    DecodesNode(H, txids, t, cut, bits, hashes, i, j, v.bitsUsed, v.hashUsed);
    EncodedSplit(H, txids, t, cut, bits, hashes, i, j, v);
  }

  lemma EncodedSplit(H: PairHash, txids: seq<Hash>, t: Tree, cut: Cut, bits: seq<bool>, hashes: seq<Hash>, i: nat,
                     j: nat, v: Walked)
    requires Fits(t, |txids|) && t.Node? && cut.Split? && CutOf(cut, t) && i < |bits| && bits[i]
    requires v.bitsUsed == i + 1 + |CutCode(H, txids, t.left, cut.left).bits|
    requires v.hashUsed == j + |CutCode(H, txids, t.left, cut.left).hashes|
    requires EncodedAt(H, txids, t.left, cut.left, bits, hashes, i + 1, j)
    requires EncodedAt(H, txids, t.right, cut.right, bits, hashes, v.bitsUsed, v.hashUsed)
    ensures EncodedAt(H, txids, t, cut, bits, hashes, i, j)
  {
    EncodedAtChildren(H, txids, t, cut, bits, hashes, i, j);
  }

  // ---- Size bounds ----

  lemma Distribute(a: nat, b: nat, h: nat)
    requires h > 0
    ensures (a + b) * h == a * (h - 1) + b * (h - 1) + (a + b)
  {
  }

  /** However it is cut, an encoded subtree stores at most one hash per leaf below it and one per bit. */
  lemma {:induction false} CutSize(H: PairHash, txids: seq<Hash>, t: Tree, cut: Cut, h: nat)
    requires Fits(t, |txids|) && Balanced(t, h) && CutOf(cut, t)
    ensures var e := CutCode(H, txids, t, cut); 1 <= |e.hashes| <= End(t) - First(t) && |e.hashes| <= |e.bits|
  {
    BalancedNonempty(t, h);
    match cut
    case Stop(_) =>
    case Down(c) => CutSize(H, txids, t.child, c, h - 1);
    case Split(l, r) =>
      CutSize(H, txids, t.left, l, h - 1);
      CutSize(H, txids, t.right, r, h - 1);
  }

  /** The encoding of a selection stores at most 1 + matches * height hashes. */
  lemma {:induction false} EncodeSize(H: PairHash, txids: seq<Hash>, mask: seq<bool>, t: Tree, h: nat)
    requires |mask| == |txids| && Fits(t, |txids|) && Balanced(t, h)
    ensures |Encode(H, txids, mask, t).hashes| <= 1 + |Matched(txids, mask, t)| * h
  {
    MatchedNone(txids, mask, t);
    if !t.Leaf? && Selected(mask, t) {
      match t
      case Single(c) =>
        EncodeSize(H, txids, mask, c, h - 1);
        Distribute(|Matched(txids, mask, c)|, 0, h);
      case Node(l, r) =>
        EncodeSize(H, txids, mask, l, h - 1);
        EncodeSize(H, txids, mask, r, h - 1);
        Distribute(|Matched(txids, mask, l)|, |Matched(txids, mask, r)|, h);
    }
  }

  // ---- The whole tree ----

  const MAX_BLOCK_WEIGHT := 4000000
  const MIN_TRANSACTION_WEIGHT := 240

  lemma {:induction false} WidthShrinks(n: nat, h: nat)
    ensures n > 0 ==> Width(n, h) > 0
    ensures Width(n, h) > 1 ==> Width(n, h + 1) < Width(n, h)
    ensures Width(n, h) <= 1 ==> Width(n, h + 1) <= 1
  {
    if h > 0 { WidthShrinks(n, h - 1); }
  }

  /** The least height, from `h` up, at which a single node is left. */
  function RootHeight(n: nat, h: nat): (r: nat)
    ensures h <= r && Width(n, r) <= 1 && (n > 0 ==> Width(n, r) == 1)
    decreases Width(n, h)
  {
    WidthShrinks(n, h);
    if Width(n, h) <= 1 then h else RootHeight(n, h + 1)
  }

  function WholeTree(n: nat): Tree { Shape(n, RootHeight(n, 0), 0) }

  lemma WholeTreeShape(n: nat)
    requires n > 0
    ensures Balanced(WholeTree(n), RootHeight(n, 0))
    ensures First(WholeTree(n)) == 0 && End(WholeTree(n)) == n
    ensures Fits(WholeTree(n), n)
  {
    var h := RootHeight(n, 0);
    ShapeBalanced(n, h, 0);
    ShapeFirst(n, h, 0);
    BalancedFits(WholeTree(n), h, n);
  }

  function MerkleRoot(H: PairHash, txids: seq<Hash>): Hash
    requires |txids| > 0
  {
    WholeTreeShape(|txids|);
    HashOf(H, txids, WholeTree(|txids|))
  }

  /** What ExtractMatches yields: the root, or null on any failure, and the matches seen on the way. */
  datatype Extraction = Extraction(root: Hash, found: seq<Match>)

  function Extract(H: PairHash, n: nat, bits: seq<bool>, hashes: seq<Hash>, bad: bool): Extraction {
    if n == 0 || n > MAX_BLOCK_WEIGHT / MIN_TRANSACTION_WEIGHT || |hashes| > n || |bits| < |hashes|
    then Extraction(NULL_HASH, [])
    else
      var w := Walk(H, bits, hashes, WholeTree(n), 0, 0);
      if bad || w.bad || (w.bitsUsed + 7) / 8 != (|bits| + 7) / 8 || w.hashUsed != |hashes|
      then Extraction(NULL_HASH, w.found)
      else Extraction(w.hash, w.found)
  }

  /**
   Soundness: whatever bits and hashes are presented for the true number of transactions, if the
   result is the block's own nonzero root then every reported pair is a transaction of the block at
   that very index, and indexes increase strictly.
   */
  lemma ExtractSound(H: PairHash, txids: seq<Hash>, bits: seq<bool>, hashes: seq<Hash>, bad: bool)
    requires Injective(H) && |txids| > 0
    requires var x := Extract(H, |txids|, bits, hashes, bad); x.root != NULL_HASH && x.root == MerkleRoot(H, txids)
    ensures var x := Extract(H, |txids|, bits, hashes, bad);
            Genuine(txids, x.found) && InRange(x.found, 0, |txids|)
  {
    var n := |txids|;
    WholeTreeShape(n);
    WalkSound(H, txids, bits, hashes, WholeTree(n), 0, 0);
    WalkInRange(H, bits, hashes, WholeTree(n), RootHeight(n, 0), 0, 0);
  }

  /** The encoding of a whole block. */
  function EncodeBlock(H: PairHash, txids: seq<Hash>, mask: seq<bool>): Encoding
    requires |mask| == |txids| > 0
  {
    WholeTreeShape(|txids|);
    Encode(H, txids, mask, WholeTree(|txids|))
  }

  /** All selected transactions of a block, in block order. */
  function MatchedUpTo(txids: seq<Hash>, mask: seq<bool>, k: nat): seq<Match>
    requires |mask| == |txids| && k <= |txids|
  {
    if k == 0 then []
    else MatchedUpTo(txids, mask, k - 1) + (if mask[k - 1] then [Match(txids[k - 1], k - 1)] else [])
  }

  lemma {:induction false} MatchedIsSlice(txids: seq<Hash>, mask: seq<bool>, t: Tree, h: nat)
    requires |mask| == |txids| && Fits(t, |txids|) && Balanced(t, h)
    ensures First(t) <= End(t) <= |txids|
    ensures MatchedUpTo(txids, mask, End(t)) == MatchedUpTo(txids, mask, First(t)) + Matched(txids, mask, t)
  {
    match t
    case Leaf(_) =>
    case Single(c) => MatchedIsSlice(txids, mask, c, h - 1);
    case Node(l, r) =>
      MatchedIsSlice(txids, mask, l, h - 1);
      MatchedIsSlice(txids, mask, r, h - 1);
  }

  /** The documented bounds on the number of stored hashes. */
  lemma EncodeBlockSize(H: PairHash, txids: seq<Hash>, mask: seq<bool>)
    requires |mask| == |txids| > 0
    ensures var e := EncodeBlock(H, txids, mask);
            && |e.hashes| <= |txids| && |e.hashes| <= |e.bits|
            && |e.hashes| <= 1 + |MatchedUpTo(txids, mask, |txids|)| * RootHeight(|txids|, 0)
  {
    var t, h := WholeTree(|txids|), RootHeight(|txids|, 0);
    WholeTreeShape(|txids|);
    EncodeSize(H, txids, mask, t, h);
    EncodeIsCut(H, txids, mask, t);
    CutSize(H, txids, t, CutFor(mask, t), h);
    MatchedIsSlice(txids, mask, t, h);
    assert MatchedUpTo(txids, mask, 0) == [];
    assert MatchedUpTo(txids, mask, |txids|) == Matched(txids, mask, t);
  }

  lemma BlockSeparated(H: PairHash, txids: seq<Hash>)
    requires Injective(H) && Distinct(txids) && |txids| > 0
    ensures Fits(WholeTree(|txids|), |txids|) && Separated(H, txids, WholeTree(|txids|))
  {
    WholeTreeShape(|txids|);
    DistinctSeparated(H, txids, WholeTree(|txids|), RootHeight(|txids|, 0));
  }

  /** Bits and hashes are those of a cut of the block's tree, up to the padding of the last byte. */
  predicate Presents(H: PairHash, txids: seq<Hash>, cut: Cut, bits: seq<bool>, hashes: seq<Hash>)
    requires |txids| > 0 && Fits(WholeTree(|txids|), |txids|)
  {
    && CutOf(cut, WholeTree(|txids|))
    && var e := CutCode(H, txids, WholeTree(|txids|), cut);
       e.bits <= bits && (|bits| + 7) / 8 == (|e.bits| + 7) / 8 && hashes == e.hashes
  }

  /** They are accepted, with the root of the block and exactly the leaves hit. */
  lemma CutAccepted(H: PairHash, txids: seq<Hash>, cut: Cut, bits: seq<bool>, hashes: seq<Hash>)
    requires Injective(H) && Distinct(txids) && 0 < |txids| <= MAX_BLOCK_WEIGHT / MIN_TRANSACTION_WEIGHT
    requires Fits(WholeTree(|txids|), |txids|) && Presents(H, txids, cut, bits, hashes)
    ensures Extract(H, |txids|, bits, hashes, false) ==
            Extraction(MerkleRoot(H, txids), CutFound(txids, WholeTree(|txids|), cut))
  {
    var t := WholeTree(|txids|);
    var e := CutCode(H, txids, t, cut);
    BlockSeparated(H, txids);
    WholeTreeShape(|txids|);
    CutSize(H, txids, t, cut, RootHeight(|txids|, 0));
    assert Decodes(H, txids, t, cut, bits, hashes, 0, 0) by {
      assert hashes[0..|hashes|] == hashes && bits[0..|e.bits|] == e.bits;
      WalkEncode(H, txids, t, cut, bits, hashes, 0, 0);
    }
    Accepts(H, |txids|, bits, hashes, Walk(H, bits, hashes, t, 0, 0));
  }

  lemma Accepts(H: PairHash, n: nat, bits: seq<bool>, hashes: seq<Hash>, w: Walked)
    requires w == Walk(H, bits, hashes, WholeTree(n), 0, 0) && !w.bad
    requires 0 < n <= MAX_BLOCK_WEIGHT / MIN_TRANSACTION_WEIGHT && |hashes| <= n && |hashes| <= |bits|
    requires (w.bitsUsed + 7) / 8 == (|bits| + 7) / 8 && w.hashUsed == |hashes|
    ensures Extract(H, n, bits, hashes, false) == Extraction(w.hash, w.found)
  {
  }

  /**
   Exactly those are: for the true number of transactions, all distinct, bits and hashes yield the block's
   root just if they are a cut of its tree with nothing behind but the padding of the last byte.
   */
  lemma AcceptedIff(H: PairHash, txids: seq<Hash>, bits: seq<bool>, hashes: seq<Hash>)
    requires Injective(H) && Distinct(txids) && 0 < |txids| <= MAX_BLOCK_WEIGHT / MIN_TRANSACTION_WEIGHT
    requires MerkleRoot(H, txids) != NULL_HASH
    ensures Fits(WholeTree(|txids|), |txids|)
    ensures Extract(H, |txids|, bits, hashes, false).root == MerkleRoot(H, txids) <==>
            exists cut :: Presents(H, txids, cut, bits, hashes)
  {
    var t := WholeTree(|txids|);
    WholeTreeShape(|txids|);
    if Extract(H, |txids|, bits, hashes, false).root == MerkleRoot(H, txids) {
      var cut := WalkIsCut(H, txids, t, bits, hashes, 0, 0);
      var e := CutCode(H, txids, t, cut);
      assert bits[0..|e.bits|] == e.bits && hashes[0..|hashes|] == hashes;
      assert Presents(H, txids, cut, bits, hashes);
    }
    if cut :| Presents(H, txids, cut, bits, hashes) { CutAccepted(H, txids, cut, bits, hashes); }
  }

  /**
   Completeness: the encoding of any selection of distinct transactions, padded to whole bytes, is
   accepted and yields the block's root and exactly the selected transactions in order.
   */
  lemma ExtractComplete(H: PairHash, txids: seq<Hash>, mask: seq<bool>, bits: seq<bool>)
    requires Injective(H) && Distinct(txids)
    requires |mask| == |txids| && 0 < |txids| <= MAX_BLOCK_WEIGHT / MIN_TRANSACTION_WEIGHT
    requires var e := EncodeBlock(H, txids, mask); e.bits <= bits && (|bits| + 7) / 8 == (|e.bits| + 7) / 8
    ensures Extract(H, |txids|, bits, EncodeBlock(H, txids, mask).hashes, false) ==
            Extraction(MerkleRoot(H, txids), MatchedUpTo(txids, mask, |txids|))
  {
    var e := EncodeBlock(H, txids, mask);
    SelectionCut(H, txids, mask, e);
    var cut := CutFor(mask, WholeTree(|txids|));
    CutAccepted(H, txids, cut, bits, e.hashes);
  }

  // The encoding of a selection of a whole block, as a cut.
  lemma SelectionCut(H: PairHash, txids: seq<Hash>, mask: seq<bool>, e: Encoding)
    requires |mask| == |txids| > 0 && e == EncodeBlock(H, txids, mask)
    ensures var t := WholeTree(|txids|);
            && Fits(t, |txids|) && CutOf(CutFor(mask, t), t) && CutCode(H, txids, t, CutFor(mask, t)) == e
            && CutFound(txids, t, CutFor(mask, t)) == MatchedUpTo(txids, mask, |txids|)
  {
    var t := WholeTree(|txids|);
    WholeTreeShape(|txids|);
    EncodeIsCut(H, txids, mask, t);
    MatchedIsSlice(txids, mask, t, RootHeight(|txids|, 0));
    assert MatchedUpTo(txids, mask, 0) == [];
    assert MatchedUpTo(txids, mask, |txids|) == Matched(txids, mask, t);
  }
}
