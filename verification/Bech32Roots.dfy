/**
 The Bech32 generator has three consecutive powers of a primitive element among its roots, which makes
 the checksum a BCH code: any three wrong values among 1023 are detected (src/bech32.cpp:44-48).
 */
module Bech32Roots {
  import opened Bech32Spec
  import opened Cyclic

  // ---- Values of polynomials ----

  ghost predicate EmbedsAt<E(!new)>(g: Field<E>, emb: Val -> E, v: Val, w: Val) {
    emb(XorVal(v, w)) == g.add(emb(v), emb(w))
  }

  /** Five bits are embedded in the field so that sums are kept. */
  ghost predicate Embeds<E(!new)>(g: Field<E>, emb: Val -> E) {
    Valid(g) && emb(ZeroVal()) == g.zero && forall v: Val, w: Val :: EmbedsAt(g, emb, v, w)
  }

  /** The combination of five elements by five bits. */
  function Spread<E>(g: Field<E>, c0: E, c1: E, c2: E, c3: E, c4: E, v: Val): E {
    g.add(On(g, v[0], c0), g.add(On(g, v[1], c1), g.add(On(g, v[2], c2), g.add(On(g, v[3], c3), On(g, v[4], c4)))))
  }

  // A bit more.
  lemma SpreadMore<E(!new)>(g: Field<E>, a: bool, b: bool, c: E, x: E, y: E)
    requires Valid(g)
    ensures g.add(On(g, a != b, c), g.add(x, y)) == g.add(g.add(On(g, a, c), x), g.add(On(g, b, c), y))
  {
    OnAdds(g, a, b, c);
    Regroup(g, On(g, a, c), On(g, b, c), x, y);
  }

  lemma SpreadAdds<E(!new)>(g: Field<E>, c0: E, c1: E, c2: E, c3: E, c4: E, v: Val, w: Val)
    requires Valid(g)
    ensures Spread(g, c0, c1, c2, c3, c4, XorVal(v, w)) ==
            g.add(Spread(g, c0, c1, c2, c3, c4, v), Spread(g, c0, c1, c2, c3, c4, w))
  {
    var x4, y4 := On(g, v[4], c4), On(g, w[4], c4);
    OnAdds(g, v[4], w[4], c4);
    var x3, y3 := g.add(On(g, v[3], c3), x4), g.add(On(g, w[3], c3), y4);
    SpreadMore(g, v[3], w[3], c3, x4, y4);
    var x2, y2 := g.add(On(g, v[2], c2), x3), g.add(On(g, w[2], c2), y3);
    SpreadMore(g, v[2], w[2], c2, x3, y3);
    var x1, y1 := g.add(On(g, v[1], c1), x2), g.add(On(g, w[1], c1), y2);
    SpreadMore(g, v[1], w[1], c1, x2, y2);
    SpreadMore(g, v[0], w[0], c0, x1, y1);
  }

  // Multiplied by a power.
  lemma SpreadPow<E(!new)>(g: Field<E>, n: nat, c0: E, c1: E, c2: E, c3: E, c4: E, v: Val)
    requires Valid(g)
    ensures Pow(g, n, Spread(g, c0, c1, c2, c3, c4, v)) ==
            Spread(g, Pow(g, n, c0), Pow(g, n, c1), Pow(g, n, c2), Pow(g, n, c3), Pow(g, n, c4), v)
  {
    PowZero(g, n);
    var x4 := On(g, v[4], c4);
    var x3 := g.add(On(g, v[3], c3), x4);
    var x2 := g.add(On(g, v[2], c2), x3);
    var x1 := g.add(On(g, v[1], c1), x2);
    PowAdds(g, n, On(g, v[3], c3), x4);
    PowAdds(g, n, On(g, v[2], c2), x3);
    PowAdds(g, n, On(g, v[1], c1), x2);
    PowAdds(g, n, On(g, v[0], c0), x1);
  }

  /** Multiplication of five bits by the root of a^5 + a^3 + 1. */
  function Alpha(v: Val): Val { [v[4], v[0], v[1], v[2] != v[4], v[3]] }

  // The elements move instead of the bits.
  lemma SpreadAlpha<E(!new)>(g: Field<E>, c0: E, c1: E, c2: E, c3: E, c4: E, v: Val)
    requires Valid(g)
    ensures Spread(g, c0, c1, c2, c3, c4, Alpha(v)) == Spread(g, c1, c2, c3, c4, g.add(c0, c3), v)
  {
    var a, b, c, f := On(g, v[4], c0), On(g, v[0], c1), On(g, v[1], c2), On(g, v[3], c4);
    var d, e := On(g, v[2], c3), On(g, v[4], c3);
    OnAdds(g, v[2], v[4], c3);
    assert On(g, v[4], g.add(c0, c3)) == g.add(a, e) by { Cancel(g, g.zero, g.zero, g.zero); }
    MoveIn(g, a, b, g.add(c, g.add(g.add(d, e), f)));
    MoveIn(g, a, c, g.add(g.add(d, e), f));
    LastTwo(g, a, d, e, f);
  }

  lemma MoveIn<E(!new)>(g: Field<E>, x: E, y: E, z: E)
    requires Valid(g)
    ensures g.add(x, g.add(y, z)) == g.add(y, g.add(x, z))
  {
    assert GroupAt(g, x, y, z) && GroupAt(g, y, x, z);
  }

  lemma LastTwo<E(!new)>(g: Field<E>, a: E, d: E, e: E, f: E)
    requires Valid(g)
    ensures g.add(a, g.add(g.add(d, e), f)) == g.add(d, g.add(f, g.add(a, e)))
  {
    assert GroupAt(g, d, e, f) && GroupAt(g, e, f, a);
    MoveIn(g, a, d, g.add(e, f));
    MoveIn(g, a, f, e);
    assert GroupAt(g, a, e, e);
  }

  /** The value of a polynomial at the `n`th power of the primitive element; the last coefficient is the lowest. */
  ghost function Eval<E>(g: Field<E>, emb: Val -> E, n: nat, vs: seq<Val>): E
    decreases |vs|
  {
    if vs == [] then g.zero
    else g.add(Pow(g, n, Eval(g, emb, n, vs[..|vs| - 1])), emb(vs[|vs| - 1]))
  }

  lemma EvalNext<E(!new)>(g: Field<E>, emb: Val -> E, n: nat, vs: seq<Val>, v: Val)
    ensures Eval(g, emb, n, vs + [v]) == g.add(Pow(g, n, Eval(g, emb, n, vs)), emb(v))
  {
    assert (vs + [v])[..|vs|] == vs;
  }

  lemma {:induction false} EvalAdds<E(!new)>(g: Field<E>, emb: Val -> E, n: nat, vs: seq<Val>, ws: seq<Val>)
    requires Embeds(g, emb) && |vs| == |ws|
    ensures Eval(g, emb, n, Sum(vs, ws)) == g.add(Eval(g, emb, n, vs), Eval(g, emb, n, ws))
    decreases |vs|
  {
    if vs == [] {
      Cancel(g, g.zero, g.zero, g.zero);
    } else {
      var k := |vs| - 1;
      var x, y := Eval(g, emb, n, vs[..k]), Eval(g, emb, n, ws[..k]);
      EvalAdds(g, emb, n, vs[..k], ws[..k]);
      assert Sum(vs, ws)[..k] == Sum(vs[..k], ws[..k]);
      PowAdds(g, n, x, y);
      assert EmbedsAt(g, emb, vs[k], ws[k]);
      Regroup(g, Pow(g, n, x), Pow(g, n, y), emb(vs[k]), emb(ws[k]));
    }
  }

  lemma PowMore<E(!new)>(g: Field<E>, n: nat, m: nat, y: E)
    requires m > 0
    ensures Pow(g, n, Pow(g, n * (m - 1), y)) == Pow(g, n * m, y)
  {
    NextProduct(n, m);
    PowSum(g, n, n * (m - 1), n * m, y);
  }

  lemma PowSum<E(!new)>(g: Field<E>, m: nat, n: nat, s: nat, y: E)
    requires s == m + n
    ensures Pow(g, m, Pow(g, n, y)) == Pow(g, s, y)
  {
    PowPow(g, m, n, y);
  }

  lemma NextProduct(n: nat, m: nat)
    requires m > 0
    ensures n * m == n + n * (m - 1)
  {
  }

  lemma Product(n: nat, a: nat, b: nat)
    requires b <= a
    ensures n * b + n * (a - b) == n * a
  {
  }

  // The first coefficient is the highest.
  lemma {:induction false} EvalFirst<E(!new)>(g: Field<E>, emb: Val -> E, n: nat, v: Val, vs: seq<Val>)
    requires Embeds(g, emb)
    ensures Eval(g, emb, n, [v] + vs) == g.add(Pow(g, n * |vs|, emb(v)), Eval(g, emb, n, vs))
    decreases |vs|
  {
    if vs == [] {
      EvalNext(g, emb, n, [], v);
      assert [v] + vs == [] + [v];
      PowZero(g, n);
      assert GroupAt(g, emb(v), g.zero, g.zero);
    } else {
      var k := |vs| - 1;
      var x, y := Pow(g, n * k, emb(v)), Eval(g, emb, n, vs[..k]);
      EvalFirst(g, emb, n, v, vs[..k]);
      assert [v] + vs == ([v] + vs[..k]) + [vs[k]];
      EvalNext(g, emb, n, [v] + vs[..k], vs[k]);
      PowAdds(g, n, x, y);
      PowMore(g, n, |vs|, emb(v));
      assert GroupAt(g, Pow(g, n, x), Pow(g, n, y), emb(vs[k]));
    }
  }

  // One coefficient more.
  ghost predicate Goes<E(!new)>(g: Field<E>, n: nat, x: E, w: E, y: E) { g.add(Pow(g, n, x), w) == y }

  lemma GoesOn<E(!new)>(g: Field<E>, emb: Val -> E, n: nat, vs: seq<Val>, x: E, v: Val, y: E)
    requires Eval(g, emb, n, vs) == x && Goes(g, n, x, emb(v), y)
    ensures Eval(g, emb, n, vs + [v]) == y
  {
    EvalNext(g, emb, n, vs, v);
  }

  lemma SixSteps<E(!new)>(g: Field<E>, emb: Val -> E, n: nat, vs: seq<Val>, x1: E, x2: E, x3: E, x4: E, x5: E)
    requires Embeds(g, emb) && |vs| == 6 && Goes(g, n, emb(vs[0]), emb(vs[1]), x1) && Goes(g, n, x1, emb(vs[2]), x2)
    requires Goes(g, n, x2, emb(vs[3]), x3) && Goes(g, n, x3, emb(vs[4]), x4) && Goes(g, n, x4, emb(vs[5]), x5)
    ensures Eval(g, emb, n, vs) == x5
  {
    EvalOne(g, emb, n, vs[0]);
    var v0 := [vs[0]];
    GoesOn(g, emb, n, v0, emb(vs[0]), vs[1], x1);
    var v1 := v0 + [vs[1]];
    GoesOn(g, emb, n, v1, x1, vs[2], x2);
    var v2 := v1 + [vs[2]];
    GoesOn(g, emb, n, v2, x2, vs[3], x3);
    var v3 := v2 + [vs[3]];
    GoesOn(g, emb, n, v3, x3, vs[4], x4);
    var v4 := v3 + [vs[4]];
    GoesOn(g, emb, n, v4, x4, vs[5], x5);
    assert v4 + [vs[5]] == vs;
  }

  // Coefficients multiplied by a power.
  lemma {:induction false} EvalScaled<E(!new)>(g: Field<E>, emb: Val -> E, n: nat, s: nat, vs: seq<Val>, ws: seq<Val>)
    requires Embeds(g, emb) && |vs| == |ws| && forall i :: 0 <= i < |vs| ==> emb(ws[i]) == Pow(g, s, emb(vs[i]))
    ensures Eval(g, emb, n, ws) == Pow(g, s, Eval(g, emb, n, vs))
    decreases |vs|
  {
    if vs == [] {
      PowZero(g, s);
    } else {
      var k := |vs| - 1;
      EvalScaled(g, emb, n, s, vs[..k], ws[..k]);
      var x := Eval(g, emb, n, vs[..k]);
      PowPow(g, n, s, x);
      PowPow(g, s, n, x);
      PowAdds(g, s, Pow(g, n, x), emb(vs[k]));
    }
  }

  lemma {:induction false} EvalZeros<E(!new)>(g: Field<E>, emb: Val -> E, n: nat, vs: seq<Val>, m: nat)
    requires Embeds(g, emb)
    ensures Eval(g, emb, n, vs + Zeros(m)) == Pow(g, n * m, Eval(g, emb, n, vs))
    decreases m
  {
    if m == 0 {
      assert vs + Zeros(0) == vs;
    } else {
      EvalZeros(g, emb, n, vs, m - 1);
      assert vs + Zeros(m) == (vs + Zeros(m - 1)) + [ZeroVal()];
      EvalNext(g, emb, n, vs + Zeros(m - 1), ZeroVal());
      var x := Eval(g, emb, n, vs);
      PowMore(g, n, m, x);
      assert GroupAt(g, Pow(g, n * m, x), g.zero, g.zero);
    }
  }

  // ---- Remainders ----

  /** The value of a packed remainder. */
  ghost function At<E>(g: Field<E>, emb: Val -> E, n: nat, c: Rem): E { Eval(g, emb, n, Unpacked(c)) }

  lemma AtXor<E(!new)>(g: Field<E>, emb: Val -> E, n: nat, c: Rem, d: Rem)
    requires Embeds(g, emb)
    ensures At(g, emb, n, Xor(c, d)) == g.add(At(g, emb, n, c), At(g, emb, n, d))
  {
    assert Unpacked(Xor(c, d)) == Sum(Unpacked(c), Unpacked(d)) by {
      forall j | 0 <= j < 6 ensures Group(Xor(c, d), j) == XorVal(Group(c, j), Group(d, j)) { }
    }
    EvalAdds(g, emb, n, Unpacked(c), Unpacked(d));
  }

  function Unit(m: nat): (v: Val)
    ensures forall i :: 0 <= i < 5 ==> v[i] == (i == m)
  {
    seq(5, i => i == m)
  }

  /** A root of the generator: the lower part has the value of the sixth power, multiples included. */
  ghost predicate IsRoot<E(!new)>(g: Field<E>, emb: Val -> E, n: nat) {
    forall m :: 0 <= m < 5 ==> At(g, emb, n, Generator(m)) == Pow(g, 6 * n, emb(Unit(m)))
  }

  // ---- The constants are the multiples of the first one ----

  /** The coefficients of the lower part of the generator and of its multiples. */
  function Coefficients(m: nat): seq<Val>
    requires m < 5
  {
    match m
    case 0 => [ValOf(29), ValOf(22), ValOf(20), ValOf(21), ValOf(29), ValOf(18)]
    case 1 => [ValOf(19), ValOf(5), ValOf(1), ValOf(3), ValOf(19), ValOf(13)]
    case 2 => [ValOf(15), ValOf(10), ValOf(2), ValOf(6), ValOf(15), ValOf(26)]
    case 3 => [ValOf(30), ValOf(20), ValOf(4), ValOf(12), ValOf(30), ValOf(29)]
    case 4 => [ValOf(21), ValOf(1), ValOf(8), ValOf(24), ValOf(21), ValOf(19)]
  }

  lemma GeneratorUnpacked(m: nat)
    requires m < 5
    ensures Unpacked(Generator(m)) == Coefficients(m)
  {
    match m
    case 0 => ConstUnpacked(29, 22, 20, 21, 29, 18, 0x3b6, 0x76d4, 0xeda95, 0x1db52bd, 0x3b6a57b2);
    case 1 => ConstUnpacked(19, 5, 1, 3, 19, 13, 0x265, 0x4ca1, 0x99423, 0x1328473, 0x26508e6d);
    case 2 => ConstUnpacked(15, 10, 2, 6, 15, 26, 0x1ea, 0x3d42, 0x7a846, 0xf508cf, 0x1ea119fa);
    case 3 => ConstUnpacked(30, 20, 4, 12, 30, 29, 0x3d4, 0x7a84, 0xf508c, 0x1ea119e, 0x3d4233dd);
    case 4 => ConstUnpacked(21, 1, 8, 24, 21, 19, 0x2a1, 0x5428, 0xa8518, 0x150a315, 0x2a1462b3);
  }

  lemma Multiples(m: nat, j: nat)
    requires m < 4 && j < 6
    ensures Coefficients(m + 1)[j] == Alpha(Coefficients(m)[j])
  {
  }

  ghost predicate AlphaAt<E(!new)>(g: Field<E>, emb: Val -> E, s: nat, v: Val) { emb(Alpha(v)) == Pow(g, s, emb(v)) }

  lemma MultipleAt<E(!new)>(g: Field<E>, emb: Val -> E, n: nat, s: nat, m: nat)
    requires Embeds(g, emb) && m < 4 && forall v: Val :: AlphaAt(g, emb, s, v)
    ensures At(g, emb, n, Generator(m + 1)) == Pow(g, s, At(g, emb, n, Generator(m)))
  {
    GeneratorUnpacked(m);
    GeneratorUnpacked(m + 1);
    var vs, ws := Unpacked(Generator(m)), Unpacked(Generator(m + 1));
    forall j | 0 <= j < 6 ensures emb(ws[j]) == Pow(g, s, emb(vs[j])) {
      Multiples(m, j);
      assert AlphaAt(g, emb, s, vs[j]);
    }
    EvalScaled(g, emb, n, s, vs, ws);
  }

  lemma {:induction false} RootMultiples<E(!new)>(g: Field<E>, emb: Val -> E, n: nat, s: nat, m: nat)
    requires Embeds(g, emb) && m < 5 && forall v: Val :: AlphaAt(g, emb, s, v)
    requires At(g, emb, n, Generator(0)) == Pow(g, 6 * n, emb(Unit(0)))
    ensures At(g, emb, n, Generator(m)) == Pow(g, 6 * n, emb(Unit(m)))
    decreases m
  {
    if m > 0 {
      RootMultiples(g, emb, n, s, m - 1);
      MultipleAt(g, emb, n, s, m - 1);
      var u := Unit(m - 1);
      assert Unit(m) == Alpha(u) && AlphaAt(g, emb, s, u);
      PowPow(g, s, 6 * n, emb(u));
      PowPow(g, 6 * n, s, emb(u));
    }
  }

  /** It is enough that the lower part of the generator itself has the value of the sixth power. */
  lemma RootIf<E(!new)>(g: Field<E>, emb: Val -> E, n: nat, s: nat)
    requires Embeds(g, emb) && forall v: Val :: AlphaAt(g, emb, s, v)
    requires Eval(g, emb, n, Coefficients(0)) == Pow(g, 6 * n, emb(Unit(0)))
    ensures IsRoot(g, emb, n)
  {
    GeneratorUnpacked(0);
    forall m | 0 <= m < 5 ensures At(g, emb, n, Generator(m)) == Pow(g, 6 * n, emb(Unit(m))) {
      RootMultiples(g, emb, n, s, m);
    }
  }

  // ---- Values of remainders ----

  // The first `k` bits of the highest coefficient.
  function Highest(c: Rem, k: nat): (v: Val)
    ensures forall i :: 0 <= i < 5 ==> v[i] == (i < k && c[25 + i])
  {
    seq(5, i requires 0 <= i < 5 => i < k && c[25 + i])
  }

  lemma {:induction false} ReducedAt<E(!new)>(g: Field<E>, emb: Val -> E, n: nat, t: Rem, c: Rem, k: nat)
    requires Embeds(g, emb) && IsRoot(g, emb, n) && k <= 5
    ensures At(g, emb, n, Reduced(t, c, k)) == g.add(At(g, emb, n, t), Pow(g, 6 * n, emb(Highest(c, k))))
    decreases k
  {
    var a := At(g, emb, n, t);
    if k == 0 {
      assert Highest(c, 0) == ZeroVal();
      PowZero(g, 6 * n);
      assert GroupAt(g, a, g.zero, g.zero);
    } else {
      ReducedAt(g, emb, n, t, c, k - 1);
      var h := Highest(c, k - 1);
      if c[25 + k - 1] {
        assert Highest(c, k) == XorVal(h, Unit(k - 1));
        AtXor(g, emb, n, Reduced(t, c, k - 1), Generator(k - 1));
        assert EmbedsAt(g, emb, h, Unit(k - 1));
        PowAdds(g, 6 * n, emb(h), emb(Unit(k - 1)));
        assert GroupAt(g, a, Pow(g, 6 * n, emb(h)), Pow(g, 6 * n, emb(Unit(k - 1))));
      } else {
        assert Highest(c, k) == h;
      }
    }
  }

  lemma UnpackedShifted(c: Rem, v: Val)
    ensures Unpacked(c) + [v] == [Unpacked(c)[0]] + Unpacked(Shifted(c, v))
    ensures Unpacked(c)[0] == Highest(c, 5)
  {
    var r := Shifted(c, v);
    forall j | 0 <= j < 5 ensures Group(r, j) == Group(c, j + 1) { }
    assert Group(r, 5) == v;
    assert Group(c, 0) == Highest(c, 5);
  }

  /** One more coefficient multiplies the value at a root and adds to it. */
  lemma StepAt<E(!new)>(g: Field<E>, emb: Val -> E, n: nat, c: Rem, v: Val)
    requires Embeds(g, emb) && IsRoot(g, emb, n)
    ensures At(g, emb, n, Step(c, v)) == g.add(Pow(g, n, At(g, emb, n, c)), emb(v))
  {
    var t := Shifted(c, v);
    ReducedAt(g, emb, n, t, c, 5);
    UnpackedShifted(c, v);
    EvalNext(g, emb, n, Unpacked(c), v);
    EvalFirst(g, emb, n, Unpacked(c)[0], Unpacked(t));
    assert GroupAt(g, At(g, emb, n, t), Pow(g, 6 * n, emb(Highest(c, 5))), g.zero);
  }

  lemma AtZeroRem<E(!new)>(g: Field<E>, emb: Val -> E, n: nat)
    requires Embeds(g, emb)
    ensures At(g, emb, n, ZeroRem()) == g.zero
  {
    forall j | 0 <= j < 6 ensures Group(ZeroRem(), j) == ZeroVal() { }
    assert Unpacked(ZeroRem()) == [] + Zeros(6);
    EvalZeros(g, emb, n, [], 6);
    PowZero(g, n * 6);
  }

  /** The remainder has the value of the polynomial itself. */
  lemma {:induction false} FoldAt<E(!new)>(g: Field<E>, emb: Val -> E, n: nat, vs: seq<Val>)
    requires Embeds(g, emb) && IsRoot(g, emb, n)
    ensures At(g, emb, n, Fold(ZeroRem(), vs)) == Eval(g, emb, n, vs)
    decreases |vs|
  {
    if vs == [] {
      AtZeroRem(g, emb, n);
    } else {
      var k := |vs| - 1;
      FoldAt(g, emb, n, vs[..k]);
      assert vs == vs[..k] + [vs[k]];
      FoldAppend(ZeroRem(), vs[..k], [vs[k]]);
      StepAt(g, emb, n, Fold(ZeroRem(), vs[..k]), vs[k]);
    }
  }

  // ---- Errors ----

  /** Three consecutive powers are roots. */
  ghost predicate BCH<E(!new)>(g: Field<E>, emb: Val -> E, n: nat) {
    && Primitive(g) && Embeds(g, emb) && IsRoot(g, emb, n) && IsRoot(g, emb, n + 1) && IsRoot(g, emb, n + 2)
    && forall v: Val :: emb(v) == g.zero ==> v == ZeroVal()
  }

  /** Up to three errors: the last, one `b` places before it and one `a` places before it. */
  function Errors(a: nat, b: nat, d: Val, d': Val, d'': Val): seq<Val>
    requires 0 < b < a
  {
    [d] + Zeros(a - b - 1) + [d'] + Zeros(b - 1) + [d'']
  }

  // After an error, zeros and another one.
  lemma NextError<E(!new)>(g: Field<E>, emb: Val -> E, n: nat, vs: seq<Val>, m: nat, d: Val)
    requires Embeds(g, emb) && m > 0
    ensures Eval(g, emb, n, vs + Zeros(m - 1) + [d]) == g.add(Pow(g, n * m, Eval(g, emb, n, vs)), emb(d))
  {
    EvalZeros(g, emb, n, vs, m - 1);
    EvalNext(g, emb, n, vs + Zeros(m - 1), d);
    PowMore(g, n, m, Eval(g, emb, n, vs));
  }

  lemma PowSplit<E(!new)>(g: Field<E>, n: nat, a: nat, b: nat, y: E)
    requires b <= a
    ensures Pow(g, n * b, Pow(g, n * (a - b), y)) == Pow(g, n * a, y)
  {
    Product(n, a, b);
    PowSum(g, n * b, n * (a - b), n * a, y);
  }

  lemma ErrorsAt<E(!new)>(g: Field<E>, emb: Val -> E, n: nat, a: nat, b: nat, d: Val, d': Val, d'': Val)
    requires Embeds(g, emb) && 0 < b < a
    ensures Eval(g, emb, n, Errors(a, b, d, d', d'')) ==
            g.add(g.add(Pow(g, n * a, emb(d)), Pow(g, n * b, emb(d'))), emb(d''))
  {
    TwoAt(g, emb, n, a - b, d, d');
    NextError(g, emb, n, [d] + Zeros(a - b - 1) + [d'], b, d'');
    PowAdds(g, n * b, Pow(g, n * (a - b), emb(d)), emb(d'));
    PowSplit(g, n, a, b, emb(d));
  }

  lemma TwoAt<E(!new)>(g: Field<E>, emb: Val -> E, n: nat, a: nat, d: Val, d': Val)
    requires Embeds(g, emb) && 0 < a
    ensures Eval(g, emb, n, [d] + Zeros(a - 1) + [d']) == g.add(Pow(g, n * a, emb(d)), emb(d'))
  {
    EvalOne(g, emb, n, d);
    NextError(g, emb, n, [d], a, d');
  }

  lemma EvalOne<E(!new)>(g: Field<E>, emb: Val -> E, n: nat, d: Val)
    requires Embeds(g, emb)
    ensures Eval(g, emb, n, [d]) == emb(d)
  {
    EvalFirst(g, emb, n, d, []);
    assert [d] + [] == [d] && GroupAt(g, emb(d), g.zero, g.zero);
  }

  lemma ZeroAt<E(!new)>(g: Field<E>, emb: Val -> E, n: nat, vs: seq<Val>)
    requires Embeds(g, emb) && IsRoot(g, emb, n) && Zero(Fold(ZeroRem(), vs))
    ensures Eval(g, emb, n, vs) == g.zero
  {
    FoldAt(g, emb, n, vs);
    assert Fold(ZeroRem(), vs) == ZeroRem();
    AtZeroRem(g, emb, n);
  }

  lemma NotZero<E(!new)>(g: Field<E>, emb: Val -> E, n: nat, m: nat, d: Val)
    requires BCH(g, emb, n) && Pow(g, m, emb(d)) == g.zero
    ensures d == ZeroVal()
  {
    PowZero(g, m);
    PowInjective(g, m, emb(d), g.zero);
  }

  // The multiple at a later power.
  lemma LaterPower<E(!new)>(g: Field<E>, n: nat, k: nat, a: nat, e: E)
    ensures Pow(g, (n + k) * a, e) == Pow(g, k * a, Pow(g, n * a, e))
  {
    assert (n + k) * a == k * a + n * a;
    PowSum(g, k * a, n * a, (n + k) * a, e);
  }

  lemma ThreeAtRoot<E(!new)>(g: Field<E>, emb: Val -> E, n: nat, k: nat, a: nat, b: nat, d: Val, d': Val, d'': Val,
                             x: E, y: E, ka: nat, kb: nat)
    requires Embeds(g, emb) && IsRoot(g, emb, n + k) && 0 < b < a && Zero(Fold(ZeroRem(), Errors(a, b, d, d', d'')))
    requires x == Pow(g, n * a, emb(d)) && y == Pow(g, n * b, emb(d')) && ka == k * a && kb == k * b
    ensures g.add(g.add(Pow(g, ka, x), Pow(g, kb, y)), emb(d'')) == g.zero
  {
    ZeroAt(g, emb, n + k, Errors(a, b, d, d', d''));
    ErrorsAt(g, emb, n + k, a, b, d, d', d'');
    LaterPower(g, n, k, a, emb(d));
    LaterPower(g, n, k, b, emb(d'));
  }

  lemma ThreeTerms<E(!new)>(g: Field<E>, emb: Val -> E, n: nat, a: nat, b: nat, d: Val, d': Val, d'': Val, x: E, y: E)
    requires BCH(g, emb, n) && 0 < b < a < 1023 && Zero(Fold(ZeroRem(), Errors(a, b, d, d', d'')))
    requires x == Pow(g, n * a, emb(d)) && y == Pow(g, n * b, emb(d'))
    ensures x == g.zero && y == g.zero && emb(d'') == g.zero
  {
    ThreeAtRoot(g, emb, n, 0, a, b, d, d', d'', x, y, 0, 0);
    ThreeAtRoot(g, emb, n, 1, a, b, d, d', d'', x, y, a, b);
    ThreeAtRoot(g, emb, n, 2, a, b, d, d', d'', x, y, 2 * a, 2 * b);
    ThreeCancel(g, a, b, x, y, emb(d''));
  }

  /** Three errors within 1023 values never cancel. */
  lemma ThreeErrors<E(!new)>(g: Field<E>, emb: Val -> E, n: nat, a: nat, b: nat, d: Val, d': Val, d'': Val)
    requires BCH(g, emb, n) && 0 < b < a < 1023 && Zero(Fold(ZeroRem(), Errors(a, b, d, d', d'')))
    ensures d == ZeroVal() && d' == ZeroVal() && d'' == ZeroVal()
  {
    ThreeTerms(g, emb, n, a, b, d, d', d'', Pow(g, n * a, emb(d)), Pow(g, n * b, emb(d')));
    NotZero(g, emb, n, n * a, d);
    NotZero(g, emb, n, n * b, d');
  }

  lemma TwoAtRoot<E(!new)>(g: Field<E>, emb: Val -> E, n: nat, k: nat, a: nat, d: Val, d': Val, x: E)
    requires Embeds(g, emb) && IsRoot(g, emb, n + k) && 0 < a && Zero(Fold(ZeroRem(), [d] + Zeros(a - 1) + [d']))
    requires x == Pow(g, n * a, emb(d))
    ensures g.add(Pow(g, k * a, x), emb(d')) == g.zero
  {
    ZeroAt(g, emb, n + k, [d] + Zeros(a - 1) + [d']);
    TwoAt(g, emb, n + k, a, d, d');
    LaterPower(g, n, k, a, emb(d));
  }

  /** Nor do two. */
  lemma TwoErrors<E(!new)>(g: Field<E>, emb: Val -> E, n: nat, a: nat, d: Val, d': Val)
    requires BCH(g, emb, n) && 0 < a < 1023 && Zero(Fold(ZeroRem(), [d] + Zeros(a - 1) + [d']))
    ensures d == ZeroVal() && d' == ZeroVal()
  {
    var x := Pow(g, n * a, emb(d));
    TwoAtRoot(g, emb, n, 0, a, d, d', x);
    TwoAtRoot(g, emb, n, 1, a, d, d', x);
    TwoCancel(g, a, x, emb(d'));
    NotZero(g, emb, n, n * a, d);
  }
}
