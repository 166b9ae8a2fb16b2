/**
 The roots of the Bech32 generator, and the errors its checksum therefore detects: any three wrong values
 in a window of 1023 (src/bech32.cpp:44-49).
 */
module Bech32Distance {
  import opened Bech32Spec
  import opened Cyclic
  import opened Galois
  import opened Bech32Roots

  /** A field element for five bits: the second stands for a root of a^5 + a^3 + 1. */
  function Embedded(v: Val): bv10 { Spread(GF, 1, 14, 84, 856, 191, v) }

  lemma EmbeddedAdds(v: Val, w: Val)
    ensures EmbedsAt(GF, Embedded, v, w)
  {
    IsField();
    SpreadAdds(GF, 1, 14, 84, 856, 191, v, w);
  }

  lemma EmbeddedInjective(v: Val)
    requires Embedded(v) == 0
    ensures v == ZeroVal()
  {
  }

  lemma EmbedsValues()
    ensures Embeds(GF, Embedded)
  {
    IsField();
    forall v: Val, w: Val ensures EmbedsAt(GF, Embedded, v, w) { EmbeddedAdds(v, w); }
  }

  lemma AlphaEmbedded(v: Val)
    ensures Embedded(Alpha(v)) == Pow(GF, 924, Embedded(v))
  {
    IsField();
    Power924();
    PowIsMul(924, 14);
    PowIsMul(924, 84);
    PowIsMul(924, 856);
    PowIsMul(924, 191);
    SpreadPow(GF, 924, 1, 14, 84, 856, 191, v);
    SpreadAlpha(GF, 1, 14, 84, 856, 191, v);
  }

  lemma AlphaAlways()
    ensures forall v: Val :: AlphaAt(GF, Embedded, 924, v)
  {
    forall v: Val ensures AlphaAt(GF, Embedded, 924, v) { AlphaEmbedded(v); }
  }

  // ---- Roots ----

  lemma EmbeddedNumbers()
    ensures Embedded(ValOf(29)) == 0x3b2 && Embedded(ValOf(22)) == 0xe5 && Embedded(ValOf(20)) == 0xeb
  {
  }

  lemma EmbeddedMore()
    ensures Embedded(ValOf(21)) == 0xea && Embedded(ValOf(18)) == 0xb1 && Embedded(Unit(0)) == 1
  {
  }

  // One coefficient more, by a product.
  lemma GoesByProduct(n: nat, c: bv10, x: bv10, w: bv10, y: bv10)
    requires Pow(GF, n, 1) == c && Mul(x, c) ^ w == y
    ensures Goes(GF, n, x, w, y)
  {
    PowIsMul(n, x);
  }

  lemma RootAt(n: nat, x1: bv10, x2: bv10, x3: bv10, x4: bv10, x5: bv10)
    requires Goes(GF, n, 0x3b2, 0xe5, x1) && Goes(GF, n, x1, 0xeb, x2) && Goes(GF, n, x2, 0xea, x3)
    requires Goes(GF, n, x3, 0x3b2, x4) && Goes(GF, n, x4, 0xb1, x5) && Pow(GF, 6 * n, 1) == x5
    ensures IsRoot(GF, Embedded, n)
  {
    EmbeddedNumbers();
    EmbeddedMore();
    EmbedsValues();
    SixSteps(GF, Embedded, n, Coefficients(0), x1, x2, x3, x4, x5);
    AlphaAlways();
    RootIf(GF, Embedded, n, 924);
  }

  lemma Root24()
    ensures IsRoot(GF, Embedded, 24)
  {
    RootPowers();
    SixthPowers();
    GoesByProduct(24, 0x3f0, 0x3b2, 0xe5, 0x7d);
    GoesByProduct(24, 0x3f0, 0x7d, 0xeb, 0x7d);
    GoesByProduct(24, 0x3f0, 0x7d, 0xea, 0x7c);
    GoesByProduct(24, 0x3f0, 0x7c, 0x3b2, 0xd4);
    GoesByProduct(24, 0x3f0, 0xd4, 0xb1, 0x2ba);
    RootAt(24, 0x7d, 0x7d, 0x7c, 0xd4, 0x2ba);
  }

  lemma Root25()
    ensures IsRoot(GF, Embedded, 25)
  {
    RootPowers();
    SixthPowers();
    GoesByProduct(25, 0x2c3, 0x3b2, 0xe5, 0x1d5);
    GoesByProduct(25, 0x2c3, 0x1d5, 0xeb, 0x3ad);
    GoesByProduct(25, 0x2c3, 0x3ad, 0xea, 0x69);
    GoesByProduct(25, 0x2c3, 0x69, 0x3b2, 0x3df);
    GoesByProduct(25, 0x2c3, 0x3df, 0xb1, 0xa6);
    RootAt(25, 0x1d5, 0x3ad, 0x69, 0x3df, 0xa6);
  }

  lemma Root26()
    ensures IsRoot(GF, Embedded, 26)
  {
    RootPowers();
    SixthPowers();
    GoesByProduct(26, 0xa5, 0x3b2, 0xe5, 0x285);
    GoesByProduct(26, 0xa5, 0x285, 0xeb, 0xaa);
    GoesByProduct(26, 0xa5, 0xaa, 0xea, 0x137);
    GoesByProduct(26, 0xa5, 0x137, 0x3b2, 0x193);
    GoesByProduct(26, 0xa5, 0x193, 0xb1, 0x98);
    RootAt(26, 0x285, 0xaa, 0x137, 0x193, 0x98);
  }

  /** The 24th, 25th and 26th powers are roots of the generator. */
  lemma IsBCH()
    ensures BCH(GF, Embedded, 24)
  {
    IsPrimitive();
    EmbedsValues();
    Root24();
    Root25();
    Root26();
    forall v: Val | Embedded(v) == 0 ensures v == ZeroVal() { EmbeddedInjective(v); }
  }

  // ---- Errors ----

  /** Two lists agree but for three places at most. */
  predicate AgreeExcept(vs: seq<Val>, ws: seq<Val>, i: nat, j: nat, k: nat) {
    |vs| == |ws| && forall m :: 0 <= m < |vs| && m != i && m != j && m != k ==> vs[m] == ws[m]
  }

  lemma ThreePlaces(s: seq<Val>, i: nat, j: nat, k: nat)
    requires i < j < k < |s| && AgreeExcept(s, Zeros(|s|), i, j, k)
    ensures s == Zeros(i) + Errors(k - i, k - j, s[i], s[j], s[k]) + Zeros(|s| - 1 - k)
  {
  }

  lemma TwoPlaces(s: seq<Val>, i: nat, k: nat)
    requires i < k < |s| && AgreeExcept(s, Zeros(|s|), i, i, k)
    ensures s == Zeros(i) + ([s[i]] + Zeros(k - i - 1) + [s[k]]) + Zeros(|s| - 1 - k)
  {
  }

  lemma OnePlace(s: seq<Val>, i: nat)
    requires i < |s| && AgreeExcept(s, Zeros(|s|), i, i, i)
    ensures s == Zeros(i) + [s[i]] + Zeros(|s| - 1 - i)
  {
  }

  lemma NoThree(a: nat, b: nat, d: Val, d': Val, d'': Val)
    requires 0 < b < a < 1023 && Zero(Fold(ZeroRem(), Errors(a, b, d, d', d'')))
    ensures d == ZeroVal() && d' == ZeroVal() && d'' == ZeroVal()
  {
    IsBCH();
    ThreeErrors(GF, Embedded, 24, a, b, d, d', d'');
  }

  lemma NoTwo(a: nat, d: Val, d': Val)
    requires 0 < a < 1023 && Zero(Fold(ZeroRem(), [d] + Zeros(a - 1) + [d']))
    ensures d == ZeroVal() && d' == ZeroVal()
  {
    IsBCH();
    TwoErrors(GF, Embedded, 24, a, d, d');
  }

  lemma ThreeZeros(s: seq<Val>, i: nat, j: nat, k: nat)
    requires i < j < k < |s| && k - i < 1023 && Zero(Fold(ZeroRem(), s)) && AgreeExcept(s, Zeros(|s|), i, j, k)
    ensures s[i] == ZeroVal() && s[j] == ZeroVal() && s[k] == ZeroVal()
  {
    ThreePlaces(s, i, j, k);
    WindowZero(i, Errors(k - i, k - j, s[i], s[j], s[k]), |s| - 1 - k);
    NoThree(k - i, k - j, s[i], s[j], s[k]);
  }

  lemma TwoZeros(s: seq<Val>, i: nat, k: nat)
    requires i < k < |s| && k - i < 1023 && Zero(Fold(ZeroRem(), s)) && AgreeExcept(s, Zeros(|s|), i, i, k)
    ensures s[i] == ZeroVal() && s[k] == ZeroVal()
  {
    TwoPlaces(s, i, k);
    WindowZero(i, [s[i]] + Zeros(k - i - 1) + [s[k]], |s| - 1 - k);
    NoTwo(k - i, s[i], s[k]);
  }

  lemma OneZero(s: seq<Val>, i: nat)
    requires i < |s| && Zero(Fold(ZeroRem(), s)) && AgreeExcept(s, Zeros(|s|), i, i, i)
    ensures s[i] == ZeroVal()
  {
    OnePlace(s, i);
    BurstNonzero(i, [s[i]], |s| - 1 - i);
    assert [s[i]][0] == Zeros(1)[0];
  }

  // Up to three values that are not zero, within 1023.
  lemma OnlyZeros(s: seq<Val>, i: nat, j: nat, k: nat)
    requires i <= j <= k < |s| && k - i < 1023 && Zero(Fold(ZeroRem(), s)) && AgreeExcept(s, Zeros(|s|), i, j, k)
    ensures s[i] == ZeroVal() && s[j] == ZeroVal() && s[k] == ZeroVal()
  {
    if i < j < k {
      ThreeZeros(s, i, j, k);
    } else if i < k {
      TwoZeros(s, i, k);
    } else {
      OneZero(s, i);
    }
  }

  lemma DifferencesAt(vs: seq<Val>, ws: seq<Val>, i: nat, j: nat, k: nat)
    requires AgreeExcept(vs, ws, i, j, k)
    ensures AgreeExcept(Sum(vs, ws), Zeros(|vs|), i, j, k)
  {
  }

  /** Up to three wrong values in a window of 1023 are always detected. */
  lemma ThreeDetected(vs: seq<Val>, ws: seq<Val>, i: nat, j: nat, k: nat)
    requires i <= j <= k < |vs| && k - i < 1023 && AgreeExcept(vs, ws, i, j, k)
    requires Fold(OneRem(), vs) == OneRem() && Fold(OneRem(), ws) == OneRem()
    ensures vs == ws
  {
    DifferenceZero(OneRem(), vs, ws);
    DifferencesAt(vs, ws, i, j, k);
    OnlyZeros(Sum(vs, ws), i, j, k);
    SameIfZero(vs[i], ws[i]);
    SameIfZero(vs[j], ws[j]);
    SameIfZero(vs[k], ws[k]);
  }
}
