/**
 The Bech32 checksum (section "Bech32" of BIP 173; src/bech32.cpp): a linear code over 5-bit values,
 computed as the remainder of a polynomial whose six coefficients are packed into thirty bits.
 */
module Bech32Spec {
  import opened Powers

  // ---- Bits ----

  predicate Is5(s: seq<bool>) { |s| == 5 }

  predicate Is30(s: seq<bool>) { |s| == 30 }

  /** A 5-bit value, lowest bit first. */
  type Val = s: seq<bool> | Is5(s) witness seq(5, _ => false)

  /** A packed remainder, lowest bit first. */
  type Rem = s: seq<bool> | Is30(s) witness seq(30, _ => false)

  predicate X(a: bool, b: bool) { a != b }

  function Xor(c: Rem, d: Rem): (r: Rem)
    ensures forall i :: 0 <= i < 30 ==> r[i] == X(c[i], d[i])
  {
    seq(30, i requires 0 <= i < 30 => X(c[i], d[i]))
  }

  function XorVal(v: Val, w: Val): (r: Val)
    ensures forall i :: 0 <= i < 5 ==> r[i] == X(v[i], w[i])
  {
    seq(5, i requires 0 <= i < 5 => X(v[i], w[i]))
  }

  function ZeroRem(): (r: Rem)
    ensures Zero(r)
  {
    seq(30, _ => false)
  }

  function OneRem(): (r: Rem)
    ensures forall i :: 0 <= i < 30 ==> r[i] == (i == 0)
  {
    seq(30, i => i == 0)
  }

  function ZeroVal(): (r: Val)
    ensures forall i :: 0 <= i < 5 ==> !r[i]
  {
    seq(5, _ => false)
  }

  /** The bits of a number. */
  function Const(k: nat): (r: Rem)
    ensures forall i :: 0 <= i < 30 ==> r[i] == (k / Pow2(i) % 2 == 1)
  {
    seq(30, i requires 0 <= i < 30 => k / Pow2(i) % 2 == 1)
  }

  /** The five lowest bits of a number. */
  function ValOf(n: nat): Val { [n % 2 == 1, n / 2 % 2 == 1, n / 4 % 2 == 1, n / 8 % 2 == 1, n / 16 % 2 == 1] }

  // ---- Steps ----

  /** Multiples of the generator's lower part by 1, 2, 4, 8 and 16. */
  function Generator(n: nat): Rem
    requires n < 5
  {
    Const(match n
          case 0 => 0x3b6a57b2
          case 1 => 0x26508e6d
          case 2 => 0x1ea119fa
          case 3 => 0x3d4233dd
          case 4 => 0x2a1462b3)
  }

  /** Move all but the highest coefficient up and add a value below. */
  function Shifted(c: Rem, v: Val): (r: Rem)
    ensures forall i :: 0 <= i < 30 ==> r[i] == if i < 5 then v[i] else c[i - 5]
  {
    v + c[..25]
  }

  /** Add the multiples of the generator for the first `n` bits of the highest coefficient. */
  function Reduced(t: Rem, c: Rem, n: nat): Rem
    requires n <= 5
  {
    if n == 0 then t else
      var u := Reduced(t, c, n - 1);
      if c[25 + n - 1] then Xor(u, Generator(n - 1)) else u
  }

  /** One more coefficient: multiply by x, add it, and reduce by the generator. */
  function Step(c: Rem, v: Val): Rem { Reduced(Shifted(c, v), c, 5) }

  lemma {:induction false} ReducedLinear(t: Rem, u: Rem, c: Rem, d: Rem, n: nat)
    requires n <= 5
    ensures Reduced(Xor(t, u), Xor(c, d), n) == Xor(Reduced(t, c, n), Reduced(u, d, n))
  {
    if n > 0 { ReducedLinear(t, u, c, d, n - 1); }
  }

  /** A step is linear. */
  lemma StepLinear(c: Rem, d: Rem, v: Val, w: Val)
    ensures Step(Xor(c, d), XorVal(v, w)) == Xor(Step(c, v), Step(d, w))
  {
    assert Shifted(Xor(c, d), XorVal(v, w)) == Xor(Shifted(c, v), Shifted(d, w));
    ReducedLinear(Shifted(c, v), Shifted(d, w), c, d, 5);
  }

  // With an empty highest coefficient there is nothing to reduce.
  lemma {:induction false} NoReduction(t: Rem, c: Rem, n: nat)
    requires n <= 5 && forall i :: 25 <= i < 30 ==> !c[i]
    ensures Reduced(t, c, n) == t
  {
    if n > 0 { NoReduction(t, c, n - 1); }
  }

  // The five lowest bits of a number.
  predicate LowBits(c: Rem, b0: bool, b1: bool, b2: bool, b3: bool, b4: bool) {
    c[0] == b0 && c[1] == b1 && c[2] == b2 && c[3] == b3 && c[4] == b4
  }

  lemma ConstLow(k: nat)
    ensures LowBits(Const(k), k % 2 == 1, k / 2 % 2 == 1, k / 4 % 2 == 1, k / 8 % 2 == 1, k / 16 % 2 == 1)
  {
    assert Pow2(0) == 1 && Pow2(1) == 2;
    assert Pow2(2) == 4 && Pow2(3) == 8;
    assert Pow2(4) == 16;
  }

  // The lowest coefficients of the generator's multiples: 18, 13, 26, 29 and 19.
  lemma Low18()
    ensures LowBits(Generator(0), false, true, false, false, true)
  {
    ConstLow(0x3b6a57b2);
  }

  lemma Low13()
    ensures LowBits(Generator(1), true, false, true, true, false)
  {
    ConstLow(0x26508e6d);
  }

  lemma Low26()
    ensures LowBits(Generator(2), false, true, false, true, true)
  {
    ConstLow(0x1ea119fa);
  }

  lemma Low29()
    ensures LowBits(Generator(3), true, false, true, true, true)
  {
    ConstLow(0x3d4233dd);
  }

  lemma Low19()
    ensures LowBits(Generator(4), true, true, false, false, true)
  {
    ConstLow(0x2a1462b3);
  }

  predicate Zero(c: Rem) { forall i :: 0 <= i < 30 ==> !c[i] }

  lemma ReducedBit(t: Rem, c: Rem, n: nat, i: nat)
    requires 0 < n <= 5 && i < 30
    ensures Reduced(t, c, n)[i] == X(Reduced(t, c, n - 1)[i], c[25 + n - 1] && Generator(n - 1)[i])
  {
  }

  lemma LowBit(c: Rem, i: nat)
    requires i < 5
    ensures Step(c, ZeroVal())[i] ==
            X(X(X(X(c[25] && Generator(0)[i], c[26] && Generator(1)[i]), c[27] && Generator(2)[i]), c[28] &&
                Generator(3)[i]), c[29] && Generator(4)[i])
  {
    var t := Shifted(c, ZeroVal());
    ReducedBit(t, c, 1, i);
    ReducedBit(t, c, 2, i);
    ReducedBit(t, c, 3, i);
    ReducedBit(t, c, 4, i);
    ReducedBit(t, c, 5, i);
  }

  // Five equations in the five bits of the highest coefficient.
  lemma HighestZero(c: Rem)
    requires Zero(Step(c, ZeroVal()))
    ensures forall i :: 25 <= i < 30 ==> !c[i]
  {
    Low18();
    Low13();
    Low26();
    Low29();
    Low19();
    LowBit(c, 0);
    LowBit(c, 1);
    LowBit(c, 2);
    LowBit(c, 3);
    LowBit(c, 4);
    Solve(c[25], c[26], c[27], c[28], c[29]);
  }

  lemma Solve(a: bool, b: bool, c: bool, d: bool, e: bool)
    requires X(X(b, d), e) == false && X(X(a, c), e) == false && X(b, d) == false && X(X(b, c), d) == false
    requires X(X(X(a, c), d), e) == false
    ensures !a && !b && !c && !d && !e
  {
  }

  /** Nothing but zero leads to zero. */
  lemma StepInjective(c: Rem)
    requires Zero(Step(c, ZeroVal()))
    ensures Zero(c)
  {
    HighestZero(c);
    NoReduction(Shifted(c, ZeroVal()), c, 5);
    forall i | 0 <= i < 25 ensures !c[i] { assert Shifted(c, ZeroVal())[i + 5] == c[i]; }
  }

  // ---- Lists of values ----

  /** The remainder after more coefficients. */
  function Fold(c: Rem, vs: seq<Val>): Rem
    decreases |vs|
  {
    if vs == [] then c else Fold(Step(c, vs[0]), vs[1..])
  }

  lemma {:induction false} FoldAppend(c: Rem, vs: seq<Val>, ws: seq<Val>)
    ensures Fold(c, vs + ws) == Fold(Fold(c, vs), ws)
    decreases |vs|
  {
    if vs == [] {
      assert vs + ws == ws;
    } else {
      assert (vs + ws)[1..] == vs[1..] + ws;
      FoldAppend(Step(c, vs[0]), vs[1..], ws);
    }
  }

  /** Sum of two lists of equal length. */
  function Sum(vs: seq<Val>, ws: seq<Val>): (r: seq<Val>)
    requires |vs| == |ws|
    ensures |r| == |vs| && forall i :: 0 <= i < |r| ==> r[i] == XorVal(vs[i], ws[i])
  {
    seq(|vs|, i requires 0 <= i < |vs| => XorVal(vs[i], ws[i]))
  }

  /** The whole computation is linear. */
  lemma {:induction false} FoldLinear(c: Rem, d: Rem, vs: seq<Val>, ws: seq<Val>)
    requires |vs| == |ws|
    ensures Fold(Xor(c, d), Sum(vs, ws)) == Xor(Fold(c, vs), Fold(d, ws))
    decreases |vs|
  {
    if vs != [] {
      StepLinear(c, d, vs[0], ws[0]);
      assert Sum(vs, ws)[1..] == Sum(vs[1..], ws[1..]);
      FoldLinear(Step(c, vs[0]), Step(d, ws[0]), vs[1..], ws[1..]);
    }
  }

  function Zeros(n: nat): (r: seq<Val>)
    ensures |r| == n && forall i :: 0 <= i < n ==> r[i] == ZeroVal()
  {
    seq(n, _ => ZeroVal())
  }

  /** A remainder that is not zero stays so under zeros. */
  lemma {:induction false} StaysNonzero(c: Rem, n: nat)
    requires Zero(Fold(c, Zeros(n)))
    ensures Zero(c)
    decreases n
  {
    if n > 0 {
      assert Zeros(n)[1..] == Zeros(n - 1);
      StaysNonzero(Step(c, ZeroVal()), n - 1);
      StepInjective(c);
    }
  }

  // ---- Up to six values ----

  // A bit of packed values.
  predicate PackedBit(vs: seq<Val>, i: nat) { if i / 5 < |vs| then vs[|vs| - 1 - i / 5][i % 5] else false }

  /** Values packed, the last in the lowest bits. */
  function Packed(vs: seq<Val>): (r: Rem)
    requires |vs| <= 6
    ensures forall i :: 0 <= i < 30 ==> r[i] == PackedBit(vs, i)
  {
    seq(30, i requires 0 <= i < 30 => PackedBit(vs, i))
  }

  lemma PackedStep(vs: seq<Val>, v: Val)
    requires |vs| <= 5
    ensures Step(Packed(vs), v) == Packed(vs + [v])
  {
    NoReduction(Shifted(Packed(vs), v), Packed(vs), 5);
    var l, r := Shifted(Packed(vs), v), Packed(vs + [v]);
    forall i | 0 <= i < 30 ensures l[i] == r[i] {
      if i >= 5 { assert (i - 5) / 5 == i / 5 - 1 && (i - 5) % 5 == i % 5; }
    }
  }

  /** From zero, six values make up the remainder as they are. */
  lemma {:induction false} FoldPacked(vs: seq<Val>)
    requires |vs| <= 6
    ensures Fold(ZeroRem(), vs) == Packed(vs)
    decreases |vs|
  {
    if vs == [] {
      assert Packed(vs) == ZeroRem();
    } else {
      var n := |vs| - 1;
      FoldPacked(vs[..n]);
      assert vs == vs[..n] + [vs[n]];
      FoldAppend(ZeroRem(), vs[..n], [vs[n]]);
      PackedStep(vs[..n], vs[n]);
      assert [vs[n]][1..] == [];
    }
  }

  lemma PackedZero(vs: seq<Val>)
    requires |vs| <= 6 && Zero(Packed(vs))
    ensures vs == Zeros(|vs|)
  {
    forall j | 0 <= j < |vs| ensures vs[j] == ZeroVal() {
      forall b | 0 <= b < 5 ensures !vs[j][b] {
        var i := 5 * (|vs| - 1 - j) + b;
        assert i / 5 == |vs| - 1 - j && i % 5 == b;
        assert !Packed(vs)[i];
      }
    }
  }

  /** The six groups of five bits, highest first. */
  function Unpacked(c: Rem): (vs: seq<Val>)
    ensures |vs| == 6 && forall j :: 0 <= j < 6 ==> vs[j] == Group(c, j)
  {
    seq(6, j requires 0 <= j < 6 => Group(c, j))
  }

  function Group(c: Rem, j: nat): Val
    requires j < 6
  {
    c[5 * (5 - j)..5 * (5 - j) + 5]
  }

  lemma ConstHalf(k: nat, i: nat)
    requires i < 29
    ensures Const(k)[i + 1] == Const(k / 2)[i]
  {
    DivTwice(k, Pow2(i));
  }

  lemma ConstShift(k: nat, i: nat)
    requires i < 25
    ensures Const(k)[i + 5] == Const(k / 32)[i]
  {
    ConstHalf(k, i + 4);
    ConstHalf(k / 2, i + 3);
    ConstHalf(k / 4, i + 2);
    ConstHalf(k / 8, i + 1);
    ConstHalf(k / 16, i);
    assert k / 2 / 2 == k / 4 && k / 4 / 2 == k / 8 && k / 8 / 2 == k / 16 && k / 16 / 2 == k / 32;
  }

  // A group of a number is the one before it of a thirty-second of the number.
  lemma ConstGroup(k: nat, j: nat)
    requires j < 5
    ensures Group(Const(k), j) == Group(Const(k / 32), j + 1)
  {
    var v, w := Group(Const(k), j), Group(Const(k / 32), j + 1);
    forall i | 0 <= i < 5 ensures v[i] == w[i] { ConstShift(k, 5 * (4 - j) + i); }
  }

  lemma EvenPart(q: nat, d: nat, p: nat)
    requires p > 0
    ensures (2 * q * p + d) / p % 2 == d / p % 2
  {
    var r := d / p;
    assert d == r * p + d % p;
    assert 2 * q * p + d == (2 * q + r) * p + d % p;
    DivUnique(2 * q * p + d, p, 2 * q + r);
  }

  lemma ValMod(q: nat, d: nat)
    ensures ValOf(32 * q + d) == ValOf(d)
  {
    EvenPart(16 * q, d, 1);
    EvenPart(8 * q, d, 2);
    EvenPart(4 * q, d, 4);
    EvenPart(2 * q, d, 8);
    EvenPart(q, d, 16);
  }

  lemma LowestDigit(k: nat, q: nat, d: nat)
    requires k == 32 * q + d && d < 32
    ensures Group(Const(k), 5) == ValOf(d)
    ensures forall j :: 0 <= j < 5 ==> Group(Const(k), j) == Group(Const(q), j + 1)
  {
    ConstGroups(k);
    ValMod(q, d);
    assert k / 32 == q;
  }

  /** A number is unpacked into its digits. */
  lemma ConstUnpacked(d0: nat, d1: nat, d2: nat, d3: nat, d4: nat, d5: nat, k1: nat, k2: nat, k3: nat, k4: nat, k: nat)
    requires k1 == 32 * d0 + d1 && k2 == 32 * k1 + d2 && k3 == 32 * k2 + d3 && k4 == 32 * k3 + d4 && k == 32 * k4 + d5
    requires d1 < 32 && d2 < 32 && d3 < 32 && d4 < 32 && d5 < 32
    ensures Unpacked(Const(k)) == [ValOf(d0), ValOf(d1), ValOf(d2), ValOf(d3), ValOf(d4), ValOf(d5)]
  {
    LowestDigit(k, k4, d5);
    LowestDigit(k4, k3, d4);
    LowestDigit(k3, k2, d3);
    LowestDigit(k2, k1, d2);
    LowestDigit(k1, d0, d1);
    ConstGroups(d0);
  }

  lemma ConstGroups(k: nat)
    ensures Group(Const(k), 5) == ValOf(k) && forall j :: 0 <= j < 5 ==>
            Group(Const(k), j) == Group(Const(k / 32), j + 1)
  {
    ConstLow(k);
    forall j | 0 <= j < 5 ensures Group(Const(k), j) == Group(Const(k / 32), j + 1) { ConstGroup(k, j); }
  }

  lemma UnpackedPacked(c: Rem)
    ensures Packed(Unpacked(c)) == c
  {
    forall i | 0 <= i < 30 ensures Packed(Unpacked(c))[i] == c[i] {
      assert Unpacked(c)[5 - i / 5] == Group(c, 5 - i / 5);
      assert 5 * (i / 5) + i % 5 == i;
    }
  }

  // ---- Checksums ----

  /** Values followed by their checksum give the remainder one. */
  predicate Verifies(prefix: seq<Val>, vs: seq<Val>) { Fold(OneRem(), prefix + vs) == OneRem() }

  /** What has to be added to six zeros to get the remainder one. */
  function Checksum(prefix: seq<Val>, vs: seq<Val>): seq<Val> {
    Unpacked(Xor(Fold(OneRem(), prefix + vs + Zeros(6)), OneRem()))
  }

  lemma SumZero(vs: seq<Val>)
    ensures Sum(Zeros(|vs|), vs) == vs
  {
    forall i | 0 <= i < |vs| ensures XorVal(ZeroVal(), vs[i]) == vs[i] { }
  }

  lemma XorFacts(c: Rem, d: Rem)
    ensures Xor(c, ZeroRem()) == c && Xor(c, c) == ZeroRem() && Xor(c, Xor(c, d)) == d
    ensures Zero(Xor(c, d)) <==> c == d
  {
  }

  /** Six values added to six zeros add to the remainder. */
  lemma SixValues(c: Rem, vs: seq<Val>)
    requires |vs| == 6
    ensures Fold(c, vs) == Xor(Fold(c, Zeros(6)), Packed(vs))
  {
    FoldLinear(c, ZeroRem(), Zeros(6), vs);
    FoldPacked(vs);
    SumZero(vs);
    XorFacts(c, c);
  }

  /** The created checksum always verifies. */
  lemma ChecksumVerifies(prefix: seq<Val>, vs: seq<Val>)
    ensures Verifies(prefix, vs + Checksum(prefix, vs))
  {
    var c := Fold(OneRem(), prefix + vs);
    FoldAppend(OneRem(), prefix + vs, Zeros(6));
    var mod := Xor(Fold(c, Zeros(6)), OneRem());
    SixValues(c, Unpacked(mod));
    UnpackedPacked(mod);
    XorFacts(Fold(c, Zeros(6)), OneRem());
    assert prefix + (vs + Unpacked(mod)) == (prefix + vs) + Unpacked(mod);
    FoldAppend(OneRem(), prefix + vs, Unpacked(mod));
  }

  // Zeros before and after do not matter.
  lemma WindowZero(a: nat, ds: seq<Val>, b: nat)
    requires Zero(Fold(ZeroRem(), Zeros(a) + ds + Zeros(b)))
    ensures Zero(Fold(ZeroRem(), ds))
  {
    StaysZero(a);
    FoldAppend(ZeroRem(), Zeros(a), ds);
    FoldAppend(ZeroRem(), Zeros(a) + ds, Zeros(b));
    StaysNonzero(Fold(ZeroRem(), ds), b);
  }

  /** The difference of two lists with the same remainder has the remainder zero. */
  lemma DifferenceZero(c: Rem, vs: seq<Val>, ws: seq<Val>)
    requires |vs| == |ws| && Fold(c, vs) == Fold(c, ws)
    ensures Zero(Fold(ZeroRem(), Sum(vs, ws)))
  {
    FoldLinear(c, c, vs, ws);
    XorFacts(c, c);
    XorFacts(Fold(c, vs), Fold(c, vs));
  }

  lemma SameIfZero(v: Val, w: Val)
    requires XorVal(v, w) == ZeroVal()
    ensures v == w
  {
    forall b | 0 <= b < 5 ensures v[b] == w[b] { assert !XorVal(v, w)[b]; }
  }

  /** A difference confined to six consecutive values is never zero in the end. */
  lemma BurstNonzero(a: nat, ds: seq<Val>, b: nat)
    requires |ds| <= 6 && Zero(Fold(ZeroRem(), Zeros(a) + ds + Zeros(b)))
    ensures ds == Zeros(|ds|)
  {
    WindowZero(a, ds, b);
    FoldPacked(ds);
    PackedZero(ds);
  }

  lemma {:induction false} StaysZero(n: nat)
    ensures Fold(ZeroRem(), Zeros(n)) == ZeroRem()
  {
    if n > 0 {
      var t := Shifted(ZeroRem(), ZeroVal());
      NoReduction(t, ZeroRem(), 5);
      assert t == ZeroRem();
      assert Zeros(n)[1..] == Zeros(n - 1);
      StaysZero(n - 1);
    }
  }

  /** Two lists agree outside a window of six values. */
  predicate AgreeOutside(vs: seq<Val>, ws: seq<Val>, a: nat) {
    |vs| == |ws| && forall i :: 0 <= i < |vs| && !(a <= i < a + 6) ==> vs[i] == ws[i]
  }

  function Min(a: nat, b: nat): nat { if a < b then a else b }

  lemma WindowOfSum(vs: seq<Val>, ws: seq<Val>, a: nat)
    requires AgreeOutside(vs, ws, a)
    ensures var s, lo := Sum(vs, ws), Min(a, |vs|); var hi := Min(a + 6, |vs|);
            s == Zeros(lo) + s[lo..hi] + Zeros(|vs| - hi)
  {
    forall i | 0 <= i < |vs| && !(a <= i < a + 6) ensures Sum(vs, ws)[i] == ZeroVal() { }
  }

  /** Any change of a valid list within six consecutive values is detected. */
  lemma BurstDetected(prefix: seq<Val>, vs: seq<Val>, ws: seq<Val>, a: nat)
    requires AgreeOutside(vs, ws, a) && Verifies(prefix, vs) && Verifies(prefix, ws)
    ensures vs == ws
  {
    var c := Fold(OneRem(), prefix);
    FoldAppend(OneRem(), prefix, vs);
    FoldAppend(OneRem(), prefix, ws);
    DifferenceZero(c, vs, ws);
    var s, lo, hi := Sum(vs, ws), Min(a, |vs|), Min(a + 6, |vs|);
    WindowOfSum(vs, ws, a);
    BurstNonzero(lo, s[lo..hi], |vs| - hi);
    forall i | 0 <= i < |vs| ensures vs[i] == ws[i] {
      if lo <= i < hi {
        assert s[lo..hi][i - lo] == ZeroVal();
        SameIfZero(vs[i], ws[i]);
      }
    }
  }
}
