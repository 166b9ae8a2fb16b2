/** Comparison, bit length and shifts of 256-bit numbers (src/arith_uint256.cpp). */
module ArithShift {
  import opened Radix
  import opened Arith256

  // ---- Comparison ----

  lemma {:induction false} HigherLimbDecides(a: seq<nat>, b: seq<nat>, i: nat)
    requires |a| == |b| && Digits(a, BASE) && Digits(b, BASE) && i < |a| && a[i + 1..] == b[i + 1..] && a[i] < b[i]
    ensures Value(a, BASE) < Value(b, BASE)
    decreases i
  {
    if i > 0 {
      assert a[1..][i..] == a[i + 1..] && b[1..][i..] == b[i + 1..];
      HigherLimbDecides(a[1..], b[1..], i - 1);
    }
  }

  /** The sign of the difference, from the highest limb down. */
  method CompareTo(a: array<nat>, b: array<nat>) returns (r: int)
    requires Limbs(a) && Limbs(b)
    ensures r < 0 <==> Num(a) < Num(b)
    ensures r == 0 <==> Num(a) == Num(b)
    ensures r > 0 <==> Num(a) > Num(b)
  {
    var i := WIDTH;
    while i > 0
      invariant 0 <= i <= WIDTH && a[i..] == b[i..]
    {
      i := i - 1;
      if a[i] < b[i] {
        HigherLimbDecides(a[..], b[..], i);
        return -1;
      }
      if a[i] > b[i] {
        HigherLimbDecides(b[..], a[..], i);
        return 1;
      }
      assert a[i..] == [a[i]] + a[i + 1..] && b[i..] == [b[i]] + b[i + 1..];
    }
    assert a[0..] == a[..] && b[0..] == b[..];
    return 0;
  }

  // ---- Bits ----

  function P2(n: nat): (r: nat)
    ensures r > 0
  {
    Pow(2, n)
  }

  lemma LimbPower(k: nat)
    ensures Pow(BASE, k) == P2(32 * k)
  {
    assert Pow(2, 2) == 4;
    PowSum(2, 2, 2, 4, 4);
    PowSum(2, 4, 4, 16, 16);
    PowSum(2, 8, 8, 256, 256);
    PowSum(2, 16, 16, 0x1_0000, 0x1_0000);
    PowMul(2, 32, k);
  }

  lemma P2Add(m: nat, n: nat)
    ensures P2(m + n) == P2(m) * P2(n)
  {
    PowAdd(2, m, n);
  }

  lemma P2Grows(m: nat, n: nat)
    requires m <= n
    ensures P2(m) <= P2(n)
  {
    PowExponent(2, m, n);
  }

  /** The position of the highest bit plus one. */
  ghost predicate BitLength(v: nat, n: nat) { if n == 0 then v == 0 else P2(n - 1) <= v < P2(n) }

  lemma BitLengthUnique(v: nat, m: nat, n: nat)
    requires BitLength(v, m) && BitLength(v, n)
    ensures m == n
  {
    if m < n {
      P2Grows(m, n - 1);
    } else if n < m {
      P2Grows(n, m - 1);
    }
  }

  // The highest set bit of a limb that is not zero.
  method HighestBit(x: nat) returns (n: nat)
    requires 0 < x < BASE
    ensures n < 32 && P2(n) <= x < P2(n + 1)
  {
    n := 31;
    LimbPower(1);
    assert Pow(BASE, 1) == BASE;
    while n > 0
      invariant n < 32 && x < P2(n + 1)
    {
      if Rem(Quot(x, P2(n)), 2) == 1 {
        QuotPositive(x, P2(n));
        return;
      }
      NextBit(x, n);
      n := n - 1;
    }
  }

  lemma QuotPositive(x: nat, d: nat)
    requires d > 0 && Rem(Quot(x, d), 2) == 1
    ensures d <= x
  {
    DivMod(x, d);
    if Quot(x, d) == 0 { assert false; }
    MulMonotone(d, 1, d, Quot(x, d));
  }

  lemma NextBit(x: nat, n: nat)
    requires x < P2(n + 1) && Rem(Quot(x, P2(n)), 2) != 1
    ensures x < P2(n)
  {
    var d := P2(n);
    assert P2(n + 1) == 2 * d;
    DivMod(x, d);
    if Quot(x, d) >= 2 { MulMonotone(d, 2, d, Quot(x, d)); }
    if Quot(x, d) == 0 { assert d * 0 == 0; }
  }

  lemma {:induction false} HighestLimb(a: seq<nat>, pos: nat, n: nat)
    requires Digits(a, BASE) && pos < |a| && P2(n) <= a[pos] < P2(n + 1) && AllZero(a[pos + 1..])
    ensures BitLength(Value(a, BASE), 32 * pos + n + 1)
  {
    var p := Pow(BASE, pos);
    assert a[..pos + 1] == a[..pos] + [a[pos]];
    ValueAppend(a[..pos], a[pos], BASE);
    ValueSplit(a, pos + 1);
    ZeroValue(a[pos + 1..], BASE);
    assert Pow(BASE, pos + 1) * 0 == 0;
    ValueBound(a[..pos], BASE);
    LimbPower(pos);
    P2Add(32 * pos, n);
    P2Add(32 * pos, n + 1);
    MulMonotone(p, P2(n), p, a[pos]);
    MulMonotone(p, a[pos] + 1, p, P2(n + 1));
    Dist(p, a[pos], 1);
  }

  /** The position of the highest bit plus one, or zero. */
  method Bits(a: array<nat>) returns (n: nat)
    requires Limbs(a)
    ensures n <= 256 && BitLength(Num(a), n) && forall m: nat :: BitLength(Num(a), m) ==> m == n
  {
    n := HighestSet(a);
    forall m: nat | BitLength(Num(a), m) ensures m == n { BitLengthUnique(Num(a), m, n); }
  }

  method HighestSet(a: array<nat>) returns (n: nat)
    requires Limbs(a)
    ensures n <= 256 && BitLength(Num(a), n)
  {
    var pos := WIDTH;
    while pos > 0
      invariant 0 <= pos <= WIDTH && AllZero(a[pos..])
    {
      pos := pos - 1;
      if a[pos] != 0 {
        var top := HighestBit(a[pos]);
        HighestLimb(a[..], pos, top);
        return 32 * pos + top + 1;
      }
    }
    assert a[0..] == a[..];
    ZeroValue(a[..], BASE);
    return 0;
  }

  // ---- Disjoint bits ----

  /** Bitwise or. */
  function Or(x: nat, y: nat): nat {
    if x == 0 && y == 0 then 0
    else (if x % 2 == 1 || y % 2 == 1 then 1 else 0) + 2 * Or(x / 2, y / 2)
  }

  lemma {:induction false} OrZero(y: nat)
    ensures Or(0, y) == y
  {
    if y > 0 { OrZero(y / 2); }
  }

  /** Without common bits, or is addition. */
  lemma {:induction false} OrAdds(x: nat, y: nat, s: nat)
    requires x < P2(s)
    ensures Or(x, P2(s) * y) == x + P2(s) * y
    decreases s
  {
    if s == 0 {
      OrZero(y);
    } else {
      assert P2(s) == 2 * P2(s - 1);
      Assoc(2, P2(s - 1), y);
      OrAdds(x / 2, y, s - 1);
    }
  }

  lemma OrSymmetric(x: nat, y: nat)
    ensures Or(x, y) == Or(y, x)
  {
  }

  lemma {:induction false} ValueUpdate(a: seq<nat>, t: nat, d: nat)
    requires t < |a|
    ensures Value(a[t := a[t] + d], BASE) == Value(a, BASE) + Pow(BASE, t) * d
    decreases t
  {
    if t > 0 {
      assert a[t := a[t] + d][1..] == a[1..][t - 1 := a[1..][t - 1] + d];
      ValueUpdate(a[1..], t - 1, d);
      Dist(BASE, Value(a[1..], BASE), Pow(BASE, t - 1) * d);
      Assoc(BASE, Pow(BASE, t - 1), d);
    } else {
      assert a[0 := a[0] + d][1..] == a[1..];
    }
  }

  // ---- Shifting left ----

  // The parts of a limb that stay and that move to the next one when it is shifted by s bits.
  function Stays(x: nat, s: nat): nat { Rem(Mul(x, P2(s)), BASE) }

  function Moves(x: nat, s: nat): nat
    requires s < 32
  {
    Quot(x, P2(32 - s))
  }

  lemma HalfPowers(s: nat)
    requires s < 32
    ensures P2(s) * P2(32 - s) == BASE
  {
    P2Add(s, 32 - s);
    LimbPower(1);
    assert Pow(BASE, 1) == BASE;
  }

  lemma SplitLimb(x: nat, p: nat, r: nat)
    requires x < BASE && p > 0 && r > 0 && p * r == BASE
    ensures x * p == p * Rem(x, r) + BASE * Quot(x, r) && p * Rem(x, r) + p <= BASE
  {
    DivMod(x, r);
    Dist(p, Rem(x, r), r * Quot(x, r));
    Assoc(p, r, Quot(x, r));
    MulMonotone(p, Rem(x, r) + 1, p, r);
    Dist(p, Rem(x, r), 1);
  }

  lemma QuotientSmall(x: nat, p: nat, r: nat)
    requires x < p * r && r > 0
    ensures Quot(x, r) < p
  {
    DivMod(x, r);
    if Quot(x, r) >= p { MulMonotone(p, r, Quot(x, r), r); }
  }

  /** Shifting a limb splits it; the part that stays is a multiple, the other is small. */
  lemma LimbShift(x: nat, s: nat)
    requires x < BASE && s < 32
    ensures x * P2(s) == Stays(x, s) + BASE * Moves(x, s)
    ensures Stays(x, s) == P2(s) * Rem(x, P2(32 - s)) && Stays(x, s) + P2(s) <= BASE && Moves(x, s) < P2(s)
    ensures s == 0 ==> Moves(x, s) == 0
  {
    var p, r := P2(s), P2(32 - s);
    HalfPowers(s);
    SplitLimb(x, p, r);
    SmallRemainder(Mul(x, p), Mul(p, Rem(x, r)), Quot(x, r));
    QuotientSmall(x, p, r);
    if s == 0 { assert P2(0) == 1; }
  }

  lemma SmallRemainder(total: nat, v: nat, k: nat)
    requires total == v + BASE * k && v < BASE
    ensures Rem(total, BASE) == v
  {
  }

  // A limb increased, if there is such a limb.
  function Added(c: seq<nat>, t: nat, d: nat): (r: seq<nat>)
    ensures |r| == |c| && forall i :: 0 <= i < |c| && i != t ==> r[i] == c[i]
  {
    if t < |c| then c[t := c[t] + d] else c
  }

  /** What is lost beyond the highest limb. */
  function Lost(t: nat, d: nat): nat { if t < WIDTH then 0 else Mul(Pow(BASE, t - WIDTH), d) }

  lemma AddedValue(c: seq<nat>, t: nat, d: nat)
    requires |c| == WIDTH
    ensures Value(Added(c, t, d), BASE) + MODULUS * Lost(t, d) == Value(c, BASE) + Pow(BASE, t) * d
  {
    if t < WIDTH {
      ValueUpdate(c, t, d);
      assert MODULUS * 0 == 0;
    } else {
      LostValue(t, d);
    }
  }

  lemma LostValue(t: nat, d: nat)
    requires t >= WIDTH
    ensures MODULUS * Lost(t, d) == Pow(BASE, t) * d
  {
    var p := Pow(BASE, t - WIDTH);
    PowAdd(BASE, WIDTH, t - WIDTH);
    ModulusIs();
    Assoc(MODULUS, p, d);
  }

  /** The first `i` limbs of a number shifted left by k limbs and s bits, up to a multiple of the modulus. */
  ghost predicate ShiftedLeft(c: seq<nat>, a: seq<nat>, i: nat, k: nat, s: nat, lost: nat) {
    && i <= |a| && |c| == WIDTH && Digits(c, BASE) && (forall t :: i + k < t < WIDTH ==> c[t] == 0) &&
       (i + k < WIDTH ==> c[i + k] < P2(s))
    && Value(c, BASE) + MODULUS * lost == Value(a[..i], BASE) * (Pow(BASE, k) * P2(s))
  }

  function LeftStep(c: seq<nat>, x: nat, t: nat, s: nat): seq<nat>
    requires s < 32
  {
    Added(Added(c, t + 1, Moves(x, s)), t, Stays(x, s))
  }

  lemma LeftArith(v: nat, bi: nat, bk: nat, bt: nat, x: nat, p: nat, st: nat, mv: nat)
    requires bt == bi * bk && x * p == st + BASE * mv
    ensures (v + bi * x) * (bk * p) == v * (bk * p) + bt * st + (BASE * bt) * mv
  {
    Dist(bk * p, v, bi * x);
    assert (bi * x) * (bk * p) == bt * (x * p) by {
      Assoc(bi, x, bk * p);
      Assoc(x, bk, p);
      Assoc(bk, x, p);
      Assoc(bi, bk, x * p);
    }
    Dist(bt, st, BASE * mv);
    Assoc(bt, BASE, mv);
  }

  lemma LeftStepDigits(c: seq<nat>, a: seq<nat>, i: nat, k: nat, s: nat, lost: nat)
    requires ShiftedLeft(c, a, i, k, s, lost) && i < |a| && Digits(a, BASE) && s < 32
    ensures var c' := LeftStep(c, a[i], i + k, s);
            && |c'| == WIDTH && Digits(c', BASE) && (forall t :: i + 1 + k < t < WIDTH ==> c'[t] == 0)
            && (i + 1 + k < WIDTH ==> c'[i + 1 + k] < P2(s))
  {
    LimbShift(a[i], s);
    HalfPowers(s);
    MulMonotone(P2(s), 1, P2(s), P2(32 - s));
  }

  lemma LeftStepOk(c: seq<nat>, a: seq<nat>, i: nat, k: nat, s: nat, lost: nat) returns (lost': nat)
    requires ShiftedLeft(c, a, i, k, s, lost) && i < |a| && Digits(a, BASE) && s < 32
    ensures ShiftedLeft(LeftStep(c, a[i], i + k, s), a, i + 1, k, s, lost')
  {
    var x, t := a[i], i + k;
    LeftStepDigits(c, a, i, k, s, lost);
    LimbShift(x, s);
    var c1 := Added(c, t + 1, Moves(x, s));
    AddedValue(c, t + 1, Moves(x, s));
    AddedValue(c1, t, Stays(x, s));
    lost' := lost + Lost(t + 1, Moves(x, s)) + Lost(t, Stays(x, s));
    assert a[..i + 1] == a[..i] + [x];
    ValueAppend(a[..i], x, BASE);
    PowAdd(BASE, i, k);
    LeftArith(Value(a[..i], BASE), Pow(BASE, i), Pow(BASE, k), Pow(BASE, t), x, P2(s), Stays(x, s), Moves(x, s));
    assert Pow(BASE, t + 1) == BASE * Pow(BASE, t);
  }

  lemma LeftStart(a: seq<nat>, k: nat, s: nat)
    requires s < 32
    ensures ShiftedLeft(seq(WIDTH, _ => 0), a, 0, k, s, 0)
  {
    ZeroValue(seq(WIDTH, _ => 0), BASE);
    assert a[..0] == [];
    assert Value(a[..0], BASE) * (Pow(BASE, k) * P2(s)) == 0;
  }

  // The limb writes of one step, with or for addition.
  lemma LeftOrs(c: seq<nat>, a: seq<nat>, i: nat, k: nat, s: nat, lost: nat)
    requires ShiftedLeft(c, a, i, k, s, lost) && i < |a| && Digits(a, BASE) && s < 32
    ensures i + k + 1 < WIDTH ==> Or(c[i + k + 1], Moves(a[i], s)) == c[i + k + 1] + Moves(a[i], s)
    ensures i + k < WIDTH ==> Or(c[i + k], Stays(a[i], s)) == c[i + k] + Stays(a[i], s)
    ensures s == 0 ==> Moves(a[i], s) == 0
  {
    LimbShift(a[i], s);
    OrZero(Moves(a[i], s));
    if i + k < WIDTH { OrAdds(c[i + k], Rem(a[i], P2(32 - s)), s); }
  }

  method Clear(pn: array<nat>)
    requires pn.Length == WIDTH
    modifies pn
    ensures pn[..] == seq(WIDTH, _ => 0)
  {
    for i := 0 to WIDTH
      invariant forall t :: 0 <= t < i ==> pn[t] == 0
    {
      pn[i] := 0;
    }
  }

  // Distribute one limb over two.
  method ShiftLimbLeft(pn: array<nat>, a: seq<nat>, i: nat, k: nat, s: nat, ghost lost: nat)
    requires pn.Length == WIDTH && ShiftedLeft(pn[..], a, i, k, s, lost) && i < |a| && Digits(a, BASE) && s < 32
    modifies pn
    ensures pn[..] == LeftStep(old(pn[..]), a[i], i + k, s)
  {
    ghost var c := pn[..];
    LeftOrs(c, a, i, k, s, lost);
    if i + k + 1 < WIDTH && s != 0 {
      OrLimb(pn, i + k + 1, Moves(a[i], s));
    } else {
      assert Added(c, i + k + 1, Moves(a[i], s)) == c;
    }
    if i + k < WIDTH { OrLimb(pn, i + k, Stays(a[i], s)); }
  }

  // Set bits of a limb that are clear.
  method OrLimb(pn: array<nat>, t: nat, d: nat)
    requires pn.Length == WIDTH && t < WIDTH && Or(pn[t], d) == pn[t] + d
    modifies pn
    ensures pn[..] == Added(old(pn[..]), t, d)
  {
    pn[t] := Or(pn[t], d);
  }

  /** Shift left by any number of bits, modulo 2^256. */
  method ShiftLeft(pn: array<nat>, shift: nat)
    requires Limbs(pn)
    modifies pn
    ensures Limbs(pn) && Num(pn) == old(Num(pn)) * P2(shift) % MODULUS
  {
    var a := pn[..];
    Clear(pn);
    var k, s := shift / 32, shift % 32;
    ghost var lost := 0;
    LeftStart(a, k, s);
    for i := 0 to WIDTH
      invariant ShiftedLeft(pn[..], a, i, k, s, lost)
    {
      ghost var lost' := LeftStepOk(pn[..], a, i, k, s, lost);
      ShiftLimbLeft(pn, a, i, k, s, lost);
      lost := lost';
    }
    LeftEnd(pn[..], a, shift, lost);
  }

  lemma LeftEnd(c: seq<nat>, a: seq<nat>, shift: nat, lost: nat)
    requires |a| == WIDTH && ShiftedLeft(c, a, WIDTH, shift / 32, shift % 32, lost)
    ensures Value(c, BASE) == Value(a, BASE) * P2(shift) % MODULUS
  {
    var k, s := shift / 32, shift % 32;
    assert a[..WIDTH] == a;
    LimbPower(k);
    P2Add(32 * k, s);
    LimbsBound(c);
    RemainderIs(Value(a, BASE) * P2(shift), Value(c, BASE), MODULUS, lost);
  }

  // ---- Shifting right ----

  // The parts of a limb that stay and that move to the limb below when it is shifted by s bits.
  function Keeps(x: nat, s: nat): nat { Quot(x, P2(s)) }

  function Falls(x: nat, s: nat): nat
    requires s < 32
  {
    Rem(Mul(x, P2(32 - s)), BASE)
  }

  lemma LimbFall(x: nat, s: nat)
    requires x < BASE && s < 32
    ensures x == Rem(x, P2(s)) + P2(s) * Keeps(x, s) && Keeps(x, s) < P2(32 - s)
    ensures Falls(x, s) == P2(32 - s) * Rem(x, P2(s)) && Falls(x, s) + P2(32 - s) <= BASE
    ensures s == 0 ==> Falls(x, s) == 0
  {
    var p, r := P2(s), P2(32 - s);
    HalfPowers(s);
    DivMod(x, p);
    assert r * p == BASE;
    SplitLimb(x, r, p);
    SmallRemainder(Mul(x, r), Mul(r, Rem(x, p)), Quot(x, p));
    QuotientSmall(x, r, p);
    if s == 0 { assert P2(0) == 1; }
  }

  /** The first `i` limbs of a number shifted right by k limbs and s bits, with what falls out at the end. */
  ghost predicate ShiftedRight(c: seq<nat>, a: seq<nat>, i: nat, k: nat, s: nat, rest: nat) {
    && i <= |a| && s < 32 && |c| == WIDTH && Digits(c, BASE) && (forall t :: 0 <= t < WIDTH && t >= i - k ==> c[t] == 0)
    && (0 < i - k <= WIDTH ==> c[i - k - 1] < P2(32 - s))
    && Value(a[..i], BASE) == Value(c, BASE) * (Pow(BASE, k) * P2(s)) + rest && rest < Pow(BASE, k) * P2(s)
    && (i <= k ==> rest < Pow(BASE, i) && Value(c, BASE) == 0)
  }

  lemma RightStart(a: seq<nat>, k: nat, s: nat)
    requires s < 32
    ensures ShiftedRight(seq(WIDTH, _ => 0), a, 0, k, s, 0)
  {
    ZeroValue(seq(WIDTH, _ => 0), BASE);
    assert a[..0] == [] && 0 * (Pow(BASE, k) * P2(s)) == 0;
  }

  lemma PrefixLimb(a: seq<nat>, i: nat)
    requires i < |a|
    ensures Value(a[..i + 1], BASE) == Value(a[..i], BASE) + Pow(BASE, i) * a[i]
  {
    assert a[..i + 1] == a[..i] + [a[i]];
    ValueAppend(a[..i], a[i], BASE);
  }

  // A limb that falls out altogether.
  lemma RightBelow(c: seq<nat>, a: seq<nat>, i: nat, k: nat, s: nat, rest: nat)
    requires ShiftedRight(c, a, i, k, s, rest) && i < k && i < |a| && Digits(a, BASE)
    ensures ShiftedRight(c, a, i + 1, k, s, rest + Mul(Pow(BASE, i), a[i]))
  {
    var p := Pow(BASE, i);
    PrefixLimb(a, i);
    MulMonotone(p, a[i] + 1, p, BASE);
    Dist(p, a[i], 1);
    PowExponent(BASE, i + 1, k);
    MulMonotone(Pow(BASE, k), 1, Pow(BASE, k), P2(s));
    assert 0 * (Pow(BASE, k) * P2(s)) == 0;
  }

  lemma AtArith(p: nat, q: nat, x: nat, lo: nat, hi: nat, rest: nat)
    requires x == lo + q * hi && lo < q && rest < p
    ensures rest + p * x == hi * (p * q) + (rest + p * lo) && rest + p * lo < p * q
  {
    Dist(p, lo, q * hi);
    Assoc(p, q, hi);
    MulMonotone(p, lo + 1, p, q);
    Dist(p, lo, 1);
  }

  // The limb that becomes the lowest.
  lemma RightAt(c: seq<nat>, a: seq<nat>, k: nat, s: nat, rest: nat)
    requires ShiftedRight(c, a, k, k, s, rest) && k < |a| <= WIDTH && Digits(a, BASE)
    ensures ShiftedRight(c[0 := Keeps(a[k], s)], a, k + 1, k, s, rest + Mul(Pow(BASE, k), Rem(a[k], P2(s))))
  {
    var p, q, x := Pow(BASE, k), P2(s), a[k];
    var c' := c[0 := Keeps(x, s)];
    LimbFall(x, s);
    PrefixLimb(a, k);
    assert c[0] == 0 && Pow(BASE, 0) == 1 && c' == c[0 := c[0] + Keeps(x, s)];
    ValueUpdate(c, 0, Keeps(x, s));
    assert Value(c', BASE) == Keeps(x, s);
    assert Value(a[..k], BASE) == rest by { assert 0 * (p * q) == 0; }
    AtArith(p, q, x, Rem(x, q), Keeps(x, s), rest);
    FallBound(s);
  }

  lemma FallBound(s: nat)
    requires s < 32
    ensures P2(32 - s) <= BASE
  {
    HalfPowers(s);
    MulMonotone(P2(32 - s), 1, P2(32 - s), P2(s));
  }

  function RightStep(c: seq<nat>, x: nat, t: nat, s: nat): seq<nat>
    requires s < 32 && 0 < t
  {
    Added(Added(c, t - 1, Falls(x, s)), t, Keeps(x, s))
  }

  lemma RightArith(bt: nat, bk: nat, bi: nat, p: nat, r: nat, x: nat, lo: nat, hi: nat)
    requires (BASE * bt) * bk == bi && p * r == BASE && x == lo + p * hi
    ensures (bt * (r * lo) + (BASE * bt) * hi) * (bk * p) == bi * x
  {
    var m := bk * p;
    Dist(m, bt * (r * lo), (BASE * bt) * hi);
    assert (bt * (r * lo)) * m == bi * lo by {
      Assoc(bt, r, lo);
      Assoc(bt, r, bk * p);
      Assoc(bt * r, lo, m);
      Assoc(lo, bt * r, m);
      assert (bt * r) * (bk * p) == bi by {
        Assoc(bt * r, bk, p);
        Assoc(bt, r, bk);
        Assoc(bt, bk, r);
        Assoc(bt * bk, r, p);
        Assoc(BASE, bt, bk);
      }
    }
    assert ((BASE * bt) * hi) * m == bi * (p * hi) by {
      Assoc(BASE * bt, hi, m);
      Assoc(hi, bk, p);
      Assoc(bk, hi, p);
      Assoc(BASE * bt, bk, hi * p);
    }
    Dist(bi, lo, p * hi);
  }

  // A limb distributed over two.
  lemma RightAboveDigits(c: seq<nat>, a: seq<nat>, i: nat, k: nat, s: nat, rest: nat)
    requires ShiftedRight(c, a, i, k, s, rest) && k < i < |a| <= WIDTH && Digits(a, BASE)
    ensures var c' := RightStep(c, a[i], i - k, s);
            && |c'| == WIDTH && Digits(c', BASE) && (forall t :: 0 <= t < WIDTH && t >= i + 1 - k ==> c'[t] == 0) &&
               c'[i - k] < P2(32 - s)
  {
    LimbFall(a[i], s);
    FallBound(s);
  }

  lemma RightDelta(x: nat, i: nat, k: nat, s: nat)
    requires k < i && s < 32 && x < BASE
    ensures (Pow(BASE, i - k - 1) * Falls(x, s) + Pow(BASE, i - k) * Keeps(x, s)) * (Pow(BASE, k) * P2(s)) ==
            Pow(BASE, i) * x
  {
    var bt := Pow(BASE, i - k - 1);
    LimbFall(x, s);
    HalfPowers(s);
    assert Pow(BASE, i - k) == BASE * bt;
    PowAdd(BASE, i - k, k);
    RightArith(bt, Pow(BASE, k), Pow(BASE, i), P2(s), P2(32 - s), x, Rem(x, P2(s)), Keeps(x, s));
  }

  lemma RightStepValue(c: seq<nat>, x: nat, t: nat, s: nat)
    requires |c| == WIDTH && 0 < t < WIDTH && s < 32
    ensures Value(RightStep(c, x, t, s), BASE) ==
            Value(c, BASE) + (Pow(BASE, t - 1) * Falls(x, s) + Pow(BASE, t) * Keeps(x, s))
  {
    ValueUpdate(c, t - 1, Falls(x, s));
    ValueUpdate(Added(c, t - 1, Falls(x, s)), t, Keeps(x, s));
  }

  lemma RightAboveValue(c: seq<nat>, x: nat, i: nat, k: nat, s: nat)
    requires |c| == WIDTH && k < i < WIDTH && s < 32 && x < BASE
    ensures var m := Pow(BASE, k) * P2(s);
            Value(RightStep(c, x, i - k, s), BASE) * m == Value(c, BASE) * m + Pow(BASE, i) * x
  {
    RightDelta(x, i, k, s);
    RightStepValue(c, x, i - k, s);
    var d := Mul(Pow(BASE, i - k - 1), Falls(x, s)) + Mul(Pow(BASE, i - k), Keeps(x, s));
    Combine(Value(RightStep(c, x, i - k, s), BASE), Value(c, BASE), d, Mul(Pow(BASE, k), P2(s)), Mul(Pow(BASE, i), x));
  }

  lemma Combine(v': nat, v: nat, d: nat, m: nat, w: nat)
    requires v' == v + d && d * m == w
    ensures v' * m == v * m + w
  {
  }

  lemma RightAbove(c: seq<nat>, a: seq<nat>, i: nat, k: nat, s: nat, rest: nat)
    requires ShiftedRight(c, a, i, k, s, rest) && k < i < |a| <= WIDTH && Digits(a, BASE)
    ensures ShiftedRight(RightStep(c, a[i], i - k, s), a, i + 1, k, s, rest)
  {
    RightAboveDigits(c, a, i, k, s, rest);
    RightAboveValue(c, a[i], i, k, s);
    PrefixLimb(a, i);
  }

  // The limb writes of one step, with or for addition.
  lemma RightOrs(c: seq<nat>, a: seq<nat>, i: nat, k: nat, s: nat, rest: nat)
    requires ShiftedRight(c, a, i, k, s, rest) && i < |a| <= WIDTH && Digits(a, BASE)
    ensures k < i ==> Or(c[i - k - 1], Falls(a[i], s)) == c[i - k - 1] + Falls(a[i], s)
    ensures k <= i ==> c[i - k] == 0 && Or(c[i - k], Keeps(a[i], s)) == Keeps(a[i], s)
    ensures s == 0 ==> Falls(a[i], s) == 0
  {
    LimbFall(a[i], s);
    OrZero(Keeps(a[i], s));
    if k < i { OrAdds(c[i - k - 1], Rem(a[i], P2(s)), 32 - s); }
  }

  // The limbs after one more step.
  function RightWritten(c: seq<nat>, x: nat, i: nat, k: nat, s: nat): seq<nat>
    requires |c| == WIDTH && i < WIDTH && s < 32
  {
    if i < k then c else if i == k then c[0 := Keeps(x, s)] else RightStep(c, x, i - k, s)
  }

  lemma RightStepOk(c: seq<nat>, a: seq<nat>, i: nat, k: nat, s: nat, rest: nat) returns (rest': nat)
    requires ShiftedRight(c, a, i, k, s, rest) && i < |a| <= WIDTH && Digits(a, BASE)
    ensures ShiftedRight(RightWritten(c, a[i], i, k, s), a, i + 1, k, s, rest')
  {
    if i < k {
      RightBelow(c, a, i, k, s, rest);
      rest' := rest + Mul(Pow(BASE, i), a[i]);
    } else if i == k {
      RightAt(c, a, k, s, rest);
      rest' := rest + Mul(Pow(BASE, k), Rem(a[k], P2(s)));
    } else {
      RightAbove(c, a, i, k, s, rest);
      rest' := rest;
    }
  }

  // Distribute one limb over two.
  method ShiftLimbRight(pn: array<nat>, a: seq<nat>, i: nat, k: nat, s: nat, ghost rest: nat)
    requires pn.Length == WIDTH && ShiftedRight(pn[..], a, i, k, s, rest) && i < |a| <= WIDTH && Digits(a, BASE)
    modifies pn
    ensures pn[..] == RightWritten(old(pn[..]), a[i], i, k, s)
  {
    ghost var c := pn[..];
    RightOrs(c, a, i, k, s, rest);
    if i - k - 1 >= 0 && s != 0 {
      OrLimb(pn, i - k - 1, Falls(a[i], s));
    } else if i > k {
      assert Added(c, i - k - 1, Falls(a[i], s)) == c;
    }
    if i - k >= 0 { OrLimb(pn, i - k, Keeps(a[i], s)); }
  }

  lemma QuotientIs(v: nat, q: nat, m: nat, rest: nat)
    requires v == q * m + rest && rest < m
    ensures v / m == q
  {
    DivMod(v, m);
    SplitUnique(rest, Rem(v, m), q, Quot(v, m), m);
  }

  lemma RightEnd(c: seq<nat>, a: seq<nat>, shift: nat, rest: nat)
    requires |a| == WIDTH && ShiftedRight(c, a, WIDTH, shift / 32, shift % 32, rest)
    ensures Value(c, BASE) == Value(a, BASE) / P2(shift)
  {
    var k, s := shift / 32, shift % 32;
    assert a[..WIDTH] == a;
    assert P2(shift) == Pow(BASE, k) * P2(s) by {
      LimbPower(k);
      P2Add(32 * k, s);
    }
    QuotientIs(Value(a, BASE), Value(c, BASE), P2(shift), rest);
  }

  /** Shift right by any number of bits: the quotient by a power of two. */
  method ShiftRight(pn: array<nat>, shift: nat)
    requires Limbs(pn)
    modifies pn
    ensures Limbs(pn) && Num(pn) == old(Num(pn)) / P2(shift)
  {
    var a := pn[..];
    Clear(pn);
    var k, s := shift / 32, shift % 32;
    ghost var rest := 0;
    RightStart(a, k, s);
    for i := 0 to WIDTH
      invariant ShiftedRight(pn[..], a, i, k, s, rest)
    {
      ghost var rest' := RightStepOk(pn[..], a, i, k, s, rest);
      ShiftLimbRight(pn, a, i, k, s, rest);
      rest := rest';
    }
    RightEnd(pn[..], a, shift, rest);
  }
}
