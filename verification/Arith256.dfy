/**
 256-bit unsigned arithmetic on eight 32-bit limbs, lowest first (src/arith_uint256.h,
 src/arith_uint256.cpp): each operation against the number the limbs stand for.
 */
module Arith256 {
  import opened Radix

  const BASE := 0x1_0000_0000
  const WIDTH := 8

  /** One more than the largest number: 2^256. */
  const MODULUS := 115792089237316195423570985008687907853269984665640564039457584007913129639936

  lemma ModulusIs()
    ensures Pow(BASE, WIDTH) == MODULUS
  {
    assert Pow(BASE, 2) == 0x1_0000_0000_0000_0000;
    PowSum(BASE, 2, 2, 0x1_0000_0000_0000_0000, 0x1_0000_0000_0000_0000);
    PowSum(BASE, 4, 4, 340282366920938463463374607431768211456, 340282366920938463463374607431768211456);
  }

  ghost predicate Limbs(a: array<nat>)
    reads a
  {
    a.Length == WIDTH && Digits(a[..], BASE)
  }

  ghost function Num(a: array<nat>): nat
    reads a
  {
    Value(a[..], BASE)
  }

  // ---- Adding a multiple ----

  /** Digits done, and the carry plus the digits to come of one number and a multiple of another, make up the sum. */
  ghost predicate Adding(done: seq<nat>, carry: nat, xs: seq<nat>, ys: seq<nat>, m: nat, total: nat) {
    |xs| == |ys| && Value(done, BASE) + Pow(BASE, |done|) * (carry + Value(xs, BASE) + m * Value(ys, BASE)) == total
  }

  lemma AddArith(p: nat, b: nat, carry: nat, x: nat, vx: nat, m: nat, y: nat, vy: nat, r: nat, q: nat)
    requires carry + x + m * y == r + b * q
    ensures p * (carry + (x + b * vx) + m * (y + b * vy)) == p * r + (b * p) * (q + vx + m * vy)
  {
    Dist(m, y, b * vy);
    Assoc(m, b, vy);
    Assoc(b, m, vy);
    assert carry + (x + b * vx) + m * (y + b * vy) == r + b * q + b * vx + b * (m * vy);
    Dist(b, q, vx);
    Dist(b, q + vx, m * vy);
    Dist(p, r, b * (q + vx + m * vy));
    Assoc(p, b, q + vx + m * vy);
  }

  lemma AddingStep(done: seq<nat>, carry: nat, xs: seq<nat>, ys: seq<nat>, m: nat, total: nat)
    requires xs != [] && Adding(done, carry, xs, ys, m, total)
    ensures var n := carry + xs[0] + Mul(m, ys[0]);
            Adding(done + [Rem(n, BASE)], Quot(n, BASE), xs[1..], ys[1..], m, total)
  {
    var n := carry + xs[0] + Mul(m, ys[0]);
    DivMod(n, BASE);
    AddArith(Pow(BASE, |done|), BASE, carry, xs[0], Value(xs[1..], BASE), m, ys[0], Value(ys[1..], BASE), Rem(n, BASE),
             Quot(n, BASE));
    ValueAppend(done, Rem(n, BASE), BASE);
    PowNext(BASE, done, Rem(n, BASE));
  }

  lemma AddingStart(xs: seq<nat>, ys: seq<nat>, m: nat)
    requires |xs| == |ys|
    ensures Adding([], 0, xs, ys, m, Value(xs, BASE) + m * Value(ys, BASE))
  {
    assert Value([], BASE) == 0 && Pow(BASE, 0) == 1;
  }

  lemma AddingEnd(done: seq<nat>, carry: nat, m: nat, total: nat)
    requires Adding(done, carry, [], [], m, total)
    ensures total == Value(done, BASE) + Pow(BASE, |done|) * carry
  {
    assert m * 0 == 0;
  }

  /** A number below the modulus is the remainder of what differs from it by a multiple. */
  lemma RemainderIs(total: nat, v: nat, n: nat, k: nat)
    requires n > 0 && total == v + n * k && v < n
    ensures total % n == v
  {
    DivMod(total, n);
    SplitUnique(Rem(total, n), v, Quot(total, n), k, n);
  }

  /** Limbs with the first `i` done. */
  ghost predicate AddedTo(a: seq<nat>, x: seq<nat>, y: seq<nat>, i: nat, carry: nat, m: nat, total: nat) {
    && i <= |a| == |x| == |y| && Digits(a, BASE) && a[i..] == x[i..] && Adding(a[..i], carry, x[i..], y[i..], m, total)
  }

  lemma AddedStep(a: seq<nat>, x: seq<nat>, y: seq<nat>, i: nat, carry: nat, m: nat, total: nat)
    requires AddedTo(a, x, y, i, carry, m, total) && i < |a|
    ensures var n := carry + a[i] + Mul(m, y[i]); AddedTo(a[i := Rem(n, BASE)], x, y, i + 1, Quot(n, BASE), m, total)
  {
    var n := carry + a[i] + Mul(m, y[i]);
    assert x[i..][0] == a[i..][0] == a[i] && y[i..][0] == y[i];
    AddingStep(a[..i], carry, x[i..], y[i..], m, total);
    var a' := a[i := Rem(n, BASE)];
    assert a'[..i + 1] == a[..i] + [Rem(n, BASE)] && x[i..][1..] == x[i + 1..] && y[i..][1..] == y[i + 1..];
    assert a'[i + 1..] == a[i..][1..] == x[i + 1..];
  }

  lemma AddedStart(x: seq<nat>, y: seq<nat>, m: nat)
    requires |x| == |y| && Digits(x, BASE)
    ensures AddedTo(x, x, y, 0, 0, m, Value(x, BASE) + m * Value(y, BASE))
  {
    AddingStart(x, y, m);
    assert x[0..] == x && y[0..] == y && x[..0] == [];
  }

  lemma AddedEnd(a: seq<nat>, x: seq<nat>, y: seq<nat>, carry: nat, m: nat, total: nat)
    requires AddedTo(a, x, y, |a|, carry, m, total)
    ensures total == Value(a, BASE) + Pow(BASE, |a|) * carry && total % Pow(BASE, |a|) == Value(a, BASE)
  {
    assert a[..|a|] == a && x[|a|..] == [] && y[|a|..] == [];
    AddingEnd(a, carry, m, total);
    ValueBound(a, BASE);
    RemainderIs(total, Value(a, BASE), Pow(BASE, |a|), carry);
  }

  /** Addition modulo 2^256; the operands may be the same object. */
  method AddAssign(pn: array<nat>, b: array<nat>)
    requires Limbs(pn) && Limbs(b)
    modifies pn
    ensures Limbs(pn) && Num(pn) == (old(Num(pn)) + old(Num(b))) % MODULUS
  {
    ghost var x, y := pn[..], b[..];
    ghost var total := Value(x, BASE) + Value(y, BASE);
    AddedStart(x, y, 1);
    var carry := 0;
    for i := 0 to WIDTH
      invariant AddedTo(pn[..], x, y, i, carry, 1, total) && b[i..] == y[i..] && carry <= 1
    {
      ghost var before := pn[..];
      AddedStep(before, x, y, i, carry, 1, total);
      assert b[i..][0] == y[i..][0] && b[i..][1..] == y[i..][1..];
      var n := carry + pn[i] + b[i];
      pn[i] := Rem(n, BASE);
      carry := Quot(n, BASE);
      assert pn[..] == before[i := pn[i]];
      assert b[i + 1..] == y[i + 1..];
    }
    AddedEnd(pn[..], x, y, carry, 1, total);
    ModulusIs();
  }

  // ---- Negation and subtraction ----

  /** Every limb subtracted from the largest limb. */
  ghost predicate Complement(x: seq<nat>, y: seq<nat>) {
    |x| == |y| && forall i :: 0 <= i < |x| ==> x[i] + y[i] == BASE - 1
  }

  lemma {:induction false} ComplementValue(x: seq<nat>, y: seq<nat>)
    requires Complement(x, y)
    ensures Value(x, BASE) + Value(y, BASE) + 1 == Pow(BASE, |x|)
  {
    if x != [] {
      assert Complement(x[1..], y[1..]) by {
        assert forall i :: 0 <= i < |x| - 1 ==> x[1..][i] == x[i + 1] && y[1..][i] == y[i + 1];
      }
      ComplementValue(x[1..], y[1..]);
    }
  }

  /** One more, with the limbs below some index turned over from the largest limb to zero. */
  ghost predicate CarriedTo(a: seq<nat>, x: seq<nat>, i: nat) {
    && i <= |a| == |x| && Digits(a, BASE) && a[i..] == x[i..]
    && (forall k :: 0 <= k < i ==> a[k] == 0) && Value(x[..i], BASE) + 1 == Pow(BASE, i)
  }

  lemma CarriedStep(a: seq<nat>, x: seq<nat>, i: nat)
    requires CarriedTo(a, x, i) && i < |a| && a[i] == BASE - 1
    ensures CarriedTo(a[i := 0], x, i + 1)
  {
    assert x[i] == x[i..][0] == a[i..][0];
    assert x[..i + 1] == x[..i] + [x[i]];
    ValueAppend(x[..i], x[i], BASE);
    assert a[i := 0][i + 1..] == a[i..][1..] == x[i + 1..];
    Dist(Pow(BASE, i), BASE - 1, 1);
  }

  lemma {:induction false} ValueSplit(x: seq<nat>, i: nat)
    requires i <= |x|
    ensures Value(x, BASE) == Value(x[..i], BASE) + Pow(BASE, i) * Value(x[i..], BASE)
    decreases i
  {
    if i == 0 {
      assert x[..0] == [] && x[0..] == x;
    } else {
      ValueSplit(x[1..], i - 1);
      assert x[1..][..i - 1] == x[..i][1..] && x[1..][i - 1..] == x[i..];
      Dist(BASE, Value(x[1..][..i - 1], BASE), Pow(BASE, i - 1) * Value(x[i..], BASE));
      Assoc(BASE, Pow(BASE, i - 1), Value(x[i..], BASE));
    }
  }

  lemma CarriedStop(a: seq<nat>, x: seq<nat>, i: nat)
    requires CarriedTo(a, x, i) && i < |a| && a[i] + 1 < BASE
    ensures Digits(a[i := a[i] + 1], BASE) && Value(a[i := a[i] + 1], BASE) == Value(x, BASE) + 1
  {
    var a' := a[i := a[i] + 1];
    ValueSplit(a', i);
    ValueSplit(x, i);
    ZeroValue(a'[..i], BASE);
    assert x[i..] == a[i..] && a'[i..] == [a[i] + 1] + a[i + 1..] && a[i..] == [a[i]] + a[i + 1..];
    assert Value(a'[i..], BASE) == Value(x[i..], BASE) + 1;
    Dist(Pow(BASE, i), Value(x[i..], BASE), 1);
  }

  lemma CarriedOut(a: seq<nat>, x: seq<nat>)
    requires CarriedTo(a, x, |a|)
    ensures Value(a, BASE) == 0 && Value(x, BASE) + 1 == Pow(BASE, |a|)
  {
    ZeroValue(a, BASE);
    assert x[..|a|] == x;
  }

  lemma Incremented(v: nat, x: nat)
    requires x < MODULUS && (if x + 1 < MODULUS then v == x + 1 else v == 0)
    ensures v == (x + 1) % MODULUS
  {
  }

  /** Increment modulo 2^256. */
  method Increment(pn: array<nat>)
    requires Limbs(pn)
    modifies pn
    ensures Limbs(pn) && Num(pn) == (old(Num(pn)) + 1) % MODULUS
  {
    ghost var x := pn[..];
    var i := 0;
    LimbsBound(x);
    assert CarriedTo(x, x, 0) by { assert Value(x[..0], BASE) == 0; }
    while i < WIDTH && pn[i] + 1 == BASE
      invariant 0 <= i <= WIDTH && CarriedTo(pn[..], x, i)
    {
      ghost var before := pn[..];
      CarriedStep(before, x, i);
      pn[i] := 0;
      assert pn[..] == before[i := 0];
      i := i + 1;
    }
    if i < WIDTH {
      ghost var before := pn[..];
      CarriedStop(before, x, i);
      pn[i] := pn[i] + 1;
      assert pn[..] == before[i := pn[i]];
      LimbsBound(pn[..]);
    } else {
      CarriedOut(pn[..], x);
      ModulusIs();
    }
    Incremented(Num(pn), Value(x, BASE));
  }

  lemma LimbsBound(x: seq<nat>)
    requires |x| == WIDTH && Digits(x, BASE)
    ensures Value(x, BASE) < MODULUS
  {
    ValueBound(x, BASE);
    ModulusIs();
  }

  /** The negative modulo 2^256: the complement plus one. */
  method Negate(b: array<nat>) returns (r: array<nat>)
    requires Limbs(b)
    ensures fresh(r) && Limbs(r) && Num(r) == (MODULUS - Num(b)) % MODULUS
  {
    r := new nat[WIDTH](_ => 0);
    for i := 0 to WIDTH
      invariant forall k :: 0 <= k < i ==> r[k] + b[k] == BASE - 1
      invariant forall k :: 0 <= k < WIDTH ==> r[k] < BASE
    {
      r[i] := BASE - 1 - b[i];
    }
    ComplementValue(r[..], b[..]);
    ModulusIs();
    Increment(r);
  }

  lemma NegateThenAdd(x: nat, y: nat)
    requires x < MODULUS && y < MODULUS
    ensures (x + (MODULUS - y) % MODULUS) % MODULUS == (x - y) % MODULUS
  {
  }

  /** Subtraction modulo 2^256. */
  method SubAssign(pn: array<nat>, b: array<nat>)
    requires Limbs(pn) && Limbs(b)
    modifies pn
    ensures Limbs(pn) && Num(pn) == (old(Num(pn)) - old(Num(b))) % MODULUS
  {
    LimbsBound(pn[..]);
    LimbsBound(b[..]);
    NegateThenAdd(Num(pn), Num(b));
    var c := Negate(b);
    AddAssign(pn, c);
  }

  // ---- Multiplication ----

  /** Multiplication by one limb modulo 2^256; no intermediate value exceeds 64 bits. */
  method MulAssign32(pn: array<nat>, b32: nat)
    requires Limbs(pn) && b32 < BASE
    modifies pn
    ensures Limbs(pn) && Num(pn) == b32 * old(Num(pn)) % MODULUS
  {
    ghost var was := pn[..];
    ghost var total := b32 * Value(was, BASE);
    ProgressStart(was, 0, b32, BASE, Value(was, BASE));
    var carry: nat := 0;
    for i := 0 to WIDTH
      invariant Progress(pn[..], was, i, carry, b32, BASE, total) && carry < BASE && Digits(pn[..], BASE)
    {
      ghost var before := pn[..];
      ProgressStep(before, was, i, carry, b32, BASE, total);
      LimbProduct(carry, 0, b32, pn[i]);
      var n := carry + Mul(b32, pn[i]);
      pn[i] := Rem(n, BASE);
      carry := Quot(n, BASE);
      assert pn[..] == before[i := pn[i]];
    }
    MulEnd(pn[..], was, carry, b32, total);
  }

  lemma MulEnd(a: seq<nat>, was: seq<nat>, carry: nat, m: nat, total: nat)
    requires |a| == WIDTH && Digits(a, BASE) && Progress(a, was, WIDTH, carry, m, BASE, total)
    ensures Value(a, BASE) == total % MODULUS
  {
    assert a[..WIDTH] == a && was[WIDTH..] == [];
    assert m * 0 == 0;
    ModulusIs();
    LimbsBound(a);
    RemainderIs(total, Value(a, BASE), MODULUS, carry);
  }

  /** A limb product with a limb and a carry added fits into two limbs. */
  lemma LimbProduct(carry: nat, x: nat, m: nat, y: nat)
    requires carry < BASE && x < BASE && m < BASE && y < BASE
    ensures carry + x + Mul(m, y) < BASE * BASE && Quot(carry + x + Mul(m, y), BASE) < BASE
  {
    MulMonotone(m, y, BASE - 1, BASE - 1);
  }

  // Add a multiple of b, shifted by j limbs, and drop what does not fit.
  method AddRow(a: array<nat>, j: nat, m: nat, b: array<nat>) returns (carry: nat)
    requires Limbs(a) && Limbs(b) && a != b && j < WIDTH && m < BASE
    modifies a
    ensures Limbs(a) && a[..j] == old(a[..j])
    ensures Value(a[j..], BASE) + Pow(BASE, WIDTH - j) * carry ==
            old(Value(a[j..], BASE)) + m * Value(b[..WIDTH - j], BASE)
  {
    ghost var x, y := a[j..], b[..WIDTH - j];
    ghost var total := Value(x, BASE) + m * Value(y, BASE);
    AddedStart(x, y, m);
    carry := 0;
    for i := 0 to WIDTH - j
      invariant carry < BASE && AddedTo(a[j..], x, y, i, carry, m, total) && Limbs(a) && a[..j] == old(a[..j])
    {
      ghost var before := a[j..];
      AddedStep(before, x, y, i, carry, m, total);
      LimbProduct(carry, a[i + j], m, b[i]);
      var n := carry + a[i + j] + Mul(m, b[i]);
      a[i + j] := Rem(n, BASE);
      carry := Quot(n, BASE);
      assert a[j..] == before[i := a[i + j]];
    }
    AddedEnd(a[j..], x, y, carry, m, total);
  }

  /** One more row of the product. */
  lemma RowSum(x: seq<nat>, b: seq<nat>, j: nat, a: seq<nat>, a': seq<nat>, carry: nat, k: nat) returns (k': nat)
    requires j < WIDTH == |x| == |b| == |a| == |a'| && a'[..j] == a[..j]
    requires Value(a'[j..], BASE) + Pow(BASE, WIDTH - j) * carry ==
             Value(a[j..], BASE) + x[j] * Value(b[..WIDTH - j], BASE)
    requires Value(x[..j], BASE) * Value(b, BASE) == Value(a, BASE) + MODULUS * k
    ensures Value(x[..j + 1], BASE) * Value(b, BASE) == Value(a', BASE) + MODULUS * k'
  {
    var p, q, m := Pow(BASE, j), Pow(BASE, WIDTH - j), x[j];
    var vb, lo, hi := Value(b, BASE), Value(b[..WIDTH - j], BASE), Value(b[WIDTH - j..], BASE);
    k' := k + Mul(m, hi) + carry;
    assert x[..j + 1] == x[..j] + [m];
    ValueAppend(x[..j], m, BASE);
    ValueSplit(b, WIDTH - j);
    ValueSplit(a, j);
    ValueSplit(a', j);
    PowAdd(BASE, j, WIDTH - j);
    ModulusIs();
    RowArith(Value(x[..j], BASE), p, q, m, vb, lo, hi, Value(a[..j], BASE), Value(a[j..], BASE), Value(a'[j..], BASE),
             carry, k);
  }

  lemma RowArith(vx: nat, p: nat, q: nat, m: nat, vb: nat, lo: nat, hi: nat, al: nat, ah: nat, ah': nat, carry: nat,
                 k: nat)
    requires vb == lo + q * hi && ah' + q * carry == ah + m * lo && vx * vb == al + p * ah + (p * q) * k
    ensures (vx + p * m) * vb == al + p * ah' + (p * q) * (k + m * hi + carry)
  {
    var n := p * q;
    assert (vx + p * m) * vb == vx * vb + (p * m) * vb by { Dist(vb, vx, p * m); }
    assert (p * m) * vb == p * (m * lo) + n * (m * hi) by {
      Assoc(p, m, vb);
      Dist(m, lo, q * hi);
      Assoc(m, q, hi);
      Assoc(q, m, hi);
      Dist(p, m * lo, q * (m * hi));
      Assoc(p, q, m * hi);
    }
    assert p * ah + p * (m * lo) == p * ah' + n * carry by {
      Dist(p, ah, m * lo);
      Dist(p, ah', q * carry);
      Assoc(p, q, carry);
    }
    Dist(n, k, m * hi);
    Dist(n, k + m * hi, carry);
  }

  /** Multiplication modulo 2^256; the operands may be the same object. */
  method MulAssign(pn: array<nat>, b: array<nat>)
    requires Limbs(pn) && Limbs(b)
    modifies pn
    ensures Limbs(pn) && Num(pn) == old(Num(pn)) * old(Num(b)) % MODULUS
  {
    var a := new nat[WIDTH](_ => 0);
    ghost var x, y := pn[..], b[..];
    ZeroValue(a[..], BASE);
    ghost var k := 0;
    assert x[..0] == [];
    for j := 0 to WIDTH
      invariant Limbs(a) && pn[..] == x && b[..] == y && fresh(a)
      invariant Value(x[..j], BASE) * Value(y, BASE) == Num(a) + MODULUS * k
    {
      ghost var before := a[..];
      var carry := AddRow(a, j, pn[j], b);
      k := RowSum(x, y, j, before, a[..], carry, k);
    }
    assert x[..WIDTH] == x;
    LimbsBound(a[..]);
    RemainderIs(Value(x, BASE) * Value(y, BASE), Num(a), MODULUS, k);
    CopyFrom(pn, a);
  }

  method CopyFrom(pn: array<nat>, a: array<nat>)
    requires Limbs(a) && pn.Length == WIDTH
    modifies pn
    ensures pn[..] == old(a[..])
  {
    for i := 0 to WIDTH
      invariant forall k :: 0 <= k < i ==> pn[k] == old(a[k])
      invariant forall k :: i <= k < WIDTH ==> a[k] == old(a[k])
    {
      pn[i] := a[i];
    }
  }
}
