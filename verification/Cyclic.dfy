/**
 Powers of a multiplication in a field of characteristic two, and why three errors at different places
 cannot cancel: the argument behind the distance of a BCH code, for any such field.
 */
module Cyclic {

  /** A field as a group under addition with multiplication by a primitive element. */
  datatype Field<!E> = Field(zero: E, add: (E, E) -> E, times: E -> E)

  ghost predicate GroupAt<E(!new)>(g: Field<E>, x: E, y: E, z: E) {
    && g.add(x, y) == g.add(y, x) && g.add(g.add(x, y), z) == g.add(x, g.add(y, z))
    && g.add(x, x) == g.zero && g.add(x, g.zero) == x
  }

  ghost predicate AddsAt<E(!new)>(g: Field<E>, x: E, y: E) { g.times(g.add(x, y)) == g.add(g.times(x), g.times(y)) }

  ghost predicate InjectiveAt<E(!new)>(g: Field<E>, x: E, y: E) { g.times(x) == g.times(y) ==> x == y }

  ghost predicate Valid<E(!new)>(g: Field<E>) {
    && (forall x: E, y: E, z: E :: GroupAt(g, x, y, z))
    && (forall x: E, y: E :: AddsAt(g, x, y)) && (forall x: E, y: E :: InjectiveAt(g, x, y))
  }

  lemma Regroup<E(!new)>(g: Field<E>, x: E, y: E, z: E, w: E)
    requires Valid(g)
    ensures g.add(g.add(x, y), g.add(z, w)) == g.add(g.add(x, z), g.add(y, w))
  {
    assert GroupAt(g, x, y, g.add(z, w)) && GroupAt(g, y, z, w) && GroupAt(g, z, y, w);
    assert GroupAt(g, x, z, g.add(y, w));
  }

  lemma Cancel<E(!new)>(g: Field<E>, x: E, y: E, z: E)
    requires Valid(g)
    ensures g.add(x, z) == g.add(y, z) ==> x == y
    ensures g.add(x, y) == g.zero ==> x == y
    ensures g.add(g.add(x, z), z) == x && g.add(g.zero, x) == x
  {
    assert GroupAt(g, x, z, z) && GroupAt(g, y, z, z) && GroupAt(g, z, z, z);
    assert GroupAt(g, x, y, y) && GroupAt(g, y, y, y);
    assert GroupAt(g, x, g.zero, g.zero) && GroupAt(g, g.zero, y, y) && GroupAt(g, y, g.zero, y);
  }

  function On<E>(g: Field<E>, b: bool, c: E): E { if b then c else g.zero }

  lemma OnAdds<E(!new)>(g: Field<E>, a: bool, b: bool, c: E)
    requires Valid(g)
    ensures On(g, a != b, c) == g.add(On(g, a, c), On(g, b, c))
  {
    Cancel(g, c, c, c);
    Cancel(g, g.zero, g.zero, g.zero);
    assert GroupAt(g, c, c, g.zero) && GroupAt(g, c, g.zero, c);
  }

  // ---- Powers ----

  /** Multiplication by a power of the primitive element. */
  function Pow<E>(g: Field<E>, n: nat, y: E): E
    decreases n
  {
    if n == 0 then y else g.times(Pow(g, n - 1, y))
  }

  lemma {:induction false} PowAdds<E(!new)>(g: Field<E>, n: nat, x: E, y: E)
    requires Valid(g)
    ensures Pow(g, n, g.add(x, y)) == g.add(Pow(g, n, x), Pow(g, n, y))
    decreases n
  {
    if n > 0 {
      PowAdds(g, n - 1, x, y);
      assert AddsAt(g, Pow(g, n - 1, x), Pow(g, n - 1, y));
    }
  }

  lemma {:induction false} PowPow<E(!new)>(g: Field<E>, m: nat, n: nat, y: E)
    ensures Pow(g, m + n, y) == Pow(g, m, Pow(g, n, y))
    decreases m
  {
    if m > 0 { PowPow(g, m - 1, n, y); }
  }

  lemma {:induction false} PowInjective<E(!new)>(g: Field<E>, n: nat, x: E, y: E)
    requires Valid(g) && Pow(g, n, x) == Pow(g, n, y)
    ensures x == y
    decreases n
  {
    if n > 0 {
      assert InjectiveAt(g, Pow(g, n - 1, x), Pow(g, n - 1, y));
      PowInjective(g, n - 1, x, y);
    }
  }

  lemma {:induction false} PowZero<E(!new)>(g: Field<E>, n: nat)
    requires Valid(g)
    ensures Pow(g, n, g.zero) == g.zero
    decreases n
  {
    PowAdds(g, n, g.zero, g.zero);
    assert GroupAt(g, g.zero, g.zero, g.zero);
    assert GroupAt(g, Pow(g, n, g.zero), Pow(g, n, g.zero), g.zero);
  }

  // ---- Fixed points ----

  ghost predicate Fixed<E(!new)>(g: Field<E>, n: nat, y: E) { Pow(g, n, y) == y }

  lemma {:induction false} FixedMany<E(!new)>(g: Field<E>, n: nat, k: nat, y: E)
    requires Fixed(g, n, y)
    ensures Fixed(g, k * n, y)
    decreases k
  {
    if k > 0 {
      FixedMany(g, n, k - 1, y);
      PowPow(g, n, (k - 1) * n, y);
      assert k * n == n + (k - 1) * n;
    }
  }

  /** The order of the primitive element is 1023: no smaller power has a fixed point but zero. */
  ghost predicate Free<E(!new)>(g: Field<E>, n: nat) { forall y: E :: Fixed(g, n, y) ==> y == g.zero }

  ghost predicate Primitive<E(!new)>(g: Field<E>) {
    Valid(g) && (forall y: E :: Fixed(g, 1023, y)) && Free(g, 33) && Free(g, 93) && Free(g, 341)
  }

  // What two powers fix, the power by the remainder fixes.
  lemma FixedRest<E(!new)>(g: Field<E>, m: nat, n: nat, y: E)
    requires Fixed(g, m, y) && Fixed(g, n, y) && n > 0
    ensures Fixed(g, m % n, y)
  {
    FixedMany(g, n, m / n, y);
    PowPow(g, m % n, m / n * n, y);
  }

  /** Euclid's algorithm: what two powers fix, the power by a common divisor fixes. */
  lemma {:induction false} FixedDivisor<E(!new)>(g: Field<E>, m: nat, n: nat, y: E) returns (d: nat, p: nat, q: nat)
    requires Fixed(g, m, y) && Fixed(g, n, y) && n > 0
    ensures m == p * d && n == q * d && Fixed(g, d, y)
    decreases n
  {
    FixedRest(g, m, n, y);
    if m % n == 0 {
      d, p, q := n, m / n, 1;
    } else {
      var r;
      d, q, r := FixedDivisor(g, n, m % n, y);
      p := m / n * q + r;
      assert m == m / n * (q * d) + r * d == p * d;
    }
  }

  lemma SmallFactor(p: nat, d: nat)
    requires p * d == 1023 && p <= 31
    ensures p == 1 || p == 3 || p == 11 || p == 31
  {
    assert p != 0;
    var q := 1023 / p;
    assert 1023 % p == 0;
  }

  // A proper divisor divides the quotient by one of the primes 31, 11 and 3.
  lemma ProperDivisor(p: nat, d: nat) returns (k: nat)
    requires p * d == 1023 && p > 1
    ensures k * d == 33 || k * d == 93 || k * d == 341
  {
    if p <= 31 {
      SmallFactor(p, d);
      k := 1;
    } else {
      assert d <= 31;
      SmallFactor(d, p);
      k := if d == 31 then 3 else 33 / d;
    }
  }

  /** No smaller power of the primitive element than the 1023rd fixes anything but zero. */
  lemma OnlyZeroFixed<E(!new)>(g: Field<E>, n: nat, y: E)
    requires Primitive(g) && 0 < n < 1023 && Fixed(g, n, y)
    ensures y == g.zero
  {
    assert Fixed(g, 1023, y);
    var d, p, q := FixedDivisor(g, 1023, n, y);
    assert p > 1 by { assert q * d < p * d && q > 0; }
    var k := ProperDivisor(p, d);
    FixedMany(g, d, k, y);
    assert Free(g, k * d);
  }

  // ---- Errors ----

  /** The sum of an element and its multiple by a power. */
  function Moved<E>(g: Field<E>, n: nat, y: E): E { g.add(Pow(g, n, y), y) }

  lemma MovedTwice<E(!new)>(g: Field<E>, n: nat, y: E)
    requires Valid(g)
    ensures Moved(g, n, Moved(g, n, y)) == Moved(g, 2 * n, y)
  {
    PowAdds(g, n, Pow(g, n, y), y);
    PowPow(g, n, n, y);
    var p := Pow(g, n, y);
    assert GroupAt(g, Pow(g, 2 * n, y), p, g.add(p, y)) && GroupAt(g, p, p, y);
    Cancel(g, y, y, y);
  }

  // Two terms moved by different powers, if their sums agree.
  lemma MovedEqual<E(!new)>(g: Field<E>, x: E, y: E, z: E, x': E, y': E)
    requires Valid(g) && g.add(g.add(x, y), z) == g.zero && g.add(g.add(x', y'), z) == g.zero
    ensures g.add(x', x) == g.add(y', y)
  {
    Cancel(g, g.add(x, y), z, z);
    Cancel(g, g.add(x', y'), z, z);
    Regroup(g, x', y', x, y);
    assert GroupAt(g, z, z, z);
    Cancel(g, g.add(x', x), g.add(y', y), z);
  }

  /** Sums of two terms over two consecutive powers. */
  lemma TwoCancel<E(!new)>(g: Field<E>, a: nat, x: E, z: E)
    requires Primitive(g) && 0 < a < 1023
    requires g.add(x, z) == g.zero && g.add(Pow(g, a, x), z) == g.zero
    ensures x == g.zero && z == g.zero
  {
    Cancel(g, x, z, z);
    Cancel(g, Pow(g, a, x), z, z);
    assert Fixed(g, a, x);
    OnlyZeroFixed(g, a, x);
  }

  /** Sums of three terms over three consecutive powers vanish only if the terms do. */
  lemma ThreeCancel<E(!new)>(g: Field<E>, a: nat, b: nat, x: E, y: E, z: E)
    requires Primitive(g) && 0 < b < a < 1023
    requires g.add(g.add(x, y), z) == g.zero && g.add(g.add(Pow(g, a, x), Pow(g, b, y)), z) == g.zero
    requires g.add(g.add(Pow(g, 2 * a, x), Pow(g, 2 * b, y)), z) == g.zero
    ensures x == g.zero && y == g.zero && z == g.zero
  {
    MovedEqual(g, x, y, z, Pow(g, a, x), Pow(g, b, y));
    MovedEqual(g, x, y, z, Pow(g, 2 * a, x), Pow(g, 2 * b, y));
    MovedTwice(g, a, x);
    MovedTwice(g, b, y);
    var w := Moved(g, a, x);
    assert w == Moved(g, b, y) && Moved(g, a, w) == Moved(g, b, w);
    Cancel(g, Pow(g, a, w), Pow(g, b, w), w);
    PowPow(g, b, a - b, w);
    PowInjective(g, b, Pow(g, a - b, w), w);
    OnlyZeroFixed(g, a - b, w);
    NotMoved(g, a, x);
    NotMoved(g, b, y);
    Cancel(g, g.zero, g.zero, g.zero);
    Cancel(g, z, z, z);
  }

  lemma NotMoved<E(!new)>(g: Field<E>, n: nat, y: E)
    requires Primitive(g) && 0 < n < 1023 && Moved(g, n, y) == g.zero
    ensures y == g.zero
  {
    Cancel(g, Pow(g, n, y), y, y);
    OnlyZeroFixed(g, n, y);
  }
}
