/**
 The field with 1024 elements: polynomials of degree below ten over two elements, modulo the minimal
 polynomial of a primitive element. An element is ten bits, and addition is exclusive or.
 */
module Galois {
  import opened Cyclic

  function Add(x: bv10, y: bv10): bv10 { x ^ y }

  /** Multiplication by the primitive element. */
  function Times(y: bv10): bv10 { if y & 512 == 0 then y << 1 else (y << 1) ^ 0x123 }

  const GF: Field<bv10> := Field(0, Add, Times)

  lemma TimesAdds(x: bv10, y: bv10)
    ensures Times(x ^ y) == Times(x) ^ Times(y)
  {
    HighBit(x, y);
    if x & 512 == 0 {
      if y & 512 == 0 { } else { }
    } else {
      if y & 512 == 0 { } else { }
    }
  }

  lemma HighBit(x: bv10, y: bv10)
    ensures (x ^ y) & 512 == 0 <==> (x & 512 == 0 <==> y & 512 == 0)
    ensures (x ^ y) << 1 == (x << 1) ^ (y << 1)
  {
  }

  lemma TimesInjective(x: bv10, y: bv10)
    requires Times(x) == Times(y)
    ensures x == y
  {
  }

  lemma IsGroup()
    ensures forall x: bv10, y: bv10, z: bv10 :: GroupAt(GF, x, y, z)
  {
  }

  lemma IsAdditive()
    ensures forall x: bv10, y: bv10 :: AddsAt(GF, x, y)
  {
    forall x: bv10, y: bv10 ensures AddsAt(GF, x, y) { TimesAdds(x, y); }
  }

  lemma IsInjective()
    ensures forall x: bv10, y: bv10 :: InjectiveAt(GF, x, y)
  {
    forall x: bv10, y: bv10 ensures InjectiveAt(GF, x, y) { if Times(x) == Times(y) { TimesInjective(x, y); } }
  }

  lemma IsField()
    ensures Valid(GF)
  {
    IsGroup();
    IsAdditive();
    IsInjective();
  }

  // ---- Additive functions ----

  ghost predicate SumAt<E(!new)>(g: Field<E>, f: bv10 -> E, x: bv10, y: bv10) { f(x ^ y) == g.add(f(x), f(y)) }

  ghost predicate Additive<E(!new)>(g: Field<E>, f: bv10 -> E) { forall x: bv10, y: bv10 :: SumAt(g, f, x, y) }

  /** Some of three elements and a rest. */
  function Three<E>(g: Field<E>, b0: bool, c0: E, b1: bool, c1: E, b2: bool, c2: E, rest: E): E {
    g.add(On(g, b0, c0), g.add(On(g, b1, c1), g.add(On(g, b2, c2), rest)))
  }

  /** The sum of some of ten elements. */
  function Combined<E>(g: Field<E>, y: bv10, c0: E, c1: E, c2: E, c3: E, c4: E, c5: E, c6: E, c7: E, c8: E, c9: E): E {
    Three(g, y & 1 != 0, c0, y & 2 != 0, c1, y & 4 != 0, c2,
          Three(g, y & 8 != 0, c3, y & 16 != 0, c4, y & 32 != 0, c5,
                Three(g, y & 64 != 0, c6, y & 128 != 0, c7, y & 256 != 0, c8, On(g, y & 512 != 0, c9))))
  }

  lemma AtZero<E(!new)>(g: Field<E>, f: bv10 -> E)
    requires Valid(g) && Additive(g, f)
    ensures f(0) == g.zero
  {
    assert SumAt(g, f, 0, 0) && GroupAt(g, f(0), f(0), f(0));
  }

  predicate HalfAt(z: bv10, b: bool, bit: bv10, rest: bv10) { z == if b then bit ^ rest else rest }

  // One bit of an argument.
  lemma OneBit<E(!new)>(g: Field<E>, f: bv10 -> E, z: bv10, b: bool, bit: bv10, rest: bv10)
    requires Valid(g) && Additive(g, f) && HalfAt(z, b, bit, rest)
    ensures f(z) == g.add(On(g, b, f(bit)), f(rest))
  {
    assert SumAt(g, f, bit, rest);
    Cyclic.Cancel(g, f(rest), f(rest), f(rest));
  }

  lemma Halves(y: bv10)
    ensures HalfAt(y, y & 1 != 0, 1, y & 1022)
    ensures HalfAt(y & 1022, y & 2 != 0, 2, y & 1020)
    ensures HalfAt(y & 1020, y & 4 != 0, 4, y & 1016)
    ensures HalfAt(y & 1016, y & 8 != 0, 8, y & 1008)
    ensures HalfAt(y & 1008, y & 16 != 0, 16, y & 992)
    ensures HalfAt(y & 992, y & 32 != 0, 32, y & 960)
    ensures HalfAt(y & 960, y & 64 != 0, 64, y & 896)
    ensures HalfAt(y & 896, y & 128 != 0, 128, y & 768)
    ensures HalfAt(y & 768, y & 256 != 0, 256, y & 512)
    ensures y & 512 == if y & 512 != 0 then 512 else 0
  {
  }

  // Three bits of an argument.
  lemma ThreeBits<E(!new)>(g: Field<E>, f: bv10 -> E, z0: bv10, z1: bv10, z2: bv10, z3: bv10,
                           b0: bool, t0: bv10, b1: bool, t1: bv10, b2: bool, t2: bv10)
    requires Valid(g) && Additive(g, f) && HalfAt(z0, b0, t0, z1) && HalfAt(z1, b1, t1, z2) && HalfAt(z2, b2, t2, z3)
    ensures f(z0) == Three(g, b0, f(t0), b1, f(t1), b2, f(t2), f(z3))
  {
    OneBit(g, f, z0, b0, t0, z1);
    OneBit(g, f, z1, b1, t1, z2);
    OneBit(g, f, z2, b2, t2, z3);
  }

  /** An additive function is determined by its values at the powers of two. */
  lemma Decomposed<E(!new)>(g: Field<E>, f: bv10 -> E, y: bv10)
    requires Valid(g) && Additive(g, f)
    ensures f(y) == Combined(g, y, f(1), f(2), f(4), f(8), f(16), f(32), f(64), f(128), f(256), f(512))
  {
    AtZero(g, f);
    Halves(y);
    var z3, z6, z9 := y & 1016, y & 960, y & 512;
    assert f(z9) == On(g, y & 512 != 0, f(512));
    assert f(z6) == Three(g, y & 64 != 0, f(64), y & 128 != 0, f(128), y & 256 != 0, f(256), f(z9)) by {
      ThreeBits(g, f, z6, y & 896, y & 768, z9, y & 64 != 0, 64, y & 128 != 0, 128, y & 256 != 0, 256);
    }
    assert f(z3) == Three(g, y & 8 != 0, f(8), y & 16 != 0, f(16), y & 32 != 0, f(32), f(z6)) by {
      ThreeBits(g, f, z3, y & 1008, y & 992, z6, y & 8 != 0, 8, y & 16 != 0, 16, y & 32 != 0, 32);
    }
    assert f(y) == Three(g, y & 1 != 0, f(1), y & 2 != 0, f(2), y & 4 != 0, f(4), f(z3)) by {
      ThreeBits(g, f, y, y & 1022, y & 1020, z3, y & 1 != 0, 1, y & 2 != 0, 2, y & 4 != 0, 4);
    }
  }

  /** The polynomial `y` of the primitive element, times `c`. */
  function Mul(y: bv10, c: bv10): bv10 {
    var c1 := Times(c);
    var c2 := Times(c1);
    var c3 := Times(c2);
    var c4 := Times(c3);
    var c5 := Times(c4);
    var c6 := Times(c5);
    var c7 := Times(c6);
    var c8 := Times(c7);
    Combined(GF, y, c, c1, c2, c3, c4, c5, c6, c7, c8, Times(c8))
  }

  lemma Fixed33(y: bv10)
    requires Mul(y, 0xb0) == y
    ensures y == 0
  {
  }

  lemma Fixed93(y: bv10)
    requires Mul(y, 0x36a) == y
    ensures y == 0
  {
  }

  lemma Fixed341(y: bv10)
    requires Mul(y, 0x36) == y
    ensures y == 0
  {
  }


  // ---- Powers as products ----

  lemma PowAdditive(n: nat)
    ensures Additive(GF, y => Pow(GF, n, y))
  {
    IsField();
    var f := (y: bv10) => Pow(GF, n, y);
    forall x: bv10, y: bv10 ensures SumAt(GF, f, x, y) { PowAdds(GF, n, x, y); }
  }

  // The powers of the primitive element below the tenth.
  lemma PowNext(n: nat, i: nat, a: bv10, b: bv10)
    requires i > 0 && b == Times(a) && Pow(GF, n, a) == Pow(GF, i - 1, Pow(GF, n, 1))
    ensures Pow(GF, n, b) == Pow(GF, i, Pow(GF, n, 1))
  {
    PowPow(GF, n, 1, a);
    PowPow(GF, 1, n, a);
  }

  lemma Columns(n: nat, c: bv10)
    requires c == Pow(GF, n, 1)
    ensures Pow(GF, n, 2) == Pow(GF, 1, c) && Pow(GF, n, 4) == Pow(GF, 2, c) && Pow(GF, n, 8) == Pow(GF, 3, c)
    ensures Pow(GF, n, 16) == Pow(GF, 4, c) && Pow(GF, n, 32) == Pow(GF, 5, c) && Pow(GF, n, 64) == Pow(GF, 6, c)
    ensures Pow(GF, n, 128) == Pow(GF, 7, c) && Pow(GF, n, 256) == Pow(GF, 8, c) && Pow(GF, n, 512) == Pow(GF, 9, c)
  {
    PowNext(n, 1, 1, 2);
    PowNext(n, 2, 2, 4);
    PowNext(n, 3, 4, 8);
    PowNext(n, 4, 8, 16);
    PowNext(n, 5, 16, 32);
    PowNext(n, 6, 32, 64);
    PowNext(n, 7, 64, 128);
    PowNext(n, 8, 128, 256);
    PowNext(n, 9, 256, 512);
  }

  /** Multiplication by a power is that by its value. */
  lemma PowIsMul(n: nat, y: bv10)
    ensures Pow(GF, n, y) == Mul(y, Pow(GF, n, 1))
  {
    IsField();
    PowAdditive(n);
    var f, c := (y: bv10) => Pow(GF, n, y), Pow(GF, n, 1);
    Decomposed(GF, f, y);
    Columns(n, c);
    assert Pow(GF, 1, c) == Times(c);
  }

  lemma Double(n: nat, a: bv10, b: bv10)
    requires Pow(GF, n, 1) == a && Mul(a, a) == b
    ensures Pow(GF, 2 * n, 1) == b
  {
    PowPow(GF, n, n, 1);
    PowIsMul(n, a);
  }

  lemma DoubleNext(n: nat, a: bv10, b: bv10)
    requires Pow(GF, n, 1) == a && Times(Mul(a, a)) == b
    ensures Pow(GF, 2 * n + 1, 1) == b
  {
    Double(n, a, Mul(a, a));
  }

  lemma Power33()
    ensures Pow(GF, 33, 1) == 0xb0
  {
    Double(1, 0x2, 0x4);
    Double(2, 0x4, 0x10);
    Double(4, 0x10, 0x100);
    Double(8, 0x100, 0x119);
    DoubleNext(16, 0x119, 0xb0);
  }

  lemma Power93()
    ensures Pow(GF, 93, 1) == 0x36a
  {
    Double(1, 0x2, 0x4);
    DoubleNext(2, 0x4, 0x20);
    DoubleNext(5, 0x20, 0x246);
    DoubleNext(11, 0x246, 0x1f8);
    Double(23, 0x1f8, 0x34a);
    DoubleNext(46, 0x34a, 0x36a);
  }

  lemma Power341()
    ensures Pow(GF, 341, 1) == 0x36
  {
    Double(1, 0x2, 0x4);
    DoubleNext(2, 0x4, 0x20);
    Double(5, 0x20, 0x123);
    DoubleNext(10, 0x123, 0x7e);
    Double(21, 0x7e, 0x1d8);
    DoubleNext(42, 0x1d8, 0x1f1);
    Double(85, 0x1f1, 0x30b);
    DoubleNext(170, 0x30b, 0x36);
  }

  lemma Power1023()
    ensures Pow(GF, 1023, 1) == 0x1
  {
    DoubleNext(1, 0x2, 0x8);
    DoubleNext(3, 0x8, 0x80);
    DoubleNext(7, 0x80, 0x21d);
    DoubleNext(15, 0x21d, 0x2c);
    DoubleNext(31, 0x2c, 0x2e6);
    DoubleNext(63, 0x2e6, 0x1a3);
    DoubleNext(127, 0x1a3, 0x263);
    DoubleNext(255, 0x263, 0x39c);
    DoubleNext(511, 0x39c, 0x1);
  }

  lemma Power924()
    ensures Pow(GF, 924, 1) == 0xe
  {
    DoubleNext(1, 0x2, 0x8);
    DoubleNext(3, 0x8, 0x80);
    Double(7, 0x80, 0x39f);
    Double(14, 0x39f, 0x294);
    DoubleNext(28, 0x294, 0x2b3);
    DoubleNext(57, 0x2b3, 0xdf);
    DoubleNext(115, 0xdf, 0x3e9);
    Double(231, 0x3e9, 0x30c);
    Double(462, 0x30c, 0xe);
  }

  lemma RootPowers()
    ensures Pow(GF, 24, 1) == 0x3f0 && Pow(GF, 25, 1) == 0x2c3 && Pow(GF, 26, 1) == 0xa5
  {
    DoubleNext(1, 0x2, 0x8);
    Double(3, 0x8, 0x40);
    Double(6, 0x40, 0x1af);
    Double(12, 0x1af, 0x3f0);
    DoubleNext(12, 0x1af, 0x2c3);
    DoubleNext(6, 0x40, 0x35e);
    Double(13, 0x35e, 0xa5);
  }

  lemma SixthPowers()
    ensures Pow(GF, 144, 1) == 0x2ba && Pow(GF, 150, 1) == 0xa6 && Pow(GF, 156, 1) == 0x98
  {
    Double(1, 0x2, 0x4);
    Double(2, 0x4, 0x10);
    DoubleNext(4, 0x10, 0x200);
    Double(9, 0x200, 0x147);
    Double(18, 0x147, 0xa3);
    Double(36, 0xa3, 0x2b9);
    Double(72, 0x2b9, 0x2ba);
    DoubleNext(18, 0x147, 0x146);
    DoubleNext(37, 0x146, 0x144);
    Double(75, 0x144, 0xa6);
    DoubleNext(9, 0x200, 0x28e);
    DoubleNext(19, 0x28e, 0x3b);
    Double(39, 0x3b, 0x66);
    Double(78, 0x66, 0x98);
  }

  /** The element is primitive: its powers run through all 1023 elements but zero. */
  lemma IsPrimitive()
    ensures Primitive(GF)
  {
    IsField();
    forall y: bv10 ensures Fixed(GF, 1023, y) {
      Power1023();
      PowIsMul(1023, y);
      PowIsMul(0, y);
    }
    forall y: bv10 | Fixed(GF, 33, y) ensures y == 0 {
      Power33();
      PowIsMul(33, y);
      Fixed33(y);
    }
    forall y: bv10 | Fixed(GF, 93, y) ensures y == 0 {
      Power93();
      PowIsMul(93, y);
      Fixed93(y);
    }
    forall y: bv10 | Fixed(GF, 341, y) ensures y == 0 {
      Power341();
      PowIsMul(341, y);
      Fixed341(y);
    }
  }
}
