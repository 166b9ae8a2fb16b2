/** Numbers in positional notation, lowest digit first: values, uniqueness, and sizes across bases. */
module Radix {

  // ---- Powers ----

  function Pow(b: nat, n: nat): (r: nat)
    ensures b > 0 ==> r > 0
  {
    if n == 0 then 1 else Mul(b, Pow(b, n - 1))
  }

  // A product, with the sign facts that the solver needs.
  function Mul(a: nat, b: nat): (r: nat)
    ensures r == a * b && (a > 0 && b > 0 ==> r > 0)
  {
    a * b
  }

  // Quotient and remainder as natural numbers.
  function Quot(t: nat, b: nat): (q: nat)
    requires b > 0
  {
    t / b
  }

  function Rem(t: nat, b: nat): (r: nat)
    requires b > 0
    ensures r < b
  {
    t % b
  }

  lemma Assoc(a: nat, b: nat, c: nat)
    ensures a * (b * c) == (a * b) * c
  {
  }

  lemma Dist(a: nat, b: nat, c: nat)
    ensures a * (b + c) == a * b + a * c
  {
  }

  lemma {:induction false} PowAdd(b: nat, m: nat, n: nat)
    ensures Pow(b, m + n) == Pow(b, m) * Pow(b, n)
  {
    if m > 0 {
      PowAdd(b, m - 1, n);
      Assoc(b, Pow(b, m - 1), Pow(b, n));
    }
  }

  lemma {:induction false} PowMul(b: nat, m: nat, n: nat)
    ensures Pow(b, m * n) == Pow(Pow(b, m), n)
  {
    if n > 0 {
      PowMul(b, m, n - 1);
      assert m * n == m + m * (n - 1);
      PowAdd(b, m, m * (n - 1));
    } else {
      assert m * n == 0;
    }
  }

  lemma MulMonotone(a: nat, b: nat, c: nat, d: nat)
    requires a <= c && b <= d
    ensures a * b <= c * d
  {
    assert a * b <= c * b <= c * d;
  }

  lemma {:induction false} PowBase(a: nat, b: nat, n: nat)
    requires a <= b
    ensures Pow(a, n) <= Pow(b, n)
  {
    if n > 0 {
      PowBase(a, b, n - 1);
      MulMonotone(a, Pow(a, n - 1), b, Pow(b, n - 1));
    }
  }

  lemma {:induction false} PowBaseStrict(a: nat, b: nat, n: nat)
    requires a < b && n > 0
    ensures Pow(a, n) < Pow(b, n)
  {
    PowBase(a, b, n - 1);
    if b > 0 { PowPositive(b, n - 1); }
    MulMonotone(a, Pow(a, n - 1), a, Pow(b, n - 1));
    MulMonotone(a + 1, Pow(b, n - 1), b, Pow(b, n - 1));
    Dist(Pow(b, n - 1), a, 1);
  }

  lemma PowPositive(b: nat, n: nat)
    requires b > 0
    ensures Pow(b, n) > 0
  {
  }

  lemma {:induction false} PowExponent(b: nat, m: nat, n: nat)
    requires b > 0 && m <= n
    ensures Pow(b, m) <= Pow(b, n)
  {
    if m < n {
      PowExponent(b, m, n - 1);
      assert Pow(b, n - 1) <= b * Pow(b, n - 1);
    }
  }

  lemma FitsPower(a: nat, b: nat, p: nat, q: nat, m: nat, s: nat)
    requires b > 0 && Pow(a, p) <= Pow(b, q) && q * m <= p * s
    ensures Pow(a, p * m) <= Pow(b, p * s)
  {
    PowMul(a, p, m);
    PowMul(b, q, m);
    PowBase(Pow(a, p), Pow(b, q), m);
    PowExponent(b, q * m, p * s);
  }

  lemma Root(x: nat, y: nat, p: nat)
    requires p > 0 && Pow(x, p) <= Pow(y, p)
    ensures x <= y
  {
    if x > y { PowBaseStrict(y, x, p); }
  }

  lemma PowMulSwapped(b: nat, p: nat, m: nat)
    ensures Pow(b, p * m) == Pow(Pow(b, m), p)
  {
    assert p * m == m * p;
    PowMul(b, m, p);
  }

  /**
   If p digits in base a fit into q digits in base b, then m digits fit into s digits, where s is to m as q is to p.
   */
  lemma Fits(a: nat, b: nat, p: nat, q: nat, m: nat, s: nat)
    requires b > 0 && p > 0 && Pow(a, p) <= Pow(b, q) && q * m <= p * s
    ensures Pow(a, m) <= Pow(b, s)
  {
    FitsPower(a, b, p, q, m, s);
    PowMulSwapped(a, p, m);
    PowMulSwapped(b, p, s);
    Root(Pow(a, m), Pow(b, s), p);
  }

  lemma PowSum(b: nat, m: nat, n: nat, v: nat, w: nat)
    requires Pow(b, m) == v && Pow(b, n) == w
    ensures Pow(b, m + n) == v * w
  {
    PowAdd(b, m, n);
  }

  /** Eight bytes fit into eleven base-58 digits. */
  lemma BytesFit()
    ensures Pow(256, 8) <= Pow(58, 11)
  {
    assert Pow(256, 2) == 0x1_0000;
    PowSum(256, 2, 2, 0x1_0000, 0x1_0000);
    PowSum(256, 4, 4, 0x1_0000_0000, 0x1_0000_0000);
    assert Pow(58, 2) == 3364 && Pow(58, 3) == 195112;
    PowSum(58, 2, 2, 3364, 3364);
    PowSum(58, 4, 4, 11316496, 11316496);
    PowSum(58, 8, 3, 128063081718016, 195112);
  }

  lemma Power58()
    ensures Pow(58, 71) ==
            0xf1a10f76073f997e1af0b37f5c795ecf145633452837a5de3fa17ac74b86f60a0ebe5446f358940a4ca12a800000000000000000
  {
    assert Pow(58, 2) == 3364 && Pow(58, 3) == 195112;
    PowSum(58, 2, 2, 3364, 3364);
    PowSum(58, 4, 3, 11316496, 195112);
    PowSum(58, 4, 4, 11316496, 11316496);
    PowSum(58, 8, 8, 128063081718016, 128063081718016);
    PowSum(58, 16, 16, 16400152899115243850138976256, 16400152899115243850138976256);
    PowSum(58, 32, 32, 268965015114358137726910587140455987105619365599731777536,
           268965015114358137726910587140455987105619365599731777536);
    PowSum(58, 64, 7, 0x7853026ae25f4ce0c69893e6f1f86f67aef4db69563516064adeb967a9d66f4fe64b09ec94e5010000000000000000,
           2207984167552);
  }

  lemma Power256()
    ensures Pow(256, 52) ==
            0x100000000000000000000000000000000000000000000000000000000000000000000000000000000000000000000000000000000
  {
    assert Pow(256, 2) == 0x1_0000;
    PowSum(256, 2, 2, 0x1_0000, 0x1_0000);
    PowSum(256, 4, 4, 0x1_0000_0000, 0x1_0000_0000);
    PowSum(256, 8, 8, 0x1_0000_0000_0000_0000, 0x1_0000_0000_0000_0000);
    PowSum(256, 16, 16, 340282366920938463463374607431768211456, 340282366920938463463374607431768211456);
    PowSum(256, 32, 16, 0x10000000000000000000000000000000000000000000000000000000000000000,
           340282366920938463463374607431768211456);
    PowSum(256, 48, 4,
           0x1000000000000000000000000000000000000000000000000000000000000000000000000000000000000000000000000,
             0x1_0000_0000);
  }

  /** Seventy-one base-58 digits fit into fifty-two bytes. */
  lemma DigitsFit()
    ensures Pow(58, 71) <= Pow(256, 52)
  {
    Power58();
    Power256();
  }

  // ---- Digits ----

  predicate Digits(s: seq<nat>, b: nat) { forall i :: 0 <= i < |s| ==> s[i] < b }

  /** The number of a list of digits, lowest first. */
  function Value(s: seq<nat>, b: nat): nat { if s == [] then 0 else s[0] + Mul(b, Value(s[1..], b)) }

  lemma {:induction false} ValueAppend(s: seq<nat>, d: nat, b: nat)
    ensures Value(s + [d], b) == Value(s, b) + Pow(b, |s|) * d
  {
    if s == [] {
      assert s + [d] == [d] && Value([d][1..], b) == 0;
    } else {
      assert (s + [d])[1..] == s[1..] + [d];
      ValueAppend(s[1..], d, b);
      Dist(b, Value(s[1..], b), Pow(b, |s| - 1) * d);
      Assoc(b, Pow(b, |s| - 1), d);
    }
  }

  lemma {:induction false} ValueBound(s: seq<nat>, b: nat)
    requires Digits(s, b)
    ensures Value(s, b) < Pow(b, |s|)
  {
    if s != [] {
      ValueBound(s[1..], b);
      MulMonotone(b, Value(s[1..], b) + 1, b, Pow(b, |s| - 1));
      Dist(b, Value(s[1..], b), 1);
    }
  }

  predicate AllZero(s: seq<nat>) { forall i :: 0 <= i < |s| ==> s[i] == 0 }

  lemma {:induction false} ZeroValue(s: seq<nat>, b: nat)
    requires AllZero(s)
    ensures Value(s, b) == 0
  {
    if s != [] { ZeroValue(s[1..], b); }
  }

  /** No leading zeros: the highest digit is not zero. */
  predicate Canonical(s: seq<nat>, b: nat) { Digits(s, b) && (s != [] ==> s[|s| - 1] != 0) }

  lemma {:induction false} CanonicalPositive(s: seq<nat>, b: nat)
    requires Canonical(s, b) && s != [] && b > 0
    ensures Value(s, b) > 0
  {
    if |s| > 1 {
      CanonicalPositive(s[1..], b);
      assert b * Value(s[1..], b) > 0;
    }
  }

  lemma SplitUnique(d: nat, e: nat, m: nat, n: nat, b: nat)
    requires d < b && e < b && d + b * m == e + b * n
    ensures d == e && m == n
  {
    Dist(b, m, 1);
    Dist(b, n, 1);
    if m < n {
      MulMonotone(b, m + 1, b, n);
    } else if n < m {
      MulMonotone(b, n + 1, b, m);
    }
  }

  /** A number has one canonical notation. */
  lemma {:induction false} CanonicalUnique(s: seq<nat>, t: seq<nat>, b: nat)
    requires b > 0 && Canonical(s, b) && Canonical(t, b) && Value(s, b) == Value(t, b)
    ensures s == t
  {
    if s == [] {
      if t != [] { CanonicalPositive(t, b); }
    } else if t == [] {
      CanonicalPositive(s, b);
    } else {
      SplitUnique(s[0], t[0], Value(s[1..], b), Value(t[1..], b), b);
      CanonicalUnique(s[1..], t[1..], b);
      assert s == [s[0]] + s[1..] && t == [t[0]] + t[1..];
    }
  }

  // ---- Multiplying in place ----

  /** Digits done, and the carry plus the multiple of the digits to come, make up the result. */
  ghost predicate Partial(done: seq<nat>, carry: nat, rest: seq<nat>, m: nat, b: nat, total: nat) {
    Value(done, b) + Pow(b, |done|) * (carry + m * Value(rest, b)) == total
  }

  lemma Distribute(p: nat, x: nat, b: nat, c: nat, m: nat, v: nat)
    ensures p * (x + b * c + m * (b * v)) == p * x + (b * p) * (c + m * v)
  {
    Assoc(m, b, v);
    Assoc(b, m, v);
    Dist(b, c, m * v);
    Dist(p, x, b * (c + m * v));
    Assoc(p, b, c + m * v);
  }

  lemma PowNext(b: nat, done: seq<nat>, d: nat)
    ensures Pow(b, |done + [d]|) == b * Pow(b, |done|)
  {
  }

  lemma StepArith(a: nat, p: nat, b: nat, carry: nat, m: nat, d: nat, v: nat, x: nat, c: nat)
    requires carry + m * d == x + b * c
    ensures a + p * (carry + m * (d + b * v)) == (a + p * x) + (b * p) * (c + m * v)
  {
    Dist(m, d, b * v);
    assert carry + m * (d + b * v) == x + b * c + m * (b * v);
    Distribute(p, x, b, c, m, v);
  }

  lemma PartialStep(done: seq<nat>, carry: nat, rest: seq<nat>, m: nat, b: nat, total: nat)
    requires b > 0 && rest != [] && Partial(done, carry, rest, m, b, total)
    ensures var t := carry + Mul(m, rest[0]); Partial(done + [Rem(t, b)], Quot(t, b), rest[1..], m, b, total)
  {
    var t := carry + Mul(m, rest[0]);
    DivMod(t, b);
    StepArith(Value(done, b), Pow(b, |done|), b, carry, m, rest[0], Value(rest[1..], b), Rem(t, b), Quot(t, b));
    ValueAppend(done, Rem(t, b), b);
    PowNext(b, done, Rem(t, b));
  }

  lemma DivMod(t: nat, b: nat)
    requires b > 0
    ensures t == Rem(t, b) + b * Quot(t, b)
  {
  }

  /** Once nothing is carried and only zeros are left, the result is complete. */
  lemma PartialDone(done: seq<nat>, rest: seq<nat>, m: nat, b: nat, total: nat)
    requires Partial(done, 0, rest, m, b, total) && AllZero(rest)
    ensures Value(done, b) == total
  {
    ZeroValue(rest, b);
    assert m * 0 == 0 && Pow(b, |done|) * 0 == 0;
  }

  /** At the end of the buffer nothing is carried if the result fits. */
  lemma PartialFits(done: seq<nat>, carry: nat, m: nat, b: nat, total: nat)
    requires Partial(done, carry, [], m, b, total) && total < Pow(b, |done|)
    ensures carry == 0
  {
    assert m * 0 == 0;
    var p := Pow(b, |done|);
    if carry > 0 { MulMonotone(p, 1, p, carry); }
  }

  /** The first `i` digits are done, the others as they were. */
  ghost predicate Progress(buf: seq<nat>, was: seq<nat>, i: nat, carry: nat, m: nat, b: nat, total: nat) {
    i <= |buf| == |was| && Digits(buf[..i], b) && buf[i..] == was[i..] &&
      Partial(buf[..i], carry, was[i..], m, b, total)
  }

  lemma ProgressStart(was: seq<nat>, ch: nat, m: nat, b: nat, v: nat)
    requires Value(was, b) == v
    ensures Progress(was, was, 0, ch, m, b, m * v + ch)
  {
    assert was[..0] == [] && was[0..] == was;
    assert Value(was[..0], b) == 0 && Pow(b, |was[..0]|) == 1;
  }

  lemma ProgressStep(buf: seq<nat>, was: seq<nat>, i: nat, carry: nat, m: nat, b: nat, total: nat)
    requires b > 1 && Progress(buf, was, i, carry, m, b, total) && i < |buf|
    ensures var t := carry + Mul(m, buf[i]); Progress(buf[i := Rem(t, b)], was, i + 1, Quot(t, b), m, b, total)
  {
    PartialStep(buf[..i], carry, was[i..], m, b, total);
    var t := carry + Mul(m, buf[i]);
    var buf' := buf[i := Rem(t, b)];
    assert was[i..][0] == buf[i..][0] == buf[i] && was[i..][1..] == was[i + 1..];
    assert buf'[..i + 1] == buf[..i] + [Rem(t, b)];
    assert buf'[i + 1..] == buf[i..][1..] == was[i + 1..];
  }
}
