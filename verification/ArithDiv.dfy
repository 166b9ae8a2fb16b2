/** Division of 256-bit numbers by shifting and subtracting (src/arith_uint256.cpp). */
module ArithDiv {
  import opened Radix
  import opened Arith256
  import opened ArithShift

  // ---- Setting a bit of the quotient ----

  /** Limbs whose bits up to and including one position are clear. */
  ghost predicate LowClear(a: seq<nat>, pos: int) {
    && |a| == WIDTH && Digits(a, BASE) && -1 <= pos < 256
    && (pos >= 0 ==> (forall t :: 0 <= t < pos / 32 ==> a[t] == 0) && Rem(a[pos / 32], P2(pos % 32 + 1)) == 0)
  }

  lemma MultipleOf(x: nat, d: nat)
    requires d > 0 && Rem(x, d) == 0
    ensures x == d * Quot(x, d)
  {
    DivMod(x, d);
  }

  // A multiple of twice a power of two below 2^32 leaves room for that power.
  lemma RoomForBit(x: nat, n: nat)
    requires x < BASE && n < 32 && Rem(x, P2(n + 1)) == 0
    ensures x + P2(n) < BASE && Or(x, P2(n)) == x + P2(n)
  {
    var d := P2(n + 1);
    MultipleOf(x, d);
    assert d == 2 * P2(n);
    P2Add(n + 1, 31 - n);
    LimbPower(1);
    assert Pow(BASE, 1) == BASE;
    assert Quot(x, d) < P2(31 - n) by { if Quot(x, d) >= P2(31 - n) { MulMonotone(d, P2(31 - n), d, Quot(x, d)); } }
    MulMonotone(d, Quot(x, d) + 1, d, P2(31 - n));
    Dist(d, Quot(x, d), 1);
    OrAdds(P2(n), Quot(x, d), n + 1);
    OrSymmetric(x, P2(n));
  }

  lemma HalfMultiple(x: nat, n: nat)
    requires Rem(x, P2(n + 1)) == 0
    ensures Rem(x, P2(n)) == 0 && Rem(x + P2(n), P2(n)) == 0
  {
    var d, h := P2(n + 1), P2(n);
    MultipleOf(x, d);
    var q := Quot(x, d);
    assert d == 2 * h;
    assert x == h * (2 * q) by { Assoc(h, 2, q); }
    RemainderIs(x, 0, h, 2 * q);
    Dist(h, 2 * q, 1);
    RemainderIs(x + h, 0, h, 2 * q + 1);
  }

  lemma NextClear(a: seq<nat>, pos: nat)
    requires LowClear(a, pos) && pos < 256
    ensures LowClear(a, pos - 1)
  {
    var k, n := pos / 32, pos % 32;
    if pos > 0 {
      if n > 0 {
        HalfMultiple(a[k], n);
      } else {
        RemainderIs(0, 0, P2(32), 0);
      }
    }
  }

  lemma BitSet(a: seq<nat>, pos: nat)
    requires LowClear(a, pos) && pos < 256
    ensures var k, n := pos / 32, pos % 32;
            && Or(a[k], P2(n)) == a[k] + P2(n) && LowClear(a[k := a[k] + P2(n)], pos - 1)
            && Value(a[k := a[k] + P2(n)], BASE) == Value(a, BASE) + P2(pos)
  {
    var k, n := pos / 32, pos % 32;
    RoomForBit(a[k], n);
    BitSetClear(a, pos);
    assert Pow(BASE, k) * P2(n) == P2(pos) by {
      LimbPower(k);
      P2Add(32 * k, n);
    }
    ValueUpdate(a, k, P2(n));
  }

  lemma BitSetClear(a: seq<nat>, pos: nat)
    requires LowClear(a, pos) && pos < 256 && a[pos / 32] + P2(pos % 32) < BASE
    ensures LowClear(a[pos / 32 := a[pos / 32] + P2(pos % 32)], pos - 1)
  {
    var k, n := pos / 32, pos % 32;
    if pos > 0 {
      if n > 0 {
        HalfMultiple(a[k], n);
      } else {
        RemainderIs(0, 0, P2(32), 0);
      }
    }
  }

  // ---- The loop ----

  /** Dividend, quotient so far and remainder so far, with `shift` bits of the quotient still to decide. */
  ghost predicate Dividing(total: nat, d: nat, q: nat, rest: nat, shift: int) {
    -1 <= shift && total == d * q + rest && rest < d * P2(shift + 1)
  }

  lemma DivideTake(total: nat, d: nat, q: nat, rest: nat, shift: nat)
    requires Dividing(total, d, q, rest, shift) && rest >= d * P2(shift)
    ensures Dividing(total, d, q + P2(shift), rest - d * P2(shift), shift - 1)
  {
    Dist(d, q, P2(shift));
    assert P2(shift + 1) == 2 * P2(shift);
    Assoc(d, 2, P2(shift));
    Assoc(2, d, P2(shift));
  }

  lemma DivideSkip(total: nat, d: nat, q: nat, rest: nat, shift: nat)
    requires Dividing(total, d, q, rest, shift) && rest < d * P2(shift)
    ensures Dividing(total, d, q, rest, shift - 1)
  {
  }

  lemma DivideDone(total: nat, d: nat, q: nat, rest: nat)
    requires Dividing(total, d, q, rest, -1)
    ensures total / d == q
  {
    assert P2(0) == 1 && d * 1 == d;
    assert d * q == q * d;
    QuotientIs(total, q, d, rest);
  }

  lemma LimitAt(m: nat, w: nat)
    requires w == WIDTH && m <= 32 * w
    ensures P2(m) <= MODULUS
  {
    LimbPower(w);
    P2Grows(m, 32 * w);
    ModulusIs();
  }

  lemma AboveDividend(total: nat, d: nat, n: nat, shift: nat)
    requires n > 0 && P2(n - 1) <= d && total < P2(n + shift)
    ensures total < d * P2(shift + 1)
  {
    P2Add(n - 1, shift + 1);
    MulMonotone(P2(n - 1), P2(shift + 1), d, P2(shift + 1));
  }

  lemma BelowLimit(d: nat, n: nat, shift: nat)
    requires d < P2(n)
    ensures d * P2(shift) < P2(n + shift)
  {
    P2Add(n, shift);
    MulMonotone(d + 1, P2(shift), P2(n), P2(shift));
    Dist(P2(shift), d, 1);
  }

  lemma DivideStart(total: nat, d: nat, m: nat, n: nat)
    requires BitLength(total, m) && BitLength(d, n) && 0 < n <= m <= 256
    ensures Dividing(total, d, 0, total, m - n) && d * P2(m - n) < MODULUS
  {
    AboveDividend(total, d, n, m - n);
    BelowLimit(d, n, m - n);
    LimitAt(m, WIDTH);
    assert d * 0 == 0;
  }

  lemma Smaller(total: nat, d: nat, m: nat, n: nat)
    requires BitLength(total, m) && BitLength(d, n) && m < n
    ensures total < d && total / d == 0
  {
    if m > 0 { P2Grows(m, n - 1); }
    QuotientIs(total, 0, d, total);
  }

  method Copy(a: array<nat>) returns (r: array<nat>)
    requires Limbs(a)
    ensures fresh(r) && Limbs(r) && r[..] == a[..]
  {
    r := new nat[WIDTH](_ => 0);
    CopyFrom(r, a);
  }

  // Decide one bit of the quotient.
  method DivideBit(pn: array<nat>, num: array<nat>, div: array<nat>, shift: nat, ghost total: nat, ghost d: nat)
    requires Limbs(num) && Limbs(div) && pn.Length == WIDTH && pn != num && pn != div && num != div && shift < 256
    requires LowClear(pn[..], shift) && Num(div) == d * P2(shift) && Dividing(total, d, Num(pn), Num(num), shift)
    modifies pn, num
    ensures Limbs(num) && LowClear(pn[..], shift - 1) && Dividing(total, d, Num(pn), Num(num), shift - 1)
  {
    var c := CompareTo(num, div);
    NextClear(pn[..], shift);
    if c >= 0 {
      DivideTake(total, d, Num(pn), Num(num), shift);
      LimbsBound(num[..]);
      ExactDifference(Num(num), Num(div));
      SubAssign(num, div);
      ghost var before := pn[..];
      BitSet(before, shift);
      pn[shift / 32] := Or(pn[shift / 32], P2(shift % 32));
      assert pn[..] == before[shift / 32 := before[shift / 32] + P2(shift % 32)];
    } else {
      DivideSkip(total, d, Num(pn), Num(num), shift);
    }
  }

  lemma ExactDifference(x: nat, y: nat)
    requires y <= x < MODULUS
    ensures (x - y) % MODULUS == x - y
  {
  }

  lemma HalfProduct(d: nat, shift: nat)
    requires shift > 0
    ensures d * P2(shift) / P2(1) == d * P2(shift - 1)
  {
    assert P2(1) == 2 && P2(shift) == 2 * P2(shift - 1);
    Assoc(d, 2, P2(shift - 1));
    Assoc(2, d, P2(shift - 1));
    QuotientIs(d * P2(shift), Mul(d, P2(shift - 1)), 2, 0);
  }

  lemma ZeroClear(a: seq<nat>, pos: nat)
    requires a == seq(WIDTH, _ => 0) && pos < 256
    ensures LowClear(a, pos) && Value(a, BASE) == 0
  {
    RemainderIs(0, 0, P2(pos % 32 + 1), 0);
    ZeroValue(a, BASE);
  }

  /** Division: the exact quotient, or an error for a zero divisor; the operands may be the same object. */
  method DivAssign(pn: array<nat>, b: array<nat>) returns (ok: bool)
    requires Limbs(pn) && Limbs(b)
    modifies pn
    ensures Limbs(pn) && (ok <==> old(Num(b)) != 0)
    ensures if ok then Num(pn) == old(Num(pn)) / old(Num(b)) else Num(pn) == 0
  {
    var div := Copy(b);
    var num := Copy(pn);
    ghost var total, d := Num(num), Num(div);
    Clear(pn);
    ZeroClear(pn[..], 0);
    var numBits := Bits(num);
    var divBits := Bits(div);
    if divBits == 0 { return false; }
    assert P2(divBits - 1) > 0;
    if divBits > numBits {
      Smaller(total, d, numBits, divBits);
      return true;
    }
    Align(pn, num, div, numBits, divBits);
    ok := true;
  }

  // Shift the divisor so that it aligns with the dividend, and divide.
  method Align(pn: array<nat>, num: array<nat>, div: array<nat>, numBits: nat, divBits: nat)
    requires Limbs(num) && Limbs(div) && pn.Length == WIDTH && pn != num && pn != div && num != div
    requires BitLength(Num(num), numBits) && BitLength(Num(div), divBits) && 0 < divBits <= numBits <= 256
    requires pn[..] == seq(WIDTH, _ => 0)
    modifies pn, num, div
    ensures Limbs(pn) && old(Num(div)) > 0 && Num(pn) == old(Num(num)) / old(Num(div))
  {
    ghost var total, d := Num(num), Num(div);
    var shift := numBits - divBits;
    assert P2(divBits - 1) > 0;
    DivideStart(total, d, numBits, divBits);
    ZeroClear(pn[..], shift);
    assert shift < 256;
    ShiftLeft(div, shift);
    ExactDifference(d * P2(shift), 0);
    Divide(pn, num, div, shift, total, d);
  }

  // Decide all bits of the quotient.
  method Divide(pn: array<nat>, num: array<nat>, div: array<nat>, bits: nat, ghost total: nat, ghost d: nat)
    requires Limbs(num) && Limbs(div) && pn.Length == WIDTH && pn != num && pn != div && num != div && bits < 256 &&
             d > 0
    requires LowClear(pn[..], bits) && Num(div) == d * P2(bits) && Dividing(total, d, Num(pn), Num(num), bits)
    modifies pn, num, div
    ensures Limbs(pn) && Num(pn) == total / d
  {
    var shift: int := bits;
    while shift >= 0
      invariant -1 <= shift < 256 && Limbs(num) && Limbs(div) && LowClear(pn[..], shift)
      invariant shift >= 0 ==> Num(div) == d * P2(shift)
      invariant Dividing(total, d, Num(pn), Num(num), shift)
    {
      DivideBit(pn, num, div, shift, total, d);
      if shift > 0 { HalfProduct(d, shift); }
      ShiftRight(div, 1);
      shift := shift - 1;
    }
    DivideDone(total, d, Num(pn), Num(num));
  }
}
