/**
 The compact form of 256-bit numbers (src/arith_uint256.cpp): a byte count and a 23-bit mantissa, from
 which the number can be recovered to sixteen significant bits.
 */
module CompactTarget {
  import opened Radix
  import opened Arith256
  import opened ArithShift
  import opened ArithDiv

  /** A number moved so that its highest three bytes, for a given byte count, are the lowest. */
  function Scaled(x: nat, size: nat): (m: nat) {
    if size <= 3 then Mul(x, P2(8 * (3 - size))) else Quot(x, P2(8 * (size - 3)))
  }

  const MANTISSA_LIMIT := 0x80_0000
  const MANTISSA_LEAST := 0x8000

  /** The normal compact form: a mantissa below the sign bit with at least sixteen significant bits. */
  predicate IsCompact(x: nat, size: nat, m: nat) {
    if x == 0 then size == 0 && m == 0 else m == Scaled(x, size) && MANTISSA_LEAST <= m < MANTISSA_LIMIT
  }

  lemma DivideTwice(x: nat, a: nat, b: nat)
    requires a > 0 && b > 0
    ensures a * b > 0 && Quot(Quot(x, a), b) == Quot(x, a * b)
  {
    var q := Quot(x, a);
    DivMod(x, a);
    DivMod(q, b);
    var r := Rem(x, a) + Mul(a, Rem(q, b));
    MulMonotone(a, Rem(q, b) + 1, a, b);
    Dist(a, Rem(q, b), 1);
    Dist(a, Rem(q, b), b * Quot(q, b));
    Assoc(a, b, Quot(q, b));
    MulMonotone(1, 1, a, b);
    QuotientIs(x, Quot(q, b), Mul(a, b), r);
  }

  /** One byte more in the count is one byte less in the mantissa. */
  lemma ScaledStep(x: nat, size: nat)
    ensures Scaled(x, size + 1) == Scaled(x, size) / 256
  {
    EightBits();
    if size < 3 {
      P2Add(8 * (2 - size), 8);
      assert 8 * (3 - size) == 8 * (2 - size) + 8;
      Assoc(x, P2(8 * (2 - size)), 256);
      QuotientIs(Mul(x, P2(8 * (3 - size))), Mul(x, P2(8 * (2 - size))), 256, 0);
    } else if size == 3 {
      assert P2(0) == 1;
    } else {
      P2Add(8 * (size - 3), 8);
      assert 8 * (size + 1 - 3) == 8 * (size - 3) + 8;
      DivideTwice(x, P2(8 * (size - 3)), 256);
    }
  }

  lemma EightBits()
    ensures P2(8) == 256
  {
    assert Pow(2, 2) == 4;
    PowSum(2, 2, 2, 4, 4);
    PowSum(2, 4, 4, 16, 16);
  }

  lemma {:induction false} ScaledShrinks(x: nat, s: nat, t: nat)
    requires s < t
    ensures Scaled(x, t) <= Scaled(x, s) / 256
    decreases t
  {
    ScaledStep(x, t - 1);
    if s < t - 1 { ScaledShrinks(x, s, t - 1); }
  }

  /** A number has one normal compact form. */
  lemma CompactUnique(x: nat, s: nat, m: nat, t: nat, n: nat)
    requires IsCompact(x, s, m) && IsCompact(x, t, n)
    ensures s == t && m == n
  {
    if x > 0 {
      if s < t {
        ScaledShrinks(x, s, t);
      } else if t < s {
        ScaledShrinks(x, t, s);
      }
    }
  }

  // ---- Expanding ----

  /** The number a byte count and a mantissa stand for. */
  function Expanded(size: nat, m: nat): nat {
    if size <= 3 then Quot(m, P2(8 * (3 - size))) else Mul(m, P2(8 * (size - 3)))
  }

  /**
   What is recovered from the normal form of a number has the same form, is no larger, and falls short by
   less than one part in 2^15.
   */
  lemma Recovered(x: nat, size: nat, m: nat)
    requires IsCompact(x, size, m)
    ensures var y := Expanded(size, m); IsCompact(y, size, m) && y <= x && (x - y) * 0x8000 <= x
  {
    if x == 0 {
      QuotientIs(0, 0, P2(24), 0);
    } else if size <= 3 {
      var p := P2(8 * (3 - size));
      QuotientIs(m, x, p, 0);
    } else {
      var p := P2(8 * (size - 3));
      var y := Mul(m, p);
      DivMod(x, p);
      QuotientIs(y, m, p, 0);
      MulMonotone(0x8000, p, m, p);
      assert x == y + Rem(x, p);
      assert y > 0;
    }
  }

  /** The normal form of a 256-bit number has neither sign nor overflow. */
  lemma NoFlags(x: nat, size: nat, m: nat)
    requires IsCompact(x, size, m) && x < MODULUS
    ensures size <= 33 && (size == 33 ==> m <= 0xffff) && Expanded(size, m) < MODULUS
  {
    Recovered(x, size, m);
    if x > 0 && size > 32 {
      TopScaled(x);
      if size > 33 { ScaledShrinks(x, 33, size); }
    }
  }

  lemma TopScaled(x: nat)
    requires x < MODULUS
    ensures Scaled(x, 33) < 0x1_0000
  {
    var w: nat := WIDTH;
    LimbPower(w);
    ModulusIs();
    TopPower(w);
    var p := P2(8 * (33 - 3));
    DivMod(x, p);
    if Quot(x, p) >= 0x1_0000 { MulMonotone(p, 0x1_0000, p, Quot(x, p)); }
  }

  lemma TopPower(w: nat)
    requires w == WIDTH
    ensures P2(32 * w) == P2(8 * (33 - 3)) * 0x1_0000
  {
    var k: nat := 8 * (33 - 3);
    P2Add(k, 16);
    EightBits();
    PowSum(2, 8, 8, 256, 256);
    assert 32 * w == k + 16;
  }

  // ---- Taking the compact form ----

  lemma SixteenBits()
    ensures P2(16) == 0x1_0000 && P2(24) == 0x100_0000
  {
    EightBits();
    PowSum(2, 8, 8, 256, 256);
    PowSum(2, 16, 8, 0x1_0000, 256);
  }

  /** The three highest bytes, for the number of bytes that its bits take. */
  lemma FirstScaled(x: nat, bits: nat)
    requires BitLength(x, bits) && bits > 0
    ensures var size := (bits + 7) / 8; 0x1_0000 <= Scaled(x, size) < 0x100_0000
  {
    var size := (bits + 7) / 8;
    P2Grows(8 * (size - 1), bits - 1);
    P2Grows(bits, 8 * size);
    SixteenBits();
    if size <= 3 {
      var p := P2(8 * (3 - size));
      P2Add(8 * (size - 1), 8 * (3 - size));
      P2Add(8 * size, 8 * (3 - size));
      MulMonotone(P2(8 * (size - 1)), p, x, p);
      MulMonotone(x + 1, p, P2(8 * size), p);
      Dist(p, x, 1);
    } else {
      var p := P2(8 * (size - 3));
      P2Add(8 * (size - 3), 16);
      P2Add(8 * (size - 3), 24);
      QuotientBetween(x, p, 0x1_0000, 0x100_0000);
    }
  }

  lemma QuotientBetween(x: nat, p: nat, lo: nat, hi: nat)
    requires p > 0 && p * lo <= x < p * hi
    ensures lo <= Quot(x, p) < hi
  {
    DivMod(x, p);
    Dist(p, Quot(x, p), 1);
    if Quot(x, p) < lo { MulMonotone(p, Quot(x, p) + 1, p, lo); }
    if Quot(x, p) >= hi { MulMonotone(p, hi, p, Quot(x, p)); }
  }

  /** The two lowest limbs; all of a small number. */
  method GetLow64(a: array<nat>) returns (r: nat)
    requires Limbs(a)
    ensures Num(a) < BASE ==> r == Num(a)
  {
    r := a[0] + BASE * a[1];
    if Num(a) < BASE { LowLimb(a[..]); }
  }

  lemma LowLimb(a: seq<nat>)
    requires |a| == WIDTH && Value(a, BASE) < BASE
    ensures a[1] == 0 && a[0] == Value(a, BASE)
  {
    assert Value(a, BASE) == a[0] + BASE * Value(a[1..], BASE);
    assert Value(a[1..], BASE) == a[1..][0] + BASE * Value(a[1..][1..], BASE);
  }

  // The highest three bytes.
  method Mantissa(pn: array<nat>, bits: nat) returns (m: nat)
    requires Limbs(pn) && BitLength(Num(pn), bits) && bits <= 256
    ensures m == Scaled(Num(pn), (bits + 7) / 8) < 0x100_0000
    ensures if bits == 0 then m == 0 else m >= 0x1_0000
  {
    var size := (bits + 7) / 8;
    ghost var x := Num(pn);
    if bits > 0 { FirstScaled(x, bits); }
    if size <= 3 {
      SmallNumber(x, bits);
      var low := GetLow64(pn);
      m := Mul(low, P2(8 * (3 - size)));
    } else {
      var bn := Copy(pn);
      ShiftRight(bn, 8 * (size - 3));
      m := GetLow64(bn);
    }
  }

  lemma SmallNumber(x: nat, bits: nat)
    requires BitLength(x, bits) && bits <= 24
    ensures x < BASE
  {
    P2Grows(bits, 24);
    SixteenBits();
  }

  // A mantissa that reaches into the sign bit gives up a byte.
  lemma Adjusted(x: nat, size: nat, m: nat)
    requires m == Scaled(x, size) && 0x1_0000 <= m < 0x100_0000
    ensures x > 0
    ensures if m / MANTISSA_LIMIT % 2 == 1 then IsCompact(x, size + 1, m / 256) else IsCompact(x, size, m)
  {
    ScaledStep(x, size);
    if x == 0 { ScaledZero(size); }
  }

  lemma ScaledZero(size: nat)
    ensures Scaled(0, size) == 0
  {
    if size > 3 { QuotientIs(0, 0, P2(8 * (size - 3)), 0); }
  }

  /** The compact form with a sign bit; the result is the normal form of the number. */
  method GetCompact(pn: array<nat>, fNegative: bool) returns (c: nat)
    requires Limbs(pn)
    ensures IsCompact(Num(pn), c / 0x100_0000, c % MANTISSA_LIMIT) && c / 0x100_0000 <= 33
    ensures c / MANTISSA_LIMIT % 2 == 1 <==> fNegative && c % MANTISSA_LIMIT != 0
  {
    ghost var x := Num(pn);
    var bits := Bits(pn);
    var nSize := (bits + 7) / 8;
    var mantissa := Mantissa(pn, bits);
    if bits > 0 { Adjusted(x, nSize, mantissa); }
    if mantissa / MANTISSA_LIMIT % 2 == 1 {
      mantissa := mantissa / 256;
      nSize := nSize + 1;
    }
    assert mantissa < MANTISSA_LIMIT && nSize < 256;
    c := mantissa + nSize * 0x100_0000;
    if fNegative && mantissa != 0 { c := c + MANTISSA_LIMIT; }
    CompactParts(nSize, mantissa, fNegative && mantissa != 0);
  }

  // ---- Reading the compact form ----

  method FromNumber(b: nat) returns (r: array<nat>)
    requires b < BASE
    ensures fresh(r) && Limbs(r) && Num(r) == b
  {
    r := new nat[WIDTH](_ => 0);
    ZeroValue(r[..], BASE);
    ValueUpdate(r[..], 0, b);
    ghost var before := r[..];
    r[0] := b;
    assert r[..] == before[0 := before[0] + b] && Pow(BASE, 0) == 1;
  }

  lemma LimitPower(e: nat, k: nat, w: nat)
    requires w == WIDTH && 8 * e + k == 32 * w
    ensures MODULUS == P2(8 * e) * P2(k)
  {
    LimbPower(w);
    ModulusIs();
    P2Add(8 * e, k);
  }

  /** The flag for overflow says exactly that the number does not fit. */
  lemma OverflowExact(size: nat, word: nat)
    requires word < MANTISSA_LIMIT && size > 3
    ensures Expanded(size, word) >= MODULUS <==>
            word != 0 && (size > 34 || (word > 0xff && size > 33) || (word > 0xffff && size > 32))
  {
    var e := size - 3;
    var p := P2(8 * e);
    SixteenBits();
    EightBits();
    if size <= 32 {
      LimitPower(29, 24, WIDTH);
      P2Grows(8 * e, 8 * 29);
      MulMonotone(word, p, MANTISSA_LIMIT, P2(8 * 29));
    } else if size == 33 {
      LimitPower(e, 16, WIDTH);
      Threshold(word, p, 0x1_0000);
    } else if size == 34 {
      LimitPower(e, 8, WIDTH);
      Threshold(word, p, 0x100);
    } else {
      LimitPower(32, 0, WIDTH);
      P2Grows(8 * 32, 8 * e);
      if word > 0 { MulMonotone(1, p, word, p); }
    }
  }

  lemma Threshold(word: nat, p: nat, k: nat)
    requires p > 0
    ensures Mul(word, p) >= p * k <==> word >= k
  {
    if word >= k {
      MulMonotone(k, p, word, p);
    } else {
      MulMonotone(word + 1, p, k, p);
      Dist(p, word, 1);
    }
  }

  /** Expand a compact form; the flags report a sign and a number that does not fit. */
  method SetCompact(nCompact: nat) returns (r: array<nat>, negative: bool, overflow: bool)
    requires nCompact < BASE
    ensures fresh(r) && Limbs(r)
    ensures var size, word := nCompact / 0x100_0000, nCompact % MANTISSA_LIMIT;
            && Num(r) == Expanded(size, word) % MODULUS && (overflow <==> Expanded(size, word) >= MODULUS)
            && (negative <==>
                nCompact / MANTISSA_LIMIT % 2 == 1 && (if size <= 3 then Expanded(size, word) else word) != 0)
  {
    var nSize := nCompact / 0x100_0000;
    var nWord: nat := nCompact % MANTISSA_LIMIT;
    ghost var word := nWord;
    if nSize > 3 { OverflowExact(nSize, word); }
    r, nWord := Place(nSize, nWord);
    negative := nWord != 0 && nCompact / MANTISSA_LIMIT % 2 == 1;
    overflow := nWord != 0 && (nSize > 34 || (nWord > 0xff && nSize > 33) || (nWord > 0xffff && nSize > 32));
  }

  // The mantissa moved into place, and the part of it that is used.
  method Place(nSize: nat, nWord: nat) returns (r: array<nat>, used: nat)
    requires nWord < MANTISSA_LIMIT
    ensures fresh(r) && Limbs(r) && Num(r) == Expanded(nSize, nWord) % MODULUS
    ensures used == if nSize <= 3 then Expanded(nSize, nWord) else nWord
    ensures nSize <= 3 ==> Expanded(nSize, nWord) < MODULUS
  {
    used := nWord;
    if nSize <= 3 {
      SmallWord(nWord, nSize);
      used := Quot(nWord, P2(8 * (3 - nSize)));
      r := FromNumber(used);
      ExactValue(used);
    } else {
      r := FromNumber(nWord);
      ShiftLeft(r, 8 * (nSize - 3));
    }
  }

  lemma SmallWord(word: nat, size: nat)
    requires word < MANTISSA_LIMIT && size <= 3
    ensures Expanded(size, word) <= word
  {
    var p := P2(8 * (3 - size));
    DivMod(word, p);
    MulMonotone(1, Quot(word, p), p, Quot(word, p));
  }

  lemma CompactParts(size: nat, m: nat, negative: bool)
    requires m < MANTISSA_LIMIT
    ensures var c := size * 0x100_0000 + m + (if negative then MANTISSA_LIMIT else 0);
            c / 0x100_0000 == size && c % MANTISSA_LIMIT == m && (c / MANTISSA_LIMIT % 2 == 1 <==> negative)
  {
    var sign := if negative then 1 else 0;
    var c := MANTISSA_LIMIT * (2 * size + sign) + m;
    assert c / MANTISSA_LIMIT == 2 * size + sign && c % MANTISSA_LIMIT == m;
    assert c / 0x100_0000 == size;
  }

  /**
   Compressing, expanding and compressing again changes nothing, sets no flag, and loses less than one part in 2^15.
   */
  method CompactRoundTrip(pn: array<nat>) returns (c: nat, y: array<nat>, c': nat, negative: bool, overflow: bool)
    requires Limbs(pn)
    ensures !negative && !overflow
    ensures Limbs(y) && c' == c && Num(y) <= Num(pn) && (Num(pn) - Num(y)) * 0x8000 <= Num(pn)
    ensures IsCompact(Num(pn), c / 0x100_0000, c % MANTISSA_LIMIT) &&
            Num(y) == Expanded(c / 0x100_0000, c % MANTISSA_LIMIT)
  {
    c := GetCompact(pn, false);
    ghost var size, m := c / 0x100_0000, c % MANTISSA_LIMIT;
    LimbsBound(pn[..]);
    NoFlags(Num(pn), size, m);
    Recovered(Num(pn), size, m);
    y, negative, overflow := SetCompact(c);
    ExactValue(Expanded(size, m));
    c' := GetCompact(y, false);
    CompactUnique(Num(y), size, m, c' / 0x100_0000, c' % MANTISSA_LIMIT);
    SameParts(c, c');
  }

  lemma SameParts(c: nat, c': nat)
    requires c / 0x100_0000 == c' / 0x100_0000 && c % MANTISSA_LIMIT == c' % MANTISSA_LIMIT
    requires c / MANTISSA_LIMIT % 2 == c' / MANTISSA_LIMIT % 2
    ensures c == c'
  {
  }

  lemma ExactValue(v: nat)
    requires v < MODULUS
    ensures v % MODULUS == v
  {
  }
}
