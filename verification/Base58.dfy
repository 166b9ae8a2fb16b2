/**
 Base58 (src/base58.cpp): byte strings as numbers in base 58, with leading zero bytes kept as leading
 ones. Digits are computed in a buffer of fixed size, by multiplying in place with a carry.
 */
module Base58 {
  import opened Options
  import opened Radix

  type Byte = b: int | 0 <= b < 256

  // ---- Alphabet ----

  /** The character of a digit: figures, capitals and small letters in order, without 0, I, O and l. */
  function Char58(n: nat): char
    requires n < 58
  {
    (if n < 9 then '1' as int + n
     else if n < 17 then 'A' as int + (n - 9)
     else if n < 22 then 'J' as int + (n - 17)
     else if n < 33 then 'P' as int + (n - 22)
     else if n < 44 then 'a' as int + (n - 33)
     else 'm' as int + (n - 44)) as char
  }

  const FIGURES := "123456789"
  const CAPITALS := "ABCDEFGHJKLMNPQRSTUVWXYZ"
  const SMALL := "abcdefghijkmnopqrstuvwxyz"

  lemma AlphabetIs(n: nat)
    requires n < 58
    ensures Char58(n) == (FIGURES + CAPITALS + SMALL)[n]
  {
    if n < 9 {
      assert Char58(n) as int == FIGURES[n] as int;
    } else if n < 33 {
      CapitalsAre(n - 9);
    } else {
      SmallAre(n - 33);
    }
  }

  lemma CapitalsAre(n: nat)
    requires n < 24
    ensures Char58(n + 9) == CAPITALS[n]
  {
    assert Char58(n + 9) as int == CAPITALS[n] as int;
  }

  lemma SmallAre(n: nat)
    requires n < 25
    ensures Char58(n + 33) == SMALL[n]
  {
    assert Char58(n + 33) as int == SMALL[n] as int;
  }

  /** The digit of a character, or -1. */
  function Digit58(c: char): (n: int)
    ensures -1 <= n < 58
  {
    if '1' <= c <= '9' then c as int - '1' as int
    else if 'A' <= c <= 'H' then c as int - 'A' as int + 9
    else if 'J' <= c <= 'N' then c as int - 'J' as int + 17
    else if 'P' <= c <= 'Z' then c as int - 'P' as int + 22
    else if 'a' <= c <= 'k' then c as int - 'a' as int + 33
    else if 'm' <= c <= 'z' then c as int - 'm' as int + 44
    else -1
  }

  lemma DigitOfChar(n: nat)
    requires n < 58
    ensures Digit58(Char58(n)) == n && (Char58(n) == '1' <==> n == 0)
  {
  }

  lemma CharOfDigit(c: char)
    requires Digit58(c) != -1
    ensures Char58(Digit58(c)) == c && (c == '1' <==> Digit58(c) == 0) && !IsSpace(c)
  {
  }

  predicate IsSpace(c: char) { c == ' ' || 9 <= c as int <= 13 }

  predicate InAlphabet(s: string) { forall i :: 0 <= i < |s| ==> Digit58(s[i]) != -1 }

  // ---- Numbers ----

  /** Lowest digit first. */
  function Reversed(s: seq<nat>): (r: seq<nat>)
    ensures |r| == |s| && forall i :: 0 <= i < |s| ==> r[i] == s[|s| - 1 - i]
  {
    seq(|s|, i requires 0 <= i < |s| => s[|s| - 1 - i])
  }

  function Digits58(s: string): (r: seq<nat>)
    requires InAlphabet(s)
    ensures |r| == |s| && forall i :: 0 <= i < |s| ==> r[i] == Digit58(s[i])
  {
    seq(|s|, i requires 0 <= i < |s| => Digit58(s[i]))
  }

  /** How many leading elements are equal to a value. */
  function Leading(s: seq<nat>): (z: nat)
    ensures z <= |s| && (forall i :: 0 <= i < z ==> s[i] == 0) && (z < |s| ==> s[z] != 0)
  {
    if s == [] || s[0] != 0 then 0 else 1 + Leading(s[1..])
  }

  /** Two digit lists, in bases a and b, with as many leading zeros and the same number behind. */
  ghost predicate SameNumber(s: seq<nat>, a: nat, t: seq<nat>, b: nat) {
    && Digits(s, a) && Digits(t, b) && Leading(s) == Leading(t)
    && Value(Reversed(s[Leading(s)..]), a) == Value(Reversed(t[Leading(t)..]), b)
  }

  lemma TailCanonical(s: seq<nat>, b: nat)
    requires Digits(s, b)
    ensures Canonical(Reversed(s[Leading(s)..]), b)
  {
  }

  /** A digit list is determined by its leading zeros and its number. */
  lemma SameNumberUnique(s: seq<nat>, a: nat, t: seq<nat>, t': seq<nat>, b: nat)
    requires b > 0 && SameNumber(s, a, t, b) && SameNumber(s, a, t', b)
    ensures t == t'
  {
    var z := Leading(s);
    TailCanonical(t, b);
    TailCanonical(t', b);
    CanonicalUnique(Reversed(t[z..]), Reversed(t'[z..]), b);
    ReversedTwice(t[z..]);
    ReversedTwice(t'[z..]);
    SameParts(t, t', z);
  }

  lemma SameParts(t: seq<nat>, t': seq<nat>, z: nat)
    requires z <= |t| && z <= |t'| && t[z..] == t'[z..] && forall i :: 0 <= i < z ==> t[i] == t'[i]
    ensures t == t'
  {
    assert t == t[..z] + t[z..] && t' == t'[..z] + t'[z..];
  }

  lemma SameNumberSymmetric(s: seq<nat>, a: nat, t: seq<nat>, b: nat)
    requires SameNumber(s, a, t, b)
    ensures SameNumber(t, b, s, a)
  {
  }

  // ---- The buffer ----

  /** A buffer holds a number, in its lowest digits. */
  ghost predicate Holds(buf: seq<nat>, length: nat, b: nat, v: nat) {
    length <= |buf| && AllZero(buf[length..]) && Digits(buf, b) && Value(buf, b) == v
  }

  /**
   Multiply the number in a buffer by `m` and add `ch`, in base `b`, from the lowest digit up until
   nothing is carried and all digits in use are done. The buffer is indexed from its end.
   */
  method MulAdd(buf: array<nat>, length: nat, m: nat, b: nat, ch: nat, ghost v: nat)
    returns (newLength: nat, carry: nat)
    requires b > 1 && Holds(buf[..], length, b, v) && m * v + ch < Pow(b, buf.Length)
    modifies buf
    ensures carry == 0 && Holds(buf[..], newLength, b, m * v + ch)
  {
    ghost var was := buf[..];
    ghost var total := m * v + ch;
    carry := ch;
    var i := 0;
    ProgressStart(was, ch, m, b, v);
    while (carry != 0 || i < length) && i < buf.Length
      invariant i <= buf.Length && Progress(buf[..], was, i, carry, m, b, total)
      decreases buf.Length - i
    {
      ghost var before := buf[..];
      ProgressStep(before, was, i, carry, m, b, total);
      carry := carry + Mul(m, buf[i]);
      buf[i] := Rem(carry, b);
      assert buf[..] == before[i := buf[i]];
      carry := Quot(carry, b);
      i := i + 1;
    }
    MulAddEnd(buf[..i], carry, was, length, m, b, total);
    assert buf[..] == buf[..i] + was[i..];
    newLength := i;
  }

  lemma MulAddEnd(done: seq<nat>, carry: nat, was: seq<nat>, length: nat, m: nat, b: nat, total: nat)
    requires b > 0 && |done| <= |was| && length <= |was| && AllZero(was[length..]) && total < Pow(b, |was|)
    requires Partial(done, carry, was[|done|..], m, b, total) && (|done| == |was| || (carry == 0 && |done| >= length))
    ensures carry == 0 && AllZero(was[|done|..]) && Value(done + was[|done|..], b) == total
  {
    var rest := was[|done|..];
    if |done| == |was| {
      assert rest == [];
      PartialFits(done, carry, m, b, total);
    } else {
      assert forall k :: 0 <= k < |rest| ==> rest[k] == was[length..][k + |done| - length];
    }
    PartialDone(done, rest, m, b, total);
    ZerosAbove(done, rest, b);
  }

  lemma {:induction false} ZerosAbove(s: seq<nat>, zs: seq<nat>, b: nat)
    requires AllZero(zs)
    ensures Value(s + zs, b) == Value(s, b)
    decreases |zs|
  {
    if zs == [] {
      assert s + zs == s;
    } else {
      var n := |zs| - 1;
      assert s + zs == (s + zs[..n]) + [0];
      ValueAppend(s + zs[..n], 0, b);
      ZerosAbove(s, zs[..n], b);
    }
  }

  // ---- Encoding ----

  // The digits in use without leading zeros.
  method Trim(buf: array<nat>, length: nat, b: nat, ghost v: nat) returns (digits: seq<nat>)
    requires Holds(buf[..], length, b, v)
    ensures Canonical(digits, b) && Value(digits, b) == v
  {
    var k: nat := length;
    while k > 0 && buf[k - 1] == 0
      invariant 0 <= k <= length && AllZero(buf[k..])
    {
      k := k - 1;
    }
    assert buf[..] == buf[..k] + buf[k..];
    ZerosAbove(buf[..k], buf[k..], b);
    digits := buf[..k];
  }

  lemma {:induction false} PrefixValue(s: seq<nat>, k: nat, b: nat)
    requires k < |s|
    ensures Value(Reversed(s[..k + 1]), b) == s[k] + b * Value(Reversed(s[..k]), b)
  {
    assert Reversed(s[..k + 1])[1..] == Reversed(s[..k]);
  }

  // Every prefix of a number with n digits in base a fits into the buffer.
  lemma PrefixFits(s: seq<nat>, k: nat, a: nat, b: nat, size: nat)
    requires k <= |s| && a > 0 && b > 0 && Digits(s, a) && Pow(a, |s|) <= Pow(b, size)
    ensures Value(Reversed(s[..k]), a) < Pow(b, size)
  {
    ValueBound(Reversed(s[..k]), a);
    PowExponent(a, k, |s|);
  }

  // An empty buffer.
  method NewBuffer(size: nat, b: nat) returns (buf: array<nat>)
    requires b > 0
    ensures fresh(buf) && buf.Length == size && Holds(buf[..], 0, b, 0)
  {
    buf := new nat[size](_ => 0);
    ZeroValue(buf[..], b);
  }

  // Take in the next digit of a number in base a.
  method Feed(buf: array<nat>, length: nat, s: seq<nat>, k: nat, a: nat, b: nat) returns (newLength: nat)
    requires a > 0 && b > 1 && k < |s| && Digits(s, a) && Pow(a, |s|) <= Pow(b, buf.Length)
    requires Holds(buf[..], length, b, Value(Reversed(s[..k]), a))
    modifies buf
    ensures Holds(buf[..], newLength, b, Value(Reversed(s[..k + 1]), a))
  {
    PrefixValue(s, k, a);
    PrefixFits(s, k + 1, a, b, buf.Length);
    var carry;
    newLength, carry := MulAdd(buf, length, a, b, s[k], Value(Reversed(s[..k]), a));
    assert carry == 0;
  }

  function AsNats(bytes: seq<Byte>): (r: seq<nat>)
    ensures |r| == |bytes| && Digits(r, 256) && forall i :: 0 <= i < |r| ==> r[i] == bytes[i]
  {
    seq(|bytes|, i requires 0 <= i < |bytes| => bytes[i])
  }

  /** A string stands for a byte string: as many leading ones as zero bytes, and the same number behind. */
  ghost predicate Encodes(s: string, bytes: seq<Byte>) {
    InAlphabet(s) && SameNumber(AsNats(bytes), 256, Digits58(s), 58)
  }

  lemma EncodeSizeArith(n: nat)
    ensures 11 * n <= 8 * (n * 138 / 100 + 1)
  {
  }

  lemma DecodeSizeArith(n: nat)
    ensures 52 * n <= 71 * (n * 733 / 1000 + 1)
  {
  }

  // The ratio of eleven digits to eight bytes.
  lemma EncodeRatio(n: nat, s: nat) returns (p: nat, q: nat)
    requires 11 * n <= 8 * s
    ensures p > 0 && Pow(256, p) <= Pow(58, q) && q * n <= p * s
  {
    p, q := 8, 11;
    BytesFit();
  }

  /** 138/100 digits per byte, and one more, are enough. */
  lemma EncodeSizeFits(n: nat)
    ensures Pow(256, n) <= Pow(58, n * 138 / 100 + 1)
  {
    EncodeSizeArith(n);
    var p, q := EncodeRatio(n, n * 138 / 100 + 1);
    Fits(256, 58, p, q, n, n * 138 / 100 + 1);
  }

  // The ratio of fifty-two bytes to seventy-one digits.
  lemma DecodeRatio(n: nat, s: nat) returns (p: nat, q: nat)
    requires 52 * n <= 71 * s
    ensures p > 0 && Pow(58, p) <= Pow(256, q) && q * n <= p * s
  {
    p, q := 71, 52;
    DigitsFit();
  }

  /** 733/1000 bytes per digit, and one more, are enough. */
  lemma DecodeSizeFits(n: nat)
    ensures Pow(58, n) <= Pow(256, n * 733 / 1000 + 1)
  {
    DecodeSizeArith(n);
    var p, q := DecodeRatio(n, n * 733 / 1000 + 1);
    Fits(58, 256, p, q, n, n * 733 / 1000 + 1);
  }

  function Repeat<T>(x: T, n: nat): (r: seq<T>)
    ensures |r| == n && forall i :: 0 <= i < n ==> r[i] == x
  {
    seq(n, _ => x)
  }

  method Encode(bytes: seq<Byte>) returns (s: string)
    ensures Encodes(s, bytes)
  {
    var zeroes := 0;
    while zeroes < |bytes| && bytes[zeroes] == 0
      invariant 0 <= zeroes <= |bytes| && forall i :: 0 <= i < zeroes ==> bytes[i] == 0
    {
      zeroes := zeroes + 1;
    }
    var rest := AsNats(bytes[zeroes..]);
    var size := |rest| * 138 / 100 + 1;
    EncodeSizeFits(|rest|);
    var buf := NewBuffer(size, 58);
    var length: nat := 0;
    for k := 0 to |rest|
      invariant Holds(buf[..], length, 58, Value(Reversed(rest[..k]), 256))
    {
      length := Feed(buf, length, rest, k, 256, 58);
    }
    assert rest[..|rest|] == rest;
    var digits := Trim(buf, length, 58, Value(Reversed(rest), 256));
    s := ToString(zeroes, digits);
    EncodedNumber(bytes, zeroes, digits, s);
  }

  // Ones, then the characters of the digits, highest first.
  method ToString(zeroes: nat, digits: seq<nat>) returns (s: string)
    requires Digits(digits, 58)
    ensures InAlphabet(s) && Digits58(s) == Repeat(0, zeroes) + Reversed(digits)
  {
    s := Repeat('1', zeroes);
    DigitOfChar(0);
    for k := 0 to |digits|
      invariant |s| == zeroes + k && InAlphabet(s)
      invariant forall i :: 0 <= i < zeroes ==> Digit58(s[i]) == 0
      invariant forall i :: 0 <= i < k ==> Digit58(s[zeroes + i]) == Reversed(digits)[i]
    {
      DigitOfChar(digits[|digits| - 1 - k]);
      s := s + [Char58(digits[|digits| - 1 - k])];
    }
  }

  lemma ReversedTwice(s: seq<nat>)
    ensures Reversed(Reversed(s)) == s
  {
  }

  lemma {:induction false} LeadingUnique(s: seq<nat>, z: nat)
    requires z <= |s| && (forall i :: 0 <= i < z ==> s[i] == 0) && (z < |s| ==> s[z] != 0)
    ensures Leading(s) == z
    decreases z
  {
    if z > 0 { LeadingUnique(s[1..], z - 1); }
  }

  lemma LeadingIs(s: seq<nat>, z: nat, t: seq<nat>)
    requires s == Repeat(0, z) + t && (t == [] || t[0] != 0)
    ensures Leading(s) == z && s[z..] == t
  {
    LeadingUnique(s, z);
  }

  lemma BytesNumber(bytes: seq<Byte>, z: nat)
    requires z <= |bytes| && (forall i :: 0 <= i < z ==> bytes[i] == 0) && (z < |bytes| ==> bytes[z] != 0)
    ensures Leading(AsNats(bytes)) == z && AsNats(bytes)[z..] == AsNats(bytes[z..])
  {
    LeadingUnique(AsNats(bytes), z);
  }

  lemma EncodedNumber(bytes: seq<Byte>, z: nat, digits: seq<nat>, s: string)
    requires z <= |bytes| && (forall i :: 0 <= i < z ==> bytes[i] == 0) && (z < |bytes| ==> bytes[z] != 0)
    requires Canonical(digits, 58) && Value(digits, 58) == Value(Reversed(AsNats(bytes[z..])), 256)
    requires InAlphabet(s) && Digits58(s) == Repeat(0, z) + Reversed(digits)
    ensures Encodes(s, bytes)
  {
    var ds := Digits58(s);
    LeadingIs(ds, z, Reversed(digits));
    BytesNumber(bytes, z);
    ReversedTwice(digits);
    assert Digits(ds, 58);
  }

  // ---- Decoding ----

  /** A string up to its first zero character. */
  function CString(s: string): (r: string)
    ensures r <= s
  {
    if s == "" || s[0] == '\0' then "" else [s[0]] + CString(s[1..])
  }

  function TrimLeft(s: string): string { if s != "" && IsSpace(s[0]) then TrimLeft(s[1..]) else s }

  function TrimRight(s: string): (r: string)
    ensures r <= s && (r != "" ==> !IsSpace(r[|r| - 1])) && forall p :: 0 <= p < |s| && !IsSpace(s[p]) ==> p < |r|
  {
    if s != "" && IsSpace(s[|s| - 1]) then TrimRight(s[..|s| - 1]) else s
  }

  /** A string without surrounding whitespace. */
  function Trimmed(s: string): string { TrimRight(TrimLeft(CString(s))) }

  lemma {:induction false} TrimmedToken(t: string, n: nat)
    requires n <= |t| && InAlphabet(t[..n]) && (forall i :: n <= i < |t| ==> IsSpace(t[i]))
    ensures TrimRight(t) == t[..n]
  {
    if n < |t| {
      var u := t[..|t| - 1];
      assert u[..n] == t[..n];
      TrimmedToken(u, n);
    } else if n > 0 {
      CharOfDigit(t[..n][n - 1]);
    }
  }

  // Some character that stays after trimming is not in the alphabet.
  lemma TrimmedBad(t: string, p: nat)
    requires p < |TrimRight(t)| && Digit58(t[p]) == -1
    ensures !InAlphabet(TrimRight(t))
  {
    assert TrimRight(t)[p] == t[p];
  }

  /** The first `n` characters are in the alphabet, and a buffer holds their number. */
  ghost predicate ReadTo(t: string, n: nat, buf: seq<nat>, length: nat) {
    n <= |t| && InAlphabet(t[..n]) && Holds(buf, length, 256, Value(Reversed(Digits58(t[..n])), 58))
  }

  lemma NextDigit(t: string, n: nat)
    requires n < |t| && InAlphabet(t[..n]) && Digit58(t[n]) != -1
    ensures InAlphabet(t[..n + 1]) && Digits58(t[..n + 1]) == Digits58(t[..n]) + [Digit58(t[n])]
  {
    assert t[..n + 1] == t[..n] + [t[n]];
  }

  // Take in the characters up to whitespace; `ok` unless one is not in the alphabet.
  method ReadDigits(t: string, size: nat) returns (ok: bool, n: nat, digits: seq<nat>)
    requires Pow(58, |t|) <= Pow(256, size)
    ensures n <= |t| && InAlphabet(t[..n])
    ensures if ok then n < |t| ==> IsSpace(t[n]) else n < |t| && !IsSpace(t[n]) && Digit58(t[n]) == -1
    ensures ok ==> Canonical(digits, 256) && Value(digits, 256) == Value(Reversed(Digits58(t[..n])), 58)
  {
    var buf := NewBuffer(size, 256);
    var length: nat := 0;
    n := 0;
    assert ReadTo(t, 0, buf[..], 0) by { assert Reversed(Digits58(t[..0])) == []; }
    while n < |t| && !IsSpace(t[n])
      invariant buf.Length == size && ReadTo(t, n, buf[..], length)
    {
      var d := Digit58(t[n]);
      if d == -1 { return false, n, []; }
      NextDigit(t, n);
      PowExponent(58, n + 1, |t|);
      length := FeedDigit(buf, length, d, Digits58(t[..n]));
      n := n + 1;
    }
    digits := Trim(buf, length, 256, Value(Reversed(Digits58(t[..n])), 58));
    ok := true;
  }

  method FeedDigit(buf: array<nat>, length: nat, d: nat, ghost ds: seq<nat>) returns (newLength: nat)
    requires Digits(ds, 58) && d < 58 && Pow(58, |ds| + 1) <= Pow(256, buf.Length)
    requires Holds(buf[..], length, 256, Value(Reversed(ds), 58))
    modifies buf
    ensures Holds(buf[..], newLength, 256, Value(Reversed(ds + [d]), 58))
  {
    ghost var s, k := ds + [d], |ds|;
    assert s[..k] == ds && s[..k + 1] == s;
    PrefixValue(s, k, 58);
    PrefixFits(s, k + 1, 58, 256, buf.Length);
    var carry;
    newLength, carry := MulAdd(buf, length, 58, 256, d, Value(Reversed(ds), 58));
    assert carry == 0;
  }

  // Zero bytes, then the digits, highest first.
  method ToBytes(zeroes: nat, digits: seq<nat>) returns (bytes: seq<Byte>)
    requires Digits(digits, 256)
    ensures AsNats(bytes) == Repeat(0, zeroes) + Reversed(digits)
  {
    bytes := Repeat(0, zeroes);
    for k := 0 to |digits|
      invariant |bytes| == zeroes + k && (forall i :: 0 <= i < zeroes ==> bytes[i] == 0)
      invariant forall i :: 0 <= i < k ==> bytes[zeroes + i] == Reversed(digits)[i]
    {
      bytes := bytes + [digits[|digits| - 1 - k]];
    }
  }

  lemma TokenDigits(t: string, z: nat, n: nat)
    requires z + n <= |t| && (forall i :: 0 <= i < z ==> t[i] == '1') && InAlphabet(t[z..][..n])
    ensures InAlphabet(t[..z + n]) && Digits58(t[..z + n]) == Repeat(0, z) + Digits58(t[z..][..n])
  {
    var tok, ds := t[..z + n], Digits58(t[z..][..n]);
    forall i | 0 <= i < z + n ensures Digit58(tok[i]) != -1 && Digit58(tok[i]) == (Repeat(0, z) + ds)[i] {
      if i >= z { assert tok[i] == t[z..][..n][i - z]; }
    }
  }

  lemma FirstDigit(t: string, z: nat, n: nat)
    requires z + n <= |t| && (z < |t| ==> t[z] != '1') && InAlphabet(t[z..][..n])
    ensures n > 0 ==> Digits58(t[z..][..n])[0] != 0
  {
    if n > 0 {
      assert t[z..][..n][0] == t[z];
      CharOfDigit(t[z]);
    }
  }

  lemma DecodedNumber(s: string, z: nat, ds: seq<nat>, digits: seq<nat>, bytes: seq<Byte>)
    requires InAlphabet(s) && Digits58(s) == Repeat(0, z) + ds && (ds != [] ==> ds[0] != 0)
    requires Canonical(digits, 256) && Value(digits, 256) == Value(Reversed(ds), 58)
    requires AsNats(bytes) == Repeat(0, z) + Reversed(digits)
    ensures Encodes(s, bytes)
  {
    LeadingIs(Digits58(s), z, ds);
    LeadingIs(AsNats(bytes), z, Reversed(digits));
    ReversedTwice(digits);
    assert Digits(Digits58(s), 58);
  }

  method CountOnes(t: string) returns (zeroes: nat)
    ensures zeroes <= |t| && (forall i :: 0 <= i < zeroes ==> t[i] == '1') && (zeroes < |t| ==> t[zeroes] != '1')
  {
    zeroes := 0;
    while zeroes < |t| && t[zeroes] == '1'
      invariant zeroes <= |t| && forall i :: 0 <= i < zeroes ==> t[i] == '1'
    {
      zeroes := zeroes + 1;
    }
  }

  method SkipSpaces(u: string, n: nat) returns (end: nat)
    requires n <= |u|
    ensures n <= end <= |u| && (forall i :: n <= i < end ==> IsSpace(u[i])) && (end < |u| ==> !IsSpace(u[end]))
  {
    end := n;
    while end < |u| && IsSpace(u[end])
      invariant n <= end <= |u| && forall i :: n <= i < end ==> IsSpace(u[i])
    {
      end := end + 1;
    }
  }

  // A character that is not in the alphabet stays if it, or some later character, is not whitespace.
  lemma BadToken(t: string, z: nat, p: nat, q: nat)
    requires z + p <= z + q < |t| && Digit58(t[z..][p]) == -1 && !IsSpace(t[z..][q])
    ensures !InAlphabet(TrimRight(t))
  {
    assert !IsSpace(t[z + q]) by { assert t[z..][q] == t[z + q]; }
    assert Digit58(t[z + p]) == -1 by { assert t[z..][p] == t[z + p]; }
    TrimmedBad(t, z + p);
  }

  lemma GoodToken(t: string, z: nat, n: nat)
    requires z + n <= |t| && InAlphabet(t[..z + n]) && forall i :: n <= i < |t[z..]| ==> IsSpace(t[z..][i])
    ensures TrimRight(t) == t[..z + n]
  {
    assert forall i :: z + n <= i < |t| ==> t[i] == t[z..][i - z];
    TrimmedToken(t, z + n);
  }

  // Decode a string without leading whitespace.
  method DecodeToken(t: string) returns (r: Option<seq<Byte>>)
    ensures r.Some? <==> InAlphabet(TrimRight(t))
    ensures r.Some? ==> Encodes(TrimRight(t), r.value)
  {
    var zeroes := CountOnes(t);
    var u := t[zeroes..];
    var size := |u| * 733 / 1000 + 1;
    DecodeSizeFits(|u|);
    var ok, n, digits := ReadDigits(u, size);
    if !ok {
      BadToken(t, zeroes, n, n);
      return None;
    }
    var end := SkipSpaces(u, n);
    if end < |u| {
      BadToken(t, zeroes, n, end);
      return None;
    }
    var bytes := ToBytes(zeroes, digits);
    TokenDigits(t, zeroes, n);
    FirstDigit(t, zeroes, n);
    GoodToken(t, zeroes, n);
    DecodedNumber(t[..zeroes + n], zeroes, Digits58(u[..n]), digits, bytes);
    return Some(bytes);
  }

  /**
   Decode a string, with whitespace around it allowed; it fails just when another character is not in the alphabet.
   */
  method Decode(str: string) returns (r: Option<seq<Byte>>)
    ensures r.Some? <==> InAlphabet(Trimmed(str))
    ensures r.Some? ==> Encodes(Trimmed(str), r.value)
  {
    var s := CString(str);
    var i := 0;
    assert s[0..] == s;
    while i < |s| && IsSpace(s[i])
      invariant 0 <= i <= |s| && TrimLeft(s[i..]) == TrimLeft(s)
    {
      assert s[i..][1..] == s[i + 1..];
      i := i + 1;
    }
    r := DecodeToken(s[i..]);
  }

  // ---- Round trips ----

  /** A byte string has one encoding, and an encoding stands for one byte string. */
  lemma EncodingUnique(s: string, s': string, bytes: seq<Byte>, bytes': seq<Byte>)
    requires Encodes(s, bytes) && Encodes(s', bytes')
    ensures s == s' <==> bytes == bytes'
  {
    if bytes == bytes' {
      SameNumberUnique(AsNats(bytes), 256, Digits58(s), Digits58(s'), 58);
      SameDigitsSameString(s, s');
    }
    if s == s' {
      SameNumberSymmetric(AsNats(bytes), 256, Digits58(s), 58);
      SameNumberSymmetric(AsNats(bytes'), 256, Digits58(s), 58);
      SameNumberUnique(Digits58(s), 58, AsNats(bytes), AsNats(bytes'), 256);
      assert forall i :: 0 <= i < |bytes| ==> bytes[i] == AsNats(bytes)[i] == AsNats(bytes')[i] == bytes'[i];
    }
  }

  lemma SameDigitsSameString(s: string, s': string)
    requires InAlphabet(s) && InAlphabet(s') && Digits58(s) == Digits58(s')
    ensures s == s'
  {
    forall i | 0 <= i < |s| ensures s[i] == s'[i] {
      assert Digits58(s)[i] == Digits58(s')[i];
      CharOfDigit(s[i]);
      CharOfDigit(s'[i]);
    }
  }

  lemma AlphabetOnly(s: string)
    requires InAlphabet(s)
    ensures Trimmed(s) == s
  {
    CStringWhole(s);
    if s != "" {
      CharOfDigit(s[0]);
      CharOfDigit(s[|s| - 1]);
    }
  }

  lemma {:induction false} CStringWhole(s: string)
    requires InAlphabet(s)
    ensures CString(s) == s
  {
    if s != "" {
      assert s[0] != '\0';
      CStringWhole(s[1..]);
    }
  }

  /** Decoding undoes encoding for every byte string. */
  method EncodeDecode(bytes: seq<Byte>) returns (r: Option<seq<Byte>>)
    ensures r == Some(bytes)
  {
    var s := Encode(bytes);
    AlphabetOnly(s);
    r := Decode(s);
    EncodingUnique(s, s, bytes, r.value);
  }

  /** Encoding undoes decoding for every string over the alphabet. */
  method DecodeEncode(s: string) returns (r: string)
    requires InAlphabet(s)
    ensures r == s
  {
    AlphabetOnly(s);
    var bytes := Decode(s);
    r := Encode(bytes.value);
    EncodingUnique(s, r, bytes.value, bytes.value);
  }
}
