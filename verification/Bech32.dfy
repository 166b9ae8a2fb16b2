/**
 Bech32 strings (section "Bech32" of BIP 173; src/bech32.cpp): a human-readable part, a separator, and
 data characters that end in a checksum.
 */
module Bech32 {
  import opened Options
  import opened Bech32Spec
  import opened Bech32Distance

  // ---- Characters ----

  /** The character of a value, from "qpzry9x8gf2tvdw0s3jn54khce6mua7l". */
  function Charset(n: nat): char
    requires n < 32
  {
    match n
    case 0 => 'q' case 1 => 'p' case 2 => 'z' case 3 => 'r' case 4 => 'y' case 5 => '9'
    case 6 => 'x' case 7 => '8' case 8 => 'g' case 9 => 'f' case 10 => '2' case 11 => 't'
    case 12 => 'v' case 13 => 'd' case 14 => 'w' case 15 => '0' case 16 => 's' case 17 => '3'
    case 18 => 'j' case 19 => 'n' case 20 => '5' case 21 => '4' case 22 => 'k' case 23 => 'h'
    case 24 => 'c' case 25 => 'e' case 26 => '6' case 27 => 'm' case 28 => 'u' case 29 => 'a'
    case 30 => '7' case 31 => 'l'
  }

  lemma CharsetIs(n: nat)
    requires n < 32
    ensures Charset(n) == "qpzry9x8gf2tvdw0s3jn54khce6mua7l"[n]
  {
  }

  // The value of a character of the set.
  function CharsetTable(c: char): int {
    match c
    case 'q' => 0 case 'p' => 1 case 'z' => 2 case 'r' => 3 case 'y' => 4 case '9' => 5
    case 'x' => 6 case '8' => 7 case 'g' => 8 case 'f' => 9 case '2' => 10 case 't' => 11
    case 'v' => 12 case 'd' => 13 case 'w' => 14 case '0' => 15 case 's' => 16 case '3' => 17
    case 'j' => 18 case 'n' => 19 case '5' => 20 case '4' => 21 case 'k' => 22 case 'h' => 23
    case 'c' => 24 case 'e' => 25 case '6' => 26 case 'm' => 27 case 'u' => 28 case 'a' => 29
    case '7' => 30 case 'l' => 31
    case _ => -1
  }

  /** The value whose character this is in lower case, from `n` on, or -1. */
  function RevFrom(c: char, n: nat): (r: int)
    ensures -1 <= r < 32 && (r != -1 ==> Charset(r) == c) &&
            (r == -1 ==> forall k: nat :: n <= k < 32 ==> Charset(k) != c)
    decreases 32 - n
  {
    if n >= 32 then -1 else if Charset(n) == c then n else RevFrom(c, n + 1)
  }

  /** The value of a character in either case, or -1. */
  function CharsetRev(c: char): (n: int)
    ensures -1 <= n < 32
  {
    RevFrom(LowerCase(c), 0)
  }

  lemma TableRoundTrip(n: nat)
    requires n < 32
    ensures CharsetTable(Charset(n)) == n
  {
  }

  lemma CharsetRoundTrip(n: nat)
    requires n < 32
    ensures CharsetRev(Charset(n)) == n && Charset(n) != '1' && !IsUpper(Charset(n)) && 33 <= Charset(n) as int <= 126
  {
    var r := RevFrom(Charset(n), 0);
    TableRoundTrip(n);
    if r != -1 { TableRoundTrip(r); }
  }

  function NumberOf(v: Val): (n: nat)
    ensures n < 32
  {
    (if v[0] then 1 else 0) + (if v[1] then 2 else 0) + (if v[2] then 4 else 0) + (if v[3] then 8 else 0) +
      (if v[4] then 16 else 0)
  }

  lemma ValRoundTrip(v: Val)
    ensures ValOf(NumberOf(v)) == v
  {
  }

  lemma NumberRoundTrip(n: nat)
    requires n < 32
    ensures NumberOf(ValOf(n)) == n
  {
  }

  predicate IsLower(c: char) { 'a' <= c <= 'z' }

  predicate IsUpper(c: char) { 'A' <= c <= 'Z' }

  function LowerCase(c: char): char { if IsUpper(c) then (c as int - 'A' as int + 'a' as int) as char else c }

  // ---- Checksum computation ----

  /** Compute the remainder, one value at a time. */
  method PolyMod(v: seq<Val>) returns (c: Rem)
    ensures c == Fold(OneRem(), v)
  {
    c := OneRem();
    assert v[..0] == [];
    for i := 0 to |v|
      invariant c == Fold(OneRem(), v[..i])
    {
      var c0 := c;
      c := Shifted(c, v[i]);
      if c0[25] { c := Xor(c, Const(0x3b6a57b2)); }
      if c0[26] { c := Xor(c, Const(0x26508e6d)); }
      if c0[27] { c := Xor(c, Const(0x1ea119fa)); }
      if c0[28] { c := Xor(c, Const(0x3d4233dd)); }
      if c0[29] { c := Xor(c, Const(0x2a1462b3)); }
      StepUnrolled(c0, v[i]);
      FoldLast(v, i);
    }
    assert v[..|v|] == v;
  }

  lemma FoldLast(v: seq<Val>, i: nat)
    requires i < |v|
    ensures Fold(OneRem(), v[..i + 1]) == Step(Fold(OneRem(), v[..i]), v[i])
  {
    assert v[..i + 1] == v[..i] + [v[i]];
    FoldAppend(OneRem(), v[..i], [v[i]]);
    assert [v[i]][1..] == [];
  }

  // Add a constant if a bit is set.
  function AddIf(c: Rem, bit: bool, k: nat): Rem { if bit then Xor(c, Const(k)) else c }

  lemma StepUnrolled(c: Rem, v: Val)
    ensures Step(c, v) ==
            AddIf(AddIf(AddIf(AddIf(AddIf(Shifted(c, v), c[25], 0x3b6a57b2), c[26], 0x26508e6d), c[27], 0x1ea119fa),
                        c[28], 0x3d4233dd), c[29], 0x2a1462b3)
  {
    var t := Shifted(c, v);
    assert Reduced(t, c, 1) == AddIf(t, c[25], 0x3b6a57b2);
    assert Reduced(t, c, 2) == AddIf(Reduced(t, c, 1), c[26], 0x26508e6d);
    assert Reduced(t, c, 3) == AddIf(Reduced(t, c, 2), c[27], 0x1ea119fa);
    assert Reduced(t, c, 4) == AddIf(Reduced(t, c, 3), c[28], 0x3d4233dd);
    assert Reduced(t, c, 5) == AddIf(Reduced(t, c, 4), c[29], 0x2a1462b3);
  }

  /** The human-readable part in the checksum: high bits, a zero, low bits. */
  function HrpValues(hrp: string): (r: seq<Val>)
    ensures |r| == 2 * |hrp| + 1
  {
    seq(|hrp|, i requires 0 <= i < |hrp| => ValOf(hrp[i] as int / 32)) + [ZeroVal()] +
    seq(|hrp|, i requires 0 <= i < |hrp| => ValOf(hrp[i] as int % 32))
  }

  /** Fill both halves in one pass. */
  method ExpandHRP(hrp: string) returns (r: seq<Val>)
    ensures r == HrpValues(hrp)
  {
    var high, low: seq<Val> := [], [];
    for i := 0 to |hrp|
      invariant |high| == |low| == i
      invariant forall k :: 0 <= k < i ==> high[k] == ValOf(hrp[k] as int / 32) && low[k] == ValOf(hrp[k] as int % 32)
    {
      high, low := high + [ValOf(hrp[i] as int / 32)], low + [ValOf(hrp[i] as int % 32)];
    }
    r := high + [ZeroVal()] + low;
  }

  method VerifyChecksum(hrp: string, values: seq<Val>) returns (ok: bool)
    ensures ok <==> Verifies(HrpValues(hrp), values)
  {
    var prefix := ExpandHRP(hrp);
    var c := PolyMod(prefix + values);
    ok := c == OneRem();
  }

  /** Six values that make the checksum verify. */
  method CreateChecksum(hrp: string, values: seq<Val>) returns (r: seq<Val>)
    ensures r == Checksum(HrpValues(hrp), values) && |r| == 6 && Verifies(HrpValues(hrp), values + r)
  {
    var prefix := ExpandHRP(hrp);
    var c := PolyMod(prefix + values + Zeros(6));
    var mod := Xor(c, OneRem());
    r := [];
    for i := 0 to 6
      invariant |r| == i && forall j :: 0 <= j < i ==> r[j] == Group(mod, j)
    {
      r := r + [Group(mod, i)];
    }
    assert r == Unpacked(mod);
    ChecksumVerifies(prefix, values);
  }

  // ---- Strings ----

  function Chars(vs: seq<Val>): (r: string)
    ensures |r| == |vs| && forall i :: 0 <= i < |r| ==> r[i] == Charset(NumberOf(vs[i]))
  {
    seq(|vs|, i requires 0 <= i < |vs| => Charset(NumberOf(vs[i])))
  }

  method Encode(hrp: string, values: seq<Val>) returns (s: string)
    ensures s == hrp + "1" + Chars(values + Checksum(HrpValues(hrp), values))
  {
    var checksum := CreateChecksum(hrp, values);
    var combined := values + checksum;
    var chars: string := "";
    for i := 0 to |combined|
      invariant chars == Chars(combined)[..i]
    {
      chars := chars + [Charset(NumberOf(combined[i]))];
    }
    s := hrp + "1" + chars;
  }

  /** The position of the last separator, or -1. */
  function Separator(s: string): (p: int)
    ensures -1 <= p < |s| && (p >= 0 ==> s[p] == '1') && forall i :: p < i < |s| ==> s[i] != '1'
  {
    if s == "" then -1 else if s[|s| - 1] == '1' then |s| - 1 else Separator(s[..|s| - 1])
  }

  lemma SeparatorIs(s: string, p: nat)
    requires p < |s| && s[p] == '1' && forall i :: p < i < |s| ==> s[i] != '1'
    ensures Separator(s) == p
  {
  }

  predicate Printable(s: string) { forall i :: 0 <= i < |s| ==> 33 <= s[i] as int <= 126 }

  predicate MixedCase(s: string) {
    (exists i :: 0 <= i < |s| && IsLower(s[i])) && (exists i :: 0 <= i < |s| && IsUpper(s[i]))
  }

  predicate InCharset(s: string) { forall i :: 0 <= i < |s| ==> CharsetRev(s[i]) != -1 }

  function Values(s: string): (vs: seq<Val>)
    requires InCharset(s)
    ensures |vs| == |s| && forall i :: 0 <= i < |s| ==> vs[i] == ValOf(CharsetRev(s[i]))
  {
    seq(|s|, i requires 0 <= i < |s| => ValOf(CharsetRev(s[i])))
  }

  function Lowered(s: string): (r: string)
    ensures |r| == |s| && forall i :: 0 <= i < |s| ==> r[i] == LowerCase(s[i])
  {
    seq(|s|, i requires 0 <= i < |s| => LowerCase(s[i]))
  }

  function Hrp(s: string): string
    requires Separator(s) >= 0
  {
    Lowered(s[..Separator(s)])
  }

  function DataPart(s: string): string
    requires Separator(s) >= 0
  {
    s[Separator(s) + 1..]
  }

  /** Characters, case, length and separator are as they should be. */
  predicate WellFormed(s: string) {
    Printable(s) && !MixedCase(s) && |s| <= 90 && 0 < Separator(s) && Separator(s) + 7 <= |s|
  }

  /** The conditions for a valid string. */
  predicate IsBech32(s: string) {
    WellFormed(s) && InCharset(DataPart(s)) && Verifies(HrpValues(Hrp(s)), Values(DataPart(s)))
  }

  // Whether all characters are allowed, and which cases occur.
  method Cases(s: string) returns (ok: bool, lower: bool, upper: bool)
    ensures ok <==> Printable(s)
    ensures ok ==> (lower && upper <==> MixedCase(s))
  {
    lower, upper := false, false;
    for i := 0 to |s|
      invariant forall k :: 0 <= k < i ==> 33 <= s[k] as int <= 126
      invariant lower <==> exists k :: 0 <= k < i && IsLower(s[k])
      invariant upper <==> exists k :: 0 <= k < i && IsUpper(s[k])
    {
      if IsLower(s[i]) {
        lower := true;
      } else if IsUpper(s[i]) {
        upper := true;
      } else if s[i] as int < 33 || s[i] as int > 126 {
        return false, lower, upper;
      }
    }
    ok := true;
  }

  method DecodeChars(s: string) returns (r: Option<seq<Val>>)
    ensures r == if InCharset(s) then Some(Values(s)) else None
  {
    var vs: seq<Val> := [];
    for i := 0 to |s|
      invariant |vs| == i && forall k :: 0 <= k < i ==> CharsetRev(s[k]) != -1 && vs[k] == ValOf(CharsetRev(s[k]))
    {
      var rev := CharsetRev(s[i]);
      if rev == -1 { return None; }
      vs := vs + [ValOf(rev)];
    }
    assert vs == Values(s);
    return Some(vs);
  }

  // Decode a string that has the right form.
  method DecodeParts(s: string, pos: int) returns (r: Option<(string, seq<Val>)>)
    requires WellFormed(s) && pos == Separator(s)
    ensures r.Some? <==> IsBech32(s)
    ensures r.Some? ==> r.value == (Hrp(s), Values(DataPart(s))[..|DataPart(s)| - 6])
  {
    var values := DecodeChars(s[pos + 1..]);
    if values.None? { return None; }
    var hrp := Lowered(s[..pos]);
    var ok := VerifyChecksum(hrp, values.value);
    if !ok { return None; }
    return Some((hrp, values.value[..|values.value| - 6]));
  }

  /** Decode a string: its lower-case human-readable part and its data without the checksum, just when it is valid. */
  method Decode(s: string) returns (r: Option<(string, seq<Val>)>)
    ensures r.Some? <==> IsBech32(s)
    ensures r.Some? ==> r.value == (Hrp(s), Values(DataPart(s))[..|DataPart(s)| - 6])
  {
    var printable, lower, upper := Cases(s);
    if !printable { return None; }
    if lower && upper { return None; }
    var pos := Separator(s);
    if |s| > 90 || pos == -1 || pos == 0 || pos + 7 > |s| { return None; }
    r := DecodeParts(s, pos);
  }

  // ---- What the format promises ----

  /** A usable human-readable part: printable, in lower case, not empty. */
  predicate ValidHrp(hrp: string) { hrp != "" && Printable(hrp) && forall i :: 0 <= i < |hrp| ==> !IsUpper(hrp[i]) }

  lemma CharsOfValues(vs: seq<Val>)
    ensures InCharset(Chars(vs)) && Values(Chars(vs)) == vs && Printable(Chars(vs))
    ensures forall i :: 0 <= i < |vs| ==> Chars(vs)[i] != '1' && !IsUpper(Chars(vs)[i])
  {
    forall i | 0 <= i < |vs|
      ensures CharsetRev(Chars(vs)[i]) == NumberOf(vs[i]) && ValOf(NumberOf(vs[i])) == vs[i]
      ensures Chars(vs)[i] != '1' && !IsUpper(Chars(vs)[i]) && 33 <= Chars(vs)[i] as int <= 126
    {
      CharsetRoundTrip(NumberOf(vs[i]));
      ValRoundTrip(vs[i]);
    }
  }

  lemma EncodedForm(hrp: string, vs: seq<Val>)
    requires ValidHrp(hrp) && 6 <= |vs| && |hrp| + 1 + |vs| <= 90
    ensures var s := hrp + "1" + Chars(vs); WellFormed(s) && Hrp(s) == hrp && DataPart(s) == Chars(vs)
  {
    CharsOfValues(vs);
    JoinedParts(hrp, Chars(vs));
    assert Lowered(hrp) == hrp;
  }

  lemma JoinedParts(hrp: string, d: string)
    requires ValidHrp(hrp) && Printable(d) && forall i :: 0 <= i < |d| ==> d[i] != '1' && !IsUpper(d[i])
    ensures var s := hrp + "1" + d;
            && Separator(s) == |hrp| && s[..|hrp|] == hrp && s[|hrp| + 1..] == d && Printable(s) && !MixedCase(s)
  {
    var s := hrp + "1" + d;
    SeparatorIs(s, |hrp|);
    forall i | 0 <= i < |s| ensures !IsUpper(s[i]) && 33 <= s[i] as int <= 126 {
      if i > |hrp| { assert s[i] == d[i - |hrp| - 1]; }
    }
  }

  /** Encoding and decoding give back what was encoded, within the length limit. */
  method RoundTrip(hrp: string, values: seq<Val>) returns (r: Option<(string, seq<Val>)>)
    ensures r == Some((hrp, values)) <==> ValidHrp(hrp) && |hrp| + |values| + 7 <= 90
  {
    var s := Encode(hrp, values);
    var all := values + Checksum(HrpValues(hrp), values);
    r := Decode(s);
    if ValidHrp(hrp) && |hrp| + |values| + 7 <= 90 {
      EncodedForm(hrp, all);
      CharsOfValues(all);
      ChecksumVerifies(HrpValues(hrp), values);
      assert all[..|all| - 6] == values;
    } else if r.Some? {
      HrpRecovered(hrp, Chars(all));
    }
  }

  /** A human-readable part that comes back unchanged is printable and has no capital letters. */
  lemma HrpRecovered(hrp: string, d: string)
    requires WellFormed(hrp + "1" + d)
    ensures Hrp(hrp + "1" + d) == hrp ==> ValidHrp(hrp)
  {
    var s := hrp + "1" + d;
    forall i | 0 <= i < |hrp| ensures 33 <= hrp[i] as int <= 126 { assert s[i] == hrp[i]; }
    if Hrp(s) == hrp {
      assert |hrp| == Separator(s) > 0;
      assert s[..|hrp|] == hrp;
      assert Lowered(hrp) == hrp;
      forall i | 0 <= i < |hrp| ensures !IsUpper(hrp[i]) { assert Lowered(hrp)[i] == hrp[i]; }
    }
  }

  /** Two valid strings with the same human-readable part never differ in up to six consecutive data values only. */
  lemma BurstRejected(s: string, s': string, a: nat)
    requires IsBech32(s) && IsBech32(s') && Hrp(s') == Hrp(s)
    requires AgreeOutside(Values(DataPart(s)), Values(DataPart(s')), a)
    ensures Values(DataPart(s')) == Values(DataPart(s))
  {
    BurstDetected(HrpValues(Hrp(s)), Values(DataPart(s)), Values(DataPart(s')), a);
  }

  lemma SubstitutedParts(s: string, i: nat, c: char)
    requires 0 <= Separator(s) < i < |s| && c != '1'
    ensures var s' := s[i := c];
            Separator(s') == Separator(s) && Hrp(s') == Hrp(s) && DataPart(s') == DataPart(s)[i - Separator(s) - 1 := c]
  {
    var s', p := s[i := c], Separator(s);
    SeparatorIs(s', p);
    assert s'[..p] == s[..p];
    assert s'[p + 1..] == s[p + 1..][i - p - 1 := c];
  }

  lemma SubstitutedValue(d: string, k: nat, c: char)
    requires InCharset(d) && k < |d| && CharsetRev(c) != -1 && CharsetRev(c) != CharsetRev(d[k])
    ensures InCharset(d[k := c]) && AgreeOutside(Values(d), Values(d[k := c]), k) && Values(d[k := c]) != Values(d)
  {
    DifferentValues(CharsetRev(c), CharsetRev(d[k]));
    assert Values(d[k := c])[k] == ValOf(CharsetRev(c));
  }

  lemma NotSeparator(c: char)
    requires CharsetRev(c) != -1
    ensures c != '1'
  {
    CharsetRoundTrip(CharsetRev(c));
  }

  // Two valid strings that differ in one data character at most.
  lemma SubstitutionSame(s: string, s': string, k: nat, c: char)
    requires IsBech32(s) && IsBech32(s') && Hrp(s') == Hrp(s) && k < |DataPart(s)| &&
             DataPart(s') == DataPart(s)[k := c]
    ensures CharsetRev(c) == CharsetRev(DataPart(s)[k])
  {
    var d := DataPart(s);
    assert CharsetRev(c) != -1 by { assert d[k := c][k] == c; }
    if CharsetRev(c) != CharsetRev(d[k]) {
      SubstitutedValue(d, k, c);
      BurstRejected(s, s', k);
    }
  }

  /** Replacing a data character of a valid string by another one of the character set makes it invalid. */
  lemma SubstitutionRejected(s: string, i: nat, c: char)
    requires IsBech32(s) && Separator(s) < i < |s| && CharsetRev(c) != -1 && CharsetRev(c) != CharsetRev(s[i])
    ensures !IsBech32(s[i := c])
  {
    NotSeparator(c);
    SubstitutedParts(s, i, c);
    if IsBech32(s[i := c]) { SubstitutionSame(s, s[i := c], i - Separator(s) - 1, c); }
  }

  // ---- Three errors anywhere ----

  /** All values the checksum is computed over. */
  function AllValues(s: string): seq<Val>
    requires Separator(s) >= 0 && InCharset(DataPart(s))
  {
    HrpValues(Hrp(s)) + Values(DataPart(s))
  }

  /** Two valid strings whose values agree but for three at most have the same values. */
  lemma ThreeRejected(s: string, s': string, i: nat, j: nat, k: nat)
    requires IsBech32(s) && IsBech32(s') && i <= j <= k < |AllValues(s)|
    requires AgreeExcept(AllValues(s), AllValues(s'), i, j, k)
    ensures AllValues(s) == AllValues(s')
  {
    ThreeDetected(AllValues(s), AllValues(s'), i, j, k);
  }

  predicate SameBut(d: string, d': string, i: nat, j: nat, k: nat) {
    |d'| == |d| && forall m :: 0 <= m < |d| && m != i && m != j && m != k ==> d'[m] == d[m]
  }

  /** A string differs from another only in three characters of the data at most, and these are of the character set. */
  predicate Substituted(s: string, s': string, i: nat, j: nat, k: nat) {
    && 0 <= Separator(s) < i <= j <= k < |s| && SameBut(s, s', i, j, k)
    && CharsetRev(s'[i]) != -1 && CharsetRev(s'[j]) != -1 && CharsetRev(s'[k]) != -1
  }

  lemma SubstitutedSame(s: string, s': string, i: nat, j: nat, k: nat)
    requires Substituted(s, s', i, j, k)
    ensures Separator(s') == Separator(s) && Hrp(s') == Hrp(s)
  {
    NotSeparator(s'[i]);
    NotSeparator(s'[j]);
    NotSeparator(s'[k]);
    var p := Separator(s);
    SeparatorIs(s', p);
    assert s'[..p] == s[..p];
  }

  lemma SameTail(s: string, s': string, p: nat, i: nat, j: nat, k: nat)
    requires SameBut(s, s', i, j, k) && p <= i < |s| && p <= j < |s| && p <= k < |s| && InCharset(s[p..])
    requires CharsetRev(s'[i]) != -1 && CharsetRev(s'[j]) != -1 && CharsetRev(s'[k]) != -1
    ensures SameBut(s[p..], s'[p..], i - p, j - p, k - p) && InCharset(s'[p..])
  {
    var d, d' := s[p..], s'[p..];
    forall m | 0 <= m < |d| && m != i - p && m != j - p && m != k - p ensures d'[m] == d[m] {
      assert s'[p + m] == s[p + m];
    }
    InCharsetBut(d, d', i - p, j - p, k - p);
  }

  lemma InCharsetBut(d: string, d': string, i: nat, j: nat, k: nat)
    requires SameBut(d, d', i, j, k) && InCharset(d) && i < |d| && j < |d| && k < |d|
    requires CharsetRev(d'[i]) != -1 && CharsetRev(d'[j]) != -1 && CharsetRev(d'[k]) != -1
    ensures InCharset(d')
  {
    forall m | 0 <= m < |d'| ensures CharsetRev(d'[m]) != -1 {
      if m != i && m != j && m != k { assert d'[m] == d[m]; }
    }
  }

  // With the same values before them.
  lemma AgreeBehind(prefix: seq<Val>, d: string, d': string, i: nat, j: nat, k: nat)
    requires SameBut(d, d', i, j, k) && InCharset(d) && InCharset(d')
    ensures AgreeExcept(prefix + Values(d), prefix + Values(d'), |prefix| + i, |prefix| + j, |prefix| + k)
  {
  }

  lemma SameCharacters(prefix: seq<Val>, d: string, d': string, m: nat)
    requires InCharset(d) && InCharset(d') && prefix + Values(d) == prefix + Values(d') && m < |d| && m < |d'|
    ensures CharsetRev(d'[m]) == CharsetRev(d[m])
  {
    assert (prefix + Values(d))[|prefix| + m] == Values(d)[m] && (prefix + Values(d'))[|prefix| + m] == Values(d')[m];
    if CharsetRev(d'[m]) != CharsetRev(d[m]) { DifferentValues(CharsetRev(d'[m]), CharsetRev(d[m])); }
  }

  predicate HasChecksum(h: seq<Val>, d: string) { InCharset(d) && Verifies(h, Values(d)) && |d| <= 90 }

  lemma SubstitutionsSame(s: string, s': string, i: nat, j: nat, k: nat, m: nat, p: nat, h: seq<Val>)
    requires Substituted(s, s', i, j, k) && Separator(s) < m < |s| && p == Separator(s) + 1
    requires HasChecksum(h, s[p..]) && HasChecksum(h, s'[p..])
    ensures CharsetRev(s'[m]) == CharsetRev(s[m])
  {
    SameTail(s, s', p, i, j, k);
    DataSame(h, s[p..], s'[p..], i - p, j - p, k - p, m - p);
    assert s[p..][m - p] == s[m] && s'[p..][m - p] == s'[m];
  }

  lemma DataSame(h: seq<Val>, d: string, d': string, i: nat, j: nat, k: nat, m: nat)
    requires HasChecksum(h, d) && HasChecksum(h, d') && SameBut(d, d', i, j, k) && i <= j <= k < |d| && m < |d|
    ensures CharsetRev(d'[m]) == CharsetRev(d[m])
  {
    AgreeBehind(h, d, d', i, j, k);
    ThreeDetected(h + Values(d), h + Values(d'), |h| + i, |h| + j, |h| + k);
    SameCharacters(h, d, d', m);
  }

  /** Replacing up to three data characters of a valid string by others of the character set makes it invalid. */
  lemma SubstitutionsRejected(s: string, s': string, i: nat, j: nat, k: nat, m: nat)
    requires IsBech32(s) && Substituted(s, s', i, j, k)
    requires Separator(s) < m < |s| && CharsetRev(s'[m]) != CharsetRev(s[m])
    ensures !IsBech32(s')
  {
    if IsBech32(s') {
      SubstitutedSame(s, s', i, j, k);
      SubstitutionsSame(s, s', i, j, k, m, Separator(s) + 1, HrpValues(Hrp(s)));
    }
  }

  lemma DifferentValues(m: nat, n: nat)
    requires m < 32 && n < 32 && m != n
    ensures ValOf(m) != ValOf(n)
  {
    NumberRoundTrip(m);
    NumberRoundTrip(n);
  }
}
