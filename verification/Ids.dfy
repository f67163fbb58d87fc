/** Textual forms of zettel identifiers: 14 decimal digits, or 4 base-36 digits. */
module Ids {
  import opened Text
  import opened Zids

  const MAX_ZID: Zid := 99999999999999
  const MAX_ZID_N: nat := 36 * 36 * 36 * 36 - 1

  predicate IsValid(z: Zid) {
    0 < z <= MAX_ZID
  }

  // ---------- Digits of a base ----------

  /** The value of an alphanumeric digit of either case; 36 for any other character. */
  function DigitValue(c: char): (v: nat) {
    if '0' <= c <= '9' then (c - '0') as nat
    else if 'a' <= c <= 'z' then (c - 'a') as nat + 10
    else if 'A' <= c <= 'Z' then (c - 'A') as nat + 10
    else 36
  }

  function Digit(v: nat): (c: char)
    requires v < 36
  {
    if v < 10 then '0' + v as char else 'A' + (v - 10) as char
  }

  predicate IsNumeral(s: string, base: nat) {
    forall i :: 0 <= i < |s| ==> DigitValue(s[i]) < base
  }

  function Value(s: string, base: nat): (v: nat) {
    if s == "" then 0 else Value(s[..|s| - 1], base) * base + DigitValue(s[|s| - 1])
  }

  /** The last `k` digits of `z`, with leading zeros. */
  function Digits(z: nat, k: nat, base: nat): (s: string)
    requires 2 <= base <= 36
    ensures |s| == k
    decreases k, z
  {
    if k == 0 then "" else Digits(z / base, k - 1, base) + [Digit(z % base)]
  }

  function Pow(base: nat, k: nat): (p: nat) {
    if k == 0 then 1 else Pow(base, k - 1) * base
  }

  /** The numeral in upper case: the canonical spelling of its digits. */
  function Upper(s: string): (r: string)
    requires IsNumeral(s, 36)
  {
    if s == "" then "" else Upper(s[..|s| - 1]) + [Digit(DigitValue(s[|s| - 1]))]
  }

  lemma DigitRoundTrip(v: nat)
    requires v < 36
    ensures DigitValue(Digit(v)) == v
  {}

  lemma {:induction false} ValueBound(s: string, base: nat)
    requires IsNumeral(s, base)
    ensures Value(s, base) < Pow(base, |s|)
  {
    if s != "" {
      var t := s[..|s| - 1];
      ValueBound(t, base);
      MulLess(Value(t, base), Pow(base, |t|), base, DigitValue(s[|s| - 1]));
    }
  }

  lemma MulLess(a: nat, b: nat, base: nat, d: nat)
    requires a < b && d < base
    ensures a * base + d < b * base
  {
    assert a * base + base == (a + 1) * base;
    assert (a + 1) * base <= b * base by { MulMono(a + 1, b, base); }
  }

  lemma MulMono(a: nat, b: nat, c: nat)
    requires a <= b
    ensures a * c <= b * c
  {}

  lemma DivModOf(q: nat, d: nat, base: nat)
    requires d < base
    ensures (q * base + d) / base == q && (q * base + d) % base == d
  {
    var x := q * base + d;
    var q', r := x / base, x % base;
    DivModMul(x, base);
    if q' < q {
      MulMono(q' + 1, q, base);
    } else if q < q' {
      MulMono(q + 1, q', base);
    }
  }

  /** Printing what was read gives the numeral back, in canonical case. */
  lemma {:induction false} DigitsOfValue(s: string, base: nat)
    requires 2 <= base <= 36 && IsNumeral(s, base)
    ensures Digits(Value(s, base), |s|, base) == Upper(s)
  {
    if s != "" {
      var t, d := s[..|s| - 1], DigitValue(s[|s| - 1]);
      DigitsOfValue(t, base);
      DivModOf(Value(t, base), d, base);
    }
  }

  lemma {:induction false} DigitsAreNumeral(z: nat, k: nat, base: nat)
    requires 2 <= base <= 36
    ensures IsNumeral(Digits(z, k, base), base)
    decreases k
  {
    if k > 0 {
      DigitsAreNumeral(z / base, k - 1, base);
      DigitRoundTrip(z % base);
    }
  }

  /** `z` has at most `k` digits. */
  predicate Fits(z: nat, k: nat, base: nat)
    requires base > 1
    decreases k, z
  {
    if k == 0 then z == 0 else Fits(z / base, k - 1, base)
  }

  lemma {:induction false} FitsBelowPow(z: nat, k: nat, base: nat)
    requires base > 1 && z < Pow(base, k)
    ensures Fits(z, k, base)
    decreases k
  {
    if k > 0 {
      DivLess(z, Pow(base, k - 1), base);
      FitsBelowPow(z / base, k - 1, base);
    }
  }

  /** Reading what was printed gives the number back, as far as the width goes. */
  lemma {:induction false} ValueOfDigits(z: nat, k: nat, base: nat)
    requires 2 <= base <= 36 && Fits(z, k, base)
    ensures Value(Digits(z, k, base), base) == z
    decreases k
  {
    if k > 0 {
      var q := z / base;
      ValueOfDigits(q, k - 1, base);
      ValueOfMoreDigits(z, q, k, base);
    }
  }

  lemma ValueOfMoreDigits(z: nat, q: nat, k: nat, base: nat)
    requires 2 <= base <= 36 && k > 0 && q == z / base
    requires Value(Digits(q, k - 1, base), base) == q
    ensures Value(Digits(z, k, base), base) == z
  {
    DigitRoundTrip(z % base);
    ValueSnoc(Digits(q, k - 1, base), Digit(z % base), base);
    DivModMul(z, base);
  }

  lemma ValueSnoc(s: string, c: char, base: nat)
    ensures Value(s + [c], base) == Value(s, base) * base + DigitValue(c)
  {
    assert (s + [c])[..|s|] == s;
  }

  lemma DivModMul(z: nat, base: nat)
    requires base > 0
    ensures z == z / base * base + z % base
  {}

  lemma DivLess(z: nat, p: nat, base: nat)
    requires base > 0 && z < p * base
    ensures z / base < p
  {
    if z / base >= p {
      MulMono(p, z / base, base);
    }
  }

  // ---------- Decimal identifiers ----------

  /** `strconv.ParseUint` restricted to the range of valid identifiers; every error is None. */
  function ParseUint(s: string): (r: Option<Zid>) {
    if s != "" && IsNumeral(s, 10) && IsValid(Value(s, 10)) then Some(Value(s, 10)) else None
  }

  function Parse(s: string): (r: Option<Zid>) {
    if |s| != 14 then None else ParseUint(s)
  }

  function String(z: Zid): (s: string) {
    Digits(z, 14, 10)
  }

  lemma Pow14()
    ensures Pow(10, 14) == 100000000000000
  {
    assert Pow(10, 7) == 10000000;
    assert Pow(10, 10) == 10000000000;
    assert Pow(10, 13) == 10000000000000;
  }

  lemma {:induction false} UpperDecimal(s: string)
    requires IsNumeral(s, 10)
    ensures IsNumeral(s, 36) && Upper(s) == s
  {
    if s != "" {
      UpperDecimal(s[..|s| - 1]);
      assert s == s[..|s| - 1] + [s[|s| - 1]];
    }
  }

  /** Printing and parsing are inverse to each other, and parsing accepts nothing else. */
  lemma ParseString(s: string, z: Zid)
    ensures IsValid(z) && String(z) == s <==> Parse(s) == Some(z)
  {
    Pow14();
    if IsValid(z) && String(z) == s {
      DigitsAreNumeral(z, 14, 10);
      FitsBelowPow(z, 14, 10);
      ValueOfDigits(z, 14, 10);
    }
    if Parse(s) == Some(z) {
      DigitsOfValue(s, 10);
      UpperDecimal(s);
    }
  }

  // ---------- Base-36 identifiers ----------

  predicate IsValidN(n: nat) {
    0 < n <= MAX_ZID_N
  }

  function ParseN(s: string): (r: Option<nat>) {
    if |s| == 4 && IsNumeral(s, 36) && IsValidN(Value(s, 36)) then Some(Value(s, 36)) else None
  }

  function StringN(n: nat): (s: string) {
    Digits(n, 4, 36)
  }

  lemma Pow36()
    ensures Pow(36, 4) == MAX_ZID_N + 1
  {
    assert Pow(36, 2) == 36 * 36;
  }

  lemma {:induction false} UpperOfDigits(z: nat, k: nat)
    ensures IsNumeral(Digits(z, k, 36), 36) && Upper(Digits(z, k, 36)) == Digits(z, k, 36)
    decreases k
  {
    DigitsAreNumeral(z, k, 36);
    if k > 0 {
      UpperOfDigits(z / 36, k - 1);
      var s := Digits(z, k, 36);
      assert s[..k - 1] == Digits(z / 36, k - 1, 36);
      DigitRoundTrip(z % 36);
    }
  }

  /** Inverse up to letter case: printing uses capitals, parsing accepts both. */
  lemma ParseStringN(s: string, n: nat)
    ensures ParseN(s) == Some(n) <==> IsValidN(n) && |s| == 4 && IsNumeral(s, 36) && Upper(s) == StringN(n)
  {
    if |s| == 4 && IsNumeral(s, 36) {
      Pow36();
      ValueBound(s, 36);
      DigitsOfValue(s, 36);
      if IsValidN(n) {
        FitsBelowPow(n, 4, 36);
        ValueOfDigits(n, 4, 36);
        FitsBelowPow(Value(s, 36), 4, 36);
        ValueOfDigits(Value(s, 36), 4, 36);
      }
    }
  }

  /** Division in two steps, as the fixed-width conversion does it. */
  lemma DivDiv(z: nat, a: nat, b: nat)
    requires a > 0 && b > 0
    ensures a * b > 0 && z / a / b == z / (a * b)
  {
    var q, r := z / a, z % a;
    var q2, r2 := q / b, q % b;
    assert z == a * (b * q2 + r2) + r;
    assert z == (a * b) * q2 + (a * r2 + r) by {
      assert a * (b * q2 + r2) == (a * b) * q2 + a * r2;
    }
    assert a * r2 + r < a * b by {
      MulLess(r2, b, a, r);
      assert r2 * a == a * r2 && b * a == a * b;
    }
    DivUnique(z, a * b, q2, a * r2 + r);
  }

  lemma DivUnique(z: nat, m: nat, q: nat, r: nat)
    requires m > 0 && z == m * q + r && r < m
    ensures z / m == q && z % m == r
  {
    assert z == q * m + r;
    DivModOf(q, r, m);
  }

  /** One decimal digit: `byte(v) + '0'`. */
  function Decimal(v: nat): (c: char)
    requires v < 10
  {
    '0' + v as char
  }

  /** Fills the array with the 14 digits, two at a time. */
  method ToByteArray(zid: Zid, result: array<char>)
    requires IsValid(zid) && result.Length == 14
    modifies result
    ensures result[..] == String(zid)
  {
    var date := zid / 1000000;
    var fullyear := date / 10000;
    var century, year := fullyear / 100, fullyear % 100;
    var monthday := date % 10000;
    var month, day := monthday / 100, monthday % 100;
    var time := zid % 1000000;
    var hmtime, second := time / 100, time % 100;
    var hour, minute := hmtime / 100, hmtime % 100;

    StringFields(zid, century, year, month, day, hour, minute, second);
    PutFields(century, year, month, day, hour, minute, second, result);
  }

  method PutFields(century: nat, year: nat, month: nat, day: nat, hour: nat, minute: nat, second: nat,
                   result: array<char>)
    requires century < 100 && year < 100 && month < 100 && day < 100 && hour < 100 && minute < 100 && second < 100
    requires result.Length == 14
    modifies result
    ensures result[..] ==
            [Decimal(century / 10), Decimal(century % 10), Decimal(year / 10), Decimal(year % 10),
             Decimal(month / 10), Decimal(month % 10), Decimal(day / 10), Decimal(day % 10),
             Decimal(hour / 10), Decimal(hour % 10), Decimal(minute / 10), Decimal(minute % 10),
             Decimal(second / 10), Decimal(second % 10)]
  {
    result[0] := Decimal(century / 10);
    result[1] := Decimal(century % 10);
    result[2] := Decimal(year / 10);
    result[3] := Decimal(year % 10);
    result[4] := Decimal(month / 10);
    result[5] := Decimal(month % 10);
    result[6] := Decimal(day / 10);
    result[7] := Decimal(day % 10);
    result[8] := Decimal(hour / 10);
    result[9] := Decimal(hour % 10);
    result[10] := Decimal(minute / 10);
    result[11] := Decimal(minute % 10);
    result[12] := Decimal(second / 10);
    result[13] := Decimal(second % 10);
  }

  /** The digits of the seven two-digit fields of a time stamp. */
  lemma StringFields(zid: Zid, century: nat, year: nat, month: nat, day: nat, hour: nat, minute: nat, second: nat)
    requires IsValid(zid)
    requires century == zid / 1000000 / 10000 / 100 && year == zid / 1000000 / 10000 % 100
    requires month == zid / 1000000 % 10000 / 100 && day == zid / 1000000 % 10000 % 100
    requires hour == zid % 1000000 / 100 / 100 && minute == zid % 1000000 / 100 % 100
    requires second == zid % 1000000 % 100
    ensures century < 100 && year < 100 && month < 100 && day < 100 && hour < 100 && minute < 100 && second < 100
    ensures String(zid) ==
            [Decimal(century / 10), Decimal(century % 10), Decimal(year / 10), Decimal(year % 10),
             Decimal(month / 10), Decimal(month % 10), Decimal(day / 10), Decimal(day % 10),
             Decimal(hour / 10), Decimal(hour % 10), Decimal(minute / 10), Decimal(minute % 10),
             Decimal(second / 10), Decimal(second % 10)]
  {
    StringPairs(zid, century, year, month, day, hour, minute, second);
    TwoDigits(second); TwoDigits(minute); TwoDigits(hour);
    TwoDigits(day); TwoDigits(month); TwoDigits(year); TwoDigits(century);
  }

  function Pair(v: nat): (s: string)
    requires v < 100
  {
    [Digit(v / 10), Digit(v % 10)]
  }

  lemma TwoDigits(v: nat)
    requires v < 100
    ensures v / 10 < 10 && v % 10 < 10
    ensures Pair(v) == [Decimal(v / 10), Decimal(v % 10)]
  {}

  lemma PairStep(z: nat, k: nat)
    ensures Digits(z, k + 2, 10) == Digits(z / 100, k, 10) + Pair(z % 100)
  {
    DivDiv(z, 10, 10);
    assert Digits(z, k + 2, 10) == Digits(z / 10, k + 1, 10) + [Digit(z % 10)];
    assert z % 100 / 10 == z / 10 % 10 && z % 100 % 10 == z % 10;
  }

  lemma StringPairs(zid: Zid, century: nat, year: nat, month: nat, day: nat, hour: nat, minute: nat, second: nat)
    requires IsValid(zid) && century < 100 && year < 100 && month < 100 && day < 100
    requires hour < 100 && minute < 100 && second < 100
    requires zid / 1000000 / 10000 == century * 100 + year
    requires zid / 1000000 % 10000 == month * 100 + day
    requires zid % 1000000 == (hour * 100 + minute) * 100 + second
    ensures String(zid)
            == Pair(century) + Pair(year) + Pair(month) + Pair(day) + Pair(hour) + Pair(minute) + Pair(second)
  {
    var cy := century * 100 + year;
    var cym := cy * 100 + month;
    var ymd := cym * 100 + day;
    var ymdh := ymd * 100 + hour;
    var ymdhm := ymdh * 100 + minute;
    assert zid / 1000000 == ymd;
    PairJoin(zid, 12, ymdhm, second);
    PairJoin(ymdhm, 10, ymdh, minute);
    PairJoin(ymdh, 8, ymd, hour);
    PairJoin(ymd, 6, cym, day);
    PairJoin(cym, 4, cy, month);
    PairJoin(cy, 2, century, year);
    PairJoin(century, 0, 0, century);
  }

  lemma PairJoin(z: nat, k: nat, q: nat, v: nat)
    requires v < 100 && z == q * 100 + v
    ensures Digits(z, k + 2, 10) == Digits(q, k, 10) + Pair(v)
  {
    PairStep(z, k);
    DivModOf(q, v, 100);
  }

  // ---------- Numeric stand-ins for the prefix and suffix tests of the index ----------

  predicate HasPrefix(s: string, p: string) {
    |p| <= |s| && s[..|p|] == p
  }

  predicate HasSuffix(s: string, p: string) {
    |p| <= |s| && s[|s| - |p|..] == p
  }

  function Repeat(c: char, n: nat): (s: string)
    ensures |s| == n && forall i :: 0 <= i < n ==> s[i] == c
  {
    seq(n, i => c)
  }

  /** The bounds `SearchPrefix` compares with: `prefix` filled up with zeros, and with nines. */
  function PrefixBounds(prefix: string): (r: Option<(Zid, Zid)>) {
    if |prefix| > 14 then None else
    var hi := Parse(prefix + Repeat('9', 14 - |prefix|));
    var lo := if |prefix| < 14 && prefix == Repeat('0', |prefix|) then Some(1)
              else Parse(prefix + Repeat('0', 14 - |prefix|));
    if hi.Some? && lo.Some? then Some((lo.value, hi.value)) else None
  }

  predicate InPrefixRange(prefix: string, zid: Zid) {
    var b := PrefixBounds(prefix);
    b.Some? && b.value.0 <= zid <= b.value.1
  }

  /** The modulo test of `SearchSuffix`. */
  predicate IsSuffixModulo(suffix: string, zid: Zid) {
    && |suffix| <= 14
    && var val := ParseUint(suffix);
    && val.Some? && Pow(10, |suffix|) > 0 && zid % Pow(10, |suffix|) == val.value
  }

  lemma {:induction false} PowPositive(base: nat, k: nat)
    requires base > 0
    ensures Pow(base, k) > 0
  {
    if k > 0 { PowPositive(base, k - 1); }
  }

  /** The last `l` digits depend only on the remainder. */
  lemma {:induction false} LastDigits(z: nat, k: nat, l: nat)
    requires l <= k
    ensures Digits(z, k, 10)[k - l..] == Digits(z, l, 10)
    decreases l
  {
    if l > 0 {
      LastDigits(z / 10, k - 1, l - 1);
      assert Digits(z, k, 10)[k - l..] == Digits(z / 10, k - 1, 10)[k - l..] + [Digit(z % 10)];
    }
  }

  /** A numeral of `|s|` digits spells the last digits of `z` iff their values agree. */
  lemma {:induction false} DigitsSpell(z: nat, s: string)
    requires IsNumeral(s, 10)
    ensures Digits(z, |s|, 10) == s <==> Congruent(z, s)
    decreases |s|
  {
    if s != "" {
      var t, c := s[..|s| - 1], s[|s| - 1];
      DigitsSpell(z / 10, t);
      var d := Digits(z, |s|, 10);
      assert d == Digits(z / 10, |t|, 10) + [Digit(z % 10)];
      assert d[..|t|] == Digits(z / 10, |t|, 10);
      assert s == t + [c];
      DigitRoundTrip(z % 10);
      assert Digit(z % 10) == c <==> z % 10 == DigitValue(c);
      if Digits(z / 10, |t|, 10) == t && Digit(z % 10) == c { assert d == s; }
      if d == s { assert d[..|t|] == t && d[|t|] == c; }
    }
  }

  predicate Congruent(z: nat, s: string)
    decreases |s|
  {
    s == "" || (z % 10 == DigitValue(s[|s| - 1]) && Congruent(z / 10, s[..|s| - 1]))
  }

  lemma {:induction false} CongruentModulo(z: nat, s: string)
    requires IsNumeral(s, 10)
    ensures Pow(10, |s|) > 0
    ensures Congruent(z, s) <==> z % Pow(10, |s|) == Value(s, 10)
    decreases |s|
  {
    PowPositive(10, |s|);
    if s != "" {
      var t := s[..|s| - 1];
      PowPositive(10, |t|);
      CongruentModulo(z / 10, t);
      ModStep(z, Pow(10, |t|));
    }
  }

  lemma ModStep(z: nat, p: nat)
    requires p > 0
    ensures z % (p * 10) == z / 10 % p * 10 + z % 10
  {
    var q, r := z / 10 / p, z / 10 % p;
    DivModMul(z / 10, p);
    assert z == (p * 10) * q + (r * 10 + z % 10) by {
      assert q * p * 10 == (p * 10) * q;
    }
    MulLess(r, p, 10, z % 10);
    DivUnique(z, p * 10, q, r * 10 + z % 10);
  }

  /** For valid identifiers the modulo test is the suffix test, unless the suffix is all zeros. */
  lemma SuffixModulo(suffix: string, zid: Zid)
    requires IsValid(zid)
    ensures IsSuffixModulo(suffix, zid) <==> HasSuffix(String(zid), suffix) && suffix != Repeat('0', |suffix|)
  {
    DigitsAreNumeral(zid, 14, 10);
    if |suffix| <= 14 {
      LastDigits(zid, 14, |suffix|);
      if IsNumeral(suffix, 10) {
        DigitsSpell(zid, suffix);
        CongruentModulo(zid, suffix);
        ValueZero(suffix);
        ValueBound(suffix, 10);
        Pow14();
        PowMono(|suffix|, 14);
      } else {
        DigitsAreNumeral(zid, |suffix|, 10);
      }
    }
  }

  lemma RepeatSnoc(p: string, c: char, j: nat)
    requires j > 0
    ensures p + Repeat(c, j) == p + Repeat(c, j - 1) + [c]
  {}

  /** Filling up a numeral with zeros and nines bounds exactly the numbers that start with it. */
  lemma {:induction false} RangeIsPrefix(p: string, j: nat, z: nat)
    requires IsNumeral(p, 10) && Fits(z, |p| + j, 10)
    ensures Value(p + Repeat('0', j), 10) <= z <= Value(p + Repeat('9', j), 10)
      <==> Digits(z, |p| + j, 10)[..|p|] == p
    decreases j
  {
    if j == 0 {
      assert p + Repeat('0', 0) == p && p + Repeat('9', 0) == p;
      SpellsValue(p, z);
    } else {
      var lo, hi, d := Value(p + Repeat('0', j - 1), 10), Value(p + Repeat('9', j - 1), 10), Digits(z, |p| + j, 10);
      RangeIsPrefix(p, j - 1, z / 10);
      FilledSnoc(p, '0', j);
      FilledSnoc(p, '9', j);
      assert Value(p + Repeat('0', j), 10) == lo * 10 && Value(p + Repeat('9', j), 10) == hi * 10 + 9;
      DivBetween(lo, hi, z);
      assert d[..|p|] == Digits(z / 10, |p| + j - 1, 10)[..|p|];
    }
  }

  lemma FilledSnoc(p: string, c: char, j: nat)
    requires j > 0
    ensures Value(p + Repeat(c, j), 10) == Value(p + Repeat(c, j - 1), 10) * 10 + DigitValue(c)
  {
    RepeatSnoc(p, c, j);
    ValueSnoc(p + Repeat(c, j - 1), c, 10);
  }

  lemma SpellsValue(p: string, z: nat)
    requires IsNumeral(p, 10) && Fits(z, |p|, 10)
    ensures Value(p, 10) == z <==> Digits(z, |p|, 10)[..|p|] == p
  {
    assert Digits(z, |p|, 10)[..|p|] == Digits(z, |p|, 10);
    ValueOfDigits(z, |p|, 10);
    DigitsOfValue(p, 10);
    UpperDecimal(p);
  }

  lemma DivBetween(lo: nat, hi: nat, z: nat)
    ensures lo * 10 <= z <= hi * 10 + 9 <==> lo <= z / 10 <= hi
  {}

  /** A full-width numeral parses unless it is zero. */
  lemma ParseNumeral(s: string)
    requires |s| == 14 && IsNumeral(s, 10)
    ensures Parse(s) == if s == Repeat('0', 14) then None else Some(Value(s, 10))
    ensures s == Repeat('0', 14) <==> Value(s, 10) == 0
  {
    Pow14();
    ValueBound(s, 10);
    ValueZero(s);
  }

  lemma ZeroFill(p: string, j: nat)
    ensures p + Repeat('0', j) == Repeat('0', |p| + j) <==> p == Repeat('0', |p|)
  {
    assert Repeat('0', |p| + j) == Repeat('0', |p|) + Repeat('0', j);
    assert (p + Repeat('0', j))[..|p|] == p;
    assert Repeat('0', |p| + j)[..|p|] == Repeat('0', |p|);
  }

  /** For valid identifiers the range test is the prefix test. */
  lemma PrefixRange(prefix: string, zid: Zid)
    requires IsValid(zid)
    ensures InPrefixRange(prefix, zid) <==> HasPrefix(String(zid), prefix)
  {
    if |prefix| <= 14 {
      if IsNumeral(prefix, 10) {
        NumeralPrefixRange(prefix, zid);
      } else {
        NoNumeralPrefix(prefix, zid);
      }
    }
  }

  lemma NumeralPrefixRange(prefix: string, zid: Zid)
    requires IsValid(zid) && |prefix| <= 14 && IsNumeral(prefix, 10)
    ensures InPrefixRange(prefix, zid) <==> HasPrefix(String(zid), prefix)
  {
    var j := 14 - |prefix|;
    ValidFits(zid, |prefix| + j);
    RangeIsPrefix(prefix, j, zid);
    FilledBounds(prefix, j);
    BoundsCase(prefix, j, Value(prefix + Repeat('0', j), 10), Value(prefix + Repeat('9', j), 10), zid);
  }

  lemma BoundsCase(prefix: string, j: nat, lo: nat, hi: nat, zid: Zid)
    requires |prefix| + j == 14 && zid > 0
    requires Parse(prefix + Repeat('0', j)) == if prefix == Repeat('0', |prefix|) then None else Some(lo)
    requires Parse(prefix + Repeat('9', j)) == if prefix == Repeat('0', |prefix|) && j == 0 then None else Some(hi)
    requires prefix == Repeat('0', |prefix|) ==> lo == 0 && (j == 0 ==> hi == 0)
    ensures InPrefixRange(prefix, zid) <==> lo <= zid <= hi
  {}

  lemma ValidFits(zid: Zid, n: nat)
    requires IsValid(zid) && n == 14
    ensures Fits(zid, n, 10) && String(zid) == Digits(zid, n, 10)
  {
    Pow14();
    FitsBelowPow(zid, n, 10);
  }

  /** What the two filled-up numerals parse to. */
  lemma FilledBounds(prefix: string, j: nat)
    requires |prefix| + j == 14 && IsNumeral(prefix, 10)
    ensures var lo, hi, zero := prefix + Repeat('0', j), prefix + Repeat('9', j), prefix == Repeat('0', |prefix|);
      && Parse(lo) == (if zero then None else Some(Value(lo, 10)))
      && Parse(hi) == (if zero && j == 0 then None else Some(Value(hi, 10)))
      && (zero ==> Value(lo, 10) == 0 && (j == 0 ==> Value(hi, 10) == 0))
  {
    var lo, hi := prefix + Repeat('0', j), prefix + Repeat('9', j);
    ParseNumeral(lo);
    ParseNumeral(hi);
    ZeroFill(prefix, j);
    if j > 0 {
      assert hi[13] == '9';
    } else {
      assert lo == hi;
    }
  }

  lemma NoNumeralPrefix(prefix: string, zid: Zid)
    requires |prefix| <= 14 && !IsNumeral(prefix, 10)
    ensures !InPrefixRange(prefix, zid) && !HasPrefix(String(zid), prefix)
  {
    var i :| 0 <= i < |prefix| && DigitValue(prefix[i]) >= 10;
    DigitsAreNumeral(zid, 14, 10);
    var hi := prefix + Repeat('9', 14 - |prefix|);
    assert hi[i] == prefix[i];
    assert !IsNumeral(hi, 10);
    assert String(zid)[..|prefix|][i] == String(zid)[i];
  }

  lemma {:induction false} PowMono(k: nat, n: nat)
    requires k <= n
    ensures Pow(10, k) <= Pow(10, n)
    decreases n
  {
    if k < n { PowMono(k, n - 1); }
  }

  lemma {:induction false} ValueZero(s: string)
    requires IsNumeral(s, 10)
    ensures Value(s, 10) == 0 <==> s == Repeat('0', |s|)
  {
    if s != "" {
      var t := s[..|s| - 1];
      ValueZero(t);
      assert s == t + [s[|s| - 1]];
      assert Repeat('0', |s|) == Repeat('0', |t|) + ['0'];
      if s == Repeat('0', |s|) { assert t == Repeat('0', |t|); }
    }
  }
}
