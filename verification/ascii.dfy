/** ASCII character classes, Rust's `to_ascii_lowercase` / `to_ascii_uppercase`,
    and the decimal rendering Rust's `Display` gives integers. */
module Ascii {
  import opened Results

  predicate IsDigit(c: char) { '0' <= c <= '9' }
  predicate IsUpper(c: char) { 'A' <= c <= 'Z' }
  predicate IsLower(c: char) { 'a' <= c <= 'z' }
  /** The alphabet of `rand::distributions::Alphanumeric`. */
  predicate IsAlnum(c: char) { IsDigit(c) || IsUpper(c) || IsLower(c) }
  predicate IsLowerHex(c: char) { IsDigit(c) || 'a' <= c <= 'f' }
  predicate IsUpperHex(c: char) { IsDigit(c) || 'A' <= c <= 'F' }

  predicate AllDigits(s: string) { forall i :: 0 <= i < |s| ==> IsDigit(s[i]) }
  predicate AllAlnum(s: string) { forall i :: 0 <= i < |s| ==> IsAlnum(s[i]) }
  predicate AllUpperHex(s: string) { forall i :: 0 <= i < |s| ==> IsUpperHex(s[i]) }
  predicate NoUpper(s: string) { forall i :: 0 <= i < |s| ==> !IsUpper(s[i]) }
  predicate NoLower(s: string) { forall i :: 0 <= i < |s| ==> !IsLower(s[i]) }

  /** What a hex SHA-256 digest looks like: 64 lower-case hex characters. */
  predicate IsLowerHexDigest(s: string) {
    |s| == 64 && forall i :: 0 <= i < |s| ==> IsLowerHex(s[i])
  }

  function LowerChar(c: char): char {
    if IsUpper(c) then (c as int + 32) as char else c
  }

  function UpperChar(c: char): char {
    if IsLower(c) then (c as int - 32) as char else c
  }

  /** Rust's `str::to_ascii_lowercase`: 'A'..'Z' become lower case, every other
      character (including non-ASCII ones) is kept. */
  function ToLower(s: string): (r: string)
    ensures |r| == |s|
    ensures NoUpper(r)
    ensures forall i :: 0 <= i < |s| && !IsUpper(s[i]) ==> r[i] == s[i]
    ensures forall i :: 0 <= i < |s| && IsUpper(s[i]) ==> IsLower(r[i]) && UpperChar(r[i]) == s[i]
  {
    if s == [] then [] else [LowerChar(s[0])] + ToLower(s[1..])
  }

  /** Rust's `str::to_ascii_uppercase`: 'a'..'z' become upper case, every other
      character is kept. */
  function ToUpper(s: string): (r: string)
    ensures |r| == |s|
    ensures NoLower(r)
    ensures forall i :: 0 <= i < |s| && !IsLower(s[i]) ==> r[i] == s[i]
    ensures forall i :: 0 <= i < |s| && IsLower(s[i]) ==> IsUpper(r[i]) && LowerChar(r[i]) == s[i]
  {
    if s == [] then [] else [UpperChar(s[0])] + ToUpper(s[1..])
  }

  /** Lower-casing a string that has no upper-case letter changes nothing. */
  lemma {:induction false} ToLowerFixesNoUpper(s: string)
    requires NoUpper(s)
    ensures ToLower(s) == s
  {
    if s != [] {
      ToLowerFixesNoUpper(s[1..]);
    }
  }

  /** Lower-casing is idempotent. */
  lemma ToLowerIdempotent(s: string)
    ensures ToLower(ToLower(s)) == ToLower(s)
  {
    ToLowerFixesNoUpper(ToLower(s));
  }

  /** Lower-casing undoes upper-casing on strings that had no upper-case letter. */
  lemma {:induction false} ToLowerUndoesToUpper(s: string)
    requires NoUpper(s)
    ensures ToLower(ToUpper(s)) == s
  {
    if s != [] {
      ToLowerUndoesToUpper(s[1..]);
      assert ToUpper(s)[1..] == ToUpper(s[1..]);
    }
  }

  /** Upper-casing a lower-case hex string gives an upper-case hex string of the same length. */
  lemma ToUpperOfLowerHex(s: string)
    requires forall i :: 0 <= i < |s| ==> IsLowerHex(s[i])
    ensures |ToUpper(s)| == |s| && AllUpperHex(ToUpper(s))
  {
    var r := ToUpper(s);
    forall i | 0 <= i < |s|
      ensures IsUpperHex(r[i])
    {
      if IsLower(s[i]) {
        assert LowerChar(r[i]) == s[i];
      }
    }
  }

  // ---- Decimal rendering (Rust's `Display` for integers) ----

  function DigitChar(d: nat): char
    requires d < 10
  {
    ('0' as int + d) as char
  }

  function DigitValue(c: char): nat
    requires IsDigit(c)
  {
    c as int - '0' as int
  }

  /** The value of a string of decimal digits, most significant first. */
  function DecimalValue(s: string): nat
    requires AllDigits(s)
  {
    if s == [] then 0 else 10 * DecimalValue(s[..|s| - 1]) + DigitValue(s[|s| - 1])
  }

  function Pow10(k: nat): nat {
    if k == 0 then 1 else 10 * Pow10(k - 1)
  }

  /** Digits appended on the right shift the value of the digits on the left. */
  lemma {:induction false} DecimalValueAppend(a: string, b: string)
    requires AllDigits(a) && AllDigits(b)
    ensures AllDigits(a + b)
    ensures DecimalValue(a + b) == DecimalValue(a) * Pow10(|b|) + DecimalValue(b)
    decreases |b|
  {
    var ab := a + b;
    assert AllDigits(ab) by {
      forall i | 0 <= i < |ab| ensures IsDigit(ab[i]) {
        if i < |a| { assert ab[i] == a[i]; } else { assert ab[i] == b[i - |a|]; }
      }
    }
    if b == [] {
      assert ab == a;
    } else {
      var b' := b[..|b| - 1];
      assert ab[..|ab| - 1] == a + b';
      DecimalValueAppend(a, b');
      var x, y, p, d := DecimalValue(a), DecimalValue(b'), Pow10(|b'|), DigitValue(b[|b| - 1]);
      assert DecimalValue(ab) == 10 * (x * p + y) + d;
      assert Pow10(|b|) == 10 * p;
      assert 10 * (x * p) == x * (10 * p) by { ShiftFactor(x, p); }
    }
  }

  lemma ShiftFactor(x: nat, p: nat)
    ensures 10 * (x * p) == x * (10 * p)
  {
  }

  /** A decimal numeral as `Display` writes one: digits, with no leading zero
      unless the numeral is "0" itself. */
  predicate IsCanonicalDecimal(s: string) {
    1 <= |s| && AllDigits(s) && (s[0] == '0' ==> |s| == 1)
  }

  /** Decimal rendering of a natural number, without leading zeros. */
  function NatToDecimal(n: nat): (r: string)
    ensures IsCanonicalDecimal(r)
    ensures r[0] == '0' ==> n == 0 && r == "0"
    decreases n
  {
    if n < 10 then [DigitChar(n)] else NatToDecimal(n / 10) + [DigitChar(n % 10)]
  }

  /** A number of at least 10^k has more than k digits. */
  lemma {:induction false} NatToDecimalLength(n: nat, k: nat)
    requires Pow10(k) <= n
    ensures k < |NatToDecimal(n)|
    decreases k
  {
    if k > 0 {
      NatToDecimalLength(n / 10, k - 1);
    }
  }

  /** Reading back a rendered natural number gives the number. */
  lemma {:induction false} NatDecimalRoundTrip(n: nat)
    ensures DecimalValue(NatToDecimal(n)) == n
    decreases n
  {
    if n >= 10 {
      NatDecimalRoundTrip(n / 10);
      var s := NatToDecimal(n);
      assert s[..|s| - 1] == NatToDecimal(n / 10);
    }
  }

  /** Rendering the value of a canonical numeral gives the numeral back, so
      `NatToDecimal` is a bijection onto the canonical numerals. */
  lemma {:induction false} DecimalNatRoundTrip(s: string)
    requires IsCanonicalDecimal(s)
    ensures NatToDecimal(DecimalValue(s)) == s
    decreases |s|
  {
    var last := s[|s| - 1];
    if |s| == 1 {
      assert s == [last];
    } else {
      var init := s[..|s| - 1];
      assert init[0] == s[0];
      DecimalNatRoundTrip(init);
      var v := DecimalValue(init);
      assert DecimalValue(s) / 10 == v && DecimalValue(s) % 10 == DigitValue(last);
      assert s == init + [last];
    }
  }

  /** Decimal rendering of a signed integer, as Rust prints `i32`: a leading '-'
      for negative numbers, then the digits of the magnitude. */
  function IntToDecimal(n: int): (r: string)
    ensures 1 <= |r|
    ensures r[0] == '-' <==> n < 0
    ensures n >= 0 ==> AllDigits(r)
    ensures n < 0 ==> 2 <= |r| && AllDigits(r[1..])
    ensures r[0] == '0' ==> r == "0"
    ensures n < 0 ==> r[1] != '0'
  {
    if n < 0 then "-" + NatToDecimal(-n) else NatToDecimal(n)
  }

  /** Parses a canonical decimal numeral. */
  function ParseNat(s: string): (r: Option<nat>)
    ensures r.Some? <==> IsCanonicalDecimal(s)
  {
    if IsCanonicalDecimal(s) then Some(DecimalValue(s)) else None
  }

  /** Parses what `IntToDecimal` writes: a canonical numeral, optionally preceded
      by '-' when it is not "0". */
  function ParseInt(s: string): (r: Option<int>)
    ensures r.Some? ==> 1 <= |s| && (r.value < 0 <==> s[0] == '-')
  {
    if 1 <= |s| && s[0] == '-' then
      match ParseNat(s[1..])
      case Some(n) => if n == 0 then None else Some(-(n as int))
      case None => None
    else
      match ParseNat(s)
      case Some(n) => Some(n as int)
      case None => None
  }

  /** `ParseInt` inverts `IntToDecimal` for every integer. */
  lemma {:induction false} IntDecimalRoundTrip(n: int)
    ensures ParseInt(IntToDecimal(n)) == Some(n)
  {
    if n < 0 {
      NatDecimalRoundTrip(-n);
      assert IntToDecimal(n)[1..] == NatToDecimal(-n);
    } else {
      NatDecimalRoundTrip(n);
    }
  }

  /** `ParseInt` accepts only what `IntToDecimal` writes: a string parses to `n`
      exactly when it is the rendering of `n`. */
  lemma IntDecimalIff(s: string, n: int)
    ensures ParseInt(s) == Some(n) <==> IntToDecimal(n) == s
  {
    if ParseInt(s) == Some(n) {
      if s[0] == '-' {
        DecimalNatRoundTrip(s[1..]);
        assert s == "-" + s[1..];
      } else {
        DecimalNatRoundTrip(s);
      }
    }
    if IntToDecimal(n) == s {
      IntDecimalRoundTrip(n);
    }
  }
}
