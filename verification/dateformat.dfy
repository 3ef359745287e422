/** The calendar date the header builder reads from the clock, and its rendering
    with chrono's `%Y`, `%d` and `%m` specifiers. */
module DateFormat {
  import opened Results
  import opened Ascii

  /** A UTC calendar date as `Utc::now()` yields it. */
  datatype Date = Date(year: int, month: nat, day: nat)

  /** Months and days as a calendar produces them. */
  predicate ValidDate(d: Date) {
    1 <= d.month <= 12 && 1 <= d.day <= 31
  }

  /** A number below 100 as two zero-padded digits (`%d`, `%m`). */
  function Pad2(n: nat): (r: string)
    requires n < 100
    ensures |r| == 2 && AllDigits(r) && DecimalValue(r) == n
  {
    var r := [DigitChar(n / 10), DigitChar(n % 10)];
    var r1 := [DigitChar(n / 10)];
    assert r[..1] == r1 && r1[..0] == [];
    assert DecimalValue(r1) == n / 10;
    r
  }

  /** A number below 10000 as four zero-padded digits. */
  function Pad4(n: nat): (r: string)
    requires n < 10000
    ensures |r| == 4 && AllDigits(r) && DecimalValue(r) == n
  {
    DecimalValueAppend(Pad2(n / 100), Pad2(n % 100));
    Pad2(n / 100) + Pad2(n % 100)
  }

  /** A character that may occur in a rendered date. */
  predicate IsStampChar(c: char) {
    IsDigit(c) || c == '+' || c == '-'
  }

  /** chrono's `%Y`: years 0 through 9999 as four zero-padded digits; any other
      year is written with an explicit sign and at least four digits. */
  function YearText(year: int): (r: string)
    ensures 4 <= |r|
    ensures forall i :: 0 <= i < |r| ==> IsStampChar(r[i])
    ensures 0 <= year <= 9999 ==> |r| == 4 && AllDigits(r) && DecimalValue(r) == year
    ensures year > 9999 ==> r[0] == '+' && 6 <= |r| && AllDigits(r[1..]) && DecimalValue(r[1..]) == year
    ensures year < 0 ==> r[0] == '-' && 5 <= |r| && AllDigits(r[1..]) && DecimalValue(r[1..]) == -year
    ensures year > 9999 ==> IsCanonicalDecimal(r[1..])
    ensures -9999 <= year < 0 ==> |r| == 5
    ensures year < -9999 ==> IsCanonicalDecimal(r[1..])
  {
    if 0 <= year <= 9999 then Pad4(year)
    else if year > 9999 then
      NatToDecimalLength(year, 4);
      NatDecimalRoundTrip(year);
      SignedYear('+', NatToDecimal(year));
      "+" + NatToDecimal(year)
    else if -year <= 9999 then
      SignedYear('-', Pad4(-year));
      "-" + Pad4(-year)
    else
      NatToDecimalLength(-year, 4);
      NatDecimalRoundTrip(-year);
      SignedYear('-', NatToDecimal(-year));
      "-" + NatToDecimal(-year)
  }

  /** A sign followed by digits is stamp text, and the digits follow the sign. */
  lemma SignedYear(sign: char, digits: string)
    requires sign == '+' || sign == '-'
    requires AllDigits(digits)
    ensures var r := [sign] + digits;
            && |r| == |digits| + 1 && r[0] == sign && r[1..] == digits
            && forall i :: 0 <= i < |r| ==> IsStampChar(r[i])
  {
    var r := [sign] + digits;
    assert r[1..] == digits;
    forall i | 0 <= i < |r| ensures IsStampChar(r[i]) {
      if i > 0 { assert r[i] == digits[i - 1]; }
    }
  }

  /** The stamp `format("%Y%d%m")` produces: year, then DAY, then month. */
  function DateStamp(d: Date): (r: string)
    requires ValidDate(d)
    ensures 8 <= |r|
    ensures forall i :: 0 <= i < |r| ==> IsStampChar(r[i])
    ensures 0 <= d.year <= 9999 ==> |r| == 8 && AllDigits(r)
  {
    YearText(d.year) + Pad2(d.day) + Pad2(d.month)
  }

  /** The year-month-day stamp the source's comment describes, for comparison. */
  function YmdStamp(d: Date): (r: string)
    requires ValidDate(d)
    ensures |r| == |DateStamp(d)|
  {
    YearText(d.year) + Pad2(d.month) + Pad2(d.day)
  }

  /** Reads an eight-digit stamp back as year, day, month. */
  function ParseDateStamp(s: string): (r: Option<Date>)
    ensures r.Some? <==> |s| == 8 && AllDigits(s)
  {
    if |s| == 8 && AllDigits(s) then
      Some(Date(DecimalValue(s[..4]), DecimalValue(s[6..8]), DecimalValue(s[4..6])))
    else None
  }

  /** For four-digit years the stamp determines the date: characters 4-5 hold the
      day and characters 6-7 the month. */
  lemma DateStampRoundTrip(d: Date)
    requires ValidDate(d) && 0 <= d.year <= 9999
    ensures ParseDateStamp(DateStamp(d)) == Some(d)
  {
    var s := DateStamp(d);
    assert s[..4] == YearText(d.year);
    assert s[4..6] == Pad2(d.day);
    assert s[6..8] == Pad2(d.month);
  }

  /** The stamp agrees with the commented `yyyymmdd` layout exactly on the days
      whose day number equals the month number. */
  lemma DateStampIsYmdIffDayIsMonth(d: Date)
    requires ValidDate(d)
    ensures DateStamp(d) == YmdStamp(d) <==> d.day == d.month
  {
    var s, t := DateStamp(d), YmdStamp(d);
    var k := |YearText(d.year)|;
    if s == t {
      assert s[k..k + 2] == Pad2(d.day);
      assert t[k..k + 2] == Pad2(d.month);
    }
  }
}
