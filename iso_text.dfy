/**
 * Dates as text. Output follows what the front end's template strings produce
 * (an unpadded decimal year, as `Number.prototype.toString` writes it, then the
 * month and day zero-padded to two digits with `padStart(2, "0")`). Input
 * follows the calendar-date part of the ECMAScript Date Time String Format that
 * `new Date("YYYY-MM-DDT12:00:00")` accepts: the extended calendar-date format
 * of section 4.1.2.2 of ISO 8601:2004 with a four-digit year.
 */
module IsoDates {
  import opened Wrappers
  import opened Gregorian

  predicate IsDigit(c: char) {
    '0' <= c <= '9'
  }

  predicate AllDigits(s: string) {
    forall i :: 0 <= i < |s| ==> IsDigit(s[i])
  }

  function DigitChar(n: nat): (c: char)
    requires n < 10
    ensures IsDigit(c) && c as int - '0' as int == n
  {
    ('0' as int + n) as char
  }

  function DigitValue(c: char): (n: nat)
    requires IsDigit(c)
    ensures n < 10 && DigitChar(n) == c
  {
    (c as int - '0' as int) as nat
  }

  /** The value of a string of decimal digits, most significant first. */
  function DigitsValue(s: string): nat
    requires AllDigits(s)
  {
    if s == [] then 0 else 10 * DigitsValue(s[..|s| - 1]) + DigitValue(s[|s| - 1])
  }

  /** `n.toString()` for a non-negative integer: shortest decimal, no leading zeros. */
  function Decimal(n: nat): (s: string)
    ensures |s| >= 1 && AllDigits(s)
    ensures |s| > 1 ==> s[0] != '0'
  {
    if n < 10 then [DigitChar(n)] else Decimal(n / 10) + [DigitChar(n % 10)]
  }

  /** `n.toString()` for any integer: a minus sign before negative values. */
  function IntToDecimal(i: int): (s: string)
    ensures |s| >= 1 && (s[0] == '-' <==> i < 0)
    ensures i < 0 ==> |s| >= 2 && AllDigits(s[1..])
    ensures i >= 0 ==> AllDigits(s)
  {
    if i < 0 then "-" + Decimal(-i) else Decimal(i)
  }

  /** `n.toString().padStart(2, "0")`. */
  function Pad2(n: nat): (s: string)
    ensures n < 100 ==> |s| == 2 && AllDigits(s)
  {
    if n < 10 then ['0', DigitChar(n)]
    else
      assert n < 100 ==> |Decimal(n / 10)| == 1;
      Decimal(n)
  }

  /** The template `${getFullYear()}-${month}-${day}` with month and day padded. */
  function FormatIsoDate(d: Date): string
    requires IsValid(d)
  {
    IntToDecimal(d.year) + "-" + Pad2(d.month) + "-" + Pad2(d.day)
  }

  /** The text shape YYYY-MM-DD, before any range check. */
  predicate HasIsoDateShape(s: string) {
    |s| == 10 && s[4] == '-' && s[7] == '-' &&
    AllDigits(s[..4]) && AllDigits(s[5..7]) && AllDigits(s[8..])
  }

  /** A bare year `YYYY`: four digits. */
  predicate IsYearText(s: string) {
    |s| == 4 && AllDigits(s)
  }

  /** A well-formed `YYYY-MM`: four digits, a hyphen, two digits naming a month 01..12. */
  predicate IsYearMonth(s: string) {
    |s| == 7 && s[4] == '-' && AllDigits(s[..4]) && AllDigits(s[5..]) &&
    1 <= DigitsValue(s[5..]) <= 12
  }

  function YearOf(s: string): int
    requires IsYearMonth(s)
  {
    DigitsValue(s[..4])
  }

  function MonthOf(s: string): int
    requires IsYearMonth(s)
  {
    DigitsValue(s[5..])
  }

  /**
   * The calendar date `s` denotes in the strict date format, or None: wrong
   * shape, month outside 01..12, or a day the month does not have. Such text
   * gives an Invalid Date, except that engines may fall back to their own
   * parsing for a day the month does not have (the front end only ever asks
   * for day 01).
   */
  function ParseIsoDate(s: string): (r: Option<Date>)
    ensures r.Some? ==> IsValid(r.value) && 0 <= r.value.year <= 9999
    ensures r.Some? <==> HasIsoDateShape(s) && IsValid(Date(DigitsValue(s[..4]), DigitsValue(s[5..7]), DigitsValue(s[8..])))
  {
    if !HasIsoDateShape(s) then None
    else
      var d := Date(DigitsValue(s[..4]), DigitsValue(s[5..7]), DigitsValue(s[8..]));
      FourDigitsBound(s[..4]);
      if IsValid(d) then Some(d) else None
  }

  /**
   * The date `new Date(s + "T12:00:00")` gives, or None for an Invalid Date:
   * the date-only forms of the ECMAScript Date Time String Format followed by
   * a local time. `YYYY-MM-DD` is that day, `YYYY-MM` the 1st of the month and
   * `YYYY` the 1st of January.
   */
  function ParseDateOnly(s: string): (r: Option<Date>)
    ensures r.Some? ==> IsValid(r.value) && 0 <= r.value.year <= 9999
  {
    if IsYearText(s) then
      FourDigitsBound(s);
      Some(Date(DigitsValue(s), 1, 1))
    else if IsYearMonth(s) then
      FourDigitsBound(s[..4]);
      Some(Date(YearOf(s), MonthOf(s), 1))
    else ParseIsoDate(s)
  }

  // ---------------------------------------------------------------------------
  // Lemmas

  lemma FourDigitsBound(s: string)
    requires |s| == 4 && AllDigits(s)
    ensures DigitsValue(s) <= 9999
  {
    assert s[..1][..0] == [] && s[..2][..1] == s[..1] && s[..3][..2] == s[..2] && s[..4] == s;
    assert DigitsValue(s[..1]) <= 9;
    assert DigitsValue(s[..2]) <= 99;
    assert DigitsValue(s[..3]) <= 999;
  }

  lemma {:induction false} DecimalValue(n: nat)
    ensures DigitsValue(Decimal(n)) == n
  {
    if n >= 10 {
      DecimalValue(n / 10);
      var s := Decimal(n);
      assert s[..|s| - 1] == Decimal(n / 10);
    }
  }

  /** The digits after an optional minus sign read back as the magnitude. */
  lemma IntToDecimalValue(i: int)
    ensures i < 0 ==> DigitsValue(IntToDecimal(i)[1..]) == -i
    ensures i >= 0 ==> DigitsValue(IntToDecimal(i)) == i
  {
    if i < 0 {
      var t := Decimal(-i);
      assert IntToDecimal(i) == "-" + t;
      assert ("-" + t)[1..] == t;
      DecimalValue(-i);
    } else {
      DecimalValue(i);
    }
  }

  lemma {:induction false} LeadingNonZeroPositive(s: string)
    requires |s| >= 1 && AllDigits(s) && s[0] != '0'
    ensures DigitsValue(s) >= 1
    decreases |s|
  {
    if |s| > 1 {
      LeadingNonZeroPositive(s[..|s| - 1]);
    }
  }

  /** Decimal digits without a leading zero are exactly what `toString` writes for their value. */
  lemma {:induction false} DecimalOfValue(s: string)
    requires |s| >= 1 && AllDigits(s) && (|s| > 1 ==> s[0] != '0')
    ensures Decimal(DigitsValue(s)) == s
    decreases |s|
  {
    if |s| > 1 {
      var p := s[..|s| - 1];
      LeadingNonZeroPositive(p);
      DecimalOfValue(p);
      assert s == p + [s[|s| - 1]];
    }
  }

  lemma DecimalFourDigits(n: nat)
    requires 1000 <= n <= 9999
    ensures |Decimal(n)| == 4
  {
    assert |Decimal(n / 1000)| == 1;
    assert n / 10 / 10 == n / 100 && n / 100 / 10 == n / 1000;
    assert |Decimal(n / 100)| == 2;
    assert |Decimal(n / 10)| == 3;
  }

  lemma Pad2Value(n: nat)
    requires n < 100
    ensures DigitsValue(Pad2(n)) == n
  {
    if n >= 10 {
      DecimalValue(n);
    } else {
      var s := Pad2(n);
      assert s[..1] == ['0'] && s[..1][..0] == [];
      assert DigitsValue(s[..1]) == 0;
      assert DigitValue(s[1]) == n;
    }
  }

  lemma Pad2OfValue(s: string)
    requires |s| == 2 && AllDigits(s)
    ensures Pad2(DigitsValue(s)) == s
  {
    if s[0] != '0' {
      DecimalOfValue(s);
    } else {
      assert s[..1] == ['0'] && s[..1][..0] == [];
      assert DigitsValue(s[..1]) == 0;
      assert DigitsValue(s) == DigitValue(s[1]);
      assert Pad2(DigitsValue(s)) == ['0', s[1]];
    }
  }

  /** Any valid date with a four-digit year prints as YYYY-MM-DD and reads back as itself. */
  lemma ParseFormat(d: Date)
    requires IsValid(d) && 1000 <= d.year <= 9999
    ensures HasIsoDateShape(FormatIsoDate(d))
    ensures ParseIsoDate(FormatIsoDate(d)) == Some(d)
  {
    var y, m, dd := Decimal(d.year), Pad2(d.month), Pad2(d.day);
    DecimalFourDigits(d.year);
    var s := FormatIsoDate(d);
    assert s == y + "-" + m + "-" + dd;
    assert s[..4] == y && s[5..7] == m && s[8..] == dd;
    DecimalValue(d.year);
    Pad2Value(d.month);
    Pad2Value(d.day);
  }

  /** Any accepted text whose year has no leading zero is what FormatIsoDate writes for its date. */
  lemma FormatParse(s: string)
    requires ParseIsoDate(s).Some? && s[0] != '0'
    ensures FormatIsoDate(ParseIsoDate(s).value) == s
  {
    var d := ParseIsoDate(s).value;
    DecimalOfValue(s[..4]);
    Pad2OfValue(s[5..7]);
    Pad2OfValue(s[8..]);
    assert s == s[..4] + "-" + s[5..7] + "-" + s[8..];
  }

  lemma DigitsOf01()
    ensures AllDigits("01") && DigitsValue("01") == 1
  {
    assert "01"[..1] == "0" && "0"[..0] == [];
  }

  /**
   * The shorter forms read as the full form with the missing parts set to 01:
   * `YYYY` as `YYYY-01-01` and `YYYY-MM` as `YYYY-MM-01`; any other text as the
   * strict format reads it.
   */
  lemma ParseDateOnlyPads(s: string)
    ensures |s| == 4 ==> ParseDateOnly(s) == ParseIsoDate(s + "-01-01")
    ensures |s| == 7 ==> ParseDateOnly(s) == ParseIsoDate(s + "-01")
    ensures |s| != 4 && |s| != 7 ==> ParseDateOnly(s) == ParseIsoDate(s)
  {
    DigitsOf01();
    if |s| == 4 {
      var t := s + "-01-01";
      assert t[..4] == s && t[5..7] == "01" && t[8..] == "01";
      if IsYearText(s) {
        FourDigitsBound(s);
      }
    } else if |s| == 7 {
      var t := s + "-01";
      assert t[..4] == s[..4] && t[5..7] == s[5..] && t[8..] == "01";
      if IsYearMonth(s) {
        FourDigitsBound(s[..4]);
      }
    }
  }

}
