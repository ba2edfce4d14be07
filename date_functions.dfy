/**
 * Month navigation on reduced-precision calendar dates `YYYY-MM` (a specific
 * month, section 4.1.2.3 of ISO 8601:2004): the Portuguese month names, the
 * fixed "today", the header title of a month, and month arithmetic with year
 * carry and borrow.
 */
module DateFunctions {
  import opened Wrappers
  import opened Gregorian
  import opened IsoDates

  const MONTHS: seq<string> := [
    "Janeiro", "Fevereiro", "Mar√ßo", "Abril", "Maio", "Junho",
    "Julho", "Agosto", "Setembro", "Outubro", "Novembro", "Dezembro"
  ]

  /** The application's fixed "today". */
  function GetToday(): (t: string)
    ensures |t| == 10
  {
    "2021-06-17"
  }

  // ---------------------------------------------------------------------------
  // The JavaScript string operations `formatMonth` relies on

  /** `s.split(sep)` for a one-character separator. */
  function Split(s: string, sep: char): (parts: seq<string>)
    ensures |parts| >= 1
    ensures forall i :: 0 <= i < |parts| ==> sep !in parts[i]
    decreases |s|
  {
    if |s| == 0 then [""]
    else if s[0] == sep then [""] + Split(s[1..], sep)
    else
      var rest := Split(s[1..], sep);
      [[s[0]] + rest[0]] + rest[1..]
  }

  /** `parts.join(sep)`: the inverse of Split (see SplitJoin). */
  function Join(parts: seq<string>, sep: char): string
    requires |parts| >= 1
  {
    if |parts| == 1 then parts[0] else parts[0] + [sep] + Join(parts[1..], sep)
  }

  /** The characters `parseInt` skips before the number: StrWhiteSpaceChar of ECMA-262. */
  predicate IsJsWhiteSpace(c: char) {
    c == '\t' || c == '\n' || c == '\U{000B}' || c == '\U{000C}' || c == '\r' || c == ' '
    || c == '\U{00A0}' || c == '\U{1680}' || '\U{2000}' <= c <= '\U{200A}'
    || c == '\U{2028}' || c == '\U{2029}' || c == '\U{202F}' || c == '\U{205F}'
    || c == '\U{3000}' || c == '\U{FEFF}'
  }

  function TrimStart(s: string): (t: string)
    ensures |t| <= |s|
    ensures |t| > 0 ==> !IsJsWhiteSpace(t[0])
    decreases |s|
  {
    if |s| > 0 && IsJsWhiteSpace(s[0]) then TrimStart(s[1..]) else s
  }

  predicate IsHexDigit(c: char) {
    IsDigit(c) || 'a' <= c <= 'f' || 'A' <= c <= 'F'
  }

  function HexDigitValue(c: char): (n: nat)
    requires IsHexDigit(c)
    ensures n < 16
  {
    if IsDigit(c) then DigitValue(c)
    else if 'a' <= c <= 'f' then (c as int - 'a' as int + 10) as nat
    else (c as int - 'A' as int + 10) as nat
  }

  function HexValue(s: string): nat
    requires forall i :: 0 <= i < |s| ==> IsHexDigit(s[i])
  {
    if s == [] then 0 else 16 * HexValue(s[..|s| - 1]) + HexDigitValue(s[|s| - 1])
  }

  /** The longest run of decimal digits at the start of `s`. */
  function DigitPrefix(s: string): (t: string)
    ensures t <= s && AllDigits(t)
    ensures |t| < |s| ==> !IsDigit(s[|t|])
    decreases |s|
  {
    if |s| > 0 && IsDigit(s[0]) then [s[0]] + DigitPrefix(s[1..]) else []
  }

  /** The longest run of hexadecimal digits at the start of `s`. */
  function HexPrefix(s: string): (t: string)
    ensures t <= s && (forall i :: 0 <= i < |t| ==> IsHexDigit(t[i]))
    ensures |t| < |s| ==> !IsHexDigit(s[|t|])
    decreases |s|
  {
    if |s| > 0 && IsHexDigit(s[0]) then [s[0]] + HexPrefix(s[1..]) else []
  }

  function Signed(negative: bool, v: nat): (i: int)
    ensures negative ==> i == -(v as int)
    ensures !negative ==> i == v
  {
    if negative then -(v as int) else v
  }

  /**
   * `parseInt(s)` with no radix; None stands for NaN. Leading white space and
   * one sign are skipped, a `0x`/`0X` prefix selects base 16, and the longest
   * run of digits that follows is read; no digit at all gives NaN.
   */
  function ParseInt(s: string): Option<int> {
    var t := TrimStart(s);
    var negative := |t| > 0 && t[0] == '-';
    var u := if |t| > 0 && (t[0] == '-' || t[0] == '+') then t[1..] else t;
    if |u| >= 2 && u[0] == '0' && (u[1] == 'x' || u[1] == 'X') then
      var h := HexPrefix(u[2..]);
      if h == [] then None else Some(Signed(negative, HexValue(h)))
    else
      var d := DigitPrefix(u);
      if d == [] then None else Some(Signed(negative, DigitsValue(d)))
  }

  // ---------------------------------------------------------------------------
  // formatMonth

  /** `MONTHS[k]`, which is `undefined` (written out as such) outside 0..11 or for NaN. */
  function MonthNameText(k: Option<int>): (name: string)
    ensures k.Some? && 0 <= k.value < 12 ==> name == MONTHS[k.value]
    ensures !(k.Some? && 0 <= k.value < 12) ==> name == "undefined"
  {
    if k.Some? && 0 <= k.value < 12 then MONTHS[k.value] else "undefined"
  }

  /**
   * `${MONTHS[parseInt(month) - 1]} de ${year}` where `[year, month]` are the
   * first two fields of `isoMonth.split("-")`; a missing month field is
   * `undefined`, which `parseInt` reads as NaN.
   */
  function FormatMonth(isoMonth: string): string {
    var parts := Split(isoMonth, '-');
    var index := if |parts| > 1 then ParseInt(parts[1]) else None;
    var k := if index.Some? then Some(index.value - 1) else None;
    MonthNameText(k) + " de " + parts[0]
  }

  // ---------------------------------------------------------------------------
  // addMonths

  /** The template `${year}-${month.toString().padStart(2, "0")}`. */
  function FormatYearMonth(y: int, m: int): (r: string)
    requires 1 <= m <= 12
  {
    IntToDecimal(y) + "-" + Pad2(m)
  }

  /**
   * The (year, month) `new Date(s + "-01T12:00:00")` reads, or None for an
   * Invalid Date. A bare year `YYYY` makes the text `YYYY-01`, which reads as
   * January of that year.
   */
  function ParseYearMonth(s: string): (r: Option<(int, int)>)
    ensures r.Some? ==> 1 <= r.value.1 <= 12
  {
    match ParseDateOnly(s + "-01")
    case None => None
    case Some(d) => Some((d.year, d.month))
  }

  /**
   * `setMonth(getMonth() + k)` on the 1st of a month: the (year, month) whose
   * month index year * 12 + (month - 1) is k more.
   */
  function ShiftMonth(y: int, m: int, k: int): (ym: (int, int))
    requires 1 <= m <= 12
    ensures 1 <= ym.1 <= 12
    ensures ym.0 * 12 + (ym.1 - 1) == y * 12 + (m - 1) + k
  {
    var total := y * 12 + (m - 1) + k;
    (total / 12, total % 12 + 1)
  }

  /**
   * `addMonths(month, increment)`: parse `month + "-01"` as a date, move it by
   * `increment` months, and print year and month. The day is the 1st, so
   * moving never overflows the target month. An unparsable month gives an
   * Invalid Date, whose year and month print as "NaN".
   */
  function AddMonths(month: string, increment: int): string {
    var ym := ParseYearMonth(month);
    if ym.None? then "NaN-NaN"
    else
      var r := ShiftMonth(ym.value.0, ym.value.1, increment);
      FormatYearMonth(r.0, r.1)
  }

  // ---------------------------------------------------------------------------
  // Lemmas

  lemma MonthsHasTwelveNames()
    ensures |MONTHS| == 12
    ensures MONTHS[0] == "Janeiro" && MONTHS[5] == "Junho" && MONTHS[11] == "Dezembro"
  {
  }

  /** `split` then `join` gives the string back. */
  lemma {:induction false} SplitJoin(s: string, sep: char)
    ensures Join(Split(s, sep), sep) == s
    decreases |s|
  {
    if |s| > 0 {
      SplitJoin(s[1..], sep);
      var rest := Split(s[1..], sep);
      if s[0] == sep {
        assert Split(s, sep)[1..] == rest;
      } else if |rest| > 1 {
        assert Split(s, sep)[1..] == rest[1..];
      }
    }
  }

  /** A field without the separator, then the separator, splits off as the first part. */
  lemma {:induction false} SplitFirstField(a: string, sep: char, b: string)
    requires sep !in a
    ensures Split(a + [sep] + b, sep) == [a] + Split(b, sep)
    decreases |a|
  {
    if |a| > 0 {
      assert (a + [sep] + b)[1..] == a[1..] + [sep] + b;
      SplitFirstField(a[1..], sep, b);
      assert [a[0]] + a[1..] == a;
    } else {
      assert a + [sep] + b == [sep] + b;
    }
  }

  lemma {:induction false} SplitNoSeparator(s: string, sep: char)
    requires sep !in s
    ensures Split(s, sep) == [s]
    decreases |s|
  {
    if |s| > 0 {
      SplitNoSeparator(s[1..], sep);
      assert [s[0]] + s[1..] == s;
    }
  }

  lemma {:induction false} DigitPrefixAllDigits(s: string)
    requires AllDigits(s)
    ensures DigitPrefix(s) == s
    decreases |s|
  {
    if |s| > 0 {
      DigitPrefixAllDigits(s[1..]);
      assert [s[0]] + s[1..] == s;
    }
  }

  lemma TrimStartDigits(s: string)
    requires |s| >= 1 && AllDigits(s)
    ensures TrimStart(s) == s
  {
    assert IsDigit(s[0]);
  }

  /** `parseInt` reads a plain digit string as its decimal value. */
  lemma ParseIntDigits(s: string)
    requires |s| >= 1 && AllDigits(s)
    ensures ParseInt(s) == Some(DigitsValue(s))
  {
    TrimStartDigits(s);
    var t := TrimStart(s);
    assert IsDigit(s[0]);
    assert t[0] != '-' && t[0] != '+';
    assert !(|s| >= 2 && s[0] == '0' && (s[1] == 'x' || s[1] == 'X')) by {
      assert |s| >= 2 ==> IsDigit(s[1]);
    }
    DigitPrefixAllDigits(s);
  }
  /** `parseInt` reads back every integer that `toString` prints, negative ones included. */
  lemma ParseIntOfDecimal(i: int)
    ensures ParseInt(IntToDecimal(i)) == Some(i)
  {
    var s := IntToDecimal(i);
    IntToDecimalValue(i);
    if i < 0 {
      var d := s[1..];
      assert TrimStart(s) == s;
      DigitPrefixAllDigits(d);
      assert IsDigit(d[0]);
    } else {
      ParseIntDigits(s);
    }
  }


  /** The header title of a well-formed `YYYY-MM` is the month's name, " de ", and the year as written. */
  lemma FormatMonthOfYearMonth(s: string)
    requires IsYearMonth(s)
    ensures FormatMonth(s) == MONTHS[MonthOf(s) - 1] + " de " + s[..4]
  {
    assert s == s[..4] + ['-'] + s[5..];
    assert '-' !in s[..4] by {
      forall i | 0 <= i < 4 ensures s[..4][i] != '-' { assert IsDigit(s[..4][i]); }
    }
    assert '-' !in s[5..] by {
      forall i | 0 <= i < 2 ensures s[5..][i] != '-' { assert IsDigit(s[5..][i]); }
    }
    SplitFirstField(s[..4], '-', s[5..]);
    SplitNoSeparator(s[5..], '-');
    ParseIntDigits(s[5..]);
  }

  /** The title of any month `addMonths` can print for a non-negative year. */
  lemma FormatMonthOfFormatted(y: int, m: int)
    requires 0 <= y && 1 <= m <= 12
    ensures FormatMonth(FormatYearMonth(y, m)) == MONTHS[m - 1] + " de " + IntToDecimal(y)
  {
    var ys, ms := IntToDecimal(y), Pad2(m);
    assert '-' !in ys by {
      forall i | 0 <= i < |ys| ensures ys[i] != '-' { assert IsDigit(ys[i]); }
    }
    assert '-' !in ms by {
      forall i | 0 <= i < |ms| ensures ms[i] != '-' { assert IsDigit(ms[i]); }
    }
    assert FormatYearMonth(y, m) == ys + ['-'] + ms;
    SplitFirstField(ys, '-', ms);
    SplitNoSeparator(ms, '-');
    assert Split(FormatYearMonth(y, m), '-') == [ys, ms];
    ParseIntDigits(ms);
    Pad2Value(m);
    assert ParseInt(ms) == Some(m);
  }

  /**
   * Appending "-01" gives a date `new Date` accepts exactly when the text is a
   * well-formed month or a bare year, and a bare year reads as January.
   */
  lemma ParseYearMonthExactly(s: string)
    ensures ParseYearMonth(s).Some? <==> IsYearMonth(s) || IsYearText(s)
    ensures IsYearMonth(s) ==> ParseYearMonth(s) == Some((YearOf(s), MonthOf(s)))
    ensures IsYearText(s) ==> ParseYearMonth(s) == Some((DigitsValue(s), 1))
  {
    var t := s + "-01";
    DigitsOf01();
    if |s| == 7 {
      assert t[..4] == s[..4] && t[5..7] == s[5..] && t[4] == s[4];
      assert t[8..] == "01";
    } else if |s| == 4 {
      assert t[..4] == s && t[5..] == "01";
    } else if |s| == 1 {
      assert !IsDigit(t[1]);
    }
  }

  /**
   * Whatever the increment, a well-formed month or a bare year gives a hyphen
   * and a two-digit month in 01..12 after the year; anything else gives
   * "NaN-NaN".
   */
  lemma AddMonthsShape(s: string, increment: int)
    ensures !(IsYearMonth(s) || IsYearText(s)) ==> AddMonths(s, increment) == "NaN-NaN"
    ensures IsYearMonth(s) || IsYearText(s) ==>
      var r := AddMonths(s, increment);
      |r| >= 4 && r[|r| - 3] == '-' && AllDigits(r[|r| - 2..]) &&
      1 <= DigitsValue(r[|r| - 2..]) <= 12
  {
    ParseYearMonthExactly(s);
    if IsYearMonth(s) || IsYearText(s) {
      var p := ParseYearMonth(s).value;
      var ym := ShiftMonth(p.0, p.1, increment);
      Pad2Value(ym.1);
      var r := FormatYearMonth(ym.0, ym.1);
      assert r[|r| - 2..] == Pad2(ym.1);
    }
  }

  /** A bare year is January of that year: `addMonths("2021", k)` is `addMonths("2021-01", k)`. */
  lemma AddMonthsBareYear(s: string, increment: int)
    requires IsYearText(s)
    ensures AddMonths(s, increment) == AddMonths(s + "-01", increment)
  {
    var t := s + "-01";
    ParseYearMonthExactly(s);
    ParseYearMonthExactly(t);
    DigitsOf01();
    assert t[..4] == s && t[5..] == "01";
  }

  /** Printing a four-digit year and a month, then reading it back, gives them back. */
  lemma YearMonthRoundTrip(y: int, m: int)
    requires 1000 <= y <= 9999 && 1 <= m <= 12
    ensures IsYearMonth(FormatYearMonth(y, m))
    ensures YearOf(FormatYearMonth(y, m)) == y && MonthOf(FormatYearMonth(y, m)) == m
  {
    var s := FormatYearMonth(y, m);
    DecimalFourDigits(y);
    DecimalValue(y);
    Pad2Value(m);
    assert s[..4] == Decimal(y) && s[5..] == Pad2(m);
  }

  /** A well-formed month whose year has no leading zero prints back as itself. */
  lemma YearMonthPrintsBack(s: string)
    requires IsYearMonth(s) && s[0] != '0'
    ensures FormatYearMonth(YearOf(s), MonthOf(s)) == s
  {
    DecimalOfValue(s[..4]);
    Pad2OfValue(s[5..]);
    assert s == s[..4] + "-" + s[5..];
  }

  /**
   * `addMonths` is month arithmetic on the month index year * 12 + (month - 1):
   * its result is the one (year, month) whose index is `increment` more.
   * December + 1 carries into January of the next year; January - 1 borrows
   * December of the previous one.
   */
  lemma AddMonthsByMonthIndex(s: string, increment: int, y: int, m: int)
    requires IsYearMonth(s) && 1 <= m <= 12
    requires y * 12 + (m - 1) == YearOf(s) * 12 + (MonthOf(s) - 1) + increment
    ensures AddMonths(s, increment) == FormatYearMonth(y, m)
  {
    ParseYearMonthExactly(s);
    var r := ShiftMonth(YearOf(s), MonthOf(s), increment);
    MonthIndexUnique(r.0, r.1, y, m);
  }

  /** Two (year, month) pairs with the same month index are the same pair. */
  lemma MonthIndexUnique(y1: int, m1: int, y2: int, m2: int)
    requires 1 <= m1 <= 12 && 1 <= m2 <= 12
    requires y1 * 12 + (m1 - 1) == y2 * 12 + (m2 - 1)
    ensures y1 == y2 && m1 == m2
  {
  }

  lemma DecemberCarries(y: int)
    requires 1000 <= y <= 9999
    ensures AddMonths(FormatYearMonth(y, 12), 1) == FormatYearMonth(y + 1, 1)
  {
    YearMonthRoundTrip(y, 12);
    AddMonthsByMonthIndex(FormatYearMonth(y, 12), 1, y + 1, 1);
  }

  lemma JanuaryBorrows(y: int)
    requires 1000 <= y <= 9999
    ensures AddMonths(FormatYearMonth(y, 1), -1) == FormatYearMonth(y - 1, 12)
  {
    YearMonthRoundTrip(y, 1);
    AddMonthsByMonthIndex(FormatYearMonth(y, 1), -1, y - 1, 12);
  }

  /** A well-formed month moves to the (year, month) ShiftMonth names. */
  lemma AddMonthsIsShiftMonth(s: string, k: int)
    requires IsYearMonth(s)
    ensures AddMonths(s, k) == FormatYearMonth(ShiftMonth(YearOf(s), MonthOf(s), k).0, ShiftMonth(YearOf(s), MonthOf(s), k).1)
  {
    ParseYearMonthExactly(s);
  }

  lemma ShiftMonthCompose(y: int, m: int, a: int, b: int)
    requires 1 <= m <= 12
    ensures var ym := ShiftMonth(y, m, a);
      ShiftMonth(ym.0, ym.1, b) == ShiftMonth(y, m, a + b)
  {
    var ym := ShiftMonth(y, m, a);
    var r1, r2 := ShiftMonth(ym.0, ym.1, b), ShiftMonth(y, m, a + b);
    MonthIndexUnique(r1.0, r1.1, r2.0, r2.1);
  }

  /** A printed month with a four-digit year moves like the (year, month) it was printed from. */
  lemma AddMonthsOfFormatted(y: int, m: int, k: int)
    requires 1000 <= y <= 9999 && 1 <= m <= 12
    ensures AddMonths(FormatYearMonth(y, m), k) == FormatYearMonth(ShiftMonth(y, m, k).0, ShiftMonth(y, m, k).1)
  {
    YearMonthRoundTrip(y, m);
    AddMonthsIsShiftMonth(FormatYearMonth(y, m), k);
  }

  /** Moving by a then by b is moving by a + b, while the intermediate year stays four digits. */
  lemma AddMonthsCompose(s: string, a: int, b: int)
    requires IsYearMonth(s)
    requires 1000 <= ShiftMonth(YearOf(s), MonthOf(s), a).0 <= 9999
    ensures AddMonths(AddMonths(s, a), b) == AddMonths(s, a + b)
  {
    var y, m := YearOf(s), MonthOf(s);
    var ym := ShiftMonth(y, m, a);
    var c := ShiftMonth(ym.0, ym.1, b);
    var t := FormatYearMonth(ym.0, ym.1);
    AddMonthsIsShiftMonth(s, a);
    assert AddMonths(s, a) == t;
    AddMonthsOfFormatted(ym.0, ym.1, b);
    assert AddMonths(t, b) == FormatYearMonth(c.0, c.1);
    ShiftMonthCompose(y, m, a, b);
    assert c == ShiftMonth(y, m, a + b);
    AddMonthsIsShiftMonth(s, a + b);
  }


  /** Moving by zero months prints a well-formed month back unchanged. */
  lemma AddMonthsZero(s: string)
    requires IsYearMonth(s) && s[0] != '0'
    ensures AddMonths(s, 0) == s
  {
    AddMonthsIsShiftMonth(s, 0);
    var ym := ShiftMonth(YearOf(s), MonthOf(s), 0);
    MonthIndexUnique(ym.0, ym.1, YearOf(s), MonthOf(s));
    YearMonthPrintsBack(s);
  }

  /** One month on from a four-digit month other than 9999-12 stays four digits and changes the month. */
  lemma NextMonthInRange(s: string)
    requires IsYearMonth(s) && s[0] != '0'
    requires !(YearOf(s) == 9999 && MonthOf(s) == 12)
    ensures 1000 <= ShiftMonth(YearOf(s), MonthOf(s), 1).0 <= 9999
    ensures ShiftMonth(YearOf(s), MonthOf(s), 1).1 != MonthOf(s)
  {
    ThousandsDigit(s[..4]);
    FourDigitsBound(s[..4]);
    var ym := ShiftMonth(YearOf(s), MonthOf(s), 1);
    var nm := NextMonth(YearOf(s), MonthOf(s));
    MonthIndexUnique(ym.0, ym.1, nm.0, nm.1);
  }

  /** One month back from a four-digit month other than 1000-01 stays four digits. */
  lemma PreviousMonthInRange(s: string)
    requires IsYearMonth(s) && s[0] != '0'
    requires !(YearOf(s) == 1000 && MonthOf(s) == 1)
    ensures 1000 <= ShiftMonth(YearOf(s), MonthOf(s), -1).0 <= 9999
  {
    ThousandsDigit(s[..4]);
    FourDigitsBound(s[..4]);
    var ym := ShiftMonth(YearOf(s), MonthOf(s), -1);
    var pm := PrevMonth(YearOf(s), MonthOf(s));
    MonthIndexUnique(ym.0, ym.1, pm.0, pm.1);
  }

  /** The header's "next" then "previous" links lead back to the month shown. */
  lemma NextThenPreviousIsIdentity(s: string)
    requires IsYearMonth(s) && s[0] != '0'
    requires !(YearOf(s) == 9999 && MonthOf(s) == 12)
    ensures AddMonths(AddMonths(s, 1), -1) == s
  {
    NextMonthInRange(s);
    AddMonthsCompose(s, 1, -1);
    AddMonthsZero(s);
  }

  /** The "next" link always leads to another month. */
  lemma NextMonthDiffers(s: string)
    requires IsYearMonth(s) && s[0] != '0'
    requires !(YearOf(s) == 9999 && MonthOf(s) == 12)
    ensures AddMonths(s, 1) != s
  {
    NextMonthInRange(s);
    var ym := ShiftMonth(YearOf(s), MonthOf(s), 1);
    AddMonthsIsShiftMonth(s, 1);
    YearMonthRoundTrip(ym.0, ym.1);
  }

  /** And "previous" then "next" lead back too. */
  lemma PreviousThenNextIsIdentity(s: string)
    requires IsYearMonth(s) && s[0] != '0'
    requires !(YearOf(s) == 1000 && MonthOf(s) == 1)
    ensures AddMonths(AddMonths(s, -1), 1) == s
  {
    PreviousMonthInRange(s);
    AddMonthsCompose(s, -1, 1);
    AddMonthsZero(s);
  }

  lemma ThousandsDigit(s: string)
    requires |s| == 4 && AllDigits(s) && s[0] != '0'
    ensures DigitsValue(s) >= 1000
  {
    assert s[..1][..0] == [] && s[..2][..1] == s[..1] && s[..3][..2] == s[..2] && s[..4] == s;
    assert DigitsValue(s[..1]) >= 1;
    assert DigitsValue(s[..2]) >= 10;
    assert DigitsValue(s[..3]) >= 100;
  }

  lemma DigitsOf2021()
    ensures AllDigits("2021") && DigitsValue("2021") == 2021
  {
    assert "2021"[..3] == "202" && "202"[..2] == "20" && "20"[..1] == "2" && "2"[..0] == [];
  }

  /** The URL month "2021" reads as January 2021. */
  lemma BareYear2021IsJanuary()
    ensures ParseYearMonth("2021") == Some((2021, 1))
  {
    DigitsOf2021();
    ParseYearMonthExactly("2021");
  }

  /** "Today" is a valid calendar date. */
  lemma TodayParses()
    ensures ParseIsoDate(GetToday()) == Some(Date(2021, 6, 17))
  {
    var t := GetToday();
    assert t[..4] == "2021" && t[5..7] == "06" && t[8..] == "17";
    DigitsOf2021();
    assert DigitsValue("06") == 6 by { assert "06"[..1] == "0" && "0"[..0] == []; }
    assert DigitsValue("17") == 17 by { assert "17"[..1] == "1" && "1"[..0] == []; }
    assert HasIsoDateShape(t);
    assert Date(DigitsValue(t[..4]), DigitsValue(t[5..7]), DigitsValue(t[8..])) == Date(2021, 6, 17);
    assert IsValid(Date(2021, 6, 17)) by { assert DaysInMonth(2021, 6) == 30; }
  }

  /** The first seven characters of "today" are a well-formed month, June 2021. */
  lemma TodayMonthIsWellFormed()
    ensures GetToday()[..7] == "2021-06"
    ensures IsYearMonth("2021-06") && YearOf("2021-06") == 2021 && MonthOf("2021-06") == 6
  {
    var s := "2021-06";
    assert s[..4] == "2021" && s[5..] == "06";
    DigitsOf2021();
    assert DigitsValue("06") == 6 by { assert "06"[..1] == "0" && "0"[..0] == []; }
  }

  /** The header title for today's month: June ("Junho", see MonthsHasTwelveNames) of 2021. */
  lemma TodayTitle()
    ensures FormatMonth(GetToday()[..7]) == MONTHS[5] + " de " + "2021"
  {
    TodayMonthIsWellFormed();
    FormatMonthOfYearMonth("2021-06");
    assert "2021-06"[..4] == "2021";
  }

  /** The "next" link from today's month. */
  lemma TodayNextMonth()
    ensures AddMonths(GetToday()[..7], 1) == "2021-07"
  {
    TodayMonthIsWellFormed();
    AddMonthsByMonthIndex("2021-06", 1, 2021, 7);
    DigitsOf2021();
    DecimalOfValue("2021");
    assert FormatYearMonth(2021, 7) == "2021" + "-" + "07";
  }
}
