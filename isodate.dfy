/** The decimal text of JavaScript's `String(n)` for integers, `padStart(2, '0')`,
    and the `year-MM-DD` string the date-picker writes into the booking form's
    date field; with a reader that recovers the three numbers from it. */
module IsoDate {

  datatype Option<T> = None | Some(value: T)

  predicate IsDigit(c: char)
  {
    '0' <= c <= '9'
  }

  predicate AllDigits(s: string)
  {
    forall i :: 0 <= i < |s| ==> IsDigit(s[i])
  }

  function DigitChar(d: int): (c: char)
    requires 0 <= d < 10
    ensures IsDigit(c)
  {
    ('0' as int + d) as char
  }

  function DigitValue(c: char): (d: int)
    requires IsDigit(c)
    ensures 0 <= d < 10
    ensures DigitChar(d) == c
    ensures forall e :: 0 <= e < 10 && DigitChar(e) == c ==> e == d
  {
    c as int - '0' as int
  }

  /** Decimal digits of `n` with no leading zero (`"0"` for zero), as `String(n)`
      gives them for a non-negative integer. */
  function NatToDecimal(n: nat): (s: string)
    ensures 1 <= |s| && AllDigits(s)
    ensures |s| == 1 <==> n < 10
    ensures |s| == 2 <==> 10 <= n < 100
    ensures |s| > 1 ==> s[0] != '0'
    decreases n
  {
    if n < 10 then [DigitChar(n)] else NatToDecimal(n / 10) + [DigitChar(n % 10)]
  }

  /** The number a string of decimal digits denotes (leading zeros allowed). */
  function DecimalValue(s: string): (n: nat)
    requires AllDigits(s)
    decreases |s|
  {
    if s == [] then 0 else 10 * DecimalValue(s[..|s| - 1]) + DigitValue(s[|s| - 1])
  }

  /** `String(y)` for an integer: a minus sign before the digits of a negative one. */
  function IntToDecimal(y: int): (s: string)
    ensures 1 <= |s|
    ensures y >= 0 ==> s == NatToDecimal(y)
    ensures y < 0 ==> s[0] == '-' && s[1..] == NatToDecimal(-y)
  {
    if y < 0 then "-" + NatToDecimal(-y) else NatToDecimal(y)
  }

  /** `s.padStart(2, '0')`: zeros in front until the length is 2; longer strings
      are left alone. */
  function PadStart2(s: string): (r: string)
    ensures |s| >= 2 ==> r == s
    ensures |s| < 2 ==> |r| == 2 && r[2 - |s|..] == s && forall i :: 0 <= i < 2 - |s| ==> r[i] == '0'
    decreases 2 - |s|
  {
    if |s| >= 2 then s else PadStart2("0" + s)
  }

  /** `String(n).padStart(2, '0')` for 0 <= n <= 99: exactly two digits. */
  function TwoDigits(n: int): (s: string)
    requires 0 <= n < 100
    ensures |s| == 2 && AllDigits(s)
  {
    PadStart2(NatToDecimal(n))
  }

  /** The date field's value: `${year}-${MM}-${DD}`, month (1..12) and day
      (1..31) zero-padded to two digits, the year as `String` prints it. */
  function FormatDate(year: int, month: int, day: int): (s: string)
    requires 1 <= month <= 12 && 1 <= day <= 31
    ensures |s| == |IntToDecimal(year)| + 6
    ensures s[|s| - 6] == '-' && s[|s| - 3] == '-'
    ensures AllDigits(s[|s| - 5..|s| - 3]) && AllDigits(s[|s| - 2..])
  {
    IntToDecimal(year) + "-" + TwoDigits(month) + "-" + TwoDigits(day)
  }

  /** Reads back an optional minus sign followed by at least one digit. */
  function ParseInt(s: string): Option<int>
  {
    if |s| >= 2 && s[0] == '-' && AllDigits(s[1..]) then Some(0 - DecimalValue(s[1..]) as int)
    else if |s| >= 1 && AllDigits(s) then Some(DecimalValue(s))
    else None
  }

  /** Reads `<year>-MM-DD`, splitting at the last six characters. */
  function ParseDate(s: string): Option<(int, int, int)>
  {
    if |s| < 7 || s[|s| - 6] != '-' || s[|s| - 3] != '-' then None
    else
      var ms, ds := s[|s| - 5..|s| - 3], s[|s| - 2..];
      if !AllDigits(ms) || !AllDigits(ds) then None
      else match ParseInt(s[..|s| - 6])
        case None => None
        case Some(y) => Some((y, DecimalValue(ms), DecimalValue(ds)))
  }

  /** The ISO 8601 calendar date in extended format, which is also `full-date`
      of section 5.6 of RFC 3339: four-digit year, two-digit month 01..12 and
      two-digit day 01..31, separated by hyphens. */
  predicate IsFullDate(s: string)
  {
    |s| == 10 && AllDigits(s[..4]) && s[4] == '-' && AllDigits(s[5..7]) && s[7] == '-'
    && AllDigits(s[8..])
    && 1 <= DecimalValue(s[5..7]) <= 12 && 1 <= DecimalValue(s[8..]) <= 31
  }

  // ---------------------------------------------------------------------------
  // Lemmas

  lemma DecimalValueSnoc(s: string, c: char)
    requires AllDigits(s) && IsDigit(c)
    ensures AllDigits(s + [c]) && DecimalValue(s + [c]) == 10 * DecimalValue(s) + DigitValue(c)
  {
    assert (s + [c])[..|s + [c]| - 1] == s;
  }

  /** Reading the digits of `n` gives `n` back. */
  lemma {:induction false} DecimalRoundTrip(n: nat)
    ensures DecimalValue(NatToDecimal(n)) == n
    decreases n
  {
    if n >= 10 {
      DecimalRoundTrip(n / 10);
      DecimalValueSnoc(NatToDecimal(n / 10), DigitChar(n % 10));
    }
  }

  /** Leading zeros do not change the value. */
  lemma LeadingZero(s: string)
    requires AllDigits(s)
    ensures AllDigits("0" + s) && DecimalValue("0" + s) == DecimalValue(s)
    decreases |s|
  {
    if s != [] {
      var t := s[..|s| - 1];
      assert ("0" + s)[..|"0" + s| - 1] == "0" + t;
      LeadingZero(t);
    }
  }

  /** Zero padding keeps the value. */
  lemma {:induction false} PadKeepsValue(s: string)
    requires AllDigits(s)
    ensures AllDigits(PadStart2(s)) && DecimalValue(PadStart2(s)) == DecimalValue(s)
    decreases 2 - |s|
  {
    if |s| < 2 {
      LeadingZero(s);
      PadKeepsValue("0" + s);
    }
  }

  /** The two-digit field denotes the number it was made from. */
  lemma TwoDigitsValue(n: int)
    requires 0 <= n < 100
    ensures DecimalValue(TwoDigits(n)) == n
  {
    DecimalRoundTrip(n);
    PadKeepsValue(NatToDecimal(n));
  }

  lemma ParseUnsigned(t: string)
    requires 1 <= |t| && AllDigits(t)
    ensures ParseInt(t) == Some(DecimalValue(t) as int)
  {
    assert IsDigit(t[0]);
  }

  lemma ParseNegative(t: string)
    requires 1 <= |t| && AllDigits(t)
    ensures ParseInt("-" + t) == Some(0 - DecimalValue(t) as int)
  {
    assert ("-" + t)[1..] == t;
  }

  /** The year prefix reads back as the year. */
  lemma IntRoundTrip(y: int)
    ensures ParseInt(IntToDecimal(y)) == Some(y)
  {
    if y < 0 {
      var t := NatToDecimal(-y);
      DecimalRoundTrip(-y);
      ParseNegative(t);
      assert IntToDecimal(y) == "-" + t;
      assert ParseInt(IntToDecimal(y)) == Some(0 - DecimalValue(t) as int);
      assert 0 - DecimalValue(t) as int == y;
      assert Some(0 - DecimalValue(t) as int) == Some(y);
    } else {
      var t := NatToDecimal(y);
      DecimalRoundTrip(y);
      ParseUnsigned(t);
      assert IntToDecimal(y) == t;
      assert ParseInt(IntToDecimal(y)) == Some(DecimalValue(t) as int);
      assert DecimalValue(t) as int == y;
      assert Some(DecimalValue(t) as int) == Some(y);
    }
  }

  /** Where the three fields sit in `<year>-MM-DD`. */
  lemma Fields(ys: string, ms: string, ds: string)
    requires |ms| == 2 && |ds| == 2
    ensures var s := ys + "-" + ms + "-" + ds;
      |s| == |ys| + 6 && s[|s| - 6] == '-' && s[|s| - 3] == '-'
      && s[..|s| - 6] == ys && s[|s| - 5..|s| - 3] == ms && s[|s| - 2..] == ds
  {
  }

  /** Reading `<year>-MM-DD` built from digit fields gives the fields' values. */
  lemma ParseFields(ys: string, ms: string, ds: string)
    requires |ms| == 2 && |ds| == 2 && AllDigits(ms) && AllDigits(ds)
    requires ParseInt(ys).Some?
    ensures ParseDate(ys + "-" + ms + "-" + ds)
              == Some((ParseInt(ys).value, DecimalValue(ms), DecimalValue(ds)))
  {
    Fields(ys, ms, ds);
  }

  /** The date string is unambiguous: reading it gives back the year, month
      and day it was made from. */
  lemma FormatRoundTrip(year: int, month: int, day: int)
    requires 1 <= month <= 12 && 1 <= day <= 31
    ensures ParseDate(FormatDate(year, month, day)) == Some((year, month, day))
  {
    var ys, ms, ds := IntToDecimal(year), TwoDigits(month), TwoDigits(day);
    IntRoundTrip(year);
    TwoDigitsValue(month);
    TwoDigitsValue(day);
    ParseFields(ys, ms, ds);
  }

  /** So two different dates never produce the same string. */
  lemma FormatInjective(y1: int, m1: int, d1: int, y2: int, m2: int, d2: int)
    requires 1 <= m1 <= 12 && 1 <= d1 <= 31 && 1 <= m2 <= 12 && 1 <= d2 <= 31
    requires FormatDate(y1, m1, d1) == FormatDate(y2, m2, d2)
    ensures y1 == y2 && m1 == m2 && d1 == d2
  {
    FormatRoundTrip(y1, m1, d1);
    FormatRoundTrip(y2, m2, d2);
  }

  /** `String(n)` has four digits exactly for 1000..9999. */
  lemma FourDigits(n: nat)
    ensures |NatToDecimal(n)| == 4 <==> 1000 <= n <= 9999
  {
    if n >= 100 {
      assert |NatToDecimal(n)| == |NatToDecimal(n / 10)| + 1;
      assert |NatToDecimal(n / 10)| == |NatToDecimal(n / 100)| + 1;
    }
  }

  /** For four-digit years the string is an RFC 3339 `full-date`. */
  lemma FourDigitYearIsFullDate(year: int, month: int, day: int)
    requires 1000 <= year <= 9999 && 1 <= month <= 12 && 1 <= day <= 31
    ensures IsFullDate(FormatDate(year, month, day))
  {
    var ys, ms, ds := IntToDecimal(year), TwoDigits(month), TwoDigits(day);
    FourDigits(year);
    assert |ys| == 4;
    Fields(ys, ms, ds);
    TwoDigitsValue(month);
    TwoDigitsValue(day);
  }

  /** And only for those: any other year, negative ones included, gives a
      string that is not a `full-date` (too short, too long, or with a minus
      sign where the year's first digit belongs). */
  lemma FullDateIffFourDigitYear(year: int, month: int, day: int)
    requires 1 <= month <= 12 && 1 <= day <= 31
    ensures IsFullDate(FormatDate(year, month, day)) <==> 1000 <= year <= 9999
  {
    var ys, ms, ds := IntToDecimal(year), TwoDigits(month), TwoDigits(day);
    var s := FormatDate(year, month, day);
    if 1000 <= year <= 9999 {
      FourDigitYearIsFullDate(year, month, day);
    } else if year >= 0 {
      FourDigits(year);
      assert |ys| != 4;
    } else {
      assert s[0] == ys[0] == '-';
      assert !IsDigit(s[..4][0]);
    }
  }

  /** The year is not padded: year 999 gives a string shorter than a
      `full-date`. */
  lemma ShortYearIsNotFullDate()
    ensures FormatDate(999, 1, 5) == "999-01-05"
    ensures !IsFullDate(FormatDate(999, 1, 5))
  {
  }

  /** A negative year is written with its minus sign: year -1000 gives a string
      longer than a `full-date`. */
  lemma NegativeYearIsLonger()
    ensures FormatDate(-1000, 1, 1) == "-1000-01-01"
    ensures |FormatDate(-1000, 1, 1)| == 11
  {
  }

  /** The example of selecting the 15th of March 2025. */
  lemma FormatExample()
    ensures FormatDate(2025, 3, 15) == "2025-03-15"
  {
  }
}
