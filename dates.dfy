/**
 * Calendar days and their `YYYY-MM-DD` keys.
 *
 * A day is a count of days since 1970-01-01 (negative before it); an
 * instant is a count of milliseconds since 1970-01-01T00:00:00Z. A key is
 * the date part of `Date.prototype.toISOString()`, i.e. the UTC calendar
 * date of the instant in the proleptic Gregorian calendar.
 */
module Dates {
  import opened Wrappers

  type Day = int
  type Instant = int

  const MsPerDay: int := 86_400_000

  /** The UTC day an instant falls on (JavaScript dates count milliseconds; the key drops the time of day). */
  function UtcDay(t: Instant): (d: Day)
    ensures d * MsPerDay <= t < d * MsPerDay + MsPerDay
  {
    t / MsPerDay
  }

  /** Midnight UTC of day `d` falls on day `d`. */
  lemma UtcDayOfMidnight(d: Day)
    ensures UtcDay(d * MsPerDay) == d
  {
  }

  // ---------------------------------------------------------------------
  // The proleptic Gregorian calendar

  datatype Civil = Civil(year: int, month: int, day: int)

  predicate IsLeapYear(y: int) {
    y % 4 == 0 && (y % 100 != 0 || y % 400 == 0)
  }

  function DaysInMonth(y: int, m: int): (n: int)
    requires 1 <= m <= 12
    ensures 28 <= n <= 31
    ensures n == 29 <==> m == 2 && IsLeapYear(y)
  {
    if m == 2 then (if IsLeapYear(y) then 29 else 28)
    else if m == 4 || m == 6 || m == 9 || m == 11 then 30
    else 31
  }

  predicate ValidCivil(c: Civil) {
    1 <= c.month <= 12 && 1 <= c.day <= DaysInMonth(c.year, c.month)
  }

  /** A position of a date in lexicographic (year, month, day) order. */
  function Ord(c: Civil): int {
    (c.year * 12 + c.month - 1) * 31 + c.day - 1
  }

  /** The calendar day before `c` (`setDate(getDate() - 1)`). */
  function Prev(c: Civil): (r: Civil)
    requires ValidCivil(c)
    ensures ValidCivil(r) && Ord(r) < Ord(c)
  {
    if c.day > 1 then Civil(c.year, c.month, c.day - 1)
    else if c.month > 1 then Civil(c.year, c.month - 1, DaysInMonth(c.year, c.month - 1))
    else Civil(c.year - 1, 12, 31)
  }

  /** The calendar day after `c`; `Prev` undoes it. */
  function Next(c: Civil): (r: Civil)
    requires ValidCivil(c)
    ensures ValidCivil(r) && Ord(c) < Ord(r)
  {
    if c.day < DaysInMonth(c.year, c.month) then Civil(c.year, c.month, c.day + 1)
    else if c.month < 12 then Civil(c.year, c.month + 1, 1)
    else Civil(c.year + 1, 1, 1)
  }

  /** `Next` and `Prev` undo each other. */
  lemma NextPrevInverse(c: Civil)
    requires ValidCivil(c)
    ensures Prev(Next(c)) == c && Next(Prev(c)) == c
  {
  }

  /** `Next` is the very next date: no valid date lies strictly between `c` and `Next(c)`. */
  lemma NextIsAdjacent(c: Civil, x: Civil)
    requires ValidCivil(c) && ValidCivil(x)
    ensures !(Ord(c) < Ord(x) < Ord(Next(c)))
  {
    var mc, mx := c.year * 12 + c.month - 1, x.year * 12 + x.month - 1;
    assert Ord(c) < Ord(x) < Ord(Next(c)) ==> mx == mc;
    assert mx == mc ==> x.year == c.year && x.month == c.month;
  }

  /** `Prev` is the very previous date: no valid date lies strictly between `Prev(c)` and `c`. */
  lemma PrevIsAdjacent(c: Civil, x: Civil)
    requires ValidCivil(c) && ValidCivil(x)
    ensures !(Ord(Prev(c)) < Ord(x) < Ord(c))
  {
    NextPrevInverse(c);
    NextIsAdjacent(Prev(c), x);
  }

  /** The date `k` days after `c` (before it when `k` is negative). */
  function Walk(c: Civil, k: int): (r: Civil)
    requires ValidCivil(c)
    ensures ValidCivil(r)
    decreases if k < 0 then -k else k
  {
    if k == 0 then c
    else if k > 0 then Walk(Next(c), k - 1)
    else Walk(Prev(c), k + 1)
  }

  /** One more step of the walk is one more calendar day. */
  lemma {:induction false} WalkStep(c: Civil, k: int)
    requires ValidCivil(c)
    ensures Walk(c, k + 1) == Next(Walk(c, k))
    decreases if k < 0 then -k else k
  {
    if k > 0 {
      WalkStep(Next(c), k - 1);
    } else if k == -1 {
      NextPrevInverse(c);
    } else if k < -1 {
      WalkStep(Prev(c), k + 1);
    }
  }

  const Epoch: Civil := Civil(1970, 1, 1)

  /** The calendar date of day `d`, counted from 1970-01-01. */
  function CivilOf(d: Day): (c: Civil)
    ensures ValidCivil(c)
  {
    Walk(Epoch, d)
  }

  /** Day `d + 1` is the calendar day after day `d`. */
  lemma CivilOfFollowing(d: Day)
    ensures CivilOf(d + 1) == Next(CivilOf(d))
  {
    WalkStep(Epoch, d);
  }

  /** Day `d - 1` is the calendar day before day `d`. */
  lemma CivilOfPrevious(d: Day)
    ensures CivilOf(d - 1) == Prev(CivilOf(d))
  {
    CivilOfFollowing(d - 1);
    NextPrevInverse(CivilOf(d - 1));
  }

  lemma CivilOfStep(d: Day)
    ensures Ord(CivilOf(d)) < Ord(CivilOf(d + 1))
  {
    CivilOfFollowing(d);
  }

  lemma {:induction false} CivilOfIncreasing(a: Day, b: Day)
    requires a < b
    ensures Ord(CivilOf(a)) < Ord(CivilOf(b))
    decreases b - a
  {
    CivilOfStep(b - 1);
    if a < b - 1 {
      CivilOfIncreasing(a, b - 1);
    }
  }

  /** Distinct days have distinct calendar dates. */
  lemma CivilOfInjective(a: Day, b: Day)
    ensures CivilOf(a) == CivilOf(b) <==> a == b
  {
    if a < b {
      CivilOfIncreasing(a, b);
    } else if b < a {
      CivilOfIncreasing(b, a);
    }
  }

  // ---------------------------------------------------------------------
  // Decimal text

  predicate IsDigit(ch: char) {
    '0' <= ch <= '9'
  }

  predicate AllDigits(s: string) {
    forall i :: 0 <= i < |s| ==> IsDigit(s[i])
  }

  function DigitChar(n: int): (ch: char)
    requires 0 <= n < 10
    ensures IsDigit(ch) && ch as int - '0' as int == n
  {
    ('0' as int + n) as char
  }

  /** The number a string of decimal digits denotes. */
  function DigitsValue(s: string): nat
    requires AllDigits(s)
  {
    if s == [] then 0
    else DigitsValue(s[..|s| - 1]) * 10 + (s[|s| - 1] as int - '0' as int)
  }

  /** `n` in decimal, left-padded with '0' to at least `width` digits. */
  function PadDigits(n: nat, width: nat): string
    decreases n + width
  {
    (if n < 10 && width <= 1 then "" else PadDigits(n / 10, if width == 0 then 0 else width - 1))
    + [DigitChar(n % 10)]
  }

  /** Padded decimal text is all digits and at least `width` long. */
  lemma {:induction false} PadDigitsShape(n: nat, width: nat)
    ensures |PadDigits(n, width)| >= 1 && |PadDigits(n, width)| >= width
    ensures AllDigits(PadDigits(n, width))
    decreases n + width
  {
    if !(n < 10 && width <= 1) {
      var high := PadDigits(n / 10, if width == 0 then 0 else width - 1);
      PadDigitsShape(n / 10, if width == 0 then 0 else width - 1);
      var s := PadDigits(n, width);
      assert s == high + [DigitChar(n % 10)];
      forall i | 0 <= i < |s| ensures IsDigit(s[i]) {
        if i < |high| {
          assert s[i] == high[i];
        }
      }
    }
  }

  /** Padded decimal text denotes `n`: reading back what was written gives the number. */
  lemma {:induction false} PadDigitsValue(n: nat, width: nat)
    ensures AllDigits(PadDigits(n, width)) && DigitsValue(PadDigits(n, width)) == n
    decreases n + width
  {
    PadDigitsShape(n, width);
    var s := PadDigits(n, width);
    if n < 10 && width <= 1 {
      assert s == [DigitChar(n)];
      assert s[..0] == [];
    } else {
      var w := if width == 0 then 0 else width - 1;
      var high := PadDigits(n / 10, w);
      PadDigitsValue(n / 10, w);
      assert s == high + [DigitChar(n % 10)];
      assert s[..|s| - 1] == high;
      assert s[|s| - 1] as int - '0' as int == n % 10;
      assert DigitsValue(s) == DigitsValue(high) * 10 + n % 10;
      assert n == n / 10 * 10 + n % 10;
    }
  }

  lemma TwoDigits(n: nat)
    requires n < 100
    ensures |PadDigits(n, 2)| == 2
  {
  }

  lemma FourDigits(n: nat)
    requires n < 10000
    ensures |PadDigits(n, 4)| == 4
  {
    TwoDigits(n / 100);
    assert PadDigits(n / 10, 3) == PadDigits(n / 100, 2) + [DigitChar(n / 10 % 10)];
  }

  /** Padded text has exactly `width` digits, or more with no leading zero (or is "0" for width 0). */
  lemma {:induction false} PadDigitsCanonical(n: nat, width: nat)
    ensures var s := PadDigits(n, width);
      |s| == width || (|s| > width && (s[0] != '0' || s == "0"))
    decreases n + width
  {
    var s := PadDigits(n, width);
    if n < 10 && width <= 1 {
      assert s == [DigitChar(n)];
    } else {
      var w := if width == 0 then 0 else width - 1;
      var high := PadDigits(n / 10, w);
      PadDigitsCanonical(n / 10, w);
      PadDigitsShape(n / 10, w);
      assert s == high + [DigitChar(n % 10)];
      if high == "0" {
        PadDigitsValue(n / 10, w);
        assert high[..0] == [];
      }
    }
  }

  function Pow10(k: nat): nat {
    if k == 0 then 1 else 10 * Pow10(k - 1)
  }

  /** `k` digits denote less than 10^k. */
  lemma {:induction false} DigitsValueBound(s: string)
    requires AllDigits(s)
    ensures DigitsValue(s) < Pow10(|s|)
  {
    if s != [] {
      DigitsValueBound(s[..|s| - 1]);
    }
  }

  /** Digits with a leading non-zero denote at least 1, and at least 10 when there are two or more. */
  lemma {:induction false} LeadingDigitValue(s: string)
    requires AllDigits(s) && |s| >= 1 && s[0] != '0'
    ensures DigitsValue(s) >= 1 && (|s| >= 2 ==> DigitsValue(s) >= 10)
  {
    var init := s[..|s| - 1];
    if |s| >= 2 {
      assert init[0] == s[0];
      LeadingDigitValue(init);
    } else {
      assert init == [];
    }
  }

  /** A single digit is what `PadDigits` writes for its value at width 0 or 1. */
  lemma OneDigit(s: string, width: nat)
    requires AllDigits(s) && |s| == 1 && width <= 1
    ensures PadDigits(DigitsValue(s), width) == s
  {
    assert s[..0] == [];
    var n := DigitsValue(s);
    assert n == s[0] as int - '0' as int;
    assert DigitChar(n) == s[0];
  }

  /** Digit text of exactly `width`, or longer without a leading zero, is what `PadDigits` writes for its value. */
  lemma {:induction false} DigitsCanonical(s: string, width: nat)
    requires AllDigits(s) && |s| >= 1
    requires |s| == width || (|s| > width && s[0] != '0')
    ensures PadDigits(DigitsValue(s), width) == s
    decreases |s|
  {
    if |s| == 1 {
      OneDigit(s, width);
    } else {
      var n := DigitsValue(s);
      var init, last := s[..|s| - 1], s[|s| - 1];
      var w := if width == 0 then 0 else width - 1;
      assert init[0] == s[0];
      if |s| > width {
        LeadingDigitValue(s);
      }
      DigitsCanonical(init, w);
      var d := last as int - '0' as int;
      assert IsDigit(last) && 0 <= d < 10;
      assert n == DigitsValue(init) * 10 + d;
      assert n / 10 == DigitsValue(init) && n % 10 == d;
      assert !(n < 10 && width <= 1);
      assert PadDigits(n, width) == PadDigits(n / 10, w) + [DigitChar(d)];
      assert DigitChar(d) == last;
      assert s == init + [last];
    }
  }

  // ---------------------------------------------------------------------
  // Date keys

  /** The year as `toISOString` writes it: four digits, or a sign and six digits outside 0..9999. */
  function YearText(y: int): string {
    if 0 <= y <= 9999 then PadDigits(y, 4)
    else if y < 0 then "-" + PadDigits(-y, 6)
    else "+" + PadDigits(y, 6)
  }

  function DateText(c: Civil): string
    requires ValidCivil(c)
  {
    YearText(c.year) + "-" + PadDigits(c.month, 2) + "-" + PadDigits(c.day, 2)
  }

  /** `formatDate` of an instant on day `d`: the `YYYY-MM-DD` key, which reads back as the day's date. */
  function DateKey(d: Day): (k: string)
  {
    DateText(CivilOf(d))
  }

  /** `formatDate(date)`: the key of the UTC calendar day of the instant; `new Date(key)` reads it back as that date. */
  function FormatDate(t: Instant): (r: string)
    ensures ParseKey(r) == Some(CivilOf(UtcDay(t)))
  {
    ParseDateText(CivilOf(UtcDay(t)));
    DateKey(UtcDay(t))
  }

  /**
   * The year of a key, in the forms `toISOString` writes: four digits, or
   * `-` before a year below 0 and `+` before a year above 9999, each with at
   * least six digits and no superfluous leading zero.
   */
  function ParseYear(s: string): Option<int> {
    if |s| == 4 && AllDigits(s) then Some(DigitsValue(s))
    else if |s| >= 7 && (s[0] == '-' || s[0] == '+') && AllDigits(s[1..]) && (|s| == 7 || s[1] != '0') then
      var v := DigitsValue(s[1..]);
      if s[0] == '-' && v > 0 then Some(0 - v)
      else if s[0] == '+' && v > 9999 then Some(v)
      else None
    else None
  }

  /**
   * The calendar date a key names (`new Date(key)` on a date-only string),
   * or None when the text is not a key of a valid date.
   */
  function ParseKey(s: string): (r: Option<Civil>)
    ensures r.Some? ==> ValidCivil(r.value)
  {
    if |s| < 7 || s[|s| - 6] != '-' || s[|s| - 3] != '-' then None
    else ParseParts(s[..|s| - 6], s[|s| - 5..|s| - 3], s[|s| - 2..])
  }

  /** The date named by a key's year, month and day texts, if they name a valid one. */
  function ParseParts(year: string, mm: string, dd: string): (r: Option<Civil>)
    ensures r.Some? ==> ValidCivil(r.value)
  {
    var y := ParseYear(year);
    if y.None? || |mm| != 2 || |dd| != 2 || !AllDigits(mm) || !AllDigits(dd) then None
    else
      var c := Civil(y.value, DigitsValue(mm), DigitsValue(dd));
      if ValidCivil(c) then Some(c) else None
  }

  lemma ParseSigned(sign: char, n: nat)
    requires (sign == '-' && n > 0) || (sign == '+' && n > 9999)
    ensures ParseYear([sign] + PadDigits(n, 6)) == Some(if sign == '-' then 0 - n else n)
  {
    var p := PadDigits(n, 6);
    PadDigitsValue(n, 6);
    PadDigitsCanonical(n, 6);
    assert ([sign] + p)[1..] == p;
  }

  lemma ParseYearText(y: int)
    ensures ParseYear(YearText(y)) == Some(y)
  {
    if 0 <= y <= 9999 {
      PadDigitsValue(y, 4);
      FourDigits(y);
    } else if y < 0 {
      ParseSigned('-', -y);
    } else {
      ParseSigned('+', y);
    }
  }

  /** A text `year-mm-dd` with two-character month and day parses as its three parts. */
  lemma ParseKeyOfParts(y: string, mm: string, dd: string)
    requires |y| >= 1 && |mm| == 2 && |dd| == 2
    ensures ParseKey(y + "-" + mm + "-" + dd) == ParseParts(y, mm, dd)
  {
    var s := y + "-" + mm + "-" + dd;
    assert s[..|s| - 6] == y;
    assert s[|s| - 5..|s| - 3] == mm;
    assert s[|s| - 2..] == dd;
  }

  /** Parsing a formatted date gives the date back. */
  lemma ParseDateText(c: Civil)
    requires ValidCivil(c)
    ensures ParseKey(DateText(c)) == Some(c)
  {
    ParseCivilParts(c);
    ParseKeyOfParts(YearText(c.year), PadDigits(c.month, 2), PadDigits(c.day, 2));
  }

  lemma ParseCivilParts(c: Civil)
    requires ValidCivil(c)
    ensures |YearText(c.year)| >= 1 && |PadDigits(c.month, 2)| == 2 && |PadDigits(c.day, 2)| == 2
    ensures ParseParts(YearText(c.year), PadDigits(c.month, 2), PadDigits(c.day, 2)) == Some(c)
  {
    ParseYearText(c.year);
    TwoDigits(c.month);
    TwoDigits(c.day);
    PadDigitsValue(c.month, 2);
    PadDigitsValue(c.day, 2);
  }

  /** A year that parses is written back as the same text. */
  lemma ParseYearOnlyYearText(s: string, y: int)
    requires ParseYear(s) == Some(y)
    ensures YearText(y) == s
  {
    if |s| == 4 && AllDigits(s) {
      DigitsValueBound(s);
      DigitsCanonical(s, 4);
    } else {
      DigitsCanonical(s[1..], 6);
      assert s == [s[0]] + s[1..];
    }
  }

  /** A text that parses is the key of the date it names. */
  lemma ParseKeyOnlyKeys(s: string, c: Civil)
    requires ParseKey(s) == Some(c)
    ensures ValidCivil(c) && s == DateText(c)
  {
    var y, mm, dd := s[..|s| - 6], s[|s| - 5..|s| - 3], s[|s| - 2..];
    assert ParseParts(y, mm, dd) == Some(c);
    ParseYearOnlyYearText(y, c.year);
    DigitsCanonical(mm, 2);
    DigitsCanonical(dd, 2);
    KeyJoin(s);
  }

  /** A text with `-` six and three places from its end is its year, month and day parts joined by `-`. */
  lemma KeyJoin(s: string)
    requires |s| >= 7 && s[|s| - 6] == '-' && s[|s| - 3] == '-'
    ensures s == s[..|s| - 6] + "-" + s[|s| - 5..|s| - 3] + "-" + s[|s| - 2..]
  {
  }

  /** `ParseKey` accepts exactly the keys of valid dates, and names the date written. */
  lemma ParseKeyExact(s: string, c: Civil)
    ensures ParseKey(s) == Some(c) <==> ValidCivil(c) && s == DateText(c)
  {
    if ParseKey(s) == Some(c) {
      ParseKeyOnlyKeys(s, c);
    }
    if ValidCivil(c) && s == DateText(c) {
      ParseDateText(c);
    }
  }

  /** The key of any day reads back as that day's calendar date. */
  lemma DateKeyParses(d: Day)
    ensures ParseKey(DateKey(d)) == Some(CivilOf(d))
  {
    ParseDateText(CivilOf(d));
  }

  /** Two days share a key exactly when they are the same day. */
  lemma DateKeyInjective(a: Day, b: Day)
    ensures DateKey(a) == DateKey(b) <==> a == b
  {
    ParseDateText(CivilOf(a));
    ParseDateText(CivilOf(b));
    CivilOfInjective(a, b);
  }

  /** `DateKeyInjective` for every pair of days at once. */
  lemma AllDateKeysDistinct()
    ensures forall a: Day, b: Day :: DateKey(a) == DateKey(b) ==> a == b
  {
    forall a: Day, b: Day ensures DateKey(a) == DateKey(b) ==> a == b {
      DateKeyInjective(a, b);
    }
  }

  /** Two instants get the same key exactly when they fall on the same UTC day. */
  lemma FormatDateSameDay(s: Instant, t: Instant)
    ensures FormatDate(s) == FormatDate(t) <==> UtcDay(s) == UtcDay(t)
  {
    DateKeyInjective(UtcDay(s), UtcDay(t));
  }

  lemma EpochYear()
    ensures YearText(1970) == "1970"
  {
    assert PadDigits(1, 1) == "1";
    assert PadDigits(19, 2) == "19";
    assert PadDigits(197, 3) == "197";
  }

  /** Day 0 is 1970-01-01. */
  lemma EpochKey()
    ensures DateKey(0) == "1970-01-01"
  {
    EpochYear();
    assert PadDigits(0, 1) == "0";
    assert PadDigits(1, 2) == "01";
  }

  lemma YearBeforeEpoch()
    ensures YearText(1969) == "1969"
  {
    assert PadDigits(1, 1) == "1";
    assert PadDigits(19, 2) == "19";
    assert PadDigits(196, 3) == "196";
  }

  /** Day -1 is 1969-12-31. */
  lemma DayBeforeEpochKey()
    ensures DateKey(-1) == "1969-12-31"
  {
    assert CivilOf(-1) == Civil(1969, 12, 31);
    YearBeforeEpoch();
    assert PadDigits(1, 1) == "1";
    assert PadDigits(12, 2) == "12";
    assert PadDigits(3, 1) == "3";
    assert PadDigits(31, 2) == "31";
  }
}
