/**
 * The proleptic Gregorian calendar of Python's `datetime.date`, as the
 * pipeline uses it: `datetime.strptime(s, '%Y-%m-%d')`, `weekday()`,
 * `timedelta` steps, `strftime('%Y%m%d')`, the week window of
 * `get_week_range`, the prefix of `get_arxiv_prefix` and the header of a
 * weekly file. Dates are counted in days from 0001-01-01, which is a Monday.
 */
module Calendar {
  import opened Wrappers
  import opened Text

  datatype Date = Date(year: int, month: int, day: int)

  predicate IsLeap(y: int) {
    y % 4 == 0 && (y % 100 != 0 || y % 400 == 0)
  }

  function DaysInMonth(y: int, m: int): int {
    if m == 2 then (if IsLeap(y) then 29 else 28)
    else if m == 4 || m == 6 || m == 9 || m == 11 then 30
    else 31
  }

  /** A date `datetime.date` can represent: years 1 to 9999. */
  predicate Valid(d: Date) {
    1 <= d.year <= 9999 && 1 <= d.month <= 12 && 1 <= d.day <= DaysInMonth(d.year, d.month)
  }

  const MinDate := Date(1, 1, 1)
  const MaxDate := Date(9999, 12, 31)

  /** Days in the years before `y`. */
  function DaysBeforeYear(y: int): int
    requires y >= 1
  {
    var p := y - 1;
    365 * p + p / 4 - p / 100 + p / 400
  }

  /** Days in the months of year `y` before month `m`. */
  function DaysBeforeMonth(y: int, m: int): int
    requires 1 <= m <= 12
  {
    var common :=
      match m
      case 1 => 0 case 2 => 31 case 3 => 59 case 4 => 90 case 5 => 120 case 6 => 151
      case 7 => 181 case 8 => 212 case 9 => 243 case 10 => 273 case 11 => 304 case _ => 334;
    if m > 2 && IsLeap(y) then common + 1 else common
  }

  /** `d.toordinal() - 1`: days since 0001-01-01. */
  function DayNumber(d: Date): int
    requires Valid(d)
  {
    DaysBeforeYear(d.year) + DaysBeforeMonth(d.year, d.month) + d.day - 1
  }

  /** `d.weekday()`: 0 for Monday up to 6 for Sunday. */
  function Weekday(d: Date): int
    requires Valid(d)
  {
    DayNumber(d) % 7
  }

  /** The day after `d`. */
  function NextDay(d: Date): Date {
    if d.day < DaysInMonth(d.year, d.month) then Date(d.year, d.month, d.day + 1)
    else if d.month < 12 then Date(d.year, d.month + 1, 1)
    else Date(d.year + 1, 1, 1)
  }

  /** The day before `d`. */
  function PrevDay(d: Date): Date {
    if d.day > 1 then Date(d.year, d.month, d.day - 1)
    else if d.month > 1 then Date(d.year, d.month - 1, DaysInMonth(d.year, d.month - 1))
    else Date(d.year - 1, 12, 31)
  }

  /** A year has 366 days when it is a leap year and 365 otherwise. */
  lemma YearLength(y: int)
    requires y >= 1
    ensures DaysBeforeYear(y + 1) == DaysBeforeYear(y) + (if IsLeap(y) then 366 else 365)
  {
    var p := y - 1;
    assert (p + 1) / 4 == p / 4 + (if y % 4 == 0 then 1 else 0);
    assert (p + 1) / 100 == p / 100 + (if y % 100 == 0 then 1 else 0);
    assert (p + 1) / 400 == p / 400 + (if y % 400 == 0 then 1 else 0);
  }

  /** Month `m` takes up `DaysInMonth(y, m)` days of the year. */
  lemma MonthLength(y: int, m: int)
    requires 1 <= m <= 12
    ensures m < 12 ==> DaysBeforeMonth(y, m + 1) == DaysBeforeMonth(y, m) + DaysInMonth(y, m)
    ensures m == 12 ==> DaysBeforeMonth(y, m) + DaysInMonth(y, m) == (if IsLeap(y) then 366 else 365)
  {
  }

  /** Stepping forward adds one to the day count and stays representable. */
  lemma NextDayNumber(d: Date)
    requires Valid(d) && d != MaxDate
    ensures Valid(NextDay(d)) && DayNumber(NextDay(d)) == DayNumber(d) + 1
  {
    MonthLength(d.year, d.month);
    if d.day == DaysInMonth(d.year, d.month) && d.month == 12 {
      YearLength(d.year);
    }
  }

  /** Stepping back takes one from the day count and stays representable. */
  lemma PrevDayNumber(d: Date)
    requires Valid(d) && d != MinDate
    ensures Valid(PrevDay(d)) && DayNumber(PrevDay(d)) == DayNumber(d) - 1
  {
    if d.day == 1 {
      if d.month > 1 {
        PrevMonthEnd(d);
      } else {
        PrevYearEnd(d);
      }
    }
  }

  lemma PrevMonthEnd(d: Date)
    requires Valid(d) && d.day == 1 && d.month > 1
    ensures Valid(PrevDay(d)) && DayNumber(PrevDay(d)) == DayNumber(d) - 1
  {
    var m := d.month - 1;
    MonthLength(d.year, m);
    assert PrevDay(d) == Date(d.year, m, DaysInMonth(d.year, m));
  }

  lemma PrevYearEnd(d: Date)
    requires Valid(d) && d.day == 1 && d.month == 1 && d.year > 1
    ensures Valid(PrevDay(d)) && DayNumber(PrevDay(d)) == DayNumber(d) - 1
  {
    var y := d.year - 1;
    assert PrevDay(d) == Date(y, 12, 31);
    YearLength(y);
    MonthLength(y, 12);
    assert DayNumber(d) == DaysBeforeYear(y + 1);
  }

  /** Later years start later. */
  lemma {:induction false} DaysBeforeYearMonotone(a: int, b: int)
    requires 1 <= a <= b
    ensures DaysBeforeYear(a) + 365 * (b - a) <= DaysBeforeYear(b)
    decreases b - a
  {
    if a < b {
      DaysBeforeYearMonotone(a, b - 1);
      YearLength(b - 1);
    }
  }

  /** A date lies inside its year. */
  lemma DayNumberInYear(d: Date)
    requires Valid(d)
    ensures DaysBeforeYear(d.year) <= DayNumber(d) < DaysBeforeYear(d.year + 1)
  {
    YearLength(d.year);
    MonthLength(d.year, 12);
    if d.month < 12 {
      var m := d.month;
      MonthLength(d.year, m);
      assert DaysBeforeMonth(d.year, m) + DaysInMonth(d.year, m) <= DaysBeforeMonth(d.year, 12);
    }
  }

  /** Every representable date counts from 0 to the count of 9999-12-31, which only it reaches. */
  lemma DayNumberBounds(d: Date)
    requires Valid(d)
    ensures 0 <= DayNumber(d) <= DayNumber(MaxDate)
    ensures DayNumber(d) == 0 ==> d == MinDate
    ensures DayNumber(d) == DayNumber(MaxDate) ==> d == MaxDate
  {
    DayNumberInYear(d);
    DaysBeforeYearMonotone(1, d.year);
    if d.year < 9999 {
      DaysBeforeYearMonotone(d.year + 1, 9999);
    } else if d.month < 12 {
      MonthLength(9999, d.month);
      assert DaysBeforeMonth(9999, d.month) + DaysInMonth(9999, d.month) <= DaysBeforeMonth(9999, 12);
    }
    if DayNumber(d) == 0 && d.year > 1 {
      DaysBeforeYearMonotone(2, d.year);
      YearLength(1);
    }
  }

  /** `d - timedelta(days=k)`, taken one day at a time. */
  function Back(d: Date, k: int): (r: Date)
    requires Valid(d) && 0 <= k <= DayNumber(d)
    ensures Valid(r) && DayNumber(r) == DayNumber(d) - k
    decreases k
  {
    if k == 0 then d
    else
      PrevDayNumber(d);
      Back(PrevDay(d), k - 1)
  }

  /**
   * `d + timedelta(days=k)`, taken one day at a time, or `None` when a step
   * would pass 9999-12-31 (Python raises `OverflowError` there).
   */
  function Forward(d: Date, k: nat): (r: Option<Date>)
    requires Valid(d)
    ensures r.Some? ==> Valid(r.value) && DayNumber(r.value) == DayNumber(d) + k
    ensures r.None? <==> DayNumber(d) + k > DayNumber(MaxDate)
    decreases k
  {
    DayNumberBounds(d);
    if k == 0 then Some(d)
    else if d == MaxDate then None
    else
      NextDayNumber(d);
      Forward(NextDay(d), k - 1)
  }

  /** Going back `n % 7` days from day `n` lands on a Monday. */
  lemma WeekStart(n: int)
    requires n >= 0
    ensures 0 <= n % 7 <= n && (n - n % 7) % 7 == 0
  {
    assert n == 7 * (n / 7) + n % 7;
  }

  /** The Monday on or before `d` (line 578). */
  function MondayOf(d: Date): (r: Date)
    requires Valid(d)
    ensures Valid(r) && Weekday(r) == 0
    ensures DayNumber(d) - 6 <= DayNumber(r) <= DayNumber(d)
  {
    DayNumberBounds(d);
    WeekStart(DayNumber(d));
    Back(d, Weekday(d))
  }

  /** `str(n)`: the decimal text of a year of four digits is its zero-padded form. */
  lemma FourDigitYear(y: nat)
    requires 1000 <= y <= 9999
    ensures NatToString(y) == Pad4(y)
  {
    assert NatToString(y / 1000) == [DigitChar(y / 1000)];
    assert y / 100 / 10 == y / 1000 && y / 100 % 10 == y / 100 % 10;
    assert NatToString(y / 100) == [DigitChar(y / 1000), DigitChar(y / 100 % 10)];
    assert y / 10 / 10 == y / 100;
    assert NatToString(y / 10) == [DigitChar(y / 1000), DigitChar(y / 100 % 10), DigitChar(y / 10 % 10)];
  }

  // ---------------------------------------------------------------------
  // `datetime.strptime(s, '%Y-%m-%d')`: the format becomes the pattern
  // `\d\d\d\d-(1[0-2]|0[1-9]|[1-9])-(3[01]|[12]\d|0[1-9]|[1-9]| [1-9])`,
  // matched at the start of `s`; text left after the match, year 0 and a day
  // past the end of the month are `ValueError`s, here `None`.
  // ---------------------------------------------------------------------

  predicate NonZeroDigit(c: char) { '1' <= c <= '9' }

  /** Length matched by month alternative `a` at `i`, 0 when it does not match. */
  function MonthAlt(s: string, i: nat, a: nat): nat {
    if a == 0 then (if i + 1 < |s| && s[i] == '1' && '0' <= s[i + 1] <= '2' then 2 else 0)
    else if a == 1 then (if i + 1 < |s| && s[i] == '0' && NonZeroDigit(s[i + 1]) then 2 else 0)
    else if a == 2 then (if i < |s| && NonZeroDigit(s[i]) then 1 else 0)
    else 0
  }

  /**
   * Length of the day group at `i`: the first alternative that matches wins,
   * since nothing in the pattern follows the group. 0 when none matches.
   */
  function DayLen(s: string, i: nat): (r: nat)
    ensures r <= 2
  {
    if i + 1 < |s| && s[i] == '3' && '0' <= s[i + 1] <= '1' then 2
    else if i + 1 < |s| && '1' <= s[i] <= '2' && IsDigit(s[i + 1]) then 2
    else if i + 1 < |s| && s[i] == '0' && NonZeroDigit(s[i + 1]) then 2
    else if i < |s| && NonZeroDigit(s[i]) then 1
    else if i + 1 < |s| && s[i] == ' ' && NonZeroDigit(s[i + 1]) then 2
    else 0
  }

  /**
   * The month and day lengths of the first match, trying the month
   * alternatives from `a` on in order (the engine backtracks into the month
   * group when the `-` or the day after it fails).
   */
  function MatchFrom(s: string, a: nat): (r: Option<(nat, nat)>)
    ensures r.Some? ==> 1 <= r.value.0 <= 2 && 1 <= r.value.1 <= 2 && 5 + r.value.0 < |s| && s[5 + r.value.0] == '-'
    decreases 3 - a
  {
    if a > 2 then None
    else
      var ml := MonthAlt(s, 5, a);
      if ml > 0 && 5 + ml < |s| && s[5 + ml] == '-' && DayLen(s, 6 + ml) > 0 then Some((ml, DayLen(s, 6 + ml)))
      else MatchFrom(s, a + 1)
  }

  /** `int(t)` of a day group: a leading space is dropped. */
  function DayValue(t: string): nat {
    if |t| == 2 && IsDigit(t[0]) && IsDigit(t[1]) then DigitsValue(t)
    else if |t| >= 1 && IsDigit(t[|t| - 1]) then DigitValue(t[|t| - 1])
    else 0
  }

  /** `datetime.strptime(s, '%Y-%m-%d')`, `None` for a `ValueError`. */
  function ParseIsoDate(s: string): (r: Option<Date>)
    ensures r.Some? ==> Valid(r.value)
  {
    if |s| < 5 || !AllDigits(s[..4]) || s[4] != '-' then None
    else
      match MatchFrom(s, 0)
      case None => None
      case Some((ml, dl)) =>
        if 6 + ml + dl != |s| then None
        else
          var d := Date(DigitsValue(s[..4]), MonthDigits(s[5..5 + ml]), DayValue(s[6 + ml..]));
          if Valid(d) then Some(d) else None
  }

  /** `int(t)` of a month group. */
  function MonthDigits(t: string): nat {
    if AllDigits(t) then DigitsValue(t) else 0
  }

  /** `d.strftime('%Y-%m-%d')` for a four-digit year, the text the listing page yields. */
  function IsoText(d: Date): (r: string)
    requires Valid(d)
    ensures |r| == 10 && r[4] == '-' && r[7] == '-'
  {
    Pad4(d.year) + "-" + Pad2(d.month) + "-" + Pad2(d.day)
  }

  /** A zero-padded two-digit day is matched whole by the day group. */
  lemma PaddedDayLen(s: string, i: nat, n: nat)
    requires 1 <= n <= 31 && i + 2 == |s| && s[i..] == Pad2(n)
    ensures DayLen(s, i) == 2 && DayValue(s[i..]) == n
  {
    assert s[i] == Pad2(n)[0] && s[i + 1] == Pad2(n)[1];
    Pad2Value(n);
  }

  /** Parsing the ISO text of a representable date gives the date back. */
  lemma ParseIsoText(d: Date)
    requires Valid(d)
    ensures ParseIsoDate(IsoText(d)) == Some(d)
  {
    var s := IsoText(d);
    var y, m := Pad4(d.year), Pad2(d.month);
    assert s[..4] == y;
    assert s[5..7] == m;
    assert s[8..] == Pad2(d.day);
    assert s[5] == m[0] && s[6] == m[1];
    PaddedDayLen(s, 8, d.day);
    Pad4Value(d.year);
    Pad2Value(d.month);
    if d.month >= 10 {
      assert MonthAlt(s, 5, 0) == 2;
      assert MatchFrom(s, 0) == Some((2, 2));
    } else {
      assert MonthAlt(s, 5, 0) == 0;
      assert MonthAlt(s, 5, 1) == 2;
      assert MatchFrom(s, 1) == Some((2, 2));
    }
  }

  /** A month and a day below 10 need no leading zero. */
  lemma ParseUnpadded(d: Date)
    requires Valid(d) && d.month < 10 && d.day < 10
    ensures ParseIsoDate(Pad4(d.year) + "-" + NatToString(d.month) + "-" + NatToString(d.day)) == Some(d)
  {
    var s := Pad4(d.year) + "-" + NatToString(d.month) + "-" + NatToString(d.day);
    assert NatToString(d.month) == [DigitChar(d.month)] && NatToString(d.day) == [DigitChar(d.day)];
    assert |s| == 8 && s[..4] == Pad4(d.year) && s[5] == DigitChar(d.month) && s[6] == '-' && s[7] == DigitChar(d.day);
    assert MonthAlt(s, 5, 0) == 0 && MonthAlt(s, 5, 1) == 0 && MonthAlt(s, 5, 2) == 1;
    assert DayLen(s, 7) == 1;
    assert MatchFrom(s, 0) == Some((1, 1));
    assert s[5..6] == NatToString(d.month) && s[7..] == NatToString(d.day);
    Pad4Value(d.year);
    NatToStringValue(d.month);
  }

  /** Text after the date is refused: the match ends with the day and leaves data unconverted. */
  lemma ParseRejectsTrailing(d: Date, x: string)
    requires Valid(d) && x != []
    ensures ParseIsoDate(IsoText(d) + x) == None
  {
    var t := IsoText(d);
    var s := t + x;
    ParseIsoText(d);
    assert s[..10] == t;
    assert s[..4] == t[..4] && s[4] == t[4];
    PaddedDayLen(t, 8, d.day);
    assert t[8..] == Pad2(d.day);
    assert DayLen(s, 8) == DayLen(t, 8);
    assert MonthAlt(s, 5, 0) == MonthAlt(t, 5, 0) && MonthAlt(s, 5, 1) == MonthAlt(t, 5, 1);
    assert s[7] == t[7];
    assert MatchFrom(s, 0) == MatchFrom(t, 0);
  }

  // ---------------------------------------------------------------------
  // get_week_range and get_arxiv_prefix (lines 573-596)
  // ---------------------------------------------------------------------

  /** `d.strftime('%Y%m%d')`; glibc writes the year without padding. */
  function CompactText(d: Date): (r: string)
    requires Valid(d)
    ensures AllDigits(r) && |r| >= 5
  {
    NatToString(d.year) + Pad2(d.month) + Pad2(d.day)
  }

  /** What `get_week_range` returns or raises. */
  datatype WeekResult =
    | Week(range: string)  // "<monday>-<sunday>"
    | BadDate              // the ValueError branch: `None`
    | Overflow             // the Sunday is past 9999-12-31: an uncaught OverflowError

  /** `get_week_range(s)` (lines 573-587). */
  function WeekRange(s: string): (r: WeekResult)
    ensures r.BadDate? <==> ParseIsoDate(s).None?
  {
    match ParseIsoDate(s)
    case None => BadDate
    case Some(d) =>
      var monday := MondayOf(d);
      match Forward(monday, 6)
      case None => Overflow
      case Some(sunday) => Week(CompactText(monday) + "-" + CompactText(sunday))
  }

  /** The Sunday six days after the Monday before `d` ends the week of `d`. */
  lemma SundayOfWeek(d: Date, sunday: Date)
    requires Valid(d) && Forward(MondayOf(d), 6) == Some(sunday)
    ensures Weekday(sunday) == 6
    ensures DayNumber(sunday) - 6 <= DayNumber(d) <= DayNumber(sunday)
  {
    var n := DayNumber(MondayOf(d));
    EndOfWeek(n);
    assert DayNumber(sunday) == n + 6;
  }

  lemma EndOfWeek(n: int)
    requires n % 7 == 0
    ensures (n + 6) % 7 == 6
  {
    assert n + 6 == 7 * (n / 7) + 6;
  }

  /** 9999-12-31, the last representable day, is a Friday. */
  lemma MaxDateIsFriday()
    ensures DayNumber(MaxDate) == 3652058 && Weekday(MaxDate) == 4
  {
    assert DaysBeforeYear(9999) == 3651694;
  }

  /**
   * The week range names the Monday and the Sunday around the parsed date,
   * and it overflows exactly when that Sunday is past 9999-12-31.
   */
  lemma WeekRangeWindow(s: string, d: Date)
    requires ParseIsoDate(s) == Some(d)
    ensures WeekRange(s).Overflow? <==> DayNumber(MondayOf(d)) + 6 > DayNumber(MaxDate)
    ensures WeekRange(s).Week? ==>
      var sunday := Forward(MondayOf(d), 6).value;
      WeekRange(s).range == CompactText(MondayOf(d)) + "-" + CompactText(sunday) &&
      Weekday(MondayOf(d)) == 0 && Weekday(sunday) == 6 &&
      DayNumber(MondayOf(d)) <= DayNumber(d) <= DayNumber(sunday) == DayNumber(MondayOf(d)) + 6
  {
    if WeekRange(s).Week? {
      SundayOfWeek(d, Forward(MondayOf(d), 6).value);
    }
  }

  /** The week of 9999-12-31 cannot be formed: its Sunday would be 10000-01-02. */
  lemma LastWeekOverflows()
    ensures WeekRange("9999-12-31").Overflow?
  {
    ParseIsoText(MaxDate);
    assert IsoText(MaxDate) == "9999-12-31";
    DayNumberBounds(MondayOf(MaxDate));
    WeekRangeWindow("9999-12-31", MaxDate);
    MaxDateIsFriday();
  }

  /**
   * The range splits at `-` into exactly the two compact dates, so the
   * unpacking `start, end = week_range.split('-')` of line 759 never fails.
   */
  lemma WeekRangeSplits(s: string, d: Date)
    requires ParseIsoDate(s) == Some(d) && WeekRange(s).Week?
    ensures Split(WeekRange(s).range, '-') == [CompactText(MondayOf(d)), CompactText(Forward(MondayOf(d), 6).value)]
  {
    var a, b := CompactText(MondayOf(d)), CompactText(Forward(MondayOf(d), 6).value);
    DigitsExclude(a, '-');
    DigitsExclude(b, '-');
    SplitFirst(a, '-', b);
    LastPieceIsSuffix(b, '-');
  }

  /** For years of four digits the range has the 17 characters `YYYYMMDD-YYYYMMDD`. */
  lemma WeekRangeLength(s: string, d: Date)
    requires ParseIsoDate(s) == Some(d) && WeekRange(s).Week? && d.year >= 1001
    ensures |WeekRange(s).range| == 17 && WeekRange(s).range[8] == '-'
  {
    var monday := MondayOf(d);
    var sunday := Forward(monday, 6).value;
    MondayYear(d);
    YearsOrdered(monday, sunday);
    FourDigitYear(monday.year);
    FourDigitYear(sunday.year);
  }

  /** A later day is not in an earlier year. */
  lemma YearsOrdered(a: Date, b: Date)
    requires Valid(a) && Valid(b) && DayNumber(a) <= DayNumber(b)
    ensures a.year <= b.year
  {
    if a.year > b.year {
      DayNumberInYear(a);
      DayNumberInYear(b);
      DaysBeforeYearMonotone(b.year + 1, a.year);
    }
  }

  /** The Monday before a date after the year 1000 is in a year of four digits. */
  lemma MondayYear(d: Date)
    requires Valid(d) && d.year >= 1001
    ensures MondayOf(d).year >= 1000
  {
    var monday := MondayOf(d);
    DayNumberInYear(d);
    DaysBeforeYearMonotone(1001, d.year);
    YearLength(1000);
    if monday.year < 1000 {
      DayNumberInYear(monday);
      DaysBeforeYearMonotone(monday.year + 1, 1000);
    }
  }

  /** The last two characters of `str(year)`, or all of it when shorter. */
  function YearSuffix(y: nat): (r: string)
    ensures |r| <= 2 && EndsWith(NatToString(y), r)
  {
    var t := NatToString(y);
    if |t| >= 2 then t[|t| - 2..] else t
  }

  /** `get_arxiv_prefix(s)` (lines 589-596): `[arXivYYMMDD]` or `""` when the date does not parse. */
  function ArxivPrefix(s: string): (r: string)
    ensures r == "" <==> ParseIsoDate(s).None?
  {
    match ParseIsoDate(s)
    case None => ""
    case Some(d) => "[arXiv" + YearSuffix(d.year) + Pad2(d.month) + Pad2(d.day) + "]"
  }

  /** For an ISO date with a four-digit year the prefix copies its digits. */
  lemma ArxivPrefixOfIso(d: Date)
    requires Valid(d) && d.year >= 1000
    ensures var t := IsoText(d); ArxivPrefix(t) == "[arXiv" + t[2..4] + t[5..7] + t[8..10] + "]"
  {
    var t := IsoText(d);
    ParseIsoText(d);
    FourDigitYear(d.year);
    assert t[2..4] == Pad4(d.year)[2..];
    assert t[5..7] == Pad2(d.month);
    assert t[8..10] == Pad2(d.day);
  }

  // ---------------------------------------------------------------------
  // find_or_create_weekly_file and create_weekly_file (lines 743-765)
  // ---------------------------------------------------------------------

  /** The weekly file's name, `None` when the date does not parse (lines 745-749). */
  function WeeklyFileName(s: string): (r: Option<string>)
    requires !WeekRange(s).Overflow?
    ensures r.Some? <==> ParseIsoDate(s).Some?
    ensures r.Some? ==> EndsWith(r.value, ".md")
  {
    match WeekRange(s)
    case Week(range) => Some(range + ".md")
    case _ => None
  }

  /** The content a new weekly file starts with: a level-one heading naming the week (lines 763-765). */
  function WeeklyHeader(range: string): (r: string)
    ensures |r| == |range| + 4 && StartsWith(r, "# ") && EndsWith(r, "\n\n") && r[2..|r| - 2] == range
  {
    "# " + range + "\n\n"
  }

  /**
   * The month and day lengths of the first `%Y%m%d` match, trying the month
   * alternatives from `a` on: as `MatchFrom`, with the month at 4 and no `-`.
   */
  function CompactMatchFrom(t: string, a: nat): (r: Option<(nat, nat)>)
    ensures r.Some? ==> 1 <= r.value.0 <= 2 && 1 <= r.value.1 <= 2 && DayLen(t, 4 + r.value.0) == r.value.1
    decreases 3 - a
  {
    if a > 2 then None
    else
      var ml := MonthAlt(t, 4, a);
      if ml > 0 && DayLen(t, 4 + ml) > 0 then Some((ml, DayLen(t, 4 + ml)))
      else CompactMatchFrom(t, a + 1)
  }

  /** `datetime.strptime(t, '%Y%m%d')`, `None` for a `ValueError`. */
  function ParseCompact(t: string): (r: Option<Date>)
    ensures r.Some? ==> Valid(r.value)
  {
    if |t| < 4 || !AllDigits(t[..4]) then None
    else
      match CompactMatchFrom(t, 0)
      case None => None
      case Some((ml, dl)) =>
        if 4 + ml + dl != |t| then None
        else
          var d := Date(DigitsValue(t[..4]), MonthDigits(t[4..4 + ml]), DayValue(t[4 + ml..]));
          if Valid(d) then Some(d) else None
  }

  /**
   * `create_weekly_file(filepath, week_range)` (lines 757-768): the header
   * written, `None` for the uncaught `ValueError` of the unpacking at line 759
   * or of the two parses at lines 760-761, which come before the write.
   */
  function CreateWeeklyFile(range: string): (r: Option<string>)
    ensures r.Some? ==> r.value == WeeklyHeader(range)
  {
    var parts := Split(range, '-');
    if |parts| == 2 && ParseCompact(parts[0]).Some? && ParseCompact(parts[1]).Some? then Some(WeeklyHeader(range))
    else None
  }

  /** For a year of four digits, `%Y%m%d` parses the compact text back. */
  lemma ParseCompactText(d: Date)
    requires Valid(d) && d.year >= 1000
    ensures ParseCompact(CompactText(d)) == Some(d)
  {
    var t := CompactText(d);
    var m := Pad2(d.month);
    FourDigitYear(d.year);
    assert t == Pad4(d.year) + m + Pad2(d.day);
    assert |t| == 8 && t[..4] == Pad4(d.year) && t[4..6] == m && t[6..] == Pad2(d.day);
    assert t[4] == m[0] && t[5] == m[1];
    PaddedDayLen(t, 6, d.day);
    Pad4Value(d.year);
    Pad2Value(d.month);
    if d.month >= 10 {
      assert MonthAlt(t, 4, 0) == 2;
      assert CompactMatchFrom(t, 0) == Some((2, 2));
    } else {
      assert MonthAlt(t, 4, 0) == 0;
      assert MonthAlt(t, 4, 1) == 2;
      assert CompactMatchFrom(t, 1) == Some((2, 2));
    }
  }

  /**
   * For a one-digit year the compact text has five characters: `%Y` takes
   * the year and the month, and no day is left for `%d`.
   */
  lemma ParseCompactShortYear(d: Date)
    requires Valid(d) && d.year < 10
    ensures ParseCompact(CompactText(d)) == None
  {
    var t := CompactText(d);
    assert NatToString(d.year) == [DigitChar(d.year)];
    assert |t| == 5;
    assert DayLen(t, 5) == 0;
    assert MonthAlt(t, 4, 0) == 0 && MonthAlt(t, 4, 1) == 0;
    assert CompactMatchFrom(t, 2) == None;
    assert CompactMatchFrom(t, 0) == None;
  }

  /** A week with four-digit years gets its header. */
  lemma WeeklyFileWritten(s: string, d: Date)
    requires ParseIsoDate(s) == Some(d) && WeekRange(s).Week? && d.year >= 1001
    ensures CreateWeeklyFile(WeekRange(s).range) == Some(WeeklyHeader(WeekRange(s).range))
  {
    var monday := MondayOf(d);
    var sunday := Forward(monday, 6).value;
    WeekRangeSplits(s, d);
    MondayYear(d);
    YearsOrdered(monday, sunday);
    ParseCompactText(monday);
    ParseCompactText(sunday);
  }

  /** A week starting in a one-digit year raises before any header is written. */
  lemma WeeklyFileRaises(s: string, d: Date)
    requires ParseIsoDate(s) == Some(d) && WeekRange(s).Week? && MondayOf(d).year < 10
    ensures CreateWeeklyFile(WeekRange(s).range) == None
  {
    WeekRangeSplits(s, d);
    ParseCompactShortYear(MondayOf(d));
  }
}
