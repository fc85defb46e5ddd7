/**
 * `extract_date_from_html` (lines 76-101): the announcement date read from
 * the `<h3>` headings of the arXiv listing page. The page is given as the
 * texts of its `<h3>` elements in document order; downloading and parsing
 * the HTML are not modelled.
 */
module ListingPage {
  import opened Wrappers
  import opened Text
  import Calendar

  const Marker := "Showing new listings for"

  const WeekdayNames: seq<string> :=
    ["Monday", "Tuesday", "Wednesday", "Thursday", "Friday", "Saturday", "Sunday"]

  const MonthNames: seq<string> :=
    ["January", "February", "March", "April", "May", "June",
     "July", "August", "September", "October", "November", "December"]

  /** The index (from `k` on) of the first name occurring at `i`: one alternative group of the pattern. */
  function NameAt(t: string, i: nat, names: seq<string>, k: nat): (r: Option<nat>)
    ensures r.Some? ==> k <= r.value < |names| && OccursAt(t, names[r.value], i)
    ensures r.None? ==> forall n :: k <= n < |names| ==> !OccursAt(t, names[n], i)
    decreases |names| - k
  {
    if k >= |names| then None
    else if OccursAt(t, names[k], i) then Some(k)
    else NameAt(t, i, names, k + 1)
  }

  /** The three groups of a match: day digits, month number, year digits. */
  datatype Found = Found(day: string, month: nat, year: string)

  predicate WellFormed(f: Found) {
    1 <= |f.day| <= 2 && AllDigits(f.day) && 1 <= f.month <= 12 && |f.year| == 4 && AllDigits(f.year)
  }

  /**
   * Length of `(\d{1,2})` followed by whitespace at `p`: two digits when a
   * space follows them, else one digit when a space follows it, else 0.
   */
  function DayDigits(t: string, p: nat): (r: nat)
    ensures r <= 2 && (r > 0 ==> p + r < |t| && AllDigits(t[p..p + r]) && IsSpace(t[p + r]))
  {
    if p + 2 < |t| && IsDigit(t[p]) && IsDigit(t[p + 1]) && IsSpace(t[p + 2]) then 2
    else if p + 1 < |t| && IsDigit(t[p]) && IsSpace(t[p + 1]) then 1
    else 0
  }

  /**
   * A match of `(?:Monday|…|Sunday),\s+(\d{1,2})\s+(January|…|December)\s+(\d{4})`
   * starting at `i`, with its groups.
   */
  function MatchAt(t: string, i: nat): (r: Option<Found>)
    ensures r.Some? ==> WellFormed(r.value)
  {
    MatchWith(t, i, WeekdayNames, MonthNames)
  }

  /** A match at `i` for given weekday and month names. */
  function MatchWith(t: string, i: nat, weekdays: seq<string>, months: seq<string>): (r: Option<Found>)
    requires |months| <= 12
    ensures r.Some? ==> WellFormed(r.value)
  {
    match NameAt(t, i, weekdays, 0)
    case None => None
    case Some(w) => MatchAfterWeekday(t, i + |weekdays[w]|, months)
  }

  /** The rest of a match after the weekday name, which ends at `j`; `months` are the month names. */
  function MatchAfterWeekday(t: string, j: nat, months: seq<string>): (r: Option<Found>)
    requires |months| <= 12
    ensures r.Some? ==> WellFormed(r.value)
  {
    if !(j < |t| && t[j] == ',') then None
    else
      var p := j + 1 + SpaceRun(t, j + 1);
      var dl := DayDigits(t, p);
      if p == j + 1 || dl == 0 then None
      else
        var q := p + dl;
        MatchMonthYear(t, t[p..p + dl], q + SpaceRun(t, q), months)
  }

  /** The month name at `mp` and the year after it, given the day group. */
  function MatchMonthYear(t: string, day: string, mp: nat, months: seq<string>): (r: Option<Found>)
    requires 1 <= |day| <= 2 && AllDigits(day) && |months| <= 12
    ensures r.Some? ==> WellFormed(r.value)
  {
    match NameAt(t, mp, months, 0)
    case None => None
    case Some(m) => MatchYear(t, day, m + 1, mp + |months[m]|)
  }

  /** The year after the month name, which ends at `e`. */
  function MatchYear(t: string, day: string, month: nat, e: nat): (r: Option<Found>)
    requires 1 <= |day| <= 2 && AllDigits(day) && 1 <= month <= 12
    ensures r.Some? ==> WellFormed(r.value)
  {
    var y := e + SpaceRun(t, e);
    if y == e || y + 4 > |t| || !AllDigits(t[y..y + 4]) then None
    else Some(Found(day, month, t[y..y + 4]))
  }

  /** `re.search`: the leftmost position at or after `i` where the pattern matches. */
  function SearchFrom(t: string, i: nat): (r: Option<nat>)
    ensures r.Some? ==> i <= r.value <= |t| && MatchAt(t, r.value).Some?
    ensures forall q :: i <= q <= |t| && (r.None? || q < r.value) ==> MatchAt(t, q).None?
    decreases |t| + 1 - i
  {
    if i > |t| then None
    else if MatchAt(t, i).Some? then Some(i)
    else SearchFrom(t, i + 1)
  }

  /** The match `re.search` finds in `t`, if any. */
  function Search(t: string): Option<Found> {
    match SearchFrom(t, 0)
    case None => None
    case Some(p) => MatchAt(t, p)
  }

  /** `day.zfill(2)` for one or two digits. */
  function ZFill2(day: string): string {
    if |day| < 2 then "0" + day else day
  }

  /** `f"{year}-{month_num}-{day.zfill(2)}"`. */
  function DateText(f: Found): (r: string)
    requires WellFormed(f)
    ensures |r| == 10 && r[4] == '-' && r[7] == '-'
    ensures AllDigits(r[..4]) && AllDigits(r[5..7]) && AllDigits(r[8..])
  {
    var s := f.year + "-" + Pad2(f.month) + "-" + ZFill2(f.day);
    assert s[..4] == f.year && s[5..7] == Pad2(f.month) && s[8..] == ZFill2(f.day);
    s
  }

  /** An `<h3>` that yields the date: it holds the marker and the pattern. */
  predicate Announces(h3: string) {
    Contains(h3, Marker) && Search(h3).Some?
  }

  /** Which headings announce a date, in document order. */
  function Announcing(h3s: seq<string>): (r: seq<bool>)
    ensures |r| == |h3s| && forall i :: 0 <= i < |h3s| ==> r[i] == Announces(h3s[i])
  {
    seq(|h3s|, i requires 0 <= i < |h3s| => Announces(h3s[i]))
  }

  /**
   * The first set flag at or after `k`, or `|flags|`: every flag before it
   * is clear.
   */
  function FirstSet(flags: seq<bool>, k: nat): (r: nat)
    requires k <= |flags|
    ensures k <= r <= |flags| && (r < |flags| ==> flags[r])
    ensures forall i :: k <= i < r ==> !flags[i]
    decreases |flags| - k
  {
    if k < |flags| && !flags[k] then FirstSet(flags, k + 1) else k
  }

  /**
   * `extract_date_from_html` on a page whose headings are `h3s`: the date of
   * the first heading that holds the marker and the pattern; every earlier
   * heading lacks one of them.
   */
  function ListingDate(h3s: seq<string>): (r: Option<string>)
    ensures r.None? <==> forall i :: 0 <= i < |h3s| ==> !Announces(h3s[i])
    ensures r.Some? ==> exists j :: 0 <= j < |h3s| && Announces(h3s[j]) && r.value == DateText(Search(h3s[j]).value)
                                      && forall i :: 0 <= i < j ==> !Announces(h3s[i])
  {
    var j := FirstSet(Announcing(h3s), 0);
    if j == |h3s| then None else Some(DateText(Search(h3s[j]).value))
  }

  /** The first announcing heading gives the date, whatever follows it. */
  lemma ListingDateFirst(h3s: seq<string>, j: nat)
    requires j < |h3s| && Announces(h3s[j])
    requires forall i :: 0 <= i < j ==> !Announces(h3s[i])
    ensures ListingDate(h3s) == Some(DateText(Search(h3s[j]).value))
  {
    var flags := Announcing(h3s);
    assert flags[j];
  }

  /** The loop of lines 76-99: the first announcing heading decides. */
  method FindListingDate(h3s: seq<string>) returns (r: Option<string>)
    ensures r == ListingDate(h3s)
  {
    ghost var flags := Announcing(h3s);
    var k := 0;
    while k < |h3s|
      invariant 0 <= k <= |h3s|
      invariant FirstSet(flags, k) == FirstSet(flags, 0)
    {
      var text := h3s[k];
      if Contains(text, Marker) {
        var found := Search(text);
        if found.Some? {
          assert flags[k];
          return Some(DateText(found.value));
        }
      }
      assert !flags[k];
      k := k + 1;
    }
    return None;
  }

  /** No two names agree on their first three letters, so at most one can occur at a position. */
  predicate Distinct3(names: seq<string>) {
    (forall a :: 0 <= a < |names| ==> |names[a]| >= 3 && 'A' <= names[a][0] <= 'Z') &&
    forall a, b :: 0 <= a < b < |names| ==>
      names[a][0] != names[b][0] || names[a][1] != names[b][1] || names[a][2] != names[b][2]
  }

  lemma WeekdaysDistinct()
    ensures Distinct3(WeekdayNames)
  {
  }

  lemma MonthsDistinct()
    ensures Distinct3(MonthNames)
  {
    var m := MonthNames;
    forall a, b | 0 <= a < b < |m|
      ensures m[a][0] != m[b][0] || m[a][1] != m[b][1] || m[a][2] != m[b][2]
    {
      assert a < 12 && b < 12;
    }
  }

  /** When name `w` occurs at `i`, the alternative group picks it. */
  lemma {:induction false} NameAtPicks(t: string, i: nat, names: seq<string>, k: nat, w: nat)
    requires Distinct3(names) && k <= w < |names| && OccursAt(t, names[w], i)
    ensures NameAt(t, i, names, k) == Some(w)
    decreases w - k
  {
    if k < w {
      assert t[i] == names[w][0] && t[i + 1] == names[w][1] && t[i + 2] == names[w][2] by {
        assert t[i..i + |names[w]|] == names[w];
      }
      assert !OccursAt(t, names[k], i) by {
        assert names[k][0] != names[w][0] || names[k][1] != names[w][1] || names[k][2] != names[w][2];
      }
      NameAtPicks(t, i, names, k + 1, w);
    }
  }

  /** A run of whitespace of length one. */
  lemma OneSpace(t: string, i: nat)
    requires i + 1 < |t| && t[i] == ' ' && (IsDigit(t[i + 1]) || 'A' <= t[i + 1] <= 'Z')
    ensures SpaceRun(t, i) == 1
  {
    NotSpace(t[i]);
    NotSpace(t[i + 1]);
    assert SpaceRun(t, i + 1) == 0;
  }

  /** The heading text of a day, as `Monday, 3 November 2025`. */
  function Heading(w: nat, day: string, m: nat, year: string): string
    requires w < 7 && m < 12
  {
    WeekdayNames[w] + (", " + (day + (" " + (MonthNames[m] + (" " + year)))))
  }

  /** A blank followed by a string that starts with a digit or a capital letter. */
  lemma BlankThen(t: string, i: nat, rest: string)
    requires OccursAt(t, " " + rest, i) && |rest| >= 1 && (IsDigit(rest[0]) || 'A' <= rest[0] <= 'Z')
    ensures SpaceRun(t, i) == 1 && OccursAt(t, rest, i + 1)
  {
    OccursConcat(t, " ", rest, i);
    assert t[i] == t[i..i + 1][0];
    assert t[i + 1] == t[i + 1..i + 1 + |rest|][0];
    OneSpace(t, i);
  }

  /** A space and four digits after the month name. */
  lemma YearPart(t: string, day: string, month: nat, e: nat, year: string)
    requires 1 <= |day| <= 2 && AllDigits(day) && 1 <= month <= 12 && |year| == 4 && AllDigits(year)
    requires OccursAt(t, " " + year, e)
    ensures MatchYear(t, day, month, e) == Some(Found(day, month, year))
  {
    BlankThen(t, e, year);
  }

  /** The month name, then the year. */
  lemma MonthYearPart(t: string, mp: nat, day: string, months: seq<string>, m: nat, year: string)
    requires 1 <= |day| <= 2 && AllDigits(day) && |year| == 4 && AllDigits(year)
    requires Distinct3(months) && m < |months| <= 12
    requires OccursAt(t, months[m] + (" " + year), mp)
    ensures MatchMonthYear(t, day, mp, months) == Some(Found(day, m + 1, year))
  {
    OccursConcat(t, months[m], " " + year, mp);
    NameAtPicks(t, mp, months, 0, m);
    YearPart(t, day, m + 1, mp + |months[m]|, year);
  }

  /** The day group takes exactly the digits before the blank. */
  lemma DayGroup(t: string, p: nat, day: string, rest: string)
    requires 1 <= |day| <= 2 && AllDigits(day) && |rest| >= 1 && OccursAt(t, day + (" " + rest), p)
    ensures DayDigits(t, p) == |day| && t[p..p + |day|] == day
  {
    OccursConcat(t, day, " " + rest, p);
    OccursConcat(t, " ", rest, p + |day|);
    assert t[p] == t[p..p + |day|][0];
    assert t[p + |day|] == t[p + |day|..p + |day| + 1][0] == ' ';
    NotSpace(t[p + |day|]);
    NotSpace(t[p]);
    if |day| == 2 {
      assert t[p + 1] == t[p..p + |day|][1];
      NotSpace(t[p + 1]);
    }
  }

  /** What follows the weekday name: the comma, the day, the month and the year. */
  lemma AfterWeekdayPart(t: string, j: nat, day: string, months: seq<string>, m: nat, year: string)
    requires 1 <= |day| <= 2 && AllDigits(day) && |year| == 4 && AllDigits(year)
    requires Distinct3(months) && m < |months| <= 12
    requires OccursAt(t, ", " + (day + (" " + (months[m] + (" " + year)))), j)
    ensures MatchAfterWeekday(t, j, months) == Some(Found(day, m + 1, year))
  {
    var month := months[m] + (" " + year);
    var n := |day|;
    assert 'A' <= month[0] <= 'Z';
    CommaDayMonth(t, j, day, month);
    WeekdayTail(t, j, n, months);
    MonthYearPart(t, j + 3 + n, day, months, m, year);
  }

  /** The comma, one blank, the day, one blank and the month text from `j`. */
  lemma CommaDayMonth(t: string, j: nat, day: string, month: string)
    requires 1 <= |day| <= 2 && AllDigits(day) && |month| >= 1 && 'A' <= month[0] <= 'Z'
    requires OccursAt(t, ", " + (day + (" " + month)), j)
    ensures j < |t| && t[j] == ',' && SpaceRun(t, j + 1) == 1
    ensures DayDigits(t, j + 2) == |day| && t[j + 2..j + 2 + |day|] == day
    ensures SpaceRun(t, j + 2 + |day|) == 1 && OccursAt(t, month, j + 3 + |day|)
  {
    assert IsDigit((day + (" " + month))[0]);
    CommaBlank(t, j, day + (" " + month));
    DayThenMonth(t, j + 2, day, month);
  }

  /** `,` and one blank before a digit. */
  lemma CommaBlank(t: string, j: nat, rest: string)
    requires |rest| >= 1 && IsDigit(rest[0]) && OccursAt(t, ", " + rest, j)
    ensures j < |t| && t[j] == ',' && SpaceRun(t, j + 1) == 1 && OccursAt(t, rest, j + 2)
  {
    OccursConcat(t, ", ", rest, j);
    assert t[j] == ',' by {
      OccursConcat(t, ",", " ", j);
      assert t[j] == t[j..j + 1][0];
    }
    assert ", " + rest == "," + (" " + rest);
    OccursConcat(t, ",", " " + rest, j);
    BlankThen(t, j + 1, rest);
  }

  /** The day digits, one blank and the month text from `p`. */
  lemma DayThenMonth(t: string, p: nat, day: string, month: string)
    requires 1 <= |day| <= 2 && AllDigits(day) && |month| >= 1 && 'A' <= month[0] <= 'Z'
    requires OccursAt(t, day + (" " + month), p)
    ensures DayDigits(t, p) == |day| && t[p..p + |day|] == day
    ensures SpaceRun(t, p + |day|) == 1 && OccursAt(t, month, p + |day| + 1)
  {
    DayGroup(t, p, day, month);
    OccursConcat(t, day, " " + month, p);
    BlankThen(t, p + |day|, month);
  }

  /** With a comma, one blank, `n` day digits and one blank, the match goes on at the month. */
  lemma WeekdayTail(t: string, j: nat, n: nat, months: seq<string>)
    requires |months| <= 12 && 1 <= n <= 2
    requires j < |t| && t[j] == ',' && SpaceRun(t, j + 1) == 1
    requires DayDigits(t, j + 2) == n && SpaceRun(t, j + 2 + n) == 1
    ensures j + 2 + n <= |t| && AllDigits(t[j + 2..j + 2 + n])
    ensures MatchAfterWeekday(t, j, months) == MatchMonthYear(t, t[j + 2..j + 2 + n], j + 3 + n, months)
  {
  }

  /**
   * The pattern recognises the page's heading for every weekday, month, day
   * of one or two digits and year of four digits, wherever it stands in the
   * text, and yields those groups.
   */
  lemma HeadingMatches(t: string, i: nat, w: nat, day: string, m: nat, year: string)
    requires w < 7 && m < 12 && 1 <= |day| <= 2 && AllDigits(day) && |year| == 4 && AllDigits(year)
    requires OccursAt(t, Heading(w, day, m, year), i)
    ensures MatchAt(t, i) == Some(Found(day, m + 1, year))
  {
    WeekdaysDistinct();
    MonthsDistinct();
    HeadingMatchesWith(t, i, WeekdayNames, w, day, MonthNames, m, year);
  }

  lemma HeadingMatchesWith(t: string, i: nat, weekdays: seq<string>, w: nat, day: string,
                           months: seq<string>, m: nat, year: string)
    requires Distinct3(weekdays) && w < |weekdays| && Distinct3(months) && m < |months| <= 12
    requires 1 <= |day| <= 2 && AllDigits(day) && |year| == 4 && AllDigits(year)
    requires OccursAt(t, weekdays[w] + (", " + (day + (" " + (months[m] + (" " + year))))), i)
    ensures MatchWith(t, i, weekdays, months) == Some(Found(day, m + 1, year))
  {
    OccursConcat(t, weekdays[w], ", " + (day + (" " + (months[m] + (" " + year)))), i);
    NameAtPicks(t, i, weekdays, 0, w);
    AfterWeekdayPart(t, i + |weekdays[w]|, day, months, m, year);
  }

  /** The date the groups name. */
  function FoundDate(f: Found): Calendar.Date
    requires WellFormed(f)
  {
    Calendar.Date(DigitsValue(f.year), f.month, DigitsValue(f.day))
  }

  /**
   * The date text is accepted by `strptime(…, '%Y-%m-%d')` in the later
   * steps exactly when it names a real date, and then it parses to that date.
   */
  lemma DateTextParses(f: Found)
    requires WellFormed(f)
    ensures Calendar.ParseIsoDate(DateText(f)) == if Calendar.Valid(FoundDate(f)) then Some(FoundDate(f)) else None
  {
    var d := FoundDate(f);
    var s := DateText(f);
    var dd := ZFill2(f.day);
    Pad4OfDigits(f.year);
    assert |dd| == 2 && AllDigits(dd) by {
      if |f.day| < 2 {
        assert dd[1] == f.day[0];
      }
    }
    Pad2OfDigits(dd);
    ZFillValue(f.day);
    assert s == Pad4(d.year) + "-" + Pad2(d.month) + "-" + Pad2(d.day);
    if Calendar.Valid(d) {
      assert s == Calendar.IsoText(d);
      Calendar.ParseIsoText(d);
    } else {
      RejectsInvalid(s, d);
    }
  }

  lemma ZFillValue(day: string)
    requires 1 <= |day| <= 2 && AllDigits(day)
    ensures DigitsValue(ZFill2(day)) == DigitsValue(day)
  {
    if |day| == 1 {
      var z := ZFill2(day);
      assert z[..1] == "0" && z[..1][..0] == [];
      assert day[..0] == [];
    }
  }

  /** The padded text of an impossible date does not parse. */
  lemma RejectsInvalid(s: string, d: Calendar.Date)
    requires 0 <= d.year < 10000 && 1 <= d.month <= 12 && 0 <= d.day < 100 && !Calendar.Valid(d)
    requires s == Pad4(d.year) + "-" + Pad2(d.month) + "-" + Pad2(d.day)
    ensures Calendar.ParseIsoDate(s) == None
  {
    assert s[..4] == Pad4(d.year) && s[5..7] == Pad2(d.month) && s[8..] == Pad2(d.day);
    match Calendar.MatchFrom(s, 0)
    case None =>
    case Some((ml, dl)) =>
      if 6 + ml + dl == |s| {
        assert ml == 2 && dl == 2;
        Pad4Value(d.year);
        Pad2Value(d.month);
        Pad2Value(d.day);
        assert Calendar.MonthDigits(s[5..7]) == d.month;
        assert Calendar.DayValue(s[8..]) == d.day;
      }
  }
}
