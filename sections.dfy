/**
 * The dated sections of a daily Markdown file, as `update_markdown_file`
 * finds them with the pattern `(^|\n)##\s*(\d{4}-\d{2}-\d{2}).*?(?=\n##\s|\Z)`
 * (dot matching newlines) and `finditer` (lines 657-665). The pattern is
 * replaced by an explicit left-to-right scanner.
 */
module Sections {
  import opened Wrappers
  import opened Text

  /** One match: the date group, the match text without its leading newline, and the match start. */
  datatype Section = Section(date: string, content: string, start: nat)

  /** `\d{4}-\d{2}-\d{2}` at `i`. */
  predicate DateShapeAt(t: string, i: nat) {
    && i + 10 <= |t|
    && IsDigit(t[i]) && IsDigit(t[i + 1]) && IsDigit(t[i + 2]) && IsDigit(t[i + 3])
    && t[i + 4] == '-' && IsDigit(t[i + 5]) && IsDigit(t[i + 6])
    && t[i + 7] == '-' && IsDigit(t[i + 8]) && IsDigit(t[i + 9])
  }

  predicate DateShape(s: string) {
    |s| == 10 && DateShapeAt(s, 0)
  }

  /**
   * `##\s*` and the date group at `h`: where the date starts, if they match.
   * A digit is not whitespace, so backtracking into `\s*` never helps and
   * the greedy run is the only candidate.
   */
  function HeaderDate(t: string, h: nat): (r: Option<nat>)
    ensures r.Some? ==> r.value == h + 2 + SpaceRun(t, h + 2) && DateShapeAt(t, r.value)
    ensures r.Some? ==> h + 2 <= |t| && t[h] == '#' && t[h + 1] == '#'
  {
    if h + 2 <= |t| && t[h] == '#' && t[h + 1] == '#' then
      var d := h + 2 + SpaceRun(t, h + 2);
      if DateShapeAt(t, d) then Some(d) else None
    else None
  }

  /** The lookahead `(?=\n##\s|\Z)` at `q`. */
  predicate Boundary(t: string, q: nat) {
    q == |t| || (q + 4 <= |t| && t[q] == '\n' && t[q + 1] == '#' && t[q + 2] == '#' && IsSpace(t[q + 3]))
  }

  /** The lazy `.*?` from `q`: the first position at or after `q` where the lookahead holds. */
  function NextBoundary(t: string, q: nat): (e: nat)
    requires q <= |t|
    ensures q <= e <= |t| && Boundary(t, e)
    ensures forall k :: q <= k < e ==> !Boundary(t, k)
    decreases |t| - q
  {
    if Boundary(t, q) then q else NextBoundary(t, q + 1)
  }

  /** Where a match found at some position has its `##`, its date and its end. */
  datatype Match = Match(hash: nat, date: nat, end: nat)

  /**
   * The pattern tried at `p`: the `^` alternative first, which only holds at
   * 0, then the `\n` alternative.
   */
  function MatchAt(t: string, p: nat): (r: Option<Match>)
    requires p <= |t|
    ensures r.Some? ==> r.value.hash == p || (r.value.hash == p + 1 && p < |t| && t[p] == '\n')
    ensures r.Some? ==> p > 0 ==> r.value.hash == p + 1
    ensures r.Some? ==> HeaderDate(t, r.value.hash) == Some(r.value.date)
    ensures r.Some? ==> r.value.end == NextBoundary(t, r.value.date + 10)
  {
    var atStart := if p == 0 then HeaderDate(t, 0) else None;
    if atStart.Some? then
      Some(Match(0, atStart.value, NextBoundary(t, atStart.value + 10)))
    else if p < |t| && t[p] == '\n' then
      match HeaderDate(t, p + 1)
      case None => None
      case Some(d) => Some(Match(p + 1, d, NextBoundary(t, d + 10)))
    else None
  }

  /** What a match `m` found at `p` satisfies. */
  predicate Matched(t: string, p: nat, m: Match) {
    && p <= |t|
    && (m.hash == p || (m.hash == p + 1 && p < |t| && t[p] == '\n'))
    && (p > 0 ==> m.hash == p + 1)
    && HeaderDate(t, m.hash) == Some(m.date)
    && m.end == NextBoundary(t, m.date + 10)
  }

  lemma MatchAtMatched(t: string, p: nat)
    requires p <= |t| && MatchAt(t, p).Some?
    ensures Matched(t, p, MatchAt(t, p).value)
  {
  }

  /** The tuple built at lines 661-664 from a match at `p`. */
  function SectionOf(t: string, p: nat, m: Match): Section
    requires Matched(t, p, m)
  {
    Section(t[m.date..m.date + 10], LStripChar(t[p..m.end], '\n'), p)
  }

  /** Where the section's `##` sits: one past a leading newline. */
  function HashAt(t: string, s: Section): nat {
    if s.start < |t| && t[s.start] == '\n' then s.start + 1 else s.start
  }

  /** Where a section found in `t` sits: its text starts at its `##` and ends before a boundary. */
  predicate Placed(t: string, s: Section) {
    && s.start < |t|
    && (s.start > 0 ==> t[s.start] == '\n')
    && var h := HashAt(t, s);
       OccursAt(t, s.content, h) && StartsWith(s.content, "##") && |s.content| >= 12
       && Boundary(t, h + |s.content|)
  }

  /** The section's date is the date group after its `##` and whitespace. */
  predicate Dated(t: string, s: Section) {
    var h := HashAt(t, s);
    var d := h + 2 + SpaceRun(t, h + 2);
    d + 10 <= h + |s.content| <= |t| && s.date == t[d..d + 10] && DateShape(s.date)
  }

  /** What every section found in `t` satisfies. */
  predicate SectionIn(t: string, s: Section) {
    Placed(t, s) && Dated(t, s)
  }

  lemma LStripOneNewline(g: string)
    requires |g| >= 2 && g[0] == '\n' && g[1] != '\n'
    ensures LStripChar(g, '\n') == g[1..]
  {
    assert LStripChar(g, '\n') == LStripChar(g[1..], '\n');
    assert g[1..][0] == g[1];
  }

  /** The section's text is the match from its `##` on. */
  lemma ContentOf(t: string, p: nat, m: Match)
    requires Matched(t, p, m)
    ensures m.date + 10 <= m.end <= |t| && m.hash + 2 <= m.date
    ensures SectionOf(t, p, m).content == t[m.hash..m.end]
    ensures HashAt(t, SectionOf(t, p, m)) == m.hash
    ensures m.date == m.hash + 2 + SpaceRun(t, m.hash + 2) && DateShapeAt(t, m.date)
    ensures m.hash + 12 <= m.end && t[m.hash] == '#' && t[m.hash + 1] == '#' && Boundary(t, m.end)
    ensures p < |t| && (p > 0 ==> t[p] == '\n')
  {
    var g := t[p..m.end];
    if m.hash == p + 1 {
      assert g[0] == '\n' && g[1] == '#';
      LStripOneNewline(g);
      assert g[1..] == t[m.hash..m.end];
    } else {
      assert g[0] == '#';
    }
  }

  lemma SectionOfIn(t: string, p: nat, m: Match)
    requires Matched(t, p, m)
    ensures m.end <= |t| && SectionIn(t, SectionOf(t, p, m))
    ensures SectionOf(t, p, m).start + |SectionOf(t, p, m).content| <= m.end
  {
    ContentOf(t, p, m);
    SectionFits(t, SectionOf(t, p, m), m.hash, m.date, m.end);
  }

  /** A section built from a `##` at `h`, a date at `d` and a boundary at `e` lies in the text. */
  lemma SectionFits(t: string, s: Section, h: nat, d: nat, e: nat)
    requires s.start < |t| && (h == s.start || (h == s.start + 1 && t[s.start] == '\n'))
    requires s.start > 0 ==> h == s.start + 1
    requires h + 2 <= |t| && t[h] == '#' && t[h + 1] == '#'
    requires d == h + 2 + SpaceRun(t, h + 2) && DateShapeAt(t, d)
    requires d + 10 <= e <= |t| && Boundary(t, e)
    requires s.date == t[d..d + 10] && s.content == t[h..e]
    ensures SectionIn(t, s)
  {
    assert HashAt(t, s) == h;
    SectionOfPlaced(t, s, h, e);
    SectionOfDated(t, s, h, d);
  }

  lemma SectionOfPlaced(t: string, s: Section, h: nat, e: nat)
    requires s.start < |t| && (s.start > 0 ==> t[s.start] == '\n') && HashAt(t, s) == h
    requires h + 12 <= e <= |t| && t[h] == '#' && t[h + 1] == '#' && Boundary(t, e)
    requires s.content == t[h..e]
    ensures Placed(t, s)
  {
    assert s.content[..2] == t[h..h + 2];
  }

  lemma SectionOfDated(t: string, s: Section, h: nat, d: nat)
    requires HashAt(t, s) == h && d == h + 2 + SpaceRun(t, h + 2) && DateShapeAt(t, d)
    requires d + 10 <= h + |s.content| <= |t| && s.date == t[d..d + 10]
    ensures Dated(t, s)
  {
    assert forall k :: 0 <= k < 10 ==> s.date[k] == t[d + k];
  }

  /** The matches of `finditer` from `pos` on, in order (lines 660-665). */
  function SectionsFrom(t: string, pos: nat): seq<Section>
    requires pos <= |t|
    decreases |t| - pos
  {
    match MatchAt(t, pos)
    case Some(m) =>
      MatchAtMatched(t, pos);
      ContentOf(t, pos, m);
      [SectionOf(t, pos, m)] + SectionsFrom(t, m.end)
    case None =>
      if pos == |t| then [] else SectionsFrom(t, pos + 1)
  }

  /** Every match lies in the text, as `SectionIn` says. */
  lemma {:induction false} SectionsFromIn(t: string, pos: nat)
    requires pos <= |t|
    ensures forall s :: s in SectionsFrom(t, pos) ==> SectionIn(t, s)
    decreases |t| - pos
  {
    match MatchAt(t, pos)
    case Some(m) =>
      MatchAtMatched(t, pos);
      SectionOfIn(t, pos, m);
      SectionsFromIn(t, m.end);
    case None =>
      if pos < |t| {
        SectionsFromIn(t, pos + 1);
      }
  }

  /** Sections in strictly increasing order of their starts. */
  predicate Ordered(ss: seq<Section>) {
    forall i, j :: 0 <= i < j < |ss| ==> ss[i].start < ss[j].start
  }

  /** Matches come in document order, each starting at or after `pos`. */
  lemma {:induction false} SectionsFromOrdered(t: string, pos: nat)
    requires pos <= |t|
    ensures forall s :: s in SectionsFrom(t, pos) ==> pos <= s.start
    ensures Ordered(SectionsFrom(t, pos))
    decreases |t| - pos
  {
    match MatchAt(t, pos)
    case Some(m) =>
      MatchAtMatched(t, pos);
      ContentOf(t, pos, m);
      SectionsFromOrdered(t, m.end);
      SectionsFromMatch(t, pos, m);
      OrderedCons(SectionOf(t, pos, m), SectionsFrom(t, m.end), m.end);
    case None =>
      if pos < |t| {
        SectionsFromOrdered(t, pos + 1);
        SectionsFromSkip(t, pos);
      }
  }

  lemma SectionsFromMatch(t: string, pos: nat, m: Match)
    requires pos <= |t| && MatchAt(t, pos) == Some(m)
    ensures Matched(t, pos, m) && m.end <= |t| && pos < m.end
    ensures SectionsFrom(t, pos) == [SectionOf(t, pos, m)] + SectionsFrom(t, m.end)
  {
    MatchAtMatched(t, pos);
    ContentOf(t, pos, m);
  }

  lemma SectionsFromSkip(t: string, pos: nat)
    requires pos < |t| && MatchAt(t, pos).None?
    ensures SectionsFrom(t, pos) == SectionsFrom(t, pos + 1)
  {
  }

  /** A section placed before every section of an ordered list keeps it ordered. */
  lemma OrderedCons(x: Section, rest: seq<Section>, bound: nat)
    requires x.start < bound && Ordered(rest)
    requires forall s :: s in rest ==> bound <= s.start
    ensures Ordered([x] + rest)
    ensures forall s :: s in [x] + rest ==> x.start <= s.start
  {
    var r := [x] + rest;
    assert forall i :: 0 < i < |r| ==> r[i] == rest[i - 1] && r[i] in rest;
  }

  /** The list `all_sections` of lines 660-665. */
  function SectionsOf(t: string): seq<Section> {
    SectionsFrom(t, 0)
  }

  /** The sections found in a file lie in it and come in document order. */
  lemma SectionsOfIn(t: string)
    ensures forall s :: s in SectionsOf(t) ==> SectionIn(t, s)
    ensures Ordered(SectionsOf(t))
  {
    SectionsFromIn(t, 0);
    SectionsFromOrdered(t, 0);
  }

  /**
   * A file holding one section as the merge writes it: its heading
   * `## <date>` and a body in which no line starts with `##` and whitespace
   * is found as exactly that one section.
   */
  lemma ScanSingle(date: string, body: string)
    requires DateShape(date)
    requires forall q :: 0 <= q < |body| ==> !Boundary(body, q)
    ensures SectionsOf("## " + date + body) == [Section(date, "## " + date + body, 0)]
  {
    var t := "## " + date + body;
    ScanHeader(date, body);
    ScanBody(date, body);
    NoBoundaryUntilEnd(t, 13);
    assert MatchAt(t, 0) == Some(Match(0, 3, |t|));
    assert t[0..|t|] == t;
    assert LStripChar(t, '\n') == t;
    assert SectionsFrom(t, |t|) == [];
  }

  lemma ScanHeader(date: string, body: string)
    requires DateShape(date)
    ensures var t := "## " + date + body; |t| >= 13 && t[3..13] == date && HeaderDate(t, 0) == Some(3)
  {
    var t := "## " + date + body;
    assert t[3..13] == date;
    assert SpaceRun(t, 3) == 0;
    assert SpaceRun(t, 2) == 1;
  }

  lemma ScanBody(date: string, body: string)
    requires |date| == 10
    requires forall q :: 0 <= q < |body| ==> !Boundary(body, q)
    ensures var t := "## " + date + body; forall k :: 13 <= k < |t| ==> !Boundary(t, k)
  {
    var t := "## " + date + body;
    forall k | 13 <= k < |t|
      ensures !Boundary(t, k)
    {
      assert !Boundary(body, k - 13);
      if k + 4 <= |t| {
        assert t[k] == body[k - 13] && t[k + 1] == body[k - 12];
        assert t[k + 2] == body[k - 11] && t[k + 3] == body[k - 10];
      }
    }
  }

  lemma {:induction false} NoBoundaryUntilEnd(t: string, q: nat)
    requires q <= |t|
    requires forall k :: q <= k < |t| ==> !Boundary(t, k)
    ensures NextBoundary(t, q) == |t|
    decreases |t| - q
  {
    if q < |t| {
      NoBoundaryUntilEnd(t, q + 1);
    }
  }
}
