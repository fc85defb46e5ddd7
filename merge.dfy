/**
 * `update_markdown_file` (lines 642-741): the day's papers become one
 * `## <date>` section, which replaces the first section of the same date,
 * goes before the first section of a later date, or is appended; the file
 * is then written back as the stripped text plus one newline.
 */
module Merge {
  import opened Wrappers
  import opened Text
  import opened Papers
  import opened Rendering
  import opened Sections

  /** The papers of `ps` that satisfy `f`, in their order (the comprehensions of lines 671-675). */
  function Keep(ps: seq<Paper>, f: Paper -> bool): (r: seq<Paper>)
    ensures |r| <= |ps|
    ensures forall p :: p in r <==> p in ps && f(p)
    decreases |ps|
  {
    if ps == [] then []
    else
      assert forall p :: p in ps <==> p == ps[0] || p in ps[1..];
      (if f(ps[0]) then [ps[0]] else []) + Keep(ps[1..], f)
  }

  /** `Keep` takes each paper as often as it occurs, or not at all. */
  lemma {:induction false} KeepCounts(ps: seq<Paper>, f: Paper -> bool)
    ensures forall p :: multiset(Keep(ps, f))[p] == if f(p) then multiset(ps)[p] else 0
    decreases |ps|
  {
    if ps != [] {
      KeepCounts(ps[1..], f);
      assert ps == [ps[0]] + ps[1..];
      assert multiset(ps) == multiset([ps[0]]) + multiset(ps[1..]);
    }
  }

  /** However the papers are ordered, `Keep` selects the same papers. */
  lemma KeepPermutation(a: seq<Paper>, b: seq<Paper>, f: Paper -> bool)
    requires multiset(a) == multiset(b)
    ensures multiset(Keep(a, f)) == multiset(Keep(b, f))
    ensures |Keep(a, f)| == |Keep(b, f)|
  {
    KeepCounts(a, f);
    KeepCounts(b, f);
    assert multiset(Keep(a, f)) == multiset(Keep(b, f));
    assert |multiset(Keep(a, f))| == |Keep(a, f)|;
    assert |multiset(Keep(b, f))| == |Keep(b, f)|;
  }

  predicate IsOther(p: Paper) { !IsPrimary(p) }
  predicate Reinforcement(p: Paper) { p.rlMatch }
  predicate Acceleration(p: Paper) { p.acceleratMatch }

  /** Lines 673-677. */
  function Primaries(ps: seq<Paper>): seq<Paper> { Keep(ps, IsPrimary) }
  function Others(ps: seq<Paper>): seq<Paper> { Keep(ps, IsOther) }
  function RlPapers(ps: seq<Paper>): seq<Paper> { Keep(Others(ps), Reinforcement) }
  function AccelPapers(ps: seq<Paper>): seq<Paper> { Keep(Others(ps), Acceleration) }

  /** The entries of `ps`, one after another. */
  function Entries(ps: seq<Paper>, date: string): string
    decreases |ps|
  {
    if ps == [] then "" else Entries(ps[..|ps| - 1], date) + EntryText(ps[|ps| - 1], Some(date))
  }

  /** The three group headings (lines 677, 681, 685). */
  function DcHeading(n: nat): string {
    "**cs.DC total: " + NatToString(n) + "**\n\n"
  }

  function RlHeading(n: nat): string {
    "\n**cs.AI/cs.LG contains \"reinforcement learning\" total: " + NatToString(n) + "**\n"
  }

  function AccelHeading(n: nat): string {
    "\n**cs.AI/cs.LG contains \"accelerate\" total: " + NatToString(n) + "**\n"
  }

  /** The section body for a non-empty paper list (lines 669-687). */
  function Groups(ps: seq<Paper>, date: string): string {
    DcHeading(|Primaries(ps)|) + Entries(Primaries(ps), date)
    + RlHeading(|RlPapers(ps)|) + Entries(RlPapers(ps), date)
    + AccelHeading(|AccelPapers(ps)|) + Entries(AccelPapers(ps), date)
  }

  /** `papers_content` (lines 668-689). */
  function SectionText(ps: seq<Paper>, date: string): string {
    "## " + date + "\n\n" + (if ps != [] then Groups(ps, date) else "No papers today\n")
  }

  lemma EntriesSnoc(ps: seq<Paper>, i: nat, date: string)
    requires i < |ps|
    ensures Entries(ps[..i + 1], date) == Entries(ps[..i], date) + EntryText(ps[i], Some(date))
  {
    assert ps[..i + 1][..i] == ps[..i];
  }

  lemma AppendStep(content: string, r: string, ps: seq<Paper>, i: nat, date: string, entry: string)
    requires i < |ps| && r == content + Entries(ps[..i], date) && entry == EntryText(ps[i], Some(date))
    ensures r + entry == content + Entries(ps[..i + 1], date)
  {
    EntriesSnoc(ps, i, date);
  }

  /** Appends the entry of each paper of `ps` to `content` (the loops of lines 677-687). */
  method AppendEntries(content: string, ps: seq<Paper>, date: string) returns (r: string)
    ensures r == content + Entries(ps, date)
  {
    r := content;
    var i := 0;
    while i < |ps|
      invariant 0 <= i <= |ps| && r == content + Entries(ps[..i], date)
    {
      var entry := FormatPaper(ps[i], Some(date));
      AppendStep(content, r, ps, i, date, entry);
      r := r + entry;
      i := i + 1;
    }
    EntriesAll(ps, date);
  }

  lemma EntriesAll(ps: seq<Paper>, date: string)
    ensures Entries(ps[..|ps|], date) == Entries(ps, date)
  {
    assert ps[..|ps|] == ps;
  }

  /** Lines 668-689 as the source builds the section. */
  method BuildSection(ps: seq<Paper>, date: string) returns (content: string)
    ensures content == SectionText(ps, date)
  {
    content := "## " + date + "\n\n";
    if ps != [] {
      var csdc := Primaries(ps);
      var rl := RlPapers(ps);
      var accel := AccelPapers(ps);
      var body := DcHeading(|csdc|);
      body := AppendEntries(body, csdc, date);
      body := body + RlHeading(|rl|);
      body := AppendEntries(body, rl, date);
      body := body + AccelHeading(|accel|);
      body := AppendEntries(body, accel, date);
      content := content + body;
    } else {
      content := content + "No papers today\n";
    }
  }

  /** The group counts do not depend on the order in which the papers arrive. */
  lemma CountsIgnoreOrder(a: seq<Paper>, b: seq<Paper>)
    requires multiset(a) == multiset(b)
    ensures |Primaries(a)| == |Primaries(b)|
    ensures |RlPapers(a)| == |RlPapers(b)| && |AccelPapers(a)| == |AccelPapers(b)|
  {
    KeepPermutation(a, b, IsPrimary);
    KeepPermutation(a, b, IsOther);
    KeepPermutation(Others(a), Others(b), Reinforcement);
    KeepPermutation(Others(a), Others(b), Acceleration);
  }

  /** Ends in one line break after a non-whitespace character. */
  predicate EndsClean(s: string) {
    |s| >= 2 && s[|s| - 1] == '\n' && !IsSpace(s[|s| - 2])
  }

  lemma EndsCleanAppend(x: string, y: string)
    requires EndsClean(y)
    ensures EndsClean(x + y)
  {
    assert (x + y)[|x + y| - 1] == y[|y| - 1] && (x + y)[|x + y| - 2] == y[|y| - 2];
  }

  /** The entries of papers outside the primary category end cleanly, one line each. */
  lemma {:induction false} OtherEntriesEnd(ps: seq<Paper>, date: string)
    requires ps != [] && forall p :: p in ps ==> IsOther(p)
    ensures EndsClean(Entries(ps, date))
  {
    var p := ps[|ps| - 1];
    assert p in ps;
    var e := EntryText(p, Some(date));
    assert e == EntryLine(EntryPrefix(Some(date)), p.title, CompactLink(p));
    LineEndsClean(EntryPrefix(Some(date)), p.title, CompactLink(p));
    assert Entries(ps, date) == Entries(ps[..|ps| - 1], date) + e;
    EndsCleanAppend(Entries(ps[..|ps| - 1], date), e);
  }

  /** A compact entry line ends in `)` and one line break. */
  lemma LineEndsClean(prefix: string, title: string, link: string)
    ensures EndsClean(EntryLine(prefix, title, link))
  {
    var t := EntryLine(prefix, title, link);
    assert t == ("- " + prefix + " " + title + " [link](" + link) + ")\n";
    assert t[|t| - 2] == ')';
  }

  /** A section text to splice: starts with `#` and ends in exactly one newline. */
  predicate Proper(s: string) {
    s != [] && s[0] == '#' && EndsClean(s)
  }

  /** `papers_content` ends in exactly one line break (lines 677-687). */
  lemma SectionProper(ps: seq<Paper>, date: string)
    requires ps != []
    ensures Proper(SectionText(ps, date))
  {
    var a := AccelPapers(ps);
    var head := DcHeading(|Primaries(ps)|) + Entries(Primaries(ps), date)
      + RlHeading(|RlPapers(ps)|) + Entries(RlPapers(ps), date);
    var h := AccelHeading(|a|);
    assert EndsClean(h) by {
      assert h[|h| - 2] == '*';
    }
    if a != [] {
      assert forall p :: p in a ==> IsOther(p);
      OtherEntriesEnd(a, date);
    }
    GroupsEnd(head, h, Entries(a, date));
    ProperAfterHeading(date, Groups(ps, date));
  }

  lemma GroupsEnd(head: string, h: string, e: string)
    requires EndsClean(h) && (e == [] || EndsClean(e))
    ensures EndsClean(head + h + e)
  {
    if e == [] {
      assert head + h + e == head + h;
      EndsCleanAppend(head, h);
    } else {
      EndsCleanAppend(head + h, e);
    }
  }

  lemma ProperAfterHeading(date: string, g: string)
    requires EndsClean(g)
    ensures Proper("## " + date + "\n\n" + g)
  {
    EndsCleanAppend("## " + date + "\n\n", g);
  }

  /** The first section of the given date (the loop of lines 693-711). */
  function FirstWithDate(ss: seq<Section>, date: string): (k: nat)
    ensures k <= |ss| && (k < |ss| ==> ss[k].date == date)
    ensures forall i :: 0 <= i < k ==> ss[i].date != date
    decreases |ss|
  {
    if ss == [] then 0
    else if ss[0].date == date then 0
    else 1 + FirstWithDate(ss[1..], date)
  }

  /** The first section of a later date, by string order (lines 715-719). */
  function FirstLater(ss: seq<Section>, date: string): (k: nat)
    ensures k <= |ss| && (k < |ss| ==> LexLess(date, ss[k].date))
    ensures forall i :: 0 <= i < k ==> !LexLess(date, ss[i].date)
    decreases |ss|
  {
    if ss == [] then 0
    else if LexLess(date, ss[0].date) then 0
    else 1 + FirstLater(ss[1..], date)
  }

  /** The new text around a section: the rest before it, a blank line, the section, then `z`. */
  function Around(before: string, section: string, z: string): string {
    (if before != "" then before + "\n" else "") + "\n" + section + z
  }

  /** The separator put before what follows the section (lines 703-704, 728-729). */
  function Gap(after: string): string {
    if after != "" && after[0] != '\n' then "\n" else ""
  }

  /** `new_content` for a section spliced into `existing[..cut]` and `existing[resume..]`. */
  function Spliced(existing: string, cut: nat, resume: nat, section: string): string
    requires cut <= resume <= |existing|
  {
    var after := existing[resume..];
    Around(RStripChar(existing[..cut], '\n'), section, Gap(after) + LStripChar(after, '\n'))
  }

  /** `start_idx + len(section_content)` (line 697). */
  function AfterIndex(s: Section): nat {
    s.start + |s.content|
  }

  /** Every section ends inside the text. */
  predicate InBounds(t: string, ss: seq<Section>) {
    forall s :: s in ss ==> AfterIndex(s) <= |t|
  }

  lemma SectionsInBounds(t: string)
    ensures InBounds(t, SectionsOf(t))
  {
    SectionsOfIn(t);
  }

  /** `new_content` for the sections `ss` of `existing` (lines 693-734). */
  function MergedFrom(existing: string, ss: seq<Section>, section: string, date: string): string
    requires InBounds(existing, ss)
  {
    var k := FirstWithDate(ss, date);
    if k < |ss| then
      assert ss[k] in ss;
      Spliced(existing, ss[k].start, AfterIndex(ss[k]), section)
    else
      var j := FirstLater(ss, date);
      if j < |ss| then
        assert ss[j] in ss;
        Spliced(existing, ss[j].start, ss[j].start, section)
      else RStrip(existing) + "\n\n" + section
  }

  /** `new_content`, for the sections the pattern finds. */
  function Merged(existing: string, section: string, date: string): string {
    SectionsInBounds(existing);
    MergedFrom(existing, SectionsOf(existing), section, date)
  }

  /** The text written back (lines 709 and 739). */
  function Written(existing: string, section: string, date: string): string {
    Strip(Merged(existing, section, date)) + "\n"
  }

  /** What the file holds afterwards, or `None` when nothing is written (lines 642-741). */
  function Updated(existing: string, ps: seq<Paper>, date: string): Option<string> {
    if ps == [] then None else Some(Written(existing, SectionText(ps, date), date))
  }

  /** Lines 700-705 and 722-727: the splice as the source writes it. */
  method Splice(existing: string, cut: nat, resume: nat, section: string) returns (newContent: string)
    requires cut <= resume <= |existing|
    ensures newContent == Spliced(existing, cut, resume, section)
  {
    var before := RStripChar(existing[..cut], '\n');
    var after := existing[resume..];
    newContent := before;
    if newContent != "" && !EndsWith(newContent, "\n") {
      newContent := newContent + "\n";
    }
    newContent := newContent + "\n" + section;
    assert newContent == (if before != "" then before + "\n" else "") + "\n" + section;
    ghost var head := newContent;
    if after != "" && !StartsWith(after, "\n") {
      newContent := newContent + "\n";
    }
    assert newContent == head + Gap(after);
    Regroup2(head, Gap(after), LStripChar(after, '\n'));
    newContent := newContent + LStripChar(after, '\n');
  }

  /** The loop of lines 693-711: the index of the first section with the date, or `|ss|`. */
  method FindSame(ss: seq<Section>, date: string) returns (k: nat)
    ensures k == FirstWithDate(ss, date)
  {
    k := 0;
    while k < |ss|
      invariant 0 <= k <= |ss|
      invariant forall i :: 0 <= i < k ==> ss[i].date != date
    {
      if ss[k].date == date {
        FirstWithDateIs(ss, date, k);
        return;
      }
      k := k + 1;
    }
    FirstWithDateIs(ss, date, k);
  }

  /** The loop of lines 715-719: the index of the first later section, or `|ss|`. */
  method FindLater(ss: seq<Section>, date: string) returns (k: nat)
    ensures k == FirstLater(ss, date)
  {
    k := 0;
    while k < |ss|
      invariant 0 <= k <= |ss|
      invariant forall i :: 0 <= i < k ==> !LexLess(date, ss[i].date)
    {
      if LexLess(date, ss[k].date) {
        break;
      }
      k := k + 1;
    }
    FirstLaterIs(ss, date, k);
  }

  /** The first index with the date is the one whose predecessors all differ. */
  lemma {:induction false} FirstWithDateIs(ss: seq<Section>, date: string, k: nat)
    requires k <= |ss| && (k < |ss| ==> ss[k].date == date)
    requires forall i :: 0 <= i < k ==> ss[i].date != date
    ensures FirstWithDate(ss, date) == k
    decreases k
  {
    if k > 0 {
      FirstWithDateIs(ss[1..], date, k - 1);
    }
  }

  lemma {:induction false} FirstLaterIs(ss: seq<Section>, date: string, k: nat)
    requires k <= |ss| && (k < |ss| ==> LexLess(date, ss[k].date))
    requires forall i :: 0 <= i < k ==> !LexLess(date, ss[i].date)
    ensures FirstLater(ss, date) == k
    decreases k
  {
    if k > 0 {
      FirstLaterIs(ss[1..], date, k - 1);
    }
  }

  /** Lines 693-734 over the sections found: `new_content`, spliced or appended. */
  method PlaceSection(existing: string, sections: seq<Section>, section: string, date: string)
    returns (newContent: string)
    requires InBounds(existing, sections)
    ensures newContent == MergedFrom(existing, sections, section, date)
  {
    var idx := FindSame(sections, date);
    if idx < |sections| {
      MergedFromCases(existing, sections, section, date);
      newContent := Splice(existing, sections[idx].start, AfterIndex(sections[idx]), section);
    } else {
      var n := FindLater(sections, date);
      MergedFromCases(existing, sections, section, date);
      if n < |sections| {
        newContent := Splice(existing, sections[n].start, sections[n].start, section);
      } else {
        newContent := RStrip(existing) + "\n\n" + section;
      }
    }
  }

  /** The three cases of `MergedFrom`, each on its own. */
  lemma MergedFromCases(existing: string, ss: seq<Section>, section: string, date: string)
    requires InBounds(existing, ss)
    ensures var k := FirstWithDate(ss, date);
      k < |ss| ==> (AfterIndex(ss[k]) <= |existing| &&
        MergedFrom(existing, ss, section, date) == Spliced(existing, ss[k].start, AfterIndex(ss[k]), section))
    ensures var k := FirstWithDate(ss, date); var j := FirstLater(ss, date);
      k == |ss| && j < |ss| ==> (AfterIndex(ss[j]) <= |existing| &&
        MergedFrom(existing, ss, section, date) == Spliced(existing, ss[j].start, ss[j].start, section))
    ensures FirstWithDate(ss, date) == |ss| && FirstLater(ss, date) == |ss| ==>
      MergedFrom(existing, ss, section, date) == RStrip(existing) + "\n\n" + section
  {
    var k := FirstWithDate(ss, date);
    var j := FirstLater(ss, date);
    if k < |ss| {
      assert ss[k] in ss;
    } else if j < |ss| {
      assert ss[j] in ss;
    }
  }

  /** Lines 655-739 for a given section text. */
  method MergeSection(existing: string, section: string, date: string) returns (written: string)
    ensures written == Written(existing, section, date)
  {
    var sections := SectionsOf(existing);
    SectionsInBounds(existing);
    var newContent := PlaceSection(existing, sections, section, date);
    written := Strip(newContent) + "\n";
  }

  /**
   * `update_markdown_file`, with the file's previous text (`""` when it does
   * not exist) in and the text written out; `None` when nothing is written.
   */
  method UpdateMarkdown(existing: string, papers: seq<Paper>, date: string) returns (written: Option<string>)
    ensures written.None? <==> papers == []
    ensures written == Updated(existing, papers, date)
  {
    if papers == [] {
      return None;
    }
    var papersContent := BuildSection(papers, date);
    var text := MergeSection(existing, papersContent, date);
    written := Some(text);
  }
}
