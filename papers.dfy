/**
 * The paper record and the string-level rules that turn one listing entry of
 * the daily listing page into a record (`_extract_paper_info_from_html`).
 * The HTML tree is replaced by `RawEntry`, which holds exactly the texts and
 * link targets that the extraction reads from an entry's `dt`/`dd` pair.
 */
module Papers {
  import opened Wrappers
  import opened Text

  /**
   * One paper as the pipeline's dictionary holds it. The first ten fields are
   * written by the extraction; the flags by the selection filter; the rest by
   * the enrichment step. Absent dictionary keys read as "" or false, except
   * `institution`, which the renderer reads with a "TBD" default.
   */
  datatype Paper = Paper(
    id: string,
    title: string,
    authors: seq<string>,
    summary: string,
    published: string,
    updated: string,
    pdfLink: string,
    categories: seq<string>,
    authorCount: nat,
    replaced: bool,
    rlMatch: bool,
    acceleratMatch: bool,
    tag1: string,
    tag2: string,
    tag3: string,
    institution: Option<string>,
    llmSummary: string,
    simpleOnly: bool,
    isInterested: bool)

  /** The entry's category div: the `href` of each link in it, and its text. */
  datatype Subjects = Subjects(hrefs: seq<string>, text: string)

  /**
   * What the extraction reads from one `dt` element and its `dd` sibling:
   * whether the sibling exists, the `href` of every link in the `dt` in
   * document order, the `dt` text, the stripped text of the title div, the
   * stripped text of each author link, the category div and the abstract text.
   * Missing `href` attributes appear as "".
   */
  datatype RawEntry = RawEntry(
    hasDd: bool,
    dtHrefs: seq<string>,
    dtText: string,
    titleText: Option<string>,
    authorTexts: seq<string>,
    subjects: Option<Subjects>,
    abstractText: Option<string>)

  const AbsBase := "http://arxiv.org/abs/"
  const SiteBase := "https://arxiv.org"

  /** The primary category: retained unconditionally and rendered in full. */
  const Primary := "cs.DC"

  predicate IsPrimary(p: Paper) {
    Primary in p.categories
  }

  /** Position of the first link whose target contains `pat` (`find`), or `|hrefs|`. */
  function FirstIndexContaining(hrefs: seq<string>, pat: string): (k: nat)
    ensures k <= |hrefs|
    ensures forall j :: 0 <= j < k ==> !Contains(hrefs[j], pat)
    ensures k < |hrefs| ==> Contains(hrefs[k], pat)
    decreases |hrefs|
  {
    if hrefs == [] then 0
    else if Contains(hrefs[0], pat) then 0
    else 1 + FirstIndexContaining(hrefs[1..], pat)
  }

  function FirstContaining(hrefs: seq<string>, pat: string): Option<string> {
    var k := FirstIndexContaining(hrefs, pat);
    if k < |hrefs| then Some(hrefs[k]) else None
  }

  /** The short identifier: the text after the last '/' of the abstract link. */
  function ArxivId(href: string): string {
    LastPiece(href, '/')
  }

  /**
   * The record identifier (lines 233-239). The relative-link branch and the
   * non-http branch agree, so the rule is: keep an http link, otherwise
   * rebuild the canonical abstract URL from the short identifier.
   */
  function PaperId(href: string): (r: string)
    ensures StartsWith(r, "http")
    ensures StartsWith(href, "http") ==> r == href
    ensures !StartsWith(href, "http") ==> r == AbsBase + ArxivId(href)
  {
    if StartsWith(href, "/") then AbsBase + ArxivId(href)
    else if StartsWith(href, "http") then href
    else AbsBase + ArxivId(href)
  }

  /** The PDF link (lines 248-255): "N/A" exactly when the `dt` has no PDF link. */
  function PdfLink(hrefs: seq<string>): (r: string)
    ensures r == "N/A" <==> forall i :: 0 <= i < |hrefs| ==> !Contains(hrefs[i], "/pdf/")
    ensures r != "N/A" ==> Contains(r, "/pdf/")
    ensures r != "N/A" && !StartsWith(FirstContaining(hrefs, "/pdf/").value, "/") ==>
              r == FirstContaining(hrefs, "/pdf/").value
    ensures r != "N/A" && StartsWith(FirstContaining(hrefs, "/pdf/").value, "/") ==>
              r == SiteBase + FirstContaining(hrefs, "/pdf/").value
  {
    match FirstContaining(hrefs, "/pdf/")
    case None => "N/A"
    case Some(h) =>
      if StartsWith(h, "/") then
        ContainsConcat(SiteBase, h, "", "/pdf/");
        assert SiteBase + h + "" == SiteBase + h;
        SiteBase + h
      else h
  }

  /** The title (lines 258-266): the "Title:" label is removed only when it is a prefix. */
  function TitleOf(titleText: Option<string>): (r: string)
    ensures titleText.None? ==> r == "N/A"
    ensures titleText.Some? && !StartsWith(titleText.value, "Title:") ==> r == titleText.value
    ensures titleText.Some? && StartsWith(titleText.value, "Title:") ==>
              IsStripped(r) && Contains(titleText.value[6..], r)
    ensures titleText.Some? && StartsWith(titleText.value, "Title:") ==>
              exists i :: Trims(titleText.value[6..], r, i)
  {
    match titleText
    case None => "N/A"
    case Some(t) =>
      if StartsWith(t, "Title:") then
        StripIsStripped(t[6..]);
        StripShape(t[6..]);
        Strip(t[6..])
      else t
  }

  /** Length of the run of characters other than `stop` that starts at `i`. */
  function RunWithout(s: string, i: nat, stop: char): (n: nat)
    requires i <= |s|
    ensures i + n <= |s|
    ensures forall k :: i <= k < i + n ==> s[k] != stop
    ensures i + n == |s| || s[i + n] == stop
    decreases |s| - i
  {
    if i == |s| || s[i] == stop then 0 else 1 + RunWithout(s, i + 1, stop)
  }

  /** The pattern `query=([^&]+)` matches at `p`. */
  predicate QueryMatchAt(h: string, p: int) {
    OccursAt(h, "query=", p) && p + 6 < |h| && h[p + 6] != '&'
  }

  /** `re.search` of `query=([^&]+)` from position `p`: the leftmost match. */
  function QuerySearch(h: string, p: nat): (r: Option<nat>)
    ensures r.Some? ==> p <= r.value && QueryMatchAt(h, r.value)
    ensures r.Some? ==> forall q :: p <= q < r.value ==> !QueryMatchAt(h, q)
    ensures r.None? ==> forall q :: p <= q ==> !QueryMatchAt(h, q)
    decreases |h| - p
  {
    if p + 6 >= |h| then None
    else if QueryMatchAt(h, p) then Some(p)
    else QuerySearch(h, p + 1)
  }

  /** The captured group of `query=([^&]+)`: a maximal non-empty run without '&'. */
  function QueryValue(h: string): (r: Option<string>)
    ensures r.Some? ==> r.value != [] && '&' !in r.value
    ensures r.Some? ==> (exists p :: 0 <= p && OccursAt(h, "query=" + r.value, p) &&
                           (p + 6 + |r.value| == |h| || h[p + 6 + |r.value|] == '&'))
    ensures r.None? <==> forall q :: 0 <= q ==> !QueryMatchAt(h, q)
    ensures r.Some? ==> (QuerySearch(h, 0).Some? &&
                         OccursAt(h, "query=" + r.value, QuerySearch(h, 0).value))
  {
    match QuerySearch(h, 0)
    case None => None
    case Some(p) =>
      var n := RunWithout(h, p + 6, '&');
      var v := h[p + 6..p + 6 + n];
      assert h[p..p + 6] == "query=";
      assert h[p..p + 6 + n] == h[p..p + 6] + v;
      assert OccursAt(h, "query=" + v, p);
      Some(v)
  }

  /** A category link contributes its query value (lines 282-288). */
  function LinkCode(href: string): Option<string> {
    if Contains(href, "searchtype=subject") then QueryValue(href) else None
  }

  /** The codes of the category links, in link order. */
  function SubjectLinkCodes(hrefs: seq<string>): (r: seq<string>)
    ensures forall c :: c in r ==> c != [] && '&' !in c
    ensures forall c :: c in r ==> exists h :: h in hrefs && Contains(h, "searchtype=subject") && QueryValue(h) == Some(c)
    decreases |hrefs|
  {
    if hrefs == [] then []
    else
      var last := hrefs[|hrefs| - 1];
      var prev := SubjectLinkCodes(hrefs[..|hrefs| - 1]);
      assert forall h :: h in hrefs[..|hrefs| - 1] ==> h in hrefs;
      match LinkCode(last)
      case Some(c) => prev + [c]
      case None => prev
  }

  /** The pattern `\(([^)]+)\)` matches at `p` with a group of length `n`. */
  predicate ParenAt(t: string, p: int, n: int) {
    0 <= p && 0 < n && p + 1 + n < |t| && t[p] == '(' && t[p + 1 + n] == ')'
    && forall k :: p + 1 <= k < p + 1 + n ==> t[k] != ')'
  }

  /** The group length of the match at `p`, 0 exactly when the pattern does not match there. */
  function ParenMatchAt(t: string, p: nat): (n: nat)
    requires p < |t|
    ensures n > 0 ==> ParenAt(t, p, n)
    ensures n == 0 ==> forall m :: !ParenAt(t, p, m)
  {
    if t[p] != '(' then 0
    else
      var n := RunWithout(t, p + 1, ')');
      if n > 0 && p + 1 + n < |t| then n else 0
  }

  /** A parenthesised slice is its inside between the two parentheses. */
  lemma ParenSlice(t: string, p: nat, n: nat)
    requires p + 1 + n < |t| && t[p] == '(' && t[p + 1 + n] == ')'
    ensures t[p..p + n + 2] == "(" + t[p + 1..p + 1 + n] + ")"
  {
    var g := t[p + 1..p + 1 + n];
    forall k | 0 <= k < n + 2 ensures t[p..p + n + 2][k] == ("(" + g + ")")[k] {
      if 0 < k <= n {
        assert ("(" + g + ")")[k] == g[k - 1];
      }
    }
  }

  /** `re.findall(r'\(([^)]+)\)', t[p..])`: the non-overlapping groups, left to right. */
  function ParenGroups(t: string, p: nat): (r: seq<string>)
    requires p <= |t|
    ensures forall g :: g in r ==> g != [] && ')' !in g && Contains(t, "(" + g + ")")
    decreases |t| - p
  {
    if p == |t| then []
    else
      var n := ParenMatchAt(t, p);
      if n > 0 then
        var g := t[p + 1..p + 1 + n];
        ParenSlice(t, p, n);
        assert OccursAt(t, "(" + g + ")", p);
        [g] + ParenGroups(t, p + n + 2)
      else ParenGroups(t, p + 1)
  }

  /** The comprehension at line 294: the groups that start with "cs.". */
  function CsCodes(groups: seq<string>): (r: seq<string>)
    ensures forall c :: c in r ==> c in groups && StartsWith(c, "cs.")
    decreases |groups|
  {
    if groups == [] then []
    else
      var last := groups[|groups| - 1];
      var prev := CsCodes(groups[..|groups| - 1]);
      assert forall c :: c in groups[..|groups| - 1] ==> c in groups;
      if StartsWith(last, "cs.") then prev + [last] else prev
  }

  /** Every "cs." group is kept. */
  lemma {:induction false} CsCodesComplete(groups: seq<string>)
    ensures forall c :: c in groups && StartsWith(c, "cs.") ==> c in CsCodes(groups)
    decreases |groups|
  {
    if groups != [] {
      var init := groups[..|groups| - 1];
      CsCodesComplete(init);
      assert groups == init + [groups[|groups| - 1]];
    }
  }

  /** The comprehension keeps the order of the groups. */
  lemma {:induction false} CsCodesAppend(a: seq<string>, b: seq<string>)
    ensures CsCodes(a + b) == CsCodes(a) + CsCodes(b)
    decreases |b|
  {
    if b == [] {
      assert a + b == a;
    } else {
      var init := b[..|b| - 1];
      assert (a + b)[..|a + b| - 1] == a + init;
      CsCodesAppend(a, init);
    }
  }

  /** Every category link with a code contributes it. */
  lemma {:induction false} SubjectLinkCodesComplete(hrefs: seq<string>)
    ensures forall h :: h in hrefs && LinkCode(h).Some? ==> LinkCode(h).value in SubjectLinkCodes(hrefs)
    decreases |hrefs|
  {
    if hrefs != [] {
      var init := hrefs[..|hrefs| - 1];
      SubjectLinkCodesComplete(init);
      assert hrefs == init + [hrefs[|hrefs| - 1]];
    }
  }

  /** The codes of the category links keep the order of the links. */
  lemma {:induction false} SubjectLinkCodesAppend(a: seq<string>, b: seq<string>)
    ensures SubjectLinkCodes(a + b) == SubjectLinkCodes(a) + SubjectLinkCodes(b)
    decreases |b|
  {
    if b == [] {
      assert a + b == a;
    } else {
      var init := b[..|b| - 1];
      assert (a + b)[..|a + b| - 1] == a + init;
      SubjectLinkCodesAppend(a, init);
    }
  }

  /** One link contributes its code, if it has one. */
  lemma SubjectLinkCodesOne(h: string)
    ensures SubjectLinkCodes([h]) == if LinkCode(h).Some? then [LinkCode(h).value] else []
  {
    assert [h][..0] == [];
  }

  /** A match at `p` is taken, and the scan resumes after its closing parenthesis. */
  lemma ParenGroupsTake(t: string, p: nat, n: nat)
    requires ParenAt(t, p, n)
    ensures ParenGroups(t, p) == [t[p + 1..p + 1 + n]] + ParenGroups(t, p + n + 2)
  {
    assert ParenMatchAt(t, p) == n;
  }

  /** A position where the pattern does not match is skipped. */
  lemma ParenGroupsSkip(t: string, p: nat)
    requires p < |t| && forall m :: !ParenAt(t, p, m)
    ensures ParenGroups(t, p) == ParenGroups(t, p + 1)
  {
    var m := ParenMatchAt(t, p);
  }

  /**
   * The categories (lines 277-294): the codes of the category links; only
   * when there are none, the parenthesised "cs." codes of the div's text.
   */
  function Categories(subjects: Option<Subjects>): (r: seq<string>)
    ensures subjects.None? ==> r == []
    ensures subjects.Some? && SubjectLinkCodes(subjects.value.hrefs) != [] ==>
              r == SubjectLinkCodes(subjects.value.hrefs)
    ensures subjects.Some? && SubjectLinkCodes(subjects.value.hrefs) == [] ==>
              forall c :: c in r ==> StartsWith(c, "cs.") && ')' !in c && Contains(subjects.value.text, "(" + c + ")")
    ensures subjects.Some? && SubjectLinkCodes(subjects.value.hrefs) == [] ==>
              forall g :: g in ParenGroups(subjects.value.text, 0) && StartsWith(g, "cs.") ==> g in r
  {
    match subjects
    case None => []
    case Some(s) =>
      var links := SubjectLinkCodes(s.hrefs);
      if links != [] then links
      else
        CsCodesComplete(ParenGroups(s.text, 0));
        CsCodes(ParenGroups(s.text, 0))
  }

  /** The short identifier begins like `\d{2}\d{2}\.\d+` (`re.match`, anchored at the start). */
  predicate HasYymmPrefix(a: string) {
    |a| >= 6 && AllDigits(a[..4]) && a[4] == '.' && IsDigit(a[5])
  }

  /**
   * The timestamp inferred from the short identifier (lines 303-312):
   * the first of the month, assuming the 21st century; the month is not
   * checked. Such an identifier always yields a 20-character timestamp.
   */
  function InferredTimestamp(a: string): (r: string)
    ensures HasYymmPrefix(a) ==> |r| == 20 && StartsWith(r, "20") && r[2..4] == a[..2] && r[5..7] == a[2..4]
    ensures HasYymmPrefix(a) ==> r[4] == '-' && r[7..] == "-01T00:00:00Z"
    ensures !HasYymmPrefix(a) ==> r == "N/A"
  {
    if HasYymmPrefix(a) then "20" + a[..2] + "-" + a[2..4] + "-01T00:00:00Z" else "N/A"
  }

  /** The summary (lines 297-300). */
  function SummaryOf(abstractText: Option<string>): string {
    abstractText.GetOr("N/A")
  }

  /**
   * The record extracted from one entry, or `None` when the `dd` sibling or
   * the abstract link is missing (lines 218-325).
   */
  function ExtractedPaper(e: RawEntry): (r: Option<Paper>)
    ensures r.Some? <==> e.hasDd && exists i :: 0 <= i < |e.dtHrefs| && Contains(e.dtHrefs[i], "/abs/")
    ensures r.Some? ==> StartsWith(r.value.id, "http") && r.value.published == r.value.updated
    ensures r.Some? ==> r.value.replaced == Contains(e.dtText, "(replaced)")
    ensures r.Some? ==> r.value.authors == e.authorTexts && r.value.authorCount == |e.authorTexts|
    ensures r.Some? ==> r.value.categories == Categories(e.subjects) && r.value.pdfLink == PdfLink(e.dtHrefs)
    ensures r.Some? ==> !r.value.rlMatch && !r.value.acceleratMatch && r.value.institution.None?
    ensures r.Some? ==> (FirstContaining(e.dtHrefs, "/abs/").Some? &&
                         r.value.id == PaperId(FirstContaining(e.dtHrefs, "/abs/").value) &&
                         r.value.published == InferredTimestamp(ArxivId(FirstContaining(e.dtHrefs, "/abs/").value)))
    ensures r.Some? ==> r.value.title == TitleOf(e.titleText) && r.value.summary == SummaryOf(e.abstractText)
  {
    if !e.hasDd then None
    else
      match FirstContaining(e.dtHrefs, "/abs/")
      case None => None
      case Some(href) =>
        var stamp := InferredTimestamp(ArxivId(href));
        Some(Paper(
          id := PaperId(href),
          title := TitleOf(e.titleText),
          authors := e.authorTexts,
          summary := SummaryOf(e.abstractText),
          published := stamp,
          updated := stamp,
          pdfLink := PdfLink(e.dtHrefs),
          categories := Categories(e.subjects),
          authorCount := |e.authorTexts|,
          replaced := Contains(e.dtText, "(replaced)"),
          rlMatch := false,
          acceleratMatch := false,
          tag1 := "",
          tag2 := "",
          tag3 := "",
          institution := None,
          llmSummary := "",
          simpleOnly := false,
          isInterested := false))
  }

  /** The loop over the category links (lines 281-288) followed by the text fallback. */
  method CollectCategories(subjects: Option<Subjects>) returns (categories: seq<string>)
    ensures categories == Categories(subjects)
  {
    categories := [];
    if subjects.Some? {
      var hrefs := subjects.value.hrefs;
      var i := 0;
      while i < |hrefs|
        invariant 0 <= i <= |hrefs|
        invariant categories == SubjectLinkCodes(hrefs[..i])
      {
        var href := hrefs[i];
        if Contains(href, "searchtype=subject") {
          var m := QueryValue(href);
          if m.Some? {
            categories := categories + [m.value];
          }
        }
        assert hrefs[..i + 1][..i] == hrefs[..i];
        i := i + 1;
      }
      assert hrefs[..i] == hrefs;
      if categories == [] {
        var matches := ParenGroups(subjects.value.text, 0);
        categories := CsCodes(matches);
      }
    }
  }

  /** `_extract_paper_info_from_html` on one entry. */
  method ExtractPaperInfo(e: RawEntry) returns (info: Option<Paper>)
    ensures info == ExtractedPaper(e)
  {
    if !e.hasDd {
      return None;
    }
    var link := FirstContaining(e.dtHrefs, "/abs/");
    if link.None? {
      return None;
    }
    var href := link.value;
    var arxivId := ArxivId(href);
    var paperId := PaperId(href);
    var replaced := Contains(e.dtText, "(replaced)");
    var pdfLink := PdfLink(e.dtHrefs);
    var title := TitleOf(e.titleText);
    var authors := e.authorTexts;
    var categories := CollectCategories(e.subjects);
    var summary := SummaryOf(e.abstractText);
    var published := InferredTimestamp(arxivId);
    var updated := published;
    info := Some(Paper(paperId, title, authors, summary, published, updated, pdfLink, categories,
                       |authors|, replaced, false, false, "", "", "", None, "", false, false));
  }

  /** The month of an identifier is copied, not checked. */
  lemma TimestampMonthUnchecked()
    ensures InferredTimestamp("2399.00001")[5..7] == "99"
  {
    var a := "2399.00001";
    assert a[..4] == "2399";
    assert HasYymmPrefix(a);
    assert a[2..4] == "99";
  }
}
