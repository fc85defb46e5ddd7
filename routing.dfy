/**
 * The routing of `process_single_paper` (lines 511-569): a paper outside
 * the primary category is only marked for the compact format; a primary
 * paper without a PDF link, or whose PDF could not be downloaded, is kept
 * as it is; any other primary paper gets its tags, institution and summary
 * from the language-model reply. The download and the reply are parameters.
 */
module Routing {
  import opened Wrappers
  import opened Text
  import opened Papers
  import opened LlmResponse
  import opened Rendering

  /** How many characters of the first page go into the prompt (line 436). */
  const MaxPageText := 4096

  /** What reading the first page of the PDF gave (lines 425-441). */
  datatype PageRead =
    | NoLibrary              // PyPDF2 is not installed
    | NoPages                // the document has no page
    | ReadError(error: string)
    | FirstPage(text: string)

  /** `extract_first_page_text`: the first page cut to `MaxPageText` characters, or a message. */
  function FirstPageText(read: PageRead): (r: string)
    ensures read.FirstPage? ==> |r| == if |read.text| < MaxPageText then |read.text| else MaxPageText
    ensures read.FirstPage? ==> StartsWith(read.text, r)
  {
    match read
    case NoLibrary => "PDF处理库未安装"
    case NoPages => "PDF文件为空"
    case ReadError(e) => "PDF处理错误: " + e
    case FirstPage(text) => if |text| <= MaxPageText then text else text[..MaxPageText]
  }

  /** The temporary file name: the last `/`-separated piece of the id, then `.pdf` (line 535). */
  function PdfFileName(id: string): (r: string)
    ensures EndsWith(r, ".pdf")
    ensures '/' !in r[..|r| - 4] && EndsWith(id, r[..|r| - 4])
    ensures '/' !in id ==> r == id + ".pdf"
  {
    var stem := LastPiece(id, '/');
    assert (stem + ".pdf")[..|stem|] == stem;
    stem + ".pdf"
  }

  /** The paper has a usable PDF link (line 529). */
  predicate HasPdf(p: Paper) {
    p.pdfLink != "" && p.pdfLink != "N/A"
  }

  /** The reply of the service, or the empty result when the call raised (lines 507-509). */
  function ReplyFields(reply: Option<string>): Fields {
    if reply.None? then NoFields else ResponseFields(Strip(reply.value))
  }

  /** The paper goes through the PDF and the language model. */
  predicate Enriched(p: Paper, downloaded: bool) {
    IsPrimary(p) && HasPdf(p) && downloaded
  }

  /** The paper after `process_single_paper`. */
  function Routed(p: Paper, downloaded: bool, reply: Option<string>): Paper {
    if !IsPrimary(p) then p.(simpleOnly := true, isInterested := true)
    else if !Enriched(p, downloaded) then p.(isInterested := true)
    else
      var f := ReplyFields(reply);
      p.(tag1 := f.tag1, tag2 := f.tag2, tag3 := Join(", ", f.tag3), institution := Some(f.institution),
         isInterested := true, llmSummary := f.llmSummary, simpleOnly := false)
  }

  /**
   * Lines 511-569, the dictionary updated field by field. `downloaded` says
   * whether the download returned a path; `reply` is the service's answer,
   * `None` when the call raised.
   */
  method ProcessSinglePaper(paper: Paper, downloaded: bool, reply: Option<string>) returns (q: Paper)
    ensures q == Routed(paper, downloaded, reply)
  {
    q := paper;
    if !IsPrimary(q) {
      q := q.(simpleOnly := true);
      q := q.(isInterested := true);
      return;
    }
    if q.pdfLink == "" || q.pdfLink == "N/A" {
      q := q.(isInterested := true);
      return;
    }
    if !downloaded {
      q := q.(isInterested := true);
      return;
    }
    var f := TagsInstitutionSummary(reply);
    assert f == ReplyFields(reply);
    q := q.(tag1 := f.tag1, tag2 := f.tag2, tag3 := Join(", ", f.tag3), institution := Some(f.institution),
            isInterested := true, llmSummary := f.llmSummary, simpleOnly := false);
  }

  /** The fields the extraction and the filter wrote are untouched, and every paper ends up wanted. */
  lemma RoutedKeepsRecord(p: Paper, downloaded: bool, reply: Option<string>)
    ensures var q := Routed(p, downloaded, reply);
      && q.id == p.id && q.title == p.title && q.authors == p.authors && q.summary == p.summary
      && q.published == p.published && q.updated == p.updated && q.pdfLink == p.pdfLink
      && q.categories == p.categories && q.authorCount == p.authorCount && q.replaced == p.replaced
      && q.rlMatch == p.rlMatch && q.acceleratMatch == p.acceleratMatch
      && q.isInterested
  {
    if IsPrimary(p) && Enriched(p, downloaded) {
      var f := ReplyFields(reply);
      assert Routed(p, downloaded, reply) == p.(tag1 := f.tag1, tag2 := f.tag2, tag3 := Join(", ", f.tag3),
        institution := Some(f.institution), isInterested := true, llmSummary := f.llmSummary, simpleOnly := false);
    }
  }

  /**
   * Only a primary paper with a PDF that was downloaded is enriched; every
   * other paper keeps its enrichment fields, and the compact mark is set
   * exactly for papers outside the primary category (lines 515-534).
   */
  lemma RoutedUnenriched(p: Paper, downloaded: bool, reply: Option<string>)
    requires !Enriched(p, downloaded)
    ensures var q := Routed(p, downloaded, reply);
      && q.tag1 == p.tag1 && q.tag2 == p.tag2 && q.tag3 == p.tag3
      && q.institution == p.institution && q.llmSummary == p.llmSummary
      && q.simpleOnly == (p.simpleOnly || !IsPrimary(p))
  {
  }

  /**
   * An enriched paper holds the reply's fields, its institution is set, and
   * its stored `tag3` splits back into exactly the reply's items, which is
   * what the renderer reads (lines 553-559, 622).
   */
  lemma RoutedEnriched(p: Paper, downloaded: bool, reply: Option<string>)
    requires Enriched(p, downloaded)
    ensures var q := Routed(p, downloaded, reply); var f := ReplyFields(reply);
      && q.tag1 == f.tag1 && q.tag2 == f.tag2 && Tag3Items(q.tag3) == f.tag3
      && q.institution == Some(f.institution) && q.llmSummary == f.llmSummary
      && !q.simpleOnly
  {
    var f := ReplyFields(reply);
    if reply.None? {
      assert Join(", ", f.tag3) == "";
      assert Split("", ',') == [""];
      assert NonBlankStripped([""]) == [];
    } else {
      Tag3ItemsShape(LastValue(Readings(Lines(Strip(reply.value))), Tag3));
      Tag3RoundTrip(f.tag3, "");
      assert "" + Join(", ", f.tag3) == Join(", ", f.tag3);
    }
  }

  /** The tag line of an enriched paper is `TBD` exactly when the reply gave no tag at all. */
  lemma EnrichedTags(p: Paper, downloaded: bool, reply: Option<string>)
    requires Enriched(p, downloaded)
    ensures var f := ReplyFields(reply);
      TagsText(Routed(p, downloaded, reply)) == "TBD" <==> f.tag1 == "" && f.tag2 == "" && f.tag3 == []
  {
    RoutedEnriched(p, downloaded, reply);
    TagsTbd(Routed(p, downloaded, reply));
  }

  /** A paper outside the primary category renders the same line before and after routing. */
  lemma CompactEntryUnchanged(p: Paper, downloaded: bool, reply: Option<string>, dateStr: Option<string>)
    requires !IsPrimary(p)
    ensures EntryText(Routed(p, downloaded, reply), dateStr) == EntryText(p, dateStr)
  {
    var q := Routed(p, downloaded, reply);
    assert CompactLink(q) == CompactLink(p);
  }
}
