/**
 * How one paper becomes Markdown (`format_paper_with_enhanced_info`, lines
 * 598-640): a one-line compact entry for a paper outside the primary
 * category, a detailed block for a primary paper, with the MDX-sensitive
 * characters of the LLM summary escaped.
 */
module Rendering {
  import opened Wrappers
  import opened Text
  import opened Papers
  import opened Calendar
  import opened LlmResponse

  /** `s.replace(c, r)` for a one-character pattern. */
  function ReplaceChar(s: string, c: char, r: string): (t: string)
    ensures c !in s ==> t == s
    decreases |s|
  {
    if s == [] then ""
    else (if s[0] == c then r else [s[0]]) + ReplaceChar(s[1..], c, r)
  }

  lemma {:induction false} ReplaceCharAppend(a: string, b: string, c: char, r: string)
    ensures ReplaceChar(a + b, c, r) == ReplaceChar(a, c, r) + ReplaceChar(b, c, r)
    decreases |a|
  {
    if a == [] {
      assert a + b == b;
    } else {
      assert (a + b)[0] == a[0];
      assert (a + b)[1..] == a[1..] + b;
      ReplaceCharAppend(a[1..], b, c, r);
    }
  }

  /** The escape chain of line 637, applied left to right. */
  function EscapeSummary(s: string): string {
    ReplaceChar(ReplaceChar(ReplaceChar(ReplaceChar(s, '<', "&lt;"), '>', "&gt;"), '{', "\\{"), '}', "\\}")
  }

  /** What each character becomes in the escaped summary. */
  function EscapeChar(c: char): string {
    match c
    case '<' => "&lt;"
    case '>' => "&gt;"
    case '{' => "\\{"
    case '}' => "\\}"
    case _ => [c]
  }

  /** A single left-to-right pass escaping every character independently. */
  function EscapeEach(s: string): string
    decreases |s|
  {
    if s == [] then "" else EscapeChar(s[0]) + EscapeEach(s[1..])
  }

  /**
   * No replacement in the chain produces a character that a later one
   * rewrites, so the four passes equal one character-wise pass.
   */
  lemma {:induction false} EscapeSummaryIsEscapeEach(s: string)
    ensures EscapeSummary(s) == EscapeEach(s)
    decreases |s|
  {
    if s != [] {
      var c := s[0];
      var rest := s[1..];
      assert s == [c] + rest;
      var s1 := ReplaceChar(s, '<', "&lt;");
      ReplaceCharAppend([c], rest, '<', "&lt;");
      var a1 := ReplaceChar([c], '<', "&lt;");
      var b1 := ReplaceChar(rest, '<', "&lt;");
      ReplaceCharAppend(a1, b1, '>', "&gt;");
      var a2 := ReplaceChar(a1, '>', "&gt;");
      var b2 := ReplaceChar(b1, '>', "&gt;");
      ReplaceCharAppend(a2, b2, '{', "\\{");
      var a3 := ReplaceChar(a2, '{', "\\{");
      var b3 := ReplaceChar(b2, '{', "\\{");
      ReplaceCharAppend(a3, b3, '}', "\\}");
      var a4 := ReplaceChar(a3, '}', "\\}");
      assert a4 == EscapeChar(c) by {
        EscapeOne(c);
      }
      EscapeSummaryIsEscapeEach(rest);
    }
  }

  lemma ReplaceOne(x: char, c: char, r: string)
    ensures ReplaceChar([x], c, r) == if x == c then r else [x]
  {
    assert [x][1..] == [];
  }

  lemma EscapeOne(c: char)
    ensures ReplaceChar(ReplaceChar(ReplaceChar(ReplaceChar([c], '<', "&lt;"), '>', "&gt;"), '{', "\\{"), '}', "\\}")
            == EscapeChar(c)
  {
    ReplaceOne(c, '<', "&lt;");
    if c == '<' {
      assert '>' !in "&lt;" && '{' !in "&lt;" && '}' !in "&lt;";
    } else {
      ReplaceOne(c, '>', "&gt;");
      if c == '>' {
        assert '{' !in "&gt;" && '}' !in "&gt;";
      } else {
        ReplaceOne(c, '{', "\\{");
        if c == '{' {
          assert '}' !in "\\{";
        } else {
          ReplaceOne(c, '}', "\\}");
        }
      }
    }
  }

  /** Every character of the pattern is replaced. */
  lemma {:induction false} ReplaceCharChars(s: string, c: char, r: string)
    ensures forall ch :: ch in ReplaceChar(s, c, r) ==> (ch in s && ch != c) || ch in r
    decreases |s|
  {
    if s != [] {
      ReplaceCharChars(s[1..], c, r);
      assert forall ch :: ch in s[1..] ==> ch in s;
    }
  }

  /** The escaped summary holds no raw angle bracket. */
  lemma EscapeNoAngles(s: string)
    ensures '<' !in EscapeSummary(s) && '>' !in EscapeSummary(s)
  {
    var s1 := ReplaceChar(s, '<', "&lt;");
    var s2 := ReplaceChar(s1, '>', "&gt;");
    var s3 := ReplaceChar(s2, '{', "\\{");
    ReplaceCharChars(s, '<', "&lt;");
    ReplaceCharChars(s1, '>', "&gt;");
    ReplaceCharChars(s2, '{', "\\{");
    ReplaceCharChars(s3, '}', "\\}");
  }

  /** Text free of the four special characters is left as it is. */
  lemma EscapePlain(s: string)
    requires '<' !in s && '>' !in s && '{' !in s && '}' !in s
    ensures EscapeSummary(s) == s
  {
  }

  lemma EscapeCharBraces(c: char)
    ensures var h := EscapeChar(c); h != [] && h[0] != '{' && h[0] != '}'
    ensures var h := EscapeChar(c); forall i :: 0 < i < |h| && (h[i] == '{' || h[i] == '}') ==> h[i - 1] == '\\'
  {
  }

  /** Every brace of the escaped summary is right after a backslash. */
  predicate IsBrace(c: char) { c == '{' || c == '}' }

  /** Every brace of `t` comes right after a backslash. */
  predicate BracesEscaped(t: string) {
    forall i :: 0 <= i < |t| && IsBrace(t[i]) ==> 0 < i && t[i - 1] == '\\'
  }

  lemma {:induction false} EscapedBraces(s: string)
    ensures BracesEscaped(EscapeEach(s))
    decreases |s|
  {
    if s != [] {
      EscapedBraces(s[1..]);
      var h := EscapeChar(s[0]);
      var t := EscapeEach(s[1..]);
      EscapeCharBraces(s[0]);
      if s[1..] != [] {
        EscapeCharBraces(s[1..][0]);
        assert t == EscapeChar(s[1..][0]) + EscapeEach(s[1..][1..]);
        assert t[0] == EscapeChar(s[1..][0])[0];
      }
      assert EscapeEach(s) == h + t;
      forall i | 0 <= i < |h + t| && IsBrace((h + t)[i])
        ensures 0 < i && (h + t)[i - 1] == '\\'
      {
        if i < |h| {
          assert (h + t)[i] == h[i] && (h + t)[i - 1] == h[i - 1];
        } else {
          var j := i - |h|;
          assert (h + t)[i] == t[j];
          assert IsBrace(t[j]);
          assert (h + t)[i - 1] == t[j - 1];
        }
      }
    }
  }

  /**
   * The escaped summary is the single-pass escape: no raw `<` or `>`
   * remains and every brace is preceded by a backslash.
   */
  lemma EscapedSummary(s: string)
    ensures EscapeSummary(s) == EscapeEach(s)
    ensures '<' !in EscapeSummary(s) && '>' !in EscapeSummary(s)
    ensures BracesEscaped(EscapeSummary(s))
  {
    EscapeSummaryIsEscapeEach(s);
    EscapeNoAngles(s);
    EscapedBraces(s);
  }

  /** The arXiv date tag of the entry: `""` when no date is given (lines 602-606). */
  function EntryPrefix(dateStr: Option<string>): (r: string)
    ensures r == "" <==> dateStr.None? || ParseIsoDate(dateStr.value).None?
  {
    match dateStr
    case None => ""
    case Some(s) => ArxivPrefix(s)
  }

  /** The compact entry's link target (lines 608-609). */
  function CompactLink(p: Paper): (r: string)
    ensures r == p.id <==> p.pdfLink == "" || p.pdfLink == "N/A" || p.pdfLink == p.id
  {
    if p.pdfLink != "" && p.pdfLink != "N/A" then p.pdfLink else p.id
  }

  /** The bracketed tag groups of a primary paper, in order (lines 616-624). */
  function Tags(p: Paper): seq<string> {
    (if p.tag1 != "" then ["[" + p.tag1 + "]"] else [])
    + (if p.tag2 != "" then ["[" + p.tag2 + "]"] else [])
    + (if p.tag3 != "" && Tag3Items(p.tag3) != [] then ["[" + Join(", ", Tag3Items(p.tag3)) + "]"] else [])
  }

  /** Line 625. */
  function TagsText(p: Paper): string {
    if Tags(p) != [] then Join(", ", Tags(p)) else "TBD"
  }

  lemma {:induction false} JoinHead(sep: string, parts: seq<string>)
    requires parts != [] && parts[0] != []
    ensures Join(sep, parts) != [] && Join(sep, parts)[0] == parts[0][0]
  {
    if |parts| > 1 {
      assert Join(sep, parts) == parts[0] + sep + Join(sep, parts[1..]);
    }
  }

  /** The tag string is `TBD` exactly when no tag group is present. */
  lemma TagsTbd(p: Paper)
    ensures TagsText(p) == "TBD" <==> p.tag1 == "" && p.tag2 == "" && Tag3Items(p.tag3) == []
  {
    if p.tag3 == "" {
      assert Split("", ',') == [""];
      assert NonBlankStripped([""]) == [];
    }
    var tags := Tags(p);
    if tags != [] {
      assert tags[0][0] == '[';
      JoinHead(", ", tags);
    }
  }

  /** One bulleted `label: value` line of the detailed entry. */
  function Item(name: string, value: string): string {
    "  - **" + name + ":** " + value + "\n"
  }

  /** The summary line, present only for a non-blank summary (lines 635-638). */
  function SummaryLine(llmSummary: string): string {
    var s := Strip(llmSummary);
    if s != "" then Item("Simple LLM Summary", EscapeSummary(s)) else ""
  }

  /** The compact one-line entry (line 610). */
  function EntryLine(prefix: string, title: string, link: string): string {
    "- " + prefix + " " + title + " [link](" + link + ")\n"
  }

  /** The detailed entry (lines 629-639), given its already formatted parts. */
  function EntryBlock(prefix: string, title: string, tags: string, authors: string,
                      institution: string, link: string, summaryLine: string): string {
    "- **" + prefix + " " + title + "**\n"
    + Item("tags", tags)
    + Item("authors", authors)
    + Item("institution", institution)
    + Item("link", link)
    + summaryLine
    + "\n"
  }

  /** The entry text (lines 598-640). */
  function EntryText(p: Paper, dateStr: Option<string>): string {
    var prefix := EntryPrefix(dateStr);
    if !IsPrimary(p) then EntryLine(prefix, p.title, CompactLink(p))
    else EntryBlock(prefix, p.title, TagsText(p), Join(", ", p.authors), p.institution.GetOr("TBD"),
                    p.pdfLink, SummaryLine(p.llmSummary))
  }

  /** Lines 598-640 as the source runs them, appending tag groups one by one. */
  method FormatPaper(p: Paper, dateStr: Option<string>) returns (text: string)
    ensures text == EntryText(p, dateStr)
  {
    var prefix := "";
    if dateStr.Some? {
      prefix := ArxivPrefix(dateStr.value);
    }
    if !(Primary in p.categories) {
      var link := if p.pdfLink != "" && p.pdfLink != "N/A" then p.pdfLink else p.id;
      return EntryLine(prefix, p.title, link);
    }
    var tags: seq<string> := [];
    if p.tag1 != "" {
      tags := tags + ["[" + p.tag1 + "]"];
    }
    if p.tag2 != "" {
      tags := tags + ["[" + p.tag2 + "]"];
    }
    if p.tag3 != "" {
      var items := Tag3Items(p.tag3);
      if items != [] {
        tags := tags + ["[" + Join(", ", items) + "]"];
      }
    }
    assert tags == Tags(p);
    var tagsStr := if tags != [] then Join(", ", tags) else "TBD";
    var institution := p.institution.GetOr("TBD");
    var llmSummary := Strip(p.llmSummary);
    var summaryLine := "";
    if llmSummary != "" {
      var escaped := ReplaceChar(ReplaceChar(ReplaceChar(ReplaceChar(llmSummary, '<', "&lt;"), '>', "&gt;"), '{', "\\{"), '}', "\\}");
      summaryLine := Item("Simple LLM Summary", escaped);
    }
    text := EntryBlock(prefix, p.title, tagsStr, Join(", ", p.authors), institution, p.pdfLink, summaryLine);
  }

  /**
   * A paper outside the primary category renders as one line that ends with
   * its link: the PDF link when there is one, else the identifier.
   */
  lemma CompactEntry(p: Paper, dateStr: Option<string>)
    requires !IsPrimary(p)
    ensures var t := EntryText(p, dateStr);
            StartsWith(t, "- " + EntryPrefix(dateStr) + " " + p.title + " ")
            && EndsWith(t, " [link](" + (if p.pdfLink == "" || p.pdfLink == "N/A" then p.id else p.pdfLink) + ")\n")
  {
    var link := CompactLink(p);
    assert link == if p.pdfLink == "" || p.pdfLink == "N/A" then p.id else p.pdfLink;
    LineShape(EntryPrefix(dateStr), p.title, link);
  }

  /** The head and the tail of a compact line. */
  lemma LineShape(prefix: string, title: string, link: string)
    ensures StartsWith(EntryLine(prefix, title, link), "- " + prefix + " " + title + " ")
    ensures EndsWith(EntryLine(prefix, title, link), " [link](" + link + ")\n")
  {
    var head := "- " + prefix + " " + title;
    var t := EntryLine(prefix, title, link);
    assert t == head + (" [link](" + link + ")\n");
    ConcatEnds(head, " [link](" + link + ")\n");
    var rest := "[link](" + link + ")\n";
    assert " [link](" == " " + "[link](";
    assert " [link](" + link + ")\n" == " " + rest;
    assert t == (head + " ") + rest;
    ConcatEnds(head + " ", rest);
  }

  /**
   * A primary paper renders as a block closed by a blank line, whose last
   * item is the escaped summary when the stripped summary is non-empty and
   * the link otherwise.
   */
  lemma DetailedEntry(p: Paper, dateStr: Option<string>)
    requires IsPrimary(p)
    ensures var t := EntryText(p, dateStr);
            StartsWith(t, "- **" + EntryPrefix(dateStr) + " " + p.title + "**\n" + Item("tags", TagsText(p)))
            && (Strip(p.llmSummary) != "" ==>
                  EndsWith(t, Item("Simple LLM Summary", EscapeSummary(Strip(p.llmSummary))) + "\n"))
            && (Strip(p.llmSummary) == "" ==> EndsWith(t, Item("link", p.pdfLink) + "\n"))
  {
    BlockEnds(EntryPrefix(dateStr), p.title, TagsText(p), Join(", ", p.authors), p.institution.GetOr("TBD"),
              p.pdfLink, SummaryLine(p.llmSummary));
  }

  /**
   * The lines of a detailed entry, in order: the bold title line, then the
   * tags, authors, institution ("TBD" when unknown) and link items, then the
   * optional summary item and the closing blank line.
   */
  lemma DetailedItems(p: Paper, dateStr: Option<string>)
    requires IsPrimary(p)
    ensures var inst := if p.institution.Some? then p.institution.value else "TBD";
            EntryText(p, dateStr) == "- **" + EntryPrefix(dateStr) + " " + p.title + "**\n"
              + Item("tags", TagsText(p)) + Item("authors", Join(", ", p.authors))
              + Item("institution", inst) + Item("link", p.pdfLink) + SummaryLine(p.llmSummary) + "\n"
  {
  }

  /** Hence the authors, institution and link items occur in the entry. */
  lemma DetailedContains(p: Paper, dateStr: Option<string>)
    requires IsPrimary(p)
    ensures Contains(EntryText(p, dateStr), Item("authors", Join(", ", p.authors)))
    ensures Contains(EntryText(p, dateStr), Item("link", p.pdfLink))
    ensures p.institution.None? ==> Contains(EntryText(p, dateStr), Item("institution", "TBD"))
    ensures p.institution.Some? ==> Contains(EntryText(p, dateStr), Item("institution", p.institution.value))
  {
    var head := "- **" + EntryPrefix(dateStr) + " " + p.title + "**\n" + Item("tags", TagsText(p));
    var inst := if p.institution.Some? then p.institution.value else "TBD";
    DetailedItems(p, dateStr);
    assert EntryText(p, dateStr) == head + Item("authors", Join(", ", p.authors)) + Item("institution", inst)
             + Item("link", p.pdfLink) + SummaryLine(p.llmSummary) + "\n";
    MiddleParts(head, Item("authors", Join(", ", p.authors)), Item("institution", inst),
                Item("link", p.pdfLink), SummaryLine(p.llmSummary), "\n");
  }

  /** The second, third and fourth of six concatenated parts occur in the whole. */
  lemma MiddleParts(a: string, b: string, c: string, d: string, e: string, f: string)
    ensures Contains(a + b + c + d + e + f, b)
    ensures Contains(a + b + c + d + e + f, c)
    ensures Contains(a + b + c + d + e + f, d)
  {
    var t := a + b + c + d + e + f;
    assert t == a + b + (c + d + e + f);
    PartInside(a, b, c + d + e + f);
    assert t == a + b + c + (d + e + f);
    PartInside(a + b, c, d + e + f);
    assert t == a + b + c + d + (e + f);
    PartInside(a + b + c, d, e + f);
  }

  /** The middle part of a three-part text occurs in it. */
  lemma PartInside(a: string, s: string, b: string)
    ensures Contains(a + s + b, s)
  {
    assert OccursAt(s, s, 0);
    ContainsConcat(a, s, b, s);
  }

  lemma BlockEnds(prefix: string, title: string, tags: string, authors: string,
                  institution: string, link: string, summaryLine: string)
    ensures var t := EntryBlock(prefix, title, tags, authors, institution, link, summaryLine);
            StartsWith(t, "- **" + prefix + " " + title + "**\n" + Item("tags", tags))
            && EndsWith(t, (if summaryLine == "" then Item("link", link) else summaryLine) + "\n")
  {
    BlockShape("- **" + prefix + " " + title + "**\n" + Item("tags", tags), Item("authors", authors),
      Item("institution", institution), Item("link", link), summaryLine);
  }

  /** The first and last parts of a block of five parts and a newline. */
  lemma BlockShape(a: string, b1: string, b2: string, l: string, s: string)
    ensures StartsWith(a + b1 + b2 + l + s + "\n", a)
    ensures EndsWith(a + b1 + b2 + l + s + "\n", (if s == "" then l else s) + "\n")
  {
    var x := a + b1 + b2 + l + s + "\n";
    assert x == a + (b1 + b2 + l + s + "\n");
    ConcatEnds(a, b1 + b2 + l + s + "\n");
    if s == "" {
      assert x == (a + b1 + b2) + (l + "\n");
      ConcatEnds(a + b1 + b2, l + "\n");
    } else {
      assert x == (a + b1 + b2 + l) + (s + "\n");
      ConcatEnds(a + b1 + b2 + l, s + "\n");
    }
  }
}
