# Daily arXiv digest: a Dafny model

`get_daily_arxiv_paper.py` builds a weekly Markdown digest from the arXiv
"new listings" page in computer science. It reads the listing date from the
page's `<h3>` headings. It turns every listing entry into a paper record,
keeps the entries in the `cs.DC` category and the `cs.AI`/`cs.LG` entries
whose summary mentions reinforcement learning or acceleration, and drops
revised entries and duplicate identifiers. A language model then adds tags,
an institution and a summary to each `cs.DC` paper. Every paper is rendered
as a Markdown entry, and the day's entries are merged as one `## YYYY-MM-DD`
section into the file of the week (`YYYYMMDD-YYYYMMDD.md`).

This project models the deterministic string and sequence logic of that
pipeline and proves what it guarantees. The modules follow the script:

- `Papers`: the paper record, and the field rules of `_extract_paper_info_from_html` on an abstract entry (`RawEntry`) that holds the texts and link targets the extraction reads.
- `Selection`: the filter loop of `fetch_arxiv_papers`.
- `LlmResponse`: the labelled-line parser of the language-model reply.
- `Routing`: the branches of `process_single_paper`.
- `Calendar`: `strptime('%Y-%m-%d')`, the proleptic Gregorian day count, the weekday, `get_week_range`, `get_arxiv_prefix`, the weekly file name and header.
- `ListingPage`: the date recognition of `extract_date_from_html` over the page's `<h3>` texts.
- `Rendering`: `format_paper_with_enhanced_info` together with the summary escape chain.
- `Sections`: an explicit scanner for the section pattern `(^|\n)##\s*(\d{4}-\d{2}-\d{2}).*?(?=\n##\s|\Z)`.
- `Merge` and `Layout`: `update_markdown_file`, that is, the replace, insert and append paths and the text written back.
- `Text` and `Wrappers`: Python string operations (`strip`, `split`, `join`, `lower`, `in`) and `Option`.

The imperative parts of the script are methods. Each is proved equal to a
specification function, and the properties are proved about those functions.
These methods have loops:

- the filter loop;
- the reply parser with its `reading_summary` flag;
- the section building with `+=`;
- the section searches.

These two have no loop but update their variables step by step, as the script does:

- the tag assembly (`Rendering.FormatPaper`);
- the field-by-field update of a paper (`Routing.ProcessSinglePaper`).

The code is followed where it differs from a natural reading of its intent.
Re-running the merge for a date is not idempotent. `after_idx` (line 697)
adds the length of the section text without its leading newline to the
match start. So when a replaced section was matched after a newline, its
last character stays behind. `Layout.ReplaceAfter` and
`Layout.ReplaceLeavesLastChar` state this outcome. The model states only
what the code guarantees.

## Model

| member | source | states |
|---|---|---|
| Papers.PaperId | get_daily_arxiv_paper.py:233-239 | The identifier always starts with `http`. An `http` link is kept as it is. Any other link is rebuilt as `http://arxiv.org/abs/` plus the text after its last `/`. |
| Papers.FirstIndexContaining | get_daily_arxiv_paper.py:228-231 | The position of the first link whose target contains the pattern: no earlier link contains it, and the end of the list means that none does. |
| Papers.PdfLink | get_daily_arxiv_paper.py:248-255 | The link is `N/A` exactly when no `dt` link contains `/pdf/`. Otherwise it contains `/pdf/` and comes from the first PDF link: an absolute one is kept verbatim, and one starting with `/` is prefixed with the site base. |
| Papers.TitleOf | get_daily_arxiv_paper.py:258-266 | A missing title div gives `N/A`. A text without the `Title:` prefix is kept unchanged. With the prefix, the result is stripped, and the text after the label is that result with only whitespace before and after it. |
| Papers.RunWithout | get_daily_arxiv_paper.py:286 | The run `[^&]+` consumes: a maximal stretch of characters other than the stop character. |
| Papers.QuerySearch | get_daily_arxiv_paper.py:286 | `re.search` of `query=([^&]+)` finds the leftmost matching position, and no position before it matches. `None` means that no position matches. |
| Papers.QueryValue | get_daily_arxiv_paper.py:286-288 | The group is non-empty and free of `&`. It follows `query=` at the leftmost match position and ends at `&` or at the end. `None` exactly when the pattern matches nowhere. |
| Papers.SubjectLinkCodes | get_daily_arxiv_paper.py:281-288 | Every code is non-empty and free of `&`, and it is the query value of some `searchtype=subject` link. |
| Papers.SubjectLinkCodesComplete | get_daily_arxiv_paper.py:281-288 | Every `searchtype=subject` link whose query pattern matches contributes its code. |
| Papers.SubjectLinkCodesAppend | get_daily_arxiv_paper.py:281-288 | The codes of a concatenation of links are the codes of the first part followed by those of the second: codes keep link order. |
| Papers.SubjectLinkCodesOne | get_daily_arxiv_paper.py:282-288 | A single link gives its code when it has one, and nothing otherwise. |
| Papers.ParenMatchAt | get_daily_arxiv_paper.py:293 | A positive result is a match of `\(([^)]+)\)` at the position: `(`, a non-empty run without `)`, then `)`. A zero result means that no match starts there. |
| Papers.ParenGroups | get_daily_arxiv_paper.py:293 | Every group found by `findall` is non-empty, free of `)`, and occurs in parentheses in the text. |
| Papers.ParenGroupsTake | get_daily_arxiv_paper.py:293 | A match at the scan position is taken, and `findall` resumes after its closing parenthesis. |
| Papers.ParenGroupsSkip | get_daily_arxiv_paper.py:293 | A position where no match starts is skipped. |
| Papers.CsCodes | get_daily_arxiv_paper.py:294 | The comprehension keeps only groups of the input that start with `cs.`. |
| Papers.CsCodesComplete | get_daily_arxiv_paper.py:294 | Every group that starts with `cs.` is kept. |
| Papers.CsCodesAppend | get_daily_arxiv_paper.py:294 | The comprehension keeps the order of the groups. |
| Papers.Categories | get_daily_arxiv_paper.py:277-294 | With no category div there are no categories. When a category link gives codes, those codes are the categories. Only otherwise do parenthesised `cs.` codes of the div's text count, and every `cs.` group found is among them. |
| Papers.CollectCategories | get_daily_arxiv_paper.py:277-294 | The loop over the category links, followed by the fallback, computes `Categories`. |
| Papers.InferredTimestamp | get_daily_arxiv_paper.py:303-312 | For an identifier starting with `\d{2}\d{2}\.\d+`, the result is `20YY-MM-01T00:00:00Z` with YY and MM copied from it. Otherwise it is `N/A`. |
| Papers.TimestampMonthUnchecked | get_daily_arxiv_paper.py:307-311 | The month is not validated: `2399.00001` yields month `99`. |
| Papers.ExtractedPaper | get_daily_arxiv_paper.py:218-325 | A record exists exactly when the `dd` sibling and an `/abs/` link exist. Its id is built from the first `/abs/` link and starts with `http`. Published and updated are both the timestamp inferred from that link's short identifier. Title and summary come from the title and abstract texts. `replaced` is set exactly when the `dt` text contains `(replaced)`. Authors, author count, categories and PDF link are as extracted. The flags are clear and the institution is absent. |
| Papers.ExtractPaperInfo | get_daily_arxiv_paper.py:218-329 | The extraction method computes `ExtractedPaper`. |
| Selection.ShouldAdd | get_daily_arxiv_paper.py:184-199 | The category decision of the loop equals `Classified`: it keeps the record, with the flags set by the gate, or drops it. |
| Selection.Parsed | get_daily_arxiv_paper.py:170-171 | Each entry of the listing is extracted, position by position. |
| Selection.FetchArxivPapers | get_daily_arxiv_paper.py:170-203 | The loop computes `Selected` over the extracted entries. No kept record is revised, and the kept identifiers are pairwise distinct. |
| Selection.StepFacts | get_daily_arxiv_paper.py:172-203 | One entry adds at most one record. That record has the entry's identifier, which was not seen before, and it is not revised. |
| Selection.SelectedPrefix | get_daily_arxiv_paper.py:170-203 | Reading one more entry appends that entry's step, judged against the identifiers kept so far. |
| Selection.SelectedNoReplaced | get_daily_arxiv_paper.py:178-181 | No kept record is a revised version. |
| Selection.SelectedIdsDistinct | get_daily_arxiv_paper.py:173-176 | The kept identifiers are pairwise distinct. |
| Selection.DuplicateSkipped | get_daily_arxiv_paper.py:173-176 | An entry whose identifier is already kept adds nothing, whatever its categories. |
| Selection.RevisedSkipped | get_daily_arxiv_paper.py:178-181 | A revised entry adds nothing. |
| Selection.PrimaryKept | get_daily_arxiv_paper.py:188-189 | A new, unrevised `cs.DC` entry is kept unchanged, whatever its summary. |
| Selection.KeywordGate | get_daily_arxiv_paper.py:190-197 | For an allow-listed non-`cs.DC` entry tagged `cs.AI` or `cs.LG`: it is kept iff its lowercased summary contains `reinforcement learning` or `accelerat`. Each flag records its own test, and nothing else of the record changes. |
| Selection.UngatedAndDropped | get_daily_arxiv_paper.py:190-199 | Allow-listed entries without `cs.AI`/`cs.LG` pass unchanged. Entries sharing no allow-listed category are dropped. |
| Selection.SelectedFromInput | get_daily_arxiv_paper.py:170-203 | Every kept record is the classification of an unrevised entry of the input. |
| Selection.SelectedMonotone | get_daily_arxiv_paper.py:201-203 | The set of kept identifiers only grows as entries are read. |
| Selection.FirstKeptWins | get_daily_arxiv_paper.py:173-176 | Once an entry is kept, no later entry with the same identifier adds anything. |
| Selection.DroppedDoesNotBlock | get_daily_arxiv_paper.py:201-203 | An identifier is recorded only when its entry is kept. A revised entry followed by an unrevised copy of the same `cs.DC` paper keeps the copy. |
| LlmResponse.LabelText | get_daily_arxiv_paper.py:485-493 | Each label is lower-case letters, digits or `_`, then its single final `:`. |
| LlmResponse.HasLabelAt | get_daily_arxiv_paper.py:485-493 | The label test holds exactly when each label position matches one of the label character's two spellings. |
| LlmResponse.CaseAtLower | get_daily_arxiv_paper.py:485 | A character matches a label position exactly when its lower-case form is that label character. |
| LlmResponse.HasLabelIsLowerPrefix | get_daily_arxiv_paper.py:485-493 | A line has a label exactly when `line.lower().startswith(label)`. |
| LlmResponse.LabelOf | get_daily_arxiv_paper.py:485-499 | The branch of the `elif` chain that a line takes: the label found is one the line starts with. |
| LlmResponse.LabelOfNone | get_daily_arxiv_paper.py:498-499 | A line falls through to the last branch exactly when it starts with none of the labels. |
| LlmResponse.LabelColon | get_daily_arxiv_paper.py:486 | A labelled line contains `:`, and its first `:` closes the label. |
| LlmResponse.LabelValue | get_daily_arxiv_paper.py:486-495 | The value of a labelled line is the stripped text after the label. |
| LlmResponse.BreakLines | get_daily_arxiv_paper.py:479 | Breaking at every line-break character yields at least one piece, and no piece contains a line break. This is not `splitlines()`. `LlmResponse.LinesAreSplitLines` shows that both give the same lines once blanks are dropped. |
| LlmResponse.LineRun | get_daily_arxiv_paper.py:479 | The run from a position is free of line breaks and ends at a line break or at the end. |
| LlmResponse.SplitLinesEmpty | get_daily_arxiv_paper.py:479 | `splitlines()` gives no lines exactly for empty text. |
| LlmResponse.SplitLinesFree | get_daily_arxiv_paper.py:479 | No line of `splitlines()` contains a line-break character. |
| LlmResponse.SplitLinesStep | get_daily_arxiv_paper.py:479 | A line with an ending is the first line, and the lines after it start past the ending. A `\r\n` pair is one ending. |
| LlmResponse.BreakLinesFree | get_daily_arxiv_paper.py:479 | Text without line breaks is one piece. |
| LlmResponse.BreakLinesAt | get_daily_arxiv_paper.py:479 | The text before the first line break is the first piece. |
| LlmResponse.BreakStep | get_daily_arxiv_paper.py:479 | After one line ending, including a `\r\n` pair, the non-blank pieces are those from the next line on. |
| LlmResponse.FirstPiece | get_daily_arxiv_paper.py:479 | Breaking at every line-break character: the text before the first break is the first piece, and the rest starts after the break. |
| LlmResponse.SecondBreak | get_daily_arxiv_paper.py:479 | The second character of `\r\n` adds only an empty piece, which is dropped. |
| LlmResponse.LastLine | get_daily_arxiv_paper.py:479 | A last line without an ending gives the same non-blank stripped line either way. |
| LlmResponse.EndedLine | get_daily_arxiv_paper.py:479 | After a line with an ending, both ways agree if they agree from the next line on. |
| LlmResponse.BreakLinesAsSplitLines | get_daily_arxiv_paper.py:479 | From any position, breaking at every line-break character and `splitlines()` give the same non-blank stripped lines. |
| LlmResponse.LinesAreSplitLines | get_daily_arxiv_paper.py:479 | The reply's lines are exactly `[l.strip() for l in result.splitlines() if l.strip()]`. |
| LlmResponse.NonBlankStrippedShape | get_daily_arxiv_paper.py:479 | Every kept line is non-empty and stripped. |
| LlmResponse.NonBlankStrippedAppend | get_daily_arxiv_paper.py:479 | Filtering the lines distributes over concatenation. |
| LlmResponse.Read | get_daily_arxiv_paper.py:485-499 | A line's reading records the branch it takes and the line itself. |
| LlmResponse.ReadValueStripped | get_daily_arxiv_paper.py:486 | The value read from a line is stripped. |
| LlmResponse.Readings | get_daily_arxiv_paper.py:484 | One reading per line. |
| LlmResponse.LastLabelled | get_daily_arxiv_paper.py:484-492 | The index of the last line with a given label: no later line has it, and -1 when none does. |
| LlmResponse.LastValueSnoc | get_daily_arxiv_paper.py:485-492 | A later line with the same label overwrites the value. A line with another label leaves it unchanged. |
| LlmResponse.FirstLabelled | get_daily_arxiv_paper.py:493-494 | The index of the first `llm_summary:` line, where `reading_summary` becomes true: no earlier line has the label. |
| LlmResponse.PiecesSnoc | get_daily_arxiv_paper.py:493-499 | One more line adds its piece when the piece is non-empty. |
| LlmResponse.SummaryLinesSnoc | get_daily_arxiv_paper.py:493-499 | Once the summary has started, each line extends `summary_lines` by its piece. Before that it extends nothing. |
| LlmResponse.SummaryStarted | get_daily_arxiv_paper.py:485-499 | After the summary label has been read, a line appends its piece to `summary_lines`: the value of a later summary label, nothing for another label, else the line itself. |
| LlmResponse.SummaryStarts | get_daily_arxiv_paper.py:493-496 | The first summary label starts `summary_lines` with its non-empty value. |
| LlmResponse.SummaryNotStarted | get_daily_arxiv_paper.py:485-499 | Before the summary label, another line leaves `summary_lines` empty. |
| LlmResponse.ReadStep | get_daily_arxiv_paper.py:484-499 | What one loop pass does to each of the five variables. |
| LlmResponse.ClassifyLine | get_daily_arxiv_paper.py:485-499 | The `elif` chain on one line computes its reading. |
| LlmResponse.ScanLine | get_daily_arxiv_paper.py:485-499 | One pass of the loop body keeps the loop variables equal to the specification of the lines read so far. |
| LlmResponse.ParseLines | get_daily_arxiv_paper.py:484-505 | The loop, followed by the join and the tag split, computes the fields of the reply's lines. |
| LlmResponse.ParseResponse | get_daily_arxiv_paper.py:479-505 | The parser computes `ResponseFields` of the reply. |
| LlmResponse.TagsInstitutionSummary | get_daily_arxiv_paper.py:467-509 | A failed call gives five empty fields. Otherwise the result is the parse of the stripped reply. |
| LlmResponse.PiecesStripped | get_daily_arxiv_paper.py:495-499 | Every summary line is non-empty and stripped. |
| LlmResponse.JoinStripped | get_daily_arxiv_paper.py:502 | Non-empty stripped parts joined with single spaces give a stripped string. |
| LlmResponse.SummaryIsJoin | get_daily_arxiv_paper.py:501-502 | The summary is the summary lines joined with single spaces. The final `strip()` never changes it. |
| LlmResponse.SummaryCollects | get_daily_arxiv_paper.py:498-499 | After the first `llm_summary:` line, every unlabelled line belongs to the summary. |
| LlmResponse.UnlabelledCollected | get_daily_arxiv_paper.py:498-499 | The same fact on readings. |
| LlmResponse.PiecesContain | get_daily_arxiv_paper.py:495-499 | A non-empty piece appears among the pieces. |
| LlmResponse.Tag3ItemsShape | get_daily_arxiv_paper.py:504 | The `tag3` items are non-empty, stripped and free of commas. |
| LlmResponse.NoCommaSurvives | get_daily_arxiv_paper.py:504 | Filtering comma-free pieces keeps them comma-free. |
| LlmResponse.Tag3Cons | get_daily_arxiv_paper.py:504 | An item followed by a comma contributes itself, then the items after the comma. |
| LlmResponse.Tag3RoundTrip | get_daily_arxiv_paper.py:555 | Items joined with `", "` (line 555) split back (line 622) into exactly the same items. |
| Routing.FirstPageText | get_daily_arxiv_paper.py:425-441 | The first page's text is cut to its first 4096 characters, or kept whole when shorter. |
| Routing.PdfFileName | get_daily_arxiv_paper.py:535 | The file name ends in `.pdf`. Its stem has no `/` and ends the identifier. An identifier without `/` is used whole. |
| Routing.ProcessSinglePaper | get_daily_arxiv_paper.py:511-569 | The field-by-field update computes `Routed`. |
| Routing.RoutedKeepsRecord | get_daily_arxiv_paper.py:511-569 | Routing never changes a field that extraction or the filter wrote, and every paper comes out marked interested. |
| Routing.RoutedUnenriched | get_daily_arxiv_paper.py:516-545 | A paper that is not `cs.DC`, has no PDF link, or whose download failed keeps its enrichment fields. The compact mark is set exactly for the non-`cs.DC` papers. |
| Routing.RoutedEnriched | get_daily_arxiv_paper.py:548-559 | An enriched paper holds the reply's fields. Its stored `tag3` splits back into the reply's items, and it is not compact. |
| Routing.EnrichedTags | get_daily_arxiv_paper.py:553-559 | An enriched paper renders `TBD` exactly when the reply gave no tag at all. |
| Routing.CompactEntryUnchanged | get_daily_arxiv_paper.py:516-521 | A non-`cs.DC` paper renders the same line before and after routing. |
| Calendar.MonthLength | get_daily_arxiv_paper.py:576 | The months of a year add up to 365 days, or 366 in a leap year. |
| Calendar.NextDayNumber | get_daily_arxiv_paper.py:579 | Stepping forward one day adds one to the day count and stays representable. |
| Calendar.PrevDayNumber | get_daily_arxiv_paper.py:578 | Stepping back one day takes one from the day count and stays representable. |
| Calendar.DayNumberBounds | get_daily_arxiv_paper.py:576 | Every representable date counts from 0 up to the count of 9999-12-31. Only 0001-01-01 counts 0, and only 9999-12-31 reaches the top. |
| Calendar.Back | get_daily_arxiv_paper.py:578 | `d - timedelta(days=k)` is representable and counts `k` days fewer. |
| Calendar.Forward | get_daily_arxiv_paper.py:579 | `d + timedelta(days=k)` counts `k` days more. It fails exactly when it would pass 9999-12-31. |
| Calendar.MondayOf | get_daily_arxiv_paper.py:577-578 | The result is a Monday, at most six days before the date. |
| Calendar.FourDigitYear | get_daily_arxiv_paper.py:581-582 | For years of four digits, `%Y` is the zero-padded year. |
| Calendar.DayLen | get_daily_arxiv_paper.py:576 | The `%d` group consumes at most two characters. |
| Calendar.MatchFrom | get_daily_arxiv_paper.py:576 | `%m` takes one or two characters, followed by `-`, and `%d` takes one or two. |
| Calendar.ParseIsoDate | get_daily_arxiv_paper.py:576 | Whatever `strptime` accepts is a representable date. |
| Calendar.IsoText | get_daily_arxiv_paper.py:99 | The ISO text has ten characters, with `-` at positions 4 and 7. |
| Calendar.ParseIsoText | get_daily_arxiv_paper.py:576 | Parsing the ISO text of a date gives the date back. |
| Calendar.ParseUnpadded | get_daily_arxiv_paper.py:576 | For every valid date with month and day below 10, the text with an unpadded month and day parses to that date. |
| Calendar.ParseRejectsTrailing | get_daily_arxiv_paper.py:576 | For every valid date, its ISO text followed by any non-empty text does not parse. |
| Calendar.CompactText | get_daily_arxiv_paper.py:581-582 | `%Y%m%d` is all digits, at least five of them. |
| Calendar.WeekRange | get_daily_arxiv_paper.py:573-587 | The result is `None` exactly when the date does not parse. |
| Calendar.SundayOfWeek | get_daily_arxiv_paper.py:579 | Six days after the Monday is a Sunday, and the date lies between them. |
| Calendar.MaxDateIsFriday | get_daily_arxiv_paper.py:579 | 9999-12-31, the last representable day, is a Friday. |
| Calendar.WeekRangeWindow | get_daily_arxiv_paper.py:573-587 | The range is `S-E`: S is the Monday on or before the date and E is the Sunday six days later. The call overflows exactly when that Sunday is past 9999-12-31. |
| Calendar.LastWeekOverflows | get_daily_arxiv_paper.py:579 | The week of 9999-12-31 raises `OverflowError`. |
| Calendar.WeekRangeSplits | get_daily_arxiv_paper.py:759 | The range splits at `-` into exactly the two compact dates, so the unpacking never fails. |
| Calendar.WeekRangeLength | get_daily_arxiv_paper.py:581-584 | For years after 1000, the range has the 17 characters `YYYYMMDD-YYYYMMDD`. |
| Calendar.YearsOrdered | get_daily_arxiv_paper.py:578 | A later day is not in an earlier year. |
| Calendar.MondayYear | get_daily_arxiv_paper.py:578 | The Monday before a date after the year 1000 has a four-digit year. |
| Calendar.YearSuffix | get_daily_arxiv_paper.py:593 | `str(year)[-2:]` has at most two characters and ends the year's text. |
| Calendar.ArxivPrefix | get_daily_arxiv_paper.py:589-596 | The prefix is `""` exactly when the date does not parse. |
| Calendar.ArxivPrefixOfIso | get_daily_arxiv_paper.py:592-594 | On an ISO date, the prefix is `[arXiv` + YY + MM + DD + `]`, copied from the date's digits. |
| Calendar.WeeklyFileName | get_daily_arxiv_paper.py:745-749 | A name exists exactly when the date parses, and it ends in `.md`. |
| Calendar.WeeklyHeader | get_daily_arxiv_paper.py:763-765 | The header is `# `, the range, then a blank line. |
| Calendar.CompactMatchFrom | get_daily_arxiv_paper.py:760-761 | The first `%Y%m%d` match's month and day lengths, alternatives tried in order; the day group has the length the day alternatives give. |
| Calendar.ParseCompact | get_daily_arxiv_paper.py:760-761 | `strptime(t, '%Y%m%d')` gives only valid dates; its meaning is in ParseCompactText and ParseCompactShortYear. |
| Calendar.CreateWeeklyFile | get_daily_arxiv_paper.py:757-768 | Whenever it returns without raising, the text it writes is the header. When it raises is stated by WeeklyFileWritten and WeeklyFileRaises. |
| Calendar.ParseCompactText | get_daily_arxiv_paper.py:760-761 | The compact text of a date with a four-digit year parses back to that date. |
| Calendar.ParseCompactShortYear | get_daily_arxiv_paper.py:760-761 | The compact text of a date with a one-digit year does not parse: `%Y` takes the year and the month, and nothing is left for the day. |
| Calendar.WeeklyFileWritten | get_daily_arxiv_paper.py:757-768 | For a date after the year 1000 whose week range exists, both halves parse and the header is written. |
| Calendar.WeeklyFileRaises | get_daily_arxiv_paper.py:757-768 | When the week's Monday is in a one-digit year, `create_weekly_file` raises before writing anything. |
| ListingPage.NameAt | get_daily_arxiv_paper.py:82 | The alternation group picks the first listed name occurring at the position. `None` means that no name occurs there. |
| ListingPage.DayDigits | get_daily_arxiv_paper.py:82 | `(\d{1,2})\s+` takes one or two digits followed by whitespace. |
| ListingPage.MatchAt | get_daily_arxiv_paper.py:82 | A match yields a day of one or two digits, a month from 1 to 12, and a year of four digits. |
| ListingPage.SearchFrom | get_daily_arxiv_paper.py:83 | `re.search` finds the leftmost matching position, and no earlier position matches. |
| ListingPage.DateText | get_daily_arxiv_paper.py:99 | The date text has ten characters, with `-` at positions 4 and 7. |
| ListingPage.Announcing | get_daily_arxiv_paper.py:77-79 | One flag per heading, telling whether that heading announces a date. |
| ListingPage.FirstSet | get_daily_arxiv_paper.py:77-101 | The first announcing heading: every heading before it does not announce. |
| ListingPage.ListingDate | get_daily_arxiv_paper.py:76-104 | The result is `None` exactly when no heading holds both the marker and the pattern. Otherwise it is the date text of a heading that does, and every earlier heading does not. |
| ListingPage.ListingDateFirst | get_daily_arxiv_paper.py:76-104 | Whatever follows, the first heading with both the marker and the pattern gives the date. |
| ListingPage.FindListingDate | get_daily_arxiv_paper.py:76-101 | The loop over the headings computes `ListingDate`. |
| ListingPage.NameAtPicks | get_daily_arxiv_paper.py:82 | When a name occurs at the position, the group picks that name, because the names are distinct. |
| ListingPage.HeadingMatches | get_daily_arxiv_paper.py:82-89 | Any text `Weekday, D Month YYYY` is matched wherever it stands, and yields its day, month number and year. |
| ListingPage.DateTextParses | get_daily_arxiv_paper.py:99 | Later steps accept the date text exactly when it names a real date, and then it parses to that date. |
| ListingPage.ZFillValue | get_daily_arxiv_paper.py:99 | `zfill(2)` does not change the day's value. |
| ListingPage.RejectsInvalid | get_daily_arxiv_paper.py:99 | The padded text of an impossible date, such as 31 February, does not parse. |
| Rendering.ReplaceChar | get_daily_arxiv_paper.py:637 | `replace` leaves a text without the pattern unchanged. |
| Rendering.ReplaceCharAppend | get_daily_arxiv_paper.py:637 | `replace` of one character distributes over concatenation. |
| Rendering.EscapeSummaryIsEscapeEach | get_daily_arxiv_paper.py:637 | The four chained passes equal one pass that escapes each character on its own. |
| Rendering.ReplaceCharChars | get_daily_arxiv_paper.py:637 | After a replacement, every character either came from the text and differs from the pattern, or came from the replacement. |
| Rendering.EscapeNoAngles | get_daily_arxiv_paper.py:637 | The escaped summary holds no raw `<` or `>`. |
| Rendering.EscapePlain | get_daily_arxiv_paper.py:637 | A summary without the four special characters is left as it is. |
| Rendering.EscapedBraces | get_daily_arxiv_paper.py:637 | In the single-pass escape, every brace is preceded by a backslash. |
| Rendering.EscapedSummary | get_daily_arxiv_paper.py:637 | The escaped summary is the single-pass escape: no raw angle bracket, and every brace backslash-escaped. |
| Rendering.EntryPrefix | get_daily_arxiv_paper.py:602-606 | The entry's date tag is `""` exactly when no date is given or the date does not parse. |
| Rendering.CompactLink | get_daily_arxiv_paper.py:608-609 | The identifier is used exactly when the PDF link is empty, `N/A`, or equal to the identifier. |
| Rendering.TagsTbd | get_daily_arxiv_paper.py:616-625 | The tag string is `TBD` exactly when tag1 and tag2 are empty and tag3 has no non-blank item. |
| Rendering.FormatPaper | get_daily_arxiv_paper.py:598-640 | The method, which appends tag groups one by one, computes `EntryText`. |
| Rendering.CompactEntry | get_daily_arxiv_paper.py:607-610 | A non-`cs.DC` paper renders as `- <prefix> <title> [link](<pdf or id>)\n`. The id is used when the PDF link is empty or `N/A`. |
| Rendering.DetailedEntry | get_daily_arxiv_paper.py:613-640 | A `cs.DC` paper renders as a block that opens with its bold title and tag line. The block closes with the escaped summary item when the stripped summary is non-empty, else with the link item, then a blank line. |
| Rendering.DetailedItems | get_daily_arxiv_paper.py:629-639 | A `cs.DC` block is, in order: the bold title line, then the tags, authors, institution and link items, then the optional summary item and a blank line. The institution item reads `TBD` when the institution is unknown, else the institution. |
| Rendering.DetailedContains | get_daily_arxiv_paper.py:629-634 | In a `cs.DC` block the authors item, the link item and the institution item (`TBD` when the institution is unknown) each occur in the text. |
| Rendering.MiddleParts | get_daily_arxiv_paper.py:629-639 | The inner parts of a concatenation occur in it. |
| Rendering.BlockEnds | get_daily_arxiv_paper.py:629-639 | The same fact on the block's parts. |
| Sections.HeaderDate | get_daily_arxiv_paper.py:658 | `##\s*` and the date group: the date begins after the greedy whitespace run, with the shape `\d{4}-\d{2}-\d{2}`. |
| Sections.NextBoundary | get_daily_arxiv_paper.py:658 | The lazy `.*?` stops at the first position where `\n##\s` or the end follows. |
| Sections.MatchAt | get_daily_arxiv_paper.py:658 | The `^` alternative applies at 0 and the `\n` alternative elsewhere. The match ends at the first boundary after the date group. |
| Sections.MatchAtMatched | get_daily_arxiv_paper.py:658 | A match satisfies every fact that the record of a match states. |
| Sections.ContentOf | get_daily_arxiv_paper.py:661-664 | The recorded text is the match from its `##` on, because `lstrip('\n')` removes only the leading newline. |
| Sections.SectionOfIn | get_daily_arxiv_paper.py:661-665 | The recorded section lies in the text and starts with its dated heading. |
| Sections.SectionsFromIn | get_daily_arxiv_paper.py:660-665 | Every match of `finditer` lies in the text. |
| Sections.SectionsFromOrdered | get_daily_arxiv_paper.py:660-665 | `finditer` returns its matches in document order. |
| Sections.SectionsOfIn | get_daily_arxiv_paper.py:657-665 | The sections found lie in the file and come in document order. |
| Sections.ScanSingle | get_daily_arxiv_paper.py:657-665 | A file that is one heading plus a body with no `\n##\s` is found as exactly one section. |
| Merge.Keep | get_daily_arxiv_paper.py:671-675 | A comprehension keeps exactly the papers that satisfy the test. |
| Merge.KeepCounts | get_daily_arxiv_paper.py:671-675 | It keeps each such paper as often as it occurs. |
| Merge.KeepPermutation | get_daily_arxiv_paper.py:671-675 | Reordering the input does not change which papers are kept. |
| Merge.AppendEntries | get_daily_arxiv_paper.py:678-687 | Each loop appends the entries of its papers in order. |
| Merge.BuildSection | get_daily_arxiv_paper.py:668-689 | Building with `+=` computes `SectionText`. |
| Merge.CountsIgnoreOrder | get_daily_arxiv_paper.py:671-685 | The three group counts do not depend on the order in which the papers arrive. |
| Merge.OtherEntriesEnd | get_daily_arxiv_paper.py:682-687 | Entries of non-`cs.DC` papers end in exactly one newline. |
| Merge.LineEndsClean | get_daily_arxiv_paper.py:610 | A compact entry line ends in `)` followed by exactly one newline. |
| Merge.SectionProper | get_daily_arxiv_paper.py:668-687 | `papers_content` starts with `#` and ends in a single newline after a non-whitespace character. |
| Merge.FirstWithDate | get_daily_arxiv_paper.py:693-694 | The first section with the date: every earlier section has another date. |
| Merge.FirstLater | get_daily_arxiv_paper.py:715-719 | The first section whose date is greater by string order: no earlier one is. |
| Merge.FindSame | get_daily_arxiv_paper.py:693-711 | The search loop finds `FirstWithDate`. |
| Merge.FindLater | get_daily_arxiv_paper.py:715-719 | The search loop finds `FirstLater`. |
| Merge.FirstWithDateIs | get_daily_arxiv_paper.py:693-694 | An index whose predecessors all differ and which holds the date is `FirstWithDate`. |
| Merge.FirstLaterIs | get_daily_arxiv_paper.py:716-719 | The same for `FirstLater`. |
| Merge.Splice | get_daily_arxiv_paper.py:696-705 | The splice as written computes `Spliced`. |
| Merge.PlaceSection | get_daily_arxiv_paper.py:693-734 | The three paths compute `MergedFrom` over the sections found. |
| Merge.MergedFromCases | get_daily_arxiv_paper.py:693-734 | The first section with the date is replaced from its start to `after_idx`. Failing that, the section goes before the first later section. Failing that, it is `existing.rstrip() + "\n\n" + section`. |
| Merge.MergeSection | get_daily_arxiv_paper.py:655-739 | Scanning, placing and writing compute `Written`. |
| Merge.UpdateMarkdown | get_daily_arxiv_paper.py:642-741 | Nothing is written exactly when the paper list is empty. Otherwise the result is `Written` of its section. |
| Layout.Head | get_daily_arxiv_paper.py:696-702 | What remains before the section is either empty, or starts with non-whitespace and ends in a blank line. |
| Layout.Tail | get_daily_arxiv_paper.py:703-709 | What remains after the section is empty or ends in exactly one newline. |
| Layout.StripAround | get_daily_arxiv_paper.py:699-709 | The stripped text around a spliced section is `Head`, the section, `Tail`. |
| Layout.FormShape | get_daily_arxiv_paper.py:709 | Such a text ends in exactly one newline and contains the section. |
| Layout.WrittenReplace | get_daily_arxiv_paper.py:693-709 | If a section has the date, the first one is replaced. The text before it keeps everything except its trailing newlines, and the text from `after_idx` on follows. |
| Layout.WrittenInsert | get_daily_arxiv_paper.py:715-739 | If none has the date but a later one exists, the section goes right before the first later one. |
| Layout.WrittenAppend | get_daily_arxiv_paper.py:732-739 | If neither exists, the section is appended after a blank line. |
| Layout.WrittenHoldsSection | get_daily_arxiv_paper.py:709 | Whatever the path, the file ends in exactly one newline and holds the new section. |
| Layout.UpdatedHoldsSection | get_daily_arxiv_paper.py:642-741 | A file is written exactly when papers are given, and it then holds their section and ends in one newline. |
| Layout.FollowingBoundary | get_daily_arxiv_paper.py:703-705 | After a boundary of the pattern comes nothing at the end, else the next `##` on. |
| Layout.SpansAt | get_daily_arxiv_paper.py:660-665 | Every section found spans its text. |
| Layout.SectionEndAt | get_daily_arxiv_paper.py:697 | `after_idx` lies within the match, and the match lies within the file. |
| Layout.InsertFollowing | get_daily_arxiv_paper.py:723-730 | What follows an inserted section is the later section from its `##` on. It is preceded by an extra newline exactly when the later section starts the file, so a blank line separates the two; otherwise nothing comes between them. |
| Layout.InsertJoins | get_daily_arxiv_paper.py:722-730 | The exact text written on an insertion: the stripped text before the later section, the new section, then the later section from its `##` on, right-stripped and closed by one newline. When the later section followed a newline, that newline is dropped and the section's own line break joins the two. When it starts the file, an extra newline leaves a blank line between them. |
| Layout.ReplaceAfter | get_daily_arxiv_paper.py:697-698 | `after` starts with the old section's last character when the match began at a newline. Then comes the text after the match. |
| Layout.ReplaceFollowingClean | get_daily_arxiv_paper.py:697-705 | Replacing a section matched at the start of the file, or one ending in a newline, drops the old text entirely. |
| Layout.ReplaceClean | get_daily_arxiv_paper.py:693-709 | The written file is then `Head`, the new section, and the next `##` on, or nothing. |
| Layout.ReplaceFollowingStray | get_daily_arxiv_paper.py:697-705 | After a section matched at a newline and ending in non-whitespace, that last character follows on a line of its own. |
| Layout.ReplaceLeavesLastChar | get_daily_arxiv_paper.py:693-709 | Such a replacement leaves the old last character on its own line after the new section, before what followed the old one. |
| Text.SpaceRunMaximal | get_daily_arxiv_paper.py:658 | The greedy `\s*` consumes whitespace only and stops before non-whitespace. |
| Text.LStripShape | get_daily_arxiv_paper.py:705 | `lstrip()` removes a whitespace prefix and keeps a text starting with non-whitespace. |
| Text.RStripShape | get_daily_arxiv_paper.py:734 | `rstrip()` removes a whitespace suffix and keeps a text ending in non-whitespace. |
| Text.StripIsStripped | get_daily_arxiv_paper.py:709 | `strip()` yields stripped text that lies inside its input. |
| Text.StripShape | get_daily_arxiv_paper.py:264 | `strip()` removes only whitespace, from both ends, and leaves stripped text. |
| Text.LastPiece | get_daily_arxiv_paper.py:235 | `split('/')[-1]` has no `/` and ends the text. |
| Text.JoinSplit | get_daily_arxiv_paper.py:759 | Joining the pieces of a split with the separator rebuilds the text. |
| Text.Lower | get_daily_arxiv_paper.py:192 | `lower()` preserves the length. |
| Text.NatToString | get_daily_arxiv_paper.py:677 | `str(n)` is digits with no leading zero; its value is in NatToStringValue. |
| Text.NatToStringValue | get_daily_arxiv_paper.py:677 | The digits of `str(n)` denote n. |
| Text.LexLessTransitive | get_daily_arxiv_paper.py:717 | The string order used for dates is transitive. |
| Text.LexLessTotal | get_daily_arxiv_paper.py:717 | The string order used for dates is total. |

## Left out

- HTTP downloads of the listing page and of PDFs are not modelled. The page is given as its `<h3>` texts and its entries as `RawEntry` records. The download result is a boolean parameter of `Routing.ProcessSinglePaper`.
- BeautifulSoup traversal is not modelled. `RawEntry` holds what the traversal would return: whether the `dd` exists, the `dt` link targets in order, the `dt` text, the stripped title, author and abstract texts, and the category div's link targets and text. With no `href` attribute, the value is `""`.
- The PDF library is not modelled. `Routing.FirstPageText` takes the outcome of reading the first page as a parameter.
- The language-model call and its prompt are not modelled. The reply is a parameter, with `None` standing for an exception. Only the parser is modelled.
- The thread pool and the completion order of results are not modelled. The order-independence of the group counts (`Merge.CountsIgnoreOrder`) and of the kept sets (`Merge.KeepPermutation`) is proved instead.
- File-system effects are not modelled: reading and writing the Markdown file, `os.path.exists`, `makedirs`, `os.remove` of the temporary PDF, and the `arxiv_date.txt` ledger of processed dates. The previous file text is a parameter (`""` when the file is missing), and the text written is the result.
- `_extract_paper_info` and `filter_by_updated_date` are not modelled, because the pipeline never calls them.
- `main`, the `datetime.now()` defaults, the console prints and the `process_papers_by_date` orchestration are not modelled. That includes its `max_papers` cut and `max_results`, which the filter never reads.
- `lower()` is modelled on ASCII letters only, and `\d` on ASCII digits only. Non-ASCII letters and digits are outside the model. Whitespace is the full `str.isspace` set.
- `%Y` in `strftime` is modelled as glibc writes it, without padding for years below 1000. That output is platform-dependent. `Calendar.WeekRangeLength` is stated only for years after 1000. Under this choice `create_weekly_file` re-parses each half with `%Y%m%d`. For weeks in years 1-9 that raises (`Calendar.WeeklyFileRaises`), and after the year 1000 it succeeds (`Calendar.WeeklyFileWritten`). For years 10-999 the halves have six or seven characters, and whether the parse succeeds depends on the digits. No property is stated for those years.
- Calendar.WeeklyFileName: requires that the week range does not overflow. At 9999-12-31 the source raises an uncaught `OverflowError`, and that case is `Calendar.WeekRange`'s `Overflow` result.
- Papers.TimestampMonthUnchecked: a single example, stated deliberately weaker than a general claim, to show that the month digits are not validated. `Papers.InferredTimestamp` states the general shape.
- The `except` branches of the listing fetch and of the extraction are not modelled, because on `RawEntry` no step of them can raise. The service-call failure is modelled, in `LlmResponse.TagsInstitutionSummary`.
- The `"No papers today"` branch (line 689) is modelled in `Merge.SectionText`, but it is unreachable, because an empty list returns at line 644. No property is stated about it.
- `process_single_paper` updates the dictionary in place. The model returns the updated record instead. Callers share nothing else, so aliasing is not modelled.
