/**
 * The parser of the summarisation service's reply: five labelled fields,
 * matched case-insensitively as line prefixes, with a summary that runs
 * on over the unlabelled lines that follow it. The service call itself is
 * outside the model; its reply is a parameter.
 */
module LlmResponse {
  import opened Wrappers
  import opened Text

  datatype Label = Tag1 | Tag2 | Tag3 | Institution | LlmSummary

  function LabelText(l: Label): (r: string)
    ensures |r| >= 5 && r[|r| - 1] == ':'
    ensures forall k :: 0 <= k < |r| - 1 ==> r[k] != ':' && ('a' <= r[k] <= 'z' || '0' <= r[k] <= '9' || r[k] == '_')
  {
    match l
    case Tag1 => "tag1:"
    case Tag2 => "tag2:"
    case Tag3 => "tag3:"
    case Institution => "institution:"
    case LlmSummary => "llm_summary:"
  }

  /** The label in capitals: the other spelling each label character may take. */
  function LabelCaps(l: Label): (r: string)
    ensures |r| == |LabelText(l)|
  {
    match l
    case Tag1 => "TAG1:"
    case Tag2 => "TAG2:"
    case Tag3 => "TAG3:"
    case Institution => "INSTITUTION:"
    case LlmSummary => "LLM_SUMMARY:"
  }

  /** The tuple the parser returns; `tag3` is already split into items. */
  datatype Fields = Fields(tag1: string, tag2: string, tag3: seq<string>, institution: string, llmSummary: string)

  /** What an exception in the service call yields (lines 507-509). */
  const NoFields := Fields("", "", [], "", "")

  /** Character `k` of `line` is `lower` or its capital `upper`. */
  predicate CaseAt(line: string, k: nat, lower: char, upper: char) {
    k < |line| && (line[k] == lower || line[k] == upper)
  }

  /**
   * `line.lower().startswith(LabelText(l))`, spelled out character by
   * character with both cases of each letter (`HasLabelIsLowerPrefix`
   * proves the two agree).
   */
  predicate HasLabel(line: string, l: Label) {
    match l
    case Tag1 =>
      CaseAt(line, 0, 't', 'T') && CaseAt(line, 1, 'a', 'A') && CaseAt(line, 2, 'g', 'G') && CaseAt(line, 3, '1', '1') &&
      CaseAt(line, 4, ':', ':')
    case Tag2 =>
      CaseAt(line, 0, 't', 'T') && CaseAt(line, 1, 'a', 'A') && CaseAt(line, 2, 'g', 'G') && CaseAt(line, 3, '2', '2') &&
      CaseAt(line, 4, ':', ':')
    case Tag3 =>
      CaseAt(line, 0, 't', 'T') && CaseAt(line, 1, 'a', 'A') && CaseAt(line, 2, 'g', 'G') && CaseAt(line, 3, '3', '3') &&
      CaseAt(line, 4, ':', ':')
    case Institution =>
      CaseAt(line, 0, 'i', 'I') && CaseAt(line, 1, 'n', 'N') && CaseAt(line, 2, 's', 'S') && CaseAt(line, 3, 't', 'T') &&
      CaseAt(line, 4, 'i', 'I') && CaseAt(line, 5, 't', 'T') && CaseAt(line, 6, 'u', 'U') && CaseAt(line, 7, 't', 'T') &&
      CaseAt(line, 8, 'i', 'I') && CaseAt(line, 9, 'o', 'O') && CaseAt(line, 10, 'n', 'N') && CaseAt(line, 11, ':', ':')
    case LlmSummary =>
      CaseAt(line, 0, 'l', 'L') && CaseAt(line, 1, 'l', 'L') && CaseAt(line, 2, 'm', 'M') && CaseAt(line, 3, '_', '_') &&
      CaseAt(line, 4, 's', 'S') && CaseAt(line, 5, 'u', 'U') && CaseAt(line, 6, 'm', 'M') && CaseAt(line, 7, 'm', 'M') &&
      CaseAt(line, 8, 'a', 'A') && CaseAt(line, 9, 'r', 'R') && CaseAt(line, 10, 'y', 'Y') && CaseAt(line, 11, ':', ':')
  }

  /** The spelled-out test is the test at every position of the label. */
  lemma HasLabelAt(line: string, l: Label)
    ensures HasLabel(line, l) <==>
      |LabelText(l)| <= |line| && forall k :: 0 <= k < |LabelText(l)| ==> CaseAt(line, k, LabelText(l)[k], LabelCaps(l)[k])
  {
    var t, u := LabelText(l), LabelCaps(l);
    if HasLabel(line, l) {
      forall k | 0 <= k < |t| ensures CaseAt(line, k, t[k], u[k]) {
        if k == 0 {} else if k == 1 {} else if k == 2 {} else if k == 3 {} else if k == 4 {}
        else if k == 5 {} else if k == 6 {} else if k == 7 {} else if k == 8 {} else if k == 9 {}
        else if k == 10 {} else {}
      }
    } else if |t| <= |line| && forall k :: 0 <= k < |t| ==> CaseAt(line, k, t[k], u[k]) {
      ShortLabel(line, l);
    }
  }

  /** The reverse direction, one position at a time. */
  lemma ShortLabel(line: string, l: Label)
    requires |LabelText(l)| <= |line|
    requires forall k :: 0 <= k < |LabelText(l)| ==> CaseAt(line, k, LabelText(l)[k], LabelCaps(l)[k])
    ensures HasLabel(line, l)
  {
    var t, u := LabelText(l), LabelCaps(l);
    assert CaseAt(line, 0, t[0], u[0]) && CaseAt(line, 1, t[1], u[1]) && CaseAt(line, 2, t[2], u[2]);
    assert CaseAt(line, 3, t[3], u[3]) && CaseAt(line, 4, t[4], u[4]);
    if |t| > 5 {
      assert CaseAt(line, 5, t[5], u[5]) && CaseAt(line, 6, t[6], u[6]) && CaseAt(line, 7, t[7], u[7]);
      assert CaseAt(line, 8, t[8], u[8]) && CaseAt(line, 9, t[9], u[9]) && CaseAt(line, 10, t[10], u[10]);
      assert CaseAt(line, 11, t[11], u[11]);
    }
  }

  /** Both spellings of a label character, and nothing else, lower-case to it. */
  lemma CaseAtLower(line: string, l: Label, k: nat)
    requires k < |line| && k < |LabelText(l)|
    ensures CaseAt(line, k, LabelText(l)[k], LabelCaps(l)[k]) <==> LowerChar(line[k]) == LabelText(l)[k]
  {
  }

  /** The character-by-character test is the prefix test on the lower-cased line. */
  lemma HasLabelIsLowerPrefix(line: string, l: Label)
    ensures HasLabel(line, l) <==> StartsWith(Lower(line), LabelText(l))
  {
    var t := LabelText(l);
    HasLabelAt(line, l);
    if |t| <= |line| {
      forall k | 0 <= k < |t| ensures CaseAt(line, k, t[k], LabelCaps(l)[k]) <==> Lower(line)[k] == t[k] {
        CaseAtLower(line, l, k);
      }
      assert StartsWith(Lower(line), t) <==> forall k :: 0 <= k < |t| ==> Lower(line)[..|t|][k] == t[k];
    }
  }

  /** The branch of the `elif` chain at lines 485-499 that a line takes. */
  function LabelOf(line: string): (r: Option<Label>)
    ensures r.Some? ==> HasLabel(line, r.value)
  {
    if HasLabel(line, Tag1) then Some(Tag1)
    else if HasLabel(line, Tag2) then Some(Tag2)
    else if HasLabel(line, Tag3) then Some(Tag3)
    else if HasLabel(line, Institution) then Some(Institution)
    else if HasLabel(line, LlmSummary) then Some(LlmSummary)
    else None
  }

  /** A line takes the final `else` only when it starts with none of the labels. */
  lemma LabelOfNone(line: string)
    ensures LabelOf(line).None? <==> forall l :: !HasLabel(line, l)
  {
    if LabelOf(line).None? {
      forall l ensures !HasLabel(line, l) {
        match l
        case Tag1 =>
        case Tag2 =>
        case Tag3 =>
        case Institution =>
        case LlmSummary =>
      }
    }
  }

  /** Position of the first `c` in `s`. */
  function IndexOf(s: string, c: char): (k: nat)
    requires c in s
    ensures k < |s| && s[k] == c && forall j :: 0 <= j < k ==> s[j] != c
  {
    if s[0] == c then 0 else 1 + IndexOf(s[1..], c)
  }

  /** A line with a label has a ':', and its first one ends the label. */
  lemma LabelColon(line: string, l: Label)
    requires HasLabel(line, l)
    ensures ':' in line && IndexOf(line, ':') == |LabelText(l)| - 1
  {
    var t := LabelText(l);
    var n := |t|;
    HasLabelAt(line, l);
  }

  /** `line.split(":", 1)[1].strip()`. */
  function Value(line: string): string
    requires ':' in line
  {
    Strip(line[IndexOf(line, ':') + 1..])
  }

  /** The value of a labelled line is the stripped text after its label. */
  lemma LabelValue(line: string, l: Label)
    requires HasLabel(line, l)
    ensures ':' in line && Value(line) == Strip(line[|LabelText(l)|..])
  {
    LabelColon(line, l);
  }

  /** The pieces of `s` between line breaks, breaking at every line-break character. */
  function BreakLines(s: string): (r: seq<string>)
    ensures |r| >= 1
    ensures forall i :: 0 <= i < |r| ==> forall k :: 0 <= k < |r[i]| ==> !IsLineBreak(r[i][k])
    decreases |s|
  {
    if |s| == 0 then [""]
    else
      var rest := BreakLines(s[1..]);
      if IsLineBreak(s[0]) then [""] + rest else [[s[0]] + rest[0]] + rest[1..]
  }

  /** `[t.strip() for t in pieces if t.strip()]`. */
  function NonBlankStripped(pieces: seq<string>): seq<string>
    decreases |pieces|
  {
    if pieces == [] then []
    else
      var t := Strip(pieces[0]);
      (if t != [] then [t] else []) + NonBlankStripped(pieces[1..])
  }

  /** Every item kept is non-empty and stripped. */
  lemma {:induction false} NonBlankStrippedShape(pieces: seq<string>)
    ensures forall i :: 0 <= i < |NonBlankStripped(pieces)| ==>
              NonBlankStripped(pieces)[i] != [] && IsStripped(NonBlankStripped(pieces)[i])
    decreases |pieces|
  {
    if pieces != [] {
      StripIsStripped(pieces[0]);
      NonBlankStrippedShape(pieces[1..]);
    }
  }

  lemma {:induction false} NonBlankStrippedAppend(a: seq<string>, b: seq<string>)
    ensures NonBlankStripped(a + b) == NonBlankStripped(a) + NonBlankStripped(b)
    decreases |a|
  {
    if a != [] {
      assert (a + b)[1..] == a[1..] + b;
      NonBlankStrippedAppend(a[1..], b);
    } else {
      assert a + b == b;
    }
  }

  /** Length of the run of characters other than line breaks that starts at `i`. */
  function LineRun(s: string, i: nat): (n: nat)
    requires i <= |s|
    ensures i + n <= |s|
    ensures forall k :: i <= k < i + n ==> !IsLineBreak(s[k])
    ensures i + n == |s| || IsLineBreak(s[i + n])
    decreases |s| - i
  {
    if i == |s| || IsLineBreak(s[i]) then 0 else 1 + LineRun(s, i + 1)
  }

  /**
   * `s[i..].splitlines()`: the lines without their endings, where "\r\n"
   * ends one line, and no empty line follows a final line ending.
   */
  function SplitLinesFrom(s: string, i: nat): seq<string>
    requires i <= |s|
    decreases |s| - i
  {
    if i == |s| then []
    else
      var e := i + LineRun(s, i);
      if e == |s| then [s[i..]]
      else
        [s[i..e]] + SplitLinesFrom(s, NextLine(s, e))
  }

  /** `splitlines()` has no lines exactly for empty text. */
  lemma SplitLinesEmpty(s: string, i: nat)
    requires i <= |s|
    ensures SplitLinesFrom(s, i) == [] <==> i == |s|
  {
  }

  /** No piece contains a line break. */
  predicate LinesFree(r: seq<string>) {
    forall j :: 0 <= j < |r| ==> forall k :: 0 <= k < |r[j]| ==> !IsLineBreak(r[j][k])
  }

  /** No line of `splitlines()` contains a line break. */
  lemma {:induction false} SplitLinesFree(s: string, i: nat)
    requires i <= |s|
    ensures LinesFree(SplitLinesFrom(s, i))
    decreases |s| - i
  {
    if i < |s| {
      var e := i + LineRun(s, i);
      if e == |s| {
        assert SplitLinesFrom(s, i) == [s[i..]];
        FreeCons(s[i..], []);
      } else {
        SplitLinesStep(s, i, e);
        SplitLinesFree(s, NextLine(s, e));
        FreeCons(s[i..e], SplitLinesFrom(s, NextLine(s, e)));
      }
    }
  }

  lemma FreeCons(x: string, rest: seq<string>)
    requires forall k :: 0 <= k < |x| ==> !IsLineBreak(x[k])
    requires LinesFree(rest)
    ensures LinesFree([x] + rest)
  {
    forall j | 0 <= j < |[x] + rest| ensures forall k :: 0 <= k < |([x] + rest)[j]| ==> !IsLineBreak(([x] + rest)[j][k]) {
      if j > 0 {
        assert ([x] + rest)[j] == rest[j - 1];
      }
    }
  }

  /** Where the line after a line ending at `e` starts: "\r\n" is one ending. */
  function NextLine(s: string, e: nat): (n: nat)
    requires e < |s|
    ensures e < n <= |s|
  {
    if s[e] == '\r' && e + 1 < |s| && s[e + 1] == '\n' then e + 2 else e + 1
  }

  function SplitLines(s: string): seq<string> {
    SplitLinesFrom(s, 0)
  }

  /** A text without line breaks is one piece. */
  lemma {:induction false} BreakLinesFree(x: string)
    requires forall k :: 0 <= k < |x| ==> !IsLineBreak(x[k])
    ensures BreakLines(x) == [x]
    decreases |x|
  {
    if x != [] {
      BreakLinesFree(x[1..]);
      assert [x[0]] + x[1..] == x;
    }
  }

  /** The text up to the first line break is the first piece. */
  lemma {:induction false} BreakLinesAt(x: string, c: char, y: string)
    requires forall k :: 0 <= k < |x| ==> !IsLineBreak(x[k])
    requires IsLineBreak(c)
    ensures BreakLines(x + [c] + y) == [x] + BreakLines(y)
    decreases |x|
  {
    if x == [] {
      assert (x + [c] + y)[1..] == y;
    } else {
      assert (x + [c] + y)[1..] == x[1..] + [c] + y;
      BreakLinesAt(x[1..], c, y);
      assert [x[0]] + x[1..] == x;
    }
  }

  /** One line ending at `e`: the pieces after it are those of the next line on. */
  lemma BreakStep(s: string, i: nat, e: nat)
    requires i <= e < |s| && IsLineBreak(s[e])
    requires forall k :: i <= k < e ==> !IsLineBreak(s[k])
    ensures NonBlankStripped(BreakLines(s[i..]))
              == NonBlankStripped([s[i..e]]) + NonBlankStripped(BreakLines(s[NextLine(s, e)..]))
  {
    FirstPiece(s, i, e);
    NonBlankStrippedAppend([s[i..e]], BreakLines(s[e + 1..]));
    if NextLine(s, e) == e + 2 {
      SecondBreak(s, e + 1);
    }
  }

  /** The pieces from `i` are the text up to the line break at `e`, then the pieces after it. */
  lemma FirstPiece(s: string, i: nat, e: nat)
    requires i <= e < |s| && IsLineBreak(s[e])
    requires forall k :: i <= k < e ==> !IsLineBreak(s[k])
    ensures BreakLines(s[i..]) == [s[i..e]] + BreakLines(s[e + 1..])
  {
    assert s[i..] == s[i..e] + [s[e]] + s[e + 1..];
    BreakLinesAt(s[i..e], s[e], s[e + 1..]);
  }

  /** The second character of "\r\n" only adds an empty piece. */
  lemma SecondBreak(s: string, j: nat)
    requires j < |s| && IsLineBreak(s[j])
    ensures NonBlankStripped(BreakLines(s[j..])) == NonBlankStripped(BreakLines(s[j + 1..]))
  {
    assert s[j..] == [] + [s[j]] + s[j + 1..];
    BreakLinesAt([], s[j], s[j + 1..]);
    NonBlankStrippedAppend([[]], BreakLines(s[j + 1..]));
    assert Strip([]) == [];
  }

  /** The last line, which has no line ending. */
  lemma LastLine(s: string, i: nat)
    requires i < |s| && forall k :: i <= k < |s| ==> !IsLineBreak(s[k])
    ensures NonBlankStripped(BreakLines(s[i..])) == NonBlankStripped(SplitLinesFrom(s, i))
  {
    assert LineRun(s, i) == |s| - i;
    BreakLinesFree(s[i..]);
    assert SplitLinesFrom(s, i) == [s[i..]];
  }

  /** A line with an ending: both sides agree when they agree from the next line on. */
  lemma EndedLine(s: string, i: nat, e: nat)
    requires i <= e < |s| && e == i + LineRun(s, i)
    requires NonBlankStripped(BreakLines(s[NextLine(s, e)..])) == NonBlankStripped(SplitLinesFrom(s, NextLine(s, e)))
    ensures NonBlankStripped(BreakLines(s[i..])) == NonBlankStripped(SplitLinesFrom(s, i))
  {
    SplitLinesStep(s, i, e);
    BreakStep(s, i, e);
    PrependLine(s[i..e], BreakLines(s[NextLine(s, e)..]), SplitLinesFrom(s, NextLine(s, e)));
  }

  lemma SplitLinesStep(s: string, i: nat, e: nat)
    requires i <= e < |s| && e == i + LineRun(s, i)
    ensures SplitLinesFrom(s, i) == [s[i..e]] + SplitLinesFrom(s, NextLine(s, e))
  {
  }

  /** Two piece lists with the same lines keep them after one more line in front. */
  lemma PrependLine(x: string, a: seq<string>, b: seq<string>)
    requires NonBlankStripped(a) == NonBlankStripped(b)
    ensures NonBlankStripped([x]) + NonBlankStripped(a) == NonBlankStripped([x] + b)
  {
    NonBlankStrippedAppend([x], b);
  }

  /**
   * Breaking at every line-break character gives the same non-blank
   * stripped lines as `splitlines()`: the two differ only by empty pieces.
   */
  lemma {:induction false} BreakLinesAsSplitLines(s: string, i: nat)
    requires i <= |s|
    ensures NonBlankStripped(BreakLines(s[i..])) == NonBlankStripped(SplitLinesFrom(s, i))
    decreases |s| - i
  {
    if i == |s| {
      assert s[i..] == [];
      assert Strip([]) == [];
    } else {
      var e := i + LineRun(s, i);
      if e == |s| {
        LastLine(s, i);
      } else {
        BreakLinesAsSplitLines(s, NextLine(s, e));
        EndedLine(s, i, e);
      }
    }
  }

  /** The reply's lines are the non-blank stripped lines of `splitlines()`. */
  lemma LinesAreSplitLines(result: string)
    ensures Lines(result) == NonBlankStripped(SplitLines(result))
  {
    assert result[0..] == result;
    BreakLinesAsSplitLines(result, 0);
  }

  /** The reply's non-blank lines, stripped (line 479). */
  function Lines(result: string): seq<string> {
    NonBlankStripped(BreakLines(result))
  }

  /** How the parser reads one line: its branch, the value after the label, and the line itself. */
  datatype Reading = Reading(kind: Option<Label>, value: string, text: string)

  function Read(line: string): (r: Reading)
    ensures r.text == line && r.kind == LabelOf(line)
  {
    var kind := LabelOf(line);
    if kind.Some? then
      LabelColon(line, kind.value);
      Reading(kind, Value(line), line)
    else Reading(None, "", line)
  }

  /** The value of a labelled line is stripped. */
  lemma ReadValueStripped(line: string)
    ensures IsStripped(Read(line).value)
  {
    var kind := LabelOf(line);
    if kind.Some? {
      LabelColon(line, kind.value);
      StripIsStripped(line[IndexOf(line, ':') + 1..]);
    }
  }

  /** Every line of the reply, read in order. */
  function Readings(lines: seq<string>): (r: seq<Reading>)
    ensures |r| == |lines|
    decreases |lines|
  {
    if lines == [] then [] else Readings(lines[..|lines| - 1]) + [Read(lines[|lines| - 1])]
  }

  lemma {:induction false} ReadingsAt(lines: seq<string>, i: nat)
    requires i < |lines|
    ensures Readings(lines)[i] == Read(lines[i])
    decreases |lines|
  {
    var n := |lines| - 1;
    var pre := lines[..n];
    if i < n {
      ReadingsAt(pre, i);
      assert pre[i] == lines[i];
    }
  }

  lemma ReadingsPrefix(lines: seq<string>, i: nat)
    requires i < |lines|
    ensures Readings(lines[..i + 1]) == Readings(lines[..i]) + [Read(lines[i])]
  {
    TakeNext(lines, i);
    SnocTake(lines[..i], lines[i]);
  }

  /** Index of the last reading with label `l`, or -1 when there is none. */
  function LastLabelled(rs: seq<Reading>, l: Label): (k: int)
    ensures -1 <= k < |rs|
    ensures k >= 0 ==> rs[k].kind == Some(l)
    ensures forall j :: k < j < |rs| ==> rs[j].kind != Some(l)
    decreases |rs|
  {
    if rs == [] then -1
    else
      var n := |rs| - 1;
      if rs[n].kind == Some(l) then n
      else
        var k := LastLabelled(rs[..n], l);
        assert forall j :: k < j < n ==> rs[..n][j] == rs[j];
        k
  }

  /**
   * The value of the last line with label `l`, or "" when there is none:
   * a later line with the same label overwrites an earlier one.
   */
  function LastValue(rs: seq<Reading>, l: Label): string {
    var k := LastLabelled(rs, l);
    if k < 0 then "" else rs[k].value
  }

  lemma LastValueSnoc(rs: seq<Reading>, r: Reading, l: Label)
    ensures LastValue(rs + [r], l) == if r.kind == Some(l) then r.value else LastValue(rs, l)
  {
    SnocTake(rs, r);
    var k := LastLabelled(rs, l);
    if k >= 0 {
      assert (rs + [r])[k] == rs[k];
    }
  }

  /** Index of the first reading with label `l`, or `|rs|`. */
  function FirstLabelled(rs: seq<Reading>, l: Label): (f: nat)
    ensures f <= |rs|
    ensures forall j :: 0 <= j < f ==> rs[j].kind != Some(l)
    ensures f < |rs| ==> rs[f].kind == Some(l)
    decreases |rs|
  {
    if rs == [] then 0
    else
      var n := |rs| - 1;
      var f := FirstLabelled(rs[..n], l);
      if f < n then f
      else if rs[n].kind == Some(l) then n
      else n + 1
  }

  lemma FirstLabelledSnoc(rs: seq<Reading>, r: Reading, l: Label)
    ensures FirstLabelled(rs + [r], l) ==
      if FirstLabelled(rs, l) < |rs| then FirstLabelled(rs, l)
      else if r.kind == Some(l) then |rs| else |rs| + 1
  {
    SnocTake(rs, r);
  }

  /** What a line contributes once the summary has started: nothing for another label. */
  function Piece(r: Reading): string {
    match r.kind
    case Some(LlmSummary) => r.value
    case Some(_) => ""
    case None => r.text
  }

  /** The non-empty pieces, in order. */
  function Pieces(rs: seq<Reading>): seq<string>
    decreases |rs|
  {
    if rs == [] then []
    else
      var last := rs[|rs| - 1];
      Pieces(rs[..|rs| - 1]) + (if Piece(last) != "" then [Piece(last)] else [])
  }

  lemma PiecesSnoc(rs: seq<Reading>, r: Reading)
    ensures Pieces(rs + [r]) == Pieces(rs) + (if Piece(r) != "" then [Piece(r)] else [])
  {
    SnocTake(rs, r);
  }

  /** The lines that make up the summary: every piece from the first summary label on. */
  function SummaryLines(rs: seq<Reading>): seq<string> {
    Pieces(rs[FirstLabelled(rs, LlmSummary)..])
  }

  /** One more line extends the summary by its piece once the summary has started. */
  lemma SummaryLinesSnoc(rs: seq<Reading>, r: Reading)
    ensures SummaryLines(rs + [r]) ==
      if FirstLabelled(rs, LlmSummary) < |rs| || r.kind == Some(LlmSummary) then
        SummaryLines(rs) + (if Piece(r) != "" then [Piece(r)] else [])
      else SummaryLines(rs)
  {
    FirstLabelledSnoc(rs, r, LlmSummary);
    if FirstLabelled(rs, LlmSummary) < |rs| {
      SummaryStarted(rs, r);
    } else if r.kind == Some(LlmSummary) {
      SummaryStarts(rs, r);
    } else {
      SummaryNotStarted(rs, r);
    }
  }

  lemma SummaryStarted(rs: seq<Reading>, r: Reading)
    requires FirstLabelled(rs, LlmSummary) < |rs|
    ensures SummaryLines(rs + [r]) == SummaryLines(rs) + (if Piece(r) != "" then [Piece(r)] else [])
  {
    var f0 := FirstLabelled(rs, LlmSummary);
    FirstLabelledSnoc(rs, r, LlmSummary);
    SnocDrop(rs, r, f0);
    PiecesSnoc(rs[f0..], r);
  }

  lemma SummaryStarts(rs: seq<Reading>, r: Reading)
    requires FirstLabelled(rs, LlmSummary) == |rs| && r.kind == Some(LlmSummary)
    ensures SummaryLines(rs + [r]) == SummaryLines(rs) + (if Piece(r) != "" then [Piece(r)] else [])
  {
    var n := |rs|;
    FirstLabelledSnoc(rs, r, LlmSummary);
    SnocDrop(rs, r, n);
    assert rs[n..] == [];
    PiecesSnoc([], r);
  }

  lemma SummaryNotStarted(rs: seq<Reading>, r: Reading)
    requires FirstLabelled(rs, LlmSummary) == |rs| && r.kind != Some(LlmSummary)
    ensures SummaryLines(rs + [r]) == SummaryLines(rs)
  {
    var n := |rs|;
    FirstLabelledSnoc(rs, r, LlmSummary);
    assert (rs + [r])[n + 1..] == [];
    assert rs[n..] == [];
  }

  function SummaryText(rs: seq<Reading>): string {
    var parts := SummaryLines(rs);
    if parts != [] then Strip(Join(" ", parts)) else ""
  }

  /** The items of the `tag3` field (line 504). */
  function Tag3Items(tag3: string): seq<string> {
    NonBlankStripped(Split(tag3, ','))
  }

  /** The parsed reply, field by field. */
  function ResponseFields(result: string): Fields {
    LinesFields(Lines(result))
  }

  /** The fields read off the reply's lines. */
  function LinesFields(lines: seq<string>): Fields {
    var rs := Readings(lines);
    Fields(LastValue(rs, Tag1), LastValue(rs, Tag2), Tag3Items(LastValue(rs, Tag3)),
           LastValue(rs, Institution), SummaryText(rs))
  }

  /**
   * The `elif` chain of lines 485-499 for one line: which label it starts
   * with, and the stripped text after its first ':'.
   */
  method ClassifyLine(line: string) returns (kind: Option<Label>, value: string)
    ensures Reading(kind, value, line) == Read(line)
  {
    kind := None;
    value := "";
    if HasLabel(line, Tag1) {
      kind := Some(Tag1);
    } else if HasLabel(line, Tag2) {
      kind := Some(Tag2);
    } else if HasLabel(line, Tag3) {
      kind := Some(Tag3);
    } else if HasLabel(line, Institution) {
      kind := Some(Institution);
    } else if HasLabel(line, LlmSummary) {
      kind := Some(LlmSummary);
    }
    if kind.Some? {
      LabelColon(line, kind.value);
      value := Value(line);
    }
  }

  /** Lines 479-505 on the stripped reply text. */
  method ParseResponse(result: string) returns (f: Fields)
    ensures f == ResponseFields(result)
  {
    var lines := Lines(result);
    NonBlankStrippedShape(BreakLines(result));
    f := ParseLines(lines);
  }

  /** The variables of the loop at lines 484-499. */
  datatype Scan = Scan(tag1: string, tag2: string, tag3: string, institution: string,
                       readingSummary: bool, summaryLines: seq<string>)

  /** The loop state after reading `rs`: each variable is what its specification says. */
  ghost predicate ScanOf(st: Scan, rs: seq<Reading>) {
    && st.tag1 == LastValue(rs, Tag1) && st.tag2 == LastValue(rs, Tag2)
    && st.tag3 == LastValue(rs, Tag3) && st.institution == LastValue(rs, Institution)
    && (st.readingSummary <==> FirstLabelled(rs, LlmSummary) < |rs|)
    && st.summaryLines == SummaryLines(rs)
  }

  /** One pass of the loop body (lines 485-499) on a line already classified. */
  method ScanLine(st: Scan, kind: Option<Label>, value: string, line: string, ghost rs: seq<Reading>)
    returns (st': Scan)
    requires line != [] && ScanOf(st, rs)
    ensures ScanOf(st', rs + [Reading(kind, value, line)])
  {
    ReadStep(rs, Reading(kind, value, line));
    match kind
    case Some(Tag1) => st' := st.(tag1 := value);
    case Some(Tag2) => st' := st.(tag2 := value);
    case Some(Tag3) => st' := st.(tag3 := value);
    case Some(Institution) => st' := st.(institution := value);
    case Some(LlmSummary) =>
      st' := st.(readingSummary := true);
      if value != [] {
        st' := st'.(summaryLines := st.summaryLines + [value]);
      }
    case None =>
      st' := st;
      if st.readingSummary {
        st' := st.(summaryLines := st.summaryLines + [line]);
      }
  }

  /** The loop of lines 484-499, then lines 501-505. */
  method ParseLines(lines: seq<string>) returns (f: Fields)
    requires forall i :: 0 <= i < |lines| ==> lines[i] != []
    ensures f == LinesFields(lines)
  {
    var st := Scan("", "", "", "", false, []);
    ghost var rs: seq<Reading> := [];
    var i := 0;
    while i < |lines|
      invariant 0 <= i <= |lines| && rs == Readings(lines[..i])
      invariant ScanOf(st, rs)
    {
      var line := lines[i];
      var kind, value := ClassifyLine(line);
      st := ScanLine(st, kind, value, line, rs);
      ReadingsPrefix(lines, i);
      rs := rs + [Reading(kind, value, line)];
      i := i + 1;
    }
    TakeAll(lines);
    var llmSummary := "";
    if st.summaryLines != [] {
      llmSummary := Strip(Join(" ", st.summaryLines));
    }
    var tag3List := Tag3Items(st.tag3);
    f := Fields(st.tag1, st.tag2, tag3List, st.institution, llmSummary);
  }

  /** What one more reading adds to each field's specification. */
  lemma ReadStep(rs: seq<Reading>, r: Reading)
    ensures LastValue(rs + [r], Tag1) == (if r.kind == Some(Tag1) then r.value else LastValue(rs, Tag1))
    ensures LastValue(rs + [r], Tag2) == (if r.kind == Some(Tag2) then r.value else LastValue(rs, Tag2))
    ensures LastValue(rs + [r], Tag3) == (if r.kind == Some(Tag3) then r.value else LastValue(rs, Tag3))
    ensures LastValue(rs + [r], Institution) == (if r.kind == Some(Institution) then r.value else LastValue(rs, Institution))
    ensures FirstLabelled(rs + [r], LlmSummary) < |rs| + 1 <==> FirstLabelled(rs, LlmSummary) < |rs| || r.kind == Some(LlmSummary)
    ensures SummaryLines(rs + [r]) ==
      if FirstLabelled(rs, LlmSummary) < |rs| || r.kind == Some(LlmSummary) then
        SummaryLines(rs) + (if Piece(r) != "" then [Piece(r)] else [])
      else SummaryLines(rs)
  {
    LastValueSnoc(rs, r, Tag1);
    LastValueSnoc(rs, r, Tag2);
    LastValueSnoc(rs, r, Tag3);
    LastValueSnoc(rs, r, Institution);
    FirstLabelledSnoc(rs, r, LlmSummary);
    SummaryLinesSnoc(rs, r);
  }

  /** Lines 467-509: the reply, or `None` when the service call raised. */
  method TagsInstitutionSummary(reply: Option<string>) returns (f: Fields)
    ensures reply.None? ==> f == NoFields
    ensures reply.Some? ==> f == ResponseFields(Strip(reply.value))
  {
    if reply.None? {
      return NoFields;
    }
    var result := Strip(reply.value);
    f := ParseResponse(result);
  }

  /** Each summary line is non-empty and stripped. */
  lemma {:induction false} PiecesStripped(rs: seq<Reading>)
    requires forall i :: 0 <= i < |rs| ==> IsStripped(rs[i].text) && IsStripped(rs[i].value)
    ensures forall i :: 0 <= i < |Pieces(rs)| ==> Pieces(rs)[i] != [] && IsStripped(Pieces(rs)[i])
    decreases |rs|
  {
    if rs != [] {
      PiecesStripped(rs[..|rs| - 1]);
    }
  }

  /** Joining non-empty stripped parts with single spaces leaves nothing to strip. */
  lemma {:induction false} JoinStripped(parts: seq<string>)
    requires parts != []
    requires forall i :: 0 <= i < |parts| ==> parts[i] != [] && IsStripped(parts[i])
    ensures IsStripped(Join(" ", parts))
    ensures Join(" ", parts) != [] && Join(" ", parts)[0] == parts[0][0]
    ensures Join(" ", parts)[|Join(" ", parts)| - 1] == parts[|parts| - 1][|parts[|parts| - 1]| - 1]
    decreases |parts|
  {
    if |parts| > 1 {
      JoinStripped(parts[1..]);
    }
  }

  /**
   * The summary is the summary lines joined with single spaces: the final
   * `strip()` at line 502 never changes it.
   */
  lemma SummaryIsJoin(result: string)
    ensures var rs := Readings(Lines(result)); SummaryText(rs) == Join(" ", SummaryLines(rs))
  {
    var lines := Lines(result);
    var rs := Readings(lines);
    NonBlankStrippedShape(BreakLines(result));
    forall i | 0 <= i < |rs| ensures IsStripped(rs[i].text) && IsStripped(rs[i].value) {
      ReadingsAt(lines, i);
      ReadValueStripped(lines[i]);
    }
    var f := FirstLabelled(rs, LlmSummary);
    PiecesStripped(rs[f..]);
    var parts := SummaryLines(rs);
    if parts != [] {
      JoinStripped(parts);
      StripIdentity(Join(" ", parts));
    }
  }

  /** Once the summary has started, every unlabelled line joins it. */
  lemma SummaryCollects(lines: seq<string>, k: nat)
    requires k < |lines| && FirstLabelled(Readings(lines), LlmSummary) <= k
    requires LabelOf(lines[k]).None? && lines[k] != []
    ensures lines[k] in SummaryLines(Readings(lines))
  {
    ReadingsAt(lines, k);
    UnlabelledCollected(Readings(lines), k);
  }

  /** The same on readings: an unlabelled reading at or after the first summary label is a piece. */
  lemma UnlabelledCollected(rs: seq<Reading>, k: nat)
    requires k < |rs| && FirstLabelled(rs, LlmSummary) <= k
    requires rs[k].kind.None? && rs[k].text != []
    ensures rs[k].text in SummaryLines(rs)
  {
    var f := FirstLabelled(rs, LlmSummary);
    var tail := rs[f..];
    assert tail[k - f] == rs[k];
    PiecesContain(tail, k - f);
  }

  lemma {:induction false} PiecesContain(rs: seq<Reading>, k: nat)
    requires k < |rs| && Piece(rs[k]) != ""
    ensures Piece(rs[k]) in Pieces(rs)
    decreases |rs|
  {
    if k < |rs| - 1 {
      PiecesContain(rs[..|rs| - 1], k);
    }
  }

  /** Every tag3 item is non-empty, stripped and free of commas. */
  lemma Tag3ItemsShape(tag3: string)
    ensures forall i :: 0 <= i < |Tag3Items(tag3)| ==>
              Tag3Items(tag3)[i] != [] && IsStripped(Tag3Items(tag3)[i]) && ',' !in Tag3Items(tag3)[i]
  {
    var pieces := Split(tag3, ',');
    NoCommaSurvives(pieces);
    NonBlankStrippedShape(pieces);
  }

  lemma {:induction false} NoCommaSurvives(pieces: seq<string>)
    requires forall i :: 0 <= i < |pieces| ==> ',' !in pieces[i]
    ensures forall i :: 0 <= i < |NonBlankStripped(pieces)| ==> ',' !in NonBlankStripped(pieces)[i]
    decreases |pieces|
  {
    if pieces != [] {
      NoCommaSurvives(pieces[1..]);
      StripIsStripped(pieces[0]);
      var t := Strip(pieces[0]);
      if t != [] {
        var i :| 0 <= i <= |pieces[0]| - |t| && OccursAt(pieces[0], t, i);
        forall k | 0 <= k < |t| ensures t[k] != ',' {
          assert t[k] == pieces[0][i + k];
        }
      }
    }
  }

  /** Stripping whitespace in front of a stripped string gives the string. */
  lemma StripAfterSpaces(w: string, x: string)
    requires forall i :: 0 <= i < |w| ==> IsSpace(w[i])
    requires x != [] && IsStripped(x)
    ensures Strip(w + x) == x
  {
    LStripAppend(w, x);
    LStripIdentity(x);
    RStripIdentity(x);
  }

  /** One piece without a separator yields the stripped piece, if any. */
  lemma Tag3ItemsOnePiece(w: string, x: string)
    requires forall i :: 0 <= i < |w| ==> IsSpace(w[i]) && w[i] != ','
    requires ',' !in x && (x == [] || IsStripped(x))
    ensures Split(w + x, ',') == [w + x]
    ensures NonBlankStripped([w + x]) == if x == [] then [] else [x]
  {
    assert ',' !in w + x;
    LastPieceIsSuffix(w + x, ',');
    LStripAppend(w, x);
    if x == [] {
      assert LStrip(x) == [];
    } else {
      LStripIdentity(x);
      RStripIdentity(x);
    }
    assert Strip(w + x) == x;
    assert [w + x][1..] == [];
  }

  /** An item followed by a comma contributes itself, then the items after the comma. */
  lemma Tag3Cons(w: string, x: string, tail: string)
    requires forall i :: 0 <= i < |w| ==> IsSpace(w[i]) && w[i] != ','
    requires ',' !in x && x != [] && IsStripped(x)
    ensures Tag3Items((w + x) + [','] + tail) == [x] + Tag3Items(tail)
  {
    assert ',' !in w + x;
    SplitFirst(w + x, ',', tail);
    NonBlankStrippedAppend([w + x], Split(tail, ','));
    Tag3ItemsOnePiece(w, x);
  }

  /**
   * The enrichment step stores the items joined with ", " (line 555); the
   * renderer splits them again (line 622) and gets the same items back.
   */
  lemma {:induction false} Tag3RoundTrip(items: seq<string>, w: string)
    requires forall i :: 0 <= i < |items| ==> items[i] != [] && IsStripped(items[i]) && ',' !in items[i]
    requires forall i :: 0 <= i < |w| ==> IsSpace(w[i]) && w[i] != ','
    ensures Tag3Items(w + Join(", ", items)) == items
    decreases |items|
  {
    if items == [] {
      assert w + Join(", ", items) == w + [];
      Tag3ItemsOnePiece(w, []);
    } else if |items| == 1 {
      Tag3ItemsOnePiece(w, items[0]);
    } else {
      var x, rest := items[0], items[1..];
      var tail := " " + Join(", ", rest);
      assert w + Join(", ", items) == (w + x) + [','] + tail;
      Tag3Cons(w, x, tail);
      assert IsSpace(' ');
      Tag3RoundTrip(rest, " ");
      assert [x] + rest == items;
    }
  }
}
