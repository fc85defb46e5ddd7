/**
 * What `update_markdown_file` writes, case by case: the final
 * `new_content.strip() + '\n'` (lines 709 and 739) worked out for the
 * three ways a section is placed (lines 693-734).
 */
module Layout {
  import opened Text
  import opened Papers
  import opened Sections
  import opened Merge

  /** What remains of the text before the section once stripped: nothing, or itself and a blank line. */
  function Head(before: string): (r: string)
    ensures r == "" || (!IsSpace(r[0]) && EndsWith(r, "\n\n"))
  {
    LStripShape(before);
    if LStrip(before) == "" then "" else LStrip(before) + "\n\n"
  }

  /** What remains of the text after the section once stripped, with the final newline. */
  function Tail(z: string): (r: string)
    ensures r == "" || EndsClean(r)
  {
    RStripShape(z);
    if RStrip(z) == "" then "" else RStrip(z) + "\n"
  }

  /** The tail written after a spliced section when `after` followed it (lines 703-705, 728-730). */
  function Following(after: string): string {
    Tail(Gap(after) + LStripChar(after, '\n'))
  }

  /** Where the match of a section ends: its `##` plus the length of its text. */
  function SectionEnd(t: string, s: Section): nat {
    HashAt(t, s) + |s.content|
  }

  lemma LStripGap(b: string, rest: string)
    requires rest != [] && rest[0] == '#'
    ensures LStrip(b + "\n\n" + rest) == Head(b) + rest
  {
    LStripShape(b);
    assert b + "\n\n" + rest == b + ("\n\n" + rest);
    if LStrip(b) == [] {
      LStripAppend(b, "\n\n" + rest);
      LStripAppend("\n\n", rest);
      LStripIdentity(rest);
    } else {
      LStripConcat(b, "\n\n" + rest);
    }
  }

  lemma LStripAround(b: string, sec: string, z: string)
    requires Proper(sec)
    ensures LStrip(Around(b, sec, z)) == Head(b) + sec + z
  {
    assert (sec + z)[0] == '#';
    if b == "" {
      assert Around(b, sec, z) == "\n" + (sec + z);
      LStripAppend("\n", sec + z);
      LStripIdentity(sec + z);
    } else {
      assert Around(b, sec, z) == b + "\n\n" + (sec + z);
      LStripGap(b, sec + z);
    }
  }

  /** Right-stripping after a text that ends cleanly keeps that text and its newline. */
  lemma RStripClean(a: string, z: string)
    requires EndsClean(a)
    ensures RStrip(a + z) + "\n" == a + Tail(z)
  {
    RStripTail(a, z);
    if RStrip(z) == [] {
      var a' := a[..|a| - 1];
      assert a == a' + "\n";
      assert a'[|a'| - 1] == a[|a| - 2];
      RStripIdentity(a');
    }
  }

  /** The stripped text around a section: `Head`, the section, `Tail`. */
  lemma StripAround(b: string, sec: string, z: string)
    requires Proper(sec)
    ensures Strip(Around(b, sec, z)) + "\n" == Head(b) + sec + Tail(z)
  {
    LStripAround(b, sec, z);
    EndsCleanAppend(Head(b), sec);
    RStripClean(Head(b) + sec, z);
  }

  /** A text of the form `Head`, section, `Tail` ends cleanly and contains the section. */
  lemma FormShape(h: string, sec: string, z: string)
    requires Proper(sec)
    ensures EndsClean(h + sec + Tail(z)) && Contains(h + sec + Tail(z), sec)
  {
    if Tail(z) == "" {
      assert h + sec + Tail(z) == h + sec;
      EndsCleanAppend(h, sec);
    } else {
      EndsCleanAppend(h + sec, Tail(z));
    }
    assert StartsWith(sec, sec);
    ContainsPrefix(sec, sec);
    ContainsConcat(h, sec, Tail(z), sec);
  }

  /**
   * A section with the date exists: the first one is replaced, the text
   * before it keeps everything but its trailing newlines, and what came
   * from `after_idx` on follows (lines 693-709).
   */
  lemma WrittenReplace(existing: string, section: string, date: string)
    requires Proper(section)
    requires FirstWithDate(SectionsOf(existing), date) < |SectionsOf(existing)|
    ensures var s := SectionsOf(existing)[FirstWithDate(SectionsOf(existing), date)];
      && AfterIndex(s) <= |existing|
      && Written(existing, section, date)
         == Head(RStripChar(existing[..s.start], '\n')) + section + Following(existing[AfterIndex(s)..])
  {
    var ss := SectionsOf(existing);
    var s := ss[FirstWithDate(ss, date)];
    SectionsInBounds(existing);
    assert s in ss;
    var b := RStripChar(existing[..s.start], '\n');
    var after := existing[AfterIndex(s)..];
    assert Merged(existing, section, date) == Around(b, section, Gap(after) + LStripChar(after, '\n'));
    StripAround(b, section, Gap(after) + LStripChar(after, '\n'));
  }

  /**
   * No section has the date but a later one exists: the section goes
   * right before the first later one in document order (lines 715-730).
   */
  lemma WrittenInsert(existing: string, section: string, date: string)
    requires Proper(section)
    requires FirstWithDate(SectionsOf(existing), date) == |SectionsOf(existing)|
    requires FirstLater(SectionsOf(existing), date) < |SectionsOf(existing)|
    ensures var s := SectionsOf(existing)[FirstLater(SectionsOf(existing), date)];
      && s.start <= |existing|
      && Written(existing, section, date)
         == Head(RStripChar(existing[..s.start], '\n')) + section + Following(existing[s.start..])
  {
    var ss := SectionsOf(existing);
    var s := ss[FirstLater(ss, date)];
    SectionsInBounds(existing);
    assert s in ss;
    var b := RStripChar(existing[..s.start], '\n');
    var after := existing[s.start..];
    assert Merged(existing, section, date) == Around(b, section, Gap(after) + LStripChar(after, '\n'));
    StripAround(b, section, Gap(after) + LStripChar(after, '\n'));
  }

  /** No section has the date or a later one: the section is appended after a blank line (line 734). */
  lemma WrittenAppend(existing: string, section: string, date: string)
    requires Proper(section)
    requires FirstWithDate(SectionsOf(existing), date) == |SectionsOf(existing)|
    requires FirstLater(SectionsOf(existing), date) == |SectionsOf(existing)|
    ensures Written(existing, section, date) == Head(RStrip(existing)) + section
  {
    SectionsInBounds(existing);
    var b := RStrip(existing);
    assert Merged(existing, section, date) == b + "\n\n" + section;
    LStripGap(b, section);
    EndsCleanAppend(Head(b), section);
    RStripClean(Head(b) + section, "");
    assert Head(b) + section + "" == Head(b) + section;
  }

  /** Whatever the case, the file ends in exactly one newline and holds the new section (lines 709, 739). */
  lemma WrittenHoldsSection(existing: string, section: string, date: string)
    requires Proper(section)
    ensures EndsClean(Written(existing, section, date))
    ensures Contains(Written(existing, section, date), section)
  {
    var ss := SectionsOf(existing);
    SectionsInBounds(existing);
    if FirstWithDate(ss, date) < |ss| {
      WrittenReplace(existing, section, date);
      var s := ss[FirstWithDate(ss, date)];
      var after := existing[AfterIndex(s)..];
      FormShape(Head(RStripChar(existing[..s.start], '\n')), section, Gap(after) + LStripChar(after, '\n'));
    } else if FirstLater(ss, date) < |ss| {
      WrittenInsert(existing, section, date);
      var s := ss[FirstLater(ss, date)];
      var after := existing[s.start..];
      FormShape(Head(RStripChar(existing[..s.start], '\n')), section, Gap(after) + LStripChar(after, '\n'));
    } else {
      WrittenAppend(existing, section, date);
      FormShape(Head(RStrip(existing)), section, "");
      assert Tail("") == "";
      assert Head(RStrip(existing)) + section + Tail("") == Head(RStrip(existing)) + section;
    }
  }

  /** A non-empty paper list always writes a file that holds its section and ends cleanly (lines 642-741). */
  lemma UpdatedHoldsSection(existing: string, ps: seq<Paper>, date: string)
    ensures Updated(existing, ps, date).Some? <==> ps != []
    ensures ps != [] ==>
      && EndsClean(Updated(existing, ps, date).value)
      && Contains(Updated(existing, ps, date).value, SectionText(ps, date))
  {
    if ps != [] {
      SectionProper(ps, date);
      WrittenHoldsSection(existing, SectionText(ps, date), date);
    }
  }

  lemma RStripHash(x: string)
    requires x != [] && x[0] == '#'
    ensures RStrip(x) != []
  {
    RStripShape(x);
  }

  /** What follows a section starting with `##`: one newline, then the rest right-stripped. */
  lemma FollowingHash(x: string)
    requires x != [] && x[0] == '#'
    ensures Following(x) == "\n" + RStrip(x) + "\n"
  {
    LStripIdentityChar(x);
    RStripHash(x);
    RStripTail("\n", x);
  }

  lemma LStripIdentityChar(x: string)
    requires x != [] && x[0] == '#'
    ensures LStripChar(x, '\n') == x
  {
  }

  /** What follows a section at a newline and `##`: the rest from the `##` on, right-stripped. */
  lemma FollowingNewlineHash(x: string)
    requires |x| >= 2 && x[0] == '\n' && x[1] == '#'
    ensures Following(x) == RStrip(x[1..]) + "\n"
  {
    LStripOneNewline(x);
    assert Gap(x) + LStripChar(x, '\n') == x[1..];
    assert x[1..][0] == '#';
    RStripHash(x[1..]);
  }

  /** What is written from a boundary of the pattern on: nothing at the end, else the next `##` on, right-stripped. */
  function FromBoundary(t: string, q: nat): string
    requires q <= |t|
  {
    if q == |t| then "" else RStrip(t[q + 1..]) + "\n"
  }

  /** What follows a section at a boundary of the pattern: nothing at the end, else the next `##` on. */
  lemma FollowingBoundary(t: string, q: nat)
    requires q <= |t| && Boundary(t, q)
    ensures Following(t[q..]) == FromBoundary(t, q)
  {
    if q < |t| {
      assert t[q..][1..] == t[q + 1..];
      FollowingNewlineHash(t[q..]);
    } else {
      assert t[q..] == [];
      assert Gap([]) + LStripChar([], '\n') == [];
    }
  }

  /** The facts about a found section that the splice depends on. */
  predicate Spans(t: string, s: Section) {
    var h := HashAt(t, s);
    && (h == s.start || (h == s.start + 1 && t[s.start] == '\n'))
    && SectionEnd(t, s) <= |t| && t[h..SectionEnd(t, s)] == s.content
    && s.content != [] && s.content[0] == '#'
    && Boundary(t, SectionEnd(t, s))
  }

  lemma SpansOf(t: string, s: Section)
    requires SectionIn(t, s)
    ensures Spans(t, s)
  {
    assert t[HashAt(t, s)..SectionEnd(t, s)] == s.content;
  }

  /** Every section the pattern finds spans its text. */
  lemma SpansAt(t: string, k: nat)
    requires k < |SectionsOf(t)|
    ensures Spans(t, SectionsOf(t)[k])
  {
    SectionsOfIn(t);
    assert SectionsOf(t)[k] in SectionsOf(t);
    SpansOf(t, SectionsOf(t)[k]);
  }

  /** Where a found section's match ends lies in the text. */
  lemma SectionEndAt(t: string, k: nat)
    requires k < |SectionsOf(t)|
    ensures var s := SectionsOf(t)[k];
      s.start <= HashAt(t, s) <= SectionEnd(t, s) <= |t| && AfterIndex(s) <= SectionEnd(t, s)
  {
    SpansAt(t, k);
  }

  /** The newline put before a later section that did not start with one (lines 728-729). */
  function Separator(t: string, s: Section): string {
    if HashAt(t, s) == s.start then "\n" else ""
  }

  /** What follows a section inserted before `s`: the later section from its `##` on. */
  lemma InsertFollowing(t: string, s: Section)
    requires Spans(t, s)
    ensures HashAt(t, s) <= |t|
    ensures Following(t[s.start..]) == Separator(t, s) + RStrip(t[HashAt(t, s)..]) + "\n"
  {
    var h := HashAt(t, s);
    var after := t[s.start..];
    assert t[h] == s.content[0];
    if h == s.start {
      assert after == t[h..];
      FollowingHash(after);
    } else {
      assert after[1..] == t[h..];
      FollowingNewlineHash(after);
    }
  }

  /**
   * An insertion puts the section right before the next `##` marker (lines
   * 722-730). When the later section was matched after a newline, that
   * newline is dropped and the two are joined by the section's own final
   * line break; when it starts the file, `Separator` adds a newline, so a
   * blank line separates them.
   */
  lemma InsertJoins(existing: string, section: string, date: string)
    requires Proper(section)
    requires FirstWithDate(SectionsOf(existing), date) == |SectionsOf(existing)|
    requires FirstLater(SectionsOf(existing), date) < |SectionsOf(existing)|
    ensures var s := SectionsOf(existing)[FirstLater(SectionsOf(existing), date)];
      && HashAt(existing, s) <= |existing|
      && Written(existing, section, date)
         == Head(RStripChar(existing[..s.start], '\n')) + section + Separator(existing, s)
            + RStrip(existing[HashAt(existing, s)..]) + "\n"
  {
    var ss := SectionsOf(existing);
    var k := FirstLater(ss, date);
    var s := ss[k];
    SectionEndAt(existing, k);
    var pre := Head(RStripChar(existing[..s.start], '\n')) + section;
    var sep := Separator(existing, s);
    var r := RStrip(existing[HashAt(existing, s)..]);
    InsertFollowingAt(existing, k);
    assert Written(existing, section, date) == pre + Following(existing[s.start..]) by {
      WrittenInsert(existing, section, date);
    }
    Regroup3(pre, sep, r, "\n");
  }

  /**
   * `after_idx` (line 697) counts from the match start but adds the length
   * of the content without its leading newline: when the match began at a
   * newline, the old section's last character is left at the front of
   * `after`.
   */
  lemma ReplaceAfter(t: string, s: Section)
    requires Spans(t, s)
    ensures AfterIndex(s) <= SectionEnd(t, s) <= |t|
    ensures t[AfterIndex(s)..]
      == (if HashAt(t, s) == s.start then [] else [s.content[|s.content| - 1]]) + t[SectionEnd(t, s)..]
  {
    var e := SectionEnd(t, s);
    if HashAt(t, s) != s.start {
      assert t[e - 1] == s.content[|s.content| - 1];
      assert t[e - 1..] == [t[e - 1]] + t[e..];
    }
  }

  /** What follows a replaced section matched at the start of the file or ending in a newline. */
  lemma ReplaceFollowingClean(t: string, s: Section)
    requires Spans(t, s)
    requires HashAt(t, s) == s.start || EndsWith(s.content, "\n")
    ensures AfterIndex(s) <= SectionEnd(t, s) <= |t|
    ensures Following(t[AfterIndex(s)..])
      == FromBoundary(t, SectionEnd(t, s))
  {
    var e := SectionEnd(t, s);
    assert AfterIndex(s) <= e <= |t| && Boundary(t, e);
    var after := t[AfterIndex(s)..];
    assert Following(after) == Following(t[e..]) by {
      ReplaceAfter(t, s);
      if HashAt(t, s) != s.start {
        assert s.content[|s.content| - 1] == '\n';
        assert after == "\n" + t[e..];
        NewlineBeforeBoundary(t, e);
      }
    }
    FollowingBoundary(t, e);
  }

  /**
   * Replacing a section that the pattern matched at the very start of the
   * file, or one whose text ends in a newline, drops the old text entirely:
   * the new section is followed by the next `##` marker after one newline,
   * or by nothing.
   */
  lemma ReplaceClean(existing: string, section: string, date: string)
    requires Proper(section)
    requires var ss := SectionsOf(existing); var k := FirstWithDate(ss, date);
      k < |ss| && (HashAt(existing, ss[k]) == ss[k].start || EndsWith(ss[k].content, "\n"))
    ensures var s := SectionsOf(existing)[FirstWithDate(SectionsOf(existing), date)];
      && SectionEnd(existing, s) <= |existing|
      && Written(existing, section, date)
         == Head(RStripChar(existing[..s.start], '\n')) + section
            + FromBoundary(existing, SectionEnd(existing, s))
  {
    var ss := SectionsOf(existing);
    var k := FirstWithDate(ss, date);
    var s := ss[k];
    SectionEndAt(existing, k);
    var e := SectionEnd(existing, s);
    var g := FromBoundary(existing, e);
    var f := Following(existing[AfterIndex(s)..]);
    var pre := Head(RStripChar(existing[..s.start], '\n')) + section;
    CleanFollowingAt(existing, k);
    assert Written(existing, section, date) == pre + f by {
      WrittenReplace(existing, section, date);
    }
    Substitute(Written(existing, section, date), pre, f, g);
  }

  lemma Substitute(w: string, pre: string, f: string, g: string)
    requires w == pre + f && f == g
    ensures w == pre + g
  {
  }

  /** One more newline in front of a boundary changes nothing that follows. */
  lemma NewlineBeforeBoundary(t: string, e: nat)
    requires e <= |t| && Boundary(t, e)
    ensures Following("\n" + t[e..]) == Following(t[e..])
  {
    var x := t[e..];
    assert ("\n" + x)[1..] == x;
    if e == |t| {
      assert x == [];
      assert LStripChar("\n" + x, '\n') == [];
      assert Gap(x) + LStripChar(x, '\n') == [];
    } else {
      assert x[0] == '\n';
      assert LStripChar("\n" + x, '\n') == LStripChar(x, '\n');
    }
  }

  /** What follows a replaced section matched after a newline and ending in a non-whitespace character. */
  lemma ReplaceFollowingStray(t: string, s: Section)
    requires Spans(t, s)
    requires HashAt(t, s) != s.start && !IsSpace(s.content[|s.content| - 1])
    ensures AfterIndex(s) <= SectionEnd(t, s) <= |t|
    ensures Following(t[AfterIndex(s)..]) == "\n" + [s.content[|s.content| - 1]] + RStrip(t[SectionEnd(t, s)..]) + "\n"
  {
    ReplaceAfter(t, s);
    var e := SectionEnd(t, s);
    var x := s.content[|s.content| - 1];
    var after := t[AfterIndex(s)..];
    assert after == [x] + t[e..];
    assert x != '\n';
    assert Gap(after) == "\n";
    assert LStripChar(after, '\n') == after;
    assert "\n" + after == ("\n" + [x]) + t[e..];
    RStripAppend("\n" + [x], t[e..]);
  }

  /**
   * Replacing a section matched after a newline whose text ends in a
   * character that is not whitespace leaves that character behind: it is
   * written on its own line after the new section, before what followed
   * the old one.
   */
  lemma ReplaceLeavesLastChar(existing: string, section: string, date: string)
    requires Proper(section)
    requires var ss := SectionsOf(existing); var k := FirstWithDate(ss, date);
      && k < |ss| && HashAt(existing, ss[k]) != ss[k].start
      && ss[k].content != [] && !IsSpace(ss[k].content[|ss[k].content| - 1])
    ensures var s := SectionsOf(existing)[FirstWithDate(SectionsOf(existing), date)];
      && SectionEnd(existing, s) <= |existing|
      && Written(existing, section, date)
         == Head(RStripChar(existing[..s.start], '\n')) + section
            + "\n" + [s.content[|s.content| - 1]] + RStrip(existing[SectionEnd(existing, s)..]) + "\n"
  {
    var ss := SectionsOf(existing);
    var k := FirstWithDate(ss, date);
    var s := ss[k];
    SectionEndAt(existing, k);
    var pre := Head(RStripChar(existing[..s.start], '\n')) + section;
    var x := [s.content[|s.content| - 1]];
    var r := RStrip(existing[SectionEnd(existing, s)..]);
    var f := Following(existing[AfterIndex(s)..]);
    StrayFollowingAt(existing, k);
    assert Written(existing, section, date) == pre + f by {
      WrittenReplace(existing, section, date);
    }
    Substitute(Written(existing, section, date), pre, f, "\n" + x + r + "\n");
    Regroup4(pre, "\n", x, r, "\n");
  }

  /** `InsertFollowing` for the `k`-th section found. */
  lemma InsertFollowingAt(t: string, k: nat)
    requires k < |SectionsOf(t)|
    ensures var s := SectionsOf(t)[k];
      && HashAt(t, s) <= |t|
      && Following(t[s.start..]) == Separator(t, s) + RStrip(t[HashAt(t, s)..]) + "\n"
  {
    SpansAt(t, k);
    InsertFollowing(t, SectionsOf(t)[k]);
  }

  /** `ReplaceFollowingClean` for the `k`-th section found. */
  lemma CleanFollowingAt(t: string, k: nat)
    requires k < |SectionsOf(t)|
    requires HashAt(t, SectionsOf(t)[k]) == SectionsOf(t)[k].start || EndsWith(SectionsOf(t)[k].content, "\n")
    ensures var s := SectionsOf(t)[k];
      && AfterIndex(s) <= SectionEnd(t, s) <= |t|
      && Following(t[AfterIndex(s)..]) == FromBoundary(t, SectionEnd(t, s))
  {
    SpansAt(t, k);
    ReplaceFollowingClean(t, SectionsOf(t)[k]);
  }

  /** `ReplaceFollowingStray` for the `k`-th section found. */
  lemma StrayFollowingAt(t: string, k: nat)
    requires k < |SectionsOf(t)|
    requires HashAt(t, SectionsOf(t)[k]) != SectionsOf(t)[k].start
    requires SectionsOf(t)[k].content != [] && !IsSpace(SectionsOf(t)[k].content[|SectionsOf(t)[k].content| - 1])
    ensures var s := SectionsOf(t)[k];
      && AfterIndex(s) <= SectionEnd(t, s) <= |t|
      && Following(t[AfterIndex(s)..]) == "\n" + [s.content[|s.content| - 1]] + RStrip(t[SectionEnd(t, s)..]) + "\n"
  {
    SpansAt(t, k);
    ReplaceFollowingStray(t, SectionsOf(t)[k]);
  }
}
