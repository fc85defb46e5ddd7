/**
 * The selection filter of `fetch_arxiv_papers`: one pass over the extracted
 * entries in listing order that drops duplicates of already kept
 * identifiers, drops revised entries, keeps every primary-category entry and
 * applies the keyword gate to the other allow-listed entries.
 */
module Selection {
  import opened Wrappers
  import opened Text
  import opened Papers

  const RlKeyword := "reinforcement learning"
  const AccelKeyword := "accelerat"

  /** `any(cat in paper_categories for cat in categories)`. */
  predicate SharesAllowlist(p: Paper, allow: seq<string>) {
    exists c :: c in allow && c in p.categories
  }

  /** The categories that put an entry behind the keyword gate. */
  predicate IsAiOrLg(p: Paper) {
    "cs.AI" in p.categories || "cs.LG" in p.categories
  }

  /** The entry with the two keyword flags computed from its lowercased summary. */
  function Flagged(p: Paper): Paper {
    var low := Lower(p.summary);
    p.(rlMatch := Contains(low, RlKeyword), acceleratMatch := Contains(low, AccelKeyword))
  }

  /**
   * The category decision for an entry that is neither revised nor a
   * duplicate (lines 184-199): the record to keep, or `None`.
   */
  function Classified(p: Paper, allow: seq<string>): Option<Paper> {
    if IsPrimary(p) then Some(p)
    else if SharesAllowlist(p, allow) then
      if IsAiOrLg(p) then
        var q := Flagged(p);
        if q.rlMatch || q.acceleratMatch then Some(q) else None
      else Some(p)
    else None
  }

  /** The identifiers of the records kept so far (`seen_papers`). */
  function Ids(kept: seq<Paper>): set<string> {
    set p | p in kept :: p.id
  }

  /** What one entry adds to the kept list, given the identifiers already kept. */
  function Step(e: Option<Paper>, seen: set<string>, allow: seq<string>): seq<Paper> {
    match e
    case None => []
    case Some(p) =>
      if p.id in seen then []
      else if p.replaced then []
      else
        match Classified(p, allow)
        case Some(q) => [q]
        case None => []
  }

  /** The records kept after reading `entries` in order. */
  function Selected(entries: seq<Option<Paper>>, allow: seq<string>): seq<Paper>
    decreases |entries|
  {
    if entries == [] then []
    else
      var kept := Selected(entries[..|entries| - 1], allow);
      kept + Step(entries[|entries| - 1], Ids(kept), allow)
  }

  /** The extraction applied to every entry. */
  function Parsed(entries: seq<RawEntry>): (r: seq<Option<Paper>>)
    ensures |r| == |entries|
    ensures forall i :: 0 <= i < |entries| ==> r[i] == ExtractedPaper(entries[i])
  {
    seq(|entries|, i requires 0 <= i < |entries| => ExtractedPaper(entries[i]))
  }

  /**
   * The category decision of lines 184-199 on an entry that is neither a
   * duplicate nor revised: whether to keep it, and the record with the
   * flags the gate sets.
   */
  method ShouldAdd(p: Paper, allow: seq<string>) returns (shouldAdd: bool, q: Paper)
    ensures (if shouldAdd then Some(q) else None) == Classified(p, allow)
  {
    shouldAdd := false;
    q := p;
    if Primary in p.categories {
      shouldAdd := true;
    } else if exists c :: c in allow && c in p.categories {
      if "cs.AI" in p.categories || "cs.LG" in p.categories {
        var summaryLower := Lower(p.summary);
        q := q.(rlMatch := Contains(summaryLower, RlKeyword));
        q := q.(acceleratMatch := Contains(summaryLower, AccelKeyword));
        assert q == Flagged(p);
        if q.rlMatch || q.acceleratMatch {
          shouldAdd := true;
        }
      } else {
        shouldAdd := true;
      }
    }
  }

  /** The loop at lines 170-203. */
  method FetchArxivPapers(entries: seq<RawEntry>, allow: seq<string>) returns (papers: seq<Paper>)
    ensures papers == Selected(Parsed(entries), allow)
    ensures forall i :: 0 <= i < |papers| ==> !papers[i].replaced
    ensures forall i, j :: 0 <= i < j < |papers| ==> papers[i].id != papers[j].id
  {
    ghost var parsed := Parsed(entries);
    papers := [];
    var seen: set<string> := {};
    var k := 0;
    while k < |entries|
      invariant 0 <= k <= |entries|
      invariant papers == Selected(parsed[..k], allow)
      invariant seen == Ids(papers)
    {
      SelectedPrefix(parsed, allow, k);
      var info := ExtractPaperInfo(entries[k]);
      assert info == parsed[k];
      if info.Some? {
        var p := info.value;
        if p.id in seen {
          // a duplicate of a kept record
        } else if p.replaced {
          // a revised version
        } else {
          var shouldAdd, q := ShouldAdd(p, allow);
          if shouldAdd {
            IdsAppend(papers, q);
            papers := papers + [q];
            seen := seen + {p.id};
          }
        }
      }
      k := k + 1;
    }
    assert parsed[..k] == parsed;
    SelectedNoReplaced(parsed, allow);
    SelectedIdsDistinct(parsed, allow);
  }

  lemma IdsAppend(kept: seq<Paper>, q: Paper)
    ensures Ids(kept + [q]) == Ids(kept) + {q.id}
  {
    var all := kept + [q];
    assert q == all[|kept|];
    forall p | p in kept ensures p in all {
    }
  }

  /** A kept record keeps the identifier of its entry; a kept record is never revised. */
  lemma StepFacts(e: Option<Paper>, seen: set<string>, allow: seq<string>)
    ensures |Step(e, seen, allow)| <= 1
    ensures forall q :: q in Step(e, seen, allow) ==>
              e.Some? && q.id == e.value.id && q.id !in seen && !q.replaced && !e.value.replaced
  {
  }

  /** No kept record is a revised version. */
  lemma {:induction false} SelectedNoReplaced(entries: seq<Option<Paper>>, allow: seq<string>)
    ensures forall i :: 0 <= i < |Selected(entries, allow)| ==> !Selected(entries, allow)[i].replaced
    decreases |entries|
  {
    if entries != [] {
      var prev := entries[..|entries| - 1];
      SelectedNoReplaced(prev, allow);
      StepFacts(entries[|entries| - 1], Ids(Selected(prev, allow)), allow);
    }
  }

  /** The kept identifiers are pairwise distinct. */
  lemma {:induction false} SelectedIdsDistinct(entries: seq<Option<Paper>>, allow: seq<string>)
    ensures forall i, j :: 0 <= i < j < |Selected(entries, allow)| ==>
              Selected(entries, allow)[i].id != Selected(entries, allow)[j].id
    decreases |entries|
  {
    if entries != [] {
      var prev := entries[..|entries| - 1];
      var kept := Selected(prev, allow);
      SelectedIdsDistinct(prev, allow);
      var step := Step(entries[|entries| - 1], Ids(kept), allow);
      StepFacts(entries[|entries| - 1], Ids(kept), allow);
      var all := kept + step;
      forall i, j | 0 <= i < j < |all| ensures all[i].id != all[j].id {
        if j >= |kept| {
          assert all[j] in step;
          assert all[i] == kept[i];
          assert kept[i].id in Ids(kept);
        }
      }
    }
  }

  /** Reading one more entry appends its step to what was kept. */
  lemma SelectedPrefix(entries: seq<Option<Paper>>, allow: seq<string>, n: nat)
    requires n < |entries|
    ensures Selected(entries[..n + 1], allow) ==
            Selected(entries[..n], allow) + Step(entries[n], Ids(Selected(entries[..n], allow)), allow)
  {
    assert entries[..n + 1][..n] == entries[..n];
  }

  /** An entry whose identifier is already kept adds nothing, whatever its categories. */
  lemma DuplicateSkipped(entries: seq<Option<Paper>>, allow: seq<string>, n: nat)
    requires n < |entries| && entries[n].Some?
    requires entries[n].value.id in Ids(Selected(entries[..n], allow))
    ensures Selected(entries[..n + 1], allow) == Selected(entries[..n], allow)
  {
    SelectedPrefix(entries, allow, n);
  }

  /** A revised entry adds nothing. */
  lemma RevisedSkipped(entries: seq<Option<Paper>>, allow: seq<string>, n: nat)
    requires n < |entries| && entries[n].Some? && entries[n].value.replaced
    ensures Selected(entries[..n + 1], allow) == Selected(entries[..n], allow)
  {
    SelectedPrefix(entries, allow, n);
  }

  /** A new, unrevised primary-category entry is always kept, unchanged, whatever its summary. */
  lemma PrimaryKept(entries: seq<Option<Paper>>, allow: seq<string>, n: nat)
    requires n < |entries| && entries[n].Some?
    requires entries[n].value.id !in Ids(Selected(entries[..n], allow))
    requires !entries[n].value.replaced && IsPrimary(entries[n].value)
    ensures Selected(entries[..n + 1], allow) == Selected(entries[..n], allow) + [entries[n].value]
  {
    SelectedPrefix(entries, allow, n);
  }

  /**
   * The keyword gate (lines 190-199): an allow-listed, non-primary entry
   * tagged cs.AI or cs.LG is kept iff one of the two independent flags holds,
   * and the kept record carries both flags.
   */
  lemma KeywordGate(p: Paper, allow: seq<string>)
    requires !IsPrimary(p) && SharesAllowlist(p, allow) && IsAiOrLg(p)
    ensures Classified(p, allow).Some? <==>
              Contains(Lower(p.summary), RlKeyword) || Contains(Lower(p.summary), AccelKeyword)
    ensures Classified(p, allow).Some? ==>
              Classified(p, allow).value.rlMatch == Contains(Lower(p.summary), RlKeyword) &&
              Classified(p, allow).value.acceleratMatch == Contains(Lower(p.summary), AccelKeyword) &&
              Classified(p, allow).value.(rlMatch := p.rlMatch, acceleratMatch := p.acceleratMatch) == p
  {
  }

  /** Allow-listed entries outside cs.AI/cs.LG pass unchanged; entries outside the allow list are dropped. */
  lemma UngatedAndDropped(p: Paper, allow: seq<string>)
    ensures !IsPrimary(p) && SharesAllowlist(p, allow) && !IsAiOrLg(p) ==> Classified(p, allow) == Some(p)
    ensures !IsPrimary(p) && !SharesAllowlist(p, allow) ==> Classified(p, allow).None?
  {
  }

  /** Every kept record is the classification of an unrevised entry of the input. */
  lemma {:induction false} SelectedFromInput(entries: seq<Option<Paper>>, allow: seq<string>)
    ensures forall q :: q in Selected(entries, allow) ==>
              exists i :: 0 <= i < |entries| && entries[i].Some? && !entries[i].value.replaced &&
                Classified(entries[i].value, allow) == Some(q)
    decreases |entries|
  {
    if entries != [] {
      var n := |entries| - 1;
      var prev := entries[..n];
      SelectedFromInput(prev, allow);
      forall q | q in Selected(entries, allow)
        ensures exists i :: 0 <= i < |entries| && entries[i].Some? && !entries[i].value.replaced &&
                  Classified(entries[i].value, allow) == Some(q)
      {
        if q in Selected(prev, allow) {
          var i :| 0 <= i < |prev| && prev[i].Some? && !prev[i].value.replaced &&
                   Classified(prev[i].value, allow) == Some(q);
          assert entries[i] == prev[i];
        } else {
          assert q in Step(entries[n], Ids(Selected(prev, allow)), allow);
        }
      }
    }
  }

  /** The kept list only grows as entries are read. */
  lemma {:induction false} SelectedMonotone(entries: seq<Option<Paper>>, allow: seq<string>, m: nat, n: nat)
    requires m <= n <= |entries|
    ensures Ids(Selected(entries[..m], allow)) <= Ids(Selected(entries[..n], allow))
    decreases n - m
  {
    if m < n {
      SelectedMonotone(entries, allow, m, n - 1);
      SelectedPrefix(entries, allow, n - 1);
    }
  }

  /**
   * First kept occurrence wins: once an entry is kept, no later entry with
   * the same identifier adds anything.
   */
  lemma FirstKeptWins(entries: seq<Option<Paper>>, allow: seq<string>, i: nat, j: nat)
    requires i < j < |entries| && entries[i].Some? && entries[j].Some?
    requires entries[i].value.id == entries[j].value.id
    requires |Selected(entries[..i + 1], allow)| > |Selected(entries[..i], allow)|
    ensures Selected(entries[..j + 1], allow) == Selected(entries[..j], allow)
  {
    SelectedPrefix(entries, allow, i);
    var step := Step(entries[i], Ids(Selected(entries[..i], allow)), allow);
    StepFacts(entries[i], Ids(Selected(entries[..i], allow)), allow);
    var q := step[0];
    assert q in Selected(entries[..i + 1], allow);
    assert entries[i].value.id in Ids(Selected(entries[..i + 1], allow));
    SelectedMonotone(entries, allow, i + 1, j);
    DuplicateSkipped(entries, allow, j);
  }

  /**
   * A dropped entry does not block a later one: a revised entry followed by
   * an unrevised copy of the same primary-category paper keeps the copy.
   */
  lemma DroppedDoesNotBlock(p: Paper, allow: seq<string>)
    requires IsPrimary(p) && !p.replaced
    ensures Selected([Some(p.(replaced := true)), Some(p)], allow) == [p]
  {
    var entries := [Some(p.(replaced := true)), Some(p)];
    assert entries[..1][..0] == [];
    assert Selected(entries[..1], allow) == [];
    assert entries[..|entries| - 1] == entries[..1];
  }
}
