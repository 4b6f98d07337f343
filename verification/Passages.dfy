/**
 What replaced a quotation between two versions, and when it went
 (web/src/lib/passages.js, `replacementAt` and `wentAt`).
 */
module Passages {
  import opened Basics
  import opened SourceEdits
  import opened EditSlices

  // ----- The replacement -----

  /** The unchanged text before the quotation that the edit also covers. */
  function OutsideLeft(text: string, e: Edit<char>, start: nat): string {
    if e.at < start <= |text| then text[e.at..start] else ""
  }

  /** The unchanged text after the quotation that the edit also covers. */
  function OutsideRight(text: string, e: Edit<char>, end: nat): string {
    if end < e.End() <= |text| then text[end..e.End()] else ""
  }

  predicate EndsWith(s: string, t: string) { |t| <= |s| && s[|s| - |t|..] == t }

  /** The insertion without the context before the quotation; `None` when that context changed too. */
  function TrimLeft(insert: string, outside: string): Option<string> {
    if outside == "" || insert == "" then Some(insert)
    else if outside <= insert then Some(insert[|outside|..])
    else None
  }

  function TrimRight(insert: string, outside: string): Option<string> {
    if outside == "" || insert == "" then Some(insert)
    else if EndsWith(insert, outside) then Some(insert[..|insert| - |outside|])
    else None
  }

  /** What an edit contributes to the replacement of start..end. */
  function Contribution(text: string, e: Edit<char>, start: nat, end: nat): Option<string> {
    match TrimLeft(e.insert, OutsideLeft(text, e, start))
    case None => None
    case Some(insert) => TrimRight(insert, OutsideRight(text, e, end))
  }

  /** The edit reaches into the quotation, or inserts inside it. */
  predicate Overlaps(e: Edit<char>, start: nat, end: nat) {
    (e.End() > start && e.at < end) || (e.End() == e.at && start <= e.at < end)
  }

  /** The edits `replacementAt` works through: those that end after the start and start before the end. */
  predicate Touches(e: Edit<char>, start: nat, end: nat) { e.End() > start && e.at < end }

  predicate IsBefore(edits: seq<Edit<char>>, start: nat, k: nat) {
    k <= |edits| && (forall i :: 0 <= i < k ==> edits[i].End() <= start) && (k < |edits| ==> edits[k].End() > start)
  }

  /** How many edits end at or before the quotation starts. */
  function Before(edits: seq<Edit<char>>, start: nat): (k: nat)
    ensures k <= |edits|
    ensures IsBefore(edits, start, k)
  {
    if edits == [] || edits[0].End() > start then 0
    else
      var k := 1 + Before(edits[1..], start);
      assert forall i :: 0 < i < k ==> edits[i] == edits[1..][i - 1];
      k
  }

  predicate IsReached(edits: seq<Edit<char>>, end: nat, k: nat) {
    k <= |edits| && (forall i :: 0 <= i < k ==> edits[i].at < end) && (k < |edits| ==> edits[k].at >= end)
  }

  /** How many edits start before the quotation ends. */
  function Reached(edits: seq<Edit<char>>, end: nat): (k: nat)
    ensures k <= |edits|
    ensures IsReached(edits, end, k)
  {
    if edits == [] || edits[0].at >= end then 0
    else
      var k := 1 + Reached(edits[1..], end);
      assert forall i :: 0 < i < k ==> edits[i] == edits[1..][i - 1];
      k
  }

  /** Where the replacement starts in the new text: behind the context that a straddling edit kept. */
  function LeftEdge(edits: seq<Edit<char>>, start: nat): int {
    var f := Before(edits, start);
    if f < |edits| && edits[f].at < start
    then NewOffset(edits, f) + LeftTrim(edits[f], start)
    else start + Growth(edits[..f])
  }

  /** Where it ends: in front of the context that a straddling edit kept. */
  function RightEdge(text: string, edits: seq<Edit<char>>, start: nat, end: nat): int {
    var f, t := Before(edits, start), Reached(edits, end);
    if f < t && edits[t - 1].End() > end
    then RightOf(text, edits, start, end, t - 1)
    else end + Growth(edits[..t])
  }

  function RightOf(text: string, edits: seq<Edit<char>>, start: nat, end: nat, k: nat): int
    requires k < |edits|
  {
    NewOffset(edits, k) + |edits[k].insert| - RightTrim(text, edits[k], start, end)
  }

  function LeftTrim(e: Edit<char>, start: nat): nat {
    if e.at < start && e.insert != "" then start - e.at else 0
  }

  function RightTrim(text: string, e: Edit<char>, start: nat, end: nat): nat {
    if TrimLeft(e.insert, OutsideLeft(text, e, start)) == Some("") then 0 else Max(e.End() - end, 0)
  }

  lemma ContributionIs(text: string, e: Edit<char>, start: nat, end: nat)
    requires start < end <= |text| && e.End() <= |text| && Touches(e, start, end)
    requires Contribution(text, e, start, end).Some?
    ensures LeftTrim(e, start) <= |e.insert| - RightTrim(text, e, start, end)
    ensures Contribution(text, e, start, end).value
        == e.insert[LeftTrim(e, start)..|e.insert| - RightTrim(text, e, start, end)]
  {
    var kept := TrimLeft(e.insert, OutsideLeft(text, e, start)).value;
    assert kept == e.insert[LeftTrim(e, start)..];
    var right := RightTrim(text, e, start, end);
    assert right <= |kept| && Contribution(text, e, start, end).value == kept[..|kept| - right];
  }

  /** A contribution stands in the new text at the edit's insertion, less the context. */
  lemma ContributionStands(text: string, edits: seq<Edit<char>>, start: nat, end: nat, k: nat)
    requires Fits(edits, |text|) && start < end <= |text| && k < |edits| && Touches(edits[k], start, end)
    requires Contribution(text, edits[k], start, end).Some?
    ensures IsSlice(Apply(text, edits), NewOffset(edits, k) + LeftTrim(edits[k], start),
                    RightOf(text, edits, start, end, k), Contribution(text, edits[k], start, end).value)
  {
    hide *;
    var e, at := edits[k], NewOffset(edits, k);
    WithinText(edits, |text|, k);
    InsertStands(text, edits, k);
    ContributionIs(text, e, start, end);
    PartOfSlice(Apply(text, edits), at, at + |e.insert|, e.insert, LeftTrim(e, start),
      |e.insert| - RightTrim(text, e, start, end));
    RightOfIs(text, edits, start, end, k);
  }

  lemma WithinText(edits: seq<Edit<char>>, n: int, k: nat)
    requires Fits(edits, n) && k < |edits|
    ensures edits[k].End() <= n
  {
  }

  lemma RightOfIs(text: string, edits: seq<Edit<char>>, start: nat, end: nat, k: nat)
    requires k < |edits|
    ensures RightOf(text, edits, start, end, k)
        == NewOffset(edits, k) + |edits[k].insert| - RightTrim(text, edits[k], start, end)
  {
    hide Growth;
  }

  /** The replacement after edit k - 1, the last so far that touches the quotation. */
  ghost predicate Built(text: string, edits: seq<Edit<char>>, start: nat, end: nat, k: nat, cursor: nat,
                        replacement: string)
    requires Fits(edits, |text|)
  {
    && 0 < k <= |edits| && Touches(edits[k - 1], start, end)
    && cursor == Min(edits[k - 1].End(), end)
    && IsSlice(Apply(text, edits), LeftEdge(edits, start),
               if edits[k - 1].End() > end then RightOf(text, edits, start, end, k - 1)
               else cursor + Growth(edits[..k]),
               replacement)
  }

  function Gap(text: string, from: nat, to: nat, end: nat): string
    requires end <= |text|
  {
    if to > from then text[Min(from, end)..Min(to, end)] else ""
  }

  /** The text kept in front of edit k stands right before its insertion. */
  lemma GapStands(text: string, edits: seq<Edit<char>>, k: nat, c: nat, end: nat)
    requires Fits(edits, |text|) && k < |edits| && Between(edits, k, c) && c <= edits[k].at < end <= |text|
    ensures IsSlice(Apply(text, edits), c + Growth(edits[..k]), NewOffset(edits, k), Gap(text, c, edits[k].at, end))
  {
    var at := edits[k].at;
    assert Between(edits, k, at) by { if k > 0 { assert edits[k - 1].End() <= at; } }
    GapMoves(text, edits, k, c, at);
    hide Apply, Growth, Fits, IsSlice;
    assert Gap(text, c, at, end) == text[c..at];
  }

  lemma AfterEdit(text: string, edits: seq<Edit<char>>, start: nat, end: nat, k: nat)
    requires k < |edits| && edits[k].End() <= end
    ensures RightOf(text, edits, start, end, k) == edits[k].End() + Growth(edits[..k + 1])
  {
    assert edits[..k + 1][..k] == edits[..k];
  }

  lemma BuiltBy(text: string, edits: seq<Edit<char>>, start: nat, end: nat, k: nat, replacement: string)
    requires Fits(edits, |text|) && k < |edits| && Touches(edits[k], start, end)
    requires IsSlice(Apply(text, edits), LeftEdge(edits, start), RightOf(text, edits, start, end, k), replacement)
    ensures Built(text, edits, start, end, k + 1, Min(edits[k].End(), end), replacement)
  {
    hide Apply, Growth, LeftEdge, RightOf, IsSlice, Fits;
    if edits[k].End() <= end { AfterEdit(text, edits, start, end, k); }
  }

  lemma LeftEdgeIs(edits: seq<Edit<char>>, start: nat, k: nat)
    requires k == Before(edits, start)
    ensures LeftEdge(edits, start)
         == if k < |edits| && edits[k].at < start then NewOffset(edits, k) + LeftTrim(edits[k], start)
            else start + Growth(edits[..k])
  {
  }

  /** The first edit that touches the quotation. */
  lemma FirstBuilt(text: string, edits: seq<Edit<char>>, start: nat, end: nat, k: nat)
    requires Fits(edits, |text|) && start < end <= |text| && k < |edits| && k == Before(edits, start)
    requires Touches(edits[k], start, end) && Contribution(text, edits[k], start, end).Some?
    ensures Built(text, edits, start, end, k + 1, Min(edits[k].End(), end),
                  Gap(text, start, edits[k].at, end) + Contribution(text, edits[k], start, end).value)
  {
    var gap, piece := Gap(text, start, edits[k].at, end), Contribution(text, edits[k], start, end).value;
    hide *;
    ContributionStands(text, edits, start, end, k);
    LeftEdgeIs(edits, start, k);
    if edits[k].at >= start {
      StartsAfter(text, edits, start, end, k);
      SlicesJoin(Apply(text, edits), LeftEdge(edits, start), NewOffset(edits, k),
        RightOf(text, edits, start, end, k), gap, piece);
    } else {
      NoGap(text, start, edits[k].at, end, piece);
    }
    BuiltBy(text, edits, start, end, k, gap + piece);
  }

  lemma NoGap(text: string, from: nat, to: nat, end: nat, piece: string)
    requires to <= from && end <= |text|
    ensures Gap(text, from, to, end) + piece == piece
  {
  }

  lemma StartsAfter(text: string, edits: seq<Edit<char>>, start: nat, end: nat, k: nat)
    requires Fits(edits, |text|) && start < end <= |text| && k < |edits| && k == Before(edits, start)
    requires start <= edits[k].at < end
    ensures LeftTrim(edits[k], start) == 0 && LeftEdge(edits, start) == start + Growth(edits[..k])
    ensures IsSlice(Apply(text, edits), LeftEdge(edits, start), NewOffset(edits, k), Gap(text, start, edits[k].at, end))
  {
    hide Apply, Growth, IsSlice, Gap;
    assert Between(edits, k, start);
    GapStands(text, edits, k, start, end);
  }

  lemma BuiltSoFar(text: string, edits: seq<Edit<char>>, start: nat, end: nat, k: nat, cursor: nat, replacement: string)
    requires Fits(edits, |text|) && Built(text, edits, start, end, k, cursor, replacement) && edits[k - 1].End() <= end
    ensures cursor == edits[k - 1].End()
    ensures IsSlice(Apply(text, edits), LeftEdge(edits, start), cursor + Growth(edits[..k]), replacement)
  {
    hide Apply, Growth, LeftEdge, RightOf, IsSlice, Fits;
  }

  /** Every further one. */
  lemma NextBuilt(text: string, edits: seq<Edit<char>>, start: nat, end: nat, k: nat, cursor: nat, replacement: string)
    requires Fits(edits, |text|) && start < end <= |text| && k < |edits| && Touches(edits[k], start, end)
    requires Contribution(text, edits[k], start, end).Some?
    requires Built(text, edits, start, end, k, cursor, replacement)
    ensures Built(text, edits, start, end, k + 1, Min(edits[k].End(), end),
                  replacement + Gap(text, cursor, edits[k].at, end) + Contribution(text, edits[k], start, end).value)
  {
    var gap, piece := Gap(text, cursor, edits[k].at, end), Contribution(text, edits[k], start, end).value;
    assert edits[k - 1].End() <= edits[k].at < end;
    assert start <= edits[k].at && LeftTrim(edits[k], start) == 0;
    assert Between(edits, k, edits[k - 1].End());
    hide *;
    BuiltSoFar(text, edits, start, end, k, cursor, replacement);
    GapStands(text, edits, k, cursor, end);
    ContributionStands(text, edits, start, end, k);
    SlicesJoin(Apply(text, edits), LeftEdge(edits, start), cursor + Growth(edits[..k]), NewOffset(edits, k),
      replacement, gap);
    SlicesJoin(Apply(text, edits), LeftEdge(edits, start), NewOffset(edits, k), RightOf(text, edits, start, end, k),
               replacement + gap, piece);
    BuiltBy(text, edits, start, end, k, replacement + gap + piece);
  }

  /** The rest of the quotation, behind every edit that starts before its end. */
  lemma TailStands(text: string, edits: seq<Edit<char>>, k: nat, cursor: nat, end: nat)
    requires Fits(edits, |text|) && cursor <= end <= |text| && k == Reached(edits, end) && Between(edits, k, cursor)
    ensures IsSlice(Apply(text, edits), cursor + Growth(edits[..k]), end + Growth(edits[..k]), text[cursor..end])
  {
    assert Between(edits, k, end);
    GapMoves(text, edits, k, cursor, end);
  }

  lemma LastInside(text: string, edits: seq<Edit<char>>, start: nat, end: nat, k: nat, cursor: nat, replacement: string)
    requires Fits(edits, |text|) && start < end <= |text| && k == Reached(edits, end)
    requires k > Before(edits, start) && Built(text, edits, start, end, k, cursor, replacement)
    requires edits[k - 1].End() <= end
    ensures cursor <= end
    ensures IsSlice(Apply(text, edits), LeftEdge(edits, start), RightEdge(text, edits, start, end),
                    replacement + text[cursor..end])
  {
    hide *;
    BuiltSoFar(text, edits, start, end, k, cursor, replacement);
    RightEdgeInside(text, edits, start, end, k);
    LastIsBefore(edits, end, k, cursor);
    TailStands(text, edits, k, cursor, end);
    SlicesJoin(Apply(text, edits), LeftEdge(edits, start), cursor + Growth(edits[..k]), end + Growth(edits[..k]),
               replacement, text[cursor..end]);
  }

  lemma LastIsBefore(edits: seq<Edit<char>>, end: nat, k: nat, cursor: nat)
    requires 0 < k && k == Reached(edits, end) && cursor == edits[k - 1].End() <= end
    ensures Between(edits, k, cursor)
  {
  }

  lemma RightEdgeInside(text: string, edits: seq<Edit<char>>, start: nat, end: nat, k: nat)
    requires k == Reached(edits, end) && (k > Before(edits, start) ==> edits[k - 1].End() <= end)
    ensures RightEdge(text, edits, start, end) == end + Growth(edits[..k])
  {
  }

  lemma NoTextLeft(text: string, replacement: string, cursor: nat, end: nat)
    requires cursor <= end <= |text|
    ensures replacement + text[cursor..end] == replacement + if cursor < end then text[cursor..end] else ""
  {
  }

  lemma LastTrimmed(text: string, edits: seq<Edit<char>>, start: nat, end: nat, k: nat, cursor: nat,
                    replacement: string)
    requires Fits(edits, |text|) && start < end <= |text| && k == Reached(edits, end)
    requires k > Before(edits, start) && Built(text, edits, start, end, k, cursor, replacement)
    requires edits[k - 1].End() > end
    ensures IsSlice(Apply(text, edits), LeftEdge(edits, start), RightEdge(text, edits, start, end),
                    replacement + if cursor < end then text[cursor..end] else "")
  {
    hide Apply, Growth, LeftEdge, RightOf, IsSlice, Fits, Before, Reached;
    assert cursor == end && replacement + "" == replacement;
  }

  /** After the last one, the rest of the quotation. */
  lemma LastBuilt(text: string, edits: seq<Edit<char>>, start: nat, end: nat, k: nat, cursor: nat, replacement: string)
    requires Fits(edits, |text|) && start < end <= |text| && k == Reached(edits, end)
    requires k > Before(edits, start) && Built(text, edits, start, end, k, cursor, replacement)
    ensures IsSlice(Apply(text, edits), LeftEdge(edits, start), RightEdge(text, edits, start, end),
                    replacement + if cursor < end then text[cursor..end] else "")
  {
    if edits[k - 1].End() > end {
      LastTrimmed(text, edits, start, end, k, cursor, replacement);
    } else {
      hide *;
      LastInside(text, edits, start, end, k, cursor, replacement);
      NoTextLeft(text, replacement, cursor, end);
    }
  }

  /** With no edit in reach the quotation stands as it was. */
  lemma UntouchedStands(text: string, edits: seq<Edit<char>>, start: nat, end: nat, k: nat)
    requires Fits(edits, |text|) && start < end <= |text| && k == Reached(edits, end) && k <= Before(edits, start)
    ensures IsSlice(Apply(text, edits), LeftEdge(edits, start), RightEdge(text, edits, start, end), text[start..end])
  {
    var f := Before(edits, start);
    assert k == f;
    assert Between(edits, k, start);
    TailStands(text, edits, k, start, end);
    hide Apply, Growth, IsSlice, Fits;
  }

  predicate AnyOverlaps(edits: seq<Edit<char>>, start: nat, end: nat) {
    exists i :: 0 <= i < |edits| && Overlaps(edits[i], start, end)
  }

  /** Some edit changed the context outside the quotation, so no boundary can be defended. */
  predicate AnyUndecided(text: string, edits: seq<Edit<char>>, start: nat, end: nat) {
    exists i :: 0 <= i < |edits| && Touches(edits[i], start, end) && Contribution(text, edits[i], start, end).None?
  }

  // ----- When there is an answer -----

  /** The edit deletes the character at p, or inserts right in front of it. */
  ghost predicate ChangesAt(e: Edit<char>, p: int) { e.at <= p < e.End() || (e.delete == 0 && e.at == p) }

  /** Some edit changes the quotation at one of its characters. */
  ghost predicate ChangesQuotation(edits: seq<Edit<char>>, start: nat, end: nat) {
    exists i, p :: 0 <= i < |edits| && start <= p < end && ChangesAt(edits[i], p)
  }

  /**
   The insertion is the context before the quotation that the edit replaced,
   `part`, and the context behind that it replaced; an insertion that is used
   up need not spell the rest.
   */
  ghost predicate Splits(text: string, e: Edit<char>, start: nat, end: nat, part: string)
    requires e.End() <= |text| && start <= end <= |text|
  {
    var left := if e.at < start && e.insert != "" then text[e.at..Min(start, |text|)] else "";
    var right := if end < e.End() && e.insert != left then text[end..e.End()] else "";
    e.insert == left + part + right
  }

  /** Some edit that reaches into the quotation changed the context around it as well. */
  ghost predicate ChangesContext(text: string, edits: seq<Edit<char>>, start: nat, end: nat)
    requires start <= end <= |text| && Fits(edits, |text|)
  {
    exists i :: 0 <= i < |edits| && start < edits[i].End() && edits[i].at < end
                && forall part :: !Splits(text, edits[i], start, end, part)
  }

  lemma EndsWithMeans(s: string, t: string)
    ensures EndsWith(s, t) <==> exists head :: s == head + t
  {
    if EndsWith(s, t) { assert s == s[..|s| - |t|] + t; }
  }

  lemma OverlapMeans(e: Edit<char>, start: nat, end: nat)
    requires start < end
    ensures Overlaps(e, start, end) <==> exists p :: start <= p < end && ChangesAt(e, p)
  {
    if Overlaps(e, start, end) { assert ChangesAt(e, Max(e.at, start)); }
  }

  lemma OverlapsMeans(edits: seq<Edit<char>>, start: nat, end: nat)
    requires start < end
    ensures AnyOverlaps(edits, start, end) <==> ChangesQuotation(edits, start, end)
  {
    hide Overlaps, ChangesAt;
    forall i | 0 <= i < |edits|
      ensures Overlaps(edits[i], start, end) <==> exists p :: start <= p < end && ChangesAt(edits[i], p)
    {
      OverlapMeans(edits[i], start, end);
    }
  }

  lemma TrimLeftMeans(insert: string, outside: string, rest: string)
    ensures TrimLeft(insert, outside) == Some(rest) <==> insert == (if insert != "" then outside else "") + rest
  {
    if outside <= insert { assert insert == outside + insert[|outside|..]; }
    assert (outside + rest)[|outside|..] == rest && "" + rest == rest;
  }

  lemma TrimRightMeans(rest: string, outside: string, part: string)
    ensures TrimRight(rest, outside) == Some(part) <==> rest == part + (if rest != "" then outside else "")
  {
    EndsWithMeans(rest, outside);
    if EndsWith(rest, outside) { assert rest == rest[..|rest| - |outside|] + outside; }
    assert (part + outside)[..|part|] == part && part + "" == part;
  }

  /** What an edit contributes is its insertion without the context around the quotation. */
  lemma ContributionMeans(text: string, e: Edit<char>, start: nat, end: nat, part: string)
    requires e.End() <= |text| && start <= end <= |text|
    ensures Contribution(text, e, start, end) == Some(part) <==> Splits(text, e, start, end, part)
  {
    hide TrimLeft, TrimRight;
    var outside, behind := OutsideLeft(text, e, start), OutsideRight(text, e, end);
    var left := if e.insert != "" then outside else "";
    forall rest ensures TrimLeft(e.insert, outside) == Some(rest) <==> e.insert == left + rest {
      TrimLeftMeans(e.insert, outside, rest);
    }
    if left <= e.insert {
      var rest := e.insert[|left|..];
      assert e.insert == left + rest;
      TrimRightMeans(rest, behind, part);
      var right := if rest != "" then behind else "";
      assert left + part + right == left + (part + right);
      assert (left + (part + right))[|left|..] == part + right;
    }
    assert forall tail :: left + part + tail == left + (part + tail);
  }

  lemma UndecidedMeans(text: string, edits: seq<Edit<char>>, start: nat, end: nat)
    requires start <= end <= |text| && Fits(edits, |text|)
    ensures AnyUndecided(text, edits, start, end) <==> ChangesContext(text, edits, start, end)
  {
    hide Contribution, Splits;
    forall i | 0 <= i < |edits|
      ensures Contribution(text, edits[i], start, end).None?
         <==> forall part :: !Splits(text, edits[i], start, end, part)
    {
      NoneSplits(text, edits[i], start, end);
    }
  }

  lemma NoneSplits(text: string, e: Edit<char>, start: nat, end: nat)
    requires e.End() <= |text| && start <= end <= |text|
    ensures Contribution(text, e, start, end).None? <==> forall part :: !Splits(text, e, start, end, part)
  {
    hide Contribution, Splits;
    forall part ensures Contribution(text, e, start, end) == Some(part) <==> Splits(text, e, start, end, part) {
      ContributionMeans(text, e, start, end, part);
    }
    if Contribution(text, e, start, end).Some? {
      assert Splits(text, e, start, end, Contribution(text, e, start, end).value);
    }
  }

  lemma BuiltCursor(text: string, edits: seq<Edit<char>>, start: nat, end: nat, k: nat, cursor: nat,
                    replacement: string)
    requires Fits(edits, |text|) && Built(text, edits, start, end, k, cursor, replacement) && k < |edits|
    ensures start <= edits[k].at && cursor <= edits[k].End()
  {
    hide Apply, Growth, LeftEdge, RightOf, IsSlice;
    assert edits[k - 1].End() <= edits[k].at;
  }

  lemma TouchingRun(text: string, edits: seq<Edit<char>>, start: nat, end: nat, k: nat)
    requires Fits(edits, |text|) && k < |edits|
    ensures k < Before(edits, start) <==> edits[k].End() <= start
    ensures edits[k].End() <= |text|
  {
    var f := Before(edits, start);
    if k > f { assert edits[f].End() <= edits[k].at; }
  }

  /** Where the loop stops, no later edit reaches the quotation. */
  lemma StopsAt(text: string, edits: seq<Edit<char>>, start: nat, end: nat, k: nat)
    requires Fits(edits, |text|) && IsReached(edits, end, k)
    ensures k == Reached(edits, end)
    ensures forall i :: k <= i < |edits| ==> !Touches(edits[i], start, end)
  {
    forall i | k <= i < |edits| ensures edits[i].at >= end {
      if i > k { assert edits[k].End() <= edits[i].at; }
    }
  }

  /** An edit's insertion without the unchanged context outside the quotation. */
  method Trim(text: string, e: Edit<char>, start: nat, end: nat) returns (insert: Option<string>)
    requires start < end <= |text| && e.End() <= |text| && Touches(e, start, end)
    ensures insert == Contribution(text, e, start, end)
  {
    var rest := e.insert;
    if e.at < start {
      var outside := text[e.at..start];
      if outside != "" && rest != "" {
        if !(outside <= rest) { return None; }
        rest := rest[|outside|..];
      }
    }
    if e.End() > end {
      var outside := text[end..e.End()];
      if outside != "" && rest != "" {
        if !EndsWith(rest, outside) { return None; }
        rest := rest[..|rest| - |outside|];
      }
    }
    return Some(rest);
  }

  /**
   What now stands in place of start..end: when there is an answer, it is one
   slice of the new text, between the two edges.
   */
  method ReplacementAt(text: string, edits: seq<Edit<char>>, start: nat, end: nat) returns (found: Option<string>)
    requires Fits(edits, |text|) && start < end <= |text|
    ensures found.None? <==> !ChangesQuotation(edits, start, end) || ChangesContext(text, edits, start, end)
    ensures found.Some? ==>
      IsSlice(Apply(text, edits), LeftEdge(edits, start), RightEdge(text, edits, start, end), found.value)
  {
    hide Apply, Fits, Sorted, Within, Growth, LeftEdge, RightEdge, RightOf, Built, Before, Reached, Contribution,
      ChangesQuotation, ChangesContext;
    OverlapsMeans(edits, start, end);
    UndecidedMeans(text, edits, start, end);
    if !AnyOverlaps(edits, start, end) { return None; }
    var cursor: nat, replacement := start, "";
    var k := 0;
    ghost var f := Before(edits, start);
    while k < |edits| && edits[k].at < end
      invariant 0 <= k <= |edits| && start <= cursor <= end
      invariant forall i :: 0 <= i < k ==> edits[i].at < end
      invariant forall i :: 0 <= i < k && Touches(edits[i], start, end) ==>
          Contribution(text, edits[i], start, end).Some?
      invariant if k <= f then cursor == start && replacement == ""
                else Built(text, edits, start, end, k, cursor, replacement)
    {
      var e := edits[k];
      TouchingRun(text, edits, start, end, k);
      if e.End() > start {
        if k > f { BuiltCursor(text, edits, start, end, k, cursor, replacement); }
        ghost var was, gap := replacement, Gap(text, cursor, e.at, end);
        if e.at > cursor { replacement := replacement + text[cursor..Min(e.at, end)]; }
        var insert := Trim(text, e, start, end);
        if insert == None { return None; }
        if k == f {
          assert was + gap == gap;
          FirstBuilt(text, edits, start, end, k);
        } else {
          NextBuilt(text, edits, start, end, k, cursor, was);
        }
        replacement := replacement + insert.value;
        assert replacement == was + gap + insert.value;
        cursor := Max(cursor, Min(e.End(), end));
      }
      k := k + 1;
    }
    StopsAt(text, edits, start, end, k);
    if k > f {
      LastBuilt(text, edits, start, end, k, cursor, replacement);
    } else {
      UntouchedStands(text, edits, start, end, k);
    }
    if cursor < end { replacement := replacement + text[cursor..end]; }
    return Some(replacement);
  }

  // ----- What the slice holds -----

  /** Edit i's insertion ends before whatever stands behind a later edit k. */
  lemma {:induction false} InsertsInOrder(edits: seq<Edit<char>>, n: int, i: nat, k: nat, c: int)
    requires Fits(edits, n) && i < k && Between(edits, k, c)
    ensures NewOffset(edits, i) + |edits[i].insert| <= c + Growth(edits[..k])
    decreases k
  {
    var last := edits[k - 1];
    assert edits[..k][..k - 1] == edits[..k - 1];
    if i < k - 1 {
      assert Between(edits, k - 1, last.at) by { assert edits[k - 2].End() <= last.at; }
      InsertsInOrder(edits, n, i, k - 1, last.at);
    }
  }

  /** The edits before a survivor of the quotation are those before the quotation and some that touch it. */
  lemma SurvivorStands(edits: seq<Edit<char>>, n: int, start: nat, end: nat, p: nat)
    requires Fits(edits, n) && start < end && Survives(edits, p)
    ensures var k := Before(edits, p);
            && Image(edits, p) == p + Growth(edits[..k]) && Between(edits, k, p) && (k < |edits| ==> p < edits[k].at)
            && (p < start ==> k <= Before(edits, start)) && (p >= start ==> k >= Before(edits, start))
            && (p < end ==> k <= Reached(edits, end)) && (p >= end ==> k >= Reached(edits, end))
  {
    var k, t := Before(edits, p), Reached(edits, end);
    assert k < |edits| ==> p < edits[k].at;
    GapImage(edits, n, k, p);
    BeforeInOrder(edits, n, start, p);
  }

  lemma BeforeInOrder(edits: seq<Edit<char>>, n: int, x: nat, y: nat)
    requires Fits(edits, n)
    ensures x <= y ==> Before(edits, x) <= Before(edits, y)
    ensures y <= x ==> Before(edits, y) <= Before(edits, x)
  {
    var kx, ky := Before(edits, x), Before(edits, y);
    if kx < ky { assert edits[kx].End() <= y; }
    if ky < kx { assert edits[ky].End() <= x; }
  }

  lemma TrimsFit(text: string, edits: seq<Edit<char>>, start: nat, end: nat, k: nat)
    requires Fits(edits, |text|) && start < end <= |text| && k < |edits| && Touches(edits[k], start, end)
    requires !AnyUndecided(text, edits, start, end)
    ensures var rest := |edits[k].insert| - RightTrim(text, edits[k], start, end);
      0 <= LeftTrim(edits[k], start) <= rest <= |edits[k].insert|
  {
    assert Contribution(text, edits[k], start, end).Some?;
    ContributionIs(text, edits[k], start, end);
  }

  /** A survivor stands before the left edge exactly when it stood before the quotation. */
  lemma LeftOfSlice(text: string, edits: seq<Edit<char>>, start: nat, end: nat, p: nat)
    requires Fits(edits, |text|) && start < end <= |text| && p < |text| && Survives(edits, p)
    requires !AnyUndecided(text, edits, start, end)
    ensures p < start <==> Image(edits, p) < LeftEdge(edits, start)
  {
    var k, f := Before(edits, p), Before(edits, start);
    SurvivorStands(edits, |text|, start, end, p);
    LeftEdgeIs(edits, start, f);
    hide Survives, Growth, Image, LeftEdge, AnyUndecided;
    if f < |edits| && edits[f].at < start {
      TrimsFit(text, edits, start, end, f);
      assert Between(edits, f, edits[f].at) by { if f > 0 { assert edits[f - 1].End() <= edits[f].at; } }
      if k < f { InsertsInOrder(edits, |text|, k, f, edits[f].at); }
    } else if k < f {
      InsertsInOrder(edits, |text|, k, f, start);
    }
    if f < k { InsertsInOrder(edits, |text|, f, k, p); }
  }

  lemma RightOfTrimmed(text: string, edits: seq<Edit<char>>, start: nat, end: nat, p: nat, last: nat)
    requires Fits(edits, |text|) && start < end <= |text| && p < |text| && Survives(edits, p)
    requires !AnyUndecided(text, edits, start, end)
    requires last < |edits| && last + 1 == Reached(edits, end) && Before(edits, start) <= last
    requires edits[last].End() > end
    ensures p < end <==> Image(edits, p) < RightOf(text, edits, start, end, last)
  {
    var k := Before(edits, p);
    SurvivorStands(edits, |text|, start, end, p);
    TrimsFit(text, edits, start, end, last);
    assert k > last ==> p >= end by { assert k > last ==> edits[last].End() <= p; }
    assert k <= last ==> p < end;
    hide Survives, Growth, Image, AnyUndecided, RightTrim, LeftTrim, Reached, Before;
    assert Between(edits, last, edits[last].at) by { if last > 0 { assert edits[last - 1].End() <= edits[last].at; } }
    if k < last { InsertsInOrder(edits, |text|, k, last, edits[last].at); }
    if last < k { InsertsInOrder(edits, |text|, last, k, p); }
  }

  lemma RightOfGap(text: string, edits: seq<Edit<char>>, start: nat, end: nat, p: nat, t: nat)
    requires Fits(edits, |text|) && start < end <= |text| && p < |text| && Survives(edits, p)
    requires t == Reached(edits, end) && Between(edits, t, end)
    ensures p < end <==> Image(edits, p) < end + Growth(edits[..t])
  {
    var k := Before(edits, p);
    SurvivorStands(edits, |text|, start, end, p);
    hide Survives, Growth, Image, Reached, Before;
    if k < t { InsertsInOrder(edits, |text|, k, t, end); }
    if t < k { InsertsInOrder(edits, |text|, t, k, p); }
  }

  /** And before the right edge exactly when it stood before the end of the quotation. */
  lemma RightOfSlice(text: string, edits: seq<Edit<char>>, start: nat, end: nat, p: nat)
    requires Fits(edits, |text|) && start < end <= |text| && p < |text| && Survives(edits, p)
    requires !AnyUndecided(text, edits, start, end)
    ensures p < end <==> Image(edits, p) < RightEdge(text, edits, start, end)
  {
    var f, t := Before(edits, start), Reached(edits, end);
    hide Survives, Growth, Image, AnyUndecided, Fits, RightOf;
    if f < t && edits[t - 1].End() > end {
      RightOfTrimmed(text, edits, start, end, p, t - 1);
    } else {
      assert t > 0 ==> edits[t - 1].End() <= end by { if 0 < t <= f { assert edits[t - 1].End() <= start; } }
      RightOfGap(text, edits, start, end, p, t);
    }
  }

  /** The slice holds exactly the surviving characters of the quotation. */
  lemma SliceHoldsSurvivors(text: string, edits: seq<Edit<char>>, start: nat, end: nat, p: nat)
    requires Fits(edits, |text|) && start < end <= |text| && p < |text| && Survives(edits, p)
    requires !AnyUndecided(text, edits, start, end)
    ensures start <= p < end <==> LeftEdge(edits, start) <= Image(edits, p) < RightEdge(text, edits, start, end)
  {
    hide *;
    LeftOfSlice(text, edits, start, end, p);
    RightOfSlice(text, edits, start, end, p);
  }

  /** And, of what the edits insert, exactly the contributions of those that touch the quotation. */
  lemma SliceHoldsContributions(text: string, edits: seq<Edit<char>>, start: nat, end: nat, k: nat, offset: nat)
    requires Fits(edits, |text|) && start < end <= |text| && k < |edits| && offset < |edits[k].insert|
    requires !AnyUndecided(text, edits, start, end)
    ensures LeftEdge(edits, start) <= NewOffset(edits, k) + offset < RightEdge(text, edits, start, end)
       <==> Touches(edits[k], start, end)
            && LeftTrim(edits[k], start) <= offset < |edits[k].insert| - RightTrim(text, edits[k], start, end)
  {
    TouchingRun(text, edits, start, end, k);
    ReachedRun(text, edits, end, k);
    LeftOfInsert(text, edits, start, end, k, offset);
    hide Growth, AnyUndecided, RightEdge, LeftEdge, Fits, RightTrim, LeftTrim, NewOffset, Before, Reached;
    if k >= Before(edits, start) { RightOfInsert(text, edits, start, end, k, offset); }
  }

  lemma ReachedRun(text: string, edits: seq<Edit<char>>, end: nat, k: nat)
    requires Fits(edits, |text|) && k < |edits|
    ensures k < Reached(edits, end) <==> edits[k].at < end
  {
    var t := Reached(edits, end);
    if k > t { assert edits[t].End() <= edits[k].at; }
  }

  lemma StartsBetween(edits: seq<Edit<char>>, n: int, k: nat)
    requires Fits(edits, n) && k < |edits|
    ensures Between(edits, k, edits[k].at)
  {
    if k > 0 { assert edits[k - 1].End() <= edits[k].at; }
  }

  lemma LeftOfInsert(text: string, edits: seq<Edit<char>>, start: nat, end: nat, k: nat, offset: nat)
    requires Fits(edits, |text|) && start < end <= |text| && k < |edits| && offset < |edits[k].insert|
    requires !AnyUndecided(text, edits, start, end)
    ensures LeftEdge(edits, start) <= NewOffset(edits, k) + offset
       <==> k >= Before(edits, start) && LeftTrim(edits[k], start) <= offset
  {
    var f := Before(edits, start);
    LeftEdgeIs(edits, start, f);
    StartsBetween(edits, |text|, k);
    hide Growth, LeftEdge, AnyUndecided;
    assert k > f ==> start <= edits[k].at by { if k > f { assert edits[f].End() <= edits[k].at; } }
    if f < |edits| && edits[f].at < start {
      TrimsFit(text, edits, start, end, f);
      StartsBetween(edits, |text|, f);
      if k < f { InsertsInOrder(edits, |text|, k, f, edits[f].at); }
    } else if k < f {
      InsertsInOrder(edits, |text|, k, f, start);
    }
    if f < k { InsertsInOrder(edits, |text|, f, k, edits[k].at); }
  }

  lemma InsertLeftOfTrimmed(text: string, edits: seq<Edit<char>>, start: nat, end: nat, k: nat, offset: nat, last: nat)
    requires Fits(edits, |text|) && start < end <= |text| && k < |edits| && offset < |edits[k].insert|
    requires !AnyUndecided(text, edits, start, end)
    requires last < |edits| && Touches(edits[last], start, end)
    ensures NewOffset(edits, k) + offset < RightOf(text, edits, start, end, last)
       <==> k < last || (k == last && offset < |edits[k].insert| - RightTrim(text, edits[k], start, end))
  {
    TrimsFit(text, edits, start, end, last);
    StartsBetween(edits, |text|, k);
    StartsBetween(edits, |text|, last);
    hide Growth, AnyUndecided, LeftTrim, RightTrim;
    if k < last { InsertsInOrder(edits, |text|, k, last, edits[last].at); }
    if last < k { InsertsInOrder(edits, |text|, last, k, edits[k].at); }
  }

  lemma InsertLeftOfGap(edits: seq<Edit<char>>, n: int, end: nat, k: nat, offset: nat, t: nat)
    requires Fits(edits, n) && k < |edits| && offset < |edits[k].insert|
    requires t == Reached(edits, end) && Between(edits, t, end)
    ensures NewOffset(edits, k) + offset < end + Growth(edits[..t]) <==> k < t
  {
    StartsBetween(edits, n, k);
    hide Growth;
    if k < t { InsertsInOrder(edits, n, k, t, end); }
    if t < k { InsertsInOrder(edits, n, t, k, edits[k].at); }
  }

  lemma OnlyLastIsTrimmed(text: string, edits: seq<Edit<char>>, start: nat, end: nat, k: nat)
    requires Fits(edits, |text|) && k < Reached(edits, end) && (edits[k].End() > end ==> k + 1 < Reached(edits, end))
    ensures RightTrim(text, edits[k], start, end) == 0
  {
    if k + 1 < Reached(edits, end) { assert edits[k].End() <= edits[Reached(edits, end) - 1].at; }
  }

  lemma RightOfInsert(text: string, edits: seq<Edit<char>>, start: nat, end: nat, k: nat, offset: nat)
    requires Fits(edits, |text|) && start < end <= |text| && k < |edits| && offset < |edits[k].insert|
    requires !AnyUndecided(text, edits, start, end) && k >= Before(edits, start)
    ensures NewOffset(edits, k) + offset < RightEdge(text, edits, start, end)
       <==> k < Reached(edits, end) && offset < |edits[k].insert| - RightTrim(text, edits[k], start, end)
  {
    var f, t := Before(edits, start), Reached(edits, end);
    hide Growth, AnyUndecided, RightOf, Fits, RightTrim, NewOffset, Before;
    if t > 0 { TouchingRun(text, edits, start, end, t - 1); }
    if f < t && edits[t - 1].End() > end {
      if k + 1 < t { OnlyLastIsTrimmed(text, edits, start, end, k); }
      hide Reached;
      InsertLeftOfTrimmed(text, edits, start, end, k, offset, t - 1);
    } else {
      assert t > 0 ==> edits[t - 1].End() <= end;
      if k < t { OnlyLastIsTrimmed(text, edits, start, end, k); }
      InsertLeftOfGap(edits, |text|, end, k, offset, t);
    }
  }

  /**
   Text inserted exactly where the quotation starts counts as a change of the
   quotation, yet the answer is the quotation itself: the insertion stands in
   front of the slice.
   */
  lemma StartInsertionIsLeftOut(text: string, insert: string, start: nat, end: nat)
    requires start < end <= |text|
    ensures var edits := [Edit(start, 0, insert)];
      && Fits(edits, |text|) && ChangesQuotation(edits, start, end) && !ChangesContext(text, edits, start, end)
      && IsSlice(Apply(text, edits), LeftEdge(edits, start), RightEdge(text, edits, start, end), text[start..end])
      && LeftEdge(edits, start) == start + |insert|
  {
    var edits := [Edit(start, 0, insert)];
    assert Overlaps(edits[0], start, end);
    OverlapsMeans(edits, start, end);
    UndecidedMeans(text, edits, start, end);
    assert edits[..1] == edits && Growth(edits) == |insert| by { assert edits[..0] == []; }
    assert IsBefore(edits, start, 1) && IsReached(edits, end, 1);
    UntouchedStands(text, edits, start, end, 1);
  }

  // ----- When it went -----

  /** What a reader sees of a moment: whether the passage is there, or that the moment cannot be read. */
  datatype Reading = Unreadable | Holds | Lacks

  /** The moment the search settles on: it lacks the passage and the one before it still holds it. */
  ghost predicate JustWent(moments: seq<Reading>, from: nat, k: int) {
    from < k < |moments| && moments[k - 1] == Holds && moments[k] == Lacks
  }

  /** Once gone, never back: the passage is there up to some moment and missing from the next on. */
  ghost predicate GoesOnce(moments: seq<Reading>, from: nat) {
    forall i, j :: from <= i < j < |moments| && moments[i] == Lacks ==> moments[j] == Lacks
  }

  /** Bisection for the moment a passage went, between the comment's own moment and the newest. */
  method WentAt(moments: seq<Reading>, own: Option<nat>) returns (went: Option<nat>)
    requires own.Some? ==> own.value < |moments|
    ensures went.Some? ==>
      JustWent(moments, if own.Some? then own.value else 0, went.value)
    ensures var from := if own.Some? then own.value else 0;
      from + 1 < |moments| && (forall i :: from <= i < |moments| ==> moments[i] != Unreadable) ==>
      (went.Some? <==> moments[from] == Holds && moments[|moments| - 1] == Lacks)
  {
    var low, high := if own.Some? then own.value else 0, |moments| - 1;
    if low >= high || moments[low] != Holds || moments[high] != Lacks { return None; }
    while high - low > 1
      invariant (if own.Some? then own.value else 0) <= low < high < |moments|
      invariant moments[low] == Holds && moments[high] == Lacks
    {
      var middle := (low + high) / 2;
      if moments[middle] == Unreadable { return None; }
      if moments[middle] == Holds { low := middle; } else { high := middle; }
    }
    return Some(high);
  }

  /** A passage that goes once has only one such moment, and it was there at every moment before. */
  lemma WentOnce(moments: seq<Reading>, from: nat, k: int, other: int)
    requires GoesOnce(moments, from) && JustWent(moments, from, k)
    ensures JustWent(moments, from, other) ==> other == k
    ensures forall i :: from <= i < k ==> moments[i] != Lacks
    ensures forall i :: k <= i < |moments| ==> moments[i] == Lacks
  {
  }
}
