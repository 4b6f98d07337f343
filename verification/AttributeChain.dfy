/**
 `attributeChain`: range-level hunks credited to individual authors
 (web/src/lib/redlines.js), against per-character provenance for insertions
 and against the journey of each deletion's position for deletions.
 */
module AttributeChain {
  import opened Basics
  import opened SourceEdits
  import opened Redlines

  // ----- Deletion marks -----

  datatype Mark = Mark(at: int, text: string, author: string)

  /** The marks that survive a step, moved to where the step puts them. */
  ghost function CarryMarks(marks: seq<Mark>, edits: seq<Edit<char>>): seq<Mark> {
    if marks == [] then []
    else
      var last := marks[|marks| - 1];
      CarryMarks(marks[..|marks| - 1], edits)
      + match MapPoint(edits, last.at) case Some(at) => [last.(at := at)] case None => []
  }

  /** The marks of the first `k` deletions of a step. */
  function NewMarks(step: Step, k: nat): seq<Mark>
    requires k <= |step.hunks|
  {
    if k == 0 then []
    else
      NewMarks(step, k - 1)
      + if step.hunks[k - 1].removed == "" then []
        else [Mark(NewOffset(step.Edits(), k - 1), step.hunks[k - 1].removed, step.By())]
  }

  ghost function MarksOf(steps: seq<Step>): seq<Mark> {
    if steps == [] then []
    else
      var last := steps[|steps| - 1];
      CarryMarks(MarksOf(steps[..|steps| - 1]), last.Edits()) + NewMarks(last, |last.hunks|)
  }

  /** Where position `p` of the text after step i - 1 is after step j - 1, if it is still there. */
  ghost function PointThrough(steps: seq<Step>, i: nat, j: nat, p: int): Option<int>
    requires i <= j <= |steps|
    decreases j - i
  {
    if i == j then Some(p)
    else match PointThrough(steps, i, j - 1, p)
      case Some(x) => MapPoint(steps[j - 1].Edits(), x)
      case None => None
  }

  /** The mark records hunk k of step i: what it removed, who removed it, and where that place ended up. */
  ghost predicate Records(steps: seq<Step>, m: Mark, i: int, k: int) {
    && 0 <= i < |steps| && 0 <= k < |steps[i].hunks|
    && m.text == steps[i].hunks[k].removed != "" && StandsFor(steps[i].authorship, m.author)
    && PointThrough(steps, i + 1, |steps|, NewOffset(steps[i].Edits(), k)) == Some(m.at)
  }

  lemma {:induction false} CarryMarksMembers(marks: seq<Mark>, edits: seq<Edit<char>>, m: Mark)
    ensures m in CarryMarks(marks, edits)
       <==> exists w :: w in marks && MapPoint(edits, w.at) == Some(m.at) && m == w.(at := m.at)
  {
    if marks != [] {
      CarryMarksMembers(marks[..|marks| - 1], edits, m);
      assert marks == marks[..|marks| - 1] + [marks[|marks| - 1]];
    }
  }

  lemma {:induction false} NewMarksMembers(step: Step, count: nat, m: Mark)
    requires count <= |step.hunks|
    ensures m in NewMarks(step, count)
       <==> exists k :: 0 <= k < count && step.hunks[k].removed != ""
                        && m == Mark(NewOffset(step.Edits(), k), step.hunks[k].removed, step.By())
  {
    if count > 0 { NewMarksMembers(step, count - 1, m); }
  }

  lemma {:induction false} PointThroughFront(steps: seq<Step>, i: nat, j: nat, p: int)
    requires i <= j < |steps|
    ensures PointThrough(steps[..|steps| - 1], i, j, p) == PointThrough(steps, i, j, p)
    decreases j - i
  {
    if i < j { PointThroughFront(steps, i, j - 1, p); }
  }

  /** The marks are exactly the deletions whose place survived every later step. */
  lemma {:induction false} MarksAreDeletions(steps: seq<Step>, m: Mark)
    ensures m in MarksOf(steps) <==> exists i, k :: Records(steps, m, i, k)
    decreases |steps|
  {
    if steps != [] {
      var front, last := steps[..|steps| - 1], steps[|steps| - 1];
      CarryMarksMembers(MarksOf(front), last.Edits(), m);
      NewMarksMembers(last, |last.hunks|, m);
      if m in MarksOf(steps) {
        MarkIsRecorded(steps, m);
      }
      if i, k :| Records(steps, m, i, k) {
        RecordIsMarked(steps, m, i, k);
      }
    }
  }

  /** A record of the earlier steps, moved by the last one. */
  lemma RecordMoves(steps: seq<Step>, w: Mark, m: Mark, i: int, k: int)
    requires steps != [] && Records(steps[..|steps| - 1], w, i, k)
    requires MapPoint(steps[|steps| - 1].Edits(), w.at) == Some(m.at) && m == w.(at := m.at)
    ensures Records(steps, m, i, k)
  {
    hide MapPoint, NewOffset;
    PointThroughFront(steps, i + 1, |steps| - 1, NewOffset(steps[i].Edits(), k));
  }

  lemma {:induction false} MarkIsRecorded(steps: seq<Step>, m: Mark)
    requires steps != [] && m in MarksOf(steps)
    ensures exists i, k :: Records(steps, m, i, k)
    decreases |steps|, 0
  {
    hide MapPoint, NewOffset, CarryMarks, NewMarks;
    var n := |steps| - 1;
    var front, last := steps[..n], steps[n];
    CarryMarksMembers(MarksOf(front), last.Edits(), m);
    NewMarksMembers(last, |last.hunks|, m);
    if m in CarryMarks(MarksOf(front), last.Edits()) {
      var w :| w in MarksOf(front) && MapPoint(last.Edits(), w.at) == Some(m.at) && m == w.(at := m.at);
      MarksAreDeletions(front, w);
      var i, k :| Records(front, w, i, k);
      RecordMoves(steps, w, m, i, k);
    } else {
      var k :| 0 <= k < |last.hunks| && last.hunks[k].removed != ""
               && m == Mark(NewOffset(last.Edits(), k), last.hunks[k].removed, last.By());
      assert Records(steps, m, n, k);
    }
  }

  /** A record of an earlier step is one of the steps before, moved by the last. */
  lemma RecordMoved(steps: seq<Step>, m: Mark, i: int, k: int) returns (w: Mark)
    requires Records(steps, m, i, k) && i < |steps| - 1
    ensures Records(steps[..|steps| - 1], w, i, k)
    ensures MapPoint(steps[|steps| - 1].Edits(), w.at) == Some(m.at) && m == w.(at := m.at)
  {
    hide MapPoint, NewOffset;
    var n, p := |steps| - 1, NewOffset(steps[i].Edits(), k);
    PointThroughFront(steps, i + 1, n, p);
    w := m.(at := PointThrough(steps, i + 1, n, p).value);
  }

  lemma {:induction false} RecordIsMarked(steps: seq<Step>, m: Mark, i: int, k: int)
    requires Records(steps, m, i, k)
    ensures m in MarksOf(steps)
    decreases |steps|, 0
  {
    hide MapPoint, NewOffset, CarryMarks, NewMarks, PointThrough;
    var n := |steps| - 1;
    var front, last := steps[..n], steps[n];
    if i < n {
      var w := RecordMoved(steps, m, i, k);
      hide Records;
      CarryMarksMembers(MarksOf(front), last.Edits(), m);
      MarksAreDeletions(front, w);
      assert w in MarksOf(front);
    } else {
      LastRecord(steps, m, i, k);
      NewMarksMembers(last, |last.hunks|, m);
    }
  }

  lemma LastRecord(steps: seq<Step>, m: Mark, i: int, k: int)
    requires Records(steps, m, i, k) && i == |steps| - 1
    ensures var last := steps[i];
      && 0 <= k < |last.hunks| && last.hunks[k].removed != ""
      && m == Mark(NewOffset(last.Edits(), k), last.hunks[k].removed, last.By())
  {
    hide MapPoint, NewOffset;
  }

  /** The mark stands at a position and removed a given text. */
  ghost predicate MarkFits(m: Mark, at: int, text: string) { m.at == at && m.text == text }

  /** The name is that of the first mark that fits. */
  ghost predicate NamesFirst(marks: seq<Mark>, at: int, text: string, name: string) {
    exists k :: 0 <= k < |marks| && MarkFits(marks[k], at, text) && name == marks[k].author
                && forall j :: 0 <= j < k ==> !MarkFits(marks[j], at, text)
  }

  ghost predicate NoneFits(marks: seq<Mark>, at: int, text: string) {
    forall m :: m in marks ==> !MarkFits(m, at, text)
  }

  lemma {:induction false} FirstMatchMeans(marks: seq<Mark>, at: int, text: string)
    ensures match FirstMatch(marks, at, text)
            case Some(name) => NamesFirst(marks, at, text, name)
            case None => NoneFits(marks, at, text)
    decreases |marks|
  {
    if marks != [] {
      if MarkFits(marks[0], at, text) {
        assert NamesFirst(marks, at, text, marks[0].author);
      } else {
        FirstMatchMeans(marks[1..], at, text);
        FirstBehind(marks, at, text);
      }
    }
  }

  lemma FirstBehind(marks: seq<Mark>, at: int, text: string)
    requires marks != [] && !MarkFits(marks[0], at, text)
    ensures forall name :: NamesFirst(marks[1..], at, text, name) ==> NamesFirst(marks, at, text, name)
    ensures NoneFits(marks[1..], at, text) ==> NoneFits(marks, at, text)
  {
    hide MarkFits;
    var rest := marks[1..];
    forall name | NamesFirst(rest, at, text, name) ensures NamesFirst(marks, at, text, name) {
      var k :| 0 <= k < |rest| && MarkFits(rest[k], at, text) && name == rest[k].author
               && forall j :: 0 <= j < k ==> !MarkFits(rest[j], at, text);
      assert MarkFits(marks[k + 1], at, text);
      forall j | 0 <= j < k + 1 ensures !MarkFits(marks[j], at, text) {
        if j > 0 { assert marks[j] == rest[j - 1]; }
      }
    }
    assert marks == [marks[0]] + rest;
  }

  /** The author of the first mark at a position with a given text. */
  function FirstMatch(marks: seq<Mark>, at: int, text: string): Option<string> {
    if marks == [] then None
    else if marks[0].at == at && marks[0].text == text then Some(marks[0].author)
    else FirstMatch(marks[1..], at, text)
  }

  // ----- Insertions -----

  /** Every character of the range has a recorded inserter. */
  ghost predicate FullyAuthored(prov: Provenance, start: int, end: int) {
    start < end && forall q :: start <= q < end ==> AuthorAt(prov, q).Some?
  }

  /** The recorded inserters of the range. */
  ghost function InsertersOf(prov: Provenance, start: int, end: int): set<string> {
    set q | start <= q < end && AuthorAt(prov, q).Some? :: AuthorAt(prov, q).value
  }

  lemma CoverageIsProvenance(spans: seq<Span>, prov: Provenance, start: int, end: int)
    requires Represents(spans, prov)
    ensures start < end && FullyCovered(spans, start, end) <==> FullyAuthored(prov, start, end)
    ensures AuthorsIn(spans, start, end) == InsertersOf(prov, start, end)
  {
    forall q ensures Somebody(spans, q) <==> AuthorAt(prov, q).Some? {
      if Somebody(spans, q) {
        var i :| 0 <= i < |spans| && Holds(spans[i], q);
        assert Covered(spans, q, spans[i].author);
      }
      if AuthorAt(prov, q).Some? { assert Covered(spans, q, AuthorAt(prov, q).value); }
    }
    forall s ensures s in AuthorsIn(spans, start, end) <==> s in InsertersOf(prov, start, end) {
      if s in AuthorsIn(spans, start, end) {
        var i :| 0 <= i < |spans| && Meets(spans[i], start, end) && spans[i].author == s;
        var q := Max(start, spans[i].start);
        assert Holds(spans[i], q) && Covered(spans, q, s);
      }
      if s in InsertersOf(prov, start, end) {
        var q :| start <= q < end && AuthorAt(prov, q) == Some(s);
        assert Covered(spans, q, s);
      }
    }
  }

  // ----- The chain -----

  datatype Kind = Insert | Delete | Replace

  datatype RangeHunk = RangeHunk(position: int, kind: Kind, insert: string, removed: string)

  datatype Attributed = Attributed(hunk: RangeHunk, who: string)

  /** Whom a range-level hunk is credited to, in terms of provenance and of the surviving deletions. */
  ghost predicate Credited(h: RangeHunk, who: string, prov: Provenance, marks: seq<Mark>, fallback: string) {
    if h.kind == Delete then
      || NamesFirst(marks, h.position, h.removed, who)
      || (NoneFits(marks, h.position, h.removed) && who == fallback)
    else
      var end := h.position + |h.insert|;
      if FullyAuthored(prov, h.position, end) then IsVerdict(who, InsertersOf(prov, h.position, end))
      else who == fallback
  }

  /** A deletion is credited to a step that removed that text at a place that survived, or else to the fallback. */
  lemma DeletionCreditIsEarned(steps: seq<Step>, n: nat, h: RangeHunk, who: string, fallback: string)
    requires StepsFit(steps, n) && h.kind == Delete
    requires Credited(h, who, ProvenanceOf(steps, n), MarksOf(steps), fallback)
    ensures (exists i, k :: Records(steps, Mark(h.position, h.removed, who), i, k))
         || (who == fallback && forall m, i, k :: Records(steps, m, i, k) ==> !MarkFits(m, h.position, h.removed))
  {
    hide MarksOf, Records;
    var marks := MarksOf(steps);
    if NamesFirst(marks, h.position, h.removed, who) {
      var k :| 0 <= k < |marks| && MarkFits(marks[k], h.position, h.removed) && who == marks[k].author;
      assert marks[k] == Mark(h.position, h.removed, who);
      MarksAreDeletions(steps, marks[k]);
    } else {
      forall m, i, k | Records(steps, m, i, k) ensures !MarkFits(m, h.position, h.removed) {
        MarksAreDeletions(steps, m);
      }
    }
  }

  /** The insertion spans after one step. */
  method AdvanceSpans(spans: seq<Span>, step: Step) returns (next: seq<Span>)
    requires Sorted(step.Edits())
    ensures next == StepSpans(spans, step.Edits(), step.By())
  {
    var edits, author := step.Edits(), step.By();
    next := [];
    for i := 0 to |spans|
      invariant next == Carry(spans[..i], edits)
    {
      var pieces := MapSpanForward(spans[i].start, spans[i].end, edits);
      next := next + Tag(pieces, spans[i].author);
      assert spans[..i + 1][..i] == spans[..i];
    }
    assert spans[..|spans|] == spans;
    for k := 0 to |edits|
      invariant next == Carry(spans, edits) + Added(edits, author, k)
    {
      var at := OffsetInNew(edits, k);
      if edits[k].insert != "" {
        next := next + [Span(at, at + |edits[k].insert|, author)];
      }
    }
  }

  /** The deletion marks after one step. */
  method AdvanceMarks(marks: seq<Mark>, step: Step) returns (next: seq<Mark>)
    requires Sorted(step.Edits())
    ensures next == CarryMarks(marks, step.Edits()) + NewMarks(step, |step.hunks|)
  {
    hide MapPoint, NewOffset, Sorted;
    var edits := step.Edits();
    next := [];
    for i := 0 to |marks|
      invariant next == CarryMarks(marks[..i], edits)
    {
      var at := MapPointForward(marks[i].at, edits);
      if at.Some? { next := next + [marks[i].(at := at.value)]; }
      assert marks[..i + 1][..i] == marks[..i];
    }
    assert marks[..|marks|] == marks;
    for k := 0 to |edits|
      invariant next == CarryMarks(marks, edits) + NewMarks(step, k)
    {
      var at := OffsetInNew(edits, k);
      if step.hunks[k].removed != "" {
        next := next + [Mark(at, step.hunks[k].removed, step.By())];
      }
    }
  }

  lemma {:induction false} PrefixFits(steps: seq<Step>, i: nat, n: nat)
    requires StepsFit(steps, n) && i <= |steps|
    ensures StepsFit(steps[..i], n)
    decreases |steps|
  {
    if i < |steps| {
      PrefixFits(steps[..|steps| - 1], i, n);
      assert steps[..|steps| - 1][..i] == steps[..i];
    } else {
      assert steps[..i] == steps;
    }
  }

  /** Character `offset` of hunk k's insertion in step i survived every later step and is now at q. */
  ghost predicate Wrote(steps: seq<Step>, q: int, i: int, k: int, offset: int) {
    && 0 <= i < |steps| && 0 <= k < |steps[i].hunks| && 0 <= offset < |steps[i].hunks[k].edit.insert|
    && PointThrough(steps, i + 1, |steps|, NewOffset(steps[i].Edits(), k) + offset) == Some(q)
  }

  lemma WroteMoves(steps: seq<Step>, p: int, q: int, i: int, k: int, offset: int)
    requires steps != [] && 0 <= i < |steps| - 1
    requires MapPoint(steps[|steps| - 1].Edits(), p) == Some(q)
    ensures Wrote(steps[..|steps| - 1], p, i, k, offset) ==> Wrote(steps, q, i, k, offset)
  {
    hide MapPoint, NewOffset;
    if 0 <= k < |steps[i].hunks| {
      PointThroughFront(steps, i + 1, |steps| - 1, NewOffset(steps[i].Edits(), k) + offset);
    }
  }

  /** An author recorded in the provenance really wrote the character: it was inserted and never deleted since. */
  lemma {:induction false} RecordedWasWritten(steps: seq<Step>, n: nat, q: nat, s: string)
    requires StepsFit(steps, n) && AuthorAt(ProvenanceOf(steps, n), q) == Some(s)
    ensures exists i, k, offset :: Wrote(steps, q, i, k, offset) && steps[i].By() == s
    decreases |steps|
  {
    var m := |steps| - 1;
    var front, last := steps[..m], steps[m];
    var prov, edits := ProvenanceOf(front, n), last.Edits();
    LastOrigin(steps, n, q);
    match OriginOf(edits, q)
    case Old(p) =>
      RecordedWasWritten(front, n, p, s);
      var i, k, offset :| Wrote(front, p, i, k, offset) && front[i].By() == s;
      WroteMoves(steps, p, q, i, k, offset);
      assert steps[i].By() == s;
    case New(k, offset) =>
      assert Wrote(steps, q, m, k, offset) && steps[m].By() == s;
  }

  /** Where a character of the final text comes from in the last step, seen by the provenance and by the point map. */
  lemma LastOrigin(steps: seq<Step>, n: nat, q: nat)
    requires StepsFit(steps, n) && steps != [] && q < |ProvenanceOf(steps, n)|
    ensures var m := |steps| - 1;
            var prov, edits := ProvenanceOf(steps[..m], n), steps[m].Edits();
            match OriginOf(edits, q)
            case Old(p) =>
              && 0 <= p < |prov| && AuthorAt(ProvenanceOf(steps, n), q) == prov[p]
              && MapPoint(edits, p) == Some(q)
            case New(k, offset) =>
              && 0 <= k < |edits| && 0 <= offset < |edits[k].insert| && q == NewOffset(edits, k) + offset
              && AuthorAt(ProvenanceOf(steps, n), q) == Some(steps[m].By())
  {
    var m := |steps| - 1;
    var prov, edits := ProvenanceOf(steps[..m], n), steps[m].Edits();
    LastIsApplied(steps, n);
    hide ProvenanceOf, StepsFit, Label, NewOffset;
    OriginInStep(prov, edits, steps[m].By(), q);
  }

  lemma LastIsApplied(steps: seq<Step>, n: nat)
    requires StepsFit(steps, n) && steps != []
    ensures var m := |steps| - 1;
      var prov, edits := ProvenanceOf(steps[..m], n), steps[m].Edits();
      && Fits(edits, |prov|) && Fits(Label(edits, steps[m].By()), |prov|)
      && ProvenanceOf(steps, n) == Apply(prov, Label(edits, steps[m].By()))
  {
    var m := |steps| - 1;
    LabelFits(steps[m].Edits(), steps[m].By(), |ProvenanceOf(steps[..m], n)|);
  }

  lemma OriginInStep(prov: Provenance, edits: seq<Edit<char>>, author: string, q: nat)
    requires Fits(edits, |prov|) && Fits(Label(edits, author), |prov|) && q < |Apply(prov, Label(edits, author))|
    ensures var next := Apply(prov, Label(edits, author));
      match OriginOf(edits, q)
      case Old(p) => 0 <= p < |prov| && AuthorAt(next, q) == prov[p] && MapPoint(edits, p) == Some(q)
      case New(k, offset) =>
        && 0 <= k < |edits| && 0 <= offset < |edits[k].insert| && q == NewOffset(edits, k) + offset
        && AuthorAt(next, q) == Some(author)
  {
    hide NewOffset, Survives, Shift;
    LabelKeepsOrigin(edits, author, 0, q);
    OriginSpells(prov, Label(edits, author), 0, q);
    match OriginOf(edits, q)
    case Old(p) => OldOrigin(edits, 0, |prov|, q, p);
    case New(k, offset) => NewOrigin(edits, 0, |prov|, q, k, offset);
  }

  /** A character that was inserted and never deleted since is recorded for the step that inserted it. */
  lemma {:induction false} WrittenIsRecorded(steps: seq<Step>, n: nat, q: int, i: int, k: int, offset: int)
    requires StepsFit(steps, n) && Wrote(steps, q, i, k, offset)
    ensures AuthorAt(ProvenanceOf(steps, n), q) == Some(steps[i].By())
    decreases |steps|
  {
    var m := |steps| - 1;
    if i < m {
      var start := NewOffset(steps[i].Edits(), k) + offset;
      PointThroughFront(steps, i + 1, m, start);
      var p := PointThrough(steps, i + 1, m, start).value;
      assert Wrote(steps[..m], p, i, k, offset);
      WrittenIsRecorded(steps[..m], n, p, i, k, offset);
      hide PointThrough, NewOffset;
      RecordIsCarried(steps, n, p, q);
    } else {
      JustWritten(steps, n, q, k, offset);
    }
  }

  lemma RecordIsCarried(steps: seq<Step>, n: nat, p: int, q: int)
    requires StepsFit(steps, n) && steps != [] && MapPoint(steps[|steps| - 1].Edits(), p) == Some(q)
    ensures AuthorAt(ProvenanceOf(steps[..|steps| - 1], n), p).Some? ==>
              AuthorAt(ProvenanceOf(steps, n), q) == AuthorAt(ProvenanceOf(steps[..|steps| - 1], n), p)
  {
    var last, prov := steps[|steps| - 1], ProvenanceOf(steps[..|steps| - 1], n);
    if 0 <= p < |prov| {
      LabelFits(last.Edits(), last.By(), |prov|);
      LabelKeepsPoint(last.Edits(), last.By(), |prov|, p);
      SurvivorImage(prov, Label(last.Edits(), last.By()), p);
    }
  }

  lemma JustWritten(steps: seq<Step>, n: nat, q: int, k: int, offset: int)
    requires StepsFit(steps, n) && Wrote(steps, q, |steps| - 1, k, offset)
    ensures AuthorAt(ProvenanceOf(steps, n), q) == Some(steps[|steps| - 1].By())
  {
    var last, prov := steps[|steps| - 1], ProvenanceOf(steps[..|steps| - 1], n);
    var edits, labelled := last.Edits(), Label(last.Edits(), last.By());
    LabelFits(edits, last.By(), |prov|);
    NewOffsetAtLeast(edits, 0, |prov|, k);
    NewOrigin(edits, 0, |prov|, q, k, offset);
    LabelKeepsOrigin(edits, last.By(), 0, q);
    if q < |ProvenanceOf(steps, n)| {
      OriginSpells(prov, labelled, 0, q);
    } else {
      BeyondTheEnd(prov, labelled, 0, q);
    }
  }

  lemma LabelKeepsPoint(edits: seq<Edit<char>>, author: string, n: nat, p: nat)
    requires Fits(edits, n) && Fits(Label(edits, author), n) && p < n
    ensures MapPoint(edits, p) == MapPoint(Label(edits, author), p)
  {
    var labelled := Label(edits, author);
    assert forall i :: 0 <= i < |edits| ==> labelled[i].at == edits[i].at && labelled[i].End() == edits[i].End();
    LabelKeepsShift(edits, author, p);
  }

  lemma {:induction false} LabelKeepsShift(edits: seq<Edit<char>>, author: string, p: int)
    ensures Shift(edits, p) == Shift(Label(edits, author), p)
    decreases |edits|
  {
    if edits != [] {
      assert Label(edits, author)[1..] == Label(edits[1..], author);
      LabelKeepsShift(edits[1..], author, p);
    }
  }

  /**
   The provenance records author s for a character exactly when some step of
   s's inserted it and no later step deleted it.
   */
  lemma ProvenanceIsSurvival(steps: seq<Step>, n: nat, q: nat, s: string)
    requires StepsFit(steps, n)
    ensures AuthorAt(ProvenanceOf(steps, n), q) == Some(s)
       <==> exists i, k, offset :: Wrote(steps, q, i, k, offset) && StandsFor(steps[i].authorship, s)
  {
    if AuthorAt(ProvenanceOf(steps, n), q) == Some(s) { RecordedWasWritten(steps, n, q, s); }
    if i, k, offset :| Wrote(steps, q, i, k, offset) && StandsFor(steps[i].authorship, s) {
      WrittenIsRecorded(steps, n, q, i, k, offset);
    }
  }

  /** Spans and marks as they stand after the given steps. */
  ghost predicate InStep(spans: seq<Span>, marks: seq<Mark>, steps: seq<Step>, n: nat) {
    && StepsFit(steps, n)
    && InText(spans) && Disjoint(spans) && Represents(spans, ProvenanceOf(steps, n))
    && marks == MarksOf(steps)
  }

  /** One more step keeps spans, marks and provenance in agreement. */
  lemma StaysInStep(spans: seq<Span>, marks: seq<Mark>, steps: seq<Step>, n: nat)
    requires steps != [] && StepsFit(steps, n) && InStep(spans, marks, steps[..|steps| - 1], n)
    ensures var last := steps[|steps| - 1];
            && Sorted(last.Edits())
            && InStep(StepSpans(spans, last.Edits(), last.By()),
                      CarryMarks(marks, last.Edits()) + NewMarks(last, |last.hunks|), steps, n)
  {
    var last := steps[|steps| - 1];
    var prov := ProvenanceOf(steps[..|steps| - 1], n);
    LabelFits(last.Edits(), last.By(), |prov|);
    StepRepresents(spans, prov, last.Edits(), last.By());
    StepDisjoint(spans, last.Edits(), last.By(), |prov|);
  }

  lemma NothingInStep(steps: seq<Step>, n: nat)
    ensures InStep([], [], steps[..0], n)
  {
  }

  /** Carries insertion spans and deletion marks through all steps, oldest first. */
  method WalkSteps(steps: seq<Step>, ghost n: nat) returns (spans: seq<Span>, marks: seq<Mark>)
    requires StepsFit(steps, n)
    ensures InStep(spans, marks, steps, n)
  {
    hide *;
    spans, marks := [], [];
    NothingInStep(steps, n);
    for i := 0 to |steps|
      invariant InStep(spans, marks, steps[..i], n)
    {
      PrefixFits(steps, i + 1, n);
      assert steps[..i + 1][..|steps[..i + 1]| - 1] == steps[..i];
      StaysInStep(spans, marks, steps[..i + 1], n);
      var step := steps[i];
      spans := AdvanceSpans(spans, step);
      marks := AdvanceMarks(marks, step);
    }
    assert steps[..|steps|] == steps;
  }

  /** Whom one range-level hunk is credited to. */
  method CreditHunk(spans: seq<Span>, marks: seq<Mark>, h: RangeHunk, fallback: string, ghost prov: Provenance)
    returns (who: string)
    requires Represents(spans, prov)
    ensures Credited(h, who, prov, marks, fallback)
  {
    var credit;
    if h.kind == Delete {
      credit := FirstMatch(marks, h.position, h.removed);
      FirstMatchMeans(marks, h.position, h.removed);
    } else {
      credit := StrictCoverage(spans, h.position, h.position + |h.insert|);
      CoverageIsProvenance(spans, prov, h.position, h.position + |h.insert|);
    }
    who := match credit case Some(name) => name case None => fallback;
  }

  /**
   Credits every range-level hunk.  `n` is the length of the baseline text the
   first step starts from.
   */
  method AttributeHunks(steps: seq<Step>, hunks: seq<RangeHunk>, fallback: string, ghost n: nat)
    returns (result: seq<Attributed>)
    requires StepsFit(steps, n)
    ensures |result| == |hunks|
    ensures forall i :: 0 <= i < |hunks| ==>
              && result[i].hunk == hunks[i]
              && Credited(hunks[i], result[i].who, ProvenanceOf(steps, n), MarksOf(steps), fallback)
  {
    var spans, marks := WalkSteps(steps, n);
    hide Credited;
    result := [];
    for i := 0 to |hunks|
      invariant |result| == i
      invariant forall j :: 0 <= j < i ==>
                  && result[j].hunk == hunks[j]
                  && Credited(hunks[j], result[j].who, ProvenanceOf(steps, n), MarksOf(steps), fallback)
    {
      var who := CreditHunk(spans, marks, hunks[i], fallback, ProvenanceOf(steps, n));
      result := result + [Attributed(hunks[i], who)];
    }
  }
}
