/**
 Who wrote what: insertion spans and deletion marks carried forward through a
 chain of steps (web/src/lib/redlines.js), against per-character provenance.
 */
module Redlines {
  import opened Basics
  import opened SourceEdits
  import opened Boundaries

  datatype Piece = Piece(start: int, end: int)

  ghost predicate InPieces(pieces: seq<Piece>, q: int) {
    exists i :: 0 <= i < |pieces| && pieces[i].start <= q < pieces[i].end
  }

  /** Pieces in order, none empty, none overlapping, none before `lo`. */
  ghost predicate Ordered(pieces: seq<Piece>, lo: int) {
    && (forall i :: 0 <= i < |pieces| ==> lo <= pieces[i].start < pieces[i].end)
    && (forall i, j :: 0 <= i < j < |pieces| ==> pieces[i].end <= pieces[j].start)
  }

  /** What is left of a span after the edits still to come, shifted by the edits already passed. */
  function MapSpan<T>(start: int, end: int, shift: int, edits: seq<Edit<T>>): seq<Piece>
    decreases |edits|
  {
    if start >= end then []
    else if edits == [] || (edits[0].End() > start && edits[0].at >= end) then [Piece(start + shift, end + shift)]
    else if edits[0].End() <= start then MapSpan(start, end, shift + edits[0].Delta(), edits[1..])
    else
      (if edits[0].at > start then [Piece(start + shift, edits[0].at + shift)] else [])
      + MapSpan(Max(start, edits[0].End()), end, shift + edits[0].Delta(), edits[1..])
  }

  lemma {:induction false} MapSpanOrdered<T>(start: int, end: int, shift: int, edits: seq<Edit<T>>, from: int, to: int)
    requires from <= start && Sorted(edits) && Within(edits, from, to)
    ensures Ordered(MapSpan(start, end, shift, edits), from + shift)
    decreases |edits|
  {
    if edits != [] {
      var e := edits[0];
      TailFits(edits, from, to);
      MapSpanOrdered(Max(start, e.End()), end, shift + e.Delta(), edits[1..], e.End(), to);
    }
  }

  lemma InPiecesConcat(x: seq<Piece>, y: seq<Piece>, q: int)
    ensures InPieces(x + y, q) <==> InPieces(x, q) || InPieces(y, q)
  {
    if InPieces(x, q) {
      var i :| 0 <= i < |x| && x[i].start <= q < x[i].end;
      assert (x + y)[i] == x[i];
    }
    if InPieces(y, q) {
      var i :| 0 <= i < |y| && y[i].start <= q < y[i].end;
      assert (x + y)[|x| + i] == y[i];
    }
  }

  lemma InOnePiece(piece: Piece, q: int)
    ensures InPieces([piece], q) <==> piece.start <= q < piece.end
  {
    assert [piece][0] == piece;
  }

  /** The origin is a position of [start, end). */
  ghost predicate ComesFrom(o: Origin, start: int, end: int) { o.Old? && start <= o.p < end }

  /**
   `MapSpan` is the exact image of the surviving characters, stated for the
   part of the texts past `from`.
   */
  lemma {:induction false} MapSpanFrom<T>(
    start: int, end: int, shift: int, edits: seq<Edit<T>>, from: int, to: int, q: int)
    requires from <= start && 0 <= q && Sorted(edits) && Within(edits, from, to)
    ensures InPieces(MapSpan(start, end, shift, edits), q + from + shift)
       <==> ComesFrom(OriginFrom(edits, from, q), start, end)
    decreases |edits|, 1
  {
    InOnePiece(Piece(start + shift, end + shift), q + from + shift);
    if edits != [] && start < end {
      TailFits(edits, from, to);
      MapSpanTail(start, end, shift, edits, from, to, q);
      if start < edits[0].End() && edits[0].at < end {
        MapSpanHead(start, end, shift, edits, from, to, q);
      } else if edits[0].at >= end && q - (edits[0].at - from) - |edits[0].insert| >= 0 {
        OldOriginAtLeast(edits[1..], edits[0].End(), to, q - (edits[0].at - from) - |edits[0].insert|);
      }
    }
  }

  /** The part of the span past the first edit. */
  lemma {:induction false} MapSpanTail<T>(
    start: int, end: int, shift: int, edits: seq<Edit<T>>, from: int, to: int, q: int)
    requires edits != [] && from <= start && 0 <= q && Sorted(edits) && Within(edits, from, to)
    ensures var e := edits[0];
            InPieces(MapSpan(Max(start, e.End()), end, shift + e.Delta(), edits[1..]), q + from + shift)
            <==> q >= e.at - from + |e.insert| && ComesFrom(OriginFrom(edits, from, q), Max(start, e.End()), end)
    decreases |edits|, 0
  {
    var e, rest := edits[0], edits[1..];
    TailFits(edits, from, to);
    var past := q - (e.at - from) - |e.insert|;
    if past >= 0 {
      MapSpanFrom(Max(start, e.End()), end, shift + e.Delta(), rest, e.End(), to, past);
      assert past + e.End() + (shift + e.Delta()) == q + from + shift;
    } else {
      MapSpanOrdered(Max(start, e.End()), end, shift + e.Delta(), rest, e.End(), to);
    }
  }

  /** An edit that touches the span: the piece before it, if any, joined to the rest. */
  lemma MapSpanHead<T>(start: int, end: int, shift: int, edits: seq<Edit<T>>, from: int, to: int, q: int)
    requires edits != [] && from <= start < end && 0 <= q && Sorted(edits) && Within(edits, from, to)
    requires start < edits[0].End() && edits[0].at < end
    requires var e := edits[0];
             InPieces(MapSpan(Max(start, e.End()), end, shift + e.Delta(), edits[1..]), q + from + shift)
             <==> q >= e.at - from + |e.insert| && ComesFrom(OriginFrom(edits, from, q), Max(start, e.End()), end)
    ensures InPieces(MapSpan(start, end, shift, edits), q + from + shift)
       <==> ComesFrom(OriginFrom(edits, from, q), start, end)
  {
    var e, rest := edits[0], edits[1..];
    TailFits(edits, from, to);
    var piece := Piece(start + shift, e.at + shift);
    var head := if e.at > start then [piece] else [];
    var tail := MapSpan(Max(start, e.End()), end, shift + e.Delta(), rest);
    assert MapSpan(start, end, shift, edits) == head + tail;
    InPiecesConcat(head, tail, q + from + shift);
    InOnePiece(piece, q + from + shift);
    var past := q - (e.at - from) - |e.insert|;
    if past >= 0 {
      OldOriginAtLeast(rest, e.End(), to, past);
      hide MapSpan, InPieces, Within, Sorted;
    } else {
      hide MapSpan, InPieces, Within, Sorted;
    }
  }

  /** A position of the new text lies in the mapped span exactly when it comes from the span. */
  lemma MapSpanIsImage<T>(start: int, end: int, edits: seq<Edit<T>>, n: int, q: int)
    requires Fits(edits, n) && 0 <= start && 0 <= q
    ensures InPieces(MapSpan(start, end, 0, edits), q) <==> ComesFrom(OriginOf(edits, q), start, end)
  {
    MapSpanFrom(start, end, 0, edits, 0, n, q);
  }

  /** One edit, as the loops below handle it. */
  lemma MapSpanStep<T>(start: int, end: int, shift: int, edits: seq<Edit<T>>, i: nat)
    requires i < |edits|
    ensures var e, rest := edits[i], edits[i + 1..];
      MapSpan(start, end, shift, edits[i..])
      == if start >= end then []
         else if e.End() <= start then MapSpan(start, end, shift + e.Delta(), rest)
         else if e.at >= end then [Piece(start + shift, end + shift)]
         else (if e.at > start then [Piece(start + shift, e.at + shift)] else [])
              + MapSpan(Max(start, e.End()), end, shift + e.Delta(), rest)
  {
    assert edits[i..][0] == edits[i] && edits[i..][1..] == edits[i + 1..];
  }

  lemma MapSpanRest<T>(start: int, end: int, shift: int)
    ensures MapSpan<T>(start, end, shift, []) == if start < end then [Piece(start + shift, end + shift)] else []
  {
  }

  lemma EmptySpan<T>(start: int, end: int, shift: int, moved: int, edits: seq<Edit<T>>)
    ensures start >= end ==> MapSpan(start, end, moved, edits) == []
  {
  }

  lemma PiecesJoin(x: seq<Piece>, y: seq<Piece>, z: seq<Piece>)
    ensures x + (y + z) == x + y + z && x + [] == x
  {
  }

  /** Carries one span forward across a step's edits. */
  method MapSpanForward<T>(spanStart: int, spanEnd: int, edits: seq<Edit<T>>) returns (pieces: seq<Piece>)
    ensures pieces == MapSpan(spanStart, spanEnd, 0, edits)
  {
    hide MapSpan;
    var shift, start, end := 0, spanStart, spanEnd;
    pieces := [];
    assert edits[0..] == edits;
    PiecesJoin([], [], MapSpan(start, end, shift, edits));
    for i := 0 to |edits|
      invariant pieces + MapSpan(start, end, shift, edits[i..]) == MapSpan(spanStart, spanEnd, 0, edits)
    {
      MapSpanStep(start, end, shift, edits, i);
      PiecesJoin(pieces, [], []);
      if start >= end { return; }
      var edit := edits[i];
      var editStart, editEnd := edit.at, edit.End();
      var delta := edit.Delta();
      if editEnd <= start { shift := shift + delta; continue; }
      if editStart >= end { return pieces + [Piece(start + shift, end + shift)]; }
      PiecesJoin(pieces, if editStart > start then [Piece(start + shift, editStart + shift)] else [],
                 MapSpan(Max(start, editEnd), end, shift + delta, edits[i + 1..]));
      if editStart > start { pieces := pieces + [Piece(start + shift, editStart + shift)]; }
      shift := shift + delta;
      start := Max(start, editEnd);
    }
    assert edits[|edits|..] == [];
    MapSpanRest<T>(start, end, shift);
    PiecesJoin(pieces, [], []);
    if start < end { pieces := pieces + [Piece(start + shift, end + shift)]; }
  }

  /** The source-provenance copy of the span map; the only difference is that it never stops early on an empty span. */
  method MapSourceSpan<T>(spanStart: int, spanEnd: int, edits: seq<Edit<T>>) returns (pieces: seq<Piece>)
    ensures pieces == MapSpan(spanStart, spanEnd, 0, edits)
  {
    hide MapSpan;
    var shift, start, end := 0, spanStart, spanEnd;
    pieces := [];
    assert edits[0..] == edits;
    PiecesJoin([], [], MapSpan(start, end, shift, edits));
    for i := 0 to |edits|
      invariant pieces + MapSpan(start, end, shift, edits[i..]) == MapSpan(spanStart, spanEnd, 0, edits)
    {
      MapSpanStep(start, end, shift, edits, i);
      PiecesJoin(pieces, [], []);
      var at, editEnd, delta := edits[i].at, edits[i].End(), edits[i].Delta();
      if editEnd <= start {
        EmptySpan(start, end, shift, shift + delta, edits[i + 1..]);
        shift := shift + delta;
        continue;
      }
      if at >= end { return if start < end then pieces + [Piece(start + shift, end + shift)] else pieces; }
      if start >= end { EmptySpan(Max(start, editEnd), end, shift, shift + delta, edits[i + 1..]); }
      PiecesJoin(pieces, if at > start then [Piece(start + shift, at + shift)] else [],
                 MapSpan(Max(start, editEnd), end, shift + delta, edits[i + 1..]));
      if at > start { pieces := pieces + [Piece(start + shift, at + shift)]; }
      shift := shift + delta;
      start := Max(start, editEnd);
    }
    assert edits[|edits|..] == [];
    MapSpanRest<T>(start, end, shift);
    PiecesJoin(pieces, [], []);
    if start < end { pieces := pieces + [Piece(start + shift, end + shift)]; }
  }

  /** Where a point goes: with the character it stands before, or nowhere when that character is deleted. */
  ghost function MapPoint<T>(edits: seq<Edit<T>>, point: int): Option<int> {
    if Survives(edits, point) then Some(Image(edits, point)) else None
  }

  /** Carries one point forward across a step's edits. */
  method MapPointForward<T>(point: int, edits: seq<Edit<T>>) returns (r: Option<int>)
    requires Sorted(edits)
    ensures r == MapPoint(edits, point)
  {
    var shift := 0;
    assert edits[0..] == edits;
    for i := 0 to |edits|
      invariant forall j :: 0 <= j < i ==> edits[j].End() <= point
      invariant Shift(edits, point) == shift + Shift(edits[i..], point)
    {
      var edit := edits[i];
      if point < edit.at {
        ShiftNone(edits[i..], point);
        return Some(point + shift);
      }
      if point < edit.End() { return None; }
      assert edits[i..][1..] == edits[i + 1..];
      shift := shift + edit.Delta();
    }
    r := Some(point + shift);
  }

  // ----- Coverage of a range by spans -----

  datatype Span = Span(start: int, end: int, author: string)

  const SEVERAL := "several people"

  predicate Holds(span: Span, q: int) { span.start <= q < span.end }

  /** Some character of [start, end) lies in the span. */
  predicate Meets(span: Span, start: int, end: int) { Max(start, span.start) < Min(end, span.end) }

  /** Every character of [start, end) lies in some span. */
  ghost predicate FullyCovered(spans: seq<Span>, start: int, end: int) {
    forall q :: start <= q < end ==> Somebody(spans, q)
  }

  ghost predicate Somebody(spans: seq<Span>, q: int) { exists i :: 0 <= i < |spans| && Holds(spans[i], q) }

  /** The authors of the characters of [start, end). */
  function AuthorsIn(spans: seq<Span>, start: int, end: int): set<string> {
    set i | 0 <= i < |spans| && Meets(spans[i], start, end) :: spans[i].author
  }

  /** One name when all agree on one person, "several people" otherwise. */
  ghost predicate IsVerdict(name: string, authors: set<string>) {
    if "several people" in authors || |authors| > 1 then name == "several people" else authors == {name}
  }

  predicate Relevant(span: Span, start: int, end: int) { !(span.end <= start || span.start >= end) }

  /** The boundaries strict coverage cuts a range at: its ends, and the clipped ends of every relevant span. */
  function Cuts(spans: seq<Span>, start: int, end: int): seq<int> {
    if spans == [] then [start, end]
    else
      var last := spans[|spans| - 1];
      Cuts(spans[..|spans| - 1], start, end)
      + if Relevant(last, start, end) then [Max(start, last.start), Min(end, last.end)] else []
  }

  lemma {:induction false} CutsHold(spans: seq<Span>, start: int, end: int)
    requires start < end
    ensures start in Cuts(spans, start, end) && end in Cuts(spans, start, end)
    ensures forall x :: x in Cuts(spans, start, end) ==> start <= x <= end
    ensures forall i :: 0 <= i < |spans| && Meets(spans[i], start, end) ==>
              Max(start, spans[i].start) in Cuts(spans, start, end) && Min(end, spans[i].end) in Cuts(spans, start, end)
  {
    if spans != [] {
      var front := spans[..|spans| - 1];
      CutsHold(front, start, end);
      assert forall i :: 0 <= i < |front| ==> front[i] == spans[i];
    }
  }

  /** The spans strict coverage calls active on a segment. */
  predicate Active(span: Span, start: int, end: int, left: int, right: int) {
    Relevant(span, start, end) && span.start <= left && span.end >= right
  }

  /** On an elementary segment a span is active exactly when it meets the segment at all. */
  lemma ActiveIsMeeting(spans: seq<Span>, start: int, end: int, sorted: seq<int>, k: nat, i: nat)
    requires start < end && sorted == SortUnique(Cuts(spans, start, end)) && k + 1 < |sorted| && i < |spans|
    ensures start <= sorted[k] < sorted[k + 1] <= end
    ensures Active(spans[i], start, end, sorted[k], sorted[k + 1]) <==> Meets(spans[i], sorted[k], sorted[k + 1])
  {
    CutsHold(spans, start, end);
    SortUniqueHolds(Cuts(spans, start, end));
    assert sorted[k] in sorted && sorted[k + 1] in sorted;
    var span := spans[i];
    if Meets(span, sorted[k], sorted[k + 1]) {
      assert Meets(span, start, end);
      NoneInside(sorted, k, Max(start, span.start));
      NoneInside(sorted, k, Min(end, span.end));
    }
  }

  /** The authors of the active spans of segment k. */
  function ActiveAuthors(spans: seq<Span>, start: int, end: int, left: int, right: int): set<string> {
    set i | 0 <= i < |spans| && Active(spans[i], start, end, left, right) :: spans[i].author
  }

  lemma SegmentBounds(spans: seq<Span>, start: int, end: int, sorted: seq<int>)
    requires start < end && sorted == SortUnique(Cuts(spans, start, end))
    ensures |sorted| >= 2 && Increasing(sorted) && sorted[0] == start && sorted[|sorted| - 1] == end
    ensures forall k :: 0 <= k < |sorted| ==> start <= sorted[k] <= end
  {
    CutsHold(spans, start, end);
    SortUniqueHolds(Cuts(spans, start, end));
    FirstIsLeast(sorted, start);
    FirstIsLeast(sorted, end);
    forall k | 0 <= k < |sorted| ensures start <= sorted[k] <= end { assert sorted[k] in sorted; }
  }

  lemma MeetsSplits(span: Span, start: int, left: int, right: int)
    requires start <= left < right
    ensures Meets(span, start, right) <==> Meets(span, start, left) || Meets(span, left, right)
  {
  }

  /** One more segment: the authors active on it join. */
  lemma SegmentAuthors(spans: seq<Span>, start: int, end: int, sorted: seq<int>, k: nat)
    requires start < end && sorted == SortUnique(Cuts(spans, start, end)) && k + 1 < |sorted|
    ensures AuthorsIn(spans, start, sorted[k + 1])
         == AuthorsIn(spans, start, sorted[k]) + ActiveAuthors(spans, start, end, sorted[k], sorted[k + 1])
  {
    var left, right := sorted[k], sorted[k + 1];
    SegmentBounds(spans, start, end, sorted);
    forall i: nat | i < |spans|
      ensures Meets(spans[i], start, right)
         <==> Meets(spans[i], start, left) || Active(spans[i], start, end, left, right)
    {
      ActiveIsMeeting(spans, start, end, sorted, k, i);
      MeetsSplits(spans[i], start, left, right);
    }
  }

  /** One more segment is covered exactly when somebody is active on it. */
  lemma SegmentCovered(spans: seq<Span>, start: int, end: int, sorted: seq<int>, k: nat)
    requires start < end && sorted == SortUnique(Cuts(spans, start, end)) && k + 1 < |sorted|
    ensures ActiveAuthors(spans, start, end, sorted[k], sorted[k + 1]) != {}
       <==> FullyCovered(spans, sorted[k], sorted[k + 1])
  {
    var left, right := sorted[k], sorted[k + 1];
    var active := ActiveAuthors(spans, start, end, left, right);
    if active != {} {
      var author :| author in active;
      var i :| 0 <= i < |spans| && Active(spans[i], start, end, left, right) && spans[i].author == author;
      forall q | left <= q < right ensures Somebody(spans, q) { assert Holds(spans[i], q); }
    }
    if FullyCovered(spans, left, right) {
      SegmentBounds(spans, start, end, sorted);
      assert Somebody(spans, left);
      var i: nat :| i < |spans| && Holds(spans[i], left);
      ActiveIsMeeting(spans, start, end, sorted, k, i);
      assert spans[i].author in active;
    }
  }

  /**
   Credits a range to an author only when every character of it lies in some
   span; `None` when any character does not.
   */
  method StrictCoverage(spans: seq<Span>, start: int, end: int) returns (credit: Option<string>)
    ensures credit.None? <==> !(start < end && FullyCovered(spans, start, end))
    ensures credit.Some? ==> IsVerdict(credit.value, AuthorsIn(spans, start, end))
  {
    if end <= start { return None; }
    var sorted := SortUnique(Cuts(spans, start, end));
    SegmentBounds(spans, start, end, sorted);
    var authors: set<string> := {};
    var index := 0;
    while index < |sorted| - 1
      invariant 0 <= index < |sorted|
      invariant authors == AuthorsIn(spans, start, sorted[index])
      invariant FullyCovered(spans, start, sorted[index])
      invariant index > 0 ==> authors != {}
    {
      var left, right := sorted[index], sorted[index + 1];
      var active := ActiveAuthors(spans, start, end, left, right);
      SegmentAuthors(spans, start, end, sorted, index);
      SegmentCovered(spans, start, end, sorted, index);
      if active == {} { return None; }
      authors := authors + active;
      index := index + 1;
    }
    if SEVERAL in authors || |authors| > 1 { return Some(SEVERAL); }
    var name :| name in authors;
    OnlyMember(authors, name);
    return Some(name);
  }

  lemma OnlyMember(authors: set<string>, name: string)
    requires name in authors && |authors| <= 1
    ensures authors == {name}
  {
    var rest := authors - {name};
    assert |rest| == |authors| - 1;
  }

  // ----- Per-character provenance -----

  /** For every character of a text, the author recorded as its inserter, if any. */
  type Provenance = seq<Option<string>>

  function AuthorAt(prov: Provenance, q: int): Option<string> { if 0 <= q < |prov| then prov[q] else None }

  ghost predicate Covered(spans: seq<Span>, q: int, s: string) {
    exists i :: 0 <= i < |spans| && Holds(spans[i], q) && spans[i].author == s
  }

  /** The spans cover a character for an author exactly when that author is its recorded inserter. */
  ghost predicate Represents(spans: seq<Span>, prov: Provenance) {
    forall q, s :: Covered(spans, q, s) <==> AuthorAt(prov, q) == Some(s)
  }

  ghost predicate Disjoint(spans: seq<Span>) {
    forall i, j :: 0 <= i < j < |spans| ==> Apart(spans[i], spans[j])
  }

  ghost predicate Apart(x: Span, y: Span) { forall q :: Holds(x, q) ==> !Holds(y, q) }

  /** A hunk of one step: the edit, and the text it removed. */
  datatype StepHunk = StepHunk(edit: Edit<char>, removed: string)

  /** Content-authorship evidence, after normalization. */
  datatype Authorship = Unknown | Single(name: string) | Multiple

  /** The name that the evidence stands for: the one author's own, or a word for several, or nothing. */
  ghost predicate StandsFor(authorship: Authorship, name: string) {
    && (authorship.Single? ==> name == authorship.name)
    && (authorship.Multiple? ==> name == "several people")
    && (authorship.Unknown? ==> name == "")
  }

  datatype Step = Step(authorship: Authorship, hunks: seq<StepHunk>)
  {
    function By(): (name: string)
      ensures StandsFor(authorship, name)
    {
      match authorship case Single(name) => name case Multiple => SEVERAL case Unknown => ""
    }

    function Edits(): (edits: seq<Edit<char>>)
      ensures |edits| == |hunks|
    {
      seq(|hunks|, i requires 0 <= i < |hunks| => hunks[i].edit)
    }
  }

  /** The same edits over provenance: what is inserted is recorded as the step's author's. */
  function Label(edits: seq<Edit<char>>, author: string): (r: seq<Edit<Option<string>>>)
    ensures |r| == |edits|
  {
    seq(|edits|, i requires 0 <= i < |edits| =>
      Edit(edits[i].at, edits[i].delete, seq(|edits[i].insert|, _ => Some(author))))
  }

  ghost predicate StepsFit(steps: seq<Step>, n: nat)
    decreases |steps|, 0
  {
    steps == [] ||
    (var front, last := steps[..|steps| - 1], steps[|steps| - 1];
     StepsFit(front, n) && Fits(Label(last.Edits(), last.By()), |ProvenanceOf(front, n)|))
  }

  /** Provenance after all steps: nothing is recorded for the `n` characters of the baseline. */
  ghost function ProvenanceOf(steps: seq<Step>, n: nat): Provenance
    requires StepsFit(steps, n)
    decreases |steps|, 1
  {
    if steps == [] then seq(n, _ => None)
    else
      var front, last := steps[..|steps| - 1], steps[|steps| - 1];
      Apply(ProvenanceOf(front, n), Label(last.Edits(), last.By()))
  }

  /** Labelling keeps the shape of the edits, so every position keeps its origin. */
  lemma {:induction false} LabelKeepsOrigin(edits: seq<Edit<char>>, author: string, from: int, q: int)
    ensures OriginFrom(edits, from, q) == OriginFrom(Label(edits, author), from, q)
    decreases |edits|
  {
    if edits != [] {
      assert Label(edits, author)[1..] == Label(edits[1..], author);
      LabelKeepsOrigin(edits[1..], author, edits[0].End(), q - (edits[0].at - from) - |edits[0].insert|);
    }
  }

  lemma LabelFits(edits: seq<Edit<char>>, author: string, n: int)
    ensures Fits(edits, n) <==> Fits(Label(edits, author), n)
  {
    var labelled := Label(edits, author);
    assert forall i :: 0 <= i < |edits| ==> labelled[i].at == edits[i].at && labelled[i].End() == edits[i].End();
  }

  /** A span list with a mapped span's pieces attributed to the span's author. */
  function Tag(pieces: seq<Piece>, author: string): (r: seq<Span>)
    ensures |r| == |pieces|
    ensures forall i :: 0 <= i < |r| ==> r[i] == Span(pieces[i].start, pieces[i].end, author)
  {
    seq(|pieces|, i requires 0 <= i < |pieces| => Span(pieces[i].start, pieces[i].end, author))
  }

  /** All spans carried across a step's edits. */
  function Carry<T>(spans: seq<Span>, edits: seq<Edit<T>>): seq<Span> {
    if spans == [] then []
    else
      var last := spans[|spans| - 1];
      Carry(spans[..|spans| - 1], edits) + Tag(MapSpan(last.start, last.end, 0, edits), last.author)
  }

  /** The spans of the first `k` insertions of a step. */
  function Added(edits: seq<Edit<char>>, author: string, k: nat): seq<Span>
    requires k <= |edits|
  {
    if k == 0 then []
    else
      var e := edits[k - 1];
      Added(edits, author, k - 1)
      + if e.insert == "" then [] else [Span(NewOffset(edits, k - 1), NewOffset(edits, k - 1) + |e.insert|, author)]
  }

  lemma CoveredConcat(x: seq<Span>, y: seq<Span>, q: int, s: string)
    ensures Covered(x + y, q, s) <==> Covered(x, q, s) || Covered(y, q, s)
  {
    if Covered(x, q, s) {
      var i :| 0 <= i < |x| && Holds(x[i], q) && x[i].author == s;
      assert (x + y)[i] == x[i];
    }
    if Covered(y, q, s) {
      var i :| 0 <= i < |y| && Holds(y[i], q) && y[i].author == s;
      assert (x + y)[|x| + i] == y[i];
    }
  }

  lemma TagCovers(pieces: seq<Piece>, author: string, q: int, s: string)
    ensures Covered(Tag(pieces, author), q, s) <==> InPieces(pieces, q) && s == author
  {
    if InPieces(pieces, q) {
      var i :| 0 <= i < |pieces| && pieces[i].start <= q < pieces[i].end;
      assert Holds(Tag(pieces, author)[i], q);
    }
  }

  ghost predicate InText(spans: seq<Span>) { forall i :: 0 <= i < |spans| ==> 0 <= spans[i].start }

  /** Carried spans cover exactly the survivors of what they covered. */
  lemma {:induction false} CarryCovers<T>(spans: seq<Span>, edits: seq<Edit<T>>, n: int, q: int, s: string)
    requires Fits(edits, n) && 0 <= q && InText(spans)
    ensures Covered(Carry(spans, edits), q, s) <==> OriginOf(edits, q).Old? && Covered(spans, OriginOf(edits, q).p, s)
  {
    if spans != [] {
      var front, last := spans[..|spans| - 1], spans[|spans| - 1];
      CarryCovers(front, edits, n, q, s);
      var pieces := MapSpan(last.start, last.end, 0, edits);
      MapSpanIsImage(last.start, last.end, edits, n, q);
      CoveredConcat(Carry(front, edits), Tag(pieces, last.author), q, s);
      TagCovers(pieces, last.author, q, s);
      if OriginOf(edits, q).Old? {
        assert spans == front + [last];
        CoveredConcat(front, [last], OriginOf(edits, q).p, s);
        assert Covered([last], OriginOf(edits, q).p, s) <==> Holds([last][0], OriginOf(edits, q).p) && last.author == s;
      }
    }
  }

  lemma OneCovers(span: Span, q: int, s: string)
    ensures Covered([span], q, s) <==> Holds(span, q) && s == span.author
    ensures !Covered([], q, s)
  {
    assert [span][0] == span;
  }

  /** Added spans cover exactly what the step inserts. */
  lemma {:induction false} AddedCovers(edits: seq<Edit<char>>, author: string, k: nat, n: int, q: int, s: string)
    requires Fits(edits, n) && 0 <= q && k <= |edits|
    ensures Covered(Added(edits, author, k), q, s)
        <==> OriginOf(edits, q).New? && OriginOf(edits, q).k < k && s == author
  {
    hide OriginFrom, NewOffset, Sorted, Within, Covered;
    if k == 0 {
      OneCovers(Span(0, 0, author), q, s);
    } else {
      AddedCovers(edits, author, k - 1, n, q, s);
      var e, at := edits[k - 1], NewOffset(edits, k - 1);
      var piece := Span(at, at + |e.insert|, author);
      NewOrigin(edits, 0, n, q, k - 1, q - at);
      if OriginOf(edits, q).New? { NewOrigin(edits, 0, n, q, k - 1, OriginOf(edits, q).offset); }
      CoveredConcat(Added(edits, author, k - 1), if e.insert == "" then [] else [piece], q, s);
      OneCovers(piece, q, s);
    }
  }

  /** The spans after one step: the survivors of the old ones, and one for every insertion. */
  function StepSpans(spans: seq<Span>, edits: seq<Edit<char>>, author: string): seq<Span> {
    Carry(spans, edits) + Added(edits, author, |edits|)
  }

  lemma {:induction false} CarryInText<T>(spans: seq<Span>, edits: seq<Edit<T>>, n: int)
    requires Fits(edits, n) && InText(spans)
    ensures InText(Carry(spans, edits))
  {
    if spans != [] {
      CarryInText(spans[..|spans| - 1], edits, n);
      MapSpanOrdered(spans[|spans| - 1].start, spans[|spans| - 1].end, 0, edits, 0, n);
    }
  }

  lemma {:induction false} AddedInText(edits: seq<Edit<char>>, author: string, k: nat, n: int)
    requires Fits(edits, n) && k <= |edits|
    ensures InText(Added(edits, author, k))
  {
    if k > 0 {
      AddedInText(edits, author, k - 1, n);
      NewOffsetAtLeast(edits, 0, n, k - 1);
    }
  }

  /** One step keeps the spans and the provenance in agreement. */
  lemma StepRepresents(spans: seq<Span>, prov: Provenance, edits: seq<Edit<char>>, author: string)
    requires Represents(spans, prov) && InText(spans) && Fits(Label(edits, author), |prov|)
    ensures Represents(StepSpans(spans, edits, author), Apply(prov, Label(edits, author)))
    ensures InText(StepSpans(spans, edits, author))
  {
    LabelFits(edits, author, |prov|);
    CarryInText(spans, edits, |prov|);
    AddedInText(edits, author, |edits|, |prov|);
    forall q, s
      ensures Covered(StepSpans(spans, edits, author), q, s)
         <==> AuthorAt(Apply(prov, Label(edits, author)), q) == Some(s)
    {
      if q >= 0 { StepRepresentsAt(spans, prov, edits, author, q, s); }
    }
  }

  lemma StepRepresentsAt(spans: seq<Span>, prov: Provenance, edits: seq<Edit<char>>, author: string, q: nat, s: string)
    requires Represents(spans, prov) && InText(spans) && Fits(edits, |prov|) && Fits(Label(edits, author), |prov|)
    ensures Covered(StepSpans(spans, edits, author), q, s)
       <==> AuthorAt(Apply(prov, Label(edits, author)), q) == Some(s)
  {
    var labelled := Label(edits, author);
    var next := Apply(prov, labelled);
    CoveredConcat(Carry(spans, edits), Added(edits, author, |edits|), q, s);
    CarryCovers(spans, edits, |prov|, q, s);
    AddedCovers(edits, author, |edits|, |prov|, q, s);
    LabelKeepsOrigin(edits, author, 0, q);
    if q < |next| {
      OriginSpells(prov, labelled, 0, q);
    } else {
      BeyondTheEnd(prov, labelled, 0, q);
    }
  }

  /** Past the end of the new text there are no origins inside the old text, and none inside an insertion. */
  lemma {:induction false} BeyondTheEnd<T>(text: seq<T>, edits: seq<Edit<T>>, from: nat, q: nat)
    requires from <= |text| && Sorted(edits) && Within(edits, from, |text|) && q >= |ApplyFrom(text, edits, from)|
    ensures OriginFrom(edits, from, q).Old? && OriginFrom(edits, from, q).p >= |text|
    decreases |edits|
  {
    if edits != [] {
      TailFits(edits, from, |text|);
      BeyondTheEnd(text, edits[1..], edits[0].End(), q - (edits[0].at - from) - |edits[0].insert|);
    }
  }

  lemma DisjointConcat(x: seq<Span>, y: seq<Span>)
    requires Disjoint(x) && Disjoint(y)
    requires forall i, j :: 0 <= i < |x| && 0 <= j < |y| ==> Apart(x[i], y[j])
    ensures Disjoint(x + y)
  {
  }

  lemma TagDisjoint(pieces: seq<Piece>, author: string, lo: int)
    requires Ordered(pieces, lo)
    ensures Disjoint(Tag(pieces, author))
  {
  }

  lemma LastHoldsAlone(spans: seq<Span>, p: int, s: string)
    requires spans != [] && Disjoint(spans) && Covered(spans[..|spans| - 1], p, s)
    ensures !Holds(spans[|spans| - 1], p)
  {
    var i :| 0 <= i < |spans| - 1 && Holds(spans[..|spans| - 1][i], p);
    assert Apart(spans[i], spans[|spans| - 1]);
  }

  /** A span of the carried list holds only images of characters of some carried span. */
  lemma {:induction false} CarryDisjoint<T>(spans: seq<Span>, edits: seq<Edit<T>>, n: int)
    requires Fits(edits, n) && InText(spans) && Disjoint(spans)
    ensures Disjoint(Carry(spans, edits))
  {
    if spans != [] {
      var front, last := spans[..|spans| - 1], spans[|spans| - 1];
      CarryDisjoint(front, edits, n);
      CarryInText(front, edits, n);
      var carried, pieces := Carry(front, edits), MapSpan(last.start, last.end, 0, edits);
      MapSpanOrdered(last.start, last.end, 0, edits, 0, n);
      TagDisjoint(pieces, last.author, 0);
      forall i, j | 0 <= i < |carried| && 0 <= j < |pieces| ensures Apart(carried[i], Tag(pieces, last.author)[j]) {
        forall q | Holds(carried[i], q) ensures !Holds(Tag(pieces, last.author)[j], q) {
          assert Covered(carried, q, carried[i].author);
          CarryCovers(front, edits, n, q, carried[i].author);
          LastHoldsAlone(spans, OriginOf(edits, q).p, carried[i].author);
          MapSpanIsImage(last.start, last.end, edits, n, q);
        }
      }
      DisjointConcat(carried, Tag(pieces, last.author));
    }
  }

  lemma {:induction false} AddedDisjoint(edits: seq<Edit<char>>, author: string, k: nat, n: int)
    requires Fits(edits, n) && k <= |edits|
    ensures Disjoint(Added(edits, author, k))
  {
    if k > 0 {
      AddedDisjoint(edits, author, k - 1, n);
      AddedInText(edits, author, k - 1, n);
      var e, at := edits[k - 1], NewOffset(edits, k - 1);
      var front := Added(edits, author, k - 1);
      var piece := Span(at, at + |e.insert|, author);
      forall i | 0 <= i < |front| ensures Apart(front[i], piece) {
        forall q | Holds(front[i], q) ensures !Holds(piece, q) {
          assert Covered(front, q, front[i].author);
          AddedCovers(edits, author, k - 1, n, q, front[i].author);
          NewOrigin(edits, 0, n, q, k - 1, q - at);
        }
      }
      DisjointConcat(front, [piece]);
    }
  }

  /** No two spans ever cover the same character. */
  lemma StepDisjoint(spans: seq<Span>, edits: seq<Edit<char>>, author: string, n: int)
    requires Fits(edits, n) && InText(spans) && Disjoint(spans)
    ensures Disjoint(StepSpans(spans, edits, author))
  {
    CarryDisjoint(spans, edits, n);
    AddedDisjoint(edits, author, |edits|, n);
    CarryInText(spans, edits, n);
    var carried, added := Carry(spans, edits), Added(edits, author, |edits|);
    forall i, j | 0 <= i < |carried| && 0 <= j < |added| ensures Apart(carried[i], added[j]) {
      forall q | Holds(carried[i], q) ensures !Holds(added[j], q) {
        assert Covered(carried, q, carried[i].author);
        CarryCovers(spans, edits, n, q, carried[i].author);
        AddedCovers(edits, author, |edits|, n, q, added[j].author);
        if Holds(added[j], q) { assert Covered(added, q, added[j].author); }
      }
    }
    DisjointConcat(carried, added);
  }
}
