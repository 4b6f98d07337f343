/**
 Crediting the source ranges of a hunk (web/src/lib/provenance.js, `covers`):
 nobody, unless every character of every range is somebody's.
 */
module Provenance {
  import opened Basics
  import opened Boundaries
  import opened Redlines

  /** A validated range of a source file. */
  datatype Target = Target(path: string, start: nat, end: nat)

  datatype Candidate = Candidate(path: string, span: Span)

  /** The spans known for one file. */
  function SpansIn(candidates: seq<Candidate>, path: string): (spans: seq<Span>)
    ensures forall span :: span in spans <==> Candidate(path, span) in candidates
  {
    if candidates == [] then []
    else
      var rest := SpansIn(candidates[1..], path);
      assert candidates == [candidates[0]] + candidates[1..];
      if candidates[0].path == path then [candidates[0].span] + rest else rest
  }

  ghost predicate IsCovered(target: Target, candidates: seq<Candidate>) {
    FullyCovered(SpansIn(candidates, target.path), target.start, target.end)
  }

  ghost predicate AllCovered(targets: seq<Target>, candidates: seq<Candidate>) {
    forall i :: 0 <= i < |targets| ==> IsCovered(targets[i], candidates)
  }

  /** Everybody who wrote a character of some target. */
  function AuthorsOf(targets: seq<Target>, candidates: seq<Candidate>): set<string> {
    if targets == [] then {}
    else
      var last := targets[|targets| - 1];
      AuthorsOf(targets[..|targets| - 1], candidates) + AuthorsIn(SpansIn(candidates, last.path), last.start, last.end)
  }

  /** The authors of one target, segment by segment; none when a segment is nobody's. */
  method AddTarget(contributors: set<string>, target: Target,
                   candidates: seq<Candidate>) returns (r: Option<set<string>>)
    requires target.start < target.end
    ensures r.Some? <==> IsCovered(target, candidates)
    ensures r.Some? ==>
      r.value == contributors + AuthorsIn(SpansIn(candidates, target.path), target.start, target.end) && r.value != {}
  {
    var spans, start, end := SpansIn(candidates, target.path), target.start, target.end;
    var sorted := SortUnique(Cuts(spans, start, end));
    SegmentBounds(spans, start, end, sorted);
    hide SortUnique, Cuts, AuthorsIn, ActiveAuthors, FullyCovered, SpansIn;
    NothingYet(spans, start);
    var all, index := contributors, 0;
    while index < |sorted| - 1
      invariant 0 <= index < |sorted|
      invariant all == contributors + AuthorsIn(spans, start, sorted[index])
      invariant FullyCovered(spans, start, sorted[index])
      invariant index > 0 ==> all != {}
    {
      var active := ActiveAuthors(spans, start, end, sorted[index], sorted[index + 1]);
      SegmentAuthors(spans, start, end, sorted, index);
      SegmentCovered(spans, start, end, sorted, index);
      CoveredOn(spans, start, sorted[index], sorted[index + 1], end);
      if active == {} { return None; }
      all := all + active;
      index := index + 1;
    }
    return Some(all);
  }

  lemma NothingYet(spans: seq<Span>, start: int)
    ensures AuthorsIn(spans, start, start) == {} && FullyCovered(spans, start, start)
  {
  }

  lemma CoveredOn(spans: seq<Span>, start: int, left: int, right: int, end: int)
    requires start <= left <= right <= end && FullyCovered(spans, start, left)
    ensures FullyCovered(spans, start, right) <==> FullyCovered(spans, left, right)
    ensures FullyCovered(spans, start, end) ==> FullyCovered(spans, left, right)
  {
  }

  /** One name for all targets, or nobody when a single character has no author. */
  method Covers(targets: seq<Target>, candidates: seq<Candidate>) returns (credit: Option<string>)
    requires forall i :: 0 <= i < |targets| ==> targets[i].start < targets[i].end
    ensures credit.Some? <==> targets != [] && AllCovered(targets, candidates)
    ensures credit.Some? ==> IsVerdict(credit.value, AuthorsOf(targets, candidates))
  {
    if targets == [] || candidates == [] {
      NobodyWithout(targets, candidates);
      return None;
    }
    hide IsCovered, AuthorsIn, SpansIn;
    var contributors: set<string> := {};
    for i := 0 to |targets|
      invariant contributors == AuthorsOf(targets[..i], candidates)
      invariant forall j :: 0 <= j < i ==> IsCovered(targets[j], candidates)
      invariant i > 0 ==> contributors != {}
    {
      var more := AddTarget(contributors, targets[i], candidates);
      if more.None? { return None; }
      assert targets[..i + 1][..i] == targets[..i];
      contributors := more.value;
    }
    assert targets[..|targets|] == targets;
    if SEVERAL in contributors || |contributors| > 1 { return Some(SEVERAL); }
    var name :| name in contributors;
    OnlyMember(contributors, name);
    return Some(name);
  }

  lemma NobodyWithout(targets: seq<Target>, candidates: seq<Candidate>)
    requires targets == [] || candidates == []
    requires forall i :: 0 <= i < |targets| ==> targets[i].start < targets[i].end
    ensures targets == [] || !AllCovered(targets, candidates)
  {
    if targets != [] {
      assert !Somebody(SpansIn(candidates, targets[0].path), targets[0].start);
      assert !IsCovered(targets[0], candidates);
    }
  }
}
