/**
 Bounded search (crates/librepaper/src/agent_query.rs): the capped full scan,
 the page scan, the cache between them, and the cursor that joins the pages.
 */
module SearchPages {
  import opened Basics
  import opened OffsetIndex

  type Path = string

  /** One match, in byte offsets, with the line and column of its start. */
  datatype Hit = Hit(path: Path, start: nat, end: nat, line: nat, column: nat)

  const SEARCH_CACHE_MATCHES := 8192

  const CACHED_SEARCHES := 16

  /** The characters at which the term occurs, from `from` on, leftmost first and not overlapping. */
  function Matches(t: Text, term: Text, from: nat): (r: seq<nat>)
    requires term != []
    ensures forall k :: 0 <= k < |r| ==> from <= r[k] && r[k] + |term| <= |t| && t[r[k]..r[k] + |term|] == term
    ensures forall k, l :: 0 <= k < l < |r| ==> r[k] + |term| <= r[l]
    decreases |t| - from
  {
    if from + |term| > |t| then []
    else if t[from..from + |term|] == term then [from] + Matches(t, term, from + |term|)
    else Matches(t, term, from + 1)
  }

  /** Position i lies in one of the listed matches, which are `n` long. */
  ghost predicate InSome(at: seq<nat>, n: nat, i: nat) { exists k :: 0 <= k < |at| && at[k] <= i < at[k] + n }

  lemma InSomeBehind(first: nat, rest: seq<nat>, n: nat, i: nat)
    requires InSome(rest, n, i) || first <= i < first + n
    ensures InSome([first] + rest, n, i)
  {
    var all := [first] + rest;
    if InSome(rest, n, i) {
      var k :| 0 <= k < |rest| && rest[k] <= i < rest[k] + n;
      assert all[k + 1] == rest[k];
    } else {
      assert all[0] == first;
    }
  }

  /** No occurrence is missed: every one is listed, or overlaps one that is. */
  lemma {:induction false} MatchesMissNothing(t: Text, term: Text, from: nat, i: nat)
    requires term != [] && from <= i && i + |term| <= |t| && t[i..i + |term|] == term
    ensures InSome(Matches(t, term, from), |term|, i)
    decreases |t| - from
  {
    hide InSome;
    if t[from..from + |term|] == term {
      if i >= from + |term| { MatchesMissNothing(t, term, from + |term|, i); }
      InSomeBehind(from, Matches(t, term, from + |term|), |term|, i);
    } else {
      MatchesMissNothing(t, term, from + 1, i);
    }
  }

  /** The hit at character i. */
  function HitAt(path: Path, t: Text, term: Text, i: nat): Hit
    requires i <= |t|
  {
    var p := PositionAfter(t[..i]);
    Hit(path, ByteAt(t, i), ByteAt(t, i) + |Encode(term)|, p.line, p.column)
  }

  /** A hit spells its term in bytes, and its position counts the newlines and characters in front. */
  lemma HitMeans(path: Path, t: Text, term: Text, i: nat)
    requires i + |term| <= |t| && t[i..i + |term|] == term
    ensures var h := HitAt(path, t, term, i);
      && h.path == path && h.start == |Encode(t[..i])| && h.start <= h.end <= |Encode(t)|
      && Encode(t)[h.start..h.end] == Encode(term)
      && h.line == multiset(t[..i])[NEWLINE] + 1 && 1 <= h.column <= i + 1
      && NEWLINE !in t[i + 1 - h.column..i] && (h.column == i + 1 || t[i - h.column] == NEWLINE)
  {
    hide Encode, Newlines, LineStart;
    var front := t[..i];
    PositionMeans(front);
    assert t[..i + |term|] == front + term;
    EncodeConcat(front, term);
    EncodePrefix(t, i + |term|);
    assert front[i + 1 - PositionAfter(front).column..] == t[i + 1 - PositionAfter(front).column..i];
    var all := Encode(t);
    var upTo := all[..|Encode(front + term)|];
    assert upTo == Encode(front) + Encode(term);
    assert all[|Encode(front)|..|Encode(front + term)|] == upTo[|Encode(front)|..];
  }

  function HitsOf(path: Path, t: Text, term: Text, at: seq<nat>): (r: seq<Hit>)
    requires forall k :: 0 <= k < |at| ==> at[k] <= |t|
    ensures |r| == |at|
  {
    seq(|at|, k requires 0 <= k < |at| => HitAt(path, t, term, at[k]))
  }

  function TermHits(path: Path, t: Text, terms: seq<Text>): seq<Hit>
    requires forall k :: 0 <= k < |terms| ==> terms[k] != []
  {
    if terms == [] then []
    else
      var last := terms[|terms| - 1];
      TermHits(path, t, terms[..|terms| - 1]) + HitsOf(path, t, last, Matches(t, last, 0))
  }

  /** Every hit, path by path, term by term: what all forms of the search are about. */
  function AllHits(texts: map<Path, Text>, paths: seq<Path>, terms: seq<Text>): seq<Hit>
    requires forall k :: 0 <= k < |terms| ==> terms[k] != []
  {
    if paths == [] then []
    else
      var last := paths[|paths| - 1];
      AllHits(texts, paths[..|paths| - 1], terms) + if last in texts then TermHits(last, texts[last], terms) else []
  }

  /** At most `limit` hits from `offset` on. */
  function Page<T>(all: seq<T>, offset: nat, limit: nat): seq<T> {
    all[Min(offset, |all|)..Min(offset + limit, |all|)]
  }

  lemma PageOfPrefix(all: seq<Hit>, done: seq<Hit>, offset: nat, limit: nat)
    requires done <= all && offset + limit <= |done|
    ensures Page(all, offset, limit) == Page(done, offset, limit)
  {
    assert all[..|done|] == done;
  }

  lemma PageGrows(done: seq<Hit>, hit: Hit, offset: nat, limit: nat)
    requires |done| < offset + limit
    ensures Page(done + [hit], offset, limit) == Page(done, offset, limit) + if |done| < offset then [] else [hit]
  {
  }

  /** What a scanner is looking at: texts and the index built for each of them. */
  ghost predicate Indexed(texts: map<Path, Text>, offsets: map<Path, seq<Checkpoint>>) {
    forall path :: path in texts && path in offsets ==> GoodIndex(texts[path], offsets[path])
  }

  function IndexFor(offsets: map<Path, seq<Checkpoint>>, path: Path): Option<seq<Checkpoint>> {
    if path in offsets then Some(offsets[path]) else None
  }

  method HitFor(path: Path, t: Text, offsets: Option<seq<Checkpoint>>, term: Text, i: nat) returns (hit: Hit)
    requires i <= |t| && (offsets.Some? ==> GoodIndex(t, offsets.value))
    ensures hit == HitAt(path, t, term, i)
  {
    var start := ByteAt(t, i);
    var p := IndexedPosition(t, offsets, start, i);
    hit := Hit(path, start, start + |Encode(term)|, p.line, p.column);
  }

  /** A scan's progress: `done` are the hits passed so far, `page` those of the page among them. */
  ghost predicate OnPage(page: seq<Hit>, seen: nat, done: seq<Hit>, offset: nat, limit: nat) {
    seen == |done| <= offset + limit && page == Page(done, offset, limit)
  }

  /** One term of one file, for a page; stops at the first hit past the page. */
  method PageTerm(path: Path, t: Text, offsets: Option<seq<Checkpoint>>, term: Text, offset: nat, limit: nat,
                  page0: seq<Hit>, seen0: nat, ghost done: seq<Hit>)
    returns (page: seq<Hit>, seen: nat, stopped: bool)
    requires term != [] && (offsets.Some? ==> GoodIndex(t, offsets.value))
    requires OnPage(page0, seen0, done, offset, limit)
    ensures var after := done + HitsOf(path, t, term, Matches(t, term, 0));
            if stopped then |after| > offset + limit && page == Page(after, offset, limit)
            else OnPage(page, seen, after, offset, limit)
  {
    hide HitsOf, Matches, OnPage, GoodIndex, HitAt;
    page, seen := page0, seen0;
    var at := Matches(t, term, 0);
    ghost var all := HitsOf(path, t, term, at);
    assert done + all[..0] == done;
    for k := 0 to |at|
      invariant OnPage(page, seen, done + all[..k], offset, limit)
    {
      ghost var before := done + all[..k];
      HitsStep(path, t, term, at, k, done);
      OnPageIs(page, seen, before, offset, limit);
      if seen < offset {
        PageMovesOn(page, seen, before, all[k], offset, limit);
        seen := seen + 1;
        continue;
      }
      if |page| >= limit {
        PageIsFull(page, seen, before, done + all, offset, limit);
        return page, seen, true;
      }
      PageMovesOn(page, seen, before, all[k], offset, limit);
      var hit := HitFor(path, t, offsets, term, at[k]);
      page := page + [hit];
      seen := seen + 1;
    }
    assert all[..|at|] == all;
    stopped := false;
  }

  lemma OnPageIs(page: seq<Hit>, seen: nat, done: seq<Hit>, offset: nat, limit: nat)
    requires OnPage(page, seen, done, offset, limit)
    ensures seen == |done| && |page| == if seen <= offset then 0 else seen - offset
  {
  }

  /** One more hit, in front of the page or on it. */
  lemma PageMovesOn(page: seq<Hit>, seen: nat, done: seq<Hit>, hit: Hit, offset: nat, limit: nat)
    requires OnPage(page, seen, done, offset, limit) && (seen < offset || |page| < limit)
    ensures OnPage(if seen < offset then page else page + [hit], seen + 1, done + [hit], offset, limit)
  {
    PageGrows(done, hit, offset, limit);
  }

  lemma PageIsFull(page: seq<Hit>, seen: nat, done: seq<Hit>, all: seq<Hit>, offset: nat, limit: nat)
    requires OnPage(page, seen, done, offset, limit) && seen >= offset && |page| >= limit && done <= all
    requires |done| < |all|
    ensures |all| > offset + limit && page == Page(all, offset, limit)
  {
    PageOfPrefix(all, done, offset, limit);
  }

  /** Hit k of a term, and the hits up to it as the start of them all. */
  lemma HitsStep(path: Path, t: Text, term: Text, at: seq<nat>, k: nat, done: seq<Hit>)
    requires k < |at| && forall j :: 0 <= j < |at| ==> at[j] <= |t|
    ensures var all := HitsOf(path, t, term, at);
      && all[k] == HitAt(path, t, term, at[k])
      && done + all[..k + 1] == done + all[..k] + [all[k]]
      && done + all[..k] <= done + all && done + all[..k + 1] <= done + all
  {
    var all := HitsOf(path, t, term, at);
    hide HitAt;
    assert all[..k + 1] == all[..k] + [all[k]];
    assert done + all == done + all[..k] + all[k..] && done + all == done + all[..k + 1] + all[k + 1..];
  }

  ghost predicate Terms(terms: seq<Text>) { forall k :: 0 <= k < |terms| ==> terms[k] != [] }

  /** The hits of the first `k` terms of a file, after those of earlier files. */
  lemma TermHitsStep(path: Path, t: Text, terms: seq<Text>, k: nat)
    requires Terms(terms) && k < |terms|
    ensures Terms(terms[..k]) && Terms(terms[..k + 1])
    ensures TermHits(path, t, terms[..k + 1])
         == TermHits(path, t, terms[..k]) + HitsOf(path, t, terms[k], Matches(t, terms[k], 0))
  {
    assert terms[..k + 1][..k] == terms[..k];
  }

  lemma {:induction false} TermHitsPrefix(path: Path, t: Text, terms: seq<Text>, k: nat)
    requires Terms(terms) && k <= |terms|
    ensures Terms(terms[..k]) && TermHits(path, t, terms[..k]) <= TermHits(path, t, terms)
    decreases |terms| - k
  {
    if k == |terms| {
      assert terms[..k] == terms;
    } else {
      TermHitsStep(path, t, terms, k);
      TermHitsPrefix(path, t, terms, k + 1);
    }
  }

  /** All terms of one file, for a page. */
  method PageFile(path: Path, t: Text, offsets: Option<seq<Checkpoint>>, terms: seq<Text>, offset: nat, limit: nat,
                  page0: seq<Hit>, seen0: nat, ghost done: seq<Hit>)
    returns (page: seq<Hit>, seen: nat, stopped: bool)
    requires Terms(terms) && (offsets.Some? ==> GoodIndex(t, offsets.value))
    requires OnPage(page0, seen0, done, offset, limit)
    ensures var after := done + TermHits(path, t, terms);
            if stopped then |after| > offset + limit && page == Page(after, offset, limit)
            else OnPage(page, seen, after, offset, limit)
  {
    hide TermHits, Matches, OnPage, HitsOf, GoodIndex, Page;
    page, seen := page0, seen0;
    NoTermHits(path, t, terms);
    assert done + [] == done;
    for k := 0 to |terms|
      invariant Terms(terms[..k]) && OnPage(page, seen, done + TermHits(path, t, terms[..k]), offset, limit)
    {
      TermHitsStep(path, t, terms, k);
      ghost var before, more := done + TermHits(path, t, terms[..k]),
          HitsOf(path, t, terms[k], Matches(t, terms[k], 0));
      assert before + more == done + TermHits(path, t, terms[..k + 1]);
      page, seen, stopped := PageTerm(path, t, offsets, terms[k], offset, limit, page, seen, before);
      if stopped {
        TermHitsPrefix(path, t, terms, k + 1);
        PrefixBehind(done, TermHits(path, t, terms[..k + 1]), TermHits(path, t, terms));
        StoppedEarly(done + TermHits(path, t, terms), before + more, offset, limit);
        return;
      }
    }
    assert terms[..|terms|] == terms;
    stopped := false;
  }

  /** A page that is full before the end of a prefix is the page of the whole. */
  lemma StoppedEarly(all: seq<Hit>, prefix: seq<Hit>, offset: nat, limit: nat)
    requires prefix <= all && |prefix| > offset + limit
    ensures |all| > offset + limit && Page(prefix, offset, limit) == Page(all, offset, limit)
  {
    assert all[..|prefix|] == prefix;
  }

  lemma AllHitsStep(texts: map<Path, Text>, paths: seq<Path>, terms: seq<Text>, k: nat)
    requires Terms(terms) && k < |paths|
    ensures AllHits(texts, paths[..k + 1], terms)
         == AllHits(texts, paths[..k], terms)
            + if paths[k] in texts then TermHits(paths[k], texts[paths[k]], terms) else []
  {
    assert paths[..k + 1][..k] == paths[..k];
  }

  lemma {:induction false} AllHitsPrefix(texts: map<Path, Text>, paths: seq<Path>, terms: seq<Text>, k: nat)
    requires Terms(terms) && k <= |paths|
    ensures AllHits(texts, paths[..k], terms) <= AllHits(texts, paths, terms)
    decreases |paths| - k
  {
    if k == |paths| {
      assert paths[..k] == paths;
    } else {
      AllHitsStep(texts, paths, terms, k);
      AllHitsPrefix(texts, paths, terms, k + 1);
    }
  }

  /** `scan_search_page`: the page of the uncapped scan, and whether nothing lies past it. */
  method ScanPage(texts: map<Path, Text>, offsets: map<Path, seq<Checkpoint>>, paths: seq<Path>, terms: seq<Text>,
                  offset: nat, limit: nat) returns (page: seq<Hit>, complete: bool)
    requires Indexed(texts, offsets) && Terms(terms)
    ensures page == Page(AllHits(texts, paths, terms), offset, limit)
    ensures complete <==> |AllHits(texts, paths, terms)| <= offset + limit
  {
    hide AllHits, TermHits, OnPage, GoodIndex, Page;
    page := [];
    var seen := 0;
    EmptyPage(texts, paths, terms, offset, limit);
    for k := 0 to |paths|
      invariant OnPage(page, seen, AllHits(texts, paths[..k], terms), offset, limit)
    {
      AllHitsStep(texts, paths, terms, k);
      if paths[k] !in texts {
        assert AllHits(texts, paths[..k + 1], terms) == AllHits(texts, paths[..k], terms);
        continue;
      }
      var path, t := paths[k], texts[paths[k]];
      var stopped;
      page, seen, stopped := PageFile(path, t, IndexFor(offsets, path), terms, offset, limit, page, seen,
                                      AllHits(texts, paths[..k], terms));
      if stopped {
        AllHitsPrefix(texts, paths, terms, k + 1);
        StoppedEarly(AllHits(texts, paths, terms), AllHits(texts, paths[..k + 1], terms), offset, limit);
        return page, false;
      }
    }
    assert paths[..|paths|] == paths;
    PageIsLast(page, seen, AllHits(texts, paths, terms), offset, limit);
    complete := true;
  }

  lemma EmptyPage(texts: map<Path, Text>, paths: seq<Path>, terms: seq<Text>, offset: nat, limit: nat)
    requires Terms(terms)
    ensures OnPage([], 0, AllHits(texts, paths[..0], terms), offset, limit)
  {
  }

  lemma PageIsLast(page: seq<Hit>, seen: nat, all: seq<Hit>, offset: nat, limit: nat)
    requires OnPage(page, seen, all, offset, limit)
    ensures page == Page(all, offset, limit) && |all| <= offset + limit
  {
  }

  /** One term of one file, for the capped scan. */
  method CapTerm(path: Path, t: Text, offsets: Option<seq<Checkpoint>>, term: Text, hits0: seq<Hit>)
    returns (hits: seq<Hit>, stopped: bool)
    requires term != [] && (offsets.Some? ==> GoodIndex(t, offsets.value)) && |hits0| <= SEARCH_CACHE_MATCHES
    ensures var after := hits0 + HitsOf(path, t, term, Matches(t, term, 0));
            if stopped then hits <= after && |hits| == SEARCH_CACHE_MATCHES + 1
            else hits == after && |hits| <= SEARCH_CACHE_MATCHES
  {
    hide HitsOf, Matches, GoodIndex, HitAt;
    hits := hits0;
    var at := Matches(t, term, 0);
    ghost var all := HitsOf(path, t, term, at);
    assert hits0 + all[..0] == hits0;
    for k := 0 to |at|
      invariant hits == hits0 + all[..k] && |hits| <= SEARCH_CACHE_MATCHES
    {
      HitsStep(path, t, term, at, k, hits0);
      var hit := HitFor(path, t, offsets, term, at[k]);
      hits := hits + [hit];
      if |hits| > SEARCH_CACHE_MATCHES { return hits, true; }
    }
    assert all[..|at|] == all;
    stopped := false;
  }

  lemma PrefixBehind(hits0: seq<Hit>, more: seq<Hit>, all: seq<Hit>)
    requires more <= all
    ensures hits0 + more <= hits0 + all
  {
    assert all == more + all[|more|..];
    assert hits0 + all == hits0 + more + all[|more|..];
  }

  lemma NoTermHits(path: Path, t: Text, terms: seq<Text>)
    ensures Terms(terms[..0]) && TermHits(path, t, terms[..0]) == []
  {
  }

  method CapFile(path: Path, t: Text, offsets: Option<seq<Checkpoint>>, terms: seq<Text>, hits0: seq<Hit>)
    returns (hits: seq<Hit>, stopped: bool)
    requires Terms(terms) && (offsets.Some? ==> GoodIndex(t, offsets.value)) && |hits0| <= SEARCH_CACHE_MATCHES
    ensures var after := hits0 + TermHits(path, t, terms);
            if stopped then hits <= after && |hits| == SEARCH_CACHE_MATCHES + 1
            else hits == after && |hits| <= SEARCH_CACHE_MATCHES
  {
    hide TermHits, Matches, HitsOf, GoodIndex;
    hits := hits0;
    NoTermHits(path, t, terms);
    for k := 0 to |terms|
      invariant Terms(terms[..k]) && hits == hits0 + TermHits(path, t, terms[..k]) && |hits| <= SEARCH_CACHE_MATCHES
    {
      TermHitsStep(path, t, terms, k);
      ghost var before := hits;
      hits, stopped := CapTerm(path, t, offsets, terms[k], hits);
      assert before + HitsOf(path, t, terms[k], Matches(t, terms[k], 0)) == hits0 + TermHits(path, t, terms[..k + 1]);
      if stopped {
        TermHitsPrefix(path, t, terms, k + 1);
        PrefixBehind(hits0, TermHits(path, t, terms[..k + 1]), TermHits(path, t, terms));
        return;
      }
    }
    assert terms[..|terms|] == terms;
    stopped := false;
  }

  /** `scan_search_all`: every hit, unless there are more than the cache may hold. */
  method ScanAll(texts: map<Path, Text>, offsets: map<Path, seq<Checkpoint>>, paths: seq<Path>, terms: seq<Text>)
    returns (hits: seq<Hit>, complete: bool)
    requires Indexed(texts, offsets) && Terms(terms)
    ensures complete <==> |AllHits(texts, paths, terms)| <= SEARCH_CACHE_MATCHES
    ensures complete ==> hits == AllHits(texts, paths, terms)
  {
    hits := [];
    for k := 0 to |paths|
      invariant hits == AllHits(texts, paths[..k], terms) && |hits| <= SEARCH_CACHE_MATCHES
    {
      hide AllHits, TermHits;
      AllHitsStep(texts, paths, terms, k);
      if paths[k] !in texts { continue; }
      var path, stopped := paths[k], false;
      hits, stopped := CapFile(path, texts[path], IndexFor(offsets, path), terms, hits);
      if stopped {
        AllHitsPrefix(texts, paths, terms, k + 1);
        return hits, false;
      }
    }
    assert paths[..|paths|] == paths;
    complete := true;
  }

  // ----- The cached query -----

  /** A page holds 1 to 24 hits, 24 unless the query says otherwise. */
  function PageLimit(requested: Option<nat>): (limit: nat)
    ensures 1 <= limit <= 24
  {
    match requested case None => 24 case Some(n) => if n < 1 then 1 else if n > 24 then 24 else n
  }

  /** What a query asks for is kept between 1 and 24; without a wish it is 24. */
  lemma PageLimitMeans(n: nat)
    ensures PageLimit(None) == 24 && PageLimit(Some(0)) == 1
    ensures 1 <= n <= 24 ==> PageLimit(Some(n)) == n
    ensures n >= 24 ==> PageLimit(Some(n)) == 24
  {
  }

  lemma PageReaches<T>(all: seq<T>, offset: nat, limit: nat)
    ensures offset + |Page(all, offset, limit)| < |all| <==> offset + limit < |all|
  {
  }

  lemma PageOfPage<T>(all: seq<T>, offset: nat, limit: nat)
    ensures Page(Page(all, offset, limit), 0, limit) == Page(all, offset, limit)
  {
  }

  // ----- Following the cursor -----

  /** What a caller collects who follows the cursor from `offset`, with the given page limits, and where they stop. */
  function Follow<T>(all: seq<T>, limits: seq<nat>, offset: nat): (seq<T>, Option<nat>)
    decreases |limits|
  {
    if limits == [] then ([], Some(offset))
    else
      var page := Page(all, offset, limits[0]);
      if offset + |page| < |all| then
        var rest := Follow(all, limits[1..], offset + |page|);
        (page + rest.0, rest.1)
      else (page, None)
  }

  /** The page limits of requests that ask for some limit or none. */
  function LimitsOf(requests: seq<Option<nat>>): (limits: seq<nat>)
    ensures |limits| == |requests| && forall k :: 0 <= k < |limits| ==> limits[k] == PageLimit(requests[k])
  {
    seq(|requests|, k requires 0 <= k < |requests| => PageLimit(requests[k]))
  }

  lemma Joined<T>(x: seq<T>, y: seq<T>)
    ensures x + [] == x && [] + y == y
  {
  }

  /** One request more. */
  lemma FollowOn<T>(all: seq<T>, limits: seq<nat>, k: nat, offset: nat, hits: seq<T>)
    requires k < |limits|
    ensures var page, rest := Page(all, offset, limits[k]), Follow(all, limits[k..], offset);
      if offset + |page| < |all| then
        var later := Follow(all, limits[k + 1..], offset + |page|);
        hits + rest.0 == hits + page + later.0 && rest.1 == later.1
      else rest == (page, None)
  {
    hide Page;
    assert limits[k..][0] == limits[k] && limits[k..][1..] == limits[k + 1..];
    var page := Page(all, offset, limits[k]);
    var later := Follow(all, limits[k + 1..], offset + |page|);
    assert hits + (page + later.0) == hits + page + later.0;
  }

  /**
   Following the cursor delivers every hit once and in order, however the page
   limits change on the way; it ends, and only at the end of the list.
   */
  lemma {:induction false} FollowDelivers<T>(all: seq<T>, limits: seq<nat>, offset: nat)
    requires offset <= |all| && forall k :: 0 <= k < |limits| ==> limits[k] >= 1
    ensures match Follow(all, limits, offset).1
            case None => Follow(all, limits, offset).0 == all[offset..]
            case Some(at) => at >= offset + |limits| && at <= |all| && Follow(all, limits, offset).0 == all[offset..at]
    ensures |limits| > |all| - offset ==> Follow(all, limits, offset).1 == None
    decreases |limits|
  {
    if limits != [] {
      PageFrom(all, offset, limits[0]);
      hide Page;
      var page := Page(all, offset, limits[0]);
      var at := offset + |page|;
      if at < |all| {
        FollowDelivers(all, limits[1..], at);
        var rest := Follow(all, limits[1..], at);
        assert Follow(all, limits, offset) == (page + rest.0, rest.1);
        SplitAt(all, offset, at, if rest.1.Some? then rest.1.value else |all|);
      }
    }
  }

  lemma PageFrom<T>(all: seq<T>, offset: nat, limit: nat)
    requires offset <= |all| && limit >= 1
    ensures var page := Page(all, offset, limit);
      offset + |page| <= |all| && page == all[offset..offset + |page|] && (offset < |all| ==> |page| >= 1)
  {
  }

  lemma SplitAt<T>(all: seq<T>, from: nat, at: nat, to: nat)
    requires from <= at <= to <= |all|
    ensures all[from..at] + all[at..to] == all[from..to] && all[from..|all|] == all[from..]
    ensures all[at..|all|] == all[at..]
  {
  }

  // ----- What is shown of a hit -----

  /** A hit with its words and the text around it. */
  datatype Match = Match(hit: Hit, exact: Text, prefix: Text, suffix: Text)

  const PREFIX_CHARACTERS: nat := 33

  const SUFFIX_CHARACTERS: nat := 32

  function LastOf(t: Text, most: nat): Text { if |t| > most then t[|t| - most..] else t }

  function FirstOf(t: Text, most: nat): Text { if |t| > most then t[..most] else t }

  /** The hit as it is answered, cut out of the text by its byte offsets. */
  function MatchFor(texts: map<Path, Text>, hit: Hit): Match {
    if hit.path !in texts then Match(hit, [], [], [])
    else
      var t := texts[hit.path];
      Match(hit, SliceBytes(t, hit.start, hit.end), LastOf(SliceBytes(t, 0, hit.start), PREFIX_CHARACTERS),
            FirstOf(SliceBytes(t, hit.end, |Encode(t)|), SUFFIX_CHARACTERS))
  }

  function Shown(texts: map<Path, Text>, hits: seq<Hit>): (matches: seq<Match>)
    ensures |matches| == |hits| && forall k :: 0 <= k < |hits| ==> matches[k] == MatchFor(texts, hits[k])
  {
    seq(|hits|, k requires 0 <= k < |hits| => MatchFor(texts, hits[k]))
  }

  lemma {:induction false} EncodeConcat(x: Text, y: Text)
    ensures Encode(x + y) == Encode(x) + Encode(y)
  {
    if y == [] {
      assert x + y == x;
    } else {
      assert (x + y)[..|x + y| - 1] == x + y[..|y| - 1];
      EncodeConcat(x, y[..|y| - 1]);
    }
  }

  /**
   What is shown of the occurrence at character i: its words, up to 33 characters before it and up
   to 32 behind it.
   */
  lemma MatchIsAround(texts: map<Path, Text>, path: Path, term: Text, i: nat)
    requires path in texts && i + |term| <= |texts[path]| && texts[path][i..i + |term|] == term
    ensures var t, end := texts[path], i + |term|;
      MatchFor(texts, HitAt(path, t, term, i))
      == Match(HitAt(path, t, term, i), term, t[Max(0, i - 33)..i], t[end..Min(end + 32, |t|)])
  {
    hide SliceBytes, PositionAfter, Encode, Utf8, ByteAt, LastOf, FirstOf;
    var t, end := texts[path], i + |term|;
    WordsEnd(t, term, i);
    SliceAll(t, i, end);
    WindowsAre(t, i, end);
  }

  lemma WindowsAre(t: Text, i: nat, end: nat)
    requires i <= end <= |t|
    ensures LastOf(t[..i], PREFIX_CHARACTERS) == t[Max(0, i - 33)..i]
    ensures FirstOf(t[end..], SUFFIX_CHARACTERS) == t[end..Min(end + 32, |t|)]
  {
  }

  /** In bytes a term ends where its characters end. */
  lemma WordsEnd(t: Text, term: Text, i: nat)
    requires i + |term| <= |t| && t[i..i + |term|] == term
    ensures ByteAt(t, i) + |Encode(term)| == ByteAt(t, i + |term|)
  {
    hide Encode;
    EncodeConcat(t[..i], term);
    assert t[..i + |term|] == t[..i] + term;
  }

  /** The three cuts of a text by byte offsets are those by characters. */
  lemma SliceAll(t: Text, i: nat, end: nat)
    requires i <= end <= |t|
    ensures SliceBytes(t, 0, ByteAt(t, i)) == t[..i] && SliceBytes(t, ByteAt(t, i), ByteAt(t, end)) == t[i..end]
    ensures SliceBytes(t, ByteAt(t, end), |Encode(t)|) == t[end..]
  {
    hide SliceBytes, Encode;
    NoBytes(t);
    SliceBetween(t, 0, i);
    SliceBetween(t, i, end);
    SliceBetween(t, end, |t|);
    assert t[..|t|] == t && t[0..i] == t[..i] && t[end..|t|] == t[end..];
  }

  lemma NoBytes(t: Text)
    ensures ByteAt(t, 0) == 0
  {
    assert t[..0] == [];
  }

  /** Every hit is in one of the texts, so none is answered without its text. */
  lemma {:induction false} HitsAreInTexts(texts: map<Path, Text>, paths: seq<Path>, terms: seq<Text>, hit: Hit)
    requires Terms(terms) && hit in AllHits(texts, paths, terms)
    ensures hit.path in texts
  {
    hide TermHits;
    var last := paths[|paths| - 1];
    if hit in AllHits(texts, paths[..|paths| - 1], terms) {
      HitsAreInTexts(texts, paths[..|paths| - 1], terms, hit);
    } else {
      TermHitsAreInFile(last, texts[last], terms, hit);
    }
  }

  lemma {:induction false} TermHitsAreInFile(path: Path, t: Text, terms: seq<Text>, hit: Hit)
    requires Terms(terms) && hit in TermHits(path, t, terms)
    ensures hit.path == path
  {
    hide Matches;
    var front, last := terms[..|terms| - 1], terms[|terms| - 1];
    if hit in TermHits(path, t, front) {
      TermHitsAreInFile(path, t, front, hit);
    } else {
      var at := Matches(t, last, 0);
      var k :| 0 <= k < |HitsOf(path, t, last, at)| && HitsOf(path, t, last, at)[k] == hit;
    }
  }

  lemma ShownPage(texts: map<Path, Text>, all: seq<Hit>, offset: nat, limit: nat)
    ensures Shown(texts, Page(all, offset, limit)) == Page(Shown(texts, all), offset, limit)
  {
    hide MatchFor;
  }

  method ShowHits(texts: map<Path, Text>, hits: seq<Hit>) returns (matches: seq<Match>)
    ensures matches == Shown(texts, hits)
  {
    hide MatchFor;
    matches := [];
    for k := 0 to |hits|
      invariant matches == Shown(texts, hits[..k])
    {
      matches := matches + [MatchFor(texts, hits[k])];
    }
    assert hits[..|hits|] == hits;
  }

  // ----- The indexes of a snapshot -----

  type Key = (seq<Path>, seq<Text>)

  /** The indexes of one immutable snapshot; only the search cache changes. */
  class SnapshotIndexes {
    const texts: map<Path, Text>
    const offsets: map<Path, seq<Checkpoint>>
    var searches: map<Key, seq<Hit>>

    /** Every cached answer is the full answer. */
    ghost predicate Valid()
      reads this
    {
      && Indexed(texts, offsets)
      && forall key :: key in searches ==> Terms(key.1) && searches[key] == AllHits(texts, key.0, key.1)
    }

    constructor (texts: map<Path, Text>, offsets: map<Path, seq<Checkpoint>>)
      requires Indexed(texts, offsets)
      ensures Valid() && this.texts == texts && this.offsets == offsets && searches == map[]
    {
      this.texts, this.offsets, this.searches := texts, offsets, map[];
    }

    /** Drops cached searches while there are more than 16, and no more than that. */
    method Evict()
      requires Valid()
      modifies this`searches
      ensures Valid() && |searches| == Min(|old(searches)|, CACHED_SEARCHES)
      ensures searches.Keys <= old(searches).Keys
      ensures forall key :: key in searches ==> searches[key] == old(searches)[key]
      ensures |old(searches)| <= CACHED_SEARCHES ==> searches == old(searches)
    {
      while |searches| > CACHED_SEARCHES
        invariant Valid() && |searches| >= Min(|old(searches)|, CACHED_SEARCHES)
        invariant searches.Keys <= old(searches).Keys
        invariant forall key :: key in searches ==> searches[key] == old(searches)[key]
        invariant |old(searches)| <= CACHED_SEARCHES ==> searches == old(searches)
        decreases |searches|
      {
        var oldest :| oldest in searches;
        ghost var was := searches;
        searches := searches - {oldest};
        assert |searches.Keys| == |was.Keys - {oldest}| by { assert searches.Keys == was.Keys - {oldest}; }
      }
    }

    /**
     One search request.  Whether the answer comes from the cache, from a full
     scan or from a page scan, it is the same page of the same list, and the
     next cursor is given exactly when hits are left.
     */
    method Search(paths: seq<Path>, terms: seq<Text>, offset: nat, requested: Option<nat>)
      returns (matches: seq<Match>, next: Option<nat>)
      requires Valid() && Terms(terms)
      modifies this`searches
      ensures Valid()
      ensures matches == Page(Shown(texts, AllHits(texts, paths, terms)), offset, PageLimit(requested))
      ensures next == if offset + |matches| < |AllHits(texts, paths, terms)| then Some(offset + |matches|) else None
    {
      hide MatchFor, GoodIndex, AllHits, Shown, Page;
      var limit := PageLimit(requested);
      var key := (paths, terms);
      var hits, base, scanComplete, pageScan;
      if key in searches {
        hits, base, scanComplete, pageScan := searches[key], 0, true, false;
      } else {
        var scanned, complete := ScanAll(texts, offsets, paths, terms);
        if complete {
          searches := searches[key := scanned];
          Evict();
          hits, base, scanComplete, pageScan := scanned, 0, true, false;
        } else {
          var page, done := ScanPage(texts, offsets, paths, terms, offset, limit);
          hits, base, scanComplete, pageScan := page, offset, done, true;
        }
      }
      var skip := if offset >= base then offset - base else 0;
      var page := Page(hits, skip, limit);
      PageOfPage(AllHits(texts, paths, terms), offset, limit);
      PageReaches(AllHits(texts, paths, terms), offset, limit);
      ShownPage(texts, AllHits(texts, paths, terms), offset, limit);
      matches := ShowHits(texts, page);
      var end := offset + |matches|;
      var hasMore := if pageScan then !scanComplete else end < |hits|;
      next := if hasMore then Some(end) else None;
    }

    /**
     A caller sends the cursor back for as long as there is one and requests
     are left, each with a limit of its own.  The caller has every hit so far
     once and in order, and is done when there are enough requests.
     */
    method FollowCursor(paths: seq<Path>, terms: seq<Text>, requests: seq<Option<nat>>)
      returns (matches: seq<Match>, next: Option<nat>)
      requires Valid() && Terms(terms)
      modifies this`searches
      ensures Valid()
      ensures var all := Shown(texts, AllHits(texts, paths, terms));
        && (matches, next) == Follow(all, LimitsOf(requests), 0)
        && (next.None? ==> matches == all)
        && (next.Some? ==> |requests| <= next.value <= |all| && matches == all[..next.value])
        && (next.Some? && requests != [] ==> next.value < |all|)
        && (|requests| > |all| ==> next.None?)
    {
      hide AllHits, Page, PageLimit, Shown;
      ghost var all, limits := Shown(texts, AllHits(texts, paths, terms)), LimitsOf(requests);
      FollowDelivers(all, limits, 0);
      matches, next := [], Some(0);
      var k := 0;
      Joined([], Follow(all, limits, 0).0);
      while k < |requests| && next.Some?
        invariant 0 <= k <= |requests| && Valid()
        invariant next.None? ==> Follow(all, limits, 0) == (matches, None)
        invariant next.Some? ==> var rest := Follow(all, limits[k..], next.value);
          Follow(all, limits, 0) == (matches + rest.0, rest.1) && (k > 0 ==> next.value < |all|)
      {
        var page, more := Search(paths, terms, next.value, requests[k]);
        FollowOn(all, limits, k, next.value, matches);
        matches, next, k := matches + page, more, k + 1;
      }
      Joined(matches, []);
      assert limits[|requests|..] == [];
    }
  }
}
