/**
 Finding a quotation by its words and the context recorded around it: the two
 locators, `search` (web/src/lib/anchor.js) and `locateInText`
 (web/src/lib/suggestions.js). Text is a sequence of characters, none of them
 half of a surrogate pair.
 */
module TextSearch {
  import opened Basics
  import opened StableSort

  datatype Selector = Selector(exact: string, prefix: string, suffix: string)

  // ----- Occurrences -----

  predicate Occurs(text: string, exact: string, at: nat) { at + |exact| <= |text| && text[at..at + |exact|] == exact }

  lemma OccursMeans(text: string, exact: string, at: nat)
    ensures Occurs(text, exact, at) <==> exists front, back :: |front| == at && text == front + exact + back
  {
    if Occurs(text, exact, at) { assert text == text[..at] + exact + text[at + |exact|..]; }
  }

  /** All occurrences from `at` on, in order. */
  function OccurrencesFrom(text: string, exact: string, at: nat): seq<nat>
    decreases |text| - at
  {
    if at + |exact| > |text| || exact == "" then []
    else (if Occurs(text, exact, at) then [at] else []) + OccurrencesFrom(text, exact, at + 1)
  }

  function Occurrences(text: string, exact: string): seq<nat> { OccurrencesFrom(text, exact, 0) }

  ghost predicate IsIncreasing(s: seq<nat>, from: nat) {
    (forall i :: 0 <= i < |s| ==> from <= s[i]) && forall i, j :: 0 <= i < j < |s| ==> s[i] < s[j]
  }

  /** The list of occurrences holds each one once, in order. */
  lemma {:induction false} OccurrencesAreAll(text: string, exact: string, at: nat)
    requires exact != ""
    ensures IsIncreasing(OccurrencesFrom(text, exact, at), at)
    ensures forall c: nat :: c in OccurrencesFrom(text, exact, at) <==> at <= c && Occurs(text, exact, c)
    decreases |text| - at
  {
    if at + |exact| <= |text| {
      OccurrencesAreAll(text, exact, at + 1);
    }
  }

  /** The next occurrence, as `indexOf` gives it. */
  function IndexOf(text: string, exact: string, from: nat): Option<nat>
    decreases |text| - from
  {
    if from + |exact| > |text| then None
    else if Occurs(text, exact, from) then Some(from)
    else IndexOf(text, exact, from + 1)
  }

  lemma {:induction false} IndexOfIsNext(text: string, exact: string, from: nat)
    requires exact != ""
    ensures match IndexOf(text, exact, from)
            case None => OccurrencesFrom(text, exact, from) == []
            case Some(at) => OccurrencesFrom(text, exact, from) == [at] + OccurrencesFrom(text, exact, at + 1)
    decreases |text| - from
  {
    hide Occurs;
    if from + |exact| <= |text| && !Occurs(text, exact, from) {
      IndexOfIsNext(text, exact, from + 1);
    }
  }

  function Capped(s: seq<nat>, most: nat): seq<nat> { if |s| <= most then s else s[..most] }

  /** The positions of a quotation, stopping once there are more than `most`. */
  method FindPositions(text: string, exact: string, most: nat) returns (positions: seq<nat>)
    requires exact != ""
    ensures positions == Capped(Occurrences(text, exact), most + 1)
  {
    hide IndexOf, OccurrencesFrom;
    positions := [];
    var cursor := IndexOf(text, exact, 0);
    IndexOfIsNext(text, exact, 0);
    ghost var rest := OccurrencesFrom(text, exact, 0);
    while cursor.Some?
      invariant OccurrencesFrom(text, exact, 0) == positions + rest && |positions| <= most
      invariant cursor == None ==> rest == []
      invariant cursor.Some? ==> rest == [cursor.value] + OccurrencesFrom(text, exact, cursor.value + 1)
      decreases |rest|
    {
      var at := cursor.value;
      ghost var was, next := positions, OccurrencesFrom(text, exact, at + 1);
      positions := positions + [at];
      assert was + ([at] + next) == positions + next;
      rest := next;
      if |positions| > most { break; }
      IndexOfIsNext(text, exact, at + 1);
      cursor := IndexOf(text, exact, at + 1);
    }
  }

  // ----- Context -----

  function CommonPrefix(a: string, b: string): nat {
    if a != "" && b != "" && a[0] == b[0] then 1 + CommonPrefix(a[1..], b[1..]) else 0
  }

  function CommonSuffix(a: string, b: string): nat {
    if a != "" && b != "" && a[|a| - 1] == b[|b| - 1] then 1 + CommonSuffix(a[..|a| - 1], b[..|b| - 1]) else 0
  }

  /** The common prefix is the longest one. */
  lemma {:induction false} CommonPrefixIsLongest(a: string, b: string, n: nat)
    ensures n <= CommonPrefix(a, b) <==> n <= |a| && n <= |b| && a[..n] == b[..n]
  {
    if n > 0 {
      if a != "" && b != "" && a[0] == b[0] {
        CommonPrefixIsLongest(a[1..], b[1..], n - 1);
        if n <= |a| && n <= |b| {
          assert a[..n] == [a[0]] + a[1..][..n - 1] && b[..n] == [b[0]] + b[1..][..n - 1];
          assert a[..n][1..] == a[1..][..n - 1] && b[..n][1..] == b[1..][..n - 1];
        }
      } else if n <= |a| && n <= |b| {
        assert a[..n][0] == a[0] && b[..n][0] == b[0];
      }
    }
  }

  method CountCommonPrefix(a: string, b: string) returns (i: nat)
    ensures i == CommonPrefix(a, b)
  {
    i := 0;
    while i < |a| && i < |b| && a[i] == b[i]
      invariant i <= |a| && i <= |b| && CommonPrefix(a, b) == i + CommonPrefix(a[i..], b[i..])
    {
      assert a[i..][1..] == a[i + 1..] && b[i..][1..] == b[i + 1..];
      i := i + 1;
    }
  }

  method CountCommonSuffix(a: string, b: string) returns (n: nat)
    ensures n == CommonSuffix(a, b)
  {
    n := 0;
    assert a[..|a|] == a && b[..|b|] == b;
    while n < |a| && n < |b| && a[|a| - 1 - n] == b[|b| - 1 - n]
      invariant n <= |a| && n <= |b| && CommonSuffix(a, b) == n + CommonSuffix(a[..|a| - n], b[..|b| - n])
    {
      assert a[..|a| - n][..|a| - n - 1] == a[..|a| - (n + 1)] && b[..|b| - n][..|b| - n - 1] == b[..|b| - (n + 1)];
      n := n + 1;
    }
  }

  function Reverse(s: string): string { if s == "" then "" else Reverse(s[1..]) + [s[0]] }

  lemma {:induction false} ReverseBack(s: string)
    requires s != ""
    ensures Reverse(s) == [s[|s| - 1]] + Reverse(s[..|s| - 1])
  {
    if |s| > 1 {
      ReverseBack(s[1..]);
      assert s[1..][..|s| - 2] == s[..|s| - 1][1..];
    } else {
      assert s[1..] == "" && s[..0] == "";
    }
  }

  lemma {:induction false} ReversedPrefixIsSuffix(a: string, b: string)
    ensures CommonPrefix(Reverse(a), Reverse(b)) == CommonSuffix(b, a)
  {
    if a != "" && b != "" {
      ReverseBack(a);
      ReverseBack(b);
      if a[|a| - 1] == b[|b| - 1] {
        ReversedPrefixIsSuffix(a[..|a| - 1], b[..|b| - 1]);
        assert Reverse(a)[1..] == Reverse(a[..|a| - 1]) && Reverse(b)[1..] == Reverse(b[..|b| - 1]);
      }
    }
  }

  /** Only as much of the text counts as the context is long. */
  lemma {:induction false} SuffixNeedsNoMore(text: string, context: string)
    ensures CommonSuffix(text[if |text| > |context| then |text| - |context| else 0..], context)
        == CommonSuffix(text, context)
  {
    if text != "" && context != "" {
      var from := if |text| > |context| then |text| - |context| else 0;
      var front, less := text[..|text| - 1], context[..|context| - 1];
      SuffixNeedsNoMore(front, less);
      assert front[from..] == text[from..][..|text[from..]| - 1];
    } else {
      assert text[|text|..] == "";
      assert text[0..] == text;
    }
  }

  lemma {:induction false} PrefixNeedsNoMore(text: string, context: string)
    ensures CommonPrefix(context, text[..if |text| > |context| then |context| else |text|])
        == CommonPrefix(text, context)
  {
    if text != "" && context != "" {
      var to := if |text| > |context| then |context| else |text|;
      PrefixNeedsNoMore(text[1..], context[1..]);
      assert text[1..][..to - 1] == text[..to][1..];
    }
  }

  /** How much of the recorded context still surrounds an occurrence. */
  function Score(text: string, wanted: Selector, at: nat): nat
    requires at + |wanted.exact| <= |text|
  {
    CommonSuffix(text[..at], wanted.prefix) + CommonPrefix(text[at + |wanted.exact|..], wanted.suffix)
  }

  /** The same score from the text next to the occurrence, the way `search` counts it. */
  method NearScore(text: string, wanted: Selector, at: nat) returns (score: nat)
    requires at + |wanted.exact| <= |text|
    ensures score == Score(text, wanted, at)
  {
    hide CommonPrefix, CommonSuffix, Reverse;
    var end := at + |wanted.exact|;
    var before := text[if at > |wanted.prefix| then at - |wanted.prefix| else 0..at];
    var after := text[end..if |text| > end + |wanted.suffix| then end + |wanted.suffix| else |text|];
    var left := CountCommonPrefix(Reverse(wanted.prefix), Reverse(before));
    var right := CountCommonPrefix(wanted.suffix, after);
    ReversedPrefixIsSuffix(wanted.prefix, before);
    SuffixNeedsNoMore(text[..at], wanted.prefix);
    assert text[..at][if at > |wanted.prefix| then at - |wanted.prefix| else 0..] == before;
    PrefixNeedsNoMore(text[end..], wanted.suffix);
    assert text[end..][..if |text[end..]| > |wanted.suffix| then |wanted.suffix| else |text[end..]|] == after;
    return left + right;
  }

  method FullScore(text: string, wanted: Selector, at: nat) returns (score: nat)
    requires at + |wanted.exact| <= |text|
    ensures score == Score(text, wanted, at)
  {
    var left := CountCommonSuffix(text[..at], wanted.prefix);
    var right := CountCommonPrefix(text[at + |wanted.exact|..], wanted.suffix);
    return left + right;
  }

  // ----- Choosing among the occurrences -----

  function Distance(position: Option<int>, at: nat): nat {
    match position
    case None => 0
    case Some(p) => if at >= p then at - p else p - at
  }

  /** How far an occurrence is from the recorded position, on either side; without one all are as near. */
  lemma DistanceMeans(position: Option<int>, at: nat)
    ensures position.None? ==> Distance(position, at) == 0
    ensures position.Some? ==>
              at == position.value + Distance(position, at) || at == position.value - Distance(position, at)
  {
  }

  ghost predicate AllOccur(text: string, exact: string, candidates: seq<nat>) {
    forall c :: c in candidates ==> Occurs(text, exact, c)
  }

  /** The better context wins, then the smaller distance, then the earlier place. */
  ghost predicate Beats(text: string, wanted: Selector, position: Option<int>, c: nat, d: nat)
    requires c + |wanted.exact| <= |text| && d + |wanted.exact| <= |text|
  {
    || Score(text, wanted, c) > Score(text, wanted, d)
    || (Score(text, wanted, c) == Score(text, wanted, d)
        && (Distance(position, c) < Distance(position, d)
          || (Distance(position, c) == Distance(position, d) && c <= d)))
  }

  ghost predicate IsBest(text: string, wanted: Selector, position: Option<int>, candidates: seq<nat>, c: nat) {
    && AllOccur(text, wanted.exact, candidates) && c in candidates
    && forall d :: d in candidates ==> Beats(text, wanted, position, c, d)
  }

  lemma BestIsUnique(text: string, wanted: Selector, position: Option<int>, candidates: seq<nat>, c: nat, d: nat)
    requires IsBest(text, wanted, position, candidates, c) && IsBest(text, wanted, position, candidates, d)
    ensures c == d
  {
    hide Score;
    assert Beats(text, wanted, position, c, d) && Beats(text, wanted, position, d, c);
  }

  /** One occurrence has more of its context than every other. */
  ghost predicate HasWinner(text: string, wanted: Selector, candidates: seq<nat>) {
    AllOccur(text, wanted.exact, candidates) && exists c :: IsWinner(text, wanted, candidates, c)
  }

  ghost predicate IsWinner(text: string, wanted: Selector, candidates: seq<nat>, c: nat)
    requires AllOccur(text, wanted.exact, candidates)
  {
    c in candidates && forall d :: d in candidates && d != c ==> Score(text, wanted, d) < Score(text, wanted, c)
  }

  datatype Scored = Scored(at: nat, score: nat, distance: nat)

  /** The entries are the candidates with their scores. */
  ghost predicate AreScored(text: string, wanted: Selector, candidates: seq<nat>, scored: seq<Scored>) {
    && AllOccur(text, wanted.exact, candidates) && IsIncreasing(candidates, 0)
    && |scored| == |candidates|
    && forall i :: 0 <= i < |scored| ==>
      && candidates[i] in candidates && scored[i].at == candidates[i]
      && scored[i].score == Score(text, wanted, candidates[i])
  }

  function Higher(): (Scored, Scored) -> bool { (x: Scored, y: Scored) => x.score > y.score }

  function Closer(): (Scored, Scored) -> bool {
    (x: Scored, y: Scored) => x.score > y.score || (x.score == y.score && x.distance < y.distance)
  }

  function Smaller(): (nat, nat) -> bool { (x: nat, y: nat) => x < y }

  lemma CappedAreOccurrences(text: string, exact: string, most: nat)
    requires exact != ""
    ensures var found := Capped(Occurrences(text, exact), most);
      AllOccur(text, exact, found) && IsIncreasing(found, 0)
  {
    hide Occurs;
    OccurrencesAreAll(text, exact, 0);
    var all := Occurrences(text, exact);
    if |all| > most { assert forall c :: c in all[..most] ==> c in all; }
  }

  lemma FirstIsBest(text: string, wanted: Selector, position: Option<int>, candidates: seq<nat>, scored: seq<Scored>,
                    k: nat)
    requires AreScored(text, wanted, candidates, scored)
    requires forall i :: 0 <= i < |scored| ==> scored[i].distance == Distance(position, candidates[i])
    requires IsFirstLeast(scored, Closer(), k)
    ensures IsBest(text, wanted, position, candidates, candidates[k])
  {
    hide Score, Distance;
    forall d | d in candidates ensures Beats(text, wanted, position, candidates[k], d) {
      var j :| 0 <= j < |candidates| && candidates[j] == d;
      assert !Closer()(scored[j], scored[k]);
      if j < k { assert Closer()(scored[k], scored[j]); }
      if k < j { assert candidates[k] < candidates[j]; }
    }
  }

  /** The candidates with their scores and distances. */
  method ScoreAll(text: string, wanted: Selector, position: Option<int>,
                  candidates: seq<nat>) returns (scored: seq<Scored>)
    requires AllOccur(text, wanted.exact, candidates) && IsIncreasing(candidates, 0)
    ensures AreScored(text, wanted, candidates, scored)
    ensures forall i :: 0 <= i < |scored| ==> scored[i].distance == Distance(position, candidates[i])
  {
    hide Score, Distance;
    scored := [];
    for i := 0 to |candidates|
      invariant AreScored(text, wanted, candidates[..i], scored)
      invariant forall j :: 0 <= j < i ==> scored[j].distance == Distance(position, candidates[j])
    {
      assert candidates[i] in candidates;
      var score := FullScore(text, wanted, candidates[i]);
      scored := scored + [Scored(candidates[i], score, Distance(position, candidates[i]))];
    }
    assert candidates[..|candidates|] == candidates;
  }

  method LocateInText(text: string, wanted: Selector, position: Option<int>) returns (found: Option<nat>)
    ensures found.None? <==> wanted.exact == "" || Occurrences(text, wanted.exact) == []
    ensures found.Some? ==> IsBest(text, wanted, position, Occurrences(text, wanted.exact), found.value)
  {
    if wanted.exact == "" || text == "" {
      NothingIn(wanted.exact, text);
      return None;
    }
    hide Score, Sort, Distance, OccurrencesFrom, IsBest, AllOccur, IsIncreasing, IsFirstLeast;
    var occurrences := FindPositions(text, wanted.exact, |text|);
    FewerThanCharacters(text, wanted.exact);
    CappedAreOccurrences(text, wanted.exact, |text|);
    if |occurrences| == 0 { return None; }
    if |occurrences| == 1 {
      OnlyIsBest(text, wanted, position, occurrences);
      return Some(occurrences[0]);
    }
    var scored := ScoreAll(text, wanted, position, occurrences);
    ghost var k := HeadOfCloser(scored);
    FirstIsBest(text, wanted, position, occurrences, scored, k);
    var sorted := Sort(scored, Closer());
    return Some(sorted[0].at);
  }

  lemma HeadOfCloser(scored: seq<Scored>) returns (k: nat)
    requires scored != []
    ensures k < |scored| && IsFirstLeast(scored, Closer(), k) && Sort(scored, Closer()) != []
    ensures Sort(scored, Closer())[0] == scored[k]
  {
    hide Sort;
    k := SortHead(scored, Closer());
  }

  lemma NothingIn(exact: string, text: string)
    requires exact == "" || text == ""
    ensures Occurrences(text, exact) == []
  {
  }

  lemma {:induction false} FewerThanCharacters(text: string, exact: string)
    ensures |Occurrences(text, exact)| <= |text|
  {
    FewerFrom(text, exact, 0);
  }

  lemma {:induction false} FewerFrom(text: string, exact: string, at: nat)
    requires at <= |text|
    ensures |OccurrencesFrom(text, exact, at)| <= |text| - at
    decreases |text| - at
  {
    hide Occurs;
    if at + |exact| <= |text| && exact != "" { FewerFrom(text, exact, at + 1); }
  }

  // ----- `search` -----

  lemma {:induction false} DistinctCount<T>(s: seq<T>, i: nat, j: nat)
    requires i < j < |s| && s[i] == s[j]
    ensures multiset(s)[s[i]] >= 2
  {
    assert s == s[..j] + s[j..];
    assert s[i] == s[..j][i] && s[j] == s[j..][0];
  }

  lemma {:induction false} OnceEach<T>(s: seq<T>, k: nat)
    requires k < |s| && forall i :: 0 <= i < |s| && i != k ==> s[i] != s[k]
    ensures multiset(s)[s[k]] == 1
  {
    assert s == s[..k] + [s[k]] + s[k + 1..];
    assert s[k] !in s[..k] && s[k] !in s[k + 1..];
  }

  ghost predicate IsSortOf(scored: seq<Scored>, sorted: seq<Scored>, k: nat) {
    && |sorted| == |scored| && multiset(sorted) == multiset(scored)
    && IsSorted(sorted, Higher()) && IsFirstLeast(scored, Higher(), k) && sorted[0] == scored[k]
  }

  lemma LeadIsWinner(text: string, wanted: Selector, candidates: seq<nat>, scored: seq<Scored>, sorted: seq<Scored>,
                     k: nat)
    requires AreScored(text, wanted, candidates, scored) && |scored| > 1 && IsSortOf(scored, sorted, k)
    requires sorted[0].score > sorted[1].score
    ensures IsWinner(text, wanted, candidates, sorted[0].at)
  {
    hide Score;
    assert candidates[k] in candidates;
    forall d | d in candidates && d != candidates[k]
      ensures Score(text, wanted, d) < Score(text, wanted, candidates[k])
    {
      var i :| 0 <= i < |candidates| && candidates[i] == d;
      assert scored[i] in multiset(sorted);
      var m :| 0 <= m < |sorted| && sorted[m] == scored[i];
      if m > 1 { assert !Higher()(sorted[m], sorted[1]); }
    }
  }

  lemma WinnerLeads(text: string, wanted: Selector, candidates: seq<nat>, scored: seq<Scored>, sorted: seq<Scored>,
                    k: nat)
    requires AreScored(text, wanted, candidates, scored) && |scored| > 1 && IsSortOf(scored, sorted, k)
    requires HasWinner(text, wanted, candidates)
    ensures sorted[0].score > sorted[1].score
  {
    hide Score, Occurs;
    var c :| IsWinner(text, wanted, candidates, c);
    var w :| 0 <= w < |candidates| && candidates[w] == c;
    assert !Higher()(scored[w], scored[k]);
    assert w == k;
    assert sorted[1] in multiset(scored);
    var i :| 0 <= i < |scored| && scored[i] == sorted[1];
    if i == k {
      DistinctCount(sorted, 0, 1);
      OnceEach(scored, k);
      assert false;
    }
    assert candidates[i] in candidates && candidates[i] != c;
  }

  /** The positions of all entries with the given score. */
  function Tied(sorted: seq<Scored>, score: nat): (tied: seq<nat>)
    ensures forall at :: at in tied <==> IsTied(sorted, score, at)
  {
    if sorted == [] then []
    else
      var tied := Tied(sorted[1..], score);
      TiedFront(sorted, score);
      if sorted[0].score == score then [sorted[0].at] + tied else tied
  }

  ghost predicate IsTied(sorted: seq<Scored>, score: nat, at: nat) {
    exists i :: 0 <= i < |sorted| && sorted[i].score == score && sorted[i].at == at
  }

  lemma TiedFront(sorted: seq<Scored>, score: nat)
    requires sorted != []
    ensures forall at ::
      IsTied(sorted, score, at) <==> (sorted[0].score == score && at == sorted[0].at) || IsTied(sorted[1..], score, at)
  {
    forall at
      ensures IsTied(sorted, score, at)
          <==> (sorted[0].score == score && at == sorted[0].at) || IsTied(sorted[1..], score, at)
    {
      if IsTied(sorted[1..], score, at) {
        var i :| 0 <= i < |sorted[1..]| && sorted[1..][i].score == score && sorted[1..][i].at == at;
        assert sorted[i + 1].score == score && sorted[i + 1].at == at;
      }
      if IsTied(sorted, score, at) {
        var i :| 0 <= i < |sorted| && sorted[i].score == score && sorted[i].at == at;
        if i > 0 { assert sorted[1..][i - 1] == sorted[i]; }
      }
    }
  }

  /** The nearest of the ascending positions, the earlier one winning a tie. */
  method Nearest(best: seq<nat>, position: Option<int>) returns (nearest: nat)
    requires best != [] && IsSorted(best, Smaller())
    ensures nearest in best
    ensures forall d :: d in best ==>
      || Distance(position, nearest) < Distance(position, d)
      || (Distance(position, nearest) == Distance(position, d) && nearest <= d)
  {
    hide Distance;
    nearest := best[0];
    if position == None {
      assert Distance(position, nearest) == 0 by { ZeroWithout(best, position); }
      ZeroWithout(best, position);
      assert forall i :: 0 < i < |best| ==> !Smaller()(best[i], best[0]);
      return;
    }
    for i := 1 to |best|
      invariant nearest in best[..i]
      invariant forall j :: 0 <= j < i ==>
        Distance(position, nearest) < Distance(position, best[j])
        || (Distance(position, nearest) == Distance(position, best[j]) && nearest <= best[j])
    {
      assert forall j :: 0 <= j < i ==> !Smaller()(best[i], best[j]);
      if Distance(position, best[i]) < Distance(position, nearest) { nearest := best[i]; }
    }
  }

  lemma ZeroWithout(best: seq<nat>, position: Option<int>)
    requires position == None
    ensures forall d :: Distance(position, d) == 0
  {
  }

  const MOST_POSITIONS: nat := 5000

  /**
   The occurrence that the words and the context single out, among the first
   5001; nothing when a unique one is asked for and there is none.
   */
  method Search(text: string, wanted: Selector, position: Option<int>, requireUnique: bool) returns (found: Option<nat>)
    ensures var candidates := Capped(Occurrences(text, wanted.exact), MOST_POSITIONS + 1);
      && (found.None? <==>
            wanted.exact == "" || candidates == []
            || (requireUnique && |candidates| > 1 && !HasWinner(text, wanted, candidates)))
      && (found.Some? ==> IsBest(text, wanted, position, candidates, found.value))
  {
    hide Score, Sort, Distance, OccurrencesFrom, IsBest, HasWinner, IsWinner, AllOccur, IsIncreasing, AreScored,
         IsSortOf, IsSorted;
    if wanted.exact == "" { return None; }
    var positions := FindPositions(text, wanted.exact, MOST_POSITIONS);
    CappedAreOccurrences(text, wanted.exact, MOST_POSITIONS + 1);
    if |positions| == 0 { return None; }
    if |positions| == 1 {
      OnlyIsBest(text, wanted, position, positions);
      return Some(positions[0]);
    }
    var scored := ScoreNear(text, wanted, positions);
    var sorted := Sort(scored, Higher());
    ghost var k := SortedByScore(text, wanted, positions, scored);
    if sorted[0].score > sorted[1].score {
      LeadIsWinner(text, wanted, positions, scored, sorted, k);
      WinnerIsBest(text, wanted, position, positions, sorted[0].at);
      WinnerExists(text, wanted, positions, sorted[0].at);
      return Some(sorted[0].at);
    }
    if requireUnique {
      if HasWinner(text, wanted, positions) { WinnerLeads(text, wanted, positions, scored, sorted, k); assert false; }
      return None;
    }
    var best := Tied(sorted, sorted[0].score);
    FirstIsTied(sorted);
    var ascending := Sort(best, Smaller());
    AscendingOf(best);
    var nearest := Nearest(ascending, position);
    NearestIsBest(text, wanted, position, positions, scored, sorted, k, nearest);
    return Some(nearest);
  }

  method ScoreNear(text: string, wanted: Selector, candidates: seq<nat>) returns (scored: seq<Scored>)
    requires AllOccur(text, wanted.exact, candidates) && IsIncreasing(candidates, 0)
    ensures AreScored(text, wanted, candidates, scored) && |scored| == |candidates|
  {
    hide Score;
    scored := [];
    for i := 0 to |candidates|
      invariant AreScored(text, wanted, candidates[..i], scored)
    {
      assert candidates[i] in candidates;
      var score := NearScore(text, wanted, candidates[i]);
      scored := scored + [Scored(candidates[i], score, 0)];
    }
    assert candidates[..|candidates|] == candidates;
  }

  lemma SortedByScore(text: string, wanted: Selector, candidates: seq<nat>, scored: seq<Scored>) returns (k: nat)
    requires AreScored(text, wanted, candidates, scored) && scored != []
    ensures |Sort(scored, Higher())| == |scored| == |candidates|
    ensures IsSortOf(scored, Sort(scored, Higher()), k)
  {
    hide Sort, Score, AllOccur, IsIncreasing;
    SortPermutes(scored, Higher());
    SortSorts(scored, Higher());
    k := SortHead(scored, Higher());
  }

  lemma WinnerExists(text: string, wanted: Selector, candidates: seq<nat>, c: nat)
    requires AllOccur(text, wanted.exact, candidates) && IsWinner(text, wanted, candidates, c)
    ensures HasWinner(text, wanted, candidates)
  {
  }

  lemma FirstIsTied(sorted: seq<Scored>)
    requires sorted != []
    ensures Tied(sorted, sorted[0].score) != []
  {
  }

  lemma AscendingOf(best: seq<nat>)
    ensures IsSorted(Sort(best, Smaller()), Smaller())
    ensures best != [] ==> Sort(best, Smaller()) != []
    ensures forall c :: c in Sort(best, Smaller()) <==> c in best
  {
    hide Sort;
    SortPermutes(best, Smaller());
    SortSorts(best, Smaller());
    var ascending := Sort(best, Smaller());
    forall c ensures c in ascending <==> c in best {
      assert c in multiset(ascending) <==> c in multiset(best);
    }
  }

  lemma OnlyIsBest(text: string, wanted: Selector, position: Option<int>, candidates: seq<nat>)
    requires |candidates| == 1 && AllOccur(text, wanted.exact, candidates)
    ensures IsBest(text, wanted, position, candidates, candidates[0])
  {
    hide Score, Distance;
  }

  lemma WinnerIsBest(text: string, wanted: Selector, position: Option<int>, candidates: seq<nat>, c: nat)
    requires AllOccur(text, wanted.exact, candidates) && IsWinner(text, wanted, candidates, c)
    ensures IsBest(text, wanted, position, candidates, c)
  {
    hide Score, Distance;
  }

  lemma NearestIsBest(text: string, wanted: Selector, position: Option<int>, candidates: seq<nat>, scored: seq<Scored>,
                      sorted: seq<Scored>,
                      k: nat, nearest: nat)
    requires AreScored(text, wanted, candidates, scored) && scored != []
    requires IsSortOf(scored, sorted, k)
    requires nearest in Tied(sorted, sorted[0].score)
    requires forall d :: d in Tied(sorted, sorted[0].score) ==>
      || Distance(position, nearest) < Distance(position, d)
      || (Distance(position, nearest) == Distance(position, d) && nearest <= d)
    ensures IsBest(text, wanted, position, candidates, nearest)
  {
    hide Score, Distance, Tied;
    assert IsTied(sorted, sorted[0].score, nearest);
    var n :| 0 <= n < |sorted| && sorted[n].score == sorted[0].score && sorted[n].at == nearest;
    assert sorted[n] in multiset(scored);
    forall d | d in candidates ensures Beats(text, wanted, position, nearest, d) {
      var j :| 0 <= j < |candidates| && candidates[j] == d;
      assert !Higher()(scored[j], scored[k]);
      assert scored[j] in multiset(sorted);
      var m :| 0 <= m < |sorted| && sorted[m] == scored[j];
      if scored[j].score == sorted[0].score { assert IsTied(sorted, sorted[0].score, d); }
    }
  }

  /** What `search` answers when no unique place is asked for. */
  ghost predicate IsSearched(text: string, wanted: Selector, position: Option<int>, found: Option<nat>) {
    var candidates := Capped(Occurrences(text, wanted.exact), MOST_POSITIONS + 1);
    && (found.None? <==> wanted.exact == "" || candidates == [])
    && (found.Some? ==> IsBest(text, wanted, position, candidates, found.value))
  }

  /** What `locateInText` answers. */
  ghost predicate IsLocated(text: string, wanted: Selector, position: Option<int>, located: Option<nat>) {
    && (located.None? <==> wanted.exact == "" || Occurrences(text, wanted.exact) == [])
    && (located.Some? ==> IsBest(text, wanted, position, Occurrences(text, wanted.exact), located.value))
  }

  /** With no more occurrences than `search` looks at, the two locators find the same place. */
  lemma LocatorsAgree(text: string, wanted: Selector, position: Option<int>, found: Option<nat>, located: Option<nat>)
    requires |Occurrences(text, wanted.exact)| <= MOST_POSITIONS + 1
    requires IsSearched(text, wanted, position, found) && IsLocated(text, wanted, position, located)
    ensures found == located
  {
    hide IsBest, Occurrences;
    if found.Some? {
      BestIsUnique(text, wanted, position, Occurrences(text, wanted.exact), found.value, located.value);
    }
  }

  /** Both locators, one after the other. */
  method LocateBothWays(text: string, wanted: Selector, position: Option<int>)
    returns (found: Option<nat>, located: Option<nat>)
    ensures IsSearched(text, wanted, position, found) && IsLocated(text, wanted, position, located)
    ensures |Occurrences(text, wanted.exact)| <= MOST_POSITIONS + 1 ==> found == located
  {
    hide IsBest, Occurrences;
    found := Search(text, wanted, position, false);
    located := LocateInText(text, wanted, position);
    if |Occurrences(text, wanted.exact)| <= MOST_POSITIONS + 1 {
      LocatorsAgree(text, wanted, position, found, located);
    }
  }
}
