/**
 Hunks of a comparison, and hunks close to each other drawn as one change
 (web/src/lib/history.js, `hunks`, `windowAround` and `coalesce`).
 */
module History {
  import opened Whitespace
  import opened SourceEdits
  import opened EditSlices

  // ----- Context windows -----

  /** Words text[start..end], the longest runs without white space, from `at` on. */
  function Words(text: string, at: nat): (words: seq<(nat, nat)>)
    requires at <= |text|
    ensures forall i :: 0 <= i < |words| ==> at <= words[i].0 < words[i].1 <= |text|
    ensures forall i, j :: 0 <= i < j < |words| ==> words[i].1 < words[j].0
    decreases |text| - at
  {
    var start := TrimStart(text, at);
    if start == |text| then []
    else
      var end := WordEnd(text, start);
      var rest := if end == |text| then [] else Words(text, end + 1);
      [(start, end)] + rest
  }

  function WordEnd(text: string, at: nat): (end: nat)
    requires at < |text| && !IsSpace(text[at])
    ensures at < end <= |text|
    ensures forall i :: at <= i < end ==> !IsSpace(text[i])
    ensures end < |text| ==> IsSpace(text[end])
    decreases |text| - at
  {
    if at + 1 < |text| && !IsSpace(text[at + 1]) then WordEnd(text, at + 1) else at + 1
  }

  /** The words that end at or before `start`. */
  function WordsBefore(words: seq<(nat, nat)>, start: nat): seq<(nat, nat)> {
    if words == [] then [] else (if words[0].1 <= start then [words[0]] else []) + WordsBefore(words[1..], start)
  }

  function WordsAfter(words: seq<(nat, nat)>, end: nat): seq<(nat, nat)> {
    if words == [] then [] else (if words[0].0 >= end then [words[0]] else []) + WordsAfter(words[1..], end)
  }

  lemma {:induction false} WordsBeforeIn(words: seq<(nat, nat)>, start: nat, k: nat)
    requires k < |WordsBefore(words, start)|
    ensures WordsBefore(words, start)[k] in words && WordsBefore(words, start)[k].1 <= start
  {
    var kept := if words[0].1 <= start then 1 else 0;
    if k >= kept { WordsBeforeIn(words[1..], start, k - kept); }
  }

  lemma {:induction false} WordsAfterIn(words: seq<(nat, nat)>, end: nat, k: nat)
    requires k < |WordsAfter(words, end)|
    ensures WordsAfter(words, end)[k] in words && WordsAfter(words, end)[k].0 >= end
  {
    var kept := if words[0].0 >= end then 1 else 0;
    if k >= kept { WordsAfterIn(words[1..], end, k - kept); }
  }

  /** Where the context in front of `start` begins: up to `context` words back. */
  function ContextFrom(text: string, start: nat, context: nat): (from: nat)
    requires start <= |text|
    ensures from <= start
  {
    var left := WordsBefore(Words(text, 0), start);
    if left == [] then 0
    else
      // No context at all asks for the whole list, as a slice from minus zero does.
      var k := if |left| > context > 0 then |left| - context else 0;
      WordsBeforeIn(Words(text, 0), start, k);
      left[k].0
  }

  /** Where the context behind `end` ends: up to `context` words on. */
  function ContextTo(text: string, end: nat, context: nat): (to: nat)
    requires end <= |text|
    ensures end <= to <= |text|
  {
    var right := WordsAfter(Words(text, 0), end);
    var k := if |right| > context then context else |right|;
    if k == 0 then |text|
    else
      WordsAfterIn(Words(text, 0), end, k - 1);
      right[k - 1].1
  }

  // ----- What a context window is -----

  /** A longest run without white space. */
  ghost predicate IsWord(text: string, w: (nat, nat)) {
    && w.0 < w.1 <= |text| && (forall i :: w.0 <= i < w.1 ==> !IsSpace(text[i]))
    && (w.0 > 0 ==> IsSpace(text[w.0 - 1])) && (w.1 < |text| ==> IsSpace(text[w.1]))
  }

  ghost predicate InOrder(words: seq<(nat, nat)>) { forall i, j :: 0 <= i < j < |words| ==> words[i].1 <= words[j].0 }

  /** The list holds exactly the words that end at or before `start`, in order. */
  ghost predicate AreBefore(text: string, start: nat, words: seq<(nat, nat)>) {
    InOrder(words) && forall w: (nat, nat) :: w in words <==> IsWord(text, w) && w.1 <= start
  }

  /** The list holds exactly the words that begin at or behind `end`, in order. */
  ghost predicate AreAfter(text: string, end: nat, words: seq<(nat, nat)>) {
    InOrder(words) && forall w: (nat, nat) :: w in words <==> IsWord(text, w) && w.0 >= end
  }

  lemma {:induction false} WordsAreAll(text: string, at: nat, w: (nat, nat))
    requires at <= |text| && (at == 0 || IsSpace(text[at - 1]))
    ensures w in Words(text, at) <==> IsWord(text, w) && w.0 >= at
    decreases |text| - at
  {
    hide IsSpace, IsWord, Words;
    var start := TrimStart(text, at);
    if start < |text| {
      var end := WordEnd(text, start);
      if end < |text| { WordsAreAll(text, end + 1, w); }
      FirstWord(text, at, start, end, w);
      WordsStep(text, at, start, end);
    } else {
      NoWords(text, at, w);
    }
  }

  lemma NoWords(text: string, at: nat, w: (nat, nat))
    requires at <= |text| && TrimStart(text, at) == |text|
    ensures !(IsWord(text, w) && w.0 >= at) && Words(text, at) == []
  {
    hide IsSpace;
    if IsWord(text, w) { assert !IsSpace(text[w.0]); }
  }

  lemma WordsStep(text: string, at: nat, start: nat, end: nat)
    requires at <= |text| && start == TrimStart(text, at) < |text| && end == WordEnd(text, start)
    ensures Words(text, at) == [(start, end)] + if end == |text| then [] else Words(text, end + 1)
  {
  }

  lemma FirstWord(text: string, at: nat, start: nat, end: nat, w: (nat, nat))
    requires at <= start < end <= |text| && (at == 0 || IsSpace(text[at - 1]))
    requires (forall k :: at <= k < start ==> IsSpace(text[k])) && (forall k :: start <= k < end ==> !IsSpace(text[k]))
    requires end < |text| ==> IsSpace(text[end])
    ensures IsWord(text, w) && w.0 >= at <==> w == (start, end) || (IsWord(text, w) && w.0 > end)
    ensures end == |text| ==> !(IsWord(text, w) && w.0 > end)
  {
    hide IsSpace;
    if IsWord(text, w) && w.0 >= at {
      assert !IsSpace(text[w.0]) && w.0 >= start;
      assert w.0 > 0 ==> IsSpace(text[w.0 - 1]);
      assert w.0 == start || w.0 > end;
      assert w.1 < |text| ==> IsSpace(text[w.1]);
      assert w.0 == start && end < |text| ==> w.1 <= end;
    }
  }

  lemma FirstIsFirst(words: seq<(nat, nat)>)
    requires words != [] && InOrder(words)
    ensures words == [words[0]] + words[1..] && InOrder(words[1..])
    ensures forall w :: w in words[1..] ==> words[0].1 <= w.0
  {
    var rest := words[1..];
    forall w | w in rest ensures words[0].1 <= w.0 {
      var j :| 0 <= j < |rest| && rest[j] == w;
      assert words[j + 1] == w;
    }
  }

  lemma FirstInOrder(w: (nat, nat), rest: seq<(nat, nat)>)
    requires InOrder(rest) && forall x :: x in rest ==> w.1 <= x.0
    ensures InOrder([w] + rest) && [] + rest == rest
  {
    var all := [w] + rest;
    assert forall j :: 0 < j < |all| ==> all[j] == rest[j - 1];
    forall i, j | 0 <= i < j < |all| ensures all[i].1 <= all[j].0 {
      if i == 0 { assert rest[j - 1] in rest; }
    }
  }

  lemma {:induction false} WordsBeforeAre(words: seq<(nat, nat)>, start: nat)
    requires InOrder(words)
    ensures InOrder(WordsBefore(words, start))
    ensures forall w :: w in WordsBefore(words, start) <==> w in words && w.1 <= start
  {
    if words != [] {
      var rest := words[1..];
      FirstIsFirst(words);
      WordsBeforeAre(rest, start);
      FirstInOrder(words[0], WordsBefore(rest, start));
      hide InOrder;
    }
  }

  lemma {:induction false} WordsAfterAre(words: seq<(nat, nat)>, end: nat)
    requires InOrder(words)
    ensures InOrder(WordsAfter(words, end))
    ensures forall w :: w in WordsAfter(words, end) <==> w in words && w.0 >= end
  {
    if words != [] {
      var rest := words[1..];
      FirstIsFirst(words);
      WordsAfterAre(rest, end);
      FirstInOrder(words[0], WordsAfter(rest, end));
      hide InOrder;
    }
  }

  lemma WordsOf(text: string)
    ensures InOrder(Words(text, 0)) && forall w :: w in Words(text, 0) <==> IsWord(text, w)
  {
    hide IsSpace, IsWord;
    forall w ensures w in Words(text, 0) <==> IsWord(text, w) { WordsAreAll(text, 0, w); }
  }

  lemma LeftWords(text: string, start: nat)
    ensures AreBefore(text, start, WordsBefore(Words(text, 0), start))
  {
    hide Words, WordsBefore, IsWord, InOrder;
    WordsOf(text);
    WordsBeforeAre(Words(text, 0), start);
  }

  lemma RightWords(text: string, end: nat)
    ensures AreAfter(text, end, WordsAfter(Words(text, 0), end))
  {
    hide Words, WordsAfter, IsWord, InOrder;
    WordsOf(text);
    WordsAfterAre(Words(text, 0), end);
  }

  /** The context in front begins `context` words back, or with the first word when there are no more. */
  lemma ContextFromMeans(text: string, start: nat, context: nat) returns (left: seq<(nat, nat)>)
    requires start <= |text|
    ensures AreBefore(text, start, left)
    ensures ContextFrom(text, start, context)
         == if left == [] then 0 else if 0 < context <= |left| then left[|left| - context].0 else left[0].0
  {
    hide Words, WordsBefore, AreBefore;
    left := WordsBefore(Words(text, 0), start);
    LeftWords(text, start);
  }

  /** The context behind ends `context` words on, or with the text when there is none to give. */
  lemma ContextToMeans(text: string, end: nat, context: nat) returns (right: seq<(nat, nat)>)
    requires end <= |text|
    ensures AreAfter(text, end, right)
    ensures ContextTo(text, end, context)
         == if right == [] || context == 0 then |text|
            else if context <= |right| then right[context - 1].1 else right[|right| - 1].1
  {
    hide Words, WordsAfter, AreAfter;
    right := WordsAfter(Words(text, 0), end);
    RightWords(text, end);
  }

  // ----- Hunks -----

  /** One edit with its place in the new text and the new text around it. */
  datatype Hunk = Hunk(position: nat, was: string, insert: string, before: string, after: string)
  {
    function End(): nat { position + |insert| }
  }

  function HunkAt(was: string, now: string, edits: seq<Edit<char>>, context: nat, k: nat): Hunk
    requires Fits(edits, |was|) && now == Apply(was, edits) && k < |edits|
  {
    InsertInRange(was, edits, k);
    var at, end := NewOffset(edits, k), NewOffset(edits, k) + |edits[k].insert|;
    Hunk(at, was[edits[k].at..edits[k].End()], edits[k].insert, now[ContextFrom(now, at, context)..at],
      now[end..ContextTo(now, end, context)])
  }

  function Hunks(was: string, now: string, edits: seq<Edit<char>>, context: nat): (hunks: seq<Hunk>)
    requires Fits(edits, |was|) && now == Apply(was, edits)
    ensures |hunks| == |edits|
  {
    seq(|edits|, k requires 0 <= k < |edits| => HunkAt(was, now, edits, context, k))
  }

  // ----- Groups -----

  datatype Part = Keep(text: string) | Change(was: string, insert: string)

  datatype Group = Group(position: nat, length: int, before: string, after: string, parts: seq<Part>, hunks: seq<Hunk>)

  /** Hunk i begins inside the trailing context of the one before. */
  predicate Joins(hunks: seq<Hunk>, i: nat)
    requires 0 < i < |hunks|
  {
    0 <= hunks[i].position - hunks[i - 1].End() <= |hunks[i - 1].after|
  }

  /** The pieces of hunks lo..hi, with the text kept between them. */
  function PartsOf(hunks: seq<Hunk>, lo: nat, hi: nat): seq<Part>
    requires lo < hi <= |hunks|
    requires forall i :: lo < i < hi ==> Joins(hunks, i)
  {
    var change := Change(hunks[hi - 1].was, hunks[hi - 1].insert);
    if hi == lo + 1 then [change]
    else
      assert Joins(hunks, hi - 1);
      var gap := hunks[hi - 1].position - hunks[hi - 2].End();
      PartsOf(hunks, lo, hi - 1) + (if gap > 0 then [Keep(hunks[hi - 2].after[..gap])] else []) + [change]
  }

  /** The group of hunks lo..hi: a longest run of hunks that join. */
  ghost predicate IsGroup(hunks: seq<Hunk>, lo: nat, hi: nat, group: Group) {
    && lo < hi <= |hunks|
    && (lo > 0 ==> !Joins(hunks, lo))
    && (forall i :: lo < i < hi ==> Joins(hunks, i))
    && group.hunks == hunks[lo..hi]
    && group.position == hunks[lo].position && group.length == hunks[hi - 1].End() - hunks[lo].position
    && group.before == hunks[lo].before && group.after == hunks[hi - 1].after
    && group.parts == PartsOf(hunks, lo, hi)
  }

  /** The groups follow one another: group g has hunks starts[g]..starts[g + 1]. */
  ghost predicate IsGrouping(hunks: seq<Hunk>, groups: seq<Group>, starts: seq<nat>, upTo: nat) {
    && |starts| == |groups| + 1 && starts[0] == 0 && starts[|groups|] == upTo <= |hunks|
    && forall g :: 0 <= g < |groups| ==> IsGroup(hunks, starts[g], starts[g + 1], groups[g])
  }

  function Concatenated(groups: seq<Group>): seq<Hunk> {
    if groups == [] then [] else Concatenated(groups[..|groups| - 1]) + groups[|groups| - 1].hunks
  }

  lemma {:induction false} GroupingConcatenates(hunks: seq<Hunk>, groups: seq<Group>, starts: seq<nat>, upTo: nat)
    requires IsGrouping(hunks, groups, starts, upTo)
    ensures Concatenated(groups) == hunks[..upTo]
    decreases |groups|
  {
    hide Joins, PartsOf;
    if groups != [] {
      var g := |groups| - 1;
      GroupingConcatenates(hunks, groups[..g], starts[..g + 1], starts[g]);
      assert IsGroup(hunks, starts[g], starts[g + 1], groups[g]);
      assert hunks[..starts[g]] + hunks[starts[g]..upTo] == hunks[..upTo];
    }
  }

  lemma NewGroup(hunks: seq<Hunk>, groups: seq<Group>, starts: seq<nat>, k: nat)
    requires IsGrouping(hunks, groups, starts, k) && k < |hunks| && (k > 0 ==> !Joins(hunks, k))
    ensures var h := hunks[k];
      IsGrouping(hunks, groups + [Group(h.position, |h.insert|, h.before, h.after, [Change(h.was, h.insert)], [h])],
        starts + [k + 1], k + 1)
  {
    var h := hunks[k];
    var added := Group(h.position, |h.insert|, h.before, h.after, [Change(h.was, h.insert)], [h]);
    assert IsGroup(hunks, k, k + 1, added);
    var all, starts' := groups + [added], starts + [k + 1];
    forall g | 0 <= g < |all| ensures IsGroup(hunks, starts'[g], starts'[g + 1], all[g]) {
      if g < |groups| { assert IsGroup(hunks, starts[g], starts[g + 1], groups[g]); }
    }
  }

  /** The last group with one more hunk. */
  function Joined(group: Group, keep: string, h: Hunk): Group {
    group.(length := h.End() - group.position, after := h.after, hunks := group.hunks + [h],
           parts := group.parts + (if keep != "" then [Keep(keep)] else []) + [Change(h.was, h.insert)])
  }

  lemma GrownGroup(hunks: seq<Hunk>, groups: seq<Group>, starts: seq<nat>, k: nat)
    requires IsGrouping(hunks, groups, starts, k) && 0 < k < |hunks| && groups != [] && Joins(hunks, k)
    ensures var last, keep := |groups| - 1, hunks[k - 1].after[..hunks[k].position - hunks[k - 1].End()];
      IsGrouping(hunks, groups[last := Joined(groups[last], keep, hunks[k])], starts[last + 1 := k + 1], k + 1)
  {
    var last, keep := |groups| - 1, hunks[k - 1].after[..hunks[k].position - hunks[k - 1].End()];
    var lo, grown := starts[last], Joined(groups[last], keep, hunks[k]);
    assert IsGroup(hunks, lo, k, groups[last]);
    assert hunks[lo..k] + [hunks[k]] == hunks[lo..k + 1];
    assert IsGroup(hunks, lo, k + 1, grown);
    var all, starts' := groups[last := grown], starts[last + 1 := k + 1];
    forall g | 0 <= g < |all| ensures IsGroup(hunks, starts'[g], starts'[g + 1], all[g]) {
      if g < last { assert IsGroup(hunks, starts[g], starts[g + 1], groups[g]); }
    }
  }

  lemma LastGroupEnds(hunks: seq<Hunk>, groups: seq<Group>, starts: seq<nat>, k: nat)
    requires IsGrouping(hunks, groups, starts, k)
    ensures groups == [] <==> k == 0
    ensures |starts| == |groups| + 1
    ensures groups != [] ==>
      var last := groups[|groups| - 1];
      0 < k <= |hunks| && last.position + last.length == hunks[k - 1].End() && last.after == hunks[k - 1].after
  {
    if groups != [] { assert IsGroup(hunks, starts[|groups| - 1], k, groups[|groups| - 1]); }
  }

  ghost predicate AreGroups(hunks: seq<Hunk>, groups: seq<Group>) {
    exists starts :: IsGrouping(hunks, groups, starts, |hunks|)
  }

  /** Hunks that belong to one passage, read as one change. */
  method Coalesce(hunks: seq<Hunk>) returns (groups: seq<Group>)
    ensures AreGroups(hunks, groups)
    ensures Concatenated(groups) == hunks
  {
    hide IsGrouping, IsGroup;
    groups := [];
    ghost var starts: seq<nat> := [0];
    NoGroups(hunks);
    for k := 0 to |hunks|
      invariant IsGrouping(hunks, groups, starts, k)
    {
      var hunk := hunks[k];
      LastGroupEnds(hunks, groups, starts, k);
      if groups != [] {
        var last := groups[|groups| - 1];
        var gap := hunk.position - (last.position + last.length);
        if 0 <= gap <= |last.after| {
          GrownGroup(hunks, groups, starts, k);
          starts := starts[|groups| := k + 1];
          groups := groups[|groups| - 1 := Joined(last, last.after[..gap], hunk)];
          continue;
        }
      }
      NewGroup(hunks, groups, starts, k);
      starts := starts + [k + 1];
      groups := groups + [Group(hunk.position, |hunk.insert|, hunk.before, hunk.after,
        [Change(hunk.was, hunk.insert)], [hunk])];
    }
    GroupingConcatenates(hunks, groups, starts, |hunks|);
    assert hunks[..|hunks|] == hunks;
  }

  lemma NoGroups(hunks: seq<Hunk>)
    ensures IsGrouping(hunks, [], [0], 0)
  {
  }

  // ----- What a group spells -----

  function NewSide(parts: seq<Part>): string {
    if parts == [] then ""
    else
      var last := parts[|parts| - 1];
      NewSide(parts[..|parts| - 1]) + match last case Keep(text) => text case Change(_, insert) => insert
  }

  function OldSide(parts: seq<Part>): string {
    if parts == [] then ""
    else
      var last := parts[|parts| - 1];
      OldSide(parts[..|parts| - 1]) + match last case Keep(text) => text case Change(was, _) => was
  }

  lemma SidesGrow(parts: seq<Part>, keep: string, change: Part)
    requires change.Change?
    ensures var all := parts + (if keep != "" then [Keep(keep)] else []) + [change];
      NewSide(all) == NewSide(parts) + keep + change.insert && OldSide(all) == OldSide(parts) + keep + change.was
  {
    var most := parts + if keep != "" then [Keep(keep)] else [];
    var all := most + [change];
    assert all[..|all| - 1] == most;
    if keep != "" { assert most[..|most| - 1] == parts; } else { assert most == parts; }
  }

  lemma HunkEnds(was: string, now: string, edits: seq<Edit<char>>, context: nat, k: nat)
    requires Fits(edits, |was|) && now == Apply(was, edits) && k < |edits|
    ensures var hunk := Hunks(was, now, edits, context)[k];
      && hunk.position == NewOffset(edits, k) && hunk.End() == edits[k].End() + Growth(edits[..k + 1]) <= |now|
      && hunk.after == now[hunk.End()..ContextTo(now, hunk.End(), context)]
  {
    InsertInRange(was, edits, k);
    assert edits[..k + 1][..k] == edits[..k];
    hide Apply, Fits, ContextTo, ContextFrom;
  }

  lemma FrontOfContext(now: string, from: nat, to: nat, gap: nat)
    requires from <= to <= |now| && gap <= to - from
    ensures now[from..to][..gap] == now[from..from + gap]
  {
  }

  /** The start of the trailing context up to the next hunk is the unchanged text between the two edits. */
  lemma GapIsKept(was: string, now: string, edits: seq<Edit<char>>, context: nat, k: nat)
    requires Fits(edits, |was|) && now == Apply(was, edits) && 0 < k < |edits|
    requires Joins(Hunks(was, now, edits, context), k)
    ensures var hunks := Hunks(was, now, edits, context);
      var keep := hunks[k - 1].after[..hunks[k].position - hunks[k - 1].End()];
      IsSlice(now, hunks[k - 1].End(), hunks[k].position, keep) && IsSlice(was, edits[k - 1].End(), edits[k].at, keep)
  {
    hide *;
    var hunks := Hunks(was, now, edits, context);
    var from, at, moved := edits[k - 1].End(), edits[k].at, Growth(edits[..k]);
    GapStands(was, edits, k);
    HunkEnds(was, now, edits, context, k - 1);
    HunkEnds(was, now, edits, context, k);
    OffsetIs(edits, k);
    JoinsMeans(hunks, k);
    KeptGap(was, now, from, at, moved, hunks[k - 1], hunks[k], ContextTo(now, hunks[k - 1].End(), context));
  }

  lemma JoinsMeans(hunks: seq<Hunk>, k: nat)
    requires 0 < k < |hunks| && Joins(hunks, k)
    ensures 0 <= hunks[k].position - hunks[k - 1].End() <= |hunks[k - 1].after|
  {
  }

  lemma OffsetIs(edits: seq<Edit<char>>, k: nat)
    requires k < |edits|
    ensures NewOffset(edits, k) == edits[k].at + Growth(edits[..k])
  {
  }

  lemma KeptGap(was: string, now: string, from: nat, at: nat, moved: int, h: Hunk, next: Hunk, to: nat)
    requires from <= at <= |was| && IsSlice(now, from + moved, at + moved, was[from..at])
    requires h.End() == from + moved && next.position == at + moved && h.End() <= to <= |now|
    requires h.after == now[h.End()..to]
    requires next.position - h.End() <= |h.after|
    ensures var keep := h.after[..next.position - h.End()];
      IsSlice(now, h.End(), next.position, keep) && IsSlice(was, from, at, keep)
  {
    FrontOfContext(now, h.End(), to, next.position - h.End());
  }

  /** The stretch between two edits stands unchanged in the new text. */
  lemma GapStands(was: string, edits: seq<Edit<char>>, k: nat)
    requires Fits(edits, |was|) && 0 < k < |edits|
    ensures edits[k - 1].End() <= edits[k].at <= |was|
    ensures IsSlice(Apply(was, edits), edits[k - 1].End() + Growth(edits[..k]), edits[k].at + Growth(edits[..k]),
                    was[edits[k - 1].End()..edits[k].at])
  {
    var from, at := edits[k - 1].End(), edits[k].at;
    assert Between(edits, k, from) && Between(edits, k, at);
    hide Apply, Growth, IsSlice;
    GapMoves(was, edits, k, from, at);
  }

  lemma ChangeStands(was: string, now: string, edits: seq<Edit<char>>, context: nat, k: nat)
    requires Fits(edits, |was|) && now == Apply(was, edits) && k < |edits|
    ensures var hunk := HunkAt(was, now, edits, context, k);
      && hunk == Hunks(was, now, edits, context)[k]
      && IsSlice(now, hunk.position, hunk.End(), hunk.insert) && IsSlice(was, edits[k].at, edits[k].End(), hunk.was)
  {
    InsertStands(was, edits, k);
    hide Apply, NewOffset, ContextTo, ContextFrom;
  }

  /** Hunks lo..hi, drawn as one change, spell the new text on one side and the old text on the other. */
  lemma {:induction false} PartsSpell(was: string, now: string, edits: seq<Edit<char>>, context: nat, lo: nat, hi: nat)
    requires Fits(edits, |was|) && now == Apply(was, edits) && lo < hi <= |edits|
    requires var hunks := Hunks(was, now, edits, context); forall i :: lo < i < hi ==> Joins(hunks, i)
    ensures var hunks := Hunks(was, now, edits, context);
      && IsSlice(now, hunks[lo].position, hunks[hi - 1].End(), NewSide(PartsOf(hunks, lo, hi)))
      && IsSlice(was, edits[lo].at, edits[hi - 1].End(), OldSide(PartsOf(hunks, lo, hi)))
    decreases hi
  {
    hide Fits, Apply, HunkAt, Hunks, IsSlice, NewSide, OldSide, Joins;
    var hunks, k := Hunks(was, now, edits, context), hi - 1;
    ChangeStands(was, now, edits, context, k);
    var change := Change(hunks[k].was, hunks[k].insert);
    if lo == k {
      SidesGrow([], "", change);
      assert NewSide([]) == "" == OldSide([]) by { NoSides(); }
      assert PartsOf(hunks, lo, hi) == [] + [] + [change];
      assert "" + "" + change.insert == hunks[k].insert && "" + "" + change.was == hunks[k].was;
    } else {
      assert Joins(hunks, k);
      PartsSpell(was, now, edits, context, lo, k);
      GapIsKept(was, now, edits, context, k);
      ChangeStands(was, now, edits, context, k - 1);
      var gap := GapOf(hunks, k);
      var parts, keep := PartsOf(hunks, lo, k), hunks[k - 1].after[..gap];
      SidesGrow(parts, keep, change);
      SlicesJoin(now, hunks[lo].position, hunks[k - 1].End(), hunks[k].position, NewSide(parts), keep);
      SlicesJoin(now, hunks[lo].position, hunks[k].position, hunks[k].End(), NewSide(parts) + keep, change.insert);
      SlicesJoin(was, edits[lo].at, edits[k - 1].End(), edits[k].at, OldSide(parts), keep);
      SlicesJoin(was, edits[lo].at, edits[k].at, edits[k].End(), OldSide(parts) + keep, change.was);
      assert PartsOf(hunks, lo, hi) == parts + (if keep != "" then [Keep(keep)] else []) + [change];
    }
  }

  lemma NoSides()
    ensures NewSide([]) == "" && OldSide([]) == ""
  {
  }

  function GapOf(hunks: seq<Hunk>, k: nat): (gap: nat)
    requires 0 < k < |hunks| && Joins(hunks, k)
    ensures gap == hunks[k].position - hunks[k - 1].End() && gap <= |hunks[k - 1].after|
  {
    hunks[k].position - hunks[k - 1].End()
  }

  ghost predicate GroupSpells(was: string, now: string, edits: seq<Edit<char>>, lo: nat, hi: nat, group: Group) {
    && lo < hi <= |edits|
    && IsSlice(now, group.position, group.position + group.length, NewSide(group.parts))
    && IsSlice(was, edits[lo].at, edits[hi - 1].End(), OldSide(group.parts))
  }

  ghost predicate GroupsSpell(was: string, now: string, edits: seq<Edit<char>>, groups: seq<Group>, starts: seq<nat>) {
    && |starts| == |groups| + 1 && starts[0] == 0 && starts[|groups|] == |edits|
    && forall g :: 0 <= g < |groups| ==> GroupSpells(was, now, edits, starts[g], starts[g + 1], groups[g])
  }

  /** Coalescing the hunks of a comparison loses nothing: every group gives back both texts over its stretch. */
  lemma CoalesceRoundTrips(was: string, now: string, edits: seq<Edit<char>>, context: nat, groups: seq<Group>)
    requires Fits(edits, |was|) && now == Apply(was, edits) && AreGroups(Hunks(was, now, edits, context), groups)
    ensures exists starts ::
      && IsGrouping(Hunks(was, now, edits, context), groups, starts, |edits|)
      && GroupsSpell(was, now, edits, groups, starts)
  {
    hide Fits, Apply, HunkAt, IsSlice, NewSide, OldSide, Joins, PartsOf;
    var hunks := Hunks(was, now, edits, context);
    var starts :| IsGrouping(hunks, groups, starts, |hunks|);
    forall g | 0 <= g < |groups| ensures GroupSpells(was, now, edits, starts[g], starts[g + 1], groups[g]) {
      assert IsGroup(hunks, starts[g], starts[g + 1], groups[g]);
      PartsSpell(was, now, edits, context, starts[g], starts[g + 1]);
    }
    assert GroupsSpell(was, now, edits, groups, starts);
  }
}
