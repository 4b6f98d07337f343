/**
 Re-anchoring a selector (web/src/lib/anchor.js): first by its exact words,
 then with white space flattened on both sides and the hit mapped back.
 */
module Anchoring {
  import opened Basics
  import opened Whitespace
  import opened TextSearch

  // ----- The flattened view -----

  /** A character that the flattened view keeps: any other than white space, and the first white space after one. */
  predicate IsKept(text: string, i: nat) {
    i < |text| && (!IsSpace(text[i]) || (i > 0 && !IsSpace(text[i - 1])))
  }

  /** The offsets of the kept characters. */
  function KeptMap(text: string): (map_: seq<nat>)
    ensures forall k :: 0 <= k < |map_| ==> map_[k] < |text|
  {
    if text == "" then []
    else
      var front := KeptMap(text[..|text| - 1]);
      if IsKept(text, |text| - 1) then front + [|text| - 1] else front
  }

  function Shown(c: char): char { if IsSpace(c) then ' ' else c }

  /** The flattened text. */
  function View(text: string): (view: string)
    ensures |view| == |KeptMap(text)|
    ensures forall k :: 0 <= k < |view| ==> view[k] == Shown(text[KeptMap(text)[k]])
  {
    seq(|KeptMap(text)|, k requires 0 <= k < |KeptMap(text)| => Shown(text[KeptMap(text)[k]]))
  }

  /** The map is strictly increasing and lists exactly the kept offsets. */
  lemma {:induction false} MapIsExact(text: string)
    ensures IsIncreasing(KeptMap(text), 0)
    ensures forall i: nat :: i in KeptMap(text) <==> IsKept(text, i)
  {
    if text != "" {
      var front := text[..|text| - 1];
      MapIsExact(front);
      forall i: nat | i < |front| ensures IsKept(text, i) == IsKept(front, i) {}
    }
  }

  /** One more character, kept or not. */
  lemma ViewGrows(text: string, i: nat)
    requires i < |text|
    ensures var kept := IsKept(text[..i + 1], i);
      && KeptMap(text[..i + 1]) == KeptMap(text[..i]) + (if kept then [i] else [])
      && View(text[..i + 1]) == View(text[..i]) + (if kept then [Shown(text[i])] else "")
  {
    assert text[..i + 1][..i] == text[..i];
  }

  method Flatten(text: string) returns (view: string, map_: seq<nat>)
    ensures view == View(text) && map_ == KeptMap(text)
  {
    hide KeptMap, View;
    view, map_ := "", [];
    NothingKept();
    var space := false;
    for i := 0 to |text|
      invariant map_ == KeptMap(text[..i]) && view == View(text[..i]) && |view| == |map_|
      invariant space <==> map_ != [] && IsSpace(text[i - 1])
      invariant map_ == [] <==> forall j :: 0 <= j < i ==> IsSpace(text[j])
    {
      ViewGrows(text, i);
      if IsSpace(text[i]) {
        if !space && view != "" {
          view, map_, space := view + [' '], map_ + [i], true;
        }
        continue;
      }
      view, map_, space := view + [text[i]], map_ + [i], false;
    }
    assert text[..|text|] == text;
  }

  lemma NothingKept()
    ensures KeptMap("") == [] && View("") == ""
  {
  }

  // ----- The flattened quotation -----

  /** Every run of white space as one space. */
  function Collapse(s: string): string {
    if s == "" then ""
    else
      var front, last := s[..|s| - 1], s[|s| - 1];
      if IsSpace(last) && front != "" && IsSpace(front[|front| - 1]) then Collapse(front)
        else Collapse(front) + [Shown(last)]
  }

  function Flat(s: string): string { Trim(Collapse(s)) }

  /** The two ways of flattening differ only in what white space at the ends becomes. */
  lemma {:induction false} CollapseIsView(s: string)
    ensures Collapse(s) == (if s != "" && IsSpace(s[0]) then " " else "") + View(s)
  {
    if s != "" {
      var front, last := s[..|s| - 1], |s| - 1;
      CollapseIsView(front);
      if IsKept(s, last) {
        assert View(s) == View(front) + [Shown(s[last])];
      } else {
        assert View(s) == View(front);
      }
    }
  }

  ghost predicate HasInkEnds(s: string) { s != "" && !IsSpace(s[0]) && !IsSpace(s[|s| - 1]) }

  lemma TrimKeeps(s: string)
    requires HasInkEnds(s)
    ensures Trim(s) == s
  {
    assert s[0..|s|] == s;
  }

  lemma FlatHasInkEnds(s: string)
    ensures Flat(s) != "" ==> HasInkEnds(Flat(s))
  {
    hide Collapse;
    var c := Collapse(s);
    var from := TrimStart(c, 0);
    var to := TrimEnd(c, from, |c|);
    if from < to { assert Flat(s)[0] == c[from] && Flat(s)[to - from - 1] == c[to - 1]; }
  }

  lemma ViewEnds(s: string)
    requires HasInkEnds(s)
    ensures HasInkEnds(View(s))
  {
    MapIsExact(s);
    var kept := KeptMap(s);
    assert IsKept(s, 0) && IsKept(s, |s| - 1);
    var i :| 0 <= i < |kept| && kept[i] == 0;
    var j :| 0 <= j < |kept| && kept[j] == |s| - 1;
    assert i == 0 && j == |kept| - 1;
    assert View(s)[0] == Shown(s[0]) && View(s)[|kept| - 1] == Shown(s[|s| - 1]);
  }

  /** On text without white space at its ends both ways of flattening agree. */
  lemma FlatIsView(s: string)
    requires HasInkEnds(s)
    ensures Flat(s) == View(s)
  {
    CollapseIsView(s);
    ViewEnds(s);
    hide View, Trim, Collapse;
    TrimKeeps(View(s));
  }

  // ----- Slices of the view -----

  /** The kept characters before number k are the map up to k. */
  lemma {:induction false} MapOfFront(text: string, k: nat)
    requires k < |KeptMap(text)|
    ensures KeptMap(text[..KeptMap(text)[k]]) == KeptMap(text)[..k]
    ensures KeptMap(text[..KeptMap(text)[k] + 1]) == KeptMap(text)[..k + 1]
  {
    var front := text[..|text| - 1];
    if k < |KeptMap(front)| {
      var at := KeptMap(text)[k];
      assert at == KeptMap(front)[k] && front[..at] == text[..at] && front[..at + 1] == text[..at + 1];
      MapOfFront(front, k);
    } else {
      assert text[..KeptMap(text)[k] + 1] == text;
    }
  }

  function Shifted(map_: seq<nat>, n: nat): seq<nat> { seq(|map_|, k requires 0 <= k < |map_| => map_[k] + n) }

  /** What a slice that does not start with white space keeps, the text keeps there. */
  lemma {:induction false} MapOfSlice(text: string, s: nat, e: nat)
    requires s < e <= |text| && !IsSpace(text[s])
    ensures KeptMap(text[..e]) == KeptMap(text[..s]) + Shifted(KeptMap(text[s..e]), s)
    decreases e
  {
    hide IsSpace;
    assert text[..e][..e - 1] == text[..e - 1] && text[s..e][..e - s - 1] == text[s..e - 1];
    if e - 1 > s {
      MapOfSlice(text, s, e - 1);
    } else {
      assert text[s..s] == "" && KeptMap("") == [];
    }
    assert IsKept(text[..e], e - 1) == IsKept(text[s..e], e - 1 - s);
  }

  /** The kept offsets i..j are those of the slice between them. */
  lemma MapBetween(text: string, i: nat, j: nat)
    requires i < j <= |KeptMap(text)| && !IsSpace(text[KeptMap(text)[i]])
    ensures var s, e := KeptMap(text)[i], KeptMap(text)[j - 1] + 1;
      s < e <= |text| && Shifted(KeptMap(text[s..e]), s) == KeptMap(text)[i..j]
  {
    hide *;
    MapSpans(text, i, j);
    var kept := KeptMap(text);
    var s, e := kept[i], kept[j - 1] + 1;
    MapOfFront(text, i);
    MapOfFront(text, j - 1);
    MapOfSlice(text, s, e);
    DropSame(kept, Shifted(KeptMap(text[s..e]), s), i, j);
  }

  lemma MapSpans(text: string, i: nat, j: nat)
    requires i < j <= |KeptMap(text)|
    ensures KeptMap(text)[i] < KeptMap(text)[j - 1] + 1 <= |text|
  {
    MapIsExact(text);
    hide KeptMap;
  }

  lemma DropSame(kept: seq<nat>, inner: seq<nat>, i: nat, j: nat)
    requires i <= j <= |kept| && kept[..j] == kept[..i] + inner
    ensures inner == kept[i..j]
  {
    assert kept[..j][i..] == kept[i..j] && (kept[..i] + inner)[i..] == inner;
  }

  lemma ViewBetween(text: string, i: nat, j: nat, s: nat, e: nat)
    requires i <= j <= |KeptMap(text)| && s <= e <= |text|
    requires Shifted(KeptMap(text[s..e]), s) == KeptMap(text)[i..j]
    ensures View(text[s..e]) == View(text)[i..j]
  {
    hide KeptMap, Shown;
    var slice := text[s..e];
    var kept, inner := KeptMap(text), KeptMap(slice);
    assert |inner| == |Shifted(inner, s)| == j - i;
    forall k | 0 <= k < j - i ensures View(slice)[k] == View(text)[i..j][k] {
      assert kept[i + k] == Shifted(inner, s)[k] == inner[k] + s;
    }
  }

  lemma InkEnds(text: string, s: nat, e: nat)
    requires s < e <= |text|
    ensures HasInkEnds(text[s..e]) <==> !IsSpace(text[s]) && !IsSpace(text[e - 1])
  {
    hide IsSpace;
  }

  /** The part of the text behind a part of its view that starts and ends with ink. */
  lemma ViewOfSlice(text: string, i: nat, j: nat)
    requires i < j <= |KeptMap(text)|
    requires !IsSpace(text[KeptMap(text)[i]]) && !IsSpace(text[KeptMap(text)[j - 1]])
    ensures var s, e := KeptMap(text)[i], KeptMap(text)[j - 1] + 1;
      && s < e <= |text| && HasInkEnds(text[s..e])
      && Flat(text[s..e]) == View(text)[i..j]
  {
    hide IsSpace, KeptMap, Flat, View, HasInkEnds, Shifted;
    var s, e := KeptMap(text)[i], KeptMap(text)[j - 1] + 1;
    MapBetween(text, i, j);
    ViewBetween(text, i, j, s, e);
    InkEnds(text, s, e);
    FlatIsView(text[s..e]);
  }

  /** A stretch of the text, with ink at both ends, that flattens to `words`. */
  ghost predicate IsPassage(text: string, words: string, start: nat, end: nat) {
    start < end <= |text| && HasInkEnds(text[start..end]) && Flat(text[start..end]) == words
  }

  lemma InkShown(text: string, k: nat)
    requires k < |KeptMap(text)|
    ensures IsSpace(View(text)[k]) == IsSpace(text[KeptMap(text)[k]])
  {
    hide KeptMap;
  }

  /** A hit in the view, mapped back, is such a passage. */
  lemma HitIsPassage(text: string, words: string, i: nat)
    requires HasInkEnds(words) && Occurs(View(text), words, i)
    ensures IsPassage(text, words, KeptMap(text)[i], KeptMap(text)[i + |words| - 1] + 1)
  {
    hide KeptMap, Flat, View, IsSpace;
    var j := i + |words|;
    InkEnds(View(text), i, j);
    InkShown(text, i);
    InkShown(text, j - 1);
    ViewOfSlice(text, i, j);
  }

  lemma IndexInMap(text: string, at: nat) returns (i: nat)
    requires at < |text| && !IsSpace(text[at])
    ensures i < |KeptMap(text)| && KeptMap(text)[i] == at
  {
    MapIsExact(text);
    hide KeptMap;
    assert IsKept(text, at);
    i :| 0 <= i < |KeptMap(text)| && KeptMap(text)[i] == at;
  }

  lemma MapInOrder(text: string, i: nat, j: nat)
    requires i < |KeptMap(text)| && j < |KeptMap(text)| && KeptMap(text)[i] <= KeptMap(text)[j]
    ensures i <= j
  {
    MapIsExact(text);
    hide KeptMap;
    assert i <= j;
  }

  /** And every such passage is a hit in the view. */
  lemma PassageIsHit(text: string, words: string, start: nat, end: nat) returns (i: nat)
    requires IsPassage(text, words, start, end)
    ensures Occurs(View(text), words, i)
  {
    hide KeptMap, Flat, View, IsSpace;
    InkEnds(text, start, end);
    i := IndexInMap(text, start);
    var last := IndexInMap(text, end - 1);
    MapInOrder(text, i, last);
    ViewOfSlice(text, i, last + 1);
    assert View(text)[i..last + 1] == words;
  }

  // ----- Anchoring -----

  /** A stored selector; a point has no words of its own. */
  datatype Anchor = Anchor(wanted: Selector, position: Option<int>, requireUnique: bool, point: bool)

  datatype Range = Range(start: nat, end: nat)

  function Candidates(text: string, exact: string): seq<nat> { Capped(Occurrences(text, exact), MOST_POSITIONS + 1) }

  ghost predicate IsAmbiguous(text: string, wanted: Selector, requireUnique: bool) {
    requireUnique && |Candidates(text, wanted.exact)| > 1 && !HasWinner(text, wanted, Candidates(text, wanted.exact))
  }

  /** The words occur as they were recorded, and this is the best of their occurrences. */
  ghost predicate AnchorsExactly(text: string, anchor: Anchor, range: Range) {
    range.end == range.start + |anchor.wanted.exact|
    && IsBest(text, anchor.wanted, anchor.position, Candidates(text, anchor.wanted.exact), range.start)
  }

  ghost predicate NoPassage(text: string, words: string) { forall start, end :: !IsPassage(text, words, start, end) }

  /** A point between its prefix and its suffix, the nearest such one. */
  ghost predicate AnchorsPoint(text: string, anchor: Anchor, range: Range) {
    var before := |anchor.wanted.prefix|;
    var words := Selector(anchor.wanted.prefix + anchor.wanted.suffix, "", "");
    && anchor.position.Some? && range.start == range.end && before <= range.start
    && if words.exact == "" then range.start == anchor.position.value && range.start <= |text|
       else IsBest(text, words, Some(anchor.position.value - before), Candidates(text, words.exact),
         range.start - before)
  }

  /** The quotation and its context with white space flattened. */
  function Flattened(wanted: Selector): Selector {
    Selector(Flat(wanted.exact), Flat(wanted.prefix), Flat(wanted.suffix))
  }

  /** The words do not occur, or no occurrence is singled out where a unique one is asked for. */
  ghost predicate IsMissing(text: string, wanted: Selector, requireUnique: bool) {
    wanted.exact == "" || Candidates(text, wanted.exact) == [] || IsAmbiguous(text, wanted, requireUnique)
  }

  /** The range is where hit `i` of the view maps back to, and that hit is the best of the view. */
  ghost predicate IsBestHit(text: string, wanted: Selector, i: nat, range: Range) {
    var words, map_ := Flat(wanted.exact), KeptMap(text);
    && words != "" && i + |words| <= |map_|
    && IsBest(View(text), Flattened(wanted), None, Candidates(View(text), words), i)
    && range == Range(map_[i], map_[i + |words| - 1] + 1)
  }

  ghost predicate AnchorsLoosely(text: string, anchor: Anchor, range: Range) {
    && IsPassage(text, Flat(anchor.wanted.exact), range.start, range.end)
    && exists i :: IsBestHit(text, anchor.wanted, i, range)
  }

  /** A point has no usable position, or its context or its position is not in the text. */
  ghost predicate PointIsLost(text: string, anchor: Anchor) {
    var context := anchor.wanted.prefix + anchor.wanted.suffix;
    || anchor.position.None? || anchor.position.value < 0
    || (if context == "" then anchor.position.value > |text| else Occurrences(text, context) == [])
  }

  lemma CappedNone(text: string, exact: string)
    ensures Candidates(text, exact) == [] <==> Occurrences(text, exact) == []
  {
  }

  /**
   Where a selector is in a text.  A point is lost exactly without its context
   or position; other selectors exactly when both the text as written and, if
   asked for, its flattened view fail to single out an occurrence.
   */
  method AnchorOne(text: string, anchor: Anchor, loosely: bool) returns (found: Option<Range>)
    ensures anchor.point ==> (found.None? <==> PointIsLost(text, anchor))
    ensures anchor.point && found.Some? ==> AnchorsPoint(text, anchor, found.value)
    ensures !anchor.point ==>
      (found.None? <==>
        && IsMissing(text, anchor.wanted, anchor.requireUnique)
        && (loosely ==> IsMissing(View(text), Flattened(anchor.wanted), anchor.requireUnique)))
    ensures !anchor.point && found.Some? ==>
      if IsMissing(text, anchor.wanted, anchor.requireUnique)
      then loosely && AnchorsLoosely(text, anchor, found.value)
      else AnchorsExactly(text, anchor, found.value)
    ensures !anchor.point && found.None? && loosely && !anchor.requireUnique && Flat(anchor.wanted.exact) != "" ==>
      NoPassage(text, Flat(anchor.wanted.exact))
  {
    hide IsBest, HasWinner, Occurrences, Flat, View, KeptMap, Occurs;
    var wanted := anchor.wanted;
    if anchor.point {
      if anchor.position.None? || anchor.position.value < 0 { return None; }
      var position := anchor.position.value;
      if wanted.prefix != "" || wanted.suffix != "" {
        var words := Selector(wanted.prefix + wanted.suffix, "", "");
        var context := Search(text, words, Some(position - |wanted.prefix|), false);
        CappedNone(text, words.exact);
        if context.None? { return None; }
        var at := context.value + |wanted.prefix|;
        return Some(Range(at, at));
      }
      return if position <= |text| then Some(Range(position, position)) else None;
    }
    var exact := Search(text, wanted, anchor.position, anchor.requireUnique);
    if exact.Some? { return Some(Range(exact.value, exact.value + |wanted.exact|)); }
    if !loosely { return None; }
    var view, map_ := Flatten(text);
    var words := Flattened(wanted);
    var loose := Search(view, words, None, anchor.requireUnique);
    FlatHasInkEnds(wanted.exact);
    if loose.None? {
      CappedNone(view, words.exact);
      if words.exact != "" && Candidates(view, words.exact) == [] { NoHitNoPassage(text, words.exact); }
      return None;
    }
    BestOccurs(view, words, None, Candidates(view, words.exact), loose.value);
    HitIsPassage(text, words.exact, loose.value);
    var range := Range(map_[loose.value], map_[loose.value + |words.exact| - 1] + 1);
    assert IsBestHit(text, wanted, loose.value, range);
    return Some(range);
  }

  lemma BestOccurs(text: string, wanted: Selector, position: Option<int>, candidates: seq<nat>, c: nat)
    requires IsBest(text, wanted, position, candidates, c)
    ensures Occurs(text, wanted.exact, c) && c + |wanted.exact| <= |text|
  {
    hide Score, Beats;
  }

  lemma NoHitNoPassage(text: string, words: string)
    requires words != "" && Occurrences(View(text), words) == []
    ensures NoPassage(text, words)
  {
    hide View, IsPassage, Occurs;
    OccurrencesAreAll(View(text), words, 0);
    forall start, end ensures !IsPassage(text, words, start, end) {
      if IsPassage(text, words, start, end) { var i := PassageIsHit(text, words, start, end); }
    }
  }
}
