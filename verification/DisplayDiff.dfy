/**
 `diffProjections`: strip equal ends, search, trace back, rebuild hunks, or
 fall back to one coarse hunk (web/src/lib/diff-display.js).
 */
module DisplayDiff {
  import opened Basics
  import opened EditDistance
  import opened EditGrid
  import opened FrontierWork
  import opened MyersDiff
  import opened Patches

  /** The four budgets the diff reads; `None` is an absent or non-finite setting. */
  datatype Settings = Settings(tokens: Option<real>, work: Option<real>, trace: Option<real>, hunks: Option<real>)

  datatype Limits = Limits(tokens: nat, work: nat, trace: nat, hunks: nat)

  function Bounded(setting: Option<real>, top: nat): nat {
    match setting
    case None => top
    case Some(value) => if value.Floor < 0 then 0 else Min(top, value.Floor)
  }

  function BoundedLimits(s: Settings): (limits: Limits)
    ensures limits.tokens <= 20000 && limits.work <= 2000000 && limits.trace <= 4000 && limits.hunks <= 1000
  {
    Limits(Bounded(s.tokens, 20000), Bounded(s.work, 2000000), Bounded(s.trace, 4000), Bounded(s.hunks, 1000))
  }

  // ----- What the budgets have to cover -----

  /** How many tokens both lists start with, and how many they end with behind that. */
  function Prefix(a: seq<Token>, b: seq<Token>): nat { Snake(a, b, 0, 0) }

  function SuffixFrom(a: seq<Token>, b: seq<Token>, from: nat, n: nat): (r: nat)
    requires from + n <= |a| && from + n <= |b|
    ensures from + r <= |a| && from + r <= |b|
    decreases |a| - n
  {
    if from + n < |a| && from + n < |b| && Equal(a[|a| - 1 - n], b[|b| - 1 - n])
    then SuffixFrom(a, b, from, n + 1)
    else n
  }

  lemma PrefixFits(a: seq<Token>, b: seq<Token>)
    ensures Prefix(a, b) <= |a| && Prefix(a, b) <= |b|
  {
    SnakeIsShort(a, b, 0, 0);
  }

  /** What is left of both lists between their equal ends. */
  function Middle(a: seq<Token>, b: seq<Token>): (seq<Token>, seq<Token>) {
    PrefixFits(a, b);
    var from := Prefix(a, b);
    var n := SuffixFrom(a, b, from, 0);
    (a[from..|a| - n], b[from..|b| - n])
  }

  /** How many runs of changes a script has; `inside` when it continues one. */
  function Runs(ops: seq<Op>, inside: bool): nat {
    if ops == [] then 0
    else if ops[0] == Keep then Runs(ops[1..], false)
    else (if inside then 0 else 1) + Runs(ops[1..], true)
  }

  lemma RunsOn(ops: seq<Op>, t: nat, inside: bool)
    requires t < |ops|
    ensures Runs(ops[t..], inside)
         == if ops[t] == Keep then Runs(ops[t + 1..], false)
            else (if inside then 0 else 1) + Runs(ops[t + 1..], true)
  {
    assert ops[t..][0] == ops[t] && ops[t..][1..] == ops[t + 1..];
  }

  /** The hunks of the script that the frontier traces. */
  ghost function HunkCount(a: seq<Token>, b: seq<Token>): nat {
    CornerReached(a, b);
    CornerIsHit(a, b, Distance(a, b));
    Runs(Traced(a, b, Distance(a, b), |a| - |b|), false)
  }

  /** Each of the four budgets covers what the two lists need of it. */
  ghost predicate Affordable(limits: Limits, a: seq<Token>, b: seq<Token>) {
    && |a| + |b| <= limits.tokens && Distance(a, b) <= limits.trace
    && NeededWork(a, b) <= limits.work && HunkCount(a, b) <= limits.hunks
  }

  /** A budget covers a need: up to the default, and up to the setting when there is one; nothing is always covered. */
  ghost predicate Covers(setting: Option<real>, default: nat, need: nat) {
    need <= default && (need == 0 || setting.None? || need as real <= setting.value)
  }

  /** The four settings and the documented defaults cover what the two lists need. */
  ghost predicate SettingsCover(s: Settings, a: seq<Token>, b: seq<Token>) {
    && Covers(s.tokens, 20000, |a| + |b|) && Covers(s.trace, 4000, Distance(a, b))
    && Covers(s.work, 2000000, NeededWork(a, b)) && Covers(s.hunks, 1000, HunkCount(a, b))
  }

  lemma BoundedCovers(setting: Option<real>, default: nat, need: nat)
    ensures need <= Bounded(setting, default) <==> Covers(setting, default, need)
  {
  }

  lemma LimitsCover(s: Settings, a: seq<Token>, b: seq<Token>)
    ensures Affordable(BoundedLimits(s), a, b) <==> SettingsCover(s, a, b)
  {
    hide Bounded, Covers, NeededWork, HunkCount, Distance;
    BoundedCovers(s.tokens, 20000, |a| + |b|);
    BoundedCovers(s.trace, 4000, Distance(a, b));
    BoundedCovers(s.work, 2000000, NeededWork(a, b));
    BoundedCovers(s.hunks, 1000, HunkCount(a, b));
  }

  /** Budgets that always suffice, in terms of the distance of the whole lists. */
  ghost predicate Ample(limits: Limits, a: seq<Token>, b: seq<Token>) {
    && |a| + |b| <= limits.tokens
    && Distance(a, b) <= limits.trace && Distance(a, b) <= limits.hunks
    && WorkBound(a, b, Triangle(Distance(a, b) + 1)) <= limits.work
  }

  predicate Unsimplified(hunks: seq<Hunk>) {
    forall k :: 0 <= k < |hunks| ==> !hunks[k].simplified
  }

  /** Kept tokens needed before the next hunk: none before the first, one between two. */
  function MinGap(hunks: seq<Hunk>): int { if hunks == [] then 0 else 1 }

  /**
   The state of the rebuild: closed hunks, the open hunk, and how far both
   lists are read.
   */
  ghost predicate Rebuilt(hunks: seq<Hunk>, open: Option<Hunk>, a: seq<Token>, b: seq<Token>, i: int, j: int) {
    var endA, endB := EndA(hunks, |hunks|), EndB(hunks, |hunks|);
    && PatchPrefix(hunks, a, b) && Unsimplified(hunks)
    && 0 <= i <= |a| && 0 <= j <= |b|
    && match open
       case None => i - endA == j - endB >= MinGap(hunks) && Agree(a, b, endA, endB, i - endA)
       case Some(h) => IsOpen(h, a, b, i, j) && NonEmpty(h) && Follows(endA, endB, MinGap(hunks), h, a, b)
  }

  ghost predicate IsOpen(h: Hunk, a: seq<Token>, b: seq<Token>, i: int, j: int) {
    !h.simplified && h.toA == i && h.toB == j && Spells(h, a, b)
  }

  function Flush(hunks: seq<Hunk>, open: Option<Hunk>): seq<Hunk> {
    match open case None => hunks case Some(h) => hunks + [h]
  }

  /** Tokens deleted and inserted so far, the open hunk included. */
  function TotalChanged(hunks: seq<Hunk>, open: Option<Hunk>): nat { Changed(Flush(hunks, open)) }

  /** A kept token closes the open hunk and adds to the gap. */
  lemma RebuildsEqual(hunks: seq<Hunk>, open: Option<Hunk>, a: seq<Token>, b: seq<Token>, i: int, j: int)
    requires Rebuilt(hunks, open, a, b, i, j) && i < |a| && j < |b| && Equal(a[i], b[j])
    ensures Rebuilt(Flush(hunks, open), None, a, b, i + 1, j + 1)
  {
    if open.Some? { PatchPrefixAppend(hunks, open.value, a, b); }
  }

  /** The hunk a change goes into: the open one, or an empty one at the counters. */
  function Opened(open: Option<Hunk>, i: int, j: int): Hunk {
    match open
    case Some(h) => h
    case None => Hunk(i, i, j, j, [], [], false)
  }

  lemma OpenedFollows(hunks: seq<Hunk>, open: Option<Hunk>, a: seq<Token>, b: seq<Token>, i: int, j: int)
    requires Rebuilt(hunks, open, a, b, i, j)
    ensures var h := Opened(open, i, j);
            && IsOpen(h, a, b, i, j)
            && Follows(EndA(hunks, |hunks|), EndB(hunks, |hunks|), MinGap(hunks), h, a, b)
            && Changed(hunks) + |h.deleted| + |h.inserted| == TotalChanged(hunks, open)
  {
    if open.Some? { ChangedAppend(hunks, open.value); }
  }

  /** A deleted token goes into the open hunk. */
  lemma RebuildsDelete(hunks: seq<Hunk>, open: Option<Hunk>, a: seq<Token>, b: seq<Token>, i: int, j: int, h: Hunk)
    requires Rebuilt(hunks, open, a, b, i, j) && i < |a|
    requires var was := Opened(open, i, j); h == was.(deleted := was.deleted + [a[i]], toA := i + 1)
    ensures Rebuilt(hunks, Some(h), a, b, i + 1, j)
    ensures TotalChanged(hunks, Some(h)) == TotalChanged(hunks, open) + 1
  {
    OpenedFollows(hunks, open, a, b, i, j);
    assert a[h.fromA..i + 1] == a[h.fromA..i] + [a[i]];
    ChangedAppend(hunks, h);
  }

  /** An inserted token goes into the open hunk. */
  lemma RebuildsInsert(hunks: seq<Hunk>, open: Option<Hunk>, a: seq<Token>, b: seq<Token>, i: int, j: int, h: Hunk)
    requires Rebuilt(hunks, open, a, b, i, j) && j < |b|
    requires var was := Opened(open, i, j); h == was.(inserted := was.inserted + [b[j]], toB := j + 1)
    ensures Rebuilt(hunks, Some(h), a, b, i, j + 1)
    ensures TotalChanged(hunks, Some(h)) == TotalChanged(hunks, open) + 1
  {
    OpenedFollows(hunks, open, a, b, i, j);
    assert b[h.fromB..j + 1] == b[h.fromB..j] + [b[j]];
    ChangedAppend(hunks, h);
  }

  /** What the remaining operations still do, on what is left of both middles. */
  ghost predicate Remaining(ops: seq<Op>, t: nat, a: seq<Token>, b: seq<Token>, i: int, toA: int, j: int, toB: int,
                            cost: int) {
    && t <= |ops| && 0 <= i <= toA <= |a| && 0 <= j <= toB <= |b|
    && Transforms(ops[t..], a[i..toA], b[j..toB]) && Cost(ops[t..]) == cost
  }

  lemma NextOperation(ops: seq<Op>, t: nat, a: seq<Token>, b: seq<Token>, i: int, toA: int, j: int, toB: int, cost: int)
    requires Remaining(ops, t, a, b, i, toA, j, toB, cost) && t < |ops|
    ensures ops[t] == Keep ==>
              i < toA && j < toB && Equal(a[i], b[j]) && Remaining(ops, t + 1, a, b, i + 1, toA, j + 1, toB, cost)
    ensures ops[t] == Delete ==> i < toA && Remaining(ops, t + 1, a, b, i + 1, toA, j, toB, cost - 1)
    ensures ops[t] == Insert ==> j < toB && Remaining(ops, t + 1, a, b, i, toA, j + 1, toB, cost - 1)
  {
    assert ops[t..][1..] == ops[t + 1..];
    if i < toA { assert a[i..toA][1..] == a[i + 1..toA]; }
    if j < toB { assert b[j..toB][1..] == b[j + 1..toB]; }
  }

  /** Agreement to the ends of both lists turns a finished rebuild into a valid patch. */
  lemma RebuiltIsPatch(hunks: seq<Hunk>, open: Option<Hunk>, a: seq<Token>, b: seq<Token>, i: int, j: int)
    requires Rebuilt(hunks, open, a, b, i, j) && |a| - i == |b| - j && Agree(a, b, i, j, |a| - i)
    ensures ValidPatch(Flush(hunks, open), a, b) && Unsimplified(Flush(hunks, open))
  {
    match open
    case None =>
      var endA, endB := EndA(hunks, |hunks|), EndB(hunks, |hunks|);
      forall p | endA <= p < |a| ensures Equal(a[p], b[p - endA + endB]) {
        if p >= i { assert Equal(a[p], b[p - i + j]); }
      }
    case Some(h) => PatchPrefixAppend(hunks, h, a, b);
  }

  /** Rebuilds the hunks from the edits, by two counters alone. */
  method RebuildHunks(a: seq<Token>, b: seq<Token>, fromA: nat, toA: nat, fromB: nat, toB: nat, edits: seq<Edit>)
    returns (hunks: seq<Hunk>)
    requires fromA == fromB && fromA <= toA <= |a| && fromB <= toB <= |b|
    requires |a| - toA == |b| - toB
    requires Agree(a, b, 0, 0, fromA) && Agree(a, b, toA, toB, |a| - toA)
    requires Transforms(Ops(edits), a[fromA..toA], b[fromB..toB])
    ensures ValidPatch(hunks, a, b) && Unsimplified(hunks)
    ensures Changed(hunks) == Cost(Ops(edits)) && |hunks| == Runs(Ops(edits), false)
  {
    hide Transforms, Cost, PatchPrefix, Agree, TotalChanged, Rebuilt, Remaining, Runs;
    ghost var ops := Ops(edits);
    hunks := [];
    var open: Option<Hunk> := None;
    var i, j := 0, 0;
    assert ops[0..] == ops;
    Begins(a, b, fromA, toA, fromB, toB, ops);
    for t := 0 to |edits|
      invariant 0 <= i && 0 <= j
      invariant Rebuilt(hunks, open, a, b, fromA + i, fromB + j)
      invariant |Flush(hunks, open)| + Runs(ops[t..], open.Some?) == Runs(ops, false)
      invariant Remaining(ops, t, a, b, fromA + i, toA, fromB + j, toB, Cost(ops) - TotalChanged(hunks, open))
    {
      NextOperation(ops, t, a, b, fromA + i, toA, fromB + j, toB, Cost(ops) - TotalChanged(hunks, open));
      RunsOn(ops, t, open.Some?);
      match edits[t]
      case EqualEdit(_, _) =>
        RebuildsEqual(hunks, open, a, b, fromA + i, fromB + j);
        FlushKeepsTotal(hunks, open);
        hunks := Flush(hunks, open);
        open := None;
        i, j := i + 1, j + 1;
      case DeleteEdit(_) =>
        var h := Opened(open, fromA + i, fromB + j);
        h := h.(deleted := h.deleted + [a[fromA + i]], toA := fromA + i + 1);
        RebuildsDelete(hunks, open, a, b, fromA + i, fromB + j, h);
        open := Some(h);
        i := i + 1;
      case InsertEdit(_) =>
        var h := Opened(open, fromA + i, fromB + j);
        h := h.(inserted := h.inserted + [b[fromB + j]], toB := fromB + j + 1);
        RebuildsInsert(hunks, open, a, b, fromA + i, fromB + j, h);
        open := Some(h);
        j := j + 1;
    }
    NoMoreRuns(ops, open.Some?);
    Ends(ops, a, b, fromA + i, toA, fromB + j, toB, Cost(ops) - TotalChanged(hunks, open));
    FlushKeepsTotal(hunks, open);
    RebuiltIsPatch(hunks, open, a, b, toA, toB);
    hunks := Flush(hunks, open);
  }

  lemma NoMoreRuns(ops: seq<Op>, inside: bool)
    ensures Runs(ops[|ops|..], inside) == 0
  {
  }

  lemma FlushKeepsTotal(hunks: seq<Hunk>, open: Option<Hunk>)
    ensures TotalChanged(Flush(hunks, open), None) == TotalChanged(hunks, open) == Changed(Flush(hunks, open))
  {
  }

  lemma Begins(a: seq<Token>, b: seq<Token>, fromA: nat, toA: nat, fromB: nat, toB: nat, ops: seq<Op>)
    requires fromA == fromB && fromA <= toA <= |a| && fromB <= toB <= |b|
    requires Agree(a, b, 0, 0, fromA) && Transforms(ops, a[fromA..toA], b[fromB..toB])
    ensures Rebuilt([], None, a, b, fromA, fromB)
    ensures Remaining(ops, 0, a, b, fromA, toA, fromB, toB, Cost(ops) - TotalChanged([], None))
  {
    assert ops[0..] == ops;
  }

  lemma Ends(ops: seq<Op>, a: seq<Token>, b: seq<Token>, i: int, toA: int, j: int, toB: int, cost: int)
    requires Remaining(ops, |ops|, a, b, i, toA, j, toB, cost)
    ensures i == toA && j == toB && cost == 0
  {
  }

  /** The one hunk that replaces the whole middle. */
  function Coarse(a: seq<Token>, b: seq<Token>, fromA: nat, toA: nat, fromB: nat, toB: nat): Hunk
    requires fromA <= toA <= |a| && fromB <= toB <= |b|
  {
    Hunk(fromA, toA, fromB, toB, a[fromA..toA], b[fromB..toB], true)
  }

  /** Where the equal ends stop. */
  method StripEnds(a: seq<Token>, b: seq<Token>) returns (fromA: nat, toA: nat, fromB: nat, toB: nat)
    ensures fromA == fromB && fromA <= toA <= |a| && fromB <= toB <= |b| && |a| - toA == |b| - toB
    ensures Middle(a, b) == (a[fromA..toA], b[fromB..toB])
    ensures Agree(a, b, 0, 0, fromA) && Agree(a, b, toA, toB, |a| - toA)
    ensures fromA < toA && fromB < toB ==> !Equal(a[fromA], b[fromB]) && !Equal(a[toA - 1], b[toB - 1])
  {
    hide Agree, Middle;
    fromA, fromB := 0, 0;
    NothingToAgree(a, b);
    while fromA < |a| && fromB < |b| && Equal(a[fromA], b[fromB])
      invariant fromA == fromB && fromA <= |a| && fromB <= |b| && Agree(a, b, 0, 0, fromA)
      invariant Prefix(a, b) == Snake(a, b, fromA, fromB)
    {
      AgreeGrows(a, b, 0, 0, fromA);
      fromA, fromB := fromA + 1, fromB + 1;
    }
    toA, toB := |a|, |b|;
    while toA > fromA && toB > fromB && Equal(a[toA - 1], b[toB - 1])
      invariant fromA <= toA <= |a| && fromB <= toB <= |b| && |a| - toA == |b| - toB
      invariant Agree(a, b, toA, toB, |a| - toA)
      invariant SuffixFrom(a, b, fromA, 0) == SuffixFrom(a, b, fromA, |a| - toA)
    {
      AgreeGrowsFront(a, b, toA, toB, |a| - toA);
      toA, toB := toA - 1, toB - 1;
    }
    MiddleIs(a, b, fromA, toA, toB);
  }

  lemma NothingToAgree(a: seq<Token>, b: seq<Token>)
    ensures Agree(a, b, 0, 0, 0) && Agree(a, b, |a|, |b|, 0)
  {
  }

  lemma AgreeGrows(a: seq<Token>, b: seq<Token>, i: int, j: int, len: int)
    requires Agree(a, b, i, j, len) && i + len < |a| && j + len < |b| && Equal(a[i + len], b[j + len])
    ensures Agree(a, b, i, j, len + 1)
  {
  }

  lemma AgreeGrowsFront(a: seq<Token>, b: seq<Token>, i: int, j: int, len: int)
    requires Agree(a, b, i, j, len) && 0 < i <= |a| && 0 < j <= |b| && Equal(a[i - 1], b[j - 1])
    ensures Agree(a, b, i - 1, j - 1, len + 1)
  {
    forall p | i - 1 <= p < i + len ensures Equal(a[p], b[p - i + j]) {
      if p >= i { assert Equal(a[p], b[p - i + j]); }
    }
  }

  lemma MiddleIs(a: seq<Token>, b: seq<Token>, from: nat, toA: nat, toB: nat)
    requires from == Prefix(a, b) && from <= toA <= |a| && from <= toB <= |b| && |a| - toA == |b| - toB
    requires SuffixFrom(a, b, from, 0) == |a| - toA
    ensures Middle(a, b) == (a[from..toA], b[from..toB])
  {
  }

  /** After stripping, a non-empty middle starts with tokens that differ. */
  lemma MiddleDiffers(a: seq<Token>, b: seq<Token>, from: nat, toA: nat, toB: nat)
    requires from <= toA <= |a| && from <= toB <= |b| && |a| - toA == |b| - toB
    requires from < toA || from < toB
    requires from < toA && from < toB ==> !Equal(a[from], b[from])
    ensures !(|a| == |b| && Agree(a, b, 0, 0, |a|))
  {
    if from < |a| && from < |b| && Agree(a, b, 0, 0, |a|) { assert Equal(a[from], b[from]); }
  }

  lemma NoHunks(hunks: seq<Hunk>, a: seq<Token>, b: seq<Token>)
    requires ValidPatch(hunks, a, b) && hunks == []
    ensures |a| == |b| && Agree(a, b, 0, 0, |a|)
  {
  }

  lemma AgreementNeedsNothing(a: seq<Token>, b: seq<Token>, from: nat)
    requires from <= |a| && from <= |b| && |a| == |b|
    requires Agree(a, b, 0, 0, from) && Agree(a, b, from, from, |a| - from)
    ensures Agree(a, b, 0, 0, |a|) && ValidPatch([], a, b) && Distance(a, b) == 0
  {
    forall p | 0 <= p < |a| ensures Equal(a[p], b[p]) {
      if p >= from { assert Equal(a[p], b[p - from + from]); }
    }
    DistanceStripsPrefix(a, b, |a|);
  }

  /** The fallback is a valid patch. */
  lemma CoarseIsPatch(a: seq<Token>, b: seq<Token>, from: nat, toA: nat, toB: nat)
    requires from <= toA <= |a| && from <= toB <= |b| && |a| - toA == |b| - toB && (from < toA || from < toB)
    requires Agree(a, b, 0, 0, from) && Agree(a, b, toA, toB, |a| - toA)
    ensures ValidPatch([Coarse(a, b, from, toA, from, toB)], a, b)
    ensures var hunk := Coarse(a, b, from, toA, from, toB);
            !Unsimplified([hunk]) && hunk.deleted == a[from..toA] && hunk.inserted == b[from..toB]
  {
    var hunks := [Coarse(a, b, from, toA, from, toB)];
    assert hunks[0].simplified;
    PatchPrefixAppend([], hunks[0], a, b);
  }

  lemma MulMonotone(x: nat, small: int, large: int)
    requires small <= large
    ensures x * small <= x * large
  {
  }

  /** Budgets ample for the whole lists are ample for the stripped middles. */
  lemma AmpleForMiddle(limits: Limits, a: seq<Token>, b: seq<Token>, from: nat, toA: nat, toB: nat)
    requires from <= toA <= |a| && from <= toB <= |b|
    requires Distance(a, b) == Distance(a[from..toA], b[from..toB])
    requires Ample(limits, a, b)
    ensures Ample(limits, a[from..toA], b[from..toB])
  {
    hide Distance, Triangle;
    MulMonotone(Triangle(Distance(a, b) + 1), Min(toA - from, toB - from) + 1, Min(|a|, |b|) + 1);
  }

  /**
   The display diff.  Every result, fallback included, is a valid patch; a
   result without a fallback changes as few tokens as any edit script can; and
   the fallback is taken exactly when one of the four budgets is short of what
   the middles need.
   */
  method DiffProjections(a: seq<Token>, b: seq<Token>, settings: Settings) returns (hunks: seq<Hunk>)
    ensures ValidPatch(hunks, a, b)
    ensures Unsimplified(hunks) ==> Changed(hunks) == Distance(a, b)
    ensures Unsimplified(hunks) <==>
              hunks == [] || SettingsCover(settings, Middle(a, b).0, Middle(a, b).1)
    ensures Ample(BoundedLimits(settings), a, b) ==> Unsimplified(hunks)
    ensures !Unsimplified(hunks) ==> |hunks| == 1 && (hunks[0].deleted, hunks[0].inserted) == Middle(a, b)
    ensures hunks == [] <==> |a| == |b| && Agree(a, b, 0, 0, |a|)
  {
    hide *;
    var limits := BoundedLimits(settings);
    var fromA, toA, fromB, toB := StripEnds(a, b);
    if fromA == toA && fromB == toB {
      hunks := [];
      AgreementNeedsNothing(a, b, fromA);
      NothingChanges();
      return;
    }
    DistanceStripsEnds(a, b, fromA, toA, toB);
    MiddleDiffers(a, b, fromA, toA, toB);
    CoarseIsPatch(a, b, fromA, toA, toB);
    if Ample(limits, a, b) {
      AmpleForMiddle(limits, a, b, fromA, toA, toB);
      AmpleBudgets(limits, a[fromA..toA], b[fromB..toB]);
      NeededWorkBound(a[fromA..toA], b[fromB..toB]);
    }
    var n, m := toA - fromA, toB - fromB;
    var coarse := [Coarse(a, b, fromA, toA, fromB, toB)];
    var x, y := a[fromA..toA], b[fromB..toB];
    AffordableMeans(limits, x, y);
    LimitsCover(settings, x, y);
    if n + m > limits.tokens {
      hunks := coarse;
      return;
    }
    var found, trace, center := SearchFrontier(x, y, limits.trace, limits.work);
    if found < 0 {
      hunks := coarse;
      return;
    }
    var edits := Traceback(x, y, found, trace, center);
    HunkCountIs(x, y, Ops(edits));
    hunks := RebuildHunks(a, b, fromA, toA, fromB, toB, edits);
    if hunks == [] { NoHunks(hunks, a, b); }
    PatchHunkCount(hunks, a, b);
    if |hunks| > limits.hunks {
      hunks := coarse;
    }
  }

  lemma NothingChanges()
    ensures Changed([]) == 0 && Unsimplified([])
  {
  }

  lemma AffordableMeans(limits: Limits, a: seq<Token>, b: seq<Token>)
    ensures Affordable(limits, a, b) <==>
              && |a| + |b| <= limits.tokens && Distance(a, b) <= limits.trace
              && NeededWork(a, b) <= limits.work && HunkCount(a, b) <= limits.hunks
  {
  }

  lemma HunkCountIs(a: seq<Token>, b: seq<Token>, ops: seq<Op>)
    requires InLayer(Distance(a, b), |a| - |b|) && ops == Traced(a, b, Distance(a, b), |a| - |b|)
    ensures HunkCount(a, b) == Runs(ops, false)
  {
  }

  lemma AmpleBudgets(limits: Limits, a: seq<Token>, b: seq<Token>)
    requires Ample(limits, a, b)
    ensures |a| + |b| <= limits.tokens
    ensures Distance(a, b) <= limits.trace && Distance(a, b) <= limits.hunks
    ensures WorkBound(a, b, Triangle(Distance(a, b) + 1)) <= limits.work
  {
  }

  lemma PatchHunkCount(hunks: seq<Hunk>, a: seq<Token>, b: seq<Token>)
    requires ValidPatch(hunks, a, b)
    ensures |hunks| <= Changed(hunks)
  {
    ChangedAtLeastCount(hunks, a, b);
  }
}
