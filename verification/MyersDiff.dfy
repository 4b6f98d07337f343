/**
 The core of the bounded display diff: a budgeted greedy frontier over one
 reused table, and the traceback over the saved tables
 (web/src/lib/diff-display.js, `diffProjections`).
 */
module MyersDiff {
  import opened Basics
  import opened EditDistance
  import opened EditGrid
  import opened FrontierWork

  /** The diagonals of layer d below k are already replaced by layer d. */
  ghost predicate Filled(row: seq<int>, center: int, a: seq<Token>, b: seq<Token>, d: nat, upTo: int) {
    && d < center && |row| == 2 * center + 1
    && forall k :: InLayer(d, k) && k < upTo ==> row[center + k] == Furthest(a, b, d, k)
  }

  /** The frontier table is ready for layer d: it holds layer d - 1, or the seed for layer 0. */
  ghost predicate Ready(row: seq<int>, center: int, a: seq<Token>, b: seq<Token>, d: nat) {
    && d < center && |row| == 2 * center + 1
    && if d == 0 then row[center + 1] == 0 else Filled(row, center, a, b, d - 1, d)
  }

  /** Every cell fits a signed 32-bit table whose token budget is at most 20,000. */
  ghost predicate InRange(row: seq<int>, a: seq<Token>, b: seq<Token>) {
    forall i :: 0 <= i < |row| ==> -1 <= row[i] <= 2 * |a| + |b|
  }

  lemma SeedInRange(row: seq<int>, center: int, a: seq<Token>, b: seq<Token>)
    requires forall i :: 0 <= i < |row| ==> row[i] == if i == center + 1 then 0 else -1
    ensures InRange(row, a, b)
  {
  }

  /** The saved frontiers: the one saved at the start of layer e is ready for layer e. */
  ghost predicate Saved(trace: seq<seq<int>>, center: int, a: seq<Token>, b: seq<Token>) {
    forall e :: 0 <= e < |trace| ==> Ready(trace[e], center, a, b, e)
  }

  /** Reading two neighbours of a ready table yields the entry point of layer d. */
  lemma ReadyGivesEntry(row: seq<int>, center: int, a: seq<Token>, b: seq<Token>, d: nat, k: int)
    requires Ready(row, center, a, b, d) && InLayer(d, k)
    ensures Entry(a, b, d, k)
         == if k + d == 0 || (k != d && row[center + k - 1] < row[center + k + 1]) then row[center + k + 1]
            else row[center + k - 1] + 1
  {
    if d > 0 {
      if k < d { assert InLayer(d - 1, k + 1); }
      if 0 < k + d { assert InLayer(d - 1, k - 1); }
    }
  }

  lemma NextDiagonal(d: int, k: int, j: int)
    requires InLayer(d, k) && InLayer(d, j) && j < k + 2
    ensures j < k || j == k
  {
  }

  lemma OtherLayer(d: int, k: int, j: int)
    requires InLayer(d, k) && InLayer(d - 1, j)
    ensures j != k
  {
  }

  /** Replacing diagonal k leaves the previous layer readable and extends the new one. */
  lemma SetsOneDiagonal(row: seq<int>, center: int, a: seq<Token>, b: seq<Token>, d: nat, k: int, x: int)
    requires Ready(row, center, a, b, d) && Filled(row, center, a, b, d, k) && InLayer(d, k)
    requires x == Furthest(a, b, d, k)
    ensures Ready(row[center + k := x], center, a, b, d)
    ensures Filled(row[center + k := x], center, a, b, d, k + 2)
  {
    FillsOneMore(row, center, a, b, d, k, x);
    if d > 0 {
      KeepsOtherLayer(row, center, a, b, d, k, x);
    } else {
      assert k == 0;
    }
  }

  lemma FillsOneMore(row: seq<int>, center: int, a: seq<Token>, b: seq<Token>, d: nat, k: int, x: int)
    requires Filled(row, center, a, b, d, k) && InLayer(d, k) && x == Furthest(a, b, d, k)
    ensures Filled(row[center + k := x], center, a, b, d, k + 2)
  {
    hide Furthest;
    var next := row[center + k := x];
    forall j | InLayer(d, j) && j < k + 2 ensures next[center + j] == Furthest(a, b, d, j) {
      NextDiagonal(d, k, j);
      if j < k { assert next[center + j] == row[center + j]; }
    }
  }

  lemma KeepsOtherLayer(row: seq<int>, center: int, a: seq<Token>, b: seq<Token>, d: nat, k: int, x: int)
    requires d > 0 && d < center && InLayer(d, k) && Filled(row, center, a, b, d - 1, d)
    ensures Filled(row[center + k := x], center, a, b, d - 1, d)
  {
    hide Furthest;
    var next, e: nat := row[center + k := x], d - 1;
    forall j | InLayer(e, j) && j < d ensures next[center + j] == Furthest(a, b, e, j) {
      OtherLayer(d, k, j);
      assert next[center + j] == row[center + j];
    }
  }

  lemma SetsInRange(row: seq<int>, center: int, a: seq<Token>, b: seq<Token>, d: nat, k: int)
    requires InLayer(d, k) && 0 <= center + k < |row| && InRange(row, a, b) && d <= |a| + |b|
    ensures InRange(row[center + k := Furthest(a, b, d, k)], a, b)
  {
    FurthestBounds(a, b, d, k);
  }

  lemma MissedOneMore(a: seq<Token>, b: seq<Token>, d: nat, k: int)
    requires InLayer(d, k) && MissedBelow(a, b, d, k) && !Hit(a, b, d, k)
    ensures MissedBelow(a, b, d, k + 2)
  {
    forall j | InLayer(d, j) && j < k + 2 ensures !Hit(a, b, d, j) {
      NextDiagonal(d, k, j);
    }
  }

  lemma LayerStarts(row: seq<int>, center: int, a: seq<Token>, b: seq<Token>, d: nat)
    requires Ready(row, center, a, b, d)
    ensures Filled(row, center, a, b, d, 0 - d) && MissedBelow(a, b, d, 0 - d)
  {
  }

  lemma LayerDone(row: seq<int>, center: int, a: seq<Token>, b: seq<Token>, d: nat, k: int)
    requires d < k && MissedBelow(a, b, d, k) && Missed(a, b, d) && Filled(row, center, a, b, d, k)
    ensures Missed(a, b, d + 1) && Filled(row, center, a, b, d, d + 1)
  {
    forall e: nat, j | e < d + 1 && InLayer(e, j) ensures !Hit(a, b, e, j) {
      if e == d { assert j < k; }
    }
  }

  /** Follows equal tokens from (x0, y0); `steps` is what the run adds to the work counter. */
  method FollowEqual(a: seq<Token>, b: seq<Token>, x0: int, y0: int) returns (x: int, y: int, steps: nat)
    requires 0 <= x0 && 0 <= y0
    ensures x == Snake(a, b, x0, y0) && y == y0 + x - x0
    ensures steps == x - x0
  {
    x, y, steps := x0, y0, 0;
    while x < |a| && y < |b| && Equal(a[x], b[y])
      invariant x0 <= x && y == y0 + x - x0 && steps == x - x0
      invariant Snake(a, b, x, y) == Snake(a, b, x0, y0)
      decreases |a| - x
    {
      x, y, steps := x + 1, y + 1, steps + 1;
    }
  }

  /** The furthest point of layer d on diagonal k, read off the two neighbours of the table. */
  method ExtendDiagonal(a: seq<Token>, b: seq<Token>, frontier: array<int>, center: int, d: nat, k: int)
    returns (x: int, y: int, steps: nat)
    requires Ready(frontier[..], center, a, b, d) && InLayer(d, k)
    ensures x == Furthest(a, b, d, k) && y == x - k && steps + 1 == DiagonalWork(a, b, d, k)
  {
    var index := center + k;
    if k == 0 - d || (k != d && frontier[index - 1] < frontier[index + 1]) {
      x := frontier[index + 1];
    } else {
      x := frontier[index - 1] + 1;
    }
    ReadyGivesEntry(frontier[..], center, a, b, d, k);
    FurthestBounds(a, b, d, k);
    x, y, steps := FollowEqual(a, b, x, x - k);
  }

  /**
   One layer: every diagonal of layer d in turn, until the far corner is hit or
   the work budget is gone.
   */
  method FillLayer(a: seq<Token>, b: seq<Token>, frontier: array<int>, center: int, d: nat,
                   workLimit: nat, work0: nat) returns (work: nat, hit: bool)
    requires d <= |a| + |b| && Ready(frontier[..], center, a, b, d) && InRange(frontier[..], a, b)
    requires Missed(a, b, d)
    requires work0 == WorkBefore(a, b, d) <= workLimit
    modifies frontier
    ensures InRange(frontier[..], a, b)
    ensures work > workLimit ==> !hit && workLimit < NeededWork(a, b)
    ensures hit ==> d == Distance(a, b) && InLayer(d, |a| - |b|) && Furthest(a, b, d, |a| - |b|) == |a|
    ensures hit ==> work == NeededWork(a, b)
    ensures !hit && work <= workLimit ==>
              && Filled(frontier[..], center, a, b, d, d + 1)
              && Missed(a, b, d + 1) && work == WorkBefore(a, b, d + 1)
  {
    hide Furthest, Filled, Missed, MissedBelow, InRange, DiagonalWork, Distance, Ready;
    work, hit := work0, false;
    LayerStarts(frontier[..], center, a, b, d);
    var k := 0 - d;
    while k <= d
      invariant 0 <= d + k <= 2 * d + 2 && (d + k) % 2 == 0 && !hit
      invariant Ready(frontier[..], center, a, b, d) && Filled(frontier[..], center, a, b, d, k)
      invariant InRange(frontier[..], a, b)
      invariant MissedBelow(a, b, d, k)
      invariant work == WorkBefore(a, b, d) + LayerWork(a, b, d, k) <= workLimit
    {
      var x, y, steps := ExtendDiagonal(a, b, frontier, center, d, k);
      work := work + steps + 1;
      if work > workLimit {
        VisitedIsNeeded(a, b, d, k);
        return;
      }
      SetsOneDiagonal(frontier[..], center, a, b, d, k, x);
      SetsInRange(frontier[..], center, a, b, d, k);
      ghost var row := frontier[..];
      frontier[center + k] := x;
      assert frontier[..] == row[center + k := x];
      if x >= |a| && y >= |b| {
        FirstHitIsDistance(a, b, d, k);
        hit := true;
        return;
      }
      MissedOneMore(a, b, d, k);
      k := k + 2;
    }
    LayerDone(frontier[..], center, a, b, d, k);
  }

  /**
   The greedy frontier under a trace budget and a work budget.  `found` is the
   distance, or -1 when a budget ran out first; `trace[e]` is the table as it
   stood when layer e began.
   */
  method SearchFrontier(a: seq<Token>, b: seq<Token>, traceLimit: nat, workLimit: nat)
    returns (found: int, trace: seq<seq<int>>, center: int)
    ensures found == -1 || found == Distance(a, b)
    ensures found >= 0 ==> OnFrontier(a, b, found, |a|, |b|)
    ensures found >= 0 ==> |trace| == found + 1 && Saved(trace, center, a, b)
    ensures forall e :: 0 <= e < |trace| ==> InRange(trace[e], a, b)
    ensures found == -1 <==> traceLimit < Distance(a, b) || workLimit < NeededWork(a, b)
  {
    hide Furthest, Filled, InRange;
    var maxD := Min(|a| + |b|, traceLimit);
    var size := 2 * maxD + 3;
    center := maxD + 1;
    var frontier := new int[size](_ => -1);
    frontier[center + 1] := 0;
    SeedInRange(frontier[..], center, a, b);
    trace := [];
    var work: nat := 0;
    found := -1;
    var d: nat := 0;
    while d <= maxD
      invariant 0 <= d <= maxD + 1 && |trace| == d && found == -1
      invariant d <= maxD ==> Ready(frontier[..], center, a, b, d)
      invariant InRange(frontier[..], a, b)
      invariant Saved(trace, center, a, b)
      invariant forall e :: 0 <= e < |trace| ==> InRange(trace[e], a, b)
      invariant Missed(a, b, d)
      invariant work == WorkBefore(a, b, d) <= workLimit
    {
      trace := trace + [frontier[..]];
      var hit;
      work, hit := FillLayer(a, b, frontier, center, d, workLimit, work);
      if hit {
        found := d;
        return;
      }
      if work > workLimit {
        return;
      }
      d := d + 1;
    }
    MissedIsBelowDistance(a, b, d);
    DistanceAtMost(a, b);
  }

  /** One reconstructed edit, with the indices the traceback records. */
  datatype Edit = EqualEdit(a: int, b: int) | InsertEdit(b: int) | DeleteEdit(a: int)

  function OpOf(e: Edit): Op {
    match e
    case EqualEdit(_, _) => Keep
    case InsertEdit(_) => Insert
    case DeleteEdit(_) => Delete
  }

  function Ops(edits: seq<Edit>): (s: seq<Op>)
    ensures |s| == |edits|
  {
    seq(|edits|, i requires 0 <= i < |edits| => OpOf(edits[i]))
  }

  function Reversed(edits: seq<Edit>): seq<Edit> {
    seq(|edits|, i requires 0 <= i < |edits| => edits[|edits| - 1 - i])
  }

  lemma OpsPush(edits: seq<Edit>, e: Edit)
    ensures Ops(Reversed(edits + [e])) == [OpOf(e)] + Ops(Reversed(edits))
  {
  }

  function Kept(n: nat): seq<Op> { seq(n, _ => Keep) }

  /** The script of the walk to layer d's frontier point on diagonal k, by the way the frontier came there. */
  function Traced(a: seq<Token>, b: seq<Token>, d: nat, k: int): seq<Op>
    requires InLayer(d, k)
    decreases d
  {
    var kept := Kept(Furthest(a, b, d, k) - Entry(a, b, d, k));
    if d == 0 then kept
    else if k + d == 0 || (k != d && Furthest(a, b, d - 1, k - 1) < Furthest(a, b, d - 1, k + 1))
    then Traced(a, b, d - 1, k + 1) + [Insert] + kept
    else Traced(a, b, d - 1, k - 1) + [Delete] + kept
  }

  /** What the edits that the traceback has pushed so far spell. */
  function Spelled(edits: seq<Edit>): seq<Op> { Ops(Reversed(edits)) }

  lemma SpelledEqual(edits: seq<Edit>, e: Edit)
    requires e.EqualEdit?
    ensures Spelled(edits + [e]) == [Keep] + Spelled(edits)
  {
    OpsPush(edits, e);
  }

  lemma KeptNothing(rest: seq<Op>)
    ensures Kept(0) + rest == rest
  {
  }

  lemma KeptOneMore(n: nat, rest: seq<Op>)
    ensures [Keep] + (Kept(n) + rest) == Kept(n + 1) + rest
  {
  }

  /** What the traceback has spelled so far: the edits, read backwards, finish the job from (x, y). */
  ghost predicate Finishes(edits: seq<Edit>, a: seq<Token>, b: seq<Token>, x: int, y: int, cost: int) {
    && 0 <= x <= |a| && 0 <= y <= |b|
    && Transforms(Ops(Reversed(edits)), a[x..], b[y..])
    && Cost(Ops(Reversed(edits))) == cost
  }

  lemma FinishesEqual(edits: seq<Edit>, a: seq<Token>, b: seq<Token>, x: int, y: int, cost: int)
    requires Finishes(edits, a, b, x, y, cost) && x > 0 && y > 0 && Equal(a[x - 1], b[y - 1])
    ensures Finishes(edits + [EqualEdit(x - 1, y - 1)], a, b, x - 1, y - 1, cost)
  {
    OpsPush(edits, EqualEdit(x - 1, y - 1));
    assert a[x - 1..][1..] == a[x..] && b[y - 1..][1..] == b[y..];
    assert ([Keep] + Ops(Reversed(edits)))[1..] == Ops(Reversed(edits));
  }

  lemma FinishesDelete(edits: seq<Edit>, a: seq<Token>, b: seq<Token>, x: int, y: int, cost: int)
    requires Finishes(edits, a, b, x, y, cost) && x > 0
    ensures Finishes(edits + [DeleteEdit(x - 1)], a, b, x - 1, y, cost + 1)
  {
    OpsPush(edits, DeleteEdit(x - 1));
    assert a[x - 1..][1..] == a[x..];
    assert ([Delete] + Ops(Reversed(edits)))[1..] == Ops(Reversed(edits));
  }

  lemma FinishesInsert(edits: seq<Edit>, a: seq<Token>, b: seq<Token>, x: int, y: int, cost: int)
    requires Finishes(edits, a, b, x, y, cost) && y > 0
    ensures Finishes(edits + [InsertEdit(y - 1)], a, b, x, y - 1, cost + 1)
  {
    OpsPush(edits, InsertEdit(y - 1));
    assert b[y - 1..][1..] == b[y..];
    assert ([Insert] + Ops(Reversed(edits)))[1..] == Ops(Reversed(edits));
  }

  /** Along the run that ends at Snake(x, y), every token pair is equal. */
  lemma {:induction false} SnakeAgrees(a: seq<Token>, b: seq<Token>, x: int, y: int, p: int)
    requires 0 <= x && 0 <= y && x <= p < Snake(a, b, x, y)
    ensures p < |a| && p - x + y < |b| && Equal(a[p], b[p - x + y])
    decreases |a| - x
  {
    if x < p { SnakeAgrees(a, b, x + 1, y + 1, p); }
  }

  lemma CenterIsWide(row: seq<int>, center: int, a: seq<Token>, b: seq<Token>, d: nat)
    requires Ready(row, center, a, b, d)
    ensures d < center && |row| == 2 * center + 1
  {
  }

  /** A cell of a ready table is a frontier point of the layer before. */
  lemma ReadyCell(row: seq<int>, center: int, a: seq<Token>, b: seq<Token>, d: nat, j: int)
    requires d > 0 && Ready(row, center, a, b, d) && InLayer(d - 1, j)
    ensures 0 <= center + j < |row| && row[center + j] == Furthest(a, b, d - 1, j) >= 0 && row[center + j] >= j
  {
    hide Entry, Furthest;
    FurthestBounds(a, b, d - 1, j);
  }

  /** Where the traceback goes from diagonal k of layer d: the saved table's parent cell. */
  lemma ParentCell(row: seq<int>, center: int, a: seq<Token>, b: seq<Token>, d: nat, k: int)
    requires d > 0 && Ready(row, center, a, b, d) && InLayer(d, k)
    ensures 0 < center + k < |row| - 1
    ensures var parent := Parent(row[center + k - 1], row[center + k + 1], d, k);
            && InLayer(d - 1, parent) && row[center + parent] == Furthest(a, b, d - 1, parent) >= 0
            && row[center + parent] >= parent
            && Entry(a, b, d, k) == if parent == k + 1 then row[center + parent] else row[center + parent] + 1
  {
    ReadyGivesEntry(row, center, a, b, d, k);
    hide Entry, Furthest;
    CenterIsWide(row, center, a, b, d);
    Neighbours(d, k);
    if k < d { ReadyCell(row, center, a, b, d, k + 1); }
    if 0 < k + d { ReadyCell(row, center, a, b, d, k - 1); }
    hide Ready, InLayer;
  }

  /** Walks back along equal tokens while both coordinates are past (stopX, stopY). */
  method WalkBack(a: seq<Token>, b: seq<Token>, edits0: seq<Edit>, x0: int, y0: int, stopX: int, stopY: int,
                  ghost from: int, ghost cost: int)
    returns (edits: seq<Edit>, x: int, y: int)
    requires Finishes(edits0, a, b, x0, y0, cost)
    requires 0 <= stopX <= x0 && 0 <= stopY <= y0
    requires RunOfEqual(a, b, from, x0, x0 - y0) && 0 <= from && (from <= stopX || from <= stopY + x0 - y0)
    ensures Finishes(edits, a, b, x, y, cost)
    ensures x - y == x0 - y0 && stopX <= x <= x0 && stopY <= y && (x == stopX || y == stopY)
    ensures Spelled(edits) == Kept(x0 - x) + Spelled(edits0)
  {
    hide Finishes, Spelled;
    edits, x, y := edits0, x0, y0;
    KeptNothing(Spelled(edits0));
    while x > stopX && y > stopY
      invariant stopX <= x <= x0 && stopY <= y && x - y == x0 - y0
      invariant Finishes(edits, a, b, x, y, cost) && Spelled(edits) == Kept(x0 - x) + Spelled(edits0)
    {
      assert PairEqual(a, b, x - 1, x0 - y0);
      FinishesEqual(edits, a, b, x, y, cost);
      SpelledEqual(edits, EqualEdit(x - 1, y - 1));
      KeptOneMore(x0 - x, Spelled(edits0));
      edits := edits + [EqualEdit(x - 1, y - 1)];
      x, y := x - 1, y - 1;
    }
  }

  /** The traceback stands on layer d's frontier point. */
  ghost predicate OnFrontier(a: seq<Token>, b: seq<Token>, d: nat, x: int, y: int) {
    InLayer(d, x - y) && x == Furthest(a, b, d, x - y)
  }

  /** From the entry point of the layer up to its frontier point, every token pair is equal. */
  lemma RunAgrees(a: seq<Token>, b: seq<Token>, d: nat, x: int, y: int)
    requires OnFrontier(a, b, d, x, y)
    ensures 0 <= Entry(a, b, d, x - y) <= x && 0 <= Entry(a, b, d, x - y) - (x - y)
    ensures RunOfEqual(a, b, Entry(a, b, d, x - y), x, x - y)
  {
    var k := x - y;
    FurthestBounds(a, b, d, k);
    var entry := Entry(a, b, d, k);
    assert x == Snake(a, b, entry, entry - k);
    hide Entry, Furthest, InLayer, Snake;
    forall p | entry <= p < x ensures PairEqual(a, b, p, k) {
      DiagonalAgrees(a, b, entry, k, p);
    }
  }

  lemma DiagonalAgrees(a: seq<Token>, b: seq<Token>, x: int, k: int, p: int)
    requires 0 <= x && 0 <= x - k && x <= p < Snake(a, b, x, x - k)
    ensures PairEqual(a, b, p, k)
  {
    hide Snake;
    SnakeAgrees(a, b, x, x - k, p);
  }

  ghost predicate PairEqual(a: seq<Token>, b: seq<Token>, p: int, k: int) {
    0 <= p < |a| && 0 <= p - k < |b| && Equal(a[p], b[p - k])
  }

  /** On diagonal k, the token pairs from x-coordinate `from` up to `to` are equal. */
  ghost predicate RunOfEqual(a: seq<Token>, b: seq<Token>, from: int, to: int, k: int) {
    forall p :: 0 <= from <= p < to ==> PairEqual(a, b, p, k)
  }

  /** The saved table's parent cell of a frontier point is a frontier point one layer down. */
  lemma ParentPoint(row: seq<int>, center: int, a: seq<Token>, b: seq<Token>, d: nat, x: int, y: int)
    requires d > 0 && Ready(row, center, a, b, d) && OnFrontier(a, b, d, x, y)
    ensures 0 < center + x - y < |row| - 1
    ensures var k := x - y;
            var parent := Parent(row[center + k - 1], row[center + k + 1], d, k);
            && 0 <= center + parent < |row| && (parent == k + 1 || parent == k - 1)
            && var px := row[center + parent];
            && 0 <= px && 0 <= px - parent && OnFrontier(a, b, d - 1, px, px - parent)
            && var entry := if parent == k + 1 then px else px + 1;
            && entry <= x && RunOfEqual(a, b, entry, x, k)
  {
    hide Ready, RunOfEqual, Entry, Furthest;
    ParentCell(row, center, a, b, d, x - y);
    RunAgrees(a, b, d, x, y);
  }

  /** Layer d enters diagonal k from (px, px - parent) and follows equal tokens up to x. */
  ghost predicate IsLastStep(a: seq<Token>, b: seq<Token>, d: nat, px: int, parent: int, x: int, k: int)
    requires d > 0 && InLayer(d, k) && InLayer(d - 1, parent)
  {
    var entry := if parent == k + 1 then px else px + 1;
    && 0 <= entry <= x && RunOfEqual(a, b, entry, x, k)
    && Traced(a, b, d, k)
       == Traced(a, b, d - 1, parent) + [if parent == k + 1 then Insert else Delete] + Kept(x - entry)
  }

  /** The script to a frontier point ends with the step from the saved table's parent cell and the run behind it. */
  lemma TracedParent(row: seq<int>, center: int, a: seq<Token>, b: seq<Token>, d: nat, x: int, y: int)
    requires d > 0 && Ready(row, center, a, b, d) && OnFrontier(a, b, d, x, y)
    requires 0 < center + x - y < |row| - 1
    ensures var k := x - y;
            var parent := Parent(row[center + k - 1], row[center + k + 1], d, k);
            && InLayer(d - 1, parent) && (parent == k + 1 || parent == k - 1)
            && 0 <= center + parent < |row| && IsLastStep(a, b, d, row[center + parent], parent, x, k)
  {
    hide Furthest, Kept, RunOfEqual;
    var k := x - y;
    ParentCell(row, center, a, b, d, k);
    RunAgrees(a, b, d, x, y);
    if 0 < d + k && k < d { assert InLayer(d - 1, k - 1) && InLayer(d - 1, k + 1); }
  }

  /** Pushing the step that entered the layer, behind the run, leaves the whole script as it was. */
  lemma StepSpells(a: seq<Token>, b: seq<Token>, d: nat, k: int, parent: int, kept: seq<Op>,
                   edits: seq<Edit>, e: Edit, rest: seq<Op>)
    requires d > 0 && InLayer(d, k) && InLayer(d - 1, parent) && Spelled(edits) == kept + rest
    requires Traced(a, b, d, k) == Traced(a, b, d - 1, parent) + [if parent == k + 1 then Insert else Delete] + kept
    requires if parent == k + 1 then e.InsertEdit? else e.DeleteEdit?
    ensures Traced(a, b, d - 1, parent) + Spelled(edits + [e]) == Traced(a, b, d, k) + rest
  {
    hide Traced, Ops, Reversed;
    OpsPush(edits, e);
    Regroup(Traced(a, b, d - 1, parent), OpOf(e), kept, rest);
  }

  lemma Regroup(front: seq<Op>, op: Op, kept: seq<Op>, rest: seq<Op>)
    ensures front + ([op] + (kept + rest)) == front + [op] + kept + rest
  {
  }

  /** The run back to the entry of layer d, then the insertion or deletion that came there from (px, px - parent). */
  method StepTo(a: seq<Token>, b: seq<Token>, d: nat, px: int, parent: int,
                edits0: seq<Edit>, x0: int, y0: int, ghost cost: int)
    returns (edits: seq<Edit>, x: int, y: int)
    requires d > 0 && InLayer(d, x0 - y0) && InLayer(d - 1, parent) && (parent == x0 - y0 + 1 || parent == x0 - y0 - 1)
    requires Finishes(edits0, a, b, x0, y0, cost) && 0 <= px && 0 <= px - parent
    requires IsLastStep(a, b, d, px, parent, x0, x0 - y0)
    ensures x == px && y == px - parent && Finishes(edits, a, b, x, y, cost + 1)
    ensures Traced(a, b, d - 1, parent) + Spelled(edits) == Traced(a, b, d, x0 - y0) + Spelled(edits0)
  {
    hide Traced, Finishes, Spelled, Kept, RunOfEqual, InLayer, Ops;
    ghost var k := x0 - y0;
    var stopY := px - parent;
    ghost var entry := if parent == k + 1 then px else px + 1;
    edits, x, y := WalkBack(a, b, edits0, x0, y0, px, stopY, entry, cost);
    if x == px {
      FinishesInsert(edits, a, b, x, y, cost);
      StepSpells(a, b, d, k, parent, Kept(x0 - x), edits, InsertEdit(y - 1), Spelled(edits0));
      edits := edits + [InsertEdit(y - 1)];
      y := y - 1;
    } else {
      FinishesDelete(edits, a, b, x, y, cost);
      StepSpells(a, b, d, k, parent, Kept(x0 - x), edits, DeleteEdit(x - 1), Spelled(edits0));
      edits := edits + [DeleteEdit(x - 1)];
      x := x - 1;
    }
  }

  /** One layer back: the equal run, then the one insertion or deletion that entered it. */
  method StepBack(a: seq<Token>, b: seq<Token>, previous: seq<int>, center: int, d: nat,
                  edits0: seq<Edit>, x0: int, y0: int, ghost cost: int)
    returns (edits: seq<Edit>, x: int, y: int)
    requires d > 0 && Ready(previous, center, a, b, d) && OnFrontier(a, b, d, x0, y0)
    requires Finishes(edits0, a, b, x0, y0, cost)
    ensures OnFrontier(a, b, d - 1, x, y) && Finishes(edits, a, b, x, y, cost + 1)
    ensures Traced(a, b, d - 1, x - y) + Spelled(edits) == Traced(a, b, d, x0 - y0) + Spelled(edits0)
  {
    hide Traced, Finishes, Spelled, Furthest, Entry, InLayer, Ready, IsLastStep, RunOfEqual;
    var k := x0 - y0;
    ParentPoint(previous, center, a, b, d, x0, y0);
    TracedParent(previous, center, a, b, d, x0, y0);
    var parent := Parent(previous[center + k - 1], previous[center + k + 1], d, k);
    var px := previous[center + parent];
    edits, x, y := StepTo(a, b, d, px, parent, edits0, x0, y0, cost);
  }

  /** Deletes and inserts whatever is left before (x0, y0). */
  method RunOut(a: seq<Token>, b: seq<Token>, edits0: seq<Edit>, x0: int, y0: int, ghost cost: int)
    returns (edits: seq<Edit>)
    requires Finishes(edits0, a, b, x0, y0, cost)
    ensures Finishes(edits, a, b, 0, 0, cost + x0 + y0)
    ensures x0 == y0 == 0 ==> edits == edits0
  {
    edits := edits0;
    var x, y := x0, y0;
    while x > 0
      invariant Finishes(edits, a, b, x, y0, cost + x0 - x) && (x0 == 0 ==> edits == edits0)
    {
      FinishesDelete(edits, a, b, x, y0, cost + x0 - x);
      edits := edits + [DeleteEdit(x - 1)];
      x := x - 1;
    }
    while y > 0
      invariant Finishes(edits, a, b, 0, y, cost + x0 + y0 - y) && (x0 == y0 == 0 ==> edits == edits0)
    {
      FinishesInsert(edits, a, b, 0, y, cost + x0 + y0 - y);
      edits := edits + [InsertEdit(y - 1)];
      y := y - 1;
    }
  }

  lemma TraceStarts(a: seq<Token>, b: seq<Token>, d: nat)
    requires OnFrontier(a, b, d, |a|, |b|)
    ensures Finishes([], a, b, |a|, |b|, 0)
    ensures InLayer(d, |a| - |b|) && Traced(a, b, d, |a| - |b|) + Spelled([]) == Traced(a, b, d, |a| - |b|)
  {
    hide Furthest, Traced;
  }

  lemma TracedAtStart(a: seq<Token>, b: seq<Token>, x: int, y: int)
    requires OnFrontier(a, b, 0, x, y)
    ensures x == y >= 0 && InLayer(0, x - y) && Traced(a, b, 0, x - y) == Kept(x) && Entry(a, b, 0, x - y) == 0
  {
    hide Snake;
  }

  lemma TraceEnds(edits: seq<Edit>, a: seq<Token>, b: seq<Token>, cost: int)
    requires Finishes(edits, a, b, 0, 0, cost)
    ensures Spelled(edits) == Ops(Reversed(edits))
    ensures Transforms(Spelled(edits), a, b) && Cost(Spelled(edits)) == cost
  {
    hide Transforms, Cost, Ops, Reversed;
    assert a[0..] == a && b[0..] == b;
  }

  /** Reads the edits off the saved frontiers, from the far corner back to (0,0). */
  method Traceback(a: seq<Token>, b: seq<Token>, found: nat, trace: seq<seq<int>>, center: int)
    returns (edits: seq<Edit>)
    requires OnFrontier(a, b, found, |a|, |b|)
    requires |trace| == found + 1 && Saved(trace, center, a, b)
    ensures Transforms(Ops(edits), a, b) && Cost(Ops(edits)) == found
    ensures InLayer(found, |a| - |b|) && Ops(edits) == Traced(a, b, found, |a| - |b|)
  {
    hide Furthest, Entry, Traced, Finishes, Spelled, Ops, Reversed, Transforms, Cost, Kept, RunOfEqual, Ready;
    edits := [];
    TraceStarts(a, b, found);
    var x, y := |a|, |b|;
    var d := found;
    while d > 0
      invariant 0 <= d <= found
      invariant Finishes(edits, a, b, x, y, found - d) && OnFrontier(a, b, d, x, y)
      invariant Traced(a, b, d, x - y) + Spelled(edits) == Traced(a, b, found, |a| - |b|)
    {
      edits, x, y := StepBack(a, b, trace[d], center, d, edits, x, y, found - d);
      d := d - 1;
    }
    RunAgrees(a, b, 0, x, y);
    TracedAtStart(a, b, x, y);
    edits, x, y := WalkBack(a, b, edits, x, y, 0, 0, 0, found);
    edits := RunOut(a, b, edits, x, y, found);
    TraceEnds(edits, a, b, found);
    edits := Reversed(edits);
  }
}
