/**
 What the frontier search costs: the work counter of
 web/src/lib/diff-display.js, which grows by one for every diagonal and by one
 for every equal pair of tokens that is followed, as a function of the two
 lists; and an upper estimate of it in terms of the distance alone.
 */
module FrontierWork {
  import opened Basics
  import opened EditDistance
  import opened EditGrid

  /** One diagonal: its run of equal tokens, and one. */
  function DiagonalWork(a: seq<Token>, b: seq<Token>, d: nat, k: int): (w: nat)
    requires InLayer(d, k)
    ensures w >= 1
  {
    Furthest(a, b, d, k) - Entry(a, b, d, k) + 1
  }

  /** The diagonals of layer d below k. */
  function LayerWork(a: seq<Token>, b: seq<Token>, d: nat, k: int): nat
    requires 0 - d <= k <= d + 2 && (d + k) % 2 == 0
    decreases k + d
  {
    if k + d == 0 then 0 else LayerWork(a, b, d, k - 2) + DiagonalWork(a, b, d, k - 2)
  }

  /** All layers before layer d. */
  function WorkBefore(a: seq<Token>, b: seq<Token>, d: nat): nat {
    if d == 0 then 0 else WorkBefore(a, b, d - 1) + LayerWork(a, b, d - 1, d + 1)
  }

  /** The counter when the search arrives at the far corner. */
  ghost function NeededWork(a: seq<Token>, b: seq<Token>): nat {
    CornerReached(a, b);
    CornerIsHit(a, b, Distance(a, b));
    WorkBefore(a, b, Distance(a, b)) + LayerWork(a, b, Distance(a, b), |a| - |b| + 2)
  }

  lemma {:induction false} LayerWorkMonotone(a: seq<Token>, b: seq<Token>, d: nat, j: int, k: int)
    requires 0 - d <= j <= k <= d + 2 && (d + j) % 2 == 0 && (d + k) % 2 == 0
    ensures LayerWork(a, b, d, j) <= LayerWork(a, b, d, k)
    decreases k - j
  {
    hide DiagonalWork;
    if j < k { LayerWorkMonotone(a, b, d, j, k - 2); }
  }

  lemma {:induction false} WorkBeforeMonotone(a: seq<Token>, b: seq<Token>, d: nat, e: nat)
    requires d <= e
    ensures WorkBefore(a, b, d) <= WorkBefore(a, b, e)
    decreases e
  {
    if d < e { WorkBeforeMonotone(a, b, d, e - 1); }
  }

  lemma CornerIsAhead(a: seq<Token>, b: seq<Token>, d: nat, k: int)
    requires InLayer(d, k) && Missed(a, b, d) && MissedBelow(a, b, d, k)
    ensures d <= Distance(a, b) && InLayer(Distance(a, b), |a| - |b|)
    ensures d == Distance(a, b) ==> k <= |a| - |b|
  {
    hide Distance, Furthest;
    MissedIsBelowDistance(a, b, d);
    CornerReached(a, b);
    CornerIsHit(a, b, Distance(a, b));
  }

  /** While the far corner is not hit, the counter has not passed what the search needs. */
  lemma VisitedIsNeeded(a: seq<Token>, b: seq<Token>, d: nat, k: int)
    requires InLayer(d, k) && Missed(a, b, d) && MissedBelow(a, b, d, k)
    ensures WorkBefore(a, b, d) + LayerWork(a, b, d, k + 2) <= NeededWork(a, b)
  {
    hide DiagonalWork, Distance, Hit, Missed;
    var distance := Distance(a, b);
    CornerIsAhead(a, b, d, k);
    if d < distance {
      LayerWorkMonotone(a, b, d, k + 2, d + 2);
      WorkBeforeMonotone(a, b, d + 1, distance);
    } else {
      LayerWorkMonotone(a, b, d, k + 2, |a| - |b| + 2);
    }
  }

  // ----- An upper estimate -----

  /** 1 + 2 + ... + d: how many diagonals the layers before d visit. */
  function Triangle(d: nat): nat { if d == 0 then 0 else Triangle(d - 1) + d }

  /** No diagonal costs more than the shorter list and one. */
  function WorkBound(a: seq<Token>, b: seq<Token>, visits: nat): nat { visits * (Min(|a|, |b|) + 1) }

  lemma WorkBoundSum(a: seq<Token>, b: seq<Token>, v: nat, w: nat)
    ensures WorkBound(a, b, v + w) == WorkBound(a, b, v) + WorkBound(a, b, w)
    ensures WorkBound(a, b, 1) == Min(|a|, |b|) + 1
  {
  }

  lemma {:induction false} SnakeIsShort(a: seq<Token>, b: seq<Token>, x: int, y: int)
    ensures Snake(a, b, x, y) == x || (Snake(a, b, x, y) <= |a| && Snake(a, b, x, y) - x + y <= |b|)
    decreases |a| - x
  {
    if 0 <= x < |a| && 0 <= y < |b| && Equal(a[x], b[y]) { SnakeIsShort(a, b, x + 1, y + 1); }
  }

  lemma DiagonalWorkBound(a: seq<Token>, b: seq<Token>, d: nat, k: int)
    requires InLayer(d, k)
    ensures DiagonalWork(a, b, d, k) <= Min(|a|, |b|) + 1
  {
    FurthestBounds(a, b, d, k);
    hide Entry;
    var x := Entry(a, b, d, k);
    SnakeIsShort(a, b, x, x - k);
    hide Snake;
  }

  lemma {:induction false} LayerWorkBound(a: seq<Token>, b: seq<Token>, d: nat, k: int, visits: nat)
    requires 0 - d <= k <= d + 2 && d + k == 2 * visits
    ensures LayerWork(a, b, d, k) <= WorkBound(a, b, visits)
    decreases visits
  {
    hide DiagonalWork, WorkBound;
    if visits > 0 {
      LayerWorkBound(a, b, d, k - 2, visits - 1);
      DiagonalWorkBound(a, b, d, k - 2);
      WorkBoundSum(a, b, visits - 1, 1);
    }
  }

  lemma {:induction false} WorkBeforeBound(a: seq<Token>, b: seq<Token>, d: nat)
    ensures WorkBefore(a, b, d) <= WorkBound(a, b, Triangle(d))
    decreases d
  {
    hide LayerWork, WorkBound;
    if d > 0 {
      WorkBeforeBound(a, b, d - 1);
      LayerWorkBound(a, b, d - 1, d + 1, d);
      WorkBoundSum(a, b, Triangle(d - 1), d);
    }
  }

  /** The distance and the shorter list bound the work. */
  lemma NeededWorkBound(a: seq<Token>, b: seq<Token>)
    ensures NeededWork(a, b) <= WorkBound(a, b, Triangle(Distance(a, b) + 1))
  {
    hide WorkBound, Triangle, DiagonalWork;
    var d := Distance(a, b);
    CornerReached(a, b);
    CornerIsHit(a, b, d);
    hide Distance, Hit;
    LayerWorkMonotone(a, b, d, |a| - |b| + 2, d + 2);
    WorkBeforeBound(a, b, d + 1);
  }
}
