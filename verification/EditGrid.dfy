/**
 The edit grid the bounded diff walks, extended past the token lists.

 A walk starts at (0,0); it may always step right (delete a token) or down
 (insert a token), also outside the |a| x |b| box, and may step diagonally
 where both tokens exist and are equal.  `Furthest` is the greedy frontier:
 on each diagonal the largest x a walk with exactly d right and down steps
 can reach.
 */
module EditGrid {
  import opened Basics
  import opened EditDistance

  /** Some walk with exactly `d` right or down steps ends at (x, y). */
  ghost predicate Reach(a: seq<Token>, b: seq<Token>, d: int, x: int, y: int)
    decreases if x >= 0 && y >= 0 then x + y else 0
  {
    && d >= 0 && x >= 0 && y >= 0
    && ( || (d == 0 && x == 0 && y == 0)
         || (x > 0 && Reach(a, b, d - 1, x - 1, y))
         || (y > 0 && Reach(a, b, d - 1, x, y - 1))
         || (0 < x <= |a| && 0 < y <= |b| && Equal(a[x - 1], b[y - 1]) && Reach(a, b, d, x - 1, y - 1)))
  }

  /** The diagonals k = x - y that layer d of the frontier holds. */
  predicate InLayer(d: int, k: int) { -d <= k <= d && (d + k) % 2 == 0 }

  /** Where the run of equal tokens from (x, y) ends; the x of that point. */
  function Snake(a: seq<Token>, b: seq<Token>, x: int, y: int): (r: int)
    ensures r >= x
    ensures 0 <= x <= |a| ==> r <= |a|
    ensures !(0 <= x < |a|) ==> r == x
    decreases |a| - x
  {
    if 0 <= x < |a| && 0 <= y < |b| && Equal(a[x], b[y]) then Snake(a, b, x + 1, y + 1) else x
  }

  /** Which neighbouring diagonal layer d extends on diagonal k. */
  function Parent(left: int, right: int, d: int, k: int): int {
    if k == -d || (k != d && left < right) then k + 1 else k - 1
  }

  /** Where layer d enters diagonal k, before it follows equal tokens. */
  function Entry(a: seq<Token>, b: seq<Token>, d: nat, k: int): int
    requires InLayer(d, k)
    decreases d, 0
  {
    if d == 0 then 0
    else if k + d == 0 || (k != d && Furthest(a, b, d - 1, k - 1) < Furthest(a, b, d - 1, k + 1))
    then Furthest(a, b, d - 1, k + 1)
    else Furthest(a, b, d - 1, k - 1) + 1
  }

  function Furthest(a: seq<Token>, b: seq<Token>, d: nat, k: int): int
    requires InLayer(d, k)
    decreases d, 1
  {
    var x := Entry(a, b, d, k);
    Snake(a, b, x, x - k)
  }

  lemma {:induction false} ReachStaysInLayer(a: seq<Token>, b: seq<Token>, d: int, x: int, y: int)
    requires Reach(a, b, d, x, y)
    ensures InLayer(d, x - y)
    decreases x + y
  {
    if d == 0 && x == 0 && y == 0 {
    } else if x > 0 && Reach(a, b, d - 1, x - 1, y) {
      ReachStaysInLayer(a, b, d - 1, x - 1, y);
    } else if y > 0 && Reach(a, b, d - 1, x, y - 1) {
      ReachStaysInLayer(a, b, d - 1, x, y - 1);
    } else {
      ReachStaysInLayer(a, b, d, x - 1, y - 1);
    }
  }

  lemma {:induction false} SnakeReach(a: seq<Token>, b: seq<Token>, d: int, x: int, y: int)
    requires Reach(a, b, d, x, y)
    ensures var r := Snake(a, b, x, y); Reach(a, b, d, r, r - x + y)
    decreases |a| - x
  {
    if x < |a| && y < |b| && Equal(a[x], b[y]) {
      SnakeReach(a, b, d, x + 1, y + 1);
    }
  }

  /** A run of equal tokens that starts at or before (x, y) ends at or past it only by passing it. */
  lemma {:induction false} SnakeStops(a: seq<Token>, b: seq<Token>, x: int, y: int)
    ensures var r := Snake(a, b, x, y);
            !(0 <= r < |a| && 0 <= r - x + y < |b| && Equal(a[r], b[r - x + y]))
    decreases |a| - x
  {
    if 0 <= x < |a| && 0 <= y < |b| && Equal(a[x], b[y]) { SnakeStops(a, b, x + 1, y + 1); }
  }

  /** The frontier is reachable. */
  lemma {:induction false} FurthestIsReached(a: seq<Token>, b: seq<Token>, d: nat, k: int)
    requires InLayer(d, k)
    ensures Reach(a, b, d, Entry(a, b, d, k), Entry(a, b, d, k) - k)
    ensures Reach(a, b, d, Furthest(a, b, d, k), Furthest(a, b, d, k) - k)
    decreases d
  {
    hide Snake, Reach, InLayer;
    var x := Entry(a, b, d, k);
    Neighbours(d, k);
    if d == 0 {
      StartReached(a, b);
    } else if k + d == 0 || (k != d && Furthest(a, b, d - 1, k - 1) < Furthest(a, b, d - 1, k + 1)) {
      FurthestIsReached(a, b, d - 1, k + 1);
      StepDown(a, b, d, Furthest(a, b, d - 1, k + 1), k);
    } else {
      FurthestIsReached(a, b, d - 1, k - 1);
      StepRight(a, b, d, Furthest(a, b, d - 1, k - 1), k);
    }
    SnakeReach(a, b, d, x, x - k);
  }

  /** The diagonals of the layer before that a diagonal can be entered from. */
  lemma Neighbours(d: int, k: int)
    requires InLayer(d, k)
    ensures -d <= k <= d && (d == 0 ==> k == 0)
    ensures d > 0 && k < d ==> InLayer(d - 1, k + 1)
    ensures d > 0 && 0 < k + d ==> InLayer(d - 1, k - 1)
  {
  }

  lemma StartReached(a: seq<Token>, b: seq<Token>)
    ensures Reach(a, b, 0, 0, 0)
  {
  }

  lemma StepDown(a: seq<Token>, b: seq<Token>, d: int, x: int, k: int)
    requires Reach(a, b, d - 1, x, x - k - 1)
    ensures Reach(a, b, d, x, x - k)
  {
  }

  lemma StepRight(a: seq<Token>, b: seq<Token>, d: int, x: int, k: int)
    requires Reach(a, b, d - 1, x, x - k + 1)
    ensures Reach(a, b, d, x + 1, x + 1 - k)
  {
  }

  /** The frontier is furthest: no walk with d steps gets further on its diagonal. */
  lemma {:induction false} FurthestIsMaximal(a: seq<Token>, b: seq<Token>, d: nat, x: int, y: int)
    requires Reach(a, b, d, x, y)
    ensures InLayer(d, x - y) && x <= Furthest(a, b, d, x - y)
    decreases x + y
  {
    ReachStaysInLayer(a, b, d, x, y);
    var k := x - y;
    var entry := Entry(a, b, d, k);
    if d == 0 && x == 0 && y == 0 {
    } else if x > 0 && Reach(a, b, d - 1, x - 1, y) {
      FurthestIsMaximal(a, b, d - 1, x - 1, y);
    } else if y > 0 && Reach(a, b, d - 1, x, y - 1) {
      FurthestIsMaximal(a, b, d - 1, x, y - 1);
    } else {
      FurthestIsMaximal(a, b, d, x - 1, y - 1);
      SnakeStops(a, b, entry, entry - k);
    }
  }

  /** Walks that leave the box can be clipped back into it, saving every step taken outside. */
  lemma {:induction false} Clip(a: seq<Token>, b: seq<Token>, d: int, x: int, y: int)
    requires Reach(a, b, d, x, y)
    ensures var cx, cy := Min(x, |a|), Min(y, |b|); Reach(a, b, d - (x - cx) - (y - cy), cx, cy)
    decreases x + y
  {
    if d == 0 && x == 0 && y == 0 {
    } else if x > 0 && Reach(a, b, d - 1, x - 1, y) {
      Clip(a, b, d - 1, x - 1, y);
    } else if y > 0 && Reach(a, b, d - 1, x, y - 1) {
      Clip(a, b, d - 1, x, y - 1);
    } else {
      Clip(a, b, d, x - 1, y - 1);
    }
  }

  /** The far corner lies at or before layer d's frontier on diagonal k. */
  predicate Hit(a: seq<Token>, b: seq<Token>, d: nat, k: int)
    requires InLayer(d, k)
  {
    Furthest(a, b, d, k) >= |a| && Furthest(a, b, d, k) - k >= |b|
  }

  /** A script's cost is the number of steps its walk takes. */
  lemma {:induction false} ScriptReaches(s: seq<Op>, a: seq<Token>, b: seq<Token>, d: int, x: int, y: int)
    requires Reach(a, b, d, x, y) && x <= |a| && y <= |b|
    requires Transforms(s, a[x..], b[y..])
    ensures Reach(a, b, d + Cost(s), |a|, |b|)
    decreases |s|
  {
    if s != [] {
      match s[0]
      case Keep =>
        assert a[x..][1..] == a[x + 1..] && b[y..][1..] == b[y + 1..];
        assert Reach(a, b, d, x + 1, y + 1);
        ScriptReaches(s[1..], a, b, d, x + 1, y + 1);
      case Delete =>
        assert a[x..][1..] == a[x + 1..];
        assert Reach(a, b, d + 1, x + 1, y);
        ScriptReaches(s[1..], a, b, d + 1, x + 1, y);
      case Insert =>
        assert b[y..][1..] == b[y + 1..];
        assert Reach(a, b, d + 1, x, y + 1);
        ScriptReaches(s[1..], a, b, d + 1, x, y + 1);
    }
  }

  lemma CornerReached(a: seq<Token>, b: seq<Token>)
    ensures Reach(a, b, Distance(a, b), |a|, |b|)
  {
    var s := DistanceIsAttained(a, b);
    assert a[0..] == a && b[0..] == b;
    assert Reach(a, b, 0, 0, 0);
    ScriptReaches(s, a, b, 0, 0, 0);
  }

  /** A walk to the far corner is a script. */
  lemma {:induction false} WalkIsScript(a: seq<Token>, b: seq<Token>, d: int, x: int, y: int, s: seq<Op>)
    requires Reach(a, b, d, x, y) && x <= |a| && y <= |b| && Transforms(s, a[x..], b[y..])
    ensures exists t :: Transforms(t, a, b) && Cost(t) == d + Cost(s)
    decreases x + y
  {
    if d == 0 && x == 0 && y == 0 {
      assert a[0..] == a && b[0..] == b;
    } else if x > 0 && Reach(a, b, d - 1, x - 1, y) {
      assert a[x - 1..][1..] == a[x..] && ([Delete] + s)[1..] == s;
      WalkIsScript(a, b, d - 1, x - 1, y, [Delete] + s);
    } else if y > 0 && Reach(a, b, d - 1, x, y - 1) {
      assert b[y - 1..][1..] == b[y..] && ([Insert] + s)[1..] == s;
      WalkIsScript(a, b, d - 1, x, y - 1, [Insert] + s);
    } else {
      assert a[x - 1..][1..] == a[x..] && b[y - 1..][1..] == b[y..] && ([Keep] + s)[1..] == s;
      WalkIsScript(a, b, d, x - 1, y - 1, [Keep] + s);
    }
  }

  /** No walk reaches the far corner in fewer steps than the distance. */
  lemma CornerNotEarlier(a: seq<Token>, b: seq<Token>, d: int)
    requires Reach(a, b, d, |a|, |b|)
    ensures Distance(a, b) <= d
  {
    assert Transforms([], a[|a|..], b[|b|..]);
    WalkIsScript(a, b, d, |a|, |b|, []);
    var t :| Transforms(t, a, b) && Cost(t) == d + Cost([]);
    DistanceIsLowerBound(t, a, b);
  }

  /** A layer whose walks reach the far corner hits it on the corner's own diagonal. */
  lemma CornerIsHit(a: seq<Token>, b: seq<Token>, d: nat)
    requires Reach(a, b, d, |a|, |b|)
    ensures InLayer(d, |a| - |b|) && Hit(a, b, d, |a| - |b|)
  {
    FurthestIsMaximal(a, b, d, |a|, |b|);
  }

  /** A hit d layers out, past the corner, means the corner was reached in fewer steps. */
  lemma HitReachesCorner(a: seq<Token>, b: seq<Token>, d: nat, k: int) returns (e: nat)
    requires InLayer(d, k) && Hit(a, b, d, k)
    ensures e <= d && Reach(a, b, e, |a|, |b|)
    ensures e == d ==> k == |a| - |b| && Furthest(a, b, d, k) == |a|
  {
    var x := Furthest(a, b, d, k);
    FurthestIsReached(a, b, d, k);
    Clip(a, b, d, x, x - k);
    e := d - (x - |a|) - (x - k - |b|);
  }

  /** No layer before `d` has hit the far corner. */
  ghost predicate Missed(a: seq<Token>, b: seq<Token>, d: int) {
    forall e: nat, j: int :: e < d && InLayer(e, j) ==> !Hit(a, b, e, j)
  }

  /** No diagonal of layer d below k hits the far corner. */
  ghost predicate MissedBelow(a: seq<Token>, b: seq<Token>, d: nat, k: int) {
    forall j :: InLayer(d, j) && j < k ==> !Hit(a, b, d, j)
  }

  /**
   The first layer that hits the far corner is the distance, and it hits the
   corner itself: a frontier point past the corner would mean an earlier hit.
   */
  lemma FirstHitIsDistance(a: seq<Token>, b: seq<Token>, d: nat, k: int)
    requires InLayer(d, k) && Hit(a, b, d, k) && Missed(a, b, d)
    ensures d == Distance(a, b) && k == |a| - |b| && Furthest(a, b, d, k) == |a|
  {
    var e := HitReachesCorner(a, b, d, k);
    CornerIsHit(a, b, e);
    assert !(e < d);
    CornerNotEarlier(a, b, d);
    CornerReached(a, b);
    CornerIsHit(a, b, Distance(a, b));
  }

  /** While no layer before d has hit the corner, the distance is at least d. */
  lemma MissedIsBelowDistance(a: seq<Token>, b: seq<Token>, d: nat)
    requires Missed(a, b, d)
    ensures d <= Distance(a, b)
  {
    CornerReached(a, b);
    CornerIsHit(a, b, Distance(a, b));
  }

  /** Frontier values stay small: at most |a| + d, so they fit the 32-bit table. */
  lemma {:induction false} FurthestBounds(a: seq<Token>, b: seq<Token>, d: nat, k: int)
    requires InLayer(d, k)
    ensures 0 <= Entry(a, b, d, k) <= Furthest(a, b, d, k) <= |a| + d
    ensures k <= Entry(a, b, d, k)
    decreases d
  {
    hide Snake;
    FurthestIsReached(a, b, d, k);
    ReachIsInside(a, b, d, Entry(a, b, d, k), Entry(a, b, d, k) - k);
    hide Reach;
    if d > 0 {
      if k + d == 0 || (k != d && Furthest(a, b, d - 1, k - 1) < Furthest(a, b, d - 1, k + 1)) {
        FurthestBounds(a, b, d - 1, k + 1);
      } else {
        FurthestBounds(a, b, d - 1, k - 1);
      }
    }
  }

  lemma ReachIsInside(a: seq<Token>, b: seq<Token>, d: int, x: int, y: int)
    requires Reach(a, b, d, x, y)
    ensures x >= 0 && y >= 0
  {
  }
}
