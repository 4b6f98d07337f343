/**
 Hunks over two token lists, when a list of hunks is a patch, and what
 applying a patch gives.
 */
module Patches {
  import opened EditDistance

  datatype Hunk = Hunk(
    fromA: int, toA: int, fromB: int, toB: int,
    deleted: seq<Token>, inserted: seq<Token>, simplified: bool)

  /** The hunk quotes the ranges it names. */
  ghost predicate Spells(h: Hunk, a: seq<Token>, b: seq<Token>) {
    && 0 <= h.fromA <= h.toA <= |a| && 0 <= h.fromB <= h.toB <= |b|
    && h.deleted == a[h.fromA..h.toA] && h.inserted == b[h.fromB..h.toB]
  }

  /** Between (endA, endB) and the hunk, at least `gap` tokens are kept, and all of them agree. */
  ghost predicate Follows(endA: int, endB: int, gap: int, h: Hunk, a: seq<Token>, b: seq<Token>) {
    && Spells(h, a, b)
    && h.fromA - endA == h.fromB - endB >= gap
    && Agree(a, b, endA, endB, h.fromA - endA)
  }

  ghost predicate NonEmpty(h: Hunk) { h.fromA < h.toA || h.fromB < h.toB }

  ghost function EndA(hunks: seq<Hunk>, k: nat): int
    requires k <= |hunks|
  {
    if k == 0 then 0 else hunks[k - 1].toA
  }

  ghost function EndB(hunks: seq<Hunk>, k: nat): int
    requires k <= |hunks|
  {
    if k == 0 then 0 else hunks[k - 1].toB
  }

  /** The hunk numbered k: not empty, in order, and apart from its predecessor by a kept token. */
  ghost predicate InOrder(hunks: seq<Hunk>, k: nat, a: seq<Token>, b: seq<Token>)
    requires k < |hunks|
  {
    NonEmpty(hunks[k]) && Follows(EndA(hunks, k), EndB(hunks, k), if k == 0 then 0 else 1, hunks[k], a, b)
  }

  ghost predicate PatchPrefix(hunks: seq<Hunk>, a: seq<Token>, b: seq<Token>) {
    forall k :: 0 <= k < |hunks| ==> InOrder(hunks, k, a, b)
  }

  /** The last hunk is followed by agreeing tokens to the end of both lists. */
  ghost predicate ValidPatch(hunks: seq<Hunk>, a: seq<Token>, b: seq<Token>) {
    && PatchPrefix(hunks, a, b)
    && |a| - EndA(hunks, |hunks|) == |b| - EndB(hunks, |hunks|)
    && Agree(a, b, EndA(hunks, |hunks|), EndB(hunks, |hunks|), |a| - EndA(hunks, |hunks|))
  }

  lemma PatchPrefixAppend(hunks: seq<Hunk>, h: Hunk, a: seq<Token>, b: seq<Token>)
    requires PatchPrefix(hunks, a, b) && NonEmpty(h)
    requires Follows(EndA(hunks, |hunks|), EndB(hunks, |hunks|), if hunks == [] then 0 else 1, h, a, b)
    ensures PatchPrefix(hunks + [h], a, b)
  {
    var all := hunks + [h];
    forall k | 0 <= k < |all| ensures InOrder(all, k, a, b) {
      if k < |hunks| { assert InOrder(hunks, k, a, b); }
    }
  }

  /** How many tokens the hunks delete and insert. */
  function Changed(hunks: seq<Hunk>): nat {
    if hunks == [] then 0
    else Changed(hunks[..|hunks| - 1]) + |hunks[|hunks| - 1].deleted| + |hunks[|hunks| - 1].inserted|
  }

  lemma ChangedAppend(hunks: seq<Hunk>, h: Hunk)
    ensures Changed(hunks + [h]) == Changed(hunks) + |h.deleted| + |h.inserted|
  {
    assert (hunks + [h])[..|hunks|] == hunks;
  }

  /** Every hunk of a valid patch changes something. */
  lemma {:induction false} ChangedAtLeastCount(hunks: seq<Hunk>, a: seq<Token>, b: seq<Token>)
    requires PatchPrefix(hunks, a, b)
    ensures |hunks| <= Changed(hunks)
  {
    if hunks != [] {
      var front := hunks[..|hunks| - 1];
      assert InOrder(hunks, |hunks| - 1, a, b);
      forall k | 0 <= k < |front| ensures InOrder(front, k, a, b) { assert InOrder(hunks, k, a, b); }
      ChangedAtLeastCount(front, a, b);
    }
  }

  /** `a` from `from` on, with each hunk's range replaced by the tokens the hunk inserts. */
  function Patched(a: seq<Token>, hunks: seq<Hunk>, from: int): seq<Token> {
    if hunks == [] then (if 0 <= from <= |a| then a[from..] else [])
    else
      (if 0 <= from <= hunks[0].fromA <= |a| then a[from..hunks[0].fromA] else [])
      + hunks[0].inserted + Patched(a, hunks[1..], hunks[0].toA)
  }

  /** Token for token the same or equal; sameness alone covers tokens that equal nothing. */
  ghost predicate Matches(x: seq<Token>, y: seq<Token>) {
    |x| == |y| && forall p :: 0 <= p < |x| ==> x[p] == y[p] || Equal(x[p], y[p])
  }

  lemma MatchesConcat(x: seq<Token>, y: seq<Token>, u: seq<Token>, v: seq<Token>)
    requires Matches(x, y) && Matches(u, v)
    ensures Matches(x + u, y + v)
  {
  }

  lemma AgreeMatches(a: seq<Token>, b: seq<Token>, i: int, j: int, len: int)
    requires Agree(a, b, i, j, len)
    ensures Matches(a[i..i + len], b[j..j + len])
  {
    var x, y := a[i..i + len], b[j..j + len];
    forall p | 0 <= p < |x| ensures x[p] == y[p] || Equal(x[p], y[p]) {
      assert Equal(a[i + p], b[i + p - i + j]);
    }
  }

  lemma MatchesItself(x: seq<Token>)
    ensures Matches(x, x)
  {
  }

  lemma PatchedFront(a: seq<Token>, hunks: seq<Hunk>, k: nat, from: int)
    requires k < |hunks| && 0 <= from <= hunks[k].fromA <= |a|
    ensures Patched(a, hunks[k..], from)
        == a[from..hunks[k].fromA] + hunks[k].inserted + Patched(a, hunks[k + 1..], hunks[k].toA)
  {
    assert hunks[k..][0] == hunks[k] && hunks[k..][1..] == hunks[k + 1..];
  }

  /** One hunk in front of a part that matches. */
  lemma PatchedStep(hunks: seq<Hunk>, a: seq<Token>, b: seq<Token>, k: nat)
    requires k < |hunks| && InOrder(hunks, k, a, b)
    requires 0 <= EndA(hunks, k) <= |a| && 0 <= EndB(hunks, k) <= |b|
    requires 0 <= hunks[k].toB <= |b| && Matches(Patched(a, hunks[k + 1..], hunks[k].toA), b[hunks[k].toB..])
    ensures Matches(Patched(a, hunks[k..], EndA(hunks, k)), b[EndB(hunks, k)..])
  {
    var i, j, h := EndA(hunks, k), EndB(hunks, k), hunks[k];
    HunkInPlace(hunks, a, b, k);
    hide *;
    var rest := Patched(a, hunks[k + 1..], h.toA);
    PatchedFront(a, hunks, k, i);
    AgreeMatches(a, b, i, j, h.fromA - i);
    ThreeMatch(a[i..h.fromA], b[j..h.fromB], h.inserted, rest, b[h.toB..]);
    ThreeParts(b, j, h.fromB, h.toB);
  }

  lemma HunkInPlace(hunks: seq<Hunk>, a: seq<Token>, b: seq<Token>, k: nat)
    requires k < |hunks| && InOrder(hunks, k, a, b)
    requires 0 <= EndA(hunks, k) <= |a| && 0 <= EndB(hunks, k) <= |b|
    ensures var i, j, h := EndA(hunks, k), EndB(hunks, k), hunks[k];
      && i <= h.fromA <= |a| && j <= h.fromB <= h.toB <= |b| && h.inserted == b[h.fromB..h.toB]
      && h.fromA - i == h.fromB - j && Agree(a, b, i, j, h.fromA - i)
  {
    hide Agree;
  }

  lemma ThreeMatch(x: seq<Token>, y: seq<Token>, same: seq<Token>, u: seq<Token>, v: seq<Token>)
    requires Matches(x, y) && Matches(u, v)
    ensures Matches(x + same + u, y + same + v)
  {
    MatchesItself(same);
    hide Matches;
    MatchesConcat(x, y, same, same);
    MatchesConcat(x + same, y + same, u, v);
  }

  lemma ThreeParts(b: seq<Token>, i: int, j: int, k: int)
    requires 0 <= i <= j <= k <= |b|
    ensures b[i..] == b[i..j] + b[j..k] + b[k..]
  {
  }

  /** Past the last hunk both lists agree to their ends. */
  lemma PatchedRest(hunks: seq<Hunk>, a: seq<Token>, b: seq<Token>)
    requires ValidPatch(hunks, a, b)
    ensures var i, j := EndA(hunks, |hunks|), EndB(hunks, |hunks|);
      0 <= i <= |a| && 0 <= j <= |b| && Matches(Patched(a, [], i), b[j..])
  {
    hide Agree, Matches;
    var i, j := EndA(hunks, |hunks|), EndB(hunks, |hunks|);
    AgreeBounds(a, b, i, j, |a| - i);
    AgreeMatches(a, b, i, j, |a| - i);
    assert a[i..|a|] == a[i..] && b[j..|b|] == b[j..];
  }

  lemma AgreeBounds(a: seq<Token>, b: seq<Token>, i: int, j: int, len: int)
    requires Agree(a, b, i, j, len)
    ensures 0 <= i && 0 <= j && 0 <= len && i + len <= |a| && j + len <= |b|
  {
  }

  lemma {:induction false} PatchedFrom(hunks: seq<Hunk>, a: seq<Token>, b: seq<Token>, k: nat)
    requires ValidPatch(hunks, a, b) && k <= |hunks|
    ensures 0 <= EndA(hunks, k) <= |a| && 0 <= EndB(hunks, k) <= |b|
    ensures Matches(Patched(a, hunks[k..], EndA(hunks, k)), b[EndB(hunks, k)..])
    decreases |hunks| - k
  {
    hide Patched, Matches, Agree;
    if k == |hunks| {
      PatchedRest(hunks, a, b);
      assert hunks[k..] == [];
    } else {
      PatchedFrom(hunks, a, b, k + 1);
      EndsInOrder(hunks, a, b, k);
      PatchedStep(hunks, a, b, k);
    }
  }

  lemma EndsInOrder(hunks: seq<Hunk>, a: seq<Token>, b: seq<Token>, k: nat)
    requires ValidPatch(hunks, a, b) && k < |hunks|
    ensures InOrder(hunks, k, a, b) && 0 <= EndA(hunks, k) <= |a| && 0 <= EndB(hunks, k) <= |b|
  {
    hide Agree;
    assert InOrder(hunks, k, a, b);
    if k > 0 { assert InOrder(hunks, k - 1, a, b); }
  }

  /** Soundness: applying a valid patch to `a` gives `b`, up to token equality. */
  lemma PatchedMatches(hunks: seq<Hunk>, a: seq<Token>, b: seq<Token>)
    requires ValidPatch(hunks, a, b)
    ensures Matches(Patched(a, hunks, 0), b)
  {
    PatchedFrom(hunks, a, b, 0);
    assert hunks[0..] == hunks && b[0..] == b;
  }

  /** `keep` agreeing tokens, then `del` deletions, then `ins` insertions, ahead of a script. */
  lemma {:induction false} PrependRun(
    s: seq<Op>, a: seq<Token>, b: seq<Token>, i: int, j: int, keep: nat, del: nat, ins: nat) returns (t: seq<Op>)
    requires 0 <= i && 0 <= j && i + keep + del <= |a| && j + keep + ins <= |b|
    requires Agree(a, b, i, j, keep)
    requires Transforms(s, a[i + keep + del..], b[j + keep + ins..])
    ensures Transforms(t, a[i..], b[j..]) && Cost(t) == Cost(s) + del + ins
    decreases keep + del + ins
  {
    if keep > 0 {
      assert Equal(a[i], b[j]);
      var r := PrependRun(s, a, b, i + 1, j + 1, keep - 1, del, ins);
      t := [Keep] + r;
      assert t[1..] == r && a[i..][1..] == a[i + 1..] && b[j..][1..] == b[j + 1..];
    } else if del > 0 {
      var r := PrependRun(s, a, b, i + 1, j, 0, del - 1, ins);
      t := [Delete] + r;
      assert t[1..] == r && a[i..][1..] == a[i + 1..];
    } else if ins > 0 {
      var r := PrependRun(s, a, b, i, j + 1, 0, 0, ins - 1);
      t := [Insert] + r;
      assert t[1..] == r && b[j..][1..] == b[j + 1..];
    } else {
      t := s;
    }
  }

  lemma ChangedStep(hunks: seq<Hunk>, k: nat)
    requires k < |hunks|
    ensures Changed(hunks[..k + 1]) == Changed(hunks[..k]) + |hunks[k].deleted| + |hunks[k].inserted|
  {
    assert hunks[..k + 1] == hunks[..k] + [hunks[k]];
    ChangedAppend(hunks[..k], hunks[k]);
  }

  lemma EndsInRange(hunks: seq<Hunk>, a: seq<Token>, b: seq<Token>, k: nat)
    requires ValidPatch(hunks, a, b) && k <= |hunks|
    ensures 0 <= EndA(hunks, k) <= |a| && 0 <= EndB(hunks, k) <= |b|
  {
    if k > 0 { assert InOrder(hunks, k - 1, a, b); }
  }

  /** What is left of `a` after hunk k is turned into what is left of `b`, at the price of the later hunks. */
  lemma {:induction false} PatchIsScript(hunks: seq<Hunk>, a: seq<Token>, b: seq<Token>, k: nat) returns (s: seq<Op>)
    requires ValidPatch(hunks, a, b) && k <= |hunks|
    ensures 0 <= EndA(hunks, k) <= |a| && 0 <= EndB(hunks, k) <= |b|
    ensures Transforms(s, a[EndA(hunks, k)..], b[EndB(hunks, k)..])
    ensures Cost(s) + Changed(hunks[..k]) == Changed(hunks)
    decreases |hunks| - k
  {
    var i, j := EndA(hunks, k), EndB(hunks, k);
    EndsInRange(hunks, a, b, k);
    if k == |hunks| {
      s := PrependRun([], a, b, i, j, |a| - i, 0, 0);
      assert hunks[..k] == hunks;
    } else {
      var h := hunks[k];
      assert InOrder(hunks, k, a, b);
      var r := PatchIsScript(hunks, a, b, k + 1);
      ChangedStep(hunks, k);
      s := PrependRun(r, a, b, i, j, h.fromA - i, h.toA - h.fromA, h.toB - h.fromB);
    }
  }

  /** No valid patch changes fewer tokens than the distance. */
  lemma PatchAtLeastDistance(hunks: seq<Hunk>, a: seq<Token>, b: seq<Token>)
    requires ValidPatch(hunks, a, b)
    ensures Distance(a, b) <= Changed(hunks)
  {
    var s := PatchIsScript(hunks, a, b, 0);
    assert a[0..] == a && b[0..] == b && hunks[..0] == [];
    DistanceIsLowerBound(s, a, b);
  }
}
