/**
 Which slices of the new text show the unchanged stretches between the edits,
 and which show what the edits insert.
 */
module EditSlices {
  import opened SourceEdits

  ghost predicate IsSlice(next: string, from: int, to: int, s: string) {
    0 <= from <= to <= |next| && s == next[from..to]
  }

  lemma SlicesJoin(next: string, a: int, b: int, c: int, s: string, t: string)
    requires IsSlice(next, a, b, s) && IsSlice(next, b, c, t)
    ensures IsSlice(next, a, c, s + t)
  {
  }

  lemma PartOfSlice(next: string, a: int, b: int, s: string, i: nat, j: nat)
    requires IsSlice(next, a, b, s) && i <= j <= |s|
    ensures IsSlice(next, a + i, a + j, s[i..j])
  {
    forall k | 0 <= k < j - i ensures s[i..j][k] == next[a + i..a + j][k] {
      assert s[i..j][k] == s[i + k] == next[a..b][i + k] == next[a + i + k];
    }
  }

  lemma {:induction false} GrowthSplits<T>(edits: seq<Edit<T>>, k: nat)
    requires k <= |edits|
    ensures Growth(edits) == Growth(edits[..k]) + Growth(edits[k..])
  {
    if k == |edits| {
      assert edits[..k] == edits && edits[k..] == [];
    } else {
      var front := edits[..|edits| - 1];
      GrowthSplits(front, k);
      assert front[..k] == edits[..k] && edits[k..][..|edits[k..]| - 1] == front[k..];
    }
  }

  /** Edit number k is the first that does not lie before `p`. */
  ghost predicate Between<T>(edits: seq<Edit<T>>, k: nat, p: int) {
    k <= |edits| && (k > 0 ==> edits[k - 1].End() <= p) && (k < |edits| ==> p <= edits[k].at)
  }

  /** A place between two edits is moved by the growth of the edits before it, and stays inside the new text. */
  lemma GapInRange<T>(text: seq<T>, edits: seq<Edit<T>>, k: nat, c: nat)
    requires Fits(edits, |text|) && c <= |text| && Between(edits, k, c)
    ensures 0 <= c + Growth(edits[..k]) <= |Apply(text, edits)|
  {
    ApplyLength(text, edits, 0);
    ApplyLength(text, edits[k..], c);
    ApplyLength(text[..c], edits[..k], 0);
    GrowthSplits(edits, k);
  }

  /** A character between two edits is moved the same way. */
  lemma {:induction false} GapImage<T>(edits: seq<Edit<T>>, n: int, k: nat, p: int)
    requires Fits(edits, n) && Between(edits, k, p) && (k < |edits| ==> p < edits[k].at)
    ensures Survives(edits, p) && Shift(edits, p) == Growth(edits[..k])
    decreases |edits|
  {
    if k == 0 {
      assert edits[..0] == [];
      forall i | 0 <= i < |edits| ensures p < edits[i].at && p < edits[i].End() { assert edits[0].at <= edits[i].at; }
      ShiftNone(edits, p);
    } else {
      TailFits(edits, 0, n);
      assert edits[..k][1..] == edits[1..][..k - 1];
      GrowthFront(edits[..k]);
      assert edits[0].End() <= p by { if k > 1 { assert edits[0].End() <= edits[k - 1].at; } }
      GapImage(edits[1..], n, k - 1, p);
      forall i | 0 <= i < |edits| ensures !(edits[i].at <= p < edits[i].End()) {
        if i > 0 { assert edits[i] == edits[1..][i - 1]; }
      }
    }
  }

  /** Text between two edits stands where it is moved to. */
  lemma GapMoves(text: string, edits: seq<Edit<char>>, k: nat, c: nat, d: nat)
    requires Fits(edits, |text|) && c <= d <= |text| && Between(edits, k, c) && Between(edits, k, d)
    ensures IsSlice(Apply(text, edits), c + Growth(edits[..k]), d + Growth(edits[..k]), text[c..d])
  {
    var next, moved := Apply(text, edits), Growth(edits[..k]);
    GapInRange(text, edits, k, c);
    GapInRange(text, edits, k, d);
    hide Apply, Growth, Fits, Survives, Shift;
    forall i | 0 <= i < d - c ensures next[c + moved..d + moved][i] == text[c..d][i] {
      GapImage(edits, |text|, k, c + i);
      SurvivorImage(text, edits, c + i);
      assert Image(edits, c + i) == c + moved + i;
    }
  }

  lemma InsertInRange(text: string, edits: seq<Edit<char>>, k: nat)
    requires Fits(edits, |text|) && k < |edits|
    ensures 0 <= NewOffset(edits, k) && NewOffset(edits, k) + |edits[k].insert| <= |Apply(text, edits)|
  {
    GapInRange(text, edits, k, edits[k].at);
    GapInRange(text, edits, k + 1, edits[k].End());
    assert edits[..k + 1][..k] == edits[..k];
  }

  lemma InsertedAt(text: string, edits: seq<Edit<char>>, k: nat, i: nat)
    requires Fits(edits, |text|) && k < |edits| && i < |edits[k].insert|
    requires 0 <= NewOffset(edits, k) && NewOffset(edits, k) + |edits[k].insert| <= |Apply(text, edits)|
    ensures Apply(text, edits)[NewOffset(edits, k) + i] == edits[k].insert[i]
  {
    NewOrigin(edits, 0, |text|, NewOffset(edits, k) + i, k, i);
    OriginSpells(text, edits, 0, NewOffset(edits, k) + i);
  }

  /** Edit k's insertion stands at its new offset. */
  lemma InsertStands(text: string, edits: seq<Edit<char>>, k: nat)
    requires Fits(edits, |text|) && k < |edits|
    ensures IsSlice(Apply(text, edits), NewOffset(edits, k), NewOffset(edits, k) + |edits[k].insert|, edits[k].insert)
  {
    var next, at, insert := Apply(text, edits), NewOffset(edits, k), edits[k].insert;
    InsertInRange(text, edits, k);
    hide Apply, Growth, Fits, NewOffset;
    forall i | 0 <= i < |insert| ensures next[at..at + |insert|][i] == insert[i] {
      InsertedAt(text, edits, k, i);
    }
  }
}
