/**
 Edits `{at, delete, insert}` over a text, sorted and not overlapping: what
 applying them gives, where every position of the new text comes from, and
 where every surviving position of the old text goes.
 */
module SourceEdits {

  datatype Edit<T> = Edit(at: nat, delete: nat, insert: seq<T>)
  {
    function End(): nat { at + delete }

    function Delta(): int { |insert| - delete }
  }

  ghost predicate Sorted<T>(edits: seq<Edit<T>>) {
    forall i, j :: 0 <= i < j < |edits| ==> edits[i].End() <= edits[j].at
  }

  /** The edits lie between `from` and `to`. */
  ghost predicate Within<T>(edits: seq<Edit<T>>, from: int, to: int) {
    forall i :: 0 <= i < |edits| ==> from <= edits[i].at && edits[i].End() <= to
  }

  /** Sorted edits inside a text of length `n`. */
  ghost predicate Fits<T>(edits: seq<Edit<T>>, n: int) { Sorted(edits) && Within(edits, 0, n) }

  lemma TailFits<T>(edits: seq<Edit<T>>, from: int, to: int)
    requires edits != [] && Sorted(edits) && Within(edits, from, to)
    ensures Sorted(edits[1..]) && Within(edits[1..], edits[0].End(), to)
    ensures from <= edits[0].at && edits[0].End() <= to
  {
  }

  /** The text from `from` on, with every edit's range replaced by what it inserts. */
  function ApplyFrom<T>(text: seq<T>, edits: seq<Edit<T>>, from: nat): seq<T>
    requires from <= |text|
    requires Sorted(edits) && Within(edits, from, |text|)
    decreases |edits|
  {
    if edits == [] then text[from..]
    else text[from..edits[0].at] + edits[0].insert + ApplyFrom(text, edits[1..], edits[0].End())
  }

  function Apply<T>(text: seq<T>, edits: seq<Edit<T>>): seq<T>
    requires Fits(edits, |text|)
  {
    ApplyFrom(text, edits, 0)
  }

  /** No edit deletes position `p`. */
  ghost predicate Survives<T>(edits: seq<Edit<T>>, p: int) {
    forall i :: 0 <= i < |edits| ==> !(edits[i].at <= p < edits[i].End())
  }

  /** The net growth of all edits that end at or before `p`. */
  function Shift<T>(edits: seq<Edit<T>>, p: int): int {
    if edits == [] then 0
    else (if edits[0].End() <= p then edits[0].Delta() else 0) + Shift(edits[1..], p)
  }

  /** Where position `p` of the old text is in the new text. */
  function Image<T>(edits: seq<Edit<T>>, p: int): int { p + Shift(edits, p) }

  /** The new-text offset of edit `k`: its old offset plus the net growth of all earlier edits. */
  function NewOffset<T>(edits: seq<Edit<T>>, k: nat): int
    requires k < |edits|
  {
    edits[k].at + Growth(edits[..k])
  }

  function Growth<T>(edits: seq<Edit<T>>): int {
    if edits == [] then 0 else Growth(edits[..|edits| - 1]) + edits[|edits| - 1].Delta()
  }

  /** The new-text offset of edit k, by adding up the edits before it. */
  method OffsetInNew<T>(edits: seq<Edit<T>>, k: nat) returns (offset: int)
    requires k < |edits|
    ensures offset == NewOffset(edits, k)
  {
    offset := edits[k].at;
    for i := 0 to k
      invariant offset == edits[k].at + Growth(edits[..i])
    {
      assert edits[..i + 1][..i] == edits[..i];
      offset := offset + edits[i].Delta();
    }
  }

  lemma {:induction false} GrowthFront<T>(edits: seq<Edit<T>>)
    requires edits != []
    ensures Growth(edits) == edits[0].Delta() + Growth(edits[1..])
  {
    if |edits| > 1 {
      var front := edits[..|edits| - 1];
      GrowthFront(front);
      assert front[1..] == edits[1..][..|edits| - 2];
    } else {
      assert edits[..0] == [] && edits[1..] == [];
    }
  }

  /** Where a position of the new text comes from. */
  datatype Origin = Old(p: int) | New(k: int, offset: int)

  /** The origin of position `q` of the text that `edits` make of what starts at `from`. */
  function OriginFrom<T>(edits: seq<Edit<T>>, from: int, q: int): (r: Origin)
    ensures r.New? ==> 0 <= r.k < |edits| && 0 <= r.offset < |edits[r.k].insert|
    decreases |edits|
  {
    if edits == [] || q < edits[0].at - from then Old(from + q)
    else
      var past := q - (edits[0].at - from);
      if past < |edits[0].insert| then New(0, past)
      else match OriginFrom(edits[1..], edits[0].End(), past - |edits[0].insert|)
        case Old(p) => Old(p)
        case New(k, offset) => New(k + 1, offset)
  }

  function OriginOf<T>(edits: seq<Edit<T>>, q: int): Origin { OriginFrom(edits, 0, q) }

  /** Every position of the new text holds what its origin says. */
  lemma {:induction false} OriginSpells<T>(text: seq<T>, edits: seq<Edit<T>>, from: nat, q: nat)
    requires from <= |text| && Sorted(edits) && Within(edits, from, |text|)
    requires q < |ApplyFrom(text, edits, from)|
    ensures match OriginFrom(edits, from, q)
            case Old(p) => from <= p < |text| && ApplyFrom(text, edits, from)[q] == text[p]
            case New(k, offset) =>
              0 <= k < |edits| && 0 <= offset < |edits[k].insert|
              && ApplyFrom(text, edits, from)[q] == edits[k].insert[offset]
    decreases |edits|
  {
    if edits != [] && q >= edits[0].at - from + |edits[0].insert| {
      TailFits(edits, from, |text|);
      OriginSpells(text, edits[1..], edits[0].End(), q - (edits[0].at - from) - |edits[0].insert|);
    }
  }

  lemma {:induction false} ShiftNone<T>(edits: seq<Edit<T>>, p: int)
    requires forall i :: 0 <= i < |edits| ==> p < edits[i].End()
    ensures Shift(edits, p) == 0
  {
    if edits != [] { ShiftNone(edits[1..], p); }
  }

  lemma BehindFirst<T>(edits: seq<Edit<T>>, from: int, to: int, p: int)
    requires edits != [] && Sorted(edits) && Within(edits, from, to) && p < edits[0].End()
    ensures Shift(edits, p) == 0
    ensures Survives(edits, p) <==> p < edits[0].at
  {
    forall i | 0 <= i < |edits| ensures p < edits[i].End() && (i > 0 ==> p < edits[i].at) {}
    ShiftNone(edits, p);
  }

  lemma PastFirst<T>(edits: seq<Edit<T>>, p: int)
    requires edits != [] && edits[0].End() <= p
    ensures Survives(edits, p) <==> Survives(edits[1..], p)
    ensures Shift(edits, p) == edits[0].Delta() + Shift(edits[1..], p)
  {
    assert forall i :: 0 <= i < |edits[1..]| ==> edits[1..][i] == edits[i + 1];
  }

  /** Positions with an old origin are exactly the images of the survivors. */
  lemma {:induction false} OldOrigin<T>(edits: seq<Edit<T>>, from: int, to: int, q: int, p: int)
    requires Sorted(edits) && Within(edits, from, to) && from <= p && 0 <= q
    ensures OriginFrom(edits, from, q) == Old(p) <==> Survives(edits, p) && q == p - from + Shift(edits, p)
    decreases |edits|
  {
    if edits != [] {
      var e, rest := edits[0], edits[1..];
      var past := q - (e.at - from) - |e.insert|;
      TailFits(edits, from, to);
      if p < e.End() { BehindFirst(edits, from, to, p); } else { PastFirst(edits, p); }
      hide Sorted, Within, Survives, Shift;
      if p < e.End() {
        if past >= 0 { OldOriginAtLeast(rest, e.End(), to, past); }
      } else if past >= 0 {
        OldOrigin(rest, e.End(), to, past, p);
      } else {
        ImageAtLeast(rest, e.End(), to, p);
      }
    }
  }

  lemma {:induction false} OldOriginAtLeast<T>(edits: seq<Edit<T>>, from: int, to: int, q: int)
    requires Sorted(edits) && Within(edits, from, to) && 0 <= q
    ensures OriginFrom(edits, from, q).Old? ==> OriginFrom(edits, from, q).p >= from
    decreases |edits|
  {
    if edits != [] && q >= edits[0].at - from + |edits[0].insert| {
      TailFits(edits, from, to);
      OldOriginAtLeast(edits[1..], edits[0].End(), to, q - (edits[0].at - from) - |edits[0].insert|);
    }
  }

  /** A survivor is never carried to before the place where the edits start. */
  lemma {:induction false} ImageAtLeast<T>(edits: seq<Edit<T>>, from: int, to: int, p: int)
    requires Sorted(edits) && Within(edits, from, to) && from <= p
    ensures p + Shift(edits, p) >= from
    decreases |edits|
  {
    if edits != [] {
      TailFits(edits, from, to);
      if edits[0].End() <= p {
        ImageAtLeast(edits[1..], edits[0].End(), to, p);
      } else {
        ShiftNone(edits, p);
      }
    }
  }

  /** Positions with a new origin are exactly the inserted ranges, placed at the new offsets. */
  lemma {:induction false} NewOrigin<T>(edits: seq<Edit<T>>, from: int, to: int, q: int, k: nat, offset: int)
    requires Sorted(edits) && Within(edits, from, to) && 0 <= q && k < |edits|
    ensures OriginFrom(edits, from, q) == New(k, offset)
       <==> 0 <= offset < |edits[k].insert| && q == NewOffset(edits, k) - from + offset
    decreases |edits|
  {
    var e, rest := edits[0], edits[1..];
    TailFits(edits, from, to);
    var past := q - (e.at - from) - |e.insert|;
    if k == 0 {
      assert edits[..0] == [];
    } else {
      assert edits[..k][1..] == rest[..k - 1];
      GrowthFront(edits[..k]);
      assert NewOffset(edits, k) == NewOffset(rest, k - 1) + e.Delta();
      if past >= 0 {
        NewOrigin(rest, e.End(), to, past, k - 1, offset);
      } else {
        NewOffsetAtLeast(rest, e.End(), to, k - 1);
      }
    }
  }

  lemma {:induction false} NewOffsetAtLeast<T>(edits: seq<Edit<T>>, from: int, to: int, k: nat)
    requires Sorted(edits) && Within(edits, from, to) && k < |edits|
    ensures NewOffset(edits, k) >= from
    decreases |edits|
  {
    if k > 0 {
      TailFits(edits, from, to);
      NewOffsetAtLeast(edits[1..], edits[0].End(), to, k - 1);
      assert edits[..k][1..] == edits[1..][..k - 1];
      GrowthFront(edits[..k]);
    } else {
      assert edits[..0] == [];
    }
  }

  /** A survivor's image holds the same character, and nothing else comes from it. */
  lemma SurvivorImage<T>(text: seq<T>, edits: seq<Edit<T>>, p: nat)
    requires Fits(edits, |text|) && p < |text| && Survives(edits, p)
    ensures 0 <= Image(edits, p) < |Apply(text, edits)|
    ensures Apply(text, edits)[Image(edits, p)] == text[p] && OriginOf(edits, Image(edits, p)) == Old(p)
  {
    ImageAtLeast(edits, 0, |text|, p);
    OldOrigin(edits, 0, |text|, Image(edits, p), p);
    ImageInRange(text, edits, 0, p);
    OriginSpells(text, edits, 0, Image(edits, p));
  }

  lemma {:induction false} ImageInRange<T>(text: seq<T>, edits: seq<Edit<T>>, from: nat, p: int)
    requires from <= p < |text| && Sorted(edits) && Within(edits, from, |text|) && Survives(edits, p)
    ensures p - from + Shift(edits, p) < |ApplyFrom(text, edits, from)|
    decreases |edits|
  {
    if edits != [] {
      TailFits(edits, from, |text|);
      if edits[0].End() <= p {
        assert forall i :: 0 <= i < |edits[1..]| ==> edits[1..][i] == edits[i + 1];
        ImageInRange(text, edits[1..], edits[0].End(), p);
      } else {
        ShiftNone(edits, p);
      }
    }
  }

  lemma {:induction false} ApplyLength<T>(text: seq<T>, edits: seq<Edit<T>>, from: nat)
    requires from <= |text| && Sorted(edits) && Within(edits, from, |text|)
    ensures |ApplyFrom(text, edits, from)| == |text| - from + Growth(edits)
    decreases |edits|
  {
    if edits != [] {
      TailFits(edits, from, |text|);
      ApplyLength(text, edits[1..], edits[0].End());
      GrowthFront(edits);
    }
  }
}
