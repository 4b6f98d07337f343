/** A suggestion's edits as runs to draw (web/src/lib/suggestions.js, `runsFor`). */
module Suggestions {
  import opened SourceEdits

  datatype Kind = Same | Del | Ins

  datatype Run = Run(kind: Kind, text: string)

  /** The text of all runs but those of kind `hidden`. */
  function Without(runs: seq<Run>, hidden: Kind): string {
    if runs == [] then ""
    else
      var last := runs[|runs| - 1];
      Without(runs[..|runs| - 1], hidden) + if last.kind == hidden then "" else last.text
  }

  lemma WithoutGrows(runs: seq<Run>, kind: Kind, text: string)
    ensures var grown := if text != "" then runs + [Run(kind, text)] else runs;
      forall hidden :: Without(grown, hidden) == Without(runs, hidden) + if kind == hidden then "" else text
  {
    if text != "" { assert (runs + [Run(kind, text)])[..|runs|] == runs; }
  }

  function Added(runs: seq<Run>, kind: Kind, text: string): seq<Run> {
    if text != "" then runs + [Run(kind, text)] else runs
  }

  /** The texts of the runs of one kind, in order. */
  function Texts(runs: seq<Run>, kind: Kind): seq<string> {
    if runs == [] then []
    else
      var last := runs[|runs| - 1];
      Texts(runs[..|runs| - 1], kind) + if last.kind == kind then [last.text] else []
  }

  lemma TextsGrow(runs: seq<Run>, kind: Kind, text: string)
    ensures var added := if text != "" then [text] else [];
      forall other :: Texts(Added(runs, kind, text), other) == Texts(runs, other) + if kind == other then added else []
  {
    if text != "" { assert (runs + [Run(kind, text)])[..|runs|] == runs; }
  }

  /** The ranges that the first `k` edits delete and what they insert, leaving out the empty ones. */
  ghost function Deletions(text: string, edits: seq<Edit<char>>, k: nat): seq<string>
    requires k <= |edits| && Within(edits, 0, |text|)
  {
    if k == 0 then []
    else
      var e := edits[k - 1];
      Deletions(text, edits, k - 1) + if e.delete > 0 then [text[e.at..e.End()]] else []
  }

  function Insertions(edits: seq<Edit<char>>, k: nat): seq<string>
    requires k <= |edits|
  {
    if k == 0 then []
    else Insertions(edits, k - 1) + if edits[k - 1].insert != "" then [edits[k - 1].insert] else []
  }

  /** The runs strike and add exactly what the first `k` edits delete and insert. */
  ghost predicate Exact(text: string, edits: seq<Edit<char>>, k: nat, runs: seq<Run>)
    requires Fits(edits, |text|)
  {
    k <= |edits| && Texts(runs, Del) == Deletions(text, edits, k) && Texts(runs, Ins) == Insertions(edits, k)
  }

  lemma StepExact(text: string, edits: seq<Edit<char>>, k: nat, cursor: nat, runs: seq<Run>)
    requires Fits(edits, |text|) && k < |edits| && cursor <= edits[k].at && edits[k].End() <= |text|
    requires Exact(text, edits, k, runs)
    ensures Exact(text, edits, k + 1, EditRuns(text, edits[k], cursor, runs))
  {
    hide Texts, Sorted, Added;
    var e := edits[k];
    var same, gone := text[cursor..e.at], text[e.at..e.End()];
    var runs1 := Added(runs, Same, same);
    var runs2 := Added(runs1, Del, gone);
    TextsGrow(runs, Same, same);
    TextsGrow(runs1, Del, gone);
    TextsGrow(runs2, Ins, e.insert);
  }

  /** The text up to `to` after the edits before it. */
  ghost predicate Drawn(text: string, edits: seq<Edit<char>>, k: nat, cursor: nat, runs: seq<Run>)
    requires Fits(edits, |text|)
  {
    && k <= |edits| && cursor <= |text| && Sorted(edits[k..]) && Within(edits[k..], cursor, |text|)
    && Without(runs, Ins) == text[..cursor]
    && Apply(text, edits) == Without(runs, Del) + ApplyFrom(text, edits[k..], cursor)
  }

  /** The three runs of one edit. */
  function EditRuns(text: string, e: Edit<char>, cursor: nat, runs: seq<Run>): seq<Run>
    requires cursor <= e.at && e.End() <= |text|
  {
    Added(Added(Added(runs, Same, text[cursor..e.at]), Del, text[e.at..e.End()]), Ins, e.insert)
  }

  lemma EditRunsSpell(text: string, e: Edit<char>, cursor: nat, runs: seq<Run>)
    requires cursor <= e.at && e.End() <= |text|
    ensures Without(EditRuns(text, e, cursor, runs), Ins)
        == Without(runs, Ins) + text[cursor..e.at] + text[e.at..e.End()]
    ensures Without(EditRuns(text, e, cursor, runs), Del) == Without(runs, Del) + text[cursor..e.at] + e.insert
  {
    hide Without;
    var same, gone := text[cursor..e.at], text[e.at..e.End()];
    var runs1 := Added(runs, Same, same);
    var runs2 := Added(runs1, Del, gone);
    WithoutGrows(runs, Same, same);
    WithoutGrows(runs1, Del, gone);
    WithoutGrows(runs2, Ins, e.insert);
  }

  lemma StepDrawn(text: string, edits: seq<Edit<char>>, k: nat, cursor: nat, runs: seq<Run>)
    requires Fits(edits, |text|) && Drawn(text, edits, k, cursor, runs) && k < |edits|
    ensures cursor <= edits[k].at && edits[k].End() <= |text|
    ensures Drawn(text, edits, k + 1, edits[k].End(), EditRuns(text, edits[k], cursor, runs))
  {
    hide Fits, Apply, Without, EditRuns;
    var e, rest := edits[k], edits[k..];
    assert rest[0] == e && rest[1..] == edits[k + 1..];
    TailFits(rest, cursor, |text|);
    hide Sorted, Within;
    EditRunsSpell(text, e, cursor, runs);
    assert text[..cursor] + text[cursor..e.at] + text[e.at..e.End()] == text[..e.End()];
    var same, last := text[cursor..e.at], ApplyFrom(text, edits[k + 1..], e.End());
    assert ApplyFrom(text, rest, cursor) == same + e.insert + last;
    hide ApplyFrom;
    assert Without(runs, Del) + (same + e.insert + last) == Without(runs, Del) + same + e.insert + last;
  }

  /**
   The runs without insertions are the old text, without deletions the new one;
   the edits' deletions and insertions, and nothing else, are shown as such.
   */
  method RunsFor(text: string, edits: seq<Edit<char>>) returns (runs: seq<Run>)
    requires Fits(edits, |text|)
    ensures Without(runs, Ins) == text && Without(runs, Del) == Apply(text, edits)
    ensures Texts(runs, Del) == Deletions(text, edits, |edits|) && Texts(runs, Ins) == Insertions(edits, |edits|)
    ensures forall i :: 0 <= i < |runs| ==> runs[i].text != ""
  {
    hide Drawn, Fits, Apply, ApplyFrom, Without, Exact;
    runs := [];
    var cursor: nat := 0;
    NothingDrawn(text, edits);
    for k := 0 to |edits|
      invariant Drawn(text, edits, k, cursor, runs) && Exact(text, edits, k, runs)
      invariant forall i :: 0 <= i < |runs| ==> runs[i].text != ""
    {
      var edit := edits[k];
      StepDrawn(text, edits, k, cursor, runs);
      StepExact(text, edits, k, cursor, runs);
      if edit.at > cursor { runs := runs + [Run(Same, text[cursor..edit.at])]; }
      if edit.delete > 0 { runs := runs + [Run(Del, text[edit.at..edit.at + edit.delete])]; }
      if edit.insert != "" { runs := runs + [Run(Ins, edit.insert)]; }
      cursor := edit.at + edit.delete;
    }
    AllDrawn(text, edits, cursor, runs);
    AllExact(text, edits, cursor, runs);
    if cursor < |text| { runs := runs + [Run(Same, text[cursor..])]; }
  }

  lemma NothingDrawn(text: string, edits: seq<Edit<char>>)
    requires Fits(edits, |text|)
    ensures Drawn(text, edits, 0, 0, []) && Exact(text, edits, 0, [])
  {
    assert edits[0..] == edits;
  }

  lemma AllExact(text: string, edits: seq<Edit<char>>, cursor: nat, runs: seq<Run>)
    requires Fits(edits, |text|) && Exact(text, edits, |edits|, runs) && cursor <= |text|
    ensures Exact(text, edits, |edits|, Added(runs, Same, text[cursor..]))
    ensures var all := Added(runs, Same, text[cursor..]);
      Texts(all, Del) == Deletions(text, edits, |edits|) && Texts(all, Ins) == Insertions(edits, |edits|)
  {
    TextsGrow(runs, Same, text[cursor..]);
  }

  lemma AllDrawn(text: string, edits: seq<Edit<char>>, cursor: nat, runs: seq<Run>)
    requires Fits(edits, |text|) && Drawn(text, edits, |edits|, cursor, runs)
    ensures cursor <= |text|
    ensures var all := Added(runs, Same, text[cursor..]);
      Without(all, Ins) == text && Without(all, Del) == Apply(text, edits)
  {
    WithoutGrows(runs, Same, text[cursor..]);
    assert edits[|edits|..] == [];
    assert text[..cursor] + text[cursor..] == text;
  }
}
