/**
 The candidates of a `srcset` attribute (web/src/lib/publication-builder.js,
 `buildDisplayBundle`): references with descriptors, separated by commas.
 */
module SourceSets {
  import opened Whitespace

  /** A reference and the descriptors behind it. */
  datatype Candidate = Candidate(reference: string, descriptors: seq<string>)

  function Split(s: string, separator: char): (parts: seq<string>)
    ensures parts != []
  {
    if s == "" then [""]
    else
      var rest := Split(s[1..], separator);
      if s[0] == separator then [""] + rest else [[s[0]] + rest[0]] + rest[1..]
  }

  function Join(parts: seq<string>, separator: string): string {
    if parts == [] then "" else if |parts| == 1 then parts[0] else parts[0] + separator + Join(parts[1..], separator)
  }

  /** Splitting loses nothing, and no part holds the separator. */
  lemma {:induction false} SplitJoins(s: string, separator: char)
    ensures Join(Split(s, separator), [separator]) == s
    ensures forall k :: 0 <= k < |Split(s, separator)| ==> separator !in Split(s, separator)[k]
  {
    if s != "" {
      SplitJoins(s[1..], separator);
      var rest, parts := Split(s[1..], separator), Split(s, separator);
      if s[0] == separator {
        assert parts[1..] == rest;
        assert s == "" + [separator] + s[1..];
      } else {
        assert parts[1..] == rest[1..];
        assert [s[0]] + Join(rest, [separator]) == Join(parts, [separator]);
      }
    }
  }

  function InkEnd(s: string, at: nat): (end: nat)
    requires at <= |s|
    ensures at <= end <= |s| && (end < |s| ==> IsSpace(s[end]))
    ensures forall k :: at <= k < end ==> !IsSpace(s[k])
    decreases |s| - at
  {
    if at < |s| && !IsSpace(s[at]) then InkEnd(s, at + 1) else at
  }

  /** The stretches between runs of white space. */
  function Fields(s: string): (fields: seq<string>)
    ensures fields != []
    decreases |s|
  {
    var end := InkEnd(s, 0);
    if end == |s| then [s] else [s[..end]] + Fields(s[TrimStart(s, end)..])
  }

  /** The fields in order, with white space between two; no field but the last has any in it. */
  ghost predicate SpacedOut(s: string, fields: seq<string>)
    decreases |fields|
  {
    && fields != [] && (forall k :: 0 <= k < |fields[0]| ==> !IsSpace(fields[0][k]))
    && if |fields| == 1 then s == fields[0]
       else exists gap, rest ::
              IsGap(gap) && s == fields[0] + gap + rest && SpacedOut(rest, fields[1..])
  }

  ghost predicate IsGap(gap: string) { gap != "" && forall k :: 0 <= k < |gap| ==> IsSpace(gap[k]) }

  lemma SpacedStep(field: string, gap: string, rest: string, fields: seq<string>)
    requires (forall k :: 0 <= k < |field| ==> !IsSpace(field[k])) && IsGap(gap) && SpacedOut(rest, fields)
    ensures SpacedOut(field + gap + rest, [field] + fields)
  {
    hide IsSpace, IsGap;
    assert ([field] + fields)[1..] == fields;
  }

  lemma {:induction false} FieldsMean(s: string)
    ensures SpacedOut(s, Fields(s))
    decreases |s|
  {
    hide IsSpace, SpacedOut;
    var end := InkEnd(s, 0);
    if end < |s| {
      var from := TrimStart(s, end);
      FieldsMean(s[from..]);
      SpacedStep(s[..end], s[end..from], s[from..], Fields(s[from..]));
      assert s == s[..end] + s[end..from] + s[from..];
    } else {
      OneField(s);
    }
  }

  lemma OneField(s: string)
    requires forall k :: 0 <= k < |s| ==> !IsSpace(s[k])
    ensures SpacedOut(s, [s])
  {
  }

  function CandidateOf(entry: string): Candidate {
    var fields := Fields(Trim(entry));
    Candidate(fields[0], fields[1..])
  }

  predicate StandsAt(s: string, word: string, at: nat) { at + |word| <= |s| && s[at..at + |word|] == word }

  predicate Includes(s: string, word: string) { exists at :: 0 <= at <= |s| && StandsAt(s, word, at) }

  lemma IncludesMeans(s: string, word: string)
    ensures Includes(s, word) <==> exists front, back :: s == front + word + back
  {
    if Includes(s, word) {
      var at :| 0 <= at <= |s| && StandsAt(s, word, at);
      assert s == s[..at] + word + s[at + |word|..];
    }
    if front, back :| s == front + word + back { assert StandsAt(s, word, |front|); }
  }

  /** The candidates to rewrite; a set with inline data is left as it is. */
  function Candidates(value: string): (candidates: seq<Candidate>) {
    if Includes(value, "data:") then []
    else
      var entries := Split(value, ',');
      seq(|entries|, k requires 0 <= k < |entries| => CandidateOf(entries[k]))
  }

  /** The attribute with the references replaced by `links`. */
  function Relinked(value: string, links: seq<string>): string
    requires |links| == |Candidates(value)|
  {
    if Includes(value, "data:") then value
    else
      var candidates := Candidates(value);
      Join(seq(|links|, k requires 0 <= k < |links| => Join([links[k]] + candidates[k].descriptors, " ")), ", ")
  }

  // ----- What is read, and what is written -----

  /** The parts in order, with the separator between two of them. */
  ghost predicate Separated(s: string, separator: string, parts: seq<string>)
    decreases |parts|
  {
    && parts != []
    && if |parts| == 1 then s == parts[0]
       else exists rest :: s == parts[0] + separator + rest && Separated(rest, separator, parts[1..])
  }

  lemma {:induction false} JoinSeparates(parts: seq<string>, separator: string)
    requires parts != []
    ensures Separated(Join(parts, separator), separator, parts)
    decreases |parts|
  {
    if |parts| > 1 {
      JoinSeparates(parts[1..], separator);
      assert Join(parts, separator) == parts[0] + separator + Join(parts[1..], separator);
    }
  }

  ghost predicate Blank(s: string) { forall k :: 0 <= k < |s| ==> IsSpace(s[k]) }

  /** No white space at either end. */
  ghost predicate InkEnds(s: string) { s != "" ==> !IsSpace(s[0]) && !IsSpace(s[|s| - 1]) }

  /** White space aside, an entry is its reference and its descriptors with white space between. */
  ghost predicate EntryReads(entry: string, c: Candidate) {
    exists before, core, after ::
      && entry == before + core + after && Blank(before) && Blank(after) && InkEnds(core)
      && SpacedOut(core, [c.reference] + c.descriptors)
  }

  lemma {:induction false} EntryIsRead(entry: string)
    ensures EntryReads(entry, CandidateOf(entry))
  {
    hide SpacedOut, IsSpace, Fields, Blank, InkEnds;
    var from := TrimStart(entry, 0);
    var to := TrimEnd(entry, from, |entry|);
    FieldsMean(Trim(entry));
    TrimLeavesInk(entry);
    assert Fields(Trim(entry)) == [CandidateOf(entry).reference] + CandidateOf(entry).descriptors;
    assert entry == entry[..from] + entry[from..to] + entry[to..];
  }

  lemma {:induction false} TrimLeavesInk(entry: string)
    ensures var from := TrimStart(entry, 0);
      var to := TrimEnd(entry, from, |entry|);
      Blank(entry[..from]) && Blank(entry[to..]) && InkEnds(entry[from..to])
  {
    hide IsSpace;
  }

  /** One candidate for each stretch between commas, read as its reference and descriptors; none with inline data. */
  lemma CandidatesMean(value: string)
    ensures Includes(value, "data:") ==> Candidates(value) == []
    ensures !Includes(value, "data:") ==> exists entries ::
      && Separated(value, ",", entries) && |entries| == |Candidates(value)|
      && forall k :: 0 <= k < |entries| ==> ',' !in entries[k] && EntryReads(entries[k], Candidates(value)[k])
  {
    hide EntryReads, CandidateOf, Separated, Includes, Join;
    if !Includes(value, "data:") {
      var entries := Split(value, ',');
      SplitJoins(value, ',');
      JoinSeparates(entries, ",");
      assert "," == [','];
      forall k | 0 <= k < |entries| ensures EntryReads(entries[k], Candidates(value)[k]) { EntryIsRead(entries[k]); }
    }
  }

  /** Each reference gives way to its link, its descriptors stay, and a comma and a space stand between two entries. */
  lemma RelinkedMeans(value: string, links: seq<string>)
    requires |links| == |Candidates(value)|
    ensures Includes(value, "data:") ==> Relinked(value, links) == value
    ensures !Includes(value, "data:") ==> exists entries ::
      && Separated(Relinked(value, links), ", ", entries) && |entries| == |links|
      && forall k :: 0 <= k < |links| ==> Separated(entries[k], " ", [links[k]] + Candidates(value)[k].descriptors)
  {
    hide CandidateOf, Separated, Includes, Join;
    if !Includes(value, "data:") {
      var candidates := Candidates(value);
      var entries :=
        seq(|links|, k requires 0 <= k < |links| => Join([links[k]] + candidates[k].descriptors, " "));
      JoinSeparates(entries, ", ");
      forall k | 0 <= k < |links| ensures Separated(entries[k], " ", [links[k]] + candidates[k].descriptors) {
        JoinSeparates([links[k]] + candidates[k].descriptors, " ");
      }
    }
  }
}
