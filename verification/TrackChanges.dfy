/**
 Tracked edits of one author in one file (web/src/lib/track-changes.js):
 captures of one edit each, merged into pending records where the controller
 merges them.  A record that a capture changes is anchored anew; every other
 record is found again through the anchors it has.
 */
module TrackChanges {
  import opened Basics
  import opened AnchoredText

  datatype Mode = Insert | Delete | Replace | Paste

  datatype Kind = Inserted | Deleted | Replaced

  /** A pending revision record as it is stored. */
  datatype Record = Record(
    kind: Kind, before: string, after: string, session: nat,
    startOffset: int, endOffset: int, start: Anchor, end: Anchor)

  /** A record at work: with its range in the live text, and whether the capture has changed it. */
  datatype Open = Open(record: Record, start: int, end: int, changed: bool)

  /** What the last capture left for the next one to continue. */
  datatype Group = Group(mode: Mode, start: int, end: int)

  function EventMode(paste: bool, e: Edit): Mode {
    if paste then Paste
    else if e.to > e.from && e.insert == "" then Delete
    else if e.to > e.from then Replace
    else Insert
  }

  function KindFor(before: string, after: string): Kind {
    if before != "" && after != "" then Replaced else if before != "" then Deleted else Inserted
  }

  /** Whether the capture continues the one before it. */
  predicate Contiguous(group: Option<Group>, mode: Mode, e: Edit) {
    group.Some? && group.value.mode == mode && mode != Replace && mode != Paste
    && if mode == Insert then group.value.end == e.from
       else group.value.start == e.to || group.value.start == e.from || group.value.end == e.from
  }

  // ----- Ranges -----

  /** Where the anchors are now; the stored offsets stand in while the range is too short for the proposal. */
  function RecordRange(r: Record, doc: Doc): (int, int) { RangeFrom(r, Resolve(doc, r.start), Resolve(doc, r.end)) }

  function RangeFrom(r: Record, start: int, end: int): (int, int) {
    if r.kind != Deleted && end - start < |r.after| <= r.endOffset - r.startOffset
    then (r.startOffset, r.endOffset)
    else (start, end)
  }

  function OpenRecord(r: Record, doc: Doc): Open { Open(r, RecordRange(r, doc).0, RecordRange(r, doc).1, false) }

  function OpenAll(records: seq<Record>, doc: Doc): (r: seq<Open>)
    ensures |r| == |records|
    ensures forall i :: 0 <= i < |r| ==> r[i] == OpenRecord(records[i], doc)
  {
    seq(|records|, i requires 0 <= i < |records| => OpenRecord(records[i], doc))
  }

  function MapBoundary(value: int, from: int, to: int, insertLength: int, end: bool): int {
    if value < from then value
    else if value > to then value + insertLength - (to - from)
    else from + if end then insertLength else 0
  }

  function MapOpen(o: Open, e: Edit): Open {
    o.(start := MapBoundary(o.start, e.from, e.to, |e.insert|, false),
       end := MapBoundary(o.end, e.from, e.to, |e.insert|, true))
  }

  /** What is stored of a record after a capture: as it was, unless the capture changed it. */
  function Save(o: Open, doc: Doc): Record {
    if !o.changed then o.record
    else
      var start := Max(0, o.start);
      var end := Max(start, o.end);
      o.record.(startOffset := start, endOffset := end, start := AnchorAt(doc, start), end := AnchorAt(doc, end))
  }

  function SaveAll(opens: seq<Open>, e: Edit, doc: Doc): (r: seq<Record>)
    ensures |r| == |opens|
    ensures forall i :: 0 <= i < |r| ==> r[i] == Save(MapOpen(opens[i], e), doc)
  {
    seq(|opens|, i requires 0 <= i < |opens| => Save(MapOpen(opens[i], e), doc))
  }

  // ----- Where an edit goes -----

  predicate Adjacent(o: Open, e: Edit) { o.record.kind != Deleted && e.from == o.end && e.to == o.end }

  /** The edit goes into the author's own proposed text. */
  predicate JoinsProposal(o: Open, e: Edit, mode: Mode, allowMerge: bool, tracking: bool) {
    o.record.kind != Deleted
    && ((e.from < o.end && e.to > o.start) || (Adjacent(o, e) && mode == Insert && (allowMerge || !tracking)))
  }

  /** The deletion continues the author's own deletion. */
  predicate JoinsDeletion(o: Open, e: Edit, mode: Mode, allowMerge: bool) {
    o.record.kind == Deleted && allowMerge && mode == Delete && (e.from == o.start || e.to == o.start)
  }

  /** Only records of the running session are the author's own to continue. */
  predicate Joins(o: Open, e: Edit, mode: Mode, allowMerge: bool, tracking: bool, session: nat) {
    o.record.session == session
    && (JoinsProposal(o, e, mode, allowMerge, tracking) || JoinsDeletion(o, e, mode, allowMerge))
  }

  /** The first record that wants the edit, from `i` on; |opens| when none does. */
  function Target(opens: seq<Open>, i: nat, e: Edit, mode: Mode, allowMerge: bool, tracking: bool,
                  session: nat): (t: nat)
    requires i <= |opens|
    ensures i <= t <= |opens|
    ensures t < |opens| ==> Joins(opens[t], e, mode, allowMerge, tracking, session)
    ensures forall j :: i <= j < t ==> !Joins(opens[j], e, mode, allowMerge, tracking, session)
    decreases |opens| - i
  {
    if i == |opens| || Joins(opens[i], e, mode, allowMerge, tracking, session) then i
    else Target(opens, i + 1, e, mode, allowMerge, tracking, session)
  }

  function RelativeFrom(o: Open, e: Edit): int { Max(0, e.from - o.start) }

  function RelativeTo(o: Open, e: Edit): int { Max(RelativeFrom(o, e), Min(|o.record.after|, e.to - o.start)) }

  /** What JavaScript's `slice` makes of two non-negative bounds. */
  function Slice(s: string, from: int, to: int): string {
    if 0 <= from <= to <= |s| then s[from..to] else if 0 <= from <= |s| < to then s[from..] else ""
  }

  /** The proposed text the record shows where the edit goes is the text the edit replaces. */
  predicate Matches(o: Open, e: Edit, before: string) {
    Adjacent(o, e) || Slice(o.record.after, RelativeFrom(o, e), RelativeTo(o, e)) == before
  }

  function JoinProposal(o: Open, e: Edit): Open {
    var after := o.record.after;
    o.(changed := true, record := o.record.(
      after := if Adjacent(o, e) then after + e.insert
               else Slice(after, 0, RelativeFrom(o, e)) + e.insert + Slice(after, RelativeTo(o, e), |after|)))
  }

  function JoinDeletion(o: Open, e: Edit, before: string): Open {
    var at := Min(o.start, e.from);
    var was := o.record.before;
    Open(o.record.(before := if e.from < o.start then before + was else was + before), at, at, true)
  }

  /** A record of its own, still in the coordinates of the text before the edit; it is anchored when it is saved. */
  function NewRecord(e: Edit, before: string, session: nat): Open {
    Open(Record(KindFor(before, e.insert), before, e.insert, session, e.from, e.from + |e.insert|, AtEnd, AtEnd),
         e.from, e.to, true)
  }

  /** The records after the edit, still in the coordinates of the text before it. */
  function Revise(opens: seq<Open>, text: string, e: Edit, mode: Mode, allowMerge: bool, tracking: bool,
                  session: nat): seq<Open>
    requires e.Within(text)
  {
    var before := text[e.from..e.to];
    var t := Target(opens, 0, e, mode, allowMerge, tracking, session);
    if t < |opens| && opens[t].record.kind == Deleted then opens[t := JoinDeletion(opens[t], e, before)]
    else if t < |opens| && Matches(opens[t], e, before) then
      var joined := JoinProposal(opens[t], e);
      if joined.record.after == "" then opens[..t] + opens[t + 1..] else opens[t := joined]
    else if tracking && (before != "" || e.insert != "") then opens + [NewRecord(e, before, session)]
    else opens
  }

  // ----- The controller's steps -----

  datatype State = State(
    doc: Doc, next: nat, records: seq<Record>, group: Option<Group>, tracking: bool, session: nat)
  {
    function Text(): string { Live(doc) }
  }

  /** One capture of one edit. */
  function Capture(s: State, e: Edit, paste: bool): State
    requires e.Within(s.Text())
  {
    var mode := EventMode(paste, e);
    var revised := Revise(OpenAll(s.records, s.doc), s.Text(), e, mode, Contiguous(s.group, mode, e), s.tracking,
        s.session);
    var doc := Change(s.doc, s.next, e);
    var end := e.from + e.Growth();
    State(doc, s.next + |e.insert|, SaveAll(revised, e, doc), Some(Group(mode, end - |e.insert|, end)), s.tracking,
      s.session)
  }

  /** Turning tracking on starts a session; a change of tracking ends what the next capture could continue. */
  function Switched(s: State, on: bool): State {
    s.(tracking := on, session := if on && !s.tracking then s.session + 1 else s.session,
       group := if on != s.tracking then None else s.group)
  }

  datatype Event = Typing(edit: Edit, paste: bool) | Switch(on: bool) | CaretMoved

  predicate Enabled(s: State, event: Event) { event.Typing? ==> event.edit.Within(s.Text()) }

  function Step(s: State, event: Event): State
    requires Enabled(s, event)
  {
    match event
    case Typing(e, paste) => Capture(s, e, paste)
    case Switch(on) => Switched(s, on)
    case CaretMoved => s.(group := None)
  }

  // ----- What the terms mean -----

  /** A paste is one whatever it replaces; otherwise the mode says whether text goes, comes, or both. */
  lemma EventModeMeans(paste: bool, e: Edit)
    requires e.from <= e.to
    ensures EventMode(paste, e) == Paste <==> paste
    ensures EventMode(paste, e) == Insert <==> !paste && e.from == e.to
    ensures EventMode(paste, e) == Delete <==> !paste && e.from != e.to && |e.insert| == 0
    ensures EventMode(paste, e) == Replace <==> !paste && e.from != e.to && |e.insert| > 0
  {
  }

  /** Only typing right behind typing continues, and only deleting right beside a deletion. */
  lemma ContiguousMeans(group: Option<Group>, mode: Mode, e: Edit)
    ensures Contiguous(group, mode, e)
       <==> group.Some?
            && ( || (group.value.mode == Insert && mode == Insert && e.from == group.value.end)
                 || (group.value.mode == Delete && mode == Delete
                     && (group.value.start in {e.from, e.to} || e.from == group.value.end)))
  {
  }

  /** The anchors give the range, unless they leave the proposal too little room and the stored offsets do not. */
  lemma RangeFromMeans(r: Record, start: int, end: int)
    ensures RangeFrom(r, start, end) == (r.startOffset, r.endOffset) || RangeFrom(r, start, end) == (start, end)
    ensures r.kind == Deleted || end - start >= |r.after| || |r.after| > r.endOffset - r.startOffset ==>
              RangeFrom(r, start, end) == (start, end)
    ensures r.kind != Deleted && start + |r.after| > end && r.startOffset + |r.after| <= r.endOffset ==>
              RangeFrom(r, start, end) == (r.startOffset, r.endOffset)
  {
  }

  // ----- What a record means -----

  /** The range lies in the text and spells what the record proposes. */
  predicate Spells(o: Open, text: string) {
    && 0 <= o.start <= o.end <= |text|
    && (if o.record.kind == Deleted then o.start == o.end else text[o.start..o.end] == o.record.after != "")
  }

  /** The text with `before` in place of a range. */
  function Spliced(text: string, start: int, end: int, before: string): string
    requires 0 <= start <= end <= |text|
  {
    text[..start] + before + text[end..]
  }

  /** The text with the record undone. */
  function Undone(o: Open, text: string): string
    requires 0 <= o.start <= o.end <= |text|
  {
    Spliced(text, o.start, o.end, o.record.before)
  }

  /** A new record undoes exactly its own edit. */
  lemma NewRecordUndoes(text: string, e: Edit, session: nat)
    requires e.Within(text) && (e.from < e.to || e.insert != "")
    ensures var o := MapOpen(NewRecord(e, text[e.from..e.to], session), e);
      Spells(o, Applied(text, e)) && Undone(o, Applied(text, e)) == text
  {
    var next := Applied(text, e);
    assert next[..e.from] == text[..e.from] && next[e.from + |e.insert|..] == text[e.to..];
    assert next[e.from..e.from + |e.insert|] == e.insert;
    assert text == text[..e.from] + text[e.from..e.to] + text[e.to..];
  }

  /** An edit the record takes in lies inside the record's range, or right at its end. */
  lemma JoinedEditIsInside(o: Open, text: string, e: Edit, mode: Mode, allowMerge: bool, tracking: bool)
    requires e.Within(text) && Spells(o, text)
    requires JoinsProposal(o, e, mode, allowMerge, tracking) && Matches(o, e, text[e.from..e.to])
    ensures o.start <= e.from && e.to <= o.end && |o.record.after| == o.end - o.start
  {
    assert |o.record.after| == o.end - o.start;
    if !Adjacent(o, e) { assert |Slice(o.record.after, RelativeFrom(o, e), RelativeTo(o, e))| == e.to - e.from; }
  }

  /** An edit inside a range changes the range's text and nothing else. */
  lemma AroundTheEdit(text: string, e: Edit, start: int, end: int)
    requires 0 <= start <= e.from <= e.to <= end <= |text|
    ensures var next, end' := Applied(text, e), end + e.Growth();
      && next[..start] == text[..start] && next[end'..] == text[end..]
      && next[start..end'] == text[start..e.from] + e.insert + text[e.to..end]
  {
    var head, left, right, tail := text[..start], text[start..e.from], text[e.to..end], text[end..];
    var next := Applied(text, e);
    assert next == head + left + e.insert + right + tail;
    assert next[|head|..|head| + |left| + |e.insert| + |right|] == left + e.insert + right;
  }

  /** A slice with its middle replaced. */
  lemma MiddleOfSlice(text: string, e: Edit, start: int, end: int)
    requires 0 <= start <= e.from <= e.to <= end <= |text|
    ensures text[start..end][..e.from - start] == text[start..e.from]
    ensures text[start..end][e.to - start..] == text[e.to..end]
  {
  }

  /** Taking an edit into proposed text: undoing still gives the same text, and the range spells the new proposal. */
  lemma JoinProposalUndoes(o: Open, text: string, e: Edit, mode: Mode, allowMerge: bool, tracking: bool)
    requires e.Within(text) && Spells(o, text)
    requires JoinsProposal(o, e, mode, allowMerge, tracking) && Matches(o, e, text[e.from..e.to])
    requires JoinProposal(o, e).record.after != ""
    ensures var o' := MapOpen(JoinProposal(o, e), e);
      Spells(o', Applied(text, e)) && Undone(o', Applied(text, e)) == Undone(o, text)
  {
    JoinedEditIsInside(o, text, e, mode, allowMerge, tracking);
    JoinedRecordIs(o, text, e);
    hide JoinProposal, MapOpen, MapBoundary, Matches, JoinsProposal, Slice, Applied;
    AroundTheEdit(text, e, o.start, o.end);
  }

  lemma JoinedRecordIs(o: Open, text: string, e: Edit)
    requires e.Within(text) && Spells(o, text) && o.record.kind != Deleted && o.start <= e.from && e.to <= o.end
    requires |o.record.after| == o.end - o.start && (Adjacent(o, e) || e.from < o.end)
    ensures var o' := MapOpen(JoinProposal(o, e), e);
      && o'.start == o.start && o'.end == o.end + e.Growth()
      && o'.record.kind == o.record.kind && o'.record.before == o.record.before
      && o'.record.after == JoinProposal(o, e).record.after == text[o.start..e.from] + e.insert + text[e.to..o.end]
  {
    MiddleOfSlice(text, e, o.start, o.end);
  }

  /**
   A record whose proposed text is deleted away is dropped; the text is then as
   if the record had been undone exactly when it replaced nothing.
   */
  lemma DroppedRecordUndone(o: Open, text: string, e: Edit, mode: Mode, allowMerge: bool, tracking: bool)
    requires e.Within(text) && Spells(o, text)
    requires JoinsProposal(o, e, mode, allowMerge, tracking) && Matches(o, e, text[e.from..e.to])
    requires JoinProposal(o, e).record.after == ""
    ensures Applied(text, e) == Undone(o, text) <==> o.record.before == ""
  {
    JoinedEditIsInside(o, text, e, mode, allowMerge, tracking);
    assert |JoinProposal(o, e).record.after| == |o.record.after| + |e.insert| - (e.to - e.from);
    assert e.from == o.start && e.to == o.end && e.insert == "";
    assert |Undone(o, text)| == |Applied(text, e)| + |o.record.before|;
  }

  /** Taking a deletion into a deletion: undoing still gives the same text. */
  lemma JoinDeletionUndoes(o: Open, text: string, e: Edit, mode: Mode, allowMerge: bool)
    requires e.Within(text) && Spells(o, text) && JoinsDeletion(o, e, mode, allowMerge)
    requires mode == Delete ==> e.insert == ""
    ensures var o' := MapOpen(JoinDeletion(o, e, text[e.from..e.to]), e);
      Spells(o', Applied(text, e)) && Undone(o', Applied(text, e)) == Undone(o, text)
  {
    var o', was := MapOpen(JoinDeletion(o, e, text[e.from..e.to]), e), o.record.before;
    assert o'.start == o'.end == e.from;
    hide MapOpen, MapBoundary;
    if e.from < o.start { DeletedBefore(text, e, was); } else { DeletedBehind(text, e, was); }
  }

  lemma DeletedBefore(text: string, e: Edit, was: string)
    requires e.Within(text) && e.insert == ""
    ensures Spliced(Applied(text, e), e.from, e.from, text[e.from..e.to] + was) == Spliced(text, e.to, e.to, was)
  {
    var next := Applied(text, e);
    assert next[..e.from] == text[..e.from] && next[e.from..] == text[e.to..];
    assert text[..e.to] == text[..e.from] + text[e.from..e.to];
  }

  lemma DeletedBehind(text: string, e: Edit, was: string)
    requires e.Within(text) && e.insert == ""
    ensures Spliced(Applied(text, e), e.from, e.from, was + text[e.from..e.to]) == Spliced(text, e.from, e.from, was)
  {
    var next := Applied(text, e);
    assert next[..e.from] == text[..e.from] && next[e.from..] == text[e.to..];
    assert text[e.from..] == text[e.from..e.to] + text[e.to..];
  }

  // ----- What is stored can be opened again -----

  ghost predicate Good(s: State) {
    && Ids(s.doc, s.next)
    && forall i :: 0 <= i < |s.records| ==> Known(s.records[i].start, s.next) && Known(s.records[i].end, s.next)
  }

  lemma {:induction false} AnchorIsKnown(doc: Doc, next: nat, p: nat)
    requires Ids(doc, next)
    ensures Known(AnchorAt(doc, p), next)
    decreases |doc|
  {
    if doc != [] && !(doc[0].live && p == 0) {
      var rest := doc[1..];
      assert forall i :: 0 <= i < |rest| ==> rest[i] == doc[i + 1];
      AnchorIsKnown(rest, next, if doc[0].live then p - 1 else p);
    }
  }

  lemma ReviseKeepsAnchors(opens: seq<Open>, text: string, e: Edit, mode: Mode, allowMerge: bool, tracking: bool,
                           session: nat, i: nat)
    requires e.Within(text)
    requires i < |Revise(opens, text, e, mode, allowMerge, tracking, session)|
    ensures var o := Revise(opens, text, e, mode, allowMerge, tracking, session)[i];
      (o.record.start == AtEnd && o.record.end == AtEnd)
      || exists j :: 0 <= j < |opens| && o.record.start == opens[j].record.start && o.record.end == opens[j].record.end
  {
    hide Joins, Matches, Slice, KindFor, Target, RelativeFrom, RelativeTo, Adjacent;
    var t := Target(opens, 0, e, mode, allowMerge, tracking, session);
    var revised := Revise(opens, text, e, mode, allowMerge, tracking, session);
    if |revised| < |opens| {
      var j := if i < t then i else i + 1;
      assert revised[i] == opens[j];
    } else if i < |opens| {
      assert revised[i].record.start == opens[i].record.start && revised[i].record.end == opens[i].record.end;
    } else {
      assert revised[i] == NewRecord(e, text[e.from..e.to], session);
    }
  }

  /** Every step keeps the identities apart and the anchors known. */
  lemma StepKeepsGood(s: State, event: Event)
    requires Good(s) && Enabled(s, event)
    ensures Good(Step(s, event))
  {
    if event.Typing? { CaptureKeepsGood(s, event.edit, event.paste); }
  }

  lemma CaptureKeepsGood(s: State, e: Edit, paste: bool)
    requires Good(s) && e.Within(s.Text())
    ensures Good(Capture(s, e, paste))
  {
    hide Revise, Change, EventMode, Contiguous, RecordRange;
    var mode := EventMode(paste, e);
    var opens, merge := OpenAll(s.records, s.doc), Contiguous(s.group, mode, e);
    var revised, doc, next := Revise(opens, s.Text(), e, mode, merge, s.tracking, s.session),
        Change(s.doc, s.next, e), s.next + |e.insert|;
    ChangeKeepsIds(s.doc, s.next, e);
    var saved := SaveAll(revised, e, doc);
    forall i | 0 <= i < |saved| ensures Known(saved[i].start, next) && Known(saved[i].end, next) {
      ReviseKeepsAnchors(opens, s.Text(), e, mode, merge, s.tracking, s.session, i);
      SavedIsKnown(MapOpen(revised[i], e), doc, next);
    }
  }

  lemma SavedIsKnown(o: Open, doc: Doc, next: nat)
    requires Ids(doc, next) && Known(o.record.start, next) && Known(o.record.end, next)
    ensures Known(Save(o, doc).start, next) && Known(Save(o, doc).end, next)
  {
    AnchorIsKnown(doc, next, Max(0, o.start));
    AnchorIsKnown(doc, next, Max(Max(0, o.start), o.end));
  }

  /** A changed record is found again where it was put. */
  lemma SavedReopens(o: Open, doc: Doc, next: nat)
    requires Ids(doc, next) && o.changed && Spells(o, Live(doc))
    ensures var again := OpenRecord(Save(o, doc), doc);
      && again.start == o.start && again.end == o.end
      && again.record.kind == o.record.kind
      && again.record.before == o.record.before && again.record.after == o.record.after
  {
    AnchorResolves(doc, next, o.start);
    AnchorResolves(doc, next, o.end);
    hide Resolve, AnchorAt, Live;
  }

  // ----- Runs that keep merging -----

  /** The capture goes into record t, which survives it. */
  predicate Merges(s: State, e: Edit, paste: bool, t: nat)
    requires e.Within(s.Text())
  {
    var mode := EventMode(paste, e);
    var opens := OpenAll(s.records, s.doc);
    && t < |opens| && Target(opens, 0, e, mode, Contiguous(s.group, mode, e), s.tracking, s.session) == t
    && (opens[t].record.kind == Deleted
        || (Matches(opens[t], e, s.Text()[e.from..e.to]) && JoinProposal(opens[t], e).record.after != ""))
  }

  /** The capture types nothing, deletes nothing and leaves the records as they are. */
  predicate IsIdle(s: State, e: Edit, paste: bool)
    requires e.Within(s.Text())
  {
    e.from == e.to && e.insert == "" && Capture(s, e, paste).records == s.records
  }

  /** Record t, opened, spells its proposal, and undoing it gives `base`. */
  ghost predicate Undoes(s: State, t: nat, base: string) {
    t < |s.records|
    && var o := OpenRecord(s.records[t], s.doc);
       Spells(o, s.Text()) && Undone(o, s.Text()) == base
  }

  /** The target record at work: it takes the edit in and undoes to the same text. */
  lemma TargetUndoes(o: Open, text: string, e: Edit, mode: Mode, allowMerge: bool, tracking: bool, session: nat)
    requires e.Within(text) && Spells(o, text) && Joins(o, e, mode, allowMerge, tracking, session)
    requires mode == Delete ==> e.insert == ""
    requires o.record.kind == Deleted || (Matches(o, e, text[e.from..e.to]) && JoinProposal(o, e).record.after != "")
    ensures var joined := if o.record.kind == Deleted then JoinDeletion(o, e, text[e.from..e.to])
        else JoinProposal(o, e);
      var o' := MapOpen(joined, e);
      joined.changed && Spells(o', Applied(text, e)) && Undone(o', Applied(text, e)) == Undone(o, text)
  {
    hide Matches, Slice, Spells, Undone, Applied, MapBoundary, JoinsDeletion, JoinsProposal;
    if o.record.kind == Deleted {
      assert JoinsDeletion(o, e, mode, allowMerge) by { DeletionJoins(o, e, mode, allowMerge, tracking); }
      JoinDeletionUndoes(o, text, e, mode, allowMerge);
    } else {
      assert JoinsProposal(o, e, mode, allowMerge, tracking) by { ProposalJoins(o, e, mode, allowMerge, tracking); }
      JoinProposalUndoes(o, text, e, mode, allowMerge, tracking);
    }
  }

  lemma DeletionJoins(o: Open, e: Edit, mode: Mode, allowMerge: bool, tracking: bool)
    requires o.record.kind == Deleted
    ensures !JoinsProposal(o, e, mode, allowMerge, tracking)
  {
  }

  lemma ProposalJoins(o: Open, e: Edit, mode: Mode, allowMerge: bool, tracking: bool)
    requires o.record.kind != Deleted
    ensures !JoinsDeletion(o, e, mode, allowMerge)
  {
  }

  /** One capture into record t, whatever other records there are. */
  lemma MergingCapture(s: State, e: Edit, paste: bool, t: nat, base: string)
    requires Good(s) && e.Within(s.Text()) && Merges(s, e, paste, t) && Undoes(s, t, base)
    ensures Undoes(Capture(s, e, paste), t, base)
  {
    hide Joins, Matches, Spells, Undone, Slice, MapBoundary, RecordRange, Contiguous, Applied, JoinProposal,
         JoinDeletion, Change, Live;
    var mode := EventMode(paste, e);
    var opens, text := OpenAll(s.records, s.doc), s.Text();
    var doc, next := Change(s.doc, s.next, e), s.next + |e.insert|;
    LiveChanged(s.doc, s.next, e);
    ChangeKeepsIds(s.doc, s.next, e);
    TargetUndoes(opens[t], text, e, mode, Contiguous(s.group, mode, e), s.tracking, s.session);
    var joined := if opens[t].record.kind == Deleted then JoinDeletion(opens[t], e, text[e.from..e.to])
        else JoinProposal(opens[t], e);
    assert Capture(s, e, paste).records[t] == Save(MapOpen(joined, e), doc);
    SavedReopens(MapOpen(joined, e), doc, next);
    SameUndone(MapOpen(joined, e), OpenRecord(Capture(s, e, paste).records[t], doc), Live(doc));
  }

  // ----- Which record an edit goes into -----

  /**
   The edit overlaps the author's own proposal, or types at its end in the same
   go or untracked; or it deletes beside the author's own deletion in the same
   go.
   */
  ghost predicate Takes(o: Open, e: Edit, mode: Mode, sameGo: bool, tracking: bool, session: nat) {
    && o.record.session == session
    && if o.record.kind == Deleted then sameGo && mode == Delete && o.start in {e.from, e.to}
       else || (o.start < e.to && e.from < o.end)
            || (e.from == e.to == o.end && mode == Insert && (sameGo || !tracking))
  }

  lemma TakesMeans(o: Open, e: Edit, mode: Mode, sameGo: bool, tracking: bool, session: nat)
    ensures Joins(o, e, mode, sameGo, tracking, session) <==> Takes(o, e, mode, sameGo, tracking, session)
  {
  }

  /** Record t is the first that takes the edit. */
  ghost predicate FirstTakes(s: State, e: Edit, paste: bool, t: nat) {
    var mode := EventMode(paste, e);
    var sameGo := Contiguous(s.group, mode, e);
    && t < |s.records| && Takes(OpenRecord(s.records[t], s.doc), e, mode, sameGo, s.tracking, s.session)
    && forall i :: 0 <= i < t ==> !Takes(OpenRecord(s.records[i], s.doc), e, mode, sameGo, s.tracking, s.session)
  }

  ghost predicate NoneTakes(s: State, e: Edit, paste: bool) {
    var mode := EventMode(paste, e);
    forall i :: 0 <= i < |s.records| ==>
      !Takes(OpenRecord(s.records[i], s.doc), e, mode, Contiguous(s.group, mode, e), s.tracking, s.session)
  }

  lemma TargetMeans(s: State, e: Edit, paste: bool)
    ensures var mode := EventMode(paste, e);
      var t := Target(OpenAll(s.records, s.doc), 0, e, mode, Contiguous(s.group, mode, e), s.tracking, s.session);
      && (NoneTakes(s, e, paste) <==> t == |s.records|)
      && forall k: nat :: FirstTakes(s, e, paste, k) <==> k == t < |s.records|
  {
    hide Joins, Takes, Contiguous, EventMode, OpenRecord;
    var mode := EventMode(paste, e);
    var sameGo := Contiguous(s.group, mode, e);
    var opens := OpenAll(s.records, s.doc);
    forall i | 0 <= i < |opens|
      ensures Joins(opens[i], e, mode, sameGo, s.tracking, s.session)
         <==> Takes(OpenRecord(s.records[i], s.doc), e, mode, sameGo, s.tracking, s.session)
    {
      TakesMeans(opens[i], e, mode, sameGo, s.tracking, s.session);
    }
  }

  /** An edit that no record takes leaves all of them; tracked, it gets one of its own, if it changes anything. */
  lemma FreshCapture(s: State, e: Edit, paste: bool)
    requires e.Within(s.Text()) && NoneTakes(s, e, paste)
    ensures var next, removed := Capture(s, e, paste).records, s.Text()[e.from..e.to];
      && s.records <= next
      && |next| == |s.records| + (if s.tracking && (removed != "" || e.insert != "") then 1 else 0)
      && (|next| > |s.records| ==>
            var r := next[|s.records|];
            && r.before == removed && r.after == e.insert && r.session == s.session
            && (r.kind == Deleted <==> e.insert == "") && (r.kind == Inserted <==> removed == ""))
  {
    AllOpen(s);
    hide Contiguous, EventMode, OpenRecord, Live, Change, Takes, FirstTakes, OpenAll;
    TargetMeans(s, e, paste);
  }

  lemma AllOpen(s: State)
    ensures forall i :: 0 <= i < |s.records| ==>
              OpenAll(s.records, s.doc)[i].record == s.records[i] && !OpenAll(s.records, s.doc)[i].changed
  {
  }

  /** A deletion takes the deleted text in, in front or behind. */
  lemma DeletionGrows(s: State, e: Edit, paste: bool, t: nat)
    requires e.Within(s.Text()) && FirstTakes(s, e, paste, t) && s.records[t].kind == Deleted
    ensures var next, removed := Capture(s, e, paste).records, s.Text()[e.from..e.to];
      && |next| == |s.records| && (forall i :: 0 <= i < |next| && i != t ==> next[i] == s.records[i])
      && next[t].kind == Deleted && next[t].after == s.records[t].after && next[t].session == s.records[t].session
      && next[t].before == if e.from < OpenRecord(s.records[t], s.doc).start then removed + s.records[t].before
                           else s.records[t].before + removed
  {
    AllOpen(s);
    hide Contiguous, EventMode, OpenRecord, Live, Change, Takes, FirstTakes;
    TargetMeans(s, e, paste);
  }

  lemma OpenKeepsRecord(r: Record, doc: Doc)
    ensures OpenRecord(r, doc).record == r && !OpenRecord(r, doc).changed
  {
  }

  /** A proposal takes an edit of its own text in; it goes when nothing of it is left. */
  lemma ProposalGrows(s: State, e: Edit, paste: bool, t: nat)
    requires e.Within(s.Text()) && t < |s.records| && FirstTakes(s, e, paste, t) && s.records[t].kind != Deleted
    requires var o := OpenRecord(s.records[t], s.doc);
             Spells(o, s.Text()) && o.start <= e.from && e.to <= o.end
    ensures var next, o := Capture(s, e, paste).records, OpenRecord(s.records[t], s.doc);
      var after := s.Text()[o.start..e.from] + e.insert + s.Text()[e.to..o.end];
      && (after == "" ==> next == s.records[..t] + s.records[t + 1..])
      && (after != "" ==>
            && |next| == |s.records| && (forall i :: 0 <= i < |next| && i != t ==> next[i] == s.records[i])
            && next[t].kind == s.records[t].kind && next[t].before == s.records[t].before
            && next[t].after == after && next[t].session == s.records[t].session)
  {
    hide Contiguous, EventMode, OpenRecord, Live, Change, Takes, FirstTakes, Matches, JoinProposal, Spells, Capture,
      SaveAll;
    var o, doc := OpenRecord(s.records[t], s.doc), Change(s.doc, s.next, e);
    ProposalShows(s, e, paste, t);
    ProposalRevises(s, e, paste, t);
    JoinKeeps(o, e);
    OpenKeepsRecord(s.records[t], s.doc);
    SavedAround(s, e, doc, t, JoinProposal(o, e));
  }

  lemma ProposalRevises(s: State, e: Edit, paste: bool, t: nat)
    requires e.Within(s.Text()) && FirstTakes(s, e, paste, t) && s.records[t].kind != Deleted
    requires Matches(OpenRecord(s.records[t], s.doc), e, s.Text()[e.from..e.to])
    ensures var opens, joined := OpenAll(s.records, s.doc), JoinProposal(OpenRecord(s.records[t], s.doc), e);
      Capture(s, e, paste).records
      == SaveAll(if joined.record.after == "" then opens[..t] + opens[t + 1..] else opens[t := joined],
                 e, Change(s.doc, s.next, e))
  {
    AllOpen(s);
    TargetMeans(s, e, paste);
    hide Contiguous, EventMode, OpenRecord, Live, Change, Takes, FirstTakes, Matches, JoinProposal, Save;
  }

  /** What is saved when one record is dropped, or replaced by a changed one. */
  lemma SavedAround(s: State, e: Edit, doc: Doc, t: nat, joined: Open)
    requires t < |s.records| && joined.changed
    ensures var opens := OpenAll(s.records, s.doc);
      && SaveAll(opens[..t] + opens[t + 1..], e, doc) == s.records[..t] + s.records[t + 1..]
      && var next := SaveAll(opens[t := joined], e, doc);
         && |next| == |s.records| && (forall i :: 0 <= i < |next| && i != t ==> next[i] == s.records[i])
         && next[t].kind == joined.record.kind && next[t].before == joined.record.before
         && next[t].after == joined.record.after && next[t].session == joined.record.session
  {
    AllOpen(s);
    hide OpenRecord, MapBoundary, AnchorAt;
    var opens := OpenAll(s.records, s.doc);
    var fewer := opens[..t] + opens[t + 1..];
    assert forall i :: 0 <= i < |fewer| ==> fewer[i] == opens[if i < t then i else i + 1];
  }

  lemma JoinKeeps(o: Open, e: Edit)
    ensures var joined := JoinProposal(o, e);
      && joined.changed && joined.record.kind == o.record.kind && joined.record.before == o.record.before
      && joined.record.session == o.record.session
  {
  }

  lemma ProposalShows(s: State, e: Edit, paste: bool, t: nat)
    requires e.Within(s.Text()) && FirstTakes(s, e, paste, t) && s.records[t].kind != Deleted
    requires var o := OpenRecord(s.records[t], s.doc);
             Spells(o, s.Text()) && o.start <= e.from && e.to <= o.end
    ensures var o := OpenRecord(s.records[t], s.doc);
      && Matches(o, e, s.Text()[e.from..e.to])
      && JoinProposal(o, e).record.after == s.Text()[o.start..e.from] + e.insert + s.Text()[e.to..o.end]
  {
    hide Contiguous, EventMode, Live;
    var o, text := OpenRecord(s.records[t], s.doc), s.Text();
    OpenKeepsRecord(s.records[t], s.doc);
    hide OpenRecord;
    JoinedRecordIs(o, text, e);
    assert o.record.after[e.from - o.start..e.to - o.start] == text[e.from..e.to];
  }

  /** Typing right behind what was just typed goes on with it. */
  lemma TypingContinues(s: State, e: Edit, next: Edit)
    requires e.Within(s.Text()) && e.from == e.to && next.from == next.to
    ensures Contiguous(Capture(s, e, false).group, EventMode(false, next), next) <==> next.from == e.from + |e.insert|
  {
    hide Change, Live, SaveAll, Revise, OpenAll;
  }

  /**
   After a deletion the controller remembers a place in front of it, as far in
   front as the deletion was long.  Deleting on to the left continues it
   exactly when the next deletion is as long as the last one, and deleting on
   to the right never does.
   */
  lemma DeletionContinues(s: State, e: Edit, next: Edit)
    requires e.Within(s.Text()) && e.from < e.to && e.insert == "" && next.from < next.to && next.insert == ""
    ensures var goesOn := Contiguous(Capture(s, e, false).group, EventMode(false, next), next);
      && (next.to == e.from ==> (goesOn <==> next.to - next.from == e.to - e.from))
      && (next.from == e.from ==> !goesOn)
  {
    hide Change, Live, SaveAll, Revise, OpenAll;
  }

  /** Nothing continues once the caret has moved, or tracking was switched. */
  lemma NothingContinues(s: State, on: bool, mode: Mode, e: Edit)
    ensures !Contiguous(Step(s, CaretMoved).group, mode, e)
    ensures on != s.tracking ==> !Contiguous(Step(s, Switch(on)).group, mode, e)
  {
  }

  /** Every event can come at any time, as long as an edit lies in the text. */
  lemma EnabledMeans(s: State, event: Event)
    ensures Enabled(s, event)
       <==> match event
            case Typing(e, _) => 0 <= e.from <= e.to <= |s.Text()|
            case _ => true
  {
  }

  /** Two open records with the same range and the same texts undo alike. */
  lemma SameUndone(x: Open, y: Open, text: string)
    requires x.start == y.start && x.end == y.end && x.record.kind == y.record.kind
    requires x.record.before == y.record.before && x.record.after == y.record.after && Spells(x, text)
    ensures Spells(y, text) && Undone(x, text) == Undone(y, text)
  {
  }

  /** The capture that starts record t. */
  lemma FirstCapture(s: State, e: Edit, paste: bool)
    requires Good(s) && e.Within(s.Text()) && |Capture(s, e, paste).records| > |s.records|
    ensures Undoes(Capture(s, e, paste), |s.records|, s.Text())
  {
    hide Joins, Matches, Spells, Undone, Slice, MapBoundary, RecordRange, Contiguous, Applied, JoinProposal,
         JoinDeletion, Change, Live, KindFor;
    var doc, next := Change(s.doc, s.next, e), s.next + |e.insert|;
    LiveChanged(s.doc, s.next, e);
    ChangeKeepsIds(s.doc, s.next, e);
    var o := MapOpen(NewRecord(e, s.Text()[e.from..e.to], s.session), e);
    NewRecordUndoes(s.Text(), e, s.session);
    assert Capture(s, e, paste).records[|s.records|] == Save(o, doc);
    SavedReopens(o, doc, next);
    SameUndone(o, OpenRecord(Save(o, doc), doc), Live(doc));
  }

  lemma IdleCapture(s: State, e: Edit, paste: bool, t: nat, base: string)
    requires e.Within(s.Text()) && IsIdle(s, e, paste) && Undoes(s, t, base)
    ensures Undoes(Capture(s, e, paste), t, base)
  {
    NothingChanged(s.doc, s.next, e);
  }

  ghost predicate IsRun(states: seq<State>, events: seq<Event>) {
    && |states| == |events| + 1
    && forall i :: 0 <= i < |events| ==> Enabled(states[i], events[i]) && states[i + 1] == Step(states[i], events[i])
  }

  /** Record t is the one that is being worked on: every capture goes into it. */
  ghost predicate StaysOn(s: State, event: Event, t: nat)
    requires Enabled(s, event)
  {
    event.Typing? ==> Merges(s, event.edit, event.paste, t) || IsIdle(s, event.edit, event.paste)
  }

  /** Steps before the first capture do not matter, so the run starts with it. */
  ghost predicate WorksOn(states: seq<State>, events: seq<Event>, t: nat) {
    && IsRun(states, events) && events != [] && events[0].Typing?
    && Good(states[0]) && t == |states[0].records| < |states[1].records|
    && forall j :: 1 <= j < |events| ==> StaysOn(states[j], events[j], t)
  }

  /**
   While one author's captures keep merging into the record that the first of
   them started, with any other records beside it and with tracking switched
   and the caret moved in between, undoing that record restores the text from
   before its first edit, and its range spells what it proposes.
   */
  lemma {:induction false} RunUndoes(states: seq<State>, events: seq<Event>, t: nat, i: nat)
    requires WorksOn(states, events, t) && 1 <= i < |states|
    ensures Good(states[i]) && Undoes(states[i], t, states[0].Text())
  {
    hide Capture, Merges, IsIdle, Good, Undoes;
    var s, event := states[i - 1], events[i - 1];
    assert Enabled(s, event) && states[i - 1 + 1] == Step(s, event);
    if i == 1 {
      StepKeepsGood(s, event);
      FirstCapture(s, event.edit, event.paste);
    } else {
      RunUndoes(states, events, t, i - 1);
      StepKeepsGood(s, event);
      assert StaysOn(s, event, t);
      StepUndoes(s, event, t, states[0].Text());
    }
  }

  lemma StepUndoes(s: State, event: Event, t: nat, base: string)
    requires Good(s) && Enabled(s, event) && StaysOn(s, event, t) && Undoes(s, t, base)
    ensures Undoes(Step(s, event), t, base)
  {
    hide Capture, Merges, IsIdle, RecordRange, Spells, Undone;
    if event.Typing? {
      if Merges(s, event.edit, event.paste, t) {
        MergingCapture(s, event.edit, event.paste, t, base);
      } else {
        IdleCapture(s, event.edit, event.paste, t, base);
      }
    }
  }

  /** With no other record and tracking on, a capture that leaves one record has merged, or was idle. */
  lemma OnlyRecordStays(s: State, e: Edit, paste: bool)
    requires e.Within(s.Text()) && s.tracking && |s.records| == 1 && |Capture(s, e, paste).records| == 1
    ensures Merges(s, e, paste, 0) || IsIdle(s, e, paste)
  {
    hide Joins, Matches, Slice, RecordRange, Contiguous, Change, Live, JoinProposal, JoinDeletion, Resolve;
    if !Merges(s, e, paste, 0) {
      assert Capture(s, e, paste).records == s.records;
    }
  }

  /** The plain case: the run's record is the only one there ever is. */
  lemma OnlyRecordUndoes(states: seq<State>, events: seq<Event>, i: nat)
    requires IsRun(states, events) && 1 <= i < |states| && Good(states[0])
    requires states[0].records == [] && states[0].tracking
    requires forall j :: 0 <= j < |events| ==> events[j].Typing?
    requires forall j :: 1 <= j < |states| ==> |states[j].records| == 1
    ensures Undoes(states[i], 0, states[0].Text())
  {
    hide Capture, Merges, IsIdle, Good, Undoes;
    forall j | 1 <= j < |events| ensures StaysOn(states[j], events[j], 0) {
      TracksOn(states, events, j);
      assert Enabled(states[j], events[j]) && states[j + 1] == Step(states[j], events[j]);
      OnlyRecordStays(states[j], events[j].edit, events[j].paste);
    }
    RunUndoes(states, events, 0, i);
  }

  lemma {:induction false} TracksOn(states: seq<State>, events: seq<Event>, i: nat)
    requires IsRun(states, events) && i < |states| && states[0].tracking
    requires forall j :: 0 <= j < |events| ==> events[j].Typing?
    ensures states[i].tracking
  {
    if i > 0 {
      TracksOn(states, events, i - 1);
      assert Enabled(states[i - 1], events[i - 1]) && states[i - 1 + 1] == Step(states[i - 1], events[i - 1]);
    }
  }

  // ----- Records that a capture does not change -----

  /** Where the anchors of a record are; stored offsets play no part. */
  ghost predicate FollowsAnchors(r: Record, doc: Doc) {
    RecordRange(r, doc) == (Resolve(doc, r.start), Resolve(doc, r.end))
  }

  /** The edit reaches into the range. */
  predicate ReachesIn(o: Open, e: Edit) { o.start < e.to && e.from < o.end }

  ghost predicate InBoth(o: Open, e: Edit, p: int) { e.from <= p < e.to && o.start <= p < o.end }

  /** It deletes a character of the range, or something around the place of an empty one, or inserts inside it. */
  lemma ReachesInMeans(o: Open, e: Edit)
    requires o.start <= o.end && e.from <= e.to
    ensures ReachesIn(o, e)
       <==> || (exists p :: InBoth(o, e, p))
            || e.from < o.start == o.end < e.to
            || o.start < e.from == e.to < o.end
  {
    if ReachesIn(o, e) && e.from < e.to && o.start < o.end {
      var p := Max(e.from, o.start);
      assert InBoth(o, e, p);
    }
  }

  /**
   The edit inserts where one end of the range moves and the other does not:
   behind a range whose end stands on a character, or in front of one whose
   start stands on a tombstone; or at an empty range with one end of each kind.
   */
  predicate Stretches(o: Open, startLive: bool, endLive: bool, e: Edit) {
    e.insert != ""
    && if e.to == o.start then (if o.start < o.end then !startLive else startLive != endLive)
       else e.from == e.to == o.end && endLive
  }

  predicate StretchesRecord(r: Record, doc: Doc, e: Edit) {
    Stretches(OpenRecord(r, doc), IsLive(doc, r.start), IsLive(doc, r.end), e)
  }

  /** What the anchors of an unchanged record resolve to after an edit that does not reach into its range. */
  lemma RangeMoves(r: Record, doc: Doc, next: nat, e: Edit)
    requires e.Within(Live(doc)) && Known(r.start, next) && Known(r.end, next) && FollowsAnchors(r, doc)
    ensures var o, doc' := OpenRecord(r, doc), Change(doc, next, e);
      && Resolve(doc', r.start) == Moved(o.start, IsLive(doc, r.start), e)
      && Resolve(doc', r.end) == Moved(o.end, IsLive(doc, r.end), e)
  {
    hide Resolve, IsLive, Change, Live;
    AnchorMoves(doc, next, e, r.start);
    AnchorMoves(doc, next, e, r.end);
  }

  /** An edit that does not reach into the range leaves its length alone exactly when it does not stretch it. */
  lemma RangeKeptExactly(r: Record, doc: Doc, next: nat, e: Edit)
    requires e.Within(Live(doc)) && Known(r.start, next) && Known(r.end, next) && FollowsAnchors(r, doc)
    requires OpenRecord(r, doc).start <= OpenRecord(r, doc).end && !ReachesIn(OpenRecord(r, doc), e)
    ensures var o, doc' := OpenRecord(r, doc), Change(doc, next, e);
      Resolve(doc', r.end) - Resolve(doc', r.start) == o.end - o.start <==> !StretchesRecord(r, doc, e)
  {
    RangeMoves(r, doc, next, e);
    hide Resolve, IsLive, Change, Live, RecordRange, FollowsAnchors;
  }

  /** As long as both ends stand on characters: exactly typing right behind the range stretches it. */
  lemma LiveRangeKeptExactly(r: Record, doc: Doc, next: nat, e: Edit)
    requires e.Within(Live(doc)) && Known(r.start, next) && Known(r.end, next) && FollowsAnchors(r, doc)
    requires OpenRecord(r, doc).start <= OpenRecord(r, doc).end && !ReachesIn(OpenRecord(r, doc), e)
    requires IsLive(doc, r.start) && IsLive(doc, r.end)
    ensures var o, doc' := OpenRecord(r, doc), Change(doc, next, e);
      Resolve(doc', r.end) - Resolve(doc', r.start) == o.end - o.start
      <==> e.insert == "" || e.from < e.to || e.from != o.end || o.start == o.end
  {
    RangeKeptExactly(r, doc, next, e);
    hide Resolve, IsLive, Change, Live, RecordRange, FollowsAnchors;
  }

  lemma SliceBehind(x: string, y: string, i: nat, j: nat)
    requires i <= j <= |y|
    ensures (x + y)[|x| + i..|x| + j] == y[i..j]
  {
  }

  lemma SliceOfSlice(text: string, from: nat, i: nat, j: nat)
    requires from <= i <= j <= |text|
    ensures text[from..][i - from..j - from] == text[i..j]
  {
  }

  lemma SliceInFront(text: string, rest: string, k: nat, i: nat, j: nat)
    requires i <= j <= k <= |text|
    ensures (text[..k] + rest)[i..j] == text[i..j]
  {
  }

  /** The text of a range after an edit in front of it, or behind it. */
  lemma RangeText(text: string, e: Edit, start: int, end: int)
    requires e.Within(text) && 0 <= start <= end <= |text|
    ensures |Applied(text, e)| == |text| + e.Growth()
    ensures e.to <= start ==> Applied(text, e)[start + e.Growth()..end + e.Growth()] == text[start..end]
    ensures end <= e.from ==> Applied(text, e)[start..end] == text[start..end]
  {
    if e.to <= start {
      SliceBehind(text[..e.from] + e.insert, text[e.to..], start - e.to, end - e.to);
      SliceOfSlice(text, e.to, start, end);
    }
    if end <= e.from {
      assert Applied(text, e) == text[..e.from] + (e.insert + text[e.to..]);
      SliceInFront(text, e.insert + text[e.to..], e.from, start, end);
    }
  }

  /** The range that the moved anchors give spells the proposal exactly when the edit did not stretch it. */
  lemma MovedSpellsExactly(o: Open, text: string, e: Edit, startLive: bool, endLive: bool)
    requires e.Within(text) && Spells(o, text) && !ReachesIn(o, e)
    ensures var start, end := Moved(o.start, startLive, e), Moved(o.end, endLive, e);
      var range := RangeFrom(o.record, start, end);
      && (Spells(Open(o.record, range.0, range.1, false), Applied(text, e)) <==> !Stretches(o, startLive, endLive, e))
      && (!Stretches(o, startLive, endLive, e) ==> range == (start, end))
  {
    RangeText(text, e, o.start, o.end);
    hide Applied;
  }

  lemma OpenedFromAnchors(r: Record, doc: Doc)
    ensures var range := RangeFrom(r, Resolve(doc, r.start), Resolve(doc, r.end));
      && OpenRecord(r, doc) == Open(r, range.0, range.1, false)
      && (FollowsAnchors(r, doc) <==> range == (Resolve(doc, r.start) as int, Resolve(doc, r.end) as int))
  {
    hide Resolve, RangeFrom;
  }

  lemma StretchesOpened(r: Record, doc: Doc, e: Edit)
    ensures StretchesRecord(r, doc, e) <==> Stretches(OpenRecord(r, doc), IsLive(doc, r.start), IsLive(doc, r.end), e)
  {
    hide Stretches, IsLive, OpenRecord;
  }

  /** The record still spells its proposal exactly when the edit did not stretch its range. */
  lemma UnchangedSpellsExactly(r: Record, doc: Doc, next: nat, e: Edit)
    requires e.Within(Live(doc)) && Known(r.start, next) && Known(r.end, next) && FollowsAnchors(r, doc)
    requires Spells(OpenRecord(r, doc), Live(doc)) && !ReachesIn(OpenRecord(r, doc), e)
    ensures var doc' := Change(doc, next, e);
      && (Spells(OpenRecord(r, doc'), Live(doc')) <==> !StretchesRecord(r, doc, e))
      && (!StretchesRecord(r, doc, e) ==> FollowsAnchors(r, doc'))
  {
    hide Resolve, IsLive, Change, Live, Applied, Spells, RecordRange, RangeFrom, Stretches, StretchesRecord,
         ReachesIn, Moved,
         FollowsAnchors, OpenRecord;
    var o, doc' := OpenRecord(r, doc), Change(doc, next, e);
    OpenedFromAnchors(r, doc);
    OpenedFromAnchors(r, doc');
    StretchesOpened(r, doc, e);
    RangeMoves(r, doc, next, e);
    LiveChanged(doc, next, e);
    MovedSpellsExactly(o, Live(doc), e, IsLive(doc, r.start), IsLive(doc, r.end));
  }

  /** The capture neither goes into record i nor drops a record. */
  predicate PassesBy(s: State, e: Edit, paste: bool, i: nat)
    requires e.Within(s.Text())
  {
    var mode := EventMode(paste, e);
    && i < |s.records| <= |Capture(s, e, paste).records|
    && Target(OpenAll(s.records, s.doc), 0, e, mode, Contiguous(s.group, mode, e), s.tracking, s.session) != i
  }

  lemma PassedByIsKept(s: State, e: Edit, paste: bool, i: nat)
    requires e.Within(s.Text()) && PassesBy(s, e, paste, i)
    ensures Capture(s, e, paste).records[i] == s.records[i]
  {
    hide Joins, Matches, Slice, RecordRange, Contiguous, Change, Live, JoinProposal, JoinDeletion, Resolve;
  }

  /**
   A capture that passes a record by leaves it spelling its proposal exactly when the edit does not
   stretch its range.
   */
  lemma PassedBySpellsExactly(s: State, e: Edit, paste: bool, i: nat)
    requires Good(s) && e.Within(s.Text()) && PassesBy(s, e, paste, i)
    requires FollowsAnchors(s.records[i], s.doc) && Spells(OpenRecord(s.records[i], s.doc), s.Text())
    requires !ReachesIn(OpenRecord(s.records[i], s.doc), e)
    ensures var next := Capture(s, e, paste);
      Spells(OpenRecord(next.records[i], next.doc), next.Text()) <==> !StretchesRecord(s.records[i], s.doc, e)
  {
    PassedByIsKept(s, e, paste, i);
    UnchangedSpellsExactly(s.records[i], s.doc, s.next, e);
    hide OpenRecord, Spells, FollowsAnchors, StretchesRecord, Change, Live, Revise;
  }

  /** Text typed right behind a proposal, but not as its continuation, is swallowed by the proposal's range. */
  lemma TypingAtTheEndIsSwallowed() returns (s: State, e: Edit)
    ensures Good(s) && |s.records| == 1 && Undoes(s, 0, "") && e.Within(s.Text()) && s.tracking
    ensures var next := Capture(s, e, false);
      && |next.records| == 2 && next.records[0] == s.records[0]
      && OpenRecord(next.records[0], next.doc).end == 2 && !Spells(OpenRecord(next.records[0], next.doc), next.Text())
  {
    var r := Record(Inserted, "", "a", 0, 0, 1, OnCell(0), AtEnd);
    s := State([Cell(0, 'a', true)], 1, [r], None, true, 0);
    e := Edit(1, 1, "b");
    assert s.doc[1..] == [] && Live(s.doc) == "a";
    assert OpenRecord(r, s.doc) == Open(r, 0, 1, false);
    assert "a"[0..1] == "a";
    var next := Capture(s, e, false);
    assert PassesBy(s, e, false, 0);
    PassedByIsKept(s, e, false, 0);
    RangeMoves(r, s.doc, 1, e);
  }

  /** A replacement of "x" by "a" whose "a" is then deleted: no record is left, and "x" does not come back. */
  lemma DroppedReplacementIsLost() returns (s: State, e: Edit)
    ensures Good(s) && |s.records| == 1 && Undoes(s, 0, "x") && e.Within(s.Text()) && s.tracking
    ensures var next := Capture(s, e, false);
      next.records == [] && next.Text() == ""
  {
    var r := Record(Replaced, "x", "a", 0, 0, 1, OnCell(0), AtEnd);
    s := State([Cell(0, 'a', true)], 1, [r], None, true, 0);
    e := Edit(0, 1, "");
    assert s.doc[1..] == [] && Live(s.doc) == "a";
    var o := Open(r, 0, 1, false);
    assert OpenRecord(r, s.doc) == o && "a"[0..1] == "a";
    assert OpenAll(s.records, s.doc) == [o];
    LiveChanged(s.doc, s.next, e);
    assert Good(s) && Undoes(s, 0, "x");
    hide Live, Change, OpenAll, Good, Undoes, OpenRecord;
    assert JoinProposal(o, e).record.after == "";
  }

  // ----- Undoing and edits elsewhere -----

  lemma SplicedLength(text: string, start: int, end: int, before: string)
    requires 0 <= start <= end <= |text|
    ensures |Spliced(text, start, end, before)| == |text| - (end - start) + |before|
  {
  }

  /** The middle of three parts replaced. */
  lemma SpliceMiddle(x: string, y: string, z: string, before: string)
    ensures Spliced(x + y + z, |x|, |x| + |y|, before) == x + before + z
  {
  }

  lemma AppliedSplices(text: string, e: Edit)
    requires e.Within(text)
    ensures Applied(text, e) == Spliced(text, e.from, e.to, e.insert) && |Applied(text, e)| == |text| + e.Growth()
  {
  }

  /** Two replacements in one text, in either order. */
  lemma TwoSplices(a: string, b: string, c: string, d: string, z: string, x: string, y: string)
    ensures var text := a + b + c + d + z;
      var at := |a| + |b| + |c|;
      && |Spliced(text, |a|, |a| + |b|, x)| == |text| + |x| - |b|
      && |Spliced(text, at, at + |d|, y)| == |text| + |y| - |d|
      && Spliced(Spliced(text, at, at + |d|, y), |a|, |a| + |b|, x)
      == Spliced(Spliced(text, |a|, |a| + |b|, x), at + |x| - |b|, at + |x| - |b| + |d|, y)
  {
    hide Spliced;
    assert a + b + c + d + z == a + b + (c + d + z) && a + b + c + y + z == a + b + (c + y + z);
    SpliceMiddle(a, b, c + d + z, x);
    SpliceMiddle(a + b + c, d, z, y);
    SpliceMiddle(a, b, c + y + z, x);
    assert a + x + (c + d + z) == a + x + c + d + z && a + x + (c + y + z) == a + x + c + y + z;
    SpliceMiddle(a + x + c, d, z, y);
  }

  /** Undoing commutes with an edit in front of the range. */
  lemma SpliceBehind(text: string, e: Edit, start: int, end: int, before: string)
    requires e.Within(text) && 0 <= start <= end <= |text| && e.to <= start
    ensures |Applied(text, e)| == |text| + e.Growth()
    ensures Spliced(Applied(text, e), start + e.Growth(), end + e.Growth(), before)
        == Applied(Spliced(text, start, end, before), e)
  {
    var a, b, c, d, z := text[..e.from], text[e.from..e.to], text[e.to..start], text[start..end], text[end..];
    assert text == a + b + c + d + z;
    SplicedLength(text, start, end, before);
    AppliedSplices(text, e);
    AppliedSplices(Spliced(text, start, end, before), e);
    hide Spliced, Applied;
    TwoSplices(a, b, c, d, z, e.insert, before);
  }

  /** And with one behind it, which then has its place from what is put back. */
  lemma SpliceInFront(text: string, e: Edit, start: int, end: int, before: string)
    requires e.Within(text) && 0 <= start <= end <= e.from
    ensures |Applied(text, e)| == |text| + e.Growth()
    ensures var grow := |before| - (end - start);
      Spliced(Applied(text, e), start, end, before)
      == Applied(Spliced(text, start, end, before), Edit(e.from + grow, e.to + grow, e.insert))
  {
    var a, b, c, d, z := text[..start], text[start..end], text[end..e.from], text[e.from..e.to], text[e.to..];
    var grow := |before| - (end - start);
    assert text == a + b + c + d + z;
    SplicedLength(text, start, end, before);
    AppliedSplices(text, e);
    AppliedSplices(Spliced(text, start, end, before), Edit(e.from + grow, e.to + grow, e.insert));
    hide Spliced, Applied;
    TwoSplices(a, b, c, d, z, before, e.insert);
  }

  /** The same edit in the text with the record undone: as it is in front of the range, moved behind it. */
  function Shifted(o: Open, ahead: bool, e: Edit): Edit
    requires ahead || 0 <= o.start <= o.end <= e.from <= e.to
  {
    var grow := |o.record.before| - (o.end - o.start);
    if ahead then e else Edit(e.from + grow, e.to + grow, e.insert)
  }

  /** The edit comes in front of the range and pushes its start on. */
  predicate IsAhead(o: Open, startLive: bool, e: Edit) {
    e.to < o.start || (e.to == o.start && (startLive || e.insert == ""))
  }

  /**
   A replacement right in front of a record that has lost the character it stood on: its range stays
   behind the insertion's place.
   */
  predicate FallsBehind(o: Open, startLive: bool, e: Edit) {
    e.from < e.to == o.start == o.end && e.insert != "" && !startLive
  }

  lemma FallsBehindMeans(o: Open, startLive: bool, e: Edit)
    requires e.from <= e.to
    ensures FallsBehind(o, startLive, e)
       <==> !startLive && |e.insert| > 0 && o.start == o.end && e.to == o.start && e.from != o.start
  {
  }

  /** The range goes on with the edit's growth, or stays. */
  lemma RangeGoesAlong(o: Open, startLive: bool, endLive: bool, e: Edit)
    requires e.from <= e.to && 0 <= o.start <= o.end && !ReachesIn(o, e)
    requires !Stretches(o, startLive, endLive, e) && !FallsBehind(o, startLive, e)
    ensures var along := if IsAhead(o, startLive, e) then e.Growth() else 0;
      Moved(o.start, startLive, e) == o.start + along && Moved(o.end, endLive, e) == o.end + along
    ensures !IsAhead(o, startLive, e) ==> o.end <= e.from
  {
  }

  lemma NewRange(r: Record, doc: Doc, next: nat, e: Edit)
    requires e.Within(Live(doc)) && Known(r.start, next) && Known(r.end, next) && FollowsAnchors(r, doc)
    requires Spells(OpenRecord(r, doc), Live(doc)) && !ReachesIn(OpenRecord(r, doc), e) && !StretchesRecord(r, doc, e)
    ensures var o, doc' := OpenRecord(r, doc), Change(doc, next, e);
      && Spells(OpenRecord(r, doc'), Live(doc'))
      && OpenRecord(r, doc').record == r
      && OpenRecord(r, doc').start == Moved(o.start, IsLive(doc, r.start), e)
      && OpenRecord(r, doc').end == Moved(o.end, IsLive(doc, r.end), e)
  {
    UnchangedSpellsExactly(r, doc, next, e);
    RangeMoves(r, doc, next, e);
    hide Resolve, IsLive, Change, Live, Spells, StretchesRecord, RecordRange;
  }

  /** Undoing an unchanged record commutes with every edit that neither reaches into its range nor stretches it. */
  lemma UndoCommutes(r: Record, doc: Doc, next: nat, e: Edit)
    requires e.Within(Live(doc)) && Known(r.start, next) && Known(r.end, next) && FollowsAnchors(r, doc)
    requires Spells(OpenRecord(r, doc), Live(doc)) && !ReachesIn(OpenRecord(r, doc), e) && !StretchesRecord(r, doc, e)
    requires !FallsBehind(OpenRecord(r, doc), IsLive(doc, r.start), e)
    ensures var o, doc' := OpenRecord(r, doc), Change(doc, next, e);
      var ahead := IsAhead(o, IsLive(doc, r.start), e);
      && (ahead || o.end <= e.from)
      && Spells(OpenRecord(r, doc'), Live(doc'))
      && Shifted(o, ahead, e).Within(Undone(o, Live(doc)))
      && Undone(OpenRecord(r, doc'), Live(doc')) == Applied(Undone(o, Live(doc)), Shifted(o, ahead, e))
  {
    hide *;
    OpenedInside(r, doc, e);
    var o, doc' := OpenRecord(r, doc), Change(doc, next, e);
    var startLive, endLive := IsLive(doc, r.start), IsLive(doc, r.end);
    NewRange(r, doc, next, e);
    LiveChanged(doc, next, e);
    RangeGoesAlong(o, startLive, endLive, e);
    SplicesCommute(o, Live(doc), e, IsAhead(o, startLive, e));
    UndoneIs(OpenRecord(r, doc'), Live(doc'));
  }

  lemma UndoneIs(o: Open, text: string)
    requires Spells(o, text)
    ensures 0 <= o.start <= o.end <= |text| && Undone(o, text) == Spliced(text, o.start, o.end, o.record.before)
  {
  }

  lemma OpenedInside(r: Record, doc: Doc, e: Edit)
    requires e.Within(Live(doc)) && Spells(OpenRecord(r, doc), Live(doc))
    ensures var o := OpenRecord(r, doc);
      && o.record == r && 0 <= o.start <= o.end <= |Live(doc)| && e.from <= e.to
      && (IsAhead(o, IsLive(doc, r.start), e) ==> e.to <= o.start)
      && (StretchesRecord(r, doc, e) <==> Stretches(o, IsLive(doc, r.start), IsLive(doc, r.end), e))
  {
    hide Live, IsLive, RecordRange, Stretches;
  }

  lemma SplicesCommute(o: Open, text: string, e: Edit, ahead: bool)
    requires e.Within(text) && 0 <= o.start <= o.end <= |text| && (if ahead then e.to <= o.start else o.end <= e.from)
    ensures var along := if ahead then e.Growth() else 0;
      && o.end + along <= |Applied(text, e)|
      && Shifted(o, ahead, e).Within(Undone(o, text))
      && Spliced(Applied(text, e), o.start + along, o.end + along, o.record.before)
      == Applied(Undone(o, text), Shifted(o, ahead, e))
  {
    hide Applied, Spliced, Undone, Shifted;
    SplicedLength(text, o.start, o.end, o.record.before);
    UndoneSplices(o, text);
    ShiftedIs(o, ahead, e);
    if ahead {
      SpliceBehind(text, e, o.start, o.end, o.record.before);
    } else {
      SpliceInFront(text, e, o.start, o.end, o.record.before);
    }
  }

  lemma UndoneSplices(o: Open, text: string)
    requires 0 <= o.start <= o.end <= |text|
    ensures Undone(o, text) == Spliced(text, o.start, o.end, o.record.before)
  {
  }

  lemma ShiftedIs(o: Open, ahead: bool, e: Edit)
    requires e.from <= e.to && (ahead || 0 <= o.start <= o.end <= e.from)
    ensures var grow := |o.record.before| - (o.end - o.start);
      && (ahead ==> Shifted(o, ahead, e) == e)
      && (!ahead ==> Shifted(o, ahead, e) == Edit(e.from + grow, e.to + grow, e.insert))
    ensures forall text ::
      Shifted(o, ahead, e).Within(text) <==> Shifted(o, ahead, e).from <= Shifted(o, ahead, e).to <= |text|
  {
  }

  // ----- The controller -----

  /** The controller's mutable state for one file and author, with the text it watches. */
  class Controller {
    var doc: Doc
    var next: nat
    var records: seq<Record>
    var group: Option<Group>
    var tracking: bool
    var session: nat

    function View(): State
      reads this
    {
      State(doc, next, records, group, tracking, session)
    }

    constructor (doc: Doc, next: nat)
      requires Ids(doc, next)
      ensures View() == State(doc, next, [], None, false, 0) && Good(View())
    {
      this.doc, this.next, records, group, tracking, session := doc, next, [], None, false, 0;
    }

    method SetTracking(value: bool)
      modifies this
      ensures View() == Switched(old(View()), value)
    {
      if value && !tracking { session := session + 1; }
      if value != tracking { group := None; }
      tracking := value;
    }

    method BreakGroup()
      modifies this`group
      ensures View() == old(View()).(group := None)
    {
      group := None;
    }

    /** The first open record that wants the edit. */
    method FindTarget(opens: seq<Open>, e: Edit, mode: Mode, allowMerge: bool) returns (i: nat)
      ensures i == Target(opens, 0, e, mode, allowMerge, tracking, session)
    {
      i := 0;
      while i < |opens| && !Joins(opens[i], e, mode, allowMerge, tracking, session)
        invariant 0 <= i <= |opens|
        invariant Target(opens, 0, e, mode, allowMerge, tracking, session)
            == Target(opens, i, e, mode, allowMerge, tracking, session)
      {
        i := i + 1;
      }
    }

    /** Finds the record the edit goes into, or adds one; the text is still the one before the edit. */
    method ReviseRecords(opens: seq<Open>, text: string, e: Edit, mode: Mode,
                         allowMerge: bool) returns (revised: seq<Open>)
      requires e.Within(text)
      ensures revised == Revise(opens, text, e, mode, allowMerge, tracking, session)
    {
      hide Target, Joins, Matches, JoinProposal, JoinDeletion, KindFor;
      var before := text[e.from..e.to];
      var i := FindTarget(opens, e, mode, allowMerge);
      if i < |opens| && opens[i].record.kind == Deleted {
        return opens[i := JoinDeletion(opens[i], e, before)];
      }
      if i < |opens| && Matches(opens[i], e, before) {
        var joined := JoinProposal(opens[i], e);
        return if joined.record.after == "" then opens[..i] + opens[i + 1..] else opens[i := joined];
      }
      revised := opens;
      if tracking && (before != "" || e.insert != "") {
        revised := revised + [NewRecord(e, before, session)];
      }
    }

    /** One edit by the editor: the text changes, and the changed records are stored with new anchors. */
    method CaptureEdit(e: Edit, paste: bool)
      requires e.Within(Live(doc))
      modifies this
      ensures View() == Capture(old(View()), e, paste)
    {
      hide Live, Change, Revise, Save, RecordRange, Contiguous, EventMode;
      var mode := EventMode(paste, e);
      var contiguous := Contiguous(group, mode, e);
      var state := ReviseRecords(OpenAll(records, doc), Live(doc), e, mode, contiguous);
      doc := Change(doc, next, e);
      next := next + |e.insert|;
      var saved: seq<Record> := [];
      for i := 0 to |state|
        invariant |saved| == i && forall j :: 0 <= j < i ==> saved[j] == Save(MapOpen(state[j], e), doc)
        invariant doc == old(Change(doc, next, e)) && next == old(next) + |e.insert|
        invariant tracking == old(tracking) && session == old(session) && group == old(group)
      {
        saved := saved + [Save(MapOpen(state[i], e), doc)];
      }
      records := saved;
      var shift := e.Growth();
      group := Some(Group(mode, e.from + shift - |e.insert|, e.from + shift));
    }
  }
}
