# LibrePaper verification model

This project models the parts of LibrePaper that have to be right for a reader
to trust what they see, and proves what those parts promise. The program itself
is JavaScript (`web/src`) and Rust (`crates/librepaper`); every module here
names the file it models. Code that changes things in place is modelled by
methods and classes and tied to functions, and the promises are proved about
those functions.

- **The display diff** (`EditDistance`, `EditGrid`, `FrontierWork`, `Patches`,
  `MyersDiff`, `DisplayDiff`). Token lists, a frontier table, saved traces, a walk back and
  hunks. Token equality is symmetric but not reflexive, and the frontier may
  leave the box, so the argument runs in an extended grid.
- **Edits over text** (`SourceEdits`, `EditSlices`) and what is built on them:
  authorship through a chain of steps (`Boundaries`, `Redlines`,
  `AttributeChain`, `Provenance`), what replaced a quotation and when it went
  (`Passages`), grouped hunks and folded checkpoints (`History`, `Timeline`),
  the runs of a suggestion (`Suggestions`).
- **Tracked changes** (`AnchoredText`, `TrackChanges`). Characters keep their
  identity, deleted ones stay behind as tombstones, and stored ranges are
  anchored to characters, as the shared text type of Yjs 13 has it. A capture
  anchors the records it changes anew and leaves the others to their anchors.
- **The compile queue** (`CompileQueue.dfy`: `QueueSteps`, `QueueSafety`,
  `CompileController`). One running job, one queued request, cancellation
  tokens, and callbacks that come late. A settlement and its `finally` are
  separate steps.
- **The highlight painter** (`TextTable`, `Highlight`). A sweep that carries the
  covering set, a binary-searched table of text nodes, right-to-left splitting.
- **Bounded reads** (`OffsetIndex`, `SearchPages`, `SourcePages`, `JsonText`,
  `Envelope`). Text is a sequence of code points, each one to four bytes wide as in section 3
  of RFC 3629; cursors are abstract values.
- **Moving files** (`Relocation.dfy`: `Namespace`, `Relocation`; `Destinations`
  and `SharedProject`). Paths are lists of segments with a folding that tells when
  two names collide.
- **Publishing** (`CssScanner`, `SourceSets`, `PublicationGraph`,
  `PublicationTerms`, `Publication`). A scanner, a remembering depth-first walk that refuses
  cycles, rewriting from the right.
- **Finding a quotation again** (`Whitespace`, `StableSort`, `TextSearch`,
  `Anchoring`). The selectors are those of sections 4.2.4 and 4.2.5 of the W3C
  Web Annotation Data Model.

Time, randomness, the network and the document tree are not modelled; what
they answer comes in as parameters (a resource fetched by its address, the
moment-by-moment reading of a passage, the verdict that an envelope fits).

## Where the code does less than it could be taken to promise

- A record's range is meant to stay on the author's own text. An insertion
  right behind a proposal, which becomes a record of its own, also widens the
  range in front of it, because the end of that range is anchored to the
  character behind it. `TrackChanges.PassedBySpellsExactly` says exactly which
  edits do that to a record they pass by, `TrackChanges.TypingAtTheEndIsSwallowed`
  gives an input.
- A record whose proposal becomes empty is dropped, replaced text included.
  `TrackChanges.DroppedRecordUndone` says that the text is then the undone one
  exactly when the record replaced nothing;
  `TrackChanges.DroppedReplacementIsLost` gives an input.
- Deletions one after the other are meant to become one record. After a deletion
  the controller remembers a place as far in front of it as it was long, so
  deleting on to the right always starts a record of its own, and deleting on to
  the left does unless it deletes as much as before
  (`TrackChanges.DeletionContinues`).
- `returned_bytes` is written before an envelope over budget is marked
  incomplete. `Envelope.StatesItsSize` says exactly when the number is right,
  `Envelope.OverBudgetUnderstates` gives an input where it is too small.
- A comment in `replacementAt` says that an insertion at the boundary belongs
  to the replacement when it is inside the selection. One exactly at the start
  makes the quotation count as changed but is not part of the answer
  (`Passages.StartInsertionIsLeftOut`).
- The generation comparison before a result is published never fails
  (`QueueSafety.ResultIsAlwaysNewest`): cancellation alone keeps old results
  out.

## Model

| member | source | states |
|---|---|---|
| EditDistance.DistanceIsMinimum | web/src/lib/diff-display.js:352-358 | The recurrence used as distance is the least cost over all edit scripts that turn one token list into the other under `equal`, and some script attains it; no reflexivity or transitivity of `equal` is used |
| EditDistance.CostAndKept | web/src/lib/diff-display.js:410-429 | A script pays for exactly the tokens it does not keep: cost is n + m minus twice the kept pairs |
| EditDistance.DistanceStripsEnds | web/src/lib/diff-display.js:363-368 | Stripping an equal prefix and then an equal suffix does not change the distance, though tokens that are not comparable equal nothing |
| EditGrid.FurthestIsReached | web/src/lib/diff-display.js:380-393 | Every frontier value is the end of a walk with exactly d insertions and deletions, in a grid that extends past both lists |
| EditGrid.FurthestIsMaximal | web/src/lib/diff-display.js:380-393 | No walk with d insertions and deletions gets further on its diagonal than the frontier |
| EditGrid.Clip | web/src/lib/diff-display.js:384-392 | A walk that leaves the n by m box can be clipped back into it with one step fewer for every step outside |
| EditGrid.FirstHitIsDistance | web/src/lib/diff-display.js:391-392 | The first layer whose frontier passes the far corner is the distance, its diagonal is n - m, and the point is exactly (n, m): points outside the box never cause an early or wrong hit |
| EditGrid.MissedIsBelowDistance | web/src/lib/diff-display.js:380-394 | While no layer has hit the corner, the distance is at least the next layer's number |
| EditGrid.FurthestBounds | web/src/lib/diff-display.js:374-376 | Frontier values lie between 0 and n + d, so they fit the signed 32-bit table |
| MyersDiff.ReadyGivesEntry | web/src/lib/diff-display.js:382-387 | Reading the two neighbours in the table gives the entry point of the layer, at both rims as well |
| FrontierWork.VisitedIsNeeded | web/src/lib/diff-display.js:381-394 | While the corner is not hit, the work counter has not passed its value at the corner, which is a function of the two lists |
| FrontierWork.NeededWorkBound | web/src/lib/diff-display.js:381-394 | The counter at the corner is at most 1 + 2 + ... + (D + 1) times the shorter length and one, with D the distance |
| MyersDiff.FollowEqual | web/src/lib/diff-display.js:388 | The run of equal tokens ends where the pure definition says, and the steps are counted |
| MyersDiff.FillLayer | web/src/lib/diff-display.js:381-393 | One layer in place on the table: either the corner is hit at the distance, or the work budget ends, or the table is ready for the next layer and no diagonal hit |
| MyersDiff.SearchFrontier | web/src/lib/diff-display.js:371-395 | The result is the distance or -1; every saved table holds the layer before it; it is -1 exactly when the trace budget is below the distance or the work budget is below the counter at the corner |
| MyersDiff.ParentPoint | web/src/lib/diff-display.js:401-408 | The saved table's parent cell of a frontier point is in range, is no sentinel, is a frontier point one layer down, and the run from there is equal |
| MyersDiff.WalkBack | web/src/lib/diff-display.js:407 | Walking back along equal tokens keeps the collected edits a script of the rest at the same cost |
| MyersDiff.StepBack | web/src/lib/diff-display.js:402-411 | One layer back arrives at a frontier point of the layer before with one edit more, and what is spelled so far completes the same traced script |
| MyersDiff.Traceback | web/src/lib/diff-display.js:399-416 | The reversed edits are a script from the one list to the other that costs exactly `found`; it is the one that the parent choices of the frontier trace |
| DisplayDiff.StripEnds | web/src/lib/diff-display.js:362-366 | The stripped ends agree, the middle is what the recursive definition leaves, and it cannot be stripped further |
| DisplayDiff.RebuildHunks | web/src/lib/diff-display.js:418-429 | Rebuilding from two counters gives ordered, non-empty hunks apart by a kept token that quote both lists, change as many tokens as the edits cost, and are as many as the script has runs of changes |
| Patches.PatchedMatches | web/src/lib/diff-display.js:418-429 | Replacing every hunk's range by its inserted tokens gives a list that is, token for token, the same as or equal to the other one |
| Patches.PatchAtLeastDistance | web/src/lib/diff-display.js:356-358 | No valid patch changes fewer tokens than the distance |
| DisplayDiff.DiffProjections | web/src/lib/diff-display.js:359-430 | For every pair of lists and all settings: a valid patch; optimal unless simplified; simplified exactly when the middle needs more than 20,000 tokens, 4,000 layers, 2,000,000 work or 1,000 hunks, or more than a finite setting for one of them; then one hunk over the whole middle; empty exactly when the lists agree |
| SourceEdits.OriginSpells | web/src/lib/history.js:166-175 | Every position of the edited text holds the old character or the inserted character that its origin names |
| SourceEdits.OldOrigin | web/src/lib/redlines.js:93-113 | A position of the new text comes from an old one exactly when that one survives and is moved there by the growth of the edits before it |
| SourceEdits.NewOrigin | web/src/lib/redlines.js:135-142 | A position of the new text comes from an insertion exactly when it lies at that insertion's new offset |
| SourceEdits.OffsetInNew | web/src/lib/redlines.js:135-142 | Adding up the edits before one gives its offset in the new text |
| SourceEdits.SurvivorImage | web/src/lib/redlines.js:93-113 | A surviving character stands at its image, inside the new text |
| EditSlices.GapMoves | web/src/lib/passages.js:438-440 | The text between two edits stands unchanged in the new text, moved by the growth of the edits before |
| EditSlices.InsertStands | web/src/lib/history.js:166-175 | Every insertion stands in the new text at its new offset |
| Redlines.MapSpanIsImage | web/src/lib/redlines.js:93-113 | The mapped pieces hold exactly the positions that come from surviving characters of the span |
| Redlines.MapSpanOrdered | web/src/lib/redlines.js:93-113 | The pieces are ordered, not empty and do not overlap |
| Redlines.MapSpanForward | web/src/lib/redlines.js:93-113 | The loop computes that map |
| Redlines.MapSourceSpan | web/src/lib/passages.js:254-279 | The independently written copy computes the same map |
| Redlines.MapPointForward | web/src/lib/redlines.js:119-130 | A point moves with the character behind it, and is gone exactly when that character is deleted |
| Redlines.StrictCoverage | web/src/lib/redlines.js:146-178 | Credit is given exactly when the range is not empty and every character of it lies in some span; the verdict is the one author, or "several people" |
| Redlines.StepRepresents | web/src/lib/redlines.js:202-217 | One step keeps the spans and the per-character record of authors in agreement |
| Redlines.StepDisjoint | web/src/lib/redlines.js:202-217 | One step keeps the spans disjoint |
| AttributeChain.MarksAreDeletions | web/src/lib/redlines.js:204-216 | The deletion marks are exactly the recorded deletions whose place survived every later step, at the place it has now |
| AttributeChain.ProvenanceIsSurvival | web/src/lib/redlines.js:192-218 | The recorded author of a character is the step that inserted it, for exactly the characters that survived all later steps |
| AttributeChain.CoverageIsProvenance | web/src/lib/redlines.js:146-178 | For spans that represent the record, coverage means that every character has a recorded inserter, and the authors are those inserters |
| AttributeChain.WalkSteps | web/src/lib/redlines.js:193-218 | After any list of steps the spans are disjoint and represent the record, and the marks are the deletions |
| AttributeChain.CreditHunk | web/src/lib/redlines.js:220-230 | One hunk: a deletion is credited to the first mark with its place and text, to the fallback exactly when none has them; an insertion to its writers when every character has one |
| AttributeChain.AttributeHunks | web/src/lib/redlines.js:192-231 | Every hunk of the whole range is credited so, in order |
| AttributeChain.DeletionCreditIsEarned | web/src/lib/redlines.js:220-226 | A deletion is credited to a step that removed that text at a place that survived all later steps, under the name its evidence stands for, or to the fallback when no step did |
| Provenance.AddTarget | web/src/lib/provenance.js:87-104 | One range is cut at every boundary; its authors are added unless a segment is nobody's |
| Provenance.Covers | web/src/lib/provenance.js:83-109 | Somebody is credited exactly when there are ranges and every character of all of them has an author |
| Passages.ReplacementAt | web/src/lib/passages.js:425-472 | There is no answer exactly when no edit overlaps the quotation or some edit also changed the context outside it; an answer is one slice of the new text |
| Passages.SliceHoldsSurvivors | web/src/lib/passages.js:421-472 | The slice holds exactly the surviving characters of the quotation and no other old character |
| Passages.SliceHoldsContributions | web/src/lib/passages.js:421-472 | Of what the edits insert, the slice holds exactly what the edits that reach into the quotation insert, less the kept context |
| Passages.StartInsertionIsLeftOut | web/src/lib/passages.js:428-434 | Text inserted exactly at the start counts as an overlap, but the answer is then the unchanged quotation |
| Passages.WentAt | web/src/lib/passages.js:375-412 | The bisection answers a moment that lacks the passage right after one that has it; with readable moments it answers exactly when the first has it and the newest lacks it |
| Passages.WentOnce | web/src/lib/passages.js:400-402 | If the passage never comes back there is only one such moment |
| Passages.OverlapsMeans | web/src/lib/passages.js:427-435 | An edit counts as changing the quotation exactly when it deletes one of its characters or inserts in front of one |
| Passages.ContributionMeans | web/src/lib/passages.js:446-465 | What an edit contributes is its insertion without the context around the quotation that the edit replaced; there is nothing exactly when that context is not there |
| History.Coalesce | web/src/lib/history.js:131-164 | The groups are the longest runs of hunks that begin in the trailing context of the one before, and their hunks concatenate to the input |
| History.CoalesceRoundTrips | web/src/lib/history.js:119-130 | In every group the kept and inserted parts spell the new text at its position and length, and the kept and old parts spell the old text over the same edits |
| History.GapIsKept | web/src/lib/history.js:139-142 | The start of the trailing context, up to the next hunk, is the text both versions share there |
| History.ContextFromMeans | web/src/lib/history.js:184-195 | The context in front begins a given number of words back, or with the first word |
| History.ContextToMeans | web/src/lib/history.js:184-195 | The context behind ends a given number of words on, or with the text when there is none to give |
| Suggestions.RunsFor | web/src/lib/suggestions.js:18-34 | The runs without insertions spell the old text, without deletions the new text; the deleted and inserted runs are exactly what the edits delete and insert, in order; none is empty |
| Timeline.Fold | web/src/lib/history.js:277-311 | Rows come from the longest quiet runs by one author in one session; unfolded they give back every checkpoint in order, and what is folded away is unlabelled and no milestone |
| Timeline.ContinuesMeans | web/src/lib/history.js:277-316 | A run goes on between unmarked points of one author unless a quarter of an hour or more lies between their dates |
| Timeline.RowsOfRunMeans | web/src/lib/history.js:277-311 | Three points or more become one row, fewer a row each |
| QueueSafety.StepKeeps | web/src/lib/latex.js:1026-1103 | Every call and every late callback keeps the queue invariant |
| QueueSafety.RunsAreSafe | web/src/lib/latex.js:1024-1103 | Every state of every interleaving of compile, cancel, configure, settings, success, failure and late `finally` satisfies it |
| QueueSafety.StepIs | web/src/lib/latex.js:1041-1100 | What every call and callback does, said of who waits and what runs: which promises it settles and how, which job it cancels or moves on, when the queue starts and as which job, what is published, and which project is named |
| QueueSafety.SettledBy | web/src/lib/latex.js:1051-1100 | Over a whole run a caller is resolved, failed, discarded or left without a project exactly when an event settled the call that way: the result or error of the own uncancelled job, a discarding call while waiting, or a call before a project was named |
| QueueSafety.AtMostOneLive | web/src/lib/latex.js:1026-1035 | At most one uncancelled job runs; `running` and the active token say which |
| QueueSafety.UnsettledWaitsOnce | web/src/lib/latex.js:1067-1081 | A caller is unsettled exactly while waiting in one place: the queue or one unsettled live job |
| QueueSafety.NobodyIsForgotten | web/src/lib/latex.js:1057-1064 | Once every started job has run its callbacks nobody waits and nothing is queued |
| QueueSafety.LateFinallyIsHarmless | web/src/lib/latex.js:1057-1064 | The `finally` of a job that is no longer active frees nothing and starts nothing |
| QueueSafety.ResultIsAlwaysNewest | web/src/lib/latex.js:1041-1042 | The generation comparison before publishing always holds for an uncancelled job |
| QueueSafety.SettledOnce | web/src/lib/latex.js:1083-1096 | A settled promise never changes afterwards |
| QueueSafety.CancelledNeverPublishes | web/src/lib/latex.js:1083-1103 | Once cancelled, a job is never published later in the run |
| QueueSafety.GenerationsIncrease | web/src/lib/latex.js:1041-1049 | Between two project changes the generations of the published results strictly increase over the run |
| QueueSafety.AnswersAreFresh | web/src/lib/latex.js:1073-1078 | An answered caller gets a tree that is not older than the one brought |
| CompileController.Controller.CompileTree | web/src/lib/latex.js:1070-1081 | The in-place queue does what the transition function says |
| CompileController.Controller.PumpQueue | web/src/lib/latex.js:1026-1037 | Starting the queued request does what the transition function says |
| CompileController.Controller.CancelAll | web/src/lib/latex.js:1087-1103 | Discarding does what the transition function says |
| CompileController.Controller.ConfigureProject | web/src/lib/latex.js:191-203 | Naming a project does what the transition function says |
| CompileController.Controller.Handle | web/src/lib/latex.js:1024-1103 | Each call and callback, in place, is the step of the run, and does to callers, jobs, queue, results and project exactly what `QueueSafety.StepIs` says |
| TextTable.Scan | web/src/agent/agent.js:266-291 | The table lists where every text node starts |
| TextTable.NodeAt | web/src/agent/agent.js:296-305 | The binary search finds the last node that does not start past the offset |
| TextTable.PiecesFor | web/src/agent/agent.js:310-322 | The loop from the found node gives the pieces of all nodes |
| TextTable.PartsAreExact | web/src/agent/agent.js:310-322 | The pieces are in order, inside their nodes and inside the stretch |
| TextTable.PartsReach | web/src/agent/agent.js:310-322 | Every character of the stretch lies in a piece |
| Highlight.Sweep | web/src/agent/agent.js:426-446 | The carried covering set plans pieces in text order whose lists name exactly the ranges that contain each of their characters, and every covered character is in one |
| Highlight.SegmentIsUniform | web/src/agent/agent.js:427-431 | Between two neighbouring edges the covering ranges do not change |
| Highlight.OnePieceEach | web/src/agent/agent.js:438-446 | No character lies in two planned pieces |
| Highlight.PaintableMeans | web/src/agent/agent.js:419 | Painted are exactly the ranges with characters in them that are no points, in order |
| Highlight.SurroundIsExact | web/src/agent/agent.js:450-481 | Surrounding one piece marks its characters, leaves the others alone and does not change the text |
| Highlight.PaintsNext | web/src/agent/agent.js:448-452 | Painted from the right, the next piece still addresses the same characters |
| Highlight.Frame.PaintPlan | web/src/agent/agent.js:448-496 | After the whole plan every node shows exactly the planned marks |
| Highlight.Frame.Paint | web/src/agent/agent.js:405-519 | A repaint leaves the text unchanged; every character ends in one mark naming exactly the ranges that contain it, or in none; the table describes the new nodes |
| OffsetIndex.BytesSeeLines | crates/librepaper/src/agent_query.rs:1123-1131 | Counting newline bytes of the encoding counts newline characters, and the last one ends the previous line |
| OffsetIndex.SourcePositionMeaning | crates/librepaper/src/agent_query.rs:1123-1131 | The direct count gives line and column in characters of the text before the offset |
| OffsetIndex.ScanOffsets | crates/librepaper/src/agent_query.rs:243-269 | Every checkpoint is right, checkpoint k stands 256 k characters into the text, and they reach to the end of the text unless the cap ends them |
| OffsetIndex.IndexedPosition | crates/librepaper/src/agent_query.rs:271-300 | For every text and every character offset the indexed position is the direct one, with the cap reached or not |
| OffsetIndex.Utf8Means | crates/librepaper/src/agent_query.rs:243-269 | Each character is encoded in the shortest form of the table in RFC 3629 |
| OffsetIndex.PositionMeans | crates/librepaper/src/agent_query.rs:1123-1131 | Line and column are one more than the newlines in front and the characters since the last of them |
| SearchPages.MatchesMissNothing | crates/librepaper/src/agent_query.rs:1039-1040 | Every occurrence of a term is listed or overlaps a listed one |
| SearchPages.ScanAll | crates/librepaper/src/agent_query.rs:1026-1056 | The capped scan is complete exactly when there are at most 8192 hits, and then holds all of them |
| SearchPages.ScanPage | crates/librepaper/src/agent_query.rs:1058-1096 | The page scan gives the matching slice of the uncapped list and an exact completeness flag |
| SearchPages.MatchIsAround | crates/librepaper/src/agent_query.rs:978-1003 | A match shows its own words, up to 33 characters before them and up to 32 behind them, cut at character boundaries |
| SearchPages.HitMeans | crates/librepaper/src/agent_query.rs:955-1018 | A hit spells its term in bytes and states the line and column of its start |
| SearchPages.SnapshotIndexes.Search | crates/librepaper/src/agent_query.rs:935-1024 | From the cache, a full scan or a page scan the answer is the same page of the same list of matches with their context, and a cursor is given exactly when matches are left |
| SearchPages.SnapshotIndexes.FollowCursor | crates/librepaper/src/agent_query.rs:1005-1018 | A caller who sends the cursor back gets every match once and in order, whatever limits the requests have, and is done after boundedly many |
| SearchPages.SnapshotIndexes.Evict | crates/librepaper/src/agent_query.rs:954-963 | The cache keeps only full answers; while it holds more than 16 some are dropped, the others stay as they are, and no more are dropped than needed |
| SourcePages.BoundaryMeaning | crates/librepaper/src/agent_query.rs:818-820 | A byte offset is a boundary of the encoding exactly when it is the offset of a character |
| SourcePages.SourcePage | crates/librepaper/src/agent_query.rs:673-704 | A page is the longest whole-character part of what is left that fits the room, with a cursor exactly when something is left; a bad range is the only error |
| SourcePages.PageProgresses | crates/librepaper/src/agent_query.rs:678-683 | With room for four bytes a page of an unfinished range is not empty |
| SourcePages.FollowCursor | crates/librepaper/src/agent_query.rs:673-704 | With enough budget the pages are a gapless run of whole characters, every request is answered until the range is finished, and it is finished after boundedly many requests |
| SourcePages.PagesSpellTheRange | crates/librepaper/src/agent_query.rs:673-704 | The delivered bytes are exactly the requested range |
| SourcePages.ReplyIsDetermined | crates/librepaper/src/agent_query.rs:427-468 | Range, budget and the verdict on the envelope leave one reply: the first of sixteen shrinking pages that is admitted, or none |
| SourcePages.OnlyTheEnvelopeTurnsDown | crates/librepaper/src/agent_query.rs:449-457 | A try with room for a character is turned down only because the envelope does not fit |
| SourcePages.ReplyContinues | crates/librepaper/src/agent_query.rs:449-468 | A page that is returned starts where it should and gives a cursor only behind text it delivers |
| SourcePages.ReadPage | crates/librepaper/src/agent_query.rs:427-468 | The retry loop gives exactly that reply; nothing is returned only when all sixteen tries were turned down; a bad range is the only error |
| SourcePages.Read | crates/librepaper/src/agent_query.rs:393-469 | Several queries in one read: each page is the reply to its query beside the pages before it, the first query that all sixteen tries could not answer is named and then no cursor is given, the read is complete exactly when nothing is missing and every page is finished, and it fails only at the first bad range it comes to |
| SourcePages.CursorRoundTrip | crates/librepaper/src/agent_query.rs:1606-1652 | A cursor is good for the same query with any other cursor and limit under the revision it was made for, and a mismatch under every other |
| SourcePages.OtherCursorIsRefused | crates/librepaper/src/agent_query.rs:1620-1652 | A cursor of another query, kind or revision is refused, whichever field but the cursor and the limit differs |
| SourcePages.FollowRead | crates/librepaper/src/agent_query.rs:393-469 | A caller who sends each cursor back while the project may change gets a gapless run over the text of one revision, each page the reply to its request; a request of another revision is refused, one without an answer was turned down in all sixteen tries, and more requests than the range has bytes finish it unless the run stops at such a one |
| Envelope.TokensAtMostBytes | crates/librepaper/src/agent_query.rs:1695-1705 | The token estimate never exceeds the encoded length, by induction over the value |
| Envelope.SizeFieldsCost | crates/librepaper/src/agent_query.rs:1668-1679 | The two size fields change the length by their digits and the estimate not at all |
| Envelope.ThirdRoundSettles | crates/librepaper/src/agent_query.rs:1675-1679 | The second round already has the digits of the fixed point |
| Envelope.ThreeRoundsAreEnough | crates/librepaper/src/agent_query.rs:1675-1679 | After three rounds both size fields say what the value costs that contains them |
| Envelope.WriteSizes | crates/librepaper/src/agent_query.rs:1675-1679 | The loop ends with size fields that state the length and the estimate of the value that holds them |
| Envelope.BuildEnvelope | crates/librepaper/src/agent_query.rs:1660-1688 | The envelope states a size that is a fixed point of stating it; exceeding a budget makes it incomplete, with a reason if it had none |
| Envelope.StatesItsSize | crates/librepaper/src/agent_query.rs:1680-1687 | The stated byte count is the envelope's own length exactly when both budgets hold, or it was incomplete with a reason before |
| Envelope.OverBudgetUnderstates | crates/librepaper/src/agent_query.rs:1680-1687 | An envelope over its budget that states fewer bytes than it has |
| JsonText.LengthIsOfText | crates/librepaper/src/agent_query.rs:1690-1693 | The length used for a value is that of its compact text, byte by byte |
| JsonText.ExceedsMeans | crates/librepaper/src/agent_query.rs:1680-1681 | An envelope is over its budget when that text is too long or the estimate too high |
| JsonText.PlainTokens | crates/librepaper/src/agent_query.rs:1695-1705 | The estimate counts a quarter of the characters of a string, rounded up and at least one, and one for other plain values |
| JsonText.ObjectTokens | crates/librepaper/src/agent_query.rs:1695-1705 | The estimate adds up over the fields of an object, and a key costs a quarter of its bytes, rounded up |
| Namespace.NoFileIsAParent | web/src/lib/file-manager.js:91-92 | In a namespace without collisions no file acts as a folder |
| Namespace.PlaceFile | web/src/lib/file-manager.js:80-97 | A file placed where the check lets it be placed keeps the whole namespace, implied folders included, free of collisions |
| Namespace.PlaceFolder | web/src/lib/file-manager.js:80-97 | The same for a folder |
| Relocation.FolderPaths | web/src/lib/file-manager.js:8-18 | All explicit and implied folders |
| Relocation.RootFineMeans | web/src/lib/file-manager.js:103-111 | A selected item is fine exactly when it is there with its kind and path, and a folder when it does not go below itself |
| Relocation.CheckPlacement | web/src/lib/file-manager.js:80-97 | Accepts exactly the legal paths that collide with nothing, lie under no file and spell their parents as they are |
| Relocation.TopEntriesMembers | web/src/lib/file-manager.js:39-42 | No root lies inside a selected folder |
| Relocation.TopEntriesCover | web/src/lib/file-manager.js:39-42 | Nothing selected is lost: every entry is a root or lies in a root folder |
| Relocation.PlaceFolders | web/src/lib/file-manager.js:122-126 | The moved folders are placed exactly when all of them are allowed and the outcome is free of collisions |
| Relocation.PlaceFiles | web/src/lib/file-manager.js:127-131 | The moved files are placed exactly when all of them are allowed and the outcome is free of collisions |
| Relocation.ParentsStay | web/src/lib/file-manager.js:132 | The folders that held the roots exist and are not themselves moved |
| Destinations.NewPathGoes | web/src/lib/file-manager.js:101-123 | What lies in a selected item goes where the item goes, keeping its place in it, and everything else stays; a moved item lands in the destination under its own name, a renamed one at the destination itself |
| Destinations.GoesToOnePlace | web/src/lib/file-manager.js:101-123 | That rule leaves every path one place only |
| Destinations.FoldersFollowPlan | web/src/lib/file-manager.js:108-123 | The folders after the plan are those that stay, the new places of those that go, and those the items were taken from |
| Destinations.PlanRelocation | web/src/lib/file-manager.js:100-133 | A plan is made exactly when the items are there, none goes into itself and everything fits; it lists exactly the carried files with the places that rule gives them, and the namespace after it is clean |
| SharedProject.AssetsFollowPlan | web/src/lib/collab.js:337-342 | Removing the old figure keys first, even a batch that permutes names overwrites nothing |
| SharedProject.TextsFollowPlan | web/src/lib/collab.js:339-342 | Every text keeps its id and gets its planned path |
| SharedProject.StaysGood | web/src/lib/collab.js:336-345 | The namespace after the plan has no collisions |
| SharedProject.Project.ApplyFiles | web/src/lib/collab.js:337-342 | The two loops over the shared maps |
| SharedProject.Project.Relocate | web/src/lib/collab.js:335-346 | On failure nothing changes; on success every text keeps its id and every figure its digest at the place the selection takes it to, the folders follow the same rule, nothing collides and no file acts as a folder |
| AnchoredText.LiveChanged | web/src/lib/track-changes.js:295-323 | The cells after a change spell the changed text |
| AnchoredText.AnchorResolves | web/src/lib/track-changes.js:29-49 | A position read back from the anchor made for it is the same position |
| AnchoredText.AnchorMoves | web/src/lib/track-changes.js:29-49 | An anchor on a character moves with it, one at the end moves with the end, and one whose character was deleted stays in front of what is typed there |
| TrackChanges.SavedReopens | web/src/lib/track-changes.js:326-337 | A record that a capture changed is found again at the range it was stored with |
| TrackChanges.NewRecordUndoes | web/src/lib/track-changes.js:278-292 | A new record spells its insertion and undoes exactly its own edit |
| TrackChanges.JoinProposalUndoes | web/src/lib/track-changes.js:265-277 | Taking an edit into proposed text keeps what undoing gives, and the range spells the new proposal |
| TrackChanges.JoinDeletionUndoes | web/src/lib/track-changes.js:257-263 | Taking a deletion into a deletion keeps what undoing gives |
| TrackChanges.DroppedRecordUndone | web/src/lib/track-changes.js:274 | A record dropped because its proposal became empty leaves the undone text exactly when it replaced nothing |
| TrackChanges.DroppedReplacementIsLost | web/src/lib/track-changes.js:274 | An input where a replacement is dropped with its proposal, and what it replaced does not come back |
| TrackChanges.MergingCapture | web/src/lib/track-changes.js:233-337 | One capture into a record, whatever other records there are: stored and read back, it still undoes to the same text and spells its proposal |
| TrackChanges.RunUndoes | web/src/lib/track-changes.js:142-343 | While the captures of a run merge into the record that the first of them started, with any other records beside it and tracking switched and the caret moved in between, splicing its `before` over its range restores the text from before the run, and an insertion's or replacement's range spells its `after` |
| TrackChanges.OnlyRecordUndoes | web/src/lib/track-changes.js:168-343 | The same for a run that never has another record, without asking where its captures go |
| TrackChanges.RangeKeptExactly | web/src/lib/track-changes.js:71-88 | Of the edits that do not reach into the range of an unchanged record, exactly those that stretch it change its length: typing behind an end that stands on a character, or in front of a start whose character is gone |
| TrackChanges.LiveRangeKeptExactly | web/src/lib/track-changes.js:71-88 | While both anchors stand on characters, exactly an insertion right behind a range that is not empty changes its length |
| TrackChanges.PassedBySpellsExactly | web/src/lib/track-changes.js:326-337 | A capture that passes a record by leaves it spelling its proposal exactly when the edit does not stretch its range |
| TrackChanges.TypingAtTheEndIsSwallowed | web/src/lib/track-changes.js:326-337 | An insertion right behind a proposal that starts a record of its own still widens the proposal's range |
| TrackChanges.UndoCommutes | web/src/lib/track-changes.js:71-88 | Undoing a record that a capture leaves alone commutes with every edit that neither reaches into its range nor stretches it, a replacement in front of a lost anchor excepted |
| TrackChanges.Controller.SetTracking | web/src/lib/track-changes.js:142-151 | Switching does what the transition function says: a new session when tracking is turned on, nothing to continue after a change |
| TrackChanges.Controller.BreakGroup | web/src/lib/track-changes.js:140 | After the caret has moved nothing is left for the next capture to continue |
| TrackChanges.Controller.ReviseRecords | web/src/lib/track-changes.js:233-293 | Finding the record an edit goes into, or adding one, does what the transition function says |
| TrackChanges.Controller.CaptureEdit | web/src/lib/track-changes.js:295-344 | One capture in place, with new anchors for exactly the changed records, does what the transition function says |
| TrackChanges.ContiguousMeans | web/src/lib/track-changes.js:177-180 | Only typing right behind typing, and deleting right beside a deletion, continue the group |
| TrackChanges.FreshCapture | web/src/lib/track-changes.js:233-292 | An edit that no record takes leaves all of them; tracked, it gets a record of its own if it changes anything |
| TrackChanges.DeletionGrows | web/src/lib/track-changes.js:257-263 | A deletion of the same go takes the deleted text in, in front or behind |
| TrackChanges.ProposalGrows | web/src/lib/track-changes.js:265-277 | A proposal takes an edit of its own text in and spells the result; it goes when nothing of it is left |
| TrackChanges.TypingContinues | web/src/lib/track-changes.js:338-342 | Typing goes on exactly right behind what was just typed |
| TrackChanges.DeletionContinues | web/src/lib/track-changes.js:338-342 | Deleting on to the left goes on exactly when it deletes as much as the last deletion, and deleting on to the right never does |
| TrackChanges.RangeFromMeans | web/src/lib/track-changes.js:71-88 | The anchors give the range of a record, unless they leave its proposal too little room and the stored offsets do not |
| CssScanner.CommentEndMeaning | web/src/lib/publication-builder.js:28-33 | A comment ends with the first closing sign, or with the text |
| CssScanner.QuoteEndMeaning | web/src/lib/publication-builder.js:38-47 | A string ends with the first quote that an even number of backslashes precedes |
| CssScanner.TokenReads | web/src/lib/publication-builder.js:48-97 | The token found at a place is what a reader finds there: url as a word of its own in any case, a gap of white space and comments, a parenthesis and a string or bare text in it; or @import, a gap and a string |
| CssScanner.CssReferences | web/src/lib/publication-builder.js:21-98 | The scanning loop finds the references of the recursive definition, which are the references among the pieces of the only tiling |
| CssScanner.ReferencesAreThePieces | web/src/lib/publication-builder.js:65-97 | Every style sheet falls in one way only into comments, strings, references and single other characters, and the references found are exactly those among these pieces: none in a comment or a string, none outside them missed |
| CssScanner.ScanInOrder | web/src/lib/publication-builder.js:65-97 | The references are ordered, disjoint and inside the text |
| CssScanner.ScanIsDelimited | web/src/lib/publication-builder.js:48-63 | Every reference stands between two quotes with no unescaped one inside, or holds no closing parenthesis and no white space at its end |
| Publication.SpliceFront | web/src/lib/publication-builder.js:122-125 | Splicing one more replacement from the right is making all of them at once |
| Publication.Builder.RewriteCss | web/src/lib/publication-builder.js:121-128 | The right-to-left loop gives the simultaneous replacement of all references; it fails exactly for a faulty reference or a source map |
| Publication.Builder.Build | web/src/lib/publication-builder.js:138-163 | Building one resource terminates, adds only what it reaches, and fails only with a fault behind it |
| Publication.Builder.Dependency | web/src/lib/publication-builder.js:130-166 | A reference becomes the public name of its finished resource; an error names a fault somewhere behind it |
| Publication.BackReferenceIsCycle | web/src/lib/publication-builder.js:136 | A reference to something being resolved closes a cycle |
| PublicationGraph.CertificatesAgree | web/src/lib/publication-builder.js:137-165 | Two builds never give one resource two names |
| PublicationGraph.CertifiedIsFaultless | web/src/lib/publication-builder.js:130-166 | Nothing a finished resource reaches is missing, rejected or on a cycle, and all of it is finished |
| SourceSets.SplitJoins | web/src/lib/publication-builder.js:179-184 | Splitting a set of references at its commas loses nothing |
| SourceSets.CandidatesMean | web/src/lib/publication-builder.js:180-183 | Without inline data there is one candidate for each stretch between commas: white space aside it reads as the reference, then the descriptors, with white space between; with inline data there is none |
| SourceSets.RelinkedMeans | web/src/lib/publication-builder.js:180-186 | In the new value every reference gives way to its link and its descriptors follow, one space apart; a comma and a space stand between two entries; a set with inline data stays as it is |
| Publication.Builder.RewriteSet | web/src/lib/publication-builder.js:178-187 | Every reference of a `srcset` becomes a public name and its descriptors stay; it fails only with a fault behind one of them |
| Publication.BuildDisplayBundle | web/src/lib/publication-builder.js:100-197 | Publishing succeeds exactly when there is no base element and no refused script, no reference is lost, and no reachable resource is missing, rejected or on a cycle; then exactly the reachable resources are bundled and every reference carries its public name |
| Publication.EachHasItsText | web/src/lib/publication-builder.js:160-163 | Unless digests collide, every bundled resource finds its own final text under its name |
| PublicationTerms.ExternalMeans | web/src/lib/publication-builder.js:15 | A reference leads out of the page, or stays in it, exactly when it starts with one of seven words, five of them in either case |
| PublicationTerms.GeneratedMeans | web/src/lib/publication-builder.js:143-154 | A generated resource is what its address answers, with a type that may be published |
| PublicationTerms.CapturedMeans | web/src/lib/publication-builder.js:139-154 | A captured resource is the figure of its path, or else the text, when its extension may be published |
| PublicationTerms.StylesAndScripts | web/src/lib/publication-builder.js:6-12 | What makes a resource a style sheet or a script |
| PublicationTerms.TailMeans | web/src/lib/publication-builder.js:132 | The tail of a reference is its longest query or fragment that runs to the end in one line |
| PublicationTerms.LinkMeans | web/src/lib/publication-builder.js:131-170 | A link is the public name with the tail of the reference; a page names the folder in front, a style sheet in it does not |
| PublicationTerms.SourceMapMeans | web/src/lib/publication-builder.js:126-157 | A text has a source map exactly when the word stands in it with an equals sign behind white space |
| PublicationTerms.RejectedMeans | web/src/lib/publication-builder.js:126-162 | A style sheet or script with a source map is rejected, and a script with relative imports |
| TextSearch.CommonPrefixIsLongest | web/src/lib/anchor.js:7-11 | The counted prefix is the longest common one |
| TextSearch.FindPositions | web/src/lib/anchor.js:110-116 | The positions are the occurrences in order, cut off after 5001 |
| TextSearch.OccurrencesAreAll | web/src/lib/anchor.js:112-116 | That list holds every occurrence once |
| TextSearch.NearScore | web/src/lib/anchor.js:124-131 | Scoring reversed neighbouring slices counts the common suffix and prefix of the whole text |
| TextSearch.FullScore | web/src/lib/suggestions.js:39-48 | The other locator's counting gives the same score |
| TextSearch.Search | web/src/lib/anchor.js:110-157 | Among the first 5001 occurrences the best context wins, then the nearest, then the earliest; with a unique one required there is an answer exactly when one occurrence beats all others by context |
| TextSearch.LocateInText | web/src/lib/suggestions.js:55-78 | The occurrence with the best context, then the nearest, then the earliest, or nothing exactly when there is none |
| TextSearch.BestIsUnique | web/src/lib/suggestions.js:55-78 | Only one occurrence can be the best |
| TextSearch.DistanceMeans | web/src/lib/anchor.js:148-152 | Nearness is the distance to the recorded position on either side |
| TextSearch.LocateBothWays | web/src/lib/suggestions.js:36-78 | The two locators find the same place whenever there are at most 5001 occurrences |
| Anchoring.Flatten | web/src/lib/anchor.js:47-69 | The loop gives the flattened view and its map |
| Anchoring.MapIsExact | web/src/lib/anchor.js:47-69 | The map is strictly increasing, in range, and lists exactly the kept offsets |
| Anchoring.CollapseIsView | web/src/lib/anchor.js:71 | The two ways of flattening differ only in white space at the ends |
| Anchoring.ViewOfSlice | web/src/lib/anchor.js:99-107 | A part of the view with ink at both ends is the flattening of the slice its ends map back to |
| Anchoring.AnchorOne | web/src/lib/anchor.js:78-108 | An exact anchor is the best occurrence; a loose one is the best hit of the flattened view, mapped back to a slice that flattens to exactly the flattened quotation; nothing is found exactly when neither singles out an occurrence; a point lies between its prefix and suffix and is lost exactly without them or its position |

## Left out

- MyersDiff.SearchFrontier: table cells are integers; `EditGrid.FurthestBounds` and its own clause bound them, so 32-bit storage loses nothing.
- DisplayDiff.DiffProjections: whether two returned hunks are one object is not modelled; token lists are given, so segmentation, walking the document and figure evidence are not part of it.
- AttributeChain.AttributeHunks: authorship evidence comes as one name per step; trimming of names is left out.
- Provenance.Covers: ranges are validated and candidates carry their contributor already; the interval chain and its limits are left out.
- Passages.ReplacementAt: the quotation's place and the edits are given; how the comparison finds the edits is left out.
- Passages.WentAt: a moment is a reading (holds, lacks, unreadable); rendering and caching are left out, and an own revision that is not listed reads as the oldest moment.
- History.Coalesce: the path of a hunk, and the older names of its context fields, are left out.
- Timeline.Fold: grouping by day is left out.
- QueueSafety.RunsAreSafe: status listeners that call back into the queue in the middle of a step are left out; so are the route, the caches and what a compile does.
- CompileController.Controller.ConfigureProject: only its effect on the queue; settings, route and bibliography cache are left out.
- Highlight.Frame.Paint: colours, the struck-through suggestion and its proposed text, bubbles for points, click handlers and empty text nodes are left out; a node of the document is its text.
- TextTable.Scan: image offsets and the skipping of script and generated nodes are left out.
- SearchPages.SnapshotIndexes.Search: file identities and revisions in a match are left out, as is the cache of indexes across snapshots.
- SearchPages.SnapshotIndexes.Evict: which search is dropped first is not modelled.
- SourcePages.FollowCursor: promises progress for budgets of at least 1028 bytes, the reserve and one character of any width; below that a page may be empty.
- SourcePages.ReadPage: the envelope's verdict is a parameter.
- SourcePages.FollowRead: one query per request; the text under a revision and the range of the query are parameters.
- SourcePages.Read: source queries over one text, with the envelope's cost and verdict as parameters; the last check that the envelope itself fits, and the other kinds of query, are left out.
- The base64url form of cursors (section 5 of RFC 4648) and the hash of the query in them are left out; so is the `files` alias, whose cursors carry another kind.
- Envelope.BuildEnvelope: numbers are natural and unbounded; negative and fractional ones do not occur in it.
- Relocation.CheckPlacement: the naming rules and path normalisation are parameters; the order in which folders are listed is left out.
- Relocation.PlanRelocation: which of several errors is reported is left out.
- SharedProject.Project.Relocate: the three shared maps are maps; transactions, ids of operations and merging with other writers are left out.
- TrackChanges.Controller.CaptureEdit: one edit per capture, one file and author; other authors' proposals and dependencies, captures of several edits, merging with other writers and characters brought back by an undo are left out. Where an insertion stands among tombstones is taken from Yjs 13, which is not part of this repository.
- TrackChanges.UndoCommutes: leaves out a replacement right in front of a record whose anchored character is gone; its insertion then stands behind the range and what it deletes in front, which is no single edit of the undone text.
- CssScanner.CssReferences: characters are code points, and letters fold as in ASCII.
- Publication.BuildDisplayBundle: a page is the list of its attributes, sets of references, style sheets, scripts and base elements, so finding them in the document and writing the document back are left out; resolving addresses, digests and the test for relative imports are parameters.
- Publication.Builder.Build: a fetched resource is what its address answers throughout; decoding of bytes is left out.
- TextSearch.Search: text without surrogate pairs, and a recorded position that is an integer or missing.
- Anchoring.AnchorOne: one text; the search through other files is left out.
- Edits read from editor deltas and provenance read through positions that hunks do not carry are left out.
- Headings, sections, bibliographies, manifests and threads as query results are left out: they are lists read off one scan each.
