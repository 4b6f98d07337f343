/**
 Source, section and context reads in pages
 (crates/librepaper/src/agent_query.rs): byte-budgeted pages cut on UTF-8
 boundaries, the cursors that join them, and the retry loop of `read`.
 */
module SourcePages {
  import opened Basics
  import opened OffsetIndex

  datatype Result<T> = Ok(value: T) | Err(error: Error)

  datatype Error = OutsideFile | NotABoundary | CursorMismatch | TooManyQueries

  // ----- Character boundaries -----

  /** `is_char_boundary`: an end of the text, or a byte that continues no character. */
  predicate IsBoundary(bytes: seq<int>, b: int) {
    b == 0 || b == |bytes| || (0 < b < |bytes| && !(0x80 <= bytes[b] < 0xC0))
  }

  lemma ContinuationBytes(c: CodePoint, k: nat)
    requires k < |Utf8(c)|
    ensures 0x80 <= Utf8(c)[k] < 0xC0 <==> k > 0
  {
  }

  /** The offset of every character is a boundary. */
  lemma {:induction false} CharacterIsBoundary(t: Text, i: nat)
    requires i <= |t|
    ensures ByteAt(t, i) <= |Encode(t)| && IsBoundary(Encode(t), ByteAt(t, i))
  {
    assert t[..|t|] == t;
    if i < |t| {
      var n := |t| - 1;
      assert t[..n][..i] == t[..i];
      CharacterIsBoundary(t[..n], i);
      if i == n { ContinuationBytes(t[n], 0); } else { ByteAtMonotone(t, i, n); }
      assert ByteAt(t, n) == |Encode(t[..n])|;
    }
  }

  /** Every boundary is the offset of a character, or of the end. */
  lemma {:induction false} BoundaryIsCharacter(t: Text, b: nat) returns (i: nat)
    requires b <= |Encode(t)| && IsBoundary(Encode(t), b)
    ensures i <= |t| && ByteAt(t, i) == b
  {
    assert t[..|t|] == t && t[..0] == [];
    if b == |Encode(t)| {
      i := |t|;
    } else if b == 0 {
      i := 0;
    } else {
      var n := |t| - 1;
      if b < |Encode(t[..n])| {
        i := BoundaryIsCharacter(t[..n], b);
        assert t[..n][..i] == t[..i];
      } else {
        ContinuationBytes(t[n], b - |Encode(t[..n])|);
        i := n;
      }
    }
  }

  lemma BoundaryMeaning(t: Text, b: nat)
    requires b <= |Encode(t)|
    ensures IsBoundary(Encode(t), b) <==> exists i: nat :: i <= |t| && ByteAt(t, i) == b
  {
    if IsBoundary(Encode(t), b) { var i := BoundaryIsCharacter(t, b); }
    if i: nat :| i <= |t| && ByteAt(t, i) == b { CharacterIsBoundary(t, i); }
  }

  // ----- One page -----

  /** One block of source, in byte offsets, and the cursor to what is left. */
  datatype Page = Page(start: nat, end: nat, next: Option<nat>)

  predicate InFile(bytes: seq<int>, start: nat, end: nat) { start <= end <= |bytes| }

  /** `validate_range`. */
  function ValidateRange(bytes: seq<int>, start: nat, end: nat): Result<()> {
    if !InFile(bytes, start, end) then Err(OutsideFile)
    else if !IsBoundary(bytes, start) || !IsBoundary(bytes, end) then Err(NotABoundary)
    else Ok(())
  }

  function Less(x: nat, y: nat): nat { if x >= y then x - y else 0 }

  /** A range is good when it lies in the file and cuts no character at either end. */
  lemma ValidMeans(bytes: seq<int>, start: nat, end: nat)
    ensures ValidateRange(bytes, start, end) == Ok(())
       <==> start <= end && end <= |bytes| && IsBoundary(bytes, start) && IsBoundary(bytes, end)
    ensures ValidateRange(bytes, start, end) == Err(OutsideFile) <==> end < start || |bytes| < end
  {
  }

  /** What is left of x, or nothing. */
  lemma LessMeans(x: nat, y: nat)
    ensures x == y + Less(x, y) || (x < y && Less(x, y) == 0)
  {
  }

  const ENVELOPE_RESERVE := 1024

  /** Where a page starts: at the requested start, or at the cursor once that is past it. */
  function PageStart(start: nat, end: nat, cursor: nat): nat { if cursor > start then Min(cursor, end) else start }

  /** A cursor past the start is where the page starts, unless it is past the end; any other is ignored. */
  lemma PageStartMeans(start: nat, end: nat, cursor: nat)
    ensures cursor <= start ==> PageStart(start, end, cursor) == start
    ensures start < cursor <= end ==> PageStart(start, end, cursor) == cursor
    ensures start < cursor && end < cursor ==> PageStart(start, end, cursor) == end
  {
  }

  /** The page is the longest whole-character run that fits the room. */
  ghost predicate IsPage(bytes: seq<int>, start: nat, end: nat, room: nat, page: Page) {
    && page.start == start <= page.end <= Min(start + room, end) && end <= |bytes|
    && IsBoundary(bytes, page.end)
    && (forall b :: page.end < b <= Min(start + room, end) ==> !IsBoundary(bytes, b))
    && page.next == if page.end < end then Some(page.end) else None
  }

  /** The page of a validated request: a whole-character prefix of what is left, as long as the budget allows. */
  method SourcePage(bytes: seq<int>, start: nat, end: nat, cursor: nat, maxBytes: nat) returns (r: Result<Page>)
    ensures var from := PageStart(start, end, cursor);
            match r
            case Err(e) => ValidateRange(bytes, from, end) == Err(e)
            case Ok(page) =>
              && ValidateRange(bytes, from, end) == Ok(())
              && IsPage(bytes, from, end, Less(maxBytes, ENVELOPE_RESERVE), page)
  {
    var from := PageStart(start, end, cursor);
    var valid := ValidateRange(bytes, from, end);
    if valid.Err? { return Err(valid.error); }
    var room := Min(Less(maxBytes, ENVELOPE_RESERVE), end - from);
    var emittedEnd := from + room;
    while emittedEnd > from && !IsBoundary(bytes, emittedEnd)
      invariant from <= emittedEnd <= from + room
      invariant forall b :: emittedEnd < b <= from + room ==> !IsBoundary(bytes, b)
    {
      emittedEnd := emittedEnd - 1;
    }
    r := Ok(Page(from, emittedEnd, if emittedEnd < end then Some(emittedEnd) else None));
  }

  /** From any boundary, the next one is at most four bytes on. */
  lemma NextBoundary(t: Text, b: nat) returns (c: nat)
    requires b < |Encode(t)| && IsBoundary(Encode(t), b)
    ensures b < c <= b + 4 && c <= |Encode(t)| && IsBoundary(Encode(t), c)
  {
    var i := BoundaryIsCharacter(t, b);
    assert t[..|t|] == t;
    CharacterIsBoundary(t, i + 1);
    ByteAtStep(t, i);
    c := ByteAt(t, i + 1);
  }

  /** With room for one character, a page of an unfinished range is never empty. */
  lemma PageProgresses(t: Text, start: nat, end: nat, room: nat, page: Page)
    requires IsPage(Encode(t), start, end, room, page) && IsBoundary(Encode(t), start) && start < end
    requires IsBoundary(Encode(t), end) && room >= 4
    ensures page.end > start
  {
    var c := NextBoundary(t, start);
    if c > end {
      assert IsBoundary(Encode(t), end) && start < end <= start + room;
    }
  }

  // ----- Following the cursor -----

  /** A page that starts where it should: whole characters, not empty unless the range is, and a cursor to the rest. */
  ghost predicate Continues(bytes: seq<int>, from: nat, end: nat, page: Page) {
    && page.start == from <= page.end <= end <= |bytes|
    && (from < end ==> from < page.end)
    && IsBoundary(bytes, page.start) && IsBoundary(bytes, page.end)
    && page.next == if page.end < end then Some(page.end) else None
  }

  ghost function EndOf(pages: seq<Page>, start: nat): nat { if pages == [] then start else pages[|pages| - 1].end }

  /** The pages are a gapless run from the start of the range, and only the last may be without a cursor. */
  ghost predicate Delivers(bytes: seq<int>, start: nat, end: nat, pages: seq<Page>)
    decreases |pages|
  {
    pages == [] ||
    (var front := pages[..|pages| - 1];
     && Delivers(bytes, start, end, front)
     && Continues(bytes, EndOf(front, start), end, pages[|pages| - 1])
     && (front != [] ==> front[|front| - 1].next.Some?))
  }

  /** The run has not come to the end of the range. */
  ghost predicate Unfinished(pages: seq<Page>) { pages == [] || pages[|pages| - 1].next.Some? }

  /** A page with room for a character goes on from where it starts. */
  lemma RoomyPageContinues(t: Text, from: nat, end: nat, room: nat, page: Page)
    requires ValidateRange(Encode(t), from, end).Ok? && IsPage(Encode(t), from, end, room, page) && room >= 4
    ensures Continues(Encode(t), from, end, page)
  {
    hide Encode;
    if from < end { PageProgresses(t, from, end, room, page); }
  }

  lemma NothingDelivered(bytes: seq<int>, start: nat, end: nat)
    ensures Delivers(bytes, start, end, [])
  {
  }

  /** One more page that goes on from the last one continues the run. */
  lemma NextPage(bytes: seq<int>, start: nat, end: nat, pages: seq<Page>, page: Page)
    requires Delivers(bytes, start, end, pages) && Unfinished(pages)
    requires Continues(bytes, EndOf(pages, start), end, page)
    ensures Delivers(bytes, start, end, pages + [page])
  {
    hide Continues;
    assert (pages + [page])[..|pages|] == pages;
  }

  /** Where the next request starts: at the cursor of the last page. */
  lemma CursorIsEnd(bytes: seq<int>, start: nat, end: nat, pages: seq<Page>)
    requires Delivers(bytes, start, end, pages) && pages != [] && pages[|pages| - 1].next.Some?
    ensures pages[|pages| - 1].next == Some(EndOf(pages, start)) && start + |pages| <= EndOf(pages, start) < end
    decreases |pages|
  {
    if |pages| > 1 { CursorIsEnd(bytes, start, end, pages[..|pages| - 1]); }
  }

  /**
   A caller sends the cursor back until there is none, with whatever budget
   each request has.  A request fails only when the range itself is bad, every
   request is answered until the range is finished, and enough requests always
   finish it.
   */
  method FollowCursor(t: Text, start: nat, end: nat, budgets: seq<nat>) returns (r: Result<seq<Page>>)
    requires forall k :: 0 <= k < |budgets| ==> budgets[k] >= ENVELOPE_RESERVE + 4
    ensures r.Err? <==> budgets != [] && ValidateRange(Encode(t), start, end).Err?
    ensures r.Ok? ==> Delivers(Encode(t), start, end, r.value)
    ensures r.Ok? && Unfinished(r.value) ==> |r.value| == |budgets|
    ensures r.Ok? && start <= end && |budgets| > end - start ==> r.value != [] && r.value[|r.value| - 1].next == None
  {
    hide Encode, IsPage, Continues, IsBoundary;
    var pages: seq<Page> := [];
    var cursor := 0;
    while |pages| < |budgets|
      invariant |pages| <= |budgets|
      invariant Delivers(Encode(t), start, end, pages)
      invariant pages != [] ==> ValidateRange(Encode(t), start, end).Ok? && pages[|pages| - 1].next == Some(cursor)
      invariant pages == [] ==> cursor == 0
      decreases |budgets| - |pages|
    {
      if pages != [] { CursorIsEnd(Encode(t), start, end, pages); }
      var page := SourcePage(Encode(t), start, end, cursor, budgets[|pages|]);
      if pages != [] { LaterStartsValid(Encode(t), start, end, pages); }
      if page.Err? { return Err(page.error); }
      RoomyPageContinues(t, EndOf(pages, start), end, budgets[|pages|] - ENVELOPE_RESERVE, page.value);
      NextPage(Encode(t), start, end, pages, page.value);
      pages := pages + [page.value];
      match page.value.next
      case None => return Ok(pages);
      case Some(at) => cursor := at;
    }
    if pages != [] { CursorIsEnd(Encode(t), start, end, pages); }
    r := Ok(pages);
  }

  lemma LaterStartsValid(bytes: seq<int>, start: nat, end: nat, pages: seq<Page>)
    requires Delivers(bytes, start, end, pages) && pages != [] && ValidateRange(bytes, start, end).Ok?
    ensures ValidateRange(bytes, EndOf(pages, start), end).Ok?
  {
  }

  /** The bytes of all pages, one after the other. */
  function Collected(bytes: seq<int>, pages: seq<Page>): seq<int> {
    if pages == [] then []
    else
      var last := pages[|pages| - 1];
      Collected(bytes, pages[..|pages| - 1])
      + if last.start <= last.end <= |bytes| then bytes[last.start..last.end] else []
  }

  /** The step of `PagesSpellTheRange`: one more page spells the bytes behind the earlier ones. */
  lemma {:induction false} OnePageMore(bytes: seq<int>, start: nat, end: nat, pages: seq<Page>)
    requires pages != [] && Delivers(bytes, start, end, pages)
    requires var front := pages[..|pages| - 1];
      start <= EndOf(front, start) <= end <= |bytes| && Collected(bytes, front) == bytes[start..EndOf(front, start)]
    ensures start <= EndOf(pages, start) <= end && Collected(bytes, pages) == bytes[start..EndOf(pages, start)]
    ensures pages[|pages| - 1].next == None ==> EndOf(pages, start) == end
  {
    var front, last := pages[..|pages| - 1], pages[|pages| - 1];
    assert Continues(bytes, EndOf(front, start), end, last);
    assert Collected(bytes, pages) == Collected(bytes, front) + bytes[last.start..last.end] by { hide Delivers; }
    hide Delivers, Collected, IsBoundary;
    SliceGrows(bytes, start, last.start, last.end);
  }

  lemma SliceGrows<T>(s: seq<T>, a: nat, b: nat, c: nat)
    requires a <= b <= c <= |s|
    ensures s[a..b] + s[b..c] == s[a..c]
  {
  }

  /** What the pages deliver is exactly the requested range, up to where they have come; all of it once they end. */
  lemma {:induction false} PagesSpellTheRange(bytes: seq<int>, start: nat, end: nat, pages: seq<Page>)
    requires Delivers(bytes, start, end, pages) && start <= end <= |bytes|
    ensures start <= EndOf(pages, start) <= end && Collected(bytes, pages) == bytes[start..EndOf(pages, start)]
    ensures pages != [] && pages[|pages| - 1].next == None ==> Collected(bytes, pages) == bytes[start..end]
    decreases |pages|
  {
    if pages != [] {
      PagesSpellTheRange(bytes, start, end, pages[..|pages| - 1]);
      OnePageMore(bytes, start, end, pages);
    } else {
      assert Collected(bytes, pages) == bytes[start..start];
    }
  }

  // ----- The retry loop of `read` -----

  const TRIES := 16

  /** The budget of the n-th try: what is left, cut to three quarters after each try that failed. */
  function Shrunk(available: nat, n: nat): nat { if n == 0 then available else Shrunk(available, n - 1) * 3 / 4 }

  /** The page that the n-th try proposes. */
  ghost predicate IsTried(bytes: seq<int>, from: nat, end: nat, available: nat, n: nat, page: Page) {
    IsPage(bytes, from, end, Less(Shrunk(available, n), ENVELOPE_RESERVE), page)
  }

  /** The envelope has room for the page beside the earlier ones, and the page is no empty promise. */
  predicate Admits(pages: seq<Page>, fits: (seq<Page>, Page) -> bool, page: Page) {
    fits(pages, page) && !(page.start == page.end && page.next.Some?)
  }

  ghost predicate TurnedDown(
    bytes: seq<int>, from: nat, end: nat, available: nat,
    pages: seq<Page>, fits: (seq<Page>, Page) -> bool, n: nat)
  {
    exists page :: IsTried(bytes, from, end, available, n, page) && !Admits(pages, fits, page)
  }

  /** The first page that is admitted among sixteen tries, or none when all sixteen were turned down. */
  ghost predicate IsReply(
    bytes: seq<int>, from: nat, end: nat, available: nat,
    pages: seq<Page>, fits: (seq<Page>, Page) -> bool, reply: Option<Page>)
  {
    exists n: nat :: n <= TRIES && RepliesAt(bytes, from, end, available, pages, fits, n, reply)
  }

  ghost predicate RepliesAt(
    bytes: seq<int>, from: nat, end: nat, available: nat,
    pages: seq<Page>, fits: (seq<Page>, Page) -> bool, n: nat, reply: Option<Page>)
  {
    && (forall m: nat :: m < n ==> TurnedDown(bytes, from, end, available, pages, fits, m))
    && match reply
       case None => n == TRIES
       case Some(page) =>
         n < TRIES && IsTried(bytes, from, end, available, n, page) && Admits(pages, fits, page)
  }

  /** A try proposes one page only. */
  lemma PageIsDetermined(bytes: seq<int>, start: nat, end: nat, room: nat, page: Page, other: Page)
    requires IsPage(bytes, start, end, room, page) && IsPage(bytes, start, end, room, other)
    ensures page == other
  {
  }

  /** The range, the budget and the envelope leave one reply only. */
  lemma ReplyIsDetermined(
    bytes: seq<int>, from: nat, end: nat, available: nat,
    pages: seq<Page>, fits: (seq<Page>, Page) -> bool, reply: Option<Page>, other: Option<Page>)
    requires IsReply(bytes, from, end, available, pages, fits, reply)
    requires IsReply(bytes, from, end, available, pages, fits, other)
    ensures reply == other
  {
    hide IsPage, Shrunk, Admits;
    var n: nat :| n <= TRIES && RepliesAt(bytes, from, end, available, pages, fits, n, reply);
    var m: nat :| m <= TRIES && RepliesAt(bytes, from, end, available, pages, fits, m, other);
    forall k: nat, p, q | IsTried(bytes, from, end, available, k, p) && IsTried(bytes, from, end, available, k, q)
      ensures p == q
    {
      PageIsDetermined(bytes, from, end, Less(Shrunk(available, k), ENVELOPE_RESERVE), p, q);
    }
    assert n < m ==> TurnedDown(bytes, from, end, available, pages, fits, n);
    assert m < n ==> TurnedDown(bytes, from, end, available, pages, fits, m);
  }

  /** A try with room for a character is turned down only by the envelope. */
  lemma OnlyTheEnvelopeTurnsDown(
    t: Text, from: nat, end: nat, available: nat,
    pages: seq<Page>, fits: (seq<Page>, Page) -> bool, n: nat, page: Page)
    requires TurnedDown(Encode(t), from, end, available, pages, fits, n)
    requires IsTried(Encode(t), from, end, available, n, page) && ValidateRange(Encode(t), from, end).Ok?
    requires Shrunk(available, n) >= ENVELOPE_RESERVE + 4
    ensures !fits(pages, page)
  {
    hide Encode, Shrunk;
    var room := Less(Shrunk(available, n), ENVELOPE_RESERVE);
    RoomyPageContinues(t, from, end, room, page);
    var down :| IsTried(Encode(t), from, end, available, n, down) && !Admits(pages, fits, down);
    PageIsDetermined(Encode(t), from, end, room, page, down);
  }

  /** A reply goes on from where it starts: no cursor is given past text that was not delivered. */
  lemma ReplyContinues(
    bytes: seq<int>, from: nat, end: nat, available: nat,
    pages: seq<Page>, fits: (seq<Page>, Page) -> bool, page: Page)
    requires IsReply(bytes, from, end, available, pages, fits, Some(page)) && ValidateRange(bytes, from, end).Ok?
    ensures Continues(bytes, from, end, page)
  {
    hide IsBoundary, Shrunk, TurnedDown;
  }

  /**
   One source query of a read: up to sixteen tries with a shrinking budget,
   until the page fits the envelope and is not an empty promise.  `pages` is
   what the read has so far, `used` what the envelope costs with it, and `fits`
   its verdict on one more page.
   */
  method ReadPage(
    t: Text, start: nat, end: nat, cursor: nat, maxBytes: nat, used: nat,
    pages: seq<Page>, fits: (seq<Page>, Page) -> bool)
    returns (r: Result<Option<Page>>)
    ensures var from := PageStart(start, end, cursor);
            match r
            case Err(e) => ValidateRange(Encode(t), from, end) == Err(e)
            case Ok(reply) =>
              && ValidateRange(Encode(t), from, end) == Ok(())
              && IsReply(Encode(t), from, end, Less(maxBytes, used), pages, fits, reply)
              && (reply.Some? ==> fits(pages, reply.value))
  {
    hide Encode, ValidateRange, IsPage;
    ghost var from, first := PageStart(start, end, cursor), Less(maxBytes, used);
    var available := Less(maxBytes, used);
    for attempt := 0 to TRIES
      invariant available == Shrunk(first, attempt)
      invariant attempt > 0 ==> ValidateRange(Encode(t), from, end) == Ok(())
      invariant forall m: nat :: m < attempt ==> TurnedDown(Encode(t), from, end, first, pages, fits, m)
    {
      var page := SourcePage(Encode(t), start, end, cursor, available);
      if page.Err? { return Err(page.error); }
      assert IsTried(Encode(t), from, end, first, attempt, page.value);
      if Admits(pages, fits, page.value) {
        assert RepliesAt(Encode(t), from, end, first, pages, fits, attempt, Some(page.value));
        return Ok(Some(page.value));
      }
      assert TurnedDown(Encode(t), from, end, first, pages, fits, attempt);
      available := available * 3 / 4;
    }
    assert RepliesAt(Encode(t), from, end, first, pages, fits, TRIES, None);
    r := Ok(None);
  }

  // ----- Several queries in one read -----

  datatype Query = Query(start: nat, end: nat, cursor: nat)

  /** The pages delivered, whether that is all, where the caller goes on, and the first query that was not returned. */
  datatype Answer = Answer(pages: seq<Page>, complete: bool, next: Option<nat>, missing: Option<nat>)

  /** What a read may return in all, what the envelope costs with some pages, and its verdict on one more. */
  datatype Budget = Budget(maxBytes: nat, used: seq<Page> -> nat, fits: (seq<Page>, Page) -> bool)

  const MAX_QUERIES := 8

  /** The verdict on what a query still asks for. */
  ghost function Verdict(t: Text, query: Query): Result<()> {
    ValidateRange(Encode(t), PageStart(query.start, query.end, query.cursor), query.end)
  }

  /** What one query gets when the read already has some pages. */
  ghost predicate Replies(t: Text, query: Query, budget: Budget, pages: seq<Page>, reply: Option<Page>) {
    && Verdict(t, query).Ok?
    && IsReply(Encode(t), PageStart(query.start, query.end, query.cursor), query.end,
               Less(budget.maxBytes, budget.used(pages)), pages, budget.fits, reply)
  }

  /** The pages are the replies to the first queries, in order. */
  ghost predicate Answered(t: Text, queries: seq<Query>, budget: Budget, pages: seq<Page>) {
    && |pages| <= |queries|
    && forall k :: 0 <= k < |pages| ==> Replies(t, queries[k], budget, pages[..k], Some(pages[k]))
  }

  ghost predicate AllFinished(pages: seq<Page>) { forall k :: 0 <= k < |pages| ==> pages[k].next.None? }

  /** The first query that all sixteen tries could not answer ends the read; the cursor is that of the last query. */
  ghost predicate IsAnswer(t: Text, queries: seq<Query>, budget: Budget, answer: Answer) {
    var pages := answer.pages;
    && Answered(t, queries, budget, pages)
    && (|pages| < |queries| ==> Replies(t, queries[|pages|], budget, pages, None))
    && answer.missing == (if |pages| < |queries| then Some(|pages|) else None)
    && (answer.complete <==> answer.missing.None? && AllFinished(pages))
    && answer.next == (if answer.missing.Some? || pages == [] then None else pages[|pages| - 1].next)
  }

  /** The queries before the first bad one were answered, and that one has a bad range. */
  ghost predicate IsRefused(t: Text, queries: seq<Query>, budget: Budget, pages: seq<Page>, error: Error) {
    Answered(t, queries, budget, pages) && |pages| < |queries| && Verdict(t, queries[|pages|]) == Err(error)
  }

  /** Every page fits the envelope beside those before it. */
  ghost predicate AllFit(budget: Budget, pages: seq<Page>) {
    forall k :: 0 <= k < |pages| ==> (budget.fits)(pages[..k], pages[k])
  }

  lemma OneMoreFits(budget: Budget, pages: seq<Page>, page: Page)
    requires AllFit(budget, pages) && (budget.fits)(pages, page)
    ensures AllFit(budget, pages + [page])
  {
    var more := pages + [page];
    forall k | 0 <= k < |more| ensures (budget.fits)(more[..k], more[k]) {
      assert more[..k] == pages[..k];
      assert pages[..|pages|] == pages;
    }
  }

  lemma OneMoreAnswered(t: Text, queries: seq<Query>, budget: Budget, pages: seq<Page>, page: Page)
    requires Answered(t, queries, budget, pages) && |pages| < |queries|
    requires Replies(t, queries[|pages|], budget, pages, Some(page))
    ensures Answered(t, queries, budget, pages + [page])
  {
    hide Replies;
    var more := pages + [page];
    forall k | 0 <= k < |more| ensures Replies(t, queries[k], budget, more[..k], Some(more[k])) {
      assert more[..k] == pages[..k];
      assert pages[..|pages|] == pages;
    }
  }

  /**
   A read of several source queries over one text: it stops at the first query
   that does not fit, names it, and then gives no cursor.
   */
  method Read(t: Text, queries: seq<Query>, budget: Budget) returns (r: Result<Answer>)
    ensures |queries| > MAX_QUERIES ==> r == Err(TooManyQueries)
    ensures r.Ok? ==> IsAnswer(t, queries, budget, r.value)
    ensures r.Ok? ==> AllFit(budget, r.value.pages)
    ensures r.Err? && |queries| <= MAX_QUERIES ==> exists pages :: IsRefused(t, queries, budget, pages, r.error)
  {
    hide IsReply, Encode, ValidateRange, PageStart, Answered, AllFit;
    if |queries| > MAX_QUERIES { return Err(TooManyQueries); }
    var pages: seq<Page>, complete, next := [], true, None;
    NothingAnswered(t, queries, budget);
    for k := 0 to |queries|
      invariant |pages| == k && Answered(t, queries, budget, pages) && AllFit(budget, pages)
      invariant complete <==> AllFinished(pages)
      invariant next == if pages == [] then None else pages[k - 1].next
    {
      var query := queries[k];
      var page := ReadPage(t, query.start, query.end, query.cursor, budget.maxBytes, budget.used(pages),
                           pages, budget.fits);
      if page.Err? {
        assert IsRefused(t, queries, budget, pages, page.error);
        return Err(page.error);
      }
      if page.value.None? { return Ok(Answer(pages, false, None, Some(k))); }
      OneMoreAnswered(t, queries, budget, pages, page.value.value);
      OneMoreFits(budget, pages, page.value.value);
      complete := complete && page.value.value.next.None?;
      next := page.value.value.next;
      assert AllFinished(pages + [page.value.value]) <==> complete by {
        AllFinishedStep(pages, page.value.value);
      }
      pages := pages + [page.value.value];
    }
    return Ok(Answer(pages, complete, next, None));
  }

  lemma AllFinishedStep(pages: seq<Page>, page: Page)
    ensures AllFinished(pages + [page]) <==> AllFinished(pages) && page.next.None?
  {
    var more := pages + [page];
    assert more[|pages|] == page && forall k :: 0 <= k < |pages| ==> more[k] == pages[k];
  }

  lemma NothingAnswered(t: Text, queries: seq<Query>, budget: Budget)
    ensures Answered(t, queries, budget, []) && AllFit(budget, [])
  {
  }

  // ----- Cursors -----

  /** A cursor as its fields; a query as its fields, too. */
  datatype Cursor = Cursor(version: nat, revision: string, kind: string, query: map<string, string>, offset: nat)

  /** What identifies a query: all of it but the cursor and the page limit. */
  function Fingerprint(query: map<string, string>): map<string, string> { query - {"cursor", "limit"} }

  function EncodeCursor(revision: string, kind: string, query: map<string, string>, offset: nat): Cursor {
    Cursor(1, revision, kind, Fingerprint(query), offset)
  }

  function DecodeCursor(revision: string, kind: string, query: map<string, string>,
                        raw: Option<Cursor>): Result<Option<nat>> {
    match raw
    case None => Ok(None)
    case Some(c) =>
      if c.version != 1 || c.revision != revision || c.kind != kind || c.query != Fingerprint(query)
      then Err(CursorMismatch)
      else Ok(Some(c.offset))
  }

  /** The query that a caller sends: the same one with another cursor and another limit. */
  function Sent(query: map<string, string>, cursor: string, limit: string): map<string, string> {
    query["cursor" := cursor]["limit" := limit]
  }

  /** The cursor and the limit do not take part in a query's identity. */
  lemma FingerprintIgnores(query: map<string, string>, cursor: string, limit: string)
    ensures Fingerprint(Sent(query, cursor, limit)) == Fingerprint(query)
  {
    assert forall k :: k in Fingerprint(Sent(query, cursor, limit)) <==> k in Fingerprint(query);
  }

  ghost predicate SameField(query: map<string, string>, other: map<string, string>, key: string) {
    (key in query <==> key in other) && (key in query ==> query[key] == other[key])
  }

  /** Queries are told apart by every field but those two. */
  lemma FingerprintMeans(query: map<string, string>, other: map<string, string>)
    ensures Fingerprint(query) == Fingerprint(other)
       <==> forall key :: key != "cursor" && key != "limit" ==> SameField(query, other, key)
  {
    var x, y := Fingerprint(query), Fingerprint(other);
    if forall key :: key != "cursor" && key != "limit" ==> SameField(query, other, key) {
      forall key ensures SameField(x, y, key) {
        if key != "cursor" && key != "limit" { assert SameField(query, other, key); }
      }
      assert forall key :: (key in x <==> key in y) && (key in x ==> x[key] == y[key]) by {
        forall key ensures (key in x <==> key in y) && (key in x ==> x[key] == y[key]) { assert SameField(x, y, key); }
      }
    }
    if x == y {
      forall key | key != "cursor" && key != "limit" ensures SameField(query, other, key) {
        assert key in x <==> key in query;
        assert key in y <==> key in other;
      }
    }
  }

  /** A cursor of another query, kind or revision is refused. */
  lemma OtherCursorIsRefused(
    revision: string, kind: string, query: map<string, string>, offset: nat,
    revision': string, kind': string, query': map<string, string>, key: string)
    requires revision != revision' || kind != kind'
             || (key != "cursor" && key != "limit" && !SameField(query, query', key))
    ensures DecodeCursor(revision', kind', query', Some(EncodeCursor(revision, kind, query, offset)))
         == Err(CursorMismatch)
  {
    FingerprintMeans(query, query');
  }

  /** A cursor is good for the same query with another cursor and limit, and only under the revision it was made for. */
  lemma CursorRoundTrip(
    revision: string, kind: string, query: map<string, string>, cursor: string, limit: string,
    offset: nat, revision': string, cursor': string, limit': string)
    ensures DecodeCursor(revision', kind, Sent(query, cursor', limit'),
                         Some(EncodeCursor(revision, kind, Sent(query, cursor, limit), offset)))
         == if revision == revision' then Ok(Some(offset)) else Err(CursorMismatch)
  {
    hide Fingerprint, Sent;
    FingerprintIgnores(query, cursor, limit);
    FingerprintIgnores(query, cursor', limit');
  }

  // ----- A caller who reads a range page by page -----

  /** One request: the revision it meets, the cursor's text and the limit it sends, and the budget. */
  datatype Request = Request(revision: string, cursor: string, limit: string, budget: Budget)

  /** How a run ends: with the range, with the last request, with a request nothing fits, or with an error. */
  datatype End = Finished | AllSent | Unfitting | Failed(error: Error)

  /** The revision of the first request, which the whole run is bound to. */
  function BoundTo(requests: seq<Request>): string { if requests == [] then "" else requests[0].revision }

  ghost predicate OneRevision(requests: seq<Request>, n: nat) {
    n <= |requests| && forall k :: 0 <= k < n ==> requests[k].revision == BoundTo(requests)
  }

  /** Why the run stops where it does. */
  ghost predicate EndsRight(t: Text, start: nat, end: nat, requests: seq<Request>, pages: seq<Page>, why: End) {
    var n := |pages|;
    match why
    case Finished => !Unfinished(pages)
    case AllSent => Unfinished(pages) && n == |requests|
    case Unfitting =>
      && Unfinished(pages) && n < |requests| && requests[n].revision == BoundTo(requests)
      && Replies(t, NextQuery(start, end, pages), requests[n].budget, [], None)
    case Failed(e) =>
      && Unfinished(pages) && n < |requests|
      && if requests[n].revision != BoundTo(requests) then e == CursorMismatch
         else n == 0 && ValidateRange(Encode(t), start, end) == Err(e)
  }

  /** What the next request asks: the range, from the cursor of the last page. */
  function NextQuery(start: nat, end: nat, pages: seq<Page>): Query {
    Query(start, end, if pages == [] then 0 else pages[|pages| - 1].end)
  }

  /** Each page is the reply to its request. */
  ghost predicate EachIsReply(t: Text, start: nat, end: nat, requests: seq<Request>, pages: seq<Page>) {
    && |pages| <= |requests|
    && forall k :: 0 <= k < |pages| ==>
         Replies(t, NextQuery(start, end, pages[..k]), requests[k].budget, [], Some(pages[k]))
  }

  lemma NothingReplied(t: Text, start: nat, end: nat, requests: seq<Request>)
    ensures EachIsReply(t, start, end, requests, [])
  {
  }

  lemma OneMoreReply(t: Text, start: nat, end: nat, requests: seq<Request>, pages: seq<Page>, page: Page)
    requires EachIsReply(t, start, end, requests, pages) && |pages| < |requests|
    requires Replies(t, NextQuery(start, end, pages), requests[|pages|].budget, [], Some(page))
    ensures EachIsReply(t, start, end, requests, pages + [page])
  {
    hide Replies, NextQuery;
    var more := pages + [page];
    forall k | 0 <= k < |more|
      ensures Replies(t, NextQuery(start, end, more[..k]), requests[k].budget, [], Some(more[k]))
    {
      assert more[..k] == pages[..k];
      assert pages[..|pages|] == pages;
    }
  }

  lemma NextQueryStarts(t: Text, start: nat, end: nat, pages: seq<Page>)
    requires Delivers(Encode(t), start, end, pages) && Unfinished(pages)
    ensures PageStart(start, end, NextQuery(start, end, pages).cursor) == EndOf(pages, start)
    ensures pages != [] && ValidateRange(Encode(t), start, end).Ok? ==> Verdict(t, NextQuery(start, end, pages)).Ok?
    ensures pages == [] ==> Verdict(t, NextQuery(start, end, pages)) == ValidateRange(Encode(t), start, end)
  {
    hide Encode, IsBoundary;
    if pages != [] { CursorIsEnd(Encode(t), start, end, pages); }
  }

  /** A read of one query gives its reply. */
  lemma OneQueryRead(t: Text, query: Query, budget: Budget, answer: Answer)
    requires IsAnswer(t, [query], budget, answer)
    ensures answer.missing.Some? ==> answer.pages == [] && Replies(t, query, budget, [], None)
    ensures answer.missing.None? ==>
      && |answer.pages| == 1 && Replies(t, query, budget, [], Some(answer.pages[0]))
      && answer.next == answer.pages[0].next
  {
    hide Replies;
    assert answer.pages[..0] == [];
    if answer.pages != [] { assert Replies(t, [query][0], budget, answer.pages[..0], Some(answer.pages[0])); }
  }

  lemma OneQueryRefused(t: Text, query: Query, budget: Budget, error: Error)
    requires exists pages :: IsRefused(t, [query], budget, pages, error)
    ensures Verdict(t, query) == Err(error)
  {
    hide Answered, Verdict;
  }

  /** A reply to the next query is the next page of the run. */
  lemma ReplyIsNext(t: Text, start: nat, end: nat, pages: seq<Page>, budget: Budget, page: Page)
    requires Delivers(Encode(t), start, end, pages) && Unfinished(pages)
    requires Replies(t, NextQuery(start, end, pages), budget, [], Some(page))
    ensures Delivers(Encode(t), start, end, pages + [page]) && Verdict(t, NextQuery(start, end, pages)).Ok?
  {
    hide Encode, IsReply, IsBoundary, Continues, ValidateRange, Delivers;
    NextQueryStarts(t, start, end, pages);
    var available := Less(budget.maxBytes, budget.used([]));
    ReplyContinues(Encode(t), EndOf(pages, start), end, available, [], budget.fits, page);
    NextPage(Encode(t), start, end, pages, page);
  }

  /** The caller holds the cursor to where the pages end, made for the query under some limit. */
  ghost predicate HoldsCursor(
    cursor: Option<Cursor>, revision: string, kind: string, query: map<string, string>, offset: nat)
  {
    exists c, l :: cursor == Some(EncodeCursor(revision, kind, Sent(query, c, l), offset))
  }

  lemma HoldsNew(revision: string, kind: string, query: map<string, string>, cursor: string, limit: string, offset: nat)
    ensures HoldsCursor(Some(EncodeCursor(revision, kind, Sent(query, cursor, limit), offset)),
                        revision, kind, query, offset)
  {
    hide EncodeCursor, Sent;
  }

  lemma DecodesNothing(revision: string, kind: string, query: map<string, string>)
    ensures DecodeCursor(revision, kind, query, None) == Ok(None)
  {
  }

  lemma DecodesHeld(
    held: Option<Cursor>, revision: string, kind: string, query: map<string, string>, offset: nat,
    revision': string, cursor: string, limit: string)
    requires HoldsCursor(held, revision, kind, query, offset)
    ensures DecodeCursor(revision', kind, Sent(query, cursor, limit), held)
         == if revision == revision' then Ok(Some(offset)) else Err(CursorMismatch)
  {
    hide Sent, EncodeCursor, DecodeCursor;
    var c, l :| held == Some(EncodeCursor(revision, kind, Sent(query, c, l), offset));
    CursorRoundTrip(revision, kind, query, c, l, offset, revision', cursor, limit);
  }

  /**
   A caller who reads a range under one query sends each cursor back with the
   next request, while the project may change between requests.  The pages are
   a gapless run over the text of one revision; a request of another revision
   is refused, one that stays unanswered was turned down in all sixteen tries,
   and enough requests finish the range unless the run stops at such a one.
   */
  method FollowRead(
    texts: string -> Text, kind: string, query: map<string, string>, start: nat, end: nat, requests: seq<Request>)
    returns (pages: seq<Page>, why: End)
    ensures Delivers(Encode(texts(BoundTo(requests))), start, end, pages) && OneRevision(requests, |pages|)
    ensures EachIsReply(texts(BoundTo(requests)), start, end, requests, pages)
    ensures EndsRight(texts(BoundTo(requests)), start, end, requests, pages, why)
    ensures start <= end && |requests| > end - start ==> why != AllSent
  {
    hide Encode, Continues, Replies, Verdict, ValidateRange, DecodeCursor, EncodeCursor, Sent, HoldsCursor, IsAnswer;
    hide IsBoundary, IsRefused, Delivers, EachIsReply;
    ghost var t := texts(BoundTo(requests));
    pages := [];
    NothingDelivered(Encode(t), start, end);
    NothingReplied(t, start, end, requests);
    var held := None;
    while |pages| < |requests|
      invariant Delivers(Encode(t), start, end, pages) && Unfinished(pages) && OneRevision(requests, |pages|)
      invariant EachIsReply(t, start, end, requests, pages)
      invariant pages == [] ==> held == None
      invariant pages != [] ==> HoldsCursor(held, BoundTo(requests), kind, query, pages[|pages| - 1].end)
      invariant pages != [] ==> ValidateRange(Encode(t), start, end).Ok?
      decreases |requests| - |pages|
    {
      var request := requests[|pages|];
      var sent := Sent(query, request.cursor, request.limit);
      var offset := DecodeCursor(request.revision, kind, sent, held);
      ghost var next := NextQuery(start, end, pages);
      if pages == [] {
        DecodesNothing(request.revision, kind, sent);
      } else {
        DecodesHeld(held, BoundTo(requests), kind, query, next.cursor, request.revision, request.cursor, request.limit);
      }
      if offset.Err? { return pages, Failed(offset.error); }
      var at := match offset.value case None => 0 case Some(o) => o;
      NextQueryStarts(t, start, end, pages);
      var answer := Read(texts(request.revision), [Query(start, end, at)], request.budget);
      if answer.Err? {
        OneQueryRefused(t, next, request.budget, answer.error);
        return pages, Failed(answer.error);
      }
      OneQueryRead(t, next, request.budget, answer.value);
      if answer.value.missing.Some? { return pages, Unfitting; }
      ReplyIsNext(t, start, end, pages, request.budget, answer.value.pages[0]);
      OneMoreReply(t, start, end, requests, pages, answer.value.pages[0]);
      assert answer.value.pages == [answer.value.pages[0]];
      pages := pages + answer.value.pages;
      match answer.value.next
      case None => return pages, Finished;
      case Some(o) => held := Some(EncodeCursor(request.revision, kind, sent, o));
      CursorIsEnd(Encode(t), start, end, pages);
      HoldsNew(BoundTo(requests), kind, query, request.cursor, request.limit, pages[|pages| - 1].end);
    }
    if pages != [] { CursorIsEnd(Encode(t), start, end, pages); }
    why := AllSent;
  }
}
