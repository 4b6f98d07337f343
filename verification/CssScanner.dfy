/**
 The references of a style sheet (web/src/lib/publication-builder.js,
 `cssReferences`): the parts of it that load something, in order, found by a
 scanner that steps over comments and strings.
 */
module CssScanner {
  import opened Basics
  import opened Whitespace

  /** A reference css[start..end], and where scanning goes on. */
  datatype Token = Token(start: nat, end: nat, next: nat)

  predicate IsName(css: string, at: int) {
    && 0 <= at < |css|
    && var c := css[at];
       'a' <= c <= 'z' || 'A' <= c <= 'Z' || '0' <= c <= '9' || c == '_' || c == '-'
  }

  predicate IsQuote(css: string, at: nat): (r: bool)
    ensures r <==> at < |css| && css[at] in "\"'"
  {
    at < |css| && (css[at] == '\'' || css[at] == '"')
  }

  function Lower(c: char): char { if 'A' <= c <= 'Z' then c - 'A' + 'a' else c }

  predicate StartsWith(css: string, at: nat, word: string): (r: bool)
    ensures r <==> at <= |css| && word <= css[at..]
  {
    at + |word| <= |css| && css[at..at + |word|] == word
  }

  /** As `StartsWith`, ignoring the case of letters. */
  predicate StartsWithWord(css: string, at: nat, word: string) {
    at + |word| <= |css| && forall i :: 0 <= i < |word| ==> Lower(css[at + i]) == word[i]
  }

  // ----- Comments, white space and strings -----

  function CommentEnd(css: string, at: nat): (end: nat)
    requires at <= |css|
    ensures at <= end <= |css|
    decreases |css| - at
  {
    if at == |css| then at else if StartsWith(css, at, "*/") then at + 2 else CommentEnd(css, at + 1)
  }

  /** From `at` on, the first closing sign ends right before `end`, or there is none and the text ends there. */
  ghost predicate EndsComment(css: string, at: nat, end: nat) {
    && at <= end <= |css|
    && (end == |css| || (at + 2 <= end && StartsWith(css, end - 2, "*/")))
    && (forall k: nat :: at <= k && k + 2 < end ==> !StartsWith(css, k, "*/"))
  }

  /** The comment that starts two characters before `at` ends with the first closing sign, or with the text. */
  lemma {:induction false} CommentEndMeaning(css: string, at: nat)
    requires at <= |css|
    ensures EndsComment(css, at, CommentEnd(css, at))
    decreases |css| - at
  {
    if at < |css| && !StartsWith(css, at, "*/") { CommentEndMeaning(css, at + 1); }
  }

  function Trivia(css: string, at: nat): (end: nat)
    requires at <= |css|
    ensures at <= end <= |css|
    decreases |css| - at
  {
    if at < |css| && IsSpace(css[at]) then Trivia(css, at + 1)
    else if StartsWith(css, at, "/*") then Trivia(css, CommentEnd(css, at + 2))
    else at
  }

  method SkipTrivia(css: string, at: nat) returns (end: nat)
    requires at <= |css|
    ensures end == Trivia(css, at)
  {
    end := at;
    while end < |css|
      invariant at <= end <= |css| && Trivia(css, at) == Trivia(css, end)
    {
      if IsSpace(css[end]) {
        end := end + 1;
      } else if StartsWith(css, end, "/*") {
        end := CommentEnd(css, end + 2);
      } else {
        break;
      }
    }
  }

  /** The closing quote, looking from `i` on: a backslash takes the next character with it. */
  function QuoteEnd(css: string, quote: char, i: nat): (end: Option<nat>)
    ensures end.Some? ==> i <= end.value < |css| && css[end.value] == quote
    decreases |css| - i
  {
    if i >= |css| then None
    else if css[i] == '\\' then QuoteEnd(css, quote, i + 2)
    else if css[i] == quote then Some(i)
    else QuoteEnd(css, quote, i + 1)
  }

  /** How many backslashes stand right before `k`, not looking further back than `from`. */
  function Backslashes(css: string, from: nat, k: nat): nat
    requires k <= |css|
  {
    if from < k && css[k - 1] == '\\' then 1 + Backslashes(css, from, k - 1) else 0
  }

  predicate Closes(css: string, quote: char, from: nat, k: nat) {
    k < |css| && css[k] == quote && Backslashes(css, from, k) % 2 == 0
  }

  ghost predicate NoneCloses(css: string, quote: char, from: nat, to: nat) {
    forall k :: from <= k < to ==> !Closes(css, quote, from, k)
  }

  /** Behind a character that is no backslash, or an escaped one, the count starts anew. */
  lemma {:induction false} BackslashesRestart(css: string, from: nat, i: nat, k: nat)
    requires from < i <= k <= |css| && Backslashes(css, from, i) % 2 == 0
    ensures Backslashes(css, from, k) % 2 == Backslashes(css, i, k) % 2
    decreases k
  {
    if k > i && css[k - 1] == '\\' { BackslashesRestart(css, from, i, k - 1); }
  }

  /** A string ends with the first quote that an even number of backslashes precedes. */
  lemma {:induction false} QuoteEndMeaning(css: string, quote: char, from: nat)
    requires quote != '\\'
    ensures match QuoteEnd(css, quote, from)
            case Some(end) => Closes(css, quote, from, end) && NoneCloses(css, quote, from, end)
            case None => NoneCloses(css, quote, from, |css|)
    decreases |css| - from
  {
    if from < |css| && (css[from] == '\\' || css[from] != quote) {
      var i := if css[from] == '\\' then from + 2 else from + 1;
      QuoteEndMeaning(css, quote, i);
      if i <= |css| {
        assert Backslashes(css, from, i) % 2 == 0 by { EvenBehind(css, from); }
        forall k | i <= k < |css| ensures Closes(css, quote, from, k) == Closes(css, quote, i, k) {
          BackslashesRestart(css, from, i, k);
        }
      }
      assert !Closes(css, quote, from, from);
      if css[from] == '\\' && from + 1 < |css| {
        assert Backslashes(css, from, from) == 0;
        assert Backslashes(css, from, from + 1) == 1;
        assert !Closes(css, quote, from, from + 1);
      }
    } else if from < |css| {
      assert Backslashes(css, from, from) == 0;
    }
  }

  lemma EvenBehind(css: string, from: nat)
    requires from < |css|
    ensures css[from] != '\\' ==> Backslashes(css, from, from + 1) == 0
    ensures css[from] == '\\' && from + 2 <= |css| ==> Backslashes(css, from, from + 2) % 2 == 0
  {
    assert Backslashes(css, from, from) == 0;
    if css[from] == '\\' && from + 2 <= |css| { assert Backslashes(css, from, from + 1) == 1; }
  }

  method FindQuoteEnd(css: string, at: nat) returns (end: Option<nat>)
    requires IsQuote(css, at)
    ensures end == QuoteEnd(css, css[at], at + 1)
  {
    var i := at + 1;
    while i < |css|
      invariant QuoteEnd(css, css[at], at + 1) == QuoteEnd(css, css[at], i)
    {
      if css[i] == '\\' {
        i := i + 2;
      } else if css[i] == css[at] {
        return Some(i);
      } else {
        i := i + 1;
      }
    }
    return None;
  }

  // ----- References -----

  function StringToken(css: string, at: nat): (token: Option<Token>)
    requires IsQuote(css, at)
    ensures token.Some? ==> at < token.value.start <= token.value.end < token.value.next <= |css|
  {
    match QuoteEnd(css, css[at], at + 1)
    case None => None
    case Some(end) => Some(Token(at + 1, end, end + 1))
  }

  function ParenEnd(css: string, at: nat): (end: Option<nat>)
    requires at <= |css|
    ensures end.Some? ==> at <= end.value < |css| && css[end.value] == ')' && ')' !in css[at..end.value]
    decreases |css| - at
  {
    if at == |css| then None else if css[at] == ')' then Some(at)
    else
      var end := ParenEnd(css, at + 1);
      assert end.Some? ==> css[at..end.value] == [css[at]] + css[at + 1..end.value];
      end
  }

  /** What stands between the parentheses, and the place behind them. */
  function UrlValue(css: string, value: nat): (token: Option<Token>)
    requires value <= |css|
    ensures token.Some? ==> value <= token.value.start <= token.value.end < token.value.next <= |css|
  {
    if IsQuote(css, value) then
      match StringToken(css, value)
      case None => None
      case Some(token) =>
        var close := Trivia(css, token.next);
        if close < |css| && css[close] == ')' then Some(token.(next := close + 1)) else None
    else
      match ParenEnd(css, value)
      case None => None
      case Some(close) => Some(Token(value, TrimEnd(css, value, close), close + 1))
  }

  /** The token of `url(...)` whose name starts at `at`. */
  function UrlToken(css: string, at: nat): (token: Option<Token>)
    requires at + 3 <= |css|
    ensures token.Some? ==> at < token.value.start <= token.value.end < token.value.next <= |css|
  {
    var open := Trivia(css, at + 3);
    if open == |css| || css[open] != '(' then None
    else UrlValue(css, Trivia(css, open + 1))
  }

  predicate StartsImport(css: string, at: nat) {
    at < |css| && css[at] == '@' && StartsWithWord(css, at + 1, "import") && !IsName(css, at + 7)
  }

  predicate StartsUrl(css: string, at: nat) {
    StartsWithWord(css, at, "url") && !IsName(css, at - 1) && !IsName(css, at + 3)
  }

  function ImportToken(css: string, at: nat): (token: Option<Token>)
    requires StartsImport(css, at)
    ensures token.Some? ==> at < token.value.start <= token.value.end < token.value.next <= |css|
  {
    var value := Trivia(css, at + 7);
    if IsQuote(css, value) then StringToken(css, value) else None
  }

  /** The reference that starts at `at`, where neither a comment nor a string does. */
  function TokenAt(css: string, at: nat): (token: Option<Token>)
    requires at < |css|
    ensures token.Some? ==> at < token.value.start <= token.value.end < token.value.next <= |css|
  {
    var imported := if StartsImport(css, at) then ImportToken(css, at) else None;
    if imported.Some? then imported else if StartsUrl(css, at) then UrlToken(css, at) else None
  }

  /** The references from `at` on. */
  function Scan(css: string, at: nat): seq<Token>
    requires at <= |css|
    decreases |css| - at
  {
    if at == |css| then []
    else if StartsWith(css, at, "/*") then Scan(css, CommentEnd(css, at + 2))
    else if IsQuote(css, at) then
      match StringToken(css, at)
      case None => []
      case Some(token) => Scan(css, token.next)
    else
      match TokenAt(css, at)
      case None => Scan(css, at + 1)
      case Some(token) => [token] + Scan(css, token.next)
  }

  function References(css: string): seq<Token> { Scan(css, 0) }

  method Quoted(css: string, at: nat) returns (token: Option<Token>)
    requires IsQuote(css, at)
    ensures token == StringToken(css, at)
  {
    var end := FindQuoteEnd(css, at);
    if end == None { return None; }
    return Some(Token(at + 1, end.value, end.value + 1));
  }

  method TrimBack(css: string, from: nat, to: nat) returns (end: nat)
    requires from <= to <= |css|
    ensures end == TrimEnd(css, from, to)
  {
    end := to;
    while end > from && IsSpace(css[end - 1])
      invariant from <= end <= to && TrimEnd(css, from, end) == TrimEnd(css, from, to)
    {
      end := end - 1;
    }
  }

  method Url(css: string, at: nat) returns (token: Option<Token>)
    requires at + 3 <= |css|
    ensures token == UrlToken(css, at)
  {
    hide Trivia, StringToken, ParenEnd, TrimEnd, IsQuote;
    var open := SkipTrivia(css, at + 3);
    if open == |css| || css[open] != '(' { return None; }
    var value := SkipTrivia(css, open + 1);
    if IsQuote(css, value) {
      token := Quoted(css, value);
      if token == None { return None; }
      var close := SkipTrivia(css, token.value.next);
      return if close < |css| && css[close] == ')' then Some(token.value.(next := close + 1)) else None;
    }
    var close := ParenEnd(css, value);
    if close == None { return None; }
    var end := TrimBack(css, value, close.value);
    return Some(Token(value, end, close.value + 1));
  }

  method CssReferences(css: string) returns (references: seq<Token>)
    ensures references == References(css)
    ensures forall pieces :: Tiles(css, 0, pieces) ==> references == TokensOf(pieces)
  {
    hide Trivia, StringToken, IsQuote, UrlToken, CommentEnd, ImportToken, Tiles, TokensOf;
    references := [];
    var at := 0;
    while at < |css|
      invariant at <= |css| && References(css) == references + Scan(css, at)
    {
      if StartsWith(css, at, "/*") {
        at := CommentEnd(css, at + 2);
        continue;
      }
      if IsQuote(css, at) {
        var token := Quoted(css, at);
        at := if token == None then |css| else token.value.next;
        continue;
      }
      ScanStep(css, at, references);
      if StartsImport(css, at) {
        var token := Import(css, at);
        if token != None {
          references := references + [token.value];
          at := token.value.next;
          continue;
        }
      }
      if StartsUrl(css, at) {
        var token := Url(css, at);
        if token != None {
          references := references + [token.value];
          at := token.value.next;
          continue;
        }
      }
      at := at + 1;
    }
    var _ := ReferencesAreThePieces(css);
  }

  /** Where neither a comment nor a string starts. */
  lemma ScanStep(css: string, at: nat, references: seq<Token>)
    requires at < |css| && !StartsWith(css, at, "/*") && !IsQuote(css, at)
    ensures references + Scan(css, at)
      == match TokenAt(css, at)
         case None => references + Scan(css, at + 1)
         case Some(token) => references + [token] + Scan(css, token.next)
  {
    hide TokenAt, StringToken, CommentEnd;
    if TokenAt(css, at).Some? {
      var token := TokenAt(css, at).value;
      assert references + ([token] + Scan(css, token.next)) == references + [token] + Scan(css, token.next);
    }
  }

  /** The quoted reference of an import rule. */
  method Import(css: string, at: nat) returns (token: Option<Token>)
    requires StartsImport(css, at)
    ensures token == ImportToken(css, at)
  {
    hide Trivia, StringToken, IsQuote;
    var value := SkipTrivia(css, at + 7);
    if !IsQuote(css, value) { return None; }
    token := Quoted(css, value);
  }

  // ----- What the scanner promises -----

  /** Ordered, disjoint, inside the text. */
  ghost predicate InOrder(css: string, tokens: seq<Token>, from: nat) {
    && (forall i :: 0 <= i < |tokens| ==> from < tokens[i].start <= tokens[i].end < tokens[i].next <= |css|)
    && (forall i, j :: 0 <= i < j < |tokens| ==> tokens[i].next < tokens[j].start)
  }

  lemma InOrderFront(css: string, token: Token, tokens: seq<Token>, from: nat)
    requires from < token.start <= token.end < token.next <= |css| && InOrder(css, tokens, token.next)
    ensures InOrder(css, [token] + tokens, from)
  {
  }

  lemma {:induction false} ScanInOrder(css: string, at: nat)
    requires at <= |css|
    ensures InOrder(css, Scan(css, at), at)
    decreases |css| - at
  {
    hide StringToken, IsQuote, TokenAt, CommentEnd;
    if at < |css| {
      if StartsWith(css, at, "/*") {
        ScanInOrder(css, CommentEnd(css, at + 2));
      } else if IsQuote(css, at) {
        if StringToken(css, at).Some? { ScanInOrder(css, StringToken(css, at).value.next); }
      } else if TokenAt(css, at).None? {
        ScanInOrder(css, at + 1);
      } else {
        var token := TokenAt(css, at).value;
        ScanInOrder(css, token.next);
        InOrderFront(css, token, Scan(css, token.next), at);
      }
    }
  }

  /** Between two equal quotes, with no unescaped one inside. */
  ghost predicate InQuotes(css: string, start: nat, end: nat)
    requires start <= end <= |css|
  {
    && start > 0 && IsQuote(css, start - 1) && Closes(css, css[start - 1], start, end)
    && NoneCloses(css, css[start - 1], start, end)
  }

  /** Bare: no closing parenthesis inside and no white space at the end. */
  ghost predicate IsBare(css: string, start: nat, end: nat)
    requires start <= end <= |css|
  {
    ')' !in css[start..end] && (end > start ==> !IsSpace(css[end - 1]))
  }

  ghost predicate WellDelimited(css: string, token: Token) {
    token.start <= token.end <= |css| && (InQuotes(css, token.start, token.end) || IsBare(css, token.start, token.end))
  }

  lemma StringIsQuoted(css: string, at: nat)
    requires IsQuote(css, at) && StringToken(css, at).Some?
    ensures InQuotes(css, StringToken(css, at).value.start, StringToken(css, at).value.end)
  {
    hide Closes, QuoteEnd;
    QuoteEndMeaning(css, css[at], at + 1);
  }

  lemma BareIsBare(css: string, start: nat, close: nat, end: nat)
    requires start <= end <= close <= |css| && ')' !in css[start..close] && (end > start ==> !IsSpace(css[end - 1]))
    ensures IsBare(css, start, end)
  {
    assert css[start..end] == css[start..close][..end - start];
  }

  lemma UrlIsDelimited(css: string, at: nat)
    requires at + 3 <= |css| && UrlToken(css, at).Some?
    ensures WellDelimited(css, UrlToken(css, at).value)
  {
    hide Trivia, StringToken, ParenEnd, TrimEnd, IsQuote, InQuotes;
    var value := Trivia(css, Trivia(css, at + 3) + 1);
    if IsQuote(css, value) {
      StringIsQuoted(css, value);
    } else {
      var close := ParenEnd(css, value).value;
      var end := TrimEnd(css, value, close);
      BareIsBare(css, value, close, end);
    }
  }

  lemma TokenIsDelimited(css: string, at: nat)
    requires at < |css| && TokenAt(css, at).Some?
    ensures WellDelimited(css, TokenAt(css, at).value)
  {
    hide Trivia, StringToken, IsQuote, InQuotes, IsBare, UrlToken;
    if StartsImport(css, at) && ImportToken(css, at).Some? {
      StringIsQuoted(css, Trivia(css, at + 7));
    } else {
      UrlIsDelimited(css, at);
    }
  }

  lemma {:induction false} ScanIsDelimited(css: string, at: nat, i: nat)
    requires at <= |css| && i < |Scan(css, at)|
    ensures WellDelimited(css, Scan(css, at)[i])
    decreases |css| - at
  {
    hide WellDelimited, CommentEnd, StringToken, IsQuote, TokenAt;
    if StartsWith(css, at, "/*") {
      ScanIsDelimited(css, CommentEnd(css, at + 2), i);
    } else if IsQuote(css, at) {
      ScanIsDelimited(css, StringToken(css, at).value.next, i);
    } else if TokenAt(css, at).None? {
      ScanIsDelimited(css, at + 1, i);
    } else if i > 0 {
      ScanIsDelimited(css, TokenAt(css, at).value.next, i - 1);
    } else {
      TokenIsDelimited(css, at);
    }
  }

  // ----- Comments, strings, references, and all the rest -----

  /** A stretch of a style sheet, with its end; `Plain` is a single character. */
  datatype Piece = Comment(end: nat) | Quote(end: nat) | Reference(token: Token) | Plain

  function PieceEnd(at: nat, piece: Piece): nat {
    match piece
    case Comment(end) => end
    case Quote(end) => end
    case Reference(token) => token.next
    case Plain => at + 1
  }

  /** A string goes on to its first unescaped quote, or to the end of the text when there is none. */
  ghost predicate EndsString(css: string, at: nat, end: nat)
    requires IsQuote(css, at)
  {
    || (at + 1 < end && Closes(css, css[at], at + 1, end - 1) && NoneCloses(css, css[at], at + 1, end - 1))
    || (end == |css| && NoneCloses(css, css[at], at + 1, end))
  }

  // ----- What a reference is -----

  /** A letter, a digit, an underscore or a hyphen. */
  ghost predicate NameAt(css: string, i: int) {
    0 <= i < |css| && (css[i] in "_-" || '0' <= css[i] <= '9' || 'A' <= css[i] <= 'Z' || 'a' <= css[i] <= 'z')
  }

  /** The word stands there, each letter in either case. */
  ghost predicate ReadsWord(css: string, at: nat, small: string, capital: string)
    requires |small| == |capital|
  {
    at + |small| <= |css| && forall i :: 0 <= i < |small| ==> css[at + i] == small[i] || css[at + i] == capital[i]
  }

  /** Nothing but white space and whole comments from `from` to `to`. */
  ghost predicate IsGap(css: string, from: nat, to: nat)
    decreases if from <= to then to - from else 0
  {
    || from == to
    || (from < to && from < |css| && IsSpace(css[from]) && IsGap(css, from + 1, to))
    || (StartsWith(css, from, "/*")
        && exists e: nat :: from < e <= to && EndsComment(css, from + 2, e) && IsGap(css, e, to))
  }

  /** The gap goes as far as it can. */
  ghost predicate Skips(css: string, from: nat, to: nat) {
    IsGap(css, from, to) && to <= |css| && !(to < |css| && IsSpace(css[to])) && !StartsWith(css, to, "/*")
  }

  /** A quote at `at`, the text behind it, and the first unescaped quote of the same kind. */
  ghost predicate ReadsString(css: string, at: nat, start: nat, end: nat) {
    && at < |css| && (css[at] == '"' || css[at] == '\'') && start == at + 1 <= end < |css|
    && Closes(css, css[at], start, end) && NoneCloses(css, css[at], start, end)
  }

  /** The text up to the first closing parenthesis, without the white space before it. */
  ghost predicate ReadsBare(css: string, start: nat, end: nat, close: nat) {
    && start <= end <= close < |css| && css[close] == ')' && ')' !in css[start..close]
    && (forall k :: end <= k < close ==> IsSpace(css[k])) && (start < end ==> !IsSpace(css[end - 1]))
  }

  /** What stands between the parentheses of `url(...)`: a string alone, or bare text. */
  ghost predicate ReadsValue(css: string, value: nat, token: Token) {
    && token.next > 0
    && var close := token.next - 1;
       if value < |css| && (css[value] == '"' || css[value] == '\'') then
         && ReadsString(css, value, token.start, token.end)
         && Skips(css, token.end + 1, close) && close < |css| && css[close] == ')'
       else token.start == value && ReadsBare(css, value, token.end, close)
  }

  ghost predicate OpensUrl(css: string, at: nat, open: nat) {
    Skips(css, at + 3, open) && open < |css| && css[open] == '('
  }

  /** `url` as a word of its own, a parenthesis, and a value in it. */
  ghost predicate ReadsUrl(css: string, at: nat, token: Token) {
    && ReadsWord(css, at, "url", "URL") && !NameAt(css, at - 1) && !NameAt(css, at + 3)
    && exists open: nat, value: nat ::
         OpensUrl(css, at, open) && Skips(css, open + 1, value) && ReadsValue(css, value, token)
  }

  /** `@import` as a word, and a string. */
  ghost predicate ReadsImport(css: string, at: nat, token: Token) {
    && at < |css| && css[at] == '@' && ReadsWord(css, at + 1, "import", "IMPORT") && !NameAt(css, at + 7)
    && token.next == token.end + 1
    && exists value: nat :: Skips(css, at + 7, value) && ReadsString(css, value, token.start, token.end)
  }

  ghost predicate Reads(css: string, at: nat, token: Token) { ReadsImport(css, at, token) || ReadsUrl(css, at, token) }

  lemma NamesAgree(css: string, at: int)
    ensures IsName(css, at) <==> NameAt(css, at)
  {
  }

  lemma WordsAgree(css: string, at: nat)
    ensures StartsWithWord(css, at, "url") <==> ReadsWord(css, at, "url", "URL")
    ensures StartsWithWord(css, at, "import") <==> ReadsWord(css, at, "import", "IMPORT")
  {
    hide NameAt;
    assert forall c :: Lower(c) == 'u' <==> c == 'u' || c == 'U';
  }

  lemma {:induction false} TriviaIsGap(css: string, from: nat)
    requires from <= |css|
    ensures Skips(css, from, Trivia(css, from))
    decreases |css| - from
  {
    if from < |css| && IsSpace(css[from]) {
      TriviaIsGap(css, from + 1);
    } else if StartsWith(css, from, "/*") {
      CommentEndMeaning(css, from + 2);
      TriviaIsGap(css, CommentEnd(css, from + 2));
    }
  }

  lemma CommentInGap(css: string, from: nat, to: nat) returns (e: nat)
    requires IsGap(css, from, to) && from != to
    requires !(from < to && from < |css| && IsSpace(css[from]) && IsGap(css, from + 1, to))
    ensures from < e <= to && StartsWith(css, from, "/*") && EndsComment(css, from + 2, e) && IsGap(css, e, to)
  {
    hide EndsComment, StartsWith, IsSpace;
    e :| from < e <= to && EndsComment(css, from + 2, e) && IsGap(css, e, to);
  }

  lemma {:induction false} GapIsTrivia(css: string, from: nat, to: nat)
    requires from <= |css| && Skips(css, from, to)
    ensures to == Trivia(css, from)
    decreases if from <= to then to - from else 0
  {
    hide EndsComment;
    if from != to {
      if from < to && from < |css| && IsSpace(css[from]) && IsGap(css, from + 1, to) {
        GapIsTrivia(css, from + 1, to);
      } else {
        assert IsGap(css, from, to);
        var e := CommentInGap(css, from, to);
        CommentEndMeaning(css, from + 2);
        CommentEndIsOne(css, from + 2, e, CommentEnd(css, from + 2));
        GapIsTrivia(css, e, to);
        assert css[from..][..2] == "/*" && css[from] == '/';
      }
    }
  }

  lemma TriviaSkips(css: string, from: nat, to: nat)
    requires from <= |css|
    ensures Skips(css, from, to) <==> to == Trivia(css, from)
  {
    TriviaIsGap(css, from);
    if Skips(css, from, to) { GapIsTrivia(css, from, to); }
  }

  lemma TriviaIsTheGap(css: string, from: nat)
    requires from <= |css|
    ensures forall to: nat :: Skips(css, from, to) <==> to == Trivia(css, from)
  {
    hide Skips, Trivia;
    forall to: nat ensures Skips(css, from, to) <==> to == Trivia(css, from) { TriviaSkips(css, from, to); }
  }

  lemma StringReads(css: string, at: nat, token: Token)
    requires IsQuote(css, at)
    ensures StringToken(css, at) == Some(token)
       <==> ReadsString(css, at, token.start, token.end) && token.next == token.end + 1
  {
    QuoteEndMeaning(css, css[at], at + 1);
    hide QuoteEnd;
    var end := QuoteEnd(css, css[at], at + 1);
    if ReadsString(css, at, token.start, token.end) && end.Some? {
      assert !(end.value < token.end) && !(token.end < end.value);
    }
  }

  lemma BareReads(css: string, value: nat, token: Token)
    requires value <= |css| && token.next > 0
    ensures token.start == value && ReadsBare(css, value, token.end, token.next - 1)
       <==> ParenEnd(css, value).Some? && token == Token(value, TrimEnd(css, value, ParenEnd(css, value).value),
                                                         ParenEnd(css, value).value + 1)
  {
    hide TrimEnd;
    var close := ParenEnd(css, value);
    NoParenBehind(css, value);
    if token.start == value && ReadsBare(css, value, token.end, token.next - 1) {
      assert close.Some?;
      assert close.value == token.next - 1;
    }
  }

  lemma {:induction false} NoParenBehind(css: string, at: nat)
    requires at <= |css|
    ensures ParenEnd(css, at).None? ==> ')' !in css[at..]
    ensures ParenEnd(css, at).Some? ==> forall k :: at <= k < ParenEnd(css, at).value ==> css[k] != ')'
    decreases |css| - at
  {
    if at < |css| && css[at] != ')' {
      NoParenBehind(css, at + 1);
      assert css[at..] == [css[at]] + css[at + 1..];
    }
  }

  lemma ValueReads(css: string, value: nat, token: Token)
    requires value <= |css|
    ensures ReadsValue(css, value, token) <==> UrlValue(css, value) == Some(token)
  {
    if IsQuote(css, value) {
      QuotedValueReads(css, value, token);
    } else if token.next > 0 {
      hide ReadsBare, TrimEnd, ParenEnd;
      BareReads(css, value, token);
    }
  }

  lemma QuotedValueReads(css: string, value: nat, token: Token)
    requires IsQuote(css, value)
    ensures ReadsValue(css, value, token) <==> UrlValue(css, value) == Some(token)
  {
    hide ReadsString, StringToken, Skips, Trivia, ReadsBare, ParenEnd, TrimEnd;
    var inner := token.(next := token.end + 1);
    StringReads(css, value, inner);
    StringFits(css, value, token.start, token.end);
    if StringToken(css, value).Some? { StringReads(css, value, StringToken(css, value).value); }
    if StringToken(css, value) == Some(inner) { TriviaIsTheGap(css, token.end + 1); }
  }

  lemma StringFits(css: string, at: nat, start: nat, end: nat)
    ensures ReadsString(css, at, start, end) ==> end < |css|
  {
  }

  lemma UrlReads(css: string, at: nat, token: Token)
    ensures ReadsUrl(css, at, token) <==> StartsUrl(css, at) && UrlToken(css, at) == Some(token)
  {
    hide ReadsValue, UrlValue, Trivia, Skips, StartsWithWord, ReadsWord, IsName, NameAt;
    WordsAgree(css, at);
    NamesAgree(css, at - 1);
    NamesAgree(css, at + 3);
    if StartsUrl(css, at) {
      LongEnough(css, at);
      var open := Trivia(css, at + 3);
      TriviaIsTheGap(css, at + 3);
      if open < |css| && css[open] == '(' {
        var value := Trivia(css, open + 1);
        TriviaIsTheGap(css, open + 1);
        ValueReads(css, value, token);
        assert OpensUrl(css, at, open);
      }
    }
  }

  lemma LongEnough(css: string, at: nat)
    requires StartsUrl(css, at)
    ensures at + 3 <= |css|
  {
  }

  lemma ImportReads(css: string, at: nat, token: Token)
    ensures ReadsImport(css, at, token) <==> StartsImport(css, at) && ImportToken(css, at) == Some(token)
  {
    hide Trivia, Skips, StartsWithWord, ReadsWord, IsName, NameAt, StringToken, ReadsString;
    WordsAgree(css, at + 1);
    NamesAgree(css, at + 7);
    if StartsImport(css, at) {
      LongImport(css, at);
      var value := Trivia(css, at + 7);
      TriviaIsTheGap(css, at + 7);
      if IsQuote(css, value) { StringReads(css, value, token); } else { NoString(css, value, token); }
    }
  }

  lemma LongImport(css: string, at: nat)
    requires StartsImport(css, at)
    ensures at + 7 <= |css|
  {
  }

  lemma NoString(css: string, at: nat, token: Token)
    requires !IsQuote(css, at)
    ensures !ReadsString(css, at, token.start, token.end)
  {
  }

  /** The scanner's token at a place is what a reader finds there. */
  lemma TokenReads(css: string, at: nat, token: Token)
    requires at < |css|
    ensures TokenAt(css, at) == Some(token) <==> Reads(css, at, token)
  {
    hide ReadsImport, ReadsUrl, ImportToken, UrlToken, IsName;
    ImportReads(css, at, token);
    UrlReads(css, at, token);
    assert !(StartsImport(css, at) && StartsUrl(css, at)) by { NotBoth(css, at); }
  }

  lemma NotBoth(css: string, at: nat)
    ensures !(StartsImport(css, at) && StartsUrl(css, at))
  {
    hide IsName;
    if StartsUrl(css, at) { assert "url"[0] == 'u'; }
  }

  /** What starts at `at`: a comment, a string, a reference, or none of them. */
  ghost predicate IsPiece(css: string, at: nat, piece: Piece)
    requires at < |css|
  {
    match piece
    case Comment(end) => StartsWith(css, at, "/*") && EndsComment(css, at + 2, end)
    case Quote(end) => IsQuote(css, at) && EndsString(css, at, end)
    case Reference(token) => !StartsWith(css, at, "/*") && !IsQuote(css, at) && Reads(css, at, token)
    case Plain => !StartsWith(css, at, "/*") && !IsQuote(css, at) && forall token :: !Reads(css, at, token)
  }

  /** The pieces make up the text from `at` on, one right behind the other. */
  ghost predicate Tiles(css: string, at: nat, pieces: seq<Piece>)
    decreases |pieces|
  {
    if pieces == [] then at == |css|
    else at < |css| && IsPiece(css, at, pieces[0]) && Tiles(css, PieceEnd(at, pieces[0]), pieces[1..])
  }

  function TokensOf(pieces: seq<Piece>): seq<Token> {
    if pieces == [] then []
    else (if pieces[0].Reference? then [pieces[0].token] else []) + TokensOf(pieces[1..])
  }

  lemma CommentEndIsOne(css: string, at: nat, end: nat, other: nat)
    requires EndsComment(css, at, end) && EndsComment(css, at, other)
    ensures end == other
  {
    hide StartsWith;
  }

  lemma StringEndIsOne(css: string, at: nat, end: nat, other: nat)
    requires IsQuote(css, at) && EndsString(css, at, end) && EndsString(css, at, other)
    ensures end == other
  {
    hide Backslashes;
  }

  /** What starts at a place is one piece only. */
  lemma PieceIsOne(css: string, at: nat, piece: Piece, other: Piece)
    requires at < |css| && IsPiece(css, at, piece) && IsPiece(css, at, other)
    ensures piece == other
  {
    hide Reads, EndsComment, EndsString;
    assert StartsWith(css, at, "/*") ==> css[at..at + 2][0] == css[at] == '/';
    match (piece, other)
    case (Comment(end), Comment(end')) => CommentEndIsOne(css, at + 2, end, end');
    case (Quote(end), Quote(end')) => StringEndIsOne(css, at, end, end');
    case (Reference(token), Reference(token')) =>
      TokenReads(css, at, token);
      TokenReads(css, at, token');
    case _ =>
  }

  /** The piece that the scanner steps over. */
  lemma NextPiece(css: string, at: nat) returns (piece: Piece)
    requires at < |css|
    ensures IsPiece(css, at, piece) && at < PieceEnd(at, piece) <= |css|
    ensures Scan(css, at)
         == (if piece.Reference? then [piece.token] else []) + Scan(css, PieceEnd(at, piece))
  {
    hide TokenAt, CommentEnd, QuoteEnd, EndsComment, Closes, Reads;
    forall token ensures TokenAt(css, at) == Some(token) <==> Reads(css, at, token) { TokenReads(css, at, token); }
    if StartsWith(css, at, "/*") {
      CommentEndMeaning(css, at + 2);
      piece := Comment(CommentEnd(css, at + 2));
    } else if IsQuote(css, at) {
      QuoteEndMeaning(css, css[at], at + 1);
      var token := StringToken(css, at);
      piece := Quote(if token.Some? then token.value.next else |css|);
    } else {
      piece := if TokenAt(css, at).Some? then Reference(TokenAt(css, at).value) else Plain;
    }
  }

  lemma {:induction false} ScanTiles(css: string, at: nat) returns (pieces: seq<Piece>)
    requires at <= |css|
    ensures Tiles(css, at, pieces) && TokensOf(pieces) == Scan(css, at)
    decreases |css| - at
  {
    hide IsPiece;
    if at == |css| {
      pieces := [];
    } else {
      var piece := NextPiece(css, at);
      hide Scan;
      var rest := ScanTiles(css, PieceEnd(at, piece));
      pieces := [piece] + rest;
      assert pieces[1..] == rest;
    }
  }

  lemma {:induction false} TilingIsOne(css: string, at: nat, pieces: seq<Piece>, others: seq<Piece>)
    requires Tiles(css, at, pieces) && Tiles(css, at, others)
    ensures pieces == others
    decreases |pieces|
  {
    hide IsPiece;
    if pieces != [] {
      PieceIsOne(css, at, pieces[0], others[0]);
      TilingIsOne(css, PieceEnd(at, pieces[0]), pieces[1..], others[1..]);
      assert pieces == [pieces[0]] + pieces[1..] && others == [others[0]] + others[1..];
    }
  }

  /**
   Every style sheet falls in one way only into comments, strings, references
   and single characters at which none of them starts, and the references
   found are exactly the references among these pieces: none lies in a comment
   or a string, and none outside them is missed.
   */
  lemma ReferencesAreThePieces(css: string) returns (pieces: seq<Piece>)
    ensures Tiles(css, 0, pieces) && References(css) == TokensOf(pieces)
    ensures forall others :: Tiles(css, 0, others) ==> others == pieces
  {
    hide Tiles, TokensOf, Scan;
    pieces := ScanTiles(css, 0);
    forall others | Tiles(css, 0, others) ensures others == pieces { TilingIsOne(css, 0, others, pieces); }
  }
}
