/**
 The read envelope that states its own size
 (crates/librepaper/src/agent_query.rs): `returned_bytes` and
 `returned_tokens` are fields of the value whose cost they give.
 */
module Envelope {
  import opened Basics
  import opened OffsetIndex

  datatype Json =
    | Null | Bool(b: bool) | Num(n: nat) | Str(s: Text)
    | Arr(items: seq<Json>) | Obj(fields: seq<Field>)

  datatype Field = Field(key: Text, value: Json)

  /** Decimal digits. */
  function Digits(n: nat): nat { if n < 10 then 1 else 1 + Digits(n / 10) }

  /** Bytes of one character inside an encoded string: short escapes, \u escapes, or UTF-8 as it is. */
  function CharBytes(c: CodePoint): (r: nat)
    ensures Width(c) <= r
  {
    if c == 34 || c == 92 || c == 8 || c == 9 || c == 10 || c == 12 || c == 13 then 2
    else if c < 32 then 6
    else Width(c)
  }

  function StringBytes(s: Text): nat { if s == [] then 0 else StringBytes(s[..|s| - 1]) + CharBytes(s[|s| - 1]) }

  /** Separators between `n` members. */
  function Commas(n: nat): nat { if n == 0 then 0 else n - 1 }

  /** The length of the compact encoding. */
  function Length(v: Json): nat
    decreases v, 1
  {
    match v
    case Null => 4
    case Bool(b) => if b then 4 else 5
    case Num(n) => Digits(n)
    case Str(s) => 2 + StringBytes(s)
    case Arr(items) => 2 + Commas(|items|) + ItemsLength(items)
    case Obj(fields) => 2 + Commas(|fields|) + FieldsLength(fields)
  }

  function ItemsLength(items: seq<Json>): nat
    decreases items, 0
  {
    if items == [] then 0 else Length(items[0]) + ItemsLength(items[1..])
  }

  /** Each field is a quoted key, a colon and a value. */
  function FieldsLength(fields: seq<Field>): nat
    decreases fields, 0
  {
    if fields == [] then 0
    else 2 + StringBytes(fields[0].key) + 1 + Length(fields[0].value) + FieldsLength(fields[1..])
  }

  function CeilQuarter(n: nat): nat { (n + 3) / 4 }

  /**
   `estimate_tokens`: a quarter of the characters of strings, a quarter of the bytes of keys, one
   for anything else.
   */
  function Tokens(v: Json): nat
    decreases v, 1
  {
    match v
    case Str(s) => if CeilQuarter(|s|) < 1 then 1 else CeilQuarter(|s|)
    case Arr(items) => ItemsTokens(items)
    case Obj(fields) => FieldsTokens(fields)
    case _ => 1
  }

  function ItemsTokens(items: seq<Json>): nat
    decreases items, 0
  {
    if items == [] then 0 else Tokens(items[0]) + ItemsTokens(items[1..])
  }

  function FieldsTokens(fields: seq<Field>): nat
    decreases fields, 0
  {
    if fields == [] then 0
    else CeilQuarter(|Encode(fields[0].key)|) + Tokens(fields[0].value) + FieldsTokens(fields[1..])
  }

  lemma {:induction false} StringBytesBound(s: Text)
    ensures |s| <= |Encode(s)| <= StringBytes(s)
  {
    if s != [] { StringBytesBound(s[..|s| - 1]); }
  }

  /** The token estimate never exceeds the encoded length. */
  lemma {:induction false} TokensAtMostBytes(v: Json)
    ensures Tokens(v) <= Length(v)
    decreases v, 1
  {
    match v
    case Str(s) => StringBytesBound(s);
    case Arr(items) => ItemsTokensAtMost(items);
    case Obj(fields) => FieldsTokensAtMost(fields);
    case _ =>
  }

  lemma {:induction false} ItemsTokensAtMost(items: seq<Json>)
    ensures ItemsTokens(items) <= ItemsLength(items)
    decreases items, 0
  {
    if items != [] {
      TokensAtMostBytes(items[0]);
      ItemsTokensAtMost(items[1..]);
    }
  }

  lemma {:induction false} FieldsTokensAtMost(fields: seq<Field>)
    ensures FieldsTokens(fields) <= FieldsLength(fields)
    decreases fields, 0
  {
    if fields != [] {
      StringBytesBound(fields[0].key);
      TokensAtMostBytes(fields[0].value);
      FieldsTokensAtMost(fields[1..]);
    }
  }

  // ----- Digits -----

  function Pow10(k: nat): nat { if k == 0 then 1 else 10 * Pow10(k - 1) }

  lemma {:induction false} DigitsBound(n: nat)
    ensures n < Pow10(Digits(n)) && (n > 0 ==> Pow10(Digits(n) - 1) <= n)
  {
    if n >= 10 { DigitsBound(n / 10); }
  }

  lemma {:induction false} Pow10Monotone(i: nat, j: nat)
    requires i <= j
    ensures Pow10(i) <= Pow10(j)
    decreases j
  {
    if i < j { Pow10Monotone(i, j - 1); }
  }

  lemma {:induction false} DigitsMonotone(m: nat, n: nat)
    requires m <= n
    ensures Digits(m) <= Digits(n)
  {
    if m >= 10 { DigitsMonotone(m / 10, n / 10); }
  }

  lemma DigitsExactly(n: nat, d: nat)
    requires d > 0 && Pow10(d - 1) <= n < Pow10(d)
    ensures Digits(n) == d
  {
    DigitsBound(n);
    if Digits(n) < d { Pow10Monotone(Digits(n), d - 1); }
    if d < Digits(n) { Pow10Monotone(d, Digits(n) - 1); }
  }

  lemma {:induction false} Pow10Grows(d: nat)
    ensures 2 * d < 9 * Pow10(d)
  {
    if d > 0 { Pow10Grows(d - 1); }
  }

  /** Writing the size of what has digits d0 changes that size by too little to change its digits twice. */
  lemma ThirdRoundSettles(rest: nat, tokens: nat)
    requires tokens <= rest + 2
    ensures var b0 := rest + 2;
            var b1 := rest + Digits(b0) + Digits(tokens);
            var b2 := rest + Digits(b1) + Digits(tokens);
            b2 == rest + Digits(b2) + Digits(tokens)
  {
    var b0 := rest + 2;
    var d := Digits(b0);
    var b1 := rest + d + Digits(tokens);
    DigitsMonotone(tokens, b0);
    DigitsBound(b0);
    Pow10Grows(d);
    assert b0 <= b1 <= b0 + 2 * d - 2 by { DigitsMonotone(0, tokens); DigitsMonotone(0, b0); }
    if b1 < Pow10(d) {
      DigitsMonotone(b0, b1);
      DigitsExactly(b1, d);
    } else {
      DigitsExactly(b1, d + 1);
      DigitsExactly(b1 + 1, d + 1);
    }
  }

  // ----- The envelope -----

  /** A key or a fixed text, all of whose characters are ASCII. */
  function Ascii(s: string): (t: Text)
    ensures |t| == |s|
  {
    seq(|s|, i requires 0 <= i < |s| => if s[i] as int < 0x80 then s[i] as int else 63)
  }

  datatype Budget = Budget(maxBytes: nat, maxTokens: nat)

  /** What the envelope says besides its own size; a missing reason or cursor is null. */
  datatype Contents = Contents(
    sourceRevision: Text, annotationRevision: nat, results: seq<Json>,
    complete: bool, reason: Option<Text>, cursor: Option<Text>)

  function OrNull(o: Option<Text>): Json { match o case Some(s) => Str(s) case None => Null }

  const COMPLETE: nat := 1

  const BYTES: nat := 4

  const TOKENS: nat := 5

  const REASON: nat := 7

  /** The envelope's fields, in the map's key order. */
  function Fields(c: Contents, bytes: nat, tokens: nat): (fields: seq<Field>)
    ensures |fields| == 8
  {
    [Field(Ascii("annotation_revision"), Num(c.annotationRevision)),
     Field(Ascii("complete"), Bool(c.complete)),
     Field(Ascii("next_cursor"), OrNull(c.cursor)),
     Field(Ascii("results"), Arr(c.results)),
     Field(Ascii("returned_bytes"), Num(bytes)),
     Field(Ascii("returned_tokens"), Num(tokens)),
     Field(Ascii("source_revision"), Str(c.sourceRevision)),
     Field(Ascii("truncation_reason"), OrNull(c.reason))]
  }

  function Set(fields: seq<Field>, i: nat, value: Json): (r: seq<Field>)
    requires i < |fields|
    ensures |r| == |fields|
  {
    fields[i := fields[i].(value := value)]
  }

  /** Replacing a value changes both costs by exactly the value's own. */
  lemma {:induction false} SetCost(fields: seq<Field>, i: nat, value: Json)
    requires i < |fields|
    ensures FieldsLength(Set(fields, i, value)) == FieldsLength(fields) - Length(fields[i].value) + Length(value)
    ensures FieldsTokens(Set(fields, i, value)) == FieldsTokens(fields) - Tokens(fields[i].value) + Tokens(value)
    decreases i
  {
    var next := Set(fields, i, value);
    if i > 0 {
      SetCost(fields[1..], i - 1, value);
      assert next[1..] == Set(fields[1..], i - 1, value);
    } else {
      assert next[1..] == fields[1..];
    }
  }

  /** The size fields cost their digits, and one token each whatever they say. */
  lemma SizeFieldsCost(c: Contents, bytes: nat, tokens: nat)
    ensures Length(Obj(Fields(c, bytes, tokens)))
         == Length(Obj(Fields(c, 0, 0))) - 2 + Digits(bytes) + Digits(tokens)
    ensures Tokens(Obj(Fields(c, bytes, tokens))) == Tokens(Obj(Fields(c, 0, 0)))
  {
    var f0 := Fields(c, 0, 0);
    var f1 := Set(f0, BYTES, Num(bytes));
    SetCost(f0, BYTES, Num(bytes));
    SetCost(f1, TOKENS, Num(tokens));
    assert Set(f1, TOKENS, Num(tokens)) == Fields(c, bytes, tokens);
  }

  /** `returned_bytes` after some rounds: each round writes the length of what the round before left. */
  function AfterRounds(rest: nat, tokens: nat, rounds: nat): nat {
    if rounds == 0 then 0
    else rest + Digits(AfterRounds(rest, tokens, rounds - 1)) + Digits(if rounds == 1 then 0 else tokens)
  }

  lemma RoundsSettle(rest: nat, tokens: nat)
    requires tokens <= rest + 2
    ensures AfterRounds(rest, tokens, 3) == rest + Digits(AfterRounds(rest, tokens, 3)) + Digits(tokens)
  {
    ThirdRoundSettles(rest, tokens);
    assert AfterRounds(rest, tokens, 1) == rest + 2;
    assert AfterRounds(rest, tokens, 2) == rest + Digits(rest + 2) + Digits(tokens);
  }

  /** After three rounds the two size fields are right. */
  lemma ThreeRoundsAreEnough(c: Contents)
    ensures var cost := Tokens(Obj(Fields(c, 0, 0)));
            Length(Obj(Fields(c, 0, 0))) >= 2 &&
            var bytes := AfterRounds(Length(Obj(Fields(c, 0, 0))) - 2, cost, 3);
            bytes == Length(Obj(Fields(c, bytes, cost))) && cost == Tokens(Obj(Fields(c, bytes, cost)))
  {
    ContentsHaveLength(c);
    var rest, cost := Length(Obj(Fields(c, 0, 0))) - 2, Tokens(Obj(Fields(c, 0, 0)));
    TokensAtMostBytes(Obj(Fields(c, 0, 0)));
    hide *;
    RoundsSettle(rest, cost);
    SizeFieldsCost(c, AfterRounds(rest, cost, 3), cost);
  }

  predicate Exceeds(v: Json, budget: Budget) { Length(v) > budget.maxBytes || Tokens(v) > budget.maxTokens }

  /** What going over a budget does to the contents. */
  function Truncated(c: Contents): Contents {
    c.(complete := false, reason := if c.reason.None? then Some(Ascii("budget")) else c.reason)
  }

  /** The contents the envelope ends up with. */
  function Final(c: Contents, budget: Budget, bytes: nat, tokens: nat): Contents {
    if Exceeds(Obj(Fields(c, bytes, tokens)), budget) then Truncated(c) else c
  }

  lemma SetsSizes(c: Contents, bytes: nat, tokens: nat, length: nat, estimate: nat)
    ensures Set(Set(Fields(c, bytes, tokens), BYTES, Num(length)), TOKENS, Num(estimate)) == Fields(c, length, estimate)
  {
  }

  /** Writes the two size fields three times over, each time from what is there. */
  method WriteSizes(c: Contents) returns (fields: seq<Field>)
    ensures fields == Fields(c, Length(Obj(fields)), Tokens(Obj(fields)))
  {
    hide FieldsLength, FieldsTokens, Digits, Set, Fields, Length, Tokens;
    fields := Fields(c, 0, 0);
    ThreeRoundsAreEnough(c);
    ghost var rest, cost := Length(Obj(fields)) - 2, Tokens(Obj(fields));
    ghost var bytes, tokens := 0, 0;
    for round := 0 to 3
      invariant |fields| == 8 && fields == Fields(c, bytes, tokens)
      invariant bytes == AfterRounds(rest, cost, round) && tokens == if round == 0 then 0 else cost
    {
      SizeFieldsCost(c, bytes, tokens);
      var length, estimate := Length(Obj(fields)), Tokens(Obj(fields));
      SetsSizes(c, bytes, tokens, length, estimate);
      fields := Set(Set(fields, BYTES, Num(length)), TOKENS, Num(estimate));
      bytes, tokens := length, estimate;
    }
  }

  /** The two size fields say what the envelope costs with them in it. */
  ghost predicate Settles(c: Contents, bytes: nat, tokens: nat) {
    bytes == Length(Obj(Fields(c, bytes, tokens))) && tokens == Tokens(Obj(Fields(c, bytes, tokens)))
  }

  /** The envelope states its size; three rounds are enough, whatever it holds. */
  method BuildEnvelope(c: Contents, budget: Budget) returns (value: Json)
    ensures exists bytes, tokens ::
      && Settles(c, bytes, tokens)
      && value == Obj(Fields(Final(c, budget, bytes, tokens), bytes, tokens))
  {
    hide Length, Tokens;
    var fields := WriteSizes(c);
    assert Settles(c, Length(Obj(fields)), Tokens(Obj(fields)));
    value := Obj(fields);
    if Exceeds(value, budget) {
      fields := Set(fields, COMPLETE, Bool(false));
      if fields[REASON].value == Null { fields := Set(fields, REASON, Str(Ascii("budget"))); }
      value := Obj(fields);
    }
  }

  lemma ContentsHaveLength(c: Contents)
    ensures Length(Obj(Fields(c, 0, 0))) >= 2
  {
  }

  /** Marking an envelope as truncated changes its size, unless it was incomplete with a reason already. */
  lemma TruncationCost(c: Contents, bytes: nat, tokens: nat)
    ensures Length(Obj(Fields(Truncated(c), bytes, tokens))) >= Length(Obj(Fields(c, bytes, tokens)))
    ensures Length(Obj(Fields(Truncated(c), bytes, tokens))) == Length(Obj(Fields(c, bytes, tokens)))
       <==> !c.complete && c.reason.Some?
  {
    var f0 := Fields(c, bytes, tokens);
    var f1 := Set(f0, COMPLETE, Bool(false));
    var reason := OrNull(Truncated(c).reason);
    TruncatedFields(c, bytes, tokens);
    hide Fields, FieldsLength, FieldsTokens, Set, StringBytes;
    SetCost(f0, COMPLETE, Bool(false));
    SetCost(f1, REASON, reason);
    StringBytesBound(Ascii("budget"));
  }

  lemma TruncatedFields(c: Contents, bytes: nat, tokens: nat)
    ensures var f0 := Fields(c, bytes, tokens);
      var f1 := Set(f0, COMPLETE, Bool(false));
      && f0[COMPLETE].value == Bool(c.complete) && f1[REASON].value == OrNull(c.reason)
      && Set(f1, REASON, OrNull(Truncated(c).reason)) == Fields(Truncated(c), bytes, tokens)
  {
  }

  /**
   The stated byte count is the length of the envelope itself exactly when both
   budgets hold, or when the envelope was incomplete with a reason before its
   size was checked.
   */
  lemma StatesItsSize(c: Contents, budget: Budget, bytes: nat, tokens: nat)
    requires bytes == Length(Obj(Fields(c, bytes, tokens)))
    ensures Length(Obj(Fields(Final(c, budget, bytes, tokens), bytes, tokens))) == bytes
       <==> !Exceeds(Obj(Fields(c, bytes, tokens)), budget) || (!c.complete && c.reason.Some?)
  {
    TruncationCost(c, bytes, tokens);
  }

  /** An envelope over its budget, complete until then: it says fewer bytes than it has. */
  lemma OverBudgetUnderstates() returns (c: Contents, budget: Budget, bytes: nat, tokens: nat)
    ensures bytes == Length(Obj(Fields(c, bytes, tokens))) && Exceeds(Obj(Fields(c, bytes, tokens)), budget)
    ensures Length(Obj(Fields(Final(c, budget, bytes, tokens), bytes, tokens))) > bytes
  {
    hide Length, Tokens, Fields, AfterRounds;
    c := Contents([], 0, [], true, None, None);
    budget := Budget(0, 0);
    ThreeRoundsAreEnough(c);
    tokens := Tokens(Obj(Fields(c, 0, 0)));
    bytes := AfterRounds(Length(Obj(Fields(c, 0, 0))) - 2, tokens, 3);
    ContentsHaveLength(c);
    SizeFieldsCost(c, bytes, tokens);
    TruncationCost(c, bytes, tokens);
  }
}
