/**
 The compact text of a JSON value, byte by byte as in RFC 8259, and what the
 cost functions of the envelope say about it
 (crates/librepaper/src/agent_query.rs, `encoded_cost` and `estimate_tokens`).
 */
module JsonText {
  import opened Basics
  import opened Envelope
  import opened OffsetIndex

  function HexDigit(n: nat): int { if n < 10 then 48 + n else 87 + n }

  /** One character of a string: an escape of two or six bytes where section 7 asks for one. */
  function EncodedChar(c: CodePoint): seq<int> {
    match c
    case 34 => [92, 34]
    case 92 => [92, 92]
    case 8 => [92, 98]
    case 9 => [92, 116]
    case 10 => [92, 110]
    case 12 => [92, 102]
    case 13 => [92, 114]
    case _ => if c < 32 then [92, 117, 48, 48, HexDigit(c / 16), HexDigit(c % 16)] else Utf8(c)
  }

  function EncodedChars(s: Text): seq<int> {
    if s == [] then [] else EncodedChars(s[..|s| - 1]) + EncodedChar(s[|s| - 1])
  }

  function Quoted(s: Text): seq<int> { [34] + EncodedChars(s) + [34] }

  function Decimal(n: nat): seq<int> { if n < 10 then [48 + n] else Decimal(n / 10) + [48 + n % 10] }

  function Encoded(v: Json): seq<int>
    decreases v, 1
  {
    match v
    case Null => [110, 117, 108, 108]
    case Bool(b) => if b then [116, 114, 117, 101] else [102, 97, 108, 115, 101]
    case Num(n) => Decimal(n)
    case Str(s) => Quoted(s)
    case Arr(items) => [91] + EncodedItems(items) + [93]
    case Obj(fields) => [123] + EncodedFields(fields) + [125]
  }

  /** The items with a comma between two. */
  function EncodedItems(items: seq<Json>): seq<int>
    decreases items, 0
  {
    if items == [] then []
    else Encoded(items[0]) + if |items| == 1 then [] else [44] + EncodedItems(items[1..])
  }

  function EncodedFields(fields: seq<Field>): seq<int>
    decreases fields, 0
  {
    if fields == [] then []
    else
      Quoted(fields[0].key) + [58] + Encoded(fields[0].value)
      + if |fields| == 1 then [] else [44] + EncodedFields(fields[1..])
  }

  lemma CharLength(c: CodePoint)
    ensures |EncodedChar(c)| == CharBytes(c)
  {
  }

  lemma {:induction false} CharsLength(s: Text)
    ensures |EncodedChars(s)| == StringBytes(s)
  {
    if s != [] {
      CharsLength(s[..|s| - 1]);
      CharLength(s[|s| - 1]);
    }
  }

  lemma {:induction false} DecimalLength(n: nat)
    ensures |Decimal(n)| == Digits(n)
  {
    if n >= 10 { DecimalLength(n / 10); }
  }

  /** The length is that of the compact text. */
  lemma {:induction false} LengthIsOfText(v: Json)
    ensures |Encoded(v)| == Length(v)
    decreases v, 1
  {
    match v
    case Null =>
    case Bool(_) =>
    case Num(n) => DecimalLength(n);
    case Str(s) => CharsLength(s);
    case Arr(items) => ItemsLengthIs(items);
    case Obj(fields) => FieldsLengthIs(fields);
  }

  lemma {:induction false} ItemsLengthIs(items: seq<Json>)
    ensures |EncodedItems(items)| == Commas(|items|) + ItemsLength(items)
    decreases items, 0
  {
    if items != [] {
      LengthIsOfText(items[0]);
      ItemsLengthIs(items[1..]);
    }
  }

  lemma {:induction false} FieldsLengthIs(fields: seq<Field>)
    ensures |EncodedFields(fields)| == Commas(|fields|) + FieldsLength(fields)
    decreases fields, 0
  {
    if fields != [] {
      CharsLength(fields[0].key);
      LengthIsOfText(fields[0].value);
      FieldsLengthIs(fields[1..]);
    }
  }

  // ----- The estimate -----

  /** A string costs a quarter of its characters, rounded up, and at least one; other plain values cost one. */
  lemma PlainTokens(v: Json)
    requires !v.Arr? && !v.Obj?
    ensures Tokens(v) >= 1 && (Tokens(v) > 1 ==> v.Str?)
    ensures v.Str? ==> 4 * Tokens(v) >= |v.s| && (Tokens(v) > 1 ==> 4 * (Tokens(v) - 1) < |v.s|)
  {
  }

  /** Arrays and objects cost what their parts cost, and a key costs a quarter of its bytes, rounded up. */
  lemma {:induction false} ArrayTokens(items: seq<Json>, more: seq<Json>)
    ensures Tokens(Arr([])) == 0
    ensures Tokens(Arr(items + more)) == Tokens(Arr(items)) + Tokens(Arr(more))
    ensures |items| == 1 ==> Tokens(Arr(items)) == Tokens(items[0])
    decreases items
  {
    if items == [] {
      assert items + more == more;
    } else {
      assert (items + more)[1..] == items[1..] + more;
      ArrayTokens(items[1..], more);
    }
  }

  lemma {:induction false} ObjectTokens(fields: seq<Field>, more: seq<Field>)
    ensures Tokens(Obj([])) == 0
    ensures Tokens(Obj(fields + more)) == Tokens(Obj(fields)) + Tokens(Obj(more))
    ensures |fields| == 1 ==>
              var key, own := |Encode(fields[0].key)|, Tokens(Obj(fields)) - Tokens(fields[0].value);
              key <= 4 * own < key + 4
    decreases fields
  {
    if fields == [] {
      assert fields + more == more;
    } else {
      assert (fields + more)[1..] == fields[1..] + more;
      ObjectTokens(fields[1..], more);
    }
  }

  /** An envelope is over its budget when its text is too long or its estimate too high. */
  lemma ExceedsMeans(v: Json, budget: Budget)
    ensures Exceeds(v, budget) <==> |Encoded(v)| > budget.maxBytes || budget.maxTokens < Tokens(v)
  {
    LengthIsOfText(v);
  }
}
