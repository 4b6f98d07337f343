/**
 Line and column of a byte offset (crates/librepaper/src/agent_query.rs): the
 direct count over the UTF-8 bytes, and the sparse checkpoint index.

 Text is a sequence of code points, encoded as in section 3 of RFC 3629.
 */
module OffsetIndex {
  import opened Basics

  type CodePoint = c: int | 0 <= c < 0x11_0000

  type Text = seq<CodePoint>

  const NEWLINE: CodePoint := 10

  function Utf8(c: CodePoint): (bytes: seq<int>)
    ensures 1 <= |bytes| <= 4
  {
    if c < 0x80 then [c]
    else if c < 0x800 then [0xC0 + c / 64, 0x80 + c % 64]
    else if c < 0x1_0000 then [0xE0 + c / 4096, 0x80 + c / 64 % 64, 0x80 + c % 64]
    else [0xF0 + c / 26_2144, 0x80 + c / 4096 % 64, 0x80 + c / 64 % 64, 0x80 + c % 64]
  }

  function Width(c: CodePoint): nat { |Utf8(c)| }

  function Encode(t: Text): seq<int> {
    if t == [] then [] else Encode(t[..|t| - 1]) + Utf8(t[|t| - 1])
  }

  /** The byte offset of character i. */
  function ByteAt(t: Text, i: nat): nat
    requires i <= |t|
  {
    |Encode(t[..i])|
  }

  function Newlines(t: Text): nat {
    if t == [] then 0 else Newlines(t[..|t| - 1]) + if t[|t| - 1] == NEWLINE then 1 else 0
  }

  function NewlineBytes(bytes: seq<int>): nat {
    if bytes == [] then 0 else NewlineBytes(bytes[..|bytes| - 1]) + if bytes[|bytes| - 1] == 10 then 1 else 0
  }

  /** The index of the first character of the line that ends the text. */
  function LineStart(t: Text): nat {
    if t == [] then 0 else if t[|t| - 1] == NEWLINE then |t| else LineStart(t[..|t| - 1])
  }

  datatype Position = Position(line: nat, column: nat)

  /** Line and column after a whole prefix, counted from 1. */
  function PositionAfter(t: Text): (p: Position)
  {
    LineStartBound(t);
    Position(Newlines(t) + 1, |t| - LineStart(t) + 1)
  }

  lemma {:induction false} LineStartBound(t: Text)
    ensures LineStart(t) <= |t|
  {
    if t != [] { LineStartBound(t[..|t| - 1]); }
  }

  // ----- What encoding and position mean -----

  ghost predicate IsContinuation(b: int) { 0x80 <= b < 0xC0 }

  /** The shortest encoding of the code point, by the table in section 3 of RFC 3629. */
  ghost predicate IsUtf8(bytes: seq<int>, c: CodePoint) {
    match |bytes|
    case 1 => bytes[0] == c < 0x80
    case 2 =>
      && 0xC0 <= bytes[0] < 0xE0 && IsContinuation(bytes[1]) && 0x80 <= c
      && c == (bytes[0] - 0xC0) * 64 + bytes[1] - 0x80
    case 3 =>
      && 0xE0 <= bytes[0] < 0xF0 && IsContinuation(bytes[1]) && IsContinuation(bytes[2]) && 0x800 <= c
      && c == (bytes[0] - 0xE0) * 4096 + (bytes[1] - 0x80) * 64 + bytes[2] - 0x80
    case 4 =>
      && 0xF0 <= bytes[0] < 0xF8 && 0x1_0000 <= c
      && IsContinuation(bytes[1]) && IsContinuation(bytes[2]) && IsContinuation(bytes[3])
      && c == (bytes[0] - 0xF0) * 262144 + (bytes[1] - 0x80) * 4096 + (bytes[2] - 0x80) * 64 + bytes[3] - 0x80
    case _ => false
  }

  lemma Base64(c: nat)
    ensures c == c / 64 * 64 + c % 64 && 0 <= c % 64 < 64
    ensures c / 64 / 64 == c / 4096
  {
  }

  lemma Base64Twice(c: nat)
    ensures c / 4096 / 64 == c / 262144
  {
  }

  lemma Utf8Means(c: CodePoint)
    ensures IsUtf8(Utf8(c), c)
  {
    var n: nat := c;
    Base64(n);
    Base64(n / 64);
    Base64(n / 4096);
    Base64Twice(n);
    if 0x80 <= n < 0x800 {
      assert 2 <= n / 64 < 32;
    } else if 0x800 <= n < 0x1_0000 {
      assert n / 4096 < 16;
    } else if 0x1_0000 <= n {
      assert n / 262144 < 8;
    }
  }

  /** A text's encoding is that of its characters, one behind the other. */
  lemma EncodeMeans(t: Text, i: nat)
    requires i < |t|
    ensures ByteAt(t, i) + Width(t[i]) == ByteAt(t, i + 1) <= |Encode(t)|
    ensures Encode(t)[ByteAt(t, i)..ByteAt(t, i + 1)] == Utf8(t[i])
  {
    hide Utf8;
    ByteAtStep(t, i);
    EncodePrefix(t, i + 1);
    assert t[..i + 1][..i] == t[..i];
    var all, part := Encode(t), Encode(t[..i + 1]);
    assert part == Encode(t[..i]) + Utf8(t[i]);
    assert all[ByteAt(t, i)..ByteAt(t, i + 1)] == all[..ByteAt(t, i + 1)][ByteAt(t, i)..];
  }

  /** Line and column are one more than the newlines in front and the characters since the last of them. */
  lemma {:induction false} PositionMeans(t: Text)
    ensures var p := PositionAfter(t);
      && p.line == multiset(t)[NEWLINE] + 1 && 1 <= p.column <= |t| + 1
      && var start := |t| + 1 - p.column;
         NEWLINE !in t[start..] && (start == 0 || t[start - 1] == NEWLINE)
    decreases |t|
  {
    if t != [] {
      var front, last := t[..|t| - 1], t[|t| - 1];
      PositionMeans(front);
      assert t == front + [last];
      LineStartBound(front);
      if last != NEWLINE { assert t[LineStart(t)..] == front[LineStart(t)..] + [last]; }
    }
  }

  // ----- The direct count -----

  /** The position in bytes of the last newline, or none. */
  function LastNewline(bytes: seq<int>): int {
    if bytes == [] then -1
    else if bytes[|bytes| - 1] == 10 then |bytes| - 1
    else LastNewline(bytes[..|bytes| - 1])
  }

  /** The characters whose encodings lie between two byte offsets. */
  function SliceBytes(t: Text, from: int, to: int): Text {
    if t == [] then []
    else
      var last := ByteAt(t, |t| - 1);
      SliceBytes(t[..|t| - 1], from, to) + if from <= last && last + Width(t[|t| - 1]) <= to then [t[|t| - 1]] else []
  }

  /** `source_position`: newline bytes before the offset, then characters since the last one. */
  function SourcePosition(t: Text, offset: nat): Position
    requires offset <= |Encode(t)|
  {
    var before := Encode(t)[..offset];
    var lineStart := LastNewline(before) + 1;
    Position(NewlineBytes(before) + 1, |SliceBytes(t, lineStart, offset)| + 1)
  }

  lemma NewlineBytesConcat(x: seq<int>, y: seq<int>)
    ensures NewlineBytes(x + y) == NewlineBytes(x) + NewlineBytes(y)
  {
    if y == [] {
      assert x + y == x;
    } else {
      assert (x + y)[..|x + y| - 1] == x + y[..|y| - 1];
      NewlineBytesConcat(x, y[..|y| - 1]);
    }
  }

  lemma {:induction false} NoNewlineBytes(y: seq<int>)
    requires forall k :: 0 <= k < |y| ==> y[k] != 10
    ensures NewlineBytes(y) == 0
  {
    if y != [] { NoNewlineBytes(y[..|y| - 1]); }
  }

  lemma {:induction false} LastNewlineConcat(x: seq<int>, y: seq<int>)
    requires forall k :: 0 <= k < |y| ==> y[k] != 10
    ensures LastNewline(x + y) == LastNewline(x)
  {
    if y == [] {
      assert x + y == x;
    } else {
      assert (x + y)[..|x + y| - 1] == x + y[..|y| - 1];
      LastNewlineConcat(x, y[..|y| - 1]);
    }
  }

  /** No byte of a multi-byte encoding is a newline. */
  lemma OnlyNewlineIsNewline(c: CodePoint)
    ensures c != NEWLINE ==> forall k :: 0 <= k < |Utf8(c)| ==> Utf8(c)[k] != 10
  {
  }

  /** Counting newline bytes counts newlines, and the last newline byte ends the previous line. */
  lemma {:induction false} BytesSeeLines(t: Text)
    ensures NewlineBytes(Encode(t)) == Newlines(t)
    ensures LineStart(t) <= |t| && LastNewline(Encode(t)) + 1 == ByteAt(t, LineStart(t))
  {
    LineStartBound(t);
    if t != [] {
      var front, c := t[..|t| - 1], t[|t| - 1];
      BytesSeeLines(front);
      NewlineBytesConcat(Encode(front), Utf8(c));
      OnlyNewlineIsNewline(c);
      if c == NEWLINE {
        assert Utf8(c) == [10] && [10][..0] == [];
        assert NewlineBytes([10]) == 1;
        assert t[..|t|] == t;
      } else {
        NoNewlineBytes(Utf8(c));
        LastNewlineConcat(Encode(front), Utf8(c));
        assert front[..LineStart(front)] == t[..LineStart(front)];
      }
    } else {
      assert t[..0] == [];
    }
  }

  lemma {:induction false} ByteAtMonotone(t: Text, i: nat, j: nat)
    requires i < j <= |t|
    ensures ByteAt(t, i) + Width(t[i]) <= ByteAt(t, j)
  {
    assert t[..j][..j - 1] == t[..j - 1];
    if i < j - 1 { ByteAtMonotone(t, i, j - 1); }
  }

  lemma ByteAtStep(t: Text, i: nat)
    requires i < |t|
    ensures ByteAt(t, i + 1) == ByteAt(t, i) + Width(t[i])
  {
    assert t[..i + 1][..i] == t[..i];
  }

  /** Between the offsets of two characters lie exactly the characters between them. */
  lemma {:induction false} SliceBetween(t: Text, i: nat, j: nat)
    requires i <= j <= |t|
    ensures SliceBytes(t, ByteAt(t, i), ByteAt(t, j)) == t[i..j]
  {
    SliceUpTo(t, i, j, ByteAt(t, j));
  }

  lemma SliceLast(t: Text, i: nat)
    requires i < |t|
    ensures t[..|t| - 1][i..|t| - 1] + [t[|t| - 1]] == t[i..|t|]
  {
  }

  /** The same, for any upper offset that falls short of no byte of t[..j] and reaches past no later character. */
  lemma {:induction false} SliceUpTo(t: Text, i: nat, j: nat, to: int)
    requires i <= j <= |t| && ByteAt(t, j) <= to && (j < |t| ==> to == ByteAt(t, j))
    ensures SliceBytes(t, ByteAt(t, i), to) == t[i..j]
  {
    hide Utf8, Encode;
    if t != [] {
      var n := |t| - 1;
      var front := t[..n];
      ByteAtStep(t, n);
      assert t[..|t|] == t && front[..n] == front;
      if i <= n {
        assert front[..i] == t[..i];
        if i < n { ByteAtMonotone(t, i, n); }
        if j <= n {
          assert front[..j] == t[..j];
          SliceUpTo(front, i, j, to);
          if j < n { ByteAtMonotone(t, j, n); }
          assert front[i..j] == t[i..j];
        } else {
          SliceUpTo(front, i, n, to);
          SliceLast(t, i);
        }
      } else {
        SliceNone(front, ByteAt(t, i), to);
      }
    }
  }

  lemma {:induction false} SliceNone(t: Text, from: int, to: int)
    requires ByteAt(t, |t|) <= from
    ensures SliceBytes(t, from, to) == []
  {
    hide Utf8;
    if t != [] {
      var n := |t| - 1;
      ByteAtStep(t, n);
      assert t[..n][..n] == t[..n] && t[..|t|] == t;
      SliceNone(t[..n], from, to);
    }
  }

  lemma EncodePrefix(t: Text, i: nat)
    requires i <= |t|
    ensures ByteAt(t, i) <= |Encode(t)| && Encode(t)[..ByteAt(t, i)] == Encode(t[..i])
    decreases |t| - i
  {
    if i == |t| {
      assert t[..i] == t;
    } else {
      EncodePrefix(t, i + 1);
      assert t[..i + 1][..i] == t[..i];
      assert Encode(t[..i + 1])[..ByteAt(t, i)] == Encode(t[..i]);
    }
  }

  /** The direct count means line and column, in characters, of the text before the offset. */
  lemma SourcePositionMeaning(t: Text, i: nat)
    requires i <= |t|
    ensures ByteAt(t, i) <= |Encode(t)| && SourcePosition(t, ByteAt(t, i)) == PositionAfter(t[..i])
  {
    hide SliceBytes, Encode, Newlines, NewlineBytes, LastNewline, LineStart;
    var prefix, start := t[..i], LineStart(t[..i]);
    EncodePrefix(t, i);
    BytesSeeLines(prefix);
    PrefixBytes(t, i, start);
    SliceBetween(t, start, i);
    SliceLength(t, start, i);
  }

  lemma PrefixBytes(t: Text, i: nat, k: nat)
    requires k <= i <= |t|
    ensures ByteAt(t[..i], k) == ByteAt(t, k)
  {
    assert t[..i][..k] == t[..k];
  }

  lemma SliceLength(t: Text, i: nat, j: nat)
    requires i <= j <= |t|
    ensures |t[i..j]| == j - i
  {
  }

  // ----- The sparse index -----

  datatype Checkpoint = Checkpoint(byte: nat, chars: nat, line: nat, lineStartChars: nat)

  const MAX_OFFSET_ITEMS := 65536

  /** The checkpoint is what the scan knows after its first `chars` characters. */
  ghost predicate Right(t: Text, c: Checkpoint) {
    && c.chars <= |t| && c.byte == ByteAt(t, c.chars)
    && c.line == Newlines(t[..c.chars]) + 1 && c.lineStartChars == LineStart(t[..c.chars])
  }

  ghost predicate GoodIndex(t: Text, cs: seq<Checkpoint>) {
    && cs != [] && cs[0] == Checkpoint(0, 0, 1, 0)
    && (forall k :: 0 <= k < |cs| ==> Right(t, cs[k]))
    && (forall k, l :: 0 <= k < l < |cs| ==> cs[k].chars < cs[l].chars)
  }

  /** One more character, as the scanners count it. */
  lemma CountsOn(t: Text, i: nat)
    requires i < |t|
    ensures Newlines(t[..i + 1]) == Newlines(t[..i]) + if t[i] == NEWLINE then 1 else 0
    ensures LineStart(t[..i + 1]) == if t[i] == NEWLINE then i + 1 else LineStart(t[..i])
    ensures ByteAt(t, i + 1) == ByteAt(t, i) + Width(t[i])
  {
    assert t[..i + 1][..i] == t[..i];
    ByteAtStep(t, i);
  }

  lemma AppendCheckpoint(t: Text, cs: seq<Checkpoint>, c: Checkpoint)
    requires GoodIndex(t, cs) && Right(t, c) && cs[|cs| - 1].chars < c.chars
    ensures GoodIndex(t, cs + [c])
  {
    hide Right;
    forall k | 0 <= k < |cs| ensures cs[k].chars < c.chars {
      assert cs[k].chars <= cs[|cs| - 1].chars;
    }
  }

  lemma RightHere(t: Text, i: nat, line: nat, lineStart: nat)
    requires i <= |t| && line == Newlines(t[..i]) + 1 && lineStart == LineStart(t[..i])
    ensures Right(t, Checkpoint(ByteAt(t, i), i, line, lineStart))
  {
  }

  lemma StartsAtZero(t: Text)
    ensures ByteAt(t, 0) == 0 && Newlines(t[..0]) == 0 && LineStart(t[..0]) == 0
  {
    assert t[..0] == [];
  }

  lemma Mod256(i: nat)
    ensures (i + 1) % 256 == if i % 256 == 255 then 0 else i % 256 + 1
  {
  }

  lemma FirstCheckpoint(t: Text)
    ensures GoodIndex(t, [Checkpoint(0, 0, 1, 0)])
  {
    assert t[..0] == [];
  }

  /** Checkpoint `k` stands 256 * k characters into the text. */
  ghost predicate EvenlySpaced(cs: seq<Checkpoint>) { forall k :: 0 <= k < |cs| ==> cs[k].chars == 256 * k }

  lemma OneMoreSpaced(cs: seq<Checkpoint>, c: Checkpoint)
    requires EvenlySpaced(cs) && c.chars == 256 * |cs|
    ensures EvenlySpaced(cs + [c])
  {
  }

  lemma LastSpaced(cs: seq<Checkpoint>, i: nat)
    requires EvenlySpaced(cs) && cs != [] && cs[|cs| - 1].chars == i - i % 256 && (i + 1) % 256 == 0
    ensures i + 1 == 256 * |cs|
  {
  }

  /** A checkpoint every 256 characters, until the table is full. */
  method ScanOffsets(t: Text) returns (checkpoints: seq<Checkpoint>)
    ensures GoodIndex(t, checkpoints) && EvenlySpaced(checkpoints) && |checkpoints| <= MAX_OFFSET_ITEMS
    ensures checkpoints != [] && |checkpoints| < MAX_OFFSET_ITEMS ==> |t| - checkpoints[|checkpoints| - 1].chars < 256
  {
    hide GoodIndex, EvenlySpaced, Right, ByteAt;
    checkpoints := [Checkpoint(0, 0, 1, 0)];
    FirstCheckpoint(t);
    OneMoreSpaced([], checkpoints[0]);
    assert [] + [checkpoints[0]] == checkpoints;
    var chars, line, lineStartChars, byte := 0, 1, 0, 0;
    StartsAtZero(t);
    for i := 0 to |t|
      invariant chars == i && byte == ByteAt(t, i)
      invariant line == Newlines(t[..i]) + 1 && lineStartChars == LineStart(t[..i])
      invariant GoodIndex(t, checkpoints) && 0 < |checkpoints| <= MAX_OFFSET_ITEMS
      invariant EvenlySpaced(checkpoints) && checkpoints[|checkpoints| - 1].chars <= i
      invariant |checkpoints| < MAX_OFFSET_ITEMS ==> checkpoints[|checkpoints| - 1].chars == i - i % 256
    {
      hide Utf8, Newlines, LineStart, Encode;
      CountsOn(t, i);
      Mod256(i);
      chars := chars + 1;
      if t[i] == NEWLINE {
        line := line + 1;
        lineStartChars := chars;
      }
      byte := byte + Width(t[i]);
      if chars % 256 == 0 && |checkpoints| < MAX_OFFSET_ITEMS {
        LastSpaced(checkpoints, i);
        RightHere(t, i + 1, line, lineStartChars);
        AppendCheckpoint(t, checkpoints, Checkpoint(byte, chars, line, lineStartChars));
        OneMoreSpaced(checkpoints, Checkpoint(byte, chars, line, lineStartChars));
        checkpoints := checkpoints + [Checkpoint(byte, chars, line, lineStartChars)];
      }
    }
  }

  lemma BytesOrderChars(t: Text, i: nat, j: nat)
    requires i <= |t| && j <= |t|
    ensures i <= j <==> ByteAt(t, i) <= ByteAt(t, j)
  {
    if i < j { ByteAtMonotone(t, i, j); }
    if j < i { ByteAtMonotone(t, j, i); }
  }

  /** How many leading checkpoints do not lie past the offset, by binary search. */
  method PartitionPoint(t: Text, cs: seq<Checkpoint>, at: nat) returns (n: nat)
    requires GoodIndex(t, cs)
    ensures n <= |cs|
    ensures forall k :: 0 <= k < n ==> cs[k].byte <= at
    ensures forall k :: n <= k < |cs| ==> at < cs[k].byte
  {
    var lo, hi := 0, |cs|;
    while lo < hi
      invariant 0 <= lo <= hi <= |cs|
      invariant forall k :: 0 <= k < lo ==> cs[k].byte <= at
      invariant forall k :: hi <= k < |cs| ==> at < cs[k].byte
    {
      var mid := (lo + hi) / 2;
      if cs[mid].byte <= at {
        forall k | 0 <= k <= mid ensures cs[k].byte <= at { BytesOrderChars(t, cs[k].chars, cs[mid].chars); }
        lo := mid + 1;
      } else {
        forall k | mid <= k < |cs| ensures at < cs[k].byte { BytesOrderChars(t, cs[mid].chars, cs[k].chars); }
        hi := mid;
      }
    }
    n := lo;
  }

  /** Counts on from a right checkpoint to the offset of character i. */
  method CountFrom(t: Text, c: Checkpoint, at: nat, ghost i: nat) returns (p: Position)
    requires Right(t, c) && c.chars <= i <= |t| && at == ByteAt(t, i)
    ensures p == PositionAfter(t[..i])
  {
    hide Newlines, LineStart, Encode, SliceBytes, ByteAt;
    var line, lineStartChars, chars := c.line, c.lineStartChars, c.chars;
    var between := SliceBytes(t, c.byte, at);
    SliceBetween(t, c.chars, i);
    for k := 0 to |between|
      invariant chars == c.chars + k
      invariant line == Newlines(t[..chars]) + 1 && lineStartChars == LineStart(t[..chars])
    {
      CountsOn(t, chars);
      assert between[k] == t[chars];
      chars := chars + 1;
      if between[k] == NEWLINE {
        line := line + 1;
        lineStartChars := chars;
      }
    }
    LineStartBound(t[..i]);
    p := Position(line, if chars >= lineStartChars then chars - lineStartChars + 1 else 1);
  }

  /**
   Line and column of a byte offset through the index; `i` is the character
   the offset belongs to.  With the index or without it, full or not, the
   answer is the direct count's.
   */
  method IndexedPosition(t: Text, offsets: Option<seq<Checkpoint>>, at: nat, ghost i: nat) returns (p: Position)
    requires i <= |t| && at == ByteAt(t, i)
    requires offsets.Some? ==> GoodIndex(t, offsets.value)
    ensures at <= |Encode(t)| && p == SourcePosition(t, at) == PositionAfter(t[..i])
  {
    SourcePositionMeaning(t, i);
    if offsets.None? { return SourcePosition(t, at); }
    var checkpoints := offsets.value;
    var n := PartitionPoint(t, checkpoints, at);
    var checkpoint := checkpoints[if n > 0 then n - 1 else 0];
    if checkpoint.byte < at && checkpoints[|checkpoints| - 1].byte < at && |checkpoints| >= MAX_OFFSET_ITEMS {
      return SourcePosition(t, at);
    }
    BytesOrderChars(t, checkpoint.chars, i);
    p := CountFrom(t, checkpoint, at, i);
  }
}
