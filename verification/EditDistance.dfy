/**
 Edit scripts over projection tokens, and the distance between two token lists.

 `Equal` is the token comparison of the display diff.  It is symmetric but not
 reflexive: a token marked not comparable equals nothing, not even itself.  No
 result in this module uses reflexivity or transitivity.
 */
module EditDistance {
  import opened Basics

  /** A projection token; `comparable` is false only where the program says `comparable: false`. */
  datatype Token = Token(kind: string, value: string, comparable: bool)

  predicate Equal(a: Token, b: Token) {
    a.comparable && b.comparable && a.kind == b.kind && a.value == b.value
  }

  /** Tokens are equal when they are the same and can be compared at all. */
  lemma EqualMeans(a: Token, b: Token)
    ensures Equal(a, b) <==> a == b && a.comparable
  {
  }

  datatype Op = Keep | Delete | Insert

  /** The script `s`, read from the left, turns all of `a` into all of `b`. */
  ghost predicate Transforms(s: seq<Op>, a: seq<Token>, b: seq<Token>)
    decreases |s|
  {
    if s == [] then a == [] && b == []
    else match s[0]
      case Keep => a != [] && b != [] && Equal(a[0], b[0]) && Transforms(s[1..], a[1..], b[1..])
      case Delete => a != [] && Transforms(s[1..], a[1..], b)
      case Insert => b != [] && Transforms(s[1..], a, b[1..])
  }

  /** The number of tokens a script deletes or inserts. */
  function Cost(s: seq<Op>): nat {
    if s == [] then 0 else (if s[0] == Keep then 0 else 1) + Cost(s[1..])
  }

  /** The number of tokens a script keeps. */
  function Kept(s: seq<Op>): nat {
    if s == [] then 0 else (if s[0] == Keep then 1 else 0) + Kept(s[1..])
  }

  /** The textbook recurrence; `DistanceIsMinimum` says what it means. */
  function Distance(a: seq<Token>, b: seq<Token>): nat
    decreases |a| + |b|
  {
    if a == [] then |b|
    else if b == [] then |a|
    else if Equal(a[0], b[0]) then Distance(a[1..], b[1..])
    else 1 + Min(Distance(a[1..], b), Distance(a, b[1..]))
  }

  /** Every script pays for exactly the tokens it does not keep. */
  lemma {:induction false} CostAndKept(s: seq<Op>, a: seq<Token>, b: seq<Token>)
    requires Transforms(s, a, b)
    ensures Cost(s) + 2 * Kept(s) == |a| + |b|
    decreases |s|
  {
    if s != [] {
      match s[0]
      case Keep => CostAndKept(s[1..], a[1..], b[1..]);
      case Delete => CostAndKept(s[1..], a[1..], b);
      case Insert => CostAndKept(s[1..], a, b[1..]);
    }
  }

  /** One token more on either side moves the distance by at most one. */
  lemma {:induction false} DistanceSteps(a: seq<Token>, b: seq<Token>)
    ensures a != [] ==> Distance(a, b) <= 1 + Distance(a[1..], b) && Distance(a[1..], b) <= 1 + Distance(a, b)
    ensures b != [] ==> Distance(a, b) <= 1 + Distance(a, b[1..]) && Distance(a, b[1..]) <= 1 + Distance(a, b)
    decreases |a| + |b|
  {
    if a != [] && b != [] {
      DistanceSteps(a[1..], b);
      DistanceSteps(a, b[1..]);
      DistanceSteps(a[1..], b[1..]);
    }
  }

  /** No script is cheaper than the distance. */
  lemma {:induction false} DistanceIsLowerBound(s: seq<Op>, a: seq<Token>, b: seq<Token>)
    requires Transforms(s, a, b)
    ensures Distance(a, b) <= Cost(s)
    decreases |s|
  {
    if s != [] {
      match s[0]
      case Keep =>
        DistanceIsLowerBound(s[1..], a[1..], b[1..]);
      case Delete =>
        DistanceIsLowerBound(s[1..], a[1..], b);
        DistanceSteps(a, b);
      case Insert =>
        DistanceIsLowerBound(s[1..], a, b[1..]);
        DistanceSteps(a, b);
    }
  }

  /** Some script costs exactly the distance. */
  lemma {:induction false} DistanceIsAttained(a: seq<Token>, b: seq<Token>) returns (s: seq<Op>)
    ensures Transforms(s, a, b) && Cost(s) == Distance(a, b)
    decreases |a| + |b|
  {
    if a == [] && b == [] {
      s := [];
    } else {
      var op, rest;
      if a != [] && b != [] && Equal(a[0], b[0]) {
        op := Keep;
        rest := DistanceIsAttained(a[1..], b[1..]);
      } else if b == [] || (a != [] && Distance(a[1..], b) <= Distance(a, b[1..])) {
        op := Delete;
        rest := DistanceIsAttained(a[1..], b);
      } else {
        op := Insert;
        rest := DistanceIsAttained(a, b[1..]);
      }
      s := [op] + rest;
      assert s[1..] == rest;
    }
  }

  /** The distance is the minimum cost over all edit scripts. */
  lemma DistanceIsMinimum(a: seq<Token>, b: seq<Token>)
    ensures exists s :: Transforms(s, a, b) && Cost(s) == Distance(a, b)
    ensures forall s :: Transforms(s, a, b) ==> Distance(a, b) <= Cost(s)
  {
    var best := DistanceIsAttained(a, b);
    forall s | Transforms(s, a, b) ensures Distance(a, b) <= Cost(s) {
      DistanceIsLowerBound(s, a, b);
    }
  }

  lemma {:induction false} DistanceAtMost(a: seq<Token>, b: seq<Token>)
    ensures Distance(a, b) <= |a| + |b|
    decreases |a| + |b|
  {
    if a != [] && b != [] {
      DistanceAtMost(a[1..], b[1..]);
      DistanceAtMost(a[1..], b);
    }
  }

  /** Equal last tokens can be stripped: they never change the distance. */
  lemma {:induction false} DistanceStripsLast(a: seq<Token>, b: seq<Token>, x: Token, y: Token)
    requires Equal(x, y)
    ensures Distance(a + [x], b + [y]) == Distance(a, b)
    decreases |a| + |b|
  {
    if a != [] { assert (a + [x])[1..] == a[1..] + [x]; }
    if b != [] { assert (b + [y])[1..] == b[1..] + [y]; }
    if a == [] && b == [] {
      assert (a + [x])[1..] == [] && (b + [y])[1..] == [];
    } else if a == [] {
      assert (a + [x])[1..] == [];
      DistanceStripsLast(a, b[1..], x, y);
    } else if b == [] {
      assert (b + [y])[1..] == [];
      DistanceStripsLast(a[1..], b, x, y);
    } else {
      DistanceStripsLast(a[1..], b[1..], x, y);
      DistanceStripsLast(a[1..], b, x, y);
      DistanceStripsLast(a, b[1..], x, y);
    }
  }

  /** `a` from `i` and `b` from `j` agree, token for token, for `len` tokens. */
  ghost predicate Agree(a: seq<Token>, b: seq<Token>, i: int, j: int, len: int) {
    && 0 <= i && 0 <= j && 0 <= len && i + len <= |a| && j + len <= |b|
    && forall p :: i <= p < i + len ==> Equal(a[p], b[p - i + j])
  }

  lemma {:induction false} DistanceStripsPrefix(a: seq<Token>, b: seq<Token>, len: nat)
    requires Agree(a, b, 0, 0, len)
    ensures Distance(a, b) == Distance(a[len..], b[len..])
  {
    if len > 0 {
      assert Equal(a[0], b[0]);
      assert forall p :: 0 <= p < len - 1 ==> a[1..][p] == a[p + 1];
      DistanceStripsPrefix(a[1..], b[1..], len - 1);
      assert a[1..][len - 1..] == a[len..] && b[1..][len - 1..] == b[len..];
    }
  }

  lemma {:induction false} DistanceStripsSuffix(a: seq<Token>, b: seq<Token>, len: nat)
    requires len <= |a| && len <= |b| && Agree(a, b, |a| - len, |b| - len, len)
    ensures Distance(a, b) == Distance(a[..|a| - len], b[..|b| - len])
  {
    hide Distance, Agree;
    if len == 0 {
      assert a[..|a|] == a && b[..|b|] == b;
    } else {
      var n, m := |a| - 1, |b| - 1;
      LastOfAgreement(a, b, len);
      DistanceStripsLast(a[..n], b[..m], a[n], b[m]);
      DistanceStripsSuffix(a[..n], b[..m], len - 1);
      assert a == a[..n] + [a[n]] && b == b[..m] + [b[m]];
      assert a[..n][..n - (len - 1)] == a[..|a| - len] && b[..m][..m - (len - 1)] == b[..|b| - len];
    }
  }

  lemma LastOfAgreement(a: seq<Token>, b: seq<Token>, len: nat)
    requires 0 < len <= |a| && len <= |b| && Agree(a, b, |a| - len, |b| - len, len)
    ensures Equal(a[|a| - 1], b[|b| - 1])
    ensures Agree(a[..|a| - 1], b[..|b| - 1], |a| - len, |b| - len, len - 1)
  {
    var i, j := |a| - len, |b| - len;
    assert Equal(a[|a| - 1], b[|a| - 1 - i + j]);
    var x, y := a[..|a| - 1], b[..|b| - 1];
    forall p | i <= p < i + len - 1 ensures Equal(x[p], y[p - i + j]) {
      assert Equal(a[p], b[p - i + j]);
    }
  }

  lemma AgreeBehind(a: seq<Token>, b: seq<Token>, from: nat, toA: nat, toB: nat)
    requires from <= toA <= |a| && from <= toB <= |b| && |a| - toA == |b| - toB && Agree(a, b, toA, toB, |a| - toA)
    ensures Agree(a[from..], b[from..], toA - from, toB - from, |a| - toA)
  {
    var x, y, i, j := a[from..], b[from..], toA - from, toB - from;
    forall p | i <= p < i + (|a| - toA) ensures Equal(x[p], y[p - i + j]) {
      assert Equal(a[p + from], b[p + from - toA + toB]);
    }
  }

  /** Stripping an equal prefix and then an equal suffix keeps the distance. */
  lemma DistanceStripsEnds(a: seq<Token>, b: seq<Token>, from: nat, toA: nat, toB: nat)
    requires from <= toA <= |a| && from <= toB <= |b| && |a| - toA == |b| - toB
    requires Agree(a, b, 0, 0, from) && Agree(a, b, toA, toB, |a| - toA)
    ensures Distance(a, b) == Distance(a[from..toA], b[from..toB])
  {
    hide Distance, Agree;
    var x, y, len := a[from..], b[from..], |a| - toA;
    DistanceStripsPrefix(a, b, from);
    AgreeBehind(a, b, from, toA, toB);
    DistanceStripsSuffix(x, y, len);
    assert x[..|x| - len] == a[from..toA] && y[..|y| - len] == b[from..toB];
  }
}
