/**
 The text-node table of the reading frame (web/src/agent/agent.js): cumulative
 offsets over text nodes, the node lookup by binary search, and the pieces of
 nodes a stretch of text covers.
 */
module TextTable {
  import opened Basics

  /** The offset at which node i starts. */
  function Start(nodes: seq<string>, i: int): int
    requires 0 <= i <= |nodes|
  {
    if i == 0 then 0 else Start(nodes, i - 1) + |nodes[i - 1]|
  }

  lemma {:induction false} StartMonotone(nodes: seq<string>, i: int, j: int)
    requires 0 <= i <= j <= |nodes|
    ensures 0 <= Start(nodes, i) <= Start(nodes, j)
    ensures i < j ==> Start(nodes, i) + |nodes[i]| <= Start(nodes, j)
    decreases i + j
  {
    if i < j { StartMonotone(nodes, i, j - 1); } else if i > 0 { StartMonotone(nodes, i - 1, i - 1); }
  }

  ghost predicate IsTable(nodes: seq<string>, starts: seq<int>) {
    |starts| == |nodes| && forall i :: 0 <= i < |nodes| ==> starts[i] == Start(nodes, i)
  }

  /** One walk over the text nodes. */
  method Scan(nodes: seq<string>) returns (starts: seq<int>, total: int)
    ensures IsTable(nodes, starts) && total == Start(nodes, |nodes|)
  {
    starts, total := [], 0;
    for i := 0 to |nodes|
      invariant |starts| == i && total == Start(nodes, i)
      invariant forall j :: 0 <= j < i ==> starts[j] == Start(nodes, j)
    {
      starts := starts + [total];
      total := total + |nodes[i]|;
    }
  }

  /** The last node that starts at or before the offset; node 0 when none does. */
  method NodeAt(nodes: seq<string>, starts: seq<int>, offset: int) returns (node: nat)
    requires IsTable(nodes, starts)
    ensures nodes != [] ==> node < |nodes|
    ensures nodes == [] ==> node == 0
    ensures node > 0 ==> Start(nodes, node) <= offset
    ensures forall i :: node < i < |nodes| ==> offset < Start(nodes, i)
  {
    var lo, hi := 0, |nodes| - 1;
    while lo < hi
      invariant 0 <= lo && (nodes != [] ==> lo <= hi < |nodes|) && (nodes == [] ==> lo == 0) && -1 <= hi
      invariant lo > 0 ==> starts[lo] <= offset
      invariant forall i :: hi < i < |nodes| ==> offset < Start(nodes, i)
    {
      var mid := (lo + hi + 1) / 2;
      if starts[mid] <= offset {
        lo := mid;
      } else {
        forall i | mid <= i < |nodes| ensures offset < Start(nodes, i) { StartMonotone(nodes, mid, i); }
        hi := mid - 1;
      }
    }
    node := lo;
  }

  /** The characters from..to of one node; `end` is the offset at which they end. */
  datatype Piece = Piece(node: nat, from: int, to: int, end: int)

  /** The part of node i that lies in [start, end), empty when from >= to. */
  function Part(nodes: seq<string>, i: nat, start: int, end: int): Piece
    requires i < |nodes|
  {
    var nodeStart := Start(nodes, i);
    var from, to := Max(start, nodeStart) - nodeStart, Min(end, nodeStart + |nodes[i]|) - nodeStart;
    Piece(i, from, to, nodeStart + to)
  }

  /** The non-empty parts of the nodes from `first` up to `last`, in order. */
  function Parts(nodes: seq<string>, first: nat, last: nat, start: int, end: int): seq<Piece>
    requires first <= last <= |nodes|
  {
    if first == last then []
    else
      var part := Part(nodes, last - 1, start, end);
      Parts(nodes, first, last - 1, start, end) + if part.from < part.to then [part] else []
  }

  /** Nodes that end before the stretch, or start after it, have no part in it. */
  lemma {:induction false} NoParts(nodes: seq<string>, first: nat, last: nat, start: int, end: int)
    requires first <= last <= |nodes|
    requires forall i :: first <= i < last ==> Start(nodes, i) + |nodes[i]| <= start || end <= Start(nodes, i)
    ensures Parts(nodes, first, last, start, end) == []
  {
    if first < last { NoParts(nodes, first, last - 1, start, end); }
  }

  lemma {:induction false} PartsSplit(nodes: seq<string>, first: nat, mid: nat, last: nat, start: int, end: int)
    requires first <= mid <= last <= |nodes|
    ensures Parts(nodes, first, last, start, end)
         == Parts(nodes, first, mid, start, end) + Parts(nodes, mid, last, start, end)
    decreases last
  {
    if mid < last { PartsSplit(nodes, first, mid, last - 1, start, end); }
  }

  lemma PartsNone(nodes: seq<string>, start: int, end: int)
    ensures Parts(nodes, 0, 0, start, end) == []
  {
  }

  lemma PartsStep(nodes: seq<string>, i: nat, start: int, end: int)
    requires i < |nodes|
    ensures var part := Part(nodes, i, start, end);
            Parts(nodes, 0, i + 1, start, end)
            == Parts(nodes, 0, i, start, end) + if part.from < part.to then [part] else []
  {
  }

  lemma PartsBefore(nodes: seq<string>, first: nat, start: int, end: int)
    requires first < |nodes| && (first > 0 ==> Start(nodes, first) <= start)
    ensures Parts(nodes, 0, first, start, end) == []
  {
    forall i | 0 <= i < first ensures Start(nodes, i) + |nodes[i]| <= start { StartMonotone(nodes, i, first); }
    NoParts(nodes, 0, first, start, end);
  }

  lemma PartsAfter(nodes: seq<string>, i: nat, start: int, end: int)
    requires i < |nodes| && end <= Start(nodes, i)
    ensures Parts(nodes, 0, |nodes|, start, end) == Parts(nodes, 0, i, start, end)
  {
    forall j | i <= j < |nodes| ensures end <= Start(nodes, j) { StartMonotone(nodes, i, j); }
    NoParts(nodes, i, |nodes|, start, end);
    PartsSplit(nodes, 0, i, |nodes|, start, end);
  }

  /** The stretch of each text node that [start, end) covers. */
  method PiecesFor(nodes: seq<string>, starts: seq<int>, start: int, end: int) returns (pieces: seq<Piece>)
    requires IsTable(nodes, starts)
    ensures pieces == Parts(nodes, 0, |nodes|, start, end)
  {
    hide Start, Parts;
    var first := NodeAt(nodes, starts, start);
    pieces := [];
    PartsNone(nodes, start, end);
    if nodes == [] { return; }
    PartsBefore(nodes, first, start, end);
    var i := first;
    while i < |nodes|
      invariant first <= i <= |nodes|
      invariant pieces == Parts(nodes, 0, i, start, end)
    {
      var nodeStart := starts[i];
      if nodeStart >= end {
        PartsAfter(nodes, i, start, end);
        return;
      }
      var nodeEnd := nodeStart + |nodes[i]|;
      PartsStep(nodes, i, start, end);
      if nodeEnd > start {
        var from := Max(start, nodeStart) - nodeStart;
        var to := Min(end, nodeEnd) - nodeStart;
        if to > from { pieces := pieces + [Piece(i, from, to, nodeStart + to)]; }
      }
      i := i + 1;
    }
  }

  /** A piece lies inside its node, and inside the text. */
  ghost predicate Inside(nodes: seq<string>, p: Piece) {
    && p.node < |nodes| && 0 <= p.from < p.to <= |nodes[p.node]|
    && p.end == Start(nodes, p.node) + p.to
  }

  /** The text offsets a piece covers. */
  predicate Covers(nodes: seq<string>, p: Piece, c: int)
    requires p.node < |nodes|
  {
    Start(nodes, p.node) + p.from <= c < Start(nodes, p.node) + p.to
  }

  /** p lies wholly before q, in the same node or in an earlier one. */
  predicate Before(p: Piece, q: Piece) { p.node < q.node || (p.node == q.node && p.to <= q.from) }

  /** Pieces inside the text, in order, none overlapping. */
  ghost predicate InOrder(nodes: seq<string>, pieces: seq<Piece>) {
    && (forall i :: 0 <= i < |pieces| ==> Inside(nodes, pieces[i]))
    && (forall i, j :: 0 <= i < j < |pieces| ==> Before(pieces[i], pieces[j]))
  }

  /** The parts of a stretch are in order, inside it, and together cover exactly its characters. */
  lemma {:induction false} PartsAreExact(nodes: seq<string>, last: nat, start: int, end: int)
    requires last <= |nodes|
    ensures var parts := Parts(nodes, 0, last, start, end);
            && InOrder(nodes, parts)
            && (forall k :: 0 <= k < |parts| ==> parts[k].node < last)
            && (forall k :: 0 <= k < |parts| ==>
              start <= parts[k].end - (parts[k].to - parts[k].from) && parts[k].end <= end)
  {
    if last > 0 { PartsAreExact(nodes, last - 1, start, end); StartMonotone(nodes, last - 1, last); }
  }

  lemma {:induction false} PartsReach(nodes: seq<string>, last: nat, start: int, end: int, c: int) returns (k: nat)
    requires last <= |nodes| && start <= c < end && 0 <= c < Start(nodes, last)
    ensures k < |Parts(nodes, 0, last, start, end)|
    ensures Parts(nodes, 0, last, start, end)[k].node < |nodes|
    ensures Covers(nodes, Parts(nodes, 0, last, start, end)[k], c)
  {
    if c < Start(nodes, last - 1) {
      k := PartsReach(nodes, last - 1, start, end, c);
    } else {
      StartMonotone(nodes, last - 1, last);
      k := |Parts(nodes, 0, last - 1, start, end)|;
    }
  }
}
