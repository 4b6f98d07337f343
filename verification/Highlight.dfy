/**
 The highlight painter of the reading frame (web/src/agent/agent.js,
 `highlight`): a sweep over range boundaries that carries the covering set
 along, and right-to-left splitting of text nodes.
 */
module Highlight {
  import opened Basics
  import opened Boundaries
  import opened TextTable

  datatype Range = Range(id: string, start: int, end: int, point: bool)

  /** The ranges that are painted: points and empty ranges are not. */
  function Paintable(ranges: seq<Range>): seq<Range> {
    if ranges == [] then []
    else
      var last := ranges[|ranges| - 1];
      Paintable(ranges[..|ranges| - 1]) + if last.end > last.start && !last.point then [last] else []
  }

  /** Places in order, of ranges with characters in them that are no points, of all of them. */
  ghost predicate Picks(ranges: seq<Range>, painted: seq<Range>, at: seq<nat>) {
    && |at| == |painted|
    && (forall k :: 0 <= k < |at| ==> at[k] < |ranges| && painted[k] == ranges[at[k]])
    && (forall j, k :: 0 <= j < k < |at| ==> at[j] < at[k])
    && forall i: nat :: i < |ranges| ==> (i in at <==> ranges[i].start < ranges[i].end && !ranges[i].point)
  }

  /** Exactly the ranges with characters in them that are no points, in the order they come in. */
  lemma {:induction false} PaintableMeans(ranges: seq<Range>) returns (at: seq<nat>)
    ensures Picks(ranges, Paintable(ranges), at)
    decreases |ranges|
  {
    at := [];
    if ranges != [] {
      hide Picks;
      var front, last := ranges[..|ranges| - 1], ranges[|ranges| - 1];
      at := PaintableMeans(front);
      PicksNext(front, last, Paintable(front), at);
      assert ranges == front + [last];
      if last.start < last.end && !last.point { at := at + [|front|]; }
      else { assert Paintable(ranges) == Paintable(front); }
    }
  }

  lemma {:induction false} PicksNext(front: seq<Range>, last: Range, painted: seq<Range>, at: seq<nat>)
    requires Picks(front, painted, at)
    ensures var ranges := front + [last];
      if last.start < last.end && !last.point then Picks(ranges, painted + [last], at + [|front|])
      else Picks(ranges, painted, at)
  {
    var ranges := front + [last];
    forall i: nat | i < |front| ensures ranges[i] == front[i] && (i in at + [|front|] <==> i in at) { }
    forall k | 0 <= k < |at| ensures at[k] in at && at[k] < |front| { }
  }

  ghost predicate Proper(painted: seq<Range>) { forall i :: 0 <= i < |painted| ==> painted[i].start < painted[i].end }

  lemma {:induction false} PaintableIsProper(ranges: seq<Range>)
    ensures Proper(Paintable(ranges))
  {
    if ranges != [] { PaintableIsProper(ranges[..|ranges| - 1]); }
  }

  /** Range number i contains character c. */
  predicate Contains(painted: seq<Range>, i: nat, c: int) {
    i < |painted| && painted[i].start <= c < painted[i].end
  }

  /** The naive rule: the list names exactly the ranges that contain character c. */
  ghost predicate NamesCovering(painted: seq<Range>, covering: seq<nat>, c: int) {
    forall i: nat :: i in covering <==> Contains(painted, i, c)
  }

  ghost predicate IsCovered(painted: seq<Range>, c: int) { exists i: nat :: Contains(painted, i, c) }

  /** A piece to paint, and the numbers of the ranges that cover it, in the order they opened. */
  datatype Entry = Entry(piece: Piece, covering: seq<nat>)

  /** The start and end of every painted range. */
  function Edges(painted: seq<Range>): seq<int> {
    if painted == [] then []
    else Edges(painted[..|painted| - 1]) + [painted[|painted| - 1].start, painted[|painted| - 1].end]
  }

  lemma {:induction false} EdgesHold(painted: seq<Range>)
    ensures forall i :: 0 <= i < |painted| ==> painted[i].start in Edges(painted) && painted[i].end in Edges(painted)
  {
    if painted != [] {
      var front := painted[..|painted| - 1];
      EdgesHold(front);
      assert forall i :: 0 <= i < |front| ==> front[i] == painted[i];
    }
  }

  /** Increasing offsets, the ends of every painted range among them. */
  ghost predicate AreEdges(painted: seq<Range>, edges: seq<int>) {
    Increasing(edges) && forall i :: 0 <= i < |painted| ==> painted[i].start in edges && painted[i].end in edges
  }

  lemma SortedEdges(painted: seq<Range>)
    ensures AreEdges(painted, SortUnique(Edges(painted)))
  {
    EdgesHold(painted);
    SortUniqueHolds(Edges(painted));
  }

  /** The ranges that open at an edge, in list order. */
  function Opening(painted: seq<Range>, count: nat, at: int): seq<nat>
    requires count <= |painted|
  {
    if count == 0 then []
    else Opening(painted, count - 1, at) + if painted[count - 1].start == at then [count - 1] else []
  }

  lemma {:induction false} OpeningMembers(painted: seq<Range>, count: nat, at: int, i: nat)
    requires count <= |painted|
    ensures i in Opening(painted, count, at) <==> i < count && painted[i].start == at
  {
    if count > 0 { OpeningMembers(painted, count - 1, at, i); }
  }

  ghost predicate Numbers(painted: seq<Range>, active: seq<nat>) {
    forall j :: 0 <= j < |active| ==> active[j] < |painted|
  }

  /** The ranges of the list that do not end at or before an edge. */
  function StillOpen(painted: seq<Range>, active: seq<nat>, at: int): seq<nat>
    requires forall j :: 0 <= j < |active| ==> active[j] < |painted|
  {
    if active == [] then []
    else
      var last := active[|active| - 1];
      StillOpen(painted, active[..|active| - 1], at) + if painted[last].end <= at then [] else [last]
  }

  lemma {:induction false} StillOpenMembers(painted: seq<Range>, active: seq<nat>, at: int, i: nat)
    requires Numbers(painted, active)
    ensures i in StillOpen(painted, active, at) <==> i in active && i < |painted| && painted[i].end > at
  {
    if active != [] {
      StillOpenMembers(painted, active[..|active| - 1], at, i);
      assert active == active[..|active| - 1] + [active[|active| - 1]];
    }
  }

  /** The carried list before edge k: nothing, or the ranges that contain the edge before. */
  ghost predicate Carries(painted: seq<Range>, edges: seq<int>, k: nat, active: seq<nat>)
    requires k <= |edges|
  {
    if k == 0 then active == [] else NamesCovering(painted, active, edges[k - 1])
  }

  lemma CarriedAreNumbers(painted: seq<Range>, edges: seq<int>, k: nat, active: seq<nat>)
    requires k < |edges| && Carries(painted, edges, k, active)
    ensures Numbers(painted, active) && Numbers(painted, active + Opening(painted, |painted|, edges[k]))
  {
    var all := active + Opening(painted, |painted|, edges[k]);
    forall j | 0 <= j < |active| ensures active[j] < |painted| {
      assert active[j] in active;
    }
    forall j | |active| <= j < |all| ensures all[j] < |painted| {
      OpeningMembers(painted, |painted|, edges[k], all[j]);
      assert all[j] in Opening(painted, |painted|, edges[k]);
    }
  }

  /** A range that starts before edge k starts at or before the edge before it. */
  lemma StartsEarlier(painted: seq<Range>, edges: seq<int>, k: nat, i: nat)
    requires AreEdges(painted, edges) && k < |edges| && i < |painted| && painted[i].start < edges[k]
    ensures k > 0 && painted[i].start <= edges[k - 1]
  {
    if k == 0 { FirstIsLeast(edges, painted[i].start); } else { NoneInside(edges, k - 1, painted[i].start); }
  }

  /** Opening and closing at edge k turns the carried list into the covering of the next segment. */
  lemma CarryOn(painted: seq<Range>, edges: seq<int>, k: nat, active: seq<nat>)
    requires Proper(painted) && AreEdges(painted, edges) && k < |edges|
    requires Carries(painted, edges, k, active)
    ensures Numbers(painted, active + Opening(painted, |painted|, edges[k]))
    ensures Carries(painted, edges, k + 1,
                    StillOpen(painted, active + Opening(painted, |painted|, edges[k]), edges[k]))
  {
    CarriedAreNumbers(painted, edges, k, active);
    var all := active + Opening(painted, |painted|, edges[k]);
    forall i: nat ensures i in StillOpen(painted, all, edges[k]) <==> Contains(painted, i, edges[k]) {
      StillOpenMembers(painted, all, edges[k], i);
      OpeningMembers(painted, |painted|, edges[k], i);
      if i < |painted| && painted[i].start < edges[k] { StartsEarlier(painted, edges, k, i); }
    }
  }

  /** Between two neighbouring edges the covering does not change. */
  lemma SegmentIsUniform(painted: seq<Range>, edges: seq<int>, k: nat, c: int, covering: seq<nat>)
    requires AreEdges(painted, edges) && k + 1 < |edges| && edges[k] <= c < edges[k + 1]
    requires NamesCovering(painted, covering, edges[k])
    ensures NamesCovering(painted, covering, c)
  {
    forall i: nat | i < |painted| ensures Contains(painted, i, c) <==> Contains(painted, i, edges[k]) {
      NoneInside(edges, k, painted[i].start);
      NoneInside(edges, k, painted[i].end);
    }
  }

  // ----- The plan -----

  /** The offset at which a piece starts. */
  function From(p: Piece): int { p.end - (p.to - p.from) }

  /** Text order of offsets is plan order of pieces. */
  lemma OffsetsOrderPieces(nodes: seq<string>, p: Piece, q: Piece)
    requires Inside(nodes, p) && Inside(nodes, q) && p.end <= From(q)
    ensures Before(p, q)
  {
    if q.node < p.node { StartMonotone(nodes, q.node, p.node); }
  }

  ghost predicate PlanInOrder(nodes: seq<string>, plan: seq<Entry>) {
    && (forall x :: 0 <= x < |plan| ==> Inside(nodes, plan[x].piece))
    && (forall x, y :: 0 <= x < y < |plan| ==> Before(plan[x].piece, plan[y].piece))
  }

  /** Entry x covers character c. */
  predicate At(plan: seq<Entry>, x: int, c: int) { 0 <= x < |plan| && From(plan[x].piece) <= c < plan[x].piece.end }

  /** Every entry names exactly the ranges that contain each of its characters. */
  ghost predicate NamesRight(painted: seq<Range>, plan: seq<Entry>) {
    forall x, c :: At(plan, x, c) ==> NamesCovering(painted, plan[x].covering, c)
  }

  /** Every covered character before `upTo` lies in some entry. */
  ghost predicate Reaches(nodes: seq<string>, painted: seq<Range>, plan: seq<Entry>, upTo: int) {
    forall c :: 0 <= c < Start(nodes, |nodes|) && c < upTo && IsCovered(painted, c) ==> exists x :: At(plan, x, c)
  }

  /** The plan so far is right for everything before `upTo`. */
  ghost predicate PlannedTo(nodes: seq<string>, painted: seq<Range>, plan: seq<Entry>, upTo: int) {
    && PlanInOrder(nodes, plan)
    && (forall x :: 0 <= x < |plan| ==> plan[x].piece.end <= upTo && plan[x].covering != [])
    && NamesRight(painted, plan)
    && Reaches(nodes, painted, plan, upTo)
  }

  function Entries(pieces: seq<Piece>, covering: seq<nat>): (r: seq<Entry>)
    ensures |r| == |pieces|
  {
    seq(|pieces|, k requires 0 <= k < |pieces| => Entry(pieces[k], covering))
  }

  /** A segment nobody covers adds nothing. */
  lemma SkipsSegment(nodes: seq<string>, painted: seq<Range>, plan: seq<Entry>, edges: seq<int>, k: nat)
    requires AreEdges(painted, edges) && k + 1 < |edges| && PlannedTo(nodes, painted, plan, edges[k])
    requires NamesCovering(painted, [], edges[k])
    ensures PlannedTo(nodes, painted, plan, edges[k + 1])
  {
    forall c | edges[k] <= c < edges[k + 1] ensures !IsCovered(painted, c) {
      SegmentIsUniform(painted, edges, k, c, []);
    }
  }

  /** A covered segment adds its pieces, each named with the segment's covering. */
  lemma PlansSegment(nodes: seq<string>, painted: seq<Range>, plan: seq<Entry>, edges: seq<int>, k: nat,
                     covering: seq<nat>)
    requires AreEdges(painted, edges) && k + 1 < |edges| && PlannedTo(nodes, painted, plan, edges[k])
    requires NamesCovering(painted, covering, edges[k]) && covering != []
    ensures PlannedTo(nodes, painted, plan + Entries(Parts(nodes, 0, |nodes|, edges[k], edges[k + 1]), covering),
        edges[k + 1])
  {
    var parts := Parts(nodes, 0, |nodes|, edges[k], edges[k + 1]);
    hide Start, Parts, NamesCovering, AreEdges;
    PartsAreExact(nodes, |nodes|, edges[k], edges[k + 1]);
    PlansInOrder(nodes, plan, parts, covering, edges[k]);
    PlansNames(painted, plan, parts, covering, edges, k);
    PlansReach(nodes, painted, plan, covering, edges[k], edges[k + 1]);
    hide PlanInOrder, NamesRight, Reaches;
  }

  lemma PlansReach(nodes: seq<string>, painted: seq<Range>, plan: seq<Entry>, covering: seq<nat>, from: int, to: int)
    requires Reaches(nodes, painted, plan, from)
    ensures Reaches(nodes, painted, plan + Entries(Parts(nodes, 0, |nodes|, from, to), covering), to)
  {
    hide Parts, IsCovered;
    var parts := Parts(nodes, 0, |nodes|, from, to);
    var all := plan + Entries(parts, covering);
    forall c | 0 <= c < Start(nodes, |nodes|) && c < to && IsCovered(painted, c) ensures exists x :: At(all, x, c) {
      if c < from {
        var x :| At(plan, x, c);
        assert At(all, x, c);
      } else {
        var y := PartsReach(nodes, |nodes|, from, to, c);
        PartsAreExact(nodes, |nodes|, from, to);
        assert all[|plan| + y].piece == parts[y];
        assert At(all, |plan| + y, c);
      }
    }
  }

  lemma PlansInOrder(nodes: seq<string>, plan: seq<Entry>, parts: seq<Piece>, covering: seq<nat>, from: int)
    requires PlanInOrder(nodes, plan) && InOrder(nodes, parts)
    requires forall x :: 0 <= x < |plan| ==> plan[x].piece.end <= from
    requires forall y :: 0 <= y < |parts| ==> from <= From(parts[y])
    ensures PlanInOrder(nodes, plan + Entries(parts, covering))
  {
    var all := plan + Entries(parts, covering);
    forall x, y | 0 <= x < y < |all| ensures Before(all[x].piece, all[y].piece) {
      if x < |plan| <= y { OffsetsOrderPieces(nodes, plan[x].piece, parts[y - |plan|]); }
    }
  }

  lemma PlansNames(painted: seq<Range>, plan: seq<Entry>, parts: seq<Piece>, covering: seq<nat>, edges: seq<int>,
                   k: nat)
    requires AreEdges(painted, edges) && k + 1 < |edges|
    requires NamesRight(painted, plan) && NamesCovering(painted, covering, edges[k])
    requires forall y :: 0 <= y < |parts| ==> edges[k] <= From(parts[y]) && parts[y].end <= edges[k + 1]
    ensures NamesRight(painted, plan + Entries(parts, covering))
  {
    var all := plan + Entries(parts, covering);
    forall x, c | At(all, x, c) ensures NamesCovering(painted, all[x].covering, c) {
      if x < |plan| { assert At(plan, x, c); } else { SegmentIsUniform(painted, edges, k, c, covering); }
    }
  }

  /** Walks the edges in order, opening each range at its start and closing it at its end. */
  method Sweep(nodes: seq<string>, starts: seq<int>, painted: seq<Range>) returns (plan: seq<Entry>)
    requires IsTable(nodes, starts) && Proper(painted)
    ensures PlanInOrder(nodes, plan)
    ensures forall x :: 0 <= x < |plan| ==> plan[x].covering != []
    ensures NamesRight(painted, plan)
    ensures Reaches(nodes, painted, plan, Start(nodes, |nodes|))
  {
    var edges := SortUnique(Edges(painted));
    SortedEdges(painted);
    hide SortUnique, Edges;
    var active: seq<nat> := [];
    plan := [];
    StartsUncovered(nodes, painted, edges);
    var i := 0;
    while i + 1 < |edges|
      invariant 0 <= i && (edges != [] ==> i < |edges|) && (edges == [] ==> i == 0)
      invariant Carries(painted, edges, i, active)
      invariant edges != [] ==> PlannedTo(nodes, painted, plan, edges[i])
      invariant edges == [] ==> plan == []
    {
      hide Carries, PlannedTo, AreEdges, Opening, StillOpen, Proper;
      var start, end := edges[i], edges[i + 1];
      CarryOn(painted, edges, i, active);
      active := active + Opening(painted, |painted|, start);
      NumbersBound(painted, active);
      active := StillOpen(painted, active, start);
      CarriesNow(painted, edges, i, active);
      if active == [] {
        SkipsSegment(nodes, painted, plan, edges, i);
      } else {
        var pieces := PiecesFor(nodes, starts, start, end);
        PlansSegment(nodes, painted, plan, edges, i, active);
        plan := plan + Entries(pieces, active);
      }
      i := i + 1;
    }
    PlanIsComplete(nodes, painted, plan, edges);
  }

  lemma NumbersBound(painted: seq<Range>, active: seq<nat>)
    requires Numbers(painted, active)
    ensures forall j :: 0 <= j < |active| ==> active[j] < |painted|
  {
  }

  lemma CarriesNow(painted: seq<Range>, edges: seq<int>, k: nat, active: seq<nat>)
    requires k < |edges| && Carries(painted, edges, k + 1, active)
    ensures NamesCovering(painted, active, edges[k])
  {
  }

  /** Nothing before the first edge is covered. */
  lemma StartsUncovered(nodes: seq<string>, painted: seq<Range>, edges: seq<int>)
    requires AreEdges(painted, edges)
    ensures Carries(painted, edges, 0, [])
    ensures edges != [] ==> PlannedTo(nodes, painted, [], edges[0])
  {
    if edges != [] {
      forall c | c < edges[0] ensures !IsCovered(painted, c) {
        forall i: nat ensures !Contains(painted, i, c) {
          if i < |painted| {
            FirstIsLeast(edges, painted[i].start);
          }
        }
      }
    }
  }

  /** Nothing at or past the last edge is covered, so a plan up to it is a plan of everything. */
  lemma PlanIsComplete(nodes: seq<string>, painted: seq<Range>, plan: seq<Entry>, edges: seq<int>)
    requires AreEdges(painted, edges)
    requires if edges == [] then plan == [] else PlannedTo(nodes, painted, plan, edges[|edges| - 1])
    ensures PlanInOrder(nodes, plan) && NamesRight(painted, plan)
    ensures forall x :: 0 <= x < |plan| ==> plan[x].covering != []
    ensures Reaches(nodes, painted, plan, Start(nodes, |nodes|))
  {
    forall c | edges == [] || edges[|edges| - 1] <= c ensures !IsCovered(painted, c) {
      forall i: nat ensures !Contains(painted, i, c) {
        if i < |painted| {
          FirstIsLeast(edges, painted[i].end);
        }
      }
    }
  }

  // ----- Painting -----

  /** A text node of the painted document, and the ranges its mark names, if it is inside a mark. */
  datatype Leaf = Leaf(text: string, mark: Option<seq<nat>>)

  /** The leaves one pristine text node has been split into; its own node object is the first of them. */
  type Block = seq<Leaf>

  function BlockText(block: Block): string {
    if block == [] then "" else block[0].text + BlockText(block[1..])
  }

  /** The mark around character o of the block. */
  function MarkAt(block: Block, o: int): Option<seq<nat>> {
    if block == [] then None
    else if o < |block[0].text| then block[0].mark
    else MarkAt(block[1..], o - |block[0].text|)
  }

  /** Wraps from..to of the block's first leaf in a mark: the node keeps what is before, the rest follows the mark. */
  function Surround(block: Block, from: int, to: int, covering: seq<nat>): Block
    requires block != [] && 0 <= from <= to <= |block[0].text|
  {
    var text := block[0].text;
    [Leaf(text[..from], None), Leaf(text[from..to], Some(covering)), Leaf(text[to..], None)] + block[1..]
  }

  /** Painting adds no text and marks exactly from..to. */
  lemma SurroundIsExact(block: Block, from: int, to: int, covering: seq<nat>, o: nat)
    requires block != [] && 0 <= from <= to <= |block[0].text| && block[0].mark.None?
    ensures var painted := Surround(block, from, to, covering);
            && BlockText(painted) == BlockText(block)
            && MarkAt(painted, o) == if from <= o < to then Some(covering) else MarkAt(block, o)
  {
    var text, rest := block[0].text, block[1..];
    var left, middle, right := Leaf(text[..from], None), Leaf(text[from..to], Some(covering)), Leaf(text[to..], None);
    assert Surround(block, from, to, covering) == [left] + ([middle] + ([right] + rest));
    hide Surround;
    FirstLeaf(right, rest, o - to);
    FirstLeaf(middle, [right] + rest, o - from);
    FirstLeaf(left, [middle] + ([right] + rest), o);
    FirstLeaf(block[0], rest, o);
    assert block == [block[0]] + rest;
    hide BlockText, MarkAt;
    ThreeTexts(text, from, to, BlockText(rest));
  }

  lemma FirstLeaf(leaf: Leaf, rest: Block, o: int)
    ensures BlockText([leaf] + rest) == leaf.text + BlockText(rest)
    ensures MarkAt([leaf] + rest, o) == if o < |leaf.text| then leaf.mark else MarkAt(rest, o - |leaf.text|)
  {
    assert ([leaf] + rest)[1..] == rest;
  }

  lemma ThreeTexts(text: string, from: int, to: int, tail: string)
    requires 0 <= from <= to <= |text|
    ensures text[..from] + (text[from..to] + (text[to..] + tail)) == text + tail
  {
  }

  /** Entry x paints character o of node i. */
  predicate Paints(plan: seq<Entry>, x: int, i: nat, o: int) {
    0 <= x < |plan| && plan[x].piece.node == i && plan[x].piece.from <= o < plan[x].piece.to
  }

  /** The block after entries x, x + 1, ... are painted into node i. */
  ghost predicate BlockPainted(block: Block, node: string, plan: seq<Entry>, x: nat, i: nat) {
    && BlockText(block) == node
    && block != [] && block[0].mark.None?
    && (forall y :: 0 <= y < x <= |plan| && plan[y].piece.node == i ==> plan[y].piece.to <= |block[0].text|)
    && (forall o: nat, y :: x <= y && Paints(plan, y, i, o) ==> MarkAt(block, o) == Some(plan[y].covering))
    && (forall o: nat :: (forall y :: x <= y ==> !Paints(plan, y, i, o)) ==> MarkAt(block, o) == None)
  }

  ghost predicate Painted(doc: seq<Block>, nodes: seq<string>, plan: seq<Entry>, x: nat) {
    |doc| == |nodes| && forall i :: 0 <= i < |doc| ==> BlockPainted(doc[i], nodes[i], plan, x, i)
  }

  /** Entries still to come in the same node end before the piece just painted, so they address the same characters. */
  lemma PaintsNext(block: Block, nodes: seq<string>, plan: seq<Entry>, x: nat)
    requires PlanInOrder(nodes, plan) && x < |plan|
    requires BlockPainted(block, nodes[plan[x].piece.node], plan, x + 1, plan[x].piece.node)
    ensures plan[x].piece.to <= |block[0].text|
    ensures BlockPainted(Surround(block, plan[x].piece.from, plan[x].piece.to, plan[x].covering),
                         nodes[plan[x].piece.node], plan, x, plan[x].piece.node)
  {
    var p, covering := plan[x].piece, plan[x].covering;
    var next := Surround(block, p.from, p.to, covering);
    forall o: nat ensures BlockText(next) == BlockText(block)
                       && MarkAt(next, o) == if p.from <= o < p.to then Some(covering) else MarkAt(block, o)
    {
      SurroundIsExact(block, p.from, p.to, covering, o);
    }
    assert BlockText(next) == BlockText(block) by { SurroundIsExact(block, p.from, p.to, covering, 0); }
    forall y | 0 <= y < x && plan[y].piece.node == p.node ensures plan[y].piece.to <= |next[0].text| {
      assert Before(plan[y].piece, plan[x].piece);
    }
    forall o: nat, y | x <= y && Paints(plan, y, p.node, o) ensures MarkAt(next, o) == Some(plan[y].covering) {
      if y > x { assert Before(plan[x].piece, plan[y].piece); }
    }
    forall o: nat | forall y :: x <= y ==> !Paints(plan, y, p.node, o) ensures MarkAt(next, o) == None {
      assert !Paints(plan, x, p.node, o);
      assert forall y :: x + 1 <= y ==> !Paints(plan, y, p.node, o);
    }
  }

  lemma SurroundFits(block: Block, nodes: seq<string>, plan: seq<Entry>, x: nat)
    requires PlanInOrder(nodes, plan) && x < |plan|
    requires BlockPainted(block, nodes[plan[x].piece.node], plan, x + 1, plan[x].piece.node)
    ensures block != [] && 0 <= plan[x].piece.from <= plan[x].piece.to <= |block[0].text|
  {
  }

  lemma OthersUntouched(block: Block, node: string, plan: seq<Entry>, x: nat, i: nat)
    requires x < |plan| && plan[x].piece.node != i && BlockPainted(block, node, plan, x + 1, i)
    ensures BlockPainted(block, node, plan, x, i)
  {
    forall o: nat, y | x <= y && Paints(plan, y, i, o) ensures MarkAt(block, o) == Some(plan[y].covering) {
      assert y >= x + 1;
    }
    forall o: nat | forall y :: x <= y ==> !Paints(plan, y, i, o) ensures MarkAt(block, o) == None {
      assert forall y :: x + 1 <= y ==> !Paints(plan, y, i, o);
    }
  }

  /** The text nodes of the document as they are now. */
  function LeafTexts(doc: seq<Block>): seq<string> {
    if doc == [] then [] else BlockLeaves(doc[0]) + LeafTexts(doc[1..])
  }

  function BlockLeaves(block: Block): seq<string> {
    seq(|block|, i requires 0 <= i < |block| => block[i].text)
  }

  /** Leaf by leaf, block by block: one block has its own leaves, and more blocks have theirs behind them. */
  lemma {:induction false} LeafTextsMean(doc: seq<Block>, more: seq<Block>, block: Block)
    ensures LeafTexts(doc + more) == LeafTexts(doc) + LeafTexts(more)
    ensures |LeafTexts([block])| == |block| && forall j :: 0 <= j < |block| ==> LeafTexts([block])[j] == block[j].text
    decreases |doc|
  {
    assert [block][1..] == [] && LeafTexts([block]) == BlockLeaves(block) + [];
    if doc == [] {
      assert doc + more == more;
    } else {
      LeafTextsMean(doc[1..], more, block);
      assert (doc + more)[1..] == doc[1..] + more;
    }
  }

  /** The frame's document and what it remembers between paints. */
  class Frame {
    var doc: seq<Block>
    var nodes: seq<string>
    var starts: seq<int>
    var lastRanges: seq<Range>

    /** The document's text, block by block. */
    function Texts(): (r: seq<string>)
      reads this
      ensures |r| == |doc|
    {
      seq(|doc|, i requires 0 <= i < |doc| reads this => BlockText(doc[i]))
    }

    constructor (pristine: seq<string>)
      ensures Texts() == pristine
    {
      doc := seq(|pristine|, i requires 0 <= i < |pristine| => [Leaf(pristine[i], None)]);
      nodes, starts, lastRanges := [], [], [];
      new;
      assert forall i :: 0 <= i < |pristine| ==> doc[i][1..] == [] && BlockText(doc[i]) == pristine[i];
    }

    /** Unwraps every mark and joins the neighbouring text nodes again. */
    method Unwrap()
      modifies this`doc
      ensures Texts() == old(Texts())
      ensures forall i :: 0 <= i < |doc| ==> doc[i] == [Leaf(Texts()[i], None)]
    {
      var texts := Texts();
      doc := seq(|texts|, i requires 0 <= i < |texts| => [Leaf(texts[i], None)]);
      assert forall i :: 0 <= i < |texts| ==> doc[i][1..] == [] && BlockText(doc[i]) == texts[i];
      assert Texts() == texts;
    }

    /** Right to left, so the node and offsets of every piece still to come stay as they are. */
    method PaintPlan(plan: seq<Entry>, pristine: seq<string>)
      requires PlanInOrder(pristine, plan) && Painted(doc, pristine, plan, |plan|)
      modifies this`doc
      ensures Painted(doc, pristine, plan, 0)
    {
      hide BlockPainted, Surround;
      var x := |plan|;
      while x > 0
        invariant 0 <= x <= |plan| && Painted(doc, pristine, plan, x)
      {
        x := x - 1;
        var entry := plan[x];
        var i := entry.piece.node;
        SurroundFits(doc[i], pristine, plan, x);
        PaintsNext(doc[i], pristine, plan, x);
        forall j | 0 <= j < |doc| && j != i ensures BlockPainted(doc[j], pristine[j], plan, x, j) {
          OthersUntouched(doc[j], pristine[j], plan, x, j);
        }
        doc := doc[i := Surround(doc[i], entry.piece.from, entry.piece.to, entry.covering)];
      }
    }

    /**
     Paints the ranges afresh: the text does not change, and every character
     ends up in one mark naming exactly the ranges that contain it, or in none
     when no range does.
     */
    method Paint(ranges: seq<Range>)
      modifies this
      ensures Texts() == old(Texts()) && lastRanges == ranges
      ensures nodes == LeafTexts(doc) && IsTable(nodes, starts)
      ensures forall i :: 0 <= i < |doc| ==> MarksAreRight(Paintable(ranges), doc[i], Start(Texts(), i), |Texts()[i]|)
    {
      hide Painted, MarksAreRight, NamesRight, PlanInOrder, Reaches, Start, BlockText, Paintable;
      lastRanges := ranges;
      Unwrap();
      nodes := Texts();
      var total;
      starts, total := Scan(nodes);
      PaintableIsProper(ranges);
      var painted := Paintable(ranges);
      var plan := Sweep(nodes, starts, painted);
      PristineIsPainted(doc, nodes, plan);
      PaintPlan(plan, nodes);
      PaintedTexts(doc, nodes, plan);
      var texts := nodes;
      forall i | 0 <= i < |doc| ensures MarksAreRight(painted, doc[i], Start(texts, i), |texts[i]|) {
        PaintedIsRight(doc, texts, painted, plan, i);
      }
      // Painting splits text nodes, so the table is rebuilt for what comes next.
      nodes := LeafTexts(doc);
      starts, total := Scan(nodes);
      assert Texts() == texts;
    }
  }

  /** The mark at a character names exactly the ranges that contain it; there is a mark exactly when some range does. */
  ghost predicate MarkIsRight(painted: seq<Range>, block: Block, o: int, start: int) {
    match MarkAt(block, o)
    case Some(covering) => covering != [] && NamesCovering(painted, covering, start + o)
    case None => !IsCovered(painted, start + o)
  }

  lemma PaintedTexts(doc: seq<Block>, nodes: seq<string>, plan: seq<Entry>)
    requires Painted(doc, nodes, plan, 0)
    ensures |doc| == |nodes| && forall i :: 0 <= i < |doc| ==> BlockText(doc[i]) == nodes[i]
  {
    forall i | 0 <= i < |doc| ensures BlockText(doc[i]) == nodes[i] {
      assert BlockPainted(doc[i], nodes[i], plan, 0, i);
    }
  }

  lemma PristineIsPainted(doc: seq<Block>, nodes: seq<string>, plan: seq<Entry>)
    requires |doc| == |nodes| && PlanInOrder(nodes, plan)
    requires forall i :: 0 <= i < |doc| ==> doc[i] == [Leaf(nodes[i], None)]
    ensures Painted(doc, nodes, plan, |plan|)
  {
    forall i | 0 <= i < |doc| ensures BlockPainted(doc[i], nodes[i], plan, |plan|, i) {
      assert doc[i][1..] == [];
    }
  }

  ghost predicate MarksAreRight(painted: seq<Range>, block: Block, start: int, length: nat) {
    forall o :: 0 <= o < length ==> MarkIsRight(painted, block, o, start)
  }

  lemma PaintedIsRight(doc: seq<Block>, nodes: seq<string>, painted: seq<Range>, plan: seq<Entry>, i: nat)
    requires Painted(doc, nodes, plan, 0) && i < |nodes|
    requires PlanInOrder(nodes, plan) && NamesRight(painted, plan)
    requires forall x :: 0 <= x < |plan| ==> plan[x].covering != []
    requires Reaches(nodes, painted, plan, Start(nodes, |nodes|))
    ensures MarksAreRight(painted, doc[i], Start(nodes, i), |nodes[i]|)
  {
    assert BlockPainted(doc[i], nodes[i], plan, 0, i);
    hide BlockPainted, Start, MarkIsRight, NamesRight, PlanInOrder, Reaches;
    forall o | 0 <= o < |nodes[i]| ensures MarkIsRight(painted, doc[i], o, Start(nodes, i)) {
      CharacterIsRight(doc[i], nodes, painted, plan, i, o);
    }
  }

  lemma CharacterIsRight(block: Block, nodes: seq<string>, painted: seq<Range>, plan: seq<Entry>, i: nat, o: nat)
    requires i < |nodes| && o < |nodes[i]| && BlockPainted(block, nodes[i], plan, 0, i)
    requires PlanInOrder(nodes, plan) && NamesRight(painted, plan)
    requires forall x :: 0 <= x < |plan| ==> plan[x].covering != []
    requires Reaches(nodes, painted, plan, Start(nodes, |nodes|))
    ensures MarkIsRight(painted, block, o, Start(nodes, i))
  {
    hide NamesCovering, Start, MarkAt, Inside, IsCovered;
    var c := Start(nodes, i) + o;
    StartMonotone(nodes, 0, i);
    StartMonotone(nodes, i, |nodes|);
    if x :| Paints(plan, x, i, o) {
      CharacterOfPiece(nodes, plan, x, i, o);
      assert At(plan, x, c);
    } else {
      if IsCovered(painted, c) {
        var x :| At(plan, x, c);
        PieceOfCharacter(nodes, plan[x].piece, i, o);
      }
    }
  }

  lemma CharacterOfPiece(nodes: seq<string>, plan: seq<Entry>, x: int, i: nat, o: nat)
    requires PlanInOrder(nodes, plan) && i < |nodes| && Paints(plan, x, i, o)
    ensures At(plan, x, Start(nodes, i) + o)
  {
  }

  /** No character is in two planned pieces. */
  lemma OnePieceEach(nodes: seq<string>, plan: seq<Entry>, x: nat, y: nat, c: int)
    requires PlanInOrder(nodes, plan) && At(plan, x, c) && At(plan, y, c)
    ensures x == y
  {
    if x < y { PiecesApart(nodes, plan[x].piece, plan[y].piece, c); }
    if y < x { PiecesApart(nodes, plan[y].piece, plan[x].piece, c); }
  }

  lemma PiecesApart(nodes: seq<string>, p: Piece, q: Piece, c: int)
    requires Inside(nodes, p) && Inside(nodes, q) && Before(p, q)
    ensures !(From(p) <= c < p.end && From(q) <= c < q.end)
  {
    if p.node < q.node { StartMonotone(nodes, p.node, q.node); }
  }

  /** An offset inside a piece is a character of the piece's node. */
  lemma PieceOfCharacter(nodes: seq<string>, p: Piece, i: nat, o: nat)
    requires Inside(nodes, p) && i < |nodes| && o < |nodes[i]| && From(p) <= Start(nodes, i) + o < p.end
    ensures p.node == i && p.from <= o < p.to
  {
    if p.node < i { StartMonotone(nodes, p.node, i); }
    if i < p.node { StartMonotone(nodes, i, p.node); }
  }
}
