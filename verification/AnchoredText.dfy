/**
 A shared text whose characters keep their identity, and positions anchored to
 characters, as far as web/src/lib/track-changes.js relies on them: a deleted
 character stays behind as a tombstone, an insertion goes right in front of the
 next character that is left, and an anchor resolves to the number of
 characters left before the one it names.
 */
module AnchoredText {

  /** A character that was typed once; `live` until it is deleted. */
  datatype Cell = Cell(id: nat, ch: char, live: bool)

  type Doc = seq<Cell>

  datatype Anchor = OnCell(id: nat) | AtEnd

  /** A change in the coordinates of the text before it. */
  datatype Edit = Edit(from: nat, to: nat, insert: string)
  {
    function Growth(): int { |insert| - (to - from) }

    predicate Within(text: string) { from <= to <= |text| }
  }

  function Applied(text: string, e: Edit): string
    requires e.Within(text)
  {
    text[..e.from] + e.insert + text[e.to..]
  }

  /** The text that is left. */
  function Live(doc: Doc): string {
    if doc == [] then "" else (if doc[0].live then [doc[0].ch] else "") + Live(doc[1..])
  }

  function Resolve(doc: Doc, a: Anchor): (p: nat)
    ensures p <= |Live(doc)|
  {
    if doc == [] || a == OnCell(doc[0].id) then 0 else (if doc[0].live then 1 else 0) + Resolve(doc[1..], a)
  }

  /** The anchor of a position: the character that stands there, or the end of the text. */
  function AnchorAt(doc: Doc, p: nat): Anchor {
    if doc == [] then AtEnd
    else if doc[0].live && p == 0 then OnCell(doc[0].id)
    else AnchorAt(doc[1..], if doc[0].live then p - 1 else p)
  }

  /** The anchor's character has not been deleted; the end of the text never is. */
  predicate IsLive(doc: Doc, a: Anchor) {
    doc == [] || if a == OnCell(doc[0].id) then doc[0].live else IsLive(doc[1..], a)
  }

  ghost predicate Ids(doc: Doc, next: nat) {
    && (forall i :: 0 <= i < |doc| ==> doc[i].id < next)
    && (forall i, j :: 0 <= i < j < |doc| ==> doc[i].id != doc[j].id)
  }

  /** The anchor names no character that is still to be typed. */
  predicate Known(a: Anchor, next: nat) { a.OnCell? ==> a.id < next }

  /** Deletes the characters from..to. */
  function Remove(doc: Doc, from: nat, to: nat): Doc
    requires from <= to
  {
    if doc == [] || to == 0 then doc
    else if !doc[0].live then [doc[0]] + Remove(doc[1..], from, to)
    else if from == 0 then [doc[0].(live := false)] + Remove(doc[1..], 0, to - 1)
    else [doc[0]] + Remove(doc[1..], from - 1, to - 1)
  }

  /** Puts new characters right in front of character p, behind every tombstone before it. */
  function Put(doc: Doc, p: nat, added: Doc): Doc {
    if doc == [] || (doc[0].live && p == 0) then added + doc
    else [doc[0]] + Put(doc[1..], if doc[0].live then p - 1 else p, added)
  }

  function Typed(next: nat, insert: string): Doc {
    seq(|insert|, i requires 0 <= i < |insert| => Cell(next + i, insert[i], true))
  }

  /** The change as the editor makes it: the deletion, then the insertion. */
  function Change(doc: Doc, next: nat, e: Edit): Doc
    requires e.from <= e.to
  {
    Put(Remove(doc, e.from, e.to), e.from, Typed(next, e.insert))
  }

  // ----- The text after a change -----

  lemma {:induction false} LiveConcat(x: Doc, y: Doc)
    ensures Live(x + y) == Live(x) + Live(y)
  {
    if x == [] {
      assert x + y == y && "" + Live(y) == Live(y);
    } else {
      assert (x + y)[1..] == x[1..] + y;
      LiveConcat(x[1..], y);
      LiveFront(x);
      LiveFront(x + y);
      hide Live;
      assert (if x[0].live then [x[0].ch] else "") + (Live(x[1..]) + Live(y)) == Live(x) + Live(y);
    }
  }

  lemma LiveFront(doc: Doc)
    ensures doc == [] ==> Live(doc) == ""
    ensures doc != [] ==> Live(doc) == (if doc[0].live then [doc[0].ch] else "") + Live(doc[1..])
  {
  }

  lemma {:induction false} LiveTyped(next: nat, insert: string)
    ensures Live(Typed(next, insert)) == insert
    decreases |insert|
  {
    if insert != "" {
      assert Typed(next, insert)[1..] == Typed(next + 1, insert[1..]);
      LiveTyped(next + 1, insert[1..]);
    }
  }

  lemma {:induction false} LiveRemoved(doc: Doc, from: nat, to: nat)
    requires from <= to <= |Live(doc)|
    ensures Live(Remove(doc, from, to)) == Live(doc)[..from] + Live(doc)[to..]
  {
    LiveFront(doc);
    if doc == [] || to == 0 {
      assert Live(doc)[..0] + Live(doc)[0..] == Live(doc);
    } else {
      LiveFront(Remove(doc, from, to));
      var rest := Live(doc[1..]);
      hide Live;
      if !doc[0].live {
        LiveRemoved(doc[1..], from, to);
        assert "" + rest == rest;
      } else if from == 0 {
        LiveRemoved(doc[1..], 0, to - 1);
        DropFront(doc[0].ch, rest, to);
      } else {
        LiveRemoved(doc[1..], from - 1, to - 1);
        DropFront(doc[0].ch, rest, to);
        TakeFront(doc[0].ch, rest, from);
      }
    }
  }

  lemma DropFront(c: char, s: string, k: nat)
    requires 0 < k <= |s| + 1
    ensures ([c] + s)[k..] == s[k - 1..] && ([c] + s)[..0] + s[k - 1..] == s[k - 1..]
    ensures "" + s[..0] + s[k - 1..] == s[k - 1..]
  {
  }

  lemma TakeFront(c: char, s: string, k: nat)
    requires 0 < k <= |s| + 1
    ensures ([c] + s)[..k] == [c] + s[..k - 1]
  {
  }

  lemma {:induction false} LivePut(doc: Doc, p: nat, added: Doc)
    requires p <= |Live(doc)|
    ensures Live(Put(doc, p, added)) == Live(doc)[..p] + Live(added) + Live(doc)[p..]
  {
    if doc == [] || (doc[0].live && p == 0) {
      LiveConcat(added, doc);
    } else {
      var text, rest, q := Live(doc), Live(doc[1..]), if doc[0].live then p - 1 else p;
      LivePut(doc[1..], q, added);
      assert text[..p] == (if doc[0].live then [doc[0].ch] else "") + rest[..q] && text[p..] == rest[q..];
    }
  }

  /** The cells after a change spell the changed text. */
  lemma LiveChanged(doc: Doc, next: nat, e: Edit)
    requires e.Within(Live(doc))
    ensures Live(Change(doc, next, e)) == Applied(Live(doc), e)
  {
    LiveRemoved(doc, e.from, e.to);
    LivePut(Remove(doc, e.from, e.to), e.from, Typed(next, e.insert));
    LiveTyped(next, e.insert);
  }

  // ----- Anchors -----

  /** An anchor resolves to the position it was made for. */
  lemma {:induction false} AnchorResolves(doc: Doc, next: nat, p: nat)
    requires Ids(doc, next) && p <= |Live(doc)|
    ensures Resolve(doc, AnchorAt(doc, p)) == p && IsLive(doc, AnchorAt(doc, p)) && Known(AnchorAt(doc, p), next)
    ensures AnchorAt(doc, p).OnCell? ==> exists i :: 0 <= i < |doc| && doc[i].id == AnchorAt(doc, p).id
  {
    if doc != [] && !(doc[0].live && p == 0) {
      var rest := doc[1..];
      forall i | 0 <= i < |rest| ensures rest[i].id < next && rest[i].id != doc[0].id { assert rest[i] == doc[i + 1]; }
      AnchorResolves(rest, next, if doc[0].live then p - 1 else p);
    }
  }

  /** Where a position goes: one on a character moves with it, one on a tombstone stays behind what is typed there. */
  function Moved(p: nat, live: bool, e: Edit): int {
    if e.to < p || (live && e.to == p) then p + e.Growth() else if p <= e.from then p else e.from
  }

  lemma {:induction false} ResolveRemoved(doc: Doc, from: nat, to: nat, a: Anchor)
    requires from <= to <= |Live(doc)|
    ensures var p, q := Resolve(doc, a), Resolve(Remove(doc, from, to), a);
      && q == (if p <= from then p else if p <= to then from else p - (to - from))
      && (IsLive(Remove(doc, from, to), a) <==> IsLive(doc, a) && (p < from || to <= p))
  {
    LiveFront(doc);
    hide Live;
    if doc != [] && to > 0 {
      if !doc[0].live {
        ResolveRemoved(doc[1..], from, to, a);
      } else if from == 0 {
        ResolveRemoved(doc[1..], 0, to - 1, a);
      } else {
        ResolveRemoved(doc[1..], from - 1, to - 1, a);
      }
    }
  }

  lemma {:induction false} ResolveBehind(added: Doc, doc: Doc, a: Anchor)
    requires forall i :: 0 <= i < |added| ==> added[i].live && a != OnCell(added[i].id)
    ensures Resolve(added + doc, a) == |added| + Resolve(doc, a)
  {
    if added == [] {
      assert added + doc == doc;
    } else {
      assert (added + doc)[1..] == added[1..] + doc;
      ResolveBehind(added[1..], doc, a);
    }
  }

  lemma {:induction false} ResolvePut(doc: Doc, p: nat, added: Doc, a: Anchor)
    requires p <= |Live(doc)|
    requires forall i :: 0 <= i < |added| ==> added[i].live && a != OnCell(added[i].id)
    ensures var q := Resolve(doc, a);
      Resolve(Put(doc, p, added), a) == if p < q || (p == q && IsLive(doc, a)) then q + |added| else q
  {
    if doc == [] || (doc[0].live && p == 0) {
      ResolveBehind(added, doc, a);
    } else {
      ResolvePut(doc[1..], if doc[0].live then p - 1 else p, added, a);
    }
  }

  /** Every anchor moves by that rule. */
  lemma AnchorMoves(doc: Doc, next: nat, e: Edit, a: Anchor)
    requires e.Within(Live(doc)) && Known(a, next)
    ensures Resolve(Change(doc, next, e), a) == Moved(Resolve(doc, a), IsLive(doc, a), e)
  {
    hide Live, Resolve, IsLive, Remove, Put;
    ResolveRemoved(doc, e.from, e.to, a);
    LiveRemoved(doc, e.from, e.to);
    ResolvePut(Remove(doc, e.from, e.to), e.from, Typed(next, e.insert), a);
  }

  // ----- Identities -----

  ghost predicate SameIds(x: Doc, y: Doc) { |x| == |y| && forall i :: 0 <= i < |x| ==> x[i].id == y[i].id }

  lemma {:induction false} RemoveKeepsIds(doc: Doc, from: nat, to: nat)
    requires from <= to
    ensures SameIds(Remove(doc, from, to), doc)
  {
    if doc != [] && to > 0 {
      if !doc[0].live {
        RemoveKeepsIds(doc[1..], from, to);
      } else if from == 0 {
        RemoveKeepsIds(doc[1..], 0, to - 1);
      } else {
        RemoveKeepsIds(doc[1..], from - 1, to - 1);
      }
    }
  }

  lemma {:induction false} PutSplits(doc: Doc, p: nat, added: Doc) returns (k: nat)
    ensures k <= |doc| && Put(doc, p, added) == doc[..k] + added + doc[k..]
  {
    if doc == [] || (doc[0].live && p == 0) {
      k := 0;
    } else {
      k := PutSplits(doc[1..], if doc[0].live then p - 1 else p, added);
      k := k + 1;
      assert doc[..k] == [doc[0]] + doc[1..][..k - 1] && doc[k..] == doc[1..][k - 1..];
    }
  }

  /** New characters get new identities. */
  lemma ChangeKeepsIds(doc: Doc, next: nat, e: Edit)
    requires Ids(doc, next) && e.from <= e.to
    ensures Ids(Change(doc, next, e), next + |e.insert|)
  {
    hide Remove, Put;
    var left, added := Remove(doc, e.from, e.to), Typed(next, e.insert);
    RemoveKeepsIds(doc, e.from, e.to);
    var k := PutSplits(left, e.from, added);
    IdsSpliced(doc, left, next, added, k);
  }

  lemma IdsSpliced(doc: Doc, left: Doc, next: nat, added: Doc, k: nat)
    requires Ids(doc, next) && SameIds(left, doc) && k <= |left|
    requires forall i :: 0 <= i < |added| ==> added[i].id == next + i
    ensures Ids(left[..k] + added + left[k..], next + |added|)
  {
    var all := left[..k] + added + left[k..];
    forall i | 0 <= i < |all|
      ensures all[i].id == if i < k then doc[i].id else if i < k + |added| then next + (i - k) else doc[i - |added|].id
    {
    }
  }

  lemma {:induction false} NothingRemoved(doc: Doc, from: nat)
    ensures Remove(doc, from, from) == doc
  {
    if doc != [] && from > 0 { NothingRemoved(doc[1..], if doc[0].live then from - 1 else from); }
  }

  /** A change that deletes and inserts nothing leaves every cell as it is. */
  lemma NothingChanged(doc: Doc, next: nat, e: Edit)
    requires e.from == e.to && e.insert == ""
    ensures Change(doc, next, e) == doc
  {
    NothingRemoved(doc, e.from);
    assert Typed(next, e.insert) == [];
    var k := PutSplits(doc, e.from, []);
    assert doc[..k] + [] + doc[k..] == doc;
  }
}
