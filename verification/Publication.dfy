/**
 Building the closed bundle of a published page
 (web/src/lib/publication-builder.js, `buildDisplayBundle`): a depth-first walk
 over the references that remembers finished resources and refuses cycles.
 */
module Publication {
  import opened Basics
  import opened CssScanner
  import opened PublicationGraph
  import SourceEdits
  import SourceSets

  datatype Error = MissingDependency | CircularDependency | SourceMap | RelativeImports | BaseElement

  datatype Result<T> = Ok(value: T) | Err(error: Error)

  datatype Asset = Asset(path: string, bytes: string, mime: string)

  // ----- Rewriting from the right -----

  lemma {:induction false} ApplyLater(text: string, edits: seq<SourceEdits.Edit<char>>, from: nat, c: nat)
    requires from <= c <= |text| && SourceEdits.Sorted(edits) && SourceEdits.Within(edits, c, |text|)
    ensures SourceEdits.ApplyFrom(text, edits, from) == text[from..c] + SourceEdits.ApplyFrom(text, edits, c)
  {
    if edits == [] {
      assert text[from..] == text[from..c] + text[c..];
    } else {
      SourceEdits.TailFits(edits, c, |text|);
      hide SourceEdits.Sorted, SourceEdits.Within;
      var e := edits[0];
      assert text[from..e.at] == text[from..c] + text[c..e.at];
      var rest := SourceEdits.ApplyFrom(text, edits[1..], e.End());
      assert SourceEdits.ApplyFrom(text, edits, c) == text[c..e.at] + e.insert + rest;
      assert SourceEdits.ApplyFrom(text, edits, from) == text[from..e.at] + e.insert + rest;
      hide SourceEdits.ApplyFrom;
      assert text[from..c] + (text[c..e.at] + e.insert + rest) == text[from..c] + text[c..e.at] + e.insert + rest;
    }
  }

  /** Splicing one more edit in front of those already made is making them all at once. */
  lemma SpliceFront(text: string, edits: seq<SourceEdits.Edit<char>>, k: nat)
    requires SourceEdits.Fits(edits, |text|) && k < |edits|
    ensures var done := SourceEdits.Apply(text, edits[k + 1..]);
            && edits[k].End() <= |done|
            && SourceEdits.Apply(text, edits[k..])
            == done[..edits[k].at] + edits[k].insert + done[edits[k].End()..]
  {
    var rest, e := edits[k + 1..], edits[k];
    assert SourceEdits.Within(rest, e.End(), |text|);
    ApplyLater(text, rest, 0, e.End());
    assert edits[k..][0] == e && edits[k..][1..] == rest;
    var after := SourceEdits.ApplyFrom(text, rest, e.End());
    assert text[0..e.End()] == text[0..e.at] + text[e.at..e.End()];
  }

  // ----- What the builder keeps -----

  ghost predicate Extends(names: map<Path, string>, more: map<Path, string>) {
    forall path :: path in names ==> path in more && names[path] == more[path]
  }

  predicate Served(goal: Goal, names: map<Path, string>) { goal.Kept? || (goal.To? && goal.path in names) }

  ghost predicate AllServed(tree: Tree, css: string, from: Path, names: map<Path, string>) {
    forall i :: 0 <= i < Count(css) ==> Served(GoalAt(tree, css, from, i), names)
  }

  /** The paths being resolved are a walk to the one whose references are followed now. */
  ghost predicate OnStack(tree: Tree, stack: seq<Path>, resolving: set<Path>) {
    (stack != [] ==> Walk(tree, stack)) && forall path :: path in stack <==> path in resolving
  }

  ghost predicate IsAsset(tree: Tree, path: Path, names: map<Path, string>, key: string, asset: Asset) {
    && path in names && Lookup(tree, path).Some?
    && key == "assets/" + names[path]
    && asset == Asset(key, FinalText(tree, path, names), Lookup(tree, path).value.mime)
  }

  ghost predicate HasAsset(names: map<Path, string>, path: Path, assets: map<string, Asset>) {
    path in names && "assets/" + names[path] in assets
  }

  ghost predicate IsSomeAsset(tree: Tree, names: map<Path, string>, key: string, asset: Asset) {
    exists path :: IsAsset(tree, path, names, key, asset)
  }

  /** One asset for every name, holding the final text of a resource of that name, and no others. */
  ghost predicate AssetsRight(tree: Tree, names: map<Path, string>, assets: map<string, Asset>) {
    && (forall path :: path in names ==> HasAsset(names, path, assets))
    && (forall key :: key in assets ==> IsSomeAsset(tree, names, key, assets[key]))
  }

  ghost predicate ReachedFromStyle(tree: Tree, css: string, from: Path, path: Path) {
    exists i :: 0 <= i < Count(css) && ReachedFromGoal(tree, GoalAt(tree, css, from, i), path)
  }

  ghost predicate ReachedFromGoal(tree: Tree, goal: Goal, path: Path) { goal.To? && Reaches(tree, goal.path, path) }

  ghost predicate FaultyStyle(tree: Tree, css: string, from: Path) {
    exists i :: 0 <= i < Count(css) && FaultyGoal(tree, GoalAt(tree, css, from, i))
  }

  function Sources(tree: Tree): set<Path> { tree.assets.Keys + tree.texts.Keys + tree.fetched.Keys }

  // ----- Sets of references -----

  function SetSize(value: string): nat { |SourceSets.Candidates(value)| }

  function SetGoal(tree: Tree, value: string, from: Path, k: nat): Goal
    requires k < SetSize(value)
  {
    GoalOf(tree, SourceSets.Candidates(value)[k].reference, from)
  }

  ghost predicate SetServed(tree: Tree, value: string, from: Path, names: map<Path, string>, count: nat)
    requires count <= SetSize(value)
  {
    forall k :: 0 <= k < count ==> Served(SetGoal(tree, value, from, k), names)
  }

  /** The first `count` references of the set, rewritten. */
  function SetLinks(tree: Tree, value: string, from: Path, names: map<Path, string>, count: nat): (links: seq<string>)
    requires count <= SetSize(value)
    ensures |links| == count
  {
    seq(count, k requires 0 <= k < count =>
      Link(tree, SourceSets.Candidates(value)[k].reference, from, names, false))
  }

  ghost predicate ReachedFromSet(tree: Tree, value: string, from: Path, path: Path) {
    exists k :: 0 <= k < SetSize(value) && ReachedFromGoal(tree, SetGoal(tree, value, from, k), path)
  }

  ghost predicate FaultySet(tree: Tree, value: string, from: Path) {
    exists k :: 0 <= k < SetSize(value) && FaultyGoal(tree, SetGoal(tree, value, from, k))
  }

  ghost predicate OnlyFromSet(tree: Tree, value: string, from: Path, names: map<Path, string>,
                              more: map<Path, string>) {
    forall path :: path in more && path !in names ==> ReachedFromSet(tree, value, from, path)
  }

  lemma SameLink(tree: Tree, reference: string, from: Path, names: map<Path, string>, more: map<Path, string>,
                 nested: bool)
    requires Served(GoalOf(tree, reference, from), names) && Extends(names, more)
    ensures Link(tree, reference, from, names, nested) == Link(tree, reference, from, more, nested)
    ensures Served(GoalOf(tree, reference, from), more)
  {
    hide GoalOf, Suffix;
  }

  /** What was rewritten stays as it is when more names are given. */
  lemma SetStays(tree: Tree, value: string, from: Path, names: map<Path, string>, more: map<Path, string>, count: nat)
    requires count <= SetSize(value) && SetServed(tree, value, from, names, count) && Extends(names, more)
    ensures SetServed(tree, value, from, more, count)
    ensures SetLinks(tree, value, from, more, count) == SetLinks(tree, value, from, names, count)
  {
    hide Link, GoalOf, Extends, Served;
    forall k | 0 <= k < count
      ensures Served(SetGoal(tree, value, from, k), more)
      ensures SetLinks(tree, value, from, more, count)[k] == SetLinks(tree, value, from, names, count)[k]
    {
      assert Served(SetGoal(tree, value, from, k), names);
      SameLink(tree, SourceSets.Candidates(value)[k].reference, from, names, more, false);
    }
  }

  // ----- Lemmas about single steps -----

  lemma FoundInSources(tree: Tree, path: Path)
    requires Lookup(tree, path).Some?
    ensures path in Sources(tree)
  {
  }

  /** A reference back to something being resolved closes a cycle. */
  lemma BackReferenceIsCycle(tree: Tree, stack: seq<Path>, path: Path)
    requires stack != [] && Walk(tree, stack) && path in stack && Edge(tree, stack[|stack| - 1], path)
    ensures OnCycle(tree, path)
  {
    hide Edge;
    var k :| 0 <= k < |stack| && stack[k] == path;
    var walk := stack[k..] + [path];
    assert Walk(tree, walk) by {
      forall i | 0 <= i < |walk| - 1 ensures Edge(tree, walk[i], walk[i + 1]) {
        if i < |walk| - 2 { assert Edge(tree, stack[k + i], stack[k + i + 1]); }
      }
    }
    assert WalkBetween(tree, walk, path, path);
  }

  lemma StackGrows(tree: Tree, stack: seq<Path>, resolving: set<Path>, path: Path)
    requires OnStack(tree, stack, resolving) && (stack != [] ==> Edge(tree, stack[|stack| - 1], path))
    ensures OnStack(tree, stack + [path], resolving + {path})
  {
    hide Edge;
    var longer := stack + [path];
    forall i | 0 <= i < |longer| - 1 ensures Edge(tree, longer[i], longer[i + 1]) {
      if i < |longer| - 2 { assert Edge(tree, stack[i], stack[i + 1]); }
    }
  }

  lemma SettledStays(tree: Tree, path: Path, known: seq<Path>, names: map<Path, string>, more: map<Path, string>)
    requires Settled(tree, path, known, names) && Extends(names, more)
    requires forall other :: other in known ==> other in names
    ensures Settled(tree, path, known, more)
    ensures FinalText(tree, path, names) == FinalText(tree, path, more)
  {
    hide Edge, Rejected, NameIn, FinalText;
    SameResource(tree, path, names, more);
  }

  /** A finished resource can be added at the end of the order. */
  lemma CertificateGrows(tree: Tree, order: seq<Path>, names: map<Path, string>, path: Path, name: string)
    requires Certificate(tree, order, names) && path !in names
    requires Settled(tree, path, order, names[path := name])
    ensures Certificate(tree, order + [path], names[path := name])
  {
    hide Settled;
    var longer, more := order + [path], names[path := name];
    forall i | 0 <= i < |longer| ensures Settled(tree, longer[i], longer[..i], more) {
      if i < |order| {
        assert longer[..i] == order[..i];
        SettledStays(tree, order[i], order[..i], names, more);
      } else {
        assert longer[..i] == order;
      }
    }
  }

  lemma AssetStays(tree: Tree, order: seq<Path>, names: map<Path, string>, more: map<Path, string>, path: Path,
                   key: string, asset: Asset)
    requires Certificate(tree, order, names) && Extends(names, more) && IsAsset(tree, path, names, key, asset)
    ensures IsAsset(tree, path, more, key, asset)
  {
    hide Settled, FinalText, Lookup;
    var i :| 0 <= i < |order| && order[i] == path;
    SettledStays(tree, path, order[..i], names, more);
  }

  lemma AssetsGrow(tree: Tree, order: seq<Path>, names: map<Path, string>, assets: map<string, Asset>, path: Path,
                   name: string, asset: Asset)
    requires Certificate(tree, order, names) && AssetsRight(tree, names, assets) && path !in names
    requires IsAsset(tree, path, names[path := name], "assets/" + name, asset)
    ensures AssetsRight(tree, names[path := name], assets["assets/" + name := asset])
  {
    hide Certificate, IsAsset;
    var more, all, added := names[path := name], assets["assets/" + name := asset], "assets/" + name;
    forall other | other in more ensures HasAsset(more, other, all) {
      if other != path { assert HasAsset(names, other, assets); }
    }
    forall key | key in all ensures IsSomeAsset(tree, more, key, all[key]) {
      if key != added {
        assert IsSomeAsset(tree, names, key, assets[key]);
        var other :| IsAsset(tree, other, names, key, assets[key]);
        AssetStays(tree, order, names, more, other, key, assets[key]);
      }
    }
  }

  /** The style sheet at the top of the stack, or one of the page itself. */
  ghost predicate Current(tree: Tree, stack: seq<Path>, css: string, from: Path) {
    stack != [] ==> from == stack[|stack| - 1] && IsStyle(tree, from) && Lookup(tree, from).value.text == css
  }

  ghost predicate Follows(tree: Tree, stack: seq<Path>, goal: Goal) {
    stack != [] && goal.To? ==> Edge(tree, stack[|stack| - 1], goal.path)
  }

  /** Everything referred to is finished, and the rewritten text points to a source map. */
  ghost predicate Mapped(tree: Tree, css: string, from: Path, names: map<Path, string>, nested: bool) {
    AllServed(tree, css, from, names) && HasSourceMap(Rewritten(tree, css, from, names, nested))
  }

  /** New names are only given to what the goal reaches. */
  ghost predicate OnlyReached(tree: Tree, goal: Goal, names: map<Path, string>, more: map<Path, string>) {
    forall path :: path in more && path !in names ==> ReachedFromGoal(tree, goal, path)
  }

  ghost predicate OnlyFromStyle(tree: Tree, css: string, from: Path, names: map<Path, string>,
                                more: map<Path, string>) {
    forall path :: path in more && path !in names ==> ReachedFromStyle(tree, css, from, path)
  }

  /** The references of the style sheet from number k on are served and rewritten. */
  ghost predicate RewrittenFrom(tree: Tree, css: string, from: Path, names: map<Path, string>, nested: bool, k: nat,
                                text: string) {
    k <= Count(css)
    && (forall i :: k <= i < Count(css) ==> Served(GoalAt(tree, css, from, i), names))
    && SourceEdits.Fits(Edits(tree, css, from, names, nested)[k..], |css|)
    && text == SourceEdits.Apply(css, Edits(tree, css, from, names, nested)[k..])
  }

  lemma NothingRewritten(tree: Tree, css: string, from: Path, names: map<Path, string>, nested: bool)
    ensures RewrittenFrom(tree, css, from, names, nested, Count(css), css)
  {
    hide EditAt, Count;
    assert Edits(tree, css, from, names, nested)[Count(css)..] == [];
  }

  lemma TailOfFits(edits: seq<SourceEdits.Edit<char>>, n: int, k: nat)
    requires SourceEdits.Fits(edits, n) && k <= |edits|
    ensures SourceEdits.Fits(edits[k..], n)
  {
  }

  lemma OneMoreRewritten(tree: Tree, css: string, from: Path, names: map<Path, string>, more: map<Path, string>,
                         nested: bool, k: nat, text: string)
    requires k < Count(css) && Extends(names, more) && RewrittenFrom(tree, css, from, names, nested, k + 1, text)
    requires Served(GoalAt(tree, css, from, k), more)
    ensures var e := EditAt(tree, css, from, more, nested, k);
            && e.End() <= |text|
            && RewrittenFrom(tree, css, from, more, nested, k, text[..e.at] + e.insert + text[e.End()..])
  {
    var edits, edits' := Edits(tree, css, from, names, nested), Edits(tree, css, from, more, nested);
    EditsFit(tree, css, from, more, nested);
    hide EditAt, Count, GoalAt, SourceEdits.Apply, SourceEdits.Fits;
    forall i | k < i < Count(css)
      ensures Served(GoalAt(tree, css, from, i), more)
      ensures EditAt(tree, css, from, names, nested, i) == EditAt(tree, css, from, more, nested, i)
    {
      assert Served(GoalAt(tree, css, from, i), names);
      SameEdit(tree, css, from, names, more, nested, i);
    }
    assert edits[k + 1..] == edits'[k + 1..];
    SpliceFront(css, edits', k);
    TailOfFits(edits', |css|, k);
  }

  lemma AllRewritten(tree: Tree, css: string, from: Path, names: map<Path, string>, nested: bool, text: string)
    requires RewrittenFrom(tree, css, from, names, nested, 0, text)
    ensures AllServed(tree, css, from, names) && text == Rewritten(tree, css, from, names, nested)
  {
    hide EditAt, GoalAt, Count;
    assert Edits(tree, css, from, names, nested)[0..] == Edits(tree, css, from, names, nested);
  }

  /** A resource whose references are all served can be settled under its own name. */
  lemma BecomesSettled(tree: Tree, order: seq<Path>, names: map<Path, string>, path: Path, name: string)
    requires Certificate(tree, order, names) && path !in names && Lookup(tree, path).Some?
    requires IsStyle(tree, path) ==> AllServed(tree, Lookup(tree, path).value.text, path, names)
    requires !Rejected(tree, path, names) && name == NameIn(tree, path, names)
    ensures ClosedUnder(tree, path, order)
    ensures Settled(tree, path, order, names[path := name])
    ensures FinalText(tree, path, names) == FinalText(tree, path, names[path := name])
  {
    hide Certificate, Rejected, NameIn, FinalText, GoalAt, Count;
    ClosedWhenServed(tree, order, names, path);
    assert forall other :: other in order ==> other in names by { InOrderIsNamed(tree, order, names); }
    SameResource(tree, path, names, names[path := name]);
  }

  lemma InOrderIsNamed(tree: Tree, order: seq<Path>, names: map<Path, string>)
    requires Certificate(tree, order, names)
    ensures forall path :: path in names <==> path in order
  {
  }

  lemma ClosedWhenServed(tree: Tree, order: seq<Path>, names: map<Path, string>, path: Path)
    requires Certificate(tree, order, names)
    requires IsStyle(tree, path) ==> AllServed(tree, Lookup(tree, path).value.text, path, names)
    ensures ClosedUnder(tree, path, order)
  {
    hide GoalAt, Count, Settled;
    forall other | Edge(tree, path, other) ensures other in order {
      var css := Lookup(tree, path).value.text;
      var i :| 0 <= i < Count(css) && GoalAt(tree, css, path, i) == To(other);
      assert Served(GoalAt(tree, css, path, i), names);
    }
  }

  lemma GoalIsEdge(tree: Tree, stack: seq<Path>, css: string, from: Path, i: nat)
    requires Current(tree, stack, css, from) && i < Count(css)
    ensures Follows(tree, stack, GoalAt(tree, css, from, i))
  {
    hide GoalAt, Count;
    if stack != [] && GoalAt(tree, css, from, i).To? {
      assert RefersTo(tree, css, from, GoalAt(tree, css, from, i).path);
    }
  }

  /** A fault among the references of a resource is a fault of the resource. */
  lemma FaultyStyleIsFaulty(tree: Tree, path: Path)
    requires IsStyle(tree, path) && FaultyStyle(tree, Lookup(tree, path).value.text, path)
    ensures FaultyPath(tree, path)
  {
    hide GoalAt, Count, FaultyPath, Unfit;
    var css := Lookup(tree, path).value.text;
    var i :| 0 <= i < Count(css) && FaultyGoal(tree, GoalAt(tree, css, path, i));
    if GoalAt(tree, css, path, i) == Lost {
      assert !LosesNone(tree, css, path);
      LosingIsUnfit(tree, path);
      FaultyHere(tree, path);
    } else {
      assert RefersTo(tree, css, path, GoalAt(tree, css, path, i).path);
      FaultyOn(tree, path, GoalAt(tree, css, path, i).path);
    }
  }

  lemma LosingIsUnfit(tree: Tree, path: Path)
    requires Lookup(tree, path).None? || (IsStyle(tree, path) && !LosesNone(tree, Lookup(tree, path).value.text, path))
    ensures Unfit(tree, path)
  {
  }

  lemma RejectedIsFaulty(tree: Tree, order: seq<Path>, names: map<Path, string>, path: Path)
    requires Objection(tree, path, order, names)
    ensures FaultyPath(tree, path)
  {
    assert Unfit(tree, path) by { hide Objection; }
    FaultyHere(tree, path);
  }

  /** The style sheet at `path` cannot be rewritten. */
  lemma StyleFails(tree: Tree, order: seq<Path>, names: map<Path, string>, path: Path)
    requires IsStyle(tree, path) && Certificate(tree, order, names)
    requires var css := Lookup(tree, path).value.text;
      FaultyStyle(tree, css, path) || Mapped(tree, css, path, names, true)
    ensures FaultyPath(tree, path)
  {
    hide Certificate, GoalAt, Count, Rewritten, FaultyPath, FaultyStyle, HasSourceMap;
    if FaultyStyle(tree, Lookup(tree, path).value.text, path) {
      FaultyStyleIsFaulty(tree, path);
    } else {
      ClosedWhenServed(tree, order, names, path);
      RejectedIsFaulty(tree, order, names, path);
    }
  }

  lemma ScriptFails(tree: Tree, order: seq<Path>, names: map<Path, string>, path: Path)
    requires Lookup(tree, path).Some? && Lookup(tree, path).value.mime == SCRIPT && Certificate(tree, order, names)
    requires var text := Lookup(tree, path).value.text; HasSourceMap(text) || tree.importsRelative(text)
    ensures FaultyPath(tree, path)
  {
    hide Certificate, FaultyPath, FinalText, RefersTo, HasSourceMap;
    RejectedIsFaulty(tree, order, names, path);
  }

  /** Everything still fits once the resource has its name and its asset. */
  lemma Finished(tree: Tree, order: seq<Path>, names: map<Path, string>, assets: map<string, Asset>, path: Path,
                 bytes: string)
    requires Certificate(tree, order, names) && AssetsRight(tree, names, assets) && path !in names
    requires Lookup(tree, path).Some?
    requires var resource := Lookup(tree, path).value;
      if resource.mime == CSS
      then
        && AllServed(tree, resource.text, path, names) && !HasSourceMap(bytes)
        && bytes == Rewritten(tree, resource.text, path, names, true)
      else bytes == resource.text && (resource.mime == SCRIPT ==> !HasSourceMap(bytes) && !tree.importsRelative(bytes))
    ensures var resource := Lookup(tree, path).value;
      var name := tree.digest(bytes) + "." + resource.extension;
      && Certificate(tree, order + [path], names[path := name])
      && AssetsRight(tree, names[path := name],
        assets["assets/" + name := Asset("assets/" + name, bytes, resource.mime)])
  {
    hide Certificate, AssetsRight, Rewritten, HasSourceMap, Lookup, AllServed, Settled;
    var resource := Lookup(tree, path).value;
    var name := tree.digest(bytes) + "." + resource.extension;
    BecomesSettled(tree, order, names, path, name);
    CertificateGrows(tree, order, names, path, name);
    AssetsGrow(tree, order, names, assets, path, name, Asset("assets/" + name, bytes, resource.mime));
  }

  lemma FinishedReaches(tree: Tree, path: Path, was: map<Path, string>, names: map<Path, string>, name: string)
    requires
      if IsStyle(tree, path) then OnlyFromStyle(tree, Lookup(tree, path).value.text, path, was, names)
      else names == was
    ensures OnlyReached(tree, To(path), was, names[path := name])
  {
    hide Reaches, Lookup;
    ReachesItself(tree, path);
    if IsStyle(tree, path) { ReachedThroughStyle(tree, path, was, names, names[path := name]); }
  }

  lemma TokensInText(css: string)
    ensures InOrder(css, References(css), 0)
  {
    ScanInOrder(css, 0);
  }

  /** What one reference is, reaches and fails for, the style sheet is, reaches and fails for. */
  lemma OneReference(tree: Tree, css: string, from: Path, k: nat)
    requires k < Count(css)
    ensures var token := References(css)[k];
      && token.start <= token.end <= |css|
      && GoalAt(tree, css, from, k) == GoalOf(tree, ReferenceOf(css, token), from)
    ensures forall path :: ReachedFromGoal(tree, GoalAt(tree, css, from, k), path) ==>
        ReachedFromStyle(tree, css, from, path)
    ensures FaultyGoal(tree, GoalAt(tree, css, from, k)) ==> FaultyStyle(tree, css, from)
  {
    hide GoalOf, Reaches, Scan, FaultyGoal;
    TokensInText(css);
  }

  lemma OneEdit(tree: Tree, css: string, from: Path, names: map<Path, string>, nested: bool, k: nat)
    requires k < Count(css)
    ensures var token, e := References(css)[k], EditAt(tree, css, from, names, nested, k);
      && token.start <= token.end <= |css| && e.at == token.start && e.End() == token.end
      && e.insert == Link(tree, ReferenceOf(css, token), from, names, nested)
  {
    hide Link, ReferenceOf, Scan;
    TokensInText(css);
  }

  lemma ReachedThroughStyle(tree: Tree, path: Path, names: map<Path, string>, more: map<Path, string>,
                            last: map<Path, string>)
    requires IsStyle(tree, path) && OnlyFromStyle(tree, Lookup(tree, path).value.text, path, names, more)
    requires forall other :: other in last ==> other in more || other == path
    ensures OnlyReached(tree, To(path), names, last)
  {
    hide GoalAt, Count, Reaches;
    var css := Lookup(tree, path).value.text;
    forall other | other in last && other !in names ensures ReachedFromGoal(tree, To(path), other) {
      if other == path {
        ReachesItself(tree, path);
      } else {
        assert ReachedFromStyle(tree, css, path, other);
        var i :| 0 <= i < Count(css) && ReachedFromGoal(tree, GoalAt(tree, css, path, i), other);
        assert RefersTo(tree, css, path, GoalAt(tree, css, path, i).path);
        ReachesOn(tree, path, GoalAt(tree, css, path, i).path, other);
      }
    }
  }

  class Builder {
    const tree: Tree
    var objects: map<Path, string>
    var resolving: set<Path>
    var assets: map<string, Asset>
    ghost var order: seq<Path>

    ghost predicate Valid()
      reads this
    {
      && Certificate(tree, order, objects)
      && AssetsRight(tree, objects, assets)
      && forall path :: path in objects ==> path !in resolving
    }

    constructor (tree: Tree)
      ensures Valid() && this.tree == tree && objects == map[] && resolving == {}
    {
      this.tree := tree;
      objects, resolving, assets, order := map[], {}, map[], [];
    }

    /**
     Rewrites one reference, first building what it leads to. Fails exactly
     for a goal with a fault somewhere behind it.
     */
    method Dependency(reference: string, from: Path, nested: bool, ghost stack: seq<Path>) returns (r: Result<string>)
      requires Valid() && OnStack(tree, stack, resolving)
      requires Follows(tree, stack, GoalOf(tree, reference, from))
      modifies this
      ensures Valid() && resolving == old(resolving) && Extends(old(objects), objects)
      ensures r.Ok? ==> Served(GoalOf(tree, reference, from), objects)
      ensures r.Ok? ==> r.value == Link(tree, reference, from, objects, nested)
      ensures r.Ok? ==> OnlyReached(tree, GoalOf(tree, reference, from), old(objects), objects)
      ensures r.Err? ==> FaultyGoal(tree, GoalOf(tree, reference, from))
      decreases Sources(tree) - resolving, 1
    {
      hide Certificate, AssetsRight, Edge, FaultyPath, Rewritten, FinalText, NameIn, Rejected, GoalAt, Count, OnCycle,
           Reaches,
           RewrittenFrom, EditAt, Unfit, GoalOf, Suffix, Lookup, HasSourceMap, Walk, Sources, Mapped, AllServed;
      var goal := GoalOf(tree, reference, from);
      if goal.Kept? { return Ok(reference); }
      if goal.Lost? { return Err(MissingDependency); }
      var path := goal.path;
      if path in resolving {
        assert path in stack;
        BackReferenceIsCycle(tree, stack, path);
        FaultyHere(tree, path);
        return Err(CircularDependency);
      }
      if path !in objects {
        var built := Build(path, stack);
        if built.Err? { return Err(built.error); }
      }
      return Ok((if nested then "" else "assets/") + objects[path] + Suffix(reference));
    }

    /** Builds a resource that is neither finished nor being resolved. */
    method Build(path: Path, ghost stack: seq<Path>) returns (r: Result<()>)
      requires Valid() && OnStack(tree, stack, resolving) && path !in resolving && path !in objects
      requires stack != [] ==> Edge(tree, stack[|stack| - 1], path)
      modifies this
      ensures Valid() && resolving == old(resolving) && Extends(old(objects), objects)
      ensures r.Ok? ==> path in objects && OnlyReached(tree, To(path), old(objects), objects)
      ensures r.Err? ==> FaultyPath(tree, path)
      decreases Sources(tree) - resolving, 0
    {
      hide Certificate, AssetsRight, Edge, FaultyPath, Rewritten, FinalText, NameIn, Rejected, GoalAt, Count, OnCycle,
           Reaches,
           RewrittenFrom, EditAt, Unfit, GoalOf, Suffix, Lookup, HasSourceMap, Walk, Sources, Mapped, AllServed,
           FaultyStyle;
      StackGrows(tree, stack, resolving, path);
      resolving := resolving + {path};
      var found := Lookup(tree, path);
      if found == None {
        LosingIsUnfit(tree, path);
        FaultyHere(tree, path);
        resolving := resolving - {path};
        return Err(MissingDependency);
      }
      FoundInSources(tree, path);
      var bytes := found.value.text;
      if found.value.mime == CSS {
        assert stack + [path] != [] && (stack + [path])[|stack|] == path;
        var rewritten := RewriteCss(bytes, path, true, stack + [path]);
        if rewritten.Err? {
          StyleFails(tree, order, objects, path);
          resolving := resolving - {path};
          return Err(rewritten.error);
        }
        bytes := rewritten.value;
      }
      if found.value.mime == SCRIPT && (HasSourceMap(bytes) || tree.importsRelative(bytes)) {
        ScriptFails(tree, order, objects, path);
        resolving := resolving - {path};
        return Err(if HasSourceMap(bytes) then SourceMap else RelativeImports);
      }
      var name := tree.digest(bytes) + "." + found.value.extension;
      Finished(tree, order, objects, assets, path, bytes);
      FinishedReaches(tree, path, old(objects), objects, name);
      objects := objects[path := name];
      assets := assets["assets/" + name := Asset("assets/" + name, bytes, found.value.mime)];
      order := order + [path];
      resolving := resolving - {path};
      return Ok(());
    }

    /** Rewrites the references of a style sheet, the last one first. */
    method RewriteCss(css: string, from: Path, nested: bool, ghost stack: seq<Path>) returns (r: Result<string>)
      requires Valid() && OnStack(tree, stack, resolving) && Current(tree, stack, css, from)
      modifies this
      ensures Valid() && resolving == old(resolving) && Extends(old(objects), objects)
      ensures r.Ok? ==> AllServed(tree, css, from, objects) && !HasSourceMap(r.value)
      ensures r.Ok? ==> r.value == Rewritten(tree, css, from, objects, nested)
      ensures r.Ok? ==> OnlyFromStyle(tree, css, from, old(objects), objects)
      ensures r.Err? ==> FaultyStyle(tree, css, from) || Mapped(tree, css, from, objects, nested)
      decreases Sources(tree) - resolving, 2
    {
      hide Certificate, AssetsRight, Edge, FaultyGoal, Rewritten, GoalAt, OnCycle, Reaches, ReferenceOf, Link,
           RewrittenFrom, EditAt, GoalOf, Suffix, Lookup, HasSourceMap, Walk, Sources, AllServed, FaultyStyle, Served;
      var tokens := CssReferences(css);
      var text, k: nat := css, |tokens|;
      assert k == Count(css);
      NothingRewritten(tree, css, from, objects, nested);
      while k > 0
        invariant k <= |tokens|
        invariant Valid() && resolving == old(resolving) && Extends(old(objects), objects)
        invariant OnlyFromStyle(tree, css, from, old(objects), objects)
        invariant RewrittenFrom(tree, css, from, objects, nested, k, text)
      {
        k := k - 1;
        var token := tokens[k];
        ghost var names := objects;
        GoalIsEdge(tree, stack, css, from, k);
        OneReference(tree, css, from, k);
        var after := Dependency(ReferenceOf(css, token), from, nested, stack);
        if after.Err? { return Err(after.error); }
        OneMoreRewritten(tree, css, from, names, objects, nested, k, text);
        OneEdit(tree, css, from, objects, nested, k);
        text := text[..token.start] + after.value + text[token.end..];
      }
      AllRewritten(tree, css, from, objects, nested, text);
      if HasSourceMap(text) { return Err(SourceMap); }
      return Ok(text);
    }

    /** Rewrites the references of a `srcset`, the first one first. */
    method RewriteSet(value: string, from: Path) returns (r: Result<string>)
      requires Valid() && resolving == {}
      modifies this
      ensures Valid() && resolving == {} && Extends(old(objects), objects)
      ensures r.Ok? ==> SetServed(tree, value, from, objects, SetSize(value))
      ensures r.Ok? ==> r.value == SourceSets.Relinked(value, SetLinks(tree, value, from, objects, SetSize(value)))
      ensures r.Ok? ==> OnlyFromSet(tree, value, from, old(objects), objects)
      ensures r.Err? ==> FaultySet(tree, value, from)
    {
      hide Certificate, AssetsRight, Edge, FaultyGoal, GoalOf, Link, Lookup, Walk, Sources, Served, Reaches;
      var candidates := SourceSets.Candidates(value);
      var links: seq<string> := [];
      for k := 0 to |candidates|
        invariant Valid() && resolving == {} && Extends(old(objects), objects)
        invariant SetServed(tree, value, from, objects, k) && links == SetLinks(tree, value, from, objects, k)
        invariant OnlyFromSet(tree, value, from, old(objects), objects)
      {
        ghost var names := objects;
        assert SetGoal(tree, value, from, k) == GoalOf(tree, candidates[k].reference, from);
        var after := Dependency(candidates[k].reference, from, false, []);
        if after.Err? { return Err(after.error); }
        SetStays(tree, value, from, names, objects, k);
        links := links + [after.value];
      }
      return Ok(SourceSets.Relinked(value, links));
    }
  }

  // ----- The whole page -----

  /**
   What a page holds that matters: an attribute with one reference or with a
   set of them, a style sheet or a script of its own, and a base element.
   */
  datatype Part =
    | Attribute(reference: string) | SourceSet(value: string) | Style(css: string) | Inline(script: string) | Base

  predicate ScriptAllowed(tree: Tree, script: string) { !HasSourceMap(script) && !tree.importsRelative(script) }

  ghost predicate PartServed(tree: Tree, main: Path, part: Part, names: map<Path, string>) {
    match part
    case Attribute(reference) => Served(GoalOf(tree, reference, main), names)
    case SourceSet(value) => SetServed(tree, value, main, names, SetSize(value))
    case Style(css) => AllServed(tree, css, main, names) && !HasSourceMap(Rewritten(tree, css, main, names, false))
    case Inline(script) => ScriptAllowed(tree, script)
    case Base => false
  }

  /** The part with all its references replaced by public names. */
  function PartOut(tree: Tree, main: Path, part: Part, names: map<Path, string>): string {
    match part
    case Attribute(reference) => Link(tree, reference, main, names, false)
    case SourceSet(value) => SourceSets.Relinked(value, SetLinks(tree, value, main, names, SetSize(value)))
    case Style(css) => Rewritten(tree, css, main, names, false)
    case Inline(script) => script
    case Base => ""
  }

  ghost predicate PartReaches(tree: Tree, main: Path, part: Part, path: Path) {
    match part
    case Attribute(reference) => ReachedFromGoal(tree, GoalOf(tree, reference, main), path)
    case SourceSet(value) => ReachedFromSet(tree, value, main, path)
    case Style(css) => ReachedFromStyle(tree, css, main, path)
    case _ => false
  }

  ghost predicate StyleObjection(tree: Tree, main: Path, css: string, order: seq<Path>, names: map<Path, string>) {
    Certificate(tree, order, names) && Mapped(tree, css, main, names, false)
  }

  ghost predicate FaultyPart(tree: Tree, main: Path, part: Part) {
    match part
    case Attribute(reference) => FaultyGoal(tree, GoalOf(tree, reference, main))
    case SourceSet(value) => FaultySet(tree, value, main)
    case Style(css) => FaultyStyle(tree, css, main)
      || exists order, names :: StyleObjection(tree, main, css, order, names)
    case Inline(script) => !ScriptAllowed(tree, script)
    case Base => true
  }

  /**
   There is no base element and no refused script, and no part of the page leads
   to a lost reference, a missing or refused resource, or a cycle.
   */
  ghost predicate Publishable(tree: Tree, main: Path, page: seq<Part>) {
    forall k :: 0 <= k < |page| ==> !FaultyPart(tree, main, page[k])
  }

  ghost predicate PageReaches(tree: Tree, main: Path, page: seq<Part>, path: Path) {
    exists k :: 0 <= k < |page| && PartReaches(tree, main, page[k], path)
  }

  /** The names are those of exactly the reachable resources, and the assets are theirs. */
  ghost predicate IsBundle(tree: Tree, main: Path, page: seq<Part>, order: seq<Path>, names: map<Path, string>,
                           assets: map<string, Asset>) {
    && Certificate(tree, order, names)
    && AssetsRight(tree, names, assets)
    && forall path :: path in names <==> PageReaches(tree, main, page, path)
  }

  ghost predicate IsPublished(tree: Tree, main: Path, page: seq<Part>, out: seq<string>, assets: map<string, Asset>) {
    exists order, names :: IsBundle(tree, main, page, order, names, assets)
      && |out| == |page| && forall k :: 0 <= k < |page| ==> out[k] == PartOut(tree, main, page[k], names)
  }

  lemma GoalStays(tree: Tree, goal: Goal, order: seq<Path>, names: map<Path, string>)
    requires Certificate(tree, order, names) && Served(goal, names)
    ensures !FaultyGoal(tree, goal)
    ensures forall path :: ReachedFromGoal(tree, goal, path) ==> path in names
  {
    hide Settled, FaultyPath, Reaches;
    if goal.To? { CertifiedIsFaultless(tree, order, names, goal.path); }
  }

  lemma StyleStays(tree: Tree, css: string, from: Path, names: map<Path, string>, more: map<Path, string>)
    requires AllServed(tree, css, from, names) && AllServed(tree, css, from, more)
    requires forall path :: path in names && path in more ==> names[path] == more[path]
    ensures Rewritten(tree, css, from, names, false) == Rewritten(tree, css, from, more, false)
  {
    hide GoalAt, Count, Rewritten;
    forall path | RefersTo(tree, css, from, path) ensures path in names && path in more {
      var i :| 0 <= i < Count(css) && GoalAt(tree, css, from, i) == To(path);
      assert Served(GoalAt(tree, css, from, i), names) && Served(GoalAt(tree, css, from, i), more);
    }
    SameRewriting(tree, css, from, names, more, false);
  }

  lemma NamesAgree(tree: Tree, order: seq<Path>, names: map<Path, string>, order': seq<Path>, names': map<Path, string>)
    requires Certificate(tree, order, names) && Certificate(tree, order', names')
    ensures forall path :: path in names && path in names' ==> names[path] == names'[path]
  {
    hide Settled;
    forall path | path in names && path in names' ensures names[path] == names'[path] {
      var i :| 0 <= i < |order| && order[i] == path;
      CertificatesAgree(tree, order, names, order', names', i);
    }
  }

  /** A finished part has no fault, and everything it reaches is named. */
  lemma PartIsFaultless(tree: Tree, main: Path, part: Part, order: seq<Path>, names: map<Path, string>)
    requires Certificate(tree, order, names) && PartServed(tree, main, part, names)
    ensures !FaultyPart(tree, main, part)
    ensures forall path :: PartReaches(tree, main, part, path) ==> path in names
  {
    hide Certificate, FaultyGoal, Reaches, Rewritten, GoalAt, Count, GoalOf, HasSourceMap, ReachedFromGoal;
    match part {
      case Attribute(reference) => GoalStays(tree, GoalOf(tree, reference, main), order, names);
      case SourceSet(value) => SetIsFaultless(tree, main, value, order, names);
      case Inline(script) =>
      case Style(css) =>
        forall i | 0 <= i < Count(css)
          ensures !FaultyGoal(tree, GoalAt(tree, css, main, i))
          ensures forall path :: ReachedFromGoal(tree, GoalAt(tree, css, main, i), path) ==> path in names
        {
          assert Served(GoalAt(tree, css, main, i), names);
          GoalStays(tree, GoalAt(tree, css, main, i), order, names);
        }
        forall order', names' ensures !StyleObjection(tree, main, css, order', names') {
          if StyleObjection(tree, main, css, order', names') {
            NamesAgree(tree, order, names, order', names');
            StyleStays(tree, css, main, names, names');
          }
        }
    }
  }

  lemma SetIsFaultless(tree: Tree, main: Path, value: string, order: seq<Path>, names: map<Path, string>)
    requires Certificate(tree, order, names) && SetServed(tree, value, main, names, SetSize(value))
    ensures !FaultySet(tree, value, main)
    ensures forall path :: ReachedFromSet(tree, value, main, path) ==> path in names
  {
    hide Certificate, FaultyGoal, GoalOf, ReachedFromGoal;
    forall k | 0 <= k < SetSize(value)
      ensures !FaultyGoal(tree, SetGoal(tree, value, main, k))
      ensures forall path :: ReachedFromGoal(tree, SetGoal(tree, value, main, k), path) ==> path in names
    {
      assert Served(SetGoal(tree, value, main, k), names);
      GoalStays(tree, SetGoal(tree, value, main, k), order, names);
    }
  }

  lemma PartStays(tree: Tree, main: Path, part: Part, names: map<Path, string>, more: map<Path, string>)
    requires PartServed(tree, main, part, names) && Extends(names, more)
    ensures PartServed(tree, main, part, more) && PartOut(tree, main, part, more) == PartOut(tree, main, part, names)
  {
    hide Rewritten, GoalAt, Count, GoalOf, HasSourceMap;
    match part {
      case Attribute(reference) =>
      case SourceSet(value) => SetStays(tree, value, main, names, more, SetSize(value));
      case Inline(script) =>
      case Style(css) =>
        forall i | 0 <= i < Count(css) ensures Served(GoalAt(tree, css, main, i), more) {
          assert Served(GoalAt(tree, css, main, i), names);
        }
        StyleStays(tree, css, main, names, more);
    }
  }

  /** The parts before k are finished; all names are reached from them. */
  ghost predicate PageDone(tree: Tree, main: Path, page: seq<Part>, k: nat, names: map<Path, string>,
                           out: seq<string>) {
    && k <= |page| && |out| == k
    && (forall i :: 0 <= i < k ==>
      PartServed(tree, main, page[i], names) && out[i] == PartOut(tree, main, page[i], names))
    && (forall path :: path in names ==> PageReaches(tree, main, page, path))
  }

  lemma OneMorePart(tree: Tree, main: Path, page: seq<Part>, k: nat, names: map<Path, string>, more: map<Path, string>,
                    out: seq<string>, text: string)
    requires PageDone(tree, main, page, k, names, out) && k < |page| && Extends(names, more)
    requires PartServed(tree, main, page[k], more) && text == PartOut(tree, main, page[k], more)
    requires forall path :: path in more && path !in names ==> PartReaches(tree, main, page[k], path)
    ensures PageDone(tree, main, page, k + 1, more, out + [text])
  {
    hide PartServed, PartOut, PartReaches;
    forall i | 0 <= i < k
      ensures PartServed(tree, main, page[i], more) && out[i] == PartOut(tree, main, page[i], more)
    {
      PartStays(tree, main, page[i], names, more);
    }
  }

  lemma PageFinished(tree: Tree, main: Path, page: seq<Part>, order: seq<Path>, names: map<Path, string>,
                     assets: map<string, Asset>, out: seq<string>)
    requires Certificate(tree, order, names) && AssetsRight(tree, names, assets)
    requires PageDone(tree, main, page, |page|, names, out)
    ensures Publishable(tree, main, page) && IsPublished(tree, main, page, out, assets)
  {
    hide Certificate, AssetsRight, PartServed, PartOut, PartReaches, FaultyPart;
    forall i | 0 <= i < |page|
      ensures !FaultyPart(tree, main, page[i])
      ensures forall path :: PartReaches(tree, main, page[i], path) ==> path in names
    {
      PartIsFaultless(tree, main, page[i], order, names);
    }
    assert IsBundle(tree, main, page, order, names, assets);
  }

  /**
   Publishing succeeds for exactly the publishable pages. It then bundles
   exactly what the page reaches, and every reference carries the public name.
   */
  method BuildDisplayBundle(tree: Tree, main: Path,
                            page: seq<Part>) returns (r: Result<(seq<string>, map<string, Asset>)>)
    ensures r.Ok? <==> Publishable(tree, main, page)
    ensures r.Ok? ==> IsPublished(tree, main, page, r.value.0, r.value.1)
  {
    hide Certificate, AssetsRight, FaultyGoal, FaultyStyle, Rewritten, Link, GoalOf, AllServed, HasSourceMap,
         ReachedFromGoal,
         ReachedFromStyle, Served;
    var builder := new Builder(tree);
    var out: seq<string> := [];
    for k := 0 to |page|
      invariant fresh(builder) && builder.tree == tree && builder.Valid() && builder.resolving == {}
      invariant PageDone(tree, main, page, k, builder.objects, out)
    {
      ghost var names := builder.objects;
      match page[k]
      case Attribute(reference) =>
        var after := builder.Dependency(reference, main, false, []);
        if after.Err? { assert FaultyPart(tree, main, page[k]); return Err(after.error); }
        OneMorePart(tree, main, page, k, names, builder.objects, out, after.value);
        out := out + [after.value];
      case SourceSet(value) =>
        var after := builder.RewriteSet(value, main);
        if after.Err? { assert FaultyPart(tree, main, page[k]); return Err(after.error); }
        OneMorePart(tree, main, page, k, names, builder.objects, out, after.value);
        out := out + [after.value];
      case Inline(script) =>
        if HasSourceMap(script) || tree.importsRelative(script) {
          assert FaultyPart(tree, main, page[k]);
          return Err(if HasSourceMap(script) then SourceMap else RelativeImports);
        }
        OneMorePart(tree, main, page, k, names, names, out, script);
        out := out + [script];
      case Base =>
        assert FaultyPart(tree, main, page[k]);
        return Err(BaseElement);
      case Style(css) =>
        var after := builder.RewriteCss(css, main, false, []);
        if after.Err? { FaultyByStyle(tree, main, css, builder.order, builder.objects); return Err(after.error); }
        OneMorePart(tree, main, page, k, names, builder.objects, out, after.value);
        out := out + [after.value];
    }
    PageFinished(tree, main, page, builder.order, builder.objects, builder.assets, out);
    return Ok((out, builder.assets));
  }

  lemma FaultyByStyle(tree: Tree, main: Path, css: string, order: seq<Path>, names: map<Path, string>)
    requires Certificate(tree, order, names)
    requires FaultyStyle(tree, css, main) || Mapped(tree, css, main, names, false)
    ensures FaultyPart(tree, main, Style(css))
  {
    hide Certificate, FaultyStyle, Mapped;
    if !FaultyStyle(tree, css, main) { assert StyleObjection(tree, main, css, order, names); }
  }

  // ----- Names are addresses of contents -----

  ghost predicate DigestTellsApart(digest: string -> string, s: string, t: string) {
    |digest(s)| == |digest(t)| && (s != t ==> digest(s) != digest(t))
  }

  /** The digest tells the bundled texts apart, in as many characters for each. */
  ghost predicate NoCollision(tree: Tree, names: map<Path, string>) {
    forall path, other :: path in names && other in names && Lookup(tree, path).Some? && Lookup(tree, other).Some? ==>
      DigestTellsApart(tree.digest, FinalText(tree, path, names), FinalText(tree, other, names))
  }

  /** Without a collision of digests every bundled resource finds its own final text under its name. */
  lemma EachHasItsText(tree: Tree, order: seq<Path>, names: map<Path, string>, assets: map<string, Asset>, path: Path)
    requires Certificate(tree, order, names) && AssetsRight(tree, names, assets) && path in names
    requires NoCollision(tree, names)
    ensures Lookup(tree, path).Some?
    ensures "assets/" + names[path] in assets && assets["assets/" + names[path]].bytes == FinalText(tree, path, names)
  {
    hide FinalText, Lookup, Rejected;
    var i :| 0 <= i < |order| && order[i] == path;
    assert HasAsset(names, path, assets);
    var key := "assets/" + names[path];
    assert IsSomeAsset(tree, names, key, assets[key]);
    var other :| IsAsset(tree, other, names, key, assets[key]);
    var j :| 0 <= j < |order| && order[j] == other;
    assert Settled(tree, path, order[..i], names) && Settled(tree, other, order[..j], names);
    assert key[7..] == names[path] && key[7..] == names[other];
    var d, e := tree.digest(FinalText(tree, path, names)), tree.digest(FinalText(tree, other, names));
    assert DigestTellsApart(tree.digest, FinalText(tree, path, names), FinalText(tree, other, names));
    assert names[path][..|d|] == d && names[other][..|e|] == e;
  }
}
