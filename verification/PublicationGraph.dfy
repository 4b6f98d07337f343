/**
 What a published page depends on (web/src/lib/publication-builder.js): which
 resource a reference means, what each resource becomes once the references
 inside it are rewritten, and which pages cannot be published at all.
 */
module PublicationGraph {
  import opened Basics
  import opened CssScanner
  import opened Whitespace
  import SourceEdits

  type Path = string

  /** A generated resource, as its address answers when fetched. */
  datatype Blob = Blob(mime: string, bytes: string)

  /**
   A captured project. What a reference resolves to, the digest and the test
   for relative module imports are taken as given functions.
   */
  datatype Tree = Tree(
    assets: map<Path, string>,
    texts: map<Path, string>,
    fetched: map<Path, Blob>,
    resolve: (string, Path) -> Option<Path>,
    digest: string -> string,
    importsRelative: string -> bool)

  datatype Resource = Resource(extension: string, mime: string, text: string)

  function Types(): seq<(string, string)> {
    [("png", "image/png"), ("jpg", "image/jpeg"), ("jpeg", "image/jpeg"), ("gif", "image/gif"),
     ("webp", "image/webp"), ("avif", "image/avif"), ("svg", "image/svg+xml"), ("ico", "image/x-icon"),
     ("css", "text/css"), ("js", "application/javascript"), ("mjs", "application/javascript"),
     ("woff", "font/woff"), ("woff2", "font/woff2"), ("ttf", "font/ttf"), ("otf", "font/otf"),
     ("mp4", "video/mp4"), ("webm", "video/webm"), ("mp3", "audio/mpeg"), ("ogg", "audio/ogg")]
  }

  const CSS: string := "text/css"

  const SCRIPT: string := "application/javascript"

  function MimeOf(types: seq<(string, string)>, extension: string): Option<string> {
    if types == [] then None
    else if types[0].0 == extension then Some(types[0].1)
    else MimeOf(types[1..], extension)
  }

  function ExtensionFor(types: seq<(string, string)>, mime: string): Option<string> {
    if types == [] then None
    else if types[0].1 == mime then Some(types[0].0)
    else ExtensionFor(types[1..], mime)
  }

  function LowerAll(s: string): string { seq(|s|, i requires 0 <= i < |s| => Lower(s[i])) }

  /** What follows the last dot. */
  function LastPart(path: Path): string {
    if path == "" then "" else if path[|path| - 1] == '.' then "" else LastPart(path[..|path| - 1]) + [path[|path| - 1]]
  }

  function Lookup(tree: Tree, path: Path): Option<Resource> {
    if StartsWith(path, 0, "blob:") then
      if path !in tree.fetched then None
      else
        match ExtensionFor(Types(), tree.fetched[path].mime)
        case None => None
        case Some(extension) => Some(Resource(extension, tree.fetched[path].mime, tree.fetched[path].bytes))
    else
      match MimeOf(Types(), LowerAll(LastPart(path)))
      case None => None
      case Some(mime) =>
        if path in tree.assets then Some(Resource(LowerAll(LastPart(path)), mime, tree.assets[path]))
        else if path in tree.texts then Some(Resource(LowerAll(LastPart(path)), mime, tree.texts[path]))
        else None
  }

  // ----- References -----

  predicate IsExternal(reference: string) {
    || StartsWithWord(reference, 0, "http:") || StartsWithWord(reference, 0, "https:")
    || StartsWithWord(reference, 0, "data:") || StartsWithWord(reference, 0, "mailto:")
    || StartsWithWord(reference, 0, "tel:") || StartsWith(reference, 0, "#") || StartsWith(reference, 0, "//")
  }

  predicate HasLineEnd(s: string) { '\n' in s || '\r' in s || 0x2028 as char in s || 0x2029 as char in s }

  /** The query or fragment at the end of a reference. */
  function Tail(reference: string): string {
    if reference == "" then ""
    else if (reference[0] == '?' || reference[0] == '#') && !HasLineEnd(reference) then reference
    else Tail(reference[1..])
  }

  function Suffix(reference: string): string { if StartsWith(reference, 0, "blob:") then "" else Tail(reference) }

  /** What is to be done with a reference: leave it, fail, or follow it. */
  datatype Goal = Kept | Lost | To(path: Path)

  function GoalOf(tree: Tree, reference: string, from: Path): Goal {
    if reference == "" || IsExternal(reference) then Kept
    else
      match (tree.resolve)(reference, from)
      case None => Lost
      case Some(path) => if path == "" then Lost else To(path)
  }

  function ReferenceOf(css: string, token: Token): string
    requires token.start <= token.end <= |css|
  {
    Trim(css[token.start..token.end])
  }

  function Count(css: string): nat { |References(css)| }

  /** The goal of reference number i of a style sheet. */
  function GoalAt(tree: Tree, css: string, from: Path, i: nat): Goal
    requires i < Count(css)
  {
    ScanInOrder(css, 0);
    GoalOf(tree, ReferenceOf(css, References(css)[i]), from)
  }

  /** What a reference is rewritten to, given the public names of the resources. */
  function Link(tree: Tree, reference: string, from: Path, names: map<Path, string>, nested: bool): string {
    match GoalOf(tree, reference, from)
    case To(path) =>
      (if nested then "" else "assets/") + (if path in names then names[path] else "") + Suffix(reference)
    case _ => reference
  }

  function EditAt(tree: Tree, css: string, from: Path, names: map<Path, string>, nested: bool,
                  i: nat): SourceEdits.Edit<char>
    requires i < Count(css)
  {
    ScanInOrder(css, 0);
    var token := References(css)[i];
    SourceEdits.Edit(token.start, token.end - token.start, Link(tree, ReferenceOf(css, token), from, names, nested))
  }

  /** The style sheet's references and their replacements, as edits. */
  function Edits(tree: Tree, css: string, from: Path, names: map<Path, string>,
                 nested: bool): (edits: seq<SourceEdits.Edit<char>>)
    ensures |edits| == Count(css)
    ensures forall i :: 0 <= i < |edits| ==> edits[i] == EditAt(tree, css, from, names, nested, i)
  {
    seq(Count(css), i requires 0 <= i < Count(css) => EditAt(tree, css, from, names, nested, i))
  }

  lemma EditsFit(tree: Tree, css: string, from: Path, names: map<Path, string>, nested: bool)
    ensures SourceEdits.Fits(Edits(tree, css, from, names, nested), |css|)
  {
    ScanInOrder(css, 0);
    hide Link, ReferenceOf, Scan;
  }

  /** All references replaced at once. */
  function Rewritten(tree: Tree, css: string, from: Path, names: map<Path, string>, nested: bool): string {
    EditsFit(tree, css, from, names, nested);
    SourceEdits.Apply(css, Edits(tree, css, from, names, nested))
  }

  predicate HasSourceMap(text: string) { exists at :: 0 <= at < |text| && SourceMapAt(text, at) }

  predicate SourceMapAt(text: string, at: nat) {
    && StartsWith(text, at, "sourceMappingURL")
    && var equals := TrimStart(text, at + 16);
       equals < |text| && text[equals] == '='
  }

  // ----- What resources become -----

  function FinalText(tree: Tree, path: Path, names: map<Path, string>): string
    requires Lookup(tree, path).Some?
  {
    var resource := Lookup(tree, path).value;
    if resource.mime == CSS then Rewritten(tree, resource.text, path, names, true) else resource.text
  }

  /** The finished resource must not be published. */
  predicate Rejected(tree: Tree, path: Path, names: map<Path, string>)
    requires Lookup(tree, path).Some?
  {
    var resource := Lookup(tree, path).value;
    || (resource.mime == CSS && HasSourceMap(FinalText(tree, path, names)))
    || (resource.mime == SCRIPT && (HasSourceMap(resource.text) || tree.importsRelative(resource.text)))
  }

  function NameIn(tree: Tree, path: Path, names: map<Path, string>): string
    requires Lookup(tree, path).Some?
  {
    tree.digest(FinalText(tree, path, names)) + "." + Lookup(tree, path).value.extension
  }

  // ----- The dependency graph -----

  predicate RefersTo(tree: Tree, css: string, from: Path, path: Path) {
    exists i :: 0 <= i < Count(css) && GoalAt(tree, css, from, i) == To(path)
  }

  predicate LosesNone(tree: Tree, css: string, from: Path) {
    forall i :: 0 <= i < Count(css) ==> GoalAt(tree, css, from, i) != Lost
  }

  predicate IsStyle(tree: Tree, path: Path) { Lookup(tree, path).Some? && Lookup(tree, path).value.mime == CSS }

  predicate Edge(tree: Tree, path: Path, other: Path) {
    IsStyle(tree, path) && RefersTo(tree, Lookup(tree, path).value.text, path, other)
  }

  ghost predicate Walk(tree: Tree, walk: seq<Path>) {
    walk != [] && forall i :: 0 <= i < |walk| - 1 ==> Edge(tree, walk[i], walk[i + 1])
  }

  ghost predicate WalkBetween(tree: Tree, walk: seq<Path>, path: Path, other: Path) {
    Walk(tree, walk) && walk[0] == path && walk[|walk| - 1] == other
  }

  ghost predicate Reaches(tree: Tree, path: Path, other: Path) { exists walk :: WalkBetween(tree, walk, path, other) }

  ghost predicate OnCycle(tree: Tree, path: Path) { exists walk :: |walk| > 1 && WalkBetween(tree, walk, path, path) }

  // ----- Names that fit together -----

  ghost predicate ClosedUnder(tree: Tree, path: Path, known: seq<Path>) {
    forall other :: Edge(tree, path, other) ==> other in known
  }

  /** The resource can be published, its references lead to `known` ones, and its name is that of its final text. */
  ghost predicate Settled(tree: Tree, path: Path, known: seq<Path>, names: map<Path, string>) {
    && Lookup(tree, path).Some?
    && (IsStyle(tree, path) ==> LosesNone(tree, Lookup(tree, path).value.text, path))
    && ClosedUnder(tree, path, known)
    && !Rejected(tree, path, names)
    && path in names && names[path] == NameIn(tree, path, names)
  }

  /** Resources in an order in which each comes after all it refers to, with their names. */
  ghost predicate Certificate(tree: Tree, order: seq<Path>, names: map<Path, string>) {
    && (forall i, j :: 0 <= i < j < |order| ==> order[i] != order[j])
    && (forall path :: path in names <==> path in order)
    && (forall i :: 0 <= i < |order| ==> Settled(tree, order[i], order[..i], names))
  }

  // ----- Pages that cannot be published -----

  /** With the names of all it refers to settled, the resource is rejected. */
  ghost predicate Objection(tree: Tree, path: Path, order: seq<Path>, names: map<Path, string>) {
    && Lookup(tree, path).Some? && Certificate(tree, order, names)
    && ClosedUnder(tree, path, order) && Rejected(tree, path, names)
  }

  ghost predicate Unfit(tree: Tree, path: Path) {
    || Lookup(tree, path).None?
    || (IsStyle(tree, path) && !LosesNone(tree, Lookup(tree, path).value.text, path))
    || exists order, names :: Objection(tree, path, order, names)
  }

  ghost predicate FaultAt(tree: Tree, path: Path, other: Path) {
    Reaches(tree, path, other) && (OnCycle(tree, other) || Unfit(tree, other))
  }

  ghost predicate FaultyPath(tree: Tree, path: Path) { exists other :: FaultAt(tree, path, other) }

  ghost predicate FaultyGoal(tree: Tree, goal: Goal) { goal == Lost || (goal.To? && FaultyPath(tree, goal.path)) }

  // ----- Lemmas -----

  lemma ReachesItself(tree: Tree, path: Path)
    ensures Reaches(tree, path, path)
  {
    assert WalkBetween(tree, [path], path, path);
  }

  lemma ReachesOn(tree: Tree, path: Path, next: Path, other: Path)
    requires Edge(tree, path, next) && Reaches(tree, next, other)
    ensures Reaches(tree, path, other)
  {
    var walk :| WalkBetween(tree, walk, next, other);
    var longer := [path] + walk;
    assert Walk(tree, longer) by {
      hide Edge;
      forall i | 0 <= i < |longer| - 1 ensures Edge(tree, longer[i], longer[i + 1]) {
        if i > 0 { assert Edge(tree, walk[i - 1], walk[i]); }
      }
    }
    assert WalkBetween(tree, longer, path, other);
  }

  /** A fault further on is a fault here. */
  lemma FaultyOn(tree: Tree, path: Path, next: Path)
    requires Edge(tree, path, next) && FaultyPath(tree, next)
    ensures FaultyPath(tree, path)
  {
    hide Edge, Unfit, OnCycle, Reaches;
    var other :| FaultAt(tree, next, other);
    ReachesOn(tree, path, next, other);
    assert FaultAt(tree, path, other);
  }

  lemma FaultyHere(tree: Tree, path: Path)
    requires OnCycle(tree, path) || Unfit(tree, path)
    ensures FaultyPath(tree, path)
  {
    hide Unfit, OnCycle, Reaches;
    ReachesItself(tree, path);
    assert FaultAt(tree, path, path);
  }

  /** Names agree wherever the style sheet refers to. */
  ghost predicate AgreeOn(tree: Tree, css: string, from: Path, names: map<Path, string>, more: map<Path, string>) {
    forall path :: RefersTo(tree, css, from, path) ==> path in names && path in more && names[path] == more[path]
  }

  lemma SameEdit(tree: Tree, css: string, from: Path, names: map<Path, string>, more: map<Path, string>, nested: bool,
                 i: nat)
    requires i < Count(css)
    requires GoalAt(tree, css, from, i).To? ==>
               var path := GoalAt(tree, css, from, i).path; path in names && path in more && names[path] == more[path]
    ensures EditAt(tree, css, from, names, nested, i) == EditAt(tree, css, from, more, nested, i)
  {
    hide Scan, GoalOf, ReferenceOf, Suffix;
  }

  lemma SameRewriting(tree: Tree, css: string, from: Path, names: map<Path, string>, more: map<Path, string>,
                      nested: bool)
    requires AgreeOn(tree, css, from, names, more)
    ensures Rewritten(tree, css, from, names, nested) == Rewritten(tree, css, from, more, nested)
  {
    hide EditAt, GoalAt, Count;
    forall i | 0 <= i < Count(css)
      ensures EditAt(tree, css, from, names, nested, i) == EditAt(tree, css, from, more, nested, i)
    {
      if GoalAt(tree, css, from, i).To? { assert RefersTo(tree, css, from, GoalAt(tree, css, from, i).path); }
      SameEdit(tree, css, from, names, more, nested, i);
    }
    assert Edits(tree, css, from, names, nested) == Edits(tree, css, from, more, nested);
  }

  /** A resource becomes the same under any names that agree on what it refers to. */
  lemma SameResource(tree: Tree, path: Path, names: map<Path, string>, more: map<Path, string>)
    requires Lookup(tree, path).Some?
    requires forall other :: Edge(tree, path, other) ==> other in names && other in more && names[other] == more[other]
    ensures FinalText(tree, path, names) == FinalText(tree, path, more)
    ensures NameIn(tree, path, names) == NameIn(tree, path, more)
    ensures Rejected(tree, path, names) == Rejected(tree, path, more)
  {
    hide RefersTo, Rewritten, Lookup;
    var resource := Lookup(tree, path).value;
    if resource.mime == CSS {
      assert AgreeOn(tree, resource.text, path, names, more) by {
        forall other | RefersTo(tree, resource.text, path, other)
          ensures other in names && other in more && names[other] == more[other]
        {
          assert Edge(tree, path, other);
        }
      }
      SameRewriting(tree, resource.text, path, names, more, true);
    }
  }

  /** Two certificates never give one resource two names. */
  lemma {:induction false} CertificatesAgree(tree: Tree, order: seq<Path>, names: map<Path, string>,
                                             order': seq<Path>, names': map<Path, string>, i: nat)
    requires Certificate(tree, order, names) && Certificate(tree, order', names')
    requires i < |order| && order[i] in names'
    ensures order[i] in names && names[order[i]] == names'[order[i]]
    decreases i
  {
    hide Edge, Rejected, NameIn;
    var path := order[i];
    assert Settled(tree, path, order[..i], names);
    var k :| 0 <= k < |order'| && order'[k] == path;
    assert Settled(tree, path, order'[..k], names');
    forall other | Edge(tree, path, other) ensures other in names && other in names' && names[other] == names'[other] {
      assert other in order[..i] && other in order'[..k];
      var j :| 0 <= j < i && order[j] == other;
      CertificatesAgree(tree, order, names, order', names', j);
    }
    SameResource(tree, path, names, names');
  }

  /** Everything a certified resource reaches is certified, earlier in the order. */
  lemma {:induction false} WalksGoBack(tree: Tree, order: seq<Path>, names: map<Path, string>, walk: seq<Path>, i: nat)
    requires Certificate(tree, order, names) && Walk(tree, walk) && i < |order| && order[i] == walk[0]
    ensures exists j :: 0 <= j <= i && (|walk| > 1 ==> j < i) && order[j] == walk[|walk| - 1]
    decreases |walk|
  {
    hide Edge, Rejected, NameIn;
    if |walk| > 1 {
      assert Settled(tree, walk[0], order[..i], names);
      assert Edge(tree, walk[0], walk[1]);
      assert walk[1] in order[..i];
      var j :| 0 <= j < i && order[j] == walk[1];
      assert Walk(tree, walk[1..]) by {
        forall k | 0 <= k < |walk[1..]| - 1 ensures Edge(tree, walk[1..][k], walk[1..][k + 1]) {
          assert Edge(tree, walk[k + 1], walk[k + 2]);
        }
      }
      WalksGoBack(tree, order, names, walk[1..], j);
    }
  }

  lemma CertifiedIsFit(tree: Tree, order: seq<Path>, names: map<Path, string>, path: Path)
    requires Certificate(tree, order, names) && path in order
    ensures !Unfit(tree, path)
  {
    hide Edge, Rejected, NameIn;
    var i :| 0 <= i < |order| && order[i] == path;
    assert Settled(tree, path, order[..i], names);
    forall order', names' ensures !Objection(tree, path, order', names') {
      if Objection(tree, path, order', names') {
        forall other | Edge(tree, path, other)
          ensures other in names && other in names' && names[other] == names'[other]
        {
          assert other in order[..i] && other in order';
          var j :| 0 <= j < i && order[j] == other;
          CertificatesAgree(tree, order, names, order', names', j);
        }
        SameResource(tree, path, names, names');
      }
    }
  }

  /** A certified resource has no fault anywhere behind it: no cycle, nothing missing, nothing rejected. */
  lemma CertifiedIsFaultless(tree: Tree, order: seq<Path>, names: map<Path, string>, path: Path)
    requires Certificate(tree, order, names) && path in order
    ensures !FaultyPath(tree, path)
    ensures forall other :: Reaches(tree, path, other) ==> other in order
  {
    hide Edge, Settled, Unfit;
    var i :| 0 <= i < |order| && order[i] == path;
    forall other | Reaches(tree, path, other) ensures other in order && !OnCycle(tree, other) && !Unfit(tree, other) {
      var walk :| WalkBetween(tree, walk, path, other);
      WalksGoBack(tree, order, names, walk, i);
      CertifiedIsFit(tree, order, names, other);
      CertifiedIsAcyclic(tree, order, names, other);
    }
  }

  lemma CertifiedIsAcyclic(tree: Tree, order: seq<Path>, names: map<Path, string>, path: Path)
    requires Certificate(tree, order, names) && path in order
    ensures !OnCycle(tree, path)
  {
    hide Edge, Settled;
    var i :| 0 <= i < |order| && order[i] == path;
    forall walk | |walk| > 1 && WalkBetween(tree, walk, path, path) ensures false {
      WalksGoBack(tree, order, names, walk, i);
    }
  }
}
