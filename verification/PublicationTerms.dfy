/**
 What the terms of the publication graph mean, each said of the text itself:
 addresses, file types, references, links and source maps
 (web/src/lib/publication-builder.js).
 */
module PublicationTerms {
  import opened Basics
  import opened CssScanner
  import opened PublicationGraph
  import opened Whitespace
  import SourceEdits

  // ----- File types -----

  /** Row k is the first with this extension, and gives this type. */
  ghost predicate FirstOfExtension(types: seq<(string, string)>, extension: string, mime: string, k: nat) {
    k < |types| && types[k] == (extension, mime) && forall j :: 0 <= j < k ==> types[j].0 != extension
  }

  lemma {:induction false} MimeOfMeans(types: seq<(string, string)>, extension: string) returns (k: nat)
    ensures match MimeOf(types, extension)
            case Some(found) => FirstOfExtension(types, extension, found, k)
            case None => k == |types| && forall row :: row in types ==> row.0 != extension
    decreases |types|
  {
    k := 0;
    if types != [] && types[0].0 != extension {
      var rest := types[1..];
      k := MimeOfMeans(rest, extension);
      if MimeOf(rest, extension).Some? {
        forall j | 0 <= j < k + 1 ensures types[j].0 != extension { if j > 0 { assert types[j] == rest[j - 1]; } }
      }
      k := k + 1;
      assert types == [types[0]] + rest;
    }
  }

  /** Row k is the first with this type, and gives this extension. */
  ghost predicate FirstOfMime(types: seq<(string, string)>, mime: string, extension: string, k: nat) {
    k < |types| && types[k] == (extension, mime) && forall j :: 0 <= j < k ==> types[j].1 != mime
  }

  lemma {:induction false} ExtensionForMeans(types: seq<(string, string)>, mime: string) returns (k: nat)
    ensures match ExtensionFor(types, mime)
            case Some(found) => FirstOfMime(types, mime, found, k)
            case None => k == |types| && forall row :: row in types ==> row.1 != mime
    decreases |types|
  {
    k := 0;
    if types != [] && types[0].1 != mime {
      var rest := types[1..];
      k := ExtensionForMeans(rest, mime);
      if ExtensionFor(rest, mime).Some? {
        forall j | 0 <= j < k + 1 ensures types[j].1 != mime { if j > 0 { assert types[j] == rest[j - 1]; } }
      }
      k := k + 1;
      assert types == [types[0]] + rest;
    }
  }

  /** Images, fonts, films and sounds, before and behind the rows of style sheets and scripts. */
  lemma OtherTypes()
    ensures var t := Types();
      && |t| == 19
      && t[0] == ("png", "image/png") && t[1] == ("jpg", "image/jpeg") && t[2] == ("jpeg", "image/jpeg")
      && t[3] == ("gif", "image/gif") && t[4] == ("webp", "image/webp") && t[5] == ("avif", "image/avif")
      && t[6] == ("svg", "image/svg+xml") && t[7] == ("ico", "image/x-icon")
      && t[11] == ("woff", "font/woff") && t[12] == ("woff2", "font/woff2")
      && t[13] == ("ttf", "font/ttf") && t[14] == ("otf", "font/otf")
      && t[15] == ("mp4", "video/mp4") && t[16] == ("webm", "video/webm")
      && t[17] == ("mp3", "audio/mpeg") && t[18] == ("ogg", "audio/ogg")
  {
  }

  /** A row without an equal before it is the one that is found. */
  lemma RowIsFound(types: seq<(string, string)>, extension: string, mime: string, k: nat)
    requires FirstOfExtension(types, extension, mime, k)
    ensures MimeOf(types, extension) == Some(mime)
  {
    hide MimeOf;
    var j := MimeOfMeans(types, extension);
    assert types[k] in types;
    assert !(j < k) && !(k < j);
  }

  /** What makes a resource a style sheet or a script. */
  lemma StylesAndScripts()
    ensures MimeOf(Types(), "css") == Some("text/css")
    ensures MimeOf(Types(), "js") == MimeOf(Types(), "mjs") == Some("application/javascript")
  {
    hide MimeOf;
    StyleRow();
    ScriptRows();
    RowIsFound(Types(), "css", "text/css", 8);
    RowIsFound(Types(), "js", "application/javascript", 9);
    RowIsFound(Types(), "mjs", "application/javascript", 10);
  }

  lemma StyleRow()
    ensures FirstOfExtension(Types(), "css", "text/css", 8)
  {
    var types := Types();
    forall j | 0 <= j < 8 ensures types[j].0 != "css" { assert "css"[0] == 'c' && types[j].0[0] != 'c'; }
  }

  lemma ScriptRows()
    ensures FirstOfExtension(Types(), "js", "application/javascript", 9)
    ensures FirstOfExtension(Types(), "mjs", "application/javascript", 10)
  {
    var types := Types();
    forall j | 0 <= j < 9 ensures types[j].0 != "js" { assert |types[j].0| > 2; }
    forall j | 0 <= j < 10 ensures types[j].0 != "mjs" { assert "mjs"[0] == 'm' && types[j].0[0] != 'm'; }
  }

  /** The end of the path behind one of its dots. */
  ghost predicate BehindDot(path: Path, part: string, k: int) {
    0 <= k < |path| && path[k] == '.' && part == path[k + 1..]
  }

  lemma {:induction false} LastPartMeans(path: Path)
    ensures '.' !in LastPart(path)
    ensures LastPart(path) == path || exists k :: BehindDot(path, LastPart(path), k)
    decreases |path|
  {
    if path != "" {
      var n := |path| - 1;
      if path[n] == '.' {
        assert BehindDot(path, LastPart(path), n);
      } else {
        var front := path[..n];
        LastPartMeans(front);
        assert path == front + [path[n]];
        if k :| BehindDot(front, LastPart(front), k) {
          assert path[k + 1..] == front[k + 1..] + [path[n]];
          assert BehindDot(path, LastPart(path), k);
        }
      }
    }
  }

  lemma LowerMeans(s: string, i: nat)
    requires i < |s|
    ensures |LowerAll(s)| == |s|
    ensures LowerAll(s)[i] as int == s[i] as int + if 'A' <= s[i] <= 'Z' then 32 else 0
  {
  }

  /** A generated resource is what its address answers, with a type that may be published. */
  lemma GeneratedMeans(tree: Tree, path: Path)
    requires "blob:" <= path
    ensures Lookup(tree, path).Some?
       <==> path in tree.fetched && exists row :: row in Types() && row.1 == tree.fetched[path].mime
    ensures Lookup(tree, path).Some? ==>
              && Lookup(tree, path).value.mime == tree.fetched[path].mime
              && Lookup(tree, path).value.text == tree.fetched[path].bytes
              && (Lookup(tree, path).value.extension, tree.fetched[path].mime) in Types()
  {
    hide Types, ExtensionFor;
    if path in tree.fetched { var _ := ExtensionForMeans(Types(), tree.fetched[path].mime); }
  }

  /** A captured resource is the figure of its path, or else the text, when its last extension may be published. */
  lemma CapturedMeans(tree: Tree, path: Path)
    requires !("blob:" <= path)
    ensures var extension := LowerAll(LastPart(path));
      && (Lookup(tree, path).Some?
          <==> (path in tree.assets || path in tree.texts) && exists row :: row in Types() && row.0 == extension)
      && (Lookup(tree, path).Some? ==>
            && Lookup(tree, path).value.text == (if path in tree.assets then tree.assets[path] else tree.texts[path])
            && Lookup(tree, path).value.extension == extension
            && (extension, Lookup(tree, path).value.mime) in Types())
  {
    hide Types, MimeOf, LastPart, LowerAll;
    var _ := MimeOfMeans(Types(), LowerAll(LastPart(path)));
  }

  // ----- References -----

  /** The reference starts with the word, letters in either case. */
  ghost predicate StartsLike(reference: string, word: string) {
    |word| <= |reference| && LowerAll(reference[..|word|]) == word
  }

  lemma WordMeans(reference: string, word: string)
    ensures StartsWithWord(reference, 0, word) <==> StartsLike(reference, word)
  {
    if |word| <= |reference| {
      assert forall i :: 0 <= i < |word| ==> LowerAll(reference[..|word|])[i] == Lower(reference[0 + i]);
    }
  }

  /** A reference that leads out of the page, or only within it. */
  lemma ExternalMeans(reference: string)
    ensures IsExternal(reference)
       <==> "#" <= reference || "//" <= reference
            || StartsLike(reference, "http:") || StartsLike(reference, "https:") || StartsLike(reference, "data:")
            || StartsLike(reference, "mailto:") || StartsLike(reference, "tel:")
  {
    hide StartsLike, StartsWithWord;
    WordMeans(reference, "http:");
    WordMeans(reference, "https:");
    WordMeans(reference, "data:");
    WordMeans(reference, "mailto:");
    WordMeans(reference, "tel:");
  }

  ghost predicate EndsLine(c: char) { c == '\n' || c == '\r' || c == '\U{2028}' || c == '\U{2029}' }

  /** A query or fragment that runs to the end of the reference in one line. */
  ghost predicate TailFrom(reference: string, k: nat) {
    && k < |reference| && (reference[k] == '?' || reference[k] == '#')
    && forall j :: k <= j < |reference| ==> !EndsLine(reference[j])
  }

  lemma LineEndMeans(s: string)
    ensures HasLineEnd(s) <==> exists j :: 0 <= j < |s| && EndsLine(s[j])
  {
    assert '\U{2028}' == 0x2028 as char && '\U{2029}' == 0x2029 as char;
  }

  /** The longest such tail, or nothing. */
  lemma {:induction false} TailMeans(reference: string)
    ensures (Tail(reference) == "" && forall k: nat :: !TailFrom(reference, k))
         || exists k: nat :: TailFrom(reference, k) && Tail(reference) == reference[k..]
                             && forall j: nat :: j < k ==> !TailFrom(reference, j)
    decreases |reference|
  {
    if reference != "" {
      var rest := reference[1..];
      LineEndMeans(reference);
      forall k: nat ensures TailFrom(reference, k + 1) <==> TailFrom(rest, k) { TailShifts(reference, k); }
      if TailFrom(reference, 0) {
        assert Tail(reference) == reference[0..];
      } else {
        TailMeans(rest);
        if k: nat :| TailFrom(rest, k) && Tail(rest) == rest[k..] && forall j: nat :: j < k ==> !TailFrom(rest, j) {
          assert TailFrom(reference, k + 1) && rest[k..] == reference[k + 1..];
          forall j: nat | j < k + 1 ensures !TailFrom(reference, j) {
            if j > 0 { assert !TailFrom(rest, j - 1); }
          }
        } else {
          forall k: nat ensures !TailFrom(reference, k) { if k > 0 { assert !TailFrom(rest, k - 1); } }
        }
      }
    }
  }

  lemma TailShifts(reference: string, k: nat)
    requires reference != ""
    ensures TailFrom(reference, k + 1) <==> TailFrom(reference[1..], k)
  {
    var rest := reference[1..];
    assert forall j :: 0 <= j < |rest| ==> rest[j] == reference[j + 1];
    if TailFrom(rest, k) {
      forall j | k + 1 <= j < |reference| ensures !EndsLine(reference[j]) { assert reference[j] == rest[j - 1]; }
    }
  }

  /** A generated address has no tail of its own. */
  lemma SuffixMeans(reference: string)
    ensures Suffix(reference) == if "blob:" <= reference then "" else Tail(reference)
  {
  }

  /** External and empty references stay; one that resolves to nothing is lost; any other is followed. */
  lemma GoalMeans(tree: Tree, reference: string, from: Path, path: Path)
    ensures GoalOf(tree, reference, from) == Kept <==> reference == "" || IsExternal(reference)
    ensures GoalOf(tree, reference, from) == To(path)
       <==> reference != "" && !IsExternal(reference) && path != "" && (tree.resolve)(reference, from) == Some(path)
  {
  }

  /** The reference stands between white space in its token, and has none at its ends. */
  lemma ReferenceMeans(css: string, token: Token)
    requires token.start <= token.end <= |css|
    ensures var text, reference := css[token.start..token.end], ReferenceOf(css, token);
      exists i, j :: 0 <= i <= j <= |text| && reference == text[i..j] && IsTrimmed(text, i, j)
  {
    var text := css[token.start..token.end];
    assert IsTrimmed(text, TrimStart(text, 0), TrimEnd(text, TrimStart(text, 0), |text|));
  }

  ghost predicate IsTrimmed(s: string, i: int, j: int)
    requires 0 <= i <= j <= |s|
  {
    && (forall k :: 0 <= k < i || j <= k < |s| ==> IsSpace(s[k]))
    && (i < j ==> !IsSpace(s[i]) && !IsSpace(s[j - 1]))
  }

  /** A page names the folder, a style sheet in it does not; the tail stays; what is not followed stays as it is. */
  lemma LinkMeans(tree: Tree, reference: string, from: Path, names: map<Path, string>)
    ensures match GoalOf(tree, reference, from)
            case To(path) =>
              && (path in names ==> Link(tree, reference, from, names, true) == names[path] + Suffix(reference))
              && Link(tree, reference, from, names, false) == "assets/" + Link(tree, reference, from, names, true)
            case _ => forall nested :: Link(tree, reference, from, names, nested) == reference
  {
    hide GoalOf, Suffix;
    var goal := GoalOf(tree, reference, from);
    if goal.To? && goal.path in names { assert "" + names[goal.path] == names[goal.path]; }
  }

  // ----- Source maps -----

  /** The words of a source map reference from `at`, and the equals sign behind white space. */
  ghost predicate MapStands(text: string, at: nat, equals: nat) {
    && at + 16 <= equals < |text| && text[at..at + 16] == "sourceMappingURL" && text[equals] == '='
    && forall k :: at + 16 <= k < equals ==> IsSpace(text[k])
  }

  lemma SourceMapMeans(text: string)
    ensures HasSourceMap(text) <==> exists at: nat, equals: nat :: MapStands(text, at, equals)
  {
    hide StartsWith;
    if HasSourceMap(text) {
      var at :| 0 <= at < |text| && SourceMapAt(text, at);
      MapFound(text, at);
      assert MapStands(text, at, TrimStart(text, at + 16));
    }
    if at: nat, equals: nat :| MapStands(text, at, equals) {
      MapIsFound(text, at, equals);
      assert SourceMapAt(text, at);
    }
  }

  lemma MapFound(text: string, at: nat)
    requires SourceMapAt(text, at)
    ensures at + 16 <= |text| && MapStands(text, at, TrimStart(text, at + 16))
  {
    assert |"sourceMappingURL"| == 16;
  }

  lemma MapIsFound(text: string, at: nat, equals: nat)
    requires MapStands(text, at, equals)
    ensures SourceMapAt(text, at)
  {
    assert |"sourceMappingURL"| == 16 && !IsSpace('=');
    var start := TrimStart(text, at + 16);
    assert start == equals;
  }

  // ----- What resources become -----

  /** Only style sheets are rewritten, and their links are relative to the folder they are published in. */
  lemma FinalTextMeans(tree: Tree, path: Path, names: map<Path, string>)
    requires Lookup(tree, path).Some?
    ensures var resource, text := Lookup(tree, path).value, FinalText(tree, path, names);
      && (resource.mime != "text/css" ==> text == resource.text)
      && (resource.mime == "text/css" ==>
            && SourceEdits.Fits(Edits(tree, resource.text, path, names, true), |resource.text|)
            && text == SourceEdits.Apply(resource.text, Edits(tree, resource.text, path, names, true)))
  {
    hide SourceEdits.Apply, Edits;
    EditsFit(tree, Lookup(tree, path).value.text, path, names, true);
  }

  /** A finished style sheet or script with a source map is rejected, and a script with relative imports. */
  lemma RejectedMeans(tree: Tree, path: Path, names: map<Path, string>)
    requires Lookup(tree, path).Some?
    ensures var resource := Lookup(tree, path).value;
      Rejected(tree, path, names)
      <==> if resource.mime == "text/css" then HasSourceMap(FinalText(tree, path, names))
           else resource.mime == "application/javascript"
                && (HasSourceMap(resource.text) || tree.importsRelative(resource.text))
  {
    hide FinalText, HasSourceMap, Lookup;
  }
}
