/**
 Moving and renaming files and folders (web/src/lib/file-manager.js, and
 `relocate` in web/src/lib/collab.js): a plan is checked against the whole
 destination namespace before any shared map changes.

 Paths are lists of segments; two names collide when the folding of every
 segment is the same.
 */
module Namespace {

  type Segment = string

  type Path = seq<Segment>

  type Folding = Segment -> Segment

  /** The key two paths collide on. */
  function Key(fold: Folding, p: Path): (k: Path)
    ensures |k| == |p|
  {
    seq(|p|, i requires 0 <= i < |p| => fold(p[i]))
  }

  /** Two paths share a key exactly when they are as deep and every two segments fold to the same. */
  lemma KeyMeans(fold: Folding, p: Path, q: Path)
    ensures Key(fold, p) == Key(fold, q) <==> |p| == |q| && forall i :: 0 <= i < |p| ==> fold(p[i]) == fold(q[i])
  {
    if Key(fold, p) == Key(fold, q) {
      forall i | 0 <= i < |p| ensures fold(p[i]) == fold(q[i]) { assert Key(fold, p)[i] == Key(fold, q)[i]; }
    }
  }

  /** All folders above a path. */
  function Ancestors(p: Path): set<Path> { set k | 1 <= k < |p| :: p[..k] }

  /** Every folder there is: the explicit ones, and all folders above files and above explicit folders. */
  ghost function Dirs(files: set<Path>, folders: set<Path>): set<Path> {
    folders + set p, k | p in files + folders && 1 <= k < |p| :: p[..k]
  }

  lemma InDirs(files: set<Path>, folders: set<Path>, d: Path)
    ensures d in Dirs(files, folders) <==> d in folders || exists p :: p in files + folders && d in Ancestors(p)
  {
    if d in Dirs(files, folders) && d !in folders {
      var p, k :| p in files + folders && 1 <= k < |p| && d == p[..k];
      assert d in Ancestors(p);
    }
    if p :| p in files + folders && d in Ancestors(p) {
      var k :| 1 <= k < |p| && d == p[..k];
    }
  }

  /** No two names collide: not two files, not a file and a folder, not two spellings of a folder. */
  ghost predicate Clean(fold: Folding, files: set<Path>, dirs: set<Path>) {
    && (forall p, q :: p in files && q in files && p != q ==> Key(fold, p) != Key(fold, q))
    && (forall p, d :: p in files && d in dirs ==> Key(fold, p) != Key(fold, d))
    && (forall d, e :: d in dirs && e in dirs && d != e ==> Key(fold, d) != Key(fold, e))
  }

  lemma CleanSubset(fold: Folding, files: set<Path>, dirs: set<Path>, fewer: set<Path>, less: set<Path>)
    requires Clean(fold, files, dirs) && fewer <= files && less <= dirs
    ensures Clean(fold, fewer, less)
  {
  }

  lemma DirsMonotone(files: set<Path>, folders: set<Path>, more: set<Path>, wider: set<Path>)
    requires files <= more && folders <= wider
    ensures Dirs(files, folders) <= Dirs(more, wider)
  {
  }

  /** Naming implied folders explicitly adds none. */
  lemma DirsClosed(files: set<Path>, folders: set<Path>, some: set<Path>, named: set<Path>)
    requires some <= files && named <= Dirs(files, folders)
    ensures Dirs(some, named) <= Dirs(files, folders)
  {
    forall d | d in Dirs(some, named) ensures d in Dirs(files, folders) {
      InDirs(some, named, d);
      if d !in named {
        var p :| p in some + named && d in Ancestors(p);
        if p in named && p !in folders {
          InDirs(files, folders, p);
          var q :| q in files + folders && p in Ancestors(q);
          assert d == q[..|d|];
          assert d in Ancestors(q);
        }
        InDirs(files, folders, d);
      }
    }
  }

  /** A place nothing collides with, under parents that are folders in their own spelling. */
  ghost predicate Free(fold: Folding, files: set<Path>, dirs: set<Path>, p: Path) {
    && (forall q :: q in files ==> Key(fold, q) != Key(fold, p))
    && (forall d :: d in dirs ==> Key(fold, d) != Key(fold, p))
    && (forall a :: a in Ancestors(p) ==> ParentFine(fold, files, dirs, a))
  }

  ghost predicate ParentFine(fold: Folding, files: set<Path>, dirs: set<Path>, a: Path) {
    && (forall q :: q in files ==> Key(fold, q) != Key(fold, a))
    && (forall d :: d in dirs && d != a ==> Key(fold, d) != Key(fold, a))
  }

  lemma AncestorsDiffer(fold: Folding, p: Path, a: Path, b: Path)
    requires a in Ancestors(p)
    ensures Key(fold, a) != Key(fold, p)
    ensures b in Ancestors(p) && a != b ==> Key(fold, a) != Key(fold, b)
  {
    assert |Key(fold, a)| < |Key(fold, p)|;
    if b in Ancestors(p) && a != b { assert |Key(fold, a)| != |Key(fold, b)|; }
  }

  /** The folders above a free place can join the others. */
  lemma ParentsKeepClean(fold: Folding, files: set<Path>, dirs: set<Path>, p: Path)
    requires Clean(fold, files, dirs) && Free(fold, files, dirs, p)
    ensures Clean(fold, files, dirs + Ancestors(p))
    ensures forall d :: d in dirs + Ancestors(p) ==> Key(fold, d) != Key(fold, p)
  {
    forall a | a in Ancestors(p) ensures ParentFine(fold, files, dirs, a) && Key(fold, a) != Key(fold, p) {
      AncestorsDiffer(fold, p, a, a);
    }
    forall d, e | d in dirs + Ancestors(p) && e in dirs + Ancestors(p) && d != e ensures Key(fold, d) != Key(fold, e) {
      if d in Ancestors(p) && e in Ancestors(p) { AncestorsDiffer(fold, p, d, e); }
    }
  }

  /** A file at a free place keeps the namespace clean. */
  lemma PlaceFile(fold: Folding, files: set<Path>, folders: set<Path>, p: Path)
    requires Clean(fold, files, Dirs(files, folders)) && Free(fold, files, Dirs(files, folders), p)
    ensures p !in files && Clean(fold, files + {p}, Dirs(files + {p}, folders))
  {
    ParentsKeepClean(fold, files, Dirs(files, folders), p);
    forall d ensures d in Dirs(files + {p}, folders) <==> d in Dirs(files, folders) + Ancestors(p) {
      InDirs(files + {p}, folders, d);
      InDirs(files, folders, d);
    }
    assert Dirs(files + {p}, folders) == Dirs(files, folders) + Ancestors(p);
  }

  /** A folder at a free place keeps the namespace clean. */
  lemma PlaceFolder(fold: Folding, files: set<Path>, folders: set<Path>, p: Path)
    requires Clean(fold, files, Dirs(files, folders)) && Free(fold, files, Dirs(files, folders), p)
    ensures Clean(fold, files, Dirs(files, folders + {p}))
  {
    ParentsKeepClean(fold, files, Dirs(files, folders), p);
    forall d ensures d in Dirs(files, folders + {p}) <==> d in Dirs(files, folders) + Ancestors(p) + {p} {
      InDirs(files, folders + {p}, d);
      InDirs(files, folders, d);
    }
    assert Dirs(files, folders + {p}) == Dirs(files, folders) + Ancestors(p) + {p};
  }

  /** No file acts as a folder in a clean namespace. */
  lemma NoFileIsAParent(fold: Folding, files: set<Path>, folders: set<Path>, p: Path, q: Path)
    requires Clean(fold, files, Dirs(files, folders)) && p in files && q in files + folders
    ensures p !in Ancestors(q) && p !in folders
  {
    InDirs(files, folders, p);
  }
}

module Relocation {
  import opened Basics
  import opened Namespace

  datatype Result<T> = Ok(value: T) | Err(error: Error)

  datatype Error = BadPath | KindChange | Taken | UnderAFile | OtherSpelling | Gone | IntoItself

  datatype Kind = Text | Asset

  /** A text is known by its id, a figure by its path and the digest of its bytes. */
  datatype File = TextFile(id: string, path: Path) | AssetFile(path: Path, sha: string)

  function KindOf(f: File): Kind { if f.TextFile? then Text else Asset }

  /** What the file list has selected. */
  datatype Entry = FolderEntry(path: Path) | TextEntry(id: string, path: Path) | AssetEntry(path: Path)

  /** The deployment's rules for names. */
  datatype Rules = Rules(fold: Folding, folderOk: Path -> bool, kindOf: Path -> Option<Kind>)

  function PathsOf(files: set<File>): set<Path> { set f | f in files :: f.path }

  /** The rules accept the name for this kind; `None` is a folder. */
  predicate Allowed(rules: Rules, kind: Option<Kind>, p: Path) {
    rules.folderOk(p) && (kind.Some? ==> rules.kindOf(p) == kind)
  }

  /** Explicit folders and every folder above a file or a folder. */
  method FolderPaths(files: set<Path>, explicit: set<Path>) returns (dirs: set<Path>)
    ensures dirs == Dirs(files, explicit)
  {
    dirs := explicit;
    var rest := files + explicit;
    ghost var done: set<Path> := {};
    while rest != {}
      invariant done + rest == files + explicit
      invariant forall d :: d in dirs <==> d in explicit || exists p :: p in done && d in Ancestors(p)
    {
      var p :| p in rest;
      ghost var before := dirs;
      var k := |p| - 1;
      while k >= 1
        invariant -1 <= k < |p| || k == |p| - 1
        invariant forall d :: d in dirs <==> d in before || exists j :: k < j < |p| && 1 <= j && d == p[..j]
      {
        dirs := dirs + {p[..k]};
        k := k - 1;
      }
      assert forall d :: d in Ancestors(p) <==> exists j :: 1 <= j < |p| && d == p[..j];
      rest := rest - {p};
      done := done + {p};
    }
    forall d ensures d in dirs <==> d in Dirs(files, explicit) { InDirs(files, explicit, d); }
  }

  /** Whether a file or folder may be placed: a legal name, free, and under folders in their own spelling. */
  method CheckPlacement(rules: Rules, kind: Option<Kind>, p: Path, files: set<Path>, folders: set<Path>)
    returns (error: Option<Error>)
    ensures error.None? <==> Allowed(rules, kind, p) && Free(rules.fold, files, Dirs(files, folders), p)
  {
    if !rules.folderOk(p) { return Some(BadPath); }
    if kind.Some? {
      if rules.kindOf(p).None? { return Some(BadPath); }
      if rules.kindOf(p) != kind { return Some(KindChange); }
    }
    var dirs := FolderPaths(files, folders);
    var key := Key(rules.fold, p);
    if (exists q :: q in files && Key(rules.fold, q) == key) || (exists d :: d in dirs && Key(rules.fold, d) == key) {
      return Some(Taken);
    }
    var k := |p| - 1;
    while k >= 1
      invariant k < |p|
      invariant forall j :: k < j < |p| && 1 <= j ==> ParentFine(rules.fold, files, dirs, p[..j])
    {
      var parent := p[..k];
      assert parent in Ancestors(p);
      if exists q :: q in files && Key(rules.fold, q) == Key(rules.fold, parent) { return Some(UnderAFile); }
      if exists d :: d in dirs && Key(rules.fold, d) == Key(rules.fold, parent) && d != parent {
        return Some(OtherSpelling);
      }
      k := k - 1;
    }
    error := None;
  }

  // ----- What a selection means -----

  predicate SameEntry(x: Entry, y: Entry) {
    x.path == y.path && (x.FolderEntry? <==> y.FolderEntry?) && (x.TextEntry? <==> y.TextEntry?)
  }

  /** The same item: at one path and of one kind. */
  lemma SameEntryMeans(x: Entry, y: Entry)
    ensures SameEntry(x, y)
       <==> match (x, y)
            case (FolderEntry(p), FolderEntry(q)) => p == q
            case (TextEntry(_, p), TextEntry(_, q)) => p == q
            case (AssetEntry(p), AssetEntry(q)) => p == q
            case _ => false
  {
  }

  /** The selection without repetitions and without what a selected folder includes anyway. */
  function TopEntries(entries: seq<Entry>, count: nat): seq<Entry>
    requires count <= |entries|
  {
    if count == 0 then []
    else
      var e := entries[count - 1];
      TopEntries(entries, count - 1)
      + if (exists i :: 0 <= i < count - 1 && SameEntry(entries[i], e))
           || (exists i :: 0 <= i < |entries| && entries[i].FolderEntry? && entries[i].path < e.path)
        then [] else [e]
  }

  lemma {:induction false} TopEntriesMembers(entries: seq<Entry>, count: nat, e: Entry)
    requires count <= |entries| && e in TopEntries(entries, count)
    ensures e in entries && forall i :: 0 <= i < |entries| && entries[i].FolderEntry? ==> !(entries[i].path < e.path)
  {
    if e in TopEntries(entries, count - 1) { TopEntriesMembers(entries, count - 1, e); }
  }

  /** Nothing selected is lost: every entry is a root, or lies in a root folder. */
  lemma {:induction false} TopEntriesCover(entries: seq<Entry>, k: nat) returns (root: Entry)
    requires k < |entries|
    ensures root in TopEntries(entries, |entries|)
    ensures SameEntry(root, entries[k]) || (root.FolderEntry? && root.path < entries[k].path)
    decreases |entries[k].path|, k
  {
    if i: nat :| i < |entries| && entries[i].FolderEntry? && entries[i].path < entries[k].path {
      root := TopEntriesCover(entries, i);
    } else if i: nat :| i < k && SameEntry(entries[i], entries[k]) {
      root := TopEntriesCover(entries, i);
    } else {
      root := entries[k];
      TopEntriesKeeps(entries, |entries|, k);
    }
  }

  lemma {:induction false} TopEntriesKeeps(entries: seq<Entry>, count: nat, k: nat)
    requires k < count <= |entries|
    requires forall i :: 0 <= i < k ==> !SameEntry(entries[i], entries[k])
    requires forall i :: 0 <= i < |entries| && entries[i].FolderEntry? ==> !(entries[i].path < entries[k].path)
    ensures entries[k] in TopEntries(entries, count)
  {
    if k < count - 1 { TopEntriesKeeps(entries, count - 1, k); }
  }

  /** A root and where it goes. */
  datatype Move = Move(entry: Entry, path: Path)

  predicate Moves(m: Move, p: Path) { p == m.entry.path || (m.entry.FolderEntry? && m.entry.path < p) }

  /** The first move a path belongs to. */
  function Owner(moves: seq<Move>, p: Path): (owner: Option<Move>)
    ensures owner.Some? ==> owner.value in moves && Moves(owner.value, p)
  {
    if moves == [] then None else if Moves(moves[0], p) then Some(moves[0]) else Owner(moves[1..], p)
  }

  /** Where a path is after the moves. */
  function NewPath(moves: seq<Move>, p: Path): Path {
    match Owner(moves, p)
    case None => p
    case Some(m) => m.path + p[|m.entry.path|..]
  }

  // ----- The plan -----

  /** A file's move: where it was is the file's own path. */
  datatype Moved = Moved(file: File, path: Path)

  datatype Plan = Plan(files: seq<Moved>, oldFolders: set<Path>, folders: seq<Path>, parents: set<Path>)

  predicate Stays(moves: seq<Move>, p: Path) { Owner(moves, p).None? }

  function NewPaths(moves: seq<Move>, files: set<File>): set<Path> { set f | f in files :: NewPath(moves, f.path) }

  /** Different files go to different paths. */
  ghost predicate GoApart(moves: seq<Move>, files: set<File>) {
    forall f, g :: f in files && g in files && f != g ==> NewPath(moves, f.path) != NewPath(moves, g.path)
  }

  ghost predicate Apart(files: set<File>) { forall f, g :: f in files && g in files && f != g ==> f.path != g.path }

  /** The files that go with the moves. */
  function MovedFiles(moves: seq<Move>, files: set<File>): set<File> { set f | f in files && !Stays(moves, f.path) }

  /** The folders that go with the moves. */
  function MovedFolders(moves: seq<Move>, dirs: set<Path>): set<Path> { set d | d in dirs && !Stays(moves, d) }

  ghost function FoldersAfter(moves: seq<Move>, dirs: set<Path>): set<Path> {
    set d | d in dirs :: NewPath(moves, d)
  }

  function SetOf(s: seq<Path>): set<Path> { set x | x in s }

  /** The folders that held the roots. */
  function Parents(moves: seq<Move>): set<Path> {
    set k | 0 <= k < |moves| && |moves[k].entry.path| > 1 :: moves[k].entry.path[..|moves[k].entry.path| - 1]
  }

  /** What a plan promises about the namespace it was made for. */
  ghost predicate PlanIsRight(fold: Folding, plan: Plan, moves: seq<Move>, files: set<File>, explicit: set<Path>) {
    var dirs := Dirs(PathsOf(files), explicit);
    && Lists(moves, plan.files, MovedFiles(moves, files))
    && plan.oldFolders == MovedFolders(moves, dirs)
    && SetOf(plan.folders) == FoldersAfter(moves, plan.oldFolders)
    && plan.parents == Parents(moves) <= dirs - plan.oldFolders
    && Fit(fold, moves, files, FoldersAfter(moves, dirs))
  }

  /** The shallowest of the folders' destinations is placed first, so no child is placed before its parent. */
  method Shallowest(moves: seq<Move>, folders: set<Path>) returns (d: Path)
    requires folders != {}
    ensures d in folders
    ensures forall e :: e in folders ==> |NewPath(moves, d)| <= |NewPath(moves, e)|
  {
    d :| d in folders;
    var rest := folders - {d};
    while rest != {}
      invariant d in folders && rest <= folders
      invariant forall e :: e in folders - rest ==> |NewPath(moves, d)| <= |NewPath(moves, e)|
    {
      var e :| e in rest;
      if |NewPath(moves, e)| < |NewPath(moves, d)| { d := e; }
      rest := rest - {e};
    }
  }

  /**
   The folders' destinations: legal, different from one another and from every
   folder that is there, and in no collision.
   */
  ghost predicate FoldersFit(rules: Rules, moves: seq<Move>, moving: set<Path>, files: set<Path>, staying: set<Path>) {
    && (forall d :: d in moving ==>
      Allowed(rules, None, NewPath(moves, d)) && NewPath(moves, d) !in Dirs(files, staying))
    && (forall d, e :: d in moving && e in moving && d != e ==> NewPath(moves, d) != NewPath(moves, e))
    && Clean(rules.fold, files, Dirs(files, staying + FoldersAfter(moves, moving)))
  }

  /** The destinations already placed are no deeper than those to come. */
  ghost predicate Shallower(moves: seq<Move>, done: set<Path>, rest: set<Path>) {
    forall d, e :: d in done && e in rest ==> |NewPath(moves, d)| <= |NewPath(moves, e)|
  }

  /** While parents come before children, destinations that fit together are free one by one. */
  lemma FolderIsFree(rules: Rules, moves: seq<Move>, moving: set<Path>, files: set<Path>, staying: set<Path>,
                     done: set<Path>, d: Path)
    requires FoldersFit(rules, moves, moving, files, staying) && done <= moving && d in moving - done
    requires forall e :: e in done ==> |NewPath(moves, e)| <= |NewPath(moves, d)|
    ensures Free(rules.fold, files, Dirs(files, staying + FoldersAfter(moves, done)), NewPath(moves, d))
  {
    hide NewPath, Owner, Dirs;
    var target, folders := NewPath(moves, d), staying + FoldersAfter(moves, done);
    var all := staying + FoldersAfter(moves, moving);
    DirsMonotone(files, folders, files, all);
    assert target in FoldersAfter(moves, moving);
    InDirs(files, all, target);
    forall e | e in Dirs(files, folders) ensures Key(rules.fold, e) != Key(rules.fold, target) {
      InDirs(files, folders, e);
      InDirs(files, staying, e);
    }
    forall a | a in Ancestors(target) ensures ParentFine(rules.fold, files, Dirs(files, folders), a) {
      InDirs(files, all, a);
    }
  }

  /** Places the moved folders' destinations, shallowest first; it succeeds exactly when they fit. */
  method PlaceFolders(rules: Rules, moves: seq<Move>, moving: set<Path>, files: set<Path>, staying: set<Path>)
    returns (r: Result<seq<Path>>)
    requires Clean(rules.fold, files, Dirs(files, staying))
    ensures r.Ok? <==> FoldersFit(rules, moves, moving, files, staying)
    ensures r.Ok? ==> SetOf(r.value) == FoldersAfter(moves, moving)
  {
    var placed: seq<Path> := [];
    var rest := moving;
    var folders := staying;
    NoFoldersYet(rules, moves, moving, files, staying);
    while rest != {}
      invariant rest <= moving && Shallower(moves, moving - rest, rest)
      invariant SetOf(placed) == FoldersAfter(moves, moving - rest)
      invariant folders == staying + FoldersAfter(moves, moving - rest)
      invariant FoldersFit(rules, moves, moving - rest, files, staying)
    {
      hide Clean, Dirs, NewPath, FoldersFit, FoldersAfter, SetOf, Free;
      var d := Shallowest(moves, rest);
      var target := NewPath(moves, d);
      ghost var done := moving - rest;
      var error := CheckPlacement(rules, None, target, files, folders);
      FolderStep(rules, moves, moving, files, staying, done, d);
      if error.Some? { return Err(error.value); }
      assert moving - (rest - {d}) == done + {d};
      AfterOneMore(moves, done, d);
      SetOfAppend(placed, target);
      assert folders + {target} == staying + FoldersAfter(moves, done + {d});
      placed := placed + [target];
      folders := folders + {target};
      rest := rest - {d};
    }
    assert moving - rest == moving;
    r := Ok(placed);
  }

  lemma NoFoldersYet(rules: Rules, moves: seq<Move>, moving: set<Path>, files: set<Path>, staying: set<Path>)
    requires Clean(rules.fold, files, Dirs(files, staying))
    ensures FoldersFit(rules, moves, moving - moving, files, staying) && Shallower(moves, moving - moving, moving)
    ensures FoldersAfter(moves, moving - moving) == SetOf([]) == {}
  {
    assert staying + FoldersAfter(moves, moving - moving) == staying;
  }

  /** Placing one more destination works exactly when all of them can fit. */
  lemma FolderStep(rules: Rules, moves: seq<Move>, moving: set<Path>, files: set<Path>, staying: set<Path>,
                   done: set<Path>, d: Path)
    requires done <= moving && d in moving - done && FoldersFit(rules, moves, done, files, staying)
    requires forall e :: e in done ==> |NewPath(moves, e)| <= |NewPath(moves, d)|
    ensures var ok := Allowed(rules, None, NewPath(moves, d))
                      && Free(rules.fold, files, Dirs(files, staying + FoldersAfter(moves, done)), NewPath(moves, d));
            && (ok ==> FoldersFit(rules, moves, done + {d}, files, staying))
            && (!ok ==> !FoldersFit(rules, moves, moving, files, staying))
  {
    var target, folders := NewPath(moves, d), staying + FoldersAfter(moves, done);
    if FoldersFit(rules, moves, moving, files, staying) {
      FolderIsFree(rules, moves, moving, files, staying, done, d);
    }
    if Allowed(rules, None, target) && Free(rules.fold, files, Dirs(files, folders), target) {
      FreeIsNew(rules, moves, files, staying, done, d);
    }
  }

  lemma FreeIsNew(rules: Rules, moves: seq<Move>, files: set<Path>, staying: set<Path>, done: set<Path>, d: Path)
    requires FoldersFit(rules, moves, done, files, staying) && Allowed(rules, None, NewPath(moves, d))
    requires Free(rules.fold, files, Dirs(files, staying + FoldersAfter(moves, done)), NewPath(moves, d))
    ensures FoldersFit(rules, moves, done + {d}, files, staying)
  {
    hide NewPath, Owner, Dirs, Clean;
    var target, folders := NewPath(moves, d), staying + FoldersAfter(moves, done);
    PlaceFolder(rules.fold, files, folders, target);
    AfterOneMore(moves, done, d);
    assert staying + FoldersAfter(moves, done + {d}) == folders + {target};
    DirsMonotone(files, staying, files, folders);
    forall e | e in done ensures NewPath(moves, e) != target {
      assert NewPath(moves, e) in FoldersAfter(moves, done);
      InDirs(files, folders, NewPath(moves, e));
    }
  }

  lemma AfterOneMore(moves: seq<Move>, dirs: set<Path>, d: Path)
    ensures FoldersAfter(moves, dirs + {d}) == FoldersAfter(moves, dirs) + {NewPath(moves, d)}
  {
  }

  lemma SetOfAppend(s: seq<Path>, x: Path)
    ensures SetOf(s + [x]) == SetOf(s) + {x}
  {
  }

  /** The placed list holds each of these files once, with its destination. */
  ghost predicate Lists(moves: seq<Move>, placed: seq<Moved>, files: set<File>) {
    && (forall f :: f in files <==> exists k :: 0 <= k < |placed| && placed[k].file == f)
    && (forall k :: 0 <= k < |placed| ==> placed[k].path == NewPath(moves, placed[k].file.path))
    && (forall j, k :: 0 <= j < k < |placed| ==> placed[j].file != placed[k].file)
  }

  /** These files, at their new paths, do not collide with one another or with the folders. */
  ghost predicate Fit(fold: Folding, moves: seq<Move>, files: set<File>, folders: set<Path>) {
    GoApart(moves, files) && Clean(fold, NewPaths(moves, files), Dirs(NewPaths(moves, files), folders))
  }

  /** The rules accept every moved file's new name. */
  ghost predicate FilesAllowed(rules: Rules, moves: seq<Move>, moving: set<File>) {
    forall f :: f in moving ==> Allowed(rules, Some(KindOf(f)), NewPath(moves, f.path))
  }

  /** Files that fit together are free one by one, in any order. */
  lemma FileIsFree(fold: Folding, moves: seq<Move>, files: set<File>, folders: set<Path>, done: set<File>, f: File)
    requires Fit(fold, moves, files, folders) && done <= files && f in files - done
    ensures Free(fold, NewPaths(moves, done), Dirs(NewPaths(moves, done), folders), NewPath(moves, f.path))
  {
    hide NewPath, Owner, Dirs;
    var target, some, all := NewPath(moves, f.path), NewPaths(moves, done), NewPaths(moves, files);
    DirsMonotone(some, folders, all, folders);
    assert target in all && some <= all;
    forall q | q in some ensures q != target {
      var g :| g in done && q == NewPath(moves, g.path);
    }
    forall a | a in Ancestors(target) ensures ParentFine(fold, some, Dirs(some, folders), a) {
      InDirs(all, folders, a);
    }
  }

  /** Places the moved files' destinations; it succeeds exactly when the result fits and every name is allowed. */
  method PlaceFiles(rules: Rules, moves: seq<Move>, moving: set<File>, staying: set<File>, folders: set<Path>)
    returns (r: Result<seq<Moved>>)
    requires moving !! staying
    requires forall f :: f in staying ==> Stays(moves, f.path)
    requires Apart(staying) && Clean(rules.fold, PathsOf(staying), Dirs(PathsOf(staying), folders))
    ensures r.Ok? <==> Fit(rules.fold, moves, moving + staying, folders) && FilesAllowed(rules, moves, moving)
    ensures r.Ok? ==> Lists(moves, r.value, moving)
  {
    var placed: seq<Moved> := [];
    var rest := moving;
    var taken := PathsOf(staying);
    NoFilesYet(rules, moves, moving, staying, folders);
    while rest != {}
      invariant rest <= moving
      invariant Lists(moves, placed, moving - rest)
      invariant taken == NewPaths(moves, moving - rest + staying)
      invariant Fit(rules.fold, moves, moving - rest + staying, folders) && FilesAllowed(rules, moves, moving - rest)
    {
      hide *;
      var f :| f in rest;
      var target := NewPath(moves, f.path);
      ghost var done := moving - rest;
      var error := CheckPlacement(rules, Some(KindOf(f)), target, taken, folders);
      FileStep(rules, moves, moving, staying, folders, done, f);
      if error.Some? { return Err(error.value); }
      assert moving - (rest - {f}) == done + {f};
      AppendMoved(moves, placed, done, f);
      placed := placed + [Moved(f, target)];
      taken := taken + {target};
      rest := rest - {f};
    }
    assert moving - rest == moving;
    r := Ok(placed);
  }

  lemma NoFilesYet(rules: Rules, moves: seq<Move>, moving: set<File>, staying: set<File>, folders: set<Path>)
    requires forall f :: f in staying ==> Stays(moves, f.path)
    requires Apart(staying) && Clean(rules.fold, PathsOf(staying), Dirs(PathsOf(staying), folders))
    ensures PathsOf(staying) == NewPaths(moves, moving - moving + staying)
    ensures Fit(rules.fold, moves, moving - moving + staying, folders) && FilesAllowed(rules, moves, moving - moving)
    ensures Lists(moves, [], moving - moving)
  {
    assert moving - moving + staying == staying;
    StayPut(moves, staying);
  }

  /** Placing one more file works exactly when all of them can fit. */
  lemma FileStep(rules: Rules, moves: seq<Move>, moving: set<File>, staying: set<File>, folders: set<Path>,
                 done: set<File>, f: File)
    requires moving !! staying && done <= moving && f in moving - done
    requires Fit(rules.fold, moves, done + staying, folders) && FilesAllowed(rules, moves, done)
    ensures var target, taken := NewPath(moves, f.path), NewPaths(moves, done + staying);
            var ok := Allowed(rules, Some(KindOf(f)), target) && Free(rules.fold, taken, Dirs(taken, folders), target);
            && (ok ==> Fit(rules.fold, moves, done + {f} + staying, folders) && FilesAllowed(rules, moves, done + {f})
                       && NewPaths(moves, done + {f} + staying) == taken + {target})
            && (!ok ==> !(Fit(rules.fold, moves, moving + staying, folders) && FilesAllowed(rules, moves, moving)))
  {
    hide NewPath, Owner, Dirs, Clean, Free;
    var target, taken := NewPath(moves, f.path), NewPaths(moves, done + staying);
    assert done + {f} + staying == done + staying + {f};
    if Fit(rules.fold, moves, moving + staying, folders) {
      FileIsFree(rules.fold, moves, moving + staying, folders, done + staying, f);
    }
    if Free(rules.fold, taken, Dirs(taken, folders), target) {
      OneMoreFile(rules.fold, moves, done + staying, folders, f);
    }
  }

  lemma StayPut(moves: seq<Move>, staying: set<File>)
    requires forall f :: f in staying ==> Stays(moves, f.path)
    ensures PathsOf(staying) == NewPaths(moves, staying)
    ensures Apart(staying) ==> GoApart(moves, staying)
  {
  }

  lemma OneMoreFile(fold: Folding, moves: seq<Move>, files: set<File>, folders: set<Path>, f: File)
    requires Fit(fold, moves, files, folders)
    requires Free(fold, NewPaths(moves, files), Dirs(NewPaths(moves, files), folders), NewPath(moves, f.path))
    ensures Fit(fold, moves, files + {f}, folders)
    ensures NewPaths(moves, files + {f}) == NewPaths(moves, files) + {NewPath(moves, f.path)}
  {
    PlaceFile(fold, NewPaths(moves, files), folders, NewPath(moves, f.path));
    hide Clean, Dirs, Free;
    assert NewPaths(moves, files + {f}) == NewPaths(moves, files) + {NewPath(moves, f.path)};
  }

  lemma AppendMoved(moves: seq<Move>, placed: seq<Moved>, done: set<File>, f: File)
    requires Lists(moves, placed, done) && f !in done
    ensures Lists(moves, placed + [Moved(f, NewPath(moves, f.path))], done + {f})
  {
    var more := placed + [Moved(f, NewPath(moves, f.path))];
    forall g ensures g in done + {f} <==> exists k :: 0 <= k < |more| && more[k].file == g {
      if g in done {
        var k :| 0 <= k < |placed| && placed[k].file == g;
        assert more[k].file == g;
      }
      if g == f { assert more[|placed|].file == f; }
    }
  }

  // ----- Planning -----

  /** No two files share a path, and nothing collides. */
  ghost predicate GoodListing(fold: Folding, files: set<File>, explicit: set<Path>) {
    Apart(files) && Clean(fold, PathsOf(files), Dirs(PathsOf(files), explicit))
  }

  /** The selected item is still there. */
  predicate Exists(files: set<File>, dirs: set<Path>, e: Entry) {
    match e
    case FolderEntry(path) => path in dirs
    case TextEntry(id, path) => TextFile(id, path) in files
    case AssetEntry(path) => exists f :: f in files && f.AssetFile? && f.path == path
  }

  /** Where a root goes: into the destination under its own name, or to the destination itself. */
  function Destination(e: Entry, destination: Path, rename: bool): Path {
    if rename || e.path == [] then destination else destination + [e.path[|e.path| - 1]]
  }

  function MovesFor(roots: seq<Entry>, destination: Path, rename: bool): (moves: seq<Move>)
    ensures |moves| == |roots|
    ensures forall k :: 0 <= k < |roots| ==> moves[k].entry == roots[k]
  {
    seq(|roots|, k requires 0 <= k < |roots| => Move(roots[k], Destination(roots[k], destination, rename)))
  }

  function EntryKind(e: Entry): Option<Kind> {
    match e case FolderEntry(_) => None case TextEntry(_, _) => Some(Text) case AssetEntry(_) => Some(Asset)
  }

  /** The folder would end up inside itself. */
  predicate IntoOwnFolder(rules: Rules, m: Move) {
    m.entry.FolderEntry? && Key(rules.fold, m.entry.path) < Key(rules.fold, m.path)
  }

  predicate RootFine(rules: Rules, files: set<File>, dirs: set<Path>, m: Move) {
    Exists(files, dirs, m.entry) && !IntoOwnFolder(rules, m)
  }

  /** A name is legal when every rule accepts it: that for folders always, that for the kind of a file as well. */
  lemma AllowedMeans(rules: Rules, f: File, p: Path)
    ensures Allowed(rules, None, p) <==> (rules.folderOk)(p)
    ensures Allowed(rules, Some(KindOf(f)), p)
       <==> (rules.folderOk)(p) && (rules.kindOf)(p) == Some(if f.TextFile? then Text else Asset)
  {
  }

  /** The item is there with its kind, at its path, and a text under its id. */
  lemma RootFineMeans(rules: Rules, files: set<File>, dirs: set<Path>, m: Move)
    ensures RootFine(rules, files, dirs, m)
       <==> match m.entry
            case FolderEntry(path) =>
              && path in dirs
              && !(exists rest :: rest != [] && Key(rules.fold, m.path) == Key(rules.fold, path) + rest)
            case TextEntry(id, path) => exists f :: f in files && f == TextFile(id, path)
            case AssetEntry(path) => exists sha :: AssetFile(path, sha) in files
  {
    match m.entry
    case FolderEntry(path) =>
      var inner, outer := Key(rules.fold, m.path), Key(rules.fold, path);
      if outer < inner { assert inner == outer + inner[|outer|..]; }
    case TextEntry(_, _) =>
    case AssetEntry(path) =>
      if f :| f in files && f.AssetFile? && f.path == path { assert AssetFile(path, f.sha) in files; }
  }

  lemma EntryKindMeans(e: Entry)
    ensures EntryKind(e).None? <==> e.FolderEntry?
    ensures EntryKind(e) == Some(Text) <==> e.TextEntry?
    ensures EntryKind(e) == Some(Asset) <==> e.AssetEntry?
  {
  }

  /** Every root is still there, and no folder goes into itself. */
  method CheckRoots(rules: Rules, files: set<File>, dirs: set<Path>, moves: seq<Move>) returns (error: Option<Error>)
    ensures error.None? <==> forall k :: 0 <= k < |moves| ==> RootFine(rules, files, dirs, moves[k])
  {
    for k := 0 to |moves|
      invariant forall j :: 0 <= j < k ==> Exists(files, dirs, moves[j].entry)
    {
      if !Exists(files, dirs, moves[k].entry) { return Some(Gone); }
    }
    for k := 0 to |moves|
      invariant forall j :: 0 <= j < k ==> !IntoOwnFolder(rules, moves[j])
    {
      if IntoOwnFolder(rules, moves[k]) { return Some(IntoItself); }
    }
    error := None;
  }

  ghost predicate Lands(rules: Rules, m: Move, files: set<Path>, folders: set<Path>) {
    Allowed(rules, EntryKind(m.entry), m.path) && Free(rules.fold, files, Dirs(files, folders), m.path)
  }

  /** The roots themselves must not land on anything that stays. */
  method CheckDestinations(rules: Rules, moves: seq<Move>, files: set<Path>,
                           folders: set<Path>) returns (error: Option<Error>)
    ensures error.None? <==> forall k :: 0 <= k < |moves| ==> Lands(rules, moves[k], files, folders)
  {
    for k := 0 to |moves|
      invariant forall j :: 0 <= j < k ==> Lands(rules, moves[j], files, folders)
    {
      error := CheckPlacement(rules, EntryKind(moves[k].entry), moves[k].path, files, folders);
      if error.Some? { return; }
    }
    error := None;
  }

  /** Everything that moves has a legal place among what stays, and no root merges with what is there. */
  ghost predicate CanPlace(rules: Rules, files: set<File>, dirs: set<Path>, moves: seq<Move>) {
    var movedFiles, movedFolders := MovedFiles(moves, files), MovedFolders(moves, dirs);
    && (forall k :: 0 <= k < |moves| ==> Lands(rules, moves[k], PathsOf(files - movedFiles), dirs - movedFolders))
    && FoldersFit(rules, moves, movedFolders, PathsOf(files - movedFiles), dirs - movedFolders)
    && Fit(rules.fold, moves, movedFiles + (files - movedFiles),
      dirs - movedFolders + FoldersAfter(moves, movedFolders))
    && FilesAllowed(rules, moves, movedFiles)
  }

  /** Everything that moves is placed, one item after the other, into what stays. */
  method PlaceAll(rules: Rules, files: set<File>, explicit: set<Path>, dirs: set<Path>, moves: seq<Move>)
    returns (r: Result<Plan>)
    requires GoodListing(rules.fold, files, explicit) && dirs == Dirs(PathsOf(files), explicit)
    requires forall p :: p in Parents(moves) ==> p in dirs && Stays(moves, p)
    ensures r.Ok? <==> CanPlace(rules, files, dirs, moves)
    ensures r.Ok? ==> PlanIsRight(rules.fold, r.value, moves, files, explicit)
  {
    Partition(moves, files);
    FolderPartition(rules, moves, files, dirs);
    hide Clean, Dirs, Free, Lists, Fit, PlanIsRight, NewPath, Owner, GoodListing, MovedFiles, MovedFolders, PathsOf,
      FoldersFit, FoldersAfter, Parents, FilesAllowed, SetOf, Lands, Stays;
    var changedFiles := MovedFiles(moves, files);
    var changedFolders := MovedFolders(moves, dirs);
    var remainingFiles := files - changedFiles;
    var remainingFolders := dirs - changedFolders;
    RemainingIsClean(rules.fold, files, explicit, remainingFiles, remainingFolders);
    var error := CheckDestinations(rules, moves, PathsOf(remainingFiles), remainingFolders);
    if error.Some? { return Err(error.value); }
    var outputFolders := PlaceFolders(rules, moves, changedFolders, PathsOf(remainingFiles), remainingFolders);
    if outputFolders.Err? { return Err(outputFolders.error); }
    var newFolders := remainingFolders + SetOf(outputFolders.value);
    var outputFiles := PlaceFiles(rules, moves, changedFiles, remainingFiles, newFolders);
    if outputFiles.Err? { return Err(outputFiles.error); }
    r := Ok(Plan(outputFiles.value, changedFolders, outputFolders.value, Parents(moves)));
    AssemblesPlan(rules.fold, r.value, moves, files, explicit, changedFiles, remainingFiles, remainingFolders);
  }

  lemma FolderPartition(rules: Rules, moves: seq<Move>, files: set<File>, dirs: set<Path>)
    ensures FoldersFit(rules, moves, MovedFolders(moves, dirs), PathsOf(files - MovedFiles(moves, files)),
        dirs - MovedFolders(moves, dirs))
        ==> Clean(rules.fold, PathsOf(files - MovedFiles(moves, files)),
                  Dirs(PathsOf(files - MovedFiles(moves, files)),
                       dirs - MovedFolders(moves, dirs) + FoldersAfter(moves, MovedFolders(moves, dirs))))
  {
  }

  lemma Partition(moves: seq<Move>, files: set<File>)
    ensures MovedFiles(moves, files) <= files
    ensures forall f :: f in files - MovedFiles(moves, files) ==> Stays(moves, f.path)
  {
  }

  lemma RemainingIsClean(fold: Folding, files: set<File>, explicit: set<Path>, fewer: set<File>, less: set<Path>)
    requires GoodListing(fold, files, explicit) && fewer <= files && less <= Dirs(PathsOf(files), explicit)
    ensures Apart(fewer) && Clean(fold, PathsOf(fewer), Dirs(PathsOf(fewer), less))
  {
    hide Clean, Dirs;
    DirsClosed(PathsOf(files), explicit, PathsOf(fewer), less);
    CleanSubset(fold, PathsOf(files), Dirs(PathsOf(files), explicit), PathsOf(fewer), Dirs(PathsOf(fewer), less));
  }

  /** The folders that held the roots are not themselves moved. */
  lemma ParentsStay(fold: Folding, files: set<File>, explicit: set<Path>, entries: seq<Entry>, moves: seq<Move>,
                    destination: Path, rename: bool)
    requires GoodListing(fold, files, explicit)
    requires moves == MovesFor(TopEntries(entries, |entries|), destination, rename)
    requires forall k :: 0 <= k < |moves| ==> Exists(files, Dirs(PathsOf(files), explicit), moves[k].entry)
    ensures forall p :: p in Parents(moves) ==> p in Dirs(PathsOf(files), explicit) && Stays(moves, p)
  {
    forall parent | parent in Parents(moves) ensures parent in Dirs(PathsOf(files), explicit) && Stays(moves, parent) {
      var k :|
        && 0 <= k < |moves| && |moves[k].entry.path| > 1
        && parent == moves[k].entry.path[..|moves[k].entry.path| - 1];
      hide *;
      ParentStays(fold, files, explicit, entries, moves, k, destination, rename);
    }
  }

  lemma ParentStays(fold: Folding, files: set<File>, explicit: set<Path>, entries: seq<Entry>, moves: seq<Move>, k: nat,
                    destination: Path, rename: bool)
    requires GoodListing(fold, files, explicit)
    requires moves == MovesFor(TopEntries(entries, |entries|), destination, rename)
    requires forall j :: 0 <= j < |moves| ==> Exists(files, Dirs(PathsOf(files), explicit), moves[j].entry)
    requires k < |moves| && |moves[k].entry.path| > 1
    ensures var parent := moves[k].entry.path[..|moves[k].entry.path| - 1];
            parent in Dirs(PathsOf(files), explicit) && Stays(moves, parent)
  {
    hide Clean, Dirs, TopEntries, MovesFor, Exists;
    var path := moves[k].entry.path;
    var parent := path[..|path| - 1];
    assert parent in Ancestors(path);
    ParentIsFolder(files, explicit, moves[k].entry, parent);
    TopEntriesMembers(entries, |entries|, moves[k].entry);
    if !Stays(moves, parent) {
      var m := Owner(moves, parent).value;
      var j :| 0 <= j < |moves| && moves[j] == m;
      TopEntriesMembers(entries, |entries|, moves[j].entry);
      if !m.entry.FolderEntry? { ParentIsNoFile(fold, files, explicit, moves[j].entry, parent); }
    }
  }

  lemma ParentIsFolder(files: set<File>, explicit: set<Path>, e: Entry, parent: Path)
    requires Exists(files, Dirs(PathsOf(files), explicit), e) && parent in Ancestors(e.path)
    ensures parent in Dirs(PathsOf(files), explicit)
  {
    InDirs(PathsOf(files), explicit, parent);
    if e.FolderEntry? && e.path !in explicit {
      InDirs(PathsOf(files), explicit, e.path);
      var q :| q in PathsOf(files) + explicit && e.path in Ancestors(q);
      assert parent == q[..|parent|];
      assert parent in Ancestors(q);
    } else if !e.FolderEntry? {
      assert e.path in PathsOf(files);
    }
  }

  lemma ParentIsNoFile(fold: Folding, files: set<File>, explicit: set<Path>, e: Entry, parent: Path)
    requires GoodListing(fold, files, explicit) && parent in Dirs(PathsOf(files), explicit)
    requires !e.FolderEntry? && Exists(files, Dirs(PathsOf(files), explicit), e)
    ensures e.path != parent
  {
    assert e.path in PathsOf(files);
  }

  lemma AssemblesPlan(fold: Folding, plan: Plan, moves: seq<Move>, files: set<File>, explicit: set<Path>,
                      changedFiles: set<File>, remainingFiles: set<File>, remainingFolders: set<Path>)
    requires var dirs := Dirs(PathsOf(files), explicit);
             && changedFiles == MovedFiles(moves, files) && remainingFiles == files - changedFiles
             && plan.oldFolders == MovedFolders(moves, dirs) && remainingFolders == dirs - plan.oldFolders
             && SetOf(plan.folders) == FoldersAfter(moves, plan.oldFolders)
             && Lists(moves, plan.files, changedFiles)
             && Fit(fold, moves, changedFiles + remainingFiles, remainingFolders + SetOf(plan.folders))
             && plan.parents == Parents(moves) <= dirs && (forall p :: p in plan.parents ==> Stays(moves, p))
    ensures PlanIsRight(fold, plan, moves, files, explicit)
  {
    hide Clean, Dirs, Lists, Fit;
    var dirs := Dirs(PathsOf(files), explicit);
    assert changedFiles + remainingFiles == files;
    assert FoldersAfter(moves, dirs) == remainingFolders + FoldersAfter(moves, plan.oldFolders) by {
      forall p
        ensures p in FoldersAfter(moves, dirs) <==> p in remainingFolders + FoldersAfter(moves, plan.oldFolders)
      {
        if p in FoldersAfter(moves, dirs) { var d :| d in dirs && p == NewPath(moves, d); }
      }
    }
  }
}
