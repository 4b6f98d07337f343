/**
 Where a relocation takes every path, said of the selection itself: what lies
 in a selected item goes with it, and everything else stays.
 */
module Destinations {
  import opened Basics
  import opened Namespace
  import opened Relocation

  /** A selected item that lies in no other selected folder. */
  ghost predicate IsRoot(entries: seq<Entry>, e: Entry) {
    e in entries && forall f :: f in entries && f.FolderEntry? ==> !(f.path < e.path)
  }

  /** The path is the item itself, or lies `rest` below it. */
  ghost predicate LiesIn(e: Entry, rest: Path, p: Path) {
    p == e.path + rest && (rest == [] || e.FolderEntry?)
  }

  /** A renamed item goes to the destination itself, a moved one into it under its own last name. */
  ghost predicate LandsAt(e: Entry, destination: Path, rename: bool, to: Path) {
    if rename || e.path == [] then to == destination
    else exists front, name :: e.path == front + [name] && to == destination + [name]
  }

  ghost predicate IsCarried(entries: seq<Entry>, p: Path) {
    exists e, rest :: IsRoot(entries, e) && LiesIn(e, rest, p)
  }

  /** What lies in a root keeps its place in it; a path in no root stays. */
  ghost predicate Goes(entries: seq<Entry>, destination: Path, rename: bool, p: Path, q: Path) {
    && (forall e, rest, to :: IsRoot(entries, e) && LiesIn(e, rest, p) && LandsAt(e, destination, rename, to) ==>
          q == to + rest)
    && (!IsCarried(entries, p) ==> q == p)
  }

  /** Every text keeps its id and goes where the selection takes it. */
  ghost predicate TextsGo(entries: seq<Entry>, destination: Path, rename: bool,
                          was: map<string, Path>, now: map<string, Path>)
  {
    now.Keys == was.Keys && forall id :: id in was ==> Goes(entries, destination, rename, was[id], now[id])
  }

  /** Every figure keeps its digest and goes where the selection takes it, and there are no others. */
  ghost predicate FiguresGo(entries: seq<Entry>, destination: Path, rename: bool,
                            was: map<Path, string>, now: map<Path, string>)
  {
    && (forall p, q :: p in was && Goes(entries, destination, rename, p, q) ==> q in now && now[q] == was[p])
    && (forall q :: q in now ==> exists p :: p in was && Goes(entries, destination, rename, p, q))
    && (forall p, o, q :: p in was && o in was && p != o ==>
          !(Goes(entries, destination, rename, p, q) && Goes(entries, destination, rename, o, q)))
  }

  /** The path is the folder that holds a root. */
  ghost predicate HoldsRoot(entries: seq<Entry>, q: Path) {
    q != [] && exists e, name :: IsRoot(entries, e) && e.path == q + [name]
  }

  /** Why a path is a folder after the plan. */
  ghost predicate IsFolderAfter(entries: seq<Entry>, destination: Path, rename: bool,
                                dirs: set<Path>, was: set<Path>, q: Path)
  {
    || (q in was && !IsCarried(entries, q))
    || (exists d :: d in dirs && IsCarried(entries, d) && Goes(entries, destination, rename, d, q))
    || HoldsRoot(entries, q)
  }

  /** The folders are those that stay, the new places of those that go, and those the roots were taken from. */
  ghost predicate FoldersGo(entries: seq<Entry>, destination: Path, rename: bool,
                            dirs: set<Path>, was: set<Path>, now: set<Path>)
  {
    forall q :: q in now <==> IsFolderAfter(entries, destination, rename, dirs, was, q)
  }

  /** The plan lists exactly the carried files, each with the place it goes to. */
  ghost predicate FilesPlanned(entries: seq<Entry>, destination: Path, rename: bool,
                               files: set<File>, planned: seq<Moved>)
  {
    && (forall k :: 0 <= k < |planned| ==>
          Goes(entries, destination, rename, planned[k].file.path, planned[k].path))
    && (forall f ::
          (f in files && IsCarried(entries, f.path)) <==> exists k :: 0 <= k < |planned| && planned[k].file == f)
  }

  // ----- The plan takes every path there -----

  lemma {:induction false} NoOwner(moves: seq<Move>, p: Path)
    requires Owner(moves, p).None?
    ensures forall m :: m in moves ==> !Moves(m, p)
  {
    if moves != [] {
      NoOwner(moves[1..], p);
      assert moves == [moves[0]] + moves[1..];
    }
  }

  lemma RootIsSelected(entries: seq<Entry>, e: Entry)
    requires e in TopEntries(entries, |entries|)
    ensures IsRoot(entries, e)
  {
    TopEntriesMembers(entries, |entries|, e);
  }

  /** Every root of the selection has a twin among the moves. */
  lemma RootMoves(entries: seq<Entry>, destination: Path, rename: bool, e: Entry) returns (m: Move)
    requires IsRoot(entries, e)
    ensures m in MovesFor(TopEntries(entries, |entries|), destination, rename)
    ensures m.entry.path == e.path && (m.entry.FolderEntry? <==> e.FolderEntry?)
  {
    hide TopEntries;
    var k: nat :| k < |entries| && entries[k] == e;
    var root := TopEntriesCover(entries, k);
    RootIsSelected(entries, root);
    var j :| 0 <= j < |TopEntries(entries, |entries|)| && TopEntries(entries, |entries|)[j] == root;
    m := MovesFor(TopEntries(entries, |entries|), destination, rename)[j];
  }

  lemma LandingIsOne(e: Entry, destination: Path, rename: bool, to: Path)
    ensures LandsAt(e, destination, rename, to) <==> to == Destination(e, destination, rename)
  {
    if !rename && e.path != [] {
      var n := |e.path| - 1;
      assert e.path == e.path[..n] + [e.path[n]];
      forall front, name | e.path == front + [name] ensures name == e.path[n] {
        assert (front + [name])[n] == name;
      }
    }
  }

  lemma MoveLands(entries: seq<Entry>, destination: Path, rename: bool, m: Move)
    requires m in MovesFor(TopEntries(entries, |entries|), destination, rename)
    ensures IsRoot(entries, m.entry)
    ensures forall to :: LandsAt(m.entry, destination, rename, to) <==> to == m.path
  {
    var roots := TopEntries(entries, |entries|);
    var k :| 0 <= k < |roots| && m == MovesFor(roots, destination, rename)[k];
    RootIsSelected(entries, m.entry);
    hide TopEntries, IsRoot, LandsAt;
    forall to ensures LandsAt(m.entry, destination, rename, to) <==> to == m.path {
      LandingIsOne(m.entry, destination, rename, to);
    }
  }

  lemma PrefixOrder(x: Path, y: Path, r: Path, s: Path)
    requires x + r == y + s && |x| < |y|
    ensures x < y && r != []
  {
    assert x == (x + r)[..|x|] == (y + s)[..|x|] == y[..|x|];
  }

  /** Two roots that a path lies in have the same path. */
  lemma OneRoot(entries: seq<Entry>, e: Entry, f: Entry, rest: Path, more: Path, p: Path)
    requires IsRoot(entries, e) && IsRoot(entries, f) && LiesIn(e, rest, p) && LiesIn(f, more, p)
    ensures e.path == f.path && rest == more
  {
    if |e.path| < |f.path| {
      PrefixOrder(e.path, f.path, rest, more);
    } else if |f.path| < |e.path| {
      PrefixOrder(f.path, e.path, more, rest);
    } else {
      SameSplit(e.path, f.path, rest, more);
    }
  }

  lemma SameSplit(x: Path, y: Path, r: Path, s: Path)
    requires x + r == y + s && |x| == |y|
    ensures x == y && r == s
  {
    assert x == (x + r)[..|x|] && y == (y + s)[..|y|];
    assert r == (x + r)[|x|..] && s == (y + s)[|y|..];
  }

  lemma SameLanding(e: Entry, f: Entry, destination: Path, rename: bool, to: Path)
    requires e.path == f.path && LandsAt(e, destination, rename, to)
    ensures LandsAt(f, destination, rename, to)
  {
  }

  /** What a move owns goes along with its item. */
  lemma OwnedGoes(entries: seq<Entry>, destination: Path, rename: bool, m: Move, rest: Path, p: Path)
    requires m in MovesFor(TopEntries(entries, |entries|), destination, rename) && LiesIn(m.entry, rest, p)
    ensures IsCarried(entries, p) && Goes(entries, destination, rename, p, m.path + rest)
  {
    MoveLands(entries, destination, rename, m);
    hide TopEntries, MovesFor, IsRoot, LandsAt, LiesIn;
    forall e, more, to | IsRoot(entries, e) && LiesIn(e, more, p) && LandsAt(e, destination, rename, to)
      ensures to + more == m.path + rest
    {
      OneRoot(entries, m.entry, e, rest, more, p);
      SameLanding(e, m.entry, destination, rename, to);
    }
  }

  /** What no move owns lies in no root. */
  lemma UnownedStays(entries: seq<Entry>, destination: Path, rename: bool, p: Path)
    requires Owner(MovesFor(TopEntries(entries, |entries|), destination, rename), p).None?
    ensures !IsCarried(entries, p) && Goes(entries, destination, rename, p, p)
  {
    var moves := MovesFor(TopEntries(entries, |entries|), destination, rename);
    NoOwner(moves, p);
    hide TopEntries, MovesFor, IsRoot, LandsAt, Owner;
    forall e, rest | IsRoot(entries, e) ensures !LiesIn(e, rest, p) {
      var m := RootMoves(entries, destination, rename, e);
      assert !Moves(m, p);
    }
  }

  lemma SplitAt(m: Move, p: Path)
    requires Moves(m, p)
    ensures |m.entry.path| <= |p| && LiesIn(m.entry, p[|m.entry.path|..], p)
  {
  }

  /** The plan's new paths are where the selection says. */
  lemma NewPathGoes(entries: seq<Entry>, destination: Path, rename: bool, p: Path)
    ensures var moves := MovesFor(TopEntries(entries, |entries|), destination, rename);
            && Goes(entries, destination, rename, p, NewPath(moves, p))
            && (IsCarried(entries, p) <==> !Stays(moves, p))
  {
    var moves := MovesFor(TopEntries(entries, |entries|), destination, rename);
    hide TopEntries, MovesFor, IsCarried, Goes, LiesIn;
    match Owner(moves, p)
    case Some(m) =>
      SplitAt(m, p);
      OwnedGoes(entries, destination, rename, m, p[|m.entry.path|..], p);
    case None => UnownedStays(entries, destination, rename, p);
  }

  /** A path goes to one place only. */
  lemma GoesToOnePlace(entries: seq<Entry>, destination: Path, rename: bool, p: Path, q: Path, r: Path)
    requires Goes(entries, destination, rename, p, q) && Goes(entries, destination, rename, p, r)
    ensures q == r
  {
    hide IsRoot, LiesIn;
    if e, rest :| IsRoot(entries, e) && LiesIn(e, rest, p) {
      var to := Landing(e, destination, rename);
    }
  }

  lemma Landing(e: Entry, destination: Path, rename: bool) returns (to: Path)
    ensures LandsAt(e, destination, rename, to)
  {
    var path := e.path;
    if rename || path == [] {
      to := destination;
    } else {
      to := destination + [path[|path| - 1]];
      assert path == path[..|path| - 1] + [path[|path| - 1]];
    }
  }

  lemma ParentOf(path: Path, q: Path)
    ensures |path| > 1 && q == path[..|path| - 1] <==> q != [] && exists name :: path == q + [name]
  {
    if |path| > 1 && q == path[..|path| - 1] { assert path == q + [path[|path| - 1]]; }
  }

  lemma ParentsHoldRoots(entries: seq<Entry>, destination: Path, rename: bool, q: Path)
    ensures q in Parents(MovesFor(TopEntries(entries, |entries|), destination, rename)) <==> HoldsRoot(entries, q)
  {
    var moves := MovesFor(TopEntries(entries, |entries|), destination, rename);
    if q in Parents(moves) { ParentHoldsRoot(entries, destination, rename, q); }
    if HoldsRoot(entries, q) { HolderIsParent(entries, destination, rename, q); }
  }

  lemma {:induction false} ParentHoldsRoot(entries: seq<Entry>, destination: Path, rename: bool, q: Path)
    requires q in Parents(MovesFor(TopEntries(entries, |entries|), destination, rename))
    ensures HoldsRoot(entries, q)
  {
    hide *;
    var moves := MovesFor(TopEntries(entries, |entries|), destination, rename);
    var m := ParentOfMove(moves, q);
    MoveLands(entries, destination, rename, m);
    ParentOf(m.entry.path, q);
    var name :| m.entry.path == q + [name];
    RootIsHeld(entries, m.entry, q, name);
  }

  lemma ParentOfMove(moves: seq<Move>, q: Path) returns (m: Move)
    requires q in Parents(moves)
    ensures m in moves && |m.entry.path| > 1 && q == m.entry.path[..|m.entry.path| - 1]
  {
    var k :| 0 <= k < |moves| && |moves[k].entry.path| > 1 && q == moves[k].entry.path[..|moves[k].entry.path| - 1];
    m := moves[k];
  }

  lemma RootIsHeld(entries: seq<Entry>, e: Entry, q: Path, name: Segment)
    requires IsRoot(entries, e) && e.path == q + [name] && q != []
    ensures HoldsRoot(entries, q)
  {
    hide IsRoot;
  }

  lemma HolderIsParent(entries: seq<Entry>, destination: Path, rename: bool, q: Path)
    requires HoldsRoot(entries, q)
    ensures q in Parents(MovesFor(TopEntries(entries, |entries|), destination, rename))
  {
    hide TopEntries, MovesFor, IsRoot;
    var moves := MovesFor(TopEntries(entries, |entries|), destination, rename);
    var e, name :| IsRoot(entries, e) && e.path == q + [name];
    var m := RootMoves(entries, destination, rename, e);
    ParentOf(m.entry.path, q);
    var k :| 0 <= k < |moves| && moves[k] == m;
  }

  /** A carried folder's new place. */
  lemma CarriedFolders(entries: seq<Entry>, destination: Path, rename: bool, dirs: set<Path>, q: Path)
    ensures var moves := MovesFor(TopEntries(entries, |entries|), destination, rename);
            q in FoldersAfter(moves, MovedFolders(moves, dirs))
            <==> exists d :: d in dirs && IsCarried(entries, d) && Goes(entries, destination, rename, d, q)
  {
    var moves := MovesFor(TopEntries(entries, |entries|), destination, rename);
    hide NewPath, TopEntries, MovesFor, Goes, IsCarried, Owner, Stays;
    if q in FoldersAfter(moves, MovedFolders(moves, dirs)) {
      var d :| d in MovedFolders(moves, dirs) && q == NewPath(moves, d);
      NewPathGoes(entries, destination, rename, d);
    }
    if d :| d in dirs && IsCarried(entries, d) && Goes(entries, destination, rename, d, q) {
      NewPathGoes(entries, destination, rename, d);
      GoesToOnePlace(entries, destination, rename, d, q, NewPath(moves, d));
      assert d in MovedFolders(moves, dirs);
    }
  }

  lemma PlanFolders(fold: Folding, plan: Plan, moves: seq<Move>, files: set<File>, explicit: set<Path>)
    requires PlanIsRight(fold, plan, moves, files, explicit)
    ensures var dirs := Dirs(PathsOf(files), explicit);
      && explicit <= dirs && plan.oldFolders == MovedFolders(moves, dirs) && plan.parents == Parents(moves)
      && SetOf(plan.folders) == FoldersAfter(moves, plan.oldFolders)
  {
    hide Lists, Fit, Parents, SetOf, FoldersAfter, MovedFolders;
  }

  lemma {:induction false} FoldersFollowPlan(
    fold: Folding, plan: Plan, entries: seq<Entry>, destination: Path, rename: bool,
    files: set<File>, explicit: set<Path>)
    requires PlanIsRight(fold, plan, MovesFor(TopEntries(entries, |entries|), destination, rename), files, explicit)
    ensures FoldersGo(entries, destination, rename, Dirs(PathsOf(files), explicit), explicit,
                      explicit - plan.oldFolders + SetOf(plan.folders) + plan.parents)
  {
    hide *;
    var moves := MovesFor(TopEntries(entries, |entries|), destination, rename);
    var dirs := Dirs(PathsOf(files), explicit);
    PlanFolders(fold, plan, moves, files, explicit);
    var now := explicit - plan.oldFolders + SetOf(plan.folders) + plan.parents;
    forall q ensures q in now <==> IsFolderAfter(entries, destination, rename, dirs, explicit, q) {
      FolderAfter(entries, destination, rename, dirs, explicit, plan, q);
    }
    AllFoldersGo(entries, destination, rename, dirs, explicit, now);
  }

  lemma {:induction false} FolderAfter(
    entries: seq<Entry>, destination: Path, rename: bool, dirs: set<Path>, explicit: set<Path>, plan: Plan, q: Path)
    requires var moves := MovesFor(TopEntries(entries, |entries|), destination, rename);
      && explicit <= dirs && plan.oldFolders == MovedFolders(moves, dirs) && plan.parents == Parents(moves)
      && SetOf(plan.folders) == FoldersAfter(moves, plan.oldFolders)
    ensures q in explicit - plan.oldFolders + SetOf(plan.folders) + plan.parents
       <==> IsFolderAfter(entries, destination, rename, dirs, explicit, q)
  {
    hide *;
    var moves := MovesFor(TopEntries(entries, |entries|), destination, rename);
    ParentsHoldRoots(entries, destination, rename, q);
    NewPathGoes(entries, destination, rename, q);
    CarriedFolders(entries, destination, rename, dirs, q);
    InMovedFolders(moves, dirs, q);
    FolderAfterMeans(entries, destination, rename, dirs, explicit, q);
  }

  lemma InMovedFolders(moves: seq<Move>, dirs: set<Path>, q: Path)
    ensures q in MovedFolders(moves, dirs) <==> q in dirs && !Stays(moves, q)
  {
  }

  lemma FolderAfterMeans(entries: seq<Entry>, destination: Path, rename: bool, dirs: set<Path>, was: set<Path>, q: Path)
    ensures IsFolderAfter(entries, destination, rename, dirs, was, q) <==>
      || (q in was && !IsCarried(entries, q))
      || (exists d :: d in dirs && IsCarried(entries, d) && Goes(entries, destination, rename, d, q))
      || HoldsRoot(entries, q)
  {
    hide Goes, IsCarried, HoldsRoot;
  }

  lemma AllFoldersGo(entries: seq<Entry>, destination: Path, rename: bool, dirs: set<Path>, was: set<Path>,
                     now: set<Path>)
    requires forall q :: q in now <==> IsFolderAfter(entries, destination, rename, dirs, was, q)
    ensures FoldersGo(entries, destination, rename, dirs, was, now)
  {
    hide IsFolderAfter;
  }

  lemma {:induction false} PlannedFilesGo(fold: Folding, plan: Plan, entries: seq<Entry>, destination: Path,
                                          rename: bool, files: set<File>, explicit: set<Path>)
    requires PlanIsRight(fold, plan, MovesFor(TopEntries(entries, |entries|), destination, rename), files, explicit)
    ensures FilesPlanned(entries, destination, rename, files, plan.files)
  {
    hide Clean, Dirs, Fit, Goes, IsCarried, TopEntries, MovesFor, NewPath, Owner, SetOf, FoldersAfter, Parents;
    var moves := MovesFor(TopEntries(entries, |entries|), destination, rename);
    forall k | 0 <= k < |plan.files|
      ensures Goes(entries, destination, rename, plan.files[k].file.path, plan.files[k].path)
    {
      NewPathGoes(entries, destination, rename, plan.files[k].file.path);
    }
    forall f ensures f in MovedFiles(moves, files) <==> f in files && IsCarried(entries, f.path) {
      NewPathGoes(entries, destination, rename, f.path);
    }
  }

  /** Validates the whole destination namespace before anything moves. */
  method PlanRelocation(rules: Rules, files: set<File>, explicit: set<Path>, entries: seq<Entry>,
                        destination: Path, rename: bool)
    returns (r: Result<Plan>)
    requires GoodListing(rules.fold, files, explicit)
    ensures var dirs := Dirs(PathsOf(files), explicit);
      var moves := MovesFor(TopEntries(entries, |entries|), destination, rename);
      r.Ok? <==>
        && (forall k :: 0 <= k < |moves| ==> RootFine(rules, files, dirs, moves[k]))
        && CanPlace(rules, files, dirs, moves)
    ensures r.Ok? ==>
      PlanIsRight(rules.fold, r.value, MovesFor(TopEntries(entries, |entries|), destination, rename), files, explicit)
    ensures r.Ok? ==> FilesPlanned(entries, destination, rename, files, r.value.files)
  {
    hide Clean, Dirs, PlanIsRight, GoodListing, PathsOf, CanPlace, TopEntries, MovesFor, Stays, Parents, Exists,
         IntoOwnFolder, FilesPlanned;
    var planned := MovesFor(TopEntries(entries, |entries|), destination, rename);
    var dirs := FolderPaths(PathsOf(files), explicit);
    var error := CheckRoots(rules, files, dirs, planned);
    if error.Some? { return Err(error.value); }
    ParentsStay(rules.fold, files, explicit, entries, planned, destination, rename);
    r := PlaceAll(rules, files, explicit, dirs, planned);
    if r.Ok? { PlannedFilesGo(rules.fold, r.value, entries, destination, rename, files, explicit); }
  }
}
