/**
 The shared directory maps of a project, and `relocate`, which applies a
 relocation plan to them (web/src/lib/collab.js).
 */
module SharedProject {
  import opened Destinations
  import opened Namespace
  import opened Relocation

  /** Every file of the two maps. */
  function ListingOf(texts: map<string, Path>, assets: map<Path, string>): set<File> {
    (set id | id in texts :: TextFile(id, texts[id])) + (set p | p in assets :: AssetFile(p, assets[p]))
  }

  /** After the moves every text is known by the same id, at its new path. */
  ghost predicate TextsMoved(moves: seq<Move>, was: map<string, Path>, now: map<string, Path>) {
    now.Keys == was.Keys && forall id :: id in was ==> now[id] == NewPath(moves, was[id])
  }

  /** After the moves every figure keeps its digest at its new path, no two share one, and there are no others. */
  ghost predicate AssetsMoved(moves: seq<Move>, was: map<Path, string>, now: map<Path, string>) {
    && (forall p :: p in was ==> NewPath(moves, p) in now && now[NewPath(moves, p)] == was[p])
    && (forall q :: q in now ==> exists p :: p in was && q == NewPath(moves, p))
    && (forall p, q :: p in was && q in was && p != q ==> NewPath(moves, p) != NewPath(moves, q))
  }

  // ----- What the loops do -----

  /** The old paths of the plan's first `count` figures. */
  ghost function Removed(files: seq<Moved>, count: nat): set<Path>
    requires count <= |files|
  {
    set k | 0 <= k < count && files[k].file.AssetFile? :: files[k].file.path
  }

  /** The new places of the plan's first `count` figures; a later one would overwrite an earlier one. */
  function Added(files: seq<Moved>, count: nat): map<Path, string>
    requires count <= |files|
  {
    if count == 0 then map[]
    else match files[count - 1].file
      case AssetFile(_, sha) => Added(files, count - 1)[files[count - 1].path := sha]
      case TextFile(_, _) => Added(files, count - 1)
  }

  /** The text paths after the plan's first `count` files. */
  function Renamed(texts: map<string, Path>, files: seq<Moved>, count: nat): map<string, Path>
    requires count <= |files|
  {
    if count == 0 then texts
    else match files[count - 1].file
      case TextFile(id, _) => Renamed(texts, files, count - 1)[id := files[count - 1].path]
      case AssetFile(_, _) => Renamed(texts, files, count - 1)
  }

  /** No two files of the plan have the same new path. */
  ghost predicate NewPathsApart(files: seq<Moved>) {
    forall j, k :: 0 <= j < k < |files| ==> files[j].path != files[k].path
  }

  lemma {:induction false} AddedKeeps(files: seq<Moved>, count: nat, k: nat)
    requires NewPathsApart(files) && k < count <= |files| && files[k].file.AssetFile?
    ensures files[k].path in Added(files, count) && Added(files, count)[files[k].path] == files[k].file.sha
  {
    if k < count - 1 { AddedKeeps(files, count - 1, k); }
  }

  lemma {:induction false} AddedOnly(files: seq<Moved>, count: nat, q: Path)
    requires count <= |files| && q in Added(files, count)
    ensures exists k :: 0 <= k < count && files[k].file.AssetFile? && files[k].path == q
  {
    if !(files[count - 1].file.AssetFile? && files[count - 1].path == q) { AddedOnly(files, count - 1, q); }
  }

  lemma {:induction false} RenamedKeeps(texts: map<string, Path>, files: seq<Moved>, count: nat, id: string, k: nat)
    requires k < count <= |files| && files[k].file.TextFile? && files[k].file.id == id
    requires forall j :: k < j < |files| && files[j].file.TextFile? ==> files[j].file.id != id
    ensures id in Renamed(texts, files, count) && Renamed(texts, files, count)[id] == files[k].path
  {
    if k < count - 1 { RenamedKeeps(texts, files, count - 1, id, k); }
  }

  lemma {:induction false} RenamedOthers(texts: map<string, Path>, files: seq<Moved>, count: nat)
    requires count <= |files|
    requires forall k :: 0 <= k < |files| && files[k].file.TextFile? ==> files[k].file.id in texts
    ensures Renamed(texts, files, count).Keys == texts.Keys
    ensures forall id ::
      id in texts && (forall k :: 0 <= k < count && files[k].file.TextFile? ==> files[k].file.id != id) ==>
              Renamed(texts, files, count)[id] == texts[id]
  {
    if count > 0 { RenamedOthers(texts, files, count - 1); }
  }

  // ----- The applied plan -----

  ghost predicate GoodProject(fold: Folding, texts: map<string, Path>, assets: map<Path, string>, folders: set<Path>) {
    GoodListing(fold, ListingOf(texts, assets), folders)
  }

  lemma PlannedFile(fold: Folding, plan: Plan, moves: seq<Move>, files: set<File>, explicit: set<Path>, k: nat)
    requires PlanIsRight(fold, plan, moves, files, explicit) && k < |plan.files|
    ensures var f := plan.files[k].file;
            f in files && !Stays(moves, f.path) && plan.files[k].path == NewPath(moves, f.path)
  {
    hide Clean, Dirs, NewPath, Fit;
    assert plan.files[k].file in MovedFiles(moves, files);
  }

  lemma FileIsPlanned(fold: Folding, plan: Plan, moves: seq<Move>, files: set<File>, explicit: set<Path>, f: File)
    returns (k: nat)
    requires PlanIsRight(fold, plan, moves, files, explicit) && f in files && !Stays(moves, f.path)
    ensures k < |plan.files| && plan.files[k].file == f
  {
    hide Clean, Dirs, NewPath, Fit;
    assert f in MovedFiles(moves, files);
    k :| k < |plan.files| && plan.files[k].file == f;
  }

  lemma PlannedApart(fold: Folding, plan: Plan, moves: seq<Move>, files: set<File>, explicit: set<Path>)
    requires PlanIsRight(fold, plan, moves, files, explicit)
    ensures GoApart(moves, files) && NewPathsApart(plan.files)
  {
    hide Clean, Dirs, NewPath;
    forall j, k | 0 <= j < k < |plan.files| ensures plan.files[j].path != plan.files[k].path {
      PlannedFile(fold, plan, moves, files, explicit, j);
      PlannedFile(fold, plan, moves, files, explicit, k);
    }
  }

  lemma StaysPut(moves: seq<Move>, p: Path)
    requires Stays(moves, p)
    ensures NewPath(moves, p) == p
  {
  }

  /** Each figure is found at its new path, with its digest. */
  lemma AssetFollows(fold: Folding, plan: Plan, moves: seq<Move>, texts: map<string, Path>, assets: map<Path, string>,
                     explicit: set<Path>, p: Path)
    requires PlanIsRight(fold, plan, moves, ListingOf(texts, assets), explicit) && p in assets
    ensures var now := assets - Removed(plan.files, |plan.files|) + Added(plan.files, |plan.files|);
            NewPath(moves, p) in now && now[NewPath(moves, p)] == assets[p]
  {
    hide Clean, Dirs, NewPath, PlanIsRight, Added, Owner;
    var files, n, f := ListingOf(texts, assets), |plan.files|, AssetFile(p, assets[p]);
    PlannedApart(fold, plan, moves, files, explicit);
    assert f in files;
    if Stays(moves, p) {
      StaysPut(moves, p);
      if p in Added(plan.files, n) {
        AddedOnly(plan.files, n, p);
        var k: nat :| k < n && plan.files[k].file.AssetFile? && plan.files[k].path == p;
        PlannedFile(fold, plan, moves, files, explicit, k);
      } else if p in Removed(plan.files, n) {
        var k: nat :| k < n && plan.files[k].file.AssetFile? && plan.files[k].file.path == p;
        PlannedFile(fold, plan, moves, files, explicit, k);
      }
    } else {
      var k := FileIsPlanned(fold, plan, moves, files, explicit, f);
      PlannedFile(fold, plan, moves, files, explicit, k);
      AddedKeeps(plan.files, n, k);
    }
  }

  /** Each figure there is came from somewhere. */
  lemma AssetCameFrom(fold: Folding, plan: Plan, moves: seq<Move>, texts: map<string, Path>, assets: map<Path, string>,
                      explicit: set<Path>, q: Path)
    requires PlanIsRight(fold, plan, moves, ListingOf(texts, assets), explicit)
    requires q in assets - Removed(plan.files, |plan.files|) + Added(plan.files, |plan.files|)
    ensures exists p :: p in assets && q == NewPath(moves, p)
  {
    hide Clean, Dirs, NewPath, PlanIsRight, Added, Owner;
    var files, n := ListingOf(texts, assets), |plan.files|;
    if q in Added(plan.files, n) {
      AddedOnly(plan.files, n, q);
      var k: nat :| k < n && plan.files[k].file.AssetFile? && plan.files[k].path == q;
      PlannedFile(fold, plan, moves, files, explicit, k);
      assert plan.files[k].file.path in assets;
    } else {
      assert AssetFile(q, assets[q]) in files;
      if Stays(moves, q) {
        StaysPut(moves, q);
      } else {
        var k := FileIsPlanned(fold, plan, moves, files, explicit, AssetFile(q, assets[q]));
      }
    }
  }

  /** The figures keep their digests; nothing overwrites a figure, even when a batch permutes names. */
  lemma AssetsFollowPlan(fold: Folding, plan: Plan, moves: seq<Move>, texts: map<string, Path>,
                         assets: map<Path, string>,
                         explicit: set<Path>)
    requires PlanIsRight(fold, plan, moves, ListingOf(texts, assets), explicit)
    ensures AssetsMoved(moves, assets, assets - Removed(plan.files, |plan.files|) + Added(plan.files, |plan.files|))
  {
    hide *;
    var files, n := ListingOf(texts, assets), |plan.files|;
    var now := assets - Removed(plan.files, n) + Added(plan.files, n);
    PlannedApart(fold, plan, moves, files, explicit);
    forall p | p in assets ensures NewPath(moves, p) in now && now[NewPath(moves, p)] == assets[p] {
      AssetFollows(fold, plan, moves, texts, assets, explicit, p);
    }
    forall q | q in now ensures exists p :: p in assets && q == NewPath(moves, p) {
      AssetCameFrom(fold, plan, moves, texts, assets, explicit, q);
    }
    AssetsGoApart(moves, texts, assets);
    MovedAssets(moves, assets, now);
  }

  lemma AssetsGoApart(moves: seq<Move>, texts: map<string, Path>, assets: map<Path, string>)
    requires GoApart(moves, ListingOf(texts, assets))
    ensures forall p, q :: p in assets && q in assets && p != q ==> NewPath(moves, p) != NewPath(moves, q)
  {
    hide NewPath;
    forall p, q | p in assets && q in assets && p != q ensures NewPath(moves, p) != NewPath(moves, q) {
      assert AssetFile(p, assets[p]) in ListingOf(texts, assets) && AssetFile(q, assets[q]) in ListingOf(texts, assets);
    }
  }

  lemma MovedAssets(moves: seq<Move>, was: map<Path, string>, now: map<Path, string>)
    requires forall p :: p in was ==> NewPath(moves, p) in now && now[NewPath(moves, p)] == was[p]
    requires forall q :: q in now ==> exists p :: p in was && q == NewPath(moves, p)
    requires forall p, q :: p in was && q in was && p != q ==> NewPath(moves, p) != NewPath(moves, q)
    ensures AssetsMoved(moves, was, now)
  {
  }

  /** The moves' new paths are where the selection takes the texts and the figures. */
  lemma {:induction false} MovedTextsGo(entries: seq<Entry>, destination: Path, rename: bool,
                                        was: map<string, Path>, now: map<string, Path>)
    requires TextsMoved(MovesFor(TopEntries(entries, |entries|), destination, rename), was, now)
    ensures TextsGo(entries, destination, rename, was, now)
  {
    hide Goes, TopEntries, MovesFor, NewPath;
    forall id | id in was ensures Goes(entries, destination, rename, was[id], now[id]) {
      NewPathGoes(entries, destination, rename, was[id]);
    }
  }

  lemma {:induction false} MovedFiguresGo(entries: seq<Entry>, destination: Path, rename: bool,
                                          was: map<Path, string>, now: map<Path, string>)
    requires AssetsMoved(MovesFor(TopEntries(entries, |entries|), destination, rename), was, now)
    ensures FiguresGo(entries, destination, rename, was, now)
  {
    hide Goes, TopEntries, MovesFor, NewPath;
    var moves := MovesFor(TopEntries(entries, |entries|), destination, rename);
    forall p, q | Goes(entries, destination, rename, p, q) ensures q == NewPath(moves, p) {
      NewPathGoes(entries, destination, rename, p);
      GoesToOnePlace(entries, destination, rename, p, q, NewPath(moves, p));
    }
    forall p ensures Goes(entries, destination, rename, p, NewPath(moves, p)) {
      NewPathGoes(entries, destination, rename, p);
    }
  }

  /** The texts keep their ids. */
  lemma TextsFollowPlan(fold: Folding, plan: Plan, moves: seq<Move>, texts: map<string, Path>,
                        assets: map<Path, string>,
                        explicit: set<Path>)
    requires PlanIsRight(fold, plan, moves, ListingOf(texts, assets), explicit)
    ensures TextsMoved(moves, texts, Renamed(texts, plan.files, |plan.files|))
  {
    hide Clean, Dirs, NewPath, PlanIsRight, Renamed, Owner;
    var files, n := ListingOf(texts, assets), |plan.files|;
    forall k: nat | k < n && plan.files[k].file.TextFile?
      ensures plan.files[k].file.id in texts && texts[plan.files[k].file.id] == plan.files[k].file.path
    {
      PlannedFile(fold, plan, moves, files, explicit, k);
    }
    RenamedOthers(texts, plan.files, n);
    forall id | id in texts ensures Renamed(texts, plan.files, n)[id] == NewPath(moves, texts[id]) {
      TextFollows(fold, plan, moves, texts, assets, explicit, id);
    }
  }

  lemma TextFollows(fold: Folding, plan: Plan, moves: seq<Move>, texts: map<string, Path>, assets: map<Path, string>,
                    explicit: set<Path>, id: string)
    requires PlanIsRight(fold, plan, moves, ListingOf(texts, assets), explicit) && id in texts
    requires forall k :: 0 <= k < |plan.files| && plan.files[k].file.TextFile? ==>
               plan.files[k].file.id in texts && texts[plan.files[k].file.id] == plan.files[k].file.path
    ensures id in Renamed(texts, plan.files, |plan.files|)
    ensures Renamed(texts, plan.files, |plan.files|)[id] == NewPath(moves, texts[id])
  {
    var files, n, f := ListingOf(texts, assets), |plan.files|, TextFile(id, texts[id]);
    assert f in files;
    RenamedOthers(texts, plan.files, n);
    OnceEach(fold, plan, moves, files, explicit);
    hide Clean, Dirs, NewPath, PlanIsRight, Renamed, Owner, ListingOf;
    if Stays(moves, texts[id]) {
      StaysPut(moves, texts[id]);
      forall k: nat | k < n && plan.files[k].file.TextFile? ensures plan.files[k].file.id != id {
        PlannedFile(fold, plan, moves, files, explicit, k);
      }
    } else {
      var k := FileIsPlanned(fold, plan, moves, files, explicit, f);
      PlannedFile(fold, plan, moves, files, explicit, k);
      RenamedKeeps(texts, plan.files, n, id, k);
    }
  }

  lemma OnceEach(fold: Folding, plan: Plan, moves: seq<Move>, files: set<File>, explicit: set<Path>)
    requires PlanIsRight(fold, plan, moves, files, explicit)
    ensures forall j, k :: 0 <= j < k < |plan.files| ==> plan.files[j].file != plan.files[k].file
  {
  }

  /** After the moves nothing collides: the namespace that was checked is the namespace there is. */
  lemma StaysGood(fold: Folding, plan: Plan, moves: seq<Move>, texts: map<string, Path>, assets: map<Path, string>,
                  folders: set<Path>, texts': map<string, Path>, assets': map<Path, string>)
    requires PlanIsRight(fold, plan, moves, ListingOf(texts, assets), folders)
    requires TextsMoved(moves, texts, texts') && AssetsMoved(moves, assets, assets')
    ensures GoodProject(fold, texts', assets', folders - plan.oldFolders + SetOf(plan.folders) + plan.parents)
  {
    var files, folders' := ListingOf(texts, assets), folders - plan.oldFolders + SetOf(plan.folders) + plan.parents;
    var dirs := Dirs(PathsOf(files), folders);
    NewListing(moves, texts, assets, texts', assets');
    var news, all := NewPaths(moves, files), FoldersAfter(moves, dirs);
    FoldersWithin(fold, plan, moves, files, folders);
    hide Clean, Dirs, NewPath, Owner, ListingOf;
    DirsMonotone(news, folders', news, all);
    CleanSubset(fold, news, Dirs(news, all), news, Dirs(news, folders'));
  }

  lemma FoldersWithin(fold: Folding, plan: Plan, moves: seq<Move>, files: set<File>, folders: set<Path>)
    requires PlanIsRight(fold, plan, moves, files, folders)
    ensures folders - plan.oldFolders + SetOf(plan.folders) + plan.parents
         <= FoldersAfter(moves, Dirs(PathsOf(files), folders))
    ensures GoApart(moves, files)
    ensures Clean(fold, NewPaths(moves, files),
        Dirs(NewPaths(moves, files), FoldersAfter(moves, Dirs(PathsOf(files), folders))))
  {
    hide Clean, NewPath;
    var dirs := Dirs(PathsOf(files), folders);
    forall d | d in folders - plan.oldFolders + SetOf(plan.folders) + plan.parents
      ensures d in FoldersAfter(moves, dirs)
    {
      if d in SetOf(plan.folders) {
        var e :| e in plan.oldFolders && d == NewPath(moves, e);
      } else {
        assert d in dirs && Stays(moves, d);
        StaysPut(moves, d);
      }
    }
  }

  lemma NewListing(moves: seq<Move>, texts: map<string, Path>, assets: map<Path, string>,
                   texts': map<string, Path>, assets': map<Path, string>)
    requires TextsMoved(moves, texts, texts') && AssetsMoved(moves, assets, assets')
    requires GoApart(moves, ListingOf(texts, assets))
    ensures PathsOf(ListingOf(texts', assets')) == NewPaths(moves, ListingOf(texts, assets))
    ensures Apart(ListingOf(texts', assets'))
  {
    hide NewPath, Owner, TextsMoved, AssetsMoved, CameFrom, ListingOf;
    var files, files' := ListingOf(texts, assets), ListingOf(texts', assets');
    forall f' | f' in files' ensures CameFrom(moves, files, f') {
      NewFileCameFrom(moves, texts, assets, texts', assets', f');
    }
    forall q ensures q in PathsOf(files') <==> q in NewPaths(moves, files) {
      if q in PathsOf(files') {
        var f' :| f' in files' && f'.path == q;
        CameFromPath(moves, files, f');
      }
      if q in NewPaths(moves, files) {
        var f :| f in files && q == NewPath(moves, f.path);
        MovedFileIsThere(moves, texts, assets, texts', assets', f);
      }
    }
    forall f', g' | f' in files' && g' in files' && f' != g' ensures f'.path != g'.path {
      NewFilesApart(moves, texts, assets, texts', assets', f', g');
    }
  }

  lemma NewFileCameFrom(moves: seq<Move>, texts: map<string, Path>, assets: map<Path, string>,
                        texts': map<string, Path>, assets': map<Path, string>, f': File)
    requires TextsMoved(moves, texts, texts') && AssetsMoved(moves, assets, assets') && f' in ListingOf(texts', assets')
    ensures CameFrom(moves, ListingOf(texts, assets), f')
  {
    hide NewPath, Owner;
    match f'
    case TextFile(id, path) =>
      assert TextFile(id, texts[id]) in ListingOf(texts, assets) && path == NewPath(moves, texts[id]);
    case AssetFile(path, sha) =>
      var p :| p in assets && path == NewPath(moves, p);
      assert AssetFile(p, assets[p]) in ListingOf(texts, assets);
  }

  lemma CameFromPath(moves: seq<Move>, files: set<File>, f': File)
    requires CameFrom(moves, files, f')
    ensures f'.path in NewPaths(moves, files)
  {
  }

  lemma MovedFileIsThere(moves: seq<Move>, texts: map<string, Path>, assets: map<Path, string>,
                         texts': map<string, Path>, assets': map<Path, string>, f: File)
    requires TextsMoved(moves, texts, texts') && AssetsMoved(moves, assets, assets') && f in ListingOf(texts, assets)
    ensures NewPath(moves, f.path) in PathsOf(ListingOf(texts', assets'))
  {
    hide NewPath, Owner;
    var q := NewPath(moves, f.path);
    match f
    case TextFile(id, path) => assert TextFile(id, texts'[id]) in ListingOf(texts', assets');
    case AssetFile(path, sha) => assert AssetFile(q, assets'[q]) in ListingOf(texts', assets');
  }

  /** Two different files of the new maps came from two different files, so their paths differ. */
  lemma NewFilesApart(moves: seq<Move>, texts: map<string, Path>, assets: map<Path, string>,
                      texts': map<string, Path>, assets': map<Path, string>, f': File, g': File)
    requires f' in ListingOf(texts', assets') && g' in ListingOf(texts', assets') && f' != g'
    requires CameFrom(moves, ListingOf(texts, assets), f') && CameFrom(moves, ListingOf(texts, assets), g')
    requires GoApart(moves, ListingOf(texts, assets))
    ensures f'.path != g'.path
  {
    hide NewPath, Owner;
  }

  /** The file is some listed file, moved. */
  ghost predicate CameFrom(moves: seq<Move>, files: set<File>, f': File) {
    exists f :: f in files && f'.path == NewPath(moves, f.path)
                && (f'.TextFile? ==> f.TextFile? && f.id == f'.id) && (f'.AssetFile? ==> f.AssetFile?)
  }

  /** The three shared maps, changed in place by one transaction. */
  class Project {
    var texts: map<string, Path>
    var assets: map<Path, string>
    var folders: set<Path>

    ghost predicate Good(fold: Folding)
      reads this
    {
      GoodProject(fold, texts, assets, folders)
    }

    /**
     Moves or renames a selection.  On failure nothing changes.  On success
     every text keeps its id and every figure its digest: what lies in a selected
     item goes with it, everything else stays, the same for the folders, and the
     folders that held the items stay as well; and again nothing collides and no
     file acts as a folder.
     */
    method Relocate(rules: Rules, entries: seq<Entry>, destination: Path, rename: bool)
      returns (r: Result<Plan>, ghost moves: seq<Move>)
      requires Good(rules.fold)
      modifies this
      ensures Good(rules.fold)
      ensures r.Err? ==> unchanged(this)
      ensures moves == MovesFor(TopEntries(entries, |entries|), destination, rename)
      ensures var files := ListingOf(old(texts), old(assets));
              var dirs := Dirs(PathsOf(files), old(folders));
              r.Ok? <==> (forall k :: 0 <= k < |moves| ==> RootFine(rules, files, dirs, moves[k]))
                         && CanPlace(rules, files, dirs, moves)
      ensures r.Ok? ==> TextsMoved(moves, old(texts), texts) && AssetsMoved(moves, old(assets), assets)
      ensures r.Ok? ==> TextsGo(entries, destination, rename, old(texts), texts)
      ensures r.Ok? ==> FiguresGo(entries, destination, rename, old(assets), assets)
      ensures r.Ok? ==>
        var dirs := Dirs(PathsOf(ListingOf(old(texts), old(assets))), old(folders));
        FoldersGo(entries, destination, rename, dirs, old(folders), folders)
      ensures r.Ok? ==> folders == old(folders) - r.value.oldFolders + SetOf(r.value.folders) + r.value.parents
    {
      hide PlanIsRight, Renamed, Added, Removed, ListingOf, GoodListing, TextsMoved, AssetsMoved, SetOf, CanPlace,
        RootFine, TopEntries, MovesFor, Dirs, PathsOf, TextsGo, FiguresGo, FoldersGo;
      GoodIsListing(rules.fold, texts, assets, folders);
      moves := MovesFor(TopEntries(entries, |entries|), destination, rename);
      r := PlanRelocation(rules, ListingOf(texts, assets), folders, entries, destination, rename);
      if r.Err? { return; }
      var plan := r.value;
      AssetsFollowPlan(rules.fold, plan, moves, texts, assets, folders);
      TextsFollowPlan(rules.fold, plan, moves, texts, assets, folders);
      StaysGood(rules.fold, plan, moves, texts, assets, folders,
                Renamed(texts, plan.files, |plan.files|),
                  assets - Removed(plan.files, |plan.files|) + Added(plan.files, |plan.files|));
      FoldersFollowPlan(rules.fold, plan, entries, destination, rename, ListingOf(texts, assets), folders);
      ghost var texts0, assets0 := texts, assets;
      ApplyFiles(plan.files);
      MovedTextsGo(entries, destination, rename, texts0, texts);
      MovedFiguresGo(entries, destination, rename, assets0, assets);
      folders := folders - plan.oldFolders;
      folders := folders + SetOf(plan.folders) + plan.parents;
    }

    /** Removes figure keys first, so a batch move never overwrites a source. */
    method ApplyFiles(files: seq<Moved>)
      modifies this`texts, this`assets
      ensures assets == old(assets) - Removed(files, |files|) + Added(files, |files|)
      ensures texts == Renamed(old(texts), files, |files|)
    {
      for k := 0 to |files|
        invariant assets == old(assets) - Removed(files, k) && texts == old(texts)
      {
        if files[k].file.AssetFile? { assets := assets - {files[k].file.path}; }
      }
      for k := 0 to |files|
        invariant assets == old(assets) - Removed(files, |files|) + Added(files, k)
        invariant texts == Renamed(old(texts), files, k)
      {
        match files[k].file
        case AssetFile(_, sha) => assets := assets[files[k].path := sha];
        case TextFile(id, _) => texts := texts[id := files[k].path];
      }
    }
  }

  lemma GoodIsListing(fold: Folding, texts: map<string, Path>, assets: map<Path, string>, folders: set<Path>)
    ensures GoodProject(fold, texts, assets, folders) <==> GoodListing(fold, ListingOf(texts, assets), folders)
  {
  }
}
