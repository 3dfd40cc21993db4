/** RPMRepositoryGenerator::generate and RepoManager::initializeDefaultRepositories of
    src/services/repos.cpp as a whole: back up, generate what is missing, load the base directory,
    enable the default names. */
module Initialise {
  import opened Sequences
  import opened KeyFiles
  import opened RepoFiles
  import opened RepoIndex
  import opened RepoCoherence
  import opened RepoFailures
  import opened RepoReload
  import opened RepoRestart
  import opened RepoGenerator
  import opened Backups
  import opened Orders
  import opened DefaultNames
  import opened RpmRepoManager

  /** Where the files are and what is configured. */
  datatype Setup = Setup(base: string, backup: string, confs: ConfFiles)

  /** What may differ from one run to the next. */
  datatype World = World(opts: Options, oracle: Oracle)

  predicate AllRecognised(setup: Setup) {
    forall f | f in Configured(setup.confs) :: Extension(f) == ".repo"
  }

  // --------------------------------------------------- backup and generate

  /** Back up once, then generate what is missing; false when a directory cannot be opened. */
  function Prepare(tree: Tree<RepoContent>, setup: Setup, world: World, force: bool): (Tree<RepoContent>, bool) {
    var (t, ok) := Backup(tree, force, setup.backup, setup.base, ".repo");
    if !ok || setup.base !in t.dirs then (t, false)
    else (t.(files := Generate(world.opts, world.oracle, setup.confs, t.files, setup.base).0), true)
  }

  /** After a first run every configured file is there and the backup directory exists. */
  lemma PrepareLeaves(tree: Tree<RepoContent>, setup: Setup, world: World, force: bool)
    requires Prepare(tree, setup, world, force).1
    ensures var t := Prepare(tree, setup, world, force).0;
      && setup.backup in t.dirs && setup.base in t.dirs
      && forall f | f in Configured(setup.confs) :: Path(setup.base, f) in t.files
  {
    var (t, ok) := Backup(tree, force, setup.backup, setup.base, ".repo");
    forall f | f in Configured(setup.confs) {
      GenerateLeavesTheRest(world.opts, world.oracle, setup.confs, t.files, setup.base, Path(setup.base, f));
    }
  }

  lemma NoneUnrecognised(setup: Setup)
    requires AllRecognised(setup)
    ensures Unrecognised(setup.confs.distro) == {} && Unrecognised(setup.confs.nonDistro) == {}
  {
  }

  /** So a later unforced run changes no file in either directory, even if the mirror and the
      upstream answer differently then. */
  lemma PrepareAgain(tree: Tree<RepoContent>, setup: Setup, world: World)
    requires setup.backup in tree.dirs && setup.base in tree.dirs
    requires forall f | f in Configured(setup.confs) :: Path(setup.base, f) in tree.files
    requires AllRecognised(setup)
    ensures Prepare(tree, setup, world, false) == (tree, true)
  {
    LaterBackup(tree, setup.backup, setup.base, ".repo");
    NoneUnrecognised(setup);
    GenerateAgain(world.opts, world.oracle, setup.confs, tree.files, setup.base);
  }

  function PrepareAll(tree: Tree<RepoContent>, setup: Setup, worlds: seq<World>): Tree<RepoContent> {
    if worlds == [] then tree else Prepare(PrepareAll(tree, setup, Front(worlds)), setup, Last(worlds), false).0
  }

  /** Any number of further unforced runs leave the backup as the first run saved it, and, when all
      configured names are recognised, leave everything as it was. */
  lemma {:induction false} FurtherRuns(tree: Tree<RepoContent>, setup: Setup, worlds: seq<World>, p: Path)
    requires setup.backup in tree.dirs && setup.base != setup.backup
    requires setup.base in tree.dirs && forall f | f in Configured(setup.confs) :: Path(setup.base, f) in tree.files
    ensures var t := PrepareAll(tree, setup, worlds);
      && t.dirs == tree.dirs
      && (p in tree.files ==> p in t.files)
      && (p.dir == setup.backup ==> (p in t.files <==> p in tree.files) && (p in tree.files ==> t.files[p] == tree.files[p]))
      && (AllRecognised(setup) ==> t == tree)
  {
    if worlds != [] {
      FurtherRuns(tree, setup, Front(worlds), p);
      var t := PrepareAll(tree, setup, Front(worlds));
      LaterBackup(t, setup.backup, setup.base, ".repo");
      GenerateLeavesTheRest(Last(worlds).opts, Last(worlds).oracle, setup.confs, t.files, setup.base, p);
      if AllRecognised(setup) {
        PrepareAgain(tree, setup, Last(worlds));
      }
    }
  }

  // --------------------------------------------------------- initialise

  function Initialise(st: State, dirs: set<string>, setup: Setup, world: World, force: bool,
                      files: seq<string>, names: seq<string>, order: seq<nat>): (State, set<string>, bool) {
    var (t, ok) := Prepare(Tree(st.disk, dirs), setup, world, force);
    var prepared := st.(disk := t.files);
    if !ok then (prepared, t.dirs, false)
    else
      var (s, loaded) := Reload(prepared, setup.base, files, names, order);
      (s, t.dirs, loaded)
  }

  lemma {:induction false} SaveAllKeepsFiles(disk: Disk, objs: seq<FileObj>, order: seq<nat>, p: Path)
    requires InRange(objs, order) && p in disk
    ensures p in SaveAll(disk, objs, order)
  {
    if order != [] {
      SaveAllKeepsFiles(disk, objs, Front(order), p);
    }
  }

  /** Loading into a fresh manager and enabling names that turn out to be loaded leaves nothing new
      for a later load of the same files. */
  lemma FreshLoad(disk: Disk, base: string, files: seq<string>, names: seq<string>, order: seq<nat>)
    requires Reload(Fresh(disk), base, files, names, order).1
    requires SaveOrder(order, LoadDir(Fresh(disk), base, base, files).0.idx, names)
    ensures var m := LoadDir(Fresh(disk), base, base, files).0;
      && Good(m) && m.disk == disk && NothingNew(m, base, files, names, order)
      && EnableMany(m, names, true, order) == Reload(Fresh(disk), base, files, names, order)
  {
    LoadDirKeepsGood(Fresh(disk), base, base, files);
    LoadBaseDir(Fresh(disk), base, files);
    var m := LoadDir(Fresh(disk), base, base, files).0;
    SetFlagsKeepsFiles(m.objs, m.idx, names, true);
  }

  /** Some loaded file holds the id. */
  predicate Provided(disk: Disk, base: string, files: seq<string>, id: string) {
    exists f :: f in files && id in FileIds(disk, base, f)
  }

  lemma ReloadSucceedsIff(st: State, base: string, files: seq<string>, names: seq<string>, order: seq<nat>)
    requires Sound(st) && SaveOrder(order, LoadDir(st, base, base, files).0.idx, names)
    ensures Reload(st, base, files, names, order).1
       <==> (Loads(st.disk, base, files) && forall id | id in names :: id in st.idx || Provided(st.disk, base, files, id))
  {
    LoadDirKeepsSound(st, base, files);
    LoadBaseDir(st, base, files);
    var m := LoadDir(st, base, base, files).0;
    if Loads(st.disk, base, files) {
      forall id | id in names
        ensures id in m.idx <==> id in st.idx || Provided(st.disk, base, files, id)
      {
      }
      BatchSucceedsIff(m, names, order);
    }
  }

  lemma BatchSucceedsIff(m: State, names: seq<string>, order: seq<nat>)
    requires Sound(m) && SaveOrder(order, m.idx, names)
    ensures EnableMany(m, names, true, order).1 <==> forall id | id in names :: id in m.idx
  {
    SetFlagsKeepsFiles(m.objs, m.idx, names, true);
    if forall id | id in names :: Known(m.objs, m.idx, id) {
      forall h | h in order
        ensures h < |m.objs|
      {
        TouchedInRange(m, names, h);
      }
    }
  }

  /** From any state that a run can reach, an initialisation succeeds exactly when the directories can
      be opened, every file parses, and each default name is indexed already or the id of a repository
      in some file: ids are taken as the files have them, and so must match the names. */
  lemma InitialiseSucceedsIff(st: State, dirs: set<string>, setup: Setup, world: World, force: bool,
                              files: seq<string>, names: seq<string>, order: seq<nat>)
    requires Sound(st)
    requires var t := Prepare(Tree(st.disk, dirs), setup, world, force).0;
      SaveOrder(order, LoadDir(st.(disk := t.files), setup.base, setup.base, files).0.idx, names)
    ensures var (t, prepared) := Prepare(Tree(st.disk, dirs), setup, world, force);
      (Initialise(st, dirs, setup, world, force, files, names, order).2
       <==> (&& prepared && Loads(t.files, setup.base, files)
             && forall id | id in names :: id in st.idx || Provided(t.files, setup.base, files, id)))
  {
    var t := Prepare(Tree(st.disk, dirs), setup, world, force).0;
    ReloadSucceedsIff(st.(disk := t.files), setup.base, files, names, order);
  }

  /** An initialisation with nothing new on disk keeps every flag but those of the default names, which
      it sets: what the user enabled in between stays enabled, and what the user disabled of the others
      stays disabled. */
  lemma InitialiseKeepsFlags(st: State, dirs: set<string>, setup: Setup, world: World, files: seq<string>,
                             names: seq<string>, order: seq<nat>, h: nat, id: string)
    requires Good(st) && NothingNew(st, setup.base, files, names, order)
    requires setup.backup in dirs && setup.base in dirs && AllRecognised(setup)
    requires forall f | f in Configured(setup.confs) :: Path(setup.base, f) in st.disk
    requires h < |st.objs| && id in st.objs[h].repos
    ensures var (s, dirs1, ok) := Initialise(st, dirs, setup, world, false, files, names, order);
      && ok && dirs1 == dirs && Good(s) && s.idx == st.idx
      && h < |s.objs| && id in s.objs[h].repos
      && FlagOf(s.objs, h, id) == (FlagOf(st.objs, h, id) || (id in names && st.idx[id] == h))
  {
    PrepareAgain(Tree(st.disk, dirs), setup, world);
    assert st.(disk := st.disk) == st;
    ReloadKeepsFlags(st, setup.base, files, names, order, h, id);
  }

  /** The fresh manager of a program run, with the base directory loaded. */
  function LoadedFiles(disk: Disk, dirs: set<string>, setup: Setup, world: World, force: bool, files: seq<string>): State {
    LoadDir(Fresh(Prepare(Tree(disk, dirs), setup, world, force).0.files), setup.base, setup.base, files).0
  }

  /** Initialising twice is initialising once. From any disk and a fresh manager, if the first call
      succeeds and every configured name ends up recognised, a second unforced call in any other
      world, which may list the directory in another order, succeeds and changes neither the disk nor
      the index nor any flag. */
  lemma InitialiseTwice(disk: Disk, dirs: set<string>, setup: Setup, world: World, force: bool, other: World,
                        files: seq<string>, relisted: seq<string>, names: seq<string>, order: seq<nat>, again: seq<nat>)
    requires AllRecognised(setup)
    requires forall f | f in relisted :: f in files
    requires var m := LoadedFiles(disk, dirs, setup, world, force, files);
             SaveOrder(order, m.idx, names) && SaveOrder(again, m.idx, names)
    requires Initialise(Fresh(disk), dirs, setup, world, force, files, names, order).2
    ensures var (s, dirs1, _) := Initialise(Fresh(disk), dirs, setup, world, force, files, names, order);
            var (t, dirs2, ok) := Initialise(s, dirs1, setup, other, false, relisted, names, again);
            ok && t.disk == s.disk && dirs2 == dirs1 && t.idx == s.idx && s.objs <= t.objs
  {
    var t := Prepare(Tree(disk, dirs), setup, world, force).0;
    var m := LoadedFiles(disk, dirs, setup, world, force, files);
    FreshLoad(t.files, setup.base, files, names, order);
    PreparedForGood(disk, dirs, setup, world, force, other, files, names, order);
    ReloadAfterBatchWritesNothing(m, EnableMany(m, names, true, order).0, setup.base, relisted, names, order, again);
  }

  /** What a successful first call leaves on disk, a later one neither backs up nor generates anew. */
  lemma PreparedForGood(disk: Disk, dirs: set<string>, setup: Setup, world: World, force: bool, other: World,
                        files: seq<string>, names: seq<string>, order: seq<nat>)
    requires AllRecognised(setup)
    requires SaveOrder(order, LoadedFiles(disk, dirs, setup, world, force, files).idx, names)
    requires Initialise(Fresh(disk), dirs, setup, world, force, files, names, order).2
    ensures var (s, dirs1, _) := Initialise(Fresh(disk), dirs, setup, world, force, files, names, order);
            Prepare(Tree(s.disk, dirs1), setup, other, false) == (Tree(s.disk, dirs1), true)
  {
    var t := Prepare(Tree(disk, dirs), setup, world, force).0;
    PrepareLeaves(Tree(disk, dirs), setup, world, force);
    FreshLoad(t.files, setup.base, files, names, order);
    var m := LoadedFiles(disk, dirs, setup, world, force, files);
    var s := EnableMany(m, names, true, order).0;
    BatchObjects(m, names, true, order);
    forall f | f in Configured(setup.confs)
      ensures Path(setup.base, f) in s.disk
    {
      SaveAllKeepsFiles(m.disk, s.objs, order, Path(setup.base, f));
    }
    PrepareAgain(Tree(s.disk, t.dirs), setup, other);
  }

  /** Starting the program again is no different: a fresh manager that initialises from the disk the
      first run left, listing the directory as before, ends in the very same state, and the disk is
      left as it was. */
  lemma InitialiseAfterRestart(disk: Disk, dirs: set<string>, setup: Setup, world: World, force: bool, other: World,
                               files: seq<string>, names: seq<string>, order: seq<nat>, again: seq<nat>)
    requires AllRecognised(setup) && Distinct(files)
    requires var m := LoadedFiles(disk, dirs, setup, world, force, files);
             SaveOrder(order, m.idx, names) && SaveOrder(again, m.idx, names)
    requires Initialise(Fresh(disk), dirs, setup, world, force, files, names, order).2
    ensures var (s, dirs1, _) := Initialise(Fresh(disk), dirs, setup, world, force, files, names, order);
            Initialise(Fresh(s.disk), dirs1, setup, other, false, files, names, again) == (s, dirs1, true)
  {
    var t := Prepare(Tree(disk, dirs), setup, world, force).0;
    FreshLoad(t.files, setup.base, files, names, order);
    PreparedForGood(disk, dirs, setup, world, force, other, files, names, order);
    RestartedBatchWritesNothing(t.files, setup.base, files, names, order, again);
  }

  // ------------------------------------------- the directory as it is listed

  /** The ".repo" files of a directory, once each, in whatever order it is listed. */
  predicate ListsRepos(files: seq<string>, disk: Disk, dir: string) {
    && Distinct(files)
    && (forall f | f in files :: Path(dir, f) in disk && EndsWith(f, ".repo"))
    && (forall p | p in disk && p.dir == dir && EndsWith(p.file, ".repo") :: p.file in files)
  }

  lemma {:induction false} RepoNamesDistinct(entries: seq<string>)
    requires Distinct(entries)
    ensures Distinct(RepoNames(entries))
  {
    if entries != [] {
      DistinctFront(entries);
      RepoNamesDistinct(Front(entries));
      if EndsWith(Last(entries), ".repo") { DistinctAppend(RepoNames(Front(entries)), Last(entries)); }
    }
  }

  lemma ListedRepos(entries: seq<string>, disk: Disk, dir: string)
    requires Lists(entries, disk, dir)
    ensures ListsRepos(RepoNames(entries), disk, dir)
  {
    RepoNamesDistinct(entries);
  }

  lemma {:induction false} SaveAllKeepsKeys(disk: Disk, objs: seq<FileObj>, order: seq<nat>)
    requires InRange(objs, order) && forall h | h in order :: objs[h].path in disk
    ensures SaveAll(disk, objs, order).Keys == disk.Keys
  {
    if order != [] {
      SaveAllKeepsKeys(disk, objs, Front(order));
    }
  }

  lemma BatchKeepsKeys(m: State, s: State, names: seq<string>, order: seq<nat>)
    requires Good(m) && SaveOrder(order, m.idx, names) && EnableMany(m, names, true, order) == (s, true)
    ensures s.disk.Keys == m.disk.Keys
  {
    BatchObjects(m, names, true, order);
    SetFlagsKeepsFiles(m.objs, m.idx, names, true);
    TouchedApart(m, names, order, s.objs);
    forall h | h in order
      ensures s.objs[h].path in m.disk
    {
      TouchedIsIndexed(m, names, h);
      var id :| id in m.idx && m.idx[id] == h;
      assert OnDisk(m.disk, m.objs[m.idx[id]]);
    }
    SaveAllKeepsKeys(m.disk, s.objs, order);
  }

  /** A successful first call makes and removes no file after it has listed the directory. */
  lemma InitialiseKeepsListing(disk: Disk, dirs: set<string>, setup: Setup, world: World, force: bool,
                               files: seq<string>, names: seq<string>, order: seq<nat>)
    requires SaveOrder(order, LoadedFiles(disk, dirs, setup, world, force, files).idx, names)
    requires Initialise(Fresh(disk), dirs, setup, world, force, files, names, order).2
    ensures var t := Prepare(Tree(disk, dirs), setup, world, force).0;
      Initialise(Fresh(disk), dirs, setup, world, force, files, names, order).0.disk.Keys == t.files.Keys
  {
    var t := Prepare(Tree(disk, dirs), setup, world, force).0;
    FreshLoad(t.files, setup.base, files, names, order);
    var m := LoadedFiles(disk, dirs, setup, world, force, files);
    BatchKeepsKeys(m, EnableMany(m, names, true, order).0, names, order);
  }

  /** On real listings of the directory: a second call, however the directory is listed then, changes
      neither the disk nor the index nor any flag. */
  lemma InitialiseTwiceAsListed(disk: Disk, dirs: set<string>, setup: Setup, world: World, force: bool, other: World,
                                files: seq<string>, relisted: seq<string>, names: seq<string>, order: seq<nat>, again: seq<nat>)
    requires AllRecognised(setup)
    requires ListsRepos(files, Prepare(Tree(disk, dirs), setup, world, force).0.files, setup.base)
    requires var m := LoadedFiles(disk, dirs, setup, world, force, files);
             SaveOrder(order, m.idx, names) && SaveOrder(again, m.idx, names)
    requires Initialise(Fresh(disk), dirs, setup, world, force, files, names, order).2
    requires var s := Initialise(Fresh(disk), dirs, setup, world, force, files, names, order).0;
             ListsRepos(relisted, s.disk, setup.base)
    ensures var (s, dirs1, _) := Initialise(Fresh(disk), dirs, setup, world, force, files, names, order);
            var (t, dirs2, ok) := Initialise(s, dirs1, setup, other, false, relisted, names, again);
            ok && t.disk == s.disk && dirs2 == dirs1 && t.idx == s.idx && s.objs <= t.objs
  {
    InitialiseKeepsListing(disk, dirs, setup, world, force, files, names, order);
    InitialiseTwice(disk, dirs, setup, world, force, other, files, relisted, names, order, again);
  }

  /** And so does a fresh manager after a restart: it succeeds, leaves the disk as it was, and has for
      each id the same file with the same repositories and flags, when no id lies in two files. */
  lemma RestartAsListed(disk: Disk, dirs: set<string>, setup: Setup, world: World, force: bool, other: World,
                        files: seq<string>, relisted: seq<string>, names: seq<string>, order: seq<nat>, again: seq<nat>)
    requires AllRecognised(setup)
    requires var t := Prepare(Tree(disk, dirs), setup, world, force).0;
             ListsRepos(files, t.files, setup.base) && IdsApart(t.files, setup.base, files)
    requires SaveOrder(order, LoadedFiles(disk, dirs, setup, world, force, files).idx, names)
    requires Initialise(Fresh(disk), dirs, setup, world, force, files, names, order).2
    requires var s := Initialise(Fresh(disk), dirs, setup, world, force, files, names, order).0;
             && ListsRepos(relisted, s.disk, setup.base)
             && SaveOrder(again, LoadDir(Fresh(s.disk), setup.base, setup.base, relisted).0.idx, names)
    ensures var (s, dirs1, _) := Initialise(Fresh(disk), dirs, setup, world, force, files, names, order);
            var (n, dirs2, ok) := Initialise(Fresh(s.disk), dirs1, setup, other, false, relisted, names, again);
            ok && dirs2 == dirs1 && SameView(s, n)
  {
    var t := Prepare(Tree(disk, dirs), setup, world, force).0;
    FreshLoad(t.files, setup.base, files, names, order);
    InitialiseKeepsListing(disk, dirs, setup, world, force, files, names, order);
    PreparedForGood(disk, dirs, setup, world, force, other, files, names, order);
    RestartInAnyOrder(t.files, setup.base, files, relisted, names, order, again);
  }

  // --------------------------------------------------------- on the heap

  method PrepareFiles(fs: FileSystem<RepoKey>, setup: Setup, world: World, force: bool) returns (ok: bool)
    modifies fs
    ensures (Tree(fs.files, fs.dirs), ok) == Prepare(Tree(old(fs.files), old(fs.dirs)), setup, world, force)
  {
    ok := BackupFilesByExtension(fs, force, setup.backup, setup.base, ".repo");
    ok := ok && setup.base in fs.dirs;
    if ok {
      var _ := GenerateFiles(fs, setup.base, world.opts, world.oracle, setup.confs);
    }
  }

  /** The whole call; the directory is listed after generating. */
  method InitializeDefaultRepositories(manager: RPMRepoManager, setup: Setup, world: World, force: bool,
                                       distro: Distro, major: nat)
    returns (ok: bool, ghost entries: seq<string>, ghost order: seq<nat>)
    requires manager.Valid() && manager.basedir == setup.base
    modifies manager, manager.handle.Keys, manager.fs
    ensures manager.Valid()
    ensures (manager.Abs(), manager.fs.dirs, ok) ==
      Initialise(old(manager.Abs()), old(manager.fs.dirs), setup, world, force, RepoNames(entries),
                 ReposNames(distro, major), order)
    ensures var (t, prepared) := Prepare(Tree(old(manager.fs.files), old(manager.fs.dirs)), setup, world, force);
            prepared ==> ListsRepos(RepoNames(entries), t.files, setup.base)
    ensures ok ==> SaveOrder(order, manager.idx, ReposNames(distro, major))
  {
    entries, order := [], [];
    ok := PrepareFiles(manager.fs, setup, world, force);
    if ok {
      ghost var prepared := manager.fs.files;
      var names := ResolveReposNames(distro, major);
      ok, entries, order := ReloadAll(manager, setup.base, names);
      ListedRepos(entries, prepared, setup.base);
    }
  }

  /** The base directory is there once the files are prepared. */
  method ReloadAll(manager: RPMRepoManager, base: string, names: seq<string>)
    returns (ok: bool, ghost entries: seq<string>, ghost order: seq<nat>)
    requires manager.Valid() && manager.basedir == base && base in manager.fs.dirs
    modifies manager, manager.handle.Keys, manager.fs`files
    ensures manager.Valid() && Lists(entries, old(manager.fs.files), base)
    ensures (manager.Abs(), ok) == Reload(old(manager.Abs()), base, RepoNames(entries), names, order)
    ensures ok ==> SaveOrder(order, manager.idx, names)
  {
    order := [];
    ok, entries := manager.LoadDir(base);
    if ok {
      ok, order := manager.EnableMany(names, true);
    }
  }
}
