/** When an initialisation of a running manager keeps index, memory and disk in agreement. */
module RepoAgreement {
  import opened Wrappers
  import opened Sequences
  import opened KeyFiles
  import opened RepoFiles
  import opened RepoIndex
  import opened RepoCoherence
  import opened RepoFailures
  import opened RepoReload
  import opened RepoRestart
  import opened RepoGenerator
  import opened Backups
  import opened Initialise
  import opened RepoRuns

  // -------------------------------------------------- loading a directory

  /** Loading adds objects for the new ids, each as its file on disk has it, and moves no id. */
  lemma {:induction false} LoadedObjects(st: State, base: string, files: seq<string>)
    requires Sound(st) && LoadDir(st, base, base, files).1
    ensures var m := LoadDir(st, base, base, files).0;
      && Sound(m) && m.disk == st.disk && st.objs <= m.objs
      && (forall id | id in st.idx :: id in m.idx && m.idx[id] == st.idx[id] && st.idx[id] < |st.objs|)
      && forall id | id in m.idx && id !in st.idx :: LoadedHere(st, m, base, files, id)
  {
    if files != [] {
      var a, f := LoadDir(st, base, base, Front(files)).0, Last(files);
      var m := LoadDir(st, base, base, files).0;
      LoadedObjects(st, base, Front(files));
      InstallKeepsSound(a, base, Path(base, f));
      forall id | id in m.idx && id !in st.idx
        ensures LoadedHere(st, m, base, files, id)
      {
        if id in a.idx {
          assert LoadedHere(st, a, base, Front(files), id);
        } else {
          assert m.idx[id] == |a.objs| && m.objs[m.idx[id]].path == Path(base, f);
          ParseIsWellKeyed(Load(a.disk, Path(base, f)), Path(base, f));
        }
      }
    }
  }

  /** The id's object is one of those loaded here, from one of the files, which is on disk. */
  predicate LoadedHere(st: State, m: State, base: string, files: seq<string>, id: string)
    requires id in m.idx
  {
    var h := m.idx[id];
    && |st.objs| <= h < |m.objs| && m.objs[h].path.dir == base && m.objs[h].path.file in files
    && OnDisk(st.disk, m.objs[h])
  }

  /** A file of the listing that is loaded already has gained no id, but for ids that an indexed or an
      earlier file holds. */
  predicate GainsNothing(st: State, base: string, files: seq<string>, k: nat)
    requires k < |files|
  {
    PathIndexed(st, Path(base, files[k])) ==>
      forall id | id in FileIds(st.disk, base, files[k]) :: id in st.idx || HeldEarlier(st.disk, base, files, k, id)
  }

  predicate HeldEarlier(disk: Disk, base: string, files: seq<string>, k: nat, id: string)
    requires k <= |files|
  {
    exists j :: 0 <= j < k && id in FileIds(disk, base, files[j])
  }

  /** Loading a directory leaves one indexed object per path exactly when no loaded file has gained an
      id. */
  lemma {:induction false} OneObjectPerPathIff(st: State, base: string, files: seq<string>)
    requires Sound(st) && OneObjectPerPath(st) && Distinct(files) && LoadDir(st, base, base, files).1
    ensures Sound(LoadDir(st, base, base, files).0)
    ensures OneObjectPerPath(LoadDir(st, base, base, files).0)
       <==> forall k | 0 <= k < |files| :: GainsNothing(st, base, files, k)
  {
    LoadedObjects(st, base, files);
    if files != [] {
      var front, f, k := Front(files), Last(files), |files| - 1;
      DistinctFront(files);
      OneObjectPerPathIff(st, base, front);
      forall i | 0 <= i < k
        ensures GainsNothing(st, base, files, i) <==> GainsNothing(st, base, front, i)
      {
        GainsNothingFront(st, base, files, i);
      }
      var a, m := LoadDir(st, base, base, front).0, LoadDir(st, base, base, files).0;
      LoadedObjects(st, base, front);
      InstallKeepsSound(a, base, Path(base, f));
      if OneObjectPerPath(a) {
        SecondObjectIff(a, base, Path(base, f));
        LastGainsNothing(st, base, files);
      } else {
        SecondObjectStays(a, m);
      }
    }
  }

  lemma GainsNothingFront(st: State, base: string, files: seq<string>, i: nat)
    requires i < |files| - 1
    ensures GainsNothing(st, base, files, i) <==> GainsNothing(st, base, Front(files), i)
  {
    forall id: string
      ensures HeldEarlier(st.disk, base, files, i, id) <==> HeldEarlier(st.disk, base, Front(files), i, id)
    {
      assert forall j | 0 <= j < i :: files[j] == Front(files)[j];
    }
  }

  lemma SecondObjectStays(a: State, m: State)
    requires Sound(a) && Sound(m) && !OneObjectPerPath(a)
    requires forall id | id in a.idx :: id in m.idx && m.idx[id] == a.idx[id] && m.objs[m.idx[id]] == a.objs[a.idx[id]]
    ensures !OneObjectPerPath(m)
  {
  }

  lemma LastGainsNothing(st: State, base: string, files: seq<string>)
    requires Sound(st) && files != [] && Distinct(files) && LoadDir(st, base, base, files).1
    ensures var a, p := LoadDir(st, base, base, Front(files)).0, Path(base, Last(files));
      (!PathIndexed(a, p) || Load(st.disk, p).Keys <= a.idx.Keys) <==> GainsNothing(st, base, files, |files| - 1)
  {
    var a, p := LoadDir(st, base, base, Front(files)).0, Path(base, Last(files));
    LoadedObjects(st, base, Front(files));
    LoadBaseDir(st, base, Front(files));
    DistinctFront(files);
    assert PathIndexed(a, p) <==> PathIndexed(st, p) by {
      if PathIndexed(a, p) {
        var id :| id in a.idx && a.idx[id] < |a.objs| && a.objs[a.idx[id]].path == p;
        assert id !in st.idx ==> LoadedHere(st, a, base, Front(files), id);
        assert PathIndexed(st, p);
      }
      if PathIndexed(st, p) {
        var id :| id in st.idx && st.idx[id] < |st.objs| && st.objs[st.idx[id]].path == p;
        assert id in a.idx;
      }
    }
    forall id: string
      ensures id in a.idx <==> id in st.idx || HeldEarlier(st.disk, base, files, |files| - 1, id)
    {
      HeldEarlierIff(st.disk, base, files, id);
    }
  }

  lemma HeldEarlierIff(disk: Disk, base: string, files: seq<string>, id: string)
    requires files != []
    ensures HeldEarlier(disk, base, files, |files| - 1, id) <==> exists f :: f in Front(files) && id in FileIds(disk, base, f)
  {
    if f :| f in Front(files) && id in FileIds(disk, base, f) {
      var j :| 0 <= j < |Front(files)| && Front(files)[j] == f;
      assert files[j] == f;
    }
    if HeldEarlier(disk, base, files, |files| - 1, id) {
      var j :| 0 <= j < |files| - 1 && id in FileIds(disk, base, files[j]);
      assert Front(files)[j] == files[j] && files[j] in Front(files);
    }
  }

  // ------------------------------------------------------------- the batch

  /** Repositories as a file gives them: keyed by their ids and groups, with the file as their source. */
  predicate Proper(obj: FileObj) {
    WellKeyed(obj.repos) && Sourced(obj.repos, obj.path) == obj.repos
  }

  lemma OnDiskIsProper(disk: Disk, obj: FileObj)
    requires OnDisk(disk, obj)
    ensures Proper(obj) && Restorable(disk[obj.path], obj.repos)
  {
    ParseIsWellKeyed(disk[obj.path], obj.path);
    SaveFlags(disk[obj.path], obj.path, obj.repos, obj.repos);
    RoundTrip(disk[obj.path], obj.repos, obj.path);
  }

  lemma FlagsKeepProper(a: FileObj, b: FileObj)
    requires Proper(a) && a.path == b.path && SameButFlags(a.repos, b.repos)
    ensures Proper(b)
  {
    forall id | id in b.repos
      ensures b.repos[id].id == id && b.repos[id].group == id && b.repos[id].(source := b.path) == b.repos[id]
    {
      assert b.repos[id] == a.repos[id].(enabled := b.repos[id].enabled);
      assert Sourced(a.repos, a.path)[id] == a.repos[id];
    }
    SourcedIdentity(b.repos, b.path);
  }

  lemma FlagsKeepRestorable(c: RepoContent, a: Repos, b: Repos)
    requires SameButFlags(a, b)
    ensures Restorable(c, a) <==> Restorable(c, b)
  {
    forall id | id in a
      ensures RepoRestorable(GetGroup(c, id), a[id]) <==> RepoRestorable(GetGroup(c, id), b[id])
    {
      assert b[id] == a[id].(enabled := b[id].enabled);
    }
  }

  /** A saved object reads back exactly when its file can hold it and no more. */
  lemma SavedIffRestorable(disk: Disk, objs: seq<FileObj>, order: seq<nat>, h: nat, before: FileObj)
    requires InRange(objs, order) && Distinct(order) && PathsApart(objs, order) && h in order
    requires Proper(before) && before.path == objs[h].path && SameButFlags(before.repos, objs[h].repos)
    ensures OnDisk(SaveAll(disk, objs, order), objs[h]) <==> Restorable(Load(disk, before.path), before.repos)
  {
    SaveAllHits(disk, objs, order, h);
    FlagsKeepProper(before, objs[h]);
    RoundTrip(Load(disk, before.path), objs[h].repos, before.path);
    FlagsKeepRestorable(Load(disk, before.path), before.repos, objs[h].repos);
  }

  /** After a batch, an object the batch saves is on disk exactly when its file can hold it; any other
      exactly when it was. */
  lemma AfterBatchOnDisk(m: State, s: State, names: seq<string>, order: seq<nat>, id: string)
    requires Sound(m) && OneObjectPerPath(m) && id in m.idx && Known(m.objs, m.idx, id) && Proper(m.objs[m.idx[id]])
    requires SaveOrder(order, m.idx, names) && EnableMany(m, names, true, order) == (s, true)
    ensures s.idx == m.idx && |s.objs| == |m.objs|
    ensures var h := m.idx[id];
      OnDisk(s.disk, s.objs[h])
      <==> if h in order then Restorable(Load(m.disk, m.objs[h].path), m.objs[h].repos) else OnDisk(m.disk, m.objs[h])
  {
    var h := m.idx[id];
    BatchObjects(m, names, true, order);
    SetFlagsKeepsFiles(m.objs, m.idx, names, true);
    TouchedApart(m, names, order, s.objs);
    if h in order {
      SavedIffRestorable(m.disk, s.objs, order, h, m.objs[h]);
    } else {
      UntouchedObject(m.objs, m.idx, names, true, h);
      forall k | k in order
        ensures s.objs[k].path != m.objs[h].path
      {
        TouchedIsIndexed(m, names, k);
        var other :| other in m.idx && m.idx[other] == k;
        assert m.objs[m.idx[other]].path != m.objs[m.idx[id]].path;
      }
      SaveAllMisses(m.disk, s.objs, order, m.objs[h].path);
    }
  }

  /** Some name is indexed to the object, so that the batch saves it. */
  predicate NamedObject(idx: map<string, nat>, names: seq<string>, h: nat) {
    exists n :: n in names && n in idx && idx[n] == h
  }

  /** What the reload has to find on disk for an object it was given. */
  predicate Agreeable(st: State, names: seq<string>, id: string)
    requires Known(st.objs, st.idx, id)
  {
    var obj := st.objs[st.idx[id]];
    if NamedObject(st.idx, names, st.idx[id]) then Restorable(Load(st.disk, obj.path), obj.repos) else OnDisk(st.disk, obj)
  }

  lemma NamedIffSaved(st: State, m: State, names: seq<string>, order: seq<nat>, h: nat)
    requires SaveOrder(order, m.idx, names) && h < |st.objs|
    requires forall id | id in st.idx :: id in m.idx && m.idx[id] == st.idx[id]
    requires forall id | id in m.idx && id !in st.idx :: m.idx[id] >= |st.objs|
    ensures h in order <==> NamedObject(st.idx, names, h)
  {
    if h in order {
      var n :| n in names && n in m.idx && m.idx[n] == h;
      assert n in st.idx;
    }
    if n :| n in names && n in st.idx && st.idx[n] == h {
      assert n in m.idx && m.idx[n] in Touched(m.idx, names);
    }
  }

  /** Loading the base directory and enabling names leaves a good state exactly when no loaded file has
      gained an id, the files of named objects can hold them, and those of all others read as they
      did. */
  lemma ReloadKeepsGoodIff(st: State, base: string, files: seq<string>, names: seq<string>, order: seq<nat>)
    requires Sound(st) && OneObjectPerPath(st) && Distinct(files)
    requires forall id | id in st.idx :: Known(st.objs, st.idx, id) && Proper(st.objs[st.idx[id]])
    requires SaveOrder(order, LoadDir(st, base, base, files).0.idx, names) && Reload(st, base, files, names, order).1
    ensures Good(Reload(st, base, files, names, order).0)
       <==> ((forall k | 0 <= k < |files| :: GainsNothing(st, base, files, k))
             && forall id | id in st.idx :: Agreeable(st, names, id))
  {
    var m, s := LoadDir(st, base, base, files).0, Reload(st, base, files, names, order).0;
    LoadedObjects(st, base, files);
    OneObjectPerPathIff(st, base, files);
    BatchObjects(m, names, true, order);
    SetFlagsKeepsFiles(m.objs, m.idx, names, true);
    SameFilesAlike(m, s);
    if OneObjectPerPath(m) {
      forall id | id in m.idx
        ensures OnDisk(s.disk, s.objs[s.idx[id]]) <==> (id in st.idx ==> Agreeable(st, names, id))
      {
        AgreesAfterReload(st, m, s, base, files, names, order, id);
      }
    }
  }

  lemma SameFilesAlike(m: State, s: State)
    requires Sound(m) && s.idx == m.idx && SameFiles(m.objs, s.objs)
    ensures Sound(s) && (OneObjectPerPath(s) <==> OneObjectPerPath(m))
  {
    forall id | id in m.idx
      ensures Known(s.objs, s.idx, id) && s.objs[s.idx[id]].repos.Keys == m.objs[m.idx[id]].repos.Keys
      ensures s.objs[s.idx[id]].path == m.objs[m.idx[id]].path
    {
      assert Known(m.objs, m.idx, id);
    }
  }

  lemma AgreesAfterReload(st: State, m: State, s: State, base: string, files: seq<string>, names: seq<string>, order: seq<nat>,
                          id: string)
    requires Sound(st) && Sound(m) && OneObjectPerPath(m) && id in m.idx && m.disk == st.disk && st.objs <= m.objs
    requires forall i | i in st.idx :: i in m.idx && m.idx[i] == st.idx[i] && st.idx[i] < |st.objs|
    requires forall i | i in m.idx && i !in st.idx :: LoadedHere(st, m, base, files, i)
    requires forall i | i in st.idx :: Known(st.objs, st.idx, i) && Proper(st.objs[st.idx[i]])
    requires SaveOrder(order, m.idx, names) && EnableMany(m, names, true, order) == (s, true)
    ensures s.idx == m.idx && m.idx[id] < |s.objs|
    ensures OnDisk(s.disk, s.objs[s.idx[id]]) <==> (id in st.idx ==> Agreeable(st, names, id))
  {
    var h := m.idx[id];
    assert Known(m.objs, m.idx, id);
    if id in st.idx {
      NamedIffSaved(st, m, names, order, h);
    } else {
      assert LoadedHere(st, m, base, files, id);
      OnDiskIsProper(st.disk, m.objs[h]);
    }
    AfterBatchOnDisk(m, s, names, order, id);
  }

  // ------------------------------------------------ backup and generation

  /** What generation makes of a file that is not there. */
  function GeneratedAnew(setup: Setup, world: World, f: string): Option<RepoContent> {
    var d := Generate(world.opts, world.oracle, setup.confs, map[], setup.base).0;
    if Path(setup.base, f) in d then Some(d[Path(setup.base, f)]) else None
  }

  lemma GeneratedAt(setup: Setup, world: World, disk: Disk, f: string)
    requires Path(setup.base, f) !in disk
    ensures var p := Path(setup.base, f);
      var d := Generate(world.opts, world.oracle, setup.confs, disk, setup.base).0;
      var c1 := if f in setup.confs.distro then Overlay(map[], Writes(ReposOf(world.opts, world.oracle, true, setup.confs, f))) else map[];
      && (p in d <==> f in Configured(setup.confs))
      && (p in d ==> d[p] == if f in setup.confs.nonDistro
                             then Overlay(c1, Writes(ReposOf(world.opts, world.oracle, false, setup.confs, f))) else c1)
  {
    var p := Path(setup.base, f);
    var present := ExistingRepoFiles(disk, setup.base);
    assert f !in present;
    var distro := FromConfFile(world.opts, world.oracle, true, setup.confs.distro, present);
    var nonDistro := FromConfFile(world.opts, world.oracle, false, setup.confs.nonDistro, present);
    SaveIntoAt(disk, setup.base, distro, p);
    SaveIntoAt(SaveInto(disk, setup.base, distro), setup.base, nonDistro, p);
  }

  lemma GeneratedAfresh(setup: Setup, world: World, disk: Disk, f: string)
    requires Path(setup.base, f) !in disk
    ensures var d, p, c := Generate(world.opts, world.oracle, setup.confs, disk, setup.base).0, Path(setup.base, f), GeneratedAnew(setup, world, f);
      (p in d <==> c.Some?) && (p in d ==> d[p] == c.value)
  {
    GeneratedAt(setup, world, disk, f);
    GeneratedAt(setup, world, map[], f);
  }

  lemma GeneratedOver(setup: Setup, world: World, disk: Disk, p: Path)
    requires p in disk && p.dir == setup.base
    ensures var d := Generate(world.opts, world.oracle, setup.confs, disk, setup.base).0;
      p in d && d[p] == ContentAgain(world.opts, world.oracle, setup.confs, p.file, disk[p])
  {
    var present := ExistingRepoFiles(disk, setup.base);
    var distro := FromConfFile(world.opts, world.oracle, true, setup.confs.distro, present);
    var nonDistro := FromConfFile(world.opts, world.oracle, false, setup.confs.nonDistro, present);
    assert p.file in present <==> Extension(p.file) == ".repo" by {
      assert p == Path(setup.base, p.file);
    }
    SaveIntoAt(disk, setup.base, distro, p);
    SaveIntoAt(SaveInto(disk, setup.base, distro), setup.base, nonDistro, p);
  }

  /** The directories are there and apart, and every file lies in one that is there. */
  predicate Placed(host: Host, setup: Setup) {
    && setup.base in host.dirs && setup.base != setup.backup
    && Housed(Tree(host.st.disk, host.dirs))
  }

  /** A backup is made, and the file is one that it moves. */
  predicate Moves(host: Host, setup: Setup, force: bool, p: Path) {
    (force || setup.backup !in host.dirs) && Removable(p, setup.base, ".repo")
  }

  /** What backup and generation leave of a file of the base directory: what is moved is generated anew
      if it is configured; what stays is left alone, but that unrecognised names are generated over. */
  function LeftAt(host: Host, setup: Setup, world: World, force: bool, p: Path): Option<RepoContent> {
    if Moves(host, setup, force, p) then GeneratedAnew(setup, world, p.file)
    else Some(ContentAgain(world.opts, world.oracle, setup.confs, p.file, Load(host.st.disk, p)))
  }

  /** The files after a backup is made: no removable file is left, the others are untouched. */
  lemma BackedUpAt(tree: Tree<RepoContent>, setup: Setup, force: bool, p: Path)
    requires Housed(tree) && setup.base in tree.dirs && setup.base != setup.backup && p.dir == setup.base
    requires force || setup.backup !in tree.dirs
    ensures var (t, ok) := Backup(tree, force, setup.backup, setup.base, ".repo");
      && ok && setup.base in t.dirs
      && (p in t.files <==> p in tree.files && !Removable(p, setup.base, ".repo"))
      && (p in t.files ==> t.files[p] == tree.files[p])
  {
    BackupMadeAt(tree, force, setup.backup, setup.base, ".repo", p);
  }

  lemma PreparedAt(host: Host, setup: Setup, world: World, force: bool, p: Path)
    requires Placed(host, setup) && p in host.st.disk && p.dir == setup.base
    ensures Prepare(Tree(host.st.disk, host.dirs), setup, world, force).1
    ensures var d, c := Prepared(host, setup, world, force).disk, LeftAt(host, setup, world, force, p);
      (p in d <==> c.Some?) && (p in d ==> d[p] == c.value)
  {
    var tree := Tree(host.st.disk, host.dirs);
    var t := Backup(tree, force, setup.backup, setup.base, ".repo").0;
    if !force && setup.backup in host.dirs {
      LaterBackup(tree, setup.backup, setup.base, ".repo");
    } else {
      BackedUpAt(tree, setup, force, p);
    }
    if p in t.files {
      GeneratedOver(setup, world, t.files, p);
    } else {
      GeneratedAfresh(setup, world, t.files, p.file);
    }
  }

  /** The file reads as it is in memory once backup and generation are through. */
  predicate Survives(host: Host, setup: Setup, world: World, force: bool, obj: FileObj) {
    var c := LeftAt(host, setup, world, force, obj.path);
    c.Some? && Parse(c.value, obj.path) == Some(obj.repos)
  }

  /** The file can hold what is in memory, once it is saved over what backup and generation leave. */
  predicate Repairable(host: Host, setup: Setup, world: World, force: bool, obj: FileObj) {
    var c := LeftAt(host, setup, world, force, obj.path);
    Restorable(if c.Some? then c.value else map[], obj.repos)
  }

  lemma PreparedObject(host: Host, setup: Setup, world: World, force: bool, obj: FileObj)
    requires Placed(host, setup) && OnDisk(host.st.disk, obj) && obj.path.dir == setup.base
    ensures var d := Prepared(host, setup, world, force).disk;
      && (OnDisk(d, obj) <==> Survives(host, setup, world, force, obj))
      && (Restorable(Load(d, obj.path), obj.repos) <==> Repairable(host, setup, world, force, obj))
  {
    PreparedAt(host, setup, world, force, obj.path);
  }

  /** Half-way through initialisation, before anything is loaded and saved, memory and disk agree
      exactly when every indexed file survives. */
  lemma PrepareKeepsAgreementIff(host: Host, setup: Setup, world: World, force: bool)
    requires Good(host.st) && InBase(host.st, setup.base) && Placed(host, setup)
    ensures Sound(Prepared(host, setup, world, force))
    ensures Coherent(Prepared(host, setup, world, force))
       <==> forall id | id in host.st.idx :: Survives(host, setup, world, force, host.st.objs[host.st.idx[id]])
  {
    forall id | id in host.st.idx
      ensures OnDisk(Prepared(host, setup, world, force).disk, host.st.objs[host.st.idx[id]])
         <==> Survives(host, setup, world, force, host.st.objs[host.st.idx[id]])
    {
      assert OnDisk(host.st.disk, host.st.objs[host.st.idx[id]]);
      PreparedObject(host, setup, world, force, host.st.objs[host.st.idx[id]]);
    }
  }

  // --------------------------------------------------------- the whole call

  /** The indexed file is saved by the batch and can hold what is saved, or is not saved and survives. */
  predicate Agrees(host: Host, setup: Setup, op: Op, id: string)
    requires op.Defaults? && Known(host.st.objs, host.st.idx, id)
  {
    var obj := host.st.objs[host.st.idx[id]];
    if NamedObject(host.st.idx, op.names, host.st.idx[id]) then Repairable(host, setup, op.world, op.force, obj)
    else Survives(host, setup, op.world, op.force, obj)
  }

  /** A successful initialisation of a manager in a good state leaves it in a good state exactly when no
      loaded file has gained an id, and each loaded file is saved by the batch and can hold what is
      saved, or is not saved and survives backup and generation. */
  lemma InitialiseKeepsGoodIff(host: Host, setup: Setup, op: Op)
    requires op.Defaults? && Distinct(op.files)
    requires Good(host.st) && InBase(host.st, setup.base) && Placed(host, setup)
    requires SavesInSomeOrder(host, setup, op)
    requires Initialise.Initialise(host.st, host.dirs, setup, op.world, op.force, op.files, op.names, op.order).2
    ensures Good(Step(host, setup, op).st)
       <==> ((forall k | 0 <= k < |op.files| :: GainsNothing(Prepared(host, setup, op.world, op.force), setup.base, op.files, k))
             && forall id | id in host.st.idx :: Agrees(host, setup, op, id))
  {
    var st := Prepared(host, setup, op.world, op.force);
    forall id | id in host.st.idx
      ensures Known(st.objs, st.idx, id) && Proper(st.objs[st.idx[id]])
      ensures Agreeable(st, op.names, id) <==> Agrees(host, setup, op, id)
    {
      var obj := host.st.objs[host.st.idx[id]];
      assert OnDisk(host.st.disk, host.st.objs[host.st.idx[id]]);
      PreparedObject(host, setup, op.world, op.force, obj);
      OnDiskIsProper(host.st.disk, obj);
    }
    ReloadKeepsGoodIff(st, setup.base, op.files, op.names, op.order);
  }

  // ------------------------------------------------------- what to look for

  /** Every group says that its repository is disabled. */
  predicate AllDisabled(c: RepoContent) {
    forall id | id in c :: GetStringOpt(c[id], Enabled) == Some("false")
  }

  lemma DisabledOverlay(c: RepoContent, repos: Repos)
    requires AllDisabled(c) && forall id | id in repos :: !repos[id].enabled
    ensures AllDisabled(Overlay(c, Writes(repos)))
  {
    OverlayKeys(c, Writes(repos));
    forall id | id in Overlay(c, Writes(repos))
      ensures GetStringOpt(Overlay(c, Writes(repos))[id], Enabled) == Some("false")
    {
      OverlayGroup(c, Writes(repos), id);
      if id in repos {
        Lookup(GetGroup(c, id), repos[id], Enabled);
      }
    }
  }

  lemma GeneratedIsDisabled(setup: Setup, world: World, f: string)
    requires GeneratedAnew(setup, world, f).Some?
    ensures AllDisabled(GeneratedAnew(setup, world, f).value)
  {
    var distro := ReposOf(world.opts, world.oracle, true, setup.confs, f);
    var nonDistro := ReposOf(world.opts, world.oracle, false, setup.confs, f);
    forall id | id in distro ensures !distro[id].enabled {
      GeneratedRepo(world.opts, world.oracle, true, f, ConfigsOf(setup.confs.distro, f), id);
    }
    forall id | id in nonDistro ensures !nonDistro[id].enabled {
      GeneratedRepo(world.opts, world.oracle, false, f, ConfigsOf(setup.confs.nonDistro, f), id);
    }
    GeneratedAt(setup, world, map[], f);
    DisabledOverlay(map[], distro);
    DisabledOverlay(if f in setup.confs.distro then Overlay(map[], Writes(distro)) else map[], nonDistro);
  }

  lemma DisabledParses(c: RepoContent, path: Path, id: string)
    requires AllDisabled(c) && Parse(c, path).Some? && id in c
    ensures !Parse(c, path).value[id].enabled
  {
    ParsedFlag(c, path, id);
    BooleanRoundTrip(false);
    assert ReadFlag(c[id], Enabled) == Ok(false);
  }

  /** A file that is moved and has an enabled repository never survives, whatever is configured and
      answered: what is generated is disabled. */
  lemma EnabledNeverSurvives(host: Host, setup: Setup, world: World, force: bool, obj: FileObj, id: string)
    requires Moves(host, setup, force, obj.path) && id in obj.repos && obj.repos[id].enabled
    ensures !Survives(host, setup, world, force, obj)
  {
    var c := GeneratedAnew(setup, world, obj.path.file);
    if c.Some? && Parse(c.value, obj.path).Some? && id in c.value {
      GeneratedIsDisabled(setup, world, obj.path.file);
      DisabledParses(c.value, obj.path, id);
    } else if c.Some? && Parse(c.value, obj.path).Some? {
      ParseIsWellKeyed(c.value, obj.path);
    }
  }

  lemma NotGenerated(host: Host, setup: Setup, world: World, force: bool, obj: FileObj)
    requires Moves(host, setup, force, obj.path) && obj.path.file !in Configured(setup.confs)
    ensures !Survives(host, setup, world, force, obj)
  {
    GeneratedAt(setup, world, map[], obj.path.file);
  }

  /** Nor does one that nothing configures. So a moved file that the batch does not save spoils the
      state if it has an enabled repository or is not configured. */
  lemma BackupUnderLoadedFile(host: Host, setup: Setup, op: Op, id: string)
    requires op.Defaults? && Distinct(op.files)
    requires Good(host.st) && InBase(host.st, setup.base) && Placed(host, setup)
    requires SavesInSomeOrder(host, setup, op)
    requires Initialise.Initialise(host.st, host.dirs, setup, op.world, op.force, op.files, op.names, op.order).2
    requires id in host.st.idx && !NamedObject(host.st.idx, op.names, host.st.idx[id])
    requires var obj := host.st.objs[host.st.idx[id]];
      && Moves(host, setup, op.force, obj.path)
      && (obj.path.file !in Configured(setup.confs) || exists k :: k in obj.repos && obj.repos[k].enabled)
    ensures !Good(Step(host, setup, op).st)
  {
    var obj := host.st.objs[host.st.idx[id]];
    if obj.path.file !in Configured(setup.confs) {
      NotGenerated(host, setup, op.world, op.force, obj);
    } else {
      var k :| k in obj.repos && obj.repos[k].enabled;
      EnabledNeverSurvives(host, setup, op.world, op.force, obj, k);
    }
    assert !Agrees(host, setup, op, id);
    InitialiseKeepsGoodIff(host, setup, op);
  }

  /** A moved file that one set configures survives exactly when it was loaded as the configuration,
      and what is answered now, make its repositories. */
  lemma SurvivesConfiguredIff(host: Host, setup: Setup, world: World, force: bool, obj: FileObj, distro: bool)
    requires Moves(host, setup, force, obj.path) && obj.path.dir == setup.base && OnDisk(host.st.disk, obj)
    requires var f, confs := obj.path.file, setup.confs;
      f in (if distro then confs.distro else confs.nonDistro) && f !in (if distro then confs.nonDistro else confs.distro)
    ensures Survives(host, setup, world, force, obj)
       <==> obj.repos == Sourced(ReposOf(world.opts, world.oracle, distro, setup.confs, obj.path.file), obj.path)
  {
    var repos := ReposOf(world.opts, world.oracle, distro, setup.confs, obj.path.file);
    OneSetGenerates(setup, world, obj.path.file, distro);
    SurvivesAs(host, setup, world, force, obj, Overlay(map[], Writes(repos)));
    LoadedNames(host.st.disk, obj);
    NewFileParsesTo(repos, obj.path, obj.repos);
  }

  lemma SurvivesAs(host: Host, setup: Setup, world: World, force: bool, obj: FileObj, c: RepoContent)
    requires Moves(host, setup, force, obj.path) && GeneratedAnew(setup, world, obj.path.file) == Some(c)
    ensures Survives(host, setup, world, force, obj) <==> Parse(c, obj.path) == Some(obj.repos)
  {
  }

  lemma OneSetGenerates(setup: Setup, world: World, f: string, distro: bool)
    requires var confs := setup.confs;
      f in (if distro then confs.distro else confs.nonDistro) && f !in (if distro then confs.nonDistro else confs.distro)
    ensures var repos := ReposOf(world.opts, world.oracle, distro, setup.confs, f);
      GeneratedAnew(setup, world, f) == Some(Overlay(map[], Writes(repos))) && WellKeyed(repos)
  {
    GeneratedContent(world.opts, world.oracle, setup.confs, map[], setup.base, f, distro);
    GeneratedIsWellKeyed(world.opts, world.oracle, distro, f,
                         ConfigsOf(if distro then setup.confs.distro else setup.confs.nonDistro, f));
  }

  lemma LoadedNames(disk: Disk, obj: FileObj)
    requires OnDisk(disk, obj)
    ensures forall id | id in obj.repos :: obj.repos[id].name != ""
  {
    ParseIsWellKeyed(disk[obj.path], obj.path);
    ParsedNames(disk[obj.path], obj.path);
  }

  lemma ParsesOnlyNamed(repos: Repos, path: Path, c: RepoContent)
    requires c == Overlay(map[], Writes(repos)) && Parse(c, path).Some?
    ensures forall id | id in repos :: repos[id].name != ""
  {
    WrittenNames(repos);
    ParsedNames(c, path);
  }

  lemma NewFileParsesTo(repos: Repos, path: Path, want: Repos)
    requires WellKeyed(repos) && forall id | id in want :: want[id].name != ""
    ensures Parse(Overlay(map[], Writes(repos)), path) == Some(want) <==> want == Sourced(repos, path)
  {
    NewFileRoundTrip(repos, path);
    if Parse(Overlay(map[], Writes(repos)), path).Some? {
      ParsesOnlyNamed(repos, path, Overlay(map[], Writes(repos)));
    }
    if want == Sourced(repos, path) {
      SourcedNames(repos, path);
    }
  }

  lemma SourcedNames(repos: Repos, path: Path)
    ensures Sourced(repos, path).Keys == repos.Keys
    ensures forall id | id in repos :: Sourced(repos, path)[id].name == repos[id].name
  {
  }

  lemma ParsedNames(c: RepoContent, path: Path)
    requires Parse(c, path).Some?
    ensures forall id | id in c :: Name in c[id] && c[id][Name] != "" && Parse(c, path).value[id].name == c[id][Name]
  {
    forall id | id in c
      ensures Name in c[id] && c[id][Name] != "" && Parse(c, path).value[id].name == c[id][Name]
    {
      assert ReadRepo(c[id], id, path).Ok?;
    }
  }

  lemma WrittenNames(repos: Repos)
    ensures var c := Overlay(map[], Writes(repos));
      forall id | id in repos :: id in c && Name in c[id] && c[id][Name] == repos[id].name
  {
    forall id | id in repos
      ensures var c := Overlay(map[], Writes(repos)); id in c && Name in c[id] && c[id][Name] == repos[id].name
    {
      SavedGroup(map[], repos, id);
      Lookup(map[], repos[id], Name);
    }
  }
}
