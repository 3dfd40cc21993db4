/** The first initialisation on a host, which moves every ".repo" file away: what it enables has to be
    configured. */
module FirstRun {
  import opened Wrappers
  import opened KeyFiles
  import opened RepoFiles
  import opened RepoIndex
  import opened RepoReload
  import opened RepoGenerator
  import opened Backups
  import opened Initialise
  import opened RepoRuns
  import opened RepoAgreement
  import opened DefaultNames

  /** Some configuration of the file has the id. */
  predicate ConfiguredIn(confs: ConfFiles, f: string, id: string) {
    exists c :: c in ConfigsOf(confs.distro, f) + ConfigsOf(confs.nonDistro, f) && c.id == id
  }

  predicate ConfiguredId(confs: ConfFiles, id: string) {
    exists f :: f in Configured(confs) && ConfiguredIn(confs, f, id)
  }

  /** A generated file has exactly the ids configured for it. */
  lemma GeneratedIds(setup: Setup, world: World, f: string, id: string)
    requires f in Configured(setup.confs)
    ensures GeneratedAnew(setup, world, f).Some?
    ensures id in GeneratedAnew(setup, world, f).value <==> ConfiguredIn(setup.confs, f, id)
  {
    GeneratedAt(setup, world, map[], f);
    GeneratedKeys(setup, world, f);
    FromConfigsIds(world.opts, world.oracle, true, f, ConfigsOf(setup.confs.distro, f));
    FromConfigsIds(world.opts, world.oracle, false, f, ConfigsOf(setup.confs.nonDistro, f));
    IdsOfBoth(ConfigsOf(setup.confs.distro, f), ConfigsOf(setup.confs.nonDistro, f), id);
  }

  lemma GeneratedKeys(setup: Setup, world: World, f: string)
    requires GeneratedAnew(setup, world, f).Some?
    ensures GeneratedAnew(setup, world, f).value.Keys
         == ReposOf(world.opts, world.oracle, true, setup.confs, f).Keys + ReposOf(world.opts, world.oracle, false, setup.confs, f).Keys
  {
    var distro := ReposOf(world.opts, world.oracle, true, setup.confs, f);
    var nonDistro := ReposOf(world.opts, world.oracle, false, setup.confs, f);
    GeneratedAt(setup, world, map[], f);
    if f !in setup.confs.distro { NoConfigsNoRepos(setup, world, f, true); }
    if f !in setup.confs.nonDistro { NoConfigsNoRepos(setup, world, f, false); }
    BothKeys(f in setup.confs.distro, f in setup.confs.nonDistro, distro, nonDistro, GeneratedAnew(setup, world, f).value);
  }

  lemma BothKeys(first: bool, second: bool, a: Repos, b: Repos, c: RepoContent)
    requires (!first ==> a == map[]) && (!second ==> b == map[])
    requires var c1 := if first then Overlay(map[], Writes(a)) else map[];
      c == if second then Overlay(c1, Writes(b)) else c1
    ensures c.Keys == a.Keys + b.Keys
  {
    var c1 := if first then Overlay(map[], Writes(a)) else map[];
    OverlayKeys(map[], Writes(a));
    OverlayKeys(c1, Writes(b));
  }

  lemma NoConfigsNoRepos(setup: Setup, world: World, f: string, distro: bool)
    requires f !in (if distro then setup.confs.distro else setup.confs.nonDistro)
    ensures ReposOf(world.opts, world.oracle, distro, setup.confs, f) == map[]
  {
  }

  lemma IdsOfBoth(a: seq<RepoConfig>, b: seq<RepoConfig>, id: string)
    ensures (exists c :: c in a + b && c.id == id) <==> ((exists c :: c in a && c.id == id) || exists c :: c in b && c.id == id)
  {
  }

  /** The one name that ends in ".repo" without having it as its extension. */
  const BARE := ".repo"

  lemma RepoSuffix(f: string)
    requires EndsWith(f, ".repo")
    ensures Extension(f) == ".repo" || f == BARE
  {
    var i := LastDot(f);
    var dot := |f| - 5;
    assert f[dot..] == ".repo";
    assert f[dot] == '.' && f[dot + 1] == 'r' && f[dot + 2] == 'e' && f[dot + 3] == 'p' && f[dot + 4] == 'o';
    assert i == dot;
  }

  lemma RepoExtensionEnds(f: string)
    requires Extension(f) == ".repo"
    ensures EndsWith(f, ".repo")
  {
  }

  /** What a first backup and generation leave in the base directory. */
  lemma FirstFiles(host: Host, setup: Setup, world: World, force: bool, f: string)
    requires Placed(host, setup) && (force || setup.backup !in host.dirs) && AllRecognised(setup) && EndsWith(f, ".repo")
    ensures Prepare(Tree(host.st.disk, host.dirs), setup, world, force).1
    ensures var d, p := Prepared(host, setup, world, force).disk, Path(setup.base, f);
      && (p in d <==> f in Configured(setup.confs) || (f == BARE && p in host.st.disk))
      && (f in Configured(setup.confs) ==> GeneratedAnew(setup, world, f) == Some(d[p]))
      && (f !in Configured(setup.confs) && p in d ==> d[p] == host.st.disk[p])
  {
    var tree, p := Tree(host.st.disk, host.dirs), Path(setup.base, f);
    var t := Backup(tree, force, setup.backup, setup.base, ".repo").0;
    BackedUpAt(tree, setup, force, p);
    RepoSuffix(f);
    BareExtension();
    if p in t.files {
      GenerateLeavesTheRest(world.opts, world.oracle, setup.confs, t.files, setup.base, p);
    } else {
      GeneratedAfresh(setup, world, t.files, f);
      GeneratedAt(setup, world, map[], f);
    }
  }

  lemma BareExtension()
    ensures Extension(BARE) == "" && Lowered("") != Lowered(".repo")
  {
    assert BARE[0] == '.' && BARE[1] == 'r' && BARE[2] == 'e' && BARE[3] == 'p' && BARE[4] == 'o';
    assert LastDot(BARE) == 0;
  }

  lemma ProvidedIff(host: Host, setup: Setup, world: World, force: bool, files: seq<string>, id: string)
    requires Placed(host, setup) && (force || setup.backup !in host.dirs) && AllRecognised(setup)
    requires ListsRepos(files, Prepared(host, setup, world, force).disk, setup.base)
    ensures Provided(Prepared(host, setup, world, force).disk, setup.base, files, id)
       <==> ConfiguredId(setup.confs, id) || id in Load(host.st.disk, Path(setup.base, BARE))
  {
    var d := Prepared(host, setup, world, force).disk;
    if f :| f in files && id in FileIds(d, setup.base, f) {
      FirstFiles(host, setup, world, force, f);
      if f in Configured(setup.confs) { GeneratedIds(setup, world, f, id); }
    }
    if f :| f in Configured(setup.confs) && ConfiguredIn(setup.confs, f, id) {
      RepoExtensionEnds(f);
      FirstFiles(host, setup, world, force, f);
      GeneratedIds(setup, world, f, id);
      assert Path(setup.base, f) in d && f in files;
      assert Provided(d, setup.base, files, id);
    }
    if id in Load(host.st.disk, Path(setup.base, BARE)) {
      BareExtension();
      assert BARE !in Configured(setup.confs);
      FirstFiles(host, setup, world, force, BARE);
      assert Path(setup.base, BARE) in d && BARE in files;
      assert Provided(d, setup.base, files, id);
    }
  }

  /** A first initialisation that makes the backup succeeds exactly when the files it finds afterwards
      parse and every name to enable is a configured id (or lies in a file named just ".repo", which
      is not moved). */
  lemma FirstRunSucceedsIff(disk: Disk, dirs: set<string>, setup: Setup, world: World, force: bool,
                            files: seq<string>, names: seq<string>, order: seq<nat>)
    requires var host := Start(disk, dirs);
      && Placed(host, setup) && (force || setup.backup !in dirs) && AllRecognised(setup)
      && ListsRepos(files, Prepared(host, setup, world, force).disk, setup.base)
      && SaveOrder(order, LoadDir(Prepared(host, setup, world, force), setup.base, setup.base, files).0.idx, names)
    ensures var host := Start(disk, dirs);
      (Initialise.Initialise(host.st, dirs, setup, world, force, files, names, order).2
       <==> (&& Loads(Prepared(host, setup, world, force).disk, setup.base, files)
             && forall id | id in names :: ConfiguredId(setup.confs, id) || id in Load(disk, Path(setup.base, BARE))))
  {
    var host := Start(disk, dirs);
    FirstFiles(host, setup, world, force, "a.repo") by {
      assert EndsWith("a.repo", ".repo");
    }
    InitialiseSucceedsIff(host.st, dirs, setup, world, force, files, names, order);
    forall id: string
      ensures Provided(Prepared(host, setup, world, force).disk, setup.base, files, id)
         <==> ConfiguredId(setup.confs, id) || id in Load(disk, Path(setup.base, BARE))
    {
      ProvidedIff(host, setup, world, force, files, id);
    }
  }

  /** With the configuration that comes with the program, a first initialisation whose files parse
      succeeds exactly on Rocky Linux: the other distributions' ids keep their placeholders, while the
      names to enable have them filled in. */
  lemma ShippedFirstRunIff(disk: Disk, dirs: set<string>, setup: Setup, world: World, force: bool,
                           files: seq<string>, order: seq<nat>, distro: Distro, major: nat)
    requires var host := Start(disk, dirs);
      && Placed(host, setup) && (force || setup.backup !in dirs) && AllRecognised(setup)
      && ListsRepos(files, Prepared(host, setup, world, force).disk, setup.base)
      && SaveOrder(order, LoadDir(Prepared(host, setup, world, force), setup.base, setup.base, files).0.idx, ReposNames(distro, major))
      && Loads(Prepared(host, setup, world, force).disk, setup.base, files)
    requires Path(setup.base, BARE) !in disk
    requires forall id :: ConfiguredId(setup.confs, id) <==> Shipped(distro, id)
    ensures Initialise.Initialise(Start(disk, dirs).st, dirs, setup, world, force, files, ReposNames(distro, major), order).2
       <==> distro == Rocky
  {
    FirstRunSucceedsIff(disk, dirs, setup, world, force, files, ReposNames(distro, major), order);
    NamesAreShippedIff(distro, major);
  }
}
