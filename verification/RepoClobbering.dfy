/** A run of the program in which a second file object for one path undoes what was asked for. */
module RepoClobbering {
  import opened Wrappers
  import opened Sequences
  import opened KeyFiles
  import opened RepoFiles
  import opened RepoIndex
  import opened RepoCoherence
  import opened RepoFailures
  import opened RepoReload
  import opened RepoGenerator
  import opened Backups
  import opened Initialise
  import opened RepoRuns
  import opened RepoAgreement

  /** One file with one enabled repository, loaded before the first backup; the configuration has that
      repository and another in this file. */
  datatype Scene = Scene(setup: Setup, world: World, f: string, x: RepoConfig, y: RepoConfig, g: RepoGroup, loaded: Repo)

  predicate IsScene(c: Scene) {
    && c.setup.base != c.setup.backup && Extension(c.f) == ".repo"
    && c.setup.confs == ConfFiles(map[c.f := [c.x, c.y]], map[])
    && c.x.id != c.y.id && c.x.name != "" && c.y.name != ""
    && ReadRepo(c.g, c.x.id, ScenePath(c)) == Ok(c.loaded) && c.loaded.enabled
  }

  function ScenePath(c: Scene): Path {
    Path(c.setup.base, c.f)
  }

  function SceneStart(c: Scene): Host {
    Start(map[ScenePath(c) := map[c.x.id := c.g]], {c.setup.base})
  }

  function SceneOps(c: Scene): seq<Op> {
    [InstallFile(ScenePath(c)), Defaults(c.world, false, [c.f], [], [])]
  }

  function SceneRepos(c: Scene): Repos {
    Sourced(ReposOf(c.world.opts, c.world.oracle, true, c.setup.confs, c.f), ScenePath(c))
  }

  lemma SceneGenerated(c: Scene)
    requires IsScene(c)
    ensures SceneRepos(c).Keys == {c.x.id, c.y.id}
    ensures forall id | id in SceneRepos(c) :: SceneRepos(c)[id].name != "" && !SceneRepos(c)[id].enabled
  {
    var opts, oracle, configs := c.world.opts, c.world.oracle, [c.x, c.y];
    FromConfigsIds(opts, oracle, true, c.f, configs);
    assert c.x in configs && c.y in configs;
    forall id | id in SceneRepos(c)
      ensures SceneRepos(c)[id].name != "" && !SceneRepos(c)[id].enabled
    {
      NamedAndDisabled(opts, oracle, c.f, configs, id);
    }
  }

  lemma NamedAndDisabled(opts: Options, oracle: Oracle, f: string, configs: seq<RepoConfig>, id: string)
    requires id in FromConfigs(opts, oracle, true, f, configs) && forall config | config in configs :: config.name != ""
    ensures var r := FromConfigs(opts, oracle, true, f, configs)[id]; r.name != "" && !r.enabled
  {
    GeneratedRepo(opts, oracle, true, f, configs, id);
    var i: nat :| FirstWith(configs, i, id) && FaithfulTo(opts, oracle, configs[i], FromConfigs(opts, oracle, true, f, configs)[id]);
    assert configs[i] in configs;
  }

  lemma SceneRegenerated(c: Scene, disk: Disk)
    requires IsScene(c) && ScenePath(c) !in disk
    ensures var d := Generate(c.world.opts, c.world.oracle, c.setup.confs, disk, c.setup.base).0;
      ScenePath(c) in d && Parse(d[ScenePath(c)], ScenePath(c)) == Some(SceneRepos(c))
  {
    var repos := ReposOf(c.world.opts, c.world.oracle, true, c.setup.confs, c.f);
    SceneGenerated(c);
    GeneratedFileReadsBack(c.world.opts, c.world.oracle, c.setup.confs, disk, c.setup.base, c.f, true);
    assert forall id | id in repos :: repos[id].name == SceneRepos(c)[id].name;
  }

  /** The file is moved to the backup and generated anew. */
  lemma ScenePrepared(c: Scene, tree: Tree<RepoContent>)
    requires IsScene(c) && tree == Tree(SceneStart(c).st.disk, {c.setup.base})
    ensures var (t, ok) := Prepare(tree, c.setup, c.world, false);
      ok && ScenePath(c) in t.files && Parse(t.files[ScenePath(c)], ScenePath(c)) == Some(SceneRepos(c))
  {
    BackedUpAt(tree, c.setup, false, ScenePath(c));
    SceneRegenerated(c, Backup(tree, false, c.setup.backup, c.setup.base, ".repo").0.files);
  }

  lemma LoadOneFile(st: State, base: string, f: string, repos: Repos)
    requires Path(base, f) in st.disk && Parse(st.disk[Path(base, f)], Path(base, f)) == Some(repos)
    ensures LoadDir(st, base, base, [f])
         == (State(st.objs + [FileObj(Path(base, f), repos)], EmplaceAll(st.idx, repos.Keys, |st.objs|), st.disk), true)
    ensures Install(st, base, Path(base, f)) == LoadDir(st, base, base, [f])
  {
    assert Front([f]) == [] && Last([f]) == f;
  }

  lemma OneGroup(g: RepoGroup, id: string, path: Path, r: Repo)
    requires ReadRepo(g, id, path) == Ok(r)
    ensures Parse(map[id := g], path) == Some(map[id := r])
  {
    var c: RepoContent := map[id := g];
    assert forall k | k in c :: k == id && c[k] == g;
    ParseGives(c, map[id := r], path);
  }

  lemma SceneLoaded(c: Scene)
    requires IsScene(c)
    ensures Step(SceneStart(c), c.setup, InstallFile(ScenePath(c)))
         == Host(State([FileObj(ScenePath(c), map[c.x.id := c.loaded])], map[c.x.id := 0], SceneStart(c).st.disk), {c.setup.base})
  {
    OneGroup(c.g, c.x.id, ScenePath(c), c.loaded);
    LoadOneFile(SceneStart(c).st, c.setup.base, c.f, map[c.x.id := c.loaded]);
    assert EmplaceAll(map[], {c.x.id}, 0) == map[c.x.id := 0];
  }

  lemma NoDefaultNames(host: Host, setup: Setup, op: Op, m: State)
    requires op.Defaults? && op.names == [] && op.order == []
    requires Prepare(Tree(host.st.disk, host.dirs), setup, op.world, op.force).1
    requires LoadDir(Prepared(host, setup, op.world, op.force), setup.base, setup.base, op.files) == (m, true)
    ensures Step(host, setup, op).st == m
  {
    ReloadWithoutNames(Prepared(host, setup, op.world, op.force), setup.base, op.files, op.names, op.order, m);
  }

  lemma ReloadWithoutNames(st: State, base: string, files: seq<string>, names: seq<string>, order: seq<nat>, m: State)
    requires LoadDir(st, base, base, files) == (m, true) && names == [] && order == []
    ensures Reload(st, base, files, names, order) == (m, true)
  {
    NothingToEnable(m, names, order);
  }

  lemma NothingToEnable(m: State, names: seq<string>, order: seq<nat>)
    requires names == [] && order == []
    ensures EnableMany(m, names, true, order) == (m, true)
  {
  }

  lemma EmplaceSecond(x: string, y: string)
    requires x != y
    ensures EmplaceAll(map[x := 0], {x, y}, 1) == map[x := 0, y := 1]
  {
  }

  lemma SceneReloaded(c: Scene, prepared: State)
    requires IsScene(c) && prepared.objs == [FileObj(ScenePath(c), map[c.x.id := c.loaded])] && prepared.idx == map[c.x.id := 0]
    requires ScenePath(c) in prepared.disk && Parse(prepared.disk[ScenePath(c)], ScenePath(c)) == Some(SceneRepos(c))
    ensures var (s, ok) := LoadDir(prepared, c.setup.base, c.setup.base, [c.f]);
      && ok && s.objs == [FileObj(ScenePath(c), map[c.x.id := c.loaded]), FileObj(ScenePath(c), SceneRepos(c))]
      && s.idx == map[c.x.id := 0, c.y.id := 1]
  {
    SceneGenerated(c);
    EmplaceSecond(c.x.id, c.y.id);
    LoadOneFile(prepared, c.setup.base, c.f, SceneRepos(c));
  }

  /** Initialising after that leaves the first repository with the object it had, and gives the second
      one to another object for the same path. */
  lemma SceneInitialised(c: Scene, host: Host)
    requires IsScene(c) && host == Step(SceneStart(c), c.setup, InstallFile(ScenePath(c)))
    ensures var s := Step(host, c.setup, SceneOps(c)[1]).st;
      && s.objs == [FileObj(ScenePath(c), map[c.x.id := c.loaded]), FileObj(ScenePath(c), SceneRepos(c))]
      && s.idx == map[c.x.id := 0, c.y.id := 1]
  {
    SceneLoaded(c);
    ScenePrepared(c, Tree(host.st.disk, host.dirs));
    var prepared := Prepared(host, c.setup, c.world, false);
    SceneReloaded(c, prepared);
    NoDefaultNames(host, c.setup, SceneOps(c)[1], LoadDir(prepared, c.setup.base, c.setup.base, [c.f]).0);
  }

  /** A run of the program that undoes what the user asked for: enabling the first repository and then
      the second leaves the first disabled on disk. Only its initialisation is not quiet. */
  lemma ClobberingRun(c: Scene)
    requires IsScene(c)
    ensures var host := Run(SceneStart(c), c.setup, SceneOps(c));
      var s := EnableOne(EnableOne(host.st, c.x.id, true).0, c.y.id, true).0;
      && Sound(host.st) && !OneObjectPerPath(host.st)
      && Known(s.objs, s.idx, c.x.id) && FlagOf(s.objs, s.idx[c.x.id], c.x.id)
      && !OnDisk(s.disk, s.objs[s.idx[c.x.id]])
  {
    var ops := SceneOps(c);
    TwoSteps(SceneStart(c), c.setup, ops[0], ops[1], Quiet);
    SceneInitialised(c, Step(SceneStart(c), c.setup, ops[0]));
    SceneGenerated(c);
    RunKeepsSound(SceneStart(c), c.setup, ops);
    SecondObjectClobbers(Run(SceneStart(c), c.setup, ops).st, c.x.id, c.y.id, true);
  }

  lemma TwoSteps(host: Host, setup: Setup, a: Op, b: Op, holds: (Host, Setup, Op) -> bool)
    ensures Throughout(host, setup, [a, b], holds) <==> (holds(host, setup, a) && holds(Step(host, setup, a), setup, b))
    ensures Run(host, setup, [a, b]) == Step(Step(host, setup, a), setup, b)
  {
    assert Front([a, b]) == [a] && Last([a, b]) == b && Front([a]) == [] && Last([a]) == a;
    assert Run(host, setup, [a]) == Step(host, setup, a);
    assert Throughout(host, setup, [a], holds) <==> holds(host, setup, a);
  }

  /** Such a run is one of those that keep agreement but for its initialisation, which is not quiet. */
  lemma OnlyNotQuiet(c: Scene)
    requires IsScene(c)
    ensures Throughout(SceneStart(c), c.setup, SceneOps(c), SavesInSomeOrder)
    ensures Throughout(SceneStart(c), c.setup, SceneOps(c), NamesKnown)
    ensures !Throughout(SceneStart(c), c.setup, SceneOps(c), Quiet)
  {
    var a, b, host := SceneOps(c)[0], SceneOps(c)[1], SceneStart(c);
    TwoSteps(host, c.setup, a, b, SavesInSomeOrder);
    TwoSteps(host, c.setup, a, b, NamesKnown);
    TwoSteps(host, c.setup, a, b, Quiet);
    NamesNothing(host, c.setup, a);
    NamesNothing(Step(host, c.setup, a), c.setup, b);
    FirstBackupIsNotQuiet(c);
  }

  lemma FirstBackupIsNotQuiet(c: Scene)
    requires IsScene(c)
    ensures !Quiet(Step(SceneStart(c), c.setup, SceneOps(c)[0]), c.setup, SceneOps(c)[1])
  {
    SceneLoaded(c);
    assert c.x.id in map[c.x.id := 0];
  }

  lemma NamesNothing(host: Host, setup: Setup, op: Op)
    requires Named(op) == [] && Order(op) == []
    ensures SavesInSomeOrder(host, setup, op) && NamesKnown(host, setup, op)
  {
  }

  lemma RepoExtension()
    ensures Extension("a.repo") == ".repo"
  {
    var f := "a.repo";
    assert f[0] == 'a' && f[1] == '.' && f[2] == 'r' && f[3] == 'e' && f[4] == 'p' && f[5] == 'o';
    assert f[1..] == ".repo";
  }

  lemma EnabledRepo(path: Path)
    ensures ReadRepo(map[Name := "X", Enabled := "true", GpgCheck := "false"], "x", path)
         == Ok(Repo("x", "x", "X", true, false, None, None, None, path))
  {
    BooleanRoundTrip(true);
    BooleanRoundTrip(false);
  }

  lemma SceneWith(f: string, world: World, x: RepoConfig, y: RepoConfig, g: RepoGroup, loaded: Repo) returns (c: Scene)
    requires Extension(f) == ".repo" && x.id != y.id && x.name != "" && y.name != ""
    requires ReadRepo(g, x.id, Path("b", f)) == Ok(loaded) && loaded.enabled
    ensures IsScene(c)
  {
    c := Scene(Setup("b", "k", ConfFiles(map[f := [x, y]], map[])), world, f, x, y, g, loaded);
  }

  lemma SceneExists()
    ensures exists c :: IsScene(c)
  {
    RepoExtension();
    EnabledRepo(Path("b", "a.repo"));
    var x := RepoConfig("x", "X", "a.repo", RepoPaths("", None), RepoPaths("http://u", None));
    var world := World(Options("http://m", true), (site, query, attempt) => true);
    var c := SceneWith("a.repo", world, x, x.(id := "y"), map[Name := "X", Enabled := "true", GpgCheck := "false"],
                       Repo("x", "x", "X", true, false, None, None, None, Path("b", "a.repo")));
  }
}
