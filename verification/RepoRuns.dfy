/** Whole runs of the repository manager, initialisation among the steps: what every run keeps, what
    it keeps when initialisation finds the backup made, and what breaks when it does not. */
module RepoRuns {
  import opened Wrappers
  import opened Sequences
  import opened KeyFiles
  import opened RepoFiles
  import opened RepoIndex
  import opened RepoCoherence
  import opened RepoTracking
  import opened RepoFailures
  import opened RepoReload
  import opened RepoGenerator
  import opened Backups
  import opened Initialise

  /** The manager, the disk and the directories. */
  datatype Host = Host(st: State, dirs: set<string>)

  datatype Op =
    | InstallFile(src: Path)
    | InstallDir(dir: string, files: seq<string>)
    | One(id: string, value: bool)
    | Many(ids: seq<string>, value: bool, order: seq<nat>)
    | Defaults(world: World, force: bool, files: seq<string>, names: seq<string>, order: seq<nat>)

  function Step(host: Host, setup: Setup, op: Op): Host {
    match op
    case InstallFile(src) => host.(st := Install(host.st, setup.base, src).0)
    case InstallDir(dir, files) => host.(st := LoadDir(host.st, setup.base, dir, files).0)
    case One(id, value) => host.(st := EnableOne(host.st, id, value).0)
    case Many(ids, value, order) => host.(st := EnableMany(host.st, ids, value, order).0)
    case Defaults(world, force, files, names, order) =>
      var (st, dirs, _) := Initialise.Initialise(host.st, host.dirs, setup, world, force, files, names, order);
      Host(st, dirs)
  }

  function Run(host: Host, setup: Setup, ops: seq<Op>): Host {
    if ops == [] then host else Step(Run(host, setup, Front(ops)), setup, Last(ops))
  }

  /** The state after backup and generation. */
  function Prepared(host: Host, setup: Setup, world: World, force: bool): State {
    host.st.(disk := Prepare(Tree(host.st.disk, host.dirs), setup, world, force).0.files)
  }

  /** The state in which a step makes its batch call, if it makes one. */
  function BeforeBatch(host: Host, setup: Setup, op: Op): Option<State> {
    match op
    case Many(_, _, _) => Some(host.st)
    case Defaults(world, force, files, _, _) =>
      var (m, loaded) := LoadDir(Prepared(host, setup, world, force), setup.base, setup.base, files);
      if Prepare(Tree(host.st.disk, host.dirs), setup, world, force).1 && loaded then Some(m) else None
    case _ => None
  }

  function Named(op: Op): seq<string> {
    match op
    case Many(ids, _, _) => ids
    case Defaults(_, _, _, names, _) => names
    case _ => []
  }

  function Order(op: Op): seq<nat> {
    match op
    case Many(_, _, order) => order
    case Defaults(_, _, _, _, order) => order
    case _ => []
  }

  /** A batch saves each touched file once, in some order. */
  predicate SavesInSomeOrder(host: Host, setup: Setup, op: Op) {
    var m := BeforeBatch(host, setup, op);
    m.Some? ==> SaveOrder(Order(op), m.value.idx, Named(op))
  }

  /** A batch names only indexed ids. */
  predicate NamesKnown(host: Host, setup: Setup, op: Op) {
    var m := BeforeBatch(host, setup, op);
    m.Some? ==> forall id | id in Named(op) :: id in m.value.idx
  }

  /** Initialisation comes before anything is loaded; or it finds the backup made, is not forced to
      make it anew, and all configured names are recognised as ".repo" files. */
  predicate Quiet(host: Host, setup: Setup, op: Op) {
    op.Defaults? ==> host.st.idx == map[] || (!op.force && setup.backup in host.dirs && AllRecognised(setup))
  }

  /** Every step of a run satisfies `holds` where it is taken. */
  predicate Throughout(host: Host, setup: Setup, ops: seq<Op>, holds: (Host, Setup, Op) -> bool) {
    ops == [] || (Throughout(host, setup, Front(ops), holds) && holds(Run(host, setup, Front(ops)), setup, Last(ops)))
  }

  function Start(disk: Disk, dirs: set<string>): Host {
    Host(State([], map[], disk), dirs)
  }

  // ----------------------------------------------------- in every run

  predicate InBase(st: State, base: string) {
    forall id | id in st.idx :: Known(st.objs, st.idx, id) && st.objs[st.idx[id]].path.dir == base
  }

  lemma InstallKeepsPlace(st: State, base: string, src: Path)
    requires Sound(st) && InBase(st, base)
    ensures Sound(Install(st, base, src).0) && InBase(Install(st, base, src).0, base)
  {
    InstallKeepsSound(st, base, src);
  }

  lemma {:induction false} LoadDirKeepsPlace(st: State, base: string, dir: string, files: seq<string>)
    requires Sound(st) && InBase(st, base)
    ensures Sound(LoadDir(st, base, dir, files).0) && InBase(LoadDir(st, base, dir, files).0, base)
  {
    if files != [] {
      LoadDirKeepsPlace(st, base, dir, Front(files));
      InstallKeepsPlace(LoadDir(st, base, dir, Front(files)).0, base, Path(dir, Last(files)));
    }
  }

  lemma SameFilesKeepPlace(st: State, s: State, base: string)
    requires Sound(st) && InBase(st, base) && s.idx == st.idx && SameFiles(st.objs, s.objs)
    ensures Sound(s) && InBase(s, base)
  {
    forall id | id in st.idx
      ensures Known(s.objs, s.idx, id) && s.objs[s.idx[id]].repos.Keys == st.objs[st.idx[id]].repos.Keys
      ensures s.objs[s.idx[id]].path == st.objs[st.idx[id]].path
    {
      assert Known(st.objs, st.idx, id);
    }
  }

  lemma EnableManyKeepsPlace(st: State, base: string, ids: seq<string>, value: bool, order: seq<nat>)
    requires Sound(st) && InBase(st, base)
    ensures Sound(EnableMany(st, ids, value, order).0) && InBase(EnableMany(st, ids, value, order).0, base)
  {
    SetFlagsKeepsFiles(st.objs, st.idx, ids, value);
    SameFilesKeepPlace(st, EnableMany(st, ids, value, order).0, base);
  }

  /** Every step of any kind, failed or not, keeps every indexed id in its file object, every id of an
      indexed file indexed, and every indexed file in the base directory. */
  lemma StepKeepsSound(host: Host, setup: Setup, op: Op)
    requires Sound(host.st) && InBase(host.st, setup.base)
    ensures Sound(Step(host, setup, op).st) && InBase(Step(host, setup, op).st, setup.base)
  {
    match op
    case InstallFile(src) => InstallKeepsPlace(host.st, setup.base, src);
    case InstallDir(dir, files) => LoadDirKeepsPlace(host.st, setup.base, dir, files);
    case One(id, value) =>
      if id in host.st.idx {
        assert Known(host.st.objs, host.st.idx, id);
        EnableOneSaves(host.st, id, value);
        SameFilesKeepPlace(host.st, EnableOne(host.st, id, value).0, setup.base);
      }
    case Many(ids, value, order) => EnableManyKeepsPlace(host.st, setup.base, ids, value, order);
    case Defaults(world, force, files, names, order) =>
      var prepared := Prepared(host, setup, world, force);
      SameFilesKeepPlace(host.st, prepared, setup.base);
      LoadDirKeepsPlace(prepared, setup.base, setup.base, files);
      EnableManyKeepsPlace(LoadDir(prepared, setup.base, setup.base, files).0, setup.base, names, true, order);
  }

  lemma {:induction false} RunKeepsSound(host: Host, setup: Setup, ops: seq<Op>)
    requires Sound(host.st) && InBase(host.st, setup.base)
    ensures Sound(Run(host, setup, ops).st) && InBase(Run(host, setup, ops).st, setup.base)
  {
    if ops != [] {
      RunKeepsSound(host, setup, Front(ops));
      StepKeepsSound(Run(host, setup, Front(ops)), setup, Last(ops));
    }
  }

  // ---------------------------------------- while initialisation is quiet

  lemma QuietPrepare(tree: Tree<RepoContent>, setup: Setup, world: World)
    requires setup.backup in tree.dirs && AllRecognised(setup)
    ensures var t := Prepare(tree, setup, world, false).0;
      forall p | p in tree.files :: p in t.files && t.files[p] == tree.files[p]
  {
    LaterBackup(tree, setup.backup, setup.base, ".repo");
    forall p | p in tree.files && setup.base in tree.dirs
      ensures var d := Generate(world.opts, world.oracle, setup.confs, tree.files, setup.base).0;
        p in d && d[p] == tree.files[p]
    {
      GenerateLeavesTheRest(world.opts, world.oracle, setup.confs, tree.files, setup.base, p);
    }
  }

  /** After an install that failed over a malformed file, no quiet initialisation that lists the file
      succeeds. */
  lemma FailedInstallBlocksInitialise(host: Host, setup: Setup, src: Path, op: Op)
    requires src.dir != setup.base && src in host.st.disk && Path(setup.base, src.file) !in host.st.disk
    requires Parse(host.st.disk[src], Path(setup.base, src.file)).None?
    requires op.Defaults? && !op.force && setup.backup in host.dirs && AllRecognised(setup) && src.file in op.files
    ensures var h := Step(host, setup, InstallFile(src));
      && h.st.idx == host.st.idx
      && !Initialise.Initialise(h.st, h.dirs, setup, op.world, op.force, op.files, op.names, op.order).2
  {
    var h := Step(host, setup, InstallFile(src));
    MalformedFileStays(host.st, setup.base, src, op.files);
    QuietPrepare(Tree(h.st.disk, h.dirs), setup, op.world);
    BadFileStopsLoading(Prepared(h, setup, op.world, false), setup.base, op.files, src.file);
  }

  lemma MoreFilesKeepTracked(st: State, s: State)
    requires Tracked(st) && s.idx == st.idx && s.objs == st.objs
    requires forall p | p in st.disk :: p in s.disk && s.disk[p] == st.disk[p]
    ensures Tracked(s)
  {
    forall id | id in st.idx
      ensures OnDiskUpToFlags(s.disk, s.objs[s.idx[id]])
    {
      assert OnDiskUpToFlags(st.disk, st.objs[st.idx[id]]);
    }
  }

  lemma StepKeepsTracked(host: Host, setup: Setup, op: Op)
    requires Tracked(host.st) && Quiet(host, setup, op) && SavesInSomeOrder(host, setup, op)
    ensures Tracked(Step(host, setup, op).st)
  {
    match op
    case InstallFile(src) => InstallKeepsTracked(host.st, setup.base, src);
    case InstallDir(dir, files) => LoadDirKeepsTracked(host.st, setup.base, dir, files);
    case One(id, value) => EnableOneKeepsTracked(host.st, id, value);
    case Many(ids, value, order) => EnableManyKeepsTracked(host.st, ids, value, order);
    case Defaults(world, force, files, names, order) =>
      var prepared := Prepared(host, setup, world, force);
      if host.st.idx != map[] {
        QuietPrepare(Tree(host.st.disk, host.dirs), setup, world);
        MoreFilesKeepTracked(host.st, prepared);
      }
      LoadDirKeepsTracked(prepared, setup.base, setup.base, files);
      if BeforeBatch(host, setup, op).Some? {
        EnableManyKeepsTracked(LoadDir(prepared, setup.base, setup.base, files).0, names, true, order);
      }
  }

  lemma StepKeepsGood(host: Host, setup: Setup, op: Op)
    requires Good(host.st) && Quiet(host, setup, op) && SavesInSomeOrder(host, setup, op) && NamesKnown(host, setup, op)
    ensures Good(Step(host, setup, op).st)
  {
    match op
    case InstallFile(src) => InstallKeepsGood(host.st, setup.base, src);
    case InstallDir(dir, files) => LoadDirKeepsGood(host.st, setup.base, dir, files);
    case One(id, value) => EnableOneKeepsGood(host.st, id, value);
    case Many(ids, value, order) => BatchKeepsGood(host.st, ids, value, order);
    case Defaults(world, force, files, names, order) =>
      var prepared := Prepared(host, setup, world, force);
      if host.st.idx != map[] {
        QuietPrepare(Tree(host.st.disk, host.dirs), setup, world);
        SameIndexKeepsGood(host.st, prepared);
      }
      LoadDirKeepsGood(prepared, setup.base, setup.base, files);
      if BeforeBatch(host, setup, op).Some? {
        BatchKeepsGood(LoadDir(prepared, setup.base, setup.base, files).0, names, true, order);
      }
  }

  // ------------------------------------------------------------ main results

  /** Whatever is called and whatever fails: from any disk and a fresh manager, every indexed id is
      held by its file object, and every id of an indexed file is indexed. */
  lemma EveryReachableStateIsSound(disk: Disk, dirs: set<string>, setup: Setup, ops: seq<Op>)
    ensures Sound(Run(Start(disk, dirs), setup, ops).st) && InBase(Run(Start(disk, dirs), setup, ops).st, setup.base)
  {
    RunKeepsSound(Start(disk, dirs), setup, ops);
  }

  lemma {:induction false} RunKeepsTracked(host: Host, setup: Setup, ops: seq<Op>)
    requires Tracked(host.st) && Throughout(host, setup, ops, SavesInSomeOrder) && Throughout(host, setup, ops, Quiet)
    ensures Tracked(Run(host, setup, ops).st)
  {
    if ops != [] {
      RunKeepsTracked(host, setup, Front(ops));
      StepKeepsTracked(Run(host, setup, Front(ops)), setup, Last(ops));
    }
  }

  /** As long as initialisations are quiet, and however many batches fail: no path has two indexed
      objects, and every indexed file parses to what is in memory but for flags. */
  lemma EveryQuietRunIsTracked(disk: Disk, dirs: set<string>, setup: Setup, ops: seq<Op>)
    requires Throughout(Start(disk, dirs), setup, ops, SavesInSomeOrder)
    requires Throughout(Start(disk, dirs), setup, ops, Quiet)
    ensures Tracked(Run(Start(disk, dirs), setup, ops).st)
  {
    RunKeepsTracked(Start(disk, dirs), setup, ops);
  }

  lemma {:induction false} RunKeepsGood(host: Host, setup: Setup, ops: seq<Op>)
    requires Good(host.st) && Throughout(host, setup, ops, SavesInSomeOrder)
    requires Throughout(host, setup, ops, Quiet) && Throughout(host, setup, ops, NamesKnown)
    ensures Good(Run(host, setup, ops).st)
  {
    if ops != [] {
      RunKeepsGood(host, setup, Front(ops));
      StepKeepsGood(Run(host, setup, Front(ops)), setup, Last(ops));
    }
  }

  /** And as long as batches name only indexed ids besides, index, memory and disk agree in full. */
  lemma EveryReachableStateIsGood(disk: Disk, dirs: set<string>, setup: Setup, ops: seq<Op>)
    requires Throughout(Start(disk, dirs), setup, ops, SavesInSomeOrder)
    requires Throughout(Start(disk, dirs), setup, ops, Quiet)
    requires Throughout(Start(disk, dirs), setup, ops, NamesKnown)
    ensures Good(Run(Start(disk, dirs), setup, ops).st)
  {
    RunKeepsGood(Start(disk, dirs), setup, ops);
  }
}
