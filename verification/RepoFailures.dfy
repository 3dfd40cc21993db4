/** What a failed batch leaves and when that reaches the disk, and how a second file object for one
    path comes about and what it breaks. */
module RepoFailures {
  import opened Wrappers
  import opened Sequences
  import opened KeyFiles
  import opened RepoFiles
  import opened RepoIndex
  import opened RepoCoherence
  import opened RepoTracking

  // ------------------------------------------------------- a failed batch

  /** The ids a batch gets through before the first unknown one. */
  function KnownPrefix(objs: seq<FileObj>, idx: map<string, nat>, ids: seq<string>): (r: seq<string>)
    ensures r <= ids
    ensures forall id | id in r :: Known(objs, idx, id)
  {
    if ids == [] then []
    else
      var p := KnownPrefix(objs, idx, Front(ids));
      if |p| == |ids| - 1 && Known(objs, idx, Last(ids)) then ids else p
  }

  lemma {:induction false} FlagsOfKnownPrefix(objs: seq<FileObj>, idx: map<string, nat>, ids: seq<string>, value: bool)
    ensures var p := KnownPrefix(objs, idx, ids);
            && SetFlags(objs, idx, ids, value).0 == SetFlags(objs, idx, p, value).0
            && SetFlags(objs, idx, p, value).1
            && (SetFlags(objs, idx, ids, value).1 <==> |p| == |ids|)
  {
    if ids != [] {
      FlagsOfKnownPrefix(objs, idx, Front(ids), value);
      SetFlagsKeepsFiles(objs, idx, Front(ids), value);
      KnownInSameFiles(objs, SetFlags(objs, idx, Front(ids), value).0, idx, Last(ids));
    }
  }

  lemma {:induction false} SettingSetFlags(objs: seq<FileObj>, idx: map<string, nat>, ids: seq<string>, value: bool)
    requires forall id | id in ids :: Known(objs, idx, id) && FlagOf(objs, idx[id], id) == value
    ensures SetFlags(objs, idx, ids, value) == (objs, true)
  {
    if ids != [] {
      SettingSetFlags(objs, idx, Front(ids), value);
      var h := idx[Last(ids)];
      var repos := objs[h].repos;
      assert repos[Last(ids)].(enabled := value) == repos[Last(ids)];
      assert repos[Last(ids) := repos[Last(ids)]] == repos;
      assert objs[h].(repos := repos) == objs[h];
      assert SetFlag(objs, h, Last(ids), value) == objs;
    }
  }

  /** A batch that meets an unknown id writes no file. Memory runs ahead of the disk exactly when
      some id before the unknown one had the other flag. */
  lemma FailedBatch(st: State, ids: seq<string>, value: bool, order: seq<nat>)
    requires Good(st) && exists id :: id in ids && id !in st.idx
    ensures var (s, ok) := EnableMany(st, ids, value, order);
      && !ok && s.disk == st.disk && s.idx == st.idx && Sound(s)
      && (Coherent(s) <==>
            forall id | id in KnownPrefix(st.objs, st.idx, ids) :: FlagOf(st.objs, st.idx[id], id) == value)
  {
    var p := KnownPrefix(st.objs, st.idx, ids);
    var s := EnableMany(st, ids, value, order).0;
    SetFlagsKeepsFiles(st.objs, st.idx, ids, value);
    FlagsOfKnownPrefix(st.objs, st.idx, ids, value);
    forall id | id in s.idx
      ensures Known(s.objs, s.idx, id)
      ensures s.objs[s.idx[id]].repos.Keys == st.objs[st.idx[id]].repos.Keys
    {
      KnownInSameFiles(st.objs, s.objs, st.idx, id);
    }
    if forall id | id in p :: FlagOf(st.objs, st.idx[id], id) == value {
      SettingSetFlags(st.objs, st.idx, p, value);
      assert s == st;
    } else {
      var id :| id in p && FlagOf(st.objs, st.idx[id], id) != value;
      MemoryAhead(st, s, p, value, id);
    }
  }

  lemma MemoryAhead(st: State, s: State, p: seq<string>, value: bool, id: string)
    requires Good(st) && Sound(s) && s.disk == st.disk && s.idx == st.idx
    requires SetFlags(st.objs, st.idx, p, value) == (s.objs, true)
    requires id in p && id in st.idx && FlagOf(st.objs, st.idx[id], id) != value
    ensures !Coherent(s)
  {
    var h := st.idx[id];
    SetFlagsKeepsFiles(st.objs, st.idx, p, value);
    SetFlagsEffect(st.objs, st.idx, p, value, h, id);
    assert OnDisk(st.disk, st.objs[h]);
    assert s.objs[h].repos[id] != st.objs[h].repos[id];
    assert !OnDisk(s.disk, s.objs[h]);
  }

  function OneRepoState(r: Repo): State {
    State([FileObj(r.source, map[r.id := r])], map[r.id := 0], map[r.source := Overlay(map[], Writes(map[r.id := r]))])
  }

  lemma OneRepoIsGood(r: Repo)
    requires r.group == r.id && r.name != ""
    ensures Good(OneRepoState(r))
  {
    var repos := map[r.id := r];
    assert WellKeyed(repos);
    NewFileRoundTrip(repos, r.source);
    assert Sourced(repos, r.source) == repos;
  }

  /** One repository "a" in one file: enabling "a" and an unknown "b" fails, and leaves "a" enabled in
      memory and disabled on disk. */
  lemma FailedBatchRunsAhead()
    ensures var st := OneRepoState(Repo("a", "a", "A", false, false, None, None, None, Path("d", "a.repo")));
      var (s, ok) := EnableMany(st, ["a", "b"], true, []);
      Good(st) && !ok && s.disk == st.disk && Sound(s) && !Coherent(s)
  {
    var st := OneRepoState(Repo("a", "a", "A", false, false, None, None, None, Path("d", "a.repo")));
    OneRepoIsGood(st.objs[0].repos["a"]);
    UnknownSecond(st, "a", "b", true, []);
    assert "b" in ["a", "b"] && "b" !in st.idx;
    FailedBatch(st, ["a", "b"], true, []);
    assert "a" in KnownPrefix(st.objs, st.idx, ["a", "b"]);
  }

  /** A batch of a known and an unknown id changes the flag of the first, in memory. */
  lemma UnknownSecond(st: State, a: string, unknown: string, value: bool, order: seq<nat>)
    requires Known(st.objs, st.idx, a) && unknown !in st.idx
    ensures EnableMany(st, [a, unknown], value, order) == (st.(objs := SetFlag(st.objs, st.idx[a], a, value)), false)
    ensures a in KnownPrefix(st.objs, st.idx, [a, unknown])
  {
    assert Front([a, unknown]) == [a] && Last([a, unknown]) == unknown && Front([a]) == [] && Last([a]) == a;
    assert SetFlags(st.objs, st.idx, [a], value) == (SetFlag(st.objs, st.idx[a], a, value), true);
    assert KnownPrefix(st.objs, st.idx, [a]) == [a];
  }

  /** The flags a failed batch leaves in memory are no passing matter: the next call that saves their
      file, for whatever other id, puts them on disk. */
  lemma FailedBatchIsSavedLater(st: State, a: string, b: string, unknown: string, value: bool, flag: bool, order: seq<nat>)
    requires Good(st) && a in st.idx && b in st.idx && a != b && st.idx[a] == st.idx[b] && unknown !in st.idx
    requires FlagOf(st.objs, st.idx[a], a) != value
    ensures var (s, ok) := EnableMany(st, [a, unknown], value, order);
      var (t, saved) := EnableOne(s, b, flag);
      && !ok && s.disk == st.disk && saved && t.idx == st.idx && Known(t.objs, t.idx, a)
      && OnDisk(st.disk, st.objs[st.idx[a]]) && FlagOf(st.objs, st.idx[a], a) == !value
      && OnDisk(t.disk, t.objs[t.idx[a]]) && FlagOf(t.objs, t.idx[a], a) == value
  {
    FailedPair(st, a, unknown, value, order);
    var s := EnableMany(st, [a, unknown], value, order).0;
    assert OnDisk(st.disk, st.objs[st.idx[a]]);
    EnableOneKeepsTracked(s, b, flag);
    OtherFlagStays(s, a, b, flag);
  }

  lemma FailedPair(st: State, a: string, unknown: string, value: bool, order: seq<nat>)
    requires Good(st) && a in st.idx && unknown !in st.idx
    ensures var (s, ok) := EnableMany(st, [a, unknown], value, order);
      && !ok && s.disk == st.disk && s.idx == st.idx && Tracked(s)
      && Known(s.objs, s.idx, a) && FlagOf(s.objs, s.idx[a], a) == value
  {
    assert Known(st.objs, st.idx, a);
    UnknownSecond(st, a, unknown, value, order);
    OneFlagInMemory(st, a, value);
    TwinMeansTracked(st.(objs := SetFlag(st.objs, st.idx[a], a, value)), st);
  }

  lemma OneFlagInMemory(st: State, a: string, value: bool)
    requires Known(st.objs, st.idx, a)
    ensures var s := st.(objs := SetFlag(st.objs, st.idx[a], a, value));
      Alike(st, s) && Known(s.objs, s.idx, a) && FlagOf(s.objs, s.idx[a], a) == value
  {
    OneFlagDiffers(st.objs, st.idx[a], a, value);
  }

  lemma OtherFlagStays(s: State, a: string, b: string, flag: bool)
    requires a != b && Known(s.objs, s.idx, a) && Known(s.objs, s.idx, b)
    ensures var (t, saved) := EnableOne(s, b, flag);
      saved && t.idx == s.idx && Known(t.objs, t.idx, a) && FlagOf(t.objs, t.idx[a], a) == FlagOf(s.objs, s.idx[a], a)
  {
  }

  // ------------------------------------------- two objects for one path

  predicate PathIndexed(st: State, p: Path) {
    exists id :: id in st.idx && st.idx[id] < |st.objs| && st.objs[st.idx[id]].path == p
  }

  lemma InstallKeepsSound(st: State, base: string, src: Path)
    requires Sound(st)
    ensures Sound(Install(st, base, src).0)
    ensures forall id | id in st.idx ::
      var s := Install(st, base, src).0;
      id in s.idx && s.idx[id] == st.idx[id] && Known(st.objs, st.idx, id) && s.objs[s.idx[id]] == st.objs[st.idx[id]]
    ensures forall id :: id in Install(st, base, src).0.idx && id !in st.idx ==>
      var s := Install(st, base, src).0; s.idx[id] == |st.objs| && s.objs[s.idx[id]].path == Path(base, src.file)
  {
  }

  /** Loading a file makes a second object for one path exactly when the path is loaded already and
      its file has gained an id since that is not indexed. */
  lemma SecondObjectIff(st: State, base: string, src: Path)
    requires Sound(st) && OneObjectPerPath(st) && Install(st, base, src).1
    ensures var s, dest := Install(st, base, src).0, Path(base, src.file);
      && Sound(s)
      && (OneObjectPerPath(s) <==> (!PathIndexed(st, dest) || Load(s.disk, dest).Keys <= st.idx.Keys))
  {
    var s, dest := Install(st, base, src).0, Path(base, src.file);
    InstallKeepsSound(st, base, src);
    ParseIsWellKeyed(Load(s.disk, dest), dest);
    if PathIndexed(st, dest) && !(Load(s.disk, dest).Keys <= st.idx.Keys) {
      var x :| x in st.idx && st.idx[x] < |st.objs| && st.objs[st.idx[x]].path == dest;
      var y :| y in Load(s.disk, dest) && y !in st.idx;
      assert y in s.idx && s.idx[y] != s.idx[x];
    }
  }

  lemma {:induction false} LoadDirKeepsSound(st: State, base: string, files: seq<string>)
    requires Sound(st)
    ensures Sound(LoadDir(st, base, base, files).0)
  {
    if files != [] {
      LoadDirKeepsSound(st, base, Front(files));
      InstallKeepsSound(LoadDir(st, base, base, Front(files)).0, base, Path(base, Last(files)));
    }
  }

  /** An install that fails over a malformed file leaves that file in the base directory, and from then
      on every load of the directory fails that comes across it. */
  lemma MalformedFileStays(st: State, base: string, src: Path, files: seq<string>)
    requires src.dir != base && src in st.disk && Path(base, src.file) !in st.disk
    requires Parse(st.disk[src], Path(base, src.file)).None? && src.file in files
    ensures var (s, ok) := Install(st, base, src);
      && !ok && s.objs == st.objs && s.idx == st.idx
      && Path(base, src.file) in s.disk && s.disk[Path(base, src.file)] == st.disk[src]
      && !LoadDir(s, base, base, files).1
  {
    var (s, ok) := Install(st, base, src);
    BadFileStopsLoading(s, base, files, src.file);
  }

  lemma {:induction false} BadFileStopsLoading(st: State, base: string, files: seq<string>, f: string)
    requires f in files && Parse(Load(st.disk, Path(base, f)), Path(base, f)).None?
    ensures LoadDir(st, base, base, files).0.disk == st.disk && !LoadDir(st, base, base, files).1
  {
    LoadKeepsDisk(st, base, Front(files));
    if f in Front(files) {
      BadFileStopsLoading(st, base, Front(files), f);
    }
  }

  lemma {:induction false} LoadKeepsDisk(st: State, base: string, files: seq<string>)
    ensures LoadDir(st, base, base, files).0.disk == st.disk
  {
    if files != [] {
      LoadKeepsDisk(st, base, Front(files));
    }
  }

  /** Why one object per path matters. Let two ids be indexed to two objects of one path, the second
      holding a stale copy of the first id. Enabling the first and then saving through the second
      puts the stale flag back on disk. */
  lemma SecondObjectClobbers(st: State, a: string, b: string, value: bool)
    requires a != b && Known(st.objs, st.idx, a) && Known(st.objs, st.idx, b)
    requires st.idx[a] != st.idx[b] && st.objs[st.idx[a]].path == st.objs[st.idx[b]].path
    requires a in st.objs[st.idx[b]].repos && FlagOf(st.objs, st.idx[b], a) != value
    ensures var s := EnableOne(EnableOne(st, a, value).0, b, value).0;
      && s.idx == st.idx && Known(s.objs, s.idx, a)
      && FlagOf(s.objs, s.idx[a], a) == value
      && !OnDisk(s.disk, s.objs[s.idx[a]])
  {
    var ha, hb := st.idx[a], st.idx[b];
    var path := st.objs[ha].path;
    var s1 := EnableOne(st, a, value).0;
    var s := EnableOne(s1, b, value).0;
    OneFlagDiffers(st.objs, ha, a, value);
    OneFlagDiffers(s1.objs, hb, b, value);
    var stale := s.objs[hb].repos[a];
    assert stale == st.objs[hb].repos[a];
    SavedGroup(Load(s1.disk, path), s.objs[hb].repos, a);
    Lookup(GetGroup(Load(s1.disk, path), a), stale, Enabled);
    BooleanRoundTrip(stale.enabled);
    if OnDisk(s.disk, s.objs[ha]) {
      assert ReadFlag(s.disk[path][a], Enabled) == Ok(stale.enabled);
      ParsedFlag(s.disk[path], path, a);
    }
  }
}
