/** What outlives a failed batch: memory that agrees with the index and the disk in everything but
    flags. */
module RepoTracking {
  import opened Wrappers
  import opened Sequences
  import opened KeyFiles
  import opened RepoFiles
  import opened RepoIndex
  import opened RepoCoherence

  predicate OnDiskUpToFlags(disk: Disk, obj: FileObj) {
    && obj.path in disk && Parse(disk[obj.path], obj.path).Some?
    && SameButFlags(Parse(disk[obj.path], obj.path).value, obj.repos)
  }

  predicate Tracked(st: State) {
    && Sound(st) && OneObjectPerPath(st)
    && forall id | id in st.idx :: OnDiskUpToFlags(st.disk, st.objs[st.idx[id]])
  }

  /** A tracked state is good exactly when no flag in memory differs from the disk. */
  lemma GoodIff(st: State)
    requires Tracked(st)
    ensures Good(st) <==> forall id, k | id in st.idx && k in st.objs[st.idx[id]].repos ::
              k in Load(st.disk, st.objs[st.idx[id]].path)
              && ReadFlag(Load(st.disk, st.objs[st.idx[id]].path)[k], Enabled) == Ok(FlagOf(st.objs, st.idx[id], k))
  {
    forall id | id in st.idx
      ensures OnDisk(st.disk, st.objs[st.idx[id]]) <==> FlagsOnDisk(st.disk, st.objs[st.idx[id]])
    {
      assert OnDiskUpToFlags(st.disk, st.objs[st.idx[id]]);
      OnDiskIff(st.disk, st.objs[st.idx[id]]);
    }
    if Good(st) {
      assert forall id | id in st.idx :: OnDisk(st.disk, st.objs[st.idx[id]]);
    }
    assert (forall id | id in st.idx :: FlagsOnDisk(st.disk, st.objs[st.idx[id]])) <==> Good(st);
  }

  predicate FlagsOnDisk(disk: Disk, obj: FileObj) {
    forall k | k in obj.repos ::
      k in Load(disk, obj.path) && ReadFlag(Load(disk, obj.path)[k], Enabled) == Ok(obj.repos[k].enabled)
  }

  lemma OnDiskIff(disk: Disk, obj: FileObj)
    requires OnDiskUpToFlags(disk, obj)
    ensures OnDisk(disk, obj) <==> FlagsOnDisk(disk, obj)
  {
    var c := disk[obj.path];
    var parsed := Parse(c, obj.path).value;
    ParseIsWellKeyed(c, obj.path);
    forall k | k in obj.repos
      ensures k in c && ReadFlag(c[k], Enabled) == Ok(parsed[k].enabled)
    {
      ParsedFlag(c, obj.path, k);
    }
    if FlagsOnDisk(disk, obj) {
      forall k | k in obj.repos
        ensures parsed[k] == obj.repos[k]
      {
        assert obj.repos[k] == parsed[k].(enabled := obj.repos[k].enabled);
      }
      assert parsed == obj.repos;
    }
  }

  // ------------------------------------------------------ the saved twin

  /** The same but for the flags in memory. */
  predicate Alike(g: State, st: State) {
    g.idx == st.idx && g.disk == st.disk && SameFiles(g.objs, st.objs)
  }

  /** `g` is a good state, whose flags are those on disk. */
  predicate UpToFlags(st: State, g: State) {
    Good(g) && Alike(g, st)
  }

  predicate Indexed(st: State, h: nat) {
    exists id :: id in st.idx && st.idx[id] == h
  }

  ghost function Reparsed(st: State, h: nat): FileObj
    requires Tracked(st) && h < |st.objs|
  {
    if Indexed(st, h) then
      var id :| id in st.idx && st.idx[id] == h;
      assert OnDiskUpToFlags(st.disk, st.objs[st.idx[id]]);
      FileObj(st.objs[h].path, Parse(st.disk[st.objs[h].path], st.objs[h].path).value)
    else st.objs[h]
  }

  ghost function Twin(st: State): State
    requires Tracked(st)
  {
    st.(objs := seq(|st.objs|, h requires 0 <= h < |st.objs| => Reparsed(st, h)))
  }

  lemma ReparsedIsAlike(st: State, h: nat)
    requires Tracked(st) && h < |st.objs|
    ensures Reparsed(st, h).path == st.objs[h].path && SameButFlags(Reparsed(st, h).repos, st.objs[h].repos)
    ensures Indexed(st, h) ==> OnDisk(st.disk, Reparsed(st, h))
  {
    if id :| id in st.idx && st.idx[id] == h {
      assert OnDiskUpToFlags(st.disk, st.objs[st.idx[id]]);
    }
  }

  lemma TwinIsGood(st: State)
    requires Tracked(st)
    ensures UpToFlags(st, Twin(st))
  {
    TwinIsAlike(st);
    TwinAgrees(st);
  }

  lemma TwinIsAlike(st: State)
    requires Tracked(st)
    ensures Alike(Twin(st), st)
  {
    forall h | 0 <= h < |st.objs|
      ensures Twin(st).objs[h].path == st.objs[h].path && SameButFlags(Twin(st).objs[h].repos, st.objs[h].repos)
    {
      ReparsedIsAlike(st, h);
    }
  }

  lemma TwinAgrees(st: State)
    requires Tracked(st)
    ensures Good(Twin(st))
  {
    var g := Twin(st);
    forall id | id in st.idx
      ensures Known(g.objs, g.idx, id) && OnDisk(g.disk, g.objs[g.idx[id]])
      ensures g.objs[g.idx[id]].repos.Keys == st.objs[st.idx[id]].repos.Keys
      ensures g.objs[g.idx[id]].path == st.objs[st.idx[id]].path
    {
      TwinAt(st, id);
    }
  }

  lemma TwinAt(st: State, id: string)
    requires Tracked(st) && id in st.idx
    ensures var g := Twin(st);
      && Known(g.objs, g.idx, id) && OnDisk(g.disk, g.objs[g.idx[id]])
      && g.objs[g.idx[id]].repos.Keys == st.objs[st.idx[id]].repos.Keys
      && g.objs[g.idx[id]].path == st.objs[st.idx[id]].path
  {
    assert Known(st.objs, st.idx, id);
    assert Indexed(st, st.idx[id]);
    ReparsedIsAlike(st, st.idx[id]);
  }

  lemma TwinMeansTracked(st: State, g: State)
    requires UpToFlags(st, g)
    ensures Tracked(st)
  {
    forall id | id in st.idx
      ensures Known(st.objs, st.idx, id) && OnDiskUpToFlags(st.disk, st.objs[st.idx[id]])
      ensures st.objs[st.idx[id]].repos.Keys == g.objs[g.idx[id]].repos.Keys
      ensures st.objs[st.idx[id]].path == g.objs[g.idx[id]].path
    {
      assert OnDisk(g.disk, g.objs[g.idx[id]]);
    }
  }

  // ---------------------------------------------------- what keeps track

  lemma SameFilesTransitive(a: seq<FileObj>, b: seq<FileObj>, c: seq<FileObj>)
    requires SameFiles(a, b) && SameFiles(b, c)
    ensures SameFiles(a, c)
  {
    forall h | 0 <= h < |a|
      ensures a[h].path == c[h].path && SameButFlags(a[h].repos, c[h].repos)
    {
      assert SameButFlags(a[h].repos, b[h].repos) && SameButFlags(b[h].repos, c[h].repos);
    }
  }

  lemma InstallAlike(g: State, st: State, base: string, src: Path)
    requires Alike(g, st)
    ensures Alike(Install(g, base, src).0, Install(st, base, src).0)
    ensures Install(st, base, src).1 == Install(g, base, src).1
  {
    assert |g.objs| == |st.objs|;
  }

  lemma InstallKeepsTwin(st: State, g: State, base: string, src: Path)
    requires UpToFlags(st, g)
    ensures UpToFlags(Install(st, base, src).0, Install(g, base, src).0)
    ensures Install(st, base, src).1 == Install(g, base, src).1
  {
    InstallAlike(g, st, base, src);
    InstallKeepsGood(g, base, src);
  }

  lemma {:induction false} LoadDirKeepsTwin(st: State, g: State, base: string, dir: string, files: seq<string>)
    requires UpToFlags(st, g)
    ensures UpToFlags(LoadDir(st, base, dir, files).0, LoadDir(g, base, dir, files).0)
    ensures LoadDir(st, base, dir, files).1 == LoadDir(g, base, dir, files).1
  {
    if files != [] {
      LoadDirKeepsTwin(st, g, base, dir, Front(files));
      InstallKeepsTwin(LoadDir(st, base, dir, Front(files)).0, LoadDir(g, base, dir, Front(files)).0, base, Path(dir, Last(files)));
    }
  }

  lemma LoadDirKeepsTracked(st: State, base: string, dir: string, files: seq<string>)
    requires Tracked(st)
    ensures Tracked(LoadDir(st, base, dir, files).0)
  {
    TwinIsGood(st);
    LoadDirKeepsTwin(st, Twin(st), base, dir, files);
    TwinMeansTracked(LoadDir(st, base, dir, files).0, LoadDir(Twin(st), base, dir, files).0);
  }

  lemma InstallKeepsTracked(st: State, base: string, src: Path)
    requires Tracked(st)
    ensures Tracked(Install(st, base, src).0)
  {
    TwinIsGood(st);
    InstallKeepsTwin(st, Twin(st), base, src);
    TwinMeansTracked(Install(st, base, src).0, Install(Twin(st), base, src).0);
  }

  lemma ReplacedIsAlike(a: seq<FileObj>, b: seq<FileObj>, h: nat)
    requires SameFiles(a, b) && h < |b|
    ensures b[h].path == a[h].path && SameButFlags(a[h].repos, b[h].repos)
    ensures SameFiles(a[h := b[h]], b)
  {
  }

  /** Saving an indexed object leaves memory and disk agreeing on it, whatever flags it had. */
  lemma OneSaveKeepsTwin(g: State, objs: seq<FileObj>, id: string, s: State)
    requires Good(g) && SameFiles(g.objs, objs) && id in g.idx && g.idx[id] < |objs|
    requires s == State(g.objs[g.idx[id] := objs[g.idx[id]]], g.idx, Save(g.disk, objs[g.idx[id]]))
    ensures Good(s) && SameFiles(s.objs, objs)
  {
    ReplacedIsAlike(g.objs, objs, g.idx[id]);
    SavedObjectKeepsGood(g, id, objs[g.idx[id]], s);
  }

  lemma IndexedInRange(g: State, objs: seq<FileObj>, order: seq<nat>)
    requires Good(g) && SameFiles(g.objs, objs) && forall h | h in order :: Indexed(g, h)
    ensures InRange(objs, order)
  {
    forall h | h in order
      ensures h < |objs|
    {
      var id :| id in g.idx && g.idx[id] == h;
      assert Known(g.objs, g.idx, id);
    }
  }

  /** The twin after objects have been saved in turn. */
  ghost function TwinSaved(g: State, objs: seq<FileObj>, order: seq<nat>): (s: State)
    requires InRange(objs, order) && SameFiles(g.objs, objs)
    ensures s.idx == g.idx && SameFiles(s.objs, objs) && s.disk == SaveAll(g.disk, objs, order)
    ensures forall h | h in order :: s.objs[h] == objs[h]
  {
    if order == [] then g
    else
      var r, h := TwinSaved(g, objs, Front(order)), Last(order);
      ReplacedIsAlike(r.objs, objs, h);
      State(r.objs[h := objs[h]], r.idx, Save(r.disk, objs[h]))
  }

  lemma {:induction false} SavesKeepTwin(g: State, objs: seq<FileObj>, order: seq<nat>)
    requires Good(g) && SameFiles(g.objs, objs) && InRange(objs, order) && forall h | h in order :: Indexed(g, h)
    ensures Good(TwinSaved(g, objs, order))
  {
    if order != [] {
      SavesKeepTwin(g, objs, Front(order));
      var h := Last(order);
      assert Indexed(g, h);
      var id :| id in g.idx && g.idx[id] == h;
      OneSaveKeepsTwin(TwinSaved(g, objs, Front(order)), objs, id, TwinSaved(g, objs, order));
    }
  }

  /** A single call keeps track, and leaves the whole file it saves on disk as it is in memory. */
  lemma EnableOneKeepsTracked(st: State, id: string, value: bool)
    requires Tracked(st)
    ensures Tracked(EnableOne(st, id, value).0)
    ensures id in st.idx ==>
      var s := EnableOne(st, id, value).0;
      s.idx == st.idx && Known(s.objs, s.idx, id) && OnDisk(s.disk, s.objs[s.idx[id]])
  {
    if id in st.idx {
      assert Known(st.objs, st.idx, id);
      TwinIsGood(st);
      EnableOneSaves(st, id, value);
      FlaggedAndSaved(st, Twin(st), id, EnableOne(st, id, value).0);
    }
  }

  lemma EnableOneSaves(st: State, id: string, value: bool)
    requires Known(st.objs, st.idx, id)
    ensures var s := EnableOne(st, id, value).0;
      && SameFiles(st.objs, s.objs) && s.idx == st.idx && s.idx[id] < |s.objs|
      && s.disk == Save(st.disk, s.objs[s.idx[id]])
  {
    OneFlagDiffers(st.objs, st.idx[id], id, value);
  }

  lemma FlaggedAndSaved(st: State, g: State, id: string, s: State)
    requires UpToFlags(st, g) && Known(st.objs, st.idx, id) && SameFiles(st.objs, s.objs)
    requires s.idx == st.idx && s.disk == Save(st.disk, s.objs[s.idx[id]])
    ensures Tracked(s) && Known(s.objs, s.idx, id) && OnDisk(s.disk, s.objs[s.idx[id]])
  {
    var h := st.idx[id];
    SameFilesTransitive(g.objs, st.objs, s.objs);
    var t := State(g.objs[h := s.objs[h]], g.idx, Save(g.disk, s.objs[h]));
    OneSaveKeepsTwin(g, s.objs, id, t);
    TwinMeansTracked(s, t);
    assert OnDisk(t.disk, t.objs[t.idx[id]]);
  }

  /** So does a batch, failed or not; one that succeeds leaves all its files on disk as they are in
      memory, earlier changes of flags included. */
  lemma EnableManyKeepsTracked(st: State, ids: seq<string>, value: bool, order: seq<nat>)
    requires Tracked(st) && SaveOrder(order, st.idx, ids)
    ensures var (s, ok) := EnableMany(st, ids, value, order);
      && Tracked(s) && s.idx == st.idx
      && (ok <==> forall id | id in ids :: id in st.idx)
      && (ok ==> forall h | h in order :: h < |s.objs| && OnDisk(s.disk, s.objs[h]))
  {
    var (s, ok) := EnableMany(st, ids, value, order);
    var objs := SetFlags(st.objs, st.idx, ids, value).0;
    TwinIsGood(st);
    SetFlagsKeepsFiles(st.objs, st.idx, ids, value);
    SameFilesTransitive(Twin(st).objs, st.objs, objs);
    forall h | h in order
      ensures Indexed(Twin(st), h)
    {
      TouchedIsIndexed(st, ids, h);
    }
    IndexedInRange(Twin(st), objs, order);
    SavesKeepTwin(Twin(st), objs, order);
    if ok {
      var g := TwinSaved(Twin(st), objs, order);
      TwinMeansTracked(s, g);
      forall h | h in order
        ensures h < |s.objs| && OnDisk(s.disk, s.objs[h])
      {
        var id :| id in g.idx && g.idx[id] == h;
        assert OnDisk(g.disk, g.objs[g.idx[id]]);
      }
    } else {
      TwinMeansTracked(s, Twin(st));
    }
  }
}
