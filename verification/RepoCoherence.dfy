/** Index, memory and disk agree: what every run of the repository manager keeps, and what breaks it. */
module RepoCoherence {
  import opened Wrappers
  import opened Sequences
  import opened KeyFiles
  import opened RepoFiles
  import opened RepoIndex

  // --------------------------------------------------------- invariants

  /** Every indexed id is held by its file, and every id of an indexed file is indexed. */
  predicate Sound(st: State) {
    && (forall id | id in st.idx :: Known(st.objs, st.idx, id))
    && (forall id, other | id in st.idx && other in st.objs[st.idx[id]].repos :: other in st.idx)
  }

  predicate OnDisk(disk: Disk, obj: FileObj) {
    obj.path in disk && Parse(disk[obj.path], obj.path) == Some(obj.repos)
  }

  /** Parsing the file of an indexed id again gives what is in memory. */
  predicate Coherent(st: State)
    requires Sound(st)
  {
    forall id | id in st.idx :: OnDisk(st.disk, st.objs[st.idx[id]])
  }

  /** No two indexed file objects were loaded from one path. */
  predicate OneObjectPerPath(st: State)
    requires Sound(st)
  {
    forall a, b | a in st.idx && b in st.idx && st.objs[st.idx[a]].path == st.objs[st.idx[b]].path ::
      st.idx[a] == st.idx[b]
  }

  predicate Good(st: State) {
    Sound(st) && Coherent(st) && OneObjectPerPath(st)
  }

  // ------------------------------------------------------------ install

  lemma AddNewPathKeepsGood(st: State, disk: Disk, obj: FileObj, s: State)
    requires Good(st)
    requires forall p | p in st.disk :: p in disk && disk[p] == st.disk[p]
    requires OnDisk(disk, obj)
    requires forall k | k in st.idx :: st.objs[st.idx[k]].path != obj.path
    requires s == State(st.objs + [obj], EmplaceAll(st.idx, obj.repos.Keys, |st.objs|), disk)
    ensures Good(s)
  {
    forall id | id in s.idx
      ensures if id in st.idx then s.objs[s.idx[id]] == st.objs[st.idx[id]] else s.objs[s.idx[id]] == obj
      ensures OnDisk(s.disk, s.objs[s.idx[id]])
      ensures Known(s.objs, s.idx, id)
    {
      if id in st.idx { assert OnDisk(st.disk, st.objs[st.idx[id]]); }
    }
  }

  lemma SameIndexKeepsGood(st: State, s: State)
    requires Good(st) && s.idx == st.idx && st.objs <= s.objs
    requires forall p | p in st.disk :: p in s.disk && s.disk[p] == st.disk[p]
    ensures Good(s)
  {
    forall id | id in st.idx
      ensures s.objs[s.idx[id]] == st.objs[st.idx[id]]
      ensures OnDisk(s.disk, s.objs[s.idx[id]])
    {
      assert Known(st.objs, st.idx, id);
      assert OnDisk(st.disk, st.objs[st.idx[id]]);
    }
  }

  /** In a good state, loading a path once more finds exactly the ids that are indexed already. */
  lemma LoadedAgainAddsNothing(st: State, disk: Disk, obj: FileObj, k: string)
    requires Good(st)
    requires forall p | p in st.disk :: p in disk && disk[p] == st.disk[p]
    requires OnDisk(disk, obj)
    requires k in st.idx && st.objs[st.idx[k]].path == obj.path
    ensures obj == st.objs[st.idx[k]]
    ensures obj.repos.Keys <= st.idx.Keys
  {
    var loaded := st.objs[st.idx[k]];
    assert OnDisk(st.disk, loaded);
    assert Some(obj.repos) == Parse(disk[obj.path], obj.path) == Some(loaded.repos);
    forall id | id in obj.repos
      ensures id in st.idx
    {
      assert id in st.objs[st.idx[k]].repos;
    }
  }

  lemma EmplaceNothing(idx: map<string, nat>, ids: set<string>, h: nat)
    requires ids <= idx.Keys
    ensures EmplaceAll(idx, ids, h) == idx
  {
  }

  lemma AddFileKeepsGood(st: State, disk: Disk, obj: FileObj, s: State)
    requires Good(st)
    requires forall p | p in st.disk :: p in disk && disk[p] == st.disk[p]
    requires OnDisk(disk, obj)
    requires s == State(st.objs + [obj], EmplaceAll(st.idx, obj.repos.Keys, |st.objs|), disk)
    ensures Good(s)
  {
    if k :| k in st.idx && st.objs[st.idx[k]].path == obj.path {
      LoadedAgainAddsNothing(st, disk, obj, k);
      EmplaceNothing(st.idx, obj.repos.Keys, |st.objs|);
      SameIndexKeepsGood(st, s);
    } else {
      AddNewPathKeepsGood(st, disk, obj, s);
    }
  }

  lemma EmptyFileAddsNothing(st: State, disk: Disk, obj: FileObj)
    requires obj.path !in disk && Parse(Load(disk, obj.path), obj.path) == Some(obj.repos)
    ensures EmplaceAll(st.idx, obj.repos.Keys, |st.objs|) == st.idx
  {
    ParseIsWellKeyed(Load(disk, obj.path), obj.path);
    EmplaceNothing(st.idx, obj.repos.Keys, |st.objs|);
  }

  lemma LoadedKeepsGood(st: State, disk: Disk, obj: FileObj, s: State)
    requires Good(st)
    requires forall p | p in st.disk :: p in disk && disk[p] == st.disk[p]
    requires Parse(Load(disk, obj.path), obj.path) == Some(obj.repos)
    requires s == State(st.objs + [obj], EmplaceAll(st.idx, obj.repos.Keys, |st.objs|), disk)
    ensures Good(s)
  {
    if obj.path in disk {
      AddFileKeepsGood(st, disk, obj, s);
    } else {
      EmptyFileAddsNothing(st, disk, obj);
      SameIndexKeepsGood(st, s);
    }
  }

  lemma InstallKeepsGood(st: State, base: string, src: Path)
    requires Good(st)
    ensures Good(Install(st, base, src).0)
  {
    var dest := Path(base, src.file);
    var (s, ok) := Install(st, base, src);
    assert forall p | p in st.disk :: p in s.disk && s.disk[p] == st.disk[p];
    if ok {
      LoadedKeepsGood(st, s.disk, FileObj(dest, Parse(Load(s.disk, dest), dest).value), s);
    } else {
      SameIndexKeepsGood(st, s);
    }
  }

  lemma {:induction false} LoadDirKeepsGood(st: State, base: string, dir: string, files: seq<string>)
    requires Good(st)
    ensures Good(LoadDir(st, base, dir, files).0)
  {
    if files != [] {
      LoadDirKeepsGood(st, base, dir, Front(files));
      InstallKeepsGood(LoadDir(st, base, dir, Front(files)).0, base, Path(dir, Last(files)));
    }
  }

  // ------------------------------------------------------------- enable

  lemma FlagSavedIsOnDisk(disk: Disk, before: FileObj, after: FileObj)
    requires OnDisk(disk, before)
    requires after.path == before.path && SameButFlags(before.repos, after.repos)
    ensures OnDisk(Save(disk, after), after)
  {
    SaveFlags(disk[before.path], before.path, before.repos, after.repos);
  }

  lemma OtherFileStaysOnDisk(disk: Disk, saved: FileObj, obj: FileObj)
    requires OnDisk(disk, obj) && saved.path != obj.path
    ensures OnDisk(Save(disk, saved), obj)
  {
    SaveElsewhere(disk, saved, obj.path);
  }

  lemma SavedObjectAt(st: State, h: nat, after: FileObj, s: State, k: string)
    requires Good(st) && h < |st.objs| && k in st.idx
    requires st.idx[k] != h ==> st.objs[st.idx[k]].path != st.objs[h].path
    requires OnDisk(st.disk, st.objs[st.idx[k]])
    requires after.path == st.objs[h].path && SameButFlags(st.objs[h].repos, after.repos)
    requires s == State(st.objs[h := after], st.idx, Save(st.disk, after))
    ensures Known(s.objs, s.idx, k) && OnDisk(s.disk, s.objs[s.idx[k]])
    ensures s.objs[s.idx[k]].repos.Keys == st.objs[st.idx[k]].repos.Keys
    ensures s.objs[s.idx[k]].path == st.objs[st.idx[k]].path
  {
    assert Known(st.objs, st.idx, k);
    if st.idx[k] == h {
      FlagSavedIsOnDisk(st.disk, st.objs[h], after);
    } else {
      OtherFileStaysOnDisk(st.disk, after, st.objs[st.idx[k]]);
    }
  }

  /** Saving an indexed file object, of which nothing but flags has changed, keeps agreement. */
  lemma SavedObjectKeepsGood(st: State, id: string, after: FileObj, s: State)
    requires Good(st) && id in st.idx && st.idx[id] < |st.objs|
    requires after.path == st.objs[st.idx[id]].path && SameButFlags(st.objs[st.idx[id]].repos, after.repos)
    requires s == State(st.objs[st.idx[id] := after], st.idx, Save(st.disk, after))
    ensures Good(s)
  {
    forall k | k in s.idx
      ensures Known(s.objs, s.idx, k) && OnDisk(s.disk, s.objs[s.idx[k]])
      ensures s.objs[s.idx[k]].repos.Keys == st.objs[st.idx[k]].repos.Keys
      ensures s.objs[s.idx[k]].path == st.objs[st.idx[k]].path
    {
      assert OnDisk(st.disk, st.objs[st.idx[k]]);
      SavedObjectAt(st, st.idx[id], after, s, k);
    }
  }

  lemma EnableOneKeepsGood(st: State, id: string, value: bool)
    requires Good(st)
    ensures Good(EnableOne(st, id, value).0)
  {
    var (s, ok) := EnableOne(st, id, value);
    if ok {
      OneFlagDiffers(st.objs, st.idx[id], id, value);
      assert s.objs == st.objs[st.idx[id] := s.objs[st.idx[id]]];
      SavedObjectKeepsGood(st, id, s.objs[st.idx[id]], s);
    }
  }

  lemma {:induction false} EnableEachKeepsGood(st: State, ids: seq<string>, value: bool)
    requires Good(st)
    ensures Good(EnableEach(st, ids, value).0)
  {
    if ids != [] {
      EnableEachKeepsGood(st, Front(ids), value);
      EnableOneKeepsGood(EnableEach(st, Front(ids), value).0, Last(ids), value);
    }
  }

  // -------------------------------------- the order of saves is immaterial

  predicate InRange(objs: seq<FileObj>, order: seq<nat>) {
    forall h | h in order :: h < |objs|
  }

  predicate PathsApart(objs: seq<FileObj>, order: seq<nat>)
    requires InRange(objs, order)
  {
    forall a, b | a in order && b in order && objs[a].path == objs[b].path :: a == b
  }

  lemma {:induction false} SaveAllMisses(disk: Disk, objs: seq<FileObj>, order: seq<nat>, p: Path)
    requires InRange(objs, order) && forall h | h in order :: objs[h].path != p
    ensures var d := SaveAll(disk, objs, order); (p in d <==> p in disk) && (p in disk ==> d[p] == disk[p])
  {
    if order != [] {
      SaveAllMisses(disk, objs, Front(order), p);
      SaveElsewhere(SaveAll(disk, objs, Front(order)), objs[Last(order)], p);
    }
  }

  /** Each touched file is saved once, over what the disk held before the call. */
  lemma {:induction false} SaveAllHits(disk: Disk, objs: seq<FileObj>, order: seq<nat>, h: nat)
    requires InRange(objs, order) && Distinct(order) && PathsApart(objs, order) && h in order
    ensures var d := SaveAll(disk, objs, order);
            objs[h].path in d && d[objs[h].path] == Save(disk, objs[h])[objs[h].path]
  {
    DistinctFront(order);
    var d := SaveAll(disk, objs, Front(order));
    if Last(order) == h {
      SaveAllMisses(disk, objs, Front(order), objs[h].path);
      assert Load(d, objs[h].path) == Load(disk, objs[h].path);
    } else {
      SaveAllHits(disk, objs, Front(order), h);
      SaveElsewhere(d, objs[Last(order)], objs[h].path);
    }
  }

  lemma SameSavesAt(disk: Disk, objs: seq<FileObj>, o1: seq<nat>, o2: seq<nat>, p: Path)
    requires InRange(objs, o1) && InRange(objs, o2) && Distinct(o1) && Distinct(o2) && PathsApart(objs, o1)
    requires forall h :: h in o1 <==> h in o2
    ensures var a, b := SaveAll(disk, objs, o1), SaveAll(disk, objs, o2);
            (p in a <==> p in b) && (p in a ==> a[p] == b[p])
  {
    if h :| h in o1 && objs[h].path == p {
      SaveAllHits(disk, objs, o1, h);
      SaveAllHits(disk, objs, o2, h);
    } else {
      SaveAllMisses(disk, objs, o1, p);
      SaveAllMisses(disk, objs, o2, p);
    }
  }

  lemma SaveOrderIsImmaterial(disk: Disk, objs: seq<FileObj>, o1: seq<nat>, o2: seq<nat>)
    requires InRange(objs, o1) && InRange(objs, o2) && Distinct(o1) && Distinct(o2) && PathsApart(objs, o1)
    requires forall h :: h in o1 <==> h in o2
    ensures SaveAll(disk, objs, o1) == SaveAll(disk, objs, o2)
  {
    forall p: Path { SameSavesAt(disk, objs, o1, o2, p); }
    assert SaveAll(disk, objs, o1).Keys == SaveAll(disk, objs, o2).Keys;
  }

  lemma TouchedIsIndexed(st: State, ids: seq<string>, h: nat)
    requires h in Touched(st.idx, ids)
    ensures exists id :: id in st.idx && st.idx[id] == h
  {
  }

  lemma TouchedApart(st: State, ids: seq<string>, order: seq<nat>, objs: seq<FileObj>)
    requires Sound(st) && OneObjectPerPath(st) && SaveOrder(order, st.idx, ids) && SameFiles(st.objs, objs)
    ensures InRange(objs, order) && PathsApart(objs, order)
  {
    forall h | h in order
      ensures h < |objs| && exists id :: id in st.idx && st.idx[id] == h
    {
      TouchedIsIndexed(st, ids, h);
    }
  }

  /** In a good state the batch call, in whatever order it saves, does what the single calls do. */
  lemma BatchIsSinglesInAnyOrder(st: State, ids: seq<string>, value: bool, order: seq<nat>)
    requires Good(st) && SaveOrder(order, st.idx, ids)
    requires forall id | id in ids :: id in st.idx
    ensures EnableMany(st, ids, value, order) == EnableEach(st, ids, value)
    ensures EnableMany(st, ids, value, order).1
  {
    BatchIsFoldOfSingles(st, ids, value);
    LastTouchIsSaveOrder(st.idx, ids);
    SetFlagsKeepsFiles(st.objs, st.idx, ids, value);
    var objs := SetFlags(st.objs, st.idx, ids, value).0;
    TouchedApart(st, ids, order, objs);
    TouchedApart(st, ids, LastTouch(st.idx, ids), objs);
    SaveOrderIsImmaterial(st.disk, objs, order, LastTouch(st.idx, ids));
  }
}
