/** A program run that starts over: a fresh manager that loads the base directory finds on disk
    exactly the files, index and flags that an earlier run's manager ended with. */
module RepoRestart {
  import opened Wrappers
  import opened Sequences
  import opened KeyFiles
  import opened RepoFiles
  import opened RepoIndex
  import opened RepoCoherence
  import opened RepoFailures
  import opened RepoReload

  function Fresh(disk: Disk): State {
    State([], map[], disk)
  }

  predicate LoadedFrom(disk: Disk, base: string, file: string, obj: FileObj) {
    obj.path == Path(base, file) && Parse(Load(disk, obj.path), obj.path) == Some(obj.repos)
  }

  /** A fresh manager holds one object per file, in directory order. */
  lemma {:induction false} FreshObjects(disk: Disk, base: string, files: seq<string>)
    requires Loads(disk, base, files)
    ensures var (s, ok) := LoadDir(Fresh(disk), base, base, files);
      && ok && s.disk == disk && |s.objs| == |files|
      && forall k | 0 <= k < |files| :: LoadedFrom(disk, base, files[k], s.objs[k])
  {
    if files != [] {
      FreshObjects(disk, base, Front(files));
    }
  }

  lemma OneMoreFile(disk: Disk, base: string, files: seq<string>)
    requires files != [] && Loads(disk, base, files)
    ensures LoadDir(Fresh(disk), base, base, files).0.idx
         == EmplaceAll(LoadDir(Fresh(disk), base, base, Front(files)).0.idx, FileIds(disk, base, Last(files)), |files| - 1)
  {
    var p := Path(base, Last(files));
    FreshObjects(disk, base, Front(files));
    ParseIsWellKeyed(Load(disk, p), p);
  }

  /** The index depends on nothing but the ids the files hold. */
  lemma {:induction false} SameIdsSameIndex(disk: Disk, other: Disk, base: string, files: seq<string>)
    requires Loads(disk, base, files) && Loads(other, base, files)
    requires forall f | f in files :: FileIds(disk, base, f) == FileIds(other, base, f)
    ensures LoadDir(Fresh(disk), base, base, files).0.idx == LoadDir(Fresh(other), base, base, files).0.idx
  {
    if files != [] {
      SameIdsSameIndex(disk, other, base, Front(files));
      OneMoreFile(disk, base, files);
      OneMoreFile(other, base, files);
      assert FileIds(disk, base, Last(files)) == FileIds(other, base, Last(files));
    }
  }

  /** An object to which none of the ids is indexed is left as it was. */
  lemma {:induction false} UntouchedObject(objs: seq<FileObj>, idx: map<string, nat>, ids: seq<string>, value: bool, h: nat)
    requires SetFlags(objs, idx, ids, value).1 && h < |objs| && h !in Touched(idx, ids)
    ensures h < |SetFlags(objs, idx, ids, value).0| && SetFlags(objs, idx, ids, value).0[h] == objs[h]
  {
    if ids != [] {
      assert forall k | k in Touched(idx, Front(ids)) :: k in Touched(idx, ids);
      UntouchedObject(objs, idx, Front(ids), value, h);
      assert idx[Last(ids)] in Touched(idx, ids);
    }
  }

  /** After a batch each file on disk reads back as its object in memory, touched or not. */
  lemma ReadsBack(m: State, s: State, base: string, files: seq<string>, names: seq<string>, order: seq<nat>, k: nat)
    requires Good(m) && Distinct(files) && |m.objs| == |files| && k < |files|
    requires forall i | 0 <= i < |files| :: LoadedFrom(m.disk, base, files[i], m.objs[i])
    requires SaveOrder(order, m.idx, names) && EnableMany(m, names, true, order) == (s, true)
    ensures k < |s.objs| && LoadedFrom(s.disk, base, files[k], s.objs[k])
    ensures s.objs[k].repos.Keys == m.objs[k].repos.Keys
  {
    BatchObjects(m, names, true, order);
    SetFlagsKeepsFiles(m.objs, m.idx, names, true);
    TouchedApart(m, names, order, s.objs);
    assert LoadedFrom(m.disk, base, files[k], m.objs[k]);
    if k in order {
      SavedReadsBack(m.disk, s.objs, order, base, files[k], k, m.objs[k]);
    } else {
      UntouchedObject(m.objs, m.idx, names, true, k);
      forall h | h in order
        ensures s.objs[h].path == Path(base, files[h])
      {
        assert LoadedFrom(m.disk, base, files[h], m.objs[h]);
      }
      UnsavedReadsBack(m.disk, s.objs, order, base, files, k);
    }
  }

  lemma UnsavedReadsBack(disk: Disk, objs: seq<FileObj>, order: seq<nat>, base: string, files: seq<string>, k: nat)
    requires InRange(objs, order) && Distinct(files) && |files| == |objs| && k < |files| && k !in order
    requires forall h | h in order :: objs[h].path == Path(base, files[h])
    requires LoadedFrom(disk, base, files[k], objs[k])
    ensures LoadedFrom(SaveAll(disk, objs, order), base, files[k], objs[k])
  {
    forall h | h in order
      ensures objs[h].path != objs[k].path
    {
      assert h != k && files[h] != files[k];
    }
    SaveAllMisses(disk, objs, order, objs[k].path);
  }

  lemma SavedReadsBack(disk: Disk, objs: seq<FileObj>, order: seq<nat>, base: string, file: string, k: nat, before: FileObj)
    requires InRange(objs, order) && Distinct(order) && PathsApart(objs, order) && k in order
    requires LoadedFrom(disk, base, file, before)
    requires objs[k].path == before.path && SameButFlags(before.repos, objs[k].repos)
    ensures LoadedFrom(SaveAll(disk, objs, order), base, file, objs[k])
  {
    SaveAllHits(disk, objs, order, k);
    SaveFlags(Load(disk, before.path), before.path, before.repos, objs[k].repos);
  }

  /** Starting over from the disk that a batch leaves gives back the very state it left. */
  lemma RestartFindsTheState(disk: Disk, base: string, files: seq<string>, names: seq<string>, order: seq<nat>)
    requires Distinct(files) && Loads(disk, base, files)
    requires var m := LoadDir(Fresh(disk), base, base, files).0;
             SaveOrder(order, m.idx, names) && EnableMany(m, names, true, order).1
    ensures var s := EnableMany(LoadDir(Fresh(disk), base, base, files).0, names, true, order).0;
      LoadDir(Fresh(s.disk), base, base, files) == (s, true)
  {
    var m := LoadDir(Fresh(disk), base, base, files).0;
    var s := EnableMany(m, names, true, order).0;
    FreshObjects(disk, base, files);
    LoadDirKeepsGood(Fresh(disk), base, base, files);
    StateOnDisk(m, s, base, files, names, order);
    FreshObjects(s.disk, base, files);
    SameIdsSameIndex(disk, s.disk, base, files);
    SameObjects(s.disk, base, files, LoadDir(Fresh(s.disk), base, base, files).0.objs, s.objs);
  }

  lemma SameObjects(disk: Disk, base: string, files: seq<string>, a: seq<FileObj>, b: seq<FileObj>)
    requires |a| == |files| == |b|
    requires forall k | 0 <= k < |files| :: LoadedFrom(disk, base, files[k], a[k])
    requires forall k | 0 <= k < |files| :: LoadedFrom(disk, base, files[k], b[k])
    ensures a == b
  {
  }

  lemma StateOnDisk(m: State, s: State, base: string, files: seq<string>, names: seq<string>, order: seq<nat>)
    requires Good(m) && Distinct(files) && |m.objs| == |files|
    requires forall i | 0 <= i < |files| :: LoadedFrom(m.disk, base, files[i], m.objs[i])
    requires SaveOrder(order, m.idx, names) && EnableMany(m, names, true, order) == (s, true)
    ensures |s.objs| == |files| && Loads(s.disk, base, files)
    ensures forall k | 0 <= k < |files| :: LoadedFrom(s.disk, base, files[k], s.objs[k])
    ensures forall f | f in files :: FileIds(s.disk, base, f) == FileIds(m.disk, base, f)
  {
    BatchObjects(m, names, true, order);
    SetFlagsKeepsFiles(m.objs, m.idx, names, true);
    forall k | 0 <= k < |files|
      ensures LoadedFrom(s.disk, base, files[k], s.objs[k]) && s.objs[k].repos.Keys == m.objs[k].repos.Keys
    {
      ReadsBack(m, s, base, files, names, order, k);
    }
    forall f | f in files
      ensures Parse(Load(s.disk, Path(base, f)), Path(base, f)).Some?
      ensures FileIds(s.disk, base, f) == FileIds(m.disk, base, f)
    {
      var k :| 0 <= k < |files| && files[k] == f;
      assert LoadedFrom(s.disk, base, files[k], s.objs[k]);
      assert LoadedFrom(m.disk, base, files[k], m.objs[k]);
      ParseIsWellKeyed(Load(s.disk, Path(base, f)), Path(base, f));
      ParseIsWellKeyed(Load(m.disk, Path(base, f)), Path(base, f));
    }
  }

  /** So a later run's fresh manager, enabling the default names again, ends in that state too and
      writes nothing new. */
  lemma RestartedBatchWritesNothing(disk: Disk, base: string, files: seq<string>, names: seq<string>,
                                    order: seq<nat>, again: seq<nat>)
    requires Distinct(files) && Loads(disk, base, files)
    requires var m := LoadDir(Fresh(disk), base, base, files).0;
             SaveOrder(order, m.idx, names) && SaveOrder(again, m.idx, names) && EnableMany(m, names, true, order).1
    ensures var s := EnableMany(LoadDir(Fresh(disk), base, base, files).0, names, true, order).0;
      Reload(Fresh(s.disk), base, files, names, again) == (s, true)
  {
    var m := LoadDir(Fresh(disk), base, base, files).0;
    var s := EnableMany(m, names, true, order).0;
    LoadDirKeepsGood(Fresh(disk), base, base, files);
    RestartFindsTheState(disk, base, files, names, order);
    BatchObjects(m, names, true, order);
    SecondBatch(m, s, s, names, order, again);
  }

  // ------------------------------------------------------ another order

  /** No id lies in two of the files. */
  predicate IdsApart(disk: Disk, base: string, files: seq<string>) {
    forall f, g | f in files && g in files && f != g :: FileIds(disk, base, f) !! FileIds(disk, base, g)
  }

  predicate SameNames(a: seq<string>, b: seq<string>) {
    Distinct(a) && Distinct(b) && (forall f | f in a :: f in b) && (forall f | f in b :: f in a)
  }

  predicate SameObjectFor(a: State, b: State, id: string) {
    Known(a.objs, a.idx, id) && Known(b.objs, b.idx, id) && a.objs[a.idx[id]] == b.objs[b.idx[id]]
  }

  /** The same disk, and for each id the same file with the same repositories and flags. */
  predicate SameView(a: State, b: State) {
    a.disk == b.disk && a.idx.Keys == b.idx.Keys && forall id | id in a.idx :: SameObjectFor(a, b, id)
  }

  lemma IndexedFile(disk: Disk, base: string, files: seq<string>, id: string)
    requires Loads(disk, base, files) && id in LoadDir(Fresh(disk), base, base, files).0.idx
    ensures var s := LoadDir(Fresh(disk), base, base, files).0;
      && Known(s.objs, s.idx, id) && |s.objs| == |files|
      && LoadedFrom(disk, base, files[s.idx[id]], s.objs[s.idx[id]]) && id in FileIds(disk, base, files[s.idx[id]])
  {
    var s := LoadDir(Fresh(disk), base, base, files).0;
    FreshObjects(disk, base, files);
    LoadDirKeepsGood(Fresh(disk), base, base, files);
    assert Known(s.objs, s.idx, id);
    assert LoadedFrom(disk, base, files[s.idx[id]], s.objs[s.idx[id]]);
    ParseIsWellKeyed(Load(disk, s.objs[s.idx[id]].path), s.objs[s.idx[id]].path);
  }

  /** The listing order does not matter when no id lies in two files. */
  lemma LoadedInAnyOrder(disk: Disk, base: string, files: seq<string>, relisted: seq<string>)
    requires SameNames(files, relisted) && Loads(disk, base, files) && IdsApart(disk, base, files)
    ensures Loads(disk, base, relisted)
    ensures SameView(LoadDir(Fresh(disk), base, base, files).0, LoadDir(Fresh(disk), base, base, relisted).0)
  {
    LoadBaseDir(Fresh(disk), base, files);
    LoadBaseDir(Fresh(disk), base, relisted);
    var a, b := LoadDir(Fresh(disk), base, base, files).0, LoadDir(Fresh(disk), base, base, relisted).0;
    assert a.idx.Keys == b.idx.Keys;
    forall id | id in a.idx
      ensures SameObjectFor(a, b, id)
    {
      IndexedFile(disk, base, files, id);
      IndexedFile(disk, base, relisted, id);
      var f, g := files[a.idx[id]], relisted[b.idx[id]];
      assert g in files && f in files && id in FileIds(disk, base, f) && id in FileIds(disk, base, g);
      assert f == g;
    }
  }

  /** The first file of a listing keeps all its ids. */
  lemma {:induction false} FirstListedWins(disk: Disk, base: string, files: seq<string>, id: string)
    requires files != [] && Loads(disk, base, files) && id in FileIds(disk, base, files[0])
    ensures var s := LoadDir(Fresh(disk), base, base, files).0; id in s.idx && s.idx[id] == 0
  {
    OneMoreFile(disk, base, files);
    if |files| > 1 {
      FirstListedWins(disk, base, Front(files), id);
    }
  }

  /** A listing of the same names that begins with `f`. */
  lemma WithFirst(files: seq<string>, f: string) returns (relisted: seq<string>)
    requires Distinct(files) && f in files
    ensures SameNames(files, relisted) && relisted != [] && relisted[0] == f
  {
    var k :| 0 <= k < |files| && files[k] == f;
    relisted := [f] + files[..k] + files[k + 1..];
    assert forall g | g in files :: g in relisted by {
      forall g | g in files
        ensures g in relisted
      {
        var i :| 0 <= i < |files| && files[i] == g;
        if i < k { assert relisted[i + 1] == g; } else if i > k { assert relisted[i] == g; } else { assert relisted[0] == g; }
      }
    }
  }

  /** It does matter exactly when some id lies in two files: then some other listing order leads that
      id to another file. */
  lemma ListingOrderIsImmaterialIff(disk: Disk, base: string, files: seq<string>)
    requires Distinct(files) && Loads(disk, base, files)
    ensures (forall relisted | SameNames(files, relisted) ::
               SameView(LoadDir(Fresh(disk), base, base, files).0, LoadDir(Fresh(disk), base, base, relisted).0))
       <==> IdsApart(disk, base, files)
  {
    if IdsApart(disk, base, files) {
      forall relisted | SameNames(files, relisted)
        ensures SameView(LoadDir(Fresh(disk), base, base, files).0, LoadDir(Fresh(disk), base, base, relisted).0)
      {
        LoadedInAnyOrder(disk, base, files, relisted);
      }
    } else {
      var f, g :| f in files && g in files && f != g && !(FileIds(disk, base, f) !! FileIds(disk, base, g));
      var id :| id in FileIds(disk, base, f) && id in FileIds(disk, base, g);
      var a := WithFirst(files, f);
      var b := WithFirst(files, g);
      LeadsTo(disk, base, a, id);
      LeadsTo(disk, base, b, id);
      var l := LoadDir(Fresh(disk), base, base, files).0;
      var sa, sb := LoadDir(Fresh(disk), base, base, a).0, LoadDir(Fresh(disk), base, base, b).0;
      assert SameView(l, sa) ==> id in l.idx && SameObjectFor(l, sa, id);
      assert SameView(l, sb) ==> id in l.idx && SameObjectFor(l, sb, id);
    }
  }

  lemma LeadsTo(disk: Disk, base: string, files: seq<string>, id: string)
    requires files != [] && Loads(disk, base, files) && id in FileIds(disk, base, files[0])
    ensures var s := LoadDir(Fresh(disk), base, base, files).0;
      id in s.idx && s.idx[id] < |s.objs| && s.objs[s.idx[id]].path == Path(base, files[0])
  {
    FirstListedWins(disk, base, files, id);
    IndexedFile(disk, base, files, id);
  }

  lemma SavedStays(disk: Disk, objs: seq<FileObj>, order: seq<nat>, h: nat)
    requires InRange(objs, order) && Distinct(order) && PathsApart(objs, order) && h in order
    ensures Save(SaveAll(disk, objs, order), objs[h]) == SaveAll(disk, objs, order)
  {
    SaveAllHits(disk, objs, order, h);
    OverlayAbsorbs(Load(disk, objs[h].path), Writes(objs[h].repos), Writes(objs[h].repos));
  }

  lemma {:induction false} SavesNothing(disk: Disk, objs: seq<FileObj>, order: seq<nat>)
    requires InRange(objs, order) && forall h | h in order :: Save(disk, objs[h]) == disk
    ensures SaveAll(disk, objs, order) == disk
  {
    if order != [] {
      SavesNothing(disk, objs, Front(order));
    }
  }

  /** In a state with the same view as one whose batch was saved, the same batch changes nothing. */
  lemma BatchInSameView(m: State, s: State, n: State, names: seq<string>, order: seq<nat>, again: seq<nat>)
    requires Good(m) && SaveOrder(order, m.idx, names) && EnableMany(m, names, true, order) == (s, true)
    requires SameView(s, n) && SaveOrder(again, n.idx, names)
    ensures EnableMany(n, names, true, again) == (n, true)
  {
    BatchObjects(m, names, true, order);
    SetFlagsKeepsFiles(m.objs, m.idx, names, true);
    TouchedApart(m, names, order, s.objs);
    forall id | id in names
      ensures Known(n.objs, n.idx, id) && FlagOf(n.objs, n.idx[id], id)
    {
      assert Known(m.objs, m.idx, id);
      SetFlagsEffect(m.objs, m.idx, names, true, m.idx[id], id);
      assert SameObjectFor(s, n, id);
    }
    SettingSetFlags(n.objs, n.idx, names, true);
    forall h | h in again
      ensures h < |n.objs| && Save(n.disk, n.objs[h]) == n.disk
    {
      var id :| id in names && id in n.idx && n.idx[id] == h;
      assert SameObjectFor(s, n, id);
      assert s.idx[id] in order;
      SavedStays(m.disk, s.objs, order, s.idx[id]);
    }
    SavesNothing(n.disk, n.objs, again);
  }

  /** Starting over with the directory listed in another order gives the same view, when no id lies in
      two files, and enabling the names again changes nothing. */
  lemma RestartInAnyOrder(disk: Disk, base: string, files: seq<string>, relisted: seq<string>, names: seq<string>,
                          order: seq<nat>, again: seq<nat>)
    requires SameNames(files, relisted) && Loads(disk, base, files) && IdsApart(disk, base, files)
    requires var m := LoadDir(Fresh(disk), base, base, files).0;
             SaveOrder(order, m.idx, names) && EnableMany(m, names, true, order).1
    requires var s := EnableMany(LoadDir(Fresh(disk), base, base, files).0, names, true, order).0;
             SaveOrder(again, LoadDir(Fresh(s.disk), base, base, relisted).0.idx, names)
    ensures var s := EnableMany(LoadDir(Fresh(disk), base, base, files).0, names, true, order).0;
      var (n, ok) := Reload(Fresh(s.disk), base, relisted, names, again);
      ok && SameView(s, n)
  {
    var m := LoadDir(Fresh(disk), base, base, files).0;
    var s := EnableMany(m, names, true, order).0;
    FreshObjects(disk, base, files);
    LoadDirKeepsGood(Fresh(disk), base, base, files);
    RestartFindsTheState(disk, base, files, names, order);
    StateOnDisk(m, s, base, files, names, order);
    LoadedInAnyOrder(s.disk, base, files, relisted);
    LoadBaseDir(Fresh(s.disk), base, relisted);
    BatchInSameView(m, s, LoadDir(Fresh(s.disk), base, base, relisted).0, names, order, again);
  }
}
