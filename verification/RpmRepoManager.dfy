/** RPMRepoManager of src/services/repos.cpp on the heap, each method proved to take the step its
    specification in `RepoIndex` takes. File objects are shared: several ids of the index may
    point to one object, and two objects may stand for one path. */
module RpmRepoManager {
  import opened Sequences
  import opened KeyFiles
  import opened RepoFiles
  import opened RpmRepositories
  import opened Orders
  import RepoIndex
  import RepoReload

  /** The index maps each id to a file object that holds it; `handle` inverts `objs`. */
  ghost predicate Linked(objs: seq<RPMRepositoryFile>, handle: map<RPMRepositoryFile, nat>, mem: seq<RepoIndex.FileObj>,
                         filesIdx: map<string, RPMRepositoryFile>, idx: map<string, nat>) {
    && |mem| == |objs|
    && (forall h | 0 <= h < |objs| :: WellKeyed(mem[h].repos))
    && (forall h | 0 <= h < |objs| :: objs[h] in handle && handle[objs[h]] == h)
    && (forall f | f in handle :: handle[f] < |objs| && objs[handle[f]] == f)
    && filesIdx.Keys == idx.Keys
    && forall id | id in idx :: idx[id] < |objs| && filesIdx[id] == objs[idx[id]] && id in mem[idx[id]].repos
  }

  lemma LinkedAfterFlag(objs: seq<RPMRepositoryFile>, handle: map<RPMRepositoryFile, nat>, mem: seq<RepoIndex.FileObj>,
                        filesIdx: map<string, RPMRepositoryFile>, idx: map<string, nat>, id: string, value: bool)
    requires Linked(objs, handle, mem, filesIdx, idx) && id in idx
    ensures RepoIndex.Known(mem, idx, id)
    ensures var after := RepoIndex.SetFlag(mem, idx[id], id, value);
      && Linked(objs, handle, after, filesIdx, idx)
      && forall k | 0 <= k < |objs| && objs[k] != filesIdx[id] :: after[k] == mem[k]
  {
  }

  ghost function Emplaced(filesIdx: map<string, RPMRepositoryFile>, ids: set<string>,
                          file: RPMRepositoryFile): map<string, RPMRepositoryFile> {
    map id | id in filesIdx.Keys + ids :: if id in filesIdx then filesIdx[id] else file
  }

  method EmplaceIds(filesIdx: map<string, RPMRepositoryFile>, ids: set<string>, file: RPMRepositoryFile)
    returns (index: map<string, RPMRepositoryFile>)
    ensures index == Emplaced(filesIdx, ids, file)
  {
    index := filesIdx;
    var left := ids;
    while left != {}
      invariant left <= ids && index == Emplaced(filesIdx, ids - left, file)
    {
      var id :| id in left;
      if id !in index {
        index := index[id := file];
      }
      left := left - {id};
    }
    assert ids - {} == ids;
  }

  lemma LinkedAfterAdd(objs: seq<RPMRepositoryFile>, handle: map<RPMRepositoryFile, nat>, mem: seq<RepoIndex.FileObj>,
                       filesIdx: map<string, RPMRepositoryFile>, idx: map<string, nat>, file: RPMRepositoryFile, repos: Repos)
    requires Linked(objs, handle, mem, filesIdx, idx) && file !in handle && WellKeyed(repos)
    ensures Linked(objs + [file], handle[file := |objs|], mem + [RepoIndex.FileObj(file.path, repos)],
                   Emplaced(filesIdx, repos.Keys, file), RepoIndex.EmplaceAll(idx, repos.Keys, |objs|))
  {
  }

  lemma KnownIfLinked(objs: seq<RPMRepositoryFile>, handle: map<RPMRepositoryFile, nat>, mem: seq<RepoIndex.FileObj>,
                      filesIdx: map<string, RPMRepositoryFile>, idx: map<string, nat>, id: string)
    requires Linked(objs, handle, mem, filesIdx, idx) && id in filesIdx
    ensures RepoIndex.Known(mem, idx, id) && idx[id] < |objs| && filesIdx[id] == objs[idx[id]]
    ensures filesIdx[id] in handle && handle[filesIdx[id]] == idx[id]
  {
  }

  /** `list` shows the ids of `order`, and those of `left` are still to come. */
  ghost predicate ListedSoFar(mem: seq<RepoIndex.FileObj>, idx: map<string, nat>, order: seq<string>, left: set<string>,
                              list: Repos) {
    && order + Ascending(left) == Ascending(idx.Keys) && left <= idx.Keys
    && (forall id | id in order :: RepoIndex.Known(mem, idx, id))
    && list == RepoReload.Listing(mem, idx, order)
  }

  lemma ListNext(mem: seq<RepoIndex.FileObj>, idx: map<string, nat>, order: seq<string>, left: set<string>, list: Repos,
                 id: string)
    requires ListedSoFar(mem, idx, order, left, list) && IsLeast(id, left) && RepoIndex.Known(mem, idx, id)
    ensures ListedSoFar(mem, idx, order + [id], left - {id}, RepoReload.AddListed(list, mem[idx[id]].repos))
  {
    NextAscending(id, left);
    FrontOfAppend(order, id);
    Associative(order, [id], Ascending(left - {id}));
  }

  lemma AllListed(mem: seq<RepoIndex.FileObj>, idx: map<string, nat>, order: seq<string>, list: Repos)
    requires ListedSoFar(mem, idx, order, {}, list)
    ensures RepoReload.AllKnown(mem, idx) && list == RepoReload.Listed(mem, idx)
  {
    AscendingEnumerates(idx.Keys);
    assert order + [] == order;
  }

  method EmplaceRepos(list: Repos, repos: Repos) returns (more: Repos)
    ensures more == RepoReload.AddListed(list, repos)
  {
    more := list;
    var left := repos.Keys;
    while left != {}
      invariant left <= repos.Keys
      invariant more == map id | id in list.Keys + (repos.Keys - left) :: if id in list then list[id] else repos[id]
    {
      var id :| id in left;
      if id !in more {
        more := more[id := repos[id]];
      }
      left := left - {id};
    }
  }

  ghost function EntryStep(st: RepoIndex.State, base: string, dir: string, name: string): (RepoIndex.State, bool) {
    if RepoIndex.EndsWith(name, ".repo") then RepoIndex.Install(st, base, Path(dir, name)) else (st, true)
  }

  lemma OneMoreEntry(st: RepoIndex.State, base: string, dir: string, entries: seq<string>, i: nat)
    requires i < |entries|
    ensures RepoIndex.LoadDir(st, base, dir, RepoIndex.RepoNames(entries[..i + 1])) ==
      (var (s, ok) := RepoIndex.LoadDir(st, base, dir, RepoIndex.RepoNames(entries[..i]));
       if ok then EntryStep(s, base, dir, entries[i]) else (s, false))
  {
    TakeOneMore(entries, i);
    FrontOfAppend(entries[..i], entries[i]);
    FrontOfAppend(RepoIndex.RepoNames(entries[..i]), entries[i]);
  }

  lemma {:induction false} LoadStopped(st: RepoIndex.State, base: string, dir: string, entries: seq<string>, i: nat,
                                       ok: bool)
    requires i <= |entries| && RepoIndex.LoadDir(st, base, dir, RepoIndex.RepoNames(entries[..i])).1 == ok
    requires ok ==> i == |entries|
    ensures RepoIndex.LoadDir(st, base, dir, RepoIndex.RepoNames(entries))
         == RepoIndex.LoadDir(st, base, dir, RepoIndex.RepoNames(entries[..i]))
    decreases |entries| - i
  {
    if i == |entries| {
      TakeAll(entries);
    } else {
      OneMoreEntry(st, base, dir, entries, i);
      LoadStopped(st, base, dir, entries, i + 1, false);
    }
  }

  /** The collected files are those the ids are indexed to. */
  ghost predicate Collected(files: set<RPMRepositoryFile>, handle: map<RPMRepositoryFile, nat>, idx: map<string, nat>,
                            filesIdx: map<string, RPMRepositoryFile>, ids: seq<string>) {
    && (forall f | f in files :: f in handle && handle[f] in RepoIndex.Touched(idx, ids))
    && (forall id | id in ids :: id in filesIdx && filesIdx[id] in files)
  }

  lemma OneMoreCollected(files: set<RPMRepositoryFile>, handle: map<RPMRepositoryFile, nat>, idx: map<string, nat>,
                         filesIdx: map<string, RPMRepositoryFile>, ids: seq<string>, id: string)
    requires Collected(files, handle, idx, filesIdx, ids)
    requires id in idx && id in filesIdx && filesIdx[id] in handle && handle[filesIdx[id]] == idx[id]
    ensures Collected(files + {filesIdx[id]}, handle, idx, filesIdx, ids + [id])
  {
    assert forall h :: h in RepoIndex.Touched(idx, ids) ==> h in RepoIndex.Touched(idx, ids + [id]);
    assert id in ids + [id];
  }

  /** `order` is a walk over `files`, by handle. */
  ghost predicate Walks(order: seq<nat>, files: set<RPMRepositoryFile>, handle: map<RPMRepositoryFile, nat>) {
    && Distinct(order)
    && (forall f | f in files :: f in handle && handle[f] in order)
    && (forall h | h in order :: exists f :: f in files && f in handle && handle[f] == h)
  }

  lemma CollectedIsTouched(objs: seq<RPMRepositoryFile>, handle: map<RPMRepositoryFile, nat>, mem: seq<RepoIndex.FileObj>,
                           filesIdx: map<string, RPMRepositoryFile>, idx: map<string, nat>,
                           files: set<RPMRepositoryFile>, ids: seq<string>, order: seq<nat>)
    requires Linked(objs, handle, mem, filesIdx, idx)
    requires Collected(files, handle, idx, filesIdx, ids) && Walks(order, files, handle)
    ensures RepoIndex.SaveOrder(order, idx, ids)
  {
    forall h | h in RepoIndex.Touched(idx, ids)
      ensures h in order
    {
      var id :| id in ids && id in idx && idx[id] == h;
      assert handle[filesIdx[id]] in order;
    }
  }

  lemma OneMoreFlag(objs: seq<RepoIndex.FileObj>, idx: map<string, nat>, ids: seq<string>, id: string, value: bool)
    requires RepoIndex.SetFlags(objs, idx, ids, value).1
    requires RepoIndex.Known(RepoIndex.SetFlags(objs, idx, ids, value).0, idx, id)
    ensures RepoIndex.SetFlags(objs, idx, ids + [id], value)
         == (RepoIndex.SetFlag(RepoIndex.SetFlags(objs, idx, ids, value).0, idx[id], id, value), true)
  {
    assert Front(ids + [id]) == ids && Last(ids + [id]) == id;
  }

  /** The files that are not `left` have been saved, once each. */
  ghost predicate SavedSoFar(objs: seq<RPMRepositoryFile>, handle: map<RPMRepositoryFile, nat>, files: set<RPMRepositoryFile>,
                             left: set<RPMRepositoryFile>, order: seq<nat>) {
    && left <= files && Distinct(order)
    && (forall f | f in files :: f in handle)
    && (forall f | f in files && f !in left :: handle[f] in order)
    && (forall h | h in order :: h < |objs| && objs[h] in files && objs[h] !in left)
  }

  lemma SaveNext(objs: seq<RPMRepositoryFile>, handle: map<RPMRepositoryFile, nat>, mem: seq<RepoIndex.FileObj>,
                 filesIdx: map<string, RPMRepositoryFile>, idx: map<string, nat>, files: set<RPMRepositoryFile>,
                 left: set<RPMRepositoryFile>, order: seq<nat>, file: RPMRepositoryFile)
    requires Linked(objs, handle, mem, filesIdx, idx) && SavedSoFar(objs, handle, files, left, order) && file in left
    ensures handle[file] < |objs| && objs[handle[file]] == file && WellKeyed(mem[handle[file]].repos)
    ensures SavedSoFar(objs, handle, files, left - {file}, order + [handle[file]])
  {
    DistinctAppend(order, handle[file]);
  }

  /** One more id of a batch: its flag changes, and its file is collected. */
  lemma NextFlag(objs: seq<RPMRepositoryFile>, handle: map<RPMRepositoryFile, nat>, mem: seq<RepoIndex.FileObj>,
                 filesIdx: map<string, RPMRepositoryFile>, idx: map<string, nat>, toSave: set<RPMRepositoryFile>,
                 before: seq<RepoIndex.FileObj>, done: seq<string>, id: string, value: bool)
    requires Linked(objs, handle, mem, filesIdx, idx) && id in filesIdx
    requires RepoIndex.SetFlags(before, idx, done, value) == (mem, true)
    requires Collected(toSave, handle, idx, filesIdx, done)
    ensures RepoIndex.Known(mem, idx, id)
    ensures RepoIndex.SetFlags(before, idx, done + [id], value) == (RepoIndex.SetFlag(mem, idx[id], id, value), true)
    ensures Collected(toSave + {filesIdx[id]}, handle, idx, filesIdx, done + [id])
  {
    KnownIfLinked(objs, handle, mem, filesIdx, idx, id);
    OneMoreFlag(before, idx, done, id, value);
    OneMoreCollected(toSave, handle, idx, filesIdx, done, id);
  }

  class RPMRepoManager {
    const fs: FileSystem<RepoKey>
    const basedir: string
    var filesIdx: map<string, RPMRepositoryFile>
    /** Every file object loaded so far, by handle; and the index by handle. */
    ghost var objs: seq<RPMRepositoryFile>
    ghost var handle: map<RPMRepositoryFile, nat>
    ghost var mem: seq<RepoIndex.FileObj>
    ghost var idx: map<string, nat>

    ghost predicate Valid()
      reads this, handle.Keys
    {
      && Linked(objs, handle, mem, filesIdx, idx)
      && forall h | 0 <= h < |objs| :: objs[h].Value() == mem[h]
    }

    ghost function Abs(): RepoIndex.State
      reads this, fs
    {
      RepoIndex.State(mem, idx, fs.files)
    }

    constructor (fs: FileSystem<RepoKey>, basedir: string)
      ensures this.fs == fs && this.basedir == basedir
      ensures Valid() && objs == [] && Abs() == RepoIndex.State([], map[], fs.files)
    {
      this.fs, this.basedir, filesIdx, objs, handle, mem, idx := fs, basedir, map[], [], map[], [], map[];
    }

    /** Copy the file into the base directory unless one is there, load it and index its ids. */
    method Install(src: Path) returns (ok: bool)
      requires Valid()
      modifies this, fs`files
      ensures Valid() && (Abs(), ok) == RepoIndex.Install(old(Abs()), basedir, src)
      ensures handle.Keys >= old(handle.Keys) && fresh(handle.Keys - old(handle.Keys))
    {
      var dest := Path(basedir, src.file);
      if src != dest {
        if src !in fs.files {
          return false;
        }
        if dest !in fs.files {
          fs.files := fs.files[dest := fs.files[src]];
        }
      }
      var file := OpenFile(fs, dest);
      ok := file.Some?;
      if ok {
        ParseIsWellKeyed(Load(fs.files, dest), dest);
        AddFile(file.value);
      }
    }

    method InstallEntry(dir: string, name: string) returns (ok: bool)
      requires Valid()
      modifies this, fs`files
      ensures Valid() && (Abs(), ok) == EntryStep(old(Abs()), basedir, dir, name)
      ensures handle.Keys >= old(handle.Keys) && fresh(handle.Keys - old(handle.Keys))
    {
      ok := true;
      if RepoIndex.EndsWith(name, ".repo") {
        ok := Install(Path(dir, name));
      }
    }

    /** Install every ".repo" file of a directory, in whatever order its entries come; a directory
        that cannot be opened and the first file that throws stop it. */
    method LoadDir(dir: string) returns (ok: bool, ghost entries: seq<string>)
      requires Valid()
      modifies this, fs`files
      ensures Valid() && Lists(entries, old(fs.files), dir)
      ensures handle.Keys >= old(handle.Keys) && fresh(handle.Keys - old(handle.Keys))
      ensures (Abs(), ok) == if dir in fs.dirs then RepoIndex.LoadDir(old(Abs()), basedir, dir, RepoIndex.RepoNames(entries))
                             else (old(Abs()), false)
    {
      var names := ListDir(fs, dir);
      entries := names;
      ok := dir in fs.dirs;
      if ok {
        ok := InstallEntries(dir, names);
      }
    }

    method InstallEntries(dir: string, entries: seq<string>) returns (ok: bool)
      requires Valid()
      modifies this, fs`files
      ensures Valid() && (Abs(), ok) == RepoIndex.LoadDir(old(Abs()), basedir, dir, RepoIndex.RepoNames(entries))
      ensures handle.Keys >= old(handle.Keys) && fresh(handle.Keys - old(handle.Keys))
    {
      ghost var st := Abs();
      var i := 0;
      ok := true;
      while ok && i < |entries|
        invariant i <= |entries| && Valid()
        invariant (Abs(), ok) == RepoIndex.LoadDir(st, basedir, dir, RepoIndex.RepoNames(entries[..i]))
        invariant handle.Keys >= old(handle.Keys) && fresh(handle.Keys - old(handle.Keys))
        decreases |entries| - i
      {
        OneMoreEntry(st, basedir, dir, entries, i);
        ok := InstallEntry(dir, entries[i]);
        i := i + 1;
      }
      LoadStopped(st, basedir, dir, entries, i, ok);
    }

    /** List every repository once: the first copy met while walking the index. */
    method Repositories() returns (list: Repos)
      requires Valid()
      ensures RepoReload.AllKnown(mem, idx) && list == RepoReload.Listed(mem, idx)
    {
      list := map[];
      ghost var order: seq<string> := [];
      var left := filesIdx.Keys;
      assert [] + Ascending(left) == Ascending(left);
      while left != {}
        invariant ListedSoFar(mem, idx, order, left, list)
      {
        LeastExists(left);
        var id :| IsLeast(id, left);
        KnownIfLinked(objs, handle, mem, filesIdx, idx, id);
        ListNext(mem, idx, order, left, list, id);
        assert filesIdx[id].repos == mem[idx[id]].repos;
        list := EmplaceRepos(list, filesIdx[id].repos);
        order := order + [id];
        left := left - {id};
      }
      AllListed(mem, idx, order, list);
    }

    /** `emplace` every id of a loaded file: an id that is indexed keeps the file it has. */
    method AddFile(file: RPMRepositoryFile)
      requires Valid() && file !in handle && WellKeyed(file.repos)
      modifies this
      ensures Valid() && handle.Keys == old(handle.Keys) + {file}
      ensures mem == old(mem) + [file.Value()]
      ensures idx == RepoIndex.EmplaceAll(old(idx), file.repos.Keys, |old(mem)|)
    {
      var index := EmplaceIds(filesIdx, file.repos.Keys, file);
      LinkedAfterAdd(objs, handle, mem, filesIdx, idx, file, file.repos);
      UseIndex(file, index, file.Value(), RepoIndex.EmplaceAll(idx, file.repos.Keys, |objs|));
    }

    /** Go on with a new index, in which one more file has a part. */
    method UseIndex(file: RPMRepositoryFile, index: map<string, RPMRepositoryFile>,
                    ghost value: RepoIndex.FileObj, ghost handles: map<string, nat>)
      requires |mem| == |objs| && forall h | 0 <= h < |objs| :: objs[h].Value() == mem[h]
      requires file.Value() == value
      requires Linked(objs + [file], handle[file := |objs|], mem + [value], index, handles)
      modifies this
      ensures Valid() && handle.Keys == old(handle.Keys) + {file}
      ensures mem == old(mem) + [value] && idx == handles
    {
      ghost var objs', mem' := objs + [file], mem + [value];
      assert forall h | 0 <= h < |objs'| :: objs'[h].Value() == mem'[h];
      filesIdx, idx := index, handles;
      handle, objs, mem := handle[file := |objs|], objs', mem';
    }

    /** Flip one flag in memory only. */
    method SetOne(id: string, value: bool)
      requires Valid() && id in filesIdx
      modifies this`mem, handle.Keys
      ensures Valid() && RepoIndex.Known(old(mem), idx, id)
      ensures mem == RepoIndex.SetFlag(old(mem), idx[id], id, value)
    {
      LinkedAfterFlag(objs, handle, mem, filesIdx, idx, id, value);
      filesIdx[id].SetEnabled(id, value);
      mem := RepoIndex.SetFlag(mem, idx[id], id, value);
    }

    method SaveOne(id: string)
      requires Valid() && id in idx
      modifies fs`files
      ensures Valid() && fs.files == RepoIndex.Save(old(fs.files), mem[idx[id]])
    {
      assert filesIdx[id].Value() == mem[idx[id]];
      filesIdx[id].Save(fs);
    }

    method SetAndSave(id: string, value: bool)
      requires Valid() && id in filesIdx
      modifies this`mem, handle.Keys, fs`files
      ensures Valid() && RepoIndex.Known(old(mem), idx, id)
      ensures mem == RepoIndex.SetFlag(old(mem), idx[id], id, value)
      ensures fs.files == RepoIndex.Save(old(fs.files), mem[idx[id]])
    {
      ghost var obj := RepoIndex.SetFlag(mem, idx[id], id, value)[idx[id]];
      SetOne(id, value);
      SaveOne(id);
      assert mem[idx[id]] == obj;
    }

    /** Enable or disable one repository and save its file; false when the id is unknown. */
    method EnableOne(id: string, value: bool) returns (ok: bool)
      requires Valid()
      modifies this`mem, handle.Keys, fs`files
      ensures Valid() && (Abs(), ok) == RepoIndex.EnableOne(old(Abs()), id, value)
    {
      ok := id in filesIdx;
      if ok {
        SetAndSave(id, value);
      }
    }

    /** Save each file of the set once, in whatever order the set is walked. */
    method SaveFiles(files: set<RPMRepositoryFile>) returns (ghost order: seq<nat>)
      requires Valid() && forall f | f in files :: f in handle
      modifies fs`files
      ensures Walks(order, files, handle)
      ensures (forall h | h in order :: h < |mem|) && fs.files == RepoIndex.SaveAll(old(fs.files), mem, order)
    {
      order := [];
      var left := files;
      while left != {}
        invariant SavedSoFar(objs, handle, files, left, order)
        invariant (forall h | h in order :: h < |mem|) && fs.files == RepoIndex.SaveAll(old(fs.files), mem, order)
      {
        var file :| file in left;
        SaveNext(objs, handle, mem, filesIdx, idx, files, left, order, file);
        assert file.Value() == mem[handle[file]];
        file.Save(fs);
        FrontOfAppend(order, handle[file]);
        order := order + [handle[file]];
        left := left - {file};
      }
    }

    /** The first half of the batch call: change all flags in memory and collect the touched files.
        An unknown id stops it. */
    method SetMany(ids: seq<string>, value: bool) returns (ok: bool, toSave: set<RPMRepositoryFile>)
      requires Valid()
      modifies this`mem, handle.Keys
      ensures Valid() && (mem, ok) == RepoIndex.SetFlags(old(mem), idx, ids, value)
      ensures ok ==> Collected(toSave, handle, idx, filesIdx, ids)
    {
      toSave := {};
      for i := 0 to |ids|
        invariant Valid()
        invariant RepoIndex.SetFlags(old(mem), idx, ids[..i], value) == (mem, true)
        invariant Collected(toSave, handle, idx, filesIdx, ids[..i])
      {
        TakeOneMore(ids, i);
        if ids[i] !in filesIdx {
          StoppedAt(old(mem), idx, ids, i, value);
          return false, {};
        }
        toSave := SetNext(ids[..i], ids[i], value, toSave, old(mem));
      }
      TakeAll(ids);
      ok := true;
    }

    /** One turn of that loop. */
    method SetNext(ghost done: seq<string>, id: string, value: bool, toSave: set<RPMRepositoryFile>,
                   ghost before: seq<RepoIndex.FileObj>) returns (more: set<RPMRepositoryFile>)
      requires Valid() && id in filesIdx
      requires RepoIndex.SetFlags(before, idx, done, value) == (mem, true)
      requires Collected(toSave, handle, idx, filesIdx, done)
      modifies this`mem, handle.Keys
      ensures Valid() && RepoIndex.SetFlags(before, idx, done + [id], value) == (mem, true)
      ensures Collected(more, handle, idx, filesIdx, done + [id])
    {
      ghost var was := mem;
      SetOne(id, value);
      more := toSave + {filesIdx[id]};
      NextFlag(objs, handle, was, filesIdx, idx, toSave, before, done, id, value);
    }

    /** Enable or disable many: change all flags in memory, then save each touched file once. An
        unknown id stops the call before anything is saved. */
    method EnableMany(ids: seq<string>, value: bool) returns (ok: bool, ghost order: seq<nat>)
      requires Valid()
      modifies this`mem, handle.Keys, fs`files
      ensures Valid() && (Abs(), ok) == RepoIndex.EnableMany(old(Abs()), ids, value, order)
      ensures ok ==> RepoIndex.SaveOrder(order, idx, ids)
    {
      var toSave;
      order := [];
      ok, toSave := SetMany(ids, value);
      if ok {
        order := SaveFiles(toSave);
        CollectedIsTouched(objs, handle, mem, filesIdx, idx, toSave, ids, order);
      }
    }
  }

  lemma {:induction false} StoppedAt(objs: seq<RepoIndex.FileObj>, idx: map<string, nat>, ids: seq<string>, i: nat,
                                     value: bool)
    requires i < |ids| && ids[i] !in idx && RepoIndex.SetFlags(objs, idx, ids[..i], value).1
    ensures RepoIndex.SetFlags(objs, idx, ids, value) == (RepoIndex.SetFlags(objs, idx, ids[..i], value).0, false)
  {
    if i == |ids| - 1 {
      assert Front(ids) == ids[..i];
    } else {
      assert Front(ids)[..i] == ids[..i] && Front(ids)[i] == ids[i];
      StoppedAt(objs, idx, Front(ids), i, value);
    }
  }

  /** The listed ids that were not selected. */
  method Unselected(listed: seq<string>, selected: seq<string>) returns (toDisable: seq<string>)
    ensures toDisable == RepoReload.ToDisable(listed, selected)
  {
    toDisable := [];
    for i := 0 to |listed|
      invariant toDisable == RepoReload.ToDisable(listed[..i], selected)
    {
      TakeOneMore(listed, i);
      FrontOfAppend(listed[..i], listed[i]);
      if listed[i] !in selected {
        toDisable := toDisable + [listed[i]];
      }
    }
    TakeAll(listed);
  }

  /** The repository menu: disable what was listed and not selected, then enable the selection. */
  method ApplyMenu(manager: RPMRepoManager, listed: seq<string>, selected: seq<string>)
    returns (ok: bool, ghost off: seq<nat>, ghost on: seq<nat>)
    requires manager.Valid()
    modifies manager`mem, manager.handle.Keys, manager.fs`files
    ensures manager.Valid()
    ensures (manager.Abs(), ok) == RepoReload.ApplyMenu(old(manager.Abs()), listed, selected, off, on)
    ensures ok ==> RepoIndex.SaveOrder(off, manager.idx, RepoReload.ToDisable(listed, selected))
    ensures ok ==> RepoIndex.SaveOrder(on, manager.idx, selected)
  {
    var toDisable := Unselected(listed, selected);
    on := [];
    ok, off := manager.EnableMany(toDisable, false);
    if ok {
      ok, on := manager.EnableMany(selected, true);
    }
  }
}
