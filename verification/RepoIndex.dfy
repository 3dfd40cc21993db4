/** The state machine behind RPMRepoManager (src/services/repos.cpp): file objects in memory, the
    index from repository ids to them, and the disk.

    A file object is known by its handle, its place in `objs`, so that two objects loaded from one
    path stay apart. An object no id maps to is kept in `objs` but can never be reached again. */
module RepoIndex {
  import opened Wrappers
  import opened Sequences
  import opened KeyFiles
  import opened RepoFiles

  datatype FileObj = FileObj(path: Path, repos: Repos)

  type Disk = map<Path, RepoContent>

  datatype State = State(objs: seq<FileObj>, idx: map<string, nat>, disk: Disk)

  function Save(disk: Disk, obj: FileObj): Disk {
    disk[obj.path := Overlay(Load(disk, obj.path), Writes(obj.repos))]
  }

  // ------------------------------------------------------------ install

  /** `emplace` of every id of one file: an id that is already there keeps its old file. */
  function EmplaceAll(idx: map<string, nat>, ids: set<string>, handle: nat): map<string, nat> {
    map id | id in idx.Keys + ids :: if id in idx then idx[id] else handle
  }

  /** Copy the file to the base directory unless something is there, load it, index its ids.
      The boolean is false when the source throws; what was copied by then stays copied. */
  function Install(st: State, base: string, src: Path): (State, bool) {
    var dest := Path(base, src.file);
    if src != dest && src !in st.disk then (st, false)
    else
      var disk := if src != dest && dest !in st.disk then st.disk[dest := st.disk[src]] else st.disk;
      match Parse(Load(disk, dest), dest)
      case None => (st.(disk := disk), false)
      case Some(repos) =>
        (State(st.objs + [FileObj(dest, repos)], EmplaceAll(st.idx, repos.Keys, |st.objs|), disk), true)
  }

  /** A successful install leaves the file in the base directory, as it was there, or else as it is at
      its source; no other file changes, and what the file holds is loaded into one more object. */
  lemma InstalledIs(st: State, base: string, src: Path)
    ensures var dest := Path(base, src.file);
      Install(st, base, src).1 <==>
        && (src == dest || src in st.disk)
        && Parse(if dest in st.disk then st.disk[dest] else if src in st.disk then st.disk[src] else map[], dest).Some?
    ensures Install(st, base, src).1 ==>
      var s, dest := Install(st, base, src).0, Path(base, src.file);
      && s.disk == (if src != dest && dest !in st.disk then st.disk[dest := st.disk[src]] else st.disk)
      && |s.objs| == |st.objs| + 1 && st.objs <= s.objs && Last(s.objs).path == dest
      && Parse(Load(s.disk, dest), dest) == Some(Last(s.objs).repos)
  {
  }

  /** Install files of `dir` one after the other, stopping where one throws. */
  function LoadDir(st: State, base: string, dir: string, files: seq<string>): (State, bool) {
    if files == [] then (st, true)
    else
      var (s, ok) := LoadDir(st, base, dir, Front(files));
      if ok then Install(s, base, Path(dir, Last(files))) else (s, false)
  }

  predicate EndsWith(s: string, suffix: string) {
    |suffix| <= |s| && s[|s| - |suffix|..] == suffix
  }

  /** The directory entries that are loaded: those whose name ends in ".repo". */
  function RepoNames(entries: seq<string>): (r: seq<string>)
    ensures forall f | f in r :: f in entries && EndsWith(f, ".repo")
    ensures forall f | f in entries && EndsWith(f, ".repo") :: f in r
  {
    if entries == [] then []
    else
      var rest := RepoNames(Front(entries));
      if EndsWith(Last(entries), ".repo") then rest + [Last(entries)] else rest
  }

  // ------------------------------------------------------------- enable

  predicate Known(objs: seq<FileObj>, idx: map<string, nat>, id: string) {
    id in idx && idx[id] < |objs| && id in objs[idx[id]].repos
  }

  function SetFlag(objs: seq<FileObj>, h: nat, id: string, value: bool): seq<FileObj>
    requires h < |objs| && id in objs[h].repos
  {
    var repos := objs[h].repos;
    objs[h := objs[h].(repos := repos[id := Flagged(repos[id], value)])]
  }

  /** Enable or disable one repository and save its file. */
  function EnableOne(st: State, id: string, value: bool): (State, bool) {
    if !Known(st.objs, st.idx, id) then (st, false)
    else
      var objs := SetFlag(st.objs, st.idx[id], id, value);
      (State(objs, st.idx, Save(st.disk, objs[st.idx[id]])), true)
  }

  function EnableEach(st: State, ids: seq<string>, value: bool): (State, bool) {
    if ids == [] then (st, true)
    else
      var (s, ok) := EnableEach(st, Front(ids), value);
      if ok then EnableOne(s, Last(ids), value) else (s, false)
  }

  /** The first loop of the batch call: flags change in memory up to the first unknown id. */
  function SetFlags(objs: seq<FileObj>, idx: map<string, nat>, ids: seq<string>, value: bool): (seq<FileObj>, bool) {
    if ids == [] then (objs, true)
    else
      var (o, ok) := SetFlags(objs, idx, Front(ids), value);
      var id := Last(ids);
      if !ok || !Known(o, idx, id) then (o, false) else (SetFlag(o, idx[id], id, value), true)
  }

  function SaveAll(disk: Disk, objs: seq<FileObj>, order: seq<nat>): Disk
    requires forall h | h in order :: h < |objs|
  {
    if order == [] then disk
    else Save(SaveAll(disk, objs, Front(order)), objs[Last(order)])
  }

  function Touched(idx: map<string, nat>, ids: seq<string>): set<nat> {
    set id | id in ids && id in idx :: idx[id]
  }

  /** `toSave` holds each touched object once and is walked in an order the hash decides. */
  predicate SaveOrder(order: seq<nat>, idx: map<string, nat>, ids: seq<string>) {
    && Distinct(order)
    && (forall h | h in order :: h in Touched(idx, ids))
    && (forall h | h in Touched(idx, ids) :: h in order)
  }

  /** The batch call: all flags in memory first, then each touched file saved once. */
  function EnableMany(st: State, ids: seq<string>, value: bool, order: seq<nat>): (State, bool) {
    var (objs, ok) := SetFlags(st.objs, st.idx, ids, value);
    if ok && forall h | h in order :: h < |objs|
    then (State(objs, st.idx, SaveAll(st.disk, objs, order)), true)
    else (st.(objs := objs), false)
  }

  // ------------------------------------------------- what SetFlags leaves

  predicate SameFiles(a: seq<FileObj>, b: seq<FileObj>) {
    |a| == |b| && forall h | 0 <= h < |a| :: a[h].path == b[h].path && SameButFlags(a[h].repos, b[h].repos)
  }

  lemma SetFlagKeepsFiles(a: seq<FileObj>, b: seq<FileObj>, h: nat, id: string, value: bool)
    requires SameFiles(a, b) && h < |b| && id in b[h].repos
    ensures SameFiles(a, SetFlag(b, h, id, value))
  {
    var c := SetFlag(b, h, id, value);
    forall k | 0 <= k < |a|
      ensures a[k].path == c[k].path && SameButFlags(a[k].repos, c[k].repos)
    {
      assert SameButFlags(a[k].repos, b[k].repos);
    }
  }

  /** Only flags change, and the loop gets through exactly when every id is known. */
  lemma {:induction false} SetFlagsKeepsFiles(objs: seq<FileObj>, idx: map<string, nat>, ids: seq<string>, value: bool)
    ensures SameFiles(objs, SetFlags(objs, idx, ids, value).0)
    ensures SetFlags(objs, idx, ids, value).1 <==> forall id | id in ids :: Known(objs, idx, id)
  {
    if ids != [] {
      SetFlagsKeepsFiles(objs, idx, Front(ids), value);
      var (o, ok) := SetFlags(objs, idx, Front(ids), value);
      KnownInSameFiles(objs, o, idx, Last(ids));
      if ok && Known(o, idx, Last(ids)) {
        SetFlagKeepsFiles(objs, o, idx[Last(ids)], Last(ids), value);
      }
    }
  }

  lemma KnownInSameFiles(a: seq<FileObj>, b: seq<FileObj>, idx: map<string, nat>, id: string)
    requires SameFiles(a, b)
    ensures Known(a, idx, id) <==> Known(b, idx, id)
  {
  }

  function FlagOf(objs: seq<FileObj>, h: nat, id: string): bool
    requires h < |objs| && id in objs[h].repos
  {
    objs[h].repos[id].enabled
  }

  /** After the loop a flag is the new value if its id was named and is indexed to that very file,
      and what it was otherwise. */
  lemma {:induction false} SetFlagsEffect(objs: seq<FileObj>, idx: map<string, nat>, ids: seq<string>, value: bool,
                                          h: nat, id: string)
    requires SetFlags(objs, idx, ids, value).1
    requires h < |objs| && id in objs[h].repos
    ensures var o := SetFlags(objs, idx, ids, value).0;
            && h < |o| && id in o[h].repos
            && FlagOf(o, h, id) == if id in ids && id in idx && idx[id] == h then value else FlagOf(objs, h, id)
  {
    SetFlagsKeepsFiles(objs, idx, ids, value);
    if ids != [] {
      SetFlagsKeepsFiles(objs, idx, Front(ids), value);
      SetFlagsEffect(objs, idx, Front(ids), value, h, id);
    }
  }

  // ---------------------------------------- a batch is a fold of singles

  function Without(order: seq<nat>, h: nat): (r: seq<nat>)
    ensures forall k :: k in r <==> k in order && k != h
  {
    if order == [] then []
    else
      var r, last := Without(Front(order), h), Last(order);
      if last == h then r else r + [last]
  }

  /** The touched files in the order in which single calls would save them for the last time. */
  function LastTouch(idx: map<string, nat>, ids: seq<string>): (r: seq<nat>)
    ensures forall h :: h in r <==> h in Touched(idx, ids)
  {
    if ids == [] then []
    else
      var init, last := Front(ids), Last(ids);
      if last in idx then Without(LastTouch(idx, init), idx[last]) + [idx[last]] else LastTouch(idx, init)
  }

  lemma {:induction false} WithoutDistinct(order: seq<nat>, h: nat)
    requires Distinct(order)
    ensures Distinct(Without(order, h))
  {
    if order != [] {
      DistinctFront(order);
      WithoutDistinct(Front(order), h);
      if Last(order) != h { DistinctAppend(Without(Front(order), h), Last(order)); }
    }
  }

  lemma {:induction false} LastTouchIsSaveOrder(idx: map<string, nat>, ids: seq<string>)
    ensures SaveOrder(LastTouch(idx, ids), idx, ids)
  {
    if ids != [] {
      LastTouchIsSaveOrder(idx, Front(ids));
      if Last(ids) in idx {
        var h := idx[Last(ids)];
        WithoutDistinct(LastTouch(idx, Front(ids)), h);
        DistinctAppend(Without(LastTouch(idx, Front(ids)), h), h);
      }
    }
  }

  lemma SaveAbsorbs(disk: Disk, early: FileObj, late: FileObj)
    requires early.path == late.path && SameButFlags(early.repos, late.repos)
    ensures Save(Save(disk, early), late) == Save(disk, late)
  {
    FlagsKeepShape(early.repos, late.repos);
    OverlayAbsorbs(Load(disk, late.path), Writes(early.repos), Writes(late.repos));
  }

  lemma SaveElsewhere(disk: Disk, obj: FileObj, p: Path)
    requires p != obj.path
    ensures p in Save(disk, obj) <==> p in disk
    ensures p in disk ==> Save(disk, obj)[p] == disk[p]
  {
  }

  lemma SaveCongruentAt(a: Disk, b: Disk, between: FileObj, late: FileObj, p: Path)
    requires Save(a, late) == Save(b, late)
    ensures var l, r := Save(Save(a, between), late), Save(Save(b, between), late);
            (p in l <==> p in r) && (p in l ==> l[p] == r[p])
  {
    assert Save(a, late)[late.path] == Save(b, late)[late.path];
    if between.path == late.path {
      OverlayCongruent(Load(a, late.path), Load(b, late.path), Writes(between.repos), Writes(late.repos));
    } else {
      SaveElsewhere(a, late, between.path);
      SaveElsewhere(b, late, between.path);
      assert Load(a, between.path) == Load(b, between.path);
    }
    if p != late.path {
      SaveElsewhere(a, late, p);
      SaveElsewhere(b, late, p);
      SaveElsewhere(Save(a, between), late, p);
      SaveElsewhere(Save(b, between), late, p);
      if p != between.path {
        SaveElsewhere(a, between, p);
        SaveElsewhere(b, between, p);
      }
    } else if between.path != late.path {
      SaveElsewhere(a, between, p);
      SaveElsewhere(b, between, p);
    }
  }

  lemma SaveCongruent(a: Disk, b: Disk, between: FileObj, late: FileObj)
    requires Save(a, late) == Save(b, late)
    ensures Save(Save(a, between), late) == Save(Save(b, between), late)
  {
    var l, r := Save(Save(a, between), late), Save(Save(b, between), late);
    forall p: Path { SaveCongruentAt(a, b, between, late, p); }
    assert l.Keys == r.Keys;
  }

  /** Before a final save of `h`, every earlier save of `h` may be left out. */
  lemma {:induction false} DropEarlierSaves(disk: Disk, o1: seq<FileObj>, o2: seq<FileObj>, order: seq<nat>, h: nat)
    requires h < |o1| == |o2| && forall k | k in order :: k < |o1|
    requires forall k | 0 <= k < |o1| && k != h :: o1[k] == o2[k]
    requires o1[h].path == o2[h].path && SameButFlags(o1[h].repos, o2[h].repos)
    ensures Save(SaveAll(disk, o1, order), o2[h]) == Save(SaveAll(disk, o2, Without(order, h)), o2[h])
  {
    if order != [] {
      var init, last := Front(order), Last(order);
      DropEarlierSaves(disk, o1, o2, init, h);
      var d1, d2 := SaveAll(disk, o1, init), SaveAll(disk, o2, Without(init, h));
      if last == h {
        SaveAbsorbs(d1, o1[h], o2[h]);
      } else {
        SaveCongruent(d1, d2, o1[last], o2[h]);
        var w := Without(order, h);
        assert Front(w) == Without(init, h);
      }
    }
  }

  lemma OneFlagDiffers(objs: seq<FileObj>, h: nat, id: string, value: bool)
    requires h < |objs| && id in objs[h].repos
    ensures var o := SetFlag(objs, h, id, value);
            && |o| == |objs|
            && o[h].path == objs[h].path && SameButFlags(objs[h].repos, o[h].repos)
            && forall k | 0 <= k < |objs| && k != h :: o[k] == objs[k]
  {
  }

  /** Saving `earlier`, then flagging one more id of file `h` and saving that, is saving the whole
      with the new flag in place. */
  lemma FlagAfterSaves(disk: Disk, o1: seq<FileObj>, earlier: seq<nat>, h: nat, id: string, value: bool)
    requires h < |o1| && id in o1[h].repos && forall k | k in earlier :: k < |o1|
    ensures var o2 := SetFlag(o1, h, id, value);
            Save(SaveAll(disk, o1, earlier), o2[h]) == SaveAll(disk, o2, Without(earlier, h) + [h])
  {
    var o2 := SetFlag(o1, h, id, value);
    OneFlagDiffers(o1, h, id, value);
    DropEarlierSaves(disk, o1, o2, earlier, h);
    var order := Without(earlier, h) + [h];
    assert Front(order) == Without(earlier, h) && Last(order) == h;
  }

  lemma BatchStep(st: State, ids: seq<string>, value: bool, o1: seq<FileObj>)
    requires ids != [] && SetFlags(st.objs, st.idx, Front(ids), value) == (o1, true)
    requires Known(o1, st.idx, Last(ids))
    requires forall h | h in LastTouch(st.idx, Front(ids)) :: h < |o1|
    ensures EnableOne(State(o1, st.idx, SaveAll(st.disk, o1, LastTouch(st.idx, Front(ids)))), Last(ids), value)
         == EnableMany(st, ids, value, LastTouch(st.idx, ids))
  {
    var h := st.idx[Last(ids)];
    var earlier := LastTouch(st.idx, Front(ids));
    FlagAfterSaves(st.disk, o1, earlier, h, Last(ids), value);
    assert LastTouch(st.idx, ids) == Without(earlier, h) + [h];
    assert SetFlags(st.objs, st.idx, ids, value) == (SetFlag(o1, h, Last(ids), value), true);
  }

  lemma TouchedInRange(st: State, ids: seq<string>, h: nat)
    requires forall id | id in ids :: Known(st.objs, st.idx, id)
    requires h in Touched(st.idx, ids)
    ensures h < |st.objs|
  {
  }

  /** Whatever the aliasing, a batch whose ids are all known leaves memory, index and disk as the
      single calls would, one id after the other. */
  lemma {:induction false} BatchIsFoldOfSingles(st: State, ids: seq<string>, value: bool)
    requires forall id | id in ids :: Known(st.objs, st.idx, id)
    ensures EnableEach(st, ids, value) == EnableMany(st, ids, value, LastTouch(st.idx, ids))
    ensures EnableEach(st, ids, value).1
  {
    if ids != [] {
      BatchIsFoldOfSingles(st, Front(ids), value);
      SetFlagsKeepsFiles(st.objs, st.idx, Front(ids), value);
      var o1 := SetFlags(st.objs, st.idx, Front(ids), value).0;
      KnownInSameFiles(st.objs, o1, st.idx, Last(ids));
      forall h | h in LastTouch(st.idx, Front(ids))
        ensures h < |o1|
      {
        TouchedInRange(st, Front(ids), h);
      }
      BatchStep(st, ids, value, o1);
    }
  }
}
