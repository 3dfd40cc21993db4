/** Loading the base directory again and enabling the default names again, and the repository menu:
    RepoManager::initializeDefaultRepositories after the files are generated, RPMRepoManager::repos
    and PresenterRepository. */
module RepoReload {
  import opened Wrappers
  import opened Sequences
  import opened KeyFiles
  import opened RepoFiles
  import opened RepoIndex
  import opened RepoCoherence
  import opened Orders
  import opened RepoFailures

  // ----------------------------------------------- loading the base directory

  /** The ids a file of the base directory would bring. */
  function FileIds(disk: Disk, base: string, file: string): set<string> {
    Load(disk, Path(base, file)).Keys
  }

  predicate Loads(disk: Disk, base: string, files: seq<string>) {
    forall f | f in files :: Parse(Load(disk, Path(base, f)), Path(base, f)).Some?
  }

  /** First come, first kept: loading the base directory never moves an id that is indexed, and
      adds exactly the ids the loaded files hold. */
  lemma {:induction false} LoadBaseDir(st: State, base: string, files: seq<string>)
    ensures var (s, ok) := LoadDir(st, base, base, files);
      && s.disk == st.disk && st.objs <= s.objs
      && (ok <==> Loads(st.disk, base, files))
      && (forall id | id in st.idx :: id in s.idx && s.idx[id] == st.idx[id])
      && (ok ==> forall id :: id in s.idx <==> id in st.idx || exists f :: f in files && id in FileIds(st.disk, base, f))
  {
    if files != [] {
      LoadBaseDir(st, base, Front(files));
      var (m, ok) := LoadDir(st, base, base, Front(files));
      var f := Last(files);
      if ok && Parse(Load(m.disk, Path(base, f)), Path(base, f)).Some? {
        ParseIsWellKeyed(Load(m.disk, Path(base, f)), Path(base, f));
      }
    }
  }

  /** So the index stays as it is exactly when no loaded file holds an id not indexed yet. */
  lemma IndexUnchangedIff(st: State, base: string, files: seq<string>)
    requires Loads(st.disk, base, files)
    ensures LoadDir(st, base, base, files).0.idx == st.idx
       <==> forall f | f in files :: FileIds(st.disk, base, f) <= st.idx.Keys
  {
    LoadBaseDir(st, base, files);
    var s := LoadDir(st, base, base, files).0;
    if forall f | f in files :: FileIds(st.disk, base, f) <= st.idx.Keys {
      assert s.idx.Keys == st.idx.Keys;
    }
    if s.idx == st.idx {
      forall f | f in files
        ensures FileIds(st.disk, base, f) <= st.idx.Keys
      {
        assert forall id | id in FileIds(st.disk, base, f) :: id in s.idx;
      }
    }
  }

  // ----------------------------------------------------------- batch flags

  lemma BatchObjects(st: State, ids: seq<string>, value: bool, order: seq<nat>)
    requires EnableMany(st, ids, value, order).1
    ensures EnableMany(st, ids, value, order).0.idx == st.idx
    ensures SetFlags(st.objs, st.idx, ids, value) == (EnableMany(st, ids, value, order).0.objs, true)
  {
  }

  lemma BatchKeepsGood(st: State, ids: seq<string>, value: bool, order: seq<nat>)
    requires Good(st) && SaveOrder(order, st.idx, ids)
    requires forall k | k in ids :: k in st.idx
    ensures EnableMany(st, ids, value, order).1 && Good(EnableMany(st, ids, value, order).0)
    ensures EnableMany(st, ids, value, order).0.idx == st.idx
    ensures SetFlags(st.objs, st.idx, ids, value) == (EnableMany(st, ids, value, order).0.objs, true)
  {
    BatchIsSinglesInAnyOrder(st, ids, value, order);
    var each := EnableEach(st, ids, value);
    EnableEachKeepsGood(st, ids, value);
    assert EnableMany(st, ids, value, order) == each;
    BatchObjects(st, ids, value, order);
  }

  /** The flags after a batch: the new value for the named ids of their files, no other changes. */
  lemma BatchFlags(st: State, ids: seq<string>, value: bool, order: seq<nat>, h: nat, id: string)
    requires Good(st) && SaveOrder(order, st.idx, ids)
    requires forall k | k in ids :: k in st.idx
    requires h < |st.objs| && id in st.objs[h].repos
    ensures var s := EnableMany(st, ids, value, order).0;
      && h < |s.objs| && id in s.objs[h].repos
      && FlagOf(s.objs, h, id) == if id in ids && st.idx[id] == h then value else FlagOf(st.objs, h, id)
  {
    BatchKeepsGood(st, ids, value, order);
    SetFlagsEffect(st.objs, st.idx, ids, value, h, id);
  }

  /** The last two steps of initializeDefaultRepositories. */
  function Reload(st: State, base: string, files: seq<string>, names: seq<string>, order: seq<nat>): (State, bool) {
    var (s, ok) := LoadDir(st, base, base, files);
    if ok then EnableMany(s, names, true, order) else (s, false)
  }

  /** What a repeated initialisation may count on: the directory holds nothing the manager does not
      know, and the default names are loaded. */
  predicate NothingNew(st: State, base: string, files: seq<string>, names: seq<string>, order: seq<nat>) {
    && Loads(st.disk, base, files)
    && (forall f | f in files :: FileIds(st.disk, base, f) <= st.idx.Keys)
    && (forall id | id in names :: id in st.idx)
    && SaveOrder(order, st.idx, names)
  }

  /** It succeeds, keeps the index, enables the default names and keeps every other flag. */
  lemma ReloadKeepsFlags(st: State, base: string, files: seq<string>, names: seq<string>, order: seq<nat>, h: nat,
                         id: string)
    requires Good(st) && NothingNew(st, base, files, names, order)
    requires h < |st.objs| && id in st.objs[h].repos
    ensures var (s, ok) := Reload(st, base, files, names, order);
      && ok && Good(s) && s.idx == st.idx
      && h < |s.objs| && id in s.objs[h].repos
      && FlagOf(s.objs, h, id) == (FlagOf(st.objs, h, id) || (id in names && st.idx[id] == h))
  {
    LoadDirKeepsGood(st, base, base, files);
    LoadBaseDir(st, base, files);
    IndexUnchangedIff(st, base, files);
    BatchKeepsGood(LoadDir(st, base, base, files).0, names, true, order);
    BatchFlags(LoadDir(st, base, base, files).0, names, true, order, h, id);
  }

  /** Saving what was just saved changes nothing, whatever else was saved alongside. */
  lemma SavedAgainAt(disk: Disk, objs: seq<FileObj>, more: seq<FileObj>, order: seq<nat>, again: seq<nat>, p: Path)
    requires InRange(objs, order) && Distinct(order) && PathsApart(objs, order)
    requires objs <= more && Distinct(again) && forall h :: h in again <==> h in order
    ensures InRange(more, again)
    ensures var d := SaveAll(disk, objs, order); var e := SaveAll(d, more, again);
            (p in e <==> p in d) && (p in d ==> e[p] == d[p])
  {
    var d := SaveAll(disk, objs, order);
    assert forall h | h in order :: more[h] == objs[h];
    if h :| h in order && objs[h].path == p {
      SaveAllHits(disk, objs, order, h);
      SaveAllHits(d, more, again, h);
      OverlayAbsorbs(Load(disk, p), Writes(objs[h].repos), Writes(objs[h].repos));
    } else {
      SaveAllMisses(d, more, again, p);
    }
  }

  lemma NothingNewAfterBatch(m: State, s: State, base: string, files: seq<string>, names: seq<string>, order: seq<nat>)
    requires Good(m) && NothingNew(m, base, files, names, order)
    requires EnableMany(m, names, true, order) == (s, true) && Good(s)
    ensures NothingNew(s, base, files, names, order)
  {
    BatchObjects(m, names, true, order);
    forall f | f in files
      ensures Parse(Load(s.disk, Path(base, f)), Path(base, f)).Some?
      ensures FileIds(s.disk, base, f) <= s.idx.Keys
    {
      var p := Path(base, f);
      if h :| h in order && s.objs[h].path == p {
        TouchedIsIndexed(s, names, h);
        var k :| k in s.idx && s.idx[k] == h;
        assert OnDisk(s.disk, s.objs[h]);
        ParseIsWellKeyed(s.disk[p], p);
        assert forall id | id in s.objs[h].repos :: id in s.objs[s.idx[k]].repos;
      } else {
        SaveAllMisses(m.disk, s.objs, order, p);
      }
    }
  }

  /** Once the default names are enabled and saved, initialising again finds the same files, names
      and index, and leaves the disk byte for byte as it was. */
  lemma ReloadAfterBatchWritesNothing(m: State, s: State, base: string, files: seq<string>, names: seq<string>,
                                      order: seq<nat>, again: seq<nat>)
    requires Good(m) && NothingNew(m, base, files, names, order) && SaveOrder(again, m.idx, names)
    requires EnableMany(m, names, true, order) == (s, true)
    ensures var (t, ok) := Reload(s, base, files, names, again);
            ok && t.disk == s.disk && t.idx == s.idx && s.objs <= t.objs
  {
    BatchKeepsGood(m, names, true, order);
    NothingNewAfterBatch(m, s, base, files, names, order);
    LoadBaseDir(s, base, files);
    IndexUnchangedIff(s, base, files);
    SecondBatch(m, s, LoadDir(s, base, base, files).0, names, order, again);
  }

  lemma SecondReloadWritesNothing(st: State, base: string, files: seq<string>, names: seq<string>,
                                  order: seq<nat>, again: seq<nat>)
    requires Good(st) && NothingNew(st, base, files, names, order) && SaveOrder(again, st.idx, names)
    ensures var (s, ok) := Reload(st, base, files, names, order);
            var (t, ok2) := Reload(s, base, files, names, again);
            ok && ok2 && t.disk == s.disk && t.idx == s.idx && s.objs <= t.objs
  {
    LoadDirKeepsGood(st, base, base, files);
    LoadBaseDir(st, base, files);
    IndexUnchangedIff(st, base, files);
    var m := LoadDir(st, base, base, files).0;
    BatchKeepsGood(m, names, true, order);
    ReloadAfterBatchWritesNothing(m, EnableMany(m, names, true, order).0, base, files, names, order, again);
  }

  lemma FlagsAlreadySet(objs: seq<FileObj>, idx: map<string, nat>, names: seq<string>, more: seq<FileObj>)
    requires SetFlags(objs, idx, names, true).1 && SetFlags(objs, idx, names, true).0 <= more
    ensures SetFlags(more, idx, names, true) == (more, true)
  {
    SetFlagsKeepsFiles(objs, idx, names, true);
    forall id | id in names
      ensures Known(more, idx, id) && FlagOf(more, idx[id], id)
    {
      assert Known(objs, idx, id);
      SetFlagsEffect(objs, idx, names, true, idx[id], id);
    }
    SettingSetFlags(more, idx, names, true);
  }

  lemma SavedAgain(disk: Disk, objs: seq<FileObj>, more: seq<FileObj>, order: seq<nat>, again: seq<nat>)
    requires InRange(objs, order) && Distinct(order) && PathsApart(objs, order)
    requires objs <= more && Distinct(again) && forall h :: h in again <==> h in order
    ensures InRange(more, again)
    ensures SaveAll(SaveAll(disk, objs, order), more, again) == SaveAll(disk, objs, order)
  {
    forall p: Path { SavedAgainAt(disk, objs, more, order, again, p); }
    assert SaveAll(SaveAll(disk, objs, order), more, again).Keys == SaveAll(disk, objs, order).Keys;
  }

  lemma SecondBatch(m: State, s: State, n: State, names: seq<string>, order: seq<nat>, again: seq<nat>)
    requires Good(m) && SaveOrder(order, m.idx, names) && SaveOrder(again, m.idx, names)
    requires EnableMany(m, names, true, order) == (s, true)
    requires n.disk == s.disk && n.idx == s.idx && s.objs <= n.objs
    ensures EnableMany(n, names, true, again) == (n, true)
  {
    BatchObjects(m, names, true, order);
    FlagsAlreadySet(m.objs, m.idx, names, n.objs);
    SetFlagsKeepsFiles(m.objs, m.idx, names, true);
    TouchedApart(m, names, order, s.objs);
    SavedAgain(m.disk, s.objs, n.objs, order, again);
  }

  // ------------------------------------------------------------- listing

  /** An enumeration of the indexed ids, as iterating over the index gives one. */
  predicate Enumerates(order: seq<string>, idx: map<string, nat>) {
    && Distinct(order)
    && (forall id | id in order :: id in idx)
    && (forall id | id in idx :: id in order)
  }

  /** `repos()`: walk the index, and every file found there, into a set that compares by id. */
  function Listing(objs: seq<FileObj>, idx: map<string, nat>, order: seq<string>): Repos
    requires forall id | id in order :: Known(objs, idx, id)
  {
    if order == [] then map[]
    else
      assert Known(objs, idx, Last(order));
      AddListed(Listing(objs, idx, Front(order)), objs[idx[Last(order)]].repos)
  }

  function AddListed(seen: Repos, repos: Repos): Repos {
    map id | id in seen.Keys + repos.Keys :: if id in seen then seen[id] else repos[id]
  }

  predicate AllKnown(objs: seq<FileObj>, idx: map<string, nat>) {
    forall id | id in idx :: Known(objs, idx, id)
  }

  /** The list of the manager, which walks its index in the order of the ids. */
  ghost function Listed(objs: seq<FileObj>, idx: map<string, nat>): Repos
    requires AllKnown(objs, idx)
  {
    AscendingEnumerates(idx.Keys);
    Listing(objs, idx, Ascending(idx.Keys))
  }

  /** The list holds each indexed id once, and no other, and shows it as some indexed file has it. */
  lemma ListedIds(st: State, id: string)
    requires Sound(st)
    ensures Listed(st.objs, st.idx).Keys == st.idx.Keys
    ensures id in st.idx ==>
      exists k :: k in st.idx && id in st.objs[st.idx[k]].repos && Listed(st.objs, st.idx)[id] == st.objs[st.idx[k]].repos[id]
  {
    AscendingEnumerates(st.idx.Keys);
    ListingIds(st, Ascending(st.idx.Keys));
    ListingShowsSomeCopy(st, Ascending(st.idx.Keys), id);
  }

  lemma {:induction false} ListingShowsSomeCopy(st: State, order: seq<string>, id: string)
    requires Sound(st) && forall k | k in order :: k in st.idx
    ensures id in Listing(st.objs, st.idx, order) <==> exists k :: k in order && id in st.objs[st.idx[k]].repos
    ensures id in Listing(st.objs, st.idx, order) ==>
      exists k :: k in order && id in st.objs[st.idx[k]].repos
               && Listing(st.objs, st.idx, order)[id] == st.objs[st.idx[k]].repos[id]
  {
    if order != [] {
      ListingShowsSomeCopy(st, Front(order), id);
    }
  }

  /** Each indexed id is listed exactly once, and nothing else is. */
  lemma ListingIds(st: State, order: seq<string>)
    requires Sound(st) && Enumerates(order, st.idx)
    ensures Listing(st.objs, st.idx, order).Keys == st.idx.Keys
  {
    forall id: string
      ensures id in Listing(st.objs, st.idx, order) <==> id in st.idx
    {
      ListingShowsSomeCopy(st, order, id);
      if id in st.idx { assert id in order && id in st.objs[st.idx[id]].repos; }
    }
  }

  predicate UniqueAcrossFiles(st: State)
    requires Sound(st)
  {
    forall id, k | k in st.idx && id in st.objs[st.idx[k]].repos :: st.idx[id] == st.idx[k]
  }

  lemma ListingIsIndexed(st: State, order: seq<string>, id: string)
    requires Sound(st) && UniqueAcrossFiles(st) && Enumerates(order, st.idx) && id in st.idx
    ensures id in Listing(st.objs, st.idx, order)
    ensures Listing(st.objs, st.idx, order)[id] == st.objs[st.idx[id]].repos[id]
  {
    ListingIds(st, order);
    ListingShowsSomeCopy(st, order, id);
  }

  /** The place in the walk of the first indexed file that holds the id. */
  function FirstHolder(st: State, order: seq<string>, id: string): (r: Option<nat>)
    requires Sound(st) && forall k | k in order :: k in st.idx
    ensures r.Some? ==> r.value < |order| && id in st.objs[st.idx[order[r.value]]].repos
    ensures r.Some? ==> forall i | 0 <= i < r.value :: id !in st.objs[st.idx[order[i]]].repos
    ensures r.None? ==> forall i | 0 <= i < |order| :: id !in st.objs[st.idx[order[i]]].repos
  {
    if order == [] then None
    else
      var r := FirstHolder(st, Front(order), id);
      if r.Some? then r
      else if id in st.objs[st.idx[Last(order)]].repos then Some(|order| - 1) else None
  }

  /** Without uniqueness the list may show a copy that no call ever changes: the first file that holds
      the id wins, wherever it comes in the walk. */
  lemma {:induction false} ListingShowsFirstCopy(st: State, order: seq<string>, k: nat, id: string)
    requires Sound(st) && k < |order| && forall i | i in order :: i in st.idx
    requires id in st.objs[st.idx[order[k]]].repos
    requires forall i | 0 <= i < k :: id !in st.objs[st.idx[order[i]]].repos
    ensures id in Listing(st.objs, st.idx, order)
    ensures Listing(st.objs, st.idx, order)[id] == st.objs[st.idx[order[k]]].repos[id]
  {
    if k < |order| - 1 {
      ListingShowsFirstCopy(st, Front(order), k, id);
    } else {
      ListingShowsSomeCopy(st, Front(order), id);
      forall i | i in Front(order)
        ensures id !in st.objs[st.idx[i]].repos
      {
        var j :| 0 <= j < k && order[j] == i;
      }
    }
  }

  // ---------------------------------------------------------------- menu

  /** The listed ids that were not selected, in list order. */
  function ToDisable(listed: seq<string>, selected: seq<string>): (r: seq<string>)
    ensures forall id :: id in r <==> id in listed && id !in selected
  {
    if listed == [] then []
    else
      var rest := ToDisable(Front(listed), selected);
      if Last(listed) in selected then rest else rest + [Last(listed)]
  }

  function ApplyMenu(st: State, listed: seq<string>, selected: seq<string>, off: seq<nat>, on: seq<nat>): (State, bool) {
    var (s, ok) := EnableMany(st, ToDisable(listed, selected), false, off);
    if ok then EnableMany(s, selected, true, on) else (s, false)
  }

  lemma MenuKeepsFiles(st: State, listed: seq<string>, selected: seq<string>, off: seq<nat>, on: seq<nat>)
    requires Good(st) && Enumerates(listed, st.idx)
    requires forall k | k in selected :: k in listed
    requires SaveOrder(off, st.idx, ToDisable(listed, selected)) && SaveOrder(on, st.idx, selected)
    ensures var (s, ok) := ApplyMenu(st, listed, selected, off, on);
      && ok && Good(s) && s.idx == st.idx && |s.objs| == |st.objs|
      && forall h | 0 <= h < |st.objs| :: s.objs[h].repos.Keys == st.objs[h].repos.Keys
  {
    var toDisable := ToDisable(listed, selected);
    BatchKeepsGood(st, toDisable, false, off);
    SetFlagsKeepsFiles(st.objs, st.idx, toDisable, false);
    var m := EnableMany(st, toDisable, false, off).0;
    BatchKeepsGood(m, selected, true, on);
    SetFlagsKeepsFiles(m.objs, m.idx, selected, true);
  }

  /** The menu sets the flag of an id in the file it is indexed to, and in no other file. */
  lemma MenuFlags(st: State, listed: seq<string>, selected: seq<string>, off: seq<nat>, on: seq<nat>, h: nat, id: string)
    requires Good(st) && Enumerates(listed, st.idx) && id in st.idx && h < |st.objs| && id in st.objs[h].repos
    requires forall k | k in selected :: k in listed
    requires SaveOrder(off, st.idx, ToDisable(listed, selected)) && SaveOrder(on, st.idx, selected)
    ensures var s := ApplyMenu(st, listed, selected, off, on).0;
      && h < |s.objs| && id in s.objs[h].repos
      && FlagOf(s.objs, h, id) == if st.idx[id] == h then id in selected else FlagOf(st.objs, h, id)
  {
    var toDisable := ToDisable(listed, selected);
    BatchKeepsGood(st, toDisable, false, off);
    BatchFlags(st, toDisable, false, off, h, id);
    BatchFlags(EnableMany(st, toDisable, false, off).0, selected, true, on, h, id);
  }

  /** After the menu the enabled repositories are exactly the selected ones. */
  lemma MenuEnablesTheSelection(st: State, listed: seq<string>, selected: seq<string>, off: seq<nat>, on: seq<nat>,
                                id: string)
    requires Good(st) && Enumerates(listed, st.idx)
    requires forall k | k in selected :: k in listed
    requires SaveOrder(off, st.idx, ToDisable(listed, selected)) && SaveOrder(on, st.idx, selected)
    requires id in st.idx
    ensures var (s, ok) := ApplyMenu(st, listed, selected, off, on);
      && ok && Good(s) && s.idx == st.idx
      && (FlagOf(s.objs, s.idx[id], id) <==> id in selected)
  {
    MenuKeepsFiles(st, listed, selected, off, on);
    assert Known(st.objs, st.idx, id);
    MenuFlags(st, listed, selected, off, on, st.idx[id], id);
  }

  lemma SameFilesStayUnique(a: State, b: State)
    requires Sound(a) && Sound(b) && a.idx == b.idx && SameFiles(a.objs, b.objs)
    requires UniqueAcrossFiles(a)
    ensures UniqueAcrossFiles(b)
  {
    forall id, k | k in b.idx && id in b.objs[b.idx[k]].repos
      ensures b.idx[id] == b.idx[k]
    {
      assert SameButFlags(a.objs[a.idx[k]].repos, b.objs[b.idx[k]].repos);
    }
  }

  /** And the next list shows exactly the selected ids enabled, when no id lies in two files. */
  lemma NextListShowsTheSelection(st: State, listed: seq<string>, selected: seq<string>, off: seq<nat>, on: seq<nat>,
                                  relisted: seq<string>, id: string)
    requires Good(st) && UniqueAcrossFiles(st) && Enumerates(listed, st.idx) && Enumerates(relisted, st.idx)
    requires forall k | k in selected :: k in listed
    requires SaveOrder(off, st.idx, ToDisable(listed, selected)) && SaveOrder(on, st.idx, selected)
    ensures var s := ApplyMenu(st, listed, selected, off, on).0;
      && (forall k | k in relisted :: Known(s.objs, s.idx, k))
      && var l := Listing(s.objs, s.idx, relisted);
         id in l && l[id].enabled <==> id in selected
  {
    var toDisable := ToDisable(listed, selected);
    BatchKeepsGood(st, toDisable, false, off);
    SetFlagsKeepsFiles(st.objs, st.idx, toDisable, false);
    var m := EnableMany(st, toDisable, false, off).0;
    SameFilesStayUnique(st, m);
    BatchKeepsGood(m, selected, true, on);
    SetFlagsKeepsFiles(m.objs, m.idx, selected, true);
    var s := EnableMany(m, selected, true, on).0;
    SameFilesStayUnique(m, s);
    ListingIds(s, relisted);
    if id in st.idx {
      MenuEnablesTheSelection(st, listed, selected, off, on, id);
      ListingIsIndexed(s, relisted, id);
    }
  }

  /** The file whose copy of the id the list shows is the one the id is indexed to, or its flag, which
      no call changes, happens to be right. */
  predicate ShownRight(st: State, order: seq<string>, selected: seq<string>, id: string)
    requires Sound(st) && Enumerates(order, st.idx) && id in st.idx
  {
    var k := FirstHolder(st, order, id);
    k.Some? && (var h := st.idx[order[k.value]]; h == st.idx[id] || (FlagOf(st.objs, h, id) <==> id in selected))
  }

  /** Without uniqueness the next list shows exactly the selection enabled if and only if each id is
      shown right. */
  lemma NextListShowsTheSelectionIff(st: State, listed: seq<string>, selected: seq<string>, off: seq<nat>, on: seq<nat>,
                                     relisted: seq<string>)
    requires Good(st) && Enumerates(listed, st.idx) && Enumerates(relisted, st.idx)
    requires forall k | k in selected :: k in listed
    requires SaveOrder(off, st.idx, ToDisable(listed, selected)) && SaveOrder(on, st.idx, selected)
    ensures var s := ApplyMenu(st, listed, selected, off, on).0;
      Sound(s) && s.idx == st.idx
    ensures var s := ApplyMenu(st, listed, selected, off, on).0;
      ((forall id | id in st.idx :: Shows(Listing(s.objs, s.idx, relisted), id, id in selected))
       <==> forall id | id in st.idx :: ShownRight(st, relisted, selected, id))
  {
    MenuKeepsFiles(st, listed, selected, off, on);
    var s := ApplyMenu(st, listed, selected, off, on).0;
    forall id | id in st.idx
      ensures Shows(Listing(s.objs, s.idx, relisted), id, id in selected) <==> ShownRight(st, relisted, selected, id)
    {
      ShownAfterMenu(st, listed, selected, off, on, relisted, id);
    }
  }

  predicate Shows(list: Repos, id: string, enabled: bool) {
    id in list && list[id].enabled == enabled
  }

  lemma ShownAfterMenu(st: State, listed: seq<string>, selected: seq<string>, off: seq<nat>, on: seq<nat>,
                       relisted: seq<string>, id: string)
    requires Good(st) && Enumerates(listed, st.idx) && Enumerates(relisted, st.idx) && id in st.idx
    requires forall k | k in selected :: k in listed
    requires SaveOrder(off, st.idx, ToDisable(listed, selected)) && SaveOrder(on, st.idx, selected)
    requires var s := ApplyMenu(st, listed, selected, off, on).0; Sound(s) && s.idx == st.idx
    ensures var s := ApplyMenu(st, listed, selected, off, on).0;
      Shows(Listing(s.objs, s.idx, relisted), id, id in selected) <==> ShownRight(st, relisted, selected, id)
  {
    var s := ApplyMenu(st, listed, selected, off, on).0;
    MenuKeepsFiles(st, listed, selected, off, on);
    var k := FirstHolder(st, relisted, id);
    assert id in relisted;
    var i :| 0 <= i < |relisted| && relisted[i] == id;
    assert id in st.objs[st.idx[relisted[i]]].repos;
    forall j | 0 <= j <= k.value
      ensures s.objs[s.idx[relisted[j]]].repos.Keys == st.objs[st.idx[relisted[j]]].repos.Keys
    {
      assert relisted[j] in st.idx;
    }
    ListingShowsFirstCopy(s, relisted, k.value, id);
    MenuFlags(st, listed, selected, off, on, st.idx[relisted[k.value]], id);
  }
}
