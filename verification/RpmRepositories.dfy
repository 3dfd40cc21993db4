/** Repositories on the heap: RPMRepository, RPMRepositoryParser and RPMRepositoryFile of
    src/services/repos.cpp, each method proved against `RepoFiles`. */
module RpmRepositories {
  import opened Wrappers
  import opened Sequences
  import opened KeyFiles
  import opened RepoFiles
  import opened Orders
  import RepoIndex

  // ------------------------------------------------------- the parser

  /** Read every group of the file into a repository of its own. */
  method ParseFile(file: KeyFile<RepoKey>) returns (repos: Option<Repos>)
    ensures repos == Parse(file.data, file.path)
  {
    var left := file.data.Keys;
    var output: Repos := map[];
    while left != {}
      invariant left <= file.data.Keys && output.Keys == file.data.Keys - left
      invariant forall id | id in output :: ReadRepo(file.data[id], id, file.path) == Ok(output[id])
    {
      var id :| id in left;
      var r := ReadRepo(file.data[id], id, file.path);
      if r.Err? {
        return None;
      }
      output := output[id := r.value];
      left := left - {id};
    }
    assert output == Parse(file.data, file.path).value;
    return Some(output);
  }

  function PutRepo(c: RepoContent, r: Repo): RepoContent {
    c[r.group := GetGroup(c, r.group) + Entries(r)]
  }

  function PutOpt(g: RepoGroup, key: RepoKey, value: Option<string>): RepoGroup {
    if value.Some? then g[key := value.value] else g
  }

  lemma SixKeys(g: RepoGroup, r: Repo)
    ensures PutOpt(PutOpt(PutOpt(
              g[Name := r.name][Enabled := BooleanText(r.enabled)][GpgCheck := BooleanText(r.gpgcheck)],
              GpgKey, r.gpgkey), Metalink, r.metalink), BaseUrl, r.baseurl)
         == g + Entries(r)
  {
    var g3 := g[Name := r.name][Enabled := BooleanText(r.enabled)][GpgCheck := BooleanText(r.gpgcheck)];
    var g6 := PutOpt(PutOpt(PutOpt(g3, GpgKey, r.gpgkey), Metalink, r.metalink), BaseUrl, r.baseurl);
    forall key: RepoKey
      ensures GetStringOpt(g6, key) == GetStringOpt(g + Entries(r), key)
    {
      Lookup(g, r, key);
    }
    SameLookups(g6, g + Entries(r));
  }

  lemma SameLookups(a: RepoGroup, b: RepoGroup)
    requires forall key :: GetStringOpt(a, key) == GetStringOpt(b, key)
    ensures a == b
  {
    forall key: RepoKey
      ensures key in a <==> key in b
    {
      assert GetStringOpt(a, key) == GetStringOpt(b, key);
    }
    forall key | key in a
      ensures a[key] == b[key]
    {
      assert GetStringOpt(a, key) == GetStringOpt(b, key);
    }
  }

  lemma SetKeyWithin(c: RepoContent, group: string, g: RepoGroup, key: RepoKey, value: string)
    ensures SetKey(c[group := g], group, key, value) == c[group := g[key := value]]
  {
  }

  method WriteRepo(file: KeyFile<RepoKey>, repo: Repo)
    modifies file
    ensures file.data == PutRepo(old(file.data), repo)
  {
    ghost var c, g := file.data, GetGroup(file.data, repo.group);
    file.SetString(repo.group, Name, repo.name);
    ghost var g1 := g[Name := repo.name];
    SetKeyWithin(c, repo.group, g1, Enabled, BooleanText(repo.enabled));
    file.SetBoolean(repo.group, Enabled, repo.enabled);
    ghost var g2 := g1[Enabled := BooleanText(repo.enabled)];
    SetKeyWithin(c, repo.group, g2, GpgCheck, BooleanText(repo.gpgcheck));
    file.SetBoolean(repo.group, GpgCheck, repo.gpgcheck);
    WriteOptionals(file, repo, c, g2[GpgCheck := BooleanText(repo.gpgcheck)]);
    SixKeys(g, repo);
  }

  method WriteOptionals(file: KeyFile<RepoKey>, repo: Repo, ghost c: RepoContent, ghost g: RepoGroup)
    requires file.data == c[repo.group := g]
    modifies file
    ensures file.data == c[repo.group := PutOpt(PutOpt(PutOpt(g, GpgKey, repo.gpgkey), Metalink, repo.metalink), BaseUrl, repo.baseurl)]
  {
    if repo.gpgkey.Some? { SetKeyWithin(c, repo.group, g, GpgKey, repo.gpgkey.value); }
    file.SetStringOpt(repo.group, GpgKey, repo.gpgkey);
    ghost var g1 := PutOpt(g, GpgKey, repo.gpgkey);
    if repo.metalink.Some? { SetKeyWithin(c, repo.group, g1, Metalink, repo.metalink.value); }
    file.SetStringOpt(repo.group, Metalink, repo.metalink);
    ghost var g2 := PutOpt(g1, Metalink, repo.metalink);
    if repo.baseurl.Some? { SetKeyWithin(c, repo.group, g2, BaseUrl, repo.baseurl.value); }
    file.SetStringOpt(repo.group, BaseUrl, repo.baseurl);
  }

  lemma PutRepoGroup(c: RepoContent, r: Repo, g: string)
    ensures GetGroup(PutRepo(c, r), g) == if g == r.group then GetGroup(c, g) + Entries(r) else GetGroup(c, g)
  {
  }

  lemma NoKeys(g: RepoGroup)
    ensures g + map[] == g
  {
  }

  lemma WritesOneMore(done: Repos, r: Repo, more: Repos, g: string)
    requires r.group !in done && more == done[r.group := r]
    ensures GetGroup(Writes(more), g) == if g == r.group then Entries(r) else GetGroup(Writes(done), g)
    ensures g == r.group ==> GetGroup(Writes(done), g) == map[]
  {
  }

  lemma OneMoreRepoAt(base: RepoContent, done: Repos, r: Repo, more: Repos, g: string)
    requires r.group !in done && more == done[r.group := r]
    ensures GetGroup(PutRepo(Overlay(base, Writes(done)), r), g) == GetGroup(Overlay(base, Writes(more)), g)
  {
    OverlayGroup(base, Writes(done), g);
    OverlayGroup(base, Writes(more), g);
    WritesOneMore(done, r, more, g);
    PutRepoGroup(Overlay(base, Writes(done)), r, g);
    NoKeys(GetGroup(base, g));
  }

  lemma OneMoreRepo(base: RepoContent, done: Repos, r: Repo, more: Repos)
    requires r.group !in done && more == done[r.group := r]
    ensures PutRepo(Overlay(base, Writes(done)), r) == Overlay(base, Writes(more))
  {
    forall g: string { OneMoreRepoAt(base, done, r, more, g); }
    OverlayKeys(base, Writes(done));
    OverlayKeys(base, Writes(more));
    ContentEqual(PutRepo(Overlay(base, Writes(done)), r), Overlay(base, Writes(more)));
  }

  /** The repositories written one after the other, each into its own group. */
  function PutAll(c: RepoContent, repos: Repos, order: seq<string>): RepoContent
    requires forall id | id in order :: id in repos
  {
    if order == [] then c else PutRepo(PutAll(c, repos, Front(order)), repos[Last(order)])
  }

  function Among(repos: Repos, order: seq<string>): Repos {
    map id | id in order && id in repos :: repos[id]
  }

  /** Where every repository has the group of its id, the order does not matter: all of them are laid
      over what the file holds. */
  lemma {:induction false} PutAllIsOverlay(c: RepoContent, repos: Repos, order: seq<string>)
    requires WellKeyed(repos) && Distinct(order) && forall id | id in order :: id in repos
    ensures PutAll(c, repos, order) == Overlay(c, Writes(Among(repos, order)))
  {
    if order == [] {
      OverlayIdentity(c, Writes(Among(repos, order)));
    } else {
      DistinctFront(order);
      PutAllIsOverlay(c, repos, Front(order));
      assert Among(repos, order) == Among(repos, Front(order))[Last(order) := repos[Last(order)]];
      OneMoreRepo(c, Among(repos, Front(order)), repos[Last(order)], Among(repos, order));
    }
  }

  /** Where repositories share a group, the file holds the entries of the one written last. */
  lemma {:induction false} LastOfGroupWins(c: RepoContent, repos: Repos, order: seq<string>, k: nat, key: RepoKey)
    requires k < |order| && forall id | id in order :: id in repos
    requires forall j | k < j < |order| :: repos[order[j]].group != repos[order[k]].group
    requires key in Entries(repos[order[k]])
    ensures GetStringOpt(GetGroup(PutAll(c, repos, order), repos[order[k]].group), key) == Some(Entries(repos[order[k]])[key])
  {
    if k < |order| - 1 {
      assert Front(order)[k] == order[k];
      LastOfGroupWins(c, repos, Front(order), k, key);
      PutRepoGroup(PutAll(c, repos, Front(order)), repos[Last(order)], repos[order[k]].group);
    }
  }

  /** What unparse leaves in a file that held `c`: the repositories written in the order of their
      ids. */
  ghost function Unparsed(c: RepoContent, repos: Repos): RepoContent {
    AscendingEnumerates(repos.Keys);
    PutAll(c, repos, Ascending(repos.Keys))
  }

  lemma UnparsedIsOverlay(c: RepoContent, repos: Repos)
    requires WellKeyed(repos)
    ensures Unparsed(c, repos) == Overlay(c, Writes(repos))
  {
    AscendingEnumerates(repos.Keys);
    PutAllIsOverlay(c, repos, Ascending(repos.Keys));
    assert Among(repos, Ascending(repos.Keys)) == repos;
  }

  /** `data` is `c` with the repositories of `order` written, and those of `left` are still to come. */
  ghost predicate WrittenSoFar(c: RepoContent, repos: Repos, order: seq<string>, left: set<string>, data: RepoContent) {
    && order + Ascending(left) == Ascending(repos.Keys) && left <= repos.Keys
    && (forall id | id in order :: id in repos)
    && data == PutAll(c, repos, order)
  }

  lemma WriteNext(c: RepoContent, repos: Repos, order: seq<string>, left: set<string>, data: RepoContent, id: string)
    requires WrittenSoFar(c, repos, order, left, data) && IsLeast(id, left)
    ensures WrittenSoFar(c, repos, order + [id], left - {id}, PutRepo(data, repos[id]))
  {
    NextAscending(id, left);
    FrontOfAppend(order, id);
    Associative(order, [id], Ascending(left - {id}));
  }

  lemma AllWritten(c: RepoContent, repos: Repos, order: seq<string>, data: RepoContent)
    requires WrittenSoFar(c, repos, order, {}, data)
    ensures data == Unparsed(c, repos)
  {
    assert order + [] == order;
  }

  method WriteAll(file: KeyFile<RepoKey>, repos: Repos)
    modifies file
    ensures file.data == Unparsed(old(file.data), repos)
  {
    ghost var order: seq<string> := [];
    var left := repos.Keys;
    assert [] + Ascending(left) == Ascending(left);
    while left != {}
      invariant WrittenSoFar(old(file.data), repos, order, left, file.data)
    {
      LeastExists(left);
      var id :| IsLeast(id, left);
      WriteNext(old(file.data), repos, order, left, file.data, id);
      WriteRepo(file, repos[id]);
      order := order + [id];
      left := left - {id};
    }
    AllWritten(old(file.data), repos, order, file.data);
  }

  /** Write every repository over what the file on disk holds. */
  method UnparseFile(fs: FileSystem<RepoKey>, repos: Repos, path: Path)
    modifies fs`files
    ensures fs.files == old(fs.files)[path := Unparsed(Load(old(fs.files), path), repos)]
    ensures WellKeyed(repos) ==> fs.files == RepoIndex.Save(old(fs.files), RepoIndex.FileObj(path, repos))
  {
    var file := new KeyFile(fs, path);
    WriteAll(file, repos);
    file.Save(fs);
    if WellKeyed(repos) {
      UnparsedIsOverlay(Load(old(fs.files), path), repos);
    }
  }

  // ----------------------------------------------------- repository files

  /** A loaded file. Its repositories are reached through it alone (`repo` of the manager hands out
      copies), so they are kept as values in the map it updates. */
  class RPMRepositoryFile {
    const path: Path
    var repos: Repos

    constructor (path: Path, repos: Repos)
      ensures this.path == path && this.repos == repos
    {
      this.path, this.repos := path, repos;
    }

    function Value(): RepoIndex.FileObj
      reads this
    {
      RepoIndex.FileObj(path, repos)
    }

    method SetEnabled(id: string, value: bool)
      requires id in repos
      modifies this
      ensures repos == old(repos)[id := old(repos)[id].(enabled := value)]
    {
      repos := repos[id := repos[id].(enabled := value)];
    }

    method Save(fs: FileSystem<RepoKey>)
      modifies fs`files
      ensures fs.files == old(fs.files)[path := Unparsed(Load(old(fs.files), path), repos)]
      ensures WellKeyed(repos) ==> fs.files == RepoIndex.Save(old(fs.files), Value())
    {
      UnparseFile(fs, repos, path);
    }
  }

  /** The constructor that parses; it throws when the file cannot be read. */
  method OpenFile(fs: FileSystem<RepoKey>, path: Path) returns (f: Option<RPMRepositoryFile>)
    ensures f.Some? <==> Parse(Load(fs.files, path), path).Some?
    ensures f.Some? ==>
      fresh(f.value) && f.value.Value() == RepoIndex.FileObj(path, Parse(Load(fs.files, path), path).value)
  {
    var file := new KeyFile(fs, path);
    var repos := ParseFile(file);
    if repos.None? {
      return None;
    }
    var loaded := new RPMRepositoryFile(path, repos.value);
    return Some(loaded);
  }
}
