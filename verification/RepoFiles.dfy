/** RPM repositories and the `.repo` files that hold them: RPMRepository and RPMRepositoryParser
    of src/services/repos.cpp. */
module RepoFiles {
  import opened Wrappers
  import opened KeyFiles

  /** The six keys the parser reads and writes; `Other` is any other key a file may hold. */
  datatype RepoKey = Name | Enabled | GpgCheck | GpgKey | Metalink | BaseUrl | Other(text: string)

  type RepoGroup = Group<RepoKey>
  type RepoContent = Content<RepoKey>

  datatype Repo = Repo(
    id: string,
    group: string,
    name: string,
    enabled: bool,
    gpgcheck: bool,
    gpgkey: Option<string>,
    metalink: Option<string>,
    baseurl: Option<string>,
    source: Path)

  type Repos = map<string, Repo>

  function Flagged(r: Repo, value: bool): Repo {
    r.(enabled := value)
  }

  datatype RepoError = MissingKey(key: RepoKey) | EmptyName | BadBoolean(key: RepoKey)

  // ---------------------------------------------------------------- parse

  function ReadFlag(g: RepoGroup, key: RepoKey): Result<bool, RepoError> {
    if key !in g then Err(MissingKey(key))
    else match ReadBoolean(g[key])
      case Some(b) => Ok(b)
      case None => Err(BadBoolean(key))
  }

  function ReadRepo(g: RepoGroup, id: string, path: Path): Result<Repo, RepoError> {
    if Name !in g then Err(MissingKey(Name))
    else if g[Name] == "" then Err(EmptyName)
    else match (ReadFlag(g, Enabled), ReadFlag(g, GpgCheck))
      case (Ok(enabled), Ok(gpgcheck)) =>
        Ok(Repo(id, id, g[Name], enabled, gpgcheck, GetStringOpt(g, GpgKey),
                GetStringOpt(g, Metalink), GetStringOpt(g, BaseUrl), path))
      case (Err(e), _) => Err(e)
      case (_, Err(e)) => Err(e)
  }

  /** What parsing a whole file yields: one repository per group, or `None` when some group is bad. */
  function Parse(c: RepoContent, path: Path): Option<Repos> {
    if forall id | id in c :: ReadRepo(c[id], id, path).Ok?
    then Some(map id | id in c :: ReadRepo(c[id], id, path).value)
    else None
  }

  // -------------------------------------------------------------- unparse

  /** What saving `r` puts under `key`, if anything: an absent optional writes nothing, and so
      erases nothing. */
  function Entry(r: Repo, key: RepoKey): Option<string> {
    match key
    case Name => Some(r.name)
    case Enabled => Some(BooleanText(r.enabled))
    case GpgCheck => Some(BooleanText(r.gpgcheck))
    case GpgKey => r.gpgkey
    case Metalink => r.metalink
    case BaseUrl => r.baseurl
    case Other(_) => None
  }

  function Entries(r: Repo): RepoGroup {
    map key | key in {Name, Enabled, GpgCheck, GpgKey, Metalink, BaseUrl} && Entry(r, key).Some?
            :: Entry(r, key).value
  }

  function Writes(repos: Repos): RepoContent {
    map id | id in repos :: Entries(repos[id])
  }

  /** Both producers of repositories, the parser and the assembler, name a repository's group after
      its id and file it under that id. */
  predicate WellKeyed(repos: Repos) {
    forall id | id in repos :: repos[id].id == id && repos[id].group == id
  }

  function Sourced(repos: Repos, path: Path): Repos {
    map id | id in repos :: repos[id].(source := path)
  }

  lemma ParseIsWellKeyed(c: RepoContent, path: Path)
    requires Parse(c, path).Some?
    ensures Parse(c, path).value.Keys == c.Keys
    ensures WellKeyed(Parse(c, path).value)
    ensures Sourced(Parse(c, path).value, path) == Parse(c, path).value
  {
  }

  // ----------------------------------------------------------- round trip

  /** No optional key that `r` lacks lies in the group it is written to. */
  predicate NoStaleKey(g: RepoGroup, r: Repo) {
    && (r.gpgkey.None? ==> GpgKey !in g)
    && (r.metalink.None? ==> Metalink !in g)
    && (r.baseurl.None? ==> BaseUrl !in g)
  }

  lemma Lookup(g: RepoGroup, r: Repo, key: RepoKey)
    ensures GetStringOpt(g + Entries(r), key) == if Entry(r, key).Some? then Entry(r, key) else GetStringOpt(g, key)
  {
    if Entry(r, key).Some? {
      assert key in {Name, Enabled, GpgCheck, GpgKey, Metalink, BaseUrl};
      assert key in Entries(r);
    } else {
      assert key !in Entries(r);
    }
  }

  lemma EntriesRoundTrip(g: RepoGroup, r: Repo, path: Path)
    requires r.id == r.group
    ensures ReadRepo(g + Entries(r), r.id, path) == Ok(r.(source := path)) <==> RepoRestorable(g, r)
  {
    BooleanRoundTrip(r.enabled);
    BooleanRoundTrip(r.gpgcheck);
    Lookup(g, r, Name);
    Lookup(g, r, Enabled);
    Lookup(g, r, GpgCheck);
    Lookup(g, r, GpgKey);
    Lookup(g, r, Metalink);
    Lookup(g, r, BaseUrl);
  }

  /** The exact condition under which saving repositories to a file and loading that file gives them
      back: the file held no further group, and no stale optional key. */
  predicate Restorable(base: RepoContent, repos: Repos) {
    && base.Keys <= repos.Keys
    && forall id | id in repos :: RepoRestorable(GetGroup(base, id), repos[id])
  }

  predicate RepoRestorable(g: RepoGroup, r: Repo) {
    r.name != "" && NoStaleKey(g, r)
  }

  lemma SavedGroup(base: RepoContent, repos: Repos, id: string)
    requires id in repos
    ensures id in Overlay(base, Writes(repos))
    ensures Overlay(base, Writes(repos))[id] == GetGroup(base, id) + Entries(repos[id])
  {
    OverlayGroup(base, Writes(repos), id);
  }

  predicate Reads(c: RepoContent, repos: Repos, path: Path, id: string)
    requires id in c && id in repos
  {
    ReadRepo(c[id], id, path) == Ok(repos[id])
  }

  lemma ParseGives(c: RepoContent, repos: Repos, path: Path)
    ensures Parse(c, path) == Some(repos)
       <==> c.Keys == repos.Keys && forall id | id in c :: Reads(c, repos, path, id)
  {
    if Parse(c, path) == Some(repos) {
      assert forall id | id in c :: repos[id] == ReadRepo(c[id], id, path).value;
    }
    if c.Keys == repos.Keys && forall id | id in c :: Reads(c, repos, path, id) {
      forall id | id in c
        ensures ReadRepo(c[id], id, path) == Ok(repos[id])
      {
        assert Reads(c, repos, path, id);
      }
      assert Parse(c, path).Some?;
      assert Parse(c, path).value == repos;
    }
  }

  lemma SavedRepoReads(base: RepoContent, repos: Repos, path: Path, id: string)
    requires WellKeyed(repos) && id in repos
    ensures id in Overlay(base, Writes(repos))
    ensures Reads(Overlay(base, Writes(repos)), Sourced(repos, path), path, id)
       <==> RepoRestorable(GetGroup(base, id), repos[id])
  {
    SavedGroup(base, repos, id);
    EntriesRoundTrip(GetGroup(base, id), repos[id], path);
  }

  lemma RestorableIffRead(base: RepoContent, repos: Repos, path: Path, after: RepoContent, want: Repos)
    requires after.Keys == base.Keys + repos.Keys && want.Keys == repos.Keys
    requires forall id | id in repos :: Reads(after, want, path, id) <==> RepoRestorable(GetGroup(base, id), repos[id])
    ensures Parse(after, path) == Some(want) <==> Restorable(base, repos)
  {
    ParseGives(after, want, path);
    assert after.Keys == want.Keys <==> base.Keys <= repos.Keys;
  }

  lemma SavedFileReads(base: RepoContent, repos: Repos, path: Path, after: RepoContent, want: Repos)
    requires WellKeyed(repos) && after == Overlay(base, Writes(repos)) && want == Sourced(repos, path)
    ensures Parse(after, path) == Some(want) <==> Restorable(base, repos)
  {
    assert after.Keys == base.Keys + repos.Keys;
    assert want.Keys == repos.Keys;
    forall id | id in repos
      ensures Reads(after, want, path, id) <==> RepoRestorable(GetGroup(base, id), repos[id])
    {
      SavedRepoReads(base, repos, path, id);
    }
    RestorableIffRead(base, repos, path, after, want);
  }

  lemma RoundTrip(base: RepoContent, repos: Repos, path: Path)
    requires WellKeyed(repos)
    ensures Parse(Overlay(base, Writes(repos)), path) == Some(Sourced(repos, path)) <==> Restorable(base, repos)
  {
    SavedFileReads(base, repos, path, Overlay(base, Writes(repos)), Sourced(repos, path));
  }

  /** Into a new file, only a repository without a name cannot be restored. */
  lemma NewFileRoundTrip(repos: Repos, path: Path)
    requires WellKeyed(repos)
    ensures Parse(Overlay(map[], Writes(repos)), path) == Some(Sourced(repos, path))
       <==> forall id | id in repos :: repos[id].name != ""
  {
    RoundTrip(map[], repos, path);
    var none: RepoGroup := map[];
    assert forall id | id in repos :: NoStaleKey(none, repos[id]);
  }

  /** Whatever the target holds, groups outside the map and keys other than the six survive. */
  lemma UnparseLeavesTheRest(base: RepoContent, repos: Repos, group: string, key: RepoKey)
    requires group in base && key in base[group]
    requires group !in repos || key.Other?
    ensures var after := Overlay(base, Writes(repos));
            group in after && key in after[group] && after[group][key] == base[group][key]
  {
    OverlayGroup(base, Writes(repos), group);
    if group in repos {
      Lookup(base[group], repos[group], key);
      SavedGroup(base, repos, group);
    }
  }

  /** A stale optional key is never erased: it comes back as the repository's own. */
  lemma StaleKeyComesBack()
    ensures exists base: RepoContent, r: Repo, path: Path ::
      && r.gpgkey == None
      && Parse(Overlay(base, Writes(map[r.id := r])), path).Some?
      && Parse(Overlay(base, Writes(map[r.id := r])), path).value.Keys == {r.id}
      && Parse(Overlay(base, Writes(map[r.id := r])), path).value[r.id].gpgkey == Some("k")
  {
    var path := Path("d", "f");
    var r := Repo("epel", "epel", "EPEL", true, false, None, None, None, path);
    var base: RepoContent := map["epel" := map[GpgKey := "k"]];
    BooleanRoundTrip(true);
    BooleanRoundTrip(false);
    var after := Overlay(base, Writes(map[r.id := r]));
    assert after.Keys == {"epel"};
    assert after["epel"] == map[GpgKey := "k"] + Entries(r);
    Lookup(base["epel"], r, Name);
    Lookup(base["epel"], r, Enabled);
    Lookup(base["epel"], r, GpgCheck);
    Lookup(base["epel"], r, GpgKey);
    assert Parse(after, path).value["epel"].gpgkey == Some("k");
  }

  // ------------------------------------------------- saving changed flags

  predicate SameButFlags(a: Repos, b: Repos) {
    && a.Keys == b.Keys
    && forall id | id in a :: b[id] == a[id].(enabled := b[id].enabled)
  }

  lemma FlagsKeepShape(a: Repos, b: Repos)
    requires SameButFlags(a, b)
    ensures SameShape(Writes(a), Writes(b))
  {
    forall id | id in a
      ensures Writes(a)[id].Keys == Writes(b)[id].Keys
    {
      assert b[id] == a[id].(enabled := b[id].enabled);
      assert forall key :: Entry(a[id], key).Some? <==> Entry(b[id], key).Some?;
    }
  }

  lemma ParsedRepo(c: RepoContent, path: Path, id: string)
    requires Parse(c, path).Some? && id in c
    ensures var r := Parse(c, path).value[id];
            r.id == id && r.group == id && r.source == path && RepoRestorable(c[id], r)
  {
    assert ReadRepo(c[id], id, path).Ok?;
  }

  lemma FlaggedRepoRestorable(c: RepoContent, path: Path, before: Repos, after: Repos, id: string)
    requires Parse(c, path) == Some(before) && SameButFlags(before, after) && id in after
    ensures after[id].id == id && after[id].group == id && after[id].(source := path) == after[id]
    ensures RepoRestorable(GetGroup(c, id), after[id])
  {
    ParseIsWellKeyed(c, path);
    ParsedRepo(c, path, id);
    assert after[id] == before[id].(enabled := after[id].enabled);
  }

  lemma SourcedIdentity(repos: Repos, path: Path)
    requires forall id | id in repos :: repos[id].(source := path) == repos[id]
    ensures Sourced(repos, path) == repos
  {
  }

  /** Saving a file whose repositories differ from the disk only in their flags puts exactly those
      repositories on disk. */
  lemma SaveFlags(c: RepoContent, path: Path, before: Repos, after: Repos)
    requires Parse(c, path) == Some(before) && SameButFlags(before, after)
    ensures Parse(Overlay(c, Writes(after)), path) == Some(after)
  {
    forall id | id in after { FlaggedRepoRestorable(c, path, before, after, id); }
    ParseIsWellKeyed(c, path);
    SourcedIdentity(after, path);
    assert Restorable(c, after);
    RoundTrip(c, after, path);
  }

  lemma ParsedFlag(c: RepoContent, path: Path, id: string)
    requires Parse(c, path).Some? && id in c
    ensures ReadFlag(c[id], Enabled) == Ok(Parse(c, path).value[id].enabled)
  {
    assert ReadRepo(c[id], id, path).Ok?;
  }

  // ------------------------------------------------- in terms of the texts

  /** The group says yes or no under the key, in one of the words that stand for it. */
  predicate SaysYesOrNo(g: RepoGroup, key: RepoKey) {
    key in g && g[key] in {"true", "1", "false", "0"}
  }

  predicate SaysYes(g: RepoGroup, key: RepoKey) {
    key in g && g[key] in {"true", "1"}
  }

  lemma ReadFlagTexts(g: RepoGroup, key: RepoKey)
    ensures ReadFlag(g, key).Ok? <==> SaysYesOrNo(g, key)
    ensures ReadFlag(g, key).Ok? ==> (ReadFlag(g, key).value <==> SaysYes(g, key))
  {
    assert "true"[0] != "false"[0] && "true"[0] != "0"[0] && "1"[0] != "false"[0] && "1"[0] != "0"[0];
  }

  /** A file parses exactly when each group has a name that is not empty and says whether it is enabled
      and whether its key is checked. */
  lemma ParseIff(c: RepoContent, path: Path)
    ensures Parse(c, path).Some?
       <==> forall id | id in c ::
              Name in c[id] && c[id][Name] != "" && SaysYesOrNo(c[id], Enabled) && SaysYesOrNo(c[id], GpgCheck)
  {
    forall id | id in c
      ensures ReadRepo(c[id], id, path).Ok?
         <==> Name in c[id] && c[id][Name] != "" && SaysYesOrNo(c[id], Enabled) && SaysYesOrNo(c[id], GpgCheck)
    {
      ReadFlagTexts(c[id], Enabled);
      ReadFlagTexts(c[id], GpgCheck);
    }
  }

  /** Then each repository is what the texts of its group say, every field under its own key. */
  lemma ParsedTexts(c: RepoContent, path: Path, id: string)
    requires Parse(c, path).Some? && id in c
    ensures id in Parse(c, path).value
    ensures var r, g := Parse(c, path).value[id], c[id];
      && r.id == id && r.group == id && r.source == path
      && GetStringOpt(g, Name) == Some(r.name) && r.name != ""
      && (r.enabled <==> SaysYes(g, Enabled)) && (r.gpgcheck <==> SaysYes(g, GpgCheck))
      && r.gpgkey == GetStringOpt(g, GpgKey) && r.metalink == GetStringOpt(g, Metalink) && r.baseurl == GetStringOpt(g, BaseUrl)
  {
    assert ReadRepo(c[id], id, path).Ok?;
    ReadFlagTexts(c[id], Enabled);
    ReadFlagTexts(c[id], GpgCheck);
  }

  /** After a save each group says what its repository is, every field under its own key; an optional
      field without a value leaves the text that was there. */
  lemma SavedTexts(base: RepoContent, repos: Repos, id: string)
    requires id in repos
    ensures id in Overlay(base, Writes(repos))
    ensures var r, g, was := repos[id], Overlay(base, Writes(repos))[id], GetGroup(base, id);
      && GetStringOpt(g, Name) == Some(r.name)
      && GetStringOpt(g, Enabled) == Some(if r.enabled then "true" else "false")
      && GetStringOpt(g, GpgCheck) == Some(if r.gpgcheck then "true" else "false")
      && GetStringOpt(g, GpgKey) == (if r.gpgkey.Some? then r.gpgkey else GetStringOpt(was, GpgKey))
      && GetStringOpt(g, Metalink) == (if r.metalink.Some? then r.metalink else GetStringOpt(was, Metalink))
      && GetStringOpt(g, BaseUrl) == (if r.baseurl.Some? then r.baseurl else GetStringOpt(was, BaseUrl))
  {
    SavedGroup(base, repos, id);
    var was, r := GetGroup(base, id), repos[id];
    Lookup(was, r, Name);
    Lookup(was, r, Enabled);
    Lookup(was, r, GpgCheck);
    Lookup(was, r, GpgKey);
    Lookup(was, r, Metalink);
    Lookup(was, r, BaseUrl);
  }
}
