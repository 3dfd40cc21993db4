/** Choosing between mirror and upstream, assembling repositories from the configuration, and
    writing the missing `.repo` files: RepoChooser, RepoAssembler, RepoConfFile, RepoConfAdapter and
    RepoGenerator of src/services/repos.cpp. */
module RepoGenerator {
  import opened Wrappers
  import opened Sequences
  import opened KeyFiles
  import opened RepoFiles
  import opened RepoIndex
  import opened RpmRepositories

  datatype RepoPaths = RepoPaths(repo: string, gpgkey: Option<string>)

  datatype RepoConfig = RepoConfig(id: string, name: string, filename: string, mirror: RepoPaths, upstream: RepoPaths)

  datatype Options = Options(mirrorBaseUrl: string, disableMirrors: bool)

  datatype Query = LocalPath(path: string) | Url(url: string)

  /** What the file system and the network answer, query by query: the same query may be answered
      differently the next time it is made. */
  type Answers = (Query, nat) -> bool

  datatype Choice = Upstream | Mirror

  // ------------------------------------------------- mirror and upstream

  /** `utils::string::rstrip(text, "/")` */
  function StripSlashes(text: string): (r: string)
    ensures r <= text
    ensures r == [] || Last(r) != '/'
    ensures forall i | |r| <= i < |text| :: text[i] == '/'
  {
    if text != [] && Last(text) == '/' then StripSlashes(Front(text)) else text
  }

  function MirrorUrl(opts: Options, paths: RepoPaths): string {
    StripSlashes(opts.mirrorBaseUrl + "/" + paths.repo)
  }

  function MirrorKey(opts: Options, paths: RepoPaths): Option<string> {
    if paths.gpgkey.None? then None else Some(opts.mirrorBaseUrl + "/" + paths.gpgkey.value)
  }

  function MirrorQuery(opts: Options, paths: RepoPaths): Query {
    var url := MirrorUrl(opts, paths);
    if "file://" <= opts.mirrorBaseUrl
    then LocalPath(if |"file://"| <= |url| then url[|"file://"|..] else "")
    else Url(url + "/repodata/repomd.xml")
  }

  predicate MirrorExists(opts: Options, paths: RepoPaths, answers: Answers) {
    paths.repo != "" && answers(MirrorQuery(opts, paths), 0)
  }

  function UpstreamUrl(paths: RepoPaths): string {
    StripSlashes(paths.repo)
  }

  /** Asked for the `attempt`-th time. */
  function UpstreamKey(paths: RepoPaths, answers: Answers, attempt: nat): Option<string> {
    if paths.gpgkey.Some? && answers(Url(paths.gpgkey.value), attempt) then paths.gpgkey else None
  }

  function Choose(opts: Options, config: RepoConfig, answers: Answers, forceUpstream: bool): Choice {
    if forceUpstream || opts.disableMirrors || !MirrorExists(opts, config.mirror, answers) then Upstream else Mirror
  }

  function Assemble(opts: Options, config: RepoConfig, answers: Answers, enabled: bool, forceUpstream: bool): Repo {
    var choice := Choose(opts, config, answers, forceUpstream);
    var baseurl := if choice == Mirror then MirrorUrl(opts, config.mirror) else UpstreamUrl(config.upstream);
    var key := if choice == Mirror then MirrorKey(opts, config.mirror) else UpstreamKey(config.upstream, answers, 0);
    var keyAgain := if choice == Mirror then MirrorKey(opts, config.mirror) else UpstreamKey(config.upstream, answers, 1);
    Repo(config.id, config.id, config.name, enabled, keyAgain.Some?, key, None, Some(baseurl), Path("", config.filename))
  }

  /** Of all that the network and the file system answer, the one query for the mirror decides where
      packages come from; and if it comes to the mirror, the whole repository. */
  lemma ChosenSide(opts: Options, config: RepoConfig, answers: Answers, others: Answers, enabled: bool, forceUpstream: bool)
    requires forceUpstream || opts.disableMirrors
          || answers(MirrorQuery(opts, config.mirror), 0) == others(MirrorQuery(opts, config.mirror), 0)
    ensures var r, s := Assemble(opts, config, answers, enabled, forceUpstream), Assemble(opts, config, others, enabled, forceUpstream);
      && r.baseurl == s.baseurl
      && (Choose(opts, config, answers, forceUpstream) == Mirror ==> r == s)
  {
  }

  /** Base URL and key always come from the same side. */
  predicate OneSided(opts: Options, config: RepoConfig, r: Repo) {
    || (r.baseurl == Some(MirrorUrl(opts, config.mirror)) && r.gpgkey == MirrorKey(opts, config.mirror))
    || (r.baseurl == Some(UpstreamUrl(config.upstream)) && (r.gpgkey == config.upstream.gpgkey || r.gpgkey == None))
  }

  /** The key is checked exactly when there is one, unless the upstream key URL answers the second
      time other than the first. */
  lemma KeyIsCheckedIff(opts: Options, config: RepoConfig, answers: Answers, enabled: bool, forceUpstream: bool)
    ensures var r := Assemble(opts, config, answers, enabled, forceUpstream);
      && OneSided(opts, config, r)
      && ((r.gpgcheck <==> r.gpgkey.Some?) <==>
            || Choose(opts, config, answers, forceUpstream) == Mirror
            || config.upstream.gpgkey.None?
            || (answers(Url(config.upstream.gpgkey.value), 0) <==> answers(Url(config.upstream.gpgkey.value), 1)))
  {
  }

  /** With the upstream key there at the first query and gone at the second, the repository has a key
      that is never checked. */
  lemma KeyIsNotChecked()
    ensures var config := RepoConfig("x", "X", "x.repo", RepoPaths("", None), RepoPaths("http://u", Some("http://u/key")));
      var r := Assemble(Options("http://m", true), config, (query, attempt) => attempt == 0, false, false);
      r.gpgkey == Some("http://u/key") && !r.gpgcheck
  {
  }

  // ------------------------------------------------------- configuration

  /** Repository configurations by the file they go to, in the order they were read. */
  type ConfFile = map<string, seq<RepoConfig>>

  function ConfigsOf(conf: ConfFile, filename: string): seq<RepoConfig> {
    if filename in conf then conf[filename] else []
  }

  class RepoConfFile {
    var files: ConfFile

    constructor ()
      ensures files == map[]
    {
      files := map[];
    }

    method Insert(filename: string, value: RepoConfig)
      modifies this
      ensures files == old(files)[filename := ConfigsOf(old(files), filename) + [value]]
    {
      if filename !in files {
        files := files[filename := []];
      }
      files := files[filename := files[filename] + [value]];
    }
  }

  datatype ConfFiles = ConfFiles(distro: ConfFile, nonDistro: ConfFile)

  /** Which configuration a query is made for. */
  datatype Site = Site(distro: bool, filename: string, index: nat)

  type Oracle = (Site, Query, nat) -> bool

  function AnswersAt(oracle: Oracle, site: Site): Answers {
    (query: Query, attempt: nat) => oracle(site, query, attempt)
  }

  /** What `fromConfig` makes of a configuration: not enabled, no side forced. */
  function Assembled(opts: Options, oracle: Oracle, site: Site, config: RepoConfig): Repo {
    Assemble(opts, config, AnswersAt(oracle, site), false, false)
  }

  ghost predicate Stable(oracle: Oracle) {
    forall site, query, n, m :: oracle(site, query, n) == oracle(site, query, m)
  }

  /** A generated repository is disabled, named as configured and one-sided, and, when the answers
      hold still, checks its key exactly when it has one. */
  ghost predicate FaithfulTo(opts: Options, oracle: Oracle, config: RepoConfig, r: Repo) {
    && r.id == config.id && r.group == config.id && r.name == config.name
    && !r.enabled && r.metalink == None && OneSided(opts, config, r)
    && (Stable(oracle) ==> (r.gpgcheck <==> r.gpgkey.Some?))
  }

  lemma AssembledIsFaithful(opts: Options, oracle: Oracle, site: Site, config: RepoConfig)
    ensures FaithfulTo(opts, oracle, config, Assembled(opts, oracle, site, config))
  {
    var answers := AnswersAt(oracle, site);
    KeyIsCheckedIff(opts, config, answers, false, false);
    if config.upstream.gpgkey.Some? && Stable(oracle) {
      var q := Url(config.upstream.gpgkey.value);
      assert answers(q, 0) == oracle(site, q, 0) == oracle(site, q, 1) == answers(q, 1);
    }
  }

  /** One repository per id: the first configuration of an id wins. */
  function FromConfigs(opts: Options, oracle: Oracle, distro: bool, filename: string, configs: seq<RepoConfig>): Repos {
    if configs == [] then map[]
    else
      var repos := FromConfigs(opts, oracle, distro, filename, Front(configs));
      var config := Last(configs);
      if config.id in repos then repos
      else repos[config.id := Assembled(opts, oracle, Site(distro, filename, |configs| - 1), config)]
  }

  lemma {:induction false} FromConfigsIds(opts: Options, oracle: Oracle, distro: bool, filename: string,
                                          configs: seq<RepoConfig>)
    ensures var repos := FromConfigs(opts, oracle, distro, filename, configs);
      && (forall id | id in repos :: exists c :: c in configs && c.id == id)
      && (forall c | c in configs :: c.id in repos)
  {
    if configs != [] {
      FromConfigsIds(opts, oracle, distro, filename, Front(configs));
    }
  }

  /** The one query for a configuration's mirror, if it is made, is answered alike. */
  predicate MirrorAlike(opts: Options, oracle: Oracle, other: Oracle, site: Site, config: RepoConfig) {
    var query := MirrorQuery(opts, config.mirror);
    opts.disableMirrors || oracle(site, query, 0) == other(site, query, 0)
  }

  lemma SameUrl(opts: Options, oracle: Oracle, other: Oracle, site: Site, config: RepoConfig)
    requires MirrorAlike(opts, oracle, other, site, config)
    ensures Assembled(opts, oracle, site, config).baseurl == Assembled(opts, other, site, config).baseurl
  {
    ChosenSide(opts, config, AnswersAt(oracle, site), AnswersAt(other, site), false, false);
  }

  predicate SameUrls(a: Repos, b: Repos) {
    a.Keys == b.Keys && forall id | id in a :: a[id].baseurl == b[id].baseurl
  }

  /** The same answers for the mirrors, then the same ids and URLs, whatever the upstreams answer; and
      with mirrors disabled no answer has a part in them at all. */
  lemma {:induction false} UrlsDependOnTheMirrors(opts: Options, oracle: Oracle, other: Oracle, distro: bool,
                                                  filename: string, configs: seq<RepoConfig>)
    requires forall i | 0 <= i < |configs| :: MirrorAlike(opts, oracle, other, Site(distro, filename, i), configs[i])
    ensures SameUrls(FromConfigs(opts, oracle, distro, filename, configs), FromConfigs(opts, other, distro, filename, configs))
  {
    if configs != [] {
      UrlsDependOnTheMirrors(opts, oracle, other, distro, filename, Front(configs));
      SameUrl(opts, oracle, other, Site(distro, filename, |configs| - 1), Last(configs));
    }
  }

  predicate FirstWith(configs: seq<RepoConfig>, i: nat, id: string) {
    i < |configs| && configs[i].id == id && forall j | 0 <= j < i :: configs[j].id != id
  }

  lemma {:induction false} UnconfiguredId(opts: Options, oracle: Oracle, distro: bool, filename: string,
                                          configs: seq<RepoConfig>, id: string)
    requires forall j | 0 <= j < |configs| :: configs[j].id != id
    ensures id !in FromConfigs(opts, oracle, distro, filename, configs)
  {
    if configs != [] {
      UnconfiguredId(opts, oracle, distro, filename, Front(configs), id);
    }
  }

  /** What a generated file holds under an id: the assembly of the first configuration with that id. */
  lemma {:induction false} FromConfigsHolds(opts: Options, oracle: Oracle, distro: bool, filename: string,
                                            configs: seq<RepoConfig>, i: nat, id: string)
    requires FirstWith(configs, i, id)
    ensures var repos := FromConfigs(opts, oracle, distro, filename, configs);
            id in repos && repos[id] == Assembled(opts, oracle, Site(distro, filename, i), configs[i])
  {
    if i < |configs| - 1 {
      FromConfigsHolds(opts, oracle, distro, filename, Front(configs), i, id);
    } else {
      UnconfiguredId(opts, oracle, distro, filename, Front(configs), id);
    }
  }

  lemma FirstExists(configs: seq<RepoConfig>, id: string) returns (i: nat)
    requires exists c :: c in configs && c.id == id
    ensures FirstWith(configs, i, id)
  {
    i := 0;
    while configs[i].id != id
      invariant i < |configs| && forall j | 0 <= j < i :: configs[j].id != id
      invariant exists k :: i <= k < |configs| && configs[k].id == id
      decreases |configs| - i
    {
      i := i + 1;
    }
  }

  /** Every repository of a generated file is faithful to the first configuration of its id. */
  lemma GeneratedRepo(opts: Options, oracle: Oracle, distro: bool, filename: string, configs: seq<RepoConfig>, id: string)
    requires id in FromConfigs(opts, oracle, distro, filename, configs)
    ensures exists i: nat :: FirstWith(configs, i, id) &&
              FaithfulTo(opts, oracle, configs[i], FromConfigs(opts, oracle, distro, filename, configs)[id])
  {
    FromConfigsIds(opts, oracle, distro, filename, configs);
    var i := FirstExists(configs, id);
    FromConfigsHolds(opts, oracle, distro, filename, configs, i, id);
    AssembledIsFaithful(opts, oracle, Site(distro, filename, i), configs[i]);
  }

  /** Whether packages are to come from the mirror: mirrors are on, the configuration has a path on the
      mirror, and that path is there, as a local directory or through its repomd.xml. */
  predicate OnMirror(opts: Options, oracle: Oracle, site: Site, config: RepoConfig) {
    var url := StripSlashes(opts.mirrorBaseUrl + "/" + config.mirror.repo);
    && !opts.disableMirrors && config.mirror.repo != ""
    && if "file://" <= opts.mirrorBaseUrl
       then oracle(site, LocalPath(if |"file://"| <= |url| then url[|"file://"|..] else ""), 0)
       else oracle(site, Url(url + "/repodata/repomd.xml"), 0)
  }

  /** The upstream key, if it has one and it answers when asked for the `attempt`-th time. */
  predicate KeyAnswers(oracle: Oracle, site: Site, config: RepoConfig, attempt: nat) {
    config.upstream.gpgkey.Some? && oracle(site, Url(config.upstream.gpgkey.value), attempt)
  }

  /** URL and key are the mirror's when the configuration is on the mirror, and the upstream's in every
      other case. */
  predicate FromItsSide(opts: Options, oracle: Oracle, site: Site, config: RepoConfig, r: Repo) {
    if OnMirror(opts, oracle, site, config) then
      && r.baseurl == Some(StripSlashes(opts.mirrorBaseUrl + "/" + config.mirror.repo))
      && r.gpgkey == (if config.mirror.gpgkey.Some? then Some(opts.mirrorBaseUrl + "/" + config.mirror.gpgkey.value) else None)
      && (r.gpgcheck <==> config.mirror.gpgkey.Some?)
    else
      && r.baseurl == Some(StripSlashes(config.upstream.repo))
      && r.gpgkey == (if KeyAnswers(oracle, site, config, 0) then config.upstream.gpgkey else None)
      && (r.gpgcheck <==> KeyAnswers(oracle, site, config, 1))
  }

  lemma AssembledSide(opts: Options, oracle: Oracle, site: Site, config: RepoConfig)
    ensures FromItsSide(opts, oracle, site, config, Assembled(opts, oracle, site, config))
  {
  }

  /** So does every repository of a generated file, by the first configuration of its id. */
  lemma GeneratedSide(opts: Options, oracle: Oracle, distro: bool, filename: string, configs: seq<RepoConfig>, i: nat,
                      id: string)
    requires FirstWith(configs, i, id)
    ensures id in FromConfigs(opts, oracle, distro, filename, configs)
    ensures FromItsSide(opts, oracle, Site(distro, filename, i), configs[i], FromConfigs(opts, oracle, distro, filename, configs)[id])
  {
    FromConfigsHolds(opts, oracle, distro, filename, configs, i, id);
    AssembledSide(opts, oracle, Site(distro, filename, i), configs[i]);
  }

  /** And so the texts of the file that is generated where there was none. */
  lemma GeneratedTexts(opts: Options, oracle: Oracle, confs: ConfFiles, disk: Disk, base: string, f: string, distro: bool,
                       i: nat, id: string)
    requires var confs1, confs2 := if distro then confs.distro else confs.nonDistro, if distro then confs.nonDistro else confs.distro;
      f in confs1 && f !in confs2 && FirstWith(confs1[f], i, id)
    requires Path(base, f) !in disk
    ensures var d := Generate(opts, oracle, confs, disk, base).0; Path(base, f) in d && id in d[Path(base, f)]
    ensures var g := Generate(opts, oracle, confs, disk, base).0[Path(base, f)][id];
      var config, site := (if distro then confs.distro else confs.nonDistro)[f][i], Site(distro, f, i);
      && GetStringOpt(g, Name) == Some(config.name) && GetStringOpt(g, Enabled) == Some("false") && GetStringOpt(g, Metalink) == None
      && GetStringOpt(g, BaseUrl) == Some(StripSlashes(if OnMirror(opts, oracle, site, config)
                                                        then opts.mirrorBaseUrl + "/" + config.mirror.repo else config.upstream.repo))
  {
    var repos := ReposOf(opts, oracle, distro, confs, f);
    var configs := (if distro then confs.distro else confs.nonDistro)[f];
    GeneratedContent(opts, oracle, confs, disk, base, f, distro);
    GeneratedSide(opts, oracle, distro, f, configs, i, id);
    FromConfigsHolds(opts, oracle, distro, f, configs, i, id);
    SavedTexts(map[], repos, id);
  }

  lemma {:induction false} GeneratedIsWellKeyed(opts: Options, oracle: Oracle, distro: bool, filename: string,
                                                configs: seq<RepoConfig>)
    ensures WellKeyed(FromConfigs(opts, oracle, distro, filename, configs))
  {
    if configs != [] {
      GeneratedIsWellKeyed(opts, oracle, distro, filename, Front(configs));
    }
  }

  // ------------------------------------------------------- the directory

  function Lower(c: char): char {
    if 'A' <= c <= 'Z' then c - 'A' + 'a' else c
  }

  function Lowered(s: string): string {
    seq(|s|, i requires 0 <= i < |s| => Lower(s[i]))
  }

  function LastDot(s: string): (i: int)
    ensures -1 <= i < |s|
    ensures i >= 0 ==> s[i] == '.'
    ensures forall k | i < k < |s| :: s[k] != '.'
  {
    if s == [] then -1 else if Last(s) == '.' then |s| - 1 else LastDot(Front(s))
  }

  /** std::filesystem's extension: from the last dot on, but none for "..", nor when the only dot
      comes first. */
  function Extension(name: string): string {
    var i := LastDot(name);
    if name == ".." || i <= 0 then "" else name[i..]
  }

  /** From the last dot on, where there is something before it. */
  lemma ExtensionIs(stem: string, rest: string)
    requires stem != "" && '.' !in rest && stem + "." + rest != ".."
    ensures Extension(stem + "." + rest) == "." + rest
  {
    var s := stem + "." + rest;
    assert s[|stem|] == '.' && s[|stem|..] == "." + rest;
    assert forall k | |stem| < k < |s| :: s[k] == rest[k - |stem| - 1] && s[k] in rest;
    assert LastDot(s) == |stem|;
  }

  lemma NoExtension(name: string)
    requires '.' !in name || (name != "" && name[0] == '.' && '.' !in name[1..]) || name == ".."
    ensures Extension(name) == ""
  {
    assert forall k | 0 < k < |name| :: name[k] == name[1..][k - 1] && name[k] in name[1..];
    assert forall k | 0 <= k < |name| :: name[k] in name;
  }

  /** `getFilesByExtension` as a set. */
  function FilesWithExtension(disk: Disk, dir: string, extension: string): set<string> {
    set p | p in disk && p.dir == dir && Extension(p.file) == extension :: p.file
  }

  function ExistingRepoFiles(disk: Disk, base: string): set<string> {
    FilesWithExtension(disk, base, ".repo")
  }

  /** The configured files that are to be generated, with their repositories. */
  function FromConfFile(opts: Options, oracle: Oracle, distro: bool, conf: ConfFile,
                        present: set<string>): map<string, Repos> {
    map f | f in conf && f !in present :: FromConfigs(opts, oracle, distro, f, conf[f])
  }

  function SaveInto(disk: Disk, base: string, files: map<string, Repos>): Disk {
    map p | p in disk.Keys + (set f | f in files :: Path(base, f)) ::
      if p.dir == base && p.file in files then Overlay(Load(disk, p), Writes(files[p.file])) else disk[p]
  }

  /** Write the configured files that are not present; the count is of files written, per set. */
  function GenerateMissing(opts: Options, oracle: Oracle, confs: ConfFiles, disk: Disk, base: string,
                           present: set<string>): (Disk, nat) {
    var distro := FromConfFile(opts, oracle, true, confs.distro, present);
    var nonDistro := FromConfFile(opts, oracle, false, confs.nonDistro, present);
    (SaveInto(SaveInto(disk, base, distro), base, nonDistro), |distro| + |nonDistro|)
  }

  function Generate(opts: Options, oracle: Oracle, confs: ConfFiles, disk: Disk, base: string): (Disk, nat) {
    GenerateMissing(opts, oracle, confs, disk, base, ExistingRepoFiles(disk, base))
  }

  function Configured(confs: ConfFiles): set<string> {
    confs.distro.Keys + confs.nonDistro.Keys
  }

  lemma SaveIntoAt(disk: Disk, base: string, files: map<string, Repos>, p: Path)
    ensures var d := SaveInto(disk, base, files);
      if p.dir == base && p.file in files
      then p in d && d[p] == Overlay(Load(disk, p), Writes(files[p.file]))
      else (p in d <==> p in disk) && (p in disk ==> d[p] == disk[p])
  {
    if p.dir == base && p.file in files {
      assert p == Path(base, p.file);
    }
  }

  /** Exactly the configured files that were not there as ".repo" files are written; every other
      file, and every ".repo" file that was there, stays as it was. */
  lemma GenerateLeavesTheRest(opts: Options, oracle: Oracle, confs: ConfFiles, disk: Disk, base: string, p: Path)
    ensures var d := Generate(opts, oracle, confs, disk, base).0;
      && (p.dir == base && p.file in Configured(confs) ==> p in d)
      && (!(p.dir == base && p.file in Configured(confs) - ExistingRepoFiles(disk, base)) ==>
            (p in d <==> p in disk) && (p in disk ==> d[p] == disk[p]))
  {
    var present := ExistingRepoFiles(disk, base);
    var distro := FromConfFile(opts, oracle, true, confs.distro, present);
    var nonDistro := FromConfFile(opts, oracle, false, confs.nonDistro, present);
    SaveIntoAt(disk, base, distro, p);
    SaveIntoAt(SaveInto(disk, base, distro), base, nonDistro, p);
    assert p.dir == base && p.file in present ==> p in disk;
  }

  lemma SavedNewFile(disk: Disk, base: string, files: map<string, Repos>, f: string)
    requires f in files && Path(base, f) !in disk
    ensures var p := Path(base, f); var d := SaveInto(disk, base, files);
            p in d && d[p] == Overlay(map[], Writes(files[f]))
  {
    SaveIntoAt(disk, base, files, Path(base, f));
  }

  function ReposOf(opts: Options, oracle: Oracle, distro: bool, confs: ConfFiles, f: string): Repos {
    FromConfigs(opts, oracle, distro, f, ConfigsOf(if distro then confs.distro else confs.nonDistro, f))
  }

  lemma GeneratedContent(opts: Options, oracle: Oracle, confs: ConfFiles, disk: Disk, base: string, f: string, distro: bool)
    requires f in (if distro then confs.distro else confs.nonDistro) && f !in (if distro then confs.nonDistro else confs.distro)
    requires Path(base, f) !in disk
    ensures var p := Path(base, f); var d := Generate(opts, oracle, confs, disk, base).0;
            p in d && d[p] == Overlay(map[], Writes(ReposOf(opts, oracle, distro, confs, f)))
  {
    var p := Path(base, f);
    var present := ExistingRepoFiles(disk, base);
    var a := FromConfFile(opts, oracle, true, confs.distro, present);
    var b := FromConfFile(opts, oracle, false, confs.nonDistro, present);
    assert f !in present;
    if distro {
      SavedNewFile(disk, base, a, f);
      SaveIntoAt(SaveInto(disk, base, a), base, b, p);
    } else {
      SaveIntoAt(disk, base, a, p);
      SavedNewFile(SaveInto(disk, base, a), base, b, f);
    }
  }

  /** A configured file that was not on disk at all, and that one set configures, reads back as its
      repositories, one for each id configured for it, exactly when all of them have names. */
  lemma GeneratedFileReadsBack(opts: Options, oracle: Oracle, confs: ConfFiles, disk: Disk, base: string, f: string,
                               distro: bool)
    requires f in (if distro then confs.distro else confs.nonDistro) && f !in (if distro then confs.nonDistro else confs.distro)
    requires Path(base, f) !in disk
    ensures var p := Path(base, f); var d := Generate(opts, oracle, confs, disk, base).0;
            var repos := ReposOf(opts, oracle, distro, confs, f);
            p in d && (Parse(d[p], p) == Some(Sourced(repos, p)) <==> forall id | id in repos :: repos[id].name != "")
  {
    GeneratedContent(opts, oracle, confs, disk, base, f, distro);
    var configs := ConfigsOf(if distro then confs.distro else confs.nonDistro, f);
    GeneratedIsWellKeyed(opts, oracle, distro, f, configs);
    NewFileRoundTrip(FromConfigs(opts, oracle, distro, f, configs), Path(base, f));
  }

  // ------------------------------------------------------------ twice

  /** What a run generates again although it was generated before: the configured names whose
      extension is not ".repo". */
  function Unrecognised(conf: ConfFile): set<string> {
    set f | f in conf && Extension(f) != ".repo"
  }

  lemma CountIsMissing(opts: Options, oracle: Oracle, distro: bool, conf: ConfFile, present: set<string>)
    ensures FromConfFile(opts, oracle, distro, conf, present).Keys == conf.Keys - present
    ensures |FromConfFile(opts, oracle, distro, conf, present)| == |conf.Keys - present|
  {
    var files := FromConfFile(opts, oracle, distro, conf, present);
    assert files.Keys == conf.Keys - present;
    assert |files.Keys| == |files|;
  }

  lemma CountOfRun(opts: Options, oracle: Oracle, confs: ConfFiles, disk: Disk, base: string)
    ensures var present := ExistingRepoFiles(disk, base);
      Generate(opts, oracle, confs, disk, base).1 == |confs.distro.Keys - present| + |confs.nonDistro.Keys - present|
  {
    CountIsMissing(opts, oracle, true, confs.distro, ExistingRepoFiles(disk, base));
    CountIsMissing(opts, oracle, false, confs.nonDistro, ExistingRepoFiles(disk, base));
  }

  lemma UnrecognisedAreMissing(conf: ConfFile, disk: Disk, base: string)
    requires forall f | f in conf :: Path(base, f) in disk
    ensures conf.Keys - ExistingRepoFiles(disk, base) == Unrecognised(conf)
  {
    forall f | f in conf
      ensures f in ExistingRepoFiles(disk, base) <==> Extension(f) == ".repo"
    {
      assert Path(base, f) in disk;
    }
  }

  /** Once every configured file is on disk, a run counts exactly the unrecognised names, whatever
      the mirror and upstream answer, and when there are none it changes nothing. */
  lemma GenerateAgain(opts: Options, oracle: Oracle, confs: ConfFiles, disk: Disk, base: string)
    requires forall f | f in Configured(confs) :: Path(base, f) in disk
    ensures var (d, n) := Generate(opts, oracle, confs, disk, base);
      && n == |Unrecognised(confs.distro)| + |Unrecognised(confs.nonDistro)|
      && (n == 0 ==> d == disk)
  {
    CountOfRun(opts, oracle, confs, disk, base);
    UnrecognisedAreMissing(confs.distro, disk, base);
    UnrecognisedAreMissing(confs.nonDistro, disk, base);
    if Generate(opts, oracle, confs, disk, base).1 == 0 {
      NoneMissing(confs, ExistingRepoFiles(disk, base));
      NothingWritten(opts, oracle, confs, disk, base);
    }
  }

  /** What a run leaves at a path, when every configured file is on disk: an unrecognised name has its
      repositories laid over the file again, by each set that configures it; no other file changes. */
  function ContentAgain(opts: Options, oracle: Oracle, confs: ConfFiles, file: string, c: RepoContent): RepoContent {
    var c1 := if file in Unrecognised(confs.distro) then Overlay(c, Writes(ReposOf(opts, oracle, true, confs, file))) else c;
    if file in Unrecognised(confs.nonDistro) then Overlay(c1, Writes(ReposOf(opts, oracle, false, confs, file))) else c1
  }

  lemma GenerateAgainWrites(opts: Options, oracle: Oracle, confs: ConfFiles, disk: Disk, base: string, p: Path)
    requires forall f | f in Configured(confs) :: Path(base, f) in disk
    ensures var d := Generate(opts, oracle, confs, disk, base).0;
      && (p in d <==> p in disk)
      && (p in disk ==> d[p] == if p.dir == base then ContentAgain(opts, oracle, confs, p.file, disk[p]) else disk[p])
  {
    var present := ExistingRepoFiles(disk, base);
    var distro := FromConfFile(opts, oracle, true, confs.distro, present);
    var nonDistro := FromConfFile(opts, oracle, false, confs.nonDistro, present);
    UnrecognisedAreMissing(confs.distro, disk, base);
    UnrecognisedAreMissing(confs.nonDistro, disk, base);
    CountIsMissing(opts, oracle, true, confs.distro, present);
    CountIsMissing(opts, oracle, false, confs.nonDistro, present);
    SaveIntoAt(disk, base, distro, p);
    SaveIntoAt(SaveInto(disk, base, distro), base, nonDistro, p);
  }

  /** A configured name without ".repo" is generated on every run, over whatever it holds by then. */
  lemma OneUnrecognisedFile(opts: Options, oracle: Oracle, base: string, f: string, config: RepoConfig, c: RepoContent)
    requires Extension(f) != ".repo"
    ensures var (d, n) := Generate(opts, oracle, ConfFiles(map[f := [config]], map[]), map[Path(base, f) := c], base);
      && n == 1 && Path(base, f) in d
      && d[Path(base, f)] == Overlay(c, Writes(map[config.id := Assembled(opts, oracle, Site(true, f, 0), config)]))
  {
    var confs := ConfFiles(map[f := [config]], map[]);
    assert Unrecognised(confs.distro) == {f} && Unrecognised(confs.nonDistro) == {};
    GenerateAgain(opts, oracle, confs, map[Path(base, f) := c], base);
    GenerateAgainWrites(opts, oracle, confs, map[Path(base, f) := c], base, Path(base, f));
    OneConfig(opts, oracle, f, config);
  }

  lemma OneConfig(opts: Options, oracle: Oracle, f: string, config: RepoConfig)
    ensures FromConfigs(opts, oracle, true, f, [config]) == map[config.id := Assembled(opts, oracle, Site(true, f, 0), config)]
  {
    assert Front([config]) == [] && Last([config]) == config;
    assert FromConfigs(opts, oracle, true, f, []) == map[];
  }

  /** So a repository that was enabled since is disabled again. */
  lemma UnrecognisedIsDisabledAgain(opts: Options, oracle: Oracle, config: RepoConfig)
    ensures var disk: Disk := map[Path("b", "plain") := map[config.id := map[Enabled := "true"]]];
      var (d, n) := Generate(opts, oracle, ConfFiles(map["plain" := [config]], map[]), disk, "b");
      && n == 1 && Path("b", "plain") in d && config.id in d[Path("b", "plain")]
      && GetStringOpt(d[Path("b", "plain")][config.id], Enabled) == Some("false")
  {
    assert LastDot("plain") == -1;
    var c: RepoContent := map[config.id := map[Enabled := "true"]];
    var r := Assembled(opts, oracle, Site(true, "plain", 0), config);
    OneUnrecognisedFile(opts, oracle, "b", "plain", config, c);
    SavedGroup(c, map[config.id := r], config.id);
    Lookup(GetGroup(c, config.id), r, Enabled);
  }

  lemma SaveNothing(disk: Disk, base: string)
    ensures SaveInto(disk, base, map[]) == disk
  {
    assert SaveInto(disk, base, map[]).Keys == disk.Keys;
  }

  lemma NothingWritten(opts: Options, oracle: Oracle, confs: ConfFiles, disk: Disk, base: string)
    requires Configured(confs) - ExistingRepoFiles(disk, base) == {}
    ensures Generate(opts, oracle, confs, disk, base).0 == disk
  {
    var present := ExistingRepoFiles(disk, base);
    CountIsMissing(opts, oracle, true, confs.distro, present);
    CountIsMissing(opts, oracle, false, confs.nonDistro, present);
    assert confs.distro.Keys - present <= Configured(confs) - present;
    assert confs.nonDistro.Keys - present <= Configured(confs) - present;
    assert FromConfFile(opts, oracle, true, confs.distro, present) == map[];
    assert FromConfFile(opts, oracle, false, confs.nonDistro, present) == map[];
    SaveNothing(disk, base);
  }

  lemma NoneMissing(confs: ConfFiles, present: set<string>)
    requires |confs.distro.Keys - present| == 0 && |confs.nonDistro.Keys - present| == 0
    ensures Configured(confs) - present == {}
  {
    assert confs.distro.Keys - present == {} && confs.nonDistro.Keys - present == {};
  }

  lemma CountUnion(a: set<string>, b: set<string>, present: set<string>)
    ensures |a - present| + |b - present| == |a + b - present| + |(a + b - present) * a * b|
  {
    var x, y := a - present, b - present;
    assert x + y == a + b - present;
    assert x * y == (a + b - present) * a * b;
    assert |x| + |y| == |x + y| + |x * y|;
  }

  /** The count is the number of files written, plus one more for each missing name both sets
      configure. */
  lemma CountIsFilesWritten(opts: Options, oracle: Oracle, confs: ConfFiles, disk: Disk, base: string)
    ensures var missing := Configured(confs) - ExistingRepoFiles(disk, base);
      Generate(opts, oracle, confs, disk, base).1 == |missing| + |missing * confs.distro.Keys * confs.nonDistro.Keys|
  {
    CountOfRun(opts, oracle, confs, disk, base);
    CountUnion(confs.distro.Keys, confs.nonDistro.Keys, ExistingRepoFiles(disk, base));
  }

  // ------------------------------------------------------- on the heap

  method BuildRepos(opts: Options, oracle: Oracle, distro: bool, filename: string,
                    configs: seq<RepoConfig>) returns (repos: Repos)
    ensures repos == FromConfigs(opts, oracle, distro, filename, configs)
  {
    repos := map[];
    for i := 0 to |configs|
      invariant repos == FromConfigs(opts, oracle, distro, filename, configs[..i])
    {
      TakeOneMore(configs, i);
      FrontOfAppend(configs[..i], configs[i]);
      var config := configs[i];
      if config.id !in repos {
        repos := repos[config.id := Assembled(opts, oracle, Site(distro, filename, i), config)];
      }
    }
    TakeAll(configs);
  }

  lemma SaveOneMore(disk: Disk, base: string, files: map<string, Repos>, f: string, repos: Repos)
    requires f !in files
    ensures Save(SaveInto(disk, base, files), FileObj(Path(base, f), repos)) == SaveInto(disk, base, files[f := repos])
  {
    var l, r := Save(SaveInto(disk, base, files), FileObj(Path(base, f), repos)), SaveInto(disk, base, files[f := repos]);
    forall p: Path
      ensures (p in l <==> p in r) && (p in l ==> l[p] == r[p])
    {
      SaveIntoAt(disk, base, files, p);
      SaveIntoAt(disk, base, files[f := repos], p);
      SaveIntoAt(disk, base, files, Path(base, f));
      if p != Path(base, f) { SaveElsewhere(SaveInto(disk, base, files), FileObj(Path(base, f), repos), p); }
    }
    assert l.Keys == r.Keys;
  }

  lemma SkipStep(present: set<string>, left: set<string>, f: string)
    requires f in left
    ensures if f in present then present + left == present + (left - {f}) else present + left - {f} == present + (left - {f})
  {
  }

  lemma OneFewerMissing(opts: Options, oracle: Oracle, distro: bool, conf: ConfFile, skip: set<string>, f: string)
    requires f in conf && f in skip
    ensures var before, after := FromConfFile(opts, oracle, distro, conf, skip), FromConfFile(opts, oracle, distro, conf, skip - {f});
      f !in before && after == before[f := FromConfigs(opts, oracle, distro, f, conf[f])]
  {
    var before, after := FromConfFile(opts, oracle, distro, conf, skip), FromConfFile(opts, oracle, distro, conf, skip - {f});
    assert after.Keys == before.Keys + {f};
  }

  lemma OneMoreKey<V>(before: map<string, V>, f: string, value: V)
    requires f !in before
    ensures |before[f := value]| == |before| + 1
  {
  }

  lemma SaveStep(opts: Options, oracle: Oracle, distro: bool, conf: ConfFile, skip: set<string>, f: string,
                 disk: Disk, base: string)
    requires f in conf && f in skip
    ensures Save(SaveInto(disk, base, FromConfFile(opts, oracle, distro, conf, skip)),
                 FileObj(Path(base, f), FromConfigs(opts, oracle, distro, f, conf[f])))
         == SaveInto(disk, base, FromConfFile(opts, oracle, distro, conf, skip - {f}))
  {
    OneFewerMissing(opts, oracle, distro, conf, skip, f);
    SaveOneMore(disk, base, FromConfFile(opts, oracle, distro, conf, skip), f, FromConfigs(opts, oracle, distro, f, conf[f]));
  }

  /** Save every missing file of one set, in whatever order they come. */
  method SaveMissing(fs: FileSystem<RepoKey>, base: string, opts: Options, oracle: Oracle, distro: bool,
                     conf: ConfFile, present: set<string>)
    returns (count: nat)
    modifies fs`files
    ensures fs.files == SaveInto(old(fs.files), base, FromConfFile(opts, oracle, distro, conf, present))
    ensures count == |FromConfFile(opts, oracle, distro, conf, present)|
  {
    ghost var skip, disk := present + conf.Keys, fs.files;
    assert FromConfFile(opts, oracle, distro, conf, skip) == map[];
    SaveNothing(disk, base);
    var left := conf.Keys;
    count := 0;
    while left != {}
      invariant left <= conf.Keys && skip == present + left
      invariant count == |FromConfFile(opts, oracle, distro, conf, skip)|
      invariant fs.files == SaveInto(disk, base, FromConfFile(opts, oracle, distro, conf, skip))
    {
      var f :| f in left;
      SkipStep(present, left, f);
      left := left - {f};
      if f !in present {
        SaveStep(opts, oracle, distro, conf, skip, f, disk, base);
        OneFewerMissing(opts, oracle, distro, conf, skip, f);
        OneMoreKey(FromConfFile(opts, oracle, distro, conf, skip), f, FromConfigs(opts, oracle, distro, f, conf[f]));
        SaveNew(fs, Path(base, f), opts, oracle, distro, conf[f]);
        count := count + 1;
        skip := skip - {f};
      }
    }
    assert skip == present;
  }

  method SaveNew(fs: FileSystem<RepoKey>, path: Path, opts: Options, oracle: Oracle, distro: bool, configs: seq<RepoConfig>)
    modifies fs`files
    ensures fs.files == Save(old(fs.files), FileObj(path, FromConfigs(opts, oracle, distro, path.file, configs)))
  {
    var repos := BuildRepos(opts, oracle, distro, path.file, configs);
    GeneratedIsWellKeyed(opts, oracle, distro, path.file, configs);
    UnparseFile(fs, repos, path);
  }

  method GetFilesByExtension(fs: FileSystem<RepoKey>, dir: string, extension: string) returns (names: set<string>)
    ensures names == FilesWithExtension(fs.files, dir, extension)
  {
    names := {};
    var left := fs.files.Keys;
    while left != {}
      invariant left <= fs.files.Keys
      invariant names == set p | p in fs.files.Keys - left && p.dir == dir && Extension(p.file) == extension :: p.file
    {
      var entry :| entry in left;
      if entry.dir == dir && Extension(entry.file) == extension {
        names := names + {entry.file};
      }
      left := left - {entry};
    }
  }

  method GenerateFiles(fs: FileSystem<RepoKey>, base: string, opts: Options, oracle: Oracle,
                       confs: ConfFiles) returns (count: nat)
    modifies fs`files
    ensures (fs.files, count) == Generate(opts, oracle, confs, old(fs.files), base)
  {
    var present := GetFilesByExtension(fs, base, ".repo");
    count := GenerateAbsent(fs, base, opts, oracle, confs, present);
  }

  method GenerateAbsent(fs: FileSystem<RepoKey>, base: string, opts: Options, oracle: Oracle, confs: ConfFiles,
                        present: set<string>) returns (count: nat)
    modifies fs`files
    ensures fs.files == GenerateMissing(opts, oracle, confs, old(fs.files), base, present).0
    ensures count == GenerateMissing(opts, oracle, confs, old(fs.files), base, present).1
  {
    ghost var r := GenerateMissing(opts, oracle, confs, fs.files, base, present);
    var distro := SaveMissing(fs, base, opts, oracle, true, confs.distro, present);
    var nonDistro := SaveMissing(fs, base, opts, oracle, false, confs.nonDistro, present);
    count := distro + nonDistro;
    assert fs.files == r.0;
  }
}
