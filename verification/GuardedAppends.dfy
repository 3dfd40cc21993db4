/** Append-if-absent: addStringToFile of src/functions.cpp, the guarded appends of
    include/cloysterhpc/services/scriptbuilder.h and the script of src/NFS.cpp. */
module GuardedAppends {
  import opened Sequences
  import opened TextEdits

  /** Text files by name; reading a missing file gives the empty text. */
  type TextFiles = map<string, string>

  function Content(files: TextFiles, name: string): string {
    if name in files then files[name] else ""
  }

  // -------------------------------------------------------- addStringToFile

  datatype Addition = Addition(file: string, text: string)

  function Add(files: TextFiles, a: Addition): TextFiles {
    if Contains(Content(files, a.file), a.text) then files
    else files[a.file := Content(files, a.file) + a.text]
  }

  function AddAll(files: TextFiles, additions: seq<Addition>): TextFiles {
    if additions == [] then files else Add(AddAll(files, Front(additions)), Last(additions))
  }

  /** A text is put after what the file held, and only if the file did not hold it; no other file
      changes. */
  lemma AddAppends(files: TextFiles, a: Addition, file: string)
    ensures var was, now := Content(files, file), Content(Add(files, a), file);
      && was <= now
      && now[|was|..] == (if file == a.file && !Contains(was, a.text) then a.text else "")
    ensures file != a.file ==> (file in Add(files, a) <==> file in files)
  {
  }

  class Files {
    var texts: TextFiles

    constructor (texts: TextFiles)
      ensures this.texts == texts
    {
      this.texts := texts;
    }

    method AddStringToFile(filename: string, text: string)
      modifies this
      ensures texts == Add(old(texts), Addition(filename, text))
      ensures Contains(Content(texts, filename), text)
    {
      var content := if filename in texts then texts[filename] else "";
      if FindFrom(content, text, 0).Some? {
        return;
      }
      texts := texts[filename := content + text];
      ContainsItself(text);
      ContainsWithin(content, text, "", text);
      assert content + text + "" == content + text;
    }
  }

  lemma ContainsItself(text: string)
    ensures Contains(text, text)
  {
    assert At(text, text, 0);
  }

  predicate Present(files: TextFiles, a: Addition) {
    Contains(Content(files, a.file), a.text)
  }

  /** What is there stays there, and what is added is there. */
  lemma AddKeepsPresent(files: TextFiles, a: Addition, other: Addition)
    ensures Present(files, other) ==> Present(Add(files, a), other)
    ensures Present(Add(files, a), a)
  {
    var content := Content(files, a.file);
    if Present(files, other) && other.file == a.file {
      AppendKeepsContains(content, a.text, other.text);
    }
    ContainsItself(a.text);
    ContainsWithin(content, a.text, "", a.text);
    assert content + a.text + "" == content + a.text;
  }

  lemma {:induction false} AddAllKeepsPresent(files: TextFiles, additions: seq<Addition>, other: Addition)
    ensures Present(files, other) ==> Present(AddAll(files, additions), other)
    ensures other in additions ==> Present(AddAll(files, additions), other)
  {
    if additions != [] {
      AddAllKeepsPresent(files, Front(additions), other);
      AddKeepsPresent(AddAll(files, Front(additions)), Last(additions), other);
    }
  }

  lemma {:induction false} AllPresent(files: TextFiles, additions: seq<Addition>)
    requires forall a | a in additions :: Present(files, a)
    ensures AddAll(files, additions) == files
  {
    if additions != [] {
      AllPresent(files, Front(additions));
    }
  }

  /** Any sequence of additions, to any files, made twice is made once. */
  lemma AddAllTwice(files: TextFiles, additions: seq<Addition>)
    ensures AddAll(AddAll(files, additions), additions) == AddAll(files, additions)
  {
    forall a | a in additions { AddAllKeepsPresent(files, additions, a); }
    AllPresent(AddAll(files, additions), additions);
  }

  // -------------------------------------------------------- guarded appends

  /** A line of a script: `grep -q key path || echo line >> path`, or any other command, which is
      taken to leave the guarded files alone. */
  datatype Command = Guarded(path: string, key: string, line: string) | Plain(text: string)

  function Execute(files: TextFiles, c: Command): TextFiles {
    match c
    case Plain(_) => files
    case Guarded(path, key, line) =>
      if Contains(Content(files, path), key) then files
      else files[path := Content(files, path) + line + "\n"]
  }

  function ExecuteAll(files: TextFiles, script: seq<Command>): TextFiles {
    if script == [] then files else Execute(ExecuteAll(files, Front(script)), Last(script))
  }

  /** The line and a newline are put after what the file held, and only if no key was in it; no other
      file, and no other command, changes anything. */
  lemma ExecuteAppends(files: TextFiles, c: Command, file: string)
    ensures var was, now := Content(files, file), Content(Execute(files, c), file);
      && was <= now
      && now[|was|..] == (if c.Guarded? && file == c.path && !Contains(was, c.key) then c.line + "\n" else "")
  {
    if c.Guarded? {
      Associative(Content(files, c.path), c.line, "\n");
    }
  }

  /** The guard holds from now on. */
  predicate Settled(files: TextFiles, c: Command) {
    c.Guarded? ==> Contains(Content(files, c.path), c.key)
  }

  /** The line, as echo writes it, answers its own guard. */
  predicate AnswersItsGuard(c: Command) {
    c.Guarded? ==> Contains(c.line + "\n", c.key)
  }

  lemma ExecuteSettles(files: TextFiles, c: Command, other: Command)
    ensures Settled(files, other) ==> Settled(Execute(files, c), other)
    ensures AnswersItsGuard(c) ==> Settled(Execute(files, c), c)
  {
    if c.Guarded? {
      var content := Content(files, c.path);
      assert content + c.line + "\n" == content + (c.line + "\n");
      if other.Guarded? && Settled(files, other) && other.path == c.path {
        AppendKeepsContains(content, c.line + "\n", other.key);
      }
      if AnswersItsGuard(c) {
        ContainsWithin(content, c.line + "\n", "", c.key);
        assert content + (c.line + "\n") + "" == content + c.line + "\n";
      }
    }
  }

  lemma {:induction false} ExecuteAllSettles(files: TextFiles, script: seq<Command>, other: Command)
    requires forall c | c in script :: AnswersItsGuard(c)
    ensures Settled(files, other) || other in script ==> Settled(ExecuteAll(files, script), other)
  {
    if script != [] {
      ExecuteAllSettles(files, Front(script), other);
      ExecuteSettles(ExecuteAll(files, Front(script)), Last(script), other);
    }
  }

  lemma {:induction false} AllSettled(files: TextFiles, script: seq<Command>)
    requires forall c | c in script :: Settled(files, c)
    ensures ExecuteAll(files, script) == files
  {
    if script != [] {
      AllSettled(files, Front(script));
    }
  }

  /** A script whose guarded lines answer their own guards can be run again at will. */
  lemma ScriptTwice(files: TextFiles, script: seq<Command>)
    requires forall c | c in script :: AnswersItsGuard(c)
    ensures ExecuteAll(ExecuteAll(files, script), script) == ExecuteAll(files, script)
  {
    forall c | c in script { ExecuteAllSettles(files, script, c); }
    AllSettled(ExecuteAll(files, script), script);
  }

  /** For one guarded append the condition is exact: on every state twice is once, if and only if
      the line answers its guard. */
  lemma GuardedAppendTwiceIff(c: Command)
    requires c.Guarded?
    ensures (forall files: TextFiles :: Execute(Execute(files, c), c) == Execute(files, c)) <==> AnswersItsGuard(c)
  {
    if Contains("", c.key) {
      AppendKeepsContains("", c.line + "\n", c.key);
      assert "" + (c.line + "\n") == c.line + "\n";
    }
    if AnswersItsGuard(c) {
      forall files: TextFiles
        ensures Execute(Execute(files, c), c) == Execute(files, c)
      {
        ExecuteSettles(files, c, c);
      }
    } else {
      var none: TextFiles := map[];
      var once := Execute(none, c);
      assert Content(once, c.path) == "" + c.line + "\n" == c.line + "\n";
      assert Execute(once, c)[c.path] == c.line + "\n" + c.line + "\n";
      assert |Execute(once, c)[c.path]| != |once[c.path]|;
    }
  }

  // ------------------------------------------------------------- the script

  class ScriptBuilder {
    var commands: seq<Command>

    constructor ()
      ensures commands == [Plain("#!/bin/bash -xeu")]
    {
      commands := [Plain("#!/bin/bash -xeu")];
    }

    method AddCommand(text: string)
      modifies this
      ensures commands == old(commands) + [Plain(text)]
    {
      commands := commands + [Plain(text)];
    }

    method AddLineToFile(path: string, key: string, line: string)
      modifies this
      ensures commands == old(commands) + [Guarded(path, key, line)]
    {
      commands := commands + [Guarded(path, key, line)];
    }
  }

  /** An export: its key is its directory, and its line starts with it. */
  function Export(directory: string, options: string): Command {
    Guarded("/etc/exports", directory, directory + options)
  }

  const EXPORTS := [
    Export("/home", " *(rw,no_subtree_check,fsid=10,no_root_squash)"),
    Export("/opt/ohpc/pub", " *(ro,no_subtree_check,fsid=11)"),
    Export("/tftpboot", " *(rw,no_root_squash,sync,no_subtree_check)"),
    Export("/install", " *(rw,no_root_squash,sync,no_subtree_check)")]

  /** The part of installScript that edits /etc/exports. */
  method AddExports(builder: ScriptBuilder)
    modifies builder
    ensures builder.commands == old(builder.commands) + EXPORTS
  {
    builder.AddLineToFile("/etc/exports", "/home", "/home" + " *(rw,no_subtree_check,fsid=10,no_root_squash)");
    builder.AddLineToFile("/etc/exports", "/opt/ohpc/pub", "/opt/ohpc/pub" + " *(ro,no_subtree_check,fsid=11)");
    builder.AddLineToFile("/etc/exports", "/tftpboot", "/tftpboot" + " *(rw,no_root_squash,sync,no_subtree_check)");
    builder.AddLineToFile("/etc/exports", "/install", "/install" + " *(rw,no_root_squash,sync,no_subtree_check)");
  }

  lemma ExportAnswers(directory: string, options: string)
    ensures AnswersItsGuard(Export(directory, options))
  {
    ContainsItself(directory);
    ContainsWithin("", directory, options + "\n", directory);
    assert "" + directory + (options + "\n") == directory + options + "\n";
  }

  /** Running the exports block twice is running it once, and leaves every export in place. */
  lemma ExportsTwice(files: TextFiles)
    ensures ExecuteAll(ExecuteAll(files, EXPORTS), EXPORTS) == ExecuteAll(files, EXPORTS)
    ensures forall c | c in EXPORTS :: Settled(ExecuteAll(files, EXPORTS), c)
  {
    ExportAnswers("/home", " *(rw,no_subtree_check,fsid=10,no_root_squash)");
    ExportAnswers("/opt/ohpc/pub", " *(ro,no_subtree_check,fsid=11)");
    ExportAnswers("/tftpboot", " *(rw,no_root_squash,sync,no_subtree_check)");
    ExportAnswers("/install", " *(rw,no_root_squash,sync,no_subtree_check)");
    ScriptTwice(files, EXPORTS);
    forall c | c in EXPORTS { ExecuteAllSettles(files, EXPORTS, c); }
  }

  // ------------------------------------------------------------ the maps

  /** The autofs lines as the shell runs them, ${HEADNODE} standing for the host's name. */
  function HomeMap(host: string): Command {
    Guarded("${ROOTFS}/etc/auto.home", "home-map", "* -fstype=nfs,rw," + "no_subtree_check,no_root_squash " + host + ":/home/&")
  }

  function OhpcMap(host: string): Command {
    Guarded("${ROOTFS}/etc/auto.ohpc", "ohpc-map", "* -fstype=nfs,ro,no_subtree_check " + host + ":/opt/ohpc/pub/&")
  }

  /** A key that has a '-' at `dash`, and neither `left` nor `right` in it. */
  predicate DashedKey(key: string, dash: nat, left: char, right: char) {
    dash < |key| && key[dash] == '-' && left !in key && right !in key
  }

  lemma KeyAt(text: string, key: string, i: nat)
    requires At(text, key, i)
    ensures forall k | i <= k < i + |key| :: text[k] == key[k - i] && text[k] in key
  {
    assert forall k | i <= k < i + |key| :: text[k] == text[i..i + |key|][k - i];
  }

  lemma AtMiddle(before: string, middle: string, after: string, key: string, dash: nat, i: nat)
    requires before != [] && after != [] && DashedKey(key, dash, Last(before), after[0])
    requires forall k | dash <= k < |before| :: before[k] != '-'
    requires '-' !in after && At(before + middle + after, key, i)
    ensures |before| <= i && i + |key| <= |before| + |middle|
  {
    var text := before + middle + after;
    KeyAt(text, key, i);
    assert text[i + dash] == '-';
    assert text[|before| - 1] == Last(before) && text[|before| + |middle|] == after[0];
    assert forall k | |before| + |middle| <= k < |text| :: text[k] == after[k - |before| - |middle|] && text[k] in after;
  }

  lemma MiddlePart(before: string, middle: string, after: string, i: nat, n: nat)
    requires |before| <= i && i + n <= |before| + |middle|
    ensures (before + middle + after)[i..i + n] == middle[i - |before|..i - |before| + n]
  {
  }

  /** Between text that ends in `left` and text that begins with `right`, where a '-' stands too early
      for the key or not at all, only the middle can hold the key. */
  lemma OnlyInTheMiddle(before: string, middle: string, after: string, key: string, dash: nat)
    requires before != [] && after != [] && DashedKey(key, dash, Last(before), after[0])
    requires forall k | dash <= k < |before| :: before[k] != '-'
    requires '-' !in after
    ensures Contains(before + middle + after, key) <==> Contains(middle, key)
  {
    var text := before + middle + after;
    if Contains(middle, key) {
      ContainsWithin(before, middle, after, key);
    }
    if Contains(text, key) {
      var i := FindFrom(text, key, 0).value;
      AtMiddle(before, middle, after, key, dash, i);
      MiddlePart(before, middle, after, i, |key|);
      ContainsAt(middle, key, i - |before|);
    }
  }

  /** The key of a map line is not in the line itself, unless it is in the host's name. */
  lemma HomeMapAnswersIff(host: string)
    ensures AnswersItsGuard(HomeMap(host)) <==> Contains(host, "home-map")
  {
    var before, after := "* -fstype=nfs,rw," + "no_subtree_check,no_root_squash ", ":/home/&" + "\n";
    HomeMapText();
    OnlyInTheMiddle(before, host, after, "home-map", 4);
    assert HomeMap(host).line + "\n" == before + host + after;
  }

  lemma OhpcMapAnswersIff(host: string)
    ensures AnswersItsGuard(OhpcMap(host)) <==> Contains(host, "ohpc-map")
  {
    var before, after := "* -fstype=nfs,ro,no_subtree_check ", ":/opt/ohpc/pub/&" + "\n";
    OnlyInTheMiddle(before, host, after, "ohpc-map", 4);
    assert OhpcMap(host).line + "\n" == before + host + after;
  }

  lemma HomeMapText()
    ensures var before := "* -fstype=nfs,rw," + "no_subtree_check,no_root_squash ";
      Last(before) == ' ' && forall k | 4 <= k < |before| :: before[k] != '-'
  {
    var a, b := "* -fstype=nfs,rw,", "no_subtree_check,no_root_squash ";
    forall k | 4 <= k < |a + b|
      ensures (a + b)[k] != '-'
    {
      if k < |a| {
        assert (a + b)[k] == a[k];
      } else {
        assert (a + b)[k] == b[k - |a|];
      }
    }
  }

  /** So each map line is added again by some further run, if and only if the host is not named
      after its key. */
  lemma MapLinesAreAddedAgainIff(host: string)
    ensures (exists files: TextFiles :: Execute(Execute(files, HomeMap(host)), HomeMap(host)) != Execute(files, HomeMap(host)))
       <==> !Contains(host, "home-map")
    ensures (exists files: TextFiles :: Execute(Execute(files, OhpcMap(host)), OhpcMap(host)) != Execute(files, OhpcMap(host)))
       <==> !Contains(host, "ohpc-map")
  {
    HomeMapAnswersIff(host);
    OhpcMapAnswersIff(host);
    GuardedAppendTwiceIff(HomeMap(host));
    GuardedAppendTwiceIff(OhpcMap(host));
  }
}
