/** Moving the files of one extension to a backup directory: removeFilesWithExtension,
    copyFilesWithExtension and moveFilesWithExtension of include/cloysterhpc/functions.h, and
    backupFilesByExtension of src/functions.cpp. */
module Backups {
  import opened KeyFiles
  import opened RepoGenerator

  /** Regular files and existing directories. Only the files' identities matter here, so their
      contents may be anything. */
  datatype Tree<!T> = Tree(files: map<Path, T>, dirs: set<string>)

  // ---------------------------------------------------------- the moves

  /** Copy the files whose extension is `ext`, letter case included, unless the target exists. */
  function Copied<T>(files: map<Path, T>, source: string, target: string, ext: string): map<Path, T> {
    CopiedFrom(files, files.Keys, source, target, ext)
  }

  /** The same, for some of the entries. */
  function CopiedFrom<T>(files: map<Path, T>, entries: set<Path>, source: string, target: string, ext: string): map<Path, T>
    requires entries <= files.Keys
  {
    map p | p in files.Keys + (set q | q in entries && q.dir == source && Extension(q.file) == ext :: Path(target, q.file)) ::
      if p in files then files[p] else files[Path(source, p.file)]
  }

  predicate Removable(p: Path, source: string, ext: string) {
    p.dir == source && Lowered(Extension(p.file)) == Lowered(ext)
  }

  /** Remove the files whose extension is `ext` up to letter case. */
  function Removed<T>(files: map<Path, T>, source: string, ext: string): map<Path, T> {
    map p | p in files && !Removable(p, source, ext) :: files[p]
  }

  function Moved<T>(files: map<Path, T>, source: string, target: string, ext: string): map<Path, T> {
    Removed(Copied(files, source, target, ext), source, ext)
  }

  /** The backup. The boolean is false when the source directory cannot be opened, by which time the
      backup directory exists. */
  function Backup<T>(tree: Tree<T>, force: bool, target: string, source: string, ext: string): (Tree<T>, bool) {
    var t := if force then Tree(map p | p in tree.files && p.dir != target :: tree.files[p], tree.dirs - {target}) else tree;
    if target in t.dirs then (t, true)
    else if source !in t.dirs then (Tree(t.files, t.dirs + {target}), false)
    else (Tree(Moved(t.files, source, target, ext), t.dirs + {target}), true)
  }

  /** Every file lies in an existing directory. */
  predicate Housed<T>(tree: Tree<T>) {
    forall p | p in tree.files :: p.dir in tree.dirs
  }

  // --------------------------------------------------------- conservation

  lemma MovedAt<T>(files: map<Path, T>, source: string, target: string, ext: string, p: Path)
    requires source != target
    requires forall q | q in files :: q.dir != target
    ensures var m := Moved(files, source, target, ext);
      var from := Path(source, p.file);
      if p.dir == target then
        (p in m <==> from in files && Extension(p.file) == ext) && (p in m ==> m[p] == files[from])
      else
        (p in m <==> p in files && !Removable(p, source, ext)) && (p in m ==> m[p] == files[p])
  {
    var c := Copied(files, source, target, ext);
    if p.dir == target {
      assert p == Path(target, p.file);
      assert Path(source, p.file) in files && Extension(p.file) == ext ==> p in c;
    }
  }

  /** The content of `name` in the source directory is, after a move, in one directory or the other. */
  predicate Kept<T(==)>(before: map<Path, T>, after: map<Path, T>, source: string, target: string, name: string)
    requires Path(source, name) in before
  {
    || (Path(source, name) in after && after[Path(source, name)] == before[Path(source, name)])
    || (Path(target, name) in after && after[Path(target, name)] == before[Path(source, name)])
  }

  /** Nothing is lost exactly when no file of the source directory has the extension in another
      letter case: such a file is removed without having been copied. */
  lemma MoveConservesIff<T>(files: map<Path, T>, source: string, target: string, ext: string)
    requires source != target
    requires forall q | q in files :: q.dir != target
    ensures (forall p | p in files && p.dir == source :: Kept(files, Moved(files, source, target, ext), source, target, p.file))
       <==> (forall p | p in files && Removable(p, source, ext) :: Extension(p.file) == ext)
  {
    forall p | p in files && p.dir == source
      ensures Kept(files, Moved(files, source, target, ext), source, target, p.file)
         <==> (Removable(p, source, ext) ==> Extension(p.file) == ext)
    {
      assert p == Path(source, p.file);
      MovedAt(files, source, target, ext, p);
      MovedAt(files, source, target, ext, Path(target, p.file));
    }
  }

  lemma CapitalExtension()
    ensures Extension("a.REPO") == ".REPO"
  {
    var s := "a.REPO";
    assert s[0] == 'a' && s[1] == '.' && s[2] == 'R' && s[3] == 'E' && s[4] == 'P' && s[5] == 'O';
    assert s[1..] == ".REPO";
  }

  lemma CapitalsLowered()
    ensures Lowered(".REPO") == Lowered(".repo") && ".REPO" != ".repo"
  {
    assert ".REPO"[1] != ".repo"[1];
  }

  /** A file named in capitals is removed and not copied. */
  lemma CapitalsAreLost<T>(content: T)
    ensures var files := map[Path("s", "a.REPO") := content];
      !Kept(files, Moved(files, "s", "t", ".repo"), "s", "t", "a.REPO")
  {
    CapitalExtension();
    CapitalsLowered();
    OneFileLost(Path("s", "a.REPO"), content);
  }

  lemma OneFileLost<T>(p: Path, content: T)
    requires p.dir == "s" && Removable(p, "s", ".repo") && Extension(p.file) != ".repo"
    ensures !Kept(map[p := content], Moved(map[p := content], "s", "t", ".repo"), "s", "t", p.file)
  {
    var files := map[p := content];
    MoveConservesIff(files, "s", "t", ".repo");
    assert forall q | q in files && q.dir == "s" :: q == p && q.file == p.file;
  }

  /** Where everything is after a backup was made, forced or not, over whatever backup there was: the
      target holds exactly the matching files of the source, nothing of an old backup; the removable
      files are gone from the source; and nothing else has changed. */
  lemma BackupMadeAt<T>(tree: Tree<T>, force: bool, target: string, source: string, ext: string, p: Path)
    requires Housed(tree) && source != target && source in tree.dirs && (force || target !in tree.dirs)
    ensures var (t, ok) := Backup(tree, force, target, source, ext);
      && ok && t.dirs == tree.dirs + {target}
      && if p.dir == target then
           var from := Path(source, p.file);
           (p in t.files <==> from in tree.files && Extension(p.file) == ext) && (p in t.files ==> t.files[p] == tree.files[from])
         else
           (p in t.files <==> p in tree.files && !Removable(p, source, ext)) && (p in t.files ==> t.files[p] == tree.files[p])
  {
    MovedAt(WithoutOld(tree, force, target), source, target, ext, p);
    assert tree.dirs - {target} + {target} == tree.dirs + {target};
  }

  /** The files once an old backup is removed, if that is forced. */
  function WithoutOld<T>(tree: Tree<T>, force: bool, target: string): map<Path, T> {
    if force then map p | p in tree.files && p.dir != target :: tree.files[p] else tree.files
  }

  /** A backup that is made, forced or not, loses no file of the source exactly when none has the
      extension in another letter case. */
  lemma BackupConservesIff<T>(tree: Tree<T>, force: bool, target: string, source: string, ext: string)
    requires Housed(tree) && source != target && source in tree.dirs && (force || target !in tree.dirs)
    ensures var t := Backup(tree, force, target, source, ext).0;
      ((forall p | p in tree.files && p.dir == source :: Kept(tree.files, t.files, source, target, p.file))
       <==> forall p | p in tree.files && Removable(p, source, ext) :: Extension(p.file) == ext)
  {
    var t := Backup(tree, force, target, source, ext).0;
    forall p | p in tree.files && p.dir == source
      ensures Kept(tree.files, t.files, source, target, p.file) <==> (Removable(p, source, ext) ==> Extension(p.file) == ext)
    {
      assert p == Path(source, p.file);
      BackupMadeAt(tree, force, target, source, ext, p);
      BackupMadeAt(tree, force, target, source, ext, Path(target, p.file));
    }
  }

  /** A backup that is made and loses nothing moves exactly the matching files and keeps every
      content. */
  lemma FirstBackup<T>(tree: Tree<T>, force: bool, target: string, source: string, ext: string, name: string)
    requires Housed(tree) && source != target && source in tree.dirs && (force || target !in tree.dirs)
    requires forall p | p in tree.files && Removable(p, source, ext) :: Extension(p.file) == ext
    ensures var (t, ok) := Backup(tree, force, target, source, ext);
      var here, there := Path(source, name), Path(target, name);
      && ok && target in t.dirs && Housed(t)
      && (there in t.files <==> here in tree.files && Extension(name) == ext)
      && (there in t.files ==> t.files[there] == tree.files[here])
      && (here in t.files <==> here in tree.files && Extension(name) != ext)
      && (here in t.files ==> t.files[here] == tree.files[here])
  {
    var t := Backup(tree, force, target, source, ext).0;
    BackupMadeAt(tree, force, target, source, ext, Path(source, name));
    BackupMadeAt(tree, force, target, source, ext, Path(target, name));
    forall p | p in t.files
      ensures p.dir in t.dirs
    {
      BackupMadeAt(tree, force, target, source, ext, p);
    }
  }

  /** A source that cannot be opened leaves an empty backup directory behind, and an old backup is gone
      if that was forced. */
  lemma BackupWithoutSource<T>(tree: Tree<T>, force: bool, target: string, source: string, ext: string)
    requires source !in tree.dirs && (force || target !in tree.dirs) && source != target
    ensures Backup(tree, force, target, source, ext) == (Tree(WithoutOld(tree, force, target), tree.dirs + {target}), false)
  {
    assert tree.dirs - {target} + {target} == tree.dirs + {target};
  }

  /** Once there is a backup, an unforced run touches nothing. */
  lemma LaterBackup<T>(tree: Tree<T>, target: string, source: string, ext: string)
    requires target in tree.dirs
    ensures Backup(tree, false, target, source, ext) == (tree, true)
  {
  }

  // --------------------------------------------------------- on the heap

  method CopyFilesWithExtension<K>(fs: FileSystem<K>, source: string, target: string, ext: string)
    modifies fs`files
    ensures fs.files == Copied(old(fs.files), source, target, ext)
  {
    ghost var files := fs.files;
    var entries := fs.files.Keys;
    var left := entries;
    CopyNone(files, source, target, ext);
    while left != {}
      invariant left <= entries == files.Keys
      invariant fs.files == CopiedFrom(files, entries - left, source, target, ext)
    {
      var entry :| entry in left;
      CopyOneMore(files, entries - left, entry, source, target, ext);
      assert entries - left + {entry} == entries - (left - {entry});
      if entry.dir == source && Extension(entry.file) == ext {
        var destination := Path(target, entry.file);
        if destination !in fs.files {
          fs.files := fs.files[destination := fs.files[entry]];
        }
      }
      left := left - {entry};
    }
    assert entries - {} == entries;
  }

  lemma CopyNone<T>(files: map<Path, T>, source: string, target: string, ext: string)
    ensures CopiedFrom(files, {}, source, target, ext) == files
  {
  }

  lemma CopyOneMore<T>(files: map<Path, T>, done: set<Path>, entry: Path, source: string, target: string, ext: string)
    requires done <= files.Keys && entry in files
    ensures var before, after := CopiedFrom(files, done, source, target, ext), CopiedFrom(files, done + {entry}, source, target, ext);
      && entry in before
      && after == if entry.dir == source && Extension(entry.file) == ext && Path(target, entry.file) !in before
                  then before[Path(target, entry.file) := before[entry]] else before
  {
    var before, after := CopiedFrom(files, done, source, target, ext), CopiedFrom(files, done + {entry}, source, target, ext);
    forall p: Path
      ensures p in after <==> p in before || (p == Path(target, entry.file) && entry.dir == source && Extension(entry.file) == ext)
    {
      CopiedAt(files, done, source, target, ext, p);
      CopiedAt(files, done + {entry}, source, target, ext, p);
      assert entry == Path(entry.dir, entry.file);
    }
  }

  /** A copy replaces no file that is there, makes one for each matching file of the source, and takes
      its content; nothing is removed. */
  lemma CopiedIs<T>(files: map<Path, T>, source: string, target: string, ext: string, p: Path)
    ensures var c, from := Copied(files, source, target, ext), Path(source, p.file);
      && (p in c <==> p in files || (p.dir == target && from in files && Extension(p.file) == ext))
      && (p in c ==> c[p] == if p in files then files[p] else files[from])
  {
    CopiedAt(files, files.Keys, source, target, ext, p);
  }

  lemma CopiedAt<T>(files: map<Path, T>, entries: set<Path>, source: string, target: string, ext: string, p: Path)
    requires entries <= files.Keys
    ensures p in CopiedFrom(files, entries, source, target, ext)
       <==> p in files || (p.dir == target && Path(source, p.file) in entries && Extension(p.file) == ext)
  {
    if p.dir == target {
      assert p == Path(target, p.file);
    }
  }

  method RemoveFilesWithExtension<K>(fs: FileSystem<K>, source: string, ext: string)
    modifies fs`files
    ensures fs.files == Removed(old(fs.files), source, ext)
  {
    ghost var files := fs.files;
    var left := fs.files.Keys;
    while left != {}
      invariant left <= files.Keys
      invariant fs.files == map p | p in files && (p in left || !Removable(p, source, ext)) :: files[p]
    {
      var entry :| entry in left;
      if entry.dir == source && Lowered(Extension(entry.file)) == Lowered(ext) {
        fs.files := fs.files - {entry};
      }
      left := left - {entry};
    }
  }

  method BackupFilesByExtension<K>(fs: FileSystem<K>, force: bool, target: string, source: string,
                                   ext: string) returns (ok: bool)
    modifies fs
    ensures (Tree(fs.files, fs.dirs), ok) == Backup(Tree(old(fs.files), old(fs.dirs)), force, target, source, ext)
  {
    if force {
      fs.files := map p | p in fs.files && p.dir != target :: fs.files[p];
      fs.dirs := fs.dirs - {target};
    }
    if target in fs.dirs {
      return true;
    }
    ok := source in fs.dirs;
    fs.dirs := fs.dirs + {target};
    if ok {
      CopyFilesWithExtension(fs, source, target, ext);
      RemoveFilesWithExtension(fs, source, ext);
    }
  }
}
