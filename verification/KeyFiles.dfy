/** Key files (src/services/files.cpp) and the file system they are loaded from and saved to.

    A key file is a map from group name to key/value pairs; GLib's text syntax is not modelled.
    The type of keys is a parameter, so that each client names the keys it reads and writes and
    keeps every other key apart. */
module KeyFiles {
  import opened Wrappers

  type Group<!K> = map<K, string>
  type Content<!K> = map<string, Group<K>>

  /** A file inside a directory: std::filesystem's `dir / file`. */
  datatype Path = Path(dir: string, file: string)

  /** `GetGroup` is total: a missing group has no keys. */
  function GetGroup<K>(c: Content<K>, group: string): Group<K> {
    if group in c then c[group] else map[]
  }

  /** The effect of one `set_string`: the group is created when missing, every other key is kept. */
  function SetKey<K>(c: Content<K>, group: string, key: K, value: string): Content<K> {
    c[group := GetGroup(c, group)[key := value]]
  }

  function GetStringOpt<K>(g: Group<K>, key: K): Option<string> {
    if key in g then Some(g[key]) else None
  }

  /** GLib reads "true" and "1" as true, "false" and "0" as false, and rejects anything else. */
  function ReadBoolean(text: string): Option<bool> {
    if text == "true" || text == "1" then Some(true)
    else if text == "false" || text == "0" then Some(false)
    else None
  }

  function BooleanText(b: bool): string {
    if b then "true" else "false"
  }

  lemma BooleanRoundTrip(b: bool)
    ensures ReadBoolean(BooleanText(b)) == Some(b)
  {
    assert "true"[0] != "false"[0];
    assert "1"[0] != "false"[0] && "0"[0] != "false"[0];
  }

  /** `writes` laid over `base`: what a run of `SetKey` calls leaves, in whatever order they come. */
  function Overlay<K>(base: Content<K>, writes: Content<K>): Content<K> {
    map g | g in base.Keys + writes.Keys :: GetGroup(base, g) + GetGroup(writes, g)
  }

  /** Two sets of writes that touch the same keys of the same groups. */
  ghost predicate SameShape<K(!new)>(a: Content<K>, b: Content<K>) {
    && a.Keys == b.Keys
    && forall g | g in a :: a[g].Keys == b[g].Keys
  }

  lemma OverlayKeys<K(!new)>(base: Content<K>, writes: Content<K>)
    ensures Overlay(base, writes).Keys == base.Keys + writes.Keys
  {
  }

  lemma OverlayGroup<K(!new)>(base: Content<K>, writes: Content<K>, g: string)
    ensures GetGroup(Overlay(base, writes), g) == GetGroup(base, g) + GetGroup(writes, g)
  {
  }

  lemma ContentEqual<K(!new)>(a: Content<K>, b: Content<K>)
    requires a.Keys == b.Keys
    requires forall g | g in a :: GetGroup(a, g) == GetGroup(b, g)
    ensures a == b
  {
    assert forall g | g in a :: a[g] == GetGroup(a, g) && b[g] == GetGroup(b, g);
  }

  /** An earlier write is lost under a later one of the same shape. */
  lemma OverlayAbsorbs<K(!new)>(base: Content<K>, early: Content<K>, late: Content<K>)
    requires SameShape(early, late)
    ensures Overlay(Overlay(base, early), late) == Overlay(base, late)
  {
    var l, r := Overlay(Overlay(base, early), late), Overlay(base, late);
    forall g | g in l
      ensures GetGroup(l, g) == GetGroup(r, g)
    {
      OverlayGroup(base, early, g);
      OverlayGroup(Overlay(base, early), late, g);
      OverlayGroup(base, late, g);
      assert GetGroup(early, g).Keys == GetGroup(late, g).Keys;
    }
    ContentEqual(l, r);
  }

  lemma GroupCongruent<K(!new)>(a: Group<K>, b: Group<K>, between: Group<K>, late: Group<K>)
    requires a + late == b + late
    ensures a + between + late == b + between + late
  {
    var l, r := a + between + late, b + between + late;
    assert (a + late).Keys == (b + late).Keys;
    assert l.Keys == r.Keys;
    forall k | k in l
      ensures l[k] == r[k]
    {
      if k !in late && k !in between {
        assert (a + late)[k] == (b + late)[k];
      }
    }
  }

  lemma CongruentAt<K(!new)>(a: Content<K>, b: Content<K>, between: Content<K>, late: Content<K>, g: string)
    requires Overlay(a, late) == Overlay(b, late)
    ensures GetGroup(Overlay(Overlay(a, between), late), g) == GetGroup(Overlay(Overlay(b, between), late), g)
  {
    var ab, bb := Overlay(a, between), Overlay(b, between);
    OverlayGroup(ab, late, g);
    OverlayGroup(bb, late, g);
    OverlayGroup(a, between, g);
    OverlayGroup(b, between, g);
    OverlayGroup(a, late, g);
    OverlayGroup(b, late, g);
    GroupCongruent(GetGroup(a, g), GetGroup(b, g), GetGroup(between, g), GetGroup(late, g));
  }

  lemma CongruentKeys<K(!new)>(a: Content<K>, b: Content<K>, between: Content<K>, late: Content<K>)
    requires Overlay(a, late) == Overlay(b, late)
    ensures Overlay(Overlay(a, between), late).Keys == Overlay(Overlay(b, between), late).Keys
  {
    OverlayKeys(a, late);
    OverlayKeys(b, late);
    OverlayKeys(a, between);
    OverlayKeys(b, between);
    OverlayKeys(Overlay(a, between), late);
    OverlayKeys(Overlay(b, between), late);
    SetsCongruent(a.Keys, b.Keys, between.Keys, late.Keys);
  }

  lemma SetsCongruent(a: set<string>, b: set<string>, between: set<string>, late: set<string>)
    requires a + late == b + late
    ensures a + between + late == b + between + late
  {
    forall g: string
      ensures g in a + between + late <==> g in b + between + late
    {
      assert g in a + late <==> g in b + late;
    }
  }

  /** Contents a write makes equal are made equal by it still, after the same further write. */
  lemma OverlayCongruent<K(!new)>(a: Content<K>, b: Content<K>, between: Content<K>, late: Content<K>)
    requires Overlay(a, late) == Overlay(b, late)
    ensures Overlay(Overlay(a, between), late) == Overlay(Overlay(b, between), late)
  {
    CongruentKeys(a, b, between, late);
    forall g: string { CongruentAt(a, b, between, late, g); }
    ContentEqual(Overlay(Overlay(a, between), late), Overlay(Overlay(b, between), late));
  }

  /** Writing back what is already there changes nothing. */
  lemma OverlayIdentity<K(!new)>(base: Content<K>, writes: Content<K>)
    requires writes.Keys <= base.Keys
    requires forall g, k | g in writes && k in writes[g] :: k in base[g] && base[g][k] == writes[g][k]
    ensures Overlay(base, writes) == base
  {
    assert Overlay(base, writes).Keys == base.Keys;
    forall g | g in base
      ensures Overlay(base, writes)[g] == base[g]
    {
    }
  }

  // ------------------------------------------------------- on the heap

  /** The file system, as far as key files see it. */
  class FileSystem<!K(==)> {
    var files: map<Path, Content<K>>
    var dirs: set<string>

    constructor (files: map<Path, Content<K>>, dirs: set<string>)
      ensures this.files == files && this.dirs == dirs
    {
      this.files, this.dirs := files, dirs;
    }
  }

  function Load<K>(files: map<Path, Content<K>>, path: Path): Content<K> {
    if path in files then files[path] else map[]
  }

  class KeyFile<!K(==)> {
    const path: Path
    var data: Content<K>

    /** A missing file reads as an empty one. */
    constructor (fs: FileSystem<K>, path: Path)
      ensures this.path == path && data == Load(fs.files, path)
    {
      this.path := path;
      this.data := if path in fs.files then fs.files[path] else map[];
    }

    method SetString(group: string, key: K, value: string)
      modifies this
      ensures data == SetKey(old(data), group, key, value)
    {
      var keys := if group in data then data[group] else map[];
      data := data[group := keys[key := value]];
    }

    /** Writes nothing, and so erases nothing, when there is no value. */
    method SetStringOpt(group: string, key: K, value: Option<string>)
      modifies this
      ensures data == if value.Some? then SetKey(old(data), group, key, value.value) else old(data)
    {
      if value.Some? {
        SetString(group, key, value.value);
      }
    }

    method SetBoolean(group: string, key: K, value: bool)
      modifies this
      ensures data == SetKey(old(data), group, key, BooleanText(value))
    {
      SetString(group, key, if value then "true" else "false");
    }

    method Save(fs: FileSystem<K>)
      modifies fs`files
      ensures fs.files == old(fs.files)[path := data]
    {
      fs.files := fs.files[path := data];
    }
  }
}
