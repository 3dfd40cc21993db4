/** The order in which std::map walks its keys, and the names a directory iterator yields. */
module Orders {
  import opened Sequences
  import opened KeyFiles

  /** std::string's order: by the first character that differs, a prefix first. */
  predicate Precedes(s: string, t: string) {
    t != "" && (s == "" || s[0] < t[0] || (s[0] == t[0] && Precedes(s[1..], t[1..])))
  }

  /** The texts agree up to a place where the second goes on and the first has ended or has the lesser
      character. */
  predicate DiffersFirst(s: string, t: string, k: nat) {
    k <= |s| && k < |t| && s[..k] == t[..k] && (k == |s| || s[k] < t[k])
  }

  lemma {:induction false} PrecedesIff(s: string, t: string)
    ensures Precedes(s, t) <==> exists k: nat :: DiffersFirst(s, t, k)
  {
    if s == "" {
      if t != "" { assert DiffersFirst(s, t, 0); }
    } else if t != "" && s[0] == t[0] {
      PrecedesIff(s[1..], t[1..]);
      if k: nat :| DiffersFirst(s[1..], t[1..], k) {
        assert s[..k + 1] == [s[0]] + s[1..][..k] && t[..k + 1] == [t[0]] + t[1..][..k];
        assert DiffersFirst(s, t, k + 1);
      }
      if k: nat :| DiffersFirst(s, t, k) {
        assert k > 0;
        assert s[1..][..k - 1] == s[..k][1..] && t[1..][..k - 1] == t[..k][1..];
        assert DiffersFirst(s[1..], t[1..], k - 1);
      }
    } else if t != "" {
      if s[0] < t[0] { assert DiffersFirst(s, t, 0); }
      FirstDiffers(s, t);
    }
  }

  lemma FirstDiffers(s: string, t: string)
    requires s != "" && t != "" && s[0] != t[0]
    ensures forall k: nat | DiffersFirst(s, t, k) :: k == 0
  {
    forall k: nat | 0 < k <= |s| && k < |t|
      ensures s[..k] != t[..k]
    {
      assert s[..k][0] == s[0] && t[..k][0] == t[0];
    }
  }

  lemma {:induction false} PrecedesTotal(s: string, t: string)
    ensures s != t ==> Precedes(s, t) || Precedes(t, s)
    ensures !(Precedes(s, t) && Precedes(t, s))
    ensures !Precedes(s, s)
  {
    if s != "" {
      PrecedesTotal(s[1..], s[1..]);
      if t != "" {
        PrecedesTotal(s[1..], t[1..]);
        assert s == [s[0]] + s[1..] && t == [t[0]] + t[1..];
      }
    }
  }

  lemma {:induction false} PrecedesTransitive(s: string, t: string, u: string)
    requires Precedes(s, t) && Precedes(t, u)
    ensures Precedes(s, u)
  {
    if s != "" && s[0] == t[0] == u[0] {
      PrecedesTransitive(s[1..], t[1..], u[1..]);
    }
  }

  predicate IsLeast(id: string, ids: set<string>) {
    id in ids && forall k | k in ids :: k == id || Precedes(id, k)
  }

  lemma {:induction false} LeastExists(ids: set<string>)
    requires ids != {}
    ensures exists id :: IsLeast(id, ids)
  {
    var some :| some in ids;
    var rest := ids - {some};
    if rest == {} {
      assert ids == rest + {some};
      assert IsLeast(some, ids);
    } else {
      LeastExists(rest);
      var least :| IsLeast(least, rest);
      PrecedesTotal(some, least);
      if Precedes(some, least) {
        forall k | k in ids && k != some
          ensures Precedes(some, k)
        {
          if k != least { PrecedesTransitive(some, least, k); }
        }
        assert IsLeast(some, ids);
      } else {
        assert IsLeast(least, ids);
      }
    }
  }

  lemma OnlyLeast(a: string, b: string, ids: set<string>)
    requires IsLeast(a, ids) && IsLeast(b, ids)
    ensures a == b
  {
    PrecedesTotal(a, b);
  }

  ghost function Least(ids: set<string>): (id: string)
    requires ids != {}
    ensures IsLeast(id, ids)
  {
    LeastExists(ids);
    var id :| IsLeast(id, ids);
    id
  }

  /** The keys of a std::map in the order of its iterator. */
  ghost function Ascending(ids: set<string>): seq<string> {
    if ids == {} then [] else [Least(ids)] + Ascending(ids - {Least(ids)})
  }

  lemma {:induction false} AscendingEnumerates(ids: set<string>)
    ensures Distinct(Ascending(ids))
    ensures forall id :: id in Ascending(ids) <==> id in ids
    ensures forall i, j | 0 <= i < j < |Ascending(ids)| :: Precedes(Ascending(ids)[i], Ascending(ids)[j])
  {
    if ids != {} {
      var least, rest := Least(ids), Ascending(ids - {Least(ids)});
      AscendingEnumerates(ids - {least});
      var all := [least] + rest;
      forall i, j | 0 <= i < j < |all|
        ensures all[i] != all[j] && Precedes(all[i], all[j])
      {
        assert all[j] == rest[j - 1] && rest[j - 1] in rest;
        if i > 0 { assert all[i] == rest[i - 1]; }
      }
    }
  }

  /** The least key comes next. */
  lemma NextAscending(id: string, left: set<string>)
    requires IsLeast(id, left)
    ensures Ascending(left) == [id] + Ascending(left - {id})
  {
    OnlyLeast(id, Least(left), left);
  }

  // ---------------------------------------------------------- directories

  /** The entries of a directory, once each, in whatever order. */
  predicate Lists<T>(entries: seq<string>, files: map<Path, T>, dir: string) {
    && Distinct(entries)
    && (forall name | name in entries :: Path(dir, name) in files)
    && (forall p | p in files && p.dir == dir :: p.file in entries)
  }

  method ListDir<K>(fs: FileSystem<K>, dir: string) returns (entries: seq<string>)
    ensures Lists(entries, fs.files, dir)
  {
    entries := [];
    var left := set p | p in fs.files && p.dir == dir :: p.file;
    ghost var all := left;
    while left != {}
      invariant left <= all && Distinct(entries)
      invariant forall name :: name in entries <==> name in all - left
    {
      var name :| name in left;
      DistinctAppend(entries, name);
      entries := entries + [name];
      left := left - {name};
    }
  }
}
