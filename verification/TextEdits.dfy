/** Searching texts, and findAndReplace of src/functions.cpp. */
module TextEdits {
  import opened Wrappers
  import opened Sequences

  // -------------------------------------------------------------- searching

  predicate At(s: string, find: string, i: nat) {
    i + |find| <= |s| && s[i..i + |find|] == find
  }

  /** `std::string::find(find, pos)`. */
  function FindFrom(s: string, find: string, pos: nat): (r: Option<nat>)
    ensures r.Some? ==> pos <= r.value && At(s, find, r.value) && forall k | pos <= k < r.value :: !At(s, find, k)
    ensures r.None? ==> forall k: nat | pos <= k :: !At(s, find, k)
    decreases |s| - pos
  {
    if pos + |find| > |s| then None
    else if At(s, find, pos) then Some(pos)
    else FindFrom(s, find, pos + 1)
  }

  predicate Contains(s: string, text: string) {
    FindFrom(s, text, 0).Some?
  }

  lemma ContainsAt(s: string, text: string, i: nat)
    requires At(s, text, i)
    ensures Contains(s, text)
  {
  }

  lemma AtWithin(a: string, b: string, c: string, text: string, i: nat)
    requires At(b, text, i)
    ensures At(a + b + c, text, |a| + i)
  {
    assert (a + b + c)[|a| + i..|a| + i + |text|] == b[i..i + |text|];
  }

  lemma ContainsWithin(a: string, b: string, c: string, text: string)
    requires Contains(b, text)
    ensures Contains(a + b + c, text)
  {
    var i := FindFrom(b, text, 0).value;
    AtWithin(a, b, c, text, i);
    ContainsAt(a + b + c, text, |a| + i);
  }

  lemma AppendKeepsContains(s: string, more: string, text: string)
    requires Contains(s, text)
    ensures Contains(s + more, text)
  {
    ContainsWithin("", s, more, text);
    assert "" + s + more == s + more;
  }

  // -------------------------------------------------------- findAndReplace

  /** `s` cut at the leftmost, non-overlapping occurrences of `find`. */
  function Cut(s: string, find: string): (pieces: seq<string>)
    requires find != ""
    ensures pieces != []
    decreases |s|
  {
    match FindFrom(s, find, 0)
    case None => [s]
    case Some(i) => [s[..i]] + Cut(s[i + |find|..], find)
  }

  function Join(pieces: seq<string>, separator: string): string
    requires pieces != []
  {
    if |pieces| == 1 then pieces[0] else pieces[0] + separator + Join(pieces[1..], separator)
  }

  function Replaced(s: string, find: string, replace: string): string
    requires find != ""
  {
    Join(Cut(s, find), replace)
  }

  lemma {:induction false} CutJoins(s: string, find: string)
    requires find != ""
    ensures Join(Cut(s, find), find) == s
    decreases |s|
  {
    match FindFrom(s, find, 0)
    case None =>
    case Some(i) =>
      CutJoins(s[i + |find|..], find);
      var pieces := Cut(s, find);
      assert pieces[1..] == Cut(s[i + |find|..], find);
      assert s == s[..i] + find + s[i + |find|..];
  }

  /** A piece ends at the first occurrence that follows its start. */
  ghost predicate Leftmost(piece: string, find: string) {
    forall i: nat | i < |piece| :: !At(piece + find, find, i)
  }

  /** Cutting at leftmost occurrences, without saying how. */
  ghost predicate IsCut(pieces: seq<string>, s: string, find: string) {
    && pieces != [] && Join(pieces, find) == s
    && (forall k | 0 <= k < |pieces| - 1 :: Leftmost(pieces[k], find))
    && !Contains(Last(pieces), find)
  }

  lemma AtHead(head: string, rest: string, find: string, k: nat)
    requires k + |find| <= |head|
    ensures At(head, find, k) <==> At(head + rest, find, k)
  {
    assert (head + rest)[k..k + |find|] == head[k..k + |find|];
  }

  lemma {:induction false} CutIsCut(s: string, find: string)
    requires find != ""
    ensures IsCut(Cut(s, find), s, find)
    decreases |s|
  {
    CutJoins(s, find);
    match FindFrom(s, find, 0)
    case None =>
    case Some(i) =>
      var rest := Cut(s[i + |find|..], find);
      CutIsCut(s[i + |find|..], find);
      var pieces := Cut(s, find);
      assert pieces == [s[..i]] + rest;
      assert s[..i] + find == s[..i + |find|];
      assert s[..i + |find|] + s[i + |find|..] == s;
      forall k: nat | k < i
        ensures !At(s[..i] + find, find, k)
      {
        AtHead(s[..i] + find, s[i + |find|..], find, k);
      }
      assert Last(pieces) == Last(rest);
  }

  /** The first piece ends at the leftmost occurrence. */
  lemma FirstPiece(p: string, find: string, tail: string)
    requires find != "" && Leftmost(p, find)
    ensures FindFrom(p + find + tail, find, 0) == Some(|p|)
    ensures (p + find + tail)[..|p|] == p && (p + find + tail)[|p| + |find|..] == tail
  {
    var s := p + find + tail;
    forall k: nat | k < |p|
      ensures !At(s, find, k)
    {
      AtHead(p + find, tail, find, k);
    }
    assert s[|p|..|p| + |find|] == find;
    assert At(s, find, |p|);
  }

  /** There is only one such cut, so `Replaced` puts `replace` for exactly the leftmost,
      non-overlapping occurrences. */
  lemma {:induction false} OnlyOneCut(pieces: seq<string>, s: string, find: string)
    requires find != "" && IsCut(pieces, s, find)
    ensures pieces == Cut(s, find)
    decreases |pieces|
  {
    if |pieces| == 1 {
      assert Last(pieces) == s;
    } else {
      var p, rest := pieces[0], pieces[1..];
      FirstPiece(p, find, Join(rest, find));
      assert Last(rest) == Last(pieces);
      OnlyOneCut(rest, Join(rest, find), find);
    }
  }

  lemma ReplacedHead(s: string, find: string, replace: string, i: nat)
    requires find != "" && FindFrom(s, find, 0) == Some(i)
    ensures Cut(s, find) == [s[..i]] + Cut(s[i + |find|..], find)
    ensures Replaced(s, find, replace) == s[..i] + replace + Replaced(s[i + |find|..], find, replace)
  {
    var rest := Cut(s[i + |find|..], find);
    assert ([s[..i]] + rest)[1..] == rest;
  }

  /** Each of the k replaced occurrences changes the length by |replace| - |find|. */
  lemma {:induction false} ReplacedLength(s: string, find: string, replace: string)
    requires find != ""
    ensures |Replaced(s, find, replace)| == |s| + (|Cut(s, find)| - 1) * (|replace| - |find|)
    decreases |s|
  {
    match FindFrom(s, find, 0)
    case None =>
    case Some(i) =>
      var rest := s[i + |find|..];
      ReplacedLength(rest, find, replace);
      ReplacedHead(s, find, replace, i);
      OneMoreTime(|Cut(rest, find)|, |replace| - |find|);
  }

  lemma OneMoreTime(n: nat, d: int)
    ensures n * d == (n - 1) * d + d
  {
  }

  lemma {:induction false} FindShift(s: string, find: string, pos: nat)
    requires pos <= |s|
    ensures var r, t := FindFrom(s, find, pos), FindFrom(s[pos..], find, 0);
            if t.None? then r.None? else r == Some(pos + t.value)
  {
    assert forall k: nat :: At(s[pos..], find, k) <==> At(s, find, pos + k) by {
      forall k: nat
        ensures At(s[pos..], find, k) <==> At(s, find, pos + k)
      {
        if pos + k + |find| <= |s| {
          assert s[pos..][k..k + |find|] == s[pos + k..pos + k + |find|];
        }
      }
    }
    var t := FindFrom(s[pos..], find, 0);
    assert forall k: nat | pos <= k :: At(s, find, k) ==> At(s[pos..], find, k - pos);
    if t.Some? {
      assert At(s, find, pos + t.value);
    }
  }

  /** One turn of the loop: the text after the position is replaced just the same. */
  lemma ReplaceTurn(result: string, pos: nat, find: string, replace: string, i: nat)
    requires find != "" && pos <= |result| && FindFrom(result, find, pos) == Some(i)
    ensures var next := result[..i] + replace + result[i + |find|..];
      && i + |replace| <= |next|
      && next[..i + |replace|] + Replaced(next[i + |replace|..], find, replace)
         == result[..pos] + Replaced(result[pos..], find, replace)
  {
    FindShift(result, find, pos);
    TurnIsReplaced(result, pos, find, replace, i, result[pos..]);
  }

  lemma TurnIsReplaced(result: string, pos: nat, find: string, replace: string, i: nat, after: string)
    requires find != "" && pos <= i && i + |find| <= |result| && after == result[pos..]
    requires FindFrom(after, find, 0) == Some(i - pos)
    ensures var next := result[..i] + replace + result[i + |find|..];
      next[..i + |replace|] + Replaced(next[i + |replace|..], find, replace) == result[..pos] + Replaced(after, find, replace)
  {
    ReplacedHead(after, find, replace, i - pos);
    NextText(result, pos, find, replace, i);
    Associative(result[..pos], after[..i - pos] + replace, Replaced(result[i + |find|..], find, replace));
  }

  lemma NextText(result: string, pos: nat, find: string, replace: string, i: nat)
    requires pos <= i && i + |find| <= |result|
    ensures var next := result[..i] + replace + result[i + |find|..];
      && next[i + |replace|..] == result[i + |find|..] == result[pos..][i - pos + |find|..]
      && next[..i + |replace|] == result[..pos] + (result[pos..][..i - pos] + replace)
  {
    assert result[..i] == result[..pos] + result[pos..][..i - pos];
  }

  method FindAndReplace(source: string, find: string, replace: string) returns (result: string)
    requires find != "" // see `LoopsForeverIff`
    ensures result == Replaced(source, find, replace)
  {
    result := source;
    var pos: nat := 0;
    assert source[0..] == source;
    var found := FindFrom(result, find, pos);
    while found.Some?
      invariant pos <= |result| && found == FindFrom(result, find, pos)
      invariant result[..pos] + Replaced(result[pos..], find, replace) == Replaced(source, find, replace)
      decreases |result| - pos, if found.Some? then 1 else 0
    {
      var i := found.value;
      ReplaceTurn(result, pos, find, replace, i);
      result := result[..i] + replace + result[i + |find|..];
      pos := i + |replace|;
      found := FindFrom(result, find, pos);
    }
    FindShift(result, find, pos);
    assert result[..pos] + result[pos..] == result;
  }

  /** The loop's state after `n` turns, or none if it has stopped by then. */
  function Turns(source: string, find: string, replace: string, n: nat): Option<(string, nat)> {
    if n == 0 then Some((source, 0))
    else
      match Turns(source, find, replace, n - 1)
      case None => None
      case Some((result, pos)) =>
        match FindFrom(result, find, pos)
        case None => None
        case Some(i) => Some((result[..i] + replace + result[i + |find|..], i + |replace|))
  }

  lemma {:induction false} TurnsShrink(source: string, find: string, replace: string, n: nat)
    ensures var t := Turns(source, find, replace, n);
      t.Some? ==> t.value.1 <= |t.value.0| && |t.value.0| - t.value.1 <= |source| - n * |find|
  {
    if n > 0 {
      TurnsShrink(source, find, replace, n - 1);
      assert n * |find| == (n - 1) * |find| + |find|;
    }
  }

  lemma {:induction false} EmptyPatternTurns(source: string, replace: string, n: nat)
    ensures Turns(source, "", replace, n).Some?
  {
    if n > 0 {
      EmptyPatternTurns(source, replace, n - 1);
      TurnsShrink(source, "", replace, n - 1);
      var (result, pos) := Turns(source, "", replace, n - 1).value;
      assert At(result, "", pos);
    }
  }

  /** The loop runs for ever exactly on the empty pattern. */
  lemma LoopsForeverIff(source: string, find: string, replace: string)
    ensures (forall n: nat :: Turns(source, find, replace, n).Some?) <==> find == ""
  {
    if find == "" {
      forall n: nat { EmptyPatternTurns(source, replace, n); }
    } else {
      var n := |source| + 1;
      TurnsShrink(source, find, replace, n);
      assert n * |find| >= n;
      assert Turns(source, find, replace, n).None?;
    }
  }
}
