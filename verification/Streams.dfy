/** Reading a command's output and a file's bytes: retrieveLine, CommandProxy and the read loop of
    runCommand in src/services/runner.cpp, and the chunked checksum of src/services/files.cpp. */
module Streams {
  import opened Wrappers
  import opened Sequences
  import TextEdits

  // ---------------------------------------------------------- std::istream

  /** An input stream: what is left to read, and whether its state is still good. */
  datatype Stream = Stream(rest: string, good: bool)

  /** The text before the first `delimiter`, or all of it. */
  function Until(text: string, delimiter: char): (r: string)
    ensures r <= text && delimiter !in r
    ensures |r| < |text| ==> text[|r|] == delimiter
  {
    if text == "" || text[0] == delimiter then "" else [text[0]] + Until(text[1..], delimiter)
  }

  /** `std::getline(stream, line, delimiter)`: the delimiter is read and dropped; running into the
      end of the stream clears its good state; reading nothing at all there is a failure. */
  function Getline(s: Stream, delimiter: char): (Stream, Option<string>) {
    if !s.good then (s, None)
    else
      var line := Until(s.rest, delimiter);
      if |line| < |s.rest| then (Stream(s.rest[|line| + 1..], true), Some(line))
      else if line == "" then (Stream("", false), None)
      else (Stream("", false), Some(line))
  }

  // ---------------------------------------------------------- CommandProxy

  datatype Proxy = Proxy(valid: bool, stream: Stream)

  /** `getUntil`: on a good stream there is always an answer. A failed read answers with the empty
      text, and the flag it clears is set again from retrieveLine's result. */
  function GetUntil(p: Proxy, delimiter: char): (Proxy, Option<string>) {
    if !p.valid then (p, None)
    else if !p.stream.good then (p.(valid := false), None)
    else
      var (s, line) := Getline(p.stream, delimiter);
      (Proxy(true, s), Some(if line.Some? then line.value else ""))
  }

  class CommandProxy {
    var valid: bool
    var stream: Stream

    constructor (content: string)
      ensures Abs() == Proxy(true, Stream(content, true))
    {
      valid, stream := true, Stream(content, true);
    }

    ghost function Abs(): Proxy
      reads this
    {
      Proxy(valid, stream)
    }

    method ReadUntil(delimiter: char) returns (out: Option<string>)
      modifies this
      ensures (Abs(), out) == GetUntil(old(Abs()), delimiter)
    {
      if !valid {
        return None;
      }
      var newValid := stream.good;
      out := None;
      if stream.good {
        var (s, line) := Getline(stream, delimiter);
        stream := s;
        if line.None? {
          valid := false;
        }
        out := Some(if line.Some? then line.value else "");
      }
      valid := newValid;
    }

    method ReadLine() returns (out: Option<string>)
      modifies this
      ensures (Abs(), out) == GetUntil(old(Abs()), '\n')
    {
      out := ReadUntil('\n');
    }
  }

  // ---------------------------------------------------- nothing is lost

  /** The answers of one call after another, each with its own delimiter. */
  function Calls(p: Proxy, delimiters: seq<char>): (r: (Proxy, seq<Option<string>>))
    ensures |r.1| == |delimiters|
    decreases |delimiters|
  {
    if delimiters == [] then (p, [])
    else
      var (q, answer) := GetUntil(p, delimiters[0]);
      var (r, answers) := Calls(q, delimiters[1..]);
      (r, [answer] + answers)
  }

  /** What the answers stand for: each piece with the delimiter that ended it, and in the end what is
      left to read. A piece was ended by its delimiter, not by the end of the stream, if another
      answer follows or the stream is still good. */
  function Rebuilt(answers: seq<Option<string>>, delimiters: seq<char>, end: Stream): string
    requires |answers| == |delimiters|
  {
    if answers == [] then end.rest
    else if answers[0].None? then ""
    else
      var delimited := if |answers| > 1 then answers[1].Some? else end.good;
      answers[0].value + (if delimited then [delimiters[0]] else "") + Rebuilt(answers[1..], delimiters[1..], end)
  }

  /** A stream that has ended has nothing left, and a good one belongs to a valid proxy. */
  predicate Sane(p: Proxy) {
    if p.stream.good then p.valid else p.stream.rest == ""
  }

  lemma OneCall(p: Proxy, delimiter: char)
    requires Sane(p)
    ensures var (q, answer) := GetUntil(p, delimiter);
      && Sane(q)
      && (answer.Some? <==> p.stream.good)
      && (answer.Some? ==> p.stream.rest == answer.value + (if q.stream.good then [delimiter] + q.stream.rest else ""))
      && (answer.None? ==> !q.valid && !q.stream.good)
  {
    if p.stream.good {
      var line := Until(p.stream.rest, delimiter);
      if |line| < |p.stream.rest| {
        assert p.stream.rest == line + [delimiter] + p.stream.rest[|line| + 1..];
      }
    }
  }

  lemma RebuiltStep(p: Proxy, q: Proxy, answer: Option<string>, rest: seq<Option<string>>, delimiters: seq<char>,
                    end: Stream)
    requires |delimiters| == |rest| + 1
    requires answer.Some? ==> p.stream.rest == answer.value + (if q.stream.good then [delimiters[0]] + q.stream.rest else "")
    requires answer.None? ==> p.stream.rest == ""
    requires if rest == [] then end == q.stream else rest[0].Some? <==> q.stream.good
    requires q.stream.rest == Rebuilt(rest, delimiters[1..], end)
    requires !q.stream.good ==> q.stream.rest == ""
    ensures p.stream.rest == Rebuilt([answer] + rest, delimiters, end)
  {
    assert ([answer] + rest)[1..] == rest;
  }

  /** Whatever delimiters the calls use, the answers and what is left make up the content. */
  lemma {:induction false} CallsLoseNothing(p: Proxy, delimiters: seq<char>)
    requires Sane(p)
    ensures p.stream.rest == Rebuilt(Calls(p, delimiters).1, delimiters, Calls(p, delimiters).0.stream)
    ensures if delimiters == [] then Calls(p, delimiters).0 == p else Calls(p, delimiters).1[0].Some? <==> p.stream.good
    decreases |delimiters|
  {
    if delimiters != [] {
      var (q, answer) := GetUntil(p, delimiters[0]);
      OneCall(p, delimiters[0]);
      CallsLoseNothing(q, delimiters[1..]);
      var (r, rest) := Calls(q, delimiters[1..]);
      RebuiltStep(p, q, answer, rest, delimiters, r.stream);
    }
  }

  /** Once a call answers nothing, so do all later ones. */
  lemma {:induction false} EndedForGood(p: Proxy, delimiters: seq<char>, i: nat, j: nat)
    requires Sane(p) && i <= j < |delimiters| && Calls(p, delimiters).1[i].None?
    ensures Calls(p, delimiters).1[j].None?
    decreases |delimiters|
  {
    var q := GetUntil(p, delimiters[0]).0;
    OneCall(p, delimiters[0]);
    if i > 0 {
      EndedForGood(q, delimiters[1..], i - 1, j - 1);
    } else if j > 0 {
      CallsLoseNothing(q, delimiters[1..]);
      EndedForGood(q, delimiters[1..], 0, j - 1);
    }
  }

  // ------------------------------------------------------ one delimiter

  /** The text cut at every delimiter. */
  function Split(text: string, delimiter: char): (pieces: seq<string>)
    ensures pieces != []
    decreases |text|
  {
    var line := Until(text, delimiter);
    if |line| < |text| then [line] + Split(text[|line| + 1..], delimiter) else [line]
  }

  lemma {:induction false} UntilHead(line: string, delimiter: char, text: string)
    requires delimiter !in line
    ensures Until(line + [delimiter] + text, delimiter) == line
  {
    if line != "" {
      UntilHead(line[1..], delimiter, text);
      assert (line + [delimiter] + text)[1..] == line[1..] + [delimiter] + text;
    }
  }

  lemma SplitHead(piece: string, delimiter: char, text: string)
    requires delimiter !in piece
    ensures Split(piece + [delimiter] + text, delimiter) == [piece] + Split(text, delimiter)
  {
    UntilHead(piece, delimiter, text);
    assert (piece + [delimiter] + text)[|piece| + 1..] == text;
  }

  lemma {:induction false} SplitJoins(text: string, delimiter: char)
    ensures TextEdits.Join(Split(text, delimiter), [delimiter]) == text
    ensures forall k | 0 <= k < |Split(text, delimiter)| :: delimiter !in Split(text, delimiter)[k]
    decreases |text|
  {
    var line := Until(text, delimiter);
    if |line| < |text| {
      var rest := Split(text[|line| + 1..], delimiter);
      SplitJoins(text[|line| + 1..], delimiter);
      assert ([line] + rest)[1..] == rest;
      assert text == line + [delimiter] + text[|line| + 1..];
    }
  }

  function Repeat(c: char, n: nat): seq<char> {
    seq(n, _ => c)
  }

  function Answered(pieces: seq<string>, empty: nat): seq<Option<string>> {
    seq(|pieces| + empty, i requires 0 <= i => if i < |pieces| then Some(pieces[i]) else None)
  }

  lemma {:induction false} EndedAnswersNothing(p: Proxy, delimiter: char, n: nat)
    requires !p.stream.good
    ensures Calls(p, Repeat(delimiter, n)).1 == Answered([], n)
    decreases n
  {
    if n > 0 {
      assert Repeat(delimiter, n)[1..] == Repeat(delimiter, n - 1);
      EndedAnswersNothing(GetUntil(p, delimiter).0, delimiter, n - 1);
      assert Answered([], n) == [None] + Answered([], n - 1);
    }
  }

  lemma AnsweredHead(piece: string, pieces: seq<string>, empty: nat)
    ensures Answered([piece] + pieces, empty) == [Some(piece)] + Answered(pieces, empty)
  {
  }

  /** The first of several calls, on a good stream. */
  lemma FirstCall(text: string, delimiter: char, n: nat)
    ensures var p := Proxy(true, Stream(text, true));
      && GetUntil(p, delimiter).1 == Some(Until(text, delimiter))
      && Calls(p, Repeat(delimiter, n + 1)).1
         == [Some(Until(text, delimiter))] + Calls(GetUntil(p, delimiter).0, Repeat(delimiter, n)).1
  {
    assert Repeat(delimiter, n + 1)[1..] == Repeat(delimiter, n);
  }

  /** As many calls as there are pieces answer the pieces, and `empty` further ones nothing. */
  predicate CallsGive(text: string, delimiter: char, pieces: seq<string>, empty: nat) {
    Calls(Proxy(true, Stream(text, true)), Repeat(delimiter, |pieces| + empty)).1 == Answered(pieces, empty)
  }

  lemma FirstPiece(text: string, delimiter: char, more: string, rest: seq<string>, empty: nat)
    requires |Until(text, delimiter)| < |text| && more == text[|Until(text, delimiter)| + 1..]
    requires CallsGive(more, delimiter, rest, empty)
    ensures CallsGive(text, delimiter, [Until(text, delimiter)] + rest, empty)
  {
    FirstCall(text, delimiter, |rest| + empty);
    AnsweredHead(Until(text, delimiter), rest, empty);
  }

  lemma OnlyPiece(text: string, delimiter: char, empty: nat)
    requires Until(text, delimiter) == text
    ensures CallsGive(text, delimiter, [text], empty)
  {
    FirstCall(text, delimiter, empty);
    EndedAnswersNothing(GetUntil(Proxy(true, Stream(text, true)), delimiter).0, delimiter, empty);
    AnsweredHead(text, [], empty);
    assert [text] + [] == [text];
  }

  /** Repeated calls with one delimiter give the content cut at it, then nothing for ever. */
  lemma {:induction false} CallsSplit(text: string, delimiter: char, empty: nat)
    ensures CallsGive(text, delimiter, Split(text, delimiter), empty)
    decreases |text|
  {
    var line := Until(text, delimiter);
    if |line| < |text| {
      var more := text[|line| + 1..];
      assert Split(text, delimiter) == [line] + Split(more, delimiter);
      CallsSplit(more, delimiter, empty);
      FirstPiece(text, delimiter, more, Split(more, delimiter), empty);
    } else {
      OnlyPiece(text, delimiter, empty);
    }
  }

  // ----------------------------------------------------------- runCommand

  /** The lines of a text: its pieces, but for an empty last one. */
  function Lines(text: string): seq<string> {
    var pieces := Split(text, '\n');
    if Last(pieces) == "" then Front(pieces) else pieces
  }

  /** What is still to be read, as lines. */
  function Remaining(s: Stream): seq<string> {
    if s.good then Lines(s.rest) else []
  }

  lemma LinesHead(line: string, text: string)
    requires '\n' !in line
    ensures Lines(line + "\n" + text) == [line] + Lines(text)
  {
    SplitHead(line, '\n', text);
    var pieces := Split(text, '\n');
    assert Last([line] + pieces) == Last(pieces);
    assert Front([line] + pieces) == [line] + Front(pieces);
  }

  lemma LastLine(line: string)
    requires Until(line, '\n') == line
    ensures Lines(line) == if line == "" then [] else [line]
  {
    assert Split(line, '\n') == [line];
  }

  lemma NextLine(s: Stream)
    ensures var (t, line) := Getline(s, '\n');
      if line.Some? then Remaining(s) == [line.value] + Remaining(t) else Remaining(s) == []
  {
    if s.good {
      var line := Until(s.rest, '\n');
      if |line| < |s.rest| {
        var rest := s.rest[|line| + 1..];
        assert s.rest == line + "\n" + rest;
        LinesHead(line, rest);
      } else {
        LastLine(line);
      }
    }
  }

  /** The read loop: lines are collected until a read fails. */
  method RunCommand(content: string) returns (output: seq<string>)
    ensures output == Lines(content)
  {
    var stream := Stream(content, true);
    output := [];
    var (next, line) := Getline(stream, '\n');
    NextLine(stream);
    while line.Some?
      invariant (next, line) == Getline(stream, '\n')
      invariant output + Remaining(stream) == Lines(content)
      decreases |stream.rest|, stream.good
    {
      NextLine(stream);
      Associative(output, [line.value], Remaining(next));
      output := output + [line.value];
      stream := next;
      var (n, l) := Getline(stream, '\n');
      next, line := n, l;
    }
    NextLine(stream);
  }

  // ------------------------------------------------------------- checksum

  /** An incremental hash: a state that takes one byte after another. */
  function Fold<S, Byte>(step: (S, Byte) -> S, state: S, bytes: seq<Byte>): S {
    if bytes == [] then state else step(Fold(step, state, Front(bytes)), Last(bytes))
  }

  /** Nothing hashed is the state one starts with, and one byte more is one step more. */
  lemma FoldSteps<S, Byte>(step: (S, Byte) -> S, state: S, bytes: seq<Byte>, byte: Byte)
    ensures Fold(step, state, []) == state && Fold(step, state, [byte]) == step(state, byte)
    ensures Fold(step, state, bytes + [byte]) == step(Fold(step, state, bytes), byte)
  {
    FrontOfAppend([], byte);
    FrontOfAppend(bytes, byte);
    assert [] + [byte] == [byte];
  }

  lemma {:induction false} FoldAppend<S, Byte>(step: (S, Byte) -> S, state: S, a: seq<Byte>, b: seq<Byte>)
    ensures Fold(step, state, a + b) == Fold(step, Fold(step, state, a), b)
  {
    if b == [] {
      assert a + b == a;
    } else {
      assert Front(a + b) == a + Front(b);
      FoldAppend(step, state, a, Front(b));
    }
  }

  /** `checksum.update` with the bytes read from `i` up to `j`. */
  method Update<S, Byte>(step: (S, Byte) -> S, ghost init: S, state: S, contents: seq<Byte>, i: nat,
                         j: nat) returns (next: S)
    requires i <= j <= |contents| && state == Fold(step, init, contents[..i])
    ensures next == Fold(step, init, contents[..j])
  {
    TakeMore(contents, i, j);
    FoldAppend(step, init, contents[..i], contents[i..j]);
    next := Fold(step, state, contents[i..j]);
  }

  /** Hashing a file chunk by chunk is hashing its contents at once, whatever the chunk size. A read
      that does not fill the buffer ends the loop; what it did read is hashed after it. */
  method Checksum<S, Byte>(step: (S, Byte) -> S, init: S, contents: seq<Byte>, chunkSize: nat) returns (digest: S)
    requires chunkSize > 0 // reading nothing always succeeds, so the loop would never end
    ensures digest == Fold(step, init, contents)
  {
    digest := init;
    var pos := 0;
    while |contents| - pos >= chunkSize
      invariant pos <= |contents| && digest == Fold(step, init, contents[..pos])
    {
      digest := Update(step, init, digest, contents, pos, pos + chunkSize);
      pos := pos + chunkSize;
    }
    TakeAll(contents);
    if |contents| - pos > 0 {
      digest := Update(step, init, digest, contents, pos, |contents|);
    }
  }
}
