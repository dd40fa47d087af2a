/** The few JavaScript string operations the worker relies on, with the
    semantics of the ECMAScript built-ins, over Dafny strings. */
module JsString {

  /** `s.startsWith(p)` */
  predicate StartsWith(s: string, p: string) {
    |p| <= |s| && s[..|p|] == p
  }

  /** `s.slice(start)` for a start that is not negative */
  function SliceFrom(s: string, start: nat): string {
    if start <= |s| then s[start..] else ""
  }

  /** The position `s.slice(start, end)` makes of a relative index */
  function RelativeIndex(i: int, len: nat): (r: nat)
    ensures r <= len
  {
    if i < 0 then (if len + i < 0 then 0 else len + i)
    else if i > len then len else i
  }

  /** `s.slice(start, end)`: negative indices count from the end */
  function Slice(s: string, start: int, end: int): (r: string)
    ensures |r| <= |s|
  {
    var from := RelativeIndex(start, |s|);
    var to := RelativeIndex(end, |s|);
    if from < to then s[from..to] else ""
  }

  /** `s.indexOf(c)` for a one-character needle: -1 when absent */
  function IndexOf(s: string, c: char): (r: int)
    ensures r == -1 <==> c !in s
    ensures r != -1 ==> 0 <= r < |s| && s[r] == c && c !in s[..r]
  {
    if |s| == 0 then -1
    else if s[0] == c then 0
    else
      var k := IndexOf(s[1..], c);
      assert s[1..][..(if k == -1 then 0 else k)] == s[1..(if k == -1 then 1 else k + 1)];
      if k == -1 then -1 else k + 1
  }

  /** `s.split(sep)` for a non-empty separator: the pieces between the
      occurrences of `sep` found scanning left to right. */
  function Split(s: string, sep: string): (r: seq<string>)
    requires |sep| > 0
    ensures |r| >= 1
    decreases |s|
  {
    if |s| < |sep| then [s]
    else if s[..|sep|] == sep then [""] + Split(s[|sep|..], sep)
    else
      var rest := Split(s[1..], sep);
      [[s[0]] + rest[0]] + rest[1..]
  }

  /** `parts.join(sep)` */
  function Join(parts: seq<string>, sep: string): string {
    if |parts| == 0 then ""
    else if |parts| == 1 then parts[0]
    else parts[0] + sep + Join(parts[1..], sep)
  }

  /** Reference definition of replacing every occurrence of `sep` by `rep`,
      scanning left to right. */
  function ReplaceAll(s: string, sep: string, rep: string): string
    requires |sep| > 0
    decreases |s|
  {
    if |s| < |sep| then s
    else if s[..|sep|] == sep then rep + ReplaceAll(s[|sep|..], sep, rep)
    else [s[0]] + ReplaceAll(s[1..], sep, rep)
  }

  /** `sep` occurs in `s` at position `i` */
  predicate SepAt(s: string, sep: string, i: nat) {
    i + |sep| <= |s| && s[i..i + |sep|] == sep
  }

  /** No occurrence of `sep` starts inside `p`, even one that would run on
      into a separator written after `p`. */
  ghost predicate Clean(p: string, sep: string) {
    forall i :: 0 <= i < |p| ==> !SepAt(p + sep, sep, i)
  }

  lemma JoinFirstGrows(c: char, rest: seq<string>, sep: string)
    requires |rest| >= 1
    ensures Join([[c] + rest[0]] + rest[1..], sep) == [c] + Join(rest, sep)
  {
    var xs := [[c] + rest[0]] + rest[1..];
    assert xs[1..] == rest[1..];
  }

  /** Splitting and joining with the same separator gives back the text. */
  lemma {:induction false} JoinSplit(s: string, sep: string)
    requires |sep| > 0
    ensures Join(Split(s, sep), sep) == s
    decreases |s|
  {
    if |s| < |sep| {
    } else if s[..|sep|] == sep {
      var rest := Split(s[|sep|..], sep);
      JoinSplit(s[|sep|..], sep);
      assert Split(s, sep) == [""] + rest;
      assert ([""] + rest)[1..] == rest;
      assert Join([""] + rest, sep) == "" + sep + Join(rest, sep);
      assert s == sep + s[|sep|..];
    } else {
      var rest := Split(s[1..], sep);
      JoinSplit(s[1..], sep);
      assert Split(s, sep) == [[s[0]] + rest[0]] + rest[1..];
      JoinFirstGrows(s[0], rest, sep);
      assert s == [s[0]] + s[1..];
    }
  }

  /** Joining the pieces of a split with `rep` replaces every separator. */
  lemma {:induction false} JoinSplitReplaces(s: string, sep: string, rep: string)
    requires |sep| > 0
    ensures Join(Split(s, sep), rep) == ReplaceAll(s, sep, rep)
    decreases |s|
  {
    if |s| < |sep| {
    } else if s[..|sep|] == sep {
      var rest := Split(s[|sep|..], sep);
      JoinSplitReplaces(s[|sep|..], sep, rep);
      assert Split(s, sep) == [""] + rest;
      assert ([""] + rest)[1..] == rest;
      assert Join([""] + rest, rep) == "" + rep + Join(rest, rep);
    } else {
      var rest := Split(s[1..], sep);
      JoinSplitReplaces(s[1..], sep, rep);
      assert Split(s, sep) == [[s[0]] + rest[0]] + rest[1..];
      JoinFirstGrows(s[0], rest, rep);
    }
  }

  lemma CleanTail(p: string, sep: string)
    requires |p| > 0 && Clean(p, sep)
    ensures Clean(p[1..], sep)
  {
    forall i | 0 <= i < |p[1..]|
      ensures !SepAt(p[1..] + sep, sep, i)
    {
      assert !SepAt(p + sep, sep, i + 1);
      assert (p[1..] + sep)[i..i + |sep|] == (p + sep)[i + 1..i + 1 + |sep|];
    }
  }

  /** A piece in which the separator never starts splits to itself. */
  lemma {:induction false} SplitClean(p: string, sep: string)
    requires |sep| > 0 && Clean(p, sep)
    ensures Split(p, sep) == [p]
    decreases |p|
  {
    if |p| >= |sep| {
      assert !SepAt(p + sep, sep, 0);
      assert (p + sep)[0..|sep|] == p[..|sep|];
      CleanTail(p, sep);
      SplitClean(p[1..], sep);
      assert [p[0]] + p[1..] == p;
    }
  }

  /** Splitting `p + sep + rest` cuts exactly after `p` when `p` is clean. */
  lemma {:induction false} SplitAfterClean(p: string, sep: string, rest: string)
    requires |sep| > 0 && Clean(p, sep)
    ensures Split(p + sep + rest, sep) == [p] + Split(rest, sep)
    decreases |p|
  {
    var s := p + sep + rest;
    if |p| == 0 {
      assert s == sep + rest;
      assert s[..|sep|] == sep && s[|sep|..] == rest;
    } else {
      CleanTail(p, sep);
      SplitAfterClean(p[1..], sep, rest);
      SplitAfterCleanStep(p, sep, rest);
    }
  }

  /** The step of SplitAfterClean: a clean `p` does not start with `sep`,
      so its first character joins the first piece of the rest. */
  lemma SplitAfterCleanStep(p: string, sep: string, rest: string)
    requires |sep| > 0 && |p| > 0 && Clean(p, sep)
    requires Split(p[1..] + sep + rest, sep) == [p[1..]] + Split(rest, sep)
    ensures Split(p + sep + rest, sep) == [p] + Split(rest, sep)
  {
    var s := p + sep + rest;
    assert !SepAt(p + sep, sep, 0);
    assert (p + sep)[0..|sep|] == s[..|sep|];
    assert s[1..] == p[1..] + sep + rest;
    var tail := Split(s[1..], sep);
    assert Split(s, sep) == [[s[0]] + tail[0]] + tail[1..];
    assert tail[0] == p[1..] && tail[1..] == Split(rest, sep);
    assert [s[0]] + p[1..] == p;
  }

  /** Joining clean pieces and splitting again gives back the pieces. */
  lemma {:induction false} SplitJoin(parts: seq<string>, sep: string)
    requires |sep| > 0 && |parts| >= 1
    requires forall k :: 0 <= k < |parts| ==> Clean(parts[k], sep)
    ensures Split(Join(parts, sep), sep) == parts
    decreases |parts|
  {
    if |parts| == 1 {
      SplitClean(parts[0], sep);
    } else {
      SplitJoin(parts[1..], sep);
      SplitAfterClean(parts[0], sep, Join(parts[1..], sep));
    }
  }

  /** A text without the character that starts `sep` is clean for it. */
  lemma CleanWithoutFirst(p: string, sep: string)
    requires |sep| > 0 && sep[0] !in p
    ensures Clean(p, sep)
  {
    forall i | 0 <= i < |p|
      ensures !SepAt(p + sep, sep, i)
    {
      assert (p + sep)[i..i + |sep|][0] == p[i];
    }
  }

  /** Splitting on a single character leaves no piece containing it. */
  lemma {:induction false} SplitOnCharAvoidsIt(s: string, ch: char)
    ensures forall k :: 0 <= k < |Split(s, [ch])| ==> ch !in Split(s, [ch])[k]
    decreases |s|
  {
    if |s| >= 1 {
      SplitOnCharAvoidsIt(s[1..], ch);
      if s[..1] != [ch] {
        var rest := Split(s[1..], [ch]);
        assert s[0] != ch;
        assert Split(s, [ch]) == [[s[0]] + rest[0]] + rest[1..];
      }
    }
  }

  /** Cutting off a prefix the text starts with and putting it back gives
      the text. */
  lemma PrefixAndRest(s: string, p: string)
    ensures StartsWith(s, p) ==> p + SliceFrom(s, |p|) == s
  {
    if StartsWith(s, p) {
      assert s == s[..|p|] + s[|p|..];
    }
  }
}
