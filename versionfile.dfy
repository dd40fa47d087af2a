/** The version-diff file format and its parser, `parseUpdatedList`
    (adapter/static/src/worker/index.ts). A file is the format token `2` on
    the first line, then one block per version of its batch, blocks
    separated by a blank line, each block the changed paths one per line. */
module VersionFile {
  import opened JsString

  /** `VersionFile`: the format version (2, or -1 when unsupported) and,
      per version offset in the batch, the paths that changed. */
  datatype VersionFile = VersionFile(formatVersion: int, updated: seq<seq<string>>)

  /** `contents.split("\r\n").join("\n")` */
  function NormalizeLineEndings(s: string): string {
    Join(Split(s, "\r\n"), "\n")
  }

  /** The header test written independently of `indexOf` and `slice`: the
      first line is exactly `2`, or the whole text is two characters of
      which the first is `2` (there is no line break, so `slice(0, -1)`
      drops the last character). */
  predicate SupportedHeader(text: string) {
    |text| >= 2 && text[0] == '2' && (text[1] == '\n' || |text| == 2)
  }

  /** The function mapped over the blocks: a block whose first line is
      empty (an empty block, or one that starts with a line break) gives no
      paths; any other block gives its lines. */
  function ParseBlock(block: string): (paths: seq<string>)
    ensures paths == [] <==> block == "" || block[0] == '\n'
    ensures paths != [] ==> Join(paths, "\n") == block
    ensures forall k :: 0 <= k < |paths| ==> '\n' !in paths[k]
  {
    var parsed := Split(block, "\n");
    JoinSplit(block, "\n");
    SplitOnCharAvoidsIt(block, '\n');
    if parsed[0] == "" then [] else parsed
  }

  /** `parseUpdatedList` */
  function ParseUpdatedList(contents: string): (r: VersionFile)
    ensures r.formatVersion == 2 || r.formatVersion == -1
    ensures r.formatVersion == 2 <==> SupportedHeader(NormalizeLineEndings(contents))
    ensures r.formatVersion == -1 ==> r.updated == []
  {
    var text := NormalizeLineEndings(contents);
    var splitPoint := IndexOf(text, '\n');
    var version := Slice(text, 0, splitPoint);
    var formatSupported := version == "2";
    HeaderTest(text);
    var blocks := if formatSupported then Split(SliceFrom(text, splitPoint + 1), "\n\n") else [];
    var updated := seq(|blocks|, i requires 0 <= i < |blocks| => ParseBlock(blocks[i]));
    VersionFile(if formatSupported then 2 else -1, updated)
  }

  lemma HeaderTest(text: string)
    ensures Slice(text, 0, IndexOf(text, '\n')) == "2" <==> SupportedHeader(text)
  {
    var k := IndexOf(text, '\n');
    var version := Slice(text, 0, k);
    if k == -1 {
      if |text| >= 1 {
        assert version == text[..|text| - 1];
      }
      if |text| == 2 && text[0] == '2' {
        assert version == "2";
      }
    } else {
      assert version == text[..k];
      if SupportedHeader(text) {
        assert text[1] == '\n';
        assert k == 1;
        assert version == "2";
      }
    }
  }

  /** A path the build can write into a file: not empty, no line break */
  predicate WellFormedPath(p: string) {
    p != "" && '\n' !in p && '\r' !in p
  }

  /** The text of one block */
  function BlockText(paths: seq<string>): string {
    Join(paths, "\n")
  }

  function BlockTexts(blocks: seq<seq<string>>): (texts: seq<string>)
    ensures |texts| == |blocks|
  {
    seq(|blocks|, i requires 0 <= i < |blocks| => BlockText(blocks[i]))
  }

  /** Reference encoder: what the build writes for a batch of versions */
  function Encode(blocks: seq<seq<string>>): string {
    "2\n" + Join(BlockTexts(blocks), "\n\n")
  }

  lemma {:induction false} JoinAvoids(parts: seq<string>, sep: string, c: char)
    requires c !in sep
    requires forall k :: 0 <= k < |parts| ==> c !in parts[k]
    ensures c !in Join(parts, sep)
    decreases |parts|
  {
    if |parts| > 1 {
      JoinAvoids(parts[1..], sep, c);
    }
  }

  lemma NormalizeWithoutCR(s: string)
    requires '\r' !in s
    ensures NormalizeLineEndings(s) == s
  {
    CleanWithoutFirst(s, "\r\n");
    SplitClean(s, "\r\n");
  }

  /** The text of a block of well-formed paths has no blank line in it and
      does not end in a line break, so it is clean for the block separator. */
  lemma {:induction false} BlockTextClean(paths: seq<string>)
    requires forall k :: 0 <= k < |paths| ==> WellFormedPath(paths[k])
    ensures Clean(BlockText(paths), "\n\n")
    ensures paths != [] ==> BlockText(paths) != "" && BlockText(paths)[0] != '\n'
    decreases |paths|
  {
    var text := BlockText(paths);
    if |paths| == 1 {
      CleanWithoutFirst(text, "\n\n");
    } else if |paths| > 1 {
      var a := paths[0];
      var t := BlockText(paths[1..]);
      BlockTextClean(paths[1..]);
      assert text == a + "\n" + t;
      forall i | 0 <= i < |text|
        ensures !SepAt(text + "\n\n", "\n\n", i)
      {
        var w := text + "\n\n";
        if i < |a| - 1 {
          assert w[i] == a[i];
        } else if i == |a| - 1 {
          assert w[i + 1] == '\n' && w[i] == a[i];
        } else if i == |a| {
          assert w[i + 1] == t[0];
        } else {
          var j := i - |a| - 1;
          assert !SepAt(t + "\n\n", "\n\n", j);
          assert w[i..i + 2] == (t + "\n\n")[j..j + 2];
        }
      }
    }
  }

  lemma ParseBlockText(paths: seq<string>)
    requires forall k :: 0 <= k < |paths| ==> WellFormedPath(paths[k])
    ensures ParseBlock(BlockText(paths)) == paths
  {
    if paths != [] {
      forall k | 0 <= k < |paths| ensures Clean(paths[k], "\n") {
        CleanWithoutFirst(paths[k], "\n");
      }
      SplitJoin(paths, "\n");
    }
  }

  /** Round trip: parsing what the encoder writes for at least one version
      gives back format 2 and the same blocks. */
  lemma ParseEncode(blocks: seq<seq<string>>)
    requires |blocks| >= 1
    requires forall i, k :: 0 <= i < |blocks| && 0 <= k < |blocks[i]| ==> WellFormedPath(blocks[i][k])
    ensures ParseUpdatedList(Encode(blocks)) == VersionFile(2, blocks)
  {
    var texts := BlockTexts(blocks);
    var body := Join(texts, "\n\n");
    var s := Encode(blocks);
    forall i | 0 <= i < |texts|
      ensures '\r' !in texts[i] && Clean(texts[i], "\n\n") && ParseBlock(texts[i]) == blocks[i]
    {
      JoinAvoids(blocks[i], "\n", '\r');
      BlockTextClean(blocks[i]);
      ParseBlockText(blocks[i]);
    }
    JoinAvoids(texts, "\n\n", '\r');
    assert '\r' !in s;
    NormalizeWithoutCR(s);
    assert IndexOf(s, '\n') == 1;
    assert Slice(s, 0, 1) == "2";
    assert SliceFrom(s, 2) == body;
    SplitJoin(texts, "\n\n");
  }

  /** The same text written with CRLF line breaks */
  function ToCrlf(t: string): string {
    if t == [] then [] else (if t[0] == '\n' then "\r\n" else [t[0]]) + ToCrlf(t[1..])
  }

  lemma {:induction false} ReplaceCrlf(t: string)
    requires '\r' !in t
    ensures ReplaceAll(ToCrlf(t), "\r\n", "\n") == t
    ensures |ToCrlf(t)| >= |t|
    decreases |t|
  {
    if t != [] {
      ReplaceCrlf(t[1..]);
      var c := ToCrlf(t);
      var rest := ToCrlf(t[1..]);
      if t[0] == '\n' {
        assert c == "\r\n" + rest;
        assert c[..2] == "\r\n" && c[2..] == rest;
      } else {
        assert c == [t[0]] + rest;
        assert c[1..] == rest;
        if |c| >= 2 {
          assert c[..2][0] == t[0];
        }
      }
      assert t == [t[0]] + t[1..];
    }
  }

  /** A file written with CRLF line breaks parses exactly as the same file
      written with LF line breaks. */
  lemma CrlfParsesLikeLf(t: string)
    requires '\r' !in t
    ensures ParseUpdatedList(ToCrlf(t)) == ParseUpdatedList(t)
  {
    JoinSplitReplaces(ToCrlf(t), "\r\n", "\n");
    ReplaceCrlf(t);
    NormalizeWithoutCR(t);
  }

  /** As written, a file with no line break is read with its last character
      cut off as the format token: the text `20` is accepted as format 2
      with one block holding the path `20`, while the text `2` is rejected. */
  lemma NoLineBreakQuirk()
    ensures ParseUpdatedList("20") == VersionFile(2, [["20"]])
    ensures ParseUpdatedList("2") == VersionFile(-1, [])
  {
    NormalizeWithoutCR("20");
    NormalizeWithoutCR("2");
    assert IndexOf("20", '\n') == -1;
    assert Slice("20", 0, -1) == "2";
    CleanWithoutFirst("20", "\n\n");
    SplitClean("20", "\n\n");
    CleanWithoutFirst("20", "\n");
    SplitClean("20", "\n");
    assert ParseBlock("20") == ["20"];
  }
}
