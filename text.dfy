/** Strings, paths and the line discipline of java.io's BufferedWriter and BufferedReader. */
module Text {

  datatype Option<T> = None | Some(value: T)

  /** The platform line separator written by BufferedWriter.newLine() (Android: a single '\n'). */
  const LINE_SEPARATOR: string := "\n"

  predicate StartsWith(s: string, prefix: string) {
    |prefix| <= |s| && s[..|prefix|] == prefix
  }

  predicate EndsWith(s: string, suffix: string) {
    |suffix| <= |s| && s[|s| - |suffix|..] == suffix
  }

  /** String.lastIndexOf(c): the last position of c in s, or -1. */
  function LastIndexOf(s: string, c: char): (i: int)
    ensures -1 <= i < |s|
    ensures 0 <= i ==> s[i] == c
    ensures forall k :: i < k < |s| ==> s[k] != c
  {
    if s == [] then -1
    else if s[|s| - 1] == c then |s| - 1
    else LastIndexOf(s[..|s| - 1], c)
  }

  /** File.getParent() on a Unix path: everything before the last '/', the root "/"
      for a file directly under it, and null (None) when the path has no parent. */
  function ParentPath(path: string): (r: Option<string>)
    ensures r.Some? ==> StartsWith(path, r.value) && |r.value| < |path|
    ensures r.None? <==> LastIndexOf(path, '/') < 0 || (LastIndexOf(path, '/') == 0 && |path| == 1)
    ensures r.Some? ==> r.value == if LastIndexOf(path, '/') == 0 then "/" else path[..LastIndexOf(path, '/')]
  {
    var prefix := if |path| > 0 && path[0] == '/' then 1 else 0;
    var i := LastIndexOf(path, '/');
    if i < prefix then
      (if prefix > 0 && |path| > prefix then Some(path[..prefix]) else None)
    else Some(path[..i])
  }

  /** The first position of s holding one of the characters in cs, or |s| when there is none. */
  function IndexOfAny(s: string, cs: set<char>): (i: nat)
    ensures i <= |s|
    ensures i < |s| ==> s[i] in cs
    ensures forall k :: 0 <= k < i ==> s[k] !in cs
  {
    if s == [] then 0
    else if s[0] in cs then 0
    else 1 + IndexOfAny(s[1..], cs)
  }

  lemma IndexOfAnyAfterPrefix(a: string, b: string, cs: set<char>)
    requires forall k :: 0 <= k < |a| ==> a[k] !in cs
    requires b != [] && b[0] in cs
    ensures IndexOfAny(a + b, cs) == |a|
  {
    assert (a + b)[|a|] == b[0];
  }

  /** The text a BufferedWriter holds after each line was written and followed by newLine(). */
  function Render(lines: seq<string>): string {
    if lines == [] then "" else lines[0] + LINE_SEPARATOR + Render(lines[1..])
  }

  lemma EmptyPrefix(s: string)
    ensures "" + s == s
  {
  }

  lemma {:induction false} RenderAppend(a: seq<string>, b: seq<string>)
    ensures Render(a + b) == Render(a) + Render(b)
  {
    if a == [] {
      assert a + b == b;
    } else {
      assert (a + b)[1..] == a[1..] + b;
      RenderAppend(a[1..], b);
    }
  }

  /** Writing one more line and a newLine() after the text of some lines gives the text of
      those lines and the new one. */
  lemma RenderSnoc(prefix: string, lines: seq<string>, l: string)
    ensures prefix + Render(lines) + l + LINE_SEPARATOR == prefix + Render(lines + [l])
  {
    RenderAppend(lines, [l]);
    assert Render([l]) == l + LINE_SEPARATOR;
  }

  /** The text written by three lines (the first in two parts), the text of further lines and
      a final empty line. */
  lemma RenderThreeThen(start: string, a1: string, a2: string, b: string, c: string, more: seq<string>)
    ensures start + a1 + a2 + LINE_SEPARATOR + b + LINE_SEPARATOR + c + LINE_SEPARATOR + Render(more) + LINE_SEPARATOR
         == start + Render([a1 + a2, b, c] + more + [""])
  {
    var first := [a1 + a2, b, c];
    assert start + a1 + a2 == start + Render([]) + (a1 + a2);
    RenderSnoc(start, [], a1 + a2);
    RenderSnoc(start, [a1 + a2], b);
    RenderSnoc(start, [a1 + a2, b], c);
    assert [a1 + a2] + [b] == [a1 + a2, b] && [a1 + a2, b] + [c] == first;
    RenderAppend(first, more);
    assert start + Render(first) + Render(more) == start + Render(first + more);
    RenderSnoc(start, first + more, "");
  }

  lemma RenderTwo(a: string, b: string)
    ensures Render([a, b]) == a + LINE_SEPARATOR + b + LINE_SEPARATOR
  {
    assert [a, b][1..] == [b];
    assert [b][1..] == [];
    assert Render([b]) == b + LINE_SEPARATOR;
  }

  /** Splits a text into the lines separated by LINE_SEPARATOR, as a reader of the hosts file does;
      a last fragment without a separator is a line of its own. */
  function LinesOf(text: string): seq<string>
    decreases |text|
  {
    if text == [] then []
    else
      var i := IndexOfAny(text, {'\n'});
      if i == |text| then [text] else [text[..i]] + LinesOf(text[i + 1..])
  }

  predicate SingleLine(s: string) {
    '\n' !in s && '\r' !in s
  }

  lemma SingleLineAppend(a: string, b: string)
    requires SingleLine(a) && SingleLine(b)
    ensures SingleLine(a + b)
  {
  }

  /** Rendering lines and splitting the text again gives back the lines (the file format is lossless). */
  lemma {:induction false} LinesOfRender(lines: seq<string>)
    requires forall l | l in lines :: '\n' !in l
    ensures LinesOf(Render(lines)) == lines
  {
    if lines != [] {
      var l := lines[0];
      var rest := Render(lines[1..]);
      var text := Render(lines);
      assert l in lines;
      assert text == l + (LINE_SEPARATOR + rest);
      IndexOfAnyAfterPrefix(l, LINE_SEPARATOR + rest, {'\n'});
      assert text[..|l|] == l;
      assert text[|l| + 1..] == rest;
      LinesOfRender(lines[1..]);
      assert lines == [l] + lines[1..];
    }
  }

  /** BufferedReader.readLine() on a fresh reader: None at end of input, otherwise the characters
      up to the first '\n' or '\r'. */
  function FirstLine(text: string): Option<string> {
    if text == [] then None else Some(text[..IndexOfAny(text, {'\n', '\r'})])
  }

  lemma FirstLineOfRender(lines: seq<string>)
    requires lines != [] && SingleLine(lines[0])
    ensures FirstLine(Render(lines)) == Some(lines[0])
  {
    var l := lines[0];
    var text := Render(lines);
    assert text == l + (LINE_SEPARATOR + Render(lines[1..]));
    IndexOfAnyAfterPrefix(l, LINE_SEPARATOR + Render(lines[1..]), {'\n', '\r'});
    assert text[..|l|] == l;
  }
}
