/**
 * A text file as the core reads and rewrites it: absent, or present with
 * its content, read with `readlines()` and written with `writelines()`.
 */
module TextFile {
  import opened Text

  datatype File = Missing | Present(content: string)

  /** A complete line: it ends in a newline, its only one. */
  predicate IsLine(l: string) {
    l != [] && l[|l| - 1] == '\n' && '\n' !in l[..|l| - 1]
  }

  /** `text + "\n"`: the text ended by a newline. */
  function Line(text: string): string {
    text + "\n"
  }

  /** Texts without a newline, each ended by one: the lines of a multi-line template. */
  function Lines(texts: seq<string>): (ls: seq<string>)
    ensures |ls| == |texts| && forall k :: 0 <= k < |texts| ==> ls[k] == Line(texts[k])
  {
    if texts == [] then [] else [Line(texts[0])] + Lines(texts[1..])
  }

  /** `f.writelines(lines)`: the lines written one after the other. */
  function Concat(lines: seq<string>): string {
    if lines == [] then "" else lines[0] + Concat(lines[1..])
  }

  /**
   * `f.readlines()`: the content cut after every newline; a last line
   * without a newline is kept as it is.
   */
  function ReadLines(s: string): (lines: seq<string>)
    ensures Concat(lines) == s
    ensures forall k :: 0 <= k < |lines| - 1 ==> IsLine(lines[k])
    decreases |s|
  {
    if s == [] then []
    else if '\n' !in s then [s]
    else
      var i := IndexOfChar(s, '\n');
      assert s == s[..i + 1] + s[i + 1..];
      assert s[..i + 1][..i] == s[..i];
      [s[..i + 1]] + ReadLines(s[i + 1..])
  }

  lemma {:induction false} ConcatAppend(a: seq<string>, b: seq<string>)
    ensures Concat(a + b) == Concat(a) + Concat(b)
  {
    if a != [] {
      assert (a + b)[1..] == a[1..] + b;
      ConcatAppend(a[1..], b);
    } else {
      assert a + b == b;
    }
  }

  /** Reading back what `writelines` wrote gives the same lines, when each is a complete line. */
  lemma {:induction false} ReadLinesOfConcat(lines: seq<string>)
    requires forall k :: 0 <= k < |lines| ==> IsLine(lines[k])
    ensures ReadLines(Concat(lines)) == lines
  {
    if lines != [] {
      var l, rest := lines[0], lines[1..];
      assert IsLine(l);
      var s := Concat(lines);
      assert s == l + Concat(rest);
      assert s[..|l| - 1] == l[..|l| - 1];
      IndexOfCharUnique(s, '\n', |l| - 1);
      assert s[..|l|] == l && s[|l|..] == Concat(rest);
      ReadLinesOfConcat(rest);
      assert lines == [l] + rest;
    }
  }

  /** Two complete lines written out end in a newline and read back as those two lines. */
  lemma ReadTwoLines(a: string, b: string)
    requires IsLine(a) && IsLine(b)
    ensures Concat([a, b]) == a + b && (a + b)[|a + b| - 1] == '\n' && ReadLines(a + b) == [a, b]
  {
    assert Concat([a, b]) == a + Concat([b]);
    assert Concat([b]) == b + Concat([]);
    ReadLinesOfConcat([a, b]);
  }

  /** A template written out reads back as its lines when no text holds a newline. */
  lemma ReadLinesOfLines(texts: seq<string>)
    requires forall k :: 0 <= k < |texts| ==> '\n' !in texts[k]
    ensures ReadLines(Concat(Lines(texts))) == Lines(texts)
  {
    var ls := Lines(texts);
    forall k | 0 <= k < |ls| ensures IsLine(ls[k]) {
      var l := ls[k];
      assert l == texts[k] + "\n";
      assert l[..|l| - 1] == texts[k];
    }
    ReadLinesOfConcat(ls);
  }

  /** Appending text after a newline appends its lines. */
  lemma {:induction false} ReadLinesAppend(a: string, b: string)
    requires a == [] || a[|a| - 1] == '\n'
    ensures ReadLines(a + b) == ReadLines(a) + ReadLines(b)
    decreases |a|
  {
    if a != [] {
      assert '\n' in a by { assert a[|a| - 1] == '\n'; }
      var i := IndexOfChar(a, '\n');
      var s := a + b;
      assert s[..i] == a[..i];
      IndexOfCharUnique(s, '\n', i);
      assert s[..i + 1] == a[..i + 1];
      assert s[i + 1..] == a[i + 1..] + b;
      ReadLinesAppend(a[i + 1..], b);
    } else {
      assert a + b == b;
    }
  }

  /** `xs` is `ys` with some elements left out: nothing edited, nothing reordered. */
  predicate IsSubsequence<T(==)>(xs: seq<T>, ys: seq<T>)
    decreases |ys|
  {
    if ys == [] then xs == []
    else IsSubsequence(xs, ys[1..]) || (xs != [] && xs[0] == ys[0] && IsSubsequence(xs[1..], ys[1..]))
  }
}
