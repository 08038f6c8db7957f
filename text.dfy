/**
 * The Python string operations the tunnel manager's core is written with,
 * stated over `string` (= `seq<char>`): `str.isspace`, `str.strip`,
 * `str.startswith`, the `in` test on strings, `str.split(sep)`,
 * `str.split()`, `str.lower`, `str(int)`, `int(str)`, `list.index`
 * and the ordering that `sorted` uses on strings.
 */
module Text {
  import opened Base

  // ------------------------------------------------------------ characters

  /** Python's `str.isspace()` on a single character. */
  predicate IsSpace(c: char) {
    ('\t' <= c <= '\r') || ('\U{1C}' <= c <= ' ') || c == '\U{85}' || c == '\U{A0}'
    || c == '\U{1680}' || ('\U{2000}' <= c <= '\U{200A}') || c == '\U{2028}'
    || c == '\U{2029}' || c == '\U{202F}' || c == '\U{205F}' || c == '\U{3000}'
  }

  predicate IsDigit(c: char) {
    '0' <= c <= '9'
  }

  predicate AllDigits(s: string) {
    forall i :: 0 <= i < |s| ==> IsDigit(s[i])
  }

  /** No whitespace anywhere in `s`. */
  predicate NoSpace(s: string) {
    forall i :: 0 <= i < |s| ==> !IsSpace(s[i])
  }

  /** Every character of `s` is whitespace (so `s.strip() == ""`). */
  predicate AllSpace(s: string) {
    forall i :: 0 <= i < |s| ==> IsSpace(s[i])
  }

  // ------------------------------------------------------------- stripping

  /** `s.lstrip()`: drops the whitespace at the front. */
  function TrimStart(s: string): (r: string)
    ensures |r| <= |s|
  {
    if s != [] && IsSpace(s[0]) then TrimStart(s[1..]) else s
  }

  /** `s.rstrip()`: drops the whitespace at the end. */
  function TrimEnd(s: string): (r: string)
    ensures |r| <= |s|
  {
    if s != [] && IsSpace(s[|s| - 1]) then TrimEnd(s[..|s| - 1]) else s
  }

  /** `lstrip` leaves the longest suffix that does not start with whitespace. */
  lemma {:induction false} TrimStartSpec(s: string)
    ensures var r := TrimStart(s);
            r == s[|s| - |r|..] && (r == [] || !IsSpace(r[0]))
            && forall i :: 0 <= i < |s| - |r| ==> IsSpace(s[i])
  {
    if s != [] && IsSpace(s[0]) {
      TrimStartSpec(s[1..]);
    }
  }

  /** `rstrip` leaves the longest prefix that does not end with whitespace. */
  lemma {:induction false} TrimEndSpec(s: string)
    ensures var r := TrimEnd(s);
            r == s[..|r|] && (r == [] || !IsSpace(r[|r| - 1]))
            && forall i :: |r| <= i < |s| ==> IsSpace(s[i])
  {
    if s != [] && IsSpace(s[|s| - 1]) {
      TrimEndSpec(s[..|s| - 1]);
    }
  }

  /** `s.strip()`. */
  function Strip(s: string): string {
    TrimEnd(TrimStart(s))
  }

  /** `lstrip` leaves a string that starts with a non-space character alone. */
  lemma TrimStartNoop(t: string)
    requires t != [] && !IsSpace(t[0])
    ensures TrimStart(t) == t
  {
  }

  /** `rstrip` keeps every character up to the last non-space one. */
  lemma TrimEndKeeps(t: string, k: nat)
    requires k < |t| && !IsSpace(t[k])
    ensures k < |TrimEnd(t)|
  {
    TrimEndSpec(t);
  }

  /** Stripping a line that starts with a word bounded by non-space characters keeps that word in front. */
  lemma StripKeepsPrefix(p: string, s: string)
    requires p != [] && !IsSpace(p[0]) && !IsSpace(p[|p| - 1])
    ensures StartsWith(Strip(p + s), p)
  {
    var t := p + s;
    assert t[0] == p[0] && t[|p| - 1] == p[|p| - 1];
    TrimStartNoop(t);
    TrimEndKeeps(t, |p| - 1);
    TrimEndSpec(t);
    var r := TrimEnd(t);
    assert r[..|p|] == t[..|p|] == p;
    StartsWithSlice(r, p);
  }

  /** A string of whitespace only strips to the empty string, and only such strings do. */
  lemma StripEmptyIffAllSpace(s: string)
    ensures Strip(s) == [] <==> AllSpace(s)
  {
    var t := TrimStart(s);
    TrimStartSpec(s);
    TrimEndSpec(t);
    assert t != [] ==> t[0] == s[|s| - |t|];
  }

  /** A string that starts and ends with non-space characters is its own strip. */
  lemma StripUnchanged(s: string)
    requires s != [] && !IsSpace(s[0]) && !IsSpace(s[|s| - 1])
    ensures Strip(s) == s
  {
    assert TrimStart(s) == s;
  }

  // ---------------------------------------------------------- substrings

  /** `s.startswith(prefix)`. */
  predicate StartsWith(s: string, prefix: string) {
    prefix == [] || (s != [] && s[0] == prefix[0] && StartsWith(s[1..], prefix[1..]))
  }

  /** Python's `t in s` on strings: `t` starts some suffix of `s`. */
  predicate Contains(s: string, t: string) {
    StartsWith(s, t) || (s != [] && Contains(s[1..], t))
  }

  /** `t` occurs in `s` starting at position `i`. */
  predicate OccursAt(s: string, t: string, i: nat) {
    i + |t| <= |s| && s[i..i + |t|] == t
  }

  /** A prefix is the leading slice of the string. */
  lemma {:induction false} StartsWithSlice(s: string, prefix: string)
    ensures StartsWith(s, prefix) <==> OccursAt(s, prefix, 0)
  {
    if prefix != [] && s != [] {
      StartsWithSlice(s[1..], prefix[1..]);
      if |prefix| <= |s| {
        assert s[..|prefix|] == [s[0]] + s[1..][..|prefix| - 1];
        assert prefix == [prefix[0]] + prefix[1..];
      }
    }
  }

  /** `t in s` holds exactly when `t` occurs at some position of `s`. */
  lemma {:induction false} ContainsAt(s: string, t: string)
    ensures Contains(s, t) <==> exists i :: 0 <= i <= |s| - |t| && OccursAt(s, t, i)
  {
    StartsWithSlice(s, t);
    if s != [] {
      ContainsAt(s[1..], t);
      if Contains(s[1..], t) {
        var i :| 0 <= i <= |s| - 1 - |t| && OccursAt(s[1..], t, i);
        assert s[1..][i..i + |t|] == s[i + 1..i + 1 + |t|];
        assert OccursAt(s, t, i + 1);
      }
      if i :| 0 <= i <= |s| - |t| && OccursAt(s, t, i) {
        if i > 0 {
          assert s[1..][i - 1..i - 1 + |t|] == s[i..i + |t|];
          assert OccursAt(s[1..], t, i - 1);
        }
      }
    }
  }

  /** A string contains every one of its infixes. */
  lemma ContainsInfix(a: string, t: string, b: string)
    ensures Contains(a + t + b, t)
  {
    var s := a + t + b;
    assert OccursAt(s, t, |a|);
    ContainsAt(s, t);
  }

  /** Containment is inherited by every string that contains the container. */
  lemma ContainsTransitive(s: string, m: string, t: string)
    requires Contains(s, m) && Contains(m, t)
    ensures Contains(s, t)
  {
    ContainsAt(s, m);
    ContainsAt(m, t);
    var i :| 0 <= i <= |s| - |m| && OccursAt(s, m, i);
    var j :| 0 <= j <= |m| - |t| && OccursAt(m, t, j);
    forall k | 0 <= k < |t| ensures s[i + j + k] == t[k] {
      OccursAtChar(m, t, j, k);
      OccursAtChar(s, m, i, j + k);
    }
    assert s[i + j..i + j + |t|] == t;
    assert OccursAt(s, t, i + j);
    ContainsAt(s, t);
  }

  /** `s` never has character `x` immediately followed by character `y`. */
  ghost predicate NoPair(s: string, x: char, y: char) {
    forall i, j :: 0 <= i && j == i + 1 && j < |s| ==> !(s[i] == x && s[j] == y)
  }

  /** A string without the pair `t[j] t[j+1]` cannot contain `t`. */
  lemma NoPairExcludes(s: string, t: string, j: nat)
    requires j + 1 < |t| && NoPair(s, t[j], t[j + 1])
    ensures !Contains(s, t)
  {
    forall i | 0 <= i <= |s| - |t| ensures !OccursAt(s, t, i) {
      OccursAtChar(s, t, i, j);
      OccursAtChar(s, t, i, j + 1);
    }
    ContainsAt(s, t);
  }

  lemma OccursAtChar(s: string, t: string, i: nat, k: nat)
    requires i + |t| <= |s| && k < |t|
    ensures OccursAt(s, t, i) ==> s[i + k] == t[k]
  {
    if OccursAt(s, t, i) {
      assert s[i..i + |t|][k] == t[k];
    }
  }

  /** The pair can only appear in `a + b` inside `a`, inside `b`, or across the seam. */
  lemma NoPairConcat(a: string, b: string, x: char, y: char)
    requires NoPair(a, x, y) && NoPair(b, x, y)
    requires a == [] || b == [] || !(a[|a| - 1] == x && b[0] == y)
    ensures NoPair(a + b, x, y)
  {
    var s := a + b;
    forall i, j | 0 <= i && j == i + 1 && j < |s| ensures !(s[i] == x && s[j] == y) {
      if j < |a| {
        assert s[i] == a[i] && s[j] == a[j];
      } else if i >= |a| {
        assert s[i] == b[i - |a|] && s[j] == b[j - |a|];
      }
    }
  }

  // ------------------------------------------------------------- splitting

  /** The first position of `c` in `s` (`s.index(c)`). */
  function IndexOfChar(s: string, c: char): (i: nat)
    requires c in s
    ensures i < |s| && s[i] == c && c !in s[..i]
  {
    if s[0] == c then 0 else 1 + IndexOfChar(s[1..], c)
  }

  /** `sep.join(parts)` for a one-character separator. */
  function Join(parts: seq<string>, sep: char): string {
    if parts == [] then ""
    else if |parts| == 1 then parts[0]
    else parts[0] + [sep] + Join(parts[1..], sep)
  }

  /** `s.split(sep)` for a one-character separator: the pieces between separators, in order. */
  function Split(s: string, sep: char): (parts: seq<string>)
    ensures |parts| >= 1
    ensures forall k :: 0 <= k < |parts| ==> sep !in parts[k]
    ensures Join(parts, sep) == s
    decreases |s|
  {
    if sep !in s then [s]
    else
      var i := IndexOfChar(s, sep);
      assert s == s[..i] + [sep] + s[i + 1..];
      [s[..i]] + Split(s[i + 1..], sep)
  }

  /** Splitting undoes joining when no piece holds the separator. */
  lemma {:induction false} SplitJoin(parts: seq<string>, sep: char)
    requires |parts| >= 1
    requires forall k :: 0 <= k < |parts| ==> sep !in parts[k]
    ensures Split(Join(parts, sep), sep) == parts
  {
    if |parts| > 1 {
      var a, b := parts[0], Join(parts[1..], sep);
      var s := a + [sep] + b;
      assert s == Join(parts, sep);
      assert s[|a|] == sep;
      IndexOfCharAfter(a, sep, b);
      assert s[..|a|] == a && s[|a| + 1..] == b;
      SplitJoin(parts[1..], sep);
    }
  }

  /** The first occurrence of `c` is the position of a `c` with none before it. */
  lemma {:induction false} IndexOfCharUnique(s: string, c: char, i: nat)
    requires i < |s| && s[i] == c && c !in s[..i]
    ensures IndexOfChar(s, c) == i
  {
    if i > 0 {
      assert s[0] == s[..i][0];
      assert s[1..][..i - 1] == s[..i][1..];
      IndexOfCharUnique(s[1..], c, i - 1);
    }
  }

  /** The first separator of `a + [c] + b` is the one after `a` when `a` has none. */
  lemma {:induction false} IndexOfCharAfter(a: string, c: char, b: string)
    requires c !in a
    ensures c in a + [c] + b && IndexOfChar(a + [c] + b, c) == |a|
  {
    var s := a + [c] + b;
    assert s[|a|] == c;
    if a != [] {
      assert s[0] == a[0];
      assert s[1..] == a[1..] + [c] + b;
      IndexOfCharAfter(a[1..], c, b);
    }
  }

  /** A word of `str.split()`: non-empty and free of whitespace. */
  predicate IsWord(w: string) {
    w != [] && NoSpace(w)
  }

  /** The length of the run of non-space characters at the front of `t`. */
  function WordEnd(t: string): (n: nat)
    requires t != [] && !IsSpace(t[0])
    ensures 1 <= n <= |t|
    ensures IsWord(t[..n]) && (n == |t| || IsSpace(t[n]))
  {
    if |t| == 1 || IsSpace(t[1]) then 1
    else
      var m := WordEnd(t[1..]);
      assert t[..1 + m] == [t[0]] + t[1..][..m];
      1 + m
  }

  /** A word in front of a list of words. */
  function WordsTail(w: string, rest: seq<string>): (ws: seq<string>)
    requires IsWord(w) && forall k :: 0 <= k < |rest| ==> IsWord(rest[k])
    ensures ws == [w] + rest
    ensures forall k :: 0 <= k < |ws| ==> IsWord(ws[k])
  {
    [w] + rest
  }

  /** `s.split()`: the maximal runs of non-whitespace characters, in order. */
  function Words(s: string): (ws: seq<string>)
    ensures forall k :: 0 <= k < |ws| ==> IsWord(ws[k])
    decreases |s|
  {
    var t := TrimStart(s);
    if t == [] then []
    else
      TrimStartSpec(s);
      var n := WordEnd(t);
      WordsTail(t[..n], Words(t[n..]))
  }

  /** `" ".join(ws)`. */
  function Unwords(ws: seq<string>): string {
    if ws == [] then ""
    else if |ws| == 1 then ws[0]
    else ws[0] + " " + Unwords(ws[1..])
  }

  /** The first word of `w + rest` is `w` when `rest` is empty or starts with whitespace. */
  lemma {:induction false} WordEndAfter(w: string, rest: string)
    requires IsWord(w)
    requires rest == [] || IsSpace(rest[0])
    ensures WordEnd(w + rest) == |w|
  {
    var t := w + rest;
    if |w| > 1 {
      assert t[1] == w[1];
      assert t[1..] == w[1..] + rest;
      WordEndAfter(w[1..], rest);
    } else if rest != [] {
      assert t[1] == rest[0];
    }
  }

  lemma WordsOfSpace(s: string)
    requires AllSpace(s)
    ensures Words(s) == []
  {
    var t := TrimStart(s);
    TrimStartSpec(s);
    if t != [] {
      assert t[0] == s[|s| - |t|];
    }
  }

  lemma WordsAfterSpace(c: char, s: string)
    requires IsSpace(c)
    ensures Words([c] + s) == Words(s)
  {
    assert ([c] + s)[1..] == s;
  }

  lemma WordsFront(w: string, rest: string)
    requires IsWord(w)
    requires rest == [] || IsSpace(rest[0])
    ensures Words(w + rest) == [w] + Words(rest)
  {
    var s := w + rest;
    assert TrimStart(s) == s;
    WordEndAfter(w, rest);
    assert s[..|w|] == w && s[|w|..] == rest;
  }

  /** `str.split()` undoes joining words with single spaces, whatever whitespace follows. */
  lemma {:induction false} WordsUnwords(ws: seq<string>, tail: string)
    requires forall k :: 0 <= k < |ws| ==> IsWord(ws[k])
    requires AllSpace(tail)
    ensures Words(Unwords(ws) + tail) == ws
  {
    if ws == [] {
      assert Unwords(ws) + tail == tail;
      WordsOfSpace(tail);
    } else if |ws| == 1 {
      WordsOfOneWord(ws[0], tail);
      assert [ws[0]] == ws;
    } else {
      assert ws == [ws[0]] + ws[1..];
      WordsUnwords(ws[1..], tail);
      WordsUnwordsStep(ws[0], ws[1..], tail);
    }
  }

  lemma WordsOfOneWord(w: string, tail: string)
    requires IsWord(w) && AllSpace(tail)
    ensures Words(Unwords([w]) + tail) == [w]
  {
    assert Unwords([w]) + tail == w + tail;
    WordsFront(w, tail);
    WordsOfSpace(tail);
  }

  lemma WordsUnwordsStep(w: string, more: seq<string>, tail: string)
    requires IsWord(w) && more != []
    requires Words(Unwords(more) + tail) == more
    ensures Words(Unwords([w] + more) + tail) == [w] + more
  {
    var rest := Unwords(more) + tail;
    assert ([w] + more)[1..] == more;
    assert Unwords([w] + more) + tail == w + ([' '] + rest);
    WordsSpaced(w, rest);
  }

  lemma WordsSpaced(w: string, rest: string)
    requires IsWord(w)
    ensures Words(w + ([' '] + rest)) == [w] + Words(rest)
  {
    WordsFront(w, [' '] + rest);
    WordsAfterSpace(' ', rest);
  }

  /** `xs.index(x)`, with `None` where Python raises `ValueError`. */
  function IndexOf(xs: seq<string>, x: string): (r: Option<nat>)
    ensures r.Some? ==> r.value < |xs| && xs[r.value] == x && x !in xs[..r.value]
    ensures r.None? ==> x !in xs
  {
    if xs == [] then None
    else if xs[0] == x then Some(0)
    else
      match IndexOf(xs[1..], x)
      case None => None
      case Some(i) =>
        assert xs[..i + 1] == [xs[0]] + xs[1..][..i];
        Some(i + 1)
  }

  // ------------------------------------------------------------- lowering

  function LowerChar(c: char): char {
    if 'A' <= c <= 'Z' then (c as int + 32) as char else c
  }

  /** `s.lower()` on ASCII letters. */
  function Lower(s: string): (r: string)
    ensures |r| == |s|
  {
    if s == [] then [] else [LowerChar(s[0])] + Lower(s[1..])
  }

  /** Lowering twice is lowering once. */
  lemma {:induction false} LowerIdempotent(s: string)
    ensures Lower(Lower(s)) == Lower(s)
  {
    if s != [] {
      assert Lower(s)[1..] == Lower(s[1..]);
      LowerIdempotent(s[1..]);
    }
  }

  // ------------------------------------------------------ integers as text

  function DigitValue(c: char): nat
    requires IsDigit(c)
  {
    c as int - '0' as int
  }

  function DigitChar(d: nat): (c: char)
    requires d < 10
    ensures IsDigit(c) && DigitValue(c) == d
  {
    ('0' as int + d) as char
  }

  /** `str(n)` for `n >= 0`: decimal digits, without a leading zero unless `n == 0`. */
  function NatToString(n: nat): (s: string)
    ensures s != [] && AllDigits(s)
    ensures (s[0] == '0') == (n == 0)
    ensures n == 0 ==> s == "0"
  {
    if n < 10 then [DigitChar(n)] else NatToString(n / 10) + [DigitChar(n % 10)]
  }

  /** `str(i)` for any integer. */
  function IntToString(i: int): string {
    if i < 0 then "-" + NatToString(-i) else NatToString(i)
  }

  /** The value of a string of decimal digits (leading zeros allowed, as in `int("007")`). */
  function DigitsValue(s: string): nat
    requires AllDigits(s)
  {
    if s == [] then 0 else DigitsValue(s[..|s| - 1]) * 10 + DigitValue(s[|s| - 1])
  }

  /** Reading back the text of a number gives the number. */
  lemma {:induction false} DigitsValueOfNatToString(n: nat)
    ensures DigitsValue(NatToString(n)) == n
  {
    if n >= 10 {
      var s := NatToString(n);
      assert s[..|s| - 1] == NatToString(n / 10);
      DigitsValueOfNatToString(n / 10);
    }
  }

  lemma {:induction false} DigitsValuePositive(s: string)
    requires s != [] && AllDigits(s) && s[0] != '0'
    ensures DigitsValue(s) >= 1
  {
    if |s| > 1 {
      DigitsValuePositive(s[..|s| - 1]);
    }
  }

  /** A digit string without a leading zero is the text of its own value. */
  lemma {:induction false} NatToStringOfDigits(s: string)
    requires s != [] && AllDigits(s) && (s[0] != '0' || |s| == 1)
    ensures NatToString(DigitsValue(s)) == s
  {
    if |s| > 1 {
      var p := s[..|s| - 1];
      DigitsValuePositive(p);
      NatToStringOfDigits(p);
      var v := DigitsValue(s);
      assert v / 10 == DigitsValue(p) && v % 10 == DigitValue(s[|s| - 1]);
      assert s == p + [s[|s| - 1]];
    }
  }

  lemma NatToStringShort(n: nat)
    requires n < 1000
    ensures |NatToString(n)| <= 3
  {
    if n >= 10 {
      var m := n / 10;
      if m >= 10 {
        assert |NatToString(m / 10)| == 1;
        assert |NatToString(m)| == 2;
      } else {
        assert |NatToString(m)| == 1;
      }
    }
  }

  /** `int(s)`: surrounding whitespace, an optional sign, then ASCII decimal digits; `None` where Python raises. */
  function ParseInt(s: string): Option<int> {
    var t := Strip(s);
    if t != [] && (t[0] == '-' || t[0] == '+') then
      var body := t[1..];
      if body != [] && AllDigits(body) then
        Some(if t[0] == '-' then -(DigitsValue(body) as int) else DigitsValue(body) as int)
      else None
    else if t != [] && AllDigits(t) then Some(DigitsValue(t) as int)
    else None
  }

  /** `int(str(i)) == i`. */
  lemma ParseIntOfIntToString(i: int)
    ensures ParseInt(IntToString(i)) == Some(i)
  {
    var s := IntToString(i);
    var d := NatToString(if i < 0 then -i else i);
    DigitsValueOfNatToString(if i < 0 then -i else i);
    StripUnchanged(s);
    if i < 0 {
      assert s[1..] == d;
    }
  }

  // --------------------------------------------------------------- ordering

  /** Python's `a <= b` on strings: lexicographic by code point. */
  predicate LexLe(a: string, b: string)
    decreases |a|
  {
    a == [] || (b != [] && (a[0] < b[0] || (a[0] == b[0] && LexLe(a[1..], b[1..]))))
  }

  lemma {:induction false} LexLeTotal(a: string, b: string)
    ensures LexLe(a, b) || LexLe(b, a)
    decreases |a|
  {
    if a != [] && b != [] && a[0] == b[0] {
      LexLeTotal(a[1..], b[1..]);
    }
  }

  predicate SortedText(xs: seq<string>) {
    forall i :: 0 < i < |xs| ==> LexLe(xs[i - 1], xs[i])
  }

  /** Inserts `x` into a sorted list, keeping it sorted. */
  function InsertText(x: string, xs: seq<string>): (r: seq<string>)
    requires SortedText(xs)
    ensures SortedText(r) && multiset(r) == multiset(xs) + multiset{x}
    ensures r[0] == x || (xs != [] && r[0] == xs[0])
  {
    if xs == [] || LexLe(x, xs[0]) then [x] + xs
    else
      LexLeTotal(x, xs[0]);
      var r := InsertText(x, xs[1..]);
      assert xs == [xs[0]] + xs[1..];
      [xs[0]] + r
  }

  /** `sorted(xs)` on a list of strings. */
  function SortText(xs: seq<string>): (r: seq<string>)
    ensures SortedText(r) && multiset(r) == multiset(xs)
  {
    if xs == [] then []
    else
      assert xs == [xs[0]] + xs[1..];
      InsertText(xs[0], SortText(xs[1..]))
  }
}
