/**
 * The WireGuard peer-file editor and status parser. The configuration file
 * is a value (`File`), the output and exit code of `wg show <iface> dump`
 * and the current time (integer epoch seconds) are parameters.
 */
module WireGuard {
  import opened Base
  import opened Text
  import opened TextFile

  /** Text with no newline in it: one line's worth of a template field. */
  predicate OneLine(s: string) {
    '\n' !in s
  }

  lemma IntToStringOneLine(i: int)
    ensures OneLine(IntToString(i))
  {
    var s := IntToString(i);
    var d := NatToString(if i < 0 then -i else i);
    forall k | 0 <= k < |d| ensures d[k] != '\n' {
      assert IsDigit(d[k]);
    }
    assert i < 0 ==> s == "-" + d;
  }

  lemma OneLineAppend(a: string, b: string)
    requires OneLine(a) && OneLine(b)
    ensures OneLine(a + b)
  {
  }

  /**
   * The comment the header leaves where the server's private key goes,
   * written in pieces so that its characters can be reached.
   */
  const KeyNote: string := "# Note: " + "Add PrivateKey here " + "after running setup script"

  lemma KeyNoteOneLine()
    ensures OneLine(KeyNote)
  {
    OneLineAppend("# Note: ", "Add PrivateKey here ");
    OneLineAppend("# Note: " + "Add PrivateKey here ", "after running setup script");
  }

  lemma ClientConstantsOneLine()
    ensures OneLine("DNS = 1.1.1.1, 8.8.8.8")
    ensures OneLine("AllowedIPs = 0.0.0.0/0, ::/0")
    ensures OneLine("PersistentKeepalive = 25")
  {
    DnsOneLine();
    RouteAllOneLine();
  }

  lemma DnsOneLine()
    ensures OneLine("DNS = 1.1.1.1, 8.8.8.8")
  {
    OneLineAppend("DNS = ", "1.1.1.1, 8.8.8.8");
  }

  lemma RouteAllOneLine()
    ensures OneLine("AllowedIPs = 0.0.0.0/0, ::/0")
  {
    OneLineAppend("AllowedIPs = ", "0.0.0.0/0, ::/0");
  }

  // ------------------------------------------------------------- templates

  /** The lines of the file written when the configuration is missing. */
  function HeaderLines(serverIp: string, port: int): seq<string> {
    Lines(["[Interface]",
           "Address = " + serverIp + "/24",
           "ListenPort = " + IntToString(port),
           KeyNote,
           ""])
  }

  /** The lines appended for each peer: a blank line, the peer comment, the section and its two keys, a blank line. */
  function PeerBlockLines(name: string, key: string, ip: string): seq<string> {
    Lines(["",
           "# Peer: " + name,
           "[Peer]",
           "PublicKey = " + key,
           "AllowedIPs = " + ip + "/32",
           ""])
  }

  /** The header as one text, the way the template writes it. */
  function HeaderText(serverIp: string, port: int): string {
    Concat(HeaderLines(serverIp, port))
  }

  /** The peer block as one text, the way the template writes it. */
  function PeerBlockText(name: string, key: string, ip: string): string {
    Concat(PeerBlockLines(name, key, ip))
  }

  /** The last of a list of lines is the end of their text. */
  lemma ConcatEndsWithLast(ls: seq<string>)
    requires ls != [] && ls[|ls| - 1] == "\n"
    ensures var t := Concat(ls); t != [] && t[|t| - 1] == '\n'
  {
    ConcatAppend(ls[..|ls| - 1], [ls[|ls| - 1]]);
    assert ls[..|ls| - 1] + [ls[|ls| - 1]] == ls;
  }

  /** The header text ends in a newline and reads back as its five lines. */
  lemma HeaderRead(serverIp: string, port: int)
    requires OneLine(serverIp)
    ensures ReadLines(HeaderText(serverIp, port)) == HeaderLines(serverIp, port)
    ensures var h := HeaderText(serverIp, port); h != [] && h[|h| - 1] == '\n'
  {
    var texts := ["[Interface]",
                  "Address = " + serverIp + "/24",
                  "ListenPort = " + IntToString(port),
                  KeyNote,
                  ""];
    IntToStringOneLine(port);
    OneLineAppend("Address = ", serverIp);
    OneLineAppend("Address = " + serverIp, "/24");
    OneLineAppend("ListenPort = ", IntToString(port));
    KeyNoteOneLine();
    assert OneLine(texts[0]) && OneLine(texts[4]);
    ReadLinesOfLines(texts);
    ConcatEndsWithLast(Lines(texts));
  }

  /** The peer block text ends in a newline and reads back as its six lines. */
  lemma PeerBlockRead(name: string, key: string, ip: string)
    requires OneLine(name) && OneLine(key) && OneLine(ip)
    ensures ReadLines(PeerBlockText(name, key, ip)) == PeerBlockLines(name, key, ip)
  {
    var texts := ["", "# Peer: " + name, "[Peer]", "PublicKey = " + key, "AllowedIPs = " + ip + "/32", ""];
    OneLineAppend("# Peer: ", name);
    OneLineAppend("PublicKey = ", key);
    OneLineAppend("AllowedIPs = ", ip);
    OneLineAppend("AllowedIPs = " + ip, "/32");
    assert OneLine(texts[0]) && OneLine(texts[2]);
    ReadLinesOfLines(texts);
  }

  /**
   * `add_peer_to_config`: a missing file is first created with the header;
   * then the peer block is appended.
   */
  function AddPeerToConfig(f: File, serverIp: string, port: int, name: string, key: string, ip: string): (g: File)
    ensures g.Present?
    ensures var before := if f.Present? then f.content else HeaderText(serverIp, port);
            var block := PeerBlockText(name, key, ip);
            |g.content| == |before| + |block|
            && g.content[..|before|] == before && g.content[|before|..] == block
  {
    match f
    case Missing => Present(HeaderText(serverIp, port) + PeerBlockText(name, key, ip))
    case Present(c) => Present(c + PeerBlockText(name, key, ip))
  }

  /** Read back as lines, adding a peer appends exactly the six block lines to a file that ends in a newline. */
  lemma AddPeerLines(f: File, serverIp: string, port: int, name: string, key: string, ip: string)
    requires OneLine(name) && OneLine(key) && OneLine(ip) && OneLine(serverIp)
    requires f.Present? ==> f.content == [] || f.content[|f.content| - 1] == '\n'
    ensures var g := AddPeerToConfig(f, serverIp, port, name, key, ip);
            ReadLines(g.content) == (if f.Present? then ReadLines(f.content) else HeaderLines(serverIp, port))
                                    + PeerBlockLines(name, key, ip)
  {
    PeerBlockRead(name, key, ip);
    if f.Present? {
      ReadLinesAppend(f.content, PeerBlockText(name, key, ip));
    } else {
      HeaderRead(serverIp, port);
      ReadLinesAppend(HeaderText(serverIp, port), PeerBlockText(name, key, ip));
    }
  }

  // -------------------------------------------------------------- removal

  /** A `# Peer:` comment line, after stripping. */
  predicate IsMarker(line: string) {
    StartsWith(Strip(line), "# Peer:")
  }

  /**
   * What the loop body of `remove_peer_from_config` tests about a line, in
   * the order it tests it: its stripped text starts with `# Peer:`, with
   * `[Peer]`, with `PublicKey =` (and whether the line holds the key), with
   * `AllowedIPs =`, or is empty. The four prefixes start with different
   * characters, so at most one of them applies.
   */
  datatype LineKind = Marker | Section | KeyLine(hasKey: bool) | Allowed | Blank | Other

  function KindOf(line: string, key: string): LineKind {
    var t := Strip(line);
    if StartsWith(t, "# Peer:") then Marker
    else if StartsWith(t, "[Peer]") then Section
    else if StartsWith(t, "PublicKey =") then KeyLine(Contains(line, key))
    else if StartsWith(t, "AllowedIPs =") then Allowed
    else if t == "" then Blank
    else Other
  }

  /** What the loop body does with one line: keep it or not, and the new `skip_section` flag. */
  datatype Verdict = Verdict(keep: bool, skip: bool)

  /**
   * One pass of the loop body. A marker always starts a skip and is
   * dropped. Outside a skip every other line is kept. While skipping,
   * only a `PublicKey =` line without the key is kept (and ends the skip);
   * an `AllowedIPs =` or blank line ends the skip and is dropped.
   */
  function Step(kind: LineKind, skip: bool): (v: Verdict)
    ensures !skip ==> (v.keep <==> kind != Marker)
    ensures skip ==> (v.keep <==> kind == KeyLine(false))
    ensures kind == Marker ==> v.skip
    ensures v.keep ==> !v.skip
  {
    match kind
    case Marker => Verdict(false, true)
    case Section => if skip then Verdict(false, true) else Verdict(true, false)
    case KeyLine(hasKey) =>
      if skip && hasKey then Verdict(false, true) else Verdict(true, false)
    case Allowed => Verdict(!skip, false)
    case Blank => Verdict(!skip, false)
    case Other => Verdict(!skip, skip)
  }

  /** The lines the loop keeps from `lines`, entered with flag `skip`. */
  function KeptLines(lines: seq<string>, key: string, skip: bool): seq<string> {
    if lines == [] then []
    else
      var v := Step(KindOf(lines[0], key), skip);
      (if v.keep then [lines[0]] else []) + KeptLines(lines[1..], key, v.skip)
  }

  /** The flag after the loop has gone over `lines`, entered with flag `skip`. */
  function SkipAfter(lines: seq<string>, key: string, skip: bool): bool {
    if lines == [] then skip else SkipAfter(lines[1..], key, Step(KindOf(lines[0], key), skip).skip)
  }

  /**
   * The body of the loop of `remove_peer_from_config`, branch for branch:
   * whether the line is appended to `new_lines`, and the new flag. A
   * `continue` drops the line.
   */
  method FilterLine(line: string, key: string, skip: bool) returns (keep: bool, skipNext: bool)
    ensures Verdict(keep, skipNext) == Step(KindOf(line, key), skip)
  {
    skipNext := skip;
    var t := Strip(line);
    if StartsWith(t, "# Peer:") {
      skipNext := true;
    } else if StartsWith(t, "[Peer]") && skip {
      return false, skipNext;
    } else if StartsWith(t, "PublicKey =") && skip {
      if Contains(line, key) {
        return false, skipNext;
      } else {
        skipNext := false;
      }
    } else if StartsWith(t, "AllowedIPs =") && skip {
      skipNext := false;
      return false, skipNext;
    } else if skip && t == "" {
      skipNext := false;
      return false, skipNext;
    }
    keep := !skipNext;
  }

  /** The line filter of `remove_peer_from_config`: one pass, carrying the `skip_section` flag. */
  method FilterPeerLines(lines: seq<string>, key: string) returns (newLines: seq<string>)
    ensures newLines == KeptLines(lines, key, false)
  {
    newLines := [];
    var skip := false;
    for i := 0 to |lines|
      invariant newLines == KeptLines(lines[..i], key, false)
      invariant skip == SkipAfter(lines[..i], key, false)
    {
      var line := lines[i];
      var keep, skipNext := FilterLine(line, key, skip);
      KeptAppend(lines[..i], [line], key, false);
      assert lines[..i + 1] == lines[..i] + [line];
      if keep {
        newLines := newLines + [line];
      }
      skip := skipNext;
    }
    assert lines[..|lines|] == lines;
  }

  /**
   * `remove_peer_from_config`: false and no change when the file is
   * missing; otherwise the file is rewritten with the kept lines.
   */
  method RemovePeerFromConfig(f: File, key: string) returns (removed: bool, g: File)
    ensures removed <==> f.Present?
    ensures f.Missing? ==> g == f
    ensures f.Present? ==> g == Present(Concat(KeptLines(ReadLines(f.content), key, false)))
  {
    if f.Missing? {
      return false, f;
    }
    var lines := ReadLines(f.content);
    var newLines := FilterPeerLines(lines, key);
    return true, Present(Concat(newLines));
  }

  /** Lines are only dropped: never edited, never reordered. */
  lemma {:induction false} KeptIsSubsequence(lines: seq<string>, key: string, skip: bool)
    ensures IsSubsequence(KeptLines(lines, key, skip), lines)
  {
    if lines != [] {
      var v := Step(KindOf(lines[0], key), skip);
      var rest := KeptLines(lines[1..], key, v.skip);
      KeptIsSubsequence(lines[1..], key, v.skip);
      if v.keep {
        assert KeptLines(lines, key, skip) == [lines[0]] + rest;
        assert ([lines[0]] + rest)[1..] == rest;
      } else {
        assert KeptLines(lines, key, skip) == rest;
      }
    }
  }

  /** Without any `# Peer:` line nothing is dropped and the flag never rises. */
  lemma {:induction false} NoMarkersUnchanged(lines: seq<string>, key: string)
    requires forall k :: 0 <= k < |lines| ==> !IsMarker(lines[k])
    ensures KeptLines(lines, key, false) == lines
    ensures !SkipAfter(lines, key, false)
  {
    if lines != [] {
      assert !IsMarker(lines[0]);
      NoMarkersUnchanged(lines[1..], key);
      assert lines == [lines[0]] + lines[1..];
    }
  }

  /** No `# Peer:` line survives, whichever key is removed. */
  lemma {:induction false} MarkersDropped(lines: seq<string>, key: string, skip: bool)
    ensures forall k :: 0 <= k < |KeptLines(lines, key, skip)| ==> !IsMarker(KeptLines(lines, key, skip)[k])
  {
    if lines != [] {
      var v := Step(KindOf(lines[0], key), skip);
      MarkersDropped(lines[1..], key, v.skip);
      var rest := KeptLines(lines[1..], key, v.skip);
      var head := if v.keep then [lines[0]] else [];
      assert KeptLines(lines, key, skip) == head + rest;
      forall k | 0 <= k < |head + rest| ensures !IsMarker((head + rest)[k]) {
        if k < |head| {
          assert (head + rest)[k] == lines[0];
        } else {
          assert (head + rest)[k] == rest[k - |head|];
        }
      }
    }
  }

  /** The kinds of the lines, in order. */
  function Kinds(lines: seq<string>, key: string): (ks: seq<LineKind>)
    ensures |ks| == |lines|
  {
    if lines == [] then [] else [KindOf(lines[0], key)] + Kinds(lines[1..], key)
  }

  /** The filter of the loop driven by kinds already computed. */
  function FilterKinds(lines: seq<string>, ks: seq<LineKind>, skip: bool): seq<string>
    requires |ks| == |lines|
  {
    if lines == [] then []
    else
      var v := Step(ks[0], skip);
      (if v.keep then [lines[0]] else []) + FilterKinds(lines[1..], ks[1..], v.skip)
  }

  function SkipKinds(ks: seq<LineKind>, skip: bool): bool {
    if ks == [] then skip else SkipKinds(ks[1..], Step(ks[0], skip).skip)
  }

  lemma {:induction false} KeptByKinds(lines: seq<string>, key: string, skip: bool)
    ensures KeptLines(lines, key, skip) == FilterKinds(lines, Kinds(lines, key), skip)
    ensures SkipAfter(lines, key, skip) == SkipKinds(Kinds(lines, key), skip)
  {
    if lines != [] {
      var ks := Kinds(lines, key);
      assert ks[0] == KindOf(lines[0], key) && ks[1..] == Kinds(lines[1..], key);
      KeptByKinds(lines[1..], key, Step(ks[0], skip).skip);
    }
  }

  lemma {:induction false} KindsAppend(a: seq<string>, b: seq<string>, key: string)
    ensures Kinds(a + b, key) == Kinds(a, key) + Kinds(b, key)
  {
    if a == [] {
      assert a + b == b;
    } else {
      assert (a + b)[0] == a[0] && (a + b)[1..] == a[1..] + b;
      KindsAppend(a[1..], b, key);
    }
  }

  lemma {:induction false} FilterKindsAppend(a: seq<string>, ka: seq<LineKind>, b: seq<string>, kb: seq<LineKind>, skip: bool)
    requires |ka| == |a| && |kb| == |b|
    ensures FilterKinds(a + b, ka + kb, skip) == FilterKinds(a, ka, skip) + FilterKinds(b, kb, SkipKinds(ka, skip))
    ensures SkipKinds(ka + kb, skip) == SkipKinds(kb, SkipKinds(ka, skip))
  {
    if a == [] {
      assert a + b == b && ka + kb == kb;
    } else {
      var v := Step(ka[0], skip);
      assert (a + b)[0] == a[0] && (a + b)[1..] == a[1..] + b;
      assert (ka + kb)[0] == ka[0] && (ka + kb)[1..] == ka[1..] + kb;
      FilterKindsAppend(a[1..], ka[1..], b, kb, v.skip);
      var head := if v.keep then [a[0]] else [];
      var mid := FilterKinds(a[1..], ka[1..], v.skip);
      var tail := FilterKinds(b, kb, SkipKinds(ka[1..], v.skip));
      assert head + (mid + tail) == (head + mid) + tail;
    }
  }

  /** The filter over a concatenation runs over the second part with the flag the first part left. */
  lemma KeptAppend(a: seq<string>, b: seq<string>, key: string, skip: bool)
    ensures KeptLines(a + b, key, skip) == KeptLines(a, key, skip) + KeptLines(b, key, SkipAfter(a, key, skip))
    ensures SkipAfter(a + b, key, skip) == SkipAfter(b, key, SkipAfter(a, key, skip))
  {
    KeptByKinds(a + b, key, skip);
    KeptByKinds(a, key, skip);
    KeptByKinds(b, key, SkipAfter(a, key, skip));
    KindsAppend(a, b, key);
    FilterKindsAppend(a, Kinds(a, key), b, Kinds(b, key), skip);
  }

  // Classification of the template lines.

  /** A string that starts with `p` does not start with a `q` whose first character differs. */
  lemma PrefixClash(t: string, p: string, q: string)
    requires p != [] && q != [] && p[0] != q[0] && StartsWith(t, p)
    ensures !StartsWith(t, q)
  {
    assert t[0] == p[0];
  }

  lemma BlankKind(key: string)
    ensures KindOf("\n", key) == Blank && !IsMarker("\n")
  {
    StripEmptyIffAllSpace("\n");
  }

  lemma MarkerKind(name: string, key: string)
    ensures IsMarker("# Peer: " + name + "\n")
    ensures KindOf("# Peer: " + name + "\n", key) == Marker
  {
    assert "# Peer: " + name + "\n" == "# Peer:" + (" " + name + "\n");
    assert "# Peer:"[0] == '#' && "# Peer:"[6] == ':';
    StripKeepsPrefix("# Peer:", " " + name + "\n");
  }

  lemma SectionKind(key: string)
    ensures KindOf("[Peer]\n", key) == Section
  {
    var line := "[Peer]\n";
    assert line == "[Peer]" + "\n";
    assert "[Peer]"[0] == '[' && "[Peer]"[5] == ']' && "# Peer:"[0] == '#';
    StripKeepsPrefix("[Peer]", "\n");
    PrefixClash(Strip(line), "[Peer]", "# Peer:");
  }

  /** A `PublicKey =` line is classified by whether it holds the key; its own key it always holds. */
  lemma KeyLineKind(k: string, key: string)
    ensures KindOf("PublicKey = " + k + "\n", key) == KeyLine(Contains("PublicKey = " + k + "\n", key))
    ensures Contains("PublicKey = " + k + "\n", k)
  {
    var line := "PublicKey = " + k + "\n";
    assert line == "PublicKey =" + (" " + k + "\n");
    assert "PublicKey ="[0] == 'P' && "PublicKey ="[10] == '=' && "# Peer:"[0] == '#' && "[Peer]"[0] == '[';
    StripKeepsPrefix("PublicKey =", " " + k + "\n");
    PrefixClash(Strip(line), "PublicKey =", "# Peer:");
    PrefixClash(Strip(line), "PublicKey =", "[Peer]");
    ContainsInfix("PublicKey = ", k, "\n");
  }

  lemma AllowedKind(ip: string, key: string)
    ensures KindOf("AllowedIPs = " + ip + "/32\n", key) == Allowed
  {
    var line := "AllowedIPs = " + ip + "/32\n";
    assert line == "AllowedIPs =" + (" " + ip + "/32\n");
    assert "AllowedIPs ="[0] == 'A' && "AllowedIPs ="[11] == '=';
    assert "# Peer:"[0] == '#' && "[Peer]"[0] == '[' && "PublicKey ="[0] == 'P';
    StripKeepsPrefix("AllowedIPs =", " " + ip + "/32\n");
    PrefixClash(Strip(line), "AllowedIPs =", "# Peer:");
    PrefixClash(Strip(line), "AllowedIPs =", "[Peer]");
    PrefixClash(Strip(line), "AllowedIPs =", "PublicKey =");
  }

  /** The filter over one line followed by more lines. */
  lemma KeptCons(line: string, rest: seq<string>, key: string, skip: bool)
    ensures var v := Step(KindOf(line, key), skip);
            KeptLines([line] + rest, key, skip) == (if v.keep then [line] else []) + KeptLines(rest, key, v.skip)
            && SkipAfter([line] + rest, key, skip) == SkipAfter(rest, key, v.skip)
  {
    assert ([line] + rest)[0] == line && ([line] + rest)[1..] == rest;
  }

  /** The six lines of a peer block, written out. */
  lemma PeerBlockLinesAre(name: string, key: string, ip: string)
    ensures PeerBlockLines(name, key, ip)
            == ["\n", "# Peer: " + name + "\n", "[Peer]\n", "PublicKey = " + key + "\n", "AllowedIPs = " + ip + "/32\n", "\n"]
  {
    var ls := PeerBlockLines(name, key, ip);
    assert |ls| == 6;
    assert ls[0] == Line("") && ls[5] == Line("");
    assert ls[1] == Line("# Peer: " + name) && ls[2] == Line("[Peer]");
    assert ls[3] == Line("PublicKey = " + key) && ls[4] == Line("AllowedIPs = " + ip + "/32");
    assert ls[0] == "\n";
    assert ls[2] == "[Peer]\n";
    assert ls[4] == "AllowedIPs = " + ip + "/32\n";
  }

  /** Outside a skip a blank line is kept. */
  lemma BlankKept(rest: seq<string>, key: string)
    ensures KeptLines(["\n"] + rest, key, false) == ["\n"] + KeptLines(rest, key, false)
    ensures SkipAfter(["\n"] + rest, key, false) == SkipAfter(rest, key, false)
  {
    BlankKind(key);
    KeptCons("\n", rest, key, false);
  }

  /** A `# Peer:` line is dropped and raises the flag. */
  lemma MarkerDropped(name: string, rest: seq<string>, key: string, skip: bool)
    ensures KeptLines(["# Peer: " + name + "\n"] + rest, key, skip) == KeptLines(rest, key, true)
    ensures SkipAfter(["# Peer: " + name + "\n"] + rest, key, skip) == SkipAfter(rest, key, true)
  {
    MarkerKind(name, key);
    KeptCons("# Peer: " + name + "\n", rest, key, skip);
  }

  /** While skipping, `[Peer]` is dropped and the skip goes on. */
  lemma SectionDropped(rest: seq<string>, key: string)
    ensures KeptLines(["[Peer]\n"] + rest, key, true) == KeptLines(rest, key, true)
    ensures SkipAfter(["[Peer]\n"] + rest, key, true) == SkipAfter(rest, key, true)
  {
    SectionKind(key);
    KeptCons("[Peer]\n", rest, key, true);
  }

  /** A blank line, a `# Peer:` line and `[Peer]` leave only the blank line, and a raised flag. */
  lemma BlockHeadKept(name: string, rest: seq<string>, key: string)
    ensures var m := "# Peer: " + name + "\n";
            KeptLines(["\n", m, "[Peer]\n"] + rest, key, false) == ["\n"] + KeptLines(rest, key, true)
            && SkipAfter(["\n", m, "[Peer]\n"] + rest, key, false) == SkipAfter(rest, key, true)
  {
    var m := "# Peer: " + name + "\n";
    assert ["\n", m, "[Peer]\n"] + rest == ["\n"] + ([m] + (["[Peer]\n"] + rest));
    BlankKept([m] + (["[Peer]\n"] + rest), key);
    MarkerDropped(name, ["[Peer]\n"] + rest, key, false);
    SectionDropped(rest, key);
  }

  /** While skipping, the key line, the `AllowedIPs =` line and the blank line end the skip; only a foreign key line and what follows it survive. */
  lemma BlockTailKept(k: string, ip: string, key: string)
    ensures var kl, al := "PublicKey = " + k + "\n", "AllowedIPs = " + ip + "/32\n";
            KeptLines([kl, al, "\n"], key, true) == (if Contains(kl, key) then ["\n"] else [kl, al, "\n"])
            && !SkipAfter([kl, al, "\n"], key, true)
  {
    var kl, al := "PublicKey = " + k + "\n", "AllowedIPs = " + ip + "/32\n";
    BlankKind(key);
    KeyLineKind(k, key);
    AllowedKind(ip, key);
    assert [kl, al, "\n"] == [kl] + ([al] + ["\n"]);
    assert ["\n"] == ["\n"] + [];
    KeptCons(kl, [al] + ["\n"], key, true);
    KeptCons("\n", [], key, false);
    if Contains(kl, key) {
      KeptCons(al, ["\n"], key, true);
    } else {
      KeptCons(al, ["\n"], key, false);
    }
  }

  /** The filter over a peer block, once its lines are classified. */
  lemma BlockKept(name: string, k: string, ip: string, key: string)
    ensures var ls := PeerBlockLines(name, k, ip);
            var hasKey := Contains("PublicKey = " + k + "\n", key);
            KeptLines(ls, key, false)
            == ["\n"] + (if hasKey then [] else ["PublicKey = " + k + "\n", "AllowedIPs = " + ip + "/32\n"]) + ["\n"]
            && !SkipAfter(ls, key, false)
  {
    var m, kl, al := "# Peer: " + name + "\n", "PublicKey = " + k + "\n", "AllowedIPs = " + ip + "/32\n";
    var tail := [kl, al, "\n"];
    PeerBlockLinesAre(name, k, ip);
    assert PeerBlockLines(name, k, ip) == ["\n", m, "[Peer]\n"] + tail;
    BlockHeadKept(name, tail, key);
    BlockTailKept(k, ip, key);
    if Contains(kl, key) {
      assert ["\n"] + ["\n"] == ["\n"] + [] + ["\n"];
    } else {
      assert ["\n"] + tail == ["\n"] + [kl, al] + ["\n"];
    }
  }

  /** Removing a peer's own key reduces its block to the two blank lines around it. */
  lemma OwnBlockRemoved(name: string, key: string, ip: string)
    ensures KeptLines(PeerBlockLines(name, key, ip), key, false) == ["\n", "\n"]
    ensures !SkipAfter(PeerBlockLines(name, key, ip), key, false)
  {
    BlockKept(name, key, ip, key);
    KeyLineKind(key, key);
  }

  /**
   * Removing some other key from a peer block whose key line does not
   * contain it still drops that block's `# Peer:` and `[Peer]` lines.
   */
  lemma OtherBlockLosesHeader(name: string, other: string, ip: string, key: string)
    requires !Contains("PublicKey = " + other + "\n", key)
    ensures KeptLines(PeerBlockLines(name, other, ip), key, false)
            == ["\n", "PublicKey = " + other + "\n", "AllowedIPs = " + ip + "/32\n", "\n"]
    ensures !SkipAfter(PeerBlockLines(name, other, ip), key, false)
  {
    BlockKept(name, other, ip, key);
    assert ["\n"] + ["PublicKey = " + other + "\n", "AllowedIPs = " + ip + "/32\n"] + ["\n"]
        == ["\n", "PublicKey = " + other + "\n", "AllowedIPs = " + ip + "/32\n", "\n"];
  }

  /**
   * A line that starts with a non-space character and differs from
   * `# Peer:` at a non-space place among its first seven is no marker.
   */
  lemma NotMarker(line: string, k: nat)
    requires k < |line| && k < |"# Peer:"| && !IsSpace(line[0]) && !IsSpace(line[k])
    requires line[k] != "# Peer:"[k]
    ensures !IsMarker(line)
  {
    var t := Strip(line);
    TrimStartNoop(line);
    TrimEndKeeps(line, k);
    TrimEndSpec(line);
    StartsWithSlice(t, "# Peer:");
    assert t[k] == line[k];
  }

  /** No line of the header is a marker, taken one by one. */
  lemma HeaderLineNotMarker(text: string)
    requires text == "" || text == "[Interface]" || text == KeyNote
             || (text != [] && (text[0] == 'A' || text[0] == 'L'))
    ensures !IsMarker(Line(text))
  {
    var l := Line(text);
    if text == "" {
      StripEmptyIffAllSpace(l);
    } else if text == KeyNote {
      assert l[0] == '#' && l[2] == 'N';
      NotMarker(l, 2);
    } else {
      assert l[0] == text[0];
      NotMarker(l, 0);
    }
  }

  /** The header has no `# Peer:` line. */
  lemma HeaderHasNoMarker(serverIp: string, port: int)
    ensures forall k :: 0 <= k < 5 ==> !IsMarker(HeaderLines(serverIp, port)[k])
  {
    var texts := ["[Interface]",
                  "Address = " + serverIp + "/24",
                  "ListenPort = " + IntToString(port),
                  KeyNote,
                  ""];
    forall k | 0 <= k < 5 ensures !IsMarker(HeaderLines(serverIp, port)[k]) {
      HeaderLineNotMarker(texts[k]);
    }
  }

  /** After lines without a `# Peer:` line, removing a block's own key leaves those lines and two blank lines. */
  lemma OwnBlockRemovedAfter(a: seq<string>, name: string, key: string, ip: string)
    requires forall k :: 0 <= k < |a| ==> !IsMarker(a[k])
    ensures KeptLines(a + PeerBlockLines(name, key, ip), key, false) == a + ["\n", "\n"]
  {
    KeptAppend(a, PeerBlockLines(name, key, ip), key, false);
    NoMarkersUnchanged(a, key);
    OwnBlockRemoved(name, key, ip);
  }

  /** After lines without a `# Peer:` line, removing a key some other block does not hold keeps that block's key lines. */
  lemma OtherBlockKeptAfter(a: seq<string>, name: string, other: string, ip: string, key: string)
    requires forall k :: 0 <= k < |a| ==> !IsMarker(a[k])
    requires !Contains("PublicKey = " + other + "\n", key)
    ensures KeptLines(a + PeerBlockLines(name, other, ip), key, false)
            == a + ["\n", "PublicKey = " + other + "\n", "AllowedIPs = " + ip + "/32\n", "\n"]
  {
    KeptAppend(a, PeerBlockLines(name, other, ip), key, false);
    NoMarkersUnchanged(a, key);
    OtherBlockLosesHeader(name, other, ip, key);
  }

  /** The text of lines followed by two blank lines. */
  lemma ConcatTwoBlanks(a: seq<string>)
    ensures Concat(a + ["\n", "\n"]) == Concat(a) + "\n\n"
  {
    ConcatAppend(a, ["\n", "\n"]);
    assert ["\n", "\n"][1..] == ["\n"];
  }

  /**
   * Adding a peer and removing it again does not restore the file: a file
   * that ends in a newline and has no `# Peer:` line comes back with two
   * extra blank lines.
   */
  lemma AddThenRemove(c: string, serverIp: string, port: int, name: string, key: string, ip: string)
    requires OneLine(name) && OneLine(key) && OneLine(ip) && OneLine(serverIp)
    requires c == [] || c[|c| - 1] == '\n'
    requires forall k :: 0 <= k < |ReadLines(c)| ==> !IsMarker(ReadLines(c)[k])
    ensures var g := AddPeerToConfig(Present(c), serverIp, port, name, key, ip);
            Concat(KeptLines(ReadLines(g.content), key, false)) == c + "\n\n"
  {
    AddPeerLines(Present(c), serverIp, port, name, key, ip);
    OwnBlockRemovedAfter(ReadLines(c), name, key, ip);
    ConcatTwoBlanks(ReadLines(c));
  }

  /** On a missing file, adding and then removing a peer leaves the header followed by two blank lines. */
  lemma AddToMissingThenRemove(serverIp: string, port: int, name: string, key: string, ip: string)
    requires OneLine(name) && OneLine(key) && OneLine(ip) && OneLine(serverIp)
    ensures var g := AddPeerToConfig(Missing, serverIp, port, name, key, ip);
            Concat(KeptLines(ReadLines(g.content), key, false)) == HeaderText(serverIp, port) + "\n\n"
  {
    AddPeerLines(Missing, serverIp, port, name, key, ip);
    HeaderHasNoMarker(serverIp, port);
    OwnBlockRemovedAfter(HeaderLines(serverIp, port), name, key, ip);
    ConcatTwoBlanks(HeaderLines(serverIp, port));
  }

  /**
   * Removing a key from a file holding a different peer's block (whose key
   * line does not contain it) keeps that peer's key lines but loses its
   * `# Peer:` and `[Peer]` lines.
   */
  lemma RemoveOtherPeer(c: string, serverIp: string, port: int, name: string, other: string, ip: string, key: string)
    requires OneLine(name) && OneLine(other) && OneLine(ip) && OneLine(serverIp)
    requires c == [] || c[|c| - 1] == '\n'
    requires forall k :: 0 <= k < |ReadLines(c)| ==> !IsMarker(ReadLines(c)[k])
    requires !Contains("PublicKey = " + other + "\n", key)
    ensures var g := AddPeerToConfig(Present(c), serverIp, port, name, other, ip);
            Concat(KeptLines(ReadLines(g.content), key, false))
            == c + ("\nPublicKey = " + other + "\nAllowedIPs = " + ip + "/32\n\n")
  {
    AddPeerLines(Present(c), serverIp, port, name, other, ip);
    var kept := ["\n", "PublicKey = " + other + "\n", "AllowedIPs = " + ip + "/32\n", "\n"];
    OtherBlockKeptAfter(ReadLines(c), name, other, ip, key);
    ConcatAppend(ReadLines(c), kept);
    KeptTextOfOther(other, ip);
  }

  /** The text of the key lines left from a foreign block. */
  lemma KeptTextOfOther(other: string, ip: string)
    ensures Concat(["\n", "PublicKey = " + other + "\n", "AllowedIPs = " + ip + "/32\n", "\n"])
            == "\nPublicKey = " + other + "\nAllowedIPs = " + ip + "/32\n\n"
  {
    var kept := ["\n", "PublicKey = " + other + "\n", "AllowedIPs = " + ip + "/32\n", "\n"];
    assert kept[1..][1..][1..] == ["\n"];
    assert Concat(kept[3..]) == "\n";
    assert Concat(kept[2..]) == kept[2] + "\n";
    assert Concat(kept[1..]) == kept[1] + kept[2] + "\n";
  }

  // --------------------------------------------------------------- status

  /** What `get_peer_status` records for a peer: the handshake time (if any) and whether it is online. */
  datatype PeerStatus = PeerStatus(handshake: Option<int>, online: bool)

  /** Seconds within which a handshake counts as recent. */
  const FreshSeconds: int := 180

  /**
   * The handshake column: "0" means never; otherwise it must parse as an
   * integer (else the peer is offline with no time), and the peer is online
   * when the handshake is less than 180 seconds old.
   */
  function Classify(field: string, now: int): (st: PeerStatus)
    ensures st.handshake.Some? <==> field != "0" && ParseInt(field).Some?
    ensures st.handshake.Some? ==> st.handshake == ParseInt(field)
    ensures st.online <==> st.handshake.Some? && now - st.handshake.value < FreshSeconds
  {
    if field == "0" then PeerStatus(None, false)
    else
      match ParseInt(field)
      case None => PeerStatus(None, false)
      case Some(t) => PeerStatus(Some(t), now - t < FreshSeconds)
  }

  /** A handshake written as `str(t)` (t not 0) is read back as t. */
  lemma ClassifyFormatted(t: int, now: int)
    requires t != 0
    ensures Classify(IntToString(t), now) == PeerStatus(Some(t), now - t < FreshSeconds)
  {
    ParseIntOfIntToString(t);
    if t > 0 {
      assert IntToString(t)[0] != '0';
    }
    assert IntToString(t) != "0";
  }

  /** The freshness test is strict: 179 seconds old is online, 180 is offline. */
  lemma FreshnessBoundary(now: int)
    requires now != 179 && now != 180
    ensures Classify(IntToString(now - 179), now).online
    ensures !Classify(IntToString(now - 180), now).online
  {
    ClassifyFormatted(now - 179, now);
    ClassifyFormatted(now - 180, now);
  }

  /**
   * One dump row: a row that is whitespace only (what `strip` empties) or
   * has fewer than five tab-separated fields gives nothing; otherwise the
   * first field is the key and the fifth the handshake.
   */
  function RowEntry(line: string, now: int): Option<(string, PeerStatus)> {
    if AllSpace(line) then None
    else
      var parts := Split(line, '\t');
      if |parts| >= 5 then Some((parts[0], Classify(parts[4], now))) else None
  }

  /** The dictionary built from `rows` in order: a later row for the same key replaces an earlier one. */
  function PeersFrom(rows: seq<string>, now: int): map<string, PeerStatus> {
    if rows == [] then map[]
    else
      var m := PeersFrom(rows[..|rows| - 1], now);
      match RowEntry(rows[|rows| - 1], now)
      case None => m
      case Some((k, st)) => m[k := st]
  }

  /** The dictionary after one more row: that row's entry, if any, written over the earlier ones. */
  lemma PeersFromStep(rows: seq<string>, i: nat, now: int)
    requires i < |rows|
    ensures PeersFrom(rows[..i + 1], now)
            == match RowEntry(rows[i], now) case None => PeersFrom(rows[..i], now) case Some((k, st)) => PeersFrom(rows[..i], now)[k := st]
  {
    assert rows[..i + 1][..i] == rows[..i];
  }

  /**
   * `get_peer_status`: nothing when the command failed or printed only
   * whitespace; otherwise every line after the first is read as a row.
   */
  method GetPeerStatus(stdout: string, code: int, now: int) returns (peers: map<string, PeerStatus>)
    ensures code != 0 || AllSpace(stdout) ==> peers == map[]
    ensures code == 0 && !AllSpace(stdout) ==> peers == PeersFrom(Split(Strip(stdout), '\n')[1..], now)
  {
    var output := Strip(stdout);
    StripEmptyIffAllSpace(stdout);
    if code != 0 || output == "" {
      return map[];
    }
    peers := map[];
    var lines := Split(output, '\n');
    var rows := lines[1..];
    for i := 0 to |rows|
      invariant peers == PeersFrom(rows[..i], now)
    {
      var line := rows[i];
      PeersFromStep(rows, i, now);
      StripEmptyIffAllSpace(line);
      if Strip(line) == "" {
        assert RowEntry(line, now).None?;
        continue;
      }
      var parts := Split(line, '\t');
      if |parts| >= 5 {
        var publicKey := parts[0];
        var handshakeField := parts[4];
        var online := false;
        var handshake: Option<int> := None;
        if handshakeField != "0" {
          match ParseInt(handshakeField) {
            case None =>
            case Some(t) =>
              handshake := Some(t);
              online := now - t < FreshSeconds;
          }
        }
        assert PeerStatus(handshake, online) == Classify(handshakeField, now);
        peers := peers[publicKey := PeerStatus(handshake, online)];
      }
    }
    assert rows[..|rows|] == rows;
  }

  /** A key is in the result exactly when some row is a well-formed entry for it. */
  lemma {:induction false} PeersFromKeys(rows: seq<string>, now: int, k: string)
    ensures k in PeersFrom(rows, now) <==>
            exists i :: 0 <= i < |rows| && RowEntry(rows[i], now).Some? && RowEntry(rows[i], now).value.0 == k
  {
    if rows != [] {
      var init := rows[..|rows| - 1];
      PeersFromKeys(init, now, k);
      assert forall i :: 0 <= i < |init| ==> init[i] == rows[i];
    }
  }

  /** The entry for a key comes from the last row carrying that key. */
  lemma {:induction false} PeersFromLastWins(pre: seq<string>, row: string, post: seq<string>, now: int)
    requires RowEntry(row, now).Some?
    requires forall i :: 0 <= i < |post| && RowEntry(post[i], now).Some? ==> RowEntry(post[i], now).value.0 != RowEntry(row, now).value.0
    ensures var (k, st) := RowEntry(row, now).value;
            k in PeersFrom(pre + [row] + post, now) && PeersFrom(pre + [row] + post, now)[k] == st
    decreases |post|
  {
    var rows := pre + [row] + post;
    if post == [] {
      assert rows[..|rows| - 1] == pre;
      assert rows[|rows| - 1] == row;
    } else {
      var init := post[..|post| - 1];
      assert rows[..|rows| - 1] == pre + [row] + init;
      assert rows[|rows| - 1] == post[|post| - 1];
      assert forall i :: 0 <= i < |init| ==> init[i] == post[i];
      PeersFromLastWins(pre, row, init, now);
    }
  }

  /**
   * A row written as fields joined by tabs (no tabs inside, the key not
   * starting with whitespace) is keyed on the first field and classified
   * by the fifth.
   */
  lemma RowOfFields(fields: seq<string>, now: int)
    requires |fields| >= 5
    requires forall k :: 0 <= k < |fields| ==> '\t' !in fields[k]
    requires fields[0] != [] && !IsSpace(fields[0][0])
    ensures RowEntry(Join(fields, '\t'), now) == Some((fields[0], Classify(fields[4], now)))
  {
    var line := Join(fields, '\t');
    SplitJoin(fields, '\t');
    assert line[0] == fields[0][0];
  }

  // ----------------------------------------------------------- client file

  /**
   * `generate_client_config`: the client's interface (private key, address
   * /24, fixed DNS servers) and the server as its only peer, routing all
   * traffic with a 25-second keepalive.
   */
  function ClientConfigLines(privateKey: string, vpnIp: string, serverKey: string, endpoint: string): seq<string> {
    Lines(["[Interface]", "PrivateKey = " + privateKey, "Address = " + vpnIp + "/24", "DNS = 1.1.1.1, 8.8.8.8", "",
           "[Peer]", "PublicKey = " + serverKey, "Endpoint = " + endpoint, "AllowedIPs = 0.0.0.0/0, ::/0",
           "PersistentKeepalive = 25"])
  }

  function ClientConfig(privateKey: string, vpnIp: string, serverKey: string, endpoint: string): string {
    Concat(ClientConfigLines(privateKey, vpnIp, serverKey, endpoint))
  }

  /** The client file reads back as its ten lines, carrying each parameter on its own line. */
  lemma ClientConfigRead(privateKey: string, vpnIp: string, serverKey: string, endpoint: string)
    requires OneLine(privateKey) && OneLine(vpnIp) && OneLine(serverKey) && OneLine(endpoint)
    ensures ReadLines(ClientConfig(privateKey, vpnIp, serverKey, endpoint))
            == ClientConfigLines(privateKey, vpnIp, serverKey, endpoint)
  {
    var texts := ["[Interface]", "PrivateKey = " + privateKey, "Address = " + vpnIp + "/24", "DNS = 1.1.1.1, 8.8.8.8", "",
                  "[Peer]", "PublicKey = " + serverKey, "Endpoint = " + endpoint, "AllowedIPs = 0.0.0.0/0, ::/0",
                  "PersistentKeepalive = 25"];
    OneLineAppend("PrivateKey = ", privateKey);
    OneLineAppend("Address = ", vpnIp);
    OneLineAppend("Address = " + vpnIp, "/24");
    ClientConstantsOneLine();
    OneLineAppend("PublicKey = ", serverKey);
    OneLineAppend("Endpoint = ", endpoint);
    assert OneLine(texts[0]) && OneLine(texts[4]) && OneLine(texts[5]);
    ReadLinesOfLines(texts);
  }
}
