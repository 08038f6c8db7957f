/**
 * The NAT rule synthesiser, editor and parser behind port forwarding.
 *
 * On macOS the pf anchor file is a `File` read as lines; the public
 * interface the add path detects is a parameter. On Linux the iptables
 * commands are strings, and the output and exit code of the listing command
 * are parameters. The platform and the configured interfaces are
 * parameters of the platform-agnostic wrappers.
 */
module Firewall {
  import opened Base
  import opened Text
  import opened TextFile

  /** A forward as the listers report it: every field as text. */
  datatype Forward = Forward(protocol: string, publicPort: string, deviceIp: string, targetPort: string)

  // ------------------------------------------------------------ pf rule lines

  /**
   * Words joined by single spaces and ended by a newline. The rule lines
   * of the anchor are f-strings of exactly this shape.
   */
  function Sentence(ws: seq<string>): string {
    Unwords(ws) + "\n"
  }

  /** The words of the `rdr` (DNAT) line. */
  function RdrWords(iface: string, proto: string, deviceIp: string, publicPort: int, targetPort: int): seq<string> {
    ["rdr", "pass", "on", iface, "inet", "proto", proto, "from", "any", "to", "any",
     "port", IntToString(publicPort), "->", deviceIp, "port", IntToString(targetPort)]
  }

  /** `rdr pass on <if> inet proto <p> from any to any port <P> -> <ip> port <T>`. */
  function RdrRule(iface: string, proto: string, deviceIp: string, publicPort: int, targetPort: int): string {
    Sentence(RdrWords(iface, proto, deviceIp, publicPort, targetPort))
  }

  /** The words of the `nat` (SNAT) line. */
  function NatWords(iface: string, proto: string, deviceIp: string): seq<string> {
    ["nat", "on", iface, "inet", "proto", proto, "from", deviceIp, "to", "any", "->", "(" + iface + ")"]
  }

  /** `nat on <if> inet proto <p> from <ip> to any -> (<if>)`. */
  function NatRule(iface: string, proto: string, deviceIp: string): string {
    Sentence(NatWords(iface, proto, deviceIp))
  }

  /** The first word of a joined list is in front of the text. */
  lemma UnwordsHead(ws: seq<string>)
    requires ws != []
    ensures |ws[0]| <= |Unwords(ws)| && Unwords(ws)[..|ws[0]|] == ws[0]
  {
    if |ws| > 1 {
      assert Unwords(ws) == ws[0] + (" " + Unwords(ws[1..]));
    }
  }

  /** Two neighbouring words appear in the joined text with the space between them. */
  lemma {:induction false} UnwordsPair(ws: seq<string>, k: nat)
    requires k + 1 < |ws|
    ensures Contains(Unwords(ws), ws[k] + " " + ws[k + 1])
  {
    var rest := Unwords(ws[1..]);
    assert Unwords(ws) == ws[0] + " " + rest;
    if k == 0 {
      UnwordsHead(ws[1..]);
      var tail := rest[|ws[1]|..];
      assert rest == ws[1] + tail;
      assert Unwords(ws) == "" + (ws[0] + " " + ws[1]) + tail;
      ContainsInfix("", ws[0] + " " + ws[1], tail);
    } else {
      UnwordsPair(ws[1..], k - 1);
      assert Unwords(ws) == (ws[0] + " ") + rest + "";
      ContainsInfix(ws[0] + " ", rest, "");
      ContainsTransitive(Unwords(ws), rest, ws[k] + " " + ws[k + 1]);
    }
  }

  /** A rule line contains each pair of neighbouring words, and so each word. */
  lemma SentencePair(ws: seq<string>, k: nat)
    requires k + 1 < |ws|
    ensures Contains(Sentence(ws), ws[k] + " " + ws[k + 1])
    ensures Contains(Sentence(ws), ws[k]) && Contains(Sentence(ws), ws[k + 1])
  {
    var pair := ws[k] + " " + ws[k + 1];
    UnwordsPair(ws, k);
    assert Sentence(ws) == "" + Unwords(ws) + "\n";
    ContainsInfix("", Unwords(ws), "\n");
    ContainsTransitive(Sentence(ws), Unwords(ws), pair);
    assert pair == "" + ws[k] + (" " + ws[k + 1]);
    ContainsInfix("", ws[k], " " + ws[k + 1]);
    ContainsTransitive(Sentence(ws), pair, ws[k]);
    assert pair == (ws[k] + " ") + ws[k + 1] + "";
    ContainsInfix(ws[k] + " ", ws[k + 1], "");
    ContainsTransitive(Sentence(ws), pair, ws[k + 1]);
  }

  /** A character pair absent from every word and involving no space or newline is absent from the line. */
  lemma {:induction false} NoPairUnwords(ws: seq<string>, x: char, y: char)
    requires x != ' ' && y != ' '
    requires forall k :: 0 <= k < |ws| ==> NoPair(ws[k], x, y)
    ensures NoPair(Unwords(ws), x, y)
  {
    if |ws| > 1 {
      NoPairUnwords(ws[1..], x, y);
      NoPairConcat(ws[0], " ", x, y);
      NoPairConcat(ws[0] + " ", Unwords(ws[1..]), x, y);
    }
  }

  lemma NoPairSentence(ws: seq<string>, x: char, y: char)
    requires x != ' ' && y != ' ' && y != '\n'
    requires forall k :: 0 <= k < |ws| ==> NoPair(ws[k], x, y)
    ensures NoPair(Sentence(ws), x, y)
  {
    NoPairUnwords(ws, x, y);
    NoPairConcat(Unwords(ws), "\n", x, y);
  }

  /** The text of an integer is a single word. */
  lemma IntToStringWord(i: int)
    ensures IsWord(IntToString(i))
  {
    var d := NatToString(if i < 0 then -i else i);
    var s := IntToString(i);
    forall k | 0 <= k < |d| ensures !IsSpace(d[k]) {
      assert IsDigit(d[k]);
    }
    if i < 0 {
      assert s == "-" + d;
      forall k | 0 <= k < |s| ensures !IsSpace(s[k]) {
        if k > 0 {
          assert s[k] == d[k - 1];
        }
      }
    }
  }

  /** `nat` lines have neither `r` followed by `t` nor `r` followed by `d`, when their three fields have neither. */
  lemma NatRuleNoPair(iface: string, proto: string, deviceIp: string, y: char)
    requires y == 't' || y == 'd'
    requires NoPair(iface, 'r', y) && NoPair(proto, 'r', y) && NoPair(deviceIp, 'r', y)
    ensures NoPair(NatRule(iface, proto, deviceIp), 'r', y)
  {
    var ws := NatWords(iface, proto, deviceIp);
    NoPairConcat("(", iface, 'r', y);
    NoPairConcat("(" + iface, ")", 'r', y);
    assert NoPair("proto", 'r', y) by {
      assert "proto"[1] == 'r' && "proto"[2] == 'o';
    }
    assert NoPair("from", 'r', y) by {
      assert "from"[1] == 'r' && "from"[2] == 'o';
    }
    NoPairSentence(ws, 'r', y);
  }

  // ------------------------------------------------------------- macOS: add

  /** The rules of the anchor file: its lines, or none when it does not exist. */
  function RulesOf(f: File): seq<string> {
    if f.Present? then ReadLines(f.content) else []
  }

  /** `if r not in rules: rules.append(r)`. */
  function WithRule(rules: seq<string>, r: string): seq<string> {
    if r in rules then rules else rules + [r]
  }

  /** The anchor's rules after `add_port_forward_macos`: the `rdr` line, then the `nat` line, each appended if absent. */
  function AddedRules(rules: seq<string>, iface: string, deviceIp: string, publicPort: int, targetPort: int, protocol: string): seq<string> {
    var proto := Lower(protocol);
    WithRule(WithRule(rules, RdrRule(iface, proto, deviceIp, publicPort, targetPort)), NatRule(iface, proto, deviceIp))
  }

  /** The anchor file after an add: always present, holding the added rules. */
  function AddedAnchor(f: File, iface: string, deviceIp: string, publicPort: int, targetPort: int, protocol: string): File {
    Present(Concat(AddedRules(RulesOf(f), iface, deviceIp, publicPort, targetPort, protocol)))
  }

  /**
   * `add_port_forward_macos`: reads the anchor (no rules when it is
   * missing), appends each new line unless it is already there, writes the
   * rules back and returns true.
   */
  method AddPortForwardMacos(f: File, iface: string, deviceIp: string, publicPort: int, targetPort: int, protocol: string)
    returns (ok: bool, g: File)
    ensures ok
    ensures g == AddedAnchor(f, iface, deviceIp, publicPort, targetPort, protocol)
  {
    var rules: seq<string> := [];
    if f.Present? {
      rules := ReadLines(f.content);
    }
    var proto := Lower(protocol);
    var rdrLine := RdrRule(iface, proto, deviceIp, publicPort, targetPort);
    var natLine := NatRule(iface, proto, deviceIp);
    if rdrLine !in rules {
      rules := rules + [rdrLine];
    }
    if natLine !in rules {
      rules := rules + [natLine];
    }
    return true, Present(Concat(rules));
  }

  /** The rules after appending `r` and then `n`, each unless present: the old rules, then what was new. */
  lemma WithRulesSplit(rules: seq<string>, r: string, n: string)
    ensures var out := WithRule(WithRule(rules, r), n);
            |rules| <= |out| && out[..|rules|] == rules
            && forall k :: |rules| <= k < |out| ==> out[k] == r || out[k] == n
  {
    var mid := WithRule(rules, r);
    var out := WithRule(mid, n);
    assert mid[..|rules|] == rules;
    assert out[..|mid|] == mid;
    assert out[..|rules|] == mid[..|rules|];
  }

  /**
   * After an add the old rules are a prefix, both new lines are present,
   * and nothing else was added.
   */
  lemma AddKeepsAndContains(rules: seq<string>, iface: string, deviceIp: string, publicPort: int, targetPort: int, protocol: string)
    ensures var proto := Lower(protocol);
            var rdrLine, natLine := RdrRule(iface, proto, deviceIp, publicPort, targetPort), NatRule(iface, proto, deviceIp);
            var out := AddedRules(rules, iface, deviceIp, publicPort, targetPort, protocol);
            |rules| <= |out| <= |rules| + 2 && out[..|rules|] == rules
            && rdrLine in out && natLine in out
            && forall k :: |rules| <= k < |out| ==> out[k] == rdrLine || out[k] == natLine
  {
    var proto := Lower(protocol);
    WithRulesSplit(rules, RdrRule(iface, proto, deviceIp, publicPort, targetPort), NatRule(iface, proto, deviceIp));
  }

  /** Adding a rule that is already there changes nothing. */
  lemma WithRulePresent(rules: seq<string>, r: string)
    requires r in rules
    ensures WithRule(rules, r) == rules
  {
  }

  /** Adding the same forward twice gives the rules of adding it once. */
  lemma AddIdempotent(rules: seq<string>, iface: string, deviceIp: string, publicPort: int, targetPort: int, protocol: string)
    ensures var once := AddedRules(rules, iface, deviceIp, publicPort, targetPort, protocol);
            AddedRules(once, iface, deviceIp, publicPort, targetPort, protocol) == once
  {
    AddKeepsAndContains(rules, iface, deviceIp, publicPort, targetPort, protocol);
  }

  /**
   * Two forwards of one device and protocol share their `nat` line: the
   * second add on rules holding neither appends only its own `rdr` line.
   */
  lemma SharedNatLine(rules: seq<string>, iface: string, deviceIp: string, p1: int, t1: int, p2: int, t2: int, protocol: string)
    requires var proto := Lower(protocol);
             RdrRule(iface, proto, deviceIp, p2, t2) !in AddedRules(rules, iface, deviceIp, p1, t1, protocol)
    ensures var proto := Lower(protocol);
            var first := AddedRules(rules, iface, deviceIp, p1, t1, protocol);
            AddedRules(first, iface, deviceIp, p2, t2, protocol) == first + [RdrRule(iface, proto, deviceIp, p2, t2)]
  {
    var proto := Lower(protocol);
    var first := AddedRules(rules, iface, deviceIp, p1, t1, protocol);
    var rdrLine2 := RdrRule(iface, proto, deviceIp, p2, t2);
    AddKeepsAndContains(rules, iface, deviceIp, p1, t1, protocol);
    assert NatRule(iface, proto, deviceIp) in first + [rdrLine2];
  }

  // ---------------------------------------------------------- macOS: remove

  /** The test of `remove_port_forward_macos`: the line holds `port <P>`, the device address and `proto <p>`. */
  predicate Selects(rule: string, deviceIp: string, publicPort: int, proto: string) {
    Contains(rule, "port " + IntToString(publicPort)) && Contains(rule, deviceIp) && Contains(rule, "proto " + proto)
  }

  /** The rules the filter keeps, in order. */
  function KeptRules(rules: seq<string>, deviceIp: string, publicPort: int, proto: string): seq<string> {
    if rules == [] then []
    else (if Selects(rules[0], deviceIp, publicPort, proto) then [] else [rules[0]])
         + KeptRules(rules[1..], deviceIp, publicPort, proto)
  }

  lemma KeptRulesAppend(a: seq<string>, b: seq<string>, deviceIp: string, publicPort: int, proto: string)
    ensures KeptRules(a + b, deviceIp, publicPort, proto) == KeptRules(a, deviceIp, publicPort, proto) + KeptRules(b, deviceIp, publicPort, proto)
  {
    if a == [] {
      assert a + b == b;
    } else {
      assert (a + b)[0] == a[0] && (a + b)[1..] == a[1..] + b;
      KeptRulesAppend(a[1..], b, deviceIp, publicPort, proto);
    }
  }

  /** The loop of `remove_port_forward_macos`: every rule not selected is appended to `new_rules`. */
  method FilterRules(rules: seq<string>, deviceIp: string, publicPort: int, proto: string) returns (newRules: seq<string>)
    ensures newRules == KeptRules(rules, deviceIp, publicPort, proto)
  {
    newRules := [];
    for i := 0 to |rules|
      invariant newRules == KeptRules(rules[..i], deviceIp, publicPort, proto)
    {
      var rule := rules[i];
      KeptRulesAppend(rules[..i], [rule], deviceIp, publicPort, proto);
      assert rules[..i + 1] == rules[..i] + [rule];
      if Contains(rule, "port " + IntToString(publicPort)) && Contains(rule, deviceIp) && Contains(rule, "proto " + proto) {
        continue;
      }
      newRules := newRules + [rule];
    }
    assert rules[..|rules|] == rules;
  }

  /** The anchor file after a removal: unchanged when missing, otherwise holding the kept rules. */
  function RemovedAnchor(f: File, deviceIp: string, publicPort: int, protocol: string): File {
    if f.Missing? then f else Present(Concat(KeptRules(ReadLines(f.content), deviceIp, publicPort, Lower(protocol))))
  }

  /**
   * `remove_port_forward_macos`: true and no change when the anchor is
   * missing; otherwise the anchor is rewritten with the kept rules and the
   * result is true. The target port plays no part.
   */
  method RemovePortForwardMacos(f: File, deviceIp: string, publicPort: int, targetPort: int, protocol: string)
    returns (ok: bool, g: File)
    ensures ok
    ensures g == RemovedAnchor(f, deviceIp, publicPort, protocol)
  {
    if f.Missing? {
      return true, f;
    }
    var rules := ReadLines(f.content);
    var proto := Lower(protocol);
    var newRules := FilterRules(rules, deviceIp, publicPort, proto);
    return true, Present(Concat(newRules));
  }

  /** The filter keeps exactly the rules it does not select, in their order. */
  lemma {:induction false} KeptRulesExact(rules: seq<string>, deviceIp: string, publicPort: int, proto: string)
    ensures var kept := KeptRules(rules, deviceIp, publicPort, proto);
            IsSubsequence(kept, rules)
            && (forall k :: 0 <= k < |kept| ==> !Selects(kept[k], deviceIp, publicPort, proto))
            && (forall r :: r in rules && !Selects(r, deviceIp, publicPort, proto) ==> r in kept)
  {
    if rules != [] {
      var rest := KeptRules(rules[1..], deviceIp, publicPort, proto);
      KeptRulesExact(rules[1..], deviceIp, publicPort, proto);
      if Selects(rules[0], deviceIp, publicPort, proto) {
        assert KeptRules(rules, deviceIp, publicPort, proto) == rest;
      } else {
        var kept := [rules[0]] + rest;
        assert KeptRules(rules, deviceIp, publicPort, proto) == kept;
        assert kept[1..] == rest;
        forall k | 0 <= k < |kept| ensures !Selects(kept[k], deviceIp, publicPort, proto) {
          if k > 0 {
            assert kept[k] == rest[k - 1];
          }
        }
      }
      forall r | r in rules && !Selects(r, deviceIp, publicPort, proto)
        ensures r in KeptRules(rules, deviceIp, publicPort, proto)
      {
        if r != rules[0] {
          assert r in rules[1..];
        }
      }
    }
  }

  /** The filter keeps each unselected rule as many times as it occurs, and no selected rule at all. */
  lemma {:induction false} KeptRulesCount(rules: seq<string>, deviceIp: string, publicPort: int, proto: string, r: string)
    ensures multiset(KeptRules(rules, deviceIp, publicPort, proto))[r]
            == if Selects(r, deviceIp, publicPort, proto) then 0 else multiset(rules)[r]
  {
    if rules != [] {
      var head := if Selects(rules[0], deviceIp, publicPort, proto) then [] else [rules[0]];
      var rest := KeptRules(rules[1..], deviceIp, publicPort, proto);
      KeptRulesCount(rules[1..], deviceIp, publicPort, proto, r);
      assert KeptRules(rules, deviceIp, publicPort, proto) == head + rest;
      assert rules == [rules[0]] + rules[1..];
      assert multiset(rules) == multiset([rules[0]]) + multiset(rules[1..]);
    }
  }

  /** The `rdr` line holds `proto <p>`, `port <P>` and the device address. */
  lemma RdrRuleParts(iface: string, proto: string, deviceIp: string, publicPort: int, targetPort: int)
    ensures var rule := RdrRule(iface, proto, deviceIp, publicPort, targetPort);
            Contains(rule, "proto " + proto) && Contains(rule, "port " + IntToString(publicPort)) && Contains(rule, deviceIp)
  {
    var ws := RdrWords(iface, proto, deviceIp, publicPort, targetPort);
    SentencePair(ws, 5);
    assert ws[5] + " " + ws[6] == "proto " + proto;
    SentencePair(ws, 11);
    assert ws[11] + " " + ws[12] == "port " + IntToString(publicPort);
    SentencePair(ws, 14);
  }

  /** Removing a forward removes its own `rdr` line. */
  lemma RemoveDropsRdr(rules: seq<string>, iface: string, proto: string, deviceIp: string, publicPort: int, targetPort: int)
    ensures RdrRule(iface, proto, deviceIp, publicPort, targetPort) !in KeptRules(rules, deviceIp, publicPort, proto)
  {
    var rdrLine := RdrRule(iface, proto, deviceIp, publicPort, targetPort);
    RdrRuleParts(iface, proto, deviceIp, publicPort, targetPort);
    KeptRulesExact(rules, deviceIp, publicPort, proto);
    assert Selects(rdrLine, deviceIp, publicPort, proto);
  }

  lemma PortTexts()
    ensures IntToString(80) == "80" && IntToString(8000) == "8000"
  {
    assert NatToString(8) == "8";
    assert NatToString(80) == NatToString(8) + "0";
    assert NatToString(800) == NatToString(80) + "0";
    assert NatToString(8000) == NatToString(800) + "0";
  }

  /**
   * The substring test over-matches ports: removing port P also selects the
   * `rdr` line of every port whose decimal text extends P's, such as 8000
   * for 80.
   */
  lemma RemoveOverMatchesPort(iface: string, proto: string, deviceIp: string, publicPort: int, otherPort: int, suffix: string, targetPort: int)
    requires IntToString(otherPort) == IntToString(publicPort) + suffix
    ensures Selects(RdrRule(iface, proto, deviceIp, otherPort, targetPort), deviceIp, publicPort, proto)
  {
    var rule := RdrRule(iface, proto, deviceIp, otherPort, targetPort);
    RdrRuleParts(iface, proto, deviceIp, otherPort, targetPort);
    assert "port " + IntToString(otherPort) == "" + ("port " + IntToString(publicPort)) + suffix;
    ContainsInfix("", "port " + IntToString(publicPort), suffix);
    ContainsTransitive(rule, "port " + IntToString(otherPort), "port " + IntToString(publicPort));
  }

  /** An instance: removing port 80 selects the `rdr` line of port 8000. */
  lemma RemoveOverMatches8000(iface: string, proto: string, deviceIp: string, targetPort: int)
    ensures Selects(RdrRule(iface, proto, deviceIp, 8000, targetPort), deviceIp, 80, proto)
  {
    PortTexts();
    RemoveOverMatchesPort(iface, proto, deviceIp, 80, 8000, "00", targetPort);
  }

  /**
   * The test also matches the target side: removing public port P selects
   * every `rdr` line of the same device and protocol that forwards to P.
   */
  lemma RemoveMatchesTargetPort(iface: string, proto: string, deviceIp: string, otherPort: int, publicPort: int)
    ensures Selects(RdrRule(iface, proto, deviceIp, otherPort, publicPort), deviceIp, publicPort, proto)
  {
    var ws := RdrWords(iface, proto, deviceIp, otherPort, publicPort);
    SentencePair(ws, 5);
    assert ws[5] + " " + ws[6] == "proto " + proto;
    SentencePair(ws, 15);
    assert ws[15] + " " + ws[16] == "port " + IntToString(publicPort);
    SentencePair(ws, 14);
  }

  /** It also over-matches addresses: removing 10.0.0.2 selects the line of any address that extends it, such as 10.0.0.20. */
  lemma RemoveOverMatchesAddress(iface: string, proto: string, deviceIp: string, extra: string, publicPort: int, targetPort: int)
    ensures Selects(RdrRule(iface, proto, deviceIp + extra, publicPort, targetPort), deviceIp, publicPort, proto)
  {
    var rule := RdrRule(iface, proto, deviceIp + extra, publicPort, targetPort);
    RdrRuleParts(iface, proto, deviceIp + extra, publicPort, targetPort);
    assert deviceIp + extra == "" + deviceIp + extra;
    ContainsInfix("", deviceIp, extra);
    ContainsTransitive(rule, deviceIp + extra, deviceIp);
  }

  /**
   * A `nat` line holds no `port ` (given fields without an `r` followed by
   * a `t`), so no removal ever selects it.
   */
  lemma NatNeverSelected(iface: string, proto: string, deviceIp: string, ip: string, publicPort: int, p: string)
    requires NoPair(iface, 'r', 't') && NoPair(proto, 'r', 't') && NoPair(deviceIp, 'r', 't')
    ensures !Selects(NatRule(iface, proto, deviceIp), ip, publicPort, p)
  {
    var t := "port " + IntToString(publicPort);
    NatRuleNoPair(iface, proto, deviceIp, 't');
    assert t[2] == 'r' && t[3] == 't';
    NoPairExcludes(NatRule(iface, proto, deviceIp), t, 2);
  }

  /** Every `nat` line survives every removal. */
  lemma NatLinesSurvive(rules: seq<string>, iface: string, proto: string, deviceIp: string, ip: string, publicPort: int, p: string)
    requires NoPair(iface, 'r', 't') && NoPair(proto, 'r', 't') && NoPair(deviceIp, 'r', 't')
    requires NatRule(iface, proto, deviceIp) in rules
    ensures NatRule(iface, proto, deviceIp) in KeptRules(rules, ip, publicPort, p)
  {
    NatNeverSelected(iface, proto, deviceIp, ip, publicPort, p);
    KeptRulesExact(rules, ip, publicPort, p);
  }

  // ------------------------------------------------------------ macOS: list

  /**
   * One line of `list_port_forwards_macos`: a line holding `rdr pass` is cut
   * into words and read at the word after the first `proto`, after the first
   * `port`, and one and three words after the first `->`. `None` when the
   * line is not an `rdr` line, or where Python raises (a missing word or an
   * index past the end) and the loop moves on.
   */
  function ParseRdr(rule: string): Option<Forward> {
    if !Contains(rule, "rdr pass") then None else FieldsOf(Words(rule))
  }

  /** The `try` block over the words of an `rdr` line. */
  function FieldsOf(parts: seq<string>): Option<Forward> {
    match (IndexOf(parts, "proto"), IndexOf(parts, "port"), IndexOf(parts, "->"))
    case (Some(i), Some(j), Some(t)) =>
      if i + 1 < |parts| && j + 1 < |parts| && t + 3 < |parts|
      then Some(Forward(parts[i + 1], parts[j + 1], parts[t + 1], parts[t + 3]))
      else None
    case _ => None
  }

  /** The forwards parsed from the rules, in order. */
  function ParsedForwards(rules: seq<string>): seq<Forward> {
    if rules == [] then []
    else
      var last := rules[|rules| - 1];
      ParsedForwards(rules[..|rules| - 1]) + (match ParseRdr(last) case Some(fw) => [fw] case None => [])
  }

  /** What `list_port_forwards_macos` reports for the anchor file. */
  function ListedForwards(f: File): seq<Forward> {
    if f.Present? then ParsedForwards(ReadLines(f.content)) else []
  }

  /**
   * `list_port_forwards_macos`: no forwards when the anchor is missing,
   * otherwise each line that parses, in file order.
   */
  method ListPortForwardsMacos(f: File) returns (forwards: seq<Forward>)
    ensures forwards == ListedForwards(f)
  {
    if !f.Present? {
      return [];
    }
    var rules := ReadLines(f.content);
    forwards := [];
    var i := 0;
    while i < |rules|
      invariant 0 <= i <= |rules|
      invariant forwards == ParsedForwards(rules[..i])
    {
      assert rules[..i + 1][..i] == rules[..i];
      var parsed := ParseRdr(rules[i]);
      if parsed.Some? {
        forwards := forwards + [parsed.value];
      }
      i := i + 1;
    }
    assert rules[..i] == rules;
  }

  /** Parsing rules appended after others appends their forwards. */
  lemma ParsedForwardsSnoc(rules: seq<string>, r: string)
    ensures ParsedForwards(rules + [r]) == ParsedForwards(rules) + (match ParseRdr(r) case Some(fw) => [fw] case None => [])
  {
    assert (rules + [r])[..|rules|] == rules;
  }

  /** `xs.index(x)` is the position of the first occurrence. */
  lemma IndexOfAt(xs: seq<string>, x: string, i: nat)
    requires i < |xs| && xs[i] == x && x !in xs[..i]
    ensures IndexOf(xs, x) == Some(i)
  {
    assert x in xs;
  }

  /** The words of an `rdr` line are the words it was built from. */
  lemma RdrWordsBack(iface: string, proto: string, deviceIp: string, publicPort: int, targetPort: int)
    requires IsWord(iface) && IsWord(proto) && IsWord(deviceIp)
    ensures Words(RdrRule(iface, proto, deviceIp, publicPort, targetPort)) == RdrWords(iface, proto, deviceIp, publicPort, targetPort)
  {
    var ws := RdrWords(iface, proto, deviceIp, publicPort, targetPort);
    IntToStringWord(publicPort);
    IntToStringWord(targetPort);
    forall k | 0 <= k < |ws| ensures IsWord(ws[k]) {
    }
    assert AllSpace("\n") by {
      assert IsSpace("\n"[0]);
    }
    WordsUnwords(ws, "\n");
  }

  /** No integer prints as `->`. */
  lemma IntToStringNotArrow(i: int)
    ensures IntToString(i) != "->"
  {
    var d := NatToString(if i < 0 then -i else i);
    assert IsDigit(d[0]);
    if i < 0 {
      assert IntToString(i)[1] == d[0];
    } else {
      assert IntToString(i)[0] == d[0];
    }
  }

  /** The first `proto` of an `rdr` line's words is the sixth word. */
  lemma RdrProtoAt(iface: string, proto: string, deviceIp: string, publicPort: int, targetPort: int)
    requires iface != "proto"
    ensures IndexOf(RdrWords(iface, proto, deviceIp, publicPort, targetPort), "proto") == Some(5)
  {
    var ws := RdrWords(iface, proto, deviceIp, publicPort, targetPort);
    assert ws[..5] == ["rdr", "pass", "on", iface, "inet"];
    IndexOfAt(ws, "proto", 5);
  }

  /** The first `port` of an `rdr` line's words is the twelfth word. */
  lemma RdrPortAt(iface: string, proto: string, deviceIp: string, publicPort: int, targetPort: int)
    requires iface != "port" && proto != "port"
    ensures IndexOf(RdrWords(iface, proto, deviceIp, publicPort, targetPort), "port") == Some(11)
  {
    var ws := RdrWords(iface, proto, deviceIp, publicPort, targetPort);
    assert ws[..11] == ["rdr", "pass", "on", iface, "inet", "proto", proto, "from", "any", "to", "any"];
    IndexOfAt(ws, "port", 11);
  }

  /** The first `->` of an `rdr` line's words is the fourteenth word. */
  lemma RdrArrowAt(iface: string, proto: string, deviceIp: string, publicPort: int, targetPort: int)
    requires iface != "->" && proto != "->"
    ensures IndexOf(RdrWords(iface, proto, deviceIp, publicPort, targetPort), "->") == Some(13)
  {
    var ws := RdrWords(iface, proto, deviceIp, publicPort, targetPort);
    IntToStringNotArrow(publicPort);
    assert ws[..13] == ["rdr", "pass", "on", iface, "inet", "proto", proto, "from", "any", "to", "any", "port", IntToString(publicPort)];
    IndexOfAt(ws, "->", 13);
  }

  /** The `try` block reads the protocol, the two ports and the address back from an `rdr` line's words. */
  lemma FieldsOfRdrWords(iface: string, proto: string, deviceIp: string, publicPort: int, targetPort: int)
    requires iface != "proto" && iface != "port" && iface != "->"
    requires proto != "port" && proto != "->"
    ensures FieldsOf(RdrWords(iface, proto, deviceIp, publicPort, targetPort))
            == Some(Forward(proto, IntToString(publicPort), deviceIp, IntToString(targetPort)))
  {
    RdrProtoAt(iface, proto, deviceIp, publicPort, targetPort);
    RdrPortAt(iface, proto, deviceIp, publicPort, targetPort);
    RdrArrowAt(iface, proto, deviceIp, publicPort, targetPort);
  }

  /**
   * The lister reads back what the add wrote: the `rdr` line parses to the
   * forward's lowered protocol, its ports as text and the device address,
   * when the interface, protocol and address are single words that are not
   * themselves the keywords the parser looks for.
   */
  lemma ParseRdrOfRule(iface: string, proto: string, deviceIp: string, publicPort: int, targetPort: int)
    requires IsWord(iface) && IsWord(proto) && IsWord(deviceIp)
    requires iface != "proto" && iface != "port" && iface != "->"
    requires proto != "port" && proto != "->"
    ensures ParseRdr(RdrRule(iface, proto, deviceIp, publicPort, targetPort))
            == Some(Forward(proto, IntToString(publicPort), deviceIp, IntToString(targetPort)))
  {
    var rule := RdrRule(iface, proto, deviceIp, publicPort, targetPort);
    var ws := RdrWords(iface, proto, deviceIp, publicPort, targetPort);
    SentencePair(ws, 0);
    assert ws[0] + " " + ws[1] == "rdr pass";
    RdrWordsBack(iface, proto, deviceIp, publicPort, targetPort);
    FieldsOfRdrWords(iface, proto, deviceIp, publicPort, targetPort);
  }

  /** No `nat` line is taken for an `rdr` line, given fields without an `r` followed by a `d`. */
  lemma NatRuleNotParsed(iface: string, proto: string, deviceIp: string)
    requires NoPair(iface, 'r', 'd') && NoPair(proto, 'r', 'd') && NoPair(deviceIp, 'r', 'd')
    ensures ParseRdr(NatRule(iface, proto, deviceIp)).None?
  {
    NatRuleNoPair(iface, proto, deviceIp, 'd');
    NoPairExcludes(NatRule(iface, proto, deviceIp), "rdr pass", 0);
  }

  /** Words joined by spaces hold no newline. */
  lemma {:induction false} UnwordsNoNewline(ws: seq<string>)
    requires forall k :: 0 <= k < |ws| ==> IsWord(ws[k])
    ensures '\n' !in Unwords(ws)
  {
    if ws != [] {
      assert IsWord(ws[0]);
      if |ws| > 1 {
        UnwordsNoNewline(ws[1..]);
        assert Unwords(ws) == ws[0] + " " + Unwords(ws[1..]);
      }
    }
  }

  /** A rule built from words is one complete line. */
  lemma SentenceIsLine(ws: seq<string>)
    requires forall k :: 0 <= k < |ws| ==> IsWord(ws[k])
    ensures IsLine(Sentence(ws))
  {
    UnwordsNoNewline(ws);
    assert Sentence(ws)[..|Sentence(ws)| - 1] == Unwords(ws);
  }

  /** An `rdr` line is one complete line when its fields are words. */
  lemma RdrRuleIsLine(iface: string, proto: string, deviceIp: string, publicPort: int, targetPort: int)
    requires IsWord(iface) && IsWord(proto) && IsWord(deviceIp)
    ensures IsLine(RdrRule(iface, proto, deviceIp, publicPort, targetPort))
  {
    var rw := RdrWords(iface, proto, deviceIp, publicPort, targetPort);
    IntToStringWord(publicPort);
    IntToStringWord(targetPort);
    forall k | 0 <= k < |rw| ensures IsWord(rw[k]) {
    }
    SentenceIsLine(rw);
  }

  /** A `nat` line is one complete line when its fields are words. */
  lemma NatRuleIsLine(iface: string, proto: string, deviceIp: string)
    requires IsWord(iface) && IsWord(proto) && IsWord(deviceIp)
    ensures IsLine(NatRule(iface, proto, deviceIp))
  {
    var nw := NatWords(iface, proto, deviceIp);
    assert IsWord("(" + iface + ")") by {
      var w := "(" + iface + ")";
      forall k | 0 <= k < |w| ensures !IsSpace(w[k]) {
        if 0 < k < |w| - 1 {
          assert w[k] == iface[k - 1];
        }
      }
    }
    forall k | 0 <= k < |nw| ensures IsWord(nw[k]) {
    }
    SentenceIsLine(nw);
  }

  /** Listing complete lines appended to a file that ends in a newline lists the old forwards, then theirs. */
  lemma ListedAfterAppend(c: string, extra: seq<string>)
    requires c == [] || c[|c| - 1] == '\n'
    requires forall k :: 0 <= k < |extra| ==> IsLine(extra[k])
    ensures ListedForwards(Present(Concat(ReadLines(c) + extra))) == ParsedForwards(ReadLines(c) + extra)
  {
    ConcatAppend(ReadLines(c), extra);
    ReadLinesAppend(c, Concat(extra));
    ReadLinesOfConcat(extra);
  }

  /** What appending two complete lines, each unless present, adds is complete lines. */
  lemma WithRulesExtra(rules: seq<string>, r: string, n: string)
    requires IsLine(r) && IsLine(n)
    ensures var out := WithRule(WithRule(rules, r), n);
            |rules| <= |out| && out == rules + out[|rules|..]
            && forall k :: 0 <= k < |out| - |rules| ==> IsLine(out[|rules|..][k])
  {
    var out := WithRule(WithRule(rules, r), n);
    WithRulesSplit(rules, r, n);
    forall k | 0 <= k < |out| - |rules| ensures IsLine(out[|rules|..][k]) {
      assert out[|rules|..][k] == out[|rules| + k];
    }
  }

  /** Parsing the rules after appending an `r` that parses and an `n` that does not adds `r`'s forward unless `r` was there. */
  lemma ParsedWithRules(rules: seq<string>, r: string, n: string, fw: Forward)
    requires ParseRdr(r) == Some(fw) && ParseRdr(n).None?
    ensures ParsedForwards(WithRule(WithRule(rules, r), n)) == ParsedForwards(rules) + (if r in rules then [] else [fw])
  {
    var mid := WithRule(rules, r);
    ParsedForwardsSnoc(rules, r);
    ParsedForwardsSnoc(mid, n);
    if r in rules {
      assert ParsedForwards(rules) + [] == ParsedForwards(rules);
    }
  }

  /**
   * Appending an `r` line that parses and an `n` line that does not, each
   * unless already present, to a file that ends in a newline adds `r`'s
   * forward to the listing exactly when `r` was not there.
   */
  lemma AppendRulesLists(c: string, r: string, n: string, fw: Forward)
    requires c == [] || c[|c| - 1] == '\n'
    requires IsLine(r) && IsLine(n) && ParseRdr(r) == Some(fw) && ParseRdr(n).None?
    ensures ListedForwards(Present(Concat(WithRule(WithRule(ReadLines(c), r), n))))
            == ListedForwards(Present(c)) + (if r in ReadLines(c) then [] else [fw])
  {
    var rules := ReadLines(c);
    var out := WithRule(WithRule(rules, r), n);
    var extra := out[|rules|..];
    WithRulesExtra(rules, r, n);
    assert ListedForwards(Present(Concat(out))) == ParsedForwards(out) by {
      ListedAfterAppend(c, extra);
    }
    assert ParsedForwards(out) == ParsedForwards(rules) + (if r in rules then [] else [fw]) by {
      ParsedWithRules(rules, r, n, fw);
    }
    assert ListedForwards(Present(c)) == ParsedForwards(rules);
  }

  /** The fields a written `rdr` line must have for the lister to read it back and tell it from a `nat` line. */
  ghost predicate ReadableFields(iface: string, proto: string, deviceIp: string) {
    IsWord(iface) && IsWord(proto) && IsWord(deviceIp)
    && iface != "proto" && iface != "port" && iface != "->" && proto != "port" && proto != "->"
    && NoPair(iface, 'r', 'd') && NoPair(proto, 'r', 'd') && NoPair(deviceIp, 'r', 'd')
  }

  /** The two lines of a forward with readable fields: complete lines, the `rdr` line parsing to the forward, the `nat` line to nothing. */
  lemma RulesRead(iface: string, proto: string, deviceIp: string, publicPort: int, targetPort: int)
    requires ReadableFields(iface, proto, deviceIp)
    ensures var rdrLine, natLine := RdrRule(iface, proto, deviceIp, publicPort, targetPort), NatRule(iface, proto, deviceIp);
            IsLine(rdrLine) && IsLine(natLine)
            && ParseRdr(rdrLine) == Some(Forward(proto, IntToString(publicPort), deviceIp, IntToString(targetPort)))
            && ParseRdr(natLine).None?
  {
    RdrRuleIsLine(iface, proto, deviceIp, publicPort, targetPort);
    NatRuleIsLine(iface, proto, deviceIp);
    ParseRdrOfRule(iface, proto, deviceIp, publicPort, targetPort);
    NatRuleNotParsed(iface, proto, deviceIp);
  }

  /**
   * Add, then list: on an anchor that is empty or ends in a newline, the
   * listing gains exactly the new forward (with its protocol lowered and its
   * ports as text) unless its `rdr` line was already there, and otherwise
   * stays as it was.
   */
  lemma ListAfterAdd(c: string, iface: string, deviceIp: string, publicPort: int, targetPort: int, protocol: string)
    requires c == [] || c[|c| - 1] == '\n'
    requires ReadableFields(iface, Lower(protocol), deviceIp)
    ensures var proto := Lower(protocol);
            var added := AddedRules(ReadLines(c), iface, deviceIp, publicPort, targetPort, protocol);
            var fw := Forward(proto, IntToString(publicPort), deviceIp, IntToString(targetPort));
            ListedForwards(Present(Concat(added)))
            == ListedForwards(Present(c)) + (if RdrRule(iface, proto, deviceIp, publicPort, targetPort) in ReadLines(c) then [] else [fw])
  {
    var proto := Lower(protocol);
    RulesRead(iface, proto, deviceIp, publicPort, targetPort);
    AppendRulesLists(c, RdrRule(iface, proto, deviceIp, publicPort, targetPort), NatRule(iface, proto, deviceIp),
                     Forward(proto, IntToString(publicPort), deviceIp, IntToString(targetPort)));
  }

  // ------------------------------------------------------ Linux: commands

  /** Whether an iptables command appends (`-A`) or deletes (`-D`) its rule. */
  datatype Op = Insert | Delete

  function Flag(op: Op): string {
    match op
    case Insert => "-A"
    case Delete => "-D"
  }

  /** `config.PUBLIC_INTERFACE or 'eth0'`: an empty setting falls back to `eth0`. */
  function LinuxInterface(publicInterface: string): (iface: string)
    ensures iface != []
    ensures publicInterface != [] ==> iface == publicInterface
  {
    if publicInterface == "" then "eth0" else publicInterface
  }

  /** The selector of the DNAT rule, after the flag. */
  function DnatSelector(iface: string, proto: string, deviceIp: string, publicPort: int, targetPort: int): string {
    " PREROUTING -i " + iface + " -p " + proto + " --dport " + IntToString(publicPort)
    + " -j DNAT --to-destination " + deviceIp + ":" + IntToString(targetPort)
  }

  /** The selector of the FORWARD rule, after the flag. */
  function ForwardSelector(iface: string, wgInterface: string, proto: string, deviceIp: string, targetPort: int): string {
    " FORWARD -i " + iface + " -o " + wgInterface + " -p " + proto + " -d " + deviceIp + " --dport " + IntToString(targetPort)
    + " -m state --state " + "NEW,ESTABLISHED,RELATED" + " -j ACCEPT"
  }

  /** The selector of the SNAT (masquerade) rule, after the flag. */
  function SnatSelector(wgInterface: string, proto: string, deviceIp: string, targetPort: int): string {
    " POSTROUTING -o " + wgInterface + " -p " + proto + " -d " + deviceIp + " --dport " + IntToString(targetPort) + " -j MASQUERADE"
  }

  /** `save_iptables_linux`: the rules dumped to the file read at boot. */
  const SaveCommand: string := "sudo iptables-save | sudo tee " + "/etc/iptables/rules.v4 > /dev/null"

  /**
   * The commands `add_port_forward_linux` (`Insert`) or
   * `remove_port_forward_linux` (`Delete`) runs, in order: DNAT, FORWARD,
   * SNAT, then the save.
   */
  function LinuxCommands(op: Op, publicInterface: string, wgInterface: string, deviceIp: string, publicPort: int, targetPort: int, protocol: string): seq<string> {
    var iface := LinuxInterface(publicInterface);
    var proto := Lower(protocol);
    ["sudo iptables -t nat " + Flag(op) + DnatSelector(iface, proto, deviceIp, publicPort, targetPort),
     "sudo iptables " + Flag(op) + ForwardSelector(iface, wgInterface, proto, deviceIp, targetPort),
     "sudo iptables -t nat " + Flag(op) + SnatSelector(wgInterface, proto, deviceIp, targetPort),
     SaveCommand]
  }

  /**
   * `add_port_forward_linux` and `remove_port_forward_linux`: run the three
   * rule commands and the save, and return true whatever they report, since
   * `run_command` turns a failing command into its output instead of an
   * exception.
   */
  method PortForwardLinux(op: Op, publicInterface: string, wgInterface: string, deviceIp: string, publicPort: int, targetPort: int, protocol: string)
    returns (ok: bool, commands: seq<string>)
    ensures ok
    ensures commands == LinuxCommands(op, publicInterface, wgInterface, deviceIp, publicPort, targetPort, protocol)
  {
    var iface := LinuxInterface(publicInterface);
    var proto := Lower(protocol);
    commands := [];
    commands := commands + ["sudo iptables -t nat " + Flag(op) + DnatSelector(iface, proto, deviceIp, publicPort, targetPort)];
    commands := commands + ["sudo iptables " + Flag(op) + ForwardSelector(iface, wgInterface, proto, deviceIp, targetPort)];
    commands := commands + ["sudo iptables -t nat " + Flag(op) + SnatSelector(wgInterface, proto, deviceIp, targetPort)];
    commands := commands + [SaveCommand];
    ok := true;
  }

  /** `a` and `b` have one length and differ in one place only, where `a` has `A` and `b` has `D`. */
  predicate FlagSwapped(a: string, b: string) {
    |a| == |b| && exists p :: 0 <= p < |a| && a[p] == 'A' && b[p] == 'D' && a[..p] == b[..p] && a[p + 1..] == b[p + 1..]
  }

  lemma FlagSwappedAt(head: string, tail: string)
    ensures FlagSwapped(head + "-A" + tail, head + "-D" + tail)
  {
    var a, b := head + "-A" + tail, head + "-D" + tail;
    var p := |head| + 1;
    assert a[..p] == head + "-" == b[..p];
    assert a[p + 1..] == tail == b[p + 1..];
  }

  /**
   * Each delete command is its insert command with `-A` turned into `-D`
   * and nothing else changed, so a removal names the very rules the add
   * created; the save is the same in both.
   */
  lemma DeleteMirrorsInsert(publicInterface: string, wgInterface: string, deviceIp: string, publicPort: int, targetPort: int, protocol: string)
    ensures var ins := LinuxCommands(Insert, publicInterface, wgInterface, deviceIp, publicPort, targetPort, protocol);
            var del := LinuxCommands(Delete, publicInterface, wgInterface, deviceIp, publicPort, targetPort, protocol);
            |ins| == |del| == 4
            && FlagSwapped(ins[0], del[0]) && FlagSwapped(ins[1], del[1]) && FlagSwapped(ins[2], del[2])
            && ins[3] == del[3] == SaveCommand
  {
    var iface := LinuxInterface(publicInterface);
    var proto := Lower(protocol);
    FlagSwappedAt("sudo iptables -t nat ", DnatSelector(iface, proto, deviceIp, publicPort, targetPort));
    FlagSwappedAt("sudo iptables ", ForwardSelector(iface, wgInterface, proto, deviceIp, targetPort));
    FlagSwappedAt("sudo iptables -t nat ", SnatSelector(wgInterface, proto, deviceIp, targetPort));
  }

  // --------------------------------------------------------- Linux: list

  /** `[p for p in parts if t in p][0]`: the first word holding `t`, `None` where Python raises `IndexError`. */
  function FirstWith(parts: seq<string>, t: string): (r: Option<string>)
    ensures r.Some? ==> exists i :: 0 <= i < |parts| && parts[i] == r.value && Contains(r.value, t)
                                      && forall k :: 0 <= k < i ==> !Contains(parts[k], t)
    ensures r.None? ==> forall k :: 0 <= k < |parts| ==> !Contains(parts[k], t)
  {
    if parts == [] then None
    else if Contains(parts[0], t) then Some(parts[0])
    else
      var r := FirstWith(parts[1..], t);
      assert forall k :: 1 <= k < |parts| ==> parts[k] == parts[1..][k - 1];
      if r.Some? then
        var i :| 0 <= i < |parts[1..]| && parts[1..][i] == r.value && Contains(r.value, t)
                 && forall k :: 0 <= k < i ==> !Contains(parts[1..][k], t);
        assert parts[i + 1] == r.value;
        r
      else r
  }

  /**
   * One row of `list_port_forwards_linux`: a row holding `DNAT` is cut into
   * words; the protocol is the third, the public port follows `:` in the
   * first word holding `dpt:`, the target follows `:` in the first word
   * holding `to:`, and the target must split on `:` into an address and a
   * port. `None` for other rows and where Python raises.
   */
  function DnatRow(line: string): Option<Forward> {
    if !Contains(line, "DNAT") then None
    else
      var parts := Words(line);
      if |parts| < 3 then None
      else
        match (FirstWith(parts, "dpt:"), FirstWith(parts, "to:"))
        case (Some(dportPart), Some(toPart)) =>
          var dport, to := Split(dportPart, ':'), Split(toPart, ':');
          if |dport| < 2 || |to| < 2 then None
          else
            var pieces := Split(to[1], ':');
            if |pieces| != 2 then None
            else Some(Forward(parts[2], dport[1], pieces[0], pieces[1]))
        case _ => None
  }

  /** What one row adds to the list: its forward, or nothing. */
  function RowForwards(line: string): seq<Forward> {
    match DnatRow(line)
    case Some(fw) => [fw]
    case None => []
  }

  /** The forwards read from the rows, in order. */
  function DnatForwards(rows: seq<string>): seq<Forward> {
    if rows == [] then []
    else DnatForwards(rows[..|rows| - 1]) + RowForwards(rows[|rows| - 1])
  }

  /** `stdout.split('\n')[2:]` of the stripped output: the rows after the two header lines. */
  function TableRows(stdout: string): seq<string> {
    var lines := Split(Strip(stdout), '\n');
    if |lines| >= 2 then lines[2..] else []
  }

  /** What `list_port_forwards_linux` reports for the listing command's output and exit code. */
  function LinuxListed(stdout: string, code: int): seq<Forward> {
    if code != 0 then [] else DnatForwards(TableRows(stdout))
  }

  /** `list_port_forwards_linux`: no forwards on a failing listing, otherwise each row that parses, in order. */
  method ListPortForwardsLinux(stdout: string, code: int) returns (forwards: seq<Forward>)
    ensures forwards == LinuxListed(stdout, code)
  {
    if code != 0 {
      return [];
    }
    var rows := TableRows(stdout);
    forwards := [];
    var i := 0;
    while i < |rows|
      invariant 0 <= i <= |rows|
      invariant forwards == DnatForwards(rows[..i])
    {
      assert rows[..i + 1][..i] == rows[..i];
      forwards := forwards + RowForwards(rows[i]);
      i := i + 1;
    }
    assert rows[..i] == rows;
  }

  /**
   * No row ever parses: the target is one piece of a split on `:`, so it
   * holds no `:` and splits into one piece, never the two the unpacking
   * needs.
   */
  lemma DnatRowNone(line: string)
    ensures DnatRow(line).None?
  {
  }

  /** `list_port_forwards_linux` returns no forwards, whatever the output and exit code. */
  lemma {:induction false} DnatForwardsEmpty(rows: seq<string>)
    ensures DnatForwards(rows) == []
  {
    if rows != [] {
      DnatForwardsEmpty(rows[..|rows| - 1]);
      DnatRowNone(rows[|rows| - 1]);
    }
  }

  lemma LinuxListedEmpty(stdout: string, code: int)
    ensures LinuxListed(stdout, code) == []
  {
    if code == 0 {
      DnatForwardsEmpty(TableRows(stdout));
    }
  }

  // ------------------------------------------------------------- wrappers

  /** Which backend `config` selects. */
  datatype Platform = MacOS | Linux | Unsupported

  /**
   * The configuration the wrappers read: the platform, the configured public
   * interface (empty when unset), the interface the macOS route lookup
   * detects, and the WireGuard interface.
   */
  datatype Env = Env(platform: Platform, publicInterface: string, detectedInterface: string, wgInterface: string)

  /** What the wrappers change: the pf anchor file and the commands run so far. */
  datatype Host = Host(anchor: File, issued: seq<string>)

  /** `get_public_interface_macos`: the configured interface, else the detected one. */
  function MacInterface(env: Env): string {
    if env.publicInterface != "" then env.publicInterface else env.detectedInterface
  }

  /** The plain protocol names are already lower case. */
  lemma LowerProtocols()
    ensures Lower("tcp") == "tcp" && Lower("udp") == "udp" && "tcp" != "both" && "udp" != "both"
  {
    assert Lower("p") == "p" && Lower("cp") == "cp";
    assert Lower("tcp") == "t" + Lower("cp");
    assert Lower("dp") == "dp";
    assert Lower("udp") == "u" + Lower("dp");
  }

  /** One backend call for a single protocol: macOS edits the anchor, Linux runs its commands, anything else raises. */
  function Dispatch(op: Op, env: Env, host: Host, deviceIp: string, publicPort: int, targetPort: int, proto: string): (r: Result<Host>)
    ensures r.Err? <==> env.platform == Unsupported
  {
    match env.platform
    case MacOS =>
      var anchor := match op
        case Insert => AddedAnchor(host.anchor, MacInterface(env), deviceIp, publicPort, targetPort, proto)
        case Delete => RemovedAnchor(host.anchor, deviceIp, publicPort, proto);
      Ok(host.(anchor := anchor))
    case Linux =>
      Ok(host.(issued := host.issued + LinuxCommands(op, env.publicInterface, env.wgInterface, deviceIp, publicPort, targetPort, proto)))
    case Unsupported => Err("Unsupported platform")
  }

  /**
   * `add_port_forward` (`Insert`) and `remove_port_forward` (`Delete`):
   * lower the protocol; `both` is the call for `tcp` followed by the call
   * for `udp`; otherwise the platform's backend runs, and an unsupported
   * platform raises.
   */
  function PortForward(op: Op, env: Env, host: Host, deviceIp: string, publicPort: int, targetPort: int, protocol: string): Result<Host>
    decreases if Lower(protocol) == "both" then 1 else 0
  {
    var proto := Lower(protocol);
    if proto == "both" then
      LowerProtocols();
      match PortForward(op, env, host, deviceIp, publicPort, targetPort, "tcp")
      case Err(e) => Err(e)
      case Ok(h) => PortForward(op, env, h, deviceIp, publicPort, targetPort, "udp")
    else Dispatch(op, env, host, deviceIp, publicPort, targetPort, proto)
  }

  /** Every call on an unsupported platform raises `Unsupported platform`; every call on a supported one succeeds. */
  lemma PortForwardOutcome(op: Op, env: Env, host: Host, deviceIp: string, publicPort: int, targetPort: int, protocol: string)
    ensures var r := PortForward(op, env, host, deviceIp, publicPort, targetPort, protocol);
            (env.platform == Unsupported ==> r == Err("Unsupported platform")) && (env.platform != Unsupported ==> r.Ok?)
  {
    if Lower(protocol) == "both" {
      LowerProtocols();
      var first := PortForward(op, env, host, deviceIp, publicPort, targetPort, "tcp");
      if first.Ok? {
        assert PortForward(op, env, first.value, deviceIp, publicPort, targetPort, "udp") == Dispatch(op, env, first.value, deviceIp, publicPort, targetPort, "udp");
      }
    }
  }

  /** The wrappers give the same result for a protocol in any case. */
  lemma PortForwardLowered(op: Op, env: Env, host: Host, deviceIp: string, publicPort: int, targetPort: int, protocol: string)
    ensures PortForward(op, env, host, deviceIp, publicPort, targetPort, Lower(protocol))
            == PortForward(op, env, host, deviceIp, publicPort, targetPort, protocol)
  {
    LowerIdempotent(protocol);
  }

  /** On Linux, `both` runs the tcp commands and then the udp commands, each group ending with its save. */
  lemma BothOnLinux(op: Op, env: Env, host: Host, deviceIp: string, publicPort: int, targetPort: int, protocol: string)
    requires env.platform == Linux && Lower(protocol) == "both"
    ensures PortForward(op, env, host, deviceIp, publicPort, targetPort, protocol)
            == Ok(host.(issued := host.issued
                                  + LinuxCommands(op, env.publicInterface, env.wgInterface, deviceIp, publicPort, targetPort, "tcp")
                                  + LinuxCommands(op, env.publicInterface, env.wgInterface, deviceIp, publicPort, targetPort, "udp")))
  {
    LowerProtocols();
  }

  /** On macOS, `both` edits the anchor for tcp and then the result for udp. */
  lemma BothOnMacOS(op: Op, env: Env, host: Host, deviceIp: string, publicPort: int, targetPort: int, protocol: string)
    requires env.platform == MacOS && Lower(protocol) == "both"
    ensures var tcp := Dispatch(op, env, host, deviceIp, publicPort, targetPort, "tcp").value;
            PortForward(op, env, host, deviceIp, publicPort, targetPort, protocol)
            == Ok(Dispatch(op, env, tcp, deviceIp, publicPort, targetPort, "udp").value)
            && tcp.issued == host.issued
  {
    LowerProtocols();
  }

  /** `list_port_forwards`: the macOS or Linux lister, and no forwards on any other platform. */
  function ListPortForwards(env: Env, anchor: File, stdout: string, code: int): seq<Forward> {
    match env.platform
    case MacOS => ListedForwards(anchor)
    case Linux => LinuxListed(stdout, code)
    case Unsupported => []
  }

  /** Off macOS the listing is always empty, since the Linux lister never reads a row. */
  lemma ListOffMacOSEmpty(env: Env, anchor: File, stdout: string, code: int)
    requires env.platform != MacOS
    ensures ListPortForwards(env, anchor, stdout, code) == []
  {
    LinuxListedEmpty(stdout, code);
  }

  /**
   * One add to a missing anchor writes its two distinct lines, ending in a
   * newline, and lists its one forward.
   */
  lemma AddToEmptyLists(r: string, n: string, fw: Forward)
    requires IsLine(r) && IsLine(n) && ParseRdr(r) == Some(fw) && ParseRdr(n).None?
    ensures var c := Concat(WithRule(WithRule([], r), n));
            ReadLines(c) == [r, n] && c[|c| - 1] == '\n' && ListedForwards(Present(c)) == [fw]
  {
    assert WithRule(WithRule([], r), n) == [r, n];
    ReadTwoLines(r, n);
    assert ParsedForwards([r, n]) == [fw] by {
      ParsedForwardsSnoc([], r);
      ParsedForwardsSnoc([r], n);
      assert [r] + [n] == [r, n];
    }
  }

  /**
   * Two adds to a missing anchor, the second with an `rdr` line new to the
   * first, list the two forwards in the order added.
   */
  lemma AddTwiceLists(r1: string, n1: string, fw1: Forward, r2: string, n2: string, fw2: Forward)
    requires IsLine(r1) && IsLine(n1) && ParseRdr(r1) == Some(fw1) && ParseRdr(n1).None?
    requires IsLine(r2) && IsLine(n2) && ParseRdr(r2) == Some(fw2) && ParseRdr(n2).None?
    requires fw1 != fw2
    ensures var c1 := Concat(WithRule(WithRule([], r1), n1));
            ListedForwards(Present(Concat(WithRule(WithRule(ReadLines(c1), r2), n2)))) == [fw1, fw2]
  {
    AddToEmptyLists(r1, n1, fw1);
    var c1 := Concat(WithRule(WithRule([], r1), n1));
    assert r2 != r1 && r2 != n1;
    AppendRulesLists(c1, r2, n2, fw2);
  }

  /** Two adds of different protocols to a missing anchor list both forwards, in the order added. */
  lemma AddTwiceToMissingLists(iface: string, deviceIp: string, publicPort: int, targetPort: int, p1: string, p2: string)
    requires ReadableFields(iface, p1, deviceIp) && ReadableFields(iface, p2, deviceIp) && p1 != p2
    requires Lower(p1) == p1 && Lower(p2) == p2
    ensures var a := AddedAnchor(AddedAnchor(Missing, iface, deviceIp, publicPort, targetPort, p1), iface, deviceIp, publicPort, targetPort, p2);
            var pp, tp := IntToString(publicPort), IntToString(targetPort);
            ListedForwards(a) == [Forward(p1, pp, deviceIp, tp), Forward(p2, pp, deviceIp, tp)]
  {
    var pp, tp := IntToString(publicPort), IntToString(targetPort);
    RulesRead(iface, p1, deviceIp, publicPort, targetPort);
    RulesRead(iface, p2, deviceIp, publicPort, targetPort);
    AddTwiceLists(RdrRule(iface, p1, deviceIp, publicPort, targetPort), NatRule(iface, p1, deviceIp), Forward(p1, pp, deviceIp, tp),
                  RdrRule(iface, p2, deviceIp, publicPort, targetPort), NatRule(iface, p2, deviceIp), Forward(p2, pp, deviceIp, tp));
  }

  /**
   * `both` on macOS with no anchor yet: listing afterwards reports the tcp
   * forward and then the udp forward.
   */
  lemma BothOnMacOSLists(env: Env, host: Host, deviceIp: string, publicPort: int, targetPort: int, protocol: string)
    requires env.platform == MacOS && Lower(protocol) == "both" && host.anchor == Missing
    requires ReadableFields(MacInterface(env), "tcp", deviceIp) && ReadableFields(MacInterface(env), "udp", deviceIp)
    ensures var r := PortForward(Insert, env, host, deviceIp, publicPort, targetPort, protocol);
            var pp, tp := IntToString(publicPort), IntToString(targetPort);
            r.Ok? && ListedForwards(r.value.anchor) == [Forward("tcp", pp, deviceIp, tp), Forward("udp", pp, deviceIp, tp)]
  {
    LowerProtocols();
    BothOnMacOS(Insert, env, host, deviceIp, publicPort, targetPort, protocol);
    AddTwiceToMissingLists(MacInterface(env), deviceIp, publicPort, targetPort, "tcp", "udp");
  }
}
