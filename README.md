# vpn-manager core, modelled in Dafny

This project models the three utility modules of vpn-manager that hold its
logic. Each is written in Dafny, with files, command output, configuration
and the clock passed in as values.

- **Tunnel address allocator** (`utils/ip_manager.py`): module `IpManager`
  in `ip_manager.dfy`.
  - IPv4 addresses are naturals below 2^32, written and read as dotted quads.
  - The subnet is a (base, prefix) pair. The database's allocated
    addresses are a list of strings.
  - The allocator walks the subnet's hosts upwards and returns the first
    one whose text is neither the server's nor allocated. It also answers
    the availability and in-subnet tests and computes the subnet counters.
- **WireGuard peer-file editor and status parser** (`utils/wireguard.py`):
  module `WireGuard` in `wireguard.dfy`.
  - Adding a peer appends the peer block to the server configuration. A
    missing file gets the `[Interface]` header first.
  - Removing a peer is the one-pass line filter driven by the
    `skip_section` flag.
  - The status parser reads the tab-separated `wg show <iface> dump`
    output and applies the 180-second freshness rule.
  - The client configuration template is modelled as well.
- **Port-forward rules** (`utils/firewall.py`): module `Firewall` in
  `firewall.dfy`.
  - The macOS pf backend edits the anchor file: it appends the `rdr` and
    `nat` lines if absent, removes lines by a three-substring test, and
    lists by splitting lines into words.
  - The Linux iptables backend builds its insert and delete commands and
    parses the `iptables -L` listing.
  - The platform wrappers expand `both` into tcp and then udp.

Python's string and file primitives are modelled once, in two shared
modules. `Text` (`text.dfy`) covers `strip`, `split`, `split()`, `join`,
`lower` (on ASCII letters), `in`, `str(int)`, `int(str)` and `sorted`. `TextFile`
(`text_file.dfy`) covers `readlines` and `writelines`. `Base` (`base.dfy`)
holds the `Option` and `Result` types.

Each loop of the source is a method with a loop invariant. The method is
proved equal to a recursive specification function, and lemmas then state
what the source promises about that function:
- the allocator search;
- the peer-line filter;
- the dump parser;
- the anchor filter;
- both listers.

The model follows the code as written, including these behaviours that are
easy to miss:
- A peer is online when its handshake is strictly less than 180 seconds old.
- Removal drops the `# Peer:` and `[Peer]` lines of every peer block, not
  only the target's.
- A peer block starts with a blank line.
- Files are rewritten in place, not through an atomic replace.

## Model

| member | source | states |
|---|---|---|
| IpManager.ParseOctet | utils/ip_manager.py:41 | A dotted part is accepted exactly when it is one to three ASCII digits, has no leading zero and is at most 255; an accepted part is the canonical text of its value |
| IpManager.ParseFormat | utils/ip_manager.py:24 | `IPv4Address(str(a))` gives back `a` for every address |
| IpManager.FormatParse | utils/ip_manager.py:41 | Every text `IPv4Address` accepts is the canonical dotted quad of its value |
| IpManager.FormatInjective | utils/ip_manager.py:24-25 | Two addresses have the same text exactly when they are equal, so the source's string membership tests are address tests |
| IpManager.HostInNetwork | utils/ip_manager.py:14-23 | Every host of `network.hosts()` lies in the network; for a prefix of at most 30 it lies strictly between the network and broadcast addresses |
| IpManager.FirstFreeFrom | utils/ip_manager.py:23-26 | The first-match search returns an address of the range whose text is not reserved and with every lower one reserved; `None` means every address of the range is reserved |
| IpManager.FirstFreeIsFirst | utils/ip_manager.py:23-26 | A free address with every lower one taken is the one the search returns |
| IpManager.FirstFreeNone | utils/ip_manager.py:23-28 | With every address taken the search finds nothing |
| IpManager.NextAvailable | utils/ip_manager.py:14-28 | The allocated address is a host, is not the server's, is not allocated, and every lower host is the server's or allocated; no result means every host is the server's or allocated |
| IpManager.GetNextAvailableIp | utils/ip_manager.py:8-28 | The loop returns the text of that address, or the error "No available IPs in subnet" exactly when there is none |
| IpManager.NextAllocationIsLarger | utils/ip_manager.py:17-26 | Recording the returned address makes the next call return a strictly larger address, or fail |
| IpManager.IsIpAvailable | utils/ip_manager.py:30-36 | False for the server's address; otherwise true exactly when the address is not allocated |
| IpManager.AllocatedIsAvailable | utils/ip_manager.py:17-36 | The allocator only returns addresses `is_ip_available` accepts |
| IpManager.ValidateIpInSubnet | utils/ip_manager.py:38-45 | True only for a valid subnet and a text that parses, is canonical, and lies in it (network and broadcast included); malformed text, or a subnet with host bits set, gives false |
| IpManager.ValidateFormatted | utils/ip_manager.py:38-45 | A formatted address validates exactly when it lies in the subnet |
| IpManager.ValidateRejectsNonCanonical | utils/ip_manager.py:40-45 | A text that is no address's dotted quad never validates |
| IpManager.DeleteDeviceRow | utils/ip_manager.py:47-52 | Deleting the device row, which is what frees an address since `release_ip` does nothing, removes exactly that address from the registry and nothing else |
| IpManager.ReleaseMakesAvailable | utils/ip_manager.py:47-52 | After the row is deleted the address is available again (unless it is the server's) and every other address keeps its availability |
| IpManager.GetSubnetInfo | utils/ip_manager.py:54-70 | total = 2^(32-prefix) - 2, allocated = len(allocated) + 1, available + allocated = total, and the address list is sorted and holds the allocated addresses plus the server's |
| IpManager.ExhaustedIffAllReserved | utils/ip_manager.py:23-28 | The allocator raises exactly when every host text is the server's or allocated |
| IpManager.AvailableCountsFreeHosts | utils/ip_manager.py:59-61 | For a prefix of at most 30 and a registry of distinct hosts, `available` is the number of free hosts, and it is 0 exactly when the allocator raises |
| WireGuard.AddPeerToConfig | utils/wireguard.py:85-117 | The file is present afterwards; the old content (or the header, if the file was missing) is kept as a prefix and exactly the peer block follows |
| WireGuard.HeaderRead | utils/wireguard.py:93-98 | The header reads back as its five lines (`[Interface]`, `Address = <server>/24`, `ListenPort = <port>`, the note, a blank line) and ends in a newline |
| WireGuard.PeerBlockRead | utils/wireguard.py:102-108 | The peer block reads back as its six lines: blank, `# Peer: <name>`, `[Peer]`, `PublicKey = <key>`, `AllowedIPs = <ip>/32`, blank |
| WireGuard.AddPeerLines | utils/wireguard.py:87-113 | Read as lines, an add appends exactly the six block lines to the old lines (or to the header lines) |
| WireGuard.Step | utils/wireguard.py:131-149 | Outside a skip every line but a `# Peer:` line is kept; inside one, only a `PublicKey =` line without the key is kept; a marker always starts a skip; a kept line leaves no skip |
| WireGuard.FilterLine | utils/wireguard.py:132-149 | The loop body, branch for branch, decides the same keep and next-flag as `Step` |
| WireGuard.FilterPeerLines | utils/wireguard.py:128-149 | The loop produces the kept lines of the recursive filter |
| WireGuard.RemovePeerFromConfig | utils/wireguard.py:119-155 | Returns false and leaves a missing file alone; otherwise returns true and writes the kept lines |
| WireGuard.KeptIsSubsequence | utils/wireguard.py:128-149 | The output lines are a subsequence of the input: never edited, never reordered |
| WireGuard.NoMarkersUnchanged | utils/wireguard.py:132-149 | Without a `# Peer:` line nothing is dropped and the flag never rises |
| WireGuard.MarkersDropped | utils/wireguard.py:132-133 | No `# Peer:` line survives a removal, whatever the key |
| WireGuard.KeptAppend | utils/wireguard.py:131-149 | The filter over a concatenation is the filter over the second part started with the flag the first part left |
| WireGuard.BlockKept | utils/wireguard.py:132-149 | A peer block is reduced to its blank lines when its key line holds the key, and to its blank, key and address lines otherwise |
| WireGuard.OwnBlockRemoved | utils/wireguard.py:102-149 | Removing a peer's own key leaves only the block's two blank lines |
| WireGuard.OtherBlockLosesHeader | utils/wireguard.py:132-140 | Another peer's block loses its `# Peer:` and `[Peer]` lines but keeps its key and address lines |
| WireGuard.HeaderHasNoMarker | utils/wireguard.py:93-98 | No header line is a `# Peer:` line |
| WireGuard.AddThenRemove | utils/wireguard.py:102-153 | On a file that ends in a newline and has no `# Peer:` line, adding then removing a key yields the old content plus "\n\n", not the old content |
| WireGuard.AddToMissingThenRemove | utils/wireguard.py:87-153 | On a missing file, adding then removing a key yields the header plus "\n\n" |
| WireGuard.RemoveOtherPeer | utils/wireguard.py:102-153 | Removing some other key from a file holding one peer block keeps that peer's key and address lines and drops its `# Peer:` and `[Peer]` lines |
| WireGuard.Classify | utils/wireguard.py:236-245 | A handshake time is recorded exactly when the field is not "0" and parses as an integer; the peer is online exactly when it has one and it is less than 180 seconds old |
| WireGuard.ClassifyFormatted | utils/wireguard.py:239-243 | A field written as `str(t)` with t not 0 is read as t |
| WireGuard.FreshnessBoundary | utils/wireguard.py:243 | 179 seconds old is online, 180 seconds old is offline |
| WireGuard.PeersFromStep | utils/wireguard.py:226-250 | Each row writes its entry, if any, over the dictionary built so far |
| WireGuard.GetPeerStatus | utils/wireguard.py:206-252 | Empty when the command failed or printed only whitespace; otherwise the dictionary built from every line after the first |
| WireGuard.PeersFromKeys | utils/wireguard.py:226-250 | A key is in the result exactly when some row is a well-formed entry for it |
| WireGuard.PeersFromLastWins | utils/wireguard.py:247-250 | A key's entry comes from the last row carrying it |
| WireGuard.RowOfFields | utils/wireguard.py:230-233 | A row of at least five tab-joined fields is keyed on the first field and classified by the fifth |
| WireGuard.ClientConfigRead | utils/wireguard.py:262-272 | The client configuration reads back as its ten lines, each parameter on its own line |
| Firewall.AddPortForwardMacos | utils/firewall.py:26-72 | Returns true; the anchor afterwards holds the old rules with the `rdr` and `nat` lines each appended if absent |
| Firewall.AddKeepsAndContains | utils/firewall.py:47-56 | After an add the old rules are a prefix, both new lines are present, and at most those two lines were added |
| Firewall.WithRulePresent | utils/firewall.py:53-56 | Appending a line that is already present changes nothing |
| Firewall.AddIdempotent | utils/firewall.py:50-56 | Adding the same forward twice gives the rules of adding it once |
| Firewall.SharedNatLine | utils/firewall.py:50-56 | Two forwards of one device and protocol share one `nat` line: the second add appends only its `rdr` line |
| Firewall.FilterRules | utils/firewall.py:87-92 | The loop keeps exactly what the recursive filter keeps |
| Firewall.RemovePortForwardMacos | utils/firewall.py:74-105 | Returns true; a missing anchor stays missing; otherwise the anchor holds the kept rules |
| Firewall.KeptRulesExact | utils/firewall.py:87-92 | The kept rules are a subsequence of the rules, none of them matches, and every rule that does not match is kept |
| Firewall.KeptRulesCount | utils/firewall.py:87-92 | Each rule that does not match is kept as many times as it occurs, and a rule that matches not at all |
| Firewall.RdrRuleParts | utils/firewall.py:47 | An `rdr` line holds `proto <p>`, `port <P>` and the device address |
| Firewall.RemoveDropsRdr | utils/firewall.py:87-92 | Removing a forward removes its own `rdr` line |
| Firewall.RemoveOverMatchesPort | utils/firewall.py:90 | Removing port P also matches the `rdr` line of every port whose decimal text extends P's |
| Firewall.RemoveOverMatches8000 | utils/firewall.py:90 | In particular, removing port 80 matches the `rdr` line of port 8000 |
| Firewall.RemoveMatchesTargetPort | utils/firewall.py:90 | Removing public port P also matches every `rdr` line of the same device and protocol whose target port is P |
| Firewall.RemoveOverMatchesAddress | utils/firewall.py:90 | Removing address A also matches the `rdr` line of any address extending A, such as 10.0.0.20 for 10.0.0.2 |
| Firewall.NatNeverSelected | utils/firewall.py:90 | A `nat` line (fields without `rt`) holds no `port `, so no removal matches it |
| Firewall.NatLinesSurvive | utils/firewall.py:87-92 | Every `nat` line whose interface, protocol and address hold no `r` followed by `t` survives every removal |
| Firewall.ListPortForwardsMacos | utils/firewall.py:144-179 | No forwards for a missing anchor; otherwise the forwards of the lines that parse, in file order |
| Firewall.ParsedForwardsSnoc | utils/firewall.py:154-177 | One more line adds its parsed forward, if any, at the end |
| Firewall.IndexOfAt | utils/firewall.py:161-163 | `parts.index(x)` is the position of the first occurrence |
| Firewall.RdrWordsBack | utils/firewall.py:159 | `rule.split()` of an `rdr` line gives back the words it was built from |
| Firewall.FieldsOfRdrWords | utils/firewall.py:160-168 | The `try` block reads the protocol, the public port, the address and the target port from an `rdr` line's words |
| Firewall.ParseRdrOfRule | utils/firewall.py:155-177 | The lister reads an `rdr` line built by the add back as (proto, str(public port), device ip, str(target port)) |
| Firewall.NatRuleNotParsed | utils/firewall.py:156 | A `nat` line whose interface, protocol and address hold no `r` followed by `d` is never taken for an `rdr` line |
| Firewall.RdrRuleIsLine | utils/firewall.py:47 | An `rdr` line with one-word fields is one complete line |
| Firewall.NatRuleIsLine | utils/firewall.py:50 | A `nat` line with one-word fields is one complete line |
| Firewall.RulesRead | utils/firewall.py:47-50 | The two lines of a forward are complete lines; the `rdr` line parses to the forward and the `nat` line to nothing |
| Firewall.AppendRulesLists | utils/firewall.py:53-61 | Appending a parsing line and a non-parsing line, each if absent, adds the forward to the listing exactly when the parsing line was new |
| Firewall.ListAfterAdd | utils/firewall.py:38-177 | Add, then list: the listing gains exactly the new forward unless its `rdr` line was already there |
| Firewall.LinuxInterface | utils/firewall.py:188 | `PUBLIC_INTERFACE or 'eth0'` is never empty and is the setting when that is set |
| Firewall.PortForwardLinux | utils/firewall.py:183-233 | Returns true; runs the DNAT, FORWARD and SNAT commands and then the save, in order |
| Firewall.DeleteMirrorsInsert | utils/firewall.py:193-224 | Each delete command is its insert command with `-A` turned into `-D` and nothing else changed; the save is shared |
| Firewall.FirstWith | utils/firewall.py:257-259 | A word holding the text with no earlier word holding it (the first such word), or none exactly when no word holds it |
| Firewall.ListPortForwardsLinux | utils/firewall.py:240-272 | No forwards on a failing listing; otherwise the forwards of the rows after the two header lines, in order |
| Firewall.DnatRowNone | utils/firewall.py:253-270 | No row ever parses: the target, one piece of a split on `:`, never splits into two |
| Firewall.DnatForwardsEmpty | utils/firewall.py:249-270 | No rows give any forward |
| Firewall.LinuxListedEmpty | utils/firewall.py:240-272 | `list_port_forwards_linux` returns `[]` whatever the output and exit code |
| Firewall.Dispatch | utils/firewall.py:286-291 | The backend call fails exactly on an unsupported platform |
| Firewall.PortForwardOutcome | utils/firewall.py:276-307 | On an unsupported platform every call raises "Unsupported platform"; on a supported one every call succeeds |
| Firewall.PortForwardLowered | utils/firewall.py:278 | The protocol's case does not matter |
| Firewall.LowerProtocols | utils/firewall.py:282-283 | `tcp` and `udp` are their own lower case and neither is `both` |
| Firewall.BothOnLinux | utils/firewall.py:280-284 | On Linux `both` runs the tcp commands and then the udp commands |
| Firewall.BothOnMacOS | utils/firewall.py:280-284 | On macOS `both` edits the anchor for tcp and then the result for udp |
| Firewall.ListOffMacOSEmpty | utils/firewall.py:309-316 | Off macOS `list_port_forwards` always returns `[]` |
| Firewall.AddToEmptyLists | utils/firewall.py:53-61 | An add to a missing anchor writes its two lines and lists its one forward |
| Firewall.AddTwiceLists | utils/firewall.py:53-61 | Two adds to a missing anchor, the second with a new `rdr` line, list both forwards in order |
| Firewall.AddTwiceToMissingLists | utils/firewall.py:38-177 | Adds for two protocols to a missing anchor list both forwards in the order added |
| Firewall.BothOnMacOSLists | utils/firewall.py:280-287 | Adding `both` on macOS to a missing anchor lists the tcp forward and then the udp forward |
| Text.StripEmptyIffAllSpace | utils/wireguard.py:227 | `not line.strip()` holds exactly for a whitespace-only line |
| Text.SplitJoin | utils/wireguard.py:230 | Splitting on a separator undoes joining on it when no piece holds it |
| Text.WordsUnwords | utils/firewall.py:159 | `split()` undoes joining words with single spaces |
| Text.ParseIntOfIntToString | utils/wireguard.py:241 | `int(str(i)) == i` |
| Text.LowerIdempotent | utils/firewall.py:278 | Lowering twice is lowering once (ASCII case folding) |
| TextFile.ReadLines | utils/wireguard.py:125 | `readlines()` gives lines whose concatenation is the content, every line but the last ending in a newline (`\n` line endings) |
| TextFile.ReadLinesOfConcat | utils/firewall.py:41 | `readlines()` of what `writelines()` wrote from complete lines gives those lines |
| TextFile.ReadLinesAppend | utils/wireguard.py:112-113 | Appending to a file that ends in a newline appends the new text's lines |
| TextFile.ReadTwoLines | utils/firewall.py:61 | Two complete lines written out end in a newline and read back as those two lines |

## Left out

- Subprocesses are not executed. The results of `run_command` are inputs: the `wg show ... dump` output and exit code, the `iptables -L` output and exit code, and the macOS interface the route lookup detects. The iptables and save commands are recorded as strings.
- Left out because they only run commands or read the environment: `generate_keypair`, `get_server_public_key`, `get_server_endpoint`, `reload_wireguard`, `reload_pfctl_macos`, `check_firewall_configured`, `check_wireguard_installed` and `get_wireguard_status`.
- `generate_qr_code` is left out: it renders an image.
- `generate_client_config` takes the server key and endpoint as parameters.
- `get_public_interface_macos` is the configured interface, else the detected one. The route lookup and the `en0`/`en1` probing behind "detected" are inputs.
- Permission failures are not modelled:
  - the `PermissionError` exceptions when creating or appending to the WireGuard file;
  - the `sudo mv` fallback of the anchor writes. It writes the same rules and is treated as the plain write.
  Every write succeeds.
- Crash-atomicity and concurrent access to the files, the firewall and the database are not modelled.
- app.py, database.py and config.py are not part of this model. Configuration values are parameters, and the database is the list of allocated address strings.
- `IPv4Network(config.VPN_SUBNET)` is not parsed from text. The subnet is a (base, prefix) pair. The allocator and the counters require it to be valid in the strict sense (no host bits set), where Python would raise. `validate_ip_in_subnet` catches that exception, and the model returns false there.
- IpManager.AvailableCountsFreeHosts: stated only for a prefix of at most 30 and a registry of distinct hosts. For /31 and /32 the source's `num_addresses - 2` does not count the hosts, and the model keeps that arithmetic as written.
- WireGuard.Classify: `datetime.fromtimestamp` raising for timestamps outside the platform's range, which the source turns into offline with no time, is not modelled. Times are integer epoch seconds, and `now` is a parameter.
- Text.ParseInt: `int()` also accepts underscores between digits and non-ASCII decimal digits. The model accepts an optional sign and ASCII digits, with surrounding whitespace.
- Firewall.ListAfterAdd: stated only for an anchor that is empty or ends in a newline. Otherwise the first appended line joins the old last line. The add itself is modelled for every file.
- Firewall.ParseRdrOfRule: stated for an interface, protocol and address that are single words and not the keywords the parser looks for. Other values can be misread, as in the source.
- Firewall.NatNeverSelected: stated for fields without the letters `rt` in a row. Such a field could hold `port `.
- Firewall.NatLinesSurvive: stated for fields without the letters `rt` in a row, for the same reason. A field holding `port <P>` would let the removal of that port select the `nat` line of the same device and protocol, as in the source.
- Firewall.NatRuleNotParsed: stated for fields without the letters `rd` in a row. A field holding `rdr pass` would let the parser take the `nat` line for an `rdr` line, as in the source.
- Text.Lower: folds only the ASCII letters A-Z. Python's `lower()` follows full Unicode case mapping, which changes other letters and can change a string's length. The protocols it is applied to are ASCII.
- Text.LowerIdempotent: proved for the ASCII folding only. It is not a statement about Unicode `lower()`.
- TextFile.ReadLines: text mode's universal-newline translation is not modelled. Files are taken to end their lines with `\n`, and a `\r` is an ordinary character.
