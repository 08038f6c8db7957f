/**
 * The tunnel address allocator: IPv4 addresses as naturals below 2^32,
 * written and read in dotted-quad form, a subnet as (base, prefix), and
 * the registry of allocated addresses as the list of strings the database
 * returns. The subnet, the server address and the registry are parameters.
 */
module IpManager {
  import opened Base
  import opened Text

  const AddressSpace: nat := 0x1_0000_0000

  function Pow2(n: nat): (r: nat)
    ensures r >= 1
  {
    if n == 0 then 1 else 2 * Pow2(n - 1)
  }

  lemma {:induction false} Pow2AtLeast4(n: nat)
    requires n >= 2
    ensures Pow2(n) >= 4
  {
    if n > 2 {
      Pow2AtLeast4(n - 1);
    }
  }

  // ------------------------------------------------------------ addresses

  /** The `n` low bytes of `a`, most significant first. */
  function LowBytes(a: nat, n: nat): (o: seq<nat>)
    ensures |o| == n && forall k :: 0 <= k < n ==> o[k] < 256
  {
    if n == 0 then [] else LowBytes(a / 256, n - 1) + [a % 256]
  }

  /** The four bytes of an address, most significant first (`ip.packed`). */
  function Octets(a: nat): (o: seq<nat>)
    requires a < AddressSpace
    ensures |o| == 4 && forall k :: 0 <= k < 4 ==> o[k] < 256
  {
    LowBytes(a, 4)
  }

  /** The address whose bytes are `w.x.y.z`. */
  function FromOctets(w: nat, x: nat, y: nat, z: nat): (a: nat)
    requires w < 256 && x < 256 && y < 256 && z < 256
    ensures a < AddressSpace
  {
    ((w * 256 + x) * 256 + y) * 256 + z
  }

  lemma OctetsOfFromOctets(w: nat, x: nat, y: nat, z: nat)
    requires w < 256 && x < 256 && y < 256 && z < 256
    ensures Octets(FromOctets(w, x, y, z)) == [w, x, y, z]
  {
    var a := FromOctets(w, x, y, z);
    var q1 := (w * 256 + x) * 256 + y;
    var q2 := w * 256 + x;
    assert a == q1 * 256 + z;
    assert a / 256 == q1 && a % 256 == z;
    assert q1 / 256 == q2 && q1 % 256 == y;
    assert q2 / 256 == w && q2 % 256 == x;
    assert LowBytes(w, 1) == LowBytes(0, 0) + [w];
    assert LowBytes(q2, 2) == LowBytes(w, 1) + [x];
    assert LowBytes(q1, 3) == LowBytes(q2, 2) + [y];
    assert LowBytes(a, 4) == LowBytes(q1, 3) + [z];
  }

  lemma FromOctetsOfOctets(a: nat)
    requires a < AddressSpace
    ensures var o := Octets(a); FromOctets(o[0], o[1], o[2], o[3]) == a
  {
    var q1 := a / 256;
    var q2 := q1 / 256;
    var q3 := q2 / 256;
    assert a == q1 * 256 + a % 256;
    assert q1 == q2 * 256 + q1 % 256;
    assert q2 == q3 * 256 + q2 % 256;
    assert q3 < 256;
    assert LowBytes(q3, 1) == LowBytes(q3 / 256, 0) + [q3 % 256];
    assert LowBytes(q2, 2) == LowBytes(q3, 1) + [q2 % 256];
    assert LowBytes(q1, 3) == LowBytes(q2, 2) + [q1 % 256];
    assert LowBytes(a, 4) == LowBytes(q1, 3) + [a % 256];
  }

  /** `str(IPv4Address(a))`: the bytes in decimal, joined by dots. */
  function FormatIPv4(a: nat): string
    requires a < AddressSpace
  {
    var o := Octets(a);
    Join([NatToString(o[0]), NatToString(o[1]), NatToString(o[2]), NatToString(o[3])], '.')
  }

  /**
   * One dotted part as `ipaddress` accepts it: one to three ASCII digits,
   * no leading zero unless the part is "0", and a value of at most 255.
   */
  function ParseOctet(s: string): (r: Option<nat>)
    ensures r.Some? ==> r.value < 256 && NatToString(r.value) == s
    ensures r.None? ==> s == [] || !AllDigits(s) || |s| > 3 || (|s| > 1 && s[0] == '0') || DigitsValue(s) > 255
  {
    if s != [] && AllDigits(s) && |s| <= 3 && (|s| == 1 || s[0] != '0') && DigitsValue(s) <= 255 then
      NatToStringOfDigits(s);
      Some(DigitsValue(s))
    else None
  }

  /** `IPv4Address(s)`: exactly four dotted parts, each a valid byte; `None` where it raises. */
  function ParseIPv4(s: string): (r: Option<nat>)
    ensures r.Some? ==> r.value < AddressSpace
  {
    var parts := Split(s, '.');
    if |parts| != 4 then None
    else
      match (ParseOctet(parts[0]), ParseOctet(parts[1]), ParseOctet(parts[2]), ParseOctet(parts[3]))
      case (Some(w), Some(x), Some(y), Some(z)) => Some(FromOctets(w, x, y, z))
      case _ => None
  }

  lemma ParseOctetOfNat(n: nat)
    requires n < 256
    ensures ParseOctet(NatToString(n)) == Some(n)
    ensures '.' !in NatToString(n)
  {
    var s := NatToString(n);
    NatToStringShort(n);
    DigitsValueOfNatToString(n);
    assert s[0] == '0' ==> n == 0;
    forall i | 0 <= i < |s| ensures s[i] != '.' {
      assert IsDigit(s[i]);
    }
  }

  /** Reading back a formatted address gives the address. */
  lemma ParseFormat(a: nat)
    requires a < AddressSpace
    ensures ParseIPv4(FormatIPv4(a)) == Some(a)
  {
    var o := Octets(a);
    var parts := [NatToString(o[0]), NatToString(o[1]), NatToString(o[2]), NatToString(o[3])];
    ParseOctetOfNat(o[0]);
    ParseOctetOfNat(o[1]);
    ParseOctetOfNat(o[2]);
    ParseOctetOfNat(o[3]);
    SplitJoin(parts, '.');
    FromOctetsOfOctets(a);
  }

  /** Whatever parses is written in the canonical form of its value. */
  lemma FormatParse(s: string)
    requires ParseIPv4(s).Some?
    ensures FormatIPv4(ParseIPv4(s).value) == s
  {
    var parts := Split(s, '.');
    var w, x, y, z := ParseOctet(parts[0]).value, ParseOctet(parts[1]).value,
                      ParseOctet(parts[2]).value, ParseOctet(parts[3]).value;
    OctetsOfFromOctets(w, x, y, z);
    assert parts == [parts[0], parts[1], parts[2], parts[3]];
  }

  /** Equal dotted quads mean equal addresses, so string tests are address tests. */
  lemma FormatInjective(a: nat, b: nat)
    requires a < AddressSpace && b < AddressSpace
    ensures FormatIPv4(a) == FormatIPv4(b) <==> a == b
  {
    ParseFormat(a);
    ParseFormat(b);
  }

  // ------------------------------------------------------------- subnets

  /** `IPv4Network(VPN_SUBNET)`: a base address and a prefix length. */
  datatype Network = Network(base: nat, prefix: nat)

  function Size(net: Network): nat
    requires net.prefix <= 32
  {
    Pow2(32 - net.prefix)
  }

  /** A network `IPv4Network` accepts in strict mode: no host bits set in the base. */
  predicate ValidNetwork(net: Network) {
    net.prefix <= 32 && net.base % Size(net) == 0 && net.base + Size(net) <= AddressSpace
  }

  function Broadcast(net: Network): nat
    requires ValidNetwork(net)
  {
    net.base + Size(net) - 1
  }

  /** `ip in network`: from the network address to the broadcast address. */
  predicate InNetwork(a: nat, net: Network)
    requires ValidNetwork(net)
  {
    net.base <= a <= Broadcast(net)
  }

  /**
   * `network.hosts()` is the range FirstHost..LastHost: all but the network
   * and broadcast addresses, both addresses of a /31, the one of a /32.
   */
  function FirstHost(net: Network): nat
    requires ValidNetwork(net)
  {
    if net.prefix >= 31 then net.base else net.base + 1
  }

  function LastHost(net: Network): (last: nat)
    requires ValidNetwork(net)
    ensures last < AddressSpace
  {
    if net.prefix >= 31 then Broadcast(net) else Broadcast(net) - 1
  }

  predicate IsHost(a: nat, net: Network)
    requires ValidNetwork(net)
  {
    FirstHost(net) <= a <= LastHost(net)
  }

  /** Every host lies in the network; for a prefix of at most 30, strictly between its network and broadcast addresses. */
  lemma HostInNetwork(a: nat, net: Network)
    requires ValidNetwork(net) && IsHost(a, net)
    ensures InNetwork(a, net)
    ensures net.prefix <= 30 ==> net.base < a < Broadcast(net)
  {
    if net.prefix <= 30 {
      Pow2AtLeast4(32 - net.prefix);
    }
  }

  // ----------------------------------------------------------- allocation

  /** `set(xs)`. */
  function ElemsOf(xs: seq<string>): (r: set<string>)
    ensures forall x :: x in r <==> x in xs
  {
    if xs == [] then {} else {xs[0]} + ElemsOf(xs[1..])
  }

  /** The allocated addresses together with the server's (the set built before the search). */
  function Reserved(serverIp: string, inUse: seq<string>): (r: set<string>)
    ensures forall x :: x in r <==> x == serverIp || x in inUse
  {
    ElemsOf(inUse) + {serverIp}
  }

  /** The first address of lo..hi whose text is not reserved. */
  function FirstFreeFrom(lo: nat, hi: nat, reserved: set<string>): (r: Option<nat>)
    requires hi < AddressSpace
    ensures r.Some? ==> lo <= r.value <= hi && FormatIPv4(r.value) !in reserved
    ensures r.Some? ==> forall b :: lo <= b < r.value ==> FormatIPv4(b) in reserved
    ensures r.None? ==> forall b :: lo <= b <= hi ==> FormatIPv4(b) in reserved
    decreases hi + 1 - lo
  {
    if lo > hi then None
    else if FormatIPv4(lo) !in reserved then Some(lo)
    else FirstFreeFrom(lo + 1, hi, reserved)
  }

  /** A free address with every lower one in range taken is the first free one. */
  lemma {:induction false} FirstFreeIsFirst(lo: nat, hi: nat, reserved: set<string>, a: nat)
    requires lo <= a <= hi < AddressSpace && FormatIPv4(a) !in reserved
    requires forall b :: lo <= b < a ==> FormatIPv4(b) in reserved
    ensures FirstFreeFrom(lo, hi, reserved) == Some(a)
    decreases a - lo
  {
    if lo < a {
      assert FormatIPv4(lo) in reserved;
      FirstFreeIsFirst(lo + 1, hi, reserved, a);
      assert FirstFreeFrom(lo, hi, reserved) == FirstFreeFrom(lo + 1, hi, reserved);
    }
  }

  /** With every address in range taken there is no free one. */
  lemma {:induction false} FirstFreeNone(lo: nat, hi: nat, reserved: set<string>)
    requires hi < AddressSpace
    requires forall b :: lo <= b <= hi ==> FormatIPv4(b) in reserved
    ensures FirstFreeFrom(lo, hi, reserved) == None
    decreases hi + 1 - lo
  {
    if lo <= hi {
      assert FormatIPv4(lo) in reserved;
      FirstFreeNone(lo + 1, hi, reserved);
    }
  }

  /**
   * The address the allocator hands out: a host of the subnet, neither the
   * server's nor allocated, with every lower host taken; `None` when every
   * host is taken.
   */
  function NextAvailable(net: Network, serverIp: string, inUse: seq<string>): (r: Option<nat>)
    requires ValidNetwork(net)
    ensures r.Some? ==> IsHost(r.value, net)
    ensures r.Some? ==> FormatIPv4(r.value) != serverIp && FormatIPv4(r.value) !in inUse
    ensures r.Some? ==> forall b :: FirstHost(net) <= b < r.value ==> FormatIPv4(b) == serverIp || FormatIPv4(b) in inUse
    ensures r.None? ==> forall b :: IsHost(b, net) ==> FormatIPv4(b) == serverIp || FormatIPv4(b) in inUse
  {
    FirstFreeFrom(FirstHost(net), LastHost(net), Reserved(serverIp, inUse))
  }

  /**
   * `get_next_available_ip`: collects the allocated addresses and the
   * server's into a set, then walks the hosts upwards and returns the first
   * one not in it, or fails with "No available IPs in subnet".
   */
  method GetNextAvailableIp(net: Network, serverIp: string, inUse: seq<string>) returns (r: Result<string>)
    requires ValidNetwork(net)
    ensures NextAvailable(net, serverIp, inUse).Some? ==> r == Ok(FormatIPv4(NextAvailable(net, serverIp, inUse).value))
    ensures NextAvailable(net, serverIp, inUse).None? ==> r == Err("No available IPs in subnet")
  {
    var reserved := ElemsOf(inUse);
    reserved := reserved + {serverIp};
    var lo, hi := FirstHost(net), LastHost(net);
    var a := lo;
    while a <= hi
      invariant lo <= a && (a <= hi + 1 || a == lo)
      invariant forall b :: lo <= b < a ==> FormatIPv4(b) in reserved
      decreases hi + 1 - a
    {
      var text := FormatIPv4(a);
      if text !in reserved {
        FirstFreeIsFirst(lo, hi, reserved, a);
        return Ok(text);
      }
      a := a + 1;
    }
    FirstFreeNone(lo, hi, reserved);
    return Err("No available IPs in subnet");
  }

  /** Recording the handed-out address makes the next allocation strictly larger, or exhausts the subnet. */
  lemma NextAllocationIsLarger(net: Network, serverIp: string, inUse: seq<string>)
    requires ValidNetwork(net) && NextAvailable(net, serverIp, inUse).Some?
    ensures var a := NextAvailable(net, serverIp, inUse).value;
            var next := NextAvailable(net, serverIp, inUse + [FormatIPv4(a)]);
            next.None? || next.value > a
  {
    var a := NextAvailable(net, serverIp, inUse).value;
    var more := inUse + [FormatIPv4(a)];
    var next := NextAvailable(net, serverIp, more);
    if next.Some? {
      var b := next.value;
      assert FormatIPv4(b) !in inUse && FormatIPv4(b) != serverIp;
      assert b != a by { assert FormatIPv4(a) in more; }
    }
  }

  /** `is_ip_available`: not the server's address and not in the allocated list. */
  function IsIpAvailable(ip: string, serverIp: string, inUse: seq<string>): (ok: bool)
    ensures ok ==> ip !in Reserved(serverIp, inUse)
    ensures !ok ==> ip in Reserved(serverIp, inUse)
  {
    if ip == serverIp then false else ip !in inUse
  }

  /** The allocator only hands out addresses that `is_ip_available` accepts. */
  lemma AllocatedIsAvailable(net: Network, serverIp: string, inUse: seq<string>)
    requires ValidNetwork(net) && NextAvailable(net, serverIp, inUse).Some?
    ensures IsIpAvailable(FormatIPv4(NextAvailable(net, serverIp, inUse).value), serverIp, inUse)
  {
  }

  /**
   * `validate_ip_in_subnet`: the text parses as an address and that address
   * is in the subnet. Both parses sit inside one `try`, so a subnet with host
   * bits set (where `IPv4Network` raises) makes every address invalid.
   */
  function ValidateIpInSubnet(ip: string, net: Network): (ok: bool)
    ensures !ValidNetwork(net) ==> !ok
    ensures ok ==> ValidNetwork(net) && ParseIPv4(ip).Some? && FormatIPv4(ParseIPv4(ip).value) == ip && InNetwork(ParseIPv4(ip).value, net)
  {
    match ParseIPv4(ip)
    case None => false
    case Some(a) =>
      FormatParse(ip);
      ValidNetwork(net) && InNetwork(a, net)
  }

  /** A formatted address validates exactly when it lies in the subnet, network and broadcast included. */
  lemma ValidateFormatted(a: nat, net: Network)
    requires ValidNetwork(net) && a < AddressSpace
    ensures ValidateIpInSubnet(FormatIPv4(a), net) <==> InNetwork(a, net)
  {
    ParseFormat(a);
  }

  /** Text that is not a canonical dotted quad never validates. */
  lemma ValidateRejectsNonCanonical(ip: string, net: Network)
    requires forall a: nat :: a < AddressSpace ==> FormatIPv4(a) != ip
    ensures !ValidateIpInSubnet(ip, net)
  {
  }

  /**
   * The registry after a device row holding `ip` is deleted. `release_ip`
   * itself does nothing: deleting the row is what frees the address.
   */
  function DeleteDeviceRow(inUse: seq<string>, ip: string): (r: seq<string>)
    ensures forall x :: x in r <==> x in inUse && x != ip
    ensures |r| <= |inUse|
  {
    if inUse == [] then []
    else if inUse[0] == ip then DeleteDeviceRow(inUse[1..], ip)
    else [inUse[0]] + DeleteDeviceRow(inUse[1..], ip)
  }

  /** After release the address is available again, unless it is the server's; nothing else is freed. */
  lemma ReleaseMakesAvailable(inUse: seq<string>, ip: string, serverIp: string, other: string)
    requires ip != serverIp && other != ip
    ensures IsIpAvailable(ip, serverIp, DeleteDeviceRow(inUse, ip))
    ensures IsIpAvailable(other, serverIp, DeleteDeviceRow(inUse, ip)) == IsIpAvailable(other, serverIp, inUse)
  {
  }

  // -------------------------------------------------------------- counters

  /** The dictionary `get_subnet_info` returns. */
  datatype SubnetInfo = SubnetInfo(
    subnet: string, serverIp: string,
    totalIps: int, allocatedCount: int, available: int,
    allocatedIps: seq<string>)

  /**
   * `get_subnet_info`: the address count less network and broadcast, the
   * allocated count plus one for the server, their difference, and the
   * allocated addresses with the server's sorted as strings.
   */
  function GetSubnetInfo(subnet: string, net: Network, serverIp: string, inUse: seq<string>): (info: SubnetInfo)
    requires ValidNetwork(net)
    ensures info.totalIps == Size(net) - 2 && info.allocatedCount == |inUse| + 1
    ensures info.available + info.allocatedCount == info.totalIps
    ensures SortedText(info.allocatedIps) && multiset(info.allocatedIps) == multiset(inUse + [serverIp])
    ensures info.subnet == subnet && info.serverIp == serverIp
  {
    var total := Size(net) - 2;
    var count := |inUse| + 1;
    SubnetInfo(subnet, serverIp, total, count, total - count, SortText(inUse + [serverIp]))
  }

  /** No address listed twice. */
  predicate Distinct(xs: seq<string>) {
    forall i, j :: 0 <= i < j < |xs| ==> xs[i] != xs[j]
  }

  lemma {:induction false} DistinctElems(xs: seq<string>)
    requires Distinct(xs)
    ensures |ElemsOf(xs)| == |xs|
  {
    if xs != [] {
      assert Distinct(xs[1..]) by {
        forall i, j | 0 <= i < j < |xs| - 1 ensures xs[1..][i] != xs[1..][j] {
          assert xs[1..][i] == xs[i + 1] && xs[1..][j] == xs[j + 1];
        }
      }
      DistinctElems(xs[1..]);
      assert xs[0] !in xs[1..] by {
        forall j | 0 <= j < |xs| - 1 ensures xs[1..][j] != xs[0] {
          assert xs[1..][j] == xs[j + 1];
        }
      }
    }
  }

  /** The texts of the addresses lo..hi. */
  ghost function HostTexts(lo: nat, hi: nat): set<string>
    requires hi < AddressSpace
    decreases hi + 1 - lo
  {
    if lo > hi then {} else {FormatIPv4(lo)} + HostTexts(lo + 1, hi)
  }

  /** Every address of lo..hi has its text in the set. */
  lemma {:induction false} HostTextsHas(lo: nat, hi: nat, a: nat)
    requires lo <= a <= hi < AddressSpace
    ensures FormatIPv4(a) in HostTexts(lo, hi)
    decreases a - lo
  {
    if lo < a {
      HostTextsHas(lo + 1, hi, a);
    }
  }

  /** Every text in the set is the text of an address of lo..hi. */
  lemma {:induction false} HostTextsWitness(lo: nat, hi: nat, s: string) returns (a: nat)
    requires hi < AddressSpace && s in HostTexts(lo, hi)
    ensures lo <= a <= hi && s == FormatIPv4(a)
    decreases hi + 1 - lo
  {
    if s == FormatIPv4(lo) {
      a := lo;
    } else {
      a := HostTextsWitness(lo + 1, hi, s);
    }
  }

  lemma {:induction false} HostTextsCount(lo: nat, hi: nat)
    requires lo <= hi + 1 && hi < AddressSpace
    ensures |HostTexts(lo, hi)| == hi + 1 - lo
    decreases hi + 1 - lo
  {
    if lo <= hi {
      HostTextsCount(lo + 1, hi);
      LowestNotAbove(lo, hi);
      AddNewText(FormatIPv4(lo), HostTexts(lo + 1, hi));
    }
  }

  lemma AddNewText(t: string, h: set<string>)
    requires t !in h
    ensures |{t} + h| == |h| + 1
  {
    assert ({t} + h) - {t} == h;
  }

  /** The text of the lowest address is not the text of a higher one. */
  lemma LowestNotAbove(lo: nat, hi: nat)
    requires lo <= hi < AddressSpace
    ensures FormatIPv4(lo) !in HostTexts(lo + 1, hi)
  {
    if FormatIPv4(lo) in HostTexts(lo + 1, hi) {
      var a := HostTextsWitness(lo + 1, hi, FormatIPv4(lo));
      FormatInjective(lo, a);
    }
  }

  /**
   * A registry as the rest of the system keeps it: the server's address and
   * the allocated ones are distinct hosts of the subnet.
   */
  ghost predicate ConsistentRegistry(net: Network, serverIp: string, inUse: seq<string>)
    requires ValidNetwork(net)
  {
    Distinct(inUse + [serverIp])
    && forall x :: x in inUse + [serverIp] ==> exists a :: IsHost(a, net) && x == FormatIPv4(a)
  }

  lemma SubsetCount(h: set<string>, r: set<string>)
    requires r <= h
    ensures |h - r| == |h| - |r|
    ensures h <= r <==> |h - r| == 0
  {
    assert h == (h - r) + r;
    if |h - r| == 0 {
      assert h - r == {};
    }
  }

  /** The reserved set of a consistent registry has one member per entry. */
  lemma ReservedCount(serverIp: string, inUse: seq<string>)
    requires Distinct(inUse + [serverIp])
    ensures |Reserved(serverIp, inUse)| == |inUse| + 1
  {
    DistinctElems(inUse + [serverIp]);
    assert ElemsOf(inUse + [serverIp]) == Reserved(serverIp, inUse);
  }

  lemma ReservedAreHosts(net: Network, serverIp: string, inUse: seq<string>)
    requires ValidNetwork(net) && ConsistentRegistry(net, serverIp, inUse)
    ensures Reserved(serverIp, inUse) <= HostTexts(FirstHost(net), LastHost(net))
  {
    forall x | x in Reserved(serverIp, inUse) ensures x in HostTexts(FirstHost(net), LastHost(net)) {
      assert x in inUse + [serverIp];
      var a :| IsHost(a, net) && x == FormatIPv4(a);
      HostTextsHas(FirstHost(net), LastHost(net), a);
    }
  }

  /** The allocator fails exactly when every host text is reserved. */
  lemma ExhaustedIffAllReserved(net: Network, serverIp: string, inUse: seq<string>)
    requires ValidNetwork(net)
    ensures NextAvailable(net, serverIp, inUse).None? <==> HostTexts(FirstHost(net), LastHost(net)) <= Reserved(serverIp, inUse)
  {
    var h := HostTexts(FirstHost(net), LastHost(net));
    if NextAvailable(net, serverIp, inUse).Some? {
      var a := NextAvailable(net, serverIp, inUse).value;
      HostTextsHas(FirstHost(net), LastHost(net), a);
    } else {
      forall x | x in h ensures x in Reserved(serverIp, inUse) {
        var a := HostTextsWitness(FirstHost(net), LastHost(net), x);
      }
    }
  }

  /**
   * For a subnet of prefix at most 30 and a consistent registry, the
   * `available` counter is the number of hosts still free, and the
   * allocator fails exactly when that counter is zero.
   */
  lemma AvailableCountsFreeHosts(subnet: string, net: Network, serverIp: string, inUse: seq<string>)
    requires ValidNetwork(net) && net.prefix <= 30
    requires ConsistentRegistry(net, serverIp, inUse)
    ensures var h := HostTexts(FirstHost(net), LastHost(net));
            GetSubnetInfo(subnet, net, serverIp, inUse).available == |h - Reserved(serverIp, inUse)|
    ensures NextAvailable(net, serverIp, inUse).None? <==> GetSubnetInfo(subnet, net, serverIp, inUse).available == 0
  {
    Pow2AtLeast4(32 - net.prefix);
    var h := HostTexts(FirstHost(net), LastHost(net));
    var r := Reserved(serverIp, inUse);
    HostTextsCount(FirstHost(net), LastHost(net));
    ReservedCount(serverIp, inUse);
    ReservedAreHosts(net, serverIp, inUse);
    ExhaustedIffAllReserved(net, serverIp, inUse);
    SubsetCount(h, r);
  }
}
