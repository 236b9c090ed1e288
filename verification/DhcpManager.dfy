/**
 The DHCP compiler: which segments get a subnet, where the default pool lies, and which
 devices each subnet reserves.
 */
module Dhcp {
  import opened Ipv4
  import opened RouterConfig
  import opened Strings

  datatype Pool =
    | CustomPool(first: string, last: string)
    | DefaultPool(start: Address, end: Address)

  datatype Reservation = Reservation(mac: Mac, ip: Address)

  datatype Subnet = Subnet(
    id: nat,
    block: Cidr,
    pool: Pool,
    iface: string,
    routers: string,
    dnsServers: string,
    reservations: seq<Reservation>)

  datatype KeaConfig = KeaConfig(interfaces: seq<string>, subnets: seq<Subnet>)

  // ---------- pools ----------

  /** Usable hosts: all addresses of a /31 or /32, otherwise without the first and last. */
  function HostCount(prefix: PrefixLength): (n: nat)
    ensures n > 0
  {
    if prefix == 32 then 1
    else if prefix == 31 then 2
    else
      Pow2Monotone(2, 32 - prefix);
      PowersOfTwo();
      BlockSize(prefix) - 2
  }

  function HostOffset(prefix: PrefixLength): nat {
    if prefix >= 31 then 0 else 1
  }

  predicate UsableHost(c: Cidr, a: int) {
    var first := NetworkAddress(c) + HostOffset(c.prefix);
    first <= a < first + HostCount(c.prefix)
  }

  lemma UsableHostsInBlock(c: Cidr)
    ensures HostOffset(c.prefix) + HostCount(c.prefix) <= BlockSize(c.prefix)
    ensures forall a :: UsableHost(c, a) ==> 0 <= a < ADDRESS_SPACE && Contains(c, a)
  {
    PowersOfTwo();
    BlockFits(c);
    forall a | UsableHost(c, a)
      ensures 0 <= a < ADDRESS_SPACE && Contains(c, a)
    {
      ContainsIsInterval(c, a);
    }
  }

  /** Usable are all addresses of the block, without its first and last if it has more than
      two. */
  lemma UsableHostExactly(c: Cidr, a: Address)
    ensures UsableHost(c, a) <==>
            && Contains(c, a)
            && (c.prefix <= 30 ==> a != NetworkAddress(c) && a != NetworkAddress(c) + Pow2(32 - c.prefix) - 1)
  {
    ContainsIsInterval(c, a);
    PowersOfTwo();
  }

  /** hosts[i] of the block. */
  function NthHost(c: Cidr, i: nat): (r: Address)
    requires i < HostCount(c.prefix)
    ensures UsableHost(c, r)
  {
    UsableHostsInBlock(c);
    BlockFits(c);
    NetworkAddress(c) + HostOffset(c.prefix) + i
  }

  function FixedPool(c: Cidr): Pool {
    DefaultPool(WithLastOctet(NetworkAddress(c), 100), WithLastOctet(NetworkAddress(c), 250))
  }

  /** The default pool of a bridge. */
  function BridgePool(c: Cidr): Pool {
    var n := HostCount(c.prefix);
    if n > 200 then FixedPool(c)
    else DefaultPool(NthHost(c, if 5 < n - 1 then 5 else n - 1), NthHost(c, n - 1))
  }

  lemma MoreThan200Hosts(prefix: PrefixLength)
    ensures HostCount(prefix) > 200 <==> prefix <= 24
  {
    PowersOfTwo();
    if prefix <= 24 {
      Pow2Monotone(8, 32 - prefix);
    } else if prefix <= 30 {
      Pow2Monotone(32 - prefix, 7);
    }
  }

  lemma NetworkIsOctetAligned(c: Cidr)
    requires c.prefix <= 24
    ensures NetworkAddress(c) % 256 == 0 && BlockSize(c.prefix) >= 256
  {
    Pow2Sum(24 - c.prefix, 8);
    PowersOfTwo();
    Pow2Monotone(8, 32 - c.prefix);
    MultipleOf256(BlockIndex(c.ip, c.prefix), Pow2(24 - c.prefix), BlockSize(c.prefix));
  }

  lemma MultipleOf256(q: int, k: int, n: int)
    requires n == k * 256
    ensures (q * n) % 256 == 0
  {
    assert q * n == (q * k) * 256;
  }

  /** The bridge's default pool is ordered and made of usable hosts of its subnet. */
  lemma BridgePoolIsUsable(c: Cidr)
    ensures BridgePool(c).start <= BridgePool(c).end
    ensures UsableHost(c, BridgePool(c).start) && UsableHost(c, BridgePool(c).end)
    ensures Contains(c, BridgePool(c).start) && Contains(c, BridgePool(c).end)
  {
    MoreThan200Hosts(c.prefix);
    UsableHostsInBlock(c);
    if c.prefix <= 24 {
      NetworkIsOctetAligned(c);
    }
  }

  predicate PoolInside(c: Cidr, pool: Pool) {
    pool.DefaultPool? ==>
      forall a: Address :: pool.start <= a <= pool.end ==> Contains(c, a)
  }

  /** The VLAN's fixed pool lies inside its subnet exactly for prefixes up to 24. */
  lemma FixedPoolFits(c: Cidr)
    ensures PoolInside(c, FixedPool(c)) <==> c.prefix <= 24
  {
    var pool := FixedPool(c);
    if c.prefix <= 24 {
      NetworkIsOctetAligned(c);
      forall a: Address | pool.start <= a <= pool.end
        ensures Contains(c, a)
      {
        ContainsIsInterval(c, a);
      }
    } else {
      PowersOfTwo();
      CoarserIndex(pool.start, 25, c.prefix);
      CoarserIndex(pool.end, 25, c.prefix);
      QuotientUnique(pool.start, 128, 2 * (NetworkAddress(c) / 256));
      QuotientUnique(pool.end, 128, 2 * (NetworkAddress(c) / 256) + 1);
      assert BlockIndex(pool.start, 25) != BlockIndex(pool.end, 25);
      assert !(Contains(c, pool.start) && Contains(c, pool.end));
    }
  }

  // ---------- what one segment becomes ----------

  predicate HasSubnet(s: Segment) {
    s.dhcpEnabled && s.address.Block?
  }

  /** The segments that get a subnet, in order. */
  function Served(segments: seq<Segment>): (r: seq<Segment>)
    ensures forall s <- r :: s in segments && HasSubnet(s)
  {
    if segments == [] then []
    else
      var earlier, last := Served(segments[..|segments| - 1]), segments[|segments| - 1];
      if HasSubnet(last) then earlier + [last] else earlier
  }

  /** The resolver advertised to clients of a segment whose own address is localIp. */
  function ResolveDnsServers(c: Config, localDns: bool, localIp: string): string {
    if localDns then localIp
    else if c.forwarders != [] then Join(c.forwarders, ", ")
    else localIp
  }

  predicate Reserves(block: Cidr, d: Device) {
    d.staticIp.StaticIp? && Contains(block, d.staticIp.ip)
  }

  /** The devices whose static address the block contains, in device order. */
  function ReservationsIn(devices: seq<Device>, block: Cidr): seq<Reservation> {
    if devices == [] then []
    else
      var earlier, d := ReservationsIn(devices[..|devices| - 1], block), devices[|devices| - 1];
      if Reserves(block, d) then earlier + [Reservation(d.mac, d.staticIp.ip)] else earlier
  }

  /** The subnet is the one this segment asks for. */
  predicate Describes(c: Config, localDns: bool, isBridge: bool, s: Segment, sub: Subnet) {
    && HasSubnet(s)
    && sub.block == Cidr(NetworkAddress(s.address.cidr), s.address.cidr.prefix)
    && sub.iface == s.name
    && sub.routers == s.address.text
    && sub.dnsServers == ResolveDnsServers(c, localDns, s.address.text)
    && sub.pool == (if s.poolStart != "" && s.poolEnd != "" then CustomPool(s.poolStart, s.poolEnd)
                    else if isBridge then BridgePool(sub.block)
                    else FixedPool(sub.block))
    && sub.reservations == ReservationsIn(c.devices, sub.block)
  }

  /** Numbered from firstId, one subnet per served segment, in order. */
  predicate Compiles(c: Config, localDns: bool, isBridge: bool, segments: seq<Segment>, firstId: nat,
                     subnets: seq<Subnet>) {
    && |subnets| == |Served(segments)|
    && forall i :: 0 <= i < |subnets| ==>
         subnets[i].id == firstId + i && Describes(c, localDns, isBridge, Served(segments)[i], subnets[i])
  }

  function EnabledNames(segments: seq<Segment>): seq<string> {
    if segments == [] then []
    else
      var earlier, last := EnabledNames(segments[..|segments| - 1]), segments[|segments| - 1];
      if last.dhcpEnabled then earlier + [last.name] else earlier
  }

  method GatherReservations(devices: seq<Device>, block: Cidr) returns (rs: seq<Reservation>)
    ensures rs == ReservationsIn(devices, block)
  {
    rs := [];
    for k := 0 to |devices|
      invariant rs == ReservationsIn(devices[..k], block)
    {
      assert devices[..k + 1][..k] == devices[..k];
      if devices[k].staticIp.StaticIp? && Contains(block, devices[k].staticIp.ip) {
        rs := rs + [Reservation(devices[k].mac, devices[k].staticIp.ip)];
      }
    }
    assert devices[..|devices|] == devices;
  }

  /** One of the two loops of the compiler. A segment with a malformed address is listed as
      an interface but takes neither a subnet nor an id. */
  method GatherSubnets(c: Config, localDns: bool, isBridge: bool, segments: seq<Segment>, firstId: nat)
    returns (interfaces: seq<string>, subnets: seq<Subnet>, nextId: nat)
    ensures interfaces == EnabledNames(segments)
    ensures Compiles(c, localDns, isBridge, segments, firstId, subnets)
    ensures nextId == firstId + |subnets|
  {
    interfaces, subnets, nextId := [], [], firstId;
    for k := 0 to |segments|
      invariant interfaces == EnabledNames(segments[..k])
      invariant Compiles(c, localDns, isBridge, segments[..k], firstId, subnets)
      invariant nextId == firstId + |subnets|
    {
      var s := segments[k];
      assert segments[..k + 1][..k] == segments[..k];
      if s.dhcpEnabled {
        interfaces := interfaces + [s.name];
        if s.address.Block? {
          var block := Cidr(NetworkAddress(s.address.cidr), s.address.cidr.prefix);
          var pool;
          if s.poolStart != "" && s.poolEnd != "" {
            pool := CustomPool(s.poolStart, s.poolEnd);
          } else if isBridge {
            pool := BridgePool(block);
          } else {
            pool := FixedPool(block);
          }
          var reservations := GatherReservations(c.devices, block);
          subnets := subnets + [Subnet(nextId, block, pool, s.name, s.address.text,
                                       ResolveDnsServers(c, localDns, s.address.text), reservations)];
          nextId := nextId + 1;
        }
      }
    }
    assert segments[..|segments|] == segments;
  }

  /** One subnet per served bridge, then one per served VLAN, numbered throughout. */
  predicate Compiled(c: Config, localDns: bool, kea: KeaConfig) {
    && |kea.subnets| == |Served(c.bridges)| + |Served(c.vlans)|
    && Compiles(c, localDns, true, c.bridges, 1, kea.subnets[..|Served(c.bridges)|])
    && Compiles(c, localDns, false, c.vlans, 1 + |Served(c.bridges)|, kea.subnets[|Served(c.bridges)|..])
  }

  method CompileKeaConfig(c: Config, localDns: bool) returns (kea: KeaConfig)
    ensures kea.interfaces == (if EnabledNames(c.bridges) + EnabledNames(c.vlans) == [] then ["*"]
                               else EnabledNames(c.bridges) + EnabledNames(c.vlans))
    ensures Compiled(c, localDns, kea)
  {
    var ifs, subs, next := GatherSubnets(c, localDns, true, c.bridges, 1);
    var ifs', subs', _ := GatherSubnets(c, localDns, false, c.vlans, next);
    var interfaces, subnets := ifs + ifs', subs + subs';
    assert subnets[..|subs|] == subs && subnets[|subs|..] == subs';
    kea := KeaConfig(if interfaces == [] then ["*"] else interfaces, subnets);
  }
}
