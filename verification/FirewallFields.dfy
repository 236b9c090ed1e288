/**
 What the emitted chains do, read off the configuration's own fields: which interface is the
 WAN, who is blocked and how it is logged, whom a segment or zone reaches, where name queries
 go, and what is masqueraded.
 */
module FirewallFields {
  import opened Wrappers
  import opened Ipv4
  import opened RouterConfig
  import opened Nftables
  import opened FirewallPolicy
  import opened PolicyRouting
  import opened Firewall
  import opened FirewallTheorems

  // ---------- the WAN interface ----------

  /** The WAN is the first interface with that role, or eth0 if there is none. */
  lemma {:induction false} WanIsFirst(interfaces: seq<Interface>)
    ensures forall i :: 0 <= i < |interfaces| && interfaces[i].role == WanRole
                        && (forall j :: 0 <= j < i ==> interfaces[j].role != WanRole) ==>
              WanInterface(interfaces) == interfaces[i].name
    ensures (forall i :: 0 <= i < |interfaces| ==> interfaces[i].role != WanRole) ==> WanInterface(interfaces) == "eth0"
  {
    if interfaces != [] && interfaces[0].role != WanRole {
      var rest := interfaces[1..];
      WanIsFirst(rest);
      forall i | 0 < i < |interfaces| && interfaces[i].role == WanRole
                 && (forall j :: 0 <= j < i ==> interfaces[j].role != WanRole)
        ensures WanInterface(interfaces) == interfaces[i].name
      {
        assert rest[i - 1] == interfaces[i];
        assert forall j :: 0 <= j < i - 1 ==> rest[j] == interfaces[j + 1];
      }
    }
  }

  // ---------- blocks ----------

  predicate InMacSet(sets: Sets, m: MacSet, p: Packet) {
    m in sets.macs && p.smac in sets.macs[m]
  }

  /** The destination lies in a block of the set, as an interval of addresses. */
  predicate SentToSet(sets: Sets, s: AddressSet, p: Packet) {
    && p.dst.Some? && s in sets.addresses
    && exists block <- sets.addresses[s] ::
         NetworkAddress(block) <= p.dst.value < NetworkAddress(block) + Pow2(32 - block.prefix)
  }

  lemma SentToSetExactly(sets: Sets, s: AddressSet, p: Packet)
    ensures SentToSet(sets, s, p) <==> AddressIn(sets, s, p.dst)
  {
    if p.dst.Some? && s in sets.addresses {
      forall block <- sets.addresses[s]
        ensures Contains(block, p.dst.value) <==>
                NetworkAddress(block) <= p.dst.value < NetworkAddress(block) + Pow2(32 - block.prefix)
      {
        ContainsIsInterval(block, p.dst.value);
      }
    }
  }

  predicate VpnTraffic(p: Packet) {
    || (p.proto == Udp && (|| p.dport == 500 || p.dport == 1194 || p.dport == 1701 || p.dport == 4500
                           || p.dport == 51820))
    || (p.proto == Tcp && (p.dport == 1194 || p.dport == 1723))
    || (p.dst.Some? && (p.proto == Esp || p.proto == Ah))
  }

  /** Why the emitted forward chain logs and drops a new packet: the first that applies of the
      sender's four blocks and the four traffic blocks, of which the last three need only their
      flags, and the last a configured address besides. */
  lemma DropsAreLogged(c: Config, rules: seq<Rule>, sets: Sets, p: Packet)
    requires MeansForward(rules, c) && !p.established
    ensures var toWan := p.oif == WanInterface(c.interfaces);
            var f := Eval(rules, sets, p);
            if InMacSet(sets, Quarantined, p) then f == Flow(Dropped, p.mark, ["Quarantined"])
            else if InMacSet(sets, ScheduleBlocked, p) && toWan then f == Flow(Dropped, p.mark, ["Schedule_Block"])
            else if InMacSet(sets, AdminBlocked, p) && toWan then f == Flow(Dropped, p.mark, ["Admin_Block"])
            else if InMacSet(sets, BlockedClients, p) then f == Flow(Dropped, p.mark, ["Blocked_Client"])
            else if c.blockDoh && SentToSet(sets, DohServers, p) && (p.proto == Tcp || p.proto == Udp) && p.dport == 443
            then f == Flow(Dropped, p.mark, ["DoH_Direct_IP"])
            else if c.blockQuic && p.proto == Udp && p.dport == 443 then f == Flow(Dropped, p.mark, ["QUIC_Drop"])
            else if c.blockVpns && VpnTraffic(p) then f == Flow(Dropped, p.mark, ["VPN_Protocol"])
            else if c.blockVpns && c.customVpnIps != [] && SentToSet(sets, VpnServers, p)
            then f == Flow(Dropped, p.mark, ["VPN_Endpoint"])
            else DropReason(c, sets, p) == None
                 && (f == Flow(Accepted, p.mark, []) || f == Flow(Undecided, p.mark, ["Default_Forward_Drop"]))
  {
    SentToSetExactly(sets, DohServers, p);
    SentToSetExactly(sets, VpnServers, p);
    assert Eval(rules, sets, p) == ForwardPolicy(c, sets, p);
  }

  lemma EstablishedPass(c: Config, rules: seq<Rule>, sets: Sets, p: Packet)
    requires MeansForward(rules, c) && p.established
    ensures Eval(rules, sets, p) == Flow(Accepted, p.mark, [])
  {
    assert Eval(rules, sets, p) == ForwardPolicy(c, sets, p);
  }

  // ---------- whom segments reach without zones ----------

  /** A new packet that no block drops, which DropsAreLogged spells out. */
  predicate NewAndUnblocked(c: Config, sets: Sets, p: Packet) {
    !p.established && DropReason(c, sets, p) == None
  }

  lemma FlatAcceptsExactly(c: Config, rules: seq<Rule>, sets: Sets, p: Packet)
    requires MeansForward(rules, c) && c.zones == [] && NewAndUnblocked(c, sets, p)
    ensures AcceptedBy(rules, sets, p) <==> FlatAllows(c, p.iif, p.oif)
  {
    assert Eval(rules, sets, p) == ForwardPolicy(c, sets, p);
  }

  /** From an interface whose segments are all isolated only the WAN is reached. */
  lemma GuestsReachOnlyTheWan(c: Config, rules: seq<Rule>, sets: Sets, p: Packet)
    requires MeansForward(rules, c) && c.zones == [] && NewAndUnblocked(c, sets, p)
    requires exists s <- c.bridges + c.vlans :: s.name == p.iif
    requires forall s <- c.bridges + c.vlans :: s.name == p.iif ==> s.isolate
    ensures AcceptedBy(rules, sets, p) <==> p.oif == WanInterface(c.interfaces)
  {
    FlatAcceptsExactly(c, rules, sets, p);
  }

  /** From an interface with a segment that is not isolated the WAN and the isolated segments
      are reached, and nothing else. */
  lemma LanReachesWanAndGuests(c: Config, rules: seq<Rule>, sets: Sets, p: Packet)
    requires MeansForward(rules, c) && c.zones == [] && NewAndUnblocked(c, sets, p)
    requires exists s <- c.bridges + c.vlans :: s.name == p.iif && !s.isolate
    ensures AcceptedBy(rules, sets, p) <==>
            p.oif == WanInterface(c.interfaces) || exists s <- c.bridges + c.vlans :: s.name == p.oif && s.isolate
  {
    FlatAcceptsExactly(c, rules, sets, p);
  }

  /** From an interface that is no segment nothing is reached. */
  lemma OthersReachNothing(c: Config, rules: seq<Rule>, sets: Sets, p: Packet)
    requires MeansForward(rules, c) && c.zones == [] && NewAndUnblocked(c, sets, p)
    requires forall s <- c.bridges + c.vlans :: s.name != p.iif
    ensures !AcceptedBy(rules, sets, p)
  {
    FlatAcceptsExactly(c, rules, sets, p);
  }

  // ---------- whom zones reach ----------

  /** The k-th zone is the last with that id. */
  predicate LastZone(zones: seq<Zone>, k: nat, id: string) {
    k < |zones| && zones[k].id == id && forall l :: k < l < |zones| ==> zones[l].id != id
  }

  lemma {:induction false} LastZoneCounts(zones: seq<Zone>, k: nat, id: string)
    requires LastZone(zones, k, id)
    ensures ZoneById(zones, id) == Some(zones[k])
  {
    if k < |zones| - 1 {
      LastZoneCounts(zones[..|zones| - 1], k, id);
    }
  }

  lemma {:induction false} ZoneFound(zones: seq<Zone>, id: string) returns (k: nat)
    requires ZoneById(zones, id).Some?
    ensures LastZone(zones, k, id) && ZoneById(zones, id) == Some(zones[k])
  {
    var n := |zones| - 1;
    if zones[n].id == id {
      k := n;
    } else {
      k := ZoneFound(zones[..n], id);
    }
  }

  /** The interface belongs to the last zone with that id. */
  predicate InZone(zones: seq<Zone>, id: string, oif: string) {
    exists k :: 0 <= k < |zones| && LastZone(zones, k, id) && oif in zones[k].interfaces
  }

  /** A zone that names destinations reaches these, the WAN only if it is named. */
  predicate NamedDestination(c: Config, z: Zone, oif: string) {
    exists d <- z.allowZones ::
      if d == "wan" then oif == WanInterface(c.interfaces) else InZone(c.zones, d, oif)
  }

  lemma InZoneExactly(c: Config, d: string, oif: string)
    requires d != "wan"
    ensures InZone(c.zones, d, oif) <==> DestinationReaches(c, d, oif)
  {
    if ZoneById(c.zones, d).Some? {
      var k := ZoneFound(c.zones, d);
    }
    forall k: nat | LastZone(c.zones, k, d)
      ensures ZoneById(c.zones, d) == Some(c.zones[k])
    {
      LastZoneCounts(c.zones, k, d);
    }
  }

  lemma NamedDestinationExactly(c: Config, z: Zone, oif: string)
    ensures NamedDestination(c, z, oif) <==> exists d <- z.allowZones :: DestinationReaches(c, d, oif)
  {
    forall d <- z.allowZones | d != "wan"
      ensures InZone(c.zones, d, oif) <==> DestinationReaches(c, d, oif)
    {
      InZoneExactly(c, d, oif);
    }
  }

  /** With zones a new packet passes exactly if some zone other than "wan" has its incoming
      interface and either names a destination with the outgoing one, or names none and the
      packet goes to the WAN or, if the zone is not isolated, to another bridge or VLAN. */
  lemma ZonesAcceptExactly(c: Config, rules: seq<Rule>, sets: Sets, p: Packet)
    requires MeansForward(rules, c) && c.zones != [] && NewAndUnblocked(c, sets, p)
    ensures AcceptedBy(rules, sets, p) <==>
            exists z <- c.zones ::
              && z.id != "wan" && p.iif in z.interfaces
              && (if z.allowZones != [] then NamedDestination(c, z, p.oif)
                  else || p.oif == WanInterface(c.interfaces)
                       || (!z.isolate && p.oif != p.iif && exists s <- c.bridges + c.vlans :: s.name == p.oif))
  {
    assert Eval(rules, sets, p) == ForwardPolicy(c, sets, p);
    forall z <- c.zones
      ensures NamedDestination(c, z, p.oif) <==> exists d <- z.allowZones :: DestinationReaches(c, d, p.oif)
    {
      NamedDestinationExactly(c, z, p.oif);
    }
  }

  /** Isolated zones without named destinations reach only the WAN. */
  lemma IsolatedZonesReachOnlyTheWan(c: Config, rules: seq<Rule>, sets: Sets, p: Packet)
    requires MeansForward(rules, c) && c.zones != [] && NewAndUnblocked(c, sets, p)
    requires exists z <- c.zones :: z.id != "wan" && p.iif in z.interfaces
    requires forall z <- c.zones :: z.id != "wan" && p.iif in z.interfaces ==> z.isolate && z.allowZones == []
    ensures AcceptedBy(rules, sets, p) <==> p.oif == WanInterface(c.interfaces)
  {
    ZonesAcceptExactly(c, rules, sets, p);
  }

  /** A zone that is neither isolated nor names destinations reaches every other segment too. */
  lemma OpenZonesReachEverySegment(c: Config, rules: seq<Rule>, sets: Sets, p: Packet, z: Zone)
    requires MeansForward(rules, c) && NewAndUnblocked(c, sets, p)
    requires z in c.zones && z.id != "wan" && p.iif in z.interfaces && !z.isolate && z.allowZones == []
    requires || p.oif == WanInterface(c.interfaces)
             || (p.oif != p.iif && exists s <- c.bridges + c.vlans :: s.name == p.oif)
    ensures AcceptedBy(rules, sets, p)
  {
    ZonesAcceptExactly(c, rules, sets, p);
  }

  // ---------- name queries, port 853, masquerading ----------

  predicate NameQuery(p: Packet) {
    (p.proto == Tcp || p.proto == Udp) && p.dport == 53
  }

  predicate ArrivesOnSegment(c: Config, p: Packet) {
    exists s <- c.bridges + c.vlans :: s.name == p.iif
  }

  /** With a local resolver every name query of a segment goes to port 53 of the router, and
      DNS over TLS of a segment is dropped. */
  lemma LocalResolverAnswers(c: Config, rules: seq<Rule>, sets: Sets, p: Packet)
    requires MeansPrerouting(rules, c, true) && ArrivesOnSegment(c, p)
    ensures NameQuery(p) ==> Eval(rules, sets, p) == Flow(ToLocal(53), p.mark, [])
    ensures p.proto == Tcp && p.dport == 853 ==> Eval(rules, sets, p) == Flow(Dropped, p.mark, [])
  {
    assert Eval(rules, sets, p) == PreroutingPolicy(c, MarksOf(c.gateways), true, p);
  }

  /** Without one, exactly the name queries to a segment's own address go elsewhere: to the
      first forwarder, or 1.1.1.1. */
  lemma ForwarderAnswers(c: Config, rules: seq<Rule>, sets: Sets, p: Packet, s: Segment)
    requires MeansPrerouting(rules, c, false) && s in c.bridges + c.vlans && s.name == p.iif
    requires NameQuery(p) && s.address.Block? && p.dst == Some(s.address.cidr.ip)
    ensures Eval(rules, sets, p) ==
            Flow(ToHost(if c.forwarders == [] then "1.1.1.1" else c.forwarders[0], 53), p.mark, [])
  {
    assert Eval(rules, sets, p) == PreroutingPolicy(c, MarksOf(c.gateways), false, p);
  }

  /** Every other packet is left to the marks and port forwards: a packet from elsewhere, to
      another port, or without local resolver to an address that is no segment's own. */
  lemma OtherPacketsPass(c: Config, rules: seq<Rule>, localDns: bool, sets: Sets, p: Packet)
    requires MeansPrerouting(rules, c, localDns)
    requires || !ArrivesOnSegment(c, p)
             || (!NameQuery(p) && !(localDns && p.proto == Tcp && p.dport == 853))
             || (!localDns && forall s <- c.bridges + c.vlans ::
                   OwnAddress(s.address) == None || OwnAddress(s.address) != p.dst)
    ensures var f := Eval(rules, sets, p);
            f.logs == [] &&
            if p.iif != WanInterface(c.interfaces) then f.verdict == Undecided
            else match ForwardFor(c.portForwards, p)
                 case None => f.verdict == Undecided
                 case Some(pf) => f.verdict == ToHost(pf.internalIp, pf.internalPort)
  {
    assert Eval(rules, sets, p) == PreroutingPolicy(c, MarksOf(c.gateways), localDns, p);
  }

  /** The first forward listed for the packet's protocol and port is the one that counts. */
  lemma FirstForwardCounts(c: Config, p: Packet, i: nat)
    requires i < |c.portForwards| && c.portForwards[i].proto == p.proto && c.portForwards[i].externalPort == p.dport
    requires forall j :: 0 <= j < i ==> c.portForwards[j].proto != p.proto || c.portForwards[j].externalPort != p.dport
    ensures ForwardFor(c.portForwards, p) == Some(c.portForwards[i])
  {
    FirstForwardWins(c.portForwards, p, i);
  }

  /** A packet is masqueraded exactly if it leaves by the WAN or by the interface of a gateway
      other than "default". */
  lemma MasqueradesExactly(c: Config, rules: seq<Rule>, sets: Sets, p: Packet)
    requires MeansPostrouting(rules, c)
    ensures Eval(rules, sets, p).verdict == Masqueraded <==>
            || p.oif == WanInterface(c.interfaces)
            || exists g <- c.gateways :: g.id != "default" && g.iface == p.oif
    ensures Eval(rules, sets, p).verdict == Masqueraded || Eval(rules, sets, p).verdict == Undecided
  {
  }

  // ---------- gateways ----------

  /** A gateway id stands for the interface of its last entry. */
  lemma {:induction false} LastGatewayCounts(gws: seq<Gateway>, i: nat)
    requires i < |gws| && forall j :: i < j < |gws| ==> gws[j].id != gws[i].id
    ensures InterfaceOf(gws, gws[i].id) == Some(gws[i].iface)
  {
    if i < |gws| - 1 {
      LastGatewayCounts(gws[..|gws| - 1], i);
    }
  }

  /** Marks start at 100 and count on, skipping exactly the entries called "default". */
  lemma MarksCountUp(gws: seq<Gateway>, i: nat)
    requires i < |gws| && gws[i].id != "default"
    requires forall j :: i < j < |gws| ==> gws[j].id != gws[i].id
    ensures gws[i].id in MarksOf(gws)
    ensures i == 0 ==> MarksOf(gws)[gws[i].id] == 100
    ensures (forall g <- gws[..i] :: g.id != "default") ==> MarksOf(gws)[gws[i].id] == 100 + i
    ensures (forall g <- gws[..i] :: g.id == "default") ==> MarksOf(gws)[gws[i].id] == 100
  {
    MarkByPosition(gws, i);
    CountOfAll(gws[..i]);
  }

  lemma {:induction false} CountOfAll(gws: seq<Gateway>)
    ensures (forall g <- gws :: g.id != "default") ==> MarkedCount(gws) == |gws|
    ensures (forall g <- gws :: g.id == "default") ==> MarkedCount(gws) == 0
  {
    if gws != [] {
      var n := |gws| - 1;
      assert gws[n] in gws && forall g <- gws[..n] :: g in gws;
      CountOfAll(gws[..n]);
    }
  }

  // ---------- the default resolvers ----------

  /** Single addresses in hexadecimal, and then the upper 24 bits of networks. */
  const RESOLVERS: seq<int> :=
    [0x0101_0101, 0x0100_0001, 0xA29F_2401, 0xA29F_2E01, 0x0808_0808, 0x0808_0404, 0x0909_0909, 0x9570_7070,
     0xD043_DEDE, 0xD043_DCDC, 0x2D_5A1C, 0x2D_5A1E, 0xC2F2_0202, 0xC2F2_0203, 0xC2F2_0204, 0x4C_4C02, 0x4C_4C0A]

  /** Entries 10, 11, 15 and 16 are networks. */
  predicate IsNetworkEntry(i: nat) {
    i == 10 || i == 11 || i == 15 || i == 16
  }

  lemma HostContains(a: Octet, b: Octet, c: Octet, d: Octet, x: Address)
    ensures Contains(Host(a, b, c, d), x) <==> x == ((a * 256 + b) * 256 + c) * 256 + d
  {
    assert BlockSize(32) == 1;
  }

  lemma NetworkContains(a: Octet, b: Octet, c: Octet, x: Address)
    ensures Contains(Cidr(Octets(a, b, c, 0), 24), x) <==> x / 256 == (a * 256 + b) * 256 + c
  {
    PowersOfTwo();
  }

  lemma FirstResolvers(i: nat, x: Address)
    requires i < 8
    ensures Contains(DefaultDohServers()[i], x) <==> x == RESOLVERS[i]
  {
    match i {
      case 0 => HostContains(1, 1, 1, 1, x);
      case 1 => HostContains(1, 0, 0, 1, x);
      case 2 => HostContains(162, 159, 36, 1, x);
      case 3 => HostContains(162, 159, 46, 1, x);
      case 4 => HostContains(8, 8, 8, 8, x);
      case 5 => HostContains(8, 8, 4, 4, x);
      case 6 => HostContains(9, 9, 9, 9, x);
      case _ => HostContains(149, 112, 112, 112, x);
    }
  }

  lemma OtherResolvers(i: nat, x: Address)
    requires 8 <= i < 17 && !IsNetworkEntry(i)
    ensures Contains(DefaultDohServers()[i], x) <==> x == RESOLVERS[i]
  {
    match i {
      case 8 => HostContains(208, 67, 222, 222, x);
      case 9 => HostContains(208, 67, 220, 220, x);
      case 12 => HostContains(194, 242, 2, 2, x);
      case 13 => HostContains(194, 242, 2, 3, x);
      case _ => HostContains(194, 242, 2, 4, x);
    }
  }

  lemma ResolverNetworks(i: nat, x: Address)
    requires IsNetworkEntry(i)
    ensures Contains(DefaultDohServers()[i], x) <==> x / 256 == RESOLVERS[i]
  {
    match i {
      case 10 => NetworkContains(45, 90, 28, x);
      case 11 => NetworkContains(45, 90, 30, x);
      case 15 => NetworkContains(76, 76, 2, x);
      case _ => NetworkContains(76, 76, 10, x);
    }
  }

  /** The built-in list holds exactly these thirteen addresses and four /24 networks. */
  lemma DefaultResolversExactly(x: Address)
    ensures AnyContains(DefaultDohServers(), x) <==>
            exists i :: 0 <= i < 17 && (if IsNetworkEntry(i) then x / 256 == RESOLVERS[i] else x == RESOLVERS[i])
  {
    assert |DefaultDohServers()| == 17 == |RESOLVERS|;
    forall i | 0 <= i < 17
      ensures Contains(DefaultDohServers()[i], x) <==>
              if IsNetworkEntry(i) then x / 256 == RESOLVERS[i] else x == RESOLVERS[i]
    {
      if i < 8 {
        FirstResolvers(i, x);
      } else if IsNetworkEntry(i) {
        ResolverNetworks(i, x);
      } else {
        OtherResolvers(i, x);
      }
    }
  }
}
