/**
 The firewall compiler. It appends rules in nested loops; each method's contract says what
 the appended rules do to every packet, in the terms of FirewallPolicy.
 */
module Firewall {
  import opened Wrappers
  import opened Ipv4
  import opened RouterConfig
  import opened Nftables
  import opened FirewallPolicy
  import opened PolicyRouting

  // ---------- forward chain: the drops in front of the zone rules ----------

  function DropRule(matches: seq<Match>, reason: string): Rule {
    Rule(matches, Some(reason), Drop)
  }

  function MacRules(wan: string): seq<Rule> {
    [DropRule([EtherSaddrIn(Quarantined)], "Quarantined"),
     DropRule([EtherSaddrIn(ScheduleBlocked), OifName(wan)], "Schedule_Block"),
     DropRule([EtherSaddrIn(AdminBlocked), OifName(wan)], "Admin_Block"),
     DropRule([EtherSaddrIn(BlockedClients)], "Blocked_Client")]
  }

  function DohRules(): seq<Rule> {
    [DropRule([IpDaddrIn(DohServers), Dport(Tcp, {443})], "DoH_Direct_IP")] +
    [DropRule([IpDaddrIn(DohServers), Dport(Udp, {443})], "DoH_Direct_IP")]
  }

  function QuicRules(): seq<Rule> {
    [DropRule([Dport(Udp, {443})], "QUIC_Drop")]
  }

  function VpnProtocolRules(): seq<Rule> {
    [DropRule([Dport(Udp, {500, 1194, 1701, 4500, 51820})], "VPN_Protocol")] +
    ([DropRule([Dport(Tcp, {1194, 1723})], "VPN_Protocol")] +
     [DropRule([IpProtocol({Esp, Ah})], "VPN_Protocol")])
  }

  function VpnEndpointRules(): seq<Rule> {
    [DropRule([IpDaddrIn(VpnServers)], "VPN_Endpoint")]
  }

  /** What a list of drop rules does: nothing, or one logged drop. */
  function Drops(reason: Option<string>, p: Packet): Flow {
    if reason.Some? then Flow(Dropped, p.mark, [reason.value]) else Flow(Undecided, p.mark, [])
  }

  function FirstReason(a: Option<string>, b: Option<string>): Option<string> {
    if a.Some? then a else b
  }

  lemma DropsConcat(a: seq<Rule>, b: seq<Rule>, ra: Option<string>, rb: Option<string>, sets: Sets, p: Packet)
    requires Eval(a, sets, p) == Drops(ra, p) && Eval(b, sets, p) == Drops(rb, p)
    ensures Eval(a + b, sets, p) == Drops(FirstReason(ra, rb), p)
  {
    EvalConcat(a, b, sets, p);
    assert p.(mark := p.mark) == p;
    assert [] + Eval(b, sets, p).logs == Eval(b, sets, p).logs;
  }

  function Single(hit: bool, reason: string): Option<string> {
    if hit then Some(reason) else None
  }

  lemma MatchesOne(m: Match, reason: string, sets: Sets, p: Packet)
    ensures Matches(DropRule([m], reason), sets, p) <==> Hits(m, sets, p)
  {
    assert DropRule([m], reason).matches[0] == m;
  }

  lemma MatchesBoth(m: Match, n: Match, reason: string, sets: Sets, p: Packet)
    ensures Matches(DropRule([m, n], reason), sets, p) <==> Hits(m, sets, p) && Hits(n, sets, p)
  {
    var r := DropRule([m, n], reason);
    assert r.matches[0] == m && r.matches[1] == n;
  }

  /** A drop rule in front of a list of drops. */
  lemma DropsCons(r: Rule, reason: string, rest: seq<Rule>, later: Option<string>, sets: Sets, p: Packet)
    requires r.stmt == Drop && r.log == Some(reason)
    requires Eval(rest, sets, p) == Drops(later, p)
    ensures Eval([r] + rest, sets, p) == Drops(FirstReason(Single(Matches(r, sets, p), reason), later), p)
  {
    EvalSingleton(r, sets, p);
    DropsConcat([r], rest, Single(Matches(r, sets, p), reason), later, sets, p);
  }

  lemma MacRulesMean(c: Config, sets: Sets, p: Packet)
    ensures Eval(MacRules(Wan(c)), sets, p) == Drops(MacReason(c, sets, p), p)
  {
    var wan := Wan(c);
    var r3 := DropRule([EtherSaddrIn(BlockedClients)], "Blocked_Client");
    var r2 := DropRule([EtherSaddrIn(AdminBlocked), OifName(wan)], "Admin_Block");
    var r1 := DropRule([EtherSaddrIn(ScheduleBlocked), OifName(wan)], "Schedule_Block");
    var r0 := DropRule([EtherSaddrIn(Quarantined)], "Quarantined");
    MatchesOne(EtherSaddrIn(BlockedClients), "Blocked_Client", sets, p);
    MatchesBoth(EtherSaddrIn(AdminBlocked), OifName(wan), "Admin_Block", sets, p);
    MatchesBoth(EtherSaddrIn(ScheduleBlocked), OifName(wan), "Schedule_Block", sets, p);
    MatchesOne(EtherSaddrIn(Quarantined), "Quarantined", sets, p);
    var o3 := Single(MacIn(sets, BlockedClients, p.smac), "Blocked_Client");
    var o2 := FirstReason(Single(MacIn(sets, AdminBlocked, p.smac) && p.oif == wan, "Admin_Block"), o3);
    var o1 := FirstReason(Single(MacIn(sets, ScheduleBlocked, p.smac) && p.oif == wan, "Schedule_Block"), o2);
    DropsCons(r3, "Blocked_Client", [], None, sets, p);
    DropsCons(r2, "Admin_Block", [r3] + [], o3, sets, p);
    DropsCons(r1, "Schedule_Block", [r2] + ([r3] + []), o2, sets, p);
    DropsCons(r0, "Quarantined", [r1] + ([r2] + ([r3] + [])), o1, sets, p);
    assert MacRules(wan) == [r0] + ([r1] + ([r2] + ([r3] + [])));
  }

  lemma DohRulesMean(sets: Sets, p: Packet)
    ensures Eval(DohRules(), sets, p) ==
            Drops(Single(AddressIn(sets, DohServers, p.dst) && p.proto in {Tcp, Udp} && p.dport == 443,
                         "DoH_Direct_IP"), p)
  {
    var rs := DohRules();
    MatchesBoth(IpDaddrIn(DohServers), Dport(Tcp, {443}), "DoH_Direct_IP", sets, p);
    MatchesBoth(IpDaddrIn(DohServers), Dport(Udp, {443}), "DoH_Direct_IP", sets, p);
    DropsCons(rs[1], "DoH_Direct_IP", [], None, sets, p);
    assert [rs[1]] + [] == [rs[1]];
    DropsCons(rs[0], "DoH_Direct_IP", [rs[1]], Single(Matches(rs[1], sets, p), "DoH_Direct_IP"), sets, p);
  }

  lemma QuicRulesMean(sets: Sets, p: Packet)
    ensures Eval(QuicRules(), sets, p) == Drops(Single(p.proto == Udp && p.dport == 443, "QUIC_Drop"), p)
  {
    MatchesOne(Dport(Udp, {443}), "QUIC_Drop", sets, p);
    EvalSingleton(QuicRules()[0], sets, p);
  }

  lemma VpnProtocolRulesMean(sets: Sets, p: Packet)
    ensures Eval(VpnProtocolRules(), sets, p) ==
            Drops(Single(|| (p.proto == Udp && p.dport in VPN_UDP_PORTS)
                         || (p.proto == Tcp && p.dport in VPN_TCP_PORTS)
                         || (p.dst.Some? && p.proto in {Esp, Ah}), "VPN_Protocol"), p)
  {
    var rs := VpnProtocolRules();
    MatchesOne(Dport(Udp, {500, 1194, 1701, 4500, 51820}), "VPN_Protocol", sets, p);
    MatchesOne(Dport(Tcp, {1194, 1723}), "VPN_Protocol", sets, p);
    MatchesOne(IpProtocol({Esp, Ah}), "VPN_Protocol", sets, p);
    var m1, m2 := Matches(rs[1], sets, p), Matches(rs[2], sets, p);
    DropsCons(rs[2], "VPN_Protocol", [], None, sets, p);
    assert [rs[2]] + [] == [rs[2]];
    DropsCons(rs[1], "VPN_Protocol", [rs[2]], Single(m2, "VPN_Protocol"), sets, p);
    DropsCons(rs[0], "VPN_Protocol", [rs[1]] + [rs[2]],
              FirstReason(Single(m1, "VPN_Protocol"), Single(m2, "VPN_Protocol")), sets, p);
  }

  lemma VpnEndpointRulesMean(sets: Sets, p: Packet)
    ensures Eval(VpnEndpointRules(), sets, p) == Drops(Single(AddressIn(sets, VpnServers, p.dst), "VPN_Endpoint"), p)
  {
    MatchesOne(IpDaddrIn(VpnServers), "VPN_Endpoint", sets, p);
    EvalSingleton(VpnEndpointRules()[0], sets, p);
  }

  /** The blocks switched on by the anti-evasion flags, in order. */
  function EvasionRules(c: Config): seq<Rule> {
    (if c.blockDoh then DohRules() else []) +
    ((if c.blockQuic then QuicRules() else []) +
     ((if c.blockVpns then VpnProtocolRules() else []) +
      (if c.blockVpns && c.customVpnIps != [] then VpnEndpointRules() else [])))
  }

  function EvasionReason(c: Config, sets: Sets, p: Packet): Option<string> {
    FirstReason(Single(HitsDoh(c, sets, p), "DoH_Direct_IP"),
      FirstReason(Single(HitsQuic(c, p), "QUIC_Drop"),
        FirstReason(Single(HitsVpnProtocol(c, p), "VPN_Protocol"),
                    Single(HitsVpnEndpoint(c, sets, p), "VPN_Endpoint"))))
  }

  lemma EmptyMeans(sets: Sets, p: Packet)
    ensures Eval([], sets, p) == Drops(None, p)
  {
  }

  lemma DohBlockMeans(c: Config, sets: Sets, p: Packet)
    ensures Eval(if c.blockDoh then DohRules() else [], sets, p) ==
            Drops(Single(HitsDoh(c, sets, p), "DoH_Direct_IP"), p)
  {
    DohRulesMean(sets, p);
    EmptyMeans(sets, p);
  }

  lemma QuicBlockMeans(c: Config, sets: Sets, p: Packet)
    ensures Eval(if c.blockQuic then QuicRules() else [], sets, p) == Drops(Single(HitsQuic(c, p), "QUIC_Drop"), p)
  {
    QuicRulesMean(sets, p);
    EmptyMeans(sets, p);
  }

  lemma VpnProtocolBlockMeans(c: Config, sets: Sets, p: Packet)
    ensures Eval(if c.blockVpns then VpnProtocolRules() else [], sets, p) ==
            Drops(Single(HitsVpnProtocol(c, p), "VPN_Protocol"), p)
  {
    VpnProtocolRulesMean(sets, p);
    EmptyMeans(sets, p);
  }

  lemma VpnEndpointBlockMeans(c: Config, sets: Sets, p: Packet)
    ensures Eval(if c.blockVpns && c.customVpnIps != [] then VpnEndpointRules() else [], sets, p) ==
            Drops(Single(HitsVpnEndpoint(c, sets, p), "VPN_Endpoint"), p)
  {
    VpnEndpointRulesMean(sets, p);
    EmptyMeans(sets, p);
  }

  lemma EvasionRulesMean(c: Config, sets: Sets, p: Packet)
    ensures Eval(EvasionRules(c), sets, p) == Drops(EvasionReason(c, sets, p), p)
  {
    DohBlockMeans(c, sets, p);
    QuicBlockMeans(c, sets, p);
    VpnProtocolBlockMeans(c, sets, p);
    VpnEndpointBlockMeans(c, sets, p);
    FourDropBlocks(if c.blockDoh then DohRules() else [], if c.blockQuic then QuicRules() else [],
                   if c.blockVpns then VpnProtocolRules() else [],
                   if c.blockVpns && c.customVpnIps != [] then VpnEndpointRules() else [],
                   Single(HitsDoh(c, sets, p), "DoH_Direct_IP"), Single(HitsQuic(c, p), "QUIC_Drop"),
                   Single(HitsVpnProtocol(c, p), "VPN_Protocol"), Single(HitsVpnEndpoint(c, sets, p), "VPN_Endpoint"),
                   sets, p);
  }

  lemma FourDropBlocks(w: seq<Rule>, x: seq<Rule>, y: seq<Rule>, z: seq<Rule>, rw: Option<string>, rx: Option<string>,
                       ry: Option<string>, rz: Option<string>, sets: Sets, p: Packet)
    requires Eval(w, sets, p) == Drops(rw, p) && Eval(x, sets, p) == Drops(rx, p)
    requires Eval(y, sets, p) == Drops(ry, p) && Eval(z, sets, p) == Drops(rz, p)
    ensures Eval(w + (x + (y + z)), sets, p) == Drops(FirstReason(rw, FirstReason(rx, FirstReason(ry, rz))), p)
  {
    DropsConcat(y, z, ry, rz, sets, p);
    DropsConcat(x, y + z, rx, FirstReason(ry, rz), sets, p);
    DropsConcat(w, x + (y + z), rw, FirstReason(rx, FirstReason(ry, rz)), sets, p);
  }

  function AcceptEstablished(): Rule {
    Rule([CtEstablished], None, Accept)
  }

  lemma EstablishedMeans(sets: Sets, p: Packet)
    ensures Eval([AcceptEstablished()], sets, p) ==
            Flow(if p.established then Accepted else Undecided, p.mark, [])
  {
    EvalSingleton(AcceptEstablished(), sets, p);
    assert AcceptEstablished().matches[0] == CtEstablished;
    assert Matches(AcceptEstablished(), sets, p) <==> Hits(CtEstablished, sets, p);
  }

  lemma EstablishedFirst(rest: seq<Rule>, reason: Option<string>, sets: Sets, p: Packet)
    requires Eval(rest, sets, p) == Drops(reason, p)
    ensures Eval([AcceptEstablished()] + rest, sets, p) ==
            if p.established then Flow(Accepted, p.mark, []) else Drops(reason, p)
  {
    EstablishedMeans(sets, p);
    EvalConcat([AcceptEstablished()], rest, sets, p);
    assert p.(mark := p.mark) == p;
    assert [] + Drops(reason, p).logs == Drops(reason, p).logs;
  }

  lemma ReasonsInOrder(c: Config, sets: Sets, p: Packet)
    ensures FirstReason(MacReason(c, sets, p), EvasionReason(c, sets, p)) == DropReason(c, sets, p)
  {
  }

  /** Everything in front of the zone rules. */
  lemma HeadMeans(c: Config, sets: Sets, p: Packet)
    ensures Eval([AcceptEstablished()] + (MacRules(Wan(c)) + EvasionRules(c)), sets, p) ==
            if p.established then Flow(Accepted, p.mark, []) else Drops(DropReason(c, sets, p), p)
  {
    MacRulesMean(c, sets, p);
    EvasionRulesMean(c, sets, p);
    ReasonsInOrder(c, sets, p);
    DropsConcat(MacRules(Wan(c)), EvasionRules(c), MacReason(c, sets, p), EvasionReason(c, sets, p), sets, p);
    EstablishedFirst(MacRules(Wan(c)) + EvasionRules(c), DropReason(c, sets, p), sets, p);
  }

  // ---------- forward chain: zone rules ----------

  function AllowRule(iif: string, oif: string): Rule {
    Rule([IifName(iif), OifName(oif)], None, Accept)
  }

  predicate IsAllowRule(r: Rule) {
    && |r.matches| == 2 && r.matches[0].IifName? && r.matches[1].OifName?
    && r == AllowRule(r.matches[0].iif, r.matches[1].oif)
  }

  predicate AllowRules(rules: seq<Rule>) {
    forall r <- rules :: IsAllowRule(r)
  }

  lemma AllowRulesMean(rules: seq<Rule>, sets: Sets, p: Packet)
    requires AllowRules(rules)
    ensures Eval(rules, sets, p) == Flow(if AllowRule(p.iif, p.oif) in rules then Accepted else Undecided, p.mark, [])
  {
    EvalUniform(rules, None, Accept, sets, p);
    forall r <- rules
      ensures Matches(r, sets, p) <==> r == AllowRule(p.iif, p.oif)
    {
      assert Matches(r, sets, p) <==> Hits(r.matches[0], sets, p) && Hits(r.matches[1], sets, p);
    }
  }

  method AllowProduct(iifs: seq<string>, oifs: seq<string>) returns (rules: seq<Rule>)
    ensures AllowRules(rules)
    ensures forall i, o :: AllowRule(i, o) in rules <==> i in iifs && o in oifs
  {
    rules := [];
    for k := 0 to |iifs|
      invariant AllowRules(rules)
      invariant forall i, o :: AllowRule(i, o) in rules <==> i in iifs[..k] && o in oifs
    {
      ghost var before := rules;
      for j := 0 to |oifs|
        invariant AllowRules(rules)
        invariant forall i, o :: AllowRule(i, o) in rules <==>
                    AllowRule(i, o) in before || (i == iifs[k] && o in oifs[..j])
      {
        rules := rules + [AllowRule(iifs[k], oifs[j])];
      }
    }
  }

  method LocalInterfaces(c: Config) returns (lanIfs: seq<string>, guestIfs: seq<string>)
    ensures forall n :: n in lanIfs <==> IsLan(c, n)
    ensures forall n :: n in guestIfs <==> IsGuest(c, n)
  {
    lanIfs, guestIfs := [], [];
    var segments := c.bridges + c.vlans;
    for k := 0 to |segments|
      invariant forall n :: n in lanIfs <==> exists s <- segments[..k] :: s.name == n && !s.isolate
      invariant forall n :: n in guestIfs <==> exists s <- segments[..k] :: s.name == n && s.isolate
    {
      assert segments[..k + 1] == segments[..k] + [segments[k]];
      if segments[k].isolate {
        guestIfs := guestIfs + [segments[k].name];
      } else {
        lanIfs := lanIfs + [segments[k].name];
      }
    }
    assert segments[..|segments|] == segments;
  }

  method ZoneMap(zones: seq<Zone>) returns (zoneMap: map<string, Zone>)
    ensures forall id :: id in zoneMap <==> ZoneById(zones, id).Some?
    ensures forall id <- zoneMap :: zoneMap[id] == ZoneById(zones, id).value
  {
    zoneMap := map[];
    for k := 0 to |zones|
      invariant forall id :: id in zoneMap <==> ZoneById(zones[..k], id).Some?
      invariant forall id <- zoneMap :: zoneMap[id] == ZoneById(zones[..k], id).value
    {
      assert zones[..k + 1][..k] == zones[..k];
      zoneMap := zoneMap[zones[k].id := zones[k]];
    }
    assert zones[..|zones|] == zones;
  }

  /** The rules of one zone, in the order of its allow_zones list. */
  method RulesOfZone(c: Config, z: Zone, zoneMap: map<string, Zone>, locals: seq<string>) returns (rules: seq<Rule>)
    requires forall id :: id in zoneMap <==> ZoneById(c.zones, id).Some?
    requires forall id <- zoneMap :: zoneMap[id] == ZoneById(c.zones, id).value
    requires forall n :: n in locals <==> IsLocal(c, n)
    ensures AllowRules(rules)
    ensures forall i, o :: AllowRule(i, o) in rules <==> ZoneGrants(c, z, i, o)
  {
    var wan := Wan(c);
    rules := [];
    if z.id == WAN_ZONE {
      return;
    }
    if z.allowZones != [] {
      for d := 0 to |z.allowZones|
        invariant AllowRules(rules)
        invariant forall i, o :: AllowRule(i, o) in rules <==>
                    i in z.interfaces && exists dest <- z.allowZones[..d] :: DestinationReaches(c, dest, o)
      {
        var dest := z.allowZones[d];
        assert z.allowZones[..d + 1] == z.allowZones[..d] + [dest];
        var more := [];
        if dest == WAN_ZONE {
          more := AllowProduct(z.interfaces, [wan]);
        } else if dest in zoneMap {
          more := AllowProduct(z.interfaces, zoneMap[dest].interfaces);
        }
        assert forall i, o :: AllowRule(i, o) in more <==> i in z.interfaces && DestinationReaches(c, dest, o);
        rules := rules + more;
      }
      assert z.allowZones[..|z.allowZones|] == z.allowZones;
    } else if z.isolate {
      rules := AllowProduct(z.interfaces, [wan]);
    } else {
      for k := 0 to |z.interfaces|
        invariant AllowRules(rules)
        invariant forall i, o :: AllowRule(i, o) in rules <==>
                    i in z.interfaces[..k] && (o == wan || (IsLocal(c, o) && o != i))
      {
        var iif := z.interfaces[k];
        rules := rules + [AllowRule(iif, wan)];
        ghost var before := rules;
        for j := 0 to |locals|
          invariant AllowRules(rules)
          invariant forall i, o :: AllowRule(i, o) in rules <==>
                      AllowRule(i, o) in before || (i == iif && o in locals[..j] && o != iif)
        {
          if locals[j] != iif {
            rules := rules + [AllowRule(iif, locals[j])];
          }
        }
      }
    }
  }

  method ZoneRules(c: Config, locals: seq<string>) returns (rules: seq<Rule>)
    requires forall n :: n in locals <==> IsLocal(c, n)
    ensures AllowRules(rules)
    ensures forall i, o :: AllowRule(i, o) in rules <==> exists z <- c.zones :: ZoneGrants(c, z, i, o)
  {
    var zoneMap := ZoneMap(c.zones);
    rules := [];
    for k := 0 to |c.zones|
      invariant AllowRules(rules)
      invariant forall i, o :: AllowRule(i, o) in rules <==> exists z <- c.zones[..k] :: ZoneGrants(c, z, i, o)
    {
      assert c.zones[..k + 1] == c.zones[..k] + [c.zones[k]];
      var more := RulesOfZone(c, c.zones[k], zoneMap, locals);
      rules := rules + more;
    }
    assert c.zones[..|c.zones|] == c.zones;
  }

  method FlatRules(c: Config, lanIfs: seq<string>, guestIfs: seq<string>) returns (rules: seq<Rule>)
    requires forall n :: n in lanIfs <==> IsLan(c, n)
    requires forall n :: n in guestIfs <==> IsGuest(c, n)
    ensures AllowRules(rules)
    ensures forall i, o :: AllowRule(i, o) in rules <==> FlatAllows(c, i, o)
  {
    var wan := Wan(c);
    rules := [];
    for k := 0 to |lanIfs|
      invariant AllowRules(rules)
      invariant forall i, o :: AllowRule(i, o) in rules <==> i in lanIfs[..k] && (o == wan || o in guestIfs)
    {
      var more := AllowProduct([lanIfs[k]], [wan] + guestIfs);
      rules := rules + more;
    }
    var more := AllowProduct(guestIfs, [wan]);
    rules := rules + more;
  }

  method CompileForward(c: Config) returns (rules: seq<Rule>)
    ensures forall sets, p :: Eval(rules, sets, p) == ForwardPolicy(c, sets, p)
  {
    var lanIfs, guestIfs := LocalInterfaces(c);
    var head := [AcceptEstablished()] + (MacRules(Wan(c)) + EvasionRules(c));
    var allows;
    if c.zones != [] {
      allows := ZoneRules(c, lanIfs + guestIfs);
    } else {
      allows := FlatRules(c, lanIfs, guestIfs);
    }
    var tail := [Rule([], Some("Default_Forward_Drop"), LogOnly)];
    rules := head + (allows + tail);
    forall sets, p
      ensures Eval(rules, sets, p) == ForwardPolicy(c, sets, p)
    {
      ForwardParts(c, head, allows, tail, sets, p);
    }
  }

  lemma ForwardParts(c: Config, head: seq<Rule>, allows: seq<Rule>, tail: seq<Rule>, sets: Sets, p: Packet)
    requires head == [AcceptEstablished()] + (MacRules(Wan(c)) + EvasionRules(c))
    requires AllowRules(allows) && (AllowRule(p.iif, p.oif) in allows <==> ZoneAllows(c, p.iif, p.oif))
    requires tail == [Rule([], Some("Default_Forward_Drop"), LogOnly)]
    ensures Eval(head + (allows + tail), sets, p) == ForwardPolicy(c, sets, p)
  {
    HeadMeans(c, sets, p);
    AllowRulesMean(allows, sets, p);
    EvalSingleton(tail[0], sets, p);
    assert Matches(tail[0], sets, p);
    assert p.(mark := p.mark) == p;
    EvalConcat(allows, tail, sets, p);
    EvalConcat(head, allows + tail, sets, p);
    assert Eval(head, sets, p).mark == p.mark;
  }

  // ---------- prerouting chain ----------

  function DnsRule(s: Segment, proto: Proto, localDns: bool, stmt: Statement): Rule {
    Rule(if localDns then [IifName(s.name), Dport(proto, {DNS_PORT})]
         else [IifName(s.name), IpDaddr(s.address), Dport(proto, {DNS_PORT})], None, stmt)
  }

  lemma DnsRuleMatches(s: Segment, proto: Proto, localDns: bool, stmt: Statement, sets: Sets, p: Packet)
    ensures Matches(DnsRule(s, proto, localDns, stmt), sets, p) <==>
            && s.name == p.iif && p.proto == proto && p.dport == DNS_PORT
            && (localDns || (p.dst.Some? && p.dst == OwnAddress(s.address)))
  {
    var ms := DnsRule(s, proto, localDns, stmt).matches;
    var r := DnsRule(s, proto, localDns, stmt);
    if localDns {
      assert Matches(r, sets, p) <==> Hits(ms[0], sets, p) && Hits(ms[1], sets, p);
    } else {
      assert Matches(r, sets, p) <==> Hits(ms[0], sets, p) && Hits(ms[1], sets, p) && Hits(ms[2], sets, p);
    }
  }

  method DnsRules(segments: seq<Segment>, localDns: bool, stmt: Statement) returns (rules: seq<Rule>)
    ensures Uniform(rules, None, stmt)
    ensures forall sets, p :: AnyMatches(rules, sets, p) <==> DnsIntercepted(segments, localDns, p)
  {
    rules := [];
    for k := 0 to |segments|
      invariant Uniform(rules, None, stmt)
      invariant forall sets, p :: AnyMatches(rules, sets, p) <==> DnsIntercepted(segments[..k], localDns, p)
    {
      var s := segments[k];
      var pair := [DnsRule(s, Tcp, localDns, stmt), DnsRule(s, Udp, localDns, stmt)];
      assert segments[..k + 1] == segments[..k] + [s];
      forall sets, p
        ensures AnyMatches(rules + pair, sets, p) <==> DnsIntercepted(segments[..k + 1], localDns, p)
      {
        DnsRuleMatches(s, Tcp, localDns, stmt, sets, p);
        DnsRuleMatches(s, Udp, localDns, stmt, sets, p);
        assert AnyMatches(rules + pair, sets, p) <==>
               AnyMatches(rules, sets, p) || Matches(pair[0], sets, p) || Matches(pair[1], sets, p);
      }
      rules := rules + pair;
    }
    assert segments[..|segments|] == segments;
  }

  method DotRules(locals: seq<string>) returns (rules: seq<Rule>)
    ensures Uniform(rules, None, Drop)
    ensures forall sets, p :: AnyMatches(rules, sets, p) <==>
              p.iif in locals && p.proto == Tcp && p.dport == DOT_PORT
  {
    rules := [];
    for k := 0 to |locals|
      invariant Uniform(rules, None, Drop)
      invariant forall sets, p :: AnyMatches(rules, sets, p) <==>
                  p.iif in locals[..k] && p.proto == Tcp && p.dport == DOT_PORT
    {
      var r := Rule([IifName(locals[k]), Dport(Tcp, {DOT_PORT})], None, Drop);
      forall sets, p
        ensures AnyMatches(rules + [r], sets, p) <==>
                p.iif in locals[..k + 1] && p.proto == Tcp && p.dport == DOT_PORT
      {
        assert Matches(r, sets, p) <==> Hits(r.matches[0], sets, p) && Hits(r.matches[1], sets, p);
        assert AnyMatches(rules + [r], sets, p) <==> AnyMatches(rules, sets, p) || Matches(r, sets, p);
      }
      rules := rules + [r];
    }
  }

  method MarkRules(devices: seq<Device>, marks: map<string, nat>) returns (rules: seq<Rule>)
    ensures forall sets, p :: Eval(rules, sets, p) == Flow(Undecided, MarkAfter(devices, marks, p), [])
  {
    rules := [];
    for k := 0 to |devices|
      invariant forall sets, p :: Eval(rules, sets, p) == Flow(Undecided, MarkAfter(devices[..k], marks, p), [])
    {
      var d := devices[k];
      assert devices[..k + 1][..k] == devices[..k];
      if d.gateway.Some? && d.gateway.value != "" && d.gateway.value in marks {
        var r := Rule([EtherSaddr(d.mac)], None, SetMark(marks[d.gateway.value]));
        forall sets, p
          ensures Eval(rules + [r], sets, p) == Flow(Undecided, MarkAfter(devices[..k + 1], marks, p), [])
        {
          EvalSnoc(rules, r, sets, p);
          var q := p.(mark := MarkAfter(devices[..k], marks, p));
          assert Matches(r, sets, q) <==> Hits(r.matches[0], sets, q);
        }
        rules := rules + [r];
      }
    }
    assert devices[..|devices|] == devices;
  }

  function PortForwardFlow(pfs: seq<PortForward>, wan: string, p: Packet): Flow {
    var pf := ForwardFor(pfs, p);
    Flow(if p.iif == wan && pf.Some? then ToHost(pf.value.internalIp, pf.value.internalPort) else Undecided, p.mark, [])
  }

  method PortForwardRules(pfs: seq<PortForward>, wan: string) returns (rules: seq<Rule>)
    ensures forall sets, p :: Eval(rules, sets, p) == PortForwardFlow(pfs, wan, p)
  {
    rules := [];
    for k := 0 to |pfs|
      invariant forall sets, p :: Eval(rules, sets, p) == PortForwardFlow(pfs[..k], wan, p)
    {
      var pf := pfs[k];
      var r := Rule([IifName(wan), Dport(pf.proto, {pf.externalPort})], None, Dnat(pf.internalIp, pf.internalPort));
      assert pfs[..k + 1][..k] == pfs[..k];
      forall sets, p
        ensures Eval(rules + [r], sets, p) == PortForwardFlow(pfs[..k + 1], wan, p)
      {
        EvalSnoc(rules, r, sets, p);
        assert p.(mark := p.mark) == p;
        assert Matches(r, sets, p) <==> Hits(r.matches[0], sets, p) && Hits(r.matches[1], sets, p);
      }
      rules := rules + [r];
    }
    assert pfs[..|pfs|] == pfs;
  }

  method CompilePrerouting(c: Config, marks: map<string, nat>, localDns: bool) returns (rules: seq<Rule>)
    ensures forall sets, p :: Eval(rules, sets, p) == PreroutingPolicy(c, marks, localDns, p)
  {
    var lanIfs, guestIfs := LocalInterfaces(c);
    var stmt := DnsStatement(c, localDns);
    var dns := DnsRules(c.bridges + c.vlans, localDns, stmt);
    var dot := [];
    if localDns {
      dot := DotRules(lanIfs + guestIfs);
    }
    var marking := MarkRules(c.devices, marks);
    var forwards := PortForwardRules(c.portForwards, Wan(c));
    rules := dns + (dot + (marking + forwards));
    forall sets, p
      ensures Eval(rules, sets, p) == PreroutingPolicy(c, marks, localDns, p)
    {
      assert AnyMatches(dot, sets, p) <==> DotBlocked(c, localDns, p);
      PreroutingParts(c, marks, localDns, dns, dot, marking, forwards, sets, p);
    }
  }

  lemma PreroutingParts(c: Config, marks: map<string, nat>, localDns: bool, dns: seq<Rule>, dot: seq<Rule>,
                        marking: seq<Rule>, forwards: seq<Rule>, sets: Sets, p: Packet)
    requires Uniform(dns, None, DnsStatement(c, localDns))
    requires AnyMatches(dns, sets, p) <==> DnsIntercepted(c.bridges + c.vlans, localDns, p)
    requires Uniform(dot, None, Drop) && (AnyMatches(dot, sets, p) <==> DotBlocked(c, localDns, p))
    requires Eval(marking, sets, p) == Flow(Undecided, MarkAfter(c.devices, marks, p), [])
    requires forall q :: Eval(forwards, sets, q) == PortForwardFlow(c.portForwards, Wan(c), q)
    ensures Eval(dns + (dot + (marking + forwards)), sets, p) == PreroutingPolicy(c, marks, localDns, p)
  {
    EvalUniform(dns, None, DnsStatement(c, localDns), sets, p);
    EvalUniform(dot, None, Drop, sets, p);
    assert p.(mark := p.mark) == p;
    EvalConcat(dns, dot + (marking + forwards), sets, p);
    EvalConcat(dot, marking + forwards, sets, p);
    EvalConcat(marking, forwards, sets, p);
    ForwardIgnoresMark(c.portForwards, p, MarkAfter(c.devices, marks, p));
  }

  lemma {:induction false} ForwardIgnoresMark(pfs: seq<PortForward>, p: Packet, mark: nat)
    ensures ForwardFor(pfs, p.(mark := mark)) == ForwardFor(pfs, p)
  {
    if pfs != [] {
      ForwardIgnoresMark(pfs[..|pfs| - 1], p, mark);
    }
  }

  // ---------- postrouting chain ----------

  function MasqueradeRule(oif: string): Rule {
    Rule([OifName(oif)], None, Masquerade)
  }

  lemma MasqueradeMatches(rules: seq<Rule>, oif: string, sets: Sets, p: Packet)
    ensures AnyMatches(rules + [MasqueradeRule(oif)], sets, p) <==> AnyMatches(rules, sets, p) || p.oif == oif
  {
    var r := MasqueradeRule(oif);
    assert Matches(r, sets, p) <==> Hits(r.matches[0], sets, p);
    assert AnyMatches(rules + [r], sets, p) <==> AnyMatches(rules, sets, p) || Matches(r, sets, p);
  }

  method CompilePostrouting(c: Config) returns (rules: seq<Rule>)
    ensures forall sets, p :: Eval(rules, sets, p) ==
              Flow(if MasqueradedOn(Wan(c), c.gateways, p.oif) then Masqueraded else Undecided, p.mark, [])
  {
    rules := [] + [MasqueradeRule(Wan(c))];
    forall sets, p
      ensures AnyMatches(rules, sets, p) <==> MasqueradedOn(Wan(c), c.gateways[..0], p.oif)
    {
      MasqueradeMatches([], Wan(c), sets, p);
    }
    for k := 0 to |c.gateways|
      invariant Uniform(rules, None, Masquerade)
      invariant forall sets, p :: AnyMatches(rules, sets, p) <==> MasqueradedOn(Wan(c), c.gateways[..k], p.oif)
    {
      var g := c.gateways[k];
      assert c.gateways[..k + 1] == c.gateways[..k] + [g];
      if g.id != DEFAULT_GATEWAY {
        forall sets, p
          ensures AnyMatches(rules + [MasqueradeRule(g.iface)], sets, p) <==>
                  MasqueradedOn(Wan(c), c.gateways[..k + 1], p.oif)
        {
          MasqueradeMatches(rules, g.iface, sets, p);
        }
        rules := rules + [MasqueradeRule(g.iface)];
      }
    }
    assert c.gateways[..|c.gateways|] == c.gateways;
    forall sets, p
      ensures Eval(rules, sets, p) ==
              Flow(if MasqueradedOn(Wan(c), c.gateways, p.oif) then Masqueraded else Undecided, p.mark, [])
    {
      EvalUniform(rules, None, Masquerade, sets, p);
    }
  }

  // ---------- the manager ----------

  /** The resolver addresses every ruleset blocks when block_doh is on. */
  function DefaultDohServers(): seq<Cidr> {
    [Host(1, 1, 1, 1), Host(1, 0, 0, 1), Host(162, 159, 36, 1), Host(162, 159, 46, 1), Host(8, 8, 8, 8),
     Host(8, 8, 4, 4), Host(9, 9, 9, 9), Host(149, 112, 112, 112), Host(208, 67, 222, 222),
     Host(208, 67, 220, 220), Cidr(Octets(45, 90, 28, 0), 24), Cidr(Octets(45, 90, 30, 0), 24),
     Host(194, 242, 2, 2), Host(194, 242, 2, 3), Host(194, 242, 2, 4), Cidr(Octets(76, 76, 2, 0), 24),
     Cidr(Octets(76, 76, 10, 0), 24)]
  }

  datatype Ruleset = Ruleset(
    dohServers: seq<Cidr>,
    vpnServers: seq<Cidr>,
    forward: seq<Rule>,
    prerouting: seq<Rule>,
    postrouting: seq<Rule>)

  /** The emitted forward chain means the forward policy, log line included, for every
      packet and whatever the kernel's sets hold. */
  ghost predicate MeansForward(rules: seq<Rule>, c: Config) {
    forall sets, p :: Eval(rules, sets, p) == ForwardPolicy(c, sets, p)
  }

  ghost predicate MeansPrerouting(rules: seq<Rule>, c: Config, localDns: bool) {
    forall sets, p :: Eval(rules, sets, p) == PreroutingPolicy(c, MarksOf(c.gateways), localDns, p)
  }

  ghost predicate MeansPostrouting(rules: seq<Rule>, c: Config) {
    forall sets, p :: Eval(rules, sets, p) ==
      Flow(if MasqueradedOn(Wan(c), c.gateways, p.oif) then Masqueraded else Undecided, p.mark, [])
  }

  /** On any kernel, the commands lead every gateway's table to its interface. */
  ghost predicate RoutesGateways(cmds: seq<Command>, c: Config) {
    forall k :: Routed(c.gateways, MarksOf(c.gateways), k, ExecuteAll(cmds, k))
  }

  class FirewallManager {
    const config: Config
    var gatewayMarks: map<string, nat>

    ghost predicate Valid()
      reads this
    {
      gatewayMarks == MarksOf(config.gateways)
    }

    constructor (config: Config)
      ensures Valid() && this.config == config
    {
      this.config := config;
      var marks: map<string, nat> := map[];
      var markCounter := FIRST_MARK;
      var gws := config.gateways;
      for k := 0 to |gws|
        invariant marks == MarksOf(gws[..k])
        invariant markCounter == FIRST_MARK + MarkedCount(gws[..k])
      {
        assert gws[..k + 1][..k] == gws[..k];
        if gws[k].id != DEFAULT_GATEWAY {
          marks := marks[gws[k].id := markCounter];
          markCounter := markCounter + 1;
        }
      }
      assert gws[..|gws|] == gws;
      gatewayMarks := marks;
    }

    /** Whether a local resolver is active is an input: the source probes port 53 for it. */
    method CompileRuleset(localDns: bool) returns (rs: Ruleset)
      requires Valid()
      ensures rs.dohServers == DefaultDohServers() + config.customDohIps
      ensures rs.vpnServers == config.customVpnIps
      ensures MeansForward(rs.forward, config)
      ensures MeansPrerouting(rs.prerouting, config, localDns)
      ensures MeansPostrouting(rs.postrouting, config)
    {
      var forward := CompileForward(config);
      var prerouting := CompilePrerouting(config, gatewayMarks, localDns);
      var postrouting := CompilePostrouting(config);
      rs := Ruleset(DefaultDohServers() + config.customDohIps, config.customVpnIps, forward, prerouting, postrouting);
    }

    method CompileRoutingSetupCmds() returns (cmds: seq<Command>)
      requires Valid()
      ensures RoutesGateways(cmds, config)
    {
      var gws := config.gateways;
      cmds := [];
      MarksAreDistinct(gws);
      forall k
        ensures Routed(gws[..0], gatewayMarks, k, ExecuteAll(cmds, k))
      {
        RoutedAtFirst(gatewayMarks, k);
      }
      for i := 0 to |gws|
        invariant forall k :: Routed(gws[..i], gatewayMarks, k, ExecuteAll(cmds, k))
      {
        var g := gws[i];
        ghost var before := cmds;
        assert gws[..i + 1] == gws[..i] + [g];
        if g.id != DEFAULT_GATEWAY {
          assert IsMarked(gws, g.id);
          var mark := gatewayMarks[g.id];
          cmds := cmds + [RouteReplaceDefault(g.iface, mark)];
          cmds := cmds + [RuleAdd(mark, mark)];
          forall k
            ensures Routed(gws[..i + 1], gatewayMarks, k, ExecuteAll(cmds, k))
          {
            RoutedStep(gws[..i], g, gatewayMarks, k, ExecuteAll(before, k));
            ExecuteSnoc(before, RouteReplaceDefault(g.iface, mark), k);
            ExecuteSnoc(before + [RouteReplaceDefault(g.iface, mark)], RuleAdd(mark, mark), k);
          }
        } else {
          forall k
            ensures Routed(gws[..i + 1], gatewayMarks, k, ExecuteAll(cmds, k))
          {
            RoutedSkip(gws[..i], g, gatewayMarks, k, ExecuteAll(cmds, k));
          }
        }
      }
      assert gws[..|gws|] == gws;
    }
  }
}
