/**
 What follows for the rules and commands the compiler emits. Every lemma starts from the
 contracts of CompileRuleset and CompileRoutingSetupCmds (MeansForward, MeansPrerouting,
 RoutesGateways) and talks about what the emitted rules do to packets.
 */
module FirewallTheorems {
  import opened Wrappers
  import opened Ipv4
  import opened RouterConfig
  import opened Nftables
  import opened FirewallPolicy
  import opened PolicyRouting
  import opened Firewall

  predicate AcceptedBy(rules: seq<Rule>, sets: Sets, p: Packet) {
    Eval(rules, sets, p).verdict == Accepted
  }

  /** Under policy drop the forward chain lets a packet through exactly when it belongs to
      an established connection, or no block applies and the zones allow the pair. */
  lemma ForwardAcceptsExactly(c: Config, rules: seq<Rule>, sets: Sets, p: Packet)
    requires MeansForward(rules, c)
    ensures AcceptedBy(rules, sets, p) <==>
            || p.established
            || (&& !MacIn(sets, Quarantined, p.smac)
                && !(MacIn(sets, ScheduleBlocked, p.smac) && p.oif == Wan(c))
                && !(MacIn(sets, AdminBlocked, p.smac) && p.oif == Wan(c))
                && !MacIn(sets, BlockedClients, p.smac)
                && !HitsDoh(c, sets, p) && !HitsQuic(c, p) && !HitsVpnProtocol(c, p) && !HitsVpnEndpoint(c, sets, p)
                && ZoneAllows(c, p.iif, p.oif))
  {
    assert Eval(rules, sets, p) == ForwardPolicy(c, sets, p);
  }

  /** c' and sets' block at least what c and sets do, and route alike. */
  ghost predicate BlocksMore(c: Config, sets: Sets, c': Config, sets': Sets) {
    && c' == c.(blockDoh := c'.blockDoh, blockVpns := c'.blockVpns, blockQuic := c'.blockQuic,
                customDohIps := c'.customDohIps, customVpnIps := c'.customVpnIps)
    && (c.blockDoh ==> c'.blockDoh) && (c.blockVpns ==> c'.blockVpns) && (c.blockQuic ==> c'.blockQuic)
    && (c.customVpnIps != [] ==> c'.customVpnIps != [])
    && (forall m, mac :: MacIn(sets, m, mac) ==> MacIn(sets', m, mac))
    && (forall s, dst :: AddressIn(sets, s, dst) ==> AddressIn(sets', s, dst))
  }

  /** More blocking never turns a drop into an accept. */
  lemma BlockingIsMonotone(c: Config, rules: seq<Rule>, sets: Sets,
                           c': Config, rules': seq<Rule>, sets': Sets, p: Packet)
    requires MeansForward(rules, c) && MeansForward(rules', c')
    requires BlocksMore(c, sets, c', sets')
    ensures AcceptedBy(rules', sets', p) ==> AcceptedBy(rules, sets, p)
  {
    ForwardAcceptsExactly(c, rules, sets, p);
    ForwardAcceptsExactly(c', rules', sets', p);
    assert forall id :: ZoneById(c'.zones, id) == ZoneById(c.zones, id);
    assert forall z <- c.zones :: ZoneGrants(c', z, p.iif, p.oif) <==> ZoneGrants(c, z, p.iif, p.oif);
    assert ZoneAllows(c', p.iif, p.oif) <==> ZoneAllows(c, p.iif, p.oif);
  }

  /** The sets as the ruleset file loads them. */
  function LoadedSets(rs: Ruleset, macs: map<MacSet, set<Mac>>): Sets {
    Sets(macs, map[DohServers := rs.dohServers, VpnServers := rs.vpnServers])
  }

  /** Custom addresses added to the configuration only ever add drops after a reload. */
  lemma CustomAddressesOnlyBlock(c: Config, rs: Ruleset, doh: seq<Cidr>, vpn: seq<Cidr>, rs': Ruleset,
                                 macs: map<MacSet, set<Mac>>, p: Packet)
    requires MeansForward(rs.forward, c) && rs.dohServers == DefaultDohServers() + c.customDohIps
    requires rs.vpnServers == c.customVpnIps
    requires var c' := c.(customDohIps := c.customDohIps + doh, customVpnIps := c.customVpnIps + vpn);
             && MeansForward(rs'.forward, c') && rs'.dohServers == DefaultDohServers() + c'.customDohIps
             && rs'.vpnServers == c'.customVpnIps
    ensures AcceptedBy(rs'.forward, LoadedSets(rs', macs), p) ==> AcceptedBy(rs.forward, LoadedSets(rs, macs), p)
  {
    var c' := c.(customDohIps := c.customDohIps + doh, customVpnIps := c.customVpnIps + vpn);
    assert rs'.dohServers == rs.dohServers + doh;
    BlockingIsMonotone(c, rs.forward, LoadedSets(rs, macs), c', rs'.forward, LoadedSets(rs', macs), p);
  }

  /** Addresses added to the VPN set of a loaded ruleset are blocked exactly if the
      configuration itself listed at least one. */
  lemma VpnSetBlocksExactly(c: Config, rules: seq<Rule>, iif: string, oif: string)
    requires MeansForward(rules, c) && c.blockVpns && ZoneAllows(c, iif, oif)
    ensures c.customVpnIps != [] <==>
            forall sets, p: Packet ::
              !p.established && AddressIn(sets, VpnServers, p.dst) ==> !AcceptedBy(rules, sets, p)
  {
    if c.customVpnIps != [] {
      forall sets, p: Packet | !p.established && AddressIn(sets, VpnServers, p.dst)
        ensures !AcceptedBy(rules, sets, p)
      {
        ForwardAcceptsExactly(c, rules, sets, p);
      }
    } else {
      var block := Host(203, 0, 113, 1);
      var sets := Sets(map[], map[VpnServers := [block]]);
      var p := Packet(iif, oif, "", Some(block.ip), OtherProto, 0, false, 0);
      assert Contains(block, block.ip) && AddressIn(sets, VpnServers, p.dst);
      ForwardAcceptsExactly(c, rules, sets, p);
      assert AcceptedBy(rules, sets, p);
    }
  }

  function WithMac(sets: Sets, m: MacSet, mac: Mac): Sets {
    sets.(macs := sets.macs[m := (if m in sets.macs then sets.macs[m] else {}) + {mac}])
  }

  lemma WithMacAdds(sets: Sets, m: MacSet, mac: Mac, s: MacSet, x: Mac)
    ensures MacIn(WithMac(sets, m, mac), s, x) <==> MacIn(sets, s, x) || (s == m && x == mac)
  {
  }

  /** Membership in the schedule or admin set alone drops every new packet of the device
      that leaves by the WAN, and changes nothing on any other outgoing interface. */
  lemma TimeBlockIsLocal(c: Config, rules: seq<Rule>, sets: Sets, m: MacSet, mac: Mac, p: Packet)
    requires MeansForward(rules, c) && (m == ScheduleBlocked || m == AdminBlocked)
    ensures p.oif == Wan(c) && p.smac == mac && !p.established ==>
              Eval(rules, WithMac(sets, m, mac), p).verdict == Dropped
    ensures p.oif != Wan(c) || p.smac != mac || p.established ==>
              Eval(rules, WithMac(sets, m, mac), p) == Eval(rules, sets, p)
  {
    var sets' := WithMac(sets, m, mac);
    WithMacAdds(sets, m, mac, Quarantined, p.smac);
    WithMacAdds(sets, m, mac, ScheduleBlocked, p.smac);
    WithMacAdds(sets, m, mac, AdminBlocked, p.smac);
    WithMacAdds(sets, m, mac, BlockedClients, p.smac);
    assert Eval(rules, sets', p) == ForwardPolicy(c, sets', p);
    assert Eval(rules, sets, p) == ForwardPolicy(c, sets, p);
    SameAddresses(c, sets, sets', p);
  }

  lemma SameAddresses(c: Config, sets: Sets, sets': Sets, p: Packet)
    requires sets'.addresses == sets.addresses
    ensures HitsDoh(c, sets', p) == HitsDoh(c, sets, p)
    ensures HitsVpnEndpoint(c, sets', p) == HitsVpnEndpoint(c, sets, p)
  {
  }

  // ---------- the WAN side ----------

  /** The configuration hands traffic arriving on the WAN interface to some interface. */
  predicate WanOpen(c: Config) {
    if c.zones != [] then
      exists z <- c.zones ::
        && z.id != WAN_ZONE && Wan(c) in z.interfaces
        && (z.allowZones == [] ||
            exists d <- z.allowZones ::
              d == WAN_ZONE || (ZoneById(c.zones, d).Some? && ZoneById(c.zones, d).value.interfaces != []))
    else IsLocal(c, Wan(c))
  }

  lemma WanOpenMeansAllowed(c: Config)
    ensures WanOpen(c) <==> exists o :: ZoneAllows(c, Wan(c), o)
  {
    var wan := Wan(c);
    if c.zones != [] {
      if WanOpen(c) {
        var z :| z in c.zones && z.id != WAN_ZONE && wan in z.interfaces
          && (z.allowZones == [] ||
            exists d <- z.allowZones ::
              d == WAN_ZONE || (ZoneById(c.zones, d).Some? && ZoneById(c.zones, d).value.interfaces != []));
        var o := wan;
        if z.allowZones != [] {
          var d :| d in z.allowZones
            && (d == WAN_ZONE || (ZoneById(c.zones, d).Some? && ZoneById(c.zones, d).value.interfaces != []));
          o := if d == WAN_ZONE then wan else ZoneById(c.zones, d).value.interfaces[0];
          assert DestinationReaches(c, d, o);
        }
        assert ZoneGrants(c, z, wan, o);
        assert ZoneAllows(c, wan, o);
      }
    } else if IsLocal(c, wan) {
      assert IsLan(c, wan) || IsGuest(c, wan);
      assert ZoneAllows(c, wan, wan);
    }
  }

  /** For every zone graph: the forward chain takes no new flow from the WAN, whatever the
      sets hold, exactly when the configuration does not open it. */
  lemma WanStaysClosed(c: Config, rules: seq<Rule>)
    requires MeansForward(rules, c)
    ensures !WanOpen(c) <==>
            forall sets, p: Packet :: p.iif == Wan(c) && !p.established ==> !AcceptedBy(rules, sets, p)
  {
    WanOpenMeansAllowed(c);
    if WanOpen(c) {
      var o :| ZoneAllows(c, Wan(c), o);
      var sets := Sets(map[], map[]);
      var p := Packet(Wan(c), o, "", None, OtherProto, 0, false, 0);
      ForwardAcceptsExactly(c, rules, sets, p);
      assert AcceptedBy(rules, sets, p);
    } else {
      forall sets, p: Packet | p.iif == Wan(c) && !p.established
        ensures !AcceptedBy(rules, sets, p)
      {
        ForwardAcceptsExactly(c, rules, sets, p);
      }
    }
  }

  /** An interface that is no bridge or VLAN and in no other zone than "wan" is closed. */
  lemma UnlistedWanIsClosed(c: Config)
    requires !IsLocal(c, Wan(c))
    requires forall z <- c.zones :: z.id != WAN_ZONE ==> Wan(c) !in z.interfaces
    ensures !WanOpen(c)
  {
  }

  // ---------- port forwards ----------

  predicate SameService(a: PortForward, b: PortForward) {
    a.proto == b.proto && a.externalPort == b.externalPort
  }

  /** An earlier entry is for the same protocol and port. */
  predicate HasEarlier(pfs: seq<PortForward>, i: nat)
    requires i < |pfs|
  {
    exists j :: 0 <= j < i && SameService(pfs[j], pfs[i])
  }

  predicate Serves(pf: PortForward, p: Packet) {
    pf.proto == p.proto && pf.externalPort == p.dport
  }

  lemma {:induction false} ForwardForFinds(pfs: seq<PortForward>, p: Packet)
    ensures ForwardFor(pfs, p).Some? <==> exists pf <- pfs :: Serves(pf, p)
    ensures ForwardFor(pfs, p).Some? ==> ForwardFor(pfs, p).value in pfs
  {
    if pfs != [] {
      var earlier, last := pfs[..|pfs| - 1], pfs[|pfs| - 1];
      ForwardForFinds(earlier, p);
      assert pfs == earlier + [last];
      assert ForwardFor(pfs, p) == if ForwardFor(earlier, p).Some? then ForwardFor(earlier, p)
                                   else if Serves(last, p) then Some(last) else None;
    }
  }

  lemma {:induction false} FirstForwardWins(pfs: seq<PortForward>, p: Packet, i: nat)
    requires i < |pfs| && Serves(pfs[i], p) && !HasEarlier(pfs, i)
    ensures ForwardFor(pfs, p) == Some(pfs[i])
  {
    var earlier := pfs[..|pfs| - 1];
    if i < |pfs| - 1 {
      FirstForwardWins(earlier, p, i);
    } else {
      ForwardForFinds(earlier, p);
      forall pf <- earlier
        ensures !Serves(pf, p)
      {
        var j :| 0 <= j < |earlier| && earlier[j] == pf;
        assert !SameService(pfs[j], pfs[i]);
      }
    }
  }

  lemma FirstServing(pfs: seq<PortForward>, p: Packet) returns (i: nat)
    requires ForwardFor(pfs, p).Some?
    ensures i < |pfs| && Serves(pfs[i], p) && !HasEarlier(pfs, i)
  {
    ForwardForFinds(pfs, p);
    i :| i < |pfs| && Serves(pfs[i], p);
    while HasEarlier(pfs, i)
      invariant i < |pfs| && Serves(pfs[i], p)
      decreases i
    {
      var j :| 0 <= j < i && SameService(pfs[j], pfs[i]);
      i := j;
    }
  }

  /** The k-th entry is the first enabled one for the service of the i-th. */
  predicate FirstEnabled(pfs: seq<PortForward>, i: nat, k: nat)
    requires i < |pfs|
  {
    && k < |pfs| && pfs[k].enabled && SameService(pfs[k], pfs[i])
    && forall j :: 0 <= j < k && pfs[j].enabled ==> !SameService(pfs[j], pfs[i])
  }

  lemma {:induction false} FirstEnabledWins(pfs: seq<PortForward>, p: Packet, k: nat)
    requires k < |pfs| && pfs[k].enabled && Serves(pfs[k], p)
    requires forall j :: 0 <= j < k && pfs[j].enabled ==> !Serves(pfs[j], p)
    ensures ForwardFor(EnabledOnly(pfs), p) == Some(pfs[k])
  {
    var earlier, last := pfs[..|pfs| - 1], pfs[|pfs| - 1];
    var kept := EnabledOnly(earlier);
    assert last.enabled ==> (kept + [last])[..|kept|] == kept;
    if k < |pfs| - 1 {
      FirstEnabledWins(earlier, p, k);
    } else {
      NoneEnabled(earlier, p);
    }
  }

  lemma {:induction false} NoneEnabled(pfs: seq<PortForward>, p: Packet)
    requires forall j :: 0 <= j < |pfs| && pfs[j].enabled ==> !Serves(pfs[j], p)
    ensures ForwardFor(EnabledOnly(pfs), p) == None
  {
    if pfs != [] {
      var earlier, last := pfs[..|pfs| - 1], pfs[|pfs| - 1];
      NoneEnabled(earlier, p);
      assert last.enabled ==> (EnabledOnly(earlier) + [last])[..|EnabledOnly(earlier)|] == EnabledOnly(earlier);
    }
  }

  predicate SameTarget(a: PortForward, b: PortForward) {
    a.internalIp == b.internalIp && a.internalPort == b.internalPort
  }

  /** Whether the i-th entry is enabled makes no difference: it is, or the first enabled entry
      for its service leads to the same target. */
  predicate FlagHasNoEffect(pfs: seq<PortForward>, i: nat)
    requires i < |pfs|
  {
    pfs[i].enabled || exists k :: 0 <= k < |pfs| && FirstEnabled(pfs, i, k) && SameTarget(pfs[k], pfs[i])
  }

  /** Both lists send the packet to the same place, if anywhere. */
  predicate ActAlike(f: Option<PortForward>, g: Option<PortForward>) {
    (f.Some? <==> g.Some?) && (f.Some? ==> SameTarget(f.value, g.value))
  }

  lemma FirstEnabledIsOne(pfs: seq<PortForward>, i: nat, k: nat, l: nat)
    requires i < |pfs| && FirstEnabled(pfs, i, k) && FirstEnabled(pfs, i, l)
    ensures k == l
  {
  }

  lemma OneServiceExactly(pfs: seq<PortForward>, p: Packet, i: nat)
    requires i < |pfs| && Serves(pfs[i], p) && !HasEarlier(pfs, i)
    ensures ActAlike(ForwardFor(pfs, p), ForwardFor(EnabledOnly(pfs), p)) <==> FlagHasNoEffect(pfs, i)
  {
    FirstForwardWins(pfs, p, i);
    if k :| 0 <= k < |pfs| && FirstEnabled(pfs, i, k) {
      forall j | 0 <= j < k && pfs[j].enabled
        ensures !Serves(pfs[j], p)
      {
        assert !SameService(pfs[j], pfs[i]);
      }
      FirstEnabledWins(pfs, p, k);
      assert pfs[i].enabled ==> FirstEnabled(pfs, i, i);
      forall l | 0 <= l < |pfs| && FirstEnabled(pfs, i, l)
        ensures l == k
      {
        FirstEnabledIsOne(pfs, i, k, l);
      }
    } else {
      assert !FirstEnabled(pfs, i, i);
      forall j | 0 <= j < |pfs| && pfs[j].enabled
        ensures !Serves(pfs[j], p)
      {
        NoneWithoutFirst(pfs, i, j);
      }
      NoneEnabled(pfs, p);
    }
  }

  /** Without a first enabled entry for a service there is none. */
  lemma {:induction false} NoneWithoutFirst(pfs: seq<PortForward>, i: nat, j: nat)
    requires i < |pfs| && j < |pfs| && pfs[j].enabled
    requires forall k :: 0 <= k < |pfs| ==> !FirstEnabled(pfs, i, k)
    ensures !SameService(pfs[j], pfs[i])
    decreases j
  {
    forall l | 0 <= l < j && pfs[l].enabled
      ensures !SameService(pfs[l], pfs[i])
    {
      NoneWithoutFirst(pfs, i, l);
    }
    assert !FirstEnabled(pfs, i, j);
  }

  lemma PacketActsAlike(pfs: seq<PortForward>, p: Packet)
    requires ForwardFor(pfs, p) == None
    ensures ForwardFor(EnabledOnly(pfs), p) == None
  {
    ForwardForFinds(pfs, p);
    NoneEnabled(pfs, p);
  }

  /** The enabled flag is never read. The forwards act on every packet as if only the enabled
      ones were listed exactly if each disabled entry that comes first for its protocol and
      port has an enabled one behind it, the first of which leads to the same target. */
  lemma EnabledFlagHonouredExactly(pfs: seq<PortForward>, wan: string)
    ensures (forall p :: PortForwardFlow(pfs, wan, p) == PortForwardFlow(EnabledOnly(pfs), wan, p)) <==>
            forall i :: 0 <= i < |pfs| && !HasEarlier(pfs, i) ==> FlagHasNoEffect(pfs, i)
  {
    if forall i :: 0 <= i < |pfs| && !HasEarlier(pfs, i) ==> FlagHasNoEffect(pfs, i) {
      forall p
        ensures PortForwardFlow(pfs, wan, p) == PortForwardFlow(EnabledOnly(pfs), wan, p)
      {
        if ForwardFor(pfs, p).Some? {
          var i := FirstServing(pfs, p);
          OneServiceExactly(pfs, p, i);
        } else {
          PacketActsAlike(pfs, p);
        }
      }
    } else {
      var i :| 0 <= i < |pfs| && !HasEarlier(pfs, i) && !FlagHasNoEffect(pfs, i);
      var p := ProbePacket(pfs[i], wan);
      OneServiceExactly(pfs, p, i);
      assert PortForwardFlow(pfs, wan, p) != PortForwardFlow(EnabledOnly(pfs), wan, p);
    }
  }

  function ProbePacket(pf: PortForward, wan: string): Packet {
    Packet(wan, "", "", None, pf.proto, pf.externalPort, false, 0)
  }

  /** Packets for this forward never reach it: the WAN is a local segment with a local
      resolver, and the forward is for DNS or DNS over TLS. */
  predicate TakenByDns(c: Config, localDns: bool, pf: PortForward) {
    && localDns && IsLocal(c, Wan(c))
    && (|| (pf.proto in {Tcp, Udp} && pf.externalPort == DNS_PORT)
        || (pf.proto == Tcp && pf.externalPort == DOT_PORT))
  }

  lemma TakenExactly(c: Config, localDns: bool, pf: PortForward, p: Packet)
    requires p.iif == Wan(c) && Serves(pf, p)
    ensures TakenByDns(c, localDns, pf) ==>
              DnsIntercepted(c.bridges + c.vlans, localDns, p) || DotBlocked(c, localDns, p)
    ensures DnsIntercepted(c.bridges + c.vlans, localDns, p) || DotBlocked(c, localDns, p) ==>
              TakenByDns(c, localDns, pf) || p.dst.Some?
  {
  }

  /** The chain compiled from the enabled forwards only. */
  ghost predicate MeansEnabledOnly(rules: seq<Rule>, c: Config, localDns: bool) {
    MeansPrerouting(rules, c.(portForwards := EnabledOnly(c.portForwards)), localDns)
  }

  lemma ChainsAgreeExactly(c: Config, rules: seq<Rule>, rules': seq<Rule>, localDns: bool, sets: Sets, p: Packet)
    requires MeansPrerouting(rules, c, localDns) && MeansEnabledOnly(rules', c, localDns)
    ensures Eval(rules, sets, p) == Eval(rules', sets, p) <==>
            || DnsIntercepted(c.bridges + c.vlans, localDns, p) || DotBlocked(c, localDns, p) || p.iif != Wan(c)
            || ActAlike(ForwardFor(c.portForwards, p), ForwardFor(EnabledOnly(c.portForwards), p))
  {
    var c' := c.(portForwards := EnabledOnly(c.portForwards));
    assert Eval(rules, sets, p) == PreroutingPolicy(c, MarksOf(c.gateways), localDns, p);
    assert Eval(rules', sets, p) == PreroutingPolicy(c', MarksOf(c.gateways), localDns, p);
  }

  /** The condition of EnabledFlagHonouredExactly on the entries that DNS does not take. */
  predicate FlagsHaveNoEffect(c: Config, localDns: bool) {
    var pfs := c.portForwards;
    forall i :: 0 <= i < |pfs| && !HasEarlier(pfs, i) && !TakenByDns(c, localDns, pfs[i]) ==> FlagHasNoEffect(pfs, i)
  }

  lemma FlagsWithoutEffect(c: Config, rules: seq<Rule>, rules': seq<Rule>, localDns: bool, sets: Sets, p: Packet)
    requires MeansPrerouting(rules, c, localDns) && MeansEnabledOnly(rules', c, localDns)
    requires FlagsHaveNoEffect(c, localDns)
    ensures Eval(rules, sets, p) == Eval(rules', sets, p)
  {
    var pfs := c.portForwards;
    ChainsAgreeExactly(c, rules, rules', localDns, sets, p);
    if ForwardFor(pfs, p).Some? {
      var i := FirstServing(pfs, p);
      OneServiceExactly(pfs, p, i);
      if p.iif == Wan(c) {
        TakenExactly(c, localDns, pfs[i], p);
      }
    } else {
      PacketActsAlike(pfs, p);
    }
  }

  /** The same for the whole emitted chain: it acts as the chain compiled from the enabled
      forwards only, exactly under that condition on the entries that DNS does not take. */
  lemma EnabledFlagInChainExactly(c: Config, rules: seq<Rule>, rules': seq<Rule>, localDns: bool)
    requires MeansPrerouting(rules, c, localDns) && MeansEnabledOnly(rules', c, localDns)
    ensures (forall sets, p :: Eval(rules, sets, p) == Eval(rules', sets, p)) <==> FlagsHaveNoEffect(c, localDns)
  {
    var pfs := c.portForwards;
    if FlagsHaveNoEffect(c, localDns) {
      forall sets, p
        ensures Eval(rules, sets, p) == Eval(rules', sets, p)
      {
        FlagsWithoutEffect(c, rules, rules', localDns, sets, p);
      }
    } else {
      var i :| 0 <= i < |pfs| && !HasEarlier(pfs, i) && !TakenByDns(c, localDns, pfs[i]) && !FlagHasNoEffect(pfs, i);
      var p, sets := ProbePacket(pfs[i], Wan(c)), Sets(map[], map[]);
      OneServiceExactly(pfs, p, i);
      TakenExactly(c, localDns, pfs[i], p);
      ChainsAgreeExactly(c, rules, rules', localDns, sets, p);
      assert Eval(rules, sets, p) != Eval(rules', sets, p);
    }
  }

  /** The failing input: a single forward, switched off, still rewrites a packet from the WAN. */
  lemma DisabledForwardRewrites(c: Config, rules: seq<Rule>, localDns: bool, sets: Sets)
    requires MeansPrerouting(rules, c, localDns) && !IsLocal(c, Wan(c))
    requires c.portForwards == [PortForward(Tcp, 8080, "192.168.1.10", 80, false)]
    ensures var p := Packet(Wan(c), "", "", None, Tcp, 8080, false, 0);
            && Eval(rules, sets, p).verdict == ToHost("192.168.1.10", 80)
            && ForwardFor(EnabledOnly(c.portForwards), p) == None
  {
    var p := Packet(Wan(c), "", "", None, Tcp, 8080, false, 0);
    assert Eval(rules, sets, p) == PreroutingPolicy(c, MarksOf(c.gateways), localDns, p);
    FirstForwardWins(c.portForwards, p, 0);
    assert c.portForwards[..0] == [];
  }

  /** The packet once rewritten to the forward's host, as it meets the forward chain. */
  function Rewritten(p: Packet, pf: PortForward, oif: string, dst: Option<Address>): Packet {
    p.(oif := oif, dst := dst, dport := pf.internalPort)
  }

  /** A packet from the WAN is rewritten to its forward's host exactly if it is taken for no
      name query (or one that goes to the same place) and not for DNS over TLS. */
  lemma RewrittenExactly(c: Config, rules: seq<Rule>, localDns: bool, sets: Sets, p: Packet, pf: PortForward)
    requires MeansPrerouting(rules, c, localDns)
    requires p.iif == Wan(c) && ForwardFor(c.portForwards, p) == Some(pf)
    ensures Eval(rules, sets, p).verdict == ToHost(pf.internalIp, pf.internalPort) <==>
            if DnsIntercepted(c.bridges + c.vlans, localDns, p)
            then DnsStatement(c, localDns) == Dnat(pf.internalIp, pf.internalPort)
            else !DotBlocked(c, localDns, p)
  {
    assert Eval(rules, sets, p) == PreroutingPolicy(c, MarksOf(c.gateways), localDns, p);
  }

  /** The rewritten packet passes the forward chain exactly if no block applies and the zones
      let the WAN reach the interface it is routed to. */
  lemma RewrittenPassesExactly(c: Config, rules: seq<Rule>, sets: Sets, p: Packet, pf: PortForward,
                               oif: string, dst: Option<Address>)
    requires MeansForward(rules, c) && p.iif == Wan(c) && !p.established
    ensures AcceptedBy(rules, sets, Rewritten(p, pf, oif, dst)) <==>
            DropReason(c, sets, Rewritten(p, pf, oif, dst)) == None && ZoneAllows(c, Wan(c), oif)
  {
    var q := Rewritten(p, pf, oif, dst);
    assert Eval(rules, sets, q) == ForwardPolicy(c, sets, q);
  }

  /** Over all set contents and routes: the forward chain ever passes the rewritten packet
      exactly if the configuration opens the WAN and blocks neither QUIC nor a VPN port that
      the forward leads to. */
  lemma ForwardDeliverableExactly(c: Config, rules: seq<Rule>, p: Packet, pf: PortForward, dst: Option<Address>)
    requires MeansForward(rules, c) && p.iif == Wan(c) && !p.established
    ensures (exists sets, oif :: AcceptedBy(rules, sets, Rewritten(p, pf, oif, dst))) <==>
            var q := Rewritten(p, pf, p.oif, dst);
            WanOpen(c) && !HitsQuic(c, q) && !HitsVpnProtocol(c, q)
  {
    WanOpenMeansAllowed(c);
    forall sets, oif
      ensures AcceptedBy(rules, sets, Rewritten(p, pf, oif, dst)) <==>
              DropReason(c, sets, Rewritten(p, pf, oif, dst)) == None && ZoneAllows(c, Wan(c), oif)
    {
      RewrittenPassesExactly(c, rules, sets, p, pf, oif, dst);
    }
    if o :| ZoneAllows(c, Wan(c), o) {
      var sets := Sets(map[], map[]);
      var q := Rewritten(p, pf, o, dst);
      assert !HitsDoh(c, sets, q) && !HitsVpnEndpoint(c, sets, q) && MacReason(c, sets, q) == None;
      assert !HitsQuic(c, q) && !HitsVpnProtocol(c, q) ==> AcceptedBy(rules, sets, q);
    }
  }

  /** A forward delivers a new packet exactly if both chains let it. */
  lemma PortForwardDeliversExactly(c: Config, rs: Ruleset, localDns: bool, sets: Sets, p: Packet, pf: PortForward,
                                   oif: string, dst: Option<Address>)
    requires MeansForward(rs.forward, c) && MeansPrerouting(rs.prerouting, c, localDns)
    requires p.iif == Wan(c) && !p.established && ForwardFor(c.portForwards, p) == Some(pf)
    ensures Eval(rs.prerouting, sets, p).verdict == ToHost(pf.internalIp, pf.internalPort)
            && AcceptedBy(rs.forward, sets, Rewritten(p, pf, oif, dst)) <==>
            && (if DnsIntercepted(c.bridges + c.vlans, localDns, p)
                then DnsStatement(c, localDns) == Dnat(pf.internalIp, pf.internalPort)
                else !DotBlocked(c, localDns, p))
            && DropReason(c, sets, Rewritten(p, pf, oif, dst)) == None
            && ZoneAllows(c, Wan(c), oif)
  {
    RewrittenExactly(c, rs.prerouting, localDns, sets, p, pf);
    RewrittenPassesExactly(c, rs.forward, sets, p, pf, oif, dst);
  }

  /** So with the WAN closed no forward, enabled or not, ever delivers a new packet. */
  lemma PortForwardsAreNotDelivered(c: Config, rs: Ruleset, localDns: bool, sets: Sets, p: Packet,
                                    oif: string, dst: Option<Address>)
    requires MeansForward(rs.forward, c) && MeansPrerouting(rs.prerouting, c, localDns)
    requires !WanOpen(c)
    requires p.iif == Wan(c) && !p.established && ForwardFor(c.portForwards, p).Some?
    ensures var pf := ForwardFor(c.portForwards, p).value;
            && (!IsLocal(c, Wan(c)) ==>
                  Eval(rs.prerouting, sets, p).verdict == ToHost(pf.internalIp, pf.internalPort))
            && !AcceptedBy(rs.forward, sets, Rewritten(p, pf, oif, dst))
  {
    var pf := ForwardFor(c.portForwards, p).value;
    RewrittenExactly(c, rs.prerouting, localDns, sets, p, pf);
    ForwardDeliverableExactly(c, rs.forward, p, pf, dst);
  }

  // ---------- policy routing ----------

  /** Device i decides for its MAC: its override is effective and no later entry's is. */
  predicate DecidesOverride(c: Config, i: nat, mac: Mac, g: string) {
    && i < |c.devices| && c.devices[i].mac == mac && c.devices[i].gateway == Some(g)
    && g != "" && IsMarked(c.gateways, g)
    && forall j :: i < j < |c.devices| && c.devices[j].mac == mac ==>
         DeviceMark(c.devices[j], MarksOf(c.gateways)) == None
  }

  lemma {:induction false} OverrideOfDevice(devices: seq<Device>, marks: map<string, nat>, mac: Mac, i: nat)
    requires i < |devices| && devices[i].mac == mac && DeviceMark(devices[i], marks).Some?
    requires forall j :: i < j < |devices| && devices[j].mac == mac ==> DeviceMark(devices[j], marks) == None
    ensures OverrideMark(devices, marks, mac) == DeviceMark(devices[i], marks)
  {
    if i < |devices| - 1 {
      OverrideOfDevice(devices[..|devices| - 1], marks, mac, i);
    }
  }

  /** From the device entry to the wire: a packet that no DNS or port-853 rule ends leaves
      the prerouting chain with the gateway's mark. On any kernel it is then routed by the
      mark's own table exactly if no rule already in front of ours diverts it, and leaves by
      the interface of the last gateway with the overriding id unless that table has a more
      specific route. */
  lemma OverrideRoutesThroughGateway(c: Config, rules: seq<Rule>, cmds: seq<Command>, localDns: bool,
                                     k: Kernel, x: Traffic, sets: Sets, p: Packet, i: nat, g: string)
    requires MeansPrerouting(rules, c, localDns) && RoutesGateways(cmds, c)
    requires !DnsIntercepted(c.bridges + c.vlans, localDns, p) && !DotBlocked(c, localDns, p)
    requires DecidesOverride(c, i, p.smac, g)
    ensures InterfaceOf(c.gateways, g).Some?
    ensures var k', m := ExecuteAll(cmds, k), Eval(rules, sets, p).mark;
            var first := OwnTableFirst(k, x, TablesAfter(k, x, MarksOf(c.gateways)), m);
            && (TableFor(k', x, m) == Some(m) <==> first)
            && (first ==>
                  RouteFor(k', x, m) == if m in x.specific then Some(x.specific[m]) else InterfaceOf(c.gateways, g))
  {
    var marks := MarksOf(c.gateways);
    MarksAreDistinct(c.gateways);
    OverrideOfDevice(c.devices, marks, p.smac, i);
    assert Eval(rules, sets, p) == PreroutingPolicy(c, marks, localDns, p);
    assert Eval(rules, sets, p).mark == marks[g];
    OwnTableUsedExactly(c.gateways, k, ExecuteAll(cmds, k), x, g);
  }

  /** In particular on a kernel where nothing diverts our marks in front of our rules, as one
      without our rules, and one on which the commands ran any number of times. */
  lemma OverrideOnOwnKernel(c: Config, rules: seq<Rule>, cmds: seq<Command>, localDns: bool,
                            k: Kernel, x: Traffic, sets: Sets, p: Packet, i: nat, g: string)
    requires MeansPrerouting(rules, c, localDns) && RoutesGateways(cmds, c) && OwnMarks(k, x)
    requires !DnsIntercepted(c.bridges + c.vlans, localDns, p) && !DotBlocked(c, localDns, p)
    requires DecidesOverride(c, i, p.smac, g)
    ensures var m := Eval(rules, sets, p).mark;
            RouteFor(ExecuteAll(cmds, k), x, m) ==
            if m in x.specific then Some(x.specific[m]) else InterfaceOf(c.gateways, g)
    ensures OwnMarks(ExecuteAll(cmds, k), x)
  {
    OverrideRoutesThroughGateway(c, rules, cmds, localDns, k, x, sets, p, i, g);
    OwnMarksComeFirst(k, x, TablesAfter(k, x, MarksOf(c.gateways)), Eval(rules, sets, p).mark);
    RoutedKeepsOwnMarks(c.gateways, MarksOf(c.gateways), k, ExecuteAll(cmds, k), x);
  }

  lemma {:induction false} NoOverride(devices: seq<Device>, marks: map<string, nat>, mac: Mac)
    requires forall d <- devices :: d.mac == mac ==> DeviceMark(d, marks) == None
    ensures OverrideMark(devices, marks, mac) == None
  {
    if devices != [] {
      NoOverride(devices[..|devices| - 1], marks, mac);
    }
  }

  /** A device without an effective override keeps the mark its packet came with. */
  lemma OthersKeepTheirMark(c: Config, rules: seq<Rule>, localDns: bool, sets: Sets, p: Packet)
    requires MeansPrerouting(rules, c, localDns)
    requires forall d <- c.devices :: d.mac == p.smac ==> DeviceMark(d, MarksOf(c.gateways)) == None
    ensures Eval(rules, sets, p).mark == p.mark
  {
    NoOverride(c.devices, MarksOf(c.gateways), p.smac);
    assert Eval(rules, sets, p) == PreroutingPolicy(c, MarksOf(c.gateways), localDns, p);
  }
}
