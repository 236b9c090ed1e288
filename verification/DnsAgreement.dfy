/**
 The DHCP compiler and the firewall compiler never meet, yet have to agree: a client that
 is told to ask its own router for names must find a resolver there.
 */
module DnsAgreement {
  import opened RouterConfig
  import opened Strings
  import opened Nftables
  import opened FirewallPolicy
  import opened PolicyRouting
  import opened Firewall
  import opened Dhcp

  /** A name query from a client of the subnet to the advertised resolver. */
  predicate QueryToRouter(sub: Subnet, s: Segment, p: Packet) {
    && p.iif == sub.iface && p.proto in {Tcp, Udp} && p.dport == DNS_PORT
    && p.dst.Some? && p.dst == OwnAddress(s.address)
  }

  /** Whenever a subnet advertises its own interface address, the firewall compiled from the
      same configuration rewrites queries sent there: to the local resolver when one is
      active, otherwise to the first forwarder, or 1.1.1.1 without forwarders. */
  lemma AdvertisedResolverAnswers(c: Config, localDns: bool, kea: KeaConfig, rules: seq<Rule>,
                                  i: nat, s: Segment, sets: Sets, p: Packet)
    requires Compiled(c, localDns, kea) && MeansPrerouting(rules, c, localDns)
    requires i < |kea.subnets|
    requires s == (Served(c.bridges) + Served(c.vlans))[i]
    requires kea.subnets[i].dnsServers == kea.subnets[i].routers
    requires QueryToRouter(kea.subnets[i], s, p)
    ensures Eval(rules, sets, p).verdict ==
            if localDns then ToLocal(DNS_PORT)
            else if c.forwarders == [] then ToHost("1.1.1.1", DNS_PORT)
            else ToHost(c.forwarders[0], DNS_PORT)
  {
    var n := |Served(c.bridges)|;
    if i < n {
      assert kea.subnets[..n][i] == kea.subnets[i];
      assert s in c.bridges;
    } else {
      assert kea.subnets[n..][i - n] == kea.subnets[i];
      assert s in c.vlans;
    }
    assert s in c.bridges + c.vlans && s.name == p.iif;
    assert DnsIntercepted(c.bridges + c.vlans, localDns, p);
    assert Eval(rules, sets, p) == PreroutingPolicy(c, MarksOf(c.gateways), localDns, p);
  }

  /** When the router's own address is advertised: exactly if a local resolver is active,
      no forwarder is configured, or the forwarders spell that address. */
  lemma AdvertisesOwnAddress(c: Config, localDns: bool, kea: KeaConfig, i: nat)
    requires Compiled(c, localDns, kea) && i < |kea.subnets|
    ensures kea.subnets[i].dnsServers == kea.subnets[i].routers <==>
            localDns || c.forwarders == [] || Join(c.forwarders, ", ") == kea.subnets[i].routers
  {
    var n := |Served(c.bridges)|;
    if i < n {
      assert kea.subnets[..n][i] == kea.subnets[i];
    } else {
      assert kea.subnets[n..][i - n] == kea.subnets[i];
    }
  }
}
