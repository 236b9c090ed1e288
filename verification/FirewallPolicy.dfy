/**
 What the compiled firewall is supposed to mean, stated over configurations and packets
 without mentioning rules. FirewallManager proves that the rules it emits mean this.
 */
module FirewallPolicy {
  import opened Wrappers
  import opened RouterConfig
  import opened Nftables

  function Wan(c: Config): string {
    WanInterface(c.interfaces)
  }

  // ---------- forward chain: who may talk to whom ----------

  /** zone_map[id]: a later zone with the same id replaces an earlier one. */
  function ZoneById(zones: seq<Zone>, id: string): Option<Zone> {
    if zones == [] then None
    else if zones[|zones| - 1].id == id then Some(zones[|zones| - 1])
    else ZoneById(zones[..|zones| - 1], id)
  }

  /** The destination named in allow_zones leads to the outgoing interface. */
  predicate DestinationReaches(c: Config, dest: string, oif: string) {
    if dest == WAN_ZONE then oif == Wan(c)
    else ZoneById(c.zones, dest).Some? && oif in ZoneById(c.zones, dest).value.interfaces
  }

  predicate ZoneGrants(c: Config, z: Zone, iif: string, oif: string) {
    && z.id != WAN_ZONE
    && iif in z.interfaces
    && (if z.allowZones != [] then exists d <- z.allowZones :: DestinationReaches(c, d, oif)
        else oif == Wan(c) || (!z.isolate && IsLocal(c, oif) && oif != iif))
  }

  predicate IsLan(c: Config, name: string) {
    exists s <- c.bridges + c.vlans :: s.name == name && !s.isolate
  }

  predicate IsGuest(c: Config, name: string) {
    exists s <- c.bridges + c.vlans :: s.name == name && s.isolate
  }

  /** Without zones: LAN reaches the WAN and guests, guests reach the WAN. */
  predicate FlatAllows(c: Config, iif: string, oif: string) {
    || (IsLan(c, iif) && (oif == Wan(c) || IsGuest(c, oif)))
    || (IsGuest(c, iif) && oif == Wan(c))
  }

  predicate ZoneAllows(c: Config, iif: string, oif: string) {
    if c.zones != [] then exists z <- c.zones :: ZoneGrants(c, z, iif, oif)
    else FlatAllows(c, iif, oif)
  }

  // ---------- forward chain: who is blocked ----------

  predicate HitsDoh(c: Config, sets: Sets, p: Packet) {
    c.blockDoh && AddressIn(sets, DohServers, p.dst) && p.proto in {Tcp, Udp} && p.dport == 443
  }

  predicate HitsQuic(c: Config, p: Packet) {
    c.blockQuic && p.proto == Udp && p.dport == 443
  }

  const VPN_UDP_PORTS: set<nat> := {500, 1194, 1701, 4500, 51820}
  const VPN_TCP_PORTS: set<nat> := {1194, 1723}

  predicate HitsVpnProtocol(c: Config, p: Packet) {
    && c.blockVpns
    && (|| (p.proto == Udp && p.dport in VPN_UDP_PORTS)
        || (p.proto == Tcp && p.dport in VPN_TCP_PORTS)
        || (p.dst.Some? && p.proto in {Esp, Ah}))
  }

  predicate HitsVpnEndpoint(c: Config, sets: Sets, p: Packet) {
    c.blockVpns && c.customVpnIps != [] && AddressIn(sets, VpnServers, p.dst)
  }

  /** Which block of the sender, by MAC address, drops a new packet. */
  function MacReason(c: Config, sets: Sets, p: Packet): Option<string> {
    if MacIn(sets, Quarantined, p.smac) then Some("Quarantined")
    else if MacIn(sets, ScheduleBlocked, p.smac) && p.oif == Wan(c) then Some("Schedule_Block")
    else if MacIn(sets, AdminBlocked, p.smac) && p.oif == Wan(c) then Some("Admin_Block")
    else if MacIn(sets, BlockedClients, p.smac) then Some("Blocked_Client")
    else None
  }

  /** Why a new packet is dropped, as the log names it. */
  function DropReason(c: Config, sets: Sets, p: Packet): Option<string> {
    if MacReason(c, sets, p).Some? then MacReason(c, sets, p)
    else if HitsDoh(c, sets, p) then Some("DoH_Direct_IP")
    else if HitsQuic(c, p) then Some("QUIC_Drop")
    else if HitsVpnProtocol(c, p) then Some("VPN_Protocol")
    else if HitsVpnEndpoint(c, sets, p) then Some("VPN_Endpoint")
    else None
  }

  /** Verdict and log of the forward chain; its policy turns Undecided into a drop. */
  function ForwardPolicy(c: Config, sets: Sets, p: Packet): Flow {
    if p.established then Flow(Accepted, p.mark, [])
    else if DropReason(c, sets, p).Some? then Flow(Dropped, p.mark, [DropReason(c, sets, p).value])
    else if ZoneAllows(c, p.iif, p.oif) then Flow(Accepted, p.mark, [])
    else Flow(Undecided, p.mark, ["Default_Forward_Drop"])
  }

  // ---------- prerouting chain ----------

  const DNS_PORT: nat := 53
  const DOT_PORT: nat := 853
  const FALLBACK_DNS := "1.1.1.1"

  function PrimaryDns(c: Config): string {
    if c.forwarders != [] then c.forwarders[0] else FALLBACK_DNS
  }

  function DnsStatement(c: Config, localDns: bool): Statement {
    if localDns then Redirect(DNS_PORT) else Dnat(PrimaryDns(c), DNS_PORT)
  }

  /** A DNS query arriving on a local segment: any query when a local resolver runs,
      otherwise one sent to that segment's own address. */
  predicate DnsIntercepted(segments: seq<Segment>, localDns: bool, p: Packet) {
    && p.proto in {Tcp, Udp}
    && p.dport == DNS_PORT
    && exists s <- segments ::
         && s.name == p.iif
         && (localDns || (p.dst.Some? && p.dst == OwnAddress(s.address)))
  }

  predicate DotBlocked(c: Config, localDns: bool, p: Packet) {
    localDns && p.proto == Tcp && p.dport == DOT_PORT && IsLocal(c, p.iif)
  }

  /** The mark an override gives a device, if the override names a marked gateway. */
  function DeviceMark(d: Device, marks: map<string, nat>): Option<nat> {
    if d.gateway.Some? && d.gateway.value != "" && d.gateway.value in marks
    then Some(marks[d.gateway.value])
    else None
  }

  /** The last device entry with that MAC and an effective override decides. */
  function OverrideMark(devices: seq<Device>, marks: map<string, nat>, mac: Mac): Option<nat> {
    if devices == [] then None
    else
      var d := devices[|devices| - 1];
      if d.mac == mac && DeviceMark(d, marks).Some? then DeviceMark(d, marks)
      else OverrideMark(devices[..|devices| - 1], marks, mac)
  }

  function MarkAfter(devices: seq<Device>, marks: map<string, nat>, p: Packet): nat {
    var m := OverrideMark(devices, marks, p.smac);
    if m.Some? then m.value else p.mark
  }

  /** The first port forward for the packet's protocol and port. */
  function ForwardFor(pfs: seq<PortForward>, p: Packet): Option<PortForward> {
    if pfs == [] then None
    else
      var earlier := ForwardFor(pfs[..|pfs| - 1], p);
      var last := pfs[|pfs| - 1];
      if earlier.Some? then earlier
      else if last.proto == p.proto && last.externalPort == p.dport then Some(last)
      else None
  }

  /** The forwards an administrator left switched on. */
  function EnabledOnly(pfs: seq<PortForward>): seq<PortForward> {
    if pfs == [] then []
    else
      var earlier, last := EnabledOnly(pfs[..|pfs| - 1]), pfs[|pfs| - 1];
      if last.enabled then earlier + [last] else earlier
  }

  function PreroutingPolicy(c: Config, marks: map<string, nat>, localDns: bool, p: Packet): Flow {
    if DnsIntercepted(c.bridges + c.vlans, localDns, p) then
      Flow(VerdictOf(DnsStatement(c, localDns)), p.mark, [])
    else if DotBlocked(c, localDns, p) then Flow(Dropped, p.mark, [])
    else
      var pf := ForwardFor(c.portForwards, p);
      var mark := MarkAfter(c.devices, marks, p);
      if p.iif == Wan(c) && pf.Some? then Flow(ToHost(pf.value.internalIp, pf.value.internalPort), mark, [])
      else Flow(Undecided, mark, [])
  }

  // ---------- postrouting chain ----------

  predicate MasqueradedOn(wan: string, gws: seq<Gateway>, oif: string) {
    oif == wan || exists g <- gws :: g.id != DEFAULT_GATEWAY && g.iface == oif
  }
}
