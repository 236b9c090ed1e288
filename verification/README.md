# RoostOS engine: verified model

RoostOS turns a router's configuration into an nftables ruleset, policy-routing commands and
a Kea DHCP configuration, watches the network through alert rules, replicates configuration
over a cluster with failover, and enrols edge gateways with single-use tokens. This project
models those parts of `roostos-engine` and proves what their users rely on. It is plain
Dafny 4.11; `dafny verify dfyconfig.toml` checks everything.

## How it is laid out

Each component has a specification on values and, where the source changes state, methods and
classes in the source's own form proved to compute exactly that specification. The theorems
start from the contracts of those methods.

- Firewall: `Nftables` (rules as data, first-match evaluation in which `log` and
  `meta mark set` do not end the chain), `FirewallPolicy` (what the configuration is supposed
  to mean, with no rules in it), `FirewallManager` (the compiler loops), `PolicyRouting`
  (marks, and a kernel of default routes and fwmark rules), `FirewallTheorems`, and
  `FirewallFields` (what the chains do, in the configuration's own fields).
- DHCP: `Ipv4`, `DhcpManager`, `DhcpTheorems`, and `DnsAgreement`, where the DHCP and the
  firewall compiler meet.
- Alerts: `AlertSpec` (the engine as a value), `AlertTheorems` (every run), `AlertFields`
  (thresholds and texts), `AlertManager` (the heap, where the dictionary and the history
  share objects).
- Cluster: `Replication` (a replica's disk, one system call at a time, with failures and
  crashes), `ClusterReplicator` (manifests, bundles, their application as a run of that
  machine), `AntiEntropy` (convergence), `ClusterSync` (failover), `ClusterManager` (command
  queue, join tokens).
- Edge: `EdgeTokenStore` (specification and theorems), `EdgeManager` (the objects).
- Codecs: `Strings`, `TextFiles`, `ScopeCodec`, `EndpointPattern`, `EndpointRewrite`,
  `NetdevFiles`.

## Where the code does less than it seems to promise

In each case the model follows the code, a lemma gives an input that fails or the condition
names one, and the exact condition is proved in both directions.

- With an injective hash, anti-entropy settles exactly if every managed file on the
  controller is valid UTF-8 and holds no carriage return. Manifests hash raw bytes and
  bundles are read in text mode: a file with `\r` never matches
  (`CarriageReturnNeverMatches`), a file that does not decode fails the whole bundle
  (`UndecodableNeverMatches`), and every later pass synchronises again
  (`SyncConvergesExactly`, `LoopSettlesExactly`). With a `\r` a partial application can even
  spoil a matching file (`PartialAppliesNeverHurtExactly`).
- An accepted bootstrap token is accepted again exactly if it has not expired and some
  candidate file that names it survives: a failed save or removal, another directory's
  `edge_tokens.json`, a state file under another name, or `edge_bootstrap.json` in the
  configuration directory, which is read but never cleared (`AcceptedAgainExactly`,
  `ConsumedComesBackExactly`, `BootstrapInConfigDirIsReplayed`).
- The `enabled` flag of a port forward is never read: a single disabled forward rewrites a
  WAN packet (`DisabledForwardRewrites`). The list acts on every packet as if only enabled
  entries were in it exactly if behind each disabled entry that comes first for its protocol
  and port the first enabled one leads to the same target (`EnabledFlagHonouredExactly`); for
  the whole chain, entries that DNS rules take do not count (`EnabledFlagInChainExactly`).
- A port forward emits the rewrite but no accept rule. A new packet is delivered exactly if
  no DNS or port-853 rule takes it first, no block applies, and the zones let the WAN reach
  the interface (`PortForwardDeliversExactly`); over all routes and set contents the forward
  chain passes it exactly if the configuration opens the WAN and blocks neither QUIC nor a
  VPN port it leads to (`ForwardDeliverableExactly`). With the WAN closed none is delivered.
- Gateway marks double as routing-table ids. They stay off the kernel's tables 253 to 255
  exactly if no id's last entry is the 154th to 156th non-default one, so always for at most
  153 of them (`ReservedTablesAvoided`).
- Routing commands never remove rules. A packet with a gateway's mark is routed by the mark's
  own table exactly if no rule already in front of ours, whatever it selects by, sends it to
  another table with a route for it (`OwnTableUsedExactly`, `ForeignRuleWins`).
- A VLAN's default pool lies in its subnet exactly for prefixes up to 24 (`FixedPoolFits`).
- Addresses added to the VPN set at run time are blocked exactly if the configuration listed
  one to begin with (`VpnSetBlocksExactly`).
- A good sample is not the only thing that resolves an alert: the alert of a rule and node is
  active exactly if the rule's own query was answered with a sample of that node over the
  threshold (`ActiveExactly`), so one failed query resolves all alerts of its rule
  (`FailedQueryResolvesItsRule`). This takes ids that cannot share a key; two ids can exactly
  if one followed by `:` begins the other (`KeysCollideExactly`).
- The failover counter is not a count of failed heartbeats: threshold 3 promotes after two
  (`PromotedAfterTwoFailedHeartbeats`). It is their number in a row exactly if the pass
  before them did not fail behind a successful heartbeat, and one more otherwise
  (`CounterCountsHeartbeatsExactly`).
- A scope list survives its certificate exactly if every scope is ASCII, trimmed, non-empty,
  not `none`, and free of commas and of the marker (`RoundTripExactly`); another character
  raises (`NonAsciiScopeRaises`).
- An endpoint update writes no endpoint exactly if the file has none and mentions
  `[WireGuardPeer]`, but never directly before a newline (`EndpointIsThereExactly`).

## Model

| member | source | states |
|---|---|---|
| Firewall.CompileForward | roostos-engine/src/roostos_engine/firewall_manager.py:176-262 | for every packet and every content of the kernel's sets, first-match evaluation of the emitted forward rules gives the verdict and the log line the declarative policy gives |
| FirewallTheorems.ForwardAcceptsExactly | roostos-engine/src/roostos_engine/firewall_manager.py:176-262 | under policy drop a packet passes if and only if it is established, or it hits none of the four MAC drops, none of the enabled anti-evasion drops, and the zones (or the flat fallback) allow the interface pair |
| FirewallFields.WanIsFirst | roostos-engine/src/roostos_engine/firewall_manager.py:19-25 | the WAN is the first interface with that role, or eth0 if there is none |
| FirewallFields.DropsAreLogged | roostos-engine/src/roostos_engine/firewall_manager.py:178-213 | a new packet is dropped and logged by the first of the eight blocks that applies, each spelled out in set members, addresses, protocols and ports; otherwise by none of them |
| FirewallFields.EstablishedPass | roostos-engine/src/roostos_engine/firewall_manager.py:178 | a packet of an established connection is accepted without a log line |
| FirewallFields.GuestsReachOnlyTheWan | roostos-engine/src/roostos_engine/firewall_manager.py:254-255 | without zones, from an interface whose segments are all isolated an unblocked new packet passes if and only if it goes to the WAN |
| FirewallFields.LanReachesWanAndGuests | roostos-engine/src/roostos_engine/firewall_manager.py:247-250 | without zones, from an interface with a segment that is not isolated it passes if and only if it goes to the WAN or to an isolated segment |
| FirewallFields.OthersReachNothing | roostos-engine/src/roostos_engine/firewall_manager.py:245-258 | without zones, from an interface that is no segment nothing passes |
| FirewallFields.ZonesAcceptExactly | roostos-engine/src/roostos_engine/firewall_manager.py:217-244 | with zones an unblocked new packet passes if and only if some zone other than "wan" has its interface and names a destination with the outgoing one, or names none and the packet goes to the WAN or, if not isolated, to another segment |
| FirewallFields.IsolatedZonesReachOnlyTheWan | roostos-engine/src/roostos_engine/firewall_manager.py:236-238 | zones that are isolated and name no destination reach the WAN and nothing else |
| FirewallFields.OpenZonesReachEverySegment | roostos-engine/src/roostos_engine/firewall_manager.py:239-244 | a zone that is not isolated and names no destination reaches the WAN and every other segment |
| FirewallFields.DefaultResolversExactly | roostos-engine/src/roostos_engine/firewall_manager.py:77-81 | the built-in resolver list holds exactly thirteen addresses and four /24 networks, written out in hexadecimal |
| Firewall.LocalInterfaces | roostos-engine/src/roostos_engine/firewall_manager.py:53-71 | the two lists hold exactly the non-isolated and the isolated bridges and VLANs |
| Firewall.ZoneMap | roostos-engine/src/roostos_engine/firewall_manager.py:219 | the map has exactly the ids of some zone, and for each the last zone with that id |
| Firewall.RulesOfZone | roostos-engine/src/roostos_engine/firewall_manager.py:220-244 | a pair is allowed by the zone's rules if and only if the zone grants it: explicit destinations, or WAN only if isolated, or WAN and all other local interfaces |
| Firewall.ZoneRules | roostos-engine/src/roostos_engine/firewall_manager.py:217-244 | a pair is allowed if and only if some zone grants it |
| Firewall.FlatRules | roostos-engine/src/roostos_engine/firewall_manager.py:245-258 | without zones a pair is allowed if and only if it leads from LAN to the WAN or a guest network, or from a guest network to the WAN |
| Firewall.HeadMeans | roostos-engine/src/roostos_engine/firewall_manager.py:178-213 | the rules in front of the zones accept established packets and otherwise drop and log by the first reason in the documented order |
| Firewall.CompilePrerouting | roostos-engine/src/roostos_engine/firewall_manager.py:270-312 | for every packet the emitted prerouting rules give the declarative outcome: DNS rewrite, port-853 drop, mark of the last effective override, first port forward |
| Firewall.DnsRules | roostos-engine/src/roostos_engine/firewall_manager.py:275-297 | a rule matches if and only if the packet is a TCP or UDP port-53 packet arriving on a bridge or VLAN, and without local resolver sent to that interface's own address |
| Firewall.MarkRules | roostos-engine/src/roostos_engine/firewall_manager.py:299-303 | no packet is ended by these rules, and it leaves with the mark of the last device entry for its MAC that has an effective override |
| Firewall.PortForwardRules | roostos-engine/src/roostos_engine/firewall_manager.py:305-312 | a WAN packet goes to the first port forward listed for its protocol and port, whether enabled or not |
| Firewall.CompilePostrouting | roostos-engine/src/roostos_engine/firewall_manager.py:314-326 | a packet is masqueraded if and only if it leaves by the WAN or by a non-default gateway's interface |
| FirewallFields.LocalResolverAnswers | roostos-engine/src/roostos_engine/firewall_manager.py:276-285 | with a local resolver every TCP or UDP port-53 packet of a segment goes to port 53 of the router, and a TCP port-853 packet is dropped |
| FirewallFields.ForwarderAnswers | roostos-engine/src/roostos_engine/firewall_manager.py:286-297 | without one a port-53 packet to a segment's own address goes to the first forwarder, or 1.1.1.1 |
| FirewallFields.OtherPacketsPass | roostos-engine/src/roostos_engine/firewall_manager.py:275-312 | every other packet keeps its destination, unless it arrives on the WAN for a port forward |
| FirewallFields.FirstForwardCounts | roostos-engine/src/roostos_engine/firewall_manager.py:305-312 | the first forward listed for the protocol and port counts |
| FirewallFields.MasqueradesExactly | roostos-engine/src/roostos_engine/firewall_manager.py:314-326 | a packet is masqueraded if and only if it leaves by the WAN or the interface of a gateway other than "default" |
| Nftables.InterfaceRuleReads | roostos-engine/src/roostos_engine/firewall_manager.py:228 | a rule between two interfaces accepts exactly the packets that arrive on the one and leave by the other |
| Nftables.MarkingGoesOn | roostos-engine/src/roostos_engine/firewall_manager.py:303 | setting a mark leaves the packet to the next rule |
| Nftables.LoggingGoesOn | roostos-engine/src/roostos_engine/firewall_manager.py:261 | so does logging, after its line |
| Nftables.VerdictsEndTheChain | roostos-engine/src/roostos_engine/firewall_manager.py:178-181 | accept, drop, dnat and redirect end the chain |
| Firewall.FirewallManager.constructor | roostos-engine/src/roostos_engine/firewall_manager.py:8-17 | the mark dictionary is the running counter's: every non-default entry takes the next mark from 100, a repeated id its latest |
| Firewall.FirewallManager.CompileRuleset | roostos-engine/src/roostos_engine/firewall_manager.py:49-341 | the three chains mean the three policies for every packet, and the two address sets hold the defaults and the configured addresses |
| Firewall.FirewallManager.CompileRoutingSetupCmds | roostos-engine/src/roostos_engine/firewall_manager.py:354-364 | on every kernel the commands lead each gateway id's table to the interface of the last gateway with that id, put missing fwmark rules in front of the kernel's, and give or change no other table's default route |
| FirewallTheorems.BlockingIsMonotone | roostos-engine/src/roostos_engine/firewall_manager.py:193-213 | adding MACs or addresses to any set or switching on any block flag never turns a drop into an accept |
| FirewallTheorems.CustomAddressesOnlyBlock | roostos-engine/src/roostos_engine/firewall_manager.py:77-95 | adding custom DoH or VPN addresses and reloading never lets an additional packet through |
| FirewallTheorems.VpnSetBlocksExactly | roostos-engine/src/roostos_engine/firewall_manager.py:205-213 | with VPN blocking on, every address in the VPN set is blocked if and only if the configuration lists a custom VPN address |
| FirewallTheorems.TimeBlockIsLocal | roostos-engine/src/roostos_engine/firewall_manager.py:183-187 | membership in the schedule or admin set drops every new WAN-bound packet of the device and changes no outcome for any other packet, established ones of the device included |
| FirewallTheorems.WanOpenMeansAllowed | roostos-engine/src/roostos_engine/firewall_manager.py:216-258 | a condition on the configuration alone says when traffic arriving on the WAN interface is allowed anywhere |
| FirewallTheorems.WanStaysClosed | roostos-engine/src/roostos_engine/firewall_manager.py:176-262 | the forward chain takes no new flow from the WAN, for every zone graph and every content of the sets, if and only if that condition does not hold |
| FirewallTheorems.UnlistedWanIsClosed | roostos-engine/src/roostos_engine/firewall_manager.py:19-25 | a WAN interface that is no bridge or VLAN and in no zone but "wan" is closed |
| FirewallTheorems.EnabledFlagHonouredExactly | roostos-engine/src/roostos_engine/firewall_manager.py:305-312 | the forwards act on every packet as if only the enabled ones were listed if and only if behind each disabled entry that comes first for its protocol and port the first enabled one leads to the same target |
| FirewallTheorems.EnabledFlagInChainExactly | roostos-engine/src/roostos_engine/firewall_manager.py:275-312 | the emitted prerouting chain equals, on every packet, the one compiled from the enabled forwards only, if and only if that holds of the entries DNS and port-853 rules do not take |
| FirewallTheorems.DisabledForwardRewrites | roostos-engine/src/roostos_engine/models/firewall.py:4-10 | a single forward with enabled off rewrites a packet from the WAN |
| FirewallTheorems.RewrittenExactly | roostos-engine/src/roostos_engine/firewall_manager.py:275-312 | a WAN packet is rewritten to its forward's host if and only if no DNS rule takes it (or one that leads to the same place) and it is not dropped as DNS over TLS |
| FirewallTheorems.ForwardDeliverableExactly | roostos-engine/src/roostos_engine/firewall_manager.py:176-262 | over all set contents and routes the forward chain passes the rewritten packet if and only if the configuration opens the WAN and blocks neither QUIC nor a VPN port it leads to |
| FirewallTheorems.PortForwardDeliversExactly | roostos-engine/src/roostos_engine/firewall_manager.py:176-312 | a new packet is rewritten and passed if and only if no DNS or port-853 rule takes it first, no block applies to the rewritten packet, and the zones let the WAN reach the interface |
| FirewallTheorems.PortForwardsAreNotDelivered | roostos-engine/src/roostos_engine/firewall_manager.py:305-312 | with the WAN closed the forward chain refuses the rewritten packet wherever it is routed, although on a WAN that is no local segment it was rewritten |
| PolicyRouting.MarksAreDistinct | roostos-engine/src/roostos_engine/firewall_manager.py:10-17 | exactly the non-default ids are marked, marks are at least 100 and below the counter, and different ids have different marks |
| PolicyRouting.MarkByPosition | roostos-engine/src/roostos_engine/firewall_manager.py:10-17 | an id's mark is 100 plus the number of non-default entries before its last entry |
| FirewallFields.MarksCountUp | roostos-engine/src/roostos_engine/firewall_manager.py:10-17 | marks start at 100 and count on over the entries that are not "default" |
| FirewallFields.LastGatewayCounts | roostos-engine/src/roostos_engine/firewall_manager.py:358-362 | a gateway id stands for the interface of its last entry |
| PolicyRouting.ReservedTablesAvoided | roostos-engine/src/roostos_engine/firewall_manager.py:354-363 | used as table ids the marks avoid the kernel's tables 253 to 255 if and only if no id's last entry is the 154th to 156th non-default one; for distinct ids, if and only if there are at most 153 |
| PolicyRouting.OwnTableUsedExactly | roostos-engine/src/roostos_engine/firewall_manager.py:354-364 | on any kernel, whatever its rules select by, after the commands a packet with a gateway's mark is routed by the mark's table if and only if no rule already in front of ours diverts it to another table with a route for it; then by the last gateway with the id, unless that table has a more specific route |
| PolicyRouting.ForeignRuleWins | roostos-engine/src/roostos_engine/firewall_manager.py:362-363 | with a foreign rule for mark 100 in front of ours the commands leave the route foreign |
| FirewallTheorems.OverrideRoutesThroughGateway | roostos-engine/src/roostos_engine/firewall_manager.py:299-303 | end to end, on any kernel: a packet ended by no DNS or port-853 rule, from a MAC whose last effective override names gateway g, leaves with a mark whose table routes it if and only if no rule already in front diverts it, and then by the interface of the last gateway with id g, unless that table has a more specific route |
| FirewallTheorems.OverrideOnOwnKernel | roostos-engine/src/roostos_engine/firewall_manager.py:354-364 | in particular where nothing in front of our rules diverts our marks, as before the commands first run; running them keeps it so |
| FirewallTheorems.OthersKeepTheirMark | roostos-engine/src/roostos_engine/firewall_manager.py:300-303 | a packet of a device without an effective override keeps the mark it came with |
| Ipv4.ContainsIsInterval | roostos-engine/src/roostos_engine/dhcp_manager.py:14-21 | a block contains exactly the addresses from its network address on, as many as its size |
| Ipv4.NestedOrDisjoint | roostos-engine/src/roostos_engine/dhcp_manager.py:14-21 | two CIDR blocks share an address if and only if one contains the other |
| Dhcp.BridgePoolIsUsable | roostos-engine/src/roostos_engine/dhcp_manager.py:81-95 | for every address and prefix length the bridge's default pool is ordered and both ends are usable hosts of the subnet |
| Dhcp.UsableHostExactly | roostos-engine/src/roostos_engine/dhcp_manager.py:88 | usable are all addresses of the block, without its first and last for prefixes up to 30 |
| Dhcp.FixedPoolFits | roostos-engine/src/roostos_engine/dhcp_manager.py:139-148 | the VLAN's fixed .100 to .250 pool lies inside its subnet if and only if the prefix is at most 24 |
| Dhcp.MoreThan200Hosts | roostos-engine/src/roostos_engine/dhcp_manager.py:88-89 | a subnet has more than 200 usable hosts if and only if its prefix is at most 24 |
| Dhcp.GatherReservations | roostos-engine/src/roostos_engine/dhcp_manager.py:97-104 | the reservations are those of the devices whose static address the block contains, in device order |
| Dhcp.GatherSubnets | roostos-engine/src/roostos_engine/dhcp_manager.py:65-175 | one subnet per enabled segment with a well-formed address, numbered on from the given id, each with its block, pool, router, resolver and reservations; a malformed one is listed as interface and takes no id |
| Dhcp.CompileKeaConfig | roostos-engine/src/roostos_engine/dhcp_manager.py:58-215 | all bridges' subnets, then all VLANs', numbered throughout; the interface list, or "*" if it is empty |
| DhcpTheorems.SubnetsAreNumbered | roostos-engine/src/roostos_engine/dhcp_manager.py:106-123 | subnet ids are exactly 1 to n in emission order, however many entries were skipped |
| DhcpTheorems.DefaultPoolsOfConfig | roostos-engine/src/roostos_engine/dhcp_manager.py:81-148 | over a whole configuration every bridge's default pool is usable, and a VLAN's lies in its subnet if and only if the prefix is at most 24 |
| DhcpTheorems.DefaultPoolEnds | roostos-engine/src/roostos_engine/dhcp_manager.py:88-95 | every default pool in addresses: .100 to .250 of the network address for a VLAN and a bridge of prefix 24 or less, else from the sixth usable host, or the last if there are fewer, to the last |
| DhcpTheorems.CustomPoolOfSegment | roostos-engine/src/roostos_engine/dhcp_manager.py:82-86 | a pool is taken from the configuration if and only if both ends are given, first end first |
| DhcpTheorems.SubnetOfSegment | roostos-engine/src/roostos_engine/dhcp_manager.py:106-122 | each subnet has its segment's name and own address, the forwarders or that address as resolvers, and the aligned block around it |
| DhcpTheorems.ServedInOrder | roostos-engine/src/roostos_engine/dhcp_manager.py:66-79 | segments are served one by one in order |
| DhcpTheorems.ServedAlone | roostos-engine/src/roostos_engine/dhcp_manager.py:67-79 | a segment is listed as interface if DHCP is enabled, and gets a subnet if its address is well formed besides |
| DhcpTheorems.ReservedExactly | roostos-engine/src/roostos_engine/dhcp_manager.py:97-104 | a reservation is listed if and only if some device with that MAC and static address lies in the block |
| DhcpTheorems.ReservationsKeepOrder | roostos-engine/src/roostos_engine/dhcp_manager.py:97-104 | reservations come in device order: the list for a concatenation is the concatenation of the lists |
| DhcpTheorems.CountedBothWays | roostos-engine/src/roostos_engine/dhcp_manager.py:97-155 | counting reservations by subnet and by device gives the same number |
| DhcpTheorems.ReservationsPartition | roostos-engine/src/roostos_engine/dhcp_manager.py:97-155 | for every device list all reservations together are as many as the covered devices, if and only if no emitted subnet contains another |
| DhcpTheorems.CompiledReservationsPartition | roostos-engine/src/roostos_engine/dhcp_manager.py:58-175 | in a compiled configuration whose subnets do not contain each other, every device is reserved at most once and the total equals the covered devices |
| DnsAgreement.AdvertisedResolverAnswers | roostos-engine/src/roostos_engine/dhcp_manager.py:45-52 | whenever a subnet advertises its own interface address, the compiled firewall rewrites port-53 queries sent there to the local resolver if active, else to the first forwarder or 1.1.1.1 |
| DnsAgreement.AdvertisesOwnAddress | roostos-engine/src/roostos_engine/dhcp_manager.py:45-52 | a subnet advertises its own address if and only if a local resolver is active, no forwarder is configured, or the forwarders spell that address |
| AlertTheorems.EvaluationSettles | roostos-engine/src/roostos_engine/alert_manager.py:116-191 | after every evaluation the active keys are exactly the keys firing in it, and history entries already resolved are untouched |
| AlertTheorems.FiringKeysExactly | roostos-engine/src/roostos_engine/alert_manager.py:123-141 | a key fires if and only if some answered query has a sample with that key over its rule's threshold |
| AlertTheorems.ActiveExactly | roostos-engine/src/roostos_engine/alert_manager.py:123-176 | for ids that cannot share a key: after an evaluation the alert of a rule and node is active if and only if the rule's own query was answered with a sample of that node over the threshold |
| AlertFields.NumberFiresExactly | roostos-engine/src/roostos_engine/alert_manager.py:86-98 | for a sample r and a threshold t the alert is active if and only if r > t, r >= t, r < t, r <= t or r == t, as the operator says; any other operator never fires |
| AlertFields.NotANumberNeverFires | roostos-engine/src/roostos_engine/alert_manager.py:86-98 | NaN on either side never fires |
| AlertFields.InfinityFiresBySign | roostos-engine/src/roostos_engine/alert_manager.py:86-98 | an infinite sample lies above or below every number |
| AlertFields.InfiniteThreshold | roostos-engine/src/roostos_engine/alert_manager.py:86-98 | an infinite threshold lies above or below every other value and equals itself |
| AlertFields.UnlabelledAndUnparsed | roostos-engine/src/roostos_engine/alert_manager.py:130-137 | a text that is no number never fires, and a series without node label counts for node-01 |
| AlertFields.AlertFires | roostos-engine/src/roostos_engine/alert_manager.py:139-169 | what a new alert and its notification say, field by field |
| AlertFields.AlertResolves | roostos-engine/src/roostos_engine/alert_manager.py:171-189 | what the same alert and its second notification say when it no longer fires |
| AlertTheorems.FailedQueryResolvesItsRule | roostos-engine/src/roostos_engine/alert_manager.py:124-126 | one failed query resolves every alert of its rule |
| AlertTheorems.OutageResolvesEverything | roostos-engine/src/roostos_engine/alert_manager.py:124-126 | if no query succeeds, no alert stays active, whatever the rule ids |
| AlertTheorems.RunsKeepInv | roostos-engine/src/roostos_engine/alert_manager.py:116-202 | over every run and for every key the notifications alternate firing, resolved, firing, the last being firing if and only if the key is active; history entries are firing without resolution time if and only if they are the active one of their key |
| AlertTheorems.AcknowledgeMarksNewest | roostos-engine/src/roostos_engine/alert_manager.py:193-202 | acknowledging an id marks the newest history entry with that id and no other, whether it is active or not |
| AlertTheorems.KeysCollideExactly | roostos-engine/src/roostos_engine/alert_manager.py:137 | two rules can share a key if and only if one id followed by ':' begins the other |
| AlertTheorems.PlainIdsAreSeparate | roostos-engine/src/roostos_engine/alert_manager.py:137 | distinct ids without ':' cannot share a key |
| Alerting.AlertManager.EvaluateRules | roostos-engine/src/roostos_engine/alert_manager.py:116-191 | the heap goes exactly where the specification goes and keeps its invariant; the returned alerts are the new history objects in order |
| Alerting.AlertManager.ResolveKey | roostos-engine/src/roostos_engine/alert_manager.py:173-189 | the object popped from the dictionary is the one in the history: it becomes resolved there, one notification is sent, nothing else changes |
| Alerting.AlertManager.AcknowledgeAlert | roostos-engine/src/roostos_engine/alert_manager.py:193-202 | the heap goes where the specification goes, and the answer says whether there was an alert to mark |
| Alerting.AlertManager.FindInHistory | roostos-engine/src/roostos_engine/alert_manager.py:198-201 | the scan from the front stops at the newest entry with the id, or finds there is none |
| Alerting.ActiveOccursOnce | roostos-engine/src/roostos_engine/alert_manager.py:154-156 | every active alert object occurs exactly once in the history |
| Alerting.ActiveObjectsFire | roostos-engine/src/roostos_engine/alert_manager.py:154-176 | a history object is firing without resolution time if and only if it is the active object of its key, and resolved otherwise |
| Alerting.AlertHistoryIsNewest | roostos-engine/src/roostos_engine/alert_manager.py:208-210 | the history getter shows the newest entries, newest first, as many as asked for |
| Alerting.StaleKeysActive | roostos-engine/src/roostos_engine/alert_manager.py:172-174 | every key the second loop pops is in the dictionary when it is popped |
| Replication.RunsAreSafe | roostos-engine/src/roostos_engine/cluster_replicator.py:100-128 | whatever fails and wherever the process dies, every managed file holds its original content or a whole content from some received bundle, and no name but the managed files and their .bak and .tmp files is written |
| Replication.StepTouches | roostos-engine/src/roostos_engine/cluster_replicator.py:107-126 | one system call changes a managed file only by moving a whole temporary file with received content over it |
| Replication.NamesApart | roostos-engine/src/roostos_engine/cluster_replicator.py:111-119 | no backup or temporary name is a managed name, and none of one kind is of the other |
| Replication.ManagedExactly | roostos-engine/src/roostos_engine/cluster_replicator.py:11-18 | the managed names are the six configuration files |
| Replicator.ClusterReplicator.ComputeHashes | roostos-engine/src/roostos_engine/cluster_replicator.py:48-55 | one entry for each managed file that is there, with its hash, and no other |
| Replicator.ClusterReplicator.ExportBundle | roostos-engine/src/roostos_engine/cluster_replicator.py:74-98 | each managed file that is there, once, as text mode reads it, and no other; it raises if and only if one of them is not valid UTF-8 |
| Replicator.ClusterReplicator.CompareManifest | roostos-engine/src/roostos_engine/cluster_replicator.py:130-140 | the names whose local hash differs, in manifest order |
| Replicator.ClusterReplicator.ApplyBundle | roostos-engine/src/roostos_engine/cluster_replicator.py:100-128 | the application is a run of the step machine; the files before the first failure hold their new content, all other managed files are as they were; every file reached is backed up as asked for, and no other backup is touched; mock mode updates the mock dictionary only |
| Replicator.ClusterReplicator.WriteAndReplace | roostos-engine/src/roostos_engine/cluster_replicator.py:119-126 | the two calls are steps of the machine; success leaves the file with its new content and no temporary file, failure changes only the temporary file, and the backup is left alone |
| Replicator.ClusterReplicator.CopyBackup | roostos-engine/src/roostos_engine/cluster_replicator.py:112-117 | a copy of the file is made exactly if a backup is asked for and there is a file; a failing copy changes the backup path at most |
| Replicator.BackupsMade | roostos-engine/src/roostos_engine/cluster_replicator.py:112-117 | after an application with backups every file it reached has its first content under its name with .bak, if there was one and the copy worked; otherwise that path is as it was |
| Replicator.ContentSource | roostos-engine/src/roostos_engine/cluster_replicator.py:29-46 | in mock mode a mock file shadows the directory; the hash is the scheme and the digest of the raw bytes, or empty for a missing file |
| Replicator.UpdatedAt | roostos-engine/src/roostos_engine/cluster_replicator.py:102-104 | in mock mode every file of the bundle holds its new content |
| Replicator.UpdatedElsewhere | roostos-engine/src/roostos_engine/cluster_replicator.py:102-104 | and every other mock file what it held |
| TextFiles.ReadTextFaithful | roostos-engine/src/roostos_engine/cluster_replicator.py:89-90 | a file reads back in text mode as it is if and only if it holds no carriage return |
| TextFiles.ReadTextReplaces | roostos-engine/src/roostos_engine/cluster_replicator.py:89-90 | reading in text mode is first replacing carriage return and newline, then every carriage return left, by a newline |
| AntiEntropy.MismatchExactly | roostos-engine/src/roostos_engine/cluster_replicator.py:130-140 | a name is listed if and only if the controller has the file and the replica's copy does not show its hash |
| AntiEntropy.MismatchesInOrder | roostos-engine/src/roostos_engine/cluster_replicator.py:135-138 | mismatches come in the order of the manifest |
| AntiEntropy.ManifestReads | roostos-engine/src/roostos_engine/cluster_replicator.py:48-55 | a manifest entry is the scheme and the digest of the raw bytes |
| AntiEntropy.NoMismatchMeansEqual | roostos-engine/src/roostos_engine/cluster_replicator.py:130-140 | with an injective hash the list is empty if and only if every manifest file has equal contents |
| AntiEntropy.SyncConvergesExactly | roostos-engine/src/roostos_engine/cluster_replicator.py:74-98 | a synchronisation that was due and whose writes work leaves no mismatch if and only if the controller's managed files all decode and hold no carriage return; if all decode, exactly the others stay mismatched, else nothing changes |
| AntiEntropy.SyncConverges | roostos-engine/src/roostos_engine/cluster_replicator.py:142-154 | for any hash function, files that decode and hold no carriage return all match after one successful application |
| AntiEntropy.CarriageReturnNeverMatches | roostos-engine/src/roostos_engine/cluster_replicator.py:89-90 | a file with a carriage return is mismatched behind a successful synchronisation |
| AntiEntropy.UndecodableNeverMatches | roostos-engine/src/roostos_engine/cluster_replicator.py:88-92 | for a file that is not valid UTF-8 there is a hash to match but no bundle to apply |
| AntiEntropy.PartialAppliesNeverHurtExactly | roostos-engine/src/roostos_engine/cluster_replicator.py:107-126 | a partial application never adds a mismatch, whatever the replica held, if and only if the controller's files all decode and hold no carriage return, or one does not decode and nothing is applied |
| AntiEntropy.MatchesSurviveRuns | roostos-engine/src/roostos_engine/cluster_replicator.py:100-128 | with an unchanged controller a matching file that decodes and holds no carriage return keeps matching through every step, failure and crash, whatever the other files hold |
| AntiEntropy.SyncPass | roostos-engine/src/roostos_engine/cluster_sync.py:83-86 | one pass between two nodes is a round of the loop the theorems speak of; if its writes work, no mismatch is left if and only if there was none or the controller's files decode and hold no carriage return; what it replaces is kept as backup unless the copy fails |
| AntiEntropy.LoopSettlesExactly | roostos-engine/src/roostos_engine/cluster_sync.py:83-86 | behind one due synchronisation whose writes work, with an unchanged controller, no later pass synchronises again if and only if the managed files all decode and hold no carriage return |
| ClusterSync.CounterIsLongestRun | roostos-engine/src/roostos_engine/cluster_sync.py:72-92 | over every life the counter is the length of the longest trailing run of failed passes of which only the first may have had a successful heartbeat |
| ClusterSync.CounterCountsHeartbeatsExactly | roostos-engine/src/roostos_engine/cluster_sync.py:74-89 | the counter is the number of failed heartbeats in a row if and only if the pass before them did not fail behind a successful heartbeat; otherwise it is one more |
| ClusterSync.PromotedAfterTwoFailedHeartbeats | roostos-engine/src/roostos_engine/cluster_sync.py:88-92 | at threshold 3 an agent is promoted after two failed heartbeats |
| ClusterSync.PromotedExactly | roostos-engine/src/roostos_engine/cluster_sync.py:88-115 | the agent is promoted if and only if failover is on, its priority is positive, and at some failed pass that run had reached the threshold |
| ClusterSync.PromotionIsFinal | roostos-engine/src/roostos_engine/cluster_sync.py:111-122 | promotion happens at most once, is never undone, and ends the loop it happens in |
| ClusterSync.RunningExactly | roostos-engine/src/roostos_engine/cluster_sync.py:52-72 | the loop is running if and only if it was started and neither stopped nor promoted since |
| ClusterSync.ClusterSyncAgent.Start | roostos-engine/src/roostos_engine/cluster_sync.py:52-57 | starting makes the agent run and changes nothing else |
| ClusterSync.ClusterSyncAgent.Stop | roostos-engine/src/roostos_engine/cluster_sync.py:59-68 | stopping makes it stop and changes nothing else |
| ClusterSync.ClusterSyncAgent.SyncLoop | roostos-engine/src/roostos_engine/cluster_sync.py:70-94 | the loop's passes take counter, promotion and running flag exactly where the specification takes them, each pass starting only while running |
| ClusterSync.ClusterSyncAgent.EvaluateAndTriggerFailover | roostos-engine/src/roostos_engine/cluster_sync.py:111-122 | it promotes if and only if not promoted before and the priority is positive, and then stops the loop |
| ClusterSync.LoopIsPartOfLife | roostos-engine/src/roostos_engine/cluster_sync.py:70-94 | the loop's passes are a stretch of the lives the theorems above quantify over |
| ClusterCommands.QueueConserves | roostos-engine/src/roostos_engine/cluster_manager.py:212-218 | over any interleaving the commands queued for a node are, in order, what was popped for it followed by what is pending |
| ClusterCommands.ExecutedIsSubsequence | roostos-engine/src/roostos_engine/cluster_sync.py:74-77 | over a lossy link the agent executes an order-preserving subsequence of what was queued, no queued command twice |
| ClusterCommands.LosslessLinkExecutesAll | roostos-engine/src/roostos_engine/cluster_sync.py:74-77 | without losses it has executed everything but what is pending |
| ClusterCommands.JoinTokensAreSingleUse | roostos-engine/src/roostos_engine/cluster_manager.py:99-114 | outside mock mode a join token is accepted at most once per time it was generated |
| ClusterCommands.JoinTokenAcceptedExactly | roostos-engine/src/roostos_engine/cluster_manager.py:99-114 | outside mock mode a join token is accepted if and only if it was generated, has neither been generated anew nor accepted since, and has not expired |
| ClusterCommands.MockAcceptsByPrefix | roostos-engine/src/roostos_engine/cluster_manager.py:108-109 | mock mode accepts every text with the prefix and spends nothing |
| ClusterCommands.ClusterManager.GenerateJoinToken | roostos-engine/src/roostos_engine/cluster_manager.py:99-104 | the prefixed token is recorded with its expiry, other tokens stay |
| ClusterCommands.ClusterManager.PopNodeCommands | roostos-engine/src/roostos_engine/cluster_manager.py:216-218 | returns what was pending for the node, leaves nothing pending for it and the other nodes' queues as they were |
| ClusterCommands.ClusterManager.QueueNodeCommand | roostos-engine/src/roostos_engine/cluster_manager.py:212-214 | appends to the node's queue and to no other |
| ClusterCommands.ClusterManager.ValidateJoinToken | roostos-engine/src/roostos_engine/cluster_manager.py:106-114 | accepts an unexpired known token and deletes it; in mock mode accepts by prefix and deletes nothing |
| EdgeTokens.LoadExactly | roostos-engine/src/roostos_engine/edge_token_store.py:77-123 | a token is loaded if and only if it is unexpired in memory or in some candidate file |
| EdgeTokens.LoadedFromExactly | roostos-engine/src/roostos_engine/edge_token_store.py:82-123 | the candidate files are those of the state file's directory, the configuration directory, /var/lib/roostos and /tmp/roostos |
| EdgeTokens.RestartKeepsTokens | roostos-engine/src/roostos_engine/edge_token_store.py:136-141 | after a recorded token was saved a restarted process still loads it, and every token that was live, until they expire |
| EdgeTokens.ConsumedComesBackExactly | roostos-engine/src/roostos_engine/edge_token_store.py:143-159 | a consumed token can be loaded again if and only if a candidate file naming it survives, each save and removal working or not |
| EdgeTokens.AcceptedAgainExactly | roostos-engine/src/roostos_engine/edge_manager.py:203-224 | an accepted token is accepted again if and only if it has not expired and a candidate file naming it survives |
| EdgeTokens.ConfigBootstrapIsReplayed | roostos-engine/src/roostos_engine/edge_token_store.py:150-159 | a token in the configuration directory's bootstrap file is accepted again even if every save and removal works |
| EdgeTokens.ClearedExactly | roostos-engine/src/roostos_engine/edge_token_store.py:150-159 | exactly the bootstrap files that name the token and whose removal works, in a cleared directory, disappear; nothing else changes |
| EdgeTokens.ClearedFromExactly | roostos-engine/src/roostos_engine/edge_token_store.py:150-159 | removals that work clear the token's bootstrap file from the state file's directory, /var/lib/roostos and /tmp/roostos, and from no other |
| EdgeTokens.BootstrapInConfigDirIsReplayed | roostos-engine/src/roostos_engine/edge_token_store.py:82-87 | a concrete system, with the default directories, where a token is accepted a second time |
| EdgeTokens.RefinesOneMap | roostos-engine/src/roostos_engine/edge_token_store.py:77-159 | over every run, for each token no other file names: memory and files show of it exactly what one map of unexpired tokens would, unless a save of its own fails while it is live; saves for other tokens and files naming those do not matter |
| EdgeTokens.TokensAreSingleUse | roostos-engine/src/roostos_engine/edge_manager.py:203-224 | over any interleaving a token no other file names is accepted at most as often as it was created or initially held, unless a save of its own fails while it is live |
| EdgeTokens.FreshTokensAreSingleUse | roostos-engine/src/roostos_engine/edge_manager.py:203-224 | on a fresh system, over every run, a token is accepted at most as often as it was created, unless a save of its own fails while it is live |
| EdgeTokens.CreatedTokenAcceptedExactly | roostos-engine/src/roostos_engine/edge_manager.py:203-224 | a created token nobody has operated on since is accepted if and only if neither its record nor its own claim has expired |
| EdgeManagement.EdgeTokenStore.LoadTokens | roostos-engine/src/roostos_engine/edge_token_store.py:77-123 | the loop computes the specified dictionary: each directory once, later ones override, memory last |
| EdgeManagement.EdgeTokenStore.RecordToken | roostos-engine/src/roostos_engine/edge_token_store.py:136-141 | memory and state file go where the specification takes them, also when the save fails |
| EdgeManagement.EdgeTokenStore.ConsumeToken | roostos-engine/src/roostos_engine/edge_token_store.py:143-159 | memory, state file and bootstrap files go where the specification takes them, whichever of the save and the three removals fail |
| EdgeManagement.EdgeManager.CreateBootstrapToken | roostos-engine/src/roostos_engine/edge_manager.py:75-104 | one creation step with the expiry the token carries, whether the save works or not |
| EdgeManagement.EdgeManager.ValidateAndConsumeToken | roostos-engine/src/roostos_engine/edge_manager.py:203-224 | each of the five answers is given if and only if its case holds, saves working or not; the state changes only for an accepted or expired token, which is consumed; outside mock mode it is one validation step |
| ScopeCodec.RoundTripExactly | roostos-engine/src/roostos_engine/cert_manager.py:93-95 | the certificate is issued and decoding it returns the same scopes if and only if every scope is ASCII, trimmed, non-empty, not "none", and free of commas and of the marker |
| ScopeCodec.DecodeEncodeExactly | roostos-engine/src/roostos_engine/cert_manager.py:221-222 | the two string transformations alone return the same list if and only if every scope is trimmed, non-empty, not "none", and free of commas and of the marker |
| ScopeCodec.EncodesExactly | roostos-engine/src/roostos_engine/cert_manager.py:95 | the scope URI can be put into a certificate if and only if every scope is ASCII |
| ScopeCodec.UriText | roostos-engine/src/roostos_engine/cert_manager.py:93-95 | the URI is the marker and the scopes separated by commas, or "none" |
| Strings.AsciiSpaces | roostos-engine/src/roostos_engine/cert_manager.py:222 | the ASCII characters that strip removes |
| ScopeCodec.NonAsciiScopeRaises | roostos-engine/src/roostos_engine/cert_manager.py:95 | a scope with an accented letter raises |
| ScopeCodec.EmptyListTravels | roostos-engine/src/roostos_engine/cert_manager.py:93 | the empty list survives as "none" |
| ScopeCodec.SubjectAltNames | roostos-engine/src/roostos_engine/cert_manager.py:93-95 | it raises if and only if some name is not ASCII; otherwise the name list holds all DNS names in order and one scope URI, which is the one the verifying side reads |
| ScopeCodec.ExtractScopes | roostos-engine/src/roostos_engine/cert_manager.py:216-224 | the verifying loop returns what the last marked URI decodes to |
| EndpointRewrite.SecondUpdateWins | roostos-engine/src/roostos_engine/ingress_helper.py:100-109 | for every file whatsoever, of two updates that take their host literally only the second shows |
| EndpointRewrite.LastUpdateWins | roostos-engine/src/roostos_engine/ingress_helper.py:100-109 | any sequence of updates of any file equals its last update alone |
| EndpointRewrite.OtherTextIsKept | roostos-engine/src/roostos_engine/ingress_helper.py:104-105 | blanking the Endpoint directives gives the same text before and after an update |
| EndpointRewrite.UpdatedEndpointReads | roostos-engine/src/roostos_engine/ingress_helper.py:103-109 | for every file, after an update each Endpoint directive stands at the start of its line and reads, up to the last ':' and behind it, as the host and port of the update |
| EndpointRewrite.DirectiveReadsBack | roostos-engine/src/roostos_engine/ingress_helper.py:103 | the directive reads back as the host and port it was made from |
| EndpointRewrite.DigitsSpell | roostos-engine/src/roostos_engine/ingress_helper.py:103 | the decimal digits, read from left to right, have the value of the number, without leading zero |
| EndpointRewrite.AppendedSection | roostos-engine/src/roostos_engine/ingress_helper.py:108-109 | a file that mentions neither keeps its text and gets a section with the endpoint |
| EndpointPattern.DirectiveExactly | roostos-engine/src/roostos_engine/ingress_helper.py:104 | the matcher finds a directive if and only if the text can be split into white space, the word, white space, the equals sign and the rest of a line |
| EndpointPattern.HasDirectiveExactly | roostos-engine/src/roostos_engine/ingress_helper.py:104 | the search finds something if and only if the pattern matches at the start of some line |
| EndpointRewrite.EndpointIsThereExactly | roostos-engine/src/roostos_engine/ingress_helper.py:104-109 | an Endpoint directive is there afterwards if and only if there was one, or the section header ends a line, or there is no header |
| EndpointRewrite.UpdateReadsBack | roostos-engine/src/roostos_engine/ingress_helper.py:100-113 | what an update writes reads back unchanged |
| EndpointRewrite.NetworkDirectory.UpdatePeerEndpointFile | roostos-engine/src/roostos_engine/ingress_helper.py:95-114 | false and no change without the file; otherwise the file holds the updated text, whose directives read back as UpdatedEndpointReads says, or for a backslash in the replacement what the library makes of it, unchanged if that raises |
| EndpointPattern.RewriteTwice | roostos-engine/src/roostos_engine/ingress_helper.py:104-105 | a second substitution finds exactly the lines the first one wrote |
| EndpointPattern.RewriteInsert | roostos-engine/src/roostos_engine/ingress_helper.py:106-107 | an update after an insertion behind the header replaces exactly the inserted lines |
| EndpointPattern.RewriteAppended | roostos-engine/src/roostos_engine/ingress_helper.py:108-109 | an update after an appended section replaces exactly the appended line |
| NetdevFiles.RewriteLines | roostos-engine/src/roostos_engine/ingress_helper.py:104-105 | on a file of regular lines the substitution replaces the Endpoint lines and keeps all other lines, in order |
| NetdevFiles.InsertLines | roostos-engine/src/roostos_engine/ingress_helper.py:106-107 | replacing the header text is inserting the directive behind every line that ends with the header |
| NetdevFiles.UpdateKeepsOtherLines | roostos-engine/src/roostos_engine/edge_manager.py:238-256 | for every file generated in either role: after an update the new directive is there, it is the only one, and all other lines keep content and order |
| NetdevFiles.ClientUpdateIsRegeneration | roostos-engine/src/roostos_engine/edge_manager.py:242-256 | updating the file generated for a client is generating it with the new endpoint |
| NetdevFiles.GatewayUpdateInserts | roostos-engine/src/roostos_engine/edge_manager.py:238-256 | updating the file generated for a gateway puts the directive exactly once, right behind the section header, and keeps every line in order |
| NetdevFiles.GatewayFileReads | roostos-engine/src/roostos_engine/edge_manager.py:238-256 | the gateway's file line by line; the ListenPort line has the value of the configured port, or 51820 for 0 |
| NetdevFiles.ClientFileReads | roostos-engine/src/roostos_engine/edge_manager.py:242-256 | the client's file line by line; the keepalive line has its value |

## Left out

- Raw nftables text: rules are data. The literal brace at line 137 of firewall_manager.py closes the input chain before its rules are appended, so nothing is claimed about textual validity, and the input and output chains and user input rules are not modelled.
- The list of IoT interfaces in `compile_ruleset`, which is always empty.
- The probe of port 53: whether a local resolver is active is one boolean input of both compilers.
- nftables hands a nat chain only the first packet of a connection; the prerouting theorems speak of that packet. Its rejection of malformed or overlapping set elements and addresses is not modelled: a rule with a malformed address matches nothing.
- The kernel's rule for the local table, consulted before all others; rules given explicit priorities while the commands run, and rules that do something else than look up a table.
- Configurations mutated between the construction of a FirewallManager and its compilation.
- Bridges and VLANs are one record type; their differing defaults are applied before the model.
- IPv6 segments: addresses and blocks are IPv4.
- Kea's hook libraries, control socket and lease database, which are constants or file probes.
- Alert message templates and their format errors, and what notification channels do with a payload.
- Rounding of floating-point values: a sample is a real, an infinity or NaN.
- SHA-256 is a function; theorems that need it injective say so. Manifest metadata and epochs, which are never compared, are left out.
- Operating-system errors while hashing or reading a file that is there. Whether bytes are UTF-8 is part of a file's content; the encoding itself is not modelled.
- The network between cluster nodes: a heartbeat, fetch or command delivery succeeds or fails as the environment decides. Telemetry and heartbeat contents are left out.
- Two sync loops at once, which a restart inside the sleep of a promoted agent's old loop could produce.
- JWT signing and decoding: the decoded payload is an input. Each token operation reads the clock once, token files hold numbers, and paths that spell one directory differently are different directories.
- A token state file called `edge_bootstrap.json`: any name but `edge_tokens.json` is taken as a file nobody reads.
- Several processes sharing token files.
- EdgeTokens.RefinesOneMap: requires that no other candidate file names the token and that no save of its own fails while it is live, since either can bring it back; AcceptedAgainExactly says exactly when.
- X.509 encoding and signature checks around the scope list.
- EndpointRewrite.SecondUpdateWins: requires a first host on a single line, and no host with a backslash where a directive is replaced, which the substitution reads as template syntax; what it makes of that is a parameter of UpdatePeerEndpointFile.
- A netdev file that is not valid UTF-8, for which the update raises.
- NetdevFiles.GatewayUpdateInserts: requires fields that do not end with the section header text, behind which the code inserts a second directive; UpdateKeepsOtherLines has no such condition.
- NetdevFiles.UpdateKeepsOtherLines: requires single-line keys, addresses and endpoints, as a field with a newline could hold a directive of its own.
- Web interface, catalog, identity, certificates' files, ACME, hardware and health collectors, command-line output: input and output, or single-branch logic that would only add easy members.
