/**
 What the compiled DHCP configuration guarantees: numbering, pools, and how static
 reservations are partitioned over the subnets.
 */
module DhcpTheorems {
  import opened Wrappers
  import opened Ipv4
  import opened Strings
  import opened RouterConfig
  import opened Dhcp

  /** Ids are 1..n in emission order, however many entries were skipped, and every subnet
      reserves by its own block. */
  lemma SubnetsAreNumbered(c: Config, localDns: bool, kea: KeaConfig, i: nat)
    requires Compiled(c, localDns, kea) && i < |kea.subnets|
    ensures kea.subnets[i].id == i + 1
    ensures kea.subnets[i].reservations == ReservationsIn(c.devices, kea.subnets[i].block)
  {
    var n := |Served(c.bridges)|;
    if i < n {
      assert kea.subnets[..n][i] == kea.subnets[i];
    } else {
      assert kea.subnets[n..][i - n] == kea.subnets[i];
    }
  }

  /** Default pools over the whole configuration: a bridge's is always made of usable hosts
      of its subnet, a VLAN's lies in its subnet exactly for prefixes up to 24. */
  lemma DefaultPoolsOfConfig(c: Config, localDns: bool, kea: KeaConfig, i: nat)
    requires Compiled(c, localDns, kea) && i < |kea.subnets| && kea.subnets[i].pool.DefaultPool?
    ensures var sub := kea.subnets[i];
            if i < |Served(c.bridges)|
            then sub.pool.start <= sub.pool.end
                 && UsableHost(sub.block, sub.pool.start) && UsableHost(sub.block, sub.pool.end)
            else PoolInside(sub.block, sub.pool) <==> sub.block.prefix <= 24
  {
    var n := |Served(c.bridges)|;
    var sub := kea.subnets[i];
    if i < n {
      assert kea.subnets[..n][i] == sub;
      BridgePoolIsUsable(sub.block);
    } else {
      assert kea.subnets[n..][i - n] == sub;
      FixedPoolFits(sub.block);
    }
  }

  // ---------- what the segments' fields say of the subnets ----------

  /** Concatenated lists are served one after the other, so what is served is decided segment by
      segment and in order. */
  lemma {:induction false} ServedInOrder(a: seq<Segment>, b: seq<Segment>)
    ensures Served(a + b) == Served(a) + Served(b)
    ensures EnabledNames(a + b) == EnabledNames(a) + EnabledNames(b)
  {
    if b == [] {
      assert a + b == a;
    } else {
      var n := |b| - 1;
      assert (a + b)[..|a + b| - 1] == a + b[..n] && (a + b)[|a + b| - 1] == b[n];
      ServedInOrder(a, b[..n]);
    }
  }

  /** One segment is listed as interface if DHCP is enabled on it, and gets a subnet if its
      address is well formed besides. */
  lemma ServedAlone(s: Segment)
    ensures Served([s]) == if s.dhcpEnabled && s.address.Block? then [s] else []
    ensures EnabledNames([s]) == if s.dhcpEnabled then [s.name] else []
  {
    assert [s][..0] == [];
  }

  /** The segment the i-th subnet is made from. */
  function SegmentOf(c: Config, i: nat): Segment
    requires i < |Served(c.bridges)| + |Served(c.vlans)|
  {
    (Served(c.bridges) + Served(c.vlans))[i]
  }

  lemma DescribedSubnet(c: Config, localDns: bool, kea: KeaConfig, i: nat)
    requires Compiled(c, localDns, kea) && i < |kea.subnets|
    ensures kea.subnets[i].id == i + 1
    ensures Describes(c, localDns, i < |Served(c.bridges)|, SegmentOf(c, i), kea.subnets[i])
  {
    var n := |Served(c.bridges)|;
    if i < n {
      assert kea.subnets[..n][i] == kea.subnets[i];
    } else {
      assert kea.subnets[n..][i - n] == kea.subnets[i];
    }
  }

  /** The subnet is numbered by its place, carries the segment's name and own address, and
      advertises the forwarders only while there are some and no local resolver runs. Its block
      is the aligned block around the segment's address. */
  lemma SubnetOfSegment(c: Config, localDns: bool, kea: KeaConfig, i: nat)
    requires Compiled(c, localDns, kea) && i < |kea.subnets|
    ensures var s, sub := SegmentOf(c, i), kea.subnets[i];
            && s.address.Block? && sub.id == i + 1 && sub.iface == s.name && sub.routers == s.address.text
            && sub.dnsServers == (if localDns || c.forwarders == [] then s.address.text else Join(c.forwarders, ", "))
            && sub.block.prefix == s.address.cidr.prefix
            && sub.block.ip % Pow2(32 - sub.block.prefix) == 0
            && sub.block.ip <= s.address.cidr.ip < sub.block.ip + Pow2(32 - sub.block.prefix)
  {
    var s := SegmentOf(c, i);
    DescribedSubnet(c, localDns, kea, i);
    DivisionBounds(s.address.cidr.ip, BlockSize(s.address.cidr.prefix));
    MultipleHasNoRest(BlockIndex(s.address.cidr.ip, s.address.cidr.prefix), BlockSize(s.address.cidr.prefix));
  }

  /** A pool given in the configuration is taken as it is, first end first; it takes both. */
  lemma CustomPoolOfSegment(c: Config, localDns: bool, kea: KeaConfig, i: nat)
    requires Compiled(c, localDns, kea) && i < |kea.subnets|
    ensures var s, sub := SegmentOf(c, i), kea.subnets[i];
            if s.poolStart != "" && s.poolEnd != ""
            then sub.pool.CustomPool? && sub.pool.first == s.poolStart && sub.pool.last == s.poolEnd
            else sub.pool.DefaultPool?
  {
    DescribedSubnet(c, localDns, kea, i);
  }

  /** The distance from the network address to the last usable host. */
  function LastHostOffset(prefix: PrefixLength): nat
    requires prefix > 24
  {
    if prefix == 25 then 126 else if prefix == 26 then 62 else if prefix == 27 then 30
    else if prefix == 28 then 14 else if prefix == 29 then 6 else if prefix == 30 then 2
    else if prefix == 31 then 1 else 0
  }

  lemma SmallBlockHosts(prefix: PrefixLength)
    requires prefix > 24
    ensures HostOffset(prefix) + HostCount(prefix) - 1 == LastHostOffset(prefix)
  {
    PowersOfTwo();
    assert Pow2(4) == 16 && Pow2(5) == 32 && Pow2(6) == 64;
  }

  /** The network address of a subnet is its own network address. */
  lemma NetworkOfNetwork(c: Cidr)
    ensures NetworkAddress(Cidr(NetworkAddress(c), c.prefix)) == NetworkAddress(c)
  {
    DivisionBounds(c.ip, BlockSize(c.prefix));
    QuotientUnique(NetworkAddress(c), BlockSize(c.prefix), BlockIndex(c.ip, c.prefix));
  }

  lemma FixedPoolEnds(c: Cidr)
    ensures FixedPool(c).start / 256 == NetworkAddress(c) / 256 && FixedPool(c).start % 256 == 100
    ensures FixedPool(c).end / 256 == NetworkAddress(c) / 256 && FixedPool(c).end % 256 == 250
  {
  }

  lemma SmallPoolEnds(c: Cidr)
    requires c.prefix > 24
    ensures BridgePool(c).start ==
            NetworkAddress(c) + (if c.prefix <= 29 then 6 else LastHostOffset(c.prefix))
    ensures BridgePool(c).end == NetworkAddress(c) + LastHostOffset(c.prefix)
  {
    SmallBlockHosts(c.prefix);
    MoreThan200Hosts(c.prefix);
  }

  /** Where every default pool lies, in addresses: x.y.z.100 to x.y.z.250 of the network
      address for a VLAN and for a bridge of prefix 24 or less; on a bridge with a longer prefix
      from the sixth usable host, or the last if there are fewer, to the last usable host. */
  lemma DefaultPoolEnds(c: Config, localDns: bool, kea: KeaConfig, i: nat)
    requires Compiled(c, localDns, kea) && i < |kea.subnets| && kea.subnets[i].pool.DefaultPool?
    ensures var sub := kea.subnets[i];
            var net := sub.block.ip;
            if i >= |Served(c.bridges)| || sub.block.prefix <= 24 then
              && sub.pool.start / 256 == net / 256 && sub.pool.start % 256 == 100
              && sub.pool.end / 256 == net / 256 && sub.pool.end % 256 == 250
            else
              && sub.pool.start == net + (if sub.block.prefix <= 29 then 6 else LastHostOffset(sub.block.prefix))
              && sub.pool.end == net + LastHostOffset(sub.block.prefix)
  {
    var block := kea.subnets[i].block;
    DescribedSubnet(c, localDns, kea, i);
    NetworkOfNetwork(SegmentOf(c, i).address.cidr);
    FixedPoolEnds(block);
    MoreThan200Hosts(block.prefix);
    if i < |Served(c.bridges)| && block.prefix > 24 {
      SmallPoolEnds(block);
    }
  }

  // ---------- reservations ----------

  /** The device is reserved in the block under its own MAC and address exactly when the
      block contains its static address. */
  lemma {:induction false} ReservedExactly(devices: seq<Device>, block: Cidr, r: Reservation)
    ensures r in ReservationsIn(devices, block) <==>
            exists d <- devices :: Reserves(block, d) && r == Reservation(d.mac, d.staticIp.ip)
  {
    if devices != [] {
      var earlier, d := devices[..|devices| - 1], devices[|devices| - 1];
      ReservedExactly(earlier, block, r);
      assert devices == earlier + [d];
    }
  }

  /** Device order is kept: the list of a concatenation is the concatenation of the lists. */
  lemma {:induction false} ReservationsKeepOrder(a: seq<Device>, b: seq<Device>, block: Cidr)
    ensures ReservationsIn(a + b, block) == ReservationsIn(a, block) + ReservationsIn(b, block)
  {
    if b == [] {
      assert a + b == a;
    } else {
      assert (a + b)[..|a + b| - 1] == a + b[..|b| - 1];
      ReservationsKeepOrder(a, b[..|b| - 1], block);
    }
  }

  /** In how many of the blocks the device is reserved. */
  function TimesReserved(d: Device, blocks: seq<Cidr>): nat {
    if blocks == [] then 0
    else TimesReserved(d, blocks[..|blocks| - 1]) + (if Reserves(blocks[|blocks| - 1], d) then 1 else 0)
  }

  /** All reservations the subnets hold together. */
  function TotalReservations(devices: seq<Device>, blocks: seq<Cidr>): nat {
    if blocks == [] then 0
    else TotalReservations(devices, blocks[..|blocks| - 1]) + |ReservationsIn(devices, blocks[|blocks| - 1])|
  }

  function CoveredDevices(devices: seq<Device>, blocks: seq<Cidr>): nat {
    if devices == [] then 0
    else CoveredDevices(devices[..|devices| - 1], blocks) +
         (if TimesReserved(devices[|devices| - 1], blocks) > 0 then 1 else 0)
  }

  function SumTimesReserved(devices: seq<Device>, blocks: seq<Cidr>): nat {
    if devices == [] then 0
    else SumTimesReserved(devices[..|devices| - 1], blocks) + TimesReserved(devices[|devices| - 1], blocks)
  }

  lemma {:induction false} SumOverNoBlocks(devices: seq<Device>)
    ensures SumTimesReserved(devices, []) == 0
  {
    if devices != [] {
      SumOverNoBlocks(devices[..|devices| - 1]);
    }
  }

  lemma {:induction false} SumSplitsLastBlock(devices: seq<Device>, blocks: seq<Cidr>)
    requires blocks != []
    ensures SumTimesReserved(devices, blocks) ==
            SumTimesReserved(devices, blocks[..|blocks| - 1]) + |ReservationsIn(devices, blocks[|blocks| - 1])|
  {
    if devices != [] {
      SumSplitsLastBlock(devices[..|devices| - 1], blocks);
    }
  }

  /** Counting by subnet and counting by device give the same number. */
  lemma {:induction false} CountedBothWays(devices: seq<Device>, blocks: seq<Cidr>)
    ensures TotalReservations(devices, blocks) == SumTimesReserved(devices, blocks)
  {
    if blocks == [] {
      SumOverNoBlocks(devices);
    } else {
      CountedBothWays(devices, blocks[..|blocks| - 1]);
      SumSplitsLastBlock(devices, blocks);
    }
  }

  predicate NoneContainsAnother(blocks: seq<Cidr>) {
    forall i, j :: 0 <= i < j < |blocks| ==> !Overlap(blocks[i], blocks[j])
  }

  lemma {:induction false} ReservedSomewhere(d: Device, blocks: seq<Cidr>)
    ensures TimesReserved(d, blocks) > 0 <==> exists b <- blocks :: Reserves(b, d)
  {
    if blocks != [] {
      ReservedSomewhere(d, blocks[..|blocks| - 1]);
      assert blocks == blocks[..|blocks| - 1] + [blocks[|blocks| - 1]];
    }
  }

  lemma {:induction false} ReservedAtMostOnce(d: Device, blocks: seq<Cidr>)
    requires NoneContainsAnother(blocks)
    ensures TimesReserved(d, blocks) <= 1
  {
    if blocks != [] {
      var earlier, last := blocks[..|blocks| - 1], blocks[|blocks| - 1];
      ReservedAtMostOnce(d, earlier);
      ReservedSomewhere(d, earlier);
      if Reserves(last, d) {
        forall i | 0 <= i < |earlier|
          ensures !Reserves(earlier[i], d)
        {
          if Reserves(earlier[i], d) {
            SharedAddressMeansOverlap(blocks[i], last, d.staticIp.ip);
          }
        }
      }
    }
  }

  lemma {:induction false} ReservedTwice(d: Device, blocks: seq<Cidr>, i: nat, j: nat)
    requires i < j < |blocks| && Reserves(blocks[i], d) && Reserves(blocks[j], d)
    ensures TimesReserved(d, blocks) >= 2
  {
    var earlier := blocks[..|blocks| - 1];
    if j < |earlier| {
      ReservedTwice(d, earlier, i, j);
    } else {
      assert earlier[i] in earlier;
      ReservedSomewhere(d, earlier);
    }
  }

  lemma {:induction false} TotalIsCovered(devices: seq<Device>, blocks: seq<Cidr>)
    requires NoneContainsAnother(blocks)
    ensures SumTimesReserved(devices, blocks) == CoveredDevices(devices, blocks)
  {
    if devices != [] {
      TotalIsCovered(devices[..|devices| - 1], blocks);
      ReservedAtMostOnce(devices[|devices| - 1], blocks);
    }
  }

  /** CIDR blocks are nested or disjoint, so: for every device list all reservations
      together are as many as the devices covered by some subnet, exactly when no emitted
      subnet contains another. */
  lemma ReservationsPartition(blocks: seq<Cidr>)
    ensures NoneContainsAnother(blocks) <==>
            forall devices :: TotalReservations(devices, blocks) == CoveredDevices(devices, blocks)
  {
    if NoneContainsAnother(blocks) {
      forall devices
        ensures TotalReservations(devices, blocks) == CoveredDevices(devices, blocks)
      {
        CountedBothWays(devices, blocks);
        TotalIsCovered(devices, blocks);
      }
    } else {
      var i, j :| 0 <= i < j < |blocks| && Overlap(blocks[i], blocks[j]);
      NestedOrDisjoint(blocks[i], blocks[j]);
      var a: Address :| Contains(blocks[i], a) && Contains(blocks[j], a);
      var d := Device("02:00:00:00:00:01", StaticIp.StaticIp(a), None);
      ReservedTwice(d, blocks, i, j);
      CountedBothWays([d], blocks);
      assert [d][..0] == [];
      assert TotalReservations([d], blocks) != CoveredDevices([d], blocks);
    }
  }

  function BlocksOf(subnets: seq<Subnet>): seq<Cidr> {
    seq(|subnets|, i requires 0 <= i < |subnets| => subnets[i].block)
  }

  function SumReservations(subnets: seq<Subnet>): nat {
    if subnets == [] then 0
    else SumReservations(subnets[..|subnets| - 1]) + |subnets[|subnets| - 1].reservations|
  }

  lemma {:induction false} SumIsTotal(devices: seq<Device>, subnets: seq<Subnet>)
    requires forall s <- subnets :: s.reservations == ReservationsIn(devices, s.block)
    ensures SumReservations(subnets) == TotalReservations(devices, BlocksOf(subnets))
  {
    if subnets != [] {
      var earlier := subnets[..|subnets| - 1];
      SumIsTotal(devices, earlier);
      assert BlocksOf(subnets)[..|subnets| - 1] == BlocksOf(earlier);
      assert subnets[|subnets| - 1] in subnets;
    }
  }

  /** The compiled configuration as a whole: when no emitted subnet contains another, every
      device is reserved at most once and no covered device is lost. */
  lemma CompiledReservationsPartition(c: Config, localDns: bool, kea: KeaConfig)
    requires Compiled(c, localDns, kea) && NoneContainsAnother(BlocksOf(kea.subnets))
    ensures SumReservations(kea.subnets) == CoveredDevices(c.devices, BlocksOf(kea.subnets))
    ensures forall d <- c.devices :: TimesReserved(d, BlocksOf(kea.subnets)) <= 1
  {
    forall i | 0 <= i < |kea.subnets|
      ensures kea.subnets[i].reservations == ReservationsIn(c.devices, kea.subnets[i].block)
    {
      SubnetsAreNumbered(c, localDns, kea, i);
    }
    SumIsTotal(c.devices, kea.subnets);
    ReservationsPartition(BlocksOf(kea.subnets));
    forall d <- c.devices
      ensures TimesReserved(d, BlocksOf(kea.subnets)) <= 1
    {
      ReservedAtMostOnce(d, BlocksOf(kea.subnets));
    }
  }
}
