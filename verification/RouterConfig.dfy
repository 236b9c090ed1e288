/**
 The part of the router configuration that the firewall and DHCP compilers read.
 Bridges and VLANs are one record type: both compilers read the same fields of them.
 */
module RouterConfig {
  import opened Wrappers
  import opened Ipv4

  type Mac = string

  datatype Proto = Tcp | Udp | Icmp | Esp | Ah | OtherProto

  datatype Role = WanRole | LanRole
  datatype Interface = Interface(name: string, role: Role)

  /** The "ip" field of a bridge or VLAN: the text before the slash, and the block the
      whole field denotes. A field that denotes none, like "10.0.0.1/33", may still have an
      address before the slash. */
  datatype IfaceAddress =
    | Malformed(text: string, address: Option<Address>)
    | Block(text: string, cidr: Cidr)

  /** The address the text before the slash denotes. */
  function OwnAddress(a: IfaceAddress): Option<Address> {
    match a
    case Malformed(_, address) => address
    case Block(_, cidr) => Some(cidr.ip)
  }

  datatype Segment = Segment(
    name: string,
    address: IfaceAddress,
    isolate: bool,
    dhcpEnabled: bool,
    poolStart: string,
    poolEnd: string)

  datatype Zone = Zone(id: string, interfaces: seq<string>, isolate: bool, allowZones: seq<string>)

  datatype Gateway = Gateway(id: string, iface: string)

  /** A device's static_ip: absent, not an address, or an address. */
  datatype StaticIp = NoStaticIp | BadStaticIp(text: string) | StaticIp(ip: Address)

  datatype Device = Device(mac: Mac, staticIp: StaticIp, gateway: Option<string>)

  datatype PortForward = PortForward(
    proto: Proto,
    externalPort: nat,
    internalIp: string,
    internalPort: nat,
    enabled: bool)

  datatype Config = Config(
    interfaces: seq<Interface>,
    bridges: seq<Segment>,
    vlans: seq<Segment>,
    zones: seq<Zone>,
    gateways: seq<Gateway>,
    devices: seq<Device>,
    forwarders: seq<string>,
    blockDoh: bool,
    blockVpns: bool,
    blockQuic: bool,
    customDohIps: seq<Cidr>,
    customVpnIps: seq<Cidr>,
    portForwards: seq<PortForward>)

  const DEFAULT_WAN := "eth0"
  const DEFAULT_GATEWAY := "default"
  const WAN_ZONE := "wan"

  /** The first interface with role "wan", or eth0. */
  function WanInterface(interfaces: seq<Interface>): string {
    if interfaces == [] then DEFAULT_WAN
    else if interfaces[0].role.WanRole? then interfaces[0].name
    else WanInterface(interfaces[1..])
  }

  /** The interface name belongs to some bridge or VLAN. */
  predicate IsLocal(c: Config, name: string) {
    exists s <- c.bridges + c.vlans :: s.name == name
  }
}
