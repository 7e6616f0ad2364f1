/**
 The IPv4 forwarding pipeline of the router. A received frame passes an
 ordered chain of checks, each of which may drop it silently: the ether-type
 must be IPv4, the header checksum must be intact, the TTL must not expire on
 decrement, the datagram must not be addressed to one of the router's own
 interfaces, and a route must exist. A frame that survives is re-addressed at
 the link layer and sent on the route's interface with its TTL decremented and
 its checksum recomputed.

 The route table and the ARP cache are given as their lookup functions,
 written as finite maps: a missing key is a lookup that returns null.
 */
module Router {
  import opened Packets
  import opened Ipv4Checksum

  /** A route: the destination (network) address it is keyed under, its
      gateway and mask, and the interface packets leave on. */
  datatype RouteEntry = RouteEntry(destinationAddress: u32, gatewayAddress: u32, maskAddress: u32, iface: Iface)

  /** What the router reads while handling a frame: its interfaces, the
      route-table lookup (destination IP to route) and the ARP-cache lookup
      (IP to link address). */
  datatype RouterConfig = RouterConfig(
    ifaces: seq<Iface>,
    routeLookup: map<u32, RouteEntry>,
    arpLookup: map<u32, Mac>)

  /** The stage of the pipeline that discarded a frame. */
  datatype DropReason = NotIPv4 | BadChecksum | TtlExpired | ForRouter | NoRoute

  /** The decision for one frame: discard it, or send one frame on one interface. */
  datatype Action = Drop(reason: DropReason) | Forward(iface: Iface, frame: EtherFrame)

  // ---------------------------------------------------------------------------
  // The TTL as the Java code sees it: a signed byte.

  type i8 = x: int | -0x80 <= x < 0x80

  /** The narrowing cast `(byte) x`: keep the low 8 bits, read them as signed. */
  function ToByte(x: int): (b: i8)
  {
    var low := x % 0x100;
    if low >= 0x80 then low - 0x100 else low
  }

  /** The wire octet read as a Java byte. */
  function Signed(b: u8): (r: i8)
  {
    if b >= 0x80 then b - 0x100 else b
  }

  /** A Java byte written back as a wire octet. */
  function Unsigned(b: i8): (r: u8)
  {
    if b < 0 then b + 0x100 else b
  }

  /** `(byte) (ttl - 1)` on the wire octet: one less, with 0 wrapping to 255.
      The result is 0 for an incoming TTL of 1 and for no other. */
  function DecrementTtl(ttl: u8): (r: u8)
    ensures r == 0 <==> ttl == 1
    ensures ttl >= 1 ==> r == ttl - 1
    ensures ttl == 0 ==> r == 0xff
  {
    Unsigned(ToByte(Signed(ttl) - 1))
  }

  // ---------------------------------------------------------------------------
  // The pipeline.

  /** Some interface of the router carries this IP address. */
  predicate AddressedToRouter(ifaces: seq<Iface>, ip: u32)
  {
    exists k :: 0 <= k < |ifaces| && ifaces[k].ip == ip
  }

  /** The frame survives every drop check: IPv4, intact checksum, incoming TTL
      other than 1, not for the router itself, and a route to its destination. */
  predicate PassesChecks(cfg: RouterConfig, frame: EtherFrame)
  {
    && frame.payload.IPv4Packet?
    && ChecksumValid(frame.payload.header)
    && frame.payload.header.ttl != 1
    && !AddressedToRouter(cfg.ifaces, frame.payload.header.destinationAddress)
    && frame.payload.header.destinationAddress in cfg.routeLookup
  }

  /** The route chosen for a frame that passes every check. */
  function RouteFor(cfg: RouterConfig, frame: EtherFrame): (route: RouteEntry)
    requires PassesChecks(cfg, frame)
  {
    cfg.routeLookup[frame.payload.header.destinationAddress]
  }

  /** The ARP cache knows the link address for the route's destination address
      whenever the frame reaches the forwarding stage. Router.java dereferences
      the lookup result unchecked, so this is what it demands of its caller. */
  predicate ArpResolves(cfg: RouterConfig, frame: EtherFrame)
  {
    PassesChecks(cfg, frame) ==> RouteFor(cfg, frame).destinationAddress in cfg.arpLookup
  }

  /** Handle one received frame. Each check is tried in order and the first
      that fails decides the drop; a frame that passes them all is forwarded
      on its route's interface, with only the TTL, the checksum and the two
      link addresses changed. */
  function HandlePacket(cfg: RouterConfig, frame: EtherFrame): (r: Action)
    requires ArpResolves(cfg, frame)
    ensures r == Drop(NotIPv4) <==> EtherType(frame) != TYPE_IPV4
    ensures r == Drop(BadChecksum) <==>
      frame.payload.IPv4Packet? && !ChecksumValid(frame.payload.header)
    ensures r == Drop(TtlExpired) <==>
      frame.payload.IPv4Packet? && ChecksumValid(frame.payload.header)
      && frame.payload.header.ttl == 1
    ensures r == Drop(ForRouter) <==>
      frame.payload.IPv4Packet? && ChecksumValid(frame.payload.header)
      && frame.payload.header.ttl != 1
      && AddressedToRouter(cfg.ifaces, frame.payload.header.destinationAddress)
    ensures r == Drop(NoRoute) <==>
      frame.payload.IPv4Packet? && ChecksumValid(frame.payload.header)
      && frame.payload.header.ttl != 1
      && !AddressedToRouter(cfg.ifaces, frame.payload.header.destinationAddress)
      && frame.payload.header.destinationAddress !in cfg.routeLookup
    ensures r.Forward? <==> PassesChecks(cfg, frame)
    ensures r.Forward? ==> r.frame.payload.IPv4Packet?
    ensures r.Forward? ==>
      var h, h', route := frame.payload.header, r.frame.payload.header, RouteFor(cfg, frame);
      && r.iface == route.iface
      && r.frame.sourceMac == route.iface.mac
      && r.frame.destinationMac == cfg.arpLookup[route.destinationAddress]
      && r.frame.payload.body == frame.payload.body
      && h'.ttl == (if h.ttl == 0 then 0xff else h.ttl - 1)
      && ChecksumValid(h')
      && h'.(ttl := h.ttl, checksum := h.checksum) == h
  {
    if EtherType(frame) != TYPE_IPV4 then Drop(NotIPv4)
    else
      var header := frame.payload.header;
      if !ChecksumValid(header) then Drop(BadChecksum)
      else
        var ttl := DecrementTtl(header.ttl);
        if ttl == 0 then Drop(TtlExpired)
        else
          var header' := WithChecksum(header.(ttl := ttl));
          if AddressedToRouter(cfg.ifaces, header'.destinationAddress) then Drop(ForRouter)
          else if header'.destinationAddress !in cfg.routeLookup then Drop(NoRoute)
          else
            var route := cfg.routeLookup[header'.destinationAddress];
            var newMac := cfg.arpLookup[route.destinationAddress];
            Forward(route.iface, EtherFrame(newMac, route.iface.mac, IPv4Packet(header', frame.payload.body)))
  }

  // ---------------------------------------------------------------------------
  // Properties relating several frames or several routers.

  /** A frame whose checksum field was altered after the checksum was computed
      is dropped at the checksum stage, whatever the router's tables hold. */
  lemma CorruptedChecksumDropped(cfg: RouterConfig, h: IPv4Header, body: seq<u8>, dst: Mac, src: Mac, c: u16)
    requires ChecksumValid(h)
    requires c != h.checksum
    ensures HandlePacket(cfg, EtherFrame(dst, src, IPv4Packet(h.(checksum := c), body))) == Drop(BadChecksum)
  {
  }

  /** Recomputing the checksum after the TTL decrement is necessary: the
      decremented header with the old checksum would fail the same check. */
  lemma RecomputeIsNeeded(h: IPv4Header)
    requires ChecksumValid(h)
    ensures !ChecksumValid(h.(ttl := DecrementTtl(h.ttl)))
  {
    TtlChangeBreaksChecksum(h, DecrementTtl(h.ttl));
  }

  /** A forwarded header passes both the next router's recompute-and-compare
      test and the all-ones receiver test of section 3.1 of RFC 791. */
  lemma ForwardedHeaderVerifies(cfg: RouterConfig, frame: EtherFrame)
    requires ArpResolves(cfg, frame)
    requires HandlePacket(cfg, frame).Forward?
    ensures EtherType(HandlePacket(cfg, frame).frame) == TYPE_IPV4
    ensures ChecksumValid(HandlePacket(cfg, frame).frame.payload.header)
    ensures OnesSum(HeaderWords(HandlePacket(cfg, frame).frame.payload.header)) == M
  {
    var h' := HandlePacket(cfg, frame).frame.payload.header;
    assert WithChecksum(h') == h';
    FullSumIsAllOnes(h');
  }

  /** The number of routers along `path` that forward the frame in turn, up to
      the first that drops it (or whose ARP lookup would fail). */
  function Hops(path: seq<RouterConfig>, frame: EtherFrame): (n: nat)
  {
    if |path| == 0 || !ArpResolves(path[0], frame) then 0
    else
      match HandlePacket(path[0], frame)
      case Drop(_) => 0
      case Forward(_, out) => 1 + Hops(path[1..], out)
  }

  /** How many more routers may forward a datagram with this TTL. */
  function HopBudget(ttl: u8): (n: nat)
  {
    if ttl == 0 then 0xff else ttl - 1
  }

  /** The TTL bounds every path: a datagram arriving with TTL n >= 1 is
      forwarded by at most n - 1 routers in a row (a TTL of 0 wraps to 255 at
      the first router, so at most 255). */
  lemma {:induction false} HopLimit(path: seq<RouterConfig>, frame: EtherFrame)
    requires frame.payload.IPv4Packet?
    ensures Hops(path, frame) <= HopBudget(frame.payload.header.ttl)
  {
    if |path| > 0 && ArpResolves(path[0], frame) {
      match HandlePacket(path[0], frame)
      case Drop(_) =>
      case Forward(_, out) =>
        HopLimit(path[1..], out);
    }
  }
}
