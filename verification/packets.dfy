/**
 Frames and headers seen by the switch and the router: fixed-width unsigned
 integers, Ethernet frames, IPv4 headers and the devices' network interfaces.
 All values are immutable; a device step builds new frames instead of mutating
 the received one.
 */
module Packets {

  type u3 = x: int | 0 <= x < 0x8
  type u4 = x: int | 0 <= x < 0x10
  type u8 = x: int | 0 <= x < 0x100
  type u13 = x: int | 0 <= x < 0x2000
  type u16 = x: int | 0 <= x < 0x1_0000
  type u32 = x: int | 0 <= x < 0x1_0000_0000

  /** A 48-bit Ethernet (MAC) address. */
  type Mac = x: int | 0 <= x < 0x1_0000_0000_0000

  /** The ether-type value of an IPv4 payload. */
  const TYPE_IPV4: u16 := 0x0800

  /** Any ether-type the frame parser does not decode as IPv4. */
  type OtherEtherType = t: u16 | t != TYPE_IPV4 witness 0

  /** A device port: its name, link address and (for the router) IPv4 address.
      A device's interfaces have pairwise distinct names. */
  datatype Iface = Iface(name: string, mac: Mac, ip: u32)

  /** The fields of an IPv4 header (section 3.1 of RFC 791). */
  datatype IPv4Header = IPv4Header(
    version: u4,
    headerLength: u4,
    diffServ: u8,
    totalLength: u16,
    identification: u16,
    flags: u3,
    fragmentOffset: u13,
    ttl: u8,
    protocol: u8,
    checksum: u16,
    sourceAddress: u32,
    destinationAddress: u32,
    options: seq<u8>)

  /** What an Ethernet frame carries. The parser decodes ether-type 0x0800 as
      an IPv4 datagram and keeps every other ether-type as raw bytes. */
  datatype Payload =
    | IPv4Packet(header: IPv4Header, body: seq<u8>)
    | Unknown(etherType: OtherEtherType, data: seq<u8>)

  datatype EtherFrame = EtherFrame(destinationMac: Mac, sourceMac: Mac, payload: Payload)

  /** The frame's ether-type field. */
  function EtherType(f: EtherFrame): (t: u16)
    ensures t == TYPE_IPV4 <==> f.payload.IPv4Packet?
  {
    match f.payload
    case IPv4Packet(_, _) => TYPE_IPV4
    case Unknown(t, _) => t
  }
}
