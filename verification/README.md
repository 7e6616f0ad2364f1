# Learning switch and IPv4 router: a Dafny model

This project models the per-frame decisions of two simulated link-layer
devices. It proves properties about both.

- **The self-learning Ethernet switch** (`LearningSwitch`, `switch.dfy`). It
  keeps two maps keyed by MAC address: `table` (address to port) and
  `timeLimits` (address to the clock reading of its last refresh). Each frame
  first binds its source address to the ingress port at time `now`. Then it
  looks up the destination. A fresh entry (younger than 15000 ms) gets a
  unicast on the learned port. A stale entry is evicted from both maps and
  the frame is flooded. An unknown destination gets a flood on every port
  except the ingress port. The step is a pure function
  `HandlePacket(state, ports, ingress, frame, now)` that returns the new state
  and the ordered list of sends. A one-table reference switch
  (`ReferenceStep`) is its partner: on every state whose two maps share a key
  set, the two switches do the same thing (`RefinesReference`).
- **The IPv4 forwarding pipeline of the router** (`Router`, `router.dfy`). It
  runs an ordered chain of silent drops: ether-type not IPv4, bad header
  checksum, TTL that reaches 0 on decrement, destination equal to one of the
  router's own interface addresses, no route. A frame that passes all of
  them is forwarded. It goes out on the route's interface with that
  interface's MAC as source and the ARP entry for the route's destination
  address as destination. Its TTL is decremented and its checksum recomputed.
  The result is `Drop(reason) | Forward(iface, frame)`. The route-table and
  ARP-cache lookups are parameters, written as finite maps; a missing key is
  a lookup that returns null.
- **The IPv4 header checksum** (`Ipv4Checksum`, `checksum.dfy`). This is the
  16-bit one's complement of the one's complement sum of the header words,
  computed with the checksum field zeroed (section 3.1 of RFC 791). The proofs
  about it show three things. A recomputed header passes the receiver's
  all-ones test. The router's recompute-and-compare test agrees with that
  test, except for the 0xffff encoding of a zero checksum. Changing the TTL
  without recomputing always breaks the checksum.
- **Frames and headers** (`Packets`, `packets.dfy`): fixed-width unsigned
  fields, the IPv4 header record, and the Ethernet frame. The frame's payload
  is either a decoded IPv4 datagram or raw bytes under any other ether-type,
  so the Java code's cast of an ether-type-0x0800 payload to IPv4 cannot fail.

The clock is the input `now`; there is no wall clock. Transmissions are an
output list (switch) or the single `Forward` action (router); there is no
transport. The Java TTL is a signed byte. `Router.DecrementTtl` models the
`(byte) (ttl - 1)` cast explicitly and states the result in terms of the
unsigned wire octet.

## Model

| member | source | states |
|---|---|---|
| `LearningSwitch.HandlePacket` | src/edu/wisc/cs/sdn/vnet/sw/Switch.java:43-85 | After any frame the source MAC maps to the ingress port with timestamp `now`. No address other than the source and the destination changes, and the shared key set of the two maps is preserved. A frame to its own source goes back out on the ingress port only. A destination with an entry younger than 15000 ms gets exactly one send, on the learned port, and its entry is untouched. An entry exactly 15000 ms old or older is removed from both maps and the frame is flooded. An unknown destination is flooded and nothing is evicted. Every send carries the received frame unchanged. |
| `LearningSwitch.Flood` | src/edu/wisc/cs/sdn/vnet/sw/Switch.java:77-80 | Every send carries the frame unchanged and none goes out on the ingress port. Every other port receives as many copies as it is listed among the switch's ports. |
| `LearningSwitch.FloodOncePerPort` | src/edu/wisc/cs/sdn/vnet/sw/Switch.java:77-80 | With distinct ports, a flood sends exactly one copy on each listed port other than the ingress port. |
| `LearningSwitch.RefinesReference` | src/edu/wisc/cs/sdn/vnet/sw/Switch.java:52-80 | On a state whose two maps share a key set, the two-map switch produces the same sends and the same table as the one-table reference switch. The reference refreshes the source, then unicasts on a fresh entry, drops a stale one and floods, or floods. |
| `LearningSwitch.AbstractInjective` | src/edu/wisc/cs/sdn/vnet/sw/Switch.java:20-27 | Two states whose two maps share a key set and whose single-table views are equal are the same state, so the equal tables of `RefinesReference` fix both maps. |
| `LearningSwitch.AbstractLearn` | src/edu/wisc/cs/sdn/vnet/sw/Switch.java:52-54 | Putting the source into both maps keeps the key sets equal and is one entry update `(port, now)` in the single-table view. |
| `LearningSwitch.AbstractEvict` | src/edu/wisc/cs/sdn/vnet/sw/Switch.java:71-72 | Removing an address from both maps keeps the key sets equal and is one key removal in the single-table view. |
| `LearningSwitch.AgingAcrossFrames` | src/edu/wisc/cs/sdn/vnet/sw/Switch.java:52-73 | Say station d sent a frame on port p at time t1. A later frame for d from another station, arriving at t2, is unicast on p when t2 - t1 < 15000. When t2 - t1 >= 15000 it is flooded and d is removed from both maps. |
| `Packets.EtherType` | src/edu/wisc/cs/sdn/vnet/rt/Router.java:93-99 | A frame carries ether-type 0x0800 exactly when its payload is a decoded IPv4 datagram, so the cast after the ether-type check always succeeds. |
| `Router.DecrementTtl` | src/edu/wisc/cs/sdn/vnet/rt/Router.java:115-120 | The signed-byte decrement yields 0 exactly for an incoming TTL of 1. It gives TTL - 1 for every TTL >= 1 and wraps 0 to 255. |
| `Router.HandlePacket` | src/edu/wisc/cs/sdn/vnet/rt/Router.java:93-148 | The checks run in order and the first one that fails decides the drop. Each drop reason holds exactly when its own condition holds and every earlier check passed: non-IPv4 ether-type; stored checksum different from the recomputed one; incoming TTL 1; destination equal to some interface's IP; no route. A frame is forwarded exactly when it passes every check. It then goes out on the route's interface. Its source MAC is that interface's MAC and its destination MAC is the ARP entry for the route's destination address. Its TTL is one less, with 0 wrapping to 255, and its checksum is valid. Its body and every other header field are unchanged. |
| `Router.CorruptedChecksumDropped` | src/edu/wisc/cs/sdn/vnet/rt/Router.java:102-112 | A datagram whose checksum field was altered after a valid checksum was computed is dropped at the checksum stage, whatever the tables hold. |
| `Router.RecomputeIsNeeded` | src/edu/wisc/cs/sdn/vnet/rt/Router.java:122-123 | Without recomputation, the decremented header would fail the checksum check. |
| `Router.ForwardedHeaderVerifies` | src/edu/wisc/cs/sdn/vnet/rt/Router.java:122-123 | A forwarded frame is IPv4. Its header passes the next router's recompute-and-compare check, and its words sum to all ones (the receiver's test of section 3.1 of RFC 791). |
| `Router.HopLimit` | src/edu/wisc/cs/sdn/vnet/rt/Router.java:115-120 | Along any path of routers, a datagram with incoming TTL n >= 1 is forwarded at most n - 1 times in a row. With TTL 0 it is forwarded at most 255 times. |
| `Ipv4Checksum.WithChecksum` | src/edu/wisc/cs/sdn/vnet/rt/Router.java:122-123 | Recomputing the checksum yields a header that passes the checksum check and differs from the input in the checksum field only. |
| `Ipv4Checksum.FullSumIsAllOnes` | src/edu/wisc/cs/sdn/vnet/rt/Router.java:122-123 | A header that carries its recomputed checksum has a one's complement sum of 0xffff over all its words, checksum included. |
| `Ipv4Checksum.ValidIffAllOnes` | src/edu/wisc/cs/sdn/vnet/rt/Router.java:102-112 | The router's recompute-and-compare test accepts a header exactly when its words sum to all ones. The one exception is a header whose checksum should be 0 but is stored as 0xffff. |
| `Ipv4Checksum.TtlChangeBreaksChecksum` | src/edu/wisc/cs/sdn/vnet/rt/Router.java:115-123 | Changing only the TTL of a header with a valid checksum always invalidates the checksum. |

## Left out

- ICMP generation (ICMPHandler.java). It is an unfinished stub that does not compile and returns nothing. The router never calls it, so every failed check is a silent drop.
- Reply messages, a guard against forwarding back on the ingress interface, and gateway-based next-hop choice. None of them exist in the router's code. The ARP lookup is keyed on the route entry's destination address, as written, and the gateway field of a route is never read.
- Router.HandlePacket: when the ARP cache has no entry for the route's destination address, Router.java dereferences null and throws. The model makes "the ARP entry exists whenever the frame reaches forwarding" a precondition (`ArpResolves`) instead of inventing a drop. `Router.Hops` stops counting at a router where that precondition fails.
- The internals of the route-table and ARP-cache lookups (their classes are not part of this model). They are parameters. Longest-prefix matching is not assumed.
- Loading the route table and ARP cache from files, console output, and `System.exit`.
- Packet serialization. The checksum follows section 3.1 of RFC 791, with end-around carry folded until the sum fits in 16 bits. The packet library's `serialize()` folds the carry only once before complementing. On a header whose once-folded sum still exceeds 0xffff, the library's checksum is one greater than the RFC 791 value the model computes. `Ipv4Checksum.ValidIffAllOnes`, `Router.ForwardedHeaderVerifies` and `Ipv4Checksum.TtlChangeBreaksChecksum` are therefore statements about the RFC 791 checksum, not about that single-fold variant. The library's `serialize()` also rewrites the header length and the total length from the options and the payload; the model keeps every header field other than TTL and checksum as given. The library's byte layout, and the VLAN and padding fields of its Ethernet frames, are not modelled.
- LearningSwitch.HandlePacket: Switch.java reads the clock twice (when learning and when aging the destination); the model reads it once, as `now`. Switch.java keeps timestamps as 64-bit `long` values and the model uses unbounded integers, so wrap-around of the millisecond difference is not modelled.
- The transport's send primitive and its boolean result, and all logging.
- Concurrent calls of `handlePacket` from several interfaces. The model handles one frame at a time.
- Port identity: the Java code compares interface objects by reference. Each interface is a distinct object with a distinct name, so the model compares interface values instead.
