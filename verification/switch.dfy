/**
 The self-learning Ethernet switch with entry aging. The switch keeps two
 maps keyed by link address: the port a source address was last seen on, and
 the time it was last seen. Every received frame first refreshes its source
 address, then is sent to the learned port of its destination if that entry is
 younger than 15000 ms, and otherwise (after evicting a stale entry) is flooded
 on every port except the one it arrived on.
 */
module LearningSwitch {
  import opened Packets

  /** An entry this many milliseconds old (or older) is stale. */
  const EXPIRY_MS: int := 15000

  /** The forwarding table (address to port) and the time table (address to
      the clock reading, in ms, of its last refresh). */
  datatype SwitchState = SwitchState(table: map<Mac, Iface>, timeLimits: map<Mac, int>)

  /** The two maps always describe the same set of addresses. */
  predicate Valid(s: SwitchState)
  {
    s.table.Keys == s.timeLimits.Keys
  }

  datatype Send = Send(iface: Iface, frame: EtherFrame)

  /** The outcome of one frame: the new state and the transmissions, in order. */
  datatype Step = Step(state: SwitchState, sends: seq<Send>)

  /** The ports the sends go out on, in order. */
  function Targets(sends: seq<Send>): (ports: seq<Iface>)
  {
    if |sends| == 0 then [] else [sends[0].iface] + Targets(sends[1..])
  }

  /** Both maps agree on key m before and after. */
  predicate Unchanged(s: SwitchState, s': SwitchState, m: Mac)
  {
    && (m in s.table <==> m in s'.table)
    && (m in s.table ==> s.table[m] == s'.table[m])
    && (m in s.timeLimits <==> m in s'.timeLimits)
    && (m in s.timeLimits ==> s.timeLimits[m] == s'.timeLimits[m])
  }

  /** The address has an entry in both maps. */
  predicate Known(s: SwitchState, mac: Mac)
  {
    mac in s.table && mac in s.timeLimits
  }

  /** The address has an entry that is younger than EXPIRY_MS. */
  predicate Fresh(s: SwitchState, mac: Mac, now: int)
  {
    Known(s, mac) && now - s.timeLimits[mac] < EXPIRY_MS
  }

  /** The address has an entry that is at least EXPIRY_MS old. */
  predicate Stale(s: SwitchState, mac: Mac, now: int)
  {
    Known(s, mac) && now - s.timeLimits[mac] >= EXPIRY_MS
  }

  /** Record (or refresh) that `mac` was seen on `iface` at time `now`. */
  function Learn(s: SwitchState, mac: Mac, iface: Iface, now: int): (s': SwitchState)
  {
    SwitchState(s.table[mac := iface], s.timeLimits[mac := now])
  }

  /** Remove `mac` from both maps. */
  function Evict(s: SwitchState, mac: Mac): (s': SwitchState)
  {
    SwitchState(s.table - {mac}, s.timeLimits - {mac})
  }

  /** Send the frame, unchanged, on every port of `ifaces` other than `ingress`,
      in the order the ports are listed. Each port gets as many copies as it is
      listed; the ingress port gets none. */
  function Flood(ifaces: seq<Iface>, ingress: Iface, frame: EtherFrame): (sends: seq<Send>)
    ensures forall k :: 0 <= k < |sends| ==> sends[k].frame == frame
    ensures forall k :: 0 <= k < |sends| ==> sends[k].iface != ingress
    ensures forall i :: multiset(Targets(sends))[i] == if i == ingress then 0 else multiset(ifaces)[i]
  {
    if |ifaces| == 0 then []
    else
      assert ifaces == [ifaces[0]] + ifaces[1..];
      var rest := Flood(ifaces[1..], ingress, frame);
      if ifaces[0] == ingress then rest
      else
        var sends := [Send(ifaces[0], frame)] + rest;
        assert sends[1..] == rest;
        assert Targets(sends) == [ifaces[0]] + Targets(rest);
        sends
  }

  /** One received frame: learn the source, look up the destination, then
      unicast, evict-and-flood, or flood. `now` is the clock reading. */
  function HandlePacket(s: SwitchState, ifaces: seq<Iface>, ingress: Iface, frame: EtherFrame, now: int): (r: Step)
    // the source address is bound to the ingress port at time `now`
    ensures frame.sourceMac in r.state.table && r.state.table[frame.sourceMac] == ingress
    ensures frame.sourceMac in r.state.timeLimits && r.state.timeLimits[frame.sourceMac] == now
    // no address other than the source and the destination changes
    ensures forall m :: m != frame.sourceMac && m != frame.destinationMac ==> Unchanged(s, r.state, m)
    // the two maps keep one key set
    ensures Valid(s) ==> Valid(r.state)
    // every transmission carries the received frame unchanged
    ensures forall k :: 0 <= k < |r.sends| ==> r.sends[k].frame == frame
    // a frame to its own source goes back out on the ingress port only
    ensures frame.destinationMac == frame.sourceMac ==> r.sends == [Send(ingress, frame)]
    // a fresh destination: exactly one send, on the learned port
    ensures frame.destinationMac != frame.sourceMac && Fresh(s, frame.destinationMac, now) ==>
      r.sends == [Send(s.table[frame.destinationMac], frame)]
      && Unchanged(s, r.state, frame.destinationMac)
    // a stale destination: evicted from both maps, frame flooded
    ensures frame.destinationMac != frame.sourceMac && Stale(s, frame.destinationMac, now) ==>
      r.sends == Flood(ifaces, ingress, frame)
      && frame.destinationMac !in r.state.table && frame.destinationMac !in r.state.timeLimits
    // an unknown destination: frame flooded, nothing evicted
    ensures frame.destinationMac != frame.sourceMac && !Known(s, frame.destinationMac) ==>
      r.sends == Flood(ifaces, ingress, frame) && Unchanged(s, r.state, frame.destinationMac)
  {
    var learned := Learn(s, frame.sourceMac, ingress, now);
    var dst := frame.destinationMac;
    if dst in learned.table && dst in learned.timeLimits then
      if now - learned.timeLimits[dst] < EXPIRY_MS then
        Step(learned, [Send(learned.table[dst], frame)])
      else
        Step(Evict(learned, dst), Flood(ifaces, ingress, frame))
    else
      Step(learned, Flood(ifaces, ingress, frame))
  }

  /** A list of ports in which no port occurs twice, as for a device's
      interfaces, which are keyed by distinct names. */
  predicate NoDuplicates(ifaces: seq<Iface>)
  {
    forall j, k :: 0 <= j < k < |ifaces| ==> ifaces[j] != ifaces[k]
  }

  lemma {:induction false} CountOnce(ifaces: seq<Iface>, i: Iface)
    requires NoDuplicates(ifaces)
    requires i in ifaces
    ensures multiset(ifaces)[i] == 1
  {
    assert ifaces == [ifaces[0]] + ifaces[1..];
    if ifaces[0] == i {
      assert i !in ifaces[1..];
    } else {
      CountOnce(ifaces[1..], i);
    }
  }

  /** On a device whose ports are distinct, a flood sends exactly one copy on
      every port but the ingress port. */
  lemma FloodOncePerPort(ifaces: seq<Iface>, ingress: Iface, frame: EtherFrame, i: Iface)
    requires NoDuplicates(ifaces)
    requires i in ifaces && i != ingress
    ensures multiset(Targets(Flood(ifaces, ingress, frame)))[i] == 1
  {
    CountOnce(ifaces, i);
  }

  // ---------------------------------------------------------------------------
  // A reference switch with a single table of (port, timestamp) entries.

  datatype Entry = Entry(iface: Iface, learnedAt: int)

  /** The single-table view of a valid two-map state. */
  function Abstract(s: SwitchState): (t: map<Mac, Entry>)
    requires Valid(s)
  {
    map m | m in s.table :: Entry(s.table[m], s.timeLimits[m])
  }

  /** The single-table view loses nothing: two valid states with the same
      view are the same state. */
  lemma AbstractInjective(s: SwitchState, s': SwitchState)
    requires Valid(s) && Valid(s')
    requires Abstract(s) == Abstract(s')
    ensures s == s'
  {
    assert s.table.Keys == Abstract(s).Keys == Abstract(s').Keys == s'.table.Keys;
    forall m | m in s.table
      ensures m in s'.table && s.table[m] == s'.table[m] && s.timeLimits[m] == s'.timeLimits[m]
    {
      assert Abstract(s)[m] == Abstract(s')[m];
    }
    assert s.table == s'.table;
    assert s.timeLimits == s'.timeLimits;
  }

  /** Learning in both maps is one entry update in the single-table view. */
  lemma AbstractLearn(s: SwitchState, mac: Mac, iface: Iface, now: int)
    requires Valid(s)
    ensures Valid(Learn(s, mac, iface, now))
    ensures Abstract(Learn(s, mac, iface, now)) == Abstract(s)[mac := Entry(iface, now)]
  {
  }

  /** Evicting from both maps is one key removal in the single-table view. */
  lemma AbstractEvict(s: SwitchState, mac: Mac)
    requires Valid(s)
    ensures Valid(Evict(s, mac))
    ensures Abstract(Evict(s, mac)) == Abstract(s) - {mac}
  {
  }

  /** The learning switch stated over one table: refresh the source entry,
      then unicast on a fresh destination entry, drop a stale one and flood,
      or flood when there is none. */
  function ReferenceStep(t: map<Mac, Entry>, ifaces: seq<Iface>, ingress: Iface, frame: EtherFrame, now: int)
    : (r: (map<Mac, Entry>, seq<Send>))
  {
    var t' := t[frame.sourceMac := Entry(ingress, now)];
    var d := frame.destinationMac;
    if d !in t' then (t', Flood(ifaces, ingress, frame))
    else if now - t'[d].learnedAt < EXPIRY_MS then (t', [Send(t'[d].iface, frame)])
    else (t' - {d}, Flood(ifaces, ingress, frame))
  }

  /** On a valid state the two-map switch behaves exactly like the one-table
      reference: same transmissions and the same table afterwards. */
  lemma RefinesReference(s: SwitchState, ifaces: seq<Iface>, ingress: Iface, frame: EtherFrame, now: int)
    requires Valid(s)
    ensures Valid(HandlePacket(s, ifaces, ingress, frame, now).state)
    ensures Abstract(HandlePacket(s, ifaces, ingress, frame, now).state)
      == ReferenceStep(Abstract(s), ifaces, ingress, frame, now).0
    ensures HandlePacket(s, ifaces, ingress, frame, now).sends
      == ReferenceStep(Abstract(s), ifaces, ingress, frame, now).1
  {
  }

  /** Aging across two frames: once a station d has sent a frame on port p at
      time t1, a later frame for d from another station arriving at time t2 is
      unicast on p while t2 - t1 < 15000, and is flooded, with d forgotten,
      from t2 - t1 == 15000 on. */
  lemma AgingAcrossFrames(s: SwitchState, ifaces: seq<Iface>, p: Iface, f1: EtherFrame, t1: int,
                          q: Iface, f2: EtherFrame, t2: int)
    requires f2.destinationMac == f1.sourceMac
    requires f2.sourceMac != f1.sourceMac
    ensures var s1 := HandlePacket(s, ifaces, p, f1, t1).state;
      var r2 := HandlePacket(s1, ifaces, q, f2, t2);
      && (t2 - t1 < EXPIRY_MS ==> r2.sends == [Send(p, f2)])
      && (t2 - t1 >= EXPIRY_MS ==>
            r2.sends == Flood(ifaces, q, f2)
            && f1.sourceMac !in r2.state.table && f1.sourceMac !in r2.state.timeLimits)
  {
  }
}
