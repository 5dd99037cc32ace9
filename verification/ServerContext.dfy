/** One node of the overlay: what it does with a received packet
    (daemon/p2p_server_context.cc) and how it puts a copy on the wire
    (daemon/packet/packet_tasks.cc). */
module ServerContext {
  import opened Options
  import opened PeerTypes
  import opened Words
  import FC = FifoCache
  import RT = RoutingTable

  /** The default of std::string, which fills a fresh cache. */
  const NO_SIG: Sig := ""

  datatype Packet = Packet(sig: Sig, receiver: Id, ttl: uint32)

  /** What became of a received packet. */
  datatype Hop = TtlZero | Duplicate | Forwarded | Handled
  {
    predicate Accepted() {
      Forwarded? || Handled?
    }
  }

  function HopOf(deviceId: Id, cache: FC.State<Sig>, pkt: Packet): Hop {
    if pkt.ttl == 0 then TtlZero
    else if pkt.sig in cache.members then Duplicate
    else if deviceId != pkt.receiver then Forwarded
    else Handled
  }

  /** Packets with ttl 0 are not remembered. */
  function CacheAfter(cache: FC.State<Sig>, pkt: Packet): FC.State<Sig>
    requires |cache.list| > 0
  {
    if pkt.ttl == 0 then cache else FC.Lookup(cache, pkt.sig)
  }

  /** keys lists the table's entries once each, in some order. */
  ghost predicate Enumerates(keys: seq<Id>, routes: Routes) {
    && (forall k :: k in keys <==> k in routes)
    && (forall i, j :: 0 <= i < j < |keys| ==> keys[i] != keys[j])
  }

  function Hops(keys: seq<Id>, routes: Routes): (r: seq<Addr>)
    requires forall k :: k in keys ==> k in routes
    ensures |r| == |keys|
  {
    seq(|keys|, i requires 0 <= i < |keys| => routes[keys[i]].addr)
  }

  ghost predicate Broadcast(routes: Routes, sends: seq<Addr>) {
    exists keys :: Enumerates(keys, routes) && sends == Hops(keys, routes)
  }

  /** Where a packet for another node is sent: along its route when one is known and the
      copy may still travel two hops, otherwise to every entry of the table. */
  ghost predicate Targets(routes: Routes, pkt: Packet, sends: seq<Addr>) {
    if pkt.ttl > 1 && pkt.receiver in routes then sends == [routes[pkt.receiver].addr]
    else Broadcast(routes, sends)
  }

  /** The keys whose entry has address a. */
  ghost function Holders(keys: set<Id>, routes: Routes, a: Addr): set<Id> {
    set k | k in keys && k in routes && routes[k].addr == a
  }

  /** How often an address occurs among the entries of the table. */
  ghost function Entries(routes: Routes, a: Addr): nat {
    |Holders(routes.Keys, routes, a)|
  }

  lemma HoldersPush(keys: set<Id>, k: Id, routes: Routes, a: Addr)
    requires k in routes && k !in keys
    ensures |Holders(keys + {k}, routes, a)|
         == |Holders(keys, routes, a)| + if routes[k].addr == a then 1 else 0
  {
    assert Holders(keys + {k}, routes, a)
        == Holders(keys, routes, a) + if routes[k].addr == a then {k} else {};
  }

  lemma {:induction false} HopsCounted(keys: seq<Id>, all: set<Id>, routes: Routes, a: Addr)
    requires forall k :: k in keys ==> k in routes
    requires forall k :: k in keys <==> k in all
    requires forall i, j :: 0 <= i < j < |keys| ==> keys[i] != keys[j]
    ensures multiset(Hops(keys, routes))[a] == |Holders(all, routes, a)|
    decreases |keys|
  {
    hide Holders;
    if keys == [] {
      assert all == {};
      NoHolders(routes, a);
    } else {
      var last, rest := keys[|keys| - 1], keys[..|keys| - 1];
      assert keys == rest + [last] && last !in rest;
      HopsCounted(rest, all - {last}, routes, a);
      assert Hops(keys, routes) == Hops(rest, routes) + [routes[last].addr];
      assert all - {last} + {last} == all;
      HoldersPush(all - {last}, last, routes, a);
    }
  }

  lemma NoHolders(routes: Routes, a: Addr)
    ensures Holders({}, routes, a) == {}
  {
  }

  /** A broadcast sends to the address of every entry, once for each entry that has it. */
  lemma BroadcastSends(routes: Routes, sends: seq<Addr>, a: Addr)
    requires Broadcast(routes, sends)
    ensures multiset(sends)[a] == Entries(routes, a)
  {
    var keys :| Enumerates(keys, routes) && sends == Hops(keys, routes);
    HopsCounted(keys, routes.Keys, routes, a);
  }

  /** A packet whose copy may still travel two hops goes to its known route and nowhere else;
      any other goes to every entry. */
  lemma TargetsExact(routes: Routes, pkt: Packet, sends: seq<Addr>, a: Addr)
    requires Targets(routes, pkt, sends)
    ensures pkt.ttl >= 2 && pkt.receiver in routes ==> sends == [routes[pkt.receiver].addr]
    ensures pkt.ttl < 2 || pkt.receiver !in routes ==> multiset(sends)[a] == Entries(routes, a)
  {
    if pkt.ttl < 2 || pkt.receiver !in routes {
      BroadcastSends(routes, sends, a);
    }
  }

  lemma KeysCounted(keys: seq<Id>, s: set<Id>)
    requires forall k :: k in keys ==> k in s
    requires forall i, j :: 0 <= i < j < |keys| ==> keys[i] != keys[j]
    ensures |keys| <= |s|
  {
    FC.DistinctFits(keys, s);
  }

  /** One packet never becomes more copies than the table has entries. */
  lemma TargetsBounded(routes: Routes, pkt: Packet, sends: seq<Addr>)
    requires Targets(routes, pkt, sends)
    ensures |sends| <= |routes|
  {
    if pkt.ttl > 1 && pkt.receiver in routes {
      KeysCounted([pkt.receiver], routes.Keys);
    } else {
      var keys :| Enumerates(keys, routes) && sends == Hops(keys, routes);
      KeysCounted(keys, routes.Keys);
    }
    assert |routes| == |routes.Keys|;
  }

  class P2PServerContext {
    const deviceId: Id
    const cache: FC.FIFOCache<Sig>
    const routing: RT.RoutingTable<Id, Addr>

    constructor (deviceId: Id, packetCacheSize: nat)
      requires packetCacheSize > 0
      ensures this.deviceId == deviceId && fresh(cache) && fresh(routing)
      ensures cache.Valid() && cache.maxCacheSize == packetCacheSize && cache.default == NO_SIG
      ensures cache.Contents() == FC.Fresh(packetCacheSize, NO_SIG) && routing.routingMap == map[]
    {
      this.deviceId := deviceId;
      cache := new FC.FIFOCache(packetCacheSize, NO_SIG);
      routing := new RT.RoutingTable();
    }

    /** Handle one parsed packet: the addresses that send tasks are submitted for. */
    method ReadCallback(pkt: Packet) returns (hop: Hop, sends: seq<Addr>)
      requires cache.Valid()
      modifies cache
      ensures cache.Valid()
      ensures hop == HopOf(deviceId, old(cache.Contents()), pkt)
      ensures pkt.ttl == 0 ==> hop == TtlZero
      ensures pkt.ttl > 0 && pkt.sig in old(cache.cacheMap) ==> hop == Duplicate
      ensures pkt.ttl > 0 && pkt.sig !in old(cache.cacheMap) ==>
                hop == if pkt.receiver == deviceId then Handled else Forwarded
      ensures cache.Contents() == CacheAfter(old(cache.Contents()), pkt)
      ensures hop != Forwarded ==> sends == []
      ensures hop == Forwarded ==> Targets(routing.routingMap, pkt, sends)
      ensures hop == Forwarded ==>
                if pkt.ttl >= 2 && pkt.receiver in routing.routingMap
                then sends == [routing.routingMap[pkt.receiver].addr]
                else forall a :: multiset(sends)[a] == Entries(routing.routingMap, a)
    {
      if pkt.ttl == 0 {
        return TtlZero, [];
      }
      var cached := cache.IsCached(pkt.sig);
      if cached {
        return Duplicate, [];
      }
      if deviceId != pkt.receiver {
        var known := routing.CanDelivered(pkt.receiver);
        if pkt.ttl > 1 && known {
          var next := routing.GetNextPeer(pkt.receiver);
          sends := [next];
        } else {
          sends := BroadcastAll();
        }
        return Forwarded, sends;
      }
      return Handled, [];
    }

    /** The loop over the routing table. */
    method BroadcastAll() returns (sends: seq<Addr>)
      ensures Broadcast(routing.routingMap, sends)
      ensures forall a :: multiset(sends)[a] == Entries(routing.routingMap, a)
    {
      var routes := routing.routingMap;
      var rest := routes.Keys;
      ghost var keys: seq<Id> := [];
      sends := [];
      while rest != {}
        invariant rest <= routes.Keys
        invariant forall k :: k in keys <==> k in routes && k !in rest
        invariant forall i, j :: 0 <= i < j < |keys| ==> keys[i] != keys[j]
        invariant sends == Hops(keys, routes)
        decreases rest
      {
        var k :| k in rest;
        rest := rest - {k};
        sends := sends + [routes[k].addr];
        keys := keys + [k];
      }
      assert Enumerates(keys, routes);
      forall a
        ensures multiset(sends)[a] == Entries(routes, a)
      {
        BroadcastSends(routes, sends, a);
      }
    }
  }

  // ----- putting a copy on the wire -----

  /** ttl - 1 on an unsigned 32-bit field. */
  function Decrement(ttl: uint32): uint32 {
    (ttl - 1) % 0x1_0000_0000
  }

  /** The task's own copy of the message. */
  class SignedProtoMessage {
    const sig: Sig
    const receiver: Id
    var ttl: uint32
    var lastForwardPort: nat

    constructor (pkt: Packet)
      ensures Value() == pkt
    {
      sig, receiver, ttl, lastForwardPort := pkt.sig, pkt.receiver, pkt.ttl, 0;
    }

    function Value(): Packet
      reads this
    {
      Packet(sig, receiver, ttl)
    }
  }

  /** send_packet_tcp: the ttl is spent once the connection stands, just before sending;
      the three flags are the results of the socket calls. */
  method SendPacketTcp(machinePort: nat, msg: SignedProtoMessage,
                       socketOk: bool, addressOk: bool, connectOk: bool) returns (sent: Option<Packet>)
    modifies msg
    ensures sent.Some? <==> socketOk && addressOk && connectOk
    ensures sent.None? ==> msg.ttl == old(msg.ttl) && msg.lastForwardPort == old(msg.lastForwardPort)
    ensures sent.Some? ==>
              && sent.value == msg.Value() == old(msg.Value()).(ttl := Decrement(old(msg.ttl)))
              && msg.lastForwardPort == machinePort
    ensures sent.Some? && old(msg.ttl) > 0 ==>
              && sent.value == Packet(msg.sig, msg.receiver, old(msg.ttl) - 1)
              && msg.ttl == old(msg.ttl) - 1
    ensures sent.Some? && old(msg.ttl) == 0 ==> msg.ttl == 0xffff_ffff
  {
    if !socketOk || !addressOk || !connectOk {
      return None;
    }
    msg.ttl := Decrement(msg.ttl);
    msg.lastForwardPort := machinePort;
    return Some(msg.Value());
  }

  /** send_pkg starts every packet with the same hop budget. */
  const INITIAL_TTL: uint32 := 10
}
