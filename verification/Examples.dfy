/** Networks that satisfy the hypotheses of the results, and inputs that show what they exclude. */
module Examples {
  import opened Wrappers
  import opened Circles
  import opened MacTable
  import opened Prefix
  import opened RouteTable
  import opened ArpTable
  import opened Interface
  import opened Layer3
  import opened PacketTrack
  import opened Internet
  import opened Journey
  import opened EndToEnd
  import opened Cascade
  import opened Traffic
  import Tree
  import Bridge
  import BridgeDelivery
  import Ethernet

  // ----- two routers on one link

  /** The router with the address `base + x`/24. */
  function RouterAt(base: Ip, x: int, routes: seq<Route>): NodeCfg
    requires 1 <= x <= 2 && base + 255 < WORD
  {
    NodeCfg(None, [Intf([x], [x, 1, 1, 1, 1, 1], Some(Addr(base + x, 24)))], routes)
  }

  function Subnet(base: Ip): Route {
    Route(base, 24, true, 0, [])
  }

  /** A link without a switch. */
  ghost function Link(m1: Mac, m2: Mac): Bridge.Net {
    Bridge.Net(Tree.Linked([0, 0]), [Bridge.Station(m1), Bridge.Station(m2)])
  }

  lemma LinkValid(m1: Mac, m2: Mac)
    requires CString(m1) != CString(m2) && m1 != BROADCAST && m2 != BROADCAST
    ensures ValidLan(Lan(Link(m1, m2), 1))
    ensures BridgeDelivery.OnSegment(Link(m1, m2), 1, 0) && BridgeDelivery.OnSegment(Link(m1, m2), 1, 1)
  {
    var link := Link(m1, m2);
    assert forall v: nat :: v < 2 ==> Bridge.IsStation(link, v);
    assert Bridge.ValidNet(link);
  }

  /** Two nodes whose one interface each is an end of the same link. */
  ghost function TwoNodes(a: NodeCfg, b: NodeCfg): Inet
    requires |a.intfs| == |b.intfs| == 1
  {
    Inet([a, b], [Lan(Link(a.intfs[0].mac, b.intfs[0].mac), 1)], map[(0, 0) := (0, 0), (1, 0) := (0, 1)])
  }

  lemma JoinedValid(net: Inet, p: Socket, q: Socket)
    requires net.at == map[p := (0, 0), q := (0, 1)] && p.0 != q.0 && Attached(net, p) && Attached(net, q)
    requires IntfAt(net, p).mac != IntfAt(net, q).mac
    requires forall n :: 0 <= n < |net.nodes| ==> |net.nodes[n].intfs| == 1
    ensures ValidInet(net) && SameLan(net, p, q)
  {
    forall r: Socket, t: Socket ensures ToldApart(net, r, t) {
      assert InInet(net, r) ==> r == p || r == q;
      assert InInet(net, t) ==> t == p || t == q;
    }
  }

  lemma TwoNodesValid(a: NodeCfg, b: NodeCfg)
    requires |a.intfs| == |b.intfs| == 1 && a.intfs[0].addr.Some? && b.intfs[0].addr.Some?
    requires var m1, m2 := a.intfs[0].mac, b.intfs[0].mac;
      CString(m1) != CString(m2) && m1 != BROADCAST && m2 != BROADCAST
    ensures ValidInet(TwoNodes(a, b)) && SameLan(TwoNodes(a, b), (0, 0), (1, 0))
  {
    var net := TwoNodes(a, b);
    assert Attached(net, (0, 0)) && Attached(net, (1, 0)) by {
      LinkValid(a.intfs[0].mac, b.intfs[0].mac);
    }
    JoinedValid(net, (0, 0), (1, 0));
  }

  ghost function TwoRouters(base: Ip, routesA: seq<Route>, routesB: seq<Route>): Inet
    requires base + 255 < WORD
  {
    TwoNodes(RouterAt(base, 1, routesA), RouterAt(base, 2, routesB))
  }

  lemma TwoRoutersValid(base: Ip, routesA: seq<Route>, routesB: seq<Route>)
    requires base + 255 < WORD
    ensures var net := TwoRouters(base, routesA, routesB);
      ValidInet(net) && SameLan(net, (0, 0), (1, 0))
  {
    var m1: Mac, m2: Mac := [1, 1, 1, 1, 1, 1], [2, 1, 1, 1, 1, 1];
    assert CString(m1)[0] == 1 && CString(m2)[0] == 2 && m1[0] == 1 && m2[0] == 2;
    TwoNodesValid(RouterAt(base, 1, routesA), RouterAt(base, 2, routesB));
  }

  /** Masking an address of a /24 leaves its base. */
  lemma SubnetMask(base: Ip, x: nat)
    requires base % 256 == 0 && x < 256 && base + x < WORD
    ensures Mask(base + x, 24) == base
  {
    assert Pow2(8) == 256;
    DivUnique(base + x, 256, base / 256, x);
  }

  lemma HostMask(ip: Ip)
    ensures Mask(ip, 32) == ip
  {
    assert Pow2(0) == 1;
  }

  // ----- a node with a loopback address

  const LOOPBACK: Ip := 0x0101_0101
  const LINK_NET: Ip := 0x0A01_0100

  /** A node with loopback 1.1.1.1 and an interface 10.1.1.1/24, with the routes they give it. */
  function LoopbackNode(): NodeCfg {
    NodeCfg(Some(LOOPBACK), RouterAt(LINK_NET, 1, []).intfs, [Subnet(LINK_NET), Route(LOOPBACK, 32, true, 0, [])])
  }

  lemma LoopbackRoutes(x: nat)
    requires x < 256
    ensures var routes := LoopbackNode().routes;
      && Lpm(routes, LINK_NET + x) == Some(Subnet(LINK_NET))
      && Lpm(routes, LOOPBACK) == Some(Route(LOOPBACK, 32, true, 0, []))
  {
    var routes := LoopbackNode().routes;
    SubnetMask(LINK_NET, x);
    SubnetMask(0x0101_0100, 1);
    HostMask(LINK_NET + x);
    HostMask(LOOPBACK);
    assert routes[..1][..0] == [] && Lpm(routes[..1][..0], LINK_NET + x) == None == Lpm(routes[..1][..0], LOOPBACK);
    assert routes[..1][0] == Subnet(LINK_NET);
  }

  lemma LoopbackSubnet(x: nat)
    requires x < 256
    ensures FirstOn(LoopbackNode(), 0, LINK_NET + x)
  {
    SubnetMask(LINK_NET, 1);
    SubnetMask(LINK_NET, x);
    MaskedEqualIffCovers(LINK_NET + 1, LINK_NET + x, 24);
  }

  /** It pings 10.1.1.x from 10.1.1.1, not from its loopback address. */
  lemma PingFromTheInterface(body: Body, x: nat)
    requires 2 <= x < 256
    ensures Lpm(LoopbackNode().routes, LINK_NET + x).Some?
    ensures OwnPacket(LoopbackNode(), body, LINK_NET + x) == Packet(LINK_NET + 1, LINK_NET + x, 64, body)
  {
    LoopbackRoutes(x);
    LoopbackSubnet(0);
    OwnSourceIs(LoopbackNode(), LINK_NET + x);
  }

  /** And a packet to 1.1.1.1 is for itself. */
  lemma LoopbackIsReached(p: Packet)
    requires p.dst == LOOPBACK
    ensures Track(LoopbackNode(), Promote(p)) == Arrived(p)
  {
    LoopbackRoutes(0);
    DirectIsHandled(LoopbackNode(), p);
  }

  // ----- a circle of routers that pass on the limited broadcast

  /** Two routers that pass it on to a segment they share make a circle. */
  lemma SharedSegment(net: Inet, p: Socket, q: Socket)
    requires ValidInet(net) && PassesOn(net, p) && PassesOn(net, q) && SameLan(net, p, q) && p != q
    ensures IsCircle(FloodRelation(net), [p.0, q.0, p.0])
  {
    assert p == (p.0, p.1) && q == (q.0, q.1);
    assert Floods(net, p.0, q.0) && Floods(net, q.0, p.0);
    var ns: seq<nat> := [p.0, q.0, p.0];
    assert LinkAt(FloodRelation(net), ns, 0) && LinkAt(FloodRelation(net), ns, 1);
  }

  /** Two routers of 255.255.255.0/24 pass one packet to 255.255.255.255 on to each other without end. */
  lemma FloodCircleExists(first: Packet)
    requires first.dst == BROADCAST_IP
    ensures var net := TwoRouters(0xFFFF_FF00, [Subnet(0xFFFF_FF00)], [Subnet(0xFFFF_FF00)]);
      ValidInet(net) && FloodCircle(net) && forall limit: nat :: !TrafficWithin(net, Place(0, first), limit)
  {
    var base, routes := 0xFFFF_FF00, [Subnet(0xFFFF_FF00)];
    var net := TwoRouters(base, routes, routes);
    TwoRoutersValid(base, routes, routes);
    PassesBroadcastOn(1);
    PassesBroadcastOn(2);
    SharedSegment(net, (0, 0), (1, 0));
    FloodsWithoutEnd(net, Place(0, first), [0, 1, 0]);
  }

  lemma PassesBroadcastOn(x: int)
    requires 1 <= x <= 2
    ensures var cfg := RouterAt(0xFFFF_FF00, x, [Subnet(0xFFFF_FF00)]);
      && DirectTo(cfg, BROADCAST_IP) && !IsLocal(cfg, BROADCAST_IP)
      && MatchingSubnet(cfg.intfs, BROADCAST_IP) == Some(0)
  {
    var base: Ip := 0xFFFF_FF00;
    var cfg := RouterAt(base, x, [Subnet(base)]);
    SubnetMask(base, 255);
    SubnetMask(base, x);
    assert cfg.routes[..0] == [] && Lpm(cfg.routes[..0], BROADCAST_IP) == None;
    assert OnSubnet(cfg.intfs[0], BROADCAST_IP);
  }

  // ----- a circle of errors

  /** Routers `a` and `b` send packets to `ip` to each other, and `a` gives its own ones that very source address. */
  ghost predicate ToEachOther(net: Inet, arp: ArpTables, a: nat, b: nat, ip: Ip) {
    && a < |net.nodes| && b < |net.nodes| && ArpTrue(net, arp)
    && TransitTo(net, arp, a, b, ip) && TransitTo(net, arp, b, a, ip)
    && (var own := OriginHop(net.nodes[a], ip);
        own.Some? && Takes(net, arp, a, own.value.via, own.value.out, b))
    && OwnPacket(net.nodes[a], TimeExceeded(ip), ip).src == ip
  }

  ghost predicate TransitTo(net: Inet, arp: ArpTables, n: nat, k: nat, ip: Ip)
    requires n < |net.nodes| && |arp| == |net.nodes|
  {
    var hop := TransitHop(net.nodes[n], ip);
    hop.Some? && !DirectTo(net.nodes[n], ip) && Takes(net, arp, n, hop.value.via, hop.value.out, k)
  }

  lemma TransitHopAt(net: Inet, arp: ArpTables, n: nat, k: nat, p: Packet,
                     arps: seq<ArpTables>, j: seq<Place>, i: nat)
    requires ValidInet(net) && n < |net.nodes| && ArpTrue(net, arp) && TransitTo(net, arp, n, k, p.dst)
    requires p.ttl > 1 && i < |arps| && i + 1 < |j| && arps[i] == arp
    requires j[i] == Place(n, p) && j[i + 1] == Place(k, p.(ttl := p.ttl - 1))
    ensures HopAt(net, arps, j, i)
  {
    TransitIsSent(net.nodes[n], p);
  }

  /** From `b` on, until one hop of the TTL is left. */
  ghost function ToAndFro(a: nat, b: nat, ip: Ip, body: Body): (j: seq<Place>)
    ensures |j| == 64
    ensures forall i :: 0 <= i < 64 ==> j[i] == Place(if i % 2 == 0 then b else a, Packet(ip, ip, 64 - i, body))
  {
    seq(64, i requires 0 <= i < 64 => Place(if i % 2 == 0 then b else a, Packet(ip, ip, 64 - i, body)))
  }

  lemma ToAndFroPair(a: nat, b: nat, ip: Ip, body: Body, i: nat)
    requires i < 63
    ensures var j := ToAndFro(a, b, ip, body);
      && j[i] == Place(if i % 2 == 0 then b else a, Packet(ip, ip, 64 - i, body))
      && j[i + 1] == Place(if i % 2 == 0 then a else b, Packet(ip, ip, 63 - i, body))
  {
    assert (i + 1) % 2 == 1 - i % 2;
  }

  lemma ToAndFroHop(net: Inet, arp: ArpTables, a: nat, b: nat, ip: Ip, arps: seq<ArpTables>, i: nat)
    requires ValidInet(net) && ToEachOther(net, arp, a, b, ip) && i < |arps| < 64 && arps[i] == arp
    ensures HopAt(net, arps, ToAndFro(a, b, ip, TimeExceeded(ip)), i)
  {
    var j, p := ToAndFro(a, b, ip, TimeExceeded(ip)), Packet(ip, ip, 64 - i, TimeExceeded(ip));
    var n, k := if i % 2 == 0 then b else a, if i % 2 == 0 then a else b;
    assert j[i] == Place(n, p) && j[i + 1] == Place(k, p.(ttl := p.ttl - 1)) by {
      ToAndFroPair(a, b, ip, TimeExceeded(ip), i);
    }
    assert TransitTo(net, arp, n, k, ip);
    TransitHopAt(net, arp, n, k, p, arps, j, i);
  }

  lemma ExpiresAt(cfg: NodeCfg, p: Packet)
    requires Lpm(cfg.routes, p.dst).Some? && !DirectTo(cfg, p.dst) && p.ttl == 1
    ensures Answer(cfg, Promote(p)) == Some(SendFromTop(TimeExceeded(p.dst), p.src))
  {
    assert Step(cfg, Promote(p)) == Go(SendFromTop(TimeExceeded(p.dst), p.src));
  }

  lemma ToAndFroJourney(net: Inet, arp: ArpTables, a: nat, b: nat, ip: Ip, arps: seq<ArpTables>)
    requires ValidInet(net) && ToEachOther(net, arp, a, b, ip)
    requires |arps| == 63 && forall i :: 0 <= i < 63 ==> arps[i] == arp
    ensures IsJourney(net, arps, ToAndFro(a, b, ip, TimeExceeded(ip)))
  {
    ToAndFroNodes(net, arp, a, b, ip);
    forall i: nat | i < 63 ensures HopAt(net, arps, ToAndFro(a, b, ip, TimeExceeded(ip)), i) {
      ToAndFroHop(net, arp, a, b, ip, arps, i);
    }
  }

  lemma ToAndFroNodes(net: Inet, arp: ArpTables, a: nat, b: nat, ip: Ip)
    requires ToEachOther(net, arp, a, b, ip)
    ensures forall i :: 0 <= i < 64 ==> ToAndFro(a, b, ip, TimeExceeded(ip))[i].node < |net.nodes|
  {
  }

  ghost function Unchanging(arp: ArpTables): (arps: seq<ArpTables>)
    ensures |arps| == 63 && forall i :: 0 <= i < 63 ==> arps[i] == arp
  {
    seq(63, i => arp)
  }

  lemma DiesToAndFro(net: Inet, arp: ArpTables, a: nat, b: nat, ip: Ip, arps: seq<ArpTables>)
    requires ValidInet(net) && ToEachOther(net, arp, a, b, ip)
    requires IsJourney(net, arps, ToAndFro(a, b, ip, TimeExceeded(ip)))
    ensures ErrorCircle(net)
  {
    var w := Way(arp, arps, ToAndFro(a, b, ip, TimeExceeded(ip)));
    OwnIsSent(net.nodes[a], TimeExceeded(ip), ip);
    ExpiresAt(net.nodes[a], w.places[63].pkt);
    assert DiesWith(net, Stage(a, ip), TimeExceeded(ip), w, a, SendFromTop(TimeExceeded(ip), ip));
    ItsOwnCause(net, Trouble(a, TimeExceeded(ip), ip), w);
  }

  /** An error `a` sends to its own address expires at `a`, which sends the same error again, for ever. */
  lemma ErrorsToEachOther(net: Inet, arp: ArpTables, a: nat, b: nat, ip: Ip)
    requires ValidInet(net) && ToEachOther(net, arp, a, b, ip)
    ensures ErrorCircle(net)
  {
    ToAndFroJourney(net, arp, a, b, ip, Unchanging(arp));
    DiesToAndFro(net, arp, a, b, ip, Unchanging(arp));
  }

  /** An error that dies where it was sent, and is answered there by the same error. */
  lemma ItsOwnCause(net: Inet, t: Trouble, w: Way)
    requires ValidInet(net) && !t.body.Echo? && t.node < |net.nodes|
    requires Lpm(net.nodes[t.node].routes, t.to).Some?
    requires DiesWith(net, StageOf(t), t.body, w, t.node, SendFromTop(t.body, t.to))
    ensures ErrorCircle(net)
  {
    assert Causes(net, t, t);
    LeadsToItself(net, t, StageOf(t));
  }

  lemma LeadsToItself(net: Inet, t: Trouble, a: Stage)
    requires ValidInet(net) && Leads(net, t, t, a, a)
    ensures ErrorCircle(net)
  {
    LeadsIff(net, a, a);
    assert LinkAt(ErrorRelation(net), [a, a], 0);
    assert IsCircle(ErrorRelation(net), [a, a]);
  }

  const NET_A: Ip := 0x0A00_0000
  const IP_A: Ip := 0x0A00_0001
  const IP_B: Ip := 0x0A00_0002

  /** Routes for the first router's address, by way of `gw`, and for the subnet. */
  function CircularRoutes(gw: Ip, oif: Name): seq<Route> {
    [Route(IP_A, 32, false, gw, oif), Subnet(NET_A)]
  }

  /** Each router knows the other one's MAC. */
  ghost function Neighbours(): ArpTables {
    [[ArpEntry(IP_B, [2, 1, 1, 1, 1, 1], [1])], [ArpEntry(IP_A, [1, 1, 1, 1, 1, 1], [2])]]
  }

  lemma CircularHops(x: int, gw: Ip)
    requires 1 <= x <= 2 && (gw == IP_A || gw == IP_B)
    ensures var cfg := RouterAt(NET_A, x, CircularRoutes(gw, [x]));
      && Lpm(cfg.routes, IP_A).Some? && !DirectTo(cfg, IP_A)
      && TransitHop(cfg, IP_A) == Some(NextHop(gw, 0)) && OriginHop(cfg, IP_A) == Some(NextHop(gw, 0))
      && OwnPacket(cfg, TimeExceeded(IP_A), IP_A).src == NET_A + x
  {
    var cfg := RouterAt(NET_A, x, CircularRoutes(gw, [x]));
    HostMask(IP_A);
    SubnetMask(NET_A, 1);
    SubnetMask(NET_A, 2);
    var rs := cfg.routes;
    assert rs[..1][..0] == [] && Lpm(rs[..1][..0], IP_A) == None;
    assert rs[..1][0] == rs[0] && Lpm(rs[..1], IP_A) == Some(rs[0]);
    assert Lpm(rs, IP_A) == Some(rs[0]);
    assert OnSubnet(cfg.intfs[0], gw);
  }

  lemma NeighbourTakes(net: Inet, arp: ArpTables, p: Socket, ip: Ip, q: Socket)
    requires ValidInet(net) && p.0 < |arp| && SameLan(net, p, q)
    requires arp[p.0] == [ArpEntry(ip, IntfAt(net, q).mac, IntfAt(net, p).name)]
    requires IntfAt(net, q).addr.value.ip == ip
    ensures Takes(net, arp, p.0, ip, p.1, q.0)
    ensures forall e :: e in arp[p.0] ==> EntryHeld(net, e, (p.0, p.1), q)
  {
    var e := arp[p.0][0];
    assert HasIp(ip)(e);
    assert Hears(net, p, e.mac, (q.0, q.1)) && p == (p.0, p.1);
  }

  lemma NeighboursTrue(net: Inet, arp: ArpTables)
    requires ValidInet(net) && |net.nodes| == 2 == |arp| && SameLan(net, (0, 0), (1, 0))
    requires forall e :: e in arp[0] ==> EntryHeld(net, e, (0, 0), (1, 0))
    requires forall e :: e in arp[1] ==> EntryHeld(net, e, (1, 0), (0, 0))
    ensures ArpTrue(net, arp)
  {
  }

  /**
   * Routers 10.0.0.1/24 and 10.0.0.2/24 that route 10.0.0.1/32 to each other: an error that
   * dies between them causes the next one for ever.
   */
  lemma ErrorCircleExists()
    ensures var net := TwoRouters(NET_A, CircularRoutes(IP_B, [1]), CircularRoutes(IP_A, [2]));
      ValidInet(net) && ErrorCircle(net)
  {
    var net, arp := TwoRouters(NET_A, CircularRoutes(IP_B, [1]), CircularRoutes(IP_A, [2])), Neighbours();
    TwoRoutersValid(NET_A, CircularRoutes(IP_B, [1]), CircularRoutes(IP_A, [2]));
    assert ToEachOther(net, arp, 0, 1, IP_A) by {
      NeighbourTakes(net, arp, (0, 0), IP_B, (1, 0));
      NeighbourTakes(net, arp, (1, 0), IP_A, (0, 0));
      NeighboursTrue(net, arp);
      CircularHops(1, IP_B);
      CircularHops(2, IP_A);
    }
    ErrorsToEachOther(net, arp, 0, 1, IP_A);
  }

  // ----- a ping between neighbours

  /** Routers 10.0.0.1/24 and 10.0.0.2/24 on one link, with the routes their addresses give them. */
  ghost function Neighbourhood(): Inet {
    TwoRouters(NET_A, [Subnet(NET_A)], [Subnet(NET_A)])
  }

  lemma NeighbourHops(x: int, y: int, body: Body)
    requires 1 <= x <= 2 && 1 <= y <= 2
    ensures var cfg, dst: Ip := RouterAt(NET_A, x, [Subnet(NET_A)]), NET_A + y;
      && DirectTo(cfg, dst) && (IsLocal(cfg, dst) <==> x == y)
      && TransitHop(cfg, dst) == Some(NextHop(dst, 0)) && OriginHop(cfg, dst) == Some(NextHop(dst, 0))
      && OwnPacket(cfg, body, dst) == Packet(NET_A + x, dst, 64, body)
  {
    var cfg, dst: Ip := RouterAt(NET_A, x, [Subnet(NET_A)]), NET_A + y;
    SubnetMask(NET_A, 0);
    SubnetMask(NET_A, x);
    SubnetMask(NET_A, y);
    assert cfg.routes[..0] == [] && Lpm(cfg.routes[..0], dst) == None;
    assert OnSubnet(cfg.intfs[0], dst) && OnSubnet(cfg.intfs[0], NET_A);
  }

  /** Node `n` sends packets of its own to `dst` straight to node `k`, whose address that is. */
  ghost predicate NextTo(net: Inet, arp: ArpTables, n: nat, k: nat, dst: Ip)
    requires |arp| == |net.nodes|
  {
    && n < |net.nodes| && k < |net.nodes| && n != k && IsHome(net.nodes[k], dst)
    && LeadsTo(net, arp, n, OriginHop(net.nodes[n], dst), k)
  }

  lemma NextToLeads(net: Inet, arp: ArpTables, n: nat, k: nat, dst: Ip)
    requires ValidInet(net) && |arp| == |net.nodes| && NextTo(net, arp, n, k, dst)
    ensures RoutesLead(net, arp, dst, map[k := 0]) && OriginLeads(net, arp, dst, map[k := 0], n)
  {
    assert FirstHop(net, arp, dst, map[k := 0], n, k);
  }

  lemma WayBack(net: Inet, arp: ArpTables, n: nat, k: nat, dst: Ip, from: Ip)
    requires ValidInet(net) && |arp| == |net.nodes| && NextTo(net, arp, n, k, dst)
    requires forall d: nat :: d < |net.nodes| && IsHome(net.nodes[d], from) ==> d == n
    ensures WaysBack(net, arp, from, dst, map[k := 0])
  {
    NextToLeads(net, arp, n, k, dst);
  }

  lemma NeighbourMac(net: Inet, arp: ArpTables, p: Socket, q: Socket, dst: Ip)
    requires ValidInet(net) && |arp| == |net.nodes| && p.0 < |arp| && SameLan(net, p, q)
    requires arp[p.0] == [ArpEntry(dst, IntfAt(net, q).mac, IntfAt(net, p).name)]
    ensures LeadsTo(net, arp, p.0, Some(NextHop(dst, p.1)), q.0)
  {
    assert HasIp(dst)(arp[p.0][0]);
    assert MacOnLan(net, (p.0, p.1), arp[p.0][0].mac, (q.0, q.1));
  }

  /** Routers of the subnet on one link, the first of which knows the second one's MAC. */
  lemma NextOnSubnet(net: Inet, arp: ArpTables, p: Socket, q: Socket, x: int, y: int)
    requires ValidInet(net) && |arp| == |net.nodes| && p.0 != q.0 && p.1 == q.1 == 0 && SameLan(net, p, q)
    requires 1 <= x <= 2 && 1 <= y <= 2 && net.nodes[p.0] == RouterAt(NET_A, x, [Subnet(NET_A)])
    requires net.nodes[q.0] == RouterAt(NET_A, y, [Subnet(NET_A)])
    requires arp[p.0] == [ArpEntry(NET_A + y, IntfAt(net, q).mac, IntfAt(net, p).name)]
    ensures NextTo(net, arp, p.0, q.0, NET_A + y)
  {
    NeighbourMac(net, arp, p, q, NET_A + y);
    NeighbourHops(x, y, TimeExceeded(0));
    NeighbourHops(y, y, TimeExceeded(0));
  }

  lemma NeighboursNext()
    ensures var net, arp := Neighbourhood(), Neighbours();
      ValidInet(net) && NextTo(net, arp, 0, 1, IP_B) && NextTo(net, arp, 1, 0, IP_A)
  {
    TwoRoutersValid(NET_A, [Subnet(NET_A)], [Subnet(NET_A)]);
    NextOnSubnet(Neighbourhood(), Neighbours(), (0, 0), (1, 0), 1, 2);
    NextOnSubnet(Neighbourhood(), Neighbours(), (1, 0), (0, 0), 2, 1);
  }

  /** A ping to a neighbour is answered, if this is the only one with that address and the way back is as straight. */
  lemma PingNextTo(net: Inet, arp: ArpTables, n: nat, k: nat, dst: Ip, src: Ip, ident: int, seqNum: int, data: Word)
      returns (j: seq<Place>, j': seq<Place>)
    requires ValidInet(net) && |arp| == |net.nodes|
    requires NextTo(net, arp, n, k, dst) && NextTo(net, arp, k, n, src)
    requires Lpm(net.nodes[n].routes, dst).Some? && OwnPacket(net.nodes[n], Echo(ident, seqNum, data), dst).src == src
    requires forall d: nat :: d < |net.nodes| && IsHome(net.nodes[d], dst) ==> d == k
    ensures Arrives(net, arp, j) && SetsOut(net, arp, n, Echo(ident, seqNum, data), dst, j)
    ensures Arrives(net, arp, j') && IsReplyTo(ident, seqNum, data, j'[0].pkt.body)
    ensures SetsOut(net, arp, k, j'[0].pkt.body, src, j')
  {
    NextToLeads(net, arp, n, k, dst);
    WayBack(net, arp, k, n, src, dst);
    j, j' := PingRoundTrip(net, arp, map[k := 0], map[n := 0], n, dst, ident, seqNum, data);
    assert j[0].pkt.src == src && j[0].pkt.dst == dst;
    assert j[|j| - 1].node == k;
  }

  lemma SecondHolds(body: Body)
    ensures var net := Neighbourhood();
      && |net.nodes| == 2 && (forall d: nat :: d < 2 && IsHome(net.nodes[d], IP_B) ==> d == 1)
      && Lpm(net.nodes[0].routes, IP_B).Some? && OwnPacket(net.nodes[0], body, IP_B).src == IP_A
  {
    NeighbourHops(1, 2, body);
  }

  /** The hypotheses of a round trip hold of neighbours: a ping from the first to the second is answered. */
  lemma NeighboursPing(ident: int, seqNum: int, data: Word) returns (j: seq<Place>, j': seq<Place>)
    ensures ValidInet(Neighbourhood())
    ensures Arrives(Neighbourhood(), Neighbours(), j) && Arrives(Neighbourhood(), Neighbours(), j')
    ensures SetsOut(Neighbourhood(), Neighbours(), 0, Echo(ident, seqNum, data), IP_B, j)
    ensures IsReplyTo(ident, seqNum, data, j'[0].pkt.body)
    ensures SetsOut(Neighbourhood(), Neighbours(), 1, j'[0].pkt.body, IP_A, j')
  {
    NeighboursNext();
    SecondHolds(Echo(ident, seqNum, data));
    j, j' := PingNextTo(Neighbourhood(), Neighbours(), 0, 1, IP_B, IP_A, ident, seqNum, data);
  }

  // ----- two switches and a trunk, with a VLAN across both and another at one of them

  function AccessPort(v: Vlan): PortCfg {
    RunOps([SetVlan(v)])
  }

  function TrunkPort(v: Vlan): PortCfg {
    RunOps([SetMode(Trunk), SetVlan(v)])
  }

  lemma Configured(v: Vlan)
    requires v != 0
    ensures !AccessPort(v).l3 && AccessPort(v).mode == Access && AccessVlan(AccessPort(v)) == v
    ensures !TrunkPort(v).l3 && TrunkMember(TrunkPort(v), v)
  {
    assert [SetVlan(v)][..0] == [];
    var ops := [SetMode(Trunk), SetVlan(v)];
    assert ops[..1] == [SetMode(Trunk)] && ops[..1][..0] == [];
    var c := RunOps([SetMode(Trunk)]);
    SwitchedStaysClean([SetMode(Trunk)]);
    assert [SetMode(Trunk)][..0] == [] && c.mode == Trunk;
    assert c.vlans[0] == 0 && 0 in c.vlans;
    AddedToSlots(c.vlans, v);
    assert v in Elems(WithVlan(c.vlans, v)) - {0};
  }

  /** Switches 0 and 1, station 2 on VLAN 10 at the first, stations 3 and 4 on VLANs 10 and 20 at the second. */
  ghost function Bridged(m2: Mac, m3: Mac, m4: Mac): Bridge.Net {
    var a := Bridge.Bridging([Ethernet.Port([1], TrunkPort(10)), Ethernet.Port([2], AccessPort(10))], [1, 2]);
    var b := Bridge.Bridging([Ethernet.Port([1], TrunkPort(10)), Ethernet.Port([2], AccessPort(10)),
                              Ethernet.Port([3], AccessPort(20))], [0, 3, 4]);
    Bridge.Net(Tree.Linked([0, 0, 0, 1, 1]), [a, b, Bridge.Station(m2), Bridge.Station(m3), Bridge.Station(m4)])
  }

  ghost predicate Linked(v: nat, w: nat) {
    (v == 0 && (w == 1 || w == 2)) || (v == 1 && (w == 3 || w == 4))
  }

  lemma BridgedLinks(m2: Mac, m3: Mac, m4: Mac, v: nat, w: nat)
    ensures Tree.Adj(Bridged(m2, m3, m4).tree, v, w) <==> Linked(v, w) || Linked(w, v)
  {
  }

  lemma BridgedSwitches(m2: Mac, m3: Mac, m4: Mac)
    ensures Bridge.ValidSwitch(Bridged(m2, m3, m4), 0) && Bridge.ValidSwitch(Bridged(m2, m3, m4), 1)
  {
    var net := Bridged(m2, m3, m4);
    Configured(10);
    Configured(20);
    forall v: nat, w: nat | v < 2 ensures Tree.Adj(net.tree, v, w) <==> w in net.nodes[v].nbrs {
      BridgedLinks(m2, m3, m4, v, w);
    }
  }

  /** Stations whose MACs differ up to their first zero byte. */
  ghost predicate Apart(m2: Mac, m3: Mac, m4: Mac) {
    && CString(m2) != CString(m3) && CString(m2) != CString(m4) && CString(m3) != CString(m4)
    && m2 != BROADCAST && m3 != BROADCAST && m4 != BROADCAST
  }

  lemma BridgedValid(m2: Mac, m3: Mac, m4: Mac)
    requires Apart(m2, m3, m4)
    ensures Bridge.ValidNet(Bridged(m2, m3, m4))
  {
    var net := Bridged(m2, m3, m4);
    BridgedSwitches(m2, m3, m4);
    forall h: nat, a: nat, b: nat
      | Bridge.IsStation(net, h) && Tree.Adj(net.tree, h, a) && Tree.Adj(net.tree, h, b)
      ensures a == b
    {
      BridgedLinks(m2, m3, m4, h, a);
      BridgedLinks(m2, m3, m4, h, b);
    }
    assert forall v: nat :: Bridge.IsSwitch(net, v) ==> v == 0 || v == 1;
    assert forall h: nat :: Bridge.IsStation(net, h) ==> h == 2 || h == 3 || h == 4;
  }

  lemma BridgedPort(m2: Mac, m3: Mac, m4: Mac, v: nat, w: nat)
    requires Apart(m2, m3, m4) && v < 2 && Tree.Adj(Bridged(m2, m3, m4).tree, v, w)
    ensures Bridge.ValidNet(Bridged(m2, m3, m4))
    ensures Bridge.PortFacing(Bridged(m2, m3, m4), v, w).cfg ==
            if w < 2 then TrunkPort(10) else if w == 4 then AccessPort(20) else AccessPort(10)
  {
    BridgedValid(m2, m3, m4);
    BridgedLinks(m2, m3, m4, v, w);
    var i := Bridge.Facing(Bridged(m2, m3, m4), v, w);
  }

  lemma SegmentOf(m2: Mac, m3: Mac, m4: Mac, x: nat)
    requires Apart(m2, m3, m4) && 2 <= x < 5
    ensures Bridge.ValidNet(Bridged(m2, m3, m4))
    ensures BridgeDelivery.OnSegment(Bridged(m2, m3, m4), 10, x) <==> x < 4
  {
    var net, y := Bridged(m2, m3, m4), if x == 2 then 0 else 1;
    BridgedValid(m2, m3, m4);
    Configured(10);
    Configured(20);
    BridgedLinks(m2, m3, m4, x, y);
    BridgedLinks(m2, m3, m4, y, x);
    BridgedPort(m2, m3, m4, y, x);
    forall z: nat | Tree.Adj(net.tree, x, z) ensures z == y {
      BridgedLinks(m2, m3, m4, x, z);
    }
  }

  lemma BridgedDesign(m2: Mac, m3: Mac, m4: Mac)
    requires Apart(m2, m3, m4)
    ensures ValidLan(Lan(Bridged(m2, m3, m4), 10))
  {
    var net := Bridged(m2, m3, m4);
    BridgedValid(m2, m3, m4);
    Configured(10);
    Configured(20);
    forall v: nat, w: nat | v < 2 && Tree.Adj(net.tree, v, w)
      ensures Bridge.PortFacing(net, v, w).cfg ==
              if w < 2 then TrunkPort(10) else if w == 4 then AccessPort(20) else AccessPort(10)
    {
      BridgedPort(m2, m3, m4, v, w);
    }
  }

  /** Such networks satisfy the hypotheses: stations 2 and 3 are on the segment of VLAN 10, station 4 is not. */
  lemma BridgedLan(m2: Mac, m3: Mac, m4: Mac)
    requires Apart(m2, m3, m4)
    ensures var net := Bridged(m2, m3, m4);
      ValidLan(Lan(net, 10)) && forall x: nat :: BridgeDelivery.OnSegment(net, 10, x) <==> x == 2 || x == 3
  {
    BridgedDesign(m2, m3, m4);
    forall x: nat ensures BridgeDelivery.OnSegment(Bridged(m2, m3, m4), 10, x) <==> x == 2 || x == 3 {
      if 2 <= x < 5 {
        SegmentOf(m2, m3, m4, x);
      }
    }
  }
}
