/** Delivery from the sending node to the node that holds the destination, and back. */
module EndToEnd {
  import opened Wrappers
  import opened MacTable
  import opened Prefix
  import opened RouteTable
  import opened ArpTable
  import opened Layer3
  import opened PacketTrack
  import opened Internet

  /** Where to, and out of which interface. */
  datatype NextHop = NextHop(via: Ip, out: nat)

  /** Where a node sends a packet in transit, by the interface its route names. */
  function TransitHop(cfg: NodeCfg, dst: Ip): Option<NextHop> {
    match Lpm(cfg.routes, dst)
    case None => None
    case Some(r) =>
      var out := if r.isDirect then MatchingSubnet(cfg.intfs, dst) else IntfByName(cfg.intfs, r.oif);
      if out.None? then None else Some(NextHop(if r.isDirect then dst else r.gw, out.value))
  }

  /** Where a node sends a packet of its own, by the interface on the gateway's subnet, looked up by its name. */
  function OriginHop(cfg: NodeCfg, dst: Ip): Option<NextHop> {
    match Lpm(cfg.routes, dst)
    case None => None
    case Some(r) =>
      var via := if r.isDirect then dst else r.gw;
      var out := MatchingSubnet(cfg.intfs, via);
      if out.None? then None
      else Some(NextHop(via, if r.isDirect then out.value else ByItsName(cfg.intfs, out.value)))
  }

  /** The packet a node makes of `body`: the address of an interface as its source, and TTL 64. */
  function OwnPacket(cfg: NodeCfg, body: Body, dst: Ip): Packet
    requires Lpm(cfg.routes, dst).Some?
  {
    Packet(OwnSource(cfg, dst), dst, 64, body)
  }

  /** The next hop of node `n` resolves, and its MAC is that of an interface of `k` on the segment it is sent to. */
  ghost predicate LeadsTo(net: Inet, arp: ArpTables, n: nat, hop: Option<NextHop>, k: nat)
    requires n < |arp|
  {
    && hop.Some? && Resolve(arp[n], hop.value.via).Some?
    && exists j: nat :: MacOnLan(net, (n, hop.value.out), Resolve(arp[n], hop.value.via).value.mac, (k, j))
  }

  ghost predicate MacOnLan(net: Inet, p: Socket, mac: Mac, q: Socket) {
    SameLan(net, p, q) && IntfAt(net, q).mac == mac
  }

  /** Ranked nodes hold the destination, or their routes lead to a node of lower rank. */
  ghost predicate RoutesLead(net: Inet, arp: ArpTables, dst: Ip, rank: map<nat, nat>) {
    && |arp| == |net.nodes|
    && (forall n :: n in rank ==> n < |net.nodes|)
    && forall n :: n in rank ==> IsHome(net.nodes[n], dst) || exists k: nat :: Closer(net, arp, dst, rank, n, k)
  }

  ghost predicate Closer(net: Inet, arp: ArpTables, dst: Ip, rank: map<nat, nat>, n: nat, k: nat)
    requires n < |net.nodes| && |arp| == |net.nodes| && n in rank
  {
    k in rank && rank[k] < rank[n] && LeadsTo(net, arp, n, TransitHop(net.nodes[n], dst), k)
  }

  // ----- one hop is delivered

  /** The frame node `n` sends resolves to a MAC, and the segment delivers a frame to it to node `k`. */
  ghost predicate Delivered(net: Inet, arp: ArpTables, n: nat, via: Ip, out: nat, k: nat)
    requires n < |arp|
  {
    Resolve(arp[n], via).Some? && exists j: nat :: DeliversTo(net, (n, out), Resolve(arp[n], via).value.mac, (k, j))
  }

  /** The packet goes on, and the segment it goes out to delivers it. */
  ghost predicate Carried(net: Inet, arp: ArpTables, a: Place, b: Place)
    requires a.node < |net.nodes| && |arp| == |net.nodes|
  {
    var f := Track(net.nodes[a.node], Promote(a.pkt));
    f.Sent? && b.pkt == f.pkt && Delivered(net, arp, a.node, f.via, f.out, b.node)
  }

  /** A next hop on another node is delivered by the segment, and the other node takes it. */
  lemma LeadingIsDelivered(net: Inet, arp: ArpTables, n: nat, hop: NextHop, k: nat)
    requires ValidInet(net) && n < |arp| && n != k && LeadsTo(net, arp, n, Some(hop), k)
    ensures Delivered(net, arp, n, hop.via, hop.out, k) && Takes(net, arp, n, hop.via, hop.out, k)
    ensures n < |net.nodes| && k < |net.nodes|
  {
    var mac := Resolve(arp[n], hop.via).value.mac;
    var j: nat :| MacOnLan(net, (n, hop.out), mac, (k, j));
    assert ToldApart(net, (n, hop.out), (k, j));
    assert Hears(net, (n, hop.out), mac, (k, j));
    HearsIffDelivered(net, (n, hop.out), mac, (k, j));
  }

  /** An entry learned on the interface the packet goes out of leads to who it names. */
  lemma LearnedHere(net: Inet, arp: ArpTables, n: nat, hop: NextHop) returns (k: nat)
    requires ValidInet(net) && ArpTrue(net, arp) && n < |arp| && Attached(net, (n, hop.out))
    requires Resolve(arp[n], hop.via).Some? && Resolve(arp[n], hop.via) != Some(INITIAL)
    requires var e := Resolve(arp[n], hop.via).value;
      forall i: nat :: Attached(net, (n, i)) && IntfAt(net, (n, i)).name == e.oif ==> i == hop.out
    ensures LeadsTo(net, arp, n, Some(hop), k) && k < |net.nodes| && IsLocal(net.nodes[k], hop.via)
  {
    var e := Resolve(arp[n], hop.via).value;
    assert e in arp[n] && e.ip == hop.via by {
      assert HasIp(hop.via)(e);
    }
    var i: nat, q: Socket :| EntryHeld(net, e, (n, i), q);
    k := q.0;
    assert Attached(net, q) && MacOnLan(net, (n, hop.out), e.mac, (k, q.1));
  }

  lemma TransitIsSent(cfg: NodeCfg, p: Packet)
    requires TransitHop(cfg, p.dst).Some? && !IsHome(cfg, p.dst)
    requires p.ttl > if DirectTo(cfg, p.dst) then 0 else 1
    ensures var hop := TransitHop(cfg, p.dst).value;
      var ttl := p.ttl - if DirectTo(cfg, p.dst) then 0 else 1;
      Track(cfg, Promote(p)) == Sent(p.(ttl := ttl), hop.via, hop.out)
  {
    var r := Lpm(cfg.routes, p.dst).value;
    if r.isDirect {
      assert Step(cfg, Promote(p)) == Go(Demote(p, p.dst, None));
    } else {
      var ttl: Ttl := (p.ttl + 255) % 256;
      assert ttl == p.ttl - 1;
      var down := Demote(p.(ttl := ttl), r.gw, IntfByName(cfg.intfs, r.oif));
      assert Step(cfg, Promote(p)) == Go(down);
      assert Track(cfg, Promote(p)) == Track(cfg, down);
    }
  }

  lemma OwnIsSent(cfg: NodeCfg, body: Body, dst: Ip)
    requires OriginHop(cfg, dst).Some? && !IsHome(cfg, dst)
    ensures var hop := OriginHop(cfg, dst).value;
      Launch(cfg, body, dst) == Sent(OwnPacket(cfg, body, dst), hop.via, hop.out)
  {
  }

  lemma OwnArrives(cfg: NodeCfg, body: Body, dst: Ip)
    requires IsHome(cfg, dst)
    ensures Launch(cfg, body, dst) == Arrived(OwnPacket(cfg, body, dst))
  {
    var p := OwnPacket(cfg, body, dst);
    assert Step(cfg, SendFromTop(body, dst)) == Go(Demote(p, dst, None));
    assert Track(cfg, Demote(p, dst, None)) == Track(cfg, Promote(p));
    ArrivedIff(cfg, p);
  }

  // ----- all the way

  /** How many nodes of a journey used a route that is not direct. */
  ghost function Transits(net: Inet, j: seq<Place>): nat
    requires forall i :: 0 <= i < |j| ==> j[i].node < |net.nodes|
  {
    if |j| <= 1 then 0
    else (if DirectTo(net.nodes[j[0].node], j[0].pkt.dst) then 0 else 1) + Transits(net, j[1..])
  }

  ghost predicate CarriedAt(net: Inet, arp: ArpTables, j: seq<Place>, i: nat)
    requires |arp| == |net.nodes|
  {
    i + 1 < |j| && j[i].node < |net.nodes| && Carried(net, arp, j[i], j[i + 1])
  }

  /** From place to place the segments carry the packet, and at the last it has arrived. */
  ghost predicate Arrives(net: Inet, arp: ArpTables, j: seq<Place>)
    requires |arp| == |net.nodes|
  {
    && |j| > 0 && (forall i :: 0 <= i < |j| ==> j[i].node < |net.nodes|)
    && (forall i: nat :: i + 1 < |j| ==> CarriedAt(net, arp, j, i))
    && var last := j[|j| - 1];
       && IsHome(net.nodes[last.node], j[0].pkt.dst)
       && Transits(net, j) <= j[0].pkt.ttl && last.pkt == j[0].pkt.(ttl := j[0].pkt.ttl - Transits(net, j))
       && Track(net.nodes[last.node], Promote(last.pkt)) == Arrived(last.pkt)
  }

  lemma ArrivesAt(net: Inet, arp: ArpTables, a: Place)
    requires ValidInet(net) && |arp| == |net.nodes| && a.node < |net.nodes| && IsHome(net.nodes[a.node], a.pkt.dst)
    ensures Arrives(net, arp, [a])
  {
    ArrivedIff(net.nodes[a.node], a.pkt);
  }

  lemma ArrivesFrom(net: Inet, arp: ArpTables, a: Place, rest: seq<Place>)
    requires ValidInet(net) && |arp| == |net.nodes| && Arrives(net, arp, rest)
    requires a.node < |net.nodes| && Carried(net, arp, a, rest[0])
    requires var d := if DirectTo(net.nodes[a.node], a.pkt.dst) then 0 else 1;
      rest[0].pkt.ttl == a.pkt.ttl - d && rest[0].pkt == a.pkt.(ttl := rest[0].pkt.ttl)
    ensures Arrives(net, arp, [a] + rest)
  {
    var j := [a] + rest;
    assert j[1..] == rest;
    forall i: nat | i + 1 < |j| ensures CarriedAt(net, arp, j, i) {
      if i > 0 {
        assert CarriedAt(net, arp, rest, i - 1);
      }
    }
  }

  /** From a ranked node on, with a TTL above its rank, the packet arrives. */
  lemma {:induction false} InTransit(net: Inet, arp: ArpTables, rank: map<nat, nat>, a: Place) returns (j: seq<Place>)
    requires ValidInet(net) && RoutesLead(net, arp, a.pkt.dst, rank)
    requires a.node in rank && a.pkt.ttl > rank[a.node]
    ensures Arrives(net, arp, j) && j[0] == a && |j| - 1 <= rank[a.node]
    decreases rank[a.node]
  {
    var cfg := net.nodes[a.node];
    if IsHome(cfg, a.pkt.dst) {
      j := [a];
      ArrivesAt(net, arp, a);
    } else {
      var k: nat :| Closer(net, arp, a.pkt.dst, rank, a.node, k);
      TransitIsSent(cfg, a.pkt);
      LeadingIsDelivered(net, arp, a.node, TransitHop(cfg, a.pkt.dst).value, k);
      var b := Place(k, a.pkt.(ttl := a.pkt.ttl - if DirectTo(cfg, a.pkt.dst) then 0 else 1));
      var rest := InTransit(net, arp, rank, b);
      ArrivesFrom(net, arp, a, rest);
      j := [a] + rest;
    }
  }

  /** The node holds the destination, or sends packets of its own for it to a node of a rank below 64. */
  ghost predicate OriginLeads(net: Inet, arp: ArpTables, dst: Ip, rank: map<nat, nat>, o: nat)
    requires |arp| == |net.nodes|
  {
    o < |net.nodes| &&
    (IsHome(net.nodes[o], dst) || exists k: nat :: FirstHop(net, arp, dst, rank, o, k))
  }

  ghost predicate FirstHop(net: Inet, arp: ArpTables, dst: Ip, rank: map<nat, nat>, o: nat, k: nat)
    requires |arp| == |net.nodes| && o < |net.nodes|
  {
    k in rank && rank[k] < 64 && k != o && LeadsTo(net, arp, o, OriginHop(net.nodes[o], dst), k)
  }

  /** What node `o` makes of `body` is at the first place of `j`: here, or where the segment delivers it. */
  ghost predicate SetsOut(net: Inet, arp: ArpTables, o: nat, body: Body, dst: Ip, j: seq<Place>)
    requires |arp| == |net.nodes| && |j| > 0 && o < |net.nodes|
  {
    && Lpm(net.nodes[o].routes, dst).Some? && j[0].pkt == OwnPacket(net.nodes[o], body, dst)
    && match Launch(net.nodes[o], body, dst)
       case Arrived(p) => j == [Place(o, p)]
       case Sent(p, via, out) => p == j[0].pkt && Delivered(net, arp, o, via, out, j[0].node)
       case Lost => false
  }

  /**
   * End to end: if the routes lead from the sender to the destination, over fewer than 64 ranks,
   * what the sender makes of `body` arrives at a node that holds the destination, with the
   * address of the sender's interface on the way, the body as sent, and a TTL of 64 less one for
   * each node in between that used a route that is not direct.
   */
  lemma EndToEnd(net: Inet, arp: ArpTables, rank: map<nat, nat>, o: nat, body: Body, dst: Ip)
      returns (j: seq<Place>)
    requires ValidInet(net) && RoutesLead(net, arp, dst, rank) && OriginLeads(net, arp, dst, rank, o)
    ensures Arrives(net, arp, j) && SetsOut(net, arp, o, body, dst, j)
    ensures |j| <= 64 && IsOwn(net.nodes[o], body, dst, j[0].pkt)
  {
    var cfg := net.nodes[o];
    OwnSourceIs(cfg, dst);
    if IsHome(cfg, dst) {
      j := [Place(o, OwnPacket(cfg, body, dst))];
      OwnArrives(cfg, body, dst);
      ArrivesAt(net, arp, j[0]);
    } else {
      var k: nat :| FirstHop(net, arp, dst, rank, o, k);
      OwnIsSent(cfg, body, dst);
      LeadingIsDelivered(net, arp, o, OriginHop(cfg, dst).value, k);
      j := InTransit(net, arp, rank, Place(k, OwnPacket(cfg, body, dst)));
    }
  }

  /** The answer a node that holds the destination gives to a ping. */
  lemma PingIsAnswered(cfg: NodeCfg, p: Packet)
    requires IsHome(cfg, p.dst) && p.body.Echo?
    ensures exists reply: Body ::
      && IsReplyTo(p.body.ident, p.body.seqNum, p.body.data, reply)
      && Step(cfg, Promote(p)) == Go(SendFromTop(reply, p.src))
  {
    SwapReverses(p.body.data);
    var reply := EchoReply(p.body.ident, p.body.seqNum, SwapBytes(p.body.data));
    assert IsReplyTo(p.body.ident, p.body.seqNum, p.body.data, reply);
  }

  /** From every node that holds `dst` the routes lead to `src`. */
  ghost predicate WaysBack(net: Inet, arp: ArpTables, dst: Ip, src: Ip, back: map<nat, nat>) {
    && RoutesLead(net, arp, src, back)
    && forall d: nat :: d < |net.nodes| && IsHome(net.nodes[d], dst) ==> OriginLeads(net, arp, src, back, d)
  }

  /**
   * A ping and its answer: if the routes lead there, and from there back to the address the
   * ping carries, the answer arrives at a node that holds that address, with the ping's
   * identifier and sequence number, its data in reverse byte order, and from the pinged node.
   */
  lemma PingRoundTrip(net: Inet, arp: ArpTables, there: map<nat, nat>, back: map<nat, nat>,
                      o: nat, dst: Ip, ident: int, seqNum: int, data: Word)
      returns (j: seq<Place>, j': seq<Place>)
    requires ValidInet(net) && RoutesLead(net, arp, dst, there) && OriginLeads(net, arp, dst, there, o)
    requires WaysBack(net, arp, dst, OwnPacket(net.nodes[o], Echo(ident, seqNum, data), dst).src, back)
    ensures Arrives(net, arp, j) && SetsOut(net, arp, o, Echo(ident, seqNum, data), dst, j)
    ensures IsOwn(net.nodes[o], Echo(ident, seqNum, data), dst, j[0].pkt)
    ensures Arrives(net, arp, j') && IsReplyTo(ident, seqNum, data, j'[0].pkt.body)
    ensures var src, d, reply := j[0].pkt.src, j[|j| - 1].node, j'[0].pkt.body;
      && Step(net.nodes[d], Promote(j[|j| - 1].pkt)) == Go(SendFromTop(reply, src))
      && SetsOut(net, arp, d, reply, src, j') && IsOwn(net.nodes[d], reply, src, j'[0].pkt)
  {
    j := EndToEnd(net, arp, there, o, Echo(ident, seqNum, data), dst);
    var last := j[|j| - 1];
    PingIsAnswered(net.nodes[last.node], last.pkt);
    var reply: Body :| IsReplyTo(ident, seqNum, data, reply)
      && Step(net.nodes[last.node], Promote(last.pkt)) == Go(SendFromTop(reply, last.pkt.src));
    j' := EndToEnd(net, arp, back, last.node, reply, j[0].pkt.src);
  }
}
