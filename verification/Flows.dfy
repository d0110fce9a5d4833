/**
 * Traffic read off the configuration. What a node does with a packet, and who may hear what it
 * sends, is stated here by routes, addresses and segments alone, and proved to be what the
 * layers and the ARP protocol do.
 */
module Flows {
  import opened Wrappers
  import opened Prefix
  import opened RouteTable
  import opened ArpTable
  import opened Layer3
  import opened PacketTrack
  import opened Internet
  import opened EndToEnd
  import Journey

  // ----- what a node does with a packet to `dst`

  datatype Move =
    | NoRoute
    | Deliver
    | Spin
    | Stuck(cost: nat)
    | Onward(via: Ip, out: nat, cost: nat)

  /**
   * A packet is delivered, goes on, or gets stuck; a route that is not direct takes one off its
   * TTL. It spins, up to layer 3 and down again, if its route names no interface of the node
   * and an address of the node as the gateway.
   */
  function MoveOf(cfg: NodeCfg, dst: Ip): Move {
    match Lpm(cfg.routes, dst)
    case None => NoRoute
    case Some(r) =>
      if r.isDirect then if IsLocal(cfg, dst) then Deliver else Outward(cfg, dst, 0)
      else match IntfByName(cfg.intfs, r.oif)
        case Some(i) => Onward(r.gw, i, 1)
        case None => if IsLocal(cfg, r.gw) then Spin else Outward(cfg, r.gw, 1)
  }

  function Outward(cfg: NodeCfg, via: Ip, cost: nat): Move {
    match MatchingSubnet(cfg.intfs, via)
    case None => Stuck(cost)
    case Some(i) => Onward(via, i, cost)
  }

  /** The TTL is used up at this node. */
  predicate Expires(m: Move, ttl: Ttl) {
    m.Spin? || ((m.Stuck? || m.Onward?) && Life(ttl) <= m.cost)
  }

  /** The TTL a packet goes on with. */
  function Left(ttl: Ttl, cost: nat): Ttl
    requires cost <= 1
  {
    if cost == 0 then ttl else Life(ttl) - 1
  }

  /** The packet calls for an answer at this node. */
  predicate Answered(cfg: NodeCfg, dst: Ip, ttl: Ttl, ping: bool) {
    var m := MoveOf(cfg, dst);
    m.NoRoute? || Expires(m, ttl) || (m.Deliver? && ping)
  }

  /** The way of a packet through the calls of a node, by its route. */
  lemma {:induction false} MoveDecides(cfg: NodeCfg, p: Packet)
    ensures Answer(cfg, Promote(p)).Some? <==> Answered(cfg, p.dst, p.ttl, p.body.Echo?)
    ensures Answer(cfg, Promote(p)).Some? ==>
      var c := Answer(cfg, Promote(p)).value;
      c.SendFromTop? && c.to == p.src && !c.body.Echo?
    ensures var m, f := MoveOf(cfg, p.dst), Track(cfg, Promote(p));
      if m.Onward? && !Expires(m, p.ttl) then f == Sent(p.(ttl := Left(p.ttl, m.cost)), m.via, m.out)
      else if m.Deliver? then f == Arrived(p) else f == Lost
    decreases Life(p.ttl)
  {
    var c := Promote(p);
    if Step(cfg, c).Go? && Step(cfg, c).call.Demote? {
      var down := Step(cfg, c).call;
      if MoveOf(cfg, p.dst).Spin? {
        assert Step(cfg, down) == Go(Promote(down.pkt));
        MoveDecides(cfg, down.pkt);
        assert Track(cfg, c) == Track(cfg, down) == Track(cfg, Promote(down.pkt));
        assert Answer(cfg, c) == Answer(cfg, down) == Answer(cfg, Promote(down.pkt));
      } else {
        assert Step(cfg, down).Stop?;
      }
    }
  }

  // ----- what a node sends because of a packet

  /** What matters of a packet on its way. */
  datatype Header = Header(src: Ip, dst: Ip, ttl: Ttl, ping: bool)

  function HeaderOf(p: Packet): Header {
    Header(p.src, p.dst, p.ttl, p.body.Echo?)
  }

  datatype Emission = Emission(head: Header, via: Ip, out: nat)

  /** What leaves the node of a packet it makes itself, other than a ping; nothing if it goes home. */
  function OwnEmission(cfg: NodeCfg, to: Ip): Option<Emission> {
    var hop := OriginHop(cfg, to);
    if IsHome(cfg, to) || hop.None? then None
    else Some(Emission(Header(OwnSource(cfg, to), to, INITIAL_TTL, false), hop.value.via, hop.value.out))
  }

  /** What leaves it of an answer; with no route the node tells its loopback address instead. */
  function ReplyEmission(cfg: NodeCfg, to: Ip): Option<Emission> {
    OwnEmission(cfg, if Lpm(cfg.routes, to).None? then LoAddr(cfg) else to)
  }

  function EmissionOf(cfg: NodeCfg, h: Header): Option<Emission> {
    var m := MoveOf(cfg, h.dst);
    if Answered(cfg, h.dst, h.ttl, h.ping) then ReplyEmission(cfg, h.src)
    else if m.Onward? then Some(Emission(h.(ttl := Left(h.ttl, m.cost)), m.via, m.out))
    else None
  }

  /** After some calls the node transmits `q`. */
  ghost predicate Emits(cfg: NodeCfg, c: Call, q: Packet, via: Ip, out: nat) {
    exists n: nat :: After(cfg, c, n) == Stop(Transmit(q, via, out))
  }

  ghost predicate Silent(cfg: NodeCfg, c: Call) {
    forall q: Packet, via: Ip, out: nat :: !Emits(cfg, c, q, via, out)
  }

  lemma {:induction false} AfterSplit(cfg: NodeCfg, c: Call, n: nat, m: nat)
    ensures After(cfg, c, n + m) == match After(cfg, c, n) case Stop(e) => Stop(e) case Go(c') => After(cfg, c', m)
  {
    if m == 0 {
    } else {
      AfterSplit(cfg, c, n, m - 1);
    }
  }

  /** A node transmits once at most. */
  lemma EmitsOnce(cfg: NodeCfg, c: Call, n: nat, e: Effect, q: Packet, via: Ip, out: nat)
    requires After(cfg, c, n) == Stop(e) && Emits(cfg, c, q, via, out)
    ensures e == Transmit(q, via, out)
  {
    var m: nat :| After(cfg, c, m) == Stop(Transmit(q, via, out));
    if m <= n {
      AfterSplit(cfg, c, m, n - m);
    } else {
      AfterSplit(cfg, c, n, m - n);
    }
  }

  /** What a call leads to, it emits, and nothing else. */
  lemma EmitsLater(cfg: NodeCfg, c: Call, n: nat, c': Call, q: Packet, via: Ip, out: nat)
    requires After(cfg, c, n) == Go(c')
    ensures Emits(cfg, c, q, via, out) <==> Emits(cfg, c', q, via, out)
  {
    if Emits(cfg, c', q, via, out) {
      var m: nat :| After(cfg, c', m) == Stop(Transmit(q, via, out));
      AfterSplit(cfg, c, n, m);
    }
    if Emits(cfg, c, q, via, out) {
      var m: nat :| After(cfg, c, m) == Stop(Transmit(q, via, out));
      if m <= n {
        AfterSplit(cfg, c, m, n - m);
      } else {
        AfterSplit(cfg, c, n, m - n);
      }
    }
  }

  /** A packet of its own, other than a ping and with a route, leaves the node as its configuration says. */
  lemma OwnEmitted(cfg: NodeCfg, body: Body, to: Ip, q: Packet, via: Ip, out: nat)
    requires !body.Echo? && Lpm(cfg.routes, to).Some?
    ensures var c := SendFromTop(body, to);
      Emits(cfg, c, q, via, out) <==>
        OwnEmission(cfg, to) == Some(Emission(HeaderOf(q), via, out)) && q == OwnPacket(cfg, body, to)
  {
    var c := SendFromTop(body, to);
    var n := LaunchFollowsCalls(cfg, body, to);
    if IsHome(cfg, to) {
      OwnArrives(cfg, body, to);
      var p := OwnPacket(cfg, body, to);
      assert After(cfg, c, n + 1) == Stop(Consumed(p));
      if Emits(cfg, c, q, via, out) {
        EmitsOnce(cfg, c, n + 1, Consumed(p), q, via, out);
      }
    } else if OriginHop(cfg, to).Some? {
      OwnIsSent(cfg, body, to);
      var hop := OriginHop(cfg, to).value;
      if Emits(cfg, c, q, via, out) {
        EmitsOnce(cfg, c, n, Transmit(OwnPacket(cfg, body, to), hop.via, hop.out), q, via, out);
      }
    } else {
      assert After(cfg, c, 0) == Go(c) && After(cfg, c, 1) == Step(cfg, c);
      assert After(cfg, c, 2) == Stop(NoInterface);
      if Emits(cfg, c, q, via, out) {
        EmitsOnce(cfg, c, 2, NoInterface, q, via, out);
      }
    }
  }

  /** An answer leaves the node as its configuration says. */
  lemma ReplyEmitted(cfg: NodeCfg, body: Body, to: Ip)
    requires !body.Echo?
    ensures forall q: Packet, via: Ip, out: nat :: Emits(cfg, SendFromTop(body, to), q, via, out) ==>
      ReplyEmission(cfg, to) == Some(Emission(HeaderOf(q), via, out))
    ensures ReplyEmission(cfg, to).Some? ==> var e := ReplyEmission(cfg, to).value;
      exists q: Packet :: HeaderOf(q) == e.head && Emits(cfg, SendFromTop(body, to), q, e.via, e.out)
  {
    var c, b, t := SendFromTop(body, to), body, to;
    if Lpm(cfg.routes, to).None? {
      b, t := DestUnreachable(to), LoAddr(cfg);
      assert After(cfg, c, 0) == Go(c) && After(cfg, c, 1) == Go(SendFromTop(b, t));
    }
    forall q: Packet, via: Ip, out: nat
      ensures Emits(cfg, c, q, via, out) <==> Emits(cfg, SendFromTop(b, t), q, via, out)
    {
      if c != SendFromTop(b, t) {
        EmitsLater(cfg, c, 1, SendFromTop(b, t), q, via, out);
      }
    }
    if Lpm(cfg.routes, t).None? {
      SilentWithoutLoopback(cfg, b);
    } else {
      forall q: Packet, via: Ip, out: nat
        ensures Emits(cfg, SendFromTop(b, t), q, via, out) <==>
          OwnEmission(cfg, t) == Some(Emission(HeaderOf(q), via, out)) && q == OwnPacket(cfg, b, t)
      {
        OwnEmitted(cfg, b, t, q, via, out);
      }
      assert HeaderOf(OwnPacket(cfg, b, t)) == Header(OwnSource(cfg, t), t, INITIAL_TTL, false);
    }
  }

  /** A node that cannot tell itself anything keeps trying, and transmits nothing. */
  lemma SilentWithoutLoopback(cfg: NodeCfg, body: Body)
    requires !LoopbackRouted(cfg)
    ensures Silent(cfg, SendFromTop(body, LoAddr(cfg)))
  {
    var c, c' := SendFromTop(body, LoAddr(cfg)), SendFromTop(DestUnreachable(LoAddr(cfg)), LoAddr(cfg));
    assert After(cfg, c, 0) == Go(c) && After(cfg, c, 1) == Go(c');
    forall q: Packet, via: Ip, out: nat ensures !Emits(cfg, c, q, via, out) {
      EmitsLater(cfg, c, 1, c', q, via, out);
      if Emits(cfg, c', q, via, out) {
        var m: nat :| After(cfg, c', m) == Stop(Transmit(q, via, out));
        NeverEnds(cfg, m);
      }
    }
  }

  /** The node keeps, or drops, a packet that neither goes on nor is answered. */
  lemma Unemitted(cfg: NodeCfg, p: Packet) returns (n: nat, e: Effect)
    requires var m := MoveOf(cfg, p.dst);
      !Answered(cfg, p.dst, p.ttl, p.body.Echo?) && !m.Onward?
    ensures After(cfg, Promote(p), n) == Stop(e) && !e.Transmit?
  {
    var c := Promote(p);
    assert After(cfg, c, 0) == Go(c) && After(cfg, c, 1) == Step(cfg, c);
    if MoveOf(cfg, p.dst).Deliver? {
      n, e := 1, Consumed(p);
    } else {
      assert After(cfg, c, 2) == Stop(NoInterface);
      n, e := 2, NoInterface;
    }
  }

  /** What a node transmits because of a packet is what its configuration says, and it transmits that. */
  lemma EmissionIsReal(cfg: NodeCfg, p: Packet)
    ensures forall q: Packet, via: Ip, out: nat :: Emits(cfg, Promote(p), q, via, out) ==>
      EmissionOf(cfg, HeaderOf(p)) == Some(Emission(HeaderOf(q), via, out))
    ensures EmissionOf(cfg, HeaderOf(p)).Some? ==> var e := EmissionOf(cfg, HeaderOf(p)).value;
      exists q: Packet :: HeaderOf(q) == e.head && Emits(cfg, Promote(p), q, e.via, e.out)
  {
    var c, m := Promote(p), MoveOf(cfg, p.dst);
    MoveDecides(cfg, p);
    if Answered(cfg, p.dst, p.ttl, p.body.Echo?) {
      var n := AnswerFollowsCalls(cfg, c);
      var reply := Answer(cfg, c).value;
      ReplyEmitted(cfg, reply.body, reply.to);
      forall q: Packet, via: Ip, out: nat ensures Emits(cfg, c, q, via, out) <==> Emits(cfg, reply, q, via, out) {
        EmitsLater(cfg, c, n, reply, q, via, out);
      }
    } else if m.Onward? {
      var n := TrackFollowsCalls(cfg, c);
      var sent := p.(ttl := Left(p.ttl, m.cost));
      forall q: Packet, via: Ip, out: nat | Emits(cfg, c, q, via, out)
        ensures Transmit(q, via, out) == Transmit(sent, m.via, m.out)
      {
        EmitsOnce(cfg, c, n, Transmit(sent, m.via, m.out), q, via, out);
      }
      assert HeaderOf(sent) == HeaderOf(p).(ttl := Left(p.ttl, m.cost));
    } else {
      var n, e := Unemitted(cfg, p);
      forall q: Packet, via: Ip, out: nat ensures !Emits(cfg, c, q, via, out) {
        if Emits(cfg, c, q, via, out) {
          EmitsOnce(cfg, c, n, e, q, via, out);
        }
      }
    }
  }

  // ----- who may hear it

  /** Node `n` may know `ip` by the MAC of `r`: it shares a segment with that interface, which has the address. */
  ghost predicate MayKnow(net: Inet, n: nat, ip: Ip, r: Socket) {
    Attached(net, r) && IntfAt(net, r).addr.value.ip == ip && exists i: nat :: SameLan(net, (n, i), r)
  }

  /** A frame for `via` sent out of `p` may be heard by `q`: by an address it may be known by, or as a broadcast. */
  ghost predicate MayHear(net: Inet, p: Socket, via: Ip, q: Socket) {
    && SameLan(net, p, q)
    && ((via == BROADCAST_IP && q != p)
        || exists r: Socket :: MayKnow(net, p.0, via, r) && IntfAt(net, r).mac == IntfAt(net, q).mac)
  }

  /** By some true tables, a frame for `via` sent out of `p` is heard by `q`. */
  ghost predicate HeardBy(net: Inet, arp: ArpTables, p: Socket, via: Ip, q: Socket) {
    && ArpTrue(net, arp) && p.0 < |arp| && Resolve(arp[p.0], via).Some?
    && Hears(net, p, Resolve(arp[p.0], via).value.mac, q)
  }

  /** Tables in which node `n` knows one address, and no other node any. */
  ghost function OneEntry(net: Inet, n: nat, e: ArpEntry): (arp: ArpTables)
    ensures |arp| == |net.nodes|
    ensures forall k: nat :: k < |net.nodes| ==> arp[k] == if k == n then [e] else []
  {
    seq(|net.nodes|, k => if k == n then [e] else [])
  }

  lemma KnownTables(net: Inet, n: nat, ip: Ip, r: Socket) returns (arp: ArpTables)
    requires ValidInet(net) && n < |net.nodes| && MayKnow(net, n, ip, r)
    ensures ArpTrue(net, arp) && Resolve(arp[n], ip).Some?
    ensures Resolve(arp[n], ip).value.mac == IntfAt(net, r).mac
  {
    var i: nat :| SameLan(net, (n, i), r);
    var e := ArpEntry(ip, IntfAt(net, r).mac, IntfAt(net, (n, i)).name);
    arp := OneEntry(net, n, e);
    assert EntryHeld(net, e, (n, i), r);
    assert HasIp(ip)(e);
  }

  /** Exactly those may hear it who do by some true tables. */
  lemma MayHearIff(net: Inet, p: Socket, via: Ip, q: Socket)
    requires ValidInet(net)
    ensures MayHear(net, p, via, q) <==> exists arp: ArpTables :: HeardBy(net, arp, p, via, q)
  {
    if MayHear(net, p, via, q) {
      if via == BROADCAST_IP && q != p {
        Journey.FreshTablesAreTrue(net);
        assert HeardBy(net, Journey.FreshTables(net), p, via, q);
      } else {
        var r: Socket :| MayKnow(net, p.0, via, r) && IntfAt(net, r).mac == IntfAt(net, q).mac;
        var arp := KnownTables(net, p.0, via, r);
        assert HeardBy(net, arp, p, via, q);
      }
    }
    if arp: ArpTables :| HeardBy(net, arp, p, via, q) {
      var e := Resolve(arp[p.0], via).value;
      var r := ResolvedIsHeld(net, arp, p.0, via);
      if e != INITIAL {
        HolderMayBeKnown(net, arp, p.0, via);
      }
    }
  }

  lemma HolderMayBeKnown(net: Inet, arp: ArpTables, n: nat, ip: Ip)
    requires ArpTrue(net, arp) && n < |arp| && Resolve(arp[n], ip).Some? && Resolve(arp[n], ip).value != INITIAL
    ensures exists r: Socket :: MayKnow(net, n, ip, r) && IntfAt(net, r).mac == Resolve(arp[n], ip).value.mac
  {
    var e := Resolve(arp[n], ip).value;
    assert e in arp[n] && e.ip == ip by {
      assert HasIp(ip)(e);
    }
    var i: nat, r: Socket :| EntryHeld(net, e, (n, i), r);
    assert MayKnow(net, n, ip, r);
  }
}
