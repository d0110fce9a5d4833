/** What becomes of one packet at one node. */
module PacketTrack {
  import opened Wrappers
  import opened MacTable
  import opened Prefix
  import opened RouteTable
  import opened Layer3

  /** The fate of a packet at a node, and not of the packets sent because of it. */
  datatype Fate =
    | Sent(pkt: Packet, via: Ip, out: nat)
    | Arrived(pkt: Packet)
    | Lost

  /** Decrements left, and whether layer 3 is next. */
  function TrackRank(c: Call): nat
    requires !c.SendFromTop?
  {
    2 * Life(c.pkt.ttl) + if c.Promote? then 0 else 1
  }

  lemma OnTheWay(cfg: NodeCfg, c: Call)
    requires !c.SendFromTop? && Step(cfg, c).Go? && !Step(cfg, c).call.SendFromTop?
    requires !(c.Promote? && DirectTo(cfg, c.pkt.dst))
    ensures TrackRank(Step(cfg, c).call) < TrackRank(c)
  {
  }

  /** A packet with a direct route, not for this node, goes out on the matching interface. */
  function DirectHop(cfg: NodeCfg, p: Packet): Fate {
    match MatchingSubnet(cfg.intfs, p.dst)
    case None => Lost
    case Some(i) => Sent(p, p.dst, i)
  }

  /** Follows a packet through the calls of one node. */
  function Track(cfg: NodeCfg, c: Call): Fate
    requires !c.SendFromTop?
    decreases TrackRank(c), if c.Promote? then 1 else 0
  {
    match Step(cfg, c)
    case Stop(Transmit(p, via, out)) => Sent(p, via, out)
    case Stop(Consumed(p)) => Arrived(p)
    case Stop(NoInterface) => Lost
    case Go(c') =>
      if c'.SendFromTop? then
        if DirectTo(cfg, c.pkt.dst) && IsLocal(cfg, c.pkt.dst) then Arrived(c.pkt) else Lost
      else if c.Promote? && DirectTo(cfg, c.pkt.dst) then DirectHop(cfg, c.pkt)
      else
        OnTheWay(cfg, c);
        Track(cfg, c')
  }

  /** Follows the packet a node makes of `body`; without a route there is none. */
  function Launch(cfg: NodeCfg, body: Body, to: Ip): Fate {
    match Step(cfg, SendFromTop(body, to))
    case Stop(_) => Lost
    case Go(c) => if c.SendFromTop? then Lost else Track(cfg, c)
  }

  /** `n` calls after `c`, the node is where the fate says. */
  ghost predicate FateAfter(cfg: NodeCfg, c: Call, f: Fate, n: nat) {
    match f
    case Sent(p, via, out) => After(cfg, c, n) == Stop(Transmit(p, via, out))
    case Arrived(p) => After(cfg, c, n) == Go(Promote(p)) && DirectTo(cfg, p.dst) && IsLocal(cfg, p.dst)
    case Lost => After(cfg, c, n) == Stop(NoInterface) || (After(cfg, c, n).Go? && After(cfg, c, n).call.SendFromTop?)
  }

  /** Following a packet is following the calls: what Track reports is where they lead. */
  lemma {:induction false} TrackFollowsCalls(cfg: NodeCfg, c: Call) returns (n: nat)
    requires !c.SendFromTop?
    ensures FateAfter(cfg, c, Track(cfg, c), n)
    decreases TrackRank(c), if c.Promote? then 1 else 0
  {
    assert After(cfg, c, 0) == Go(c);
    assert After(cfg, c, 1) == Step(cfg, c);
    n := if Track(cfg, c).Arrived? && c.Promote? then 0 else 1;
    if Step(cfg, c).Go? && !Step(cfg, c).call.SendFromTop? {
      var c' := Step(cfg, c).call;
      if c.Promote? && DirectTo(cfg, c.pkt.dst) {
        assert After(cfg, c, 2) == Step(cfg, c');
        n := 2;
      } else {
        OnTheWay(cfg, c);
        n := TrackFollowsCalls(cfg, c');
        AfterShift(cfg, c, n);
        n := n + 1;
      }
    }
  }

  /** The same for a packet the node makes itself. */
  lemma LaunchFollowsCalls(cfg: NodeCfg, body: Body, to: Ip) returns (n: nat)
    ensures FateAfter(cfg, SendFromTop(body, to), Launch(cfg, body, to), n)
  {
    var c := SendFromTop(body, to);
    assert After(cfg, c, 0) == Go(c);
    assert After(cfg, c, 1) == Step(cfg, c);
    n := 1;
    if Step(cfg, c).Go? && !Step(cfg, c).call.SendFromTop? {
      n := TrackFollowsCalls(cfg, Step(cfg, c).call);
      AfterShift(cfg, c, n);
      n := n + 1;
    }
  }

  /**
   * What Track leaves of a packet: all but the TTL, which drops unless the hop is direct. A
   * direct hop goes out on the first interface on the destination's subnet, to the destination.
   */
  lemma {:induction false} SentKeeps(cfg: NodeCfg, c: Call)
    requires !c.SendFromTop? && Track(cfg, c).Sent?
    requires c.Demote? && c.oif.Some? ==> c.oif.value < |cfg.intfs|
    ensures var f := Track(cfg, c);
      && f.pkt == c.pkt.(ttl := f.pkt.ttl) && Life(f.pkt.ttl) <= Life(c.pkt.ttl) && f.out < |cfg.intfs|
      && (c.pkt.ttl > 0 ==> f.pkt.ttl > 0)
    ensures var f := Track(cfg, c);
      c.Promote? ==>
        (Life(f.pkt.ttl) == Life(c.pkt.ttl) <==> DirectTo(cfg, c.pkt.dst))
        && (DirectTo(cfg, c.pkt.dst) ==>
              f.via == c.pkt.dst && !IsLocal(cfg, c.pkt.dst) && MatchingSubnet(cfg.intfs, c.pkt.dst) == Some(f.out))
    decreases TrackRank(c), if c.Promote? then 1 else 0
  {
    if Step(cfg, c).Go? && !(c.Promote? && DirectTo(cfg, c.pkt.dst)) {
      OnTheWay(cfg, c);
      SentKeeps(cfg, Step(cfg, c).call);
    }
  }

  /** A packet handed up has arrived iff its destination is local and directly routed. */
  lemma {:induction false} ArrivedIff(cfg: NodeCfg, p: Packet)
    ensures Track(cfg, Promote(p)).Arrived? <==> DirectTo(cfg, p.dst) && IsLocal(cfg, p.dst)
    ensures Track(cfg, Promote(p)).Arrived? ==> Track(cfg, Promote(p)) == Arrived(p)
    decreases Life(p.ttl)
  {
    var c := Promote(p);
    if !DirectTo(cfg, p.dst) && Step(cfg, c).Go? && Step(cfg, c).call.Demote? {
      var down := Step(cfg, c).call;
      assert Track(cfg, c) == Track(cfg, down);
      if Step(cfg, down).Go? {
        assert Track(cfg, down) == Track(cfg, Promote(down.pkt));
        ArrivedIff(cfg, down.pkt);
      }
    }
  }

  /** A packet with a direct route has arrived iff its destination is the loopback's or an interface's address. */
  lemma DirectIsHandled(cfg: NodeCfg, p: Packet)
    requires Lpm(cfg.routes, p.dst).Some? && Lpm(cfg.routes, p.dst).value.isDirect
    ensures var f := Track(cfg, Promote(p));
      var held := cfg.lo == Some(p.dst) ||
        exists i :: 0 <= i < |cfg.intfs| && cfg.intfs[i].addr.Some? && cfg.intfs[i].addr.value.ip == p.dst;
      if held then f == Arrived(p)
      else (forall i: nat :: FirstOn(cfg, i, p.dst) ==> f == Sent(p, p.dst, i))
           && (OffEverySubnet(cfg, p.dst) ==> f == Lost)
  {
    ArrivedIff(cfg, p);
    var i := MatchingSubnet(cfg.intfs, p.dst);
  }

  /** Interface `i` is the first of that name. */
  predicate FirstNamed(cfg: NodeCfg, i: nat, name: Name) {
    i < |cfg.intfs| && cfg.intfs[i].name == name && forall j :: 0 <= j < i ==> cfg.intfs[j].name != name
  }

  predicate NoneNamed(cfg: NodeCfg, name: Name) {
    forall i :: 0 <= i < |cfg.intfs| ==> cfg.intfs[i].name != name
  }

  /** The interface a route names, or, if there is none, the first on the subnet of a gateway elsewhere. */
  predicate WayOut(cfg: NodeCfg, r: Route, i: nat) {
    FirstNamed(cfg, i, r.oif) || (NoneNamed(cfg, r.oif) && !IsLocal(cfg, r.gw) && FirstOn(cfg, i, r.gw))
  }

  /** The same interface, as the calls find it. */
  lemma WayOutFound(cfg: NodeCfg, r: Route, pkt: Packet, i: nat)
    requires WayOut(cfg, r, i)
    ensures Track(cfg, Demote(pkt, r.gw, IntfByName(cfg.intfs, r.oif))) == Sent(pkt, r.gw, i)
  {
    var k, m := IntfByName(cfg.intfs, r.oif), MatchingSubnet(cfg.intfs, r.gw);
    if k.Some? {
      assert k == Some(i) && ByItsName(cfg.intfs, i) == i;
    } else {
      assert m == Some(i);
    }
  }

  lemma TransitGoesDown(cfg: NodeCfg, p: Packet)
    requires Lpm(cfg.routes, p.dst).Some? && !Lpm(cfg.routes, p.dst).value.isDirect && p.ttl != 1
    ensures var r := Lpm(cfg.routes, p.dst).value;
      var onward := p.(ttl := if p.ttl == 0 then 255 else p.ttl - 1);
      Step(cfg, Promote(p)) == Go(Demote(onward, r.gw, IntfByName(cfg.intfs, r.oif)))
  {
    assert (p.ttl + 255) % 256 == if p.ttl == 0 then 255 else p.ttl - 1;
  }

  /** A call that goes on to another one, on the packet's way, has the fate of that. */
  lemma TrackStep(cfg: NodeCfg, c: Call, c': Call)
    requires !c.SendFromTop? && Step(cfg, c) == Go(c') && !c'.SendFromTop?
    requires c.Promote? ==> !DirectTo(cfg, c.pkt.dst)
    ensures Track(cfg, c) == Track(cfg, c')
  {
  }

  /** A packet with a route that is not direct goes to its gateway, out of that interface, one off its TTL. */
  lemma TransitGoesOn(cfg: NodeCfg, p: Packet, i: nat)
    requires Lpm(cfg.routes, p.dst).Some? && !Lpm(cfg.routes, p.dst).value.isDirect && p.ttl != 1
    requires WayOut(cfg, Lpm(cfg.routes, p.dst).value, i)
    ensures Track(cfg, Promote(p)) ==
      Sent(p.(ttl := if p.ttl == 0 then 255 else p.ttl - 1), Lpm(cfg.routes, p.dst).value.gw, i)
  {
    var r, onward := Lpm(cfg.routes, p.dst).value, p.(ttl := if p.ttl == 0 then 255 else p.ttl - 1);
    TransitGoesDown(cfg, p);
    WayOutFound(cfg, r, onward, i);
    TrackStep(cfg, Promote(p), Demote(onward, r.gw, IntfByName(cfg.intfs, r.oif)));
  }

  /** With one hop left it goes nowhere, and Time Exceeded goes to its sender. */
  lemma TransitExpires(cfg: NodeCfg, p: Packet)
    requires Lpm(cfg.routes, p.dst).Some? && !Lpm(cfg.routes, p.dst).value.isDirect && p.ttl == 1
    ensures Track(cfg, Promote(p)) == Lost
    ensures Answer(cfg, Promote(p)) == Some(SendFromTop(TimeExceeded(p.dst), p.src))
  {
  }

  /** Where a packet the node makes itself goes, and that it is such a packet. */
  ghost predicate Launched(cfg: NodeCfg, body: Body, to: Ip, via: Ip, out: nat) {
    exists p: Packet :: IsOwn(cfg, body, to, p) && Launch(cfg, body, to) == Sent(p, via, out)
  }

  lemma DownFromTheTop(cfg: NodeCfg, body: Body, to: Ip) returns (p: Packet)
    requires Lpm(cfg.routes, to).Some?
    requires var r := Lpm(cfg.routes, to).value;
      r.isDirect || !OffEverySubnet(cfg, r.gw)
    ensures IsOwn(cfg, body, to, p)
    ensures var r := Lpm(cfg.routes, to).value;
      Step(cfg, SendFromTop(body, to)) ==
        Go(if r.isDirect then Demote(p, to, None) else Demote(p, r.gw, MatchingSubnet(cfg.intfs, r.gw)))
  {
    OwnSourceIs(cfg, to);
    p := Packet(OwnSource(cfg, to), to, INITIAL_TTL, body);
  }

  /**
   * By a direct route such a packet stays if the destination is an address of the node, and
   * otherwise goes straight there, out of the first interface on its subnet.
   */
  lemma DirectIsLaunched(cfg: NodeCfg, body: Body, to: Ip)
    requires Lpm(cfg.routes, to).Some? && Lpm(cfg.routes, to).value.isDirect
    ensures var held := cfg.lo == Some(to) ||
        exists i :: 0 <= i < |cfg.intfs| && cfg.intfs[i].addr.Some? && cfg.intfs[i].addr.value.ip == to;
      if held then exists p: Packet :: IsOwn(cfg, body, to, p) && Launch(cfg, body, to) == Arrived(p)
      else (forall i: nat :: FirstOn(cfg, i, to) ==> Launched(cfg, body, to, to, i))
           && (OffEverySubnet(cfg, to) ==> Launch(cfg, body, to) == Lost)
  {
    var p := DownFromTheTop(cfg, body, to);
    var i := MatchingSubnet(cfg.intfs, to);
    if IsLocal(cfg, to) {
      TrackStep(cfg, Demote(p, to, None), Promote(p));
      DirectIsHandled(cfg, p);
    }
  }

  /** By any other route it goes to the gateway, out of the first interface on the gateway's subnet, or of its name. */
  lemma RemoteIsLaunched(cfg: NodeCfg, body: Body, to: Ip, k: nat, i: nat)
    requires Lpm(cfg.routes, to).Some? && !Lpm(cfg.routes, to).value.isDirect
    requires FirstOn(cfg, k, Lpm(cfg.routes, to).value.gw) && FirstNamed(cfg, i, cfg.intfs[k].name)
    ensures Launched(cfg, body, to, Lpm(cfg.routes, to).value.gw, i)
  {
    var gw := Lpm(cfg.routes, to).value.gw;
    var p := DownFromTheTop(cfg, body, to);
    assert MatchingSubnet(cfg.intfs, gw) == Some(k) && ByItsName(cfg.intfs, k) == i;
  }

  // ----- answers

  /** The call with which a node answers a packet on its way through it, if it does. */
  function Answer(cfg: NodeCfg, c: Call): Option<Call>
    requires !c.SendFromTop?
    decreases TrackRank(c), if c.Promote? then 1 else 0
  {
    match Step(cfg, c)
    case Stop(_) => None
    case Go(c') =>
      if c'.SendFromTop? then Some(c')
      else if c.Promote? && DirectTo(cfg, c.pkt.dst) then None
      else
        OnTheWay(cfg, c);
        Answer(cfg, c')
  }

  /** Without a route a packet is answered by Destination Unreachable, and goes nowhere. */
  lemma UnroutedIsAnswered(cfg: NodeCfg, p: Packet)
    requires Lpm(cfg.routes, p.dst).None?
    ensures Track(cfg, Promote(p)) == Lost
    ensures Answer(cfg, Promote(p)) == Some(SendFromTop(DestUnreachable(p.dst), p.src))
  {
  }

  /** A packet that has arrived is answered iff it is a ping, by its reply to its sender. */
  lemma ArrivedIsAnswered(cfg: NodeCfg, p: Packet)
    requires IsHome(cfg, p.dst)
    ensures var a := Answer(cfg, Promote(p));
      match p.body
      case Echo(ident, seqNum, data) =>
        a.Some? && a.value.SendFromTop? && a.value.to == p.src && IsReplyTo(ident, seqNum, data, a.value.body)
      case _ => a == None
  {
    if p.body.Echo? {
      SwapReverses(p.body.data);
    }
  }

  predicate IsError(b: Body) {
    b.DestUnreachable? || b.TimeExceeded?
  }

  function WithBody(c: Call, b: Body): Call
    requires !c.SendFromTop?
  {
    match c
    case Demote(p, nextHop, oif) => Demote(p.(body := b), nextHop, oif)
    case Promote(p) => Promote(p.(body := b))
  }

  /** The answer is one of the calls the packet leads to. */
  lemma {:induction false} AnswerFollowsCalls(cfg: NodeCfg, c: Call) returns (n: nat)
    requires !c.SendFromTop? && Answer(cfg, c).Some?
    ensures After(cfg, c, n) == Go(Answer(cfg, c).value)
    decreases TrackRank(c), if c.Promote? then 1 else 0
  {
    var c' := Step(cfg, c).call;
    if c'.SendFromTop? {
      assert After(cfg, c, 0) == Go(c);
      n := 1;
    } else {
      OnTheWay(cfg, c);
      n := AnswerFollowsCalls(cfg, c');
      AfterShift(cfg, c, n);
      n := n + 1;
    }
  }

  /** Packets that are not pings are answered by errors only, sent to their sender. */
  lemma {:induction false} AnswerIsError(cfg: NodeCfg, c: Call)
    requires !c.SendFromTop? && !c.pkt.body.Echo? && Answer(cfg, c).Some?
    ensures var e := Answer(cfg, c).value;
      e.SendFromTop? && IsError(e.body) && e.to == c.pkt.src
    decreases TrackRank(c), if c.Promote? then 1 else 0
  {
    var c' := Step(cfg, c).call;
    if !c'.SendFromTop? {
      OnTheWay(cfg, c);
      AnswerIsError(cfg, c');
    }
  }

  /** What a packet that is not a ping says makes no difference to its way, or to the answer. */
  lemma {:induction false} BodyMakesNoDifference(cfg: NodeCfg, c: Call, b: Body)
    requires !c.SendFromTop? && !c.pkt.body.Echo? && !b.Echo?
    ensures Answer(cfg, WithBody(c, b)) == Answer(cfg, c)
    ensures var f, f' := Track(cfg, c), Track(cfg, WithBody(c, b));
      match f
      case Sent(p, via, out) => f' == Sent(p.(body := b), via, out)
      case Arrived(p) => f' == Arrived(p.(body := b))
      case Lost => f' == Lost
    decreases TrackRank(c), if c.Promote? then 1 else 0
  {
    if Step(cfg, c).Go? && !Step(cfg, c).call.SendFromTop? && !(c.Promote? && DirectTo(cfg, c.pkt.dst)) {
      OnTheWay(cfg, c);
      BodyMakesNoDifference(cfg, Step(cfg, c).call, b);
    }
  }
}
