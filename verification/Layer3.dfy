/**
 * What one node does with an IP packet. The layers call each other: layer 3 hands a packet
 * down, layer 2 may find it is for this node and hand it up again, and handling it may send
 * another one. Every function makes at most one such call, as the last thing it does.
 */
module Layer3 {
  import opened Wrappers
  import opened MacTable
  import opened Prefix
  import opened RouteTable

  type Ttl = t: int | 0 <= t < 256

  const INITIAL_TTL: Ttl := 64

  type Word = x: int | 0 <= x < WORD

  datatype Body =
    | Echo(ident: int, seqNum: int, data: Word)
    | EchoReply(ident: int, seqNum: int, data: Word)
    | DestUnreachable(about: Ip)
    | TimeExceeded(about: Ip)
    | Other(proto: int, bytes: seq<Byte>)

  datatype Packet = Packet(src: Ip, dst: Ip, ttl: Ttl, body: Body)

  datatype Addr = Addr(ip: Ip, mask: MaskLen)

  datatype Intf = Intf(name: Name, mac: Mac, addr: Option<Addr>)

  datatype NodeCfg = NodeCfg(lo: Option<Ip>, intfs: seq<Intf>, routes: seq<Route>)

  /** The interface is on the subnet of `ip`: the prefix of its own address contains that. */
  predicate OnSubnet(intf: Intf, ip: Ip): (on: bool)
    ensures on <==> intf.addr.Some? && Covers(intf.addr.value.ip, intf.addr.value.mask, ip)
  {
    intf.addr.Some? &&
    (MaskedEqualIffCovers(intf.addr.value.ip, ip, intf.addr.value.mask);
     Mask(intf.addr.value.ip, intf.addr.value.mask) == Mask(ip, intf.addr.value.mask))
  }

  /** The first interface whose subnet contains `ip`. */
  function MatchingSubnet(intfs: seq<Intf>, ip: Ip): (i: Option<nat>)
    ensures i.Some? ==> i.value < |intfs| && OnSubnet(intfs[i.value], ip)
    ensures forall j :: 0 <= j < (if i.Some? then i.value else |intfs|) ==> !OnSubnet(intfs[j], ip)
  {
    if intfs == [] then None
    else if OnSubnet(intfs[0], ip) then Some(0)
    else var i := MatchingSubnet(intfs[1..], ip);
      if i.Some? then Some(i.value + 1) else None
  }

  function IntfByName(intfs: seq<Intf>, name: Name): (i: Option<nat>)
    ensures i.Some? ==> i.value < |intfs| && intfs[i.value].name == name
    ensures forall j :: 0 <= j < (if i.Some? then i.value else |intfs|) ==> intfs[j].name != name
  {
    if intfs == [] then None
    else if intfs[0].name == name then Some(0)
    else var i := IntfByName(intfs[1..], name);
      if i.Some? then Some(i.value + 1) else None
  }

  /** Going down, an interface is looked up again by its name: the first one of that name. */
  function ByItsName(intfs: seq<Intf>, i: nat): (j: nat)
    ensures i < |intfs| ==> j <= i && intfs[j].name == intfs[i].name
    ensures i < |intfs| && (forall k :: 0 <= k < i ==> intfs[k].name != intfs[i].name) ==> j == i
  {
    if i < |intfs| then IntfByName(intfs, intfs[i].name).value else i
  }

  /** The address is this node's loopback or that of one of its interfaces. */
  predicate IsLocal(cfg: NodeCfg, ip: Ip) {
    || cfg.lo == Some(ip)
    || exists i :: 0 <= i < |cfg.intfs| && cfg.intfs[i].addr.Some? && cfg.intfs[i].addr.value.ip == ip
  }

  function OrZero(lo: Option<Ip>): Ip {
    if lo.Some? then lo.value else 0
  }

  /** The loopback address, 0 if there is none. */
  function LoAddr(cfg: NodeCfg): Ip {
    OrZero(cfg.lo)
  }

  /** The four bytes of a word in reverse order. */
  function SwapBytes(x: Word): (y: Word) {
    var (b0, b1, b2, b3) := (x % 256, x / 256 % 256, x / 65536 % 256, x / 16777216);
    b0 * 16777216 + b1 * 65536 + b2 * 256 + b3
  }

  /** The bytes of `y` are those of `x`, last to first. */
  predicate Reversed(x: Word, y: Word) {
    && y % 256 == x / 16777216 && y / 256 % 256 == x / 65536 % 256
    && y / 65536 % 256 == x / 256 % 256 && y / 16777216 == x % 256
  }

  /** A word is its bytes. */
  lemma BytesOfWord(b0: Byte, b1: Byte, b2: Byte, b3: Byte)
    ensures var x := b0 + 256 * b1 + 65536 * b2 + 16777216 * b3;
      x < WORD && x % 256 == b0 && x / 256 % 256 == b1 && x / 65536 % 256 == b2 && x / 16777216 == b3
  {
    var x := b0 + 256 * b1 + 65536 * b2 + 16777216 * b3;
    assert x / 256 == b1 + 256 * b2 + 65536 * b3;
    assert x / 65536 == b2 + 256 * b3;
  }

  /** What comes back with a ping: the bytes in reverse order, so 0xEFBEADDE for the data the program sends. */
  lemma SwapsBytes(b0: Byte, b1: Byte, b2: Byte, b3: Byte)
    ensures b0 + 256 * b1 + 65536 * b2 + 16777216 * b3 < WORD
    ensures SwapBytes(b0 + 256 * b1 + 65536 * b2 + 16777216 * b3) == b3 + 256 * b2 + 65536 * b1 + 16777216 * b0
    ensures SwapBytes(0xDEAD_BEEF) == 0xEFBE_ADDE
  {
    BytesOfWord(b0, b1, b2, b3);
  }

  lemma SwapReverses(x: Word)
    ensures Reversed(x, SwapBytes(x)) && SwapBytes(SwapBytes(x)) == x
  {
    var (b0, b1, b2, b3) := (x % 256, x / 256 % 256, x / 65536 % 256, x / 16777216);
    assert x / 65536 == (x / 256) / 256 && x / 16777216 == (x / 65536) / 256;
    assert x == b0 + 256 * b1 + 65536 * b2 + 16777216 * b3;
    SwapsBytes(b0, b1, b2, b3);
    SwapsBytes(b3, b2, b1, b0);
    BytesOfWord(b3, b2, b1, b0);
  }

  // ----- calls between the layers

  datatype Call =
    | SendFromTop(body: Body, to: Ip)
    | Demote(pkt: Packet, nextHop: Ip, oif: Option<nat>)
    | Promote(pkt: Packet)

  datatype Effect =
    | Transmit(sent: Packet, via: Ip, out: nat)
    | Consumed(pkt: Packet)
    | NoInterface

  datatype Next = Go(call: Call) | Stop(effect: Effect)

  function SourceFor(cfg: NodeCfg, i: Option<nat>): Ip
    requires i.Some? ==> i.value < |cfg.intfs| && cfg.intfs[i.value].addr.Some?
  {
    if i.Some? then cfg.intfs[i.value].addr.value.ip else LoAddr(cfg)
  }

  /** A new packet: no route, and an error goes to the node itself; a route, and it goes down. */
  function StepSend(cfg: NodeCfg, body: Body, to: Ip): Next {
    match Lpm(cfg.routes, to)
    case None => Go(SendFromTop(DestUnreachable(to), LoAddr(cfg)))
    case Some(r) =>
      var oif := MatchingSubnet(cfg.intfs, if r.isDirect then r.dest else r.gw);
      if r.isDirect then Go(Demote(Packet(SourceFor(cfg, oif), to, INITIAL_TTL, body), to, None))
      else if oif.None? then Stop(NoInterface)
      else Go(Demote(Packet(SourceFor(cfg, oif), to, INITIAL_TTL, body), r.gw, oif))
  }

  /** A packet on its way down; without an interface it may turn out to be for this node. */
  function StepDemote(cfg: NodeCfg, pkt: Packet, nextHop: Ip, oif: Option<nat>): Next {
    if oif.Some? then Stop(Transmit(pkt, nextHop, ByItsName(cfg.intfs, oif.value)))
    else if IsLocal(cfg, nextHop) then Go(Promote(pkt))
    else match MatchingSubnet(cfg.intfs, nextHop)
      case None => Stop(NoInterface)
      case Some(i) => Stop(Transmit(pkt, nextHop, i))
  }

  /** A packet handed up, from the wire or from this node's own layer 2. */
  function StepPromote(cfg: NodeCfg, pkt: Packet): Next {
    match Lpm(cfg.routes, pkt.dst)
    case None => Go(SendFromTop(DestUnreachable(pkt.dst), pkt.src))
    case Some(r) =>
      if r.isDirect then
        if IsLocal(cfg, pkt.dst) then
          match pkt.body
          case Echo(ident, seqNum, data) => Go(SendFromTop(EchoReply(ident, seqNum, SwapBytes(data)), pkt.src))
          case _ => Stop(Consumed(pkt))
        else Go(Demote(pkt, pkt.dst, None))
      else
        var ttl: Ttl := (pkt.ttl + 255) % 256;
        if ttl == 0 then Go(SendFromTop(TimeExceeded(pkt.dst), pkt.src))
        else Go(Demote(pkt.(ttl := ttl), r.gw, IntfByName(cfg.intfs, r.oif)))
  }

  function Step(cfg: NodeCfg, c: Call): Next {
    match c
    case SendFromTop(body, to) => StepSend(cfg, body, to)
    case Demote(pkt, nextHop, oif) => StepDemote(cfg, pkt, nextHop, oif)
    case Promote(pkt) => StepPromote(cfg, pkt)
  }

  // ----- the recursion ends

  predicate DirectTo(cfg: NodeCfg, ip: Ip) {
    Lpm(cfg.routes, ip).Some? && Lpm(cfg.routes, ip).value.isDirect
  }

  /** How many decrements a TTL has left: one of 0 wraps around first. */
  function Life(t: Ttl): nat {
    if t == 0 then 256 else t
  }

  /** What a call can still cause: the kind of packet, whether there is a route, then the layer. */
  function Rank(cfg: NodeCfg, c: Call): nat {
    match c
    case SendFromTop(body, to) =>
      if body.Echo? then 7 else if Lpm(cfg.routes, to).None? then 4 else 3
    case Promote(pkt) =>
      if !DirectTo(cfg, pkt.dst) then 8 + 2 * Life(pkt.ttl) else if pkt.body.Echo? then 5 else 1
    case Demote(pkt, nextHop, oif) =>
      if oif.Some? || !IsLocal(cfg, nextHop) then 0
      else 1 + if !DirectTo(cfg, pkt.dst) then 8 + 2 * Life(pkt.ttl) else if pkt.body.Echo? then 5 else 1
  }

  /** The node can always tell itself something: there is a route to its loopback address. */
  predicate LoopbackRouted(cfg: NodeCfg) {
    Lpm(cfg.routes, LoAddr(cfg)).Some?
  }

  lemma StepDescends(cfg: NodeCfg, c: Call)
    requires LoopbackRouted(cfg) && Step(cfg, c).Go?
    ensures Rank(cfg, Step(cfg, c).call) < Rank(cfg, c)
  {
  }

  /** The call that is active after `n` steps, if the node is not done by then. */
  function After(cfg: NodeCfg, c: Call, n: nat): Next {
    if n == 0 then Go(c)
    else match After(cfg, c, n - 1)
      case Stop(e) => Stop(e)
      case Go(c') => Step(cfg, c')
  }

  ghost predicate Ends(cfg: NodeCfg, c: Call) {
    exists n: nat :: After(cfg, c, n).Stop?
  }

  lemma {:induction false} AfterShift(cfg: NodeCfg, c: Call, n: nat)
    requires Step(cfg, c).Go?
    ensures After(cfg, c, n + 1) == After(cfg, Step(cfg, c).call, n)
  {
    if n == 0 {
      assert After(cfg, c, 0) == Go(c);
    } else {
      AfterShift(cfg, c, n - 1);
    }
  }

  /** With a route to the loopback address, every call ends, within its rank. */
  lemma {:induction false} EndsWithinRank(cfg: NodeCfg, c: Call) returns (n: nat)
    requires LoopbackRouted(cfg)
    ensures n <= Rank(cfg, c) + 1 && After(cfg, c, n).Stop?
    decreases Rank(cfg, c)
  {
    if Step(cfg, c).Go? {
      StepDescends(cfg, c);
      var m := EndsWithinRank(cfg, Step(cfg, c).call);
      AfterShift(cfg, c, m);
      n := m + 1;
    } else {
      assert After(cfg, c, 0) == Go(c);
      n := 1;
    }
  }

  /** Without one, a node that has nowhere to send keeps telling itself so. */
  lemma {:induction false} NeverEnds(cfg: NodeCfg, n: nat)
    requires !LoopbackRouted(cfg)
    ensures After(cfg, SendFromTop(DestUnreachable(LoAddr(cfg)), LoAddr(cfg)), n) ==
            Go(SendFromTop(DestUnreachable(LoAddr(cfg)), LoAddr(cfg)))
  {
    if n == 0 {
    } else {
      NeverEnds(cfg, n - 1);
    }
  }

  /** The recursion between the layers ends for every packet iff the loopback address has a route. */
  lemma RecursionEndsIff(cfg: NodeCfg)
    ensures (forall c: Call :: Ends(cfg, c)) <==> LoopbackRouted(cfg)
  {
    if LoopbackRouted(cfg) {
      forall c: Call ensures Ends(cfg, c) {
        var n := EndsWithinRank(cfg, c);
      }
    } else {
      var c := SendFromTop(DestUnreachable(LoAddr(cfg)), LoAddr(cfg));
      forall n: nat ensures After(cfg, c, n).Go? {
        NeverEnds(cfg, n);
      }
      assert !Ends(cfg, c);
    }
  }

  /** What a call finally does. */
  function Outcome(cfg: NodeCfg, c: Call): Effect
    requires LoopbackRouted(cfg)
    decreases Rank(cfg, c)
  {
    match Step(cfg, c)
    case Stop(e) => e
    case Go(c') =>
      StepDescends(cfg, c);
      Outcome(cfg, c')
  }

  lemma OutcomeStep(cfg: NodeCfg, c: Call, c': Call)
    requires LoopbackRouted(cfg) && Step(cfg, c) == Go(c')
    ensures Outcome(cfg, c) == Outcome(cfg, c')
  {
  }

  /** The source address of what the node sends to `to`. */
  function OwnSource(cfg: NodeCfg, to: Ip): Ip
    requires Lpm(cfg.routes, to).Some?
  {
    var r := Lpm(cfg.routes, to).value;
    SourceFor(cfg, MatchingSubnet(cfg.intfs, if r.isDirect then r.dest else r.gw))
  }

  /** Interface `i` is the first one on the subnet of `ip`. */
  predicate FirstOn(cfg: NodeCfg, i: nat, ip: Ip) {
    i < |cfg.intfs| && OnSubnet(cfg.intfs[i], ip) && forall j :: 0 <= j < i ==> !OnSubnet(cfg.intfs[j], ip)
  }

  predicate OffEverySubnet(cfg: NodeCfg, ip: Ip) {
    forall i :: 0 <= i < |cfg.intfs| ==> !OnSubnet(cfg.intfs[i], ip)
  }

  /**
   * What a packet of the node to `to` carries as its source: the address of the first interface
   * on the subnet of a direct route, or of the gateway of another one. Off every subnet it is the
   * loopback address, or 0 without one.
   */
  ghost predicate IsSource(cfg: NodeCfg, to: Ip, src: Ip) {
    Lpm(cfg.routes, to).Some? &&
    var r := Lpm(cfg.routes, to).value;
    var a := if r.isDirect then r.dest else r.gw;
    && (forall i: nat :: FirstOn(cfg, i, a) ==> src == cfg.intfs[i].addr.value.ip)
    && (OffEverySubnet(cfg, a) ==> match cfg.lo case Some(lo) => src == lo case None => src == 0)
  }

  lemma OwnSourceIs(cfg: NodeCfg, to: Ip)
    requires Lpm(cfg.routes, to).Some?
    ensures IsSource(cfg, to, OwnSource(cfg, to))
  {
    var r := Lpm(cfg.routes, to).value;
    var i := MatchingSubnet(cfg.intfs, if r.isDirect then r.dest else r.gw);
  }

  /**
   * A packet from the top goes down as it is, with the source address of its way, TTL 64, and the
   * gateway of its route, or its destination, as the next hop. Without a route there is none, and
   * the node tells its loopback address, or 0, so.
   */
  lemma FromTheTop(cfg: NodeCfg, body: Body, to: Ip)
    ensures var n := Step(cfg, SendFromTop(body, to));
      match Lpm(cfg.routes, to)
      case None => n == Go(SendFromTop(DestUnreachable(to), if cfg.lo.Some? then cfg.lo.value else 0))
      case Some(r) =>
        if r.isDirect then exists p: Packet :: n == Go(Demote(p, to, None)) && IsOwn(cfg, body, to, p)
        else if OffEverySubnet(cfg, r.gw) then n == Stop(NoInterface)
        else exists p: Packet, i: nat ::
               n == Go(Demote(p, r.gw, Some(i))) && FirstOn(cfg, i, r.gw) && IsOwn(cfg, body, to, p)
  {
    if Lpm(cfg.routes, to).Some? {
      var r, p := Lpm(cfg.routes, to).value, Packet(OwnSource(cfg, to), to, INITIAL_TTL, body);
      OwnSourceIs(cfg, to);
      assert IsOwn(cfg, body, to, p);
      if !r.isDirect && !OffEverySubnet(cfg, r.gw) {
        var i := MatchingSubnet(cfg.intfs, r.gw).value;
        assert FirstOn(cfg, i, r.gw);
        assert Step(cfg, SendFromTop(body, to)) == Go(Demote(p, r.gw, Some(i)));
      }
    }
  }

  /** The packet a node makes of `body`. */
  ghost predicate IsOwn(cfg: NodeCfg, body: Body, to: Ip, p: Packet) {
    IsSource(cfg, to, p.src) && p.dst == to && p.ttl == 64 && p.body == body
  }

  /** An address of the node that it delivers to itself. */
  predicate IsHome(cfg: NodeCfg, ip: Ip) {
    DirectTo(cfg, ip) && IsLocal(cfg, ip)
  }

  /** What a node sends to one of its home addresses is handed up again. */
  lemma SentHome(cfg: NodeCfg, body: Body, to: Ip)
    requires LoopbackRouted(cfg) && IsHome(cfg, to)
    ensures Outcome(cfg, SendFromTop(body, to)) ==
            Outcome(cfg, Promote(Packet(OwnSource(cfg, to), to, INITIAL_TTL, body)))
  {
    var p := Packet(OwnSource(cfg, to), to, INITIAL_TTL, body);
    OutcomeStep(cfg, SendFromTop(body, to), Demote(p, to, None));
    OutcomeStep(cfg, Demote(p, to, None), Promote(p));
  }

  /** A node consumes a packet of its own, other than a ping, iff it goes home; without a route it is an error. */
  lemma OwnConsumedIff(cfg: NodeCfg, body: Body, to: Ip)
    requires LoopbackRouted(cfg) && !body.Echo? && !body.DestUnreachable?
    ensures var e := Outcome(cfg, SendFromTop(body, to));
      && (e.Consumed? && e.pkt.body == body <==> IsHome(cfg, to))
      && (e.Consumed? ==> e.pkt.body == body || e.pkt.body == DestUnreachable(to))
    ensures IsHome(cfg, to) ==>
      Outcome(cfg, SendFromTop(body, to)) == Consumed(Packet(OwnSource(cfg, to), to, INITIAL_TTL, body))
  {
    if IsHome(cfg, to) {
      SentHome(cfg, body, to);
    } else if Lpm(cfg.routes, to).None? {
      OutcomeStep(cfg, SendFromTop(body, to), SendFromTop(DestUnreachable(to), LoAddr(cfg)));
      AnswerGoesOut(cfg, DestUnreachable(to), LoAddr(cfg));
    } else if Step(cfg, SendFromTop(body, to)).Go? {
      OutcomeStep(cfg, SendFromTop(body, to), Step(cfg, SendFromTop(body, to)).call);
    }
  }

  /** The answer to a ping: its identifier, its number, and the bytes of its data in reverse order. */
  predicate IsReplyTo(ident: int, seqNum: int, data: Word, body: Body) {
    body.EchoReply? && body.ident == ident && body.seqNum == seqNum && Reversed(data, body.data)
  }

  /**
   * A ping is answered by the node that sends it iff it goes home and so does the answer, which
   * goes to the source address of the ping.
   */
  lemma PingOneselfIff(cfg: NodeCfg, ident: int, seqNum: int, data: Word, to: Ip)
    requires LoopbackRouted(cfg)
    ensures var e := Outcome(cfg, SendFromTop(Echo(ident, seqNum, data), to));
      var answered := e.Consumed? && e.pkt.body.EchoReply?;
      && (answered <==> IsHome(cfg, to) && IsHome(cfg, OwnSource(cfg, to)))
      && (answered ==> IsReplyTo(ident, seqNum, data, e.pkt.body) && e.pkt.ttl == INITIAL_TTL)
  {
    var ping, reply := Echo(ident, seqNum, data), EchoReply(ident, seqNum, SwapBytes(data));
    SwapReverses(data);
    var c := SendFromTop(ping, to);
    if IsHome(cfg, to) {
      var src := OwnSource(cfg, to);
      SentHome(cfg, ping, to);
      OutcomeStep(cfg, Promote(Packet(src, to, INITIAL_TTL, ping)), SendFromTop(reply, src));
      OwnConsumedIff(cfg, reply, src);
    } else if Lpm(cfg.routes, to).None? {
      OutcomeStep(cfg, c, SendFromTop(DestUnreachable(to), LoAddr(cfg)));
      AnswerGoesOut(cfg, DestUnreachable(to), LoAddr(cfg));
    } else if Step(cfg, c).Go? {
      OutcomeStep(cfg, c, Step(cfg, c).call);
    }
  }

  // ----- what a node may send because of a packet

  /** `p` is what the packet `pkt` itself becomes on its way: only its TTL changes. */
  predicate SamePacket(pkt: Packet, p: Packet) {
    p == pkt.(ttl := p.ttl)
  }

  /** `p` is the one answer the packet `pkt` calls for here, sent to whoever sent `pkt`. */
  ghost predicate AnswersPacket(cfg: NodeCfg, pkt: Packet, p: Packet) {
    p.dst == pkt.src && p.ttl == INITIAL_TTL && IsSource(cfg, p.dst, p.src) &&
    match p.body
    case EchoReply(_, _, _) =>
      DirectTo(cfg, pkt.dst) && IsLocal(cfg, pkt.dst)
      && pkt.body.Echo? && IsReplyTo(pkt.body.ident, pkt.body.seqNum, pkt.body.data, p.body)
    case DestUnreachable(about) => about == pkt.dst && Lpm(cfg.routes, pkt.dst).None?
    case TimeExceeded(about) => about == pkt.dst && Lpm(cfg.routes, pkt.dst).Some? && !DirectTo(cfg, pkt.dst)
    case _ => false
  }

  /** With no route back to the sender of `pkt`, the node tells its own loopback address so. */
  ghost predicate TellsItself(cfg: NodeCfg, pkt: Packet, p: Packet) {
    && Lpm(cfg.routes, pkt.src).None? && IsSource(cfg, p.dst, p.src)
    && p == Packet(p.src, if cfg.lo.Some? then cfg.lo.value else 0, INITIAL_TTL, DestUnreachable(pkt.src))
  }

  /** What `pkt` may cause here: itself, the answer to its sender, or word that there is no way back. */
  ghost predicate CausedBy(cfg: NodeCfg, pkt: Packet, p: Packet) {
    || SamePacket(pkt, p)
    || (Lpm(cfg.routes, pkt.src).Some? && AnswersPacket(cfg, pkt, p))
    || TellsItself(cfg, pkt, p)
  }

  /**
   * Because of a packet a node sends on, or keeps, nothing but that packet or the one answer it
   * calls for, or, with no route back, word of that to itself; what it keeps is addressed to it.
   */
  lemma {:induction false} AnswersTheSender(cfg: NodeCfg, pkt: Packet)
    requires LoopbackRouted(cfg)
    ensures var e := Outcome(cfg, Promote(pkt));
      && (e.Transmit? ==> CausedBy(cfg, pkt, e.sent))
      && (e.Consumed? ==> CausedBy(cfg, pkt, e.pkt) && IsLocal(cfg, e.pkt.dst))
    decreases Rank(cfg, Promote(pkt))
  {
    var c := Promote(pkt);
    if Step(cfg, c).Go? {
      var c' := Step(cfg, c).call;
      OutcomeStep(cfg, c, c');
      if c'.SendFromTop? {
        IsTheAnswer(cfg, pkt, c'.body, c'.to);
        if Lpm(cfg.routes, pkt.src).None? {
          OutcomeStep(cfg, c', SendFromTop(DestUnreachable(pkt.src), LoAddr(cfg)));
          AnswerGoesOut(cfg, DestUnreachable(pkt.src), LoAddr(cfg));
        } else {
          AnswerGoesOut(cfg, c'.body, pkt.src);
        }
      } else if Step(cfg, c').Go? {
        OutcomeStep(cfg, c', Step(cfg, c').call);
        StepDescends(cfg, c);
        StepDescends(cfg, c');
        AnswersTheSender(cfg, Step(cfg, c').call.pkt);
      }
    }
  }

  /** What a node makes of the answer is the answer. */
  lemma IsTheAnswer(cfg: NodeCfg, pkt: Packet, body: Body, to: Ip)
    requires Step(cfg, Promote(pkt)) == Go(SendFromTop(body, to))
    ensures to == pkt.src && !body.Echo?
    ensures forall p: Packet :: IsOwn(cfg, body, to, p) ==> AnswersPacket(cfg, pkt, p)
  {
    if pkt.body.Echo? {
      SwapReverses(pkt.body.data);
    }
  }

  /** What a node sends itself, not being a ping, goes to its destination or stays if that is local. */
  lemma AnswerGoesOut(cfg: NodeCfg, body: Body, to: Ip)
    requires LoopbackRouted(cfg) && Lpm(cfg.routes, to).Some? && !body.Echo?
    ensures var e := Outcome(cfg, SendFromTop(body, to));
      && (e.Transmit? ==> IsOwn(cfg, body, to, e.sent))
      && (e.Consumed? ==> IsOwn(cfg, body, to, e.pkt) && IsLocal(cfg, to))
  {
    var c := SendFromTop(body, to);
    OwnSourceIs(cfg, to);
    if Step(cfg, c).Go? {
      var down := Step(cfg, c).call;
      OutcomeStep(cfg, c, down);
      if Step(cfg, down).Go? {
        OutcomeStep(cfg, down, Step(cfg, down).call);
      }
    }
  }

  /** Whatever a node sends of its own accord, errors and answers included, starts with TTL 64. */
  lemma {:induction false} OwnPacketsStartAt64(cfg: NodeCfg, body: Body, to: Ip)
    requires LoopbackRouted(cfg)
    ensures var e := Outcome(cfg, SendFromTop(body, to));
      (e.Transmit? ==> e.sent.ttl == 64) && (e.Consumed? ==> e.pkt.ttl == 64)
    decreases Rank(cfg, SendFromTop(body, to))
  {
    var c := SendFromTop(body, to);
    if Lpm(cfg.routes, to).None? {
      StepDescends(cfg, c);
      OwnPacketsStartAt64(cfg, DestUnreachable(to), LoAddr(cfg));
    } else if DirectTo(cfg, to) && IsLocal(cfg, to) {
      var down := Step(cfg, c).call;
      OutcomeStep(cfg, c, down);
      OutcomeStep(cfg, down, Promote(down.pkt));
      match body
      case Echo(ident, seqNum, data) =>
        var up := SendFromTop(EchoReply(ident, seqNum, SwapBytes(data)), down.pkt.src);
        OutcomeStep(cfg, Promote(down.pkt), up);
        OwnPacketsStartAt64(cfg, up.body, up.to);
      case _ =>
    }
  }

  // ----- the node itself

  class IpPacket {
    var src: Ip
    var dst: Ip
    var ttl: Ttl
    var body: Body

    ghost function View(): Packet
      reads this
    {
      Packet(src, dst, ttl, body)
    }

    constructor (body: Body, dst: Ip)
      ensures View() == Packet(0, dst, INITIAL_TTL, body)
    {
      this.src, this.dst, this.ttl, this.body := 0, dst, INITIAL_TTL, body;
    }
  }

  class RouterNode {
    const rt: RouteTable
    const lo: Option<Ip>
    const intfs: seq<Intf>

    constructor (rt: RouteTable, lo: Option<Ip>, intfs: seq<Intf>)
      ensures this.rt == rt && this.lo == lo && this.intfs == intfs
    {
      this.rt, this.lo, this.intfs := rt, lo, intfs;
    }

    ghost function Cfg(): NodeCfg
      reads this, rt, rt.list
    {
      NodeCfg(lo, intfs, rt.list.entries)
    }

    ghost predicate Valid()
      reads this, rt, rt.list, rt.list.repr
    {
      rt.Valid() && LoopbackRouted(Cfg())
    }

    method IsLocalDelivery(ip: Ip) returns (local: bool)
      ensures local <==>
        || lo == Some(ip)
        || exists i :: 0 <= i < |intfs| && intfs[i].addr.Some? && intfs[i].addr.value.ip == ip
    {
      if lo == Some(ip) {
        return true;
      }
      var i := 0;
      while i < |intfs|
        invariant 0 <= i <= |intfs|
        invariant forall j :: 0 <= j < i ==> intfs[j].addr.None? || intfs[j].addr.value.ip != ip
      {
        if intfs[i].addr.Some? && intfs[i].addr.value.ip == ip {
          return true;
        }
        i := i + 1;
      }
      return false;
    }

    method MatchingInterface(ip: Ip) returns (i: Option<nat>)
      ensures i == MatchingSubnet(intfs, ip)
      ensures match i
        case Some(k) => FirstOn(Cfg(), k, ip)
        case None => OffEverySubnet(Cfg(), ip)
    {
      var n := 0;
      while n < |intfs|
        invariant 0 <= n <= |intfs|
        invariant forall j :: 0 <= j < n ==> !OnSubnet(intfs[j], ip)
      {
        if intfs[n].addr.Some? {
          var mask := intfs[n].addr.value.mask;
          var ipSubnet := ApplyMask(ip, mask);
          var ifSubnet := ApplyMask(intfs[n].addr.value.ip, mask);
          if ifSubnet == ipSubnet {
            return Some(n);
          }
        }
        n := n + 1;
      }
      return None;
    }

    method InterfaceByName(name: Name) returns (i: Option<nat>)
      ensures i == IntfByName(intfs, name)
    {
      var n := 0;
      while n < |intfs|
        invariant 0 <= n <= |intfs|
        invariant forall j :: 0 <= j < n ==> intfs[j].name != name
      {
        if intfs[n].name == name {
          return Some(n);
        }
        n := n + 1;
      }
      return None;
    }

    /** `layer3_pkt_receive_from_top`: the header is filled in field by field. */
    method SendDown(body: Body, to: Ip) returns (e: Effect)
      requires Valid()
      ensures e == Outcome(Cfg(), SendFromTop(body, to))
      decreases Rank(Cfg(), SendFromTop(body, to)), 1
    {
      ghost var c := SendFromTop(body, to);
      var route := rt.LookupLpm(to);
      var hdr := new IpPacket(body, to);
      if route == null {
        hdr.src := OrZero(lo);
        StepDescends(Cfg(), c);
        e := SendDown(DestUnreachable(to), hdr.src);
        return;
      }
      if route.data.isDirect {
        var oif := MatchingInterface(route.data.dest);
        hdr.src := if oif.None? then OrZero(lo) else intfs[oif.value].addr.value.ip;
        StepDescends(Cfg(), c);
        e := PassDown(hdr, to, None);
      } else {
        var oif := MatchingInterface(route.data.gw);
        if oif.None? {
          e := NoInterface;
          return;
        }
        hdr.src := intfs[oif.value].addr.value.ip;
        StepDescends(Cfg(), c);
        e := PassDown(hdr, route.data.gw, oif);
      }
    }

    /** `demote_pkt_to_layer2` and `l2_forward_ip_packet`, up to address resolution. */
    method PassDown(pkt: IpPacket, nextHop: Ip, oif: Option<nat>) returns (e: Effect)
      requires Valid() && (oif.Some? ==> oif.value < |intfs|)
      modifies pkt
      ensures e == Outcome(old(Cfg()), Demote(old(pkt.View()), nextHop, oif))
      ensures pkt.View() == old(pkt.View()).(ttl := pkt.ttl)
      ensures pkt.ttl == old(pkt.ttl) ||
              (oif.None? && IsLocal(old(Cfg()), nextHop) && pkt.ttl < Life(old(pkt.ttl)))
      decreases Rank(Cfg(), Demote(pkt.View(), nextHop, oif)), 0
    {
      if oif.Some? {
        var out := InterfaceByName(intfs[oif.value].name);
        e := Transmit(Packet(pkt.src, pkt.dst, pkt.ttl, pkt.body), nextHop, out.value);
        return;
      }
      var local := IsLocalDelivery(nextHop);
      if local {
        StepDescends(Cfg(), Demote(pkt.View(), nextHop, oif));
        e := HandUp(pkt);
        return;
      }
      var i := MatchingInterface(nextHop);
      if i.None? {
        e := NoInterface;
      } else {
        e := Transmit(Packet(pkt.src, pkt.dst, pkt.ttl, pkt.body), nextHop, i.value);
      }
    }

    /**
     * `layer3_ip_pkt_recv_from_layer2`: the TTL is decremented in the packet, once unless the
     * gateway is one of the node's own addresses and the route's interface is none of its own.
     */
    method HandUp(pkt: IpPacket) returns (e: Effect)
      requires Valid()
      modifies pkt
      ensures e == Outcome(old(Cfg()), Promote(old(pkt.View())))
      ensures pkt.View() == old(pkt.View()).(ttl := pkt.ttl)
      ensures var cfg := old(Cfg());
        var r := Lpm(cfg.routes, old(pkt.dst));
        if r.None? || r.value.isDirect then pkt.ttl == old(pkt.ttl)
        else if IntfByName(cfg.intfs, r.value.oif).Some? || !IsLocal(cfg, r.value.gw)
        then pkt.ttl == Life(old(pkt.ttl)) - 1
        else pkt.ttl < Life(old(pkt.ttl))
      decreases Rank(Cfg(), Promote(pkt.View())), 1
    {
      ghost var cfg, c := Cfg(), Promote(pkt.View());
      var route := rt.LookupLpm(pkt.dst);
      if route == null {
        StepDescends(cfg, c);
        e := SendDown(DestUnreachable(pkt.dst), pkt.src);
        return;
      }
      if route.data.isDirect {
        var local := IsLocalDelivery(pkt.dst);
        if local {
          match pkt.body
          case Echo(ident, seqNum, data) =>
            StepDescends(cfg, c);
            e := SendDown(EchoReply(ident, seqNum, SwapBytes(data)), pkt.src);
          case _ =>
            e := Consumed(Packet(pkt.src, pkt.dst, pkt.ttl, pkt.body));
        } else {
          StepDescends(cfg, c);
          e := PassDown(pkt, pkt.dst, None);
        }
        return;
      }
      e := Forward(pkt, route.data);
    }

    /** The forwarding case: a route that is not direct takes one off the TTL. */
    method Forward(pkt: IpPacket, r: Route) returns (e: Effect)
      requires Valid() && Lpm(Cfg().routes, pkt.dst) == Some(r) && !r.isDirect
      modifies pkt
      ensures e == Outcome(old(Cfg()), Promote(old(pkt.View())))
      ensures pkt.View() == old(pkt.View()).(ttl := pkt.ttl)
      ensures
        if IntfByName(intfs, r.oif).Some? || !IsLocal(old(Cfg()), r.gw)
        then pkt.ttl == Life(old(pkt.ttl)) - 1
        else pkt.ttl < Life(old(pkt.ttl))
      decreases Rank(Cfg(), Promote(pkt.View())), 0
    {
      StepDescends(Cfg(), Promote(pkt.View()));
      pkt.ttl := (pkt.ttl + 255) % 256;
      if pkt.ttl == 0 {
        e := SendDown(TimeExceeded(pkt.dst), pkt.src);
        return;
      }
      var oif := InterfaceByName(r.oif);
      e := PassDown(pkt, r.gw, oif);
    }
  }
}
