/**
 * How much one packet leads to: every packet received because of it, forwarded, answered, or
 * heard by many, counted together. That is bounded iff, by routes, addresses and segments, the
 * packet can lead to no circle.
 */
module Traffic {
  import opened Wrappers
  import opened Circles
  import opened Prefix
  import opened ArpTable
  import opened Layer3
  import opened Internet
  import opened Flows
  import opened BridgeLifetime
  import Journey

  /** A packet with this header at a node. */
  datatype Flow = Flow(node: nat, head: Header)

  /** By its configuration node `f.node` sends, because of `f`, what node `g.node` may hear as `g`. */
  ghost predicate FlowsTo(net: Inet, f: Flow, g: Flow) {
    f.node < |net.nodes| &&
    var e := EmissionOf(net.nodes[f.node], f.head);
    e.Some? && g.head == e.value.head && exists j: nat :: MayHear(net, (f.node, e.value.out), e.value.via, (g.node, j))
  }

  ghost function FlowRelation(net: Inet): (Flow, Flow) -> bool {
    (f: Flow, g: Flow) => FlowsTo(net, f, g)
  }

  /**
   * A packet received on an interface, by the ARP tables of then, because of what an earlier
   * reception, `cause`, made a node transmit.
   */
  datatype Reception = Reception(socket: Socket, pkt: Packet, cause: nat, arp: ArpTables)

  function FlowAt(e: Reception): Flow {
    Flow(e.socket.0, HeaderOf(e.pkt))
  }

  function FirstFlow(first: Place): Flow {
    Flow(first.node, HeaderOf(first.pkt))
  }

  /** What `a` made its node transmit was heard as `b`. */
  ghost predicate IsHeardAs(net: Inet, a: Reception, b: Reception) {
    a.socket.0 < |net.nodes| && exists via: Ip, out: nat :: HeardFrom(net, a, b, via, out)
  }

  ghost predicate HeardFrom(net: Inet, a: Reception, b: Reception, via: Ip, out: nat)
    requires a.socket.0 < |net.nodes|
  {
    && Emits(net.nodes[a.socket.0], Promote(a.pkt), b.pkt, via, out)
    && HeardBy(net, b.arp, (a.socket.0, out), via, b.socket)
  }

  /** The `i`-th reception was caused by an earlier one. */
  ghost predicate CausedAt(net: Inet, es: seq<Reception>, i: nat) {
    0 < i < |es| && es[i].cause < i && IsHeardAs(net, es[es[i].cause], es[i])
  }

  /** A transmission is sent by the tables of one moment, and an interface hears it once. */
  ghost predicate HeardApart(es: seq<Reception>, i: nat, j: nat) {
    0 < i < j < |es| && es[i].cause == es[j].cause ==> es[i].arp == es[j].arp && es[i].socket != es[j].socket
  }

  /** Everything received because of `first`, or part of it. */
  ghost predicate IsHistory(net: Inet, first: Place, es: seq<Reception>) {
    && |es| > 0 && es[0].socket.0 == first.node && es[0].pkt == first.pkt
    && (forall i: nat :: 0 < i < |es| ==> CausedAt(net, es, i))
    && (forall i: nat, j: nat :: HeardApart(es, i, j))
  }

  // ----- receptions follow the flows

  /** What was heard because of a reception is one of the flows the configuration allows. */
  lemma HeardFlows(net: Inet, a: Reception, b: Reception)
    requires ValidInet(net) && IsHeardAs(net, a, b)
    ensures FlowsTo(net, FlowAt(a), FlowAt(b)) && b.socket in net.at && b.socket.0 < |net.nodes|
  {
    var via: Ip, out: nat :| HeardFrom(net, a, b, via, out);
    EmissionIsReal(net.nodes[a.socket.0], a.pkt);
    MayHearIff(net, (a.socket.0, out), via, b.socket);
    assert b.socket == (b.socket.0, b.socket.1);
  }

  /** Any flow the configuration allows can be heard. */
  lemma FlowsAreHeard(net: Inet, a: Reception, g: Flow, k: nat) returns (b: Reception)
    requires ValidInet(net) && FlowsTo(net, FlowAt(a), g)
    ensures FlowAt(b) == g && b.cause == k && IsHeardAs(net, a, b)
  {
    var cfg := net.nodes[a.socket.0];
    var e := EmissionOf(cfg, HeaderOf(a.pkt)).value;
    EmissionIsReal(cfg, a.pkt);
    var q: Packet :| HeaderOf(q) == e.head && Emits(cfg, Promote(a.pkt), q, e.via, e.out);
    var j: nat :| MayHear(net, (a.socket.0, e.out), e.via, (g.node, j));
    MayHearIff(net, (a.socket.0, e.out), e.via, (g.node, j));
    var arp: ArpTables :| HeardBy(net, arp, (a.socket.0, e.out), e.via, (g.node, j));
    b := Reception((g.node, j), q, k, arp);
    assert HeardFrom(net, a, b, e.via, e.out);
  }

  // ----- endless traffic

  ghost function FlowsOf(es: seq<Reception>): (fs: seq<Flow>)
    ensures |fs| == |es| && forall i :: 0 <= i < |es| ==> fs[i] == FlowAt(es[i])
  {
    seq(|es|, i requires 0 <= i < |es| => FlowAt(es[i]))
  }

  lemma FlowsAppend(es: seq<Reception>, b: Reception)
    ensures FlowsOf(es + [b]) == FlowsOf(es) + [FlowAt(b)]
  {
  }

  /** The last reception has caused none yet: it may cause one. */
  lemma OneMore(net: Inet, first: Place, es: seq<Reception>, b: Reception)
    requires IsHistory(net, first, es) && b.cause == |es| - 1 && IsHeardAs(net, es[|es| - 1], b)
    ensures IsHistory(net, first, es + [b])
  {
    var n, es' := |es|, es + [b];
    forall i: nat | 0 < i < |es'| ensures CausedAt(net, es', i) {
      if i < n {
        assert CausedAt(net, es, i);
      }
    }
    forall i: nat, j: nat ensures HeardApart(es', i, j) {
      if 0 < i < j < n {
        assert HeardApart(es, i, j);
      } else if 0 < i < j == n {
        assert CausedAt(net, es, i);
      }
    }
  }

  /** A history can go on with any flow from its last reception. */
  lemma GoesOn(net: Inet, first: Place, es: seq<Reception>, f: Flow, g: Flow) returns (es': seq<Reception>)
    requires ValidInet(net) && IsHistory(net, first, es) && FlowsOf(es)[|es| - 1] == f && FlowsTo(net, f, g)
    ensures IsHistory(net, first, es') && FlowsOf(es') == FlowsOf(es) + [g]
  {
    var b := FlowsAreHeard(net, es[|es| - 1], g, |es| - 1);
    OneMore(net, first, es, b);
    FlowsAppend(es, b);
    es' := es + [b];
  }

  lemma Begins(net: Inet, first: Place) returns (es: seq<Reception>)
    ensures IsHistory(net, first, es) && FlowsOf(es) == [FirstFlow(first)]
  {
    es := [Reception((first.node, 0), first.pkt, 0, [])];
    FlowsAppend([], es[0]);
    assert [] + es == es && FlowsOf([]) == [];
  }

  lemma LastLink(net: Inet, fs: seq<Flow>)
    requires IsPath(FlowRelation(net), fs) && |fs| > 1
    ensures FlowsTo(net, fs[|fs| - 2], fs[|fs| - 1])
  {
    assert LinkAt(FlowRelation(net), fs, |fs| - 2);
  }

  /** Along any path of flows there is a history, one reception after the other. */
  lemma {:induction false} HistoryAlong(net: Inet, first: Place, fs: seq<Flow>) returns (es: seq<Reception>)
    requires ValidInet(net) && IsPath(FlowRelation(net), fs) && fs[0] == FirstFlow(first)
    ensures IsHistory(net, first, es) && FlowsOf(es) == fs
  {
    var n := |fs| - 1;
    if n == 0 {
      es := Begins(net, first);
    } else {
      PathPrefix(FlowRelation(net), fs, n);
      LastLink(net, fs);
      var front := HistoryAlong(net, first, fs[..n]);
      assert |front| == |FlowsOf(front)| == n;
      es := GoesOn(net, first, front, fs[n - 1], fs[n]);
      assert fs == fs[..n] + [fs[n]];
    }
  }

  // ----- traffic that ends

  /** How many receptions led to the `i`-th. */
  ghost function Depth(es: seq<Reception>, i: nat): nat
    requires i < |es|
  {
    if i == 0 || es[i].cause >= i then 0 else 1 + Depth(es, es[i].cause)
  }

  /** The flows from the first packet to the `i`-th reception. */
  ghost function WayTo(es: seq<Reception>, i: nat): (fs: seq<Flow>)
    requires i < |es|
    ensures |fs| == Depth(es, i) + 1 && fs[|fs| - 1] == FlowAt(es[i])
  {
    if i == 0 || es[i].cause >= i then [FlowAt(es[i])] else WayTo(es, es[i].cause) + [FlowAt(es[i])]
  }

  /** A reception that was caused is a flow from its cause. */
  lemma CausedFlows(net: Inet, es: seq<Reception>, i: nat)
    requires ValidInet(net) && CausedAt(net, es, i)
    ensures i > 0 && es[i].cause < i && es[i].socket in net.at && es[i].socket.0 < |net.nodes|
    ensures FlowsTo(net, FlowAt(es[es[i].cause]), FlowAt(es[i]))
  {
    HeardFlows(net, es[es[i].cause], es[i]);
  }

  lemma {:induction false} WayIsPath(net: Inet, first: Place, es: seq<Reception>, i: nat)
    requires ValidInet(net) && IsHistory(net, first, es) && i < |es| && first.node < |net.nodes|
    ensures IsPath(FlowRelation(net), WayTo(es, i)) && WayTo(es, i)[0] == FlowAt(es[0])
    ensures forall k :: 0 <= k < |WayTo(es, i)| ==> WayTo(es, i)[k].node < |net.nodes|
  {
    if i == 0 {
    } else {
      CausedFlows(net, es, i);
      WayIsPath(net, first, es, es[i].cause);
      PathAppend(FlowRelation(net), WayTo(es, es[i].cause), FlowAt(es[i]));
    }
  }

  ghost function AllFlows(net: Inet): set<Flow> {
    set n, s, d, t, b: bool
      | 0 <= n < |net.nodes| && 0 <= s < WORD && 0 <= d < WORD && 0 <= t < 256
      :: Flow(n, Header(s, d, t, b))
  }

  /** Where no circle can be reached, no chain of causes is longer than there are flows. */
  lemma DepthBound(net: Inet, first: Place, es: seq<Reception>, i: nat)
    requires ValidInet(net) && IsHistory(net, first, es) && i < |es| && first.node < |net.nodes|
    requires !HasLasso(FlowRelation(net), FirstFlow(first))
    ensures Depth(es, i) < |AllFlows(net)|
  {
    WayIsPath(net, first, es, i);
    var fs := WayTo(es, i);
    forall k | 0 <= k < |fs| ensures fs[k] in AllFlows(net) {
      var h := fs[k].head;
      assert fs[k] == Flow(fs[k].node, Header(h.src, h.dst, h.ttl, h.ping));
    }
    PathFromWithin(FlowRelation(net), fs, AllFlows(net));
  }

  // ----- counting receptions

  /** Causes come earlier, and two receptions with one cause are on different ones of `sockets`. */
  ghost predicate Ordered(es: seq<Reception>, sockets: set<Socket>) {
    && (forall i: nat :: 0 < i < |es| ==> CauseBefore(es, sockets, i))
    && (forall i: nat, j: nat :: HeardApart(es, i, j))
  }

  ghost predicate CauseBefore(es: seq<Reception>, sockets: set<Socket>, i: nat)
    requires i < |es|
  {
    es[i].cause < i && es[i].socket in sockets
  }

  lemma HistoryOrdered(net: Inet, first: Place, es: seq<Reception>)
    requires ValidInet(net) && IsHistory(net, first, es) && first.node < |net.nodes|
    ensures Ordered(es, net.at.Keys)
  {
    forall i: nat | 0 < i < |es| ensures CauseBefore(es, net.at.Keys, i) {
      CausedFlows(net, es, i);
    }
  }

  ghost function AtDepth(es: seq<Reception>, d: nat): set<nat> {
    set i: nat | i < |es| && Depth(es, i) == d
  }

  ghost function Shallow(es: seq<Reception>, d: nat): set<nat> {
    set i: nat | i < |es| && Depth(es, i) < d
  }

  /** At most so many receptions are caused by chains of `d`, if each transmission has `s` hearers. */
  ghost function Width(d: nat, s: nat): nat {
    if d == 0 then 1 else Width(d - 1, s) * s
  }

  /** And so many by all chains shorter than `d`. */
  ghost function Total(d: nat, s: nat): nat {
    if d == 0 then 0 else Total(d - 1, s) + Width(d - 1, s)
  }

  lemma OnlyTheFirst(es: seq<Reception>, sockets: set<Socket>)
    requires Ordered(es, sockets)
    ensures |AtDepth(es, 0)| <= 1
  {
    forall i | i in AtDepth(es, 0) ensures i == 0 {
      assert i > 0 ==> CauseBefore(es, sockets, i);
    }
    Singleton(AtDepth(es, 0), 0);
  }

  lemma Singleton(xs: set<nat>, x: nat)
    requires forall y :: y in xs ==> y == x
    ensures |xs| <= 1
  {
    if x in xs {
      assert xs == {x};
    } else {
      assert xs == {};
    }
  }

  /** Each reception has as many effects as it has hearers. */
  lemma NextLayer(es: seq<Reception>, sockets: set<Socket>, d: nat)
    requires Ordered(es, sockets) && d > 0
    ensures |AtDepth(es, d)| <= |AtDepth(es, d - 1)| * |sockets|
  {
    var hearers, causes := AtDepth(es, d), AtDepth(es, d - 1);
    var f := (i: nat) => if i < |es| then (es[i].cause, es[i].socket) else (0, (0, 0));
    var pairs := set i | i in hearers :: f(i);
    forall i | i in hearers ensures f(i).0 in causes && f(i).1 in sockets {
      assert CauseBefore(es, sockets, i);
    }
    forall i, j | i in hearers && j in hearers && f(i) == f(j) ensures i == j {
      assert HeardApart(es, i, j) && HeardApart(es, j, i);
    }
    ImagesOf(hearers, f, pairs);
    PairsWithin(pairs, causes, sockets);
  }

  lemma {:induction false} WidthBound(es: seq<Reception>, sockets: set<Socket>, d: nat)
    requires Ordered(es, sockets)
    ensures |AtDepth(es, d)| <= Width(d, |sockets|)
  {
    if d == 0 {
      OnlyTheFirst(es, sockets);
    } else {
      WidthBound(es, sockets, d - 1);
      NextLayer(es, sockets, d);
      TimesMonotone(|AtDepth(es, d - 1)|, Width(d - 1, |sockets|), |sockets|);
    }
  }

  lemma TimesMonotone(a: nat, b: nat, c: nat)
    requires a <= b
    ensures a * c <= b * c
  {
  }

  lemma LayersAdd(es: seq<Reception>, d: nat)
    requires d > 0
    ensures |Shallow(es, d)| <= |Shallow(es, d - 1)| + |AtDepth(es, d - 1)|
  {
    assert Shallow(es, d) == Shallow(es, d - 1) + AtDepth(es, d - 1);
  }

  lemma {:induction false} TotalBound(es: seq<Reception>, sockets: set<Socket>, d: nat)
    requires Ordered(es, sockets)
    ensures |Shallow(es, d)| <= Total(d, |sockets|)
  {
    if d == 0 {
      assert Shallow(es, 0) == {};
    } else {
      LayersAdd(es, d);
      TotalBound(es, sockets, d - 1);
      WidthBound(es, sockets, d - 1);
    }
  }

  /** Because of `first`, no more than `limit` packets are ever received. */
  ghost predicate TrafficWithin(net: Inet, first: Place, limit: nat) {
    forall es: seq<Reception> :: IsHistory(net, first, es) ==> |es| <= limit
  }

  lemma HistoryBound(net: Inet, first: Place, es: seq<Reception>)
    requires ValidInet(net) && IsHistory(net, first, es) && first.node < |net.nodes|
    requires !HasLasso(FlowRelation(net), FirstFlow(first))
    ensures |es| <= Total(|AllFlows(net)|, |net.at|)
  {
    var d := |AllFlows(net)|;
    forall i: nat | i < |es| ensures Depth(es, i) < d {
      DepthBound(net, first, es, i);
    }
    assert Shallow(es, d) == Below(|es|);
    HistoryOrdered(net, first, es);
    TotalBound(es, net.at.Keys, d);
  }

  lemma LongHistory(net: Inet, first: Place, limit: nat)
    requires ValidInet(net) && HasLasso(FlowRelation(net), FirstFlow(first))
    ensures !TrafficWithin(net, first, limit)
  {
    var r := FlowRelation(net);
    var s: seq<Flow>, i: nat :| IsLasso(r, FirstFlow(first), s, i);
    var fs := IntoTheCircle(r, FirstFlow(first), s, i, limit);
    var es := HistoryAlong(net, first, fs);
    assert |es| == |FlowsOf(es)| == limit + 1;
  }

  /**
   * The number of packets received because of one is bounded iff, from that packet at that
   * node, the flows the configuration allows lead to no circle.
   */
  lemma TrafficEndsIff(net: Inet, first: Place)
    requires ValidInet(net) && first.node < |net.nodes|
    ensures (exists limit: nat :: TrafficWithin(net, first, limit)) <==>
            !HasLasso(FlowRelation(net), FirstFlow(first))
  {
    if !HasLasso(FlowRelation(net), FirstFlow(first)) {
      var limit := Total(|AllFlows(net)|, |net.at|);
      forall es: seq<Reception> | IsHistory(net, first, es) ensures |es| <= limit {
        HistoryBound(net, first, es);
      }
      assert TrafficWithin(net, first, limit);
    } else {
      forall limit: nat ensures !TrafficWithin(net, first, limit) {
        LongHistory(net, first, limit);
      }
    }
  }

  // ----- what the circles are

  /** The packet calls for an answer at this node. */
  predicate AnsweredAt(net: Inet, f: Flow) {
    f.node < |net.nodes| && Answered(net.nodes[f.node], f.head.dst, f.head.ttl, f.head.ping)
  }

  /** Without an answer a packet stays the same but for its TTL, which falls unless the hop is direct. */
  lemma QuietStep(net: Inet, f: Flow, g: Flow)
    requires ValidInet(net) && FlowsTo(net, f, g) && !AnsweredAt(net, f)
    ensures g.head == f.head.(ttl := g.head.ttl) && Life(g.head.ttl) <= Life(f.head.ttl)
    ensures Life(g.head.ttl) == Life(f.head.ttl) ==>
      && DirectTo(net.nodes[f.node], f.head.dst) && !IsLocal(net.nodes[f.node], f.head.dst)
      && (Lands(net, g.node, f.head.dst) || (f.head.dst == BROADCAST_IP && Journey.Floods(net, f.node, g.node)))
  {
    var e := EmissionOf(net.nodes[f.node], f.head).value;
    if Life(g.head.ttl) == Life(f.head.ttl) {
      var j: nat :| MayHear(net, (f.node, e.out), e.via, (g.node, j));
      if e.via == BROADCAST_IP && (g.node, j) != (f.node, e.out) {
        assert Journey.PassesOn(net, (f.node, e.out));
      } else {
        var r: Socket :| MayKnow(net, f.node, e.via, r) && IntfAt(net, r).mac == IntfAt(net, (g.node, j)).mac;
        assert ToldApart(net, r, (g.node, j));
      }
    }
  }

  ghost predicate Lands(net: Inet, n: nat, dst: Ip) {
    n < |net.nodes| && IsLocal(net.nodes[n], dst)
  }

  ghost predicate QuietAt(net: Inet, s: seq<Flow>, i: nat) {
    i + 1 < |s| ==> !AnsweredAt(net, s[i])
  }

  lemma {:induction false} LivesAlong(net: Inet, s: seq<Flow>, i: nat, j: nat)
    requires ValidInet(net) && IsPath(FlowRelation(net), s) && i <= j < |s| && forall k: nat :: QuietAt(net, s, k)
    ensures s[j].head == s[i].head.(ttl := s[j].head.ttl) && Life(s[j].head.ttl) <= Life(s[i].head.ttl)
    decreases j
  {
    if i == j {
    } else {
      LivesAlong(net, s, i, j - 1);
      assert LinkAt(FlowRelation(net), s, j - 1) && QuietAt(net, s, j - 1);
      QuietStep(net, s[j - 1], s[j]);
    }
  }

  lemma SameAllAlong(net: Inet, s: seq<Flow>, i: nat)
    requires ValidInet(net) && IsCircle(FlowRelation(net), s) && i < |s| && forall k: nat :: QuietAt(net, s, k)
    ensures s[i].head == s[0].head.(ttl := s[i].head.ttl) && Life(s[i].head.ttl) == Life(s[0].head.ttl)
  {
    LivesAlong(net, s, 0, i);
    LivesAlong(net, s, i, |s| - 1);
  }

  lemma QuietHop(net: Inet, s: seq<Flow>, i: nat)
    requires ValidInet(net) && IsCircle(FlowRelation(net), s) && i + 1 < |s| && forall k: nat :: QuietAt(net, s, k)
    ensures var dst := s[0].head.dst;
      && !Lands(net, s[i].node, dst)
      && (Lands(net, s[i + 1].node, dst) || (dst == BROADCAST_IP && Journey.Floods(net, s[i].node, s[i + 1].node)))
  {
    assert LinkAt(FlowRelation(net), s, i) && QuietAt(net, s, i);
    QuietStep(net, s[i], s[i + 1]);
    SameAllAlong(net, s, i);
    SameAllAlong(net, s, i + 1);
  }

  /** On a circle without an answer every step is a direct hop of a limited broadcast. */
  lemma QuietCircleFloods(net: Inet, s: seq<Flow>, i: nat)
    requires ValidInet(net) && IsCircle(FlowRelation(net), s) && i + 1 < |s| && forall k: nat :: QuietAt(net, s, k)
    ensures s[0].head.dst == BROADCAST_IP && Journey.Floods(net, s[i].node, s[i + 1].node)
  {
    QuietHop(net, s, i);
    QuietHop(net, s, if i + 2 < |s| then i + 1 else 0);
  }

  /** A circle of flows contains an answer, or routers pass on the limited broadcast in a circle. */
  lemma CircleKinds(net: Inet, s: seq<Flow>)
    requires ValidInet(net) && IsCircle(FlowRelation(net), s) && forall k: nat :: QuietAt(net, s, k)
    ensures s[0].head.dst == BROADCAST_IP && Journey.FloodCircle(net)
  {
    QuietCircleFloods(net, s, 0);
    var ns: seq<nat> := seq(|s|, i requires 0 <= i < |s| => s[i].node);
    forall i: nat | i + 1 < |ns| ensures LinkAt(Journey.FloodRelation(net), ns, i) {
      QuietCircleFloods(net, s, i);
    }
    assert IsCircle(Journey.FloodRelation(net), ns);
  }

  lemma FloodFlows(net: Inet, n: nat, k: nat, h: Header)
    requires Journey.Floods(net, n, k) && h.dst == BROADCAST_IP
    ensures FlowsTo(net, Flow(n, h), Flow(k, h))
  {
    var i: nat, j: nat :| Journey.PassesOn(net, (n, i)) && SameLan(net, (n, i), (k, j)) && (k, j) != (n, i);
    assert EmissionOf(net.nodes[n], h) == Some(Emission(h, BROADCAST_IP, i));
    assert MayHear(net, (n, i), BROADCAST_IP, (k, j));
  }

  /** Conversely, a limited broadcast at a router of such a circle leads to packets without end. */
  lemma FloodsWithoutEnd(net: Inet, first: Place, ns: seq<nat>)
    requires ValidInet(net) && first.node < |net.nodes| && first.pkt.dst == BROADCAST_IP
    requires IsCircle(Journey.FloodRelation(net), ns) && ns[0] == first.node
    ensures forall limit: nat :: !TrafficWithin(net, first, limit)
  {
    var h := HeaderOf(first.pkt);
    var s := seq(|ns|, i requires 0 <= i < |ns| => Flow(ns[i], h));
    forall i: nat | i + 1 < |s| ensures LinkAt(FlowRelation(net), s, i) {
      assert LinkAt(Journey.FloodRelation(net), ns, i);
      FloodFlows(net, ns[i], ns[i + 1], h);
    }
    assert IsLasso(FlowRelation(net), FirstFlow(first), s, 0);
    TrafficEndsIff(net, first);
  }
}
