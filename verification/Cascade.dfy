/**
 * Errors about errors. The stack has no rule against them: a packet that dies is answered by
 * an error, the error may die as well, and so on. How long such a chain of errors can be, one
 * about the other, is bounded iff, by routes, addresses and segments, no errors lead to each
 * other in a circle. How many packets there are in all is another question, answered by Traffic.
 */
module Cascade {
  import opened Wrappers
  import opened Circles
  import opened Prefix
  import opened RouteTable
  import opened ArpTable
  import opened Layer3
  import opened PacketTrack
  import opened Internet
  import opened Journey
  import opened EndToEnd
  import opened Flows
  import opened Traffic

  /** Node `node` sends `body`, an error as a rule, to `to`. */
  datatype Trouble = Trouble(node: nat, body: Body, to: Ip)

  /** What is left of it when one leaves aside what it says. */
  datatype Stage = Stage(node: nat, to: Ip)

  function StageOf(t: Trouble): Stage {
    Stage(t.node, t.to)
  }

  /** How an error dies: the tables at the sender, the tables at each hop, and the way it goes. */
  datatype Way = Way(first: ArpTables, arps: seq<ArpTables>, places: seq<Place>)

  /** The error sent at `a` goes from place to place, and the node at the last one answers with `answer`. */
  ghost predicate DiesWith(net: Inet, a: Stage, body: Body, w: Way, node: nat, answer: Call) {
    && a.node < |net.nodes| && ArpTrue(net, w.first) && IsJourney(net, w.arps, w.places)
    && (var f := Launch(net.nodes[a.node], body, a.to);
        f.Sent? && f.pkt == w.places[0].pkt && Takes(net, w.first, a.node, f.via, f.out, w.places[0].node))
    && var last := w.places[|w.places| - 1];
       last.node == node && Answer(net.nodes[node], Promote(last.pkt)) == Some(answer)
  }

  /** Without a route a node tells its own loopback address; otherwise an error that dies causes the next. */
  ghost predicate Causes(net: Inet, t: Trouble, u: Trouble) {
    t.node < |net.nodes| &&
    if Lpm(net.nodes[t.node].routes, t.to).None?
    then u == Trouble(t.node, DestUnreachable(t.to), LoAddr(net.nodes[t.node]))
    else exists w: Way :: DiesWith(net, StageOf(t), t.body, w, u.node, SendFromTop(u.body, u.to))
  }

  ghost predicate CausesAt(net: Inet, ts: seq<Trouble>, i: nat) {
    i + 1 < |ts| && Causes(net, ts[i], ts[i + 1])
  }

  /** Packets nodes send by themselves, each caused by the one before. The first one is not a ping. */
  ghost predicate IsCascade(net: Inet, ts: seq<Trouble>) {
    && |ts| > 0 && !ts[0].body.Echo?
    && forall i: nat :: i + 1 < |ts| ==> CausesAt(net, ts, i)
  }

  /** A packet sent at `a`, not a ping, may cause one sent at `b`. */
  ghost predicate Leads(net: Inet, t: Trouble, u: Trouble, a: Stage, b: Stage) {
    !t.body.Echo? && StageOf(t) == a && StageOf(u) == b && Causes(net, t, u)
  }

  // ----- the same by configuration

  /** By its configuration node `f.node` passes the packet on, and node `g.node` may hear it. */
  ghost predicate PassedOn(net: Inet, fs: seq<Flow>, i: nat) {
    && i + 1 < |fs| && fs[i].node < |net.nodes|
    && !Answered(net.nodes[fs[i].node], fs[i].head.dst, fs[i].head.ttl, fs[i].head.ping)
    && FlowsTo(net, fs[i], fs[i + 1])
  }

  /** What node `a.node` sends to `a.to` is passed on along `fs`, to where it calls for an answer. */
  ghost predicate DiesAlong(net: Inet, a: Stage, fs: seq<Flow>, b: Stage) {
    && a.node < |net.nodes| && |fs| > 0 && OwnEmission(net.nodes[a.node], a.to).Some?
    && var e := OwnEmission(net.nodes[a.node], a.to).value;
       && fs[0].head == e.head && (exists j: nat :: MayHear(net, (a.node, e.out), e.via, (fs[0].node, j)))
       && (forall i: nat :: i + 1 < |fs| ==> PassedOn(net, fs, i))
       && var last := fs[|fs| - 1];
          && last.node < |net.nodes| && Answered(net.nodes[last.node], a.to, last.head.ttl, false)
          && b == Stage(last.node, e.head.src)
  }

  /** Without a route the node tells its loopback address; otherwise a packet dies on its way. */
  ghost predicate StageLeads(net: Inet, a: Stage, b: Stage) {
    a.node < |net.nodes| &&
    if Lpm(net.nodes[a.node].routes, a.to).None? then b == Stage(a.node, LoAddr(net.nodes[a.node]))
    else exists fs: seq<Flow> :: DiesAlong(net, a, fs, b)
  }

  ghost function ErrorRelation(net: Inet): (Stage, Stage) -> bool {
    (a: Stage, b: Stage) => StageLeads(net, a, b)
  }

  ghost predicate ErrorCircle(net: Inet) {
    HasCircle(ErrorRelation(net))
  }

  // ----- one is the other

  ghost function FlowsAlong(places: seq<Place>): (fs: seq<Flow>)
    ensures |fs| == |places| && forall i :: 0 <= i < |places| ==> fs[i] == FirstFlow(places[i])
  {
    seq(|places|, i requires 0 <= i < |places| => FirstFlow(places[i]))
  }

  /** A node takes what is sent for `via` by true tables: it may hear it. */
  lemma TakesMayHear(net: Inet, arp: ArpTables, n: nat, via: Ip, out: nat, k: nat)
    requires ValidInet(net) && ArpTrue(net, arp) && n < |arp|
    requires Takes(net, arp, n, via, out, k)
    ensures exists j: nat :: MayHear(net, (n, out), via, (k, j))
  {
    var j: nat :| Hears(net, (n, out), Resolve(arp[n], via).value.mac, (k, j));
    assert HeardBy(net, arp, (n, out), via, (k, j));
    MayHearIff(net, (n, out), via, (k, j));
  }

  lemma HopPassesOn(net: Inet, arp: ArpTables, a: Place, b: Place)
    requires ValidInet(net) && a.node < |net.nodes| && ArpTrue(net, arp) && Hop(net, arp, a, b)
    ensures !Answered(net.nodes[a.node], a.pkt.dst, a.pkt.ttl, a.pkt.body.Echo?)
    ensures FlowsTo(net, FirstFlow(a), FirstFlow(b))
  {
    MoveDecides(net.nodes[a.node], a.pkt);
    var f := Track(net.nodes[a.node], Promote(a.pkt));
    TakesMayHear(net, arp, a.node, f.via, f.out, b.node);
  }

  lemma JourneyPassesOn(net: Inet, arps: seq<ArpTables>, j: seq<Place>)
    requires ValidInet(net) && IsJourney(net, arps, j)
    ensures forall i: nat :: i + 1 < |j| ==> PassedOn(net, FlowsAlong(j), i)
  {
    forall i: nat | i + 1 < |j| ensures PassedOn(net, FlowsAlong(j), i) {
      assert HopAt(net, arps, j, i);
      HopPassesOn(net, arps[i], j[i], j[i + 1]);
    }
  }

  /** What a node launches, other than a ping, is what its configuration says. */
  lemma LaunchIsOwn(cfg: NodeCfg, body: Body, to: Ip)
    requires !body.Echo? && Lpm(cfg.routes, to).Some?
    ensures var f := Launch(cfg, body, to);
      && (f.Sent? <==> OwnEmission(cfg, to).Some?)
      && (f.Sent? ==> OwnEmission(cfg, to) == Some(Emission(HeaderOf(f.pkt), f.via, f.out)))
      && (f.Sent? ==> f.pkt == OwnPacket(cfg, body, to))
  {
    if IsHome(cfg, to) {
      OwnArrives(cfg, body, to);
    } else if OriginHop(cfg, to).Some? {
      OwnIsSent(cfg, body, to);
    }
  }

  lemma DiesByConfiguration(net: Inet, a: Stage, body: Body, w: Way, node: nat, answer: Call)
    requires ValidInet(net) && !body.Echo? && DiesWith(net, a, body, w, node, answer)
    requires a.node < |net.nodes| && Lpm(net.nodes[a.node].routes, a.to).Some? && answer.SendFromTop?
    ensures DiesAlong(net, a, FlowsAlong(w.places), Stage(node, answer.to))
  {
    var cfg, last := net.nodes[a.node], w.places[|w.places| - 1];
    LaunchIsOwn(cfg, body, a.to);
    var f := Launch(cfg, body, a.to);
    TakesMayHear(net, w.first, a.node, f.via, f.out, w.places[0].node);
    JourneyPassesOn(net, w.arps, w.places);
    SameDestination(net, w.arps, w.places, |w.arps|);
    MoveDecides(net.nodes[node], last.pkt);
  }

  ghost function PlacesFor(fs: seq<Flow>, body: Body): (j: seq<Place>)
    ensures |j| == |fs|
    ensures forall i :: 0 <= i < |fs| ==>
      j[i] == Place(fs[i].node, Packet(fs[i].head.src, fs[i].head.dst, fs[i].head.ttl, body))
  {
    seq(|fs|, i requires 0 <= i < |fs| =>
      Place(fs[i].node, Packet(fs[i].head.src, fs[i].head.dst, fs[i].head.ttl, body)))
  }

  lemma MayHearTakes(net: Inet, n: nat, via: Ip, out: nat, k: nat, j: nat) returns (arp: ArpTables)
    requires ValidInet(net) && n < |net.nodes| && MayHear(net, (n, out), via, (k, j))
    ensures ArpTrue(net, arp) && Takes(net, arp, n, via, out, k)
  {
    MayHearIff(net, (n, out), via, (k, j));
    arp :| HeardBy(net, arp, (n, out), via, (k, j));
  }

  lemma PassedOnHops(net: Inet, fs: seq<Flow>, body: Body, i: nat) returns (arp: ArpTables)
    requires ValidInet(net) && PassedOn(net, fs, i) && !body.Echo? && !fs[i].head.ping
    ensures ArpTrue(net, arp) && Hop(net, arp, PlacesFor(fs, body)[i], PlacesFor(fs, body)[i + 1])
    ensures !fs[i + 1].head.ping && fs[i + 1].head.src == fs[i].head.src && fs[i + 1].head.dst == fs[i].head.dst
  {
    var a := PlacesFor(fs, body)[i];
    MoveDecides(net.nodes[a.node], a.pkt);
    var e := EmissionOf(net.nodes[a.node], fs[i].head).value;
    var j: nat :| MayHear(net, (a.node, e.out), e.via, (fs[i + 1].node, j));
    arp := MayHearTakes(net, a.node, e.via, e.out, fs[i + 1].node, j);
  }

  /** Tables by which a packet is passed on along `fs`, up to `n`. */
  lemma {:induction false} TablesAlong(net: Inet, fs: seq<Flow>, body: Body, n: nat) returns (arps: seq<ArpTables>)
    requires ValidInet(net) && n < |fs| && !fs[0].head.ping && !body.Echo?
    requires forall i: nat :: i + 1 < |fs| ==> PassedOn(net, fs, i)
    ensures |arps| == n && forall i: nat :: i < n ==> TablesFit(net, fs, body, arps, i)
    ensures !fs[n].head.ping && fs[n].head.src == fs[0].head.src && fs[n].head.dst == fs[0].head.dst
  {
    if n == 0 {
      arps := [];
    } else {
      var front := TablesAlong(net, fs, body, n - 1);
      assert PassedOn(net, fs, n - 1);
      var arp := PassedOnHops(net, fs, body, n - 1);
      arps := front + [arp];
      forall i: nat | i < n ensures TablesFit(net, fs, body, arps, i) {
        if i < n - 1 {
          assert TablesFit(net, fs, body, front, i);
        }
      }
    }
  }

  ghost predicate TablesFit(net: Inet, fs: seq<Flow>, body: Body, arps: seq<ArpTables>, i: nat) {
    && i < |arps| && i + 1 < |fs| && fs[i].node < |net.nodes| && ArpTrue(net, arps[i])
    && Hop(net, arps[i], PlacesFor(fs, body)[i], PlacesFor(fs, body)[i + 1])
  }

  lemma JourneyFor(net: Inet, fs: seq<Flow>, body: Body) returns (arps: seq<ArpTables>)
    requires ValidInet(net) && |fs| > 0 && !fs[0].head.ping && !body.Echo? && fs[|fs| - 1].node < |net.nodes|
    requires forall i: nat :: i + 1 < |fs| ==> PassedOn(net, fs, i)
    ensures IsJourney(net, arps, PlacesFor(fs, body))
    ensures fs[|fs| - 1].head.src == fs[0].head.src && fs[|fs| - 1].head.dst == fs[0].head.dst
  {
    var n, places := |fs| - 1, PlacesFor(fs, body);
    arps := TablesAlong(net, fs, body, n);
    forall i: nat | i < n ensures HopAt(net, arps, places, i) {
      assert TablesFit(net, fs, body, arps, i);
    }
    forall i | 0 <= i < |places| ensures places[i].node < |net.nodes| {
      assert i < n ==> PassedOn(net, fs, i);
    }
  }

  lemma DiesIndeed(net: Inet, a: Stage, fs: seq<Flow>, b: Stage, body: Body) returns (w: Way, answer: Call)
    requires ValidInet(net) && DiesAlong(net, a, fs, b) && !body.Echo?
    requires Lpm(net.nodes[a.node].routes, a.to).Some?
    ensures DiesWith(net, a, body, w, b.node, answer) && answer.SendFromTop? && answer.to == b.to
  {
    var e := OwnEmission(net.nodes[a.node], a.to).value;
    LaunchIsOwn(net.nodes[a.node], body, a.to);
    var j: nat :| MayHear(net, (a.node, e.out), e.via, (fs[0].node, j));
    var first := MayHearTakes(net, a.node, e.via, e.out, fs[0].node, j);
    var arps := JourneyFor(net, fs, body);
    w := Way(first, arps, PlacesFor(fs, body));
    var last := w.places[|fs| - 1];
    MoveDecides(net.nodes[b.node], last.pkt);
    answer := Answer(net.nodes[b.node], Promote(last.pkt)).value;
  }

  /** Whatever a packet says that is not a ping: if its stage leads to another, it causes one there. */
  lemma StageCauses(net: Inet, t: Trouble, b: Stage) returns (u: Trouble)
    requires ValidInet(net) && !t.body.Echo? && StageLeads(net, StageOf(t), b)
    ensures StageOf(u) == b && Causes(net, t, u)
  {
    if Lpm(net.nodes[t.node].routes, t.to).None? {
      u := Trouble(t.node, DestUnreachable(t.to), LoAddr(net.nodes[t.node]));
    } else {
      var fs: seq<Flow> :| DiesAlong(net, StageOf(t), fs, b);
      var w, answer := DiesIndeed(net, StageOf(t), fs, b, t.body);
      u := Trouble(b.node, answer.body, b.to);
    }
  }

  lemma CausesByConfiguration(net: Inet, t: Trouble, u: Trouble)
    requires ValidInet(net) && !t.body.Echo? && Causes(net, t, u)
    ensures StageLeads(net, StageOf(t), StageOf(u))
  {
    if Lpm(net.nodes[t.node].routes, t.to).Some? {
      var w: Way :| DiesWith(net, StageOf(t), t.body, w, u.node, SendFromTop(u.body, u.to));
      DiesByConfiguration(net, StageOf(t), t.body, w, u.node, SendFromTop(u.body, u.to));
    }
  }

  /** A packet that is not a ping leads from one stage to another iff it does so by configuration. */
  lemma LeadsIff(net: Inet, a: Stage, b: Stage)
    requires ValidInet(net)
    ensures StageLeads(net, a, b) <==> exists t: Trouble, u: Trouble :: Leads(net, t, u, a, b)
  {
    if StageLeads(net, a, b) {
      var t := Trouble(a.node, TimeExceeded(0), a.to);
      var u := StageCauses(net, t, b);
      assert Leads(net, t, u, a, b);
    }
    if t: Trouble, u: Trouble :| Leads(net, t, u, a, b) {
      CausesByConfiguration(net, t, u);
    }
  }

  // ----- no circle, no endless cascade

  /** The addresses of the nodes themselves. */
  ghost function Addresses(net: Inet): set<Ip> {
    (set n, i | 0 <= n < |net.nodes| && 0 <= i < |net.nodes[n].intfs| && net.nodes[n].intfs[i].addr.Some?
       :: net.nodes[n].intfs[i].addr.value.ip)
    + (set n | 0 <= n < |net.nodes| :: LoAddr(net.nodes[n]))
  }

  ghost function Stages(net: Inet): set<Stage> {
    set n, ip | n in NodeSet(net) && ip in Addresses(net) :: Stage(n, ip)
  }

  lemma LoopbackIsAddress(net: Inet, n: nat)
    requires n < |net.nodes|
    ensures LoAddr(net.nodes[n]) in Addresses(net)
  {
  }

  lemma IsStage(net: Inet, n: nat, ip: Ip)
    requires n < |net.nodes| && ip in Addresses(net)
    ensures Stage(n, ip) in Stages(net)
  {
    assert n in NodeSet(net);
  }

  /** A packet a node makes carries an address of that node. */
  lemma SourceIsAddress(net: Inet, n: nat, body: Body, to: Ip)
    requires n < |net.nodes| && Launch(net.nodes[n], body, to).Sent? && !body.Echo?
    ensures var p := Launch(net.nodes[n], body, to).pkt;
      p.src in Addresses(net) && p.body == body
  {
    var cfg := net.nodes[n];
    var c := Step(cfg, SendFromTop(body, to)).call;
    if c.oif.Some? || !IsLocal(cfg, c.nextHop) {
      assert Launch(cfg, body, to).pkt == c.pkt;
    } else {
      ArrivedIff(cfg, c.pkt);
      assert false;
    }
    LoopbackIsAddress(net, n);
  }

  lemma DeathIsAnswered(net: Inet, a: Stage, body: Body, w: Way, node: nat, answer: Call)
    requires ValidInet(net) && !body.Echo? && DiesWith(net, a, body, w, node, answer)
    ensures node < |net.nodes| && answer.SendFromTop? && IsError(answer.body) && answer.to in Addresses(net)
  {
    SourceIsAddress(net, a.node, body, a.to);
    SameDestination(net, w.arps, w.places, |w.arps|);
    AnswerIsError(net.nodes[node], Promote(w.places[|w.arps|].pkt));
  }

  lemma CausedIsStage(net: Inet, t: Trouble, u: Trouble)
    requires ValidInet(net) && !t.body.Echo? && Causes(net, t, u)
    ensures IsError(u.body) && StageOf(u) in Stages(net)
  {
    if Lpm(net.nodes[t.node].routes, t.to).None? {
      LoopbackIsAddress(net, t.node);
    } else {
      var w: Way :| DiesWith(net, StageOf(t), t.body, w, u.node, SendFromTop(u.body, u.to));
      DeathIsAnswered(net, StageOf(t), t.body, w, u.node, SendFromTop(u.body, u.to));
    }
    IsStage(net, u.node, u.to);
  }

  lemma {:induction false} CascadeOfErrors(net: Inet, ts: seq<Trouble>, i: nat)
    requires ValidInet(net) && IsCascade(net, ts) && i < |ts|
    ensures !ts[i].body.Echo? && (i > 0 ==> IsError(ts[i].body) && StageOf(ts[i]) in Stages(net))
  {
    if i == 0 {
    } else {
      CascadeOfErrors(net, ts, i - 1);
      assert CausesAt(net, ts, i - 1);
      CausedIsStage(net, ts[i - 1], ts[i]);
    }
  }

  ghost function StagesOf(ts: seq<Trouble>): (s: seq<Stage>)
    ensures |s| == |ts| && forall i :: 0 <= i < |ts| ==> s[i] == StageOf(ts[i])
  {
    seq(|ts|, i requires 0 <= i < |ts| => StageOf(ts[i]))
  }

  lemma CascadeIsPath(net: Inet, ts: seq<Trouble>)
    requires ValidInet(net) && IsCascade(net, ts)
    ensures IsPath(ErrorRelation(net), StagesOf(ts))
  {
    var s := StagesOf(ts);
    forall i: nat | i + 1 < |s| ensures LinkAt(ErrorRelation(net), s, i) {
      assert CausesAt(net, ts, i);
      CascadeOfErrors(net, ts, i);
      CausesByConfiguration(net, ts[i], ts[i + 1]);
    }
  }

  lemma CascadeBound(net: Inet, ts: seq<Trouble>)
    requires ValidInet(net) && IsCascade(net, ts) && !ErrorCircle(net)
    ensures |ts| <= |Stages(net)| + 1
  {
    if |ts| > 1 {
      CascadeIsPath(net, ts);
      var s := StagesOf(ts)[1..];
      forall i: nat | i + 1 < |s| ensures LinkAt(ErrorRelation(net), s, i) {
        assert LinkAt(ErrorRelation(net), StagesOf(ts), i + 1);
      }
      forall i | 0 <= i < |s| ensures s[i] in Stages(net) {
        CascadeOfErrors(net, ts, i + 1);
      }
      PathWithin(ErrorRelation(net), s, Stages(net));
    }
  }

  // ----- a circle, and endless cascades

  lemma CascadeAppend(net: Inet, ts: seq<Trouble>, u: Trouble)
    requires IsCascade(net, ts) && Causes(net, ts[|ts| - 1], u)
    ensures IsCascade(net, ts + [u]) && StagesOf(ts + [u]) == StagesOf(ts) + [StageOf(u)]
  {
    var us := ts + [u];
    forall i: nat | i + 1 < |us| ensures CausesAt(net, us, i) {
      if i + 1 < |ts| {
        assert CausesAt(net, ts, i);
      }
    }
  }

  lemma OneMoreStage(net: Inet, front: seq<Trouble>, b: Stage) returns (ts: seq<Trouble>)
    requires ValidInet(net) && IsCascade(net, front) && !front[|front| - 1].body.Echo?
    requires StageLeads(net, StageOf(front[|front| - 1]), b)
    ensures IsCascade(net, ts) && StagesOf(ts) == StagesOf(front) + [b] && !ts[|ts| - 1].body.Echo?
  {
    var u := StageCauses(net, front[|front| - 1], b);
    CausedIsStage(net, front[|front| - 1], u);
    CascadeAppend(net, front, u);
    ts := front + [u];
  }

  lemma {:induction false} CascadeAlong(net: Inet, s: seq<Stage>) returns (ts: seq<Trouble>)
    requires ValidInet(net) && IsPath(ErrorRelation(net), s)
    ensures IsCascade(net, ts) && StagesOf(ts) == s && !ts[|ts| - 1].body.Echo?
  {
    var n := |s| - 1;
    if n == 0 {
      ts := [Trouble(s[0].node, DestUnreachable(0), s[0].to)];
    } else {
      PathPrefix(ErrorRelation(net), s, n);
      assert LinkAt(ErrorRelation(net), s, n - 1);
      var front := CascadeAlong(net, s[..n]);
      assert StagesOf(front)[n - 1] == s[n - 1];
      ts := OneMoreStage(net, front, s[n]);
      assert s == s[..n] + [s[n]];
    }
  }

  ghost predicate CascadesWithin(net: Inet, limit: nat) {
    forall ts: seq<Trouble> :: IsCascade(net, ts) ==> |ts| <= limit
  }

  /** The cascades of errors are bounded iff no errors lead to each other in a circle. */
  lemma CascadesEndIff(net: Inet)
    requires ValidInet(net)
    ensures (exists limit: nat :: CascadesWithin(net, limit)) <==> !ErrorCircle(net)
  {
    if !ErrorCircle(net) {
      var limit: nat := |Stages(net)| + 1;
      forall ts: seq<Trouble> | IsCascade(net, ts) ensures |ts| <= limit {
        CascadeBound(net, ts);
      }
      assert CascadesWithin(net, limit);
    } else {
      var circle: seq<Stage> :| IsCircle(ErrorRelation(net), circle);
      forall limit: nat ensures !CascadesWithin(net, limit) {
        var s := RoundTheCircle(ErrorRelation(net), circle, limit);
        var ts := CascadeAlong(net, s);
      }
    }
  }
}
