/**
 * A network of learning switches and stations on a tree, as a transition system.
 *
 * A station is a routed interface, the end of one link. Links carry frames in order, one
 * queue for each direction. The switches forward with the functions the Switch class is
 * proved against; with `caching` off they ignore what they learned and always flood.
 */
module Bridge {
  import opened Wrappers
  import opened MacTable
  import opened Interface
  import opened Ethernet
  import opened Switch
  import opened Tree

  datatype Node = Station(mac: Mac) | Bridging(ports: seq<Port>, nbrs: seq<nat>)

  datatype Net = Net(tree: Tree, nodes: seq<Node>)

  /** A frame on its way; `id` names the injected frame it is a copy of. */
  datatype Msg = Msg(id: nat, frame: Frame)

  datatype Origin = Origin(host: nat, via: nat, frame: Frame)

  datatype State = State(
    tables: seq<seq<MacEntry>>,
    links: map<(nat, nat), seq<Msg>>,
    injected: map<nat, Origin>,
    seen: set<(nat, nat)>,
    accepted: set<(nat, nat)>)

  datatype Event =
    | Inject(id: nat, origin: Origin)
    | Deliver(from: nat, to: nat)

  /** The configuration of a station's interface. */
  const ROUTED: PortCfg := PortCfg(true, Unknown, [0, 0, 0, 0, 0, 0, 0, 0, 0, 0])

  // ----- networks

  ghost predicate IsStation(net: Net, v: nat) {
    v < |net.nodes| && net.nodes[v].Station?
  }

  ghost predicate IsSwitch(net: Net, v: nat) {
    v < |net.nodes| && net.nodes[v].Bridging?
  }

  /** A switch has one port for each neighbour, named differently, none of them routed. */
  ghost predicate ValidSwitch(net: Net, v: nat)
    requires IsSwitch(net, v)
  {
    var Bridging(ports, nbrs) := net.nodes[v];
    && |ports| == |nbrs|
    && (forall i, j :: 0 <= i < j < |nbrs| ==> nbrs[i] != nbrs[j])
    && (forall i, j :: 0 <= i < j < |ports| ==> ports[i].name != ports[j].name)
    && (forall w: nat :: Adj(net.tree, v, w) <==> w in nbrs)
    && (forall i :: 0 <= i < |ports| ==> !ports[i].cfg.l3)
  }

  /** Stations end their link, and no two of their MACs agree up to their first zero byte. */
  ghost predicate ValidNet(net: Net) {
    && IsTree(net.tree) && |net.nodes| == |net.tree.parent|
    && (forall v: nat :: IsSwitch(net, v) ==> ValidSwitch(net, v))
    && (forall h: nat, a: nat, b: nat :: IsStation(net, h) && Adj(net.tree, h, a) && Adj(net.tree, h, b) ==> a == b)
    && (forall h: nat :: IsStation(net, h) ==> net.nodes[h].mac != BROADCAST)
    && (forall h: nat, k: nat :: IsStation(net, h) && IsStation(net, k) && h != k ==>
          CString(net.nodes[h].mac) != CString(net.nodes[k].mac))
  }

  ghost predicate Owns(net: Net, o: nat, mac: Mac) {
    IsStation(net, o) && net.nodes[o].mac == mac
  }

  ghost function IndexOf(nbrs: seq<nat>, w: nat): (i: nat)
    requires w in nbrs
    ensures i < |nbrs| && nbrs[i] == w
  {
    if nbrs[0] == w then 0 else 1 + IndexOf(nbrs[1..], w)
  }

  /** The port of switch `v` facing its neighbour `w`. */
  ghost function Facing(net: Net, v: nat, w: nat): (i: nat)
    requires ValidNet(net) && IsSwitch(net, v) && Adj(net.tree, v, w)
    ensures i < |net.nodes[v].ports| && net.nodes[v].nbrs[i] == w
  {
    IndexOf(net.nodes[v].nbrs, w)
  }

  ghost function PortFacing(net: Net, v: nat, w: nat): Port
    requires ValidNet(net) && IsSwitch(net, v) && Adj(net.tree, v, w)
  {
    net.nodes[v].ports[Facing(net, v, w)]
  }

  // ----- steps

  /** The table of `v` after a frame `f` from `u`. */
  ghost function TableAfter(net: Net, es: seq<MacEntry>, u: nat, v: nat, f: Frame): seq<MacEntry>
    requires ValidNet(net) && IsSwitch(net, v) && Adj(net.tree, v, u)
  {
    var p := PortFacing(net, v, u);
    if Ingress(p.cfg, f).None? then es else Learned(es, f.src, p.name)
  }

  /** The copy of a frame `f` from `u` that `v`, forwarding with table `es`, sends on to `w`. */
  ghost function Relayed(net: Net, es: seq<MacEntry>, u: nat, v: nat, f: Frame, w: nat): Option<Frame>
    requires ValidNet(net) && IsSwitch(net, v) && Adj(net.tree, v, u) && Adj(net.tree, v, w)
  {
    match Ingress(PortFacing(net, v, u).cfg, f)
    case None => None
    case Some(g) => Forwarded(net.nodes[v].ports, es, Facing(net, v, u), g, Facing(net, v, w))
  }

  ghost predicate Accepts(net: Net, h: nat, f: Frame)
    requires IsStation(net, h)
  {
    Qualify(ROUTED, net.nodes[h].mac, f).Accept?
  }

  ghost predicate Shape(net: Net, s: State) {
    && ValidNet(net)
    && |s.tables| == |net.nodes|
    && (forall a: nat, b: nat :: (a, b) in s.links <==> a < |net.nodes| && b < |net.nodes|)
  }

  ghost predicate Flight(s: State, a: nat, b: nat, i: nat) {
    (a, b) in s.links && i < |s.links[(a, b)]|
  }

  ghost function At(s: State, a: nat, b: nat, i: nat): Msg
    requires Flight(s, a, b, i)
  {
    s.links[(a, b)][i]
  }

  ghost predicate Enabled(net: Net, s: State, e: Event) {
    match e
    case Inject(id, o) =>
      && id !in s.injected && IsStation(net, o.host) && Adj(net.tree, o.host, o.via)
      && o.frame.src == net.nodes[o.host].mac && o.frame.dst != o.frame.src
    case Deliver(u, v) => Adj(net.tree, u, v) && Flight(s, u, v, 0)
  }

  /** What handling `m` from `u` at `v` appends to the link from `v` to `w`. */
  ghost function Copies(net: Net, caching: bool, s: State, u: nat, v: nat, w: nat): seq<Msg>
    requires Shape(net, s) && Adj(net.tree, u, v) && Flight(s, u, v, 0)
  {
    if IsSwitch(net, v) && Adj(net.tree, v, w) then
      var m := At(s, u, v, 0);
      var es := if caching then TableAfter(net, s.tables[v], u, v, m.frame) else [];
      match Relayed(net, es, u, v, m.frame, w)
      case None => []
      case Some(g) => [Msg(m.id, g)]
    else []
  }

  ghost function Step(net: Net, caching: bool, s: State, e: Event): (r: State)
    requires Shape(net, s)
    ensures Shape(net, r)
  {
    if !Enabled(net, s, e) then s else
    match e
    case Inject(id, o) =>
      var l := (o.host, o.via);
      s.(links := s.links[l := s.links[l] + [Msg(id, o.frame)]], injected := s.injected[id := o])
    case Deliver(u, v) =>
      var m := At(s, u, v, 0);
      s.(links := map l | l in s.links ::
           if l == (u, v) then s.links[l][1..]
           else if l.0 == v then s.links[l] + Copies(net, caching, s, u, v, l.1)
           else s.links[l],
         tables := if IsSwitch(net, v) then s.tables[v := TableAfter(net, s.tables[v], u, v, m.frame)] else s.tables,
         seen := s.seen + {(m.id, v)},
         accepted := if IsStation(net, v) && Accepts(net, v, m.frame) then s.accepted + {(m.id, v)} else s.accepted)
  }

  ghost function Start(net: Net): (s: State)
    requires ValidNet(net)
    ensures Shape(net, s)
  {
    State(seq(|net.nodes|, i => []),
          map a: nat, b: nat | a < |net.nodes| && b < |net.nodes| :: (a, b) := [], map[], {}, {})
  }

  /** The state after a run; an event that cannot happen where it stands changes nothing. */
  ghost function Run(net: Net, caching: bool, evs: seq<Event>): (s: State)
    requires ValidNet(net)
    ensures Shape(net, s)
  {
    if evs == [] then Start(net)
    else Step(net, caching, Run(net, caching, evs[..|evs| - 1]), evs[|evs| - 1])
  }

  /** A frame that a switch does not take in changes nothing but that it is gone: no copy, nothing learned. */
  lemma RefusedIsGone(net: Net, caching: bool, s: State, u: nat, v: nat, w: nat)
    requires Shape(net, s) && Enabled(net, s, Deliver(u, v)) && IsSwitch(net, v)
    requires forall vid: Vid :: !Enters(PortFacing(net, v, u).cfg, At(s, u, v, 0).frame, vid)
    ensures var s' := Step(net, caching, s, Deliver(u, v));
      && s'.tables == s.tables && s'.accepted == s.accepted
      && (Adj(net.tree, v, w) && w != u ==> s'.links[(v, w)] == s.links[(v, w)])
  {
    var c, f := PortFacing(net, v, u).cfg, At(s, u, v, 0).frame;
    assert ValidSwitch(net, v);
    if Ingress(c, f).Some? {
      CrossingIff(c, c, f, VlanOf(Ingress(c, f).value));
    }
  }

  /** A station passes nothing on; what it takes in is untagged, and for it or for everyone. */
  lemma StationsEnd(net: Net, caching: bool, s: State, u: nat, v: nat, w: nat)
    requires Shape(net, s) && Enabled(net, s, Deliver(u, v)) && IsStation(net, v) && Adj(net.tree, v, w)
    ensures var s', m := Step(net, caching, s, Deliver(u, v)), At(s, u, v, 0);
      && (w != u ==> s'.links[(v, w)] == s.links[(v, w)]) && s'.tables == s.tables
      && s'.accepted == s.accepted +
           if m.frame.tag == None && (m.frame.dst == net.nodes[v].mac || m.frame.dst == BROADCAST) then {(m.id, v)}
           else {}
  {
    RoutedAccepts(ROUTED, net.nodes[v].mac, At(s, u, v, 0).frame);
  }

  /** Where a frame in flight after a delivery comes from: it was there, or it is a new copy. */
  lemma AfterDeliver(net: Net, caching: bool, s: State, u: nat, v: nat, a: nat, b: nat, i: nat)
    requires Shape(net, s) && Enabled(net, s, Deliver(u, v))
    requires Flight(Step(net, caching, s, Deliver(u, v)), a, b, i)
    ensures var m := At(Step(net, caching, s, Deliver(u, v)), a, b, i);
      || ((a, b) == (u, v) && Flight(s, a, b, i + 1) && At(s, a, b, i + 1) == m)
      || ((a, b) != (u, v) && Flight(s, a, b, i) && At(s, a, b, i) == m)
      || (a == v && IsSwitch(net, v) && Adj(net.tree, v, b) && Copies(net, caching, s, u, v, b) == [m]
          && i == |s.links[(a, b)]|)
  {
  }
}
