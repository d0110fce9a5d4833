/**
 * Routers on local networks. Every routed interface is a station of a bridged network, in one
 * of its VLANs, or one end of a plain link; what is sent out of an interface stays there.
 */
module Internet {
  import opened Wrappers
  import opened MacTable
  import opened Prefix
  import opened ArpTable
  import opened ArpProtocol
  import opened Interface
  import opened Layer3
  import opened PacketTrack
  import Ethernet
  import Tree
  import Bridge
  import BridgeLifetime
  import BridgeDelivery
  import VlanIsolation

  /** A segment: the stations of a bridged network that are in one VLAN. */
  datatype Lan = Lan(net: Bridge.Net, vlan: Vlan)

  /** A node and one of its interfaces. */
  type Socket = (nat, nat)

  /** `at` gives the segment of a routed interface, and the station it is there. */
  datatype Inet = Inet(nodes: seq<NodeCfg>, lans: seq<Lan>, at: map<Socket, (nat, nat)>)

  type ArpTables = seq<seq<ArpEntry>>

  // ----- segments

  ghost predicate ValidLan(l: Lan) {
    VlanIsolation.VlanDesign(l.net) && BridgeDelivery.TrunksCarry(l.net, l.vlan)
  }

  ghost predicate InInet(net: Inet, p: Socket) {
    p in net.at && p.0 < |net.nodes| && p.1 < |net.nodes[p.0].intfs| && net.at[p].0 < |net.lans|
  }

  ghost function IntfAt(net: Inet, p: Socket): Intf
    requires InInet(net, p)
  {
    net.nodes[p.0].intfs[p.1]
  }

  ghost function LanOf(net: Inet, p: Socket): Lan
    requires InInet(net, p)
  {
    net.lans[net.at[p].0]
  }

  /** The interface is routed, and it is a station on its segment, with its own MAC. */
  ghost predicate Attached(net: Inet, p: Socket) {
    && InInet(net, p) && ValidLan(LanOf(net, p)) && IntfAt(net, p).addr.Some?
    && BridgeDelivery.OnSegment(LanOf(net, p).net, LanOf(net, p).vlan, net.at[p].1)
    && LanOf(net, p).net.nodes[net.at[p].1].mac == IntfAt(net, p).mac
  }

  /** The interfaces of a node have different names. */
  predicate DistinctNames(cfg: NodeCfg) {
    forall i, j :: 0 <= i < j < |cfg.intfs| ==> cfg.intfs[i].name != cfg.intfs[j].name
  }

  /** Different interfaces are different stations, and no two nodes share a MAC. */
  ghost predicate ToldApart(net: Inet, p: Socket, q: Socket) {
    InInet(net, p) && InInet(net, q) ==>
      && (net.at[p] == net.at[q] ==> p == q)
      && (IntfAt(net, p).mac == IntfAt(net, q).mac ==> p.0 == q.0)
  }

  ghost predicate ValidInet(net: Inet) {
    && (forall n: nat {:trigger DistinctNames(net.nodes[n])} :: n < |net.nodes| ==> DistinctNames(net.nodes[n]))
    && (forall p: Socket {:trigger Attached(net, p)} :: p in net.at ==> Attached(net, p))
    && (forall p: Socket, q: Socket {:trigger ToldApart(net, p, q)} :: ToldApart(net, p, q))
  }

  ghost predicate SameLan(net: Inet, p: Socket, q: Socket) {
    Attached(net, p) && Attached(net, q) && net.at[p].0 == net.at[q].0
  }

  /** A frame sent out of `p` to `mac` is taken by `q`: the MAC's owner, or another hearer of a broadcast. */
  ghost predicate Hears(net: Inet, p: Socket, mac: Mac, q: Socket) {
    SameLan(net, p, q) && (IntfAt(net, q).mac == mac || (mac == BROADCAST && q != p))
  }

  // ----- a segment delivers

  /** A run of the segment of `p` after which a frame from `p` to `mac`, and everything else, has died out. */
  ghost predicate SentOnLan(net: Inet, p: Socket, mac: Mac, evs: seq<Bridge.Event>, id: nat)
    requires Attached(net, p)
  {
    var s := Bridge.Run(LanOf(net, p).net, true, evs);
    && BridgeLifetime.Quiet(s) && id in s.injected && s.injected[id].host == net.at[p].1
    && s.injected[id].frame.dst == mac && s.injected[id].frame.tag == None
  }

  /**
   * A frame can be sent from `p` to `mac`, and whatever the switches had learned and whatever
   * else is sent, it reaches `q`.
   */
  ghost predicate DeliversTo(net: Inet, p: Socket, mac: Mac, q: Socket) {
    && SameLan(net, p, q) && p != q
    && (exists evs: seq<Bridge.Event>, id: nat :: SentOnLan(net, p, mac, evs, id))
    && forall evs: seq<Bridge.Event>, id: nat :: SentOnLan(net, p, mac, evs, id) ==>
         (id, net.at[q].1) in Bridge.Run(LanOf(net, p).net, true, evs).accepted
  }

  lemma LanHears(net: Inet, p: Socket, mac: Mac, q: Socket, evs: seq<Bridge.Event>, id: nat)
    requires ValidInet(net) && SameLan(net, p, q) && SentOnLan(net, p, mac, evs, id)
    ensures (id, net.at[q].1) in Bridge.Run(LanOf(net, p).net, true, evs).accepted <==> Hears(net, p, mac, q)
  {
    var l, x := LanOf(net, p), net.at[q].1;
    assert ToldApart(net, p, q);
    BridgeDelivery.RunOrigins(l.net, true, evs);
    BridgeDelivery.LanDelivers(l.net, l.vlan, true, evs, id, x);
    assert x == net.at[p].1 <==> q == p;
  }

  lemma Above(s: set<nat>) returns (b: nat)
    ensures forall x :: x in s ==> x < b
  {
    if s == {} {
      b := 0;
    } else {
      var x :| x in s;
      var rest := Above(s - {x});
      b := if rest <= x then x + 1 else rest;
      assert forall y :: y in s ==> y == x || y in s - {x};
    }
  }

  /** Any run of a segment can go on with a frame to any MAC but the sender's, until that has died out. */
  lemma SendOnLan(net: Inet, p: Socket, mac: Mac, q: Socket, before: seq<Bridge.Event>)
      returns (evs: seq<Bridge.Event>, id: nat)
    requires ValidInet(net) && SameLan(net, p, q) && p != q && mac != IntfAt(net, p).mac
    ensures before <= evs && SentOnLan(net, p, mac, evs, id)
  {
    var bridged, x := LanOf(net, p).net, net.at[p].1;
    assert ToldApart(net, p, q);
    var s := Bridge.Run(bridged, true, before);
    id := Above(s.injected.Keys);
    var via := Tree.Toward(bridged.tree, x, net.at[q].1);
    var org := Bridge.Origin(x, via, Ethernet.Frame(mac, IntfAt(net, p).mac, None, 0, []));
    var sent := before + [Bridge.Inject(id, org)];
    assert sent[..|sent| - 1] == before;
    assert Bridge.Enabled(bridged, s, Bridge.Inject(id, org));
    evs := BridgeLifetime.Drain(bridged, true, sent, BridgeLifetime.Budget(bridged, true, sent));
  }

  /** The name of an interface, which a frame carries to its node, finds it there. */
  ghost predicate FoundByName(net: Inet, q: Socket) {
    InInet(net, q) && IntfByName(net.nodes[q.0].intfs, IntfAt(net, q).name) == Some(q.1)
  }

  lemma OwnNameFinds(net: Inet, q: Socket)
    requires ValidInet(net) && InInet(net, q)
    ensures FoundByName(net, q)
  {
    assert DistinctNames(net.nodes[q.0]);
  }

  /** An interface hears a frame iff the segment delivers it there, where it is found by its name. */
  lemma HearsIffDelivered(net: Inet, p: Socket, mac: Mac, q: Socket)
    requires ValidInet(net) && Attached(net, p) && mac != IntfAt(net, p).mac
    ensures Hears(net, p, mac, q) <==> DeliversTo(net, p, mac, q) && FoundByName(net, q)
  {
    if SameLan(net, p, q) {
      OwnNameFinds(net, q);
    }
    if SameLan(net, p, q) && p != q {
      var evs, id := SendOnLan(net, p, mac, q, []);
      LanHears(net, p, mac, q, evs, id);
      forall evs': seq<Bridge.Event>, id': nat | SentOnLan(net, p, mac, evs', id') && Hears(net, p, mac, q)
        ensures (id', net.at[q].1) in Bridge.Run(LanOf(net, p).net, true, evs').accepted
      {
        LanHears(net, p, mac, q, evs', id');
      }
    }
  }

  // ----- true ARP tables

  ghost predicate HasAddress(net: Inet, q: Socket, ip: Ip, mac: Mac) {
    Attached(net, q) && IntfAt(net, q).addr.value.ip == ip && IntfAt(net, q).mac == mac
  }

  /** The entry was learned on interface `p` from an interface on the same segment that has its addresses. */
  ghost predicate EntryHeld(net: Inet, e: ArpEntry, p: Socket, q: Socket) {
    SameLan(net, p, q) && IntfAt(net, p).name == e.oif && HasAddress(net, q, e.ip, e.mac)
  }

  /** Every ARP entry but the built-in one is true of the segment it was learned on. */
  ghost predicate ArpTrue(net: Inet, arp: ArpTables) {
    && |arp| == |net.nodes|
    && forall n: nat, e: ArpEntry :: n < |arp| && e in arp[n] && e != INITIAL ==>
         exists i: nat, q: Socket :: EntryHeld(net, e, (n, i), q)
  }

  /** `hs` lists interfaces of the internet, each on its segment. */
  ghost predicate HoldersOf(net: Inet, hs: seq<Holder>) {
    forall k: nat {:trigger IsInterface(net, hs, k)} :: k < |hs| ==> IsInterface(net, hs, k)
  }

  ghost predicate IsInterface(net: Inet, hs: seq<Holder>, k: nat)
    requires k < |hs|
  {
    exists i: nat :: HolderAt(net, hs[k], (hs[k].node, i))
  }

  ghost predicate HolderAt(net: Inet, h: Holder, p: Socket) {
    HasAddress(net, p, h.ip, h.mac) && IntfAt(net, p).name == h.name && net.at[p].0 == h.seg
  }

  /** Whatever ARP has done so far, its tables are true. */
  lemma ArpRunsAreTrue(net: Inet, hs: seq<Holder>, evs: seq<ArpEvent>)
    requires ValidInet(net) && HoldersOf(net, hs)
    ensures ArpTrue(net, ArpRun(hs, |net.nodes|, evs).tables)
  {
    ArpSound(hs, |net.nodes|, evs);
    var arp := ArpRun(hs, |net.nodes|, evs).tables;
    forall n: nat, e: ArpEntry | n < |arp| && e in arp[n] && e != INITIAL
      ensures exists i: nat, q: Socket :: EntryHeld(net, e, (n, i), q)
    {
      assert EntryTrue(hs, n, e);
      var k :| 0 <= k < |hs| && hs[k].node == n && hs[k].name == e.oif && Held(hs, hs[k].seg, e.ip, e.mac);
      var m :| 0 <= m < |hs| && hs[m].seg == hs[k].seg && hs[m].ip == e.ip && hs[m].mac == e.mac;
      assert IsInterface(net, hs, k) && IsInterface(net, hs, m);
      var i: nat :| HolderAt(net, hs[k], (hs[k].node, i));
      var j: nat :| HolderAt(net, hs[m], (hs[m].node, j));
      assert EntryHeld(net, e, (n, i), (hs[m].node, j));
    }
  }

  // ----- from node to node

  datatype Place = Place(node: nat, pkt: Packet)

  /** The next hop resolves, and node `k` takes the frame that goes out of interface `out`. */
  ghost predicate Takes(net: Inet, arp: ArpTables, n: nat, via: Ip, out: nat, k: nat)
    requires n < |arp|
  {
    Resolve(arp[n], via).Some? && exists j: nat :: Hears(net, (n, out), Resolve(arp[n], via).value.mac, (k, j))
  }

  /** One hop: the packet is sent on, and a node on the segment it is sent out to takes it. */
  ghost predicate Hop(net: Inet, arp: ArpTables, a: Place, b: Place)
    requires a.node < |net.nodes| && |arp| == |net.nodes|
  {
    var f := Track(net.nodes[a.node], Promote(a.pkt));
    f.Sent? && b.pkt == f.pkt && Takes(net, arp, a.node, f.via, f.out, b.node)
  }

  /** What the table says of `ip` is the built-in entry, or the MAC of an interface with that address. */
  lemma ResolvedIsHeld(net: Inet, arp: ArpTables, n: nat, ip: Ip) returns (q: Socket)
    requires ValidInet(net) && ArpTrue(net, arp) && n < |arp| && Resolve(arp[n], ip).Some?
    ensures var e := Resolve(arp[n], ip).value;
      e != INITIAL ==> HasAddress(net, q, ip, e.mac) && e.mac != BROADCAST
    ensures Resolve(arp[n], ip).value == INITIAL ==> ip == BROADCAST_IP
  {
    var e := Resolve(arp[n], ip).value;
    assert e in arp[n] && e.ip == ip by {
      assert HasIp(ip)(e);
    }
    q := (0, 0);
    if e != INITIAL {
      var i: nat, r: Socket :| EntryHeld(net, e, (n, i), r);
      q := r;
      assert Attached(net, q);
    }
  }
}
