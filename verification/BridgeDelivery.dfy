/** Which stations get a frame: exactly its addressees in the VLAN it was sent in. */
module BridgeDelivery {
  import opened Wrappers
  import opened MacTable
  import opened Interface
  import opened Ethernet
  import opened Tree
  import opened Bridge
  import opened BridgeLifetime
  import opened BridgeCache
  import opened VlanIsolation

  /** Every port between two switches is a trunk that carries `vlan`. */
  ghost predicate TrunksCarry(net: Net, vlan: Vlan)
    requires ValidNet(net)
  {
    && 1 <= vlan < 4096
    && forall v: nat, w: nat :: IsSwitch(net, v) && IsSwitch(net, w) && Adj(net.tree, v, w) ==>
         TrunkMember(PortFacing(net, v, w).cfg, vlan)
  }

  /** Station `x` is on the segment `vlan`: by the ACCESS port it hangs off, or on a link without a switch. */
  ghost predicate OnSegment(net: Net, vlan: Vlan, x: nat)
    requires ValidNet(net)
  {
    IsStation(net, x) && forall y: nat :: Adj(net.tree, x, y) ==> IsStation(net, y) || InVlan(net, x, y, vlan)
  }

  ghost predicate Addressed(net: Net, x: nat, f: Frame) {
    IsStation(net, x) && (f.dst == BROADCAST || Owns(net, x, f.dst))
  }

  /** A frame of `vlan` on the link from `u` to `v`: tagged between switches, untagged at a station. */
  ghost predicate DressedFor(net: Net, u: nat, v: nat, f: Frame, vlan: Vlan)
    requires ValidNet(net) && 1 <= vlan < 4096
  {
    && f.tag == (if IsSwitch(net, u) && IsSwitch(net, v) then Some(vlan) else None)
    && (IsStation(net, u) && IsSwitch(net, v) ==> InVlan(net, u, v, vlan))
  }

  /** A switch passes a frame of `vlan` on to every other switch and every station of the segment. */
  lemma PassedOn(net: Net, vlan: Vlan, u: nat, v: nat, w: nat, f: Frame)
    requires VlanDesign(net) && TrunksCarry(net, vlan) && DressedFor(net, u, v, f, vlan)
    requires Adj(net.tree, u, v) && IsSwitch(net, v) && Adj(net.tree, v, w) && w != u
    requires IsSwitch(net, w) || OnSegment(net, vlan, w)
    ensures var g := FloodCopy(net, u, v, f, w);
      g.Some? && g.value.dst == f.dst && DressedFor(net, v, w, g.value, vlan)
  {
    FacingApart(net, v, w, u);
    assert ValidSwitch(net, v);
    var p, q := PortFacing(net, v, u).cfg, PortFacing(net, v, w).cfg;
    assert IsSwitch(net, u) || InVlan(net, u, v, vlan);
    assert IsSwitch(net, w) || InVlan(net, w, v, vlan);
    CrossingIff(p, q, f, vlan);
  }

  lemma StationEnds(net: Net, u: nat, v: nat, x: nat)
    requires ValidNet(net) && Adj(net.tree, u, v) && IsStation(net, v) && Beyond(net.tree, u, v, x)
    ensures x == v
  {
    LinkSplits(net.tree, u, v, x);
    if x != v {
      assert Adj(net.tree, v, Toward(net.tree, v, x)) && Adj(net.tree, v, u);
    }
  }

  /** Flooding reaches every addressee of the segment ahead. */
  lemma {:induction false} FloodReaches(net: Net, vlan: Vlan, u: nat, v: nat, f: Frame, x: nat)
    requires VlanDesign(net) && TrunksCarry(net, vlan)
    requires Adj(net.tree, u, v) && Beyond(net.tree, u, v, x)
    requires Addressed(net, x, f) && OnSegment(net, vlan, x) && DressedFor(net, u, v, f, vlan)
    ensures x in FloodArrives(net, u, v, f)
    decreases Reach(net.tree, u, v)
  {
    if IsStation(net, v) {
      StationEnds(net, u, v, x);
    } else {
      assert ValidSwitch(net, v);
      var w := Toward(net.tree, v, x);
      LinkSplits(net.tree, u, v, x);
      if IsStation(net, w) {
        StationEnds(net, v, w, x);
      }
      PassedOn(net, vlan, u, v, w, f);
      FloodReaches(net, vlan, v, w, FloodCopy(net, u, v, f, w).value, x);
    }
  }

  /** Frames come from stations, with their MAC, and are not addressed to their sender. */
  ghost predicate OriginsInNet(net: Net, s: State) {
    forall k :: k in s.injected ==>
      && IsStation(net, s.injected[k].host) && Adj(net.tree, s.injected[k].host, s.injected[k].via)
      && s.injected[k].frame.src == net.nodes[s.injected[k].host].mac != s.injected[k].frame.dst
  }

  lemma {:induction false} RunOrigins(net: Net, caching: bool, evs: seq<Event>)
    requires ValidNet(net)
    ensures OriginsInNet(net, Run(net, caching, evs))
  {
    if evs == [] {
      assert Run(net, caching, evs) == Start(net);
    } else {
      var front, last := evs[..|evs| - 1], evs[|evs| - 1];
      RunOrigins(net, caching, front);
      var s := Run(net, caching, front);
      assert OriginsInNet(net, Step(net, caching, s, last));
    }
  }

  /** A station hangs off one port only. */
  lemma OneVlanEach(net: Net, vlan: Vlan, x: nat, y: nat)
    requires ValidNet(net) && IsStation(net, x) && InVlan(net, x, y, vlan)
    ensures OnSegment(net, vlan, x)
  {
    assert Adj(net.tree, x, y);
    forall z: nat | Adj(net.tree, x, z) ensures InVlan(net, x, z, vlan) {
      assert z == y;
    }
  }

  lemma TwoStations(net: Net, vlan: Vlan, x: nat, y: nat)
    requires ValidNet(net) && IsStation(net, x) && IsStation(net, y) && Adj(net.tree, y, x)
    ensures OnSegment(net, vlan, x)
  {
    assert Adj(net.tree, x, y);
    forall z: nat | Adj(net.tree, x, z) ensures IsStation(net, z) {
      assert z == y;
    }
  }

  /** On a link without a switch the other end hears a frame. */
  lemma FarEndHears(net: Net, vlan: Vlan, caching: bool, evs: seq<Event>, id: nat, x: nat)
    requires ValidNet(net) && id in Run(net, caching, evs).injected
    requires (id, x) in Run(net, caching, evs).accepted
    ensures var org := Run(net, caching, evs).injected[id];
      IsStation(net, org.host) && IsStation(net, org.via) ==> OnSegment(net, vlan, x)
  {
    RunConserves(net, caching, evs, id, x);
    var org := Run(net, caching, evs).injected[id];
    assert Gets(net, Run(net, caching, evs), id, x);
    if IsStation(net, org.host) && IsStation(net, org.via) {
      assert x == org.via;
      TwoStations(net, vlan, x, org.host);
    }
  }

  /** Who accepts a frame is on the segment of its sender. */
  lemma AcceptedOnSegment(net: Net, vlan: Vlan, caching: bool, evs: seq<Event>, id: nat, x: nat)
    requires VlanDesign(net) && id in Run(net, caching, evs).injected
    requires OnSegment(net, vlan, Run(net, caching, evs).injected[id].host)
    requires (id, x) in Run(net, caching, evs).accepted
    ensures OnSegment(net, vlan, x)
  {
    var org := Run(net, caching, evs).injected[id];
    RunOrigins(net, caching, evs);
    if IsStation(net, org.via) {
      FarEndHears(net, vlan, caching, evs, id, x);
    } else {
      OnlyTheAddressee(net, caching, evs, id, x);
      VlansStayApart(net, caching, evs);
      assert AcceptedApart(net, Run(net, caching, evs), id, x);
      var y: nat :| InVlan(net, x, y, vlan);
      OneVlanEach(net, vlan, x, y);
    }
  }

  /**
   * Delivery: once nothing is in flight, an untagged frame has been accepted by its addressees
   * on the segment of its sender, the sender excepted, and by nobody else, whatever VLANs the
   * other ports are in, whatever else was sent, and whatever the switches had learned.
   */
  lemma LanDelivers(net: Net, vlan: Vlan, caching: bool, evs: seq<Event>, id: nat, x: nat)
    requires VlanDesign(net) && TrunksCarry(net, vlan)
    requires id in Run(net, caching, evs).injected && Quiet(Run(net, caching, evs))
    requires var org := Run(net, caching, evs).injected[id];
      OnSegment(net, vlan, org.host) && org.frame.tag == None
    ensures var org := Run(net, caching, evs).injected[id];
      (id, x) in Run(net, caching, evs).accepted <==>
      Addressed(net, x, org.frame) && x != org.host && OnSegment(net, vlan, x)
  {
    var org := Run(net, caching, evs).injected[id];
    RunOrigins(net, caching, evs);
    if (id, x) in Run(net, caching, evs).accepted {
      OnlyTheAddressee(net, caching, evs, id, x);
      AcceptedOnSegment(net, vlan, caching, evs, id, x);
    } else if Addressed(net, x, org.frame) && x != org.host && OnSegment(net, vlan, x) {
      AcceptedWhenQuiet(net, caching, evs, id, x);
      assert Beyond(net.tree, org.host, org.via, x);
      FloodReaches(net, vlan, org.host, org.via, org.frame, x);
    }
  }
}
