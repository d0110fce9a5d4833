/**
 * VLANs stay apart over every run, although the learning tables do not know about VLANs.
 */
module VlanIsolation {
  import opened Wrappers
  import opened Interface
  import opened Ethernet
  import opened Tree
  import opened Bridge

  /** ACCESS ports face stations only, and their VLANs are real ones. */
  ghost predicate VlanDesign(net: Net) {
    && ValidNet(net)
    && forall v: nat, w: nat :: IsSwitch(net, v) && Adj(net.tree, v, w) && PortFacing(net, v, w).cfg.mode == Access ==>
         IsStation(net, w) && 1 <= AccessVlan(PortFacing(net, v, w).cfg) < 4096
  }

  /** Station `x` hangs off an ACCESS port of `vlan`. */
  ghost predicate InVlan(net: Net, x: nat, y: nat, vlan: Vlan)
    requires ValidNet(net)
  {
    && IsSwitch(net, y) && Adj(net.tree, y, x)
    && PortFacing(net, y, x).cfg.mode == Access && AccessVlan(PortFacing(net, y, x).cfg) == vlan
  }

  /** How a frame of `vlan` looks on the wire out of switch `a` to `b`. */
  ghost predicate OnWire(net: Net, a: nat, b: nat, f: Frame, vlan: Vlan)
    requires ValidNet(net) && IsSwitch(net, a) && Adj(net.tree, a, b)
  {
    var c := PortFacing(net, a, b).cfg;
    || (c.mode == Trunk && vlan < 4096 && f.tag == Some(vlan))
    || (c.mode == Access && AccessVlan(c) == vlan && f.tag == None)
  }

  /** A copy is on its first link, or it looks as its VLAN demands. */
  ghost predicate Separate(net: Net, s: State, a: nat, b: nat, i: nat)
    requires Shape(net, s) && Flight(s, a, b, i) && At(s, a, b, i).id in s.injected && Adj(net.tree, a, b)
  {
    var org := s.injected[At(s, a, b, i).id];
    forall vlan: Vlan :: InVlan(net, org.host, org.via, vlan) ==>
      (a == org.host && b == org.via) || (IsSwitch(net, a) && OnWire(net, a, b, At(s, a, b, i).frame, vlan))
  }

  /** A station accepts frames of the VLAN it is in only. */
  ghost predicate AcceptedApart(net: Net, s: State, id: nat, x: nat)
    requires Shape(net, s) && id in s.injected
  {
    var org := s.injected[id];
    forall vlan: Vlan :: InVlan(net, org.host, org.via, vlan) ==> exists y: nat :: InVlan(net, x, y, vlan)
  }

  ghost predicate Isolated(net: Net, s: State) {
    && Shape(net, s)
    && (forall a: nat, b: nat, i: nat :: Flight(s, a, b, i) ==>
          At(s, a, b, i).id in s.injected && Adj(net.tree, a, b) && Separate(net, s, a, b, i))
    && (forall p :: p in s.accepted ==> p.0 in s.injected && AcceptedApart(net, s, p.0, p.1))
  }

  /** Inside a switch, a frame of a VLAN carries that VLAN's tag. */
  lemma TaggedInside(net: Net, s: State, u: nat, v: nat, vlan: Vlan)
    requires VlanDesign(net) && Isolated(net, s) && Enabled(net, s, Deliver(u, v)) && IsSwitch(net, v)
    requires var org := s.injected[At(s, u, v, 0).id];
      InVlan(net, org.host, org.via, vlan)
    requires Ingress(PortFacing(net, v, u).cfg, At(s, u, v, 0).frame).Some?
    ensures vlan < 4096 && Ingress(PortFacing(net, v, u).cfg, At(s, u, v, 0).frame).value.tag == Some(vlan)
  {
    assert Separate(net, s, u, v, 0);
  }

  lemma CopyOnWire(net: Net, caching: bool, s: State, u: nat, v: nat, w: nat, vlan: Vlan)
    requires VlanDesign(net) && Isolated(net, s) && Enabled(net, s, Deliver(u, v)) && IsSwitch(net, v)
    requires Adj(net.tree, v, w) && Copies(net, caching, s, u, v, w) != []
    requires var org := s.injected[At(s, u, v, 0).id];
      InVlan(net, org.host, org.via, vlan)
    ensures OnWire(net, v, w, Copies(net, caching, s, u, v, w)[0].frame, vlan)
  {
    TaggedInside(net, s, u, v, vlan);
  }

  lemma DeliverIsolates(net: Net, caching: bool, s: State, u: nat, v: nat)
    requires VlanDesign(net) && Isolated(net, s) && Enabled(net, s, Deliver(u, v))
    ensures Isolated(net, Step(net, caching, s, Deliver(u, v)))
  {
    var s' := Step(net, caching, s, Deliver(u, v));
    forall a: nat, b: nat, i: nat | Flight(s', a, b, i)
      ensures At(s', a, b, i).id in s'.injected && Adj(net.tree, a, b) && Separate(net, s', a, b, i)
    {
      AfterDeliver(net, caching, s, u, v, a, b, i);
      if a == v && i == |s.links[(a, b)]| {
        var org := s.injected[At(s, u, v, 0).id];
        forall vlan: Vlan | InVlan(net, org.host, org.via, vlan)
          ensures OnWire(net, a, b, At(s', a, b, i).frame, vlan)
        {
          CopyOnWire(net, caching, s, u, v, b, vlan);
        }
      } else {
        assert Separate(net, s, a, b, if (a, b) == (u, v) then i + 1 else i);
      }
    }
    var m := At(s, u, v, 0);
    assert Separate(net, s, u, v, 0);
    if IsStation(net, v) && Accepts(net, v, m.frame) {
      var org := s.injected[m.id];
      forall vlan: Vlan | InVlan(net, org.host, org.via, vlan) ensures exists y: nat :: InVlan(net, v, y, vlan) {
        assert InVlan(net, v, u, vlan);
      }
    }
    forall p | p in s'.accepted ensures p.0 in s'.injected && AcceptedApart(net, s', p.0, p.1) {
      assert p in s.accepted ==> AcceptedApart(net, s, p.0, p.1);
    }
  }

  lemma InjectIsolates(net: Net, caching: bool, s: State, id: nat, org: Origin)
    requires VlanDesign(net) && Isolated(net, s) && Enabled(net, s, Inject(id, org))
    ensures Isolated(net, Step(net, caching, s, Inject(id, org)))
  {
    var s' := Step(net, caching, s, Inject(id, org));
    forall a: nat, b: nat, i: nat | Flight(s', a, b, i)
      ensures At(s', a, b, i).id in s'.injected && Adj(net.tree, a, b) && Separate(net, s', a, b, i)
    {
      if Flight(s, a, b, i) {
        assert At(s', a, b, i) == At(s, a, b, i) && Separate(net, s, a, b, i);
      }
    }
    forall p | p in s'.accepted ensures p.0 in s'.injected && AcceptedApart(net, s', p.0, p.1) {
      assert AcceptedApart(net, s, p.0, p.1);
    }
  }

  /**
   * Over every run, of a frame that entered on an ACCESS port of `vlan`: every copy on a trunk
   * carries that tag, every copy leaving an ACCESS port is untagged and that port is in
   * `vlan`, and whoever accepts it is on an ACCESS port of `vlan`.
   */
  lemma {:induction false} VlansStayApart(net: Net, caching: bool, evs: seq<Event>)
    requires VlanDesign(net)
    ensures Isolated(net, Run(net, caching, evs))
  {
    if evs == [] {
      forall a: nat, b: nat, i: nat | Flight(Start(net), a, b, i) ensures false {
      }
    } else {
      var front, last := evs[..|evs| - 1], evs[|evs| - 1];
      VlansStayApart(net, caching, front);
      if Enabled(net, Run(net, caching, front), last) {
        match last
        case Inject(id, org) => InjectIsolates(net, caching, Run(net, caching, front), id, org);
        case Deliver(u, v) => DeliverIsolates(net, caching, Run(net, caching, front), u, v);
      }
    }
  }
}
