/**
 * The learning table is only a cache: which stations accept a frame does not depend on it.
 *
 * The reference is `FloodArrives`, a function of the topology and the port configurations
 * alone. What a run has accepted and what its frames in flight would still reach by
 * flooding always adds up to it.
 */
module BridgeCache {
  import opened Wrappers
  import opened MacTable
  import opened Ethernet
  import opened Switch
  import opened Tree
  import opened Bridge
  import opened BridgeLearning
  import opened BridgeLifetime

  /** The copy an always-flooding switch `v` sends on to `w`. */
  ghost function FloodCopy(net: Net, u: nat, v: nat, f: Frame, w: nat): Option<Frame>
    requires ValidNet(net) && IsSwitch(net, v) && Adj(net.tree, v, u)
  {
    if Adj(net.tree, v, w) && w != u then Relayed(net, [], u, v, f, w) else None
  }

  /** The stations that accept a frame on the link from `u` to `v` if every switch floods. */
  ghost function FloodArrives(net: Net, u: nat, v: nat, f: Frame): set<nat>
    requires ValidNet(net) && Adj(net.tree, u, v)
    decreases Reach(net.tree, u, v)
  {
    if IsStation(net, v) then if Accepts(net, v, f) then {v} else {}
    else set w, x | w in net.nodes[v].nbrs && FloodCopy(net, u, v, f, w).Some?
                    && x in FloodArrives(net, v, w, FloodCopy(net, u, v, f, w).value) :: x
  }

  /** Flooding reaches stations ahead only, and those the frame is addressed to. */
  lemma {:induction false} FloodAhead(net: Net, u: nat, v: nat, f: Frame, x: nat)
    requires ValidNet(net) && Adj(net.tree, u, v) && x in FloodArrives(net, u, v, f)
    ensures IsStation(net, x) && Beyond(net.tree, u, v, x)
    ensures f.dst == BROADCAST || Owns(net, x, f.dst)
    decreases Reach(net.tree, u, v)
  {
    if IsStation(net, v) {
      LinkSplits(net.tree, u, v, v);
    } else {
      assert ValidSwitch(net, v);
      var w :| w in net.nodes[v].nbrs && FloodCopy(net, u, v, f, w).Some?
               && x in FloodArrives(net, v, w, FloodCopy(net, u, v, f, w).value);
      var g := FloodCopy(net, u, v, f, w).value;
      RelayedKeepsTheFrame(net, [], u, v, f, w);
      FloodAhead(net, v, w, g, x);
      BeyondShrinks(net.tree, u, v, w, x);
    }
  }

  lemma RelayedKeepsTheFrame(net: Net, es: seq<MacEntry>, u: nat, v: nat, f: Frame, w: nat)
    requires ValidNet(net) && IsSwitch(net, v) && Adj(net.tree, v, u) && Adj(net.tree, v, w)
    requires Relayed(net, es, u, v, f, w).Some?
    ensures var g := Relayed(net, es, u, v, f, w).value;
      g == f.(tag := g.tag) && Ingress(PortFacing(net, v, u).cfg, f).Some?
  {
    PortsKeepTheFrame(PortFacing(net, v, u).cfg, f);
    PortsKeepTheFrame(PortFacing(net, v, w).cfg, Ingress(PortFacing(net, v, u).cfg, f).value);
  }

  /** What a switch sends on a port, it would also have sent by flooding. */
  lemma CopyIsFloodCopy(net: Net, caching: bool, s: State, u: nat, v: nat, w: nat)
    requires Inv(net, caching, s) && Enabled(net, s, Deliver(u, v))
    requires IsSwitch(net, v) && Adj(net.tree, v, w) && Copies(net, caching, s, u, v, w) != []
    ensures var m := At(s, u, v, 0);
      var g := FloodCopy(net, u, v, m.frame, w);
      g.Some? && Copies(net, caching, s, u, v, w) == [Msg(m.id, g.value)]
  {
    NeverBack(net, caching, s, u, v, w);
    FacingApart(net, v, w, u);
  }

  lemma FacingApart(net: Net, v: nat, w: nat, u: nat)
    requires ValidNet(net) && IsSwitch(net, v) && Adj(net.tree, v, w) && Adj(net.tree, v, u) && w != u
    ensures Facing(net, v, w) != Facing(net, v, u)
  {
  }

  /** A flooded copy that would reach a station is sent by a learning switch too. */
  lemma FloodCopyIsSent(net: Net, caching: bool, s: State, u: nat, v: nat, w: nat, x: nat)
    requires Inv(net, caching, s) && Enabled(net, s, Deliver(u, v)) && IsSwitch(net, v)
    requires var g := FloodCopy(net, u, v, At(s, u, v, 0).frame, w);
      g.Some? && x in FloodArrives(net, v, w, g.value)
    ensures Adj(net.tree, v, w) && Copies(net, caching, s, u, v, w) != []
  {
    var f := At(s, u, v, 0).frame;
    if caching {
      assert Away(net, s, u, v, 0) && TableSound(net, s, v);
      TableStep(net, true, s, u, v, f.dst);
      RelayedKeepsTheFrame(net, [], u, v, f, w);
      var es := TableAfter(net, s.tables[v], u, v, f);
      FloodAhead(net, v, w, FloodCopy(net, u, v, f, w).value, x);
      if !Floods(es, f) {
        var o: nat :| Points(net, s, v, f.dst, o);
        assert x == o;
        NamedPort(net, v, w);
      }
      PortsKeepTheFrame(PortFacing(net, v, u).cfg, f);
    }
  }

  /** Looking up the name of a port finds that port. */
  lemma NamedPort(net: Net, v: nat, w: nat)
    requires ValidNet(net) && IsSwitch(net, v) && Adj(net.tree, v, w)
    ensures PortByName(net.nodes[v].ports, PortFacing(net, v, w).name) == Some(Facing(net, v, w))
  {
    assert ValidSwitch(net, v);
  }

  // ----- conservation

  ghost predicate PendingAt(net: Net, s: State, id: nat, x: nat, a: nat, b: nat, i: nat)
    requires Shape(net, s)
  {
    Flight(s, a, b, i) && Adj(net.tree, a, b) && At(s, a, b, i).id == id
    && x in FloodArrives(net, a, b, At(s, a, b, i).frame)
  }

  /** Station `x` has accepted the frame, or a copy in flight would reach it by flooding. */
  ghost predicate Gets(net: Net, s: State, id: nat, x: nat)
    requires Shape(net, s)
  {
    (id, x) in s.accepted || exists a: nat, b: nat, i: nat :: PendingAt(net, s, id, x, a, b, i)
  }

  lemma HeadPassesOn(net: Net, caching: bool, s: State, u: nat, v: nat, x: nat)
    requires Inv(net, caching, s) && Enabled(net, s, Deliver(u, v)) && IsSwitch(net, v)
    requires x in FloodArrives(net, u, v, At(s, u, v, 0).frame)
    ensures Gets(net, Step(net, caching, s, Deliver(u, v)), At(s, u, v, 0).id, x)
  {
    var f := At(s, u, v, 0).frame;
    var w :| w in net.nodes[v].nbrs && FloodCopy(net, u, v, f, w).Some?
             && x in FloodArrives(net, v, w, FloodCopy(net, u, v, f, w).value);
    FloodCopyIsSent(net, caching, s, u, v, w, x);
    CopyIsFloodCopy(net, caching, s, u, v, w);
    var s' := Step(net, caching, s, Deliver(u, v));
    assert PendingAt(net, s', At(s, u, v, 0).id, x, v, w, |s.links[(v, w)]|);
  }

  lemma StillPending(net: Net, caching: bool, s: State, u: nat, v: nat, id: nat, x: nat, a: nat, b: nat, i: nat)
    requires Inv(net, caching, s) && Enabled(net, s, Deliver(u, v))
    requires PendingAt(net, s, id, x, a, b, i) && (a, b, i) != (u, v, 0)
    ensures Gets(net, Step(net, caching, s, Deliver(u, v)), id, x)
  {
    var s' := Step(net, caching, s, Deliver(u, v));
    var k := if (a, b) == (u, v) then i - 1 else i;
    assert At(s', a, b, k) == At(s, a, b, i);
    assert PendingAt(net, s', id, x, a, b, k);
  }

  lemma DeliverLosesNothing(net: Net, caching: bool, s: State, u: nat, v: nat, id: nat, x: nat)
    requires Inv(net, caching, s) && Enabled(net, s, Deliver(u, v)) && Gets(net, s, id, x)
    ensures Gets(net, Step(net, caching, s, Deliver(u, v)), id, x)
  {
    if (id, x) !in s.accepted {
      var a: nat, b: nat, i: nat :| PendingAt(net, s, id, x, a, b, i);
      if (a, b, i) != (u, v, 0) {
        StillPending(net, caching, s, u, v, id, x, a, b, i);
      } else if IsSwitch(net, v) {
        HeadPassesOn(net, caching, s, u, v, x);
      }
    }
  }

  lemma DeliverAddsNothing(net: Net, caching: bool, s: State, u: nat, v: nat, id: nat, x: nat)
    requires Inv(net, caching, s) && Enabled(net, s, Deliver(u, v))
    requires Gets(net, Step(net, caching, s, Deliver(u, v)), id, x)
    ensures Gets(net, s, id, x)
  {
    var s' := Step(net, caching, s, Deliver(u, v));
    if (id, x) in s'.accepted {
      if (id, x) !in s.accepted {
        assert PendingAt(net, s, id, x, u, v, 0);
      }
    } else {
      var a: nat, b: nat, i: nat :| PendingAt(net, s', id, x, a, b, i);
      AfterDeliver(net, caching, s, u, v, a, b, i);
      if a == v && i == |s.links[(a, b)]| {
        CopyIsFloodCopy(net, caching, s, u, v, b);
        assert ValidSwitch(net, v) && b in net.nodes[v].nbrs;
        assert PendingAt(net, s, id, x, u, v, 0);
      } else {
        assert PendingAt(net, s, id, x, a, b, if (a, b) == (u, v) then i + 1 else i);
      }
    }
  }

  lemma InjectStarts(net: Net, caching: bool, s: State, id: nat, org: Origin, x: nat)
    requires Inv(net, caching, s) && Once(net, s) && Enabled(net, s, Inject(id, org))
    ensures Gets(net, Step(net, caching, s, Inject(id, org)), id, x) <==>
            x in FloodArrives(net, org.host, org.via, org.frame)
  {
    var s' := Step(net, caching, s, Inject(id, org));
    var l := (org.host, org.via);
    if x in FloodArrives(net, org.host, org.via, org.frame) {
      assert PendingAt(net, s', id, x, org.host, org.via, |s.links[l]|);
    }
    if Gets(net, s', id, x) {
      var a: nat, b: nat, i: nat :| PendingAt(net, s', id, x, a, b, i);
      assert Flight(s, a, b, i) ==> Away(net, s, a, b, i);
    }
  }

  lemma InjectKeepsOthers(net: Net, caching: bool, s: State, id: nat, org: Origin, k: nat, x: nat)
    requires Inv(net, caching, s) && Enabled(net, s, Inject(id, org)) && k != id
    ensures Gets(net, Step(net, caching, s, Inject(id, org)), k, x) <==> Gets(net, s, k, x)
  {
    var s' := Step(net, caching, s, Inject(id, org));
    if (k, x) !in s.accepted {
      if Gets(net, s, k, x) {
        var a: nat, b: nat, i: nat :| PendingAt(net, s, k, x, a, b, i);
        assert At(s', a, b, i) == At(s, a, b, i);
        assert PendingAt(net, s', k, x, a, b, i);
      }
      if Gets(net, s', k, x) {
        var a: nat, b: nat, i: nat :| PendingAt(net, s', k, x, a, b, i);
        assert Flight(s, a, b, i) && At(s', a, b, i) == At(s, a, b, i);
        assert PendingAt(net, s, k, x, a, b, i);
      }
    }
  }

  /** At every point of every run, accepted and still to come add up to what flooding reaches. */
  lemma {:induction false} RunConserves(net: Net, caching: bool, evs: seq<Event>, id: nat, x: nat)
    requires ValidNet(net) && id in Run(net, caching, evs).injected
    ensures var org := Run(net, caching, evs).injected[id];
      Adj(net.tree, org.host, org.via) &&
      (Gets(net, Run(net, caching, evs), id, x) <==> x in FloodArrives(net, org.host, org.via, org.frame))
  {
    if evs == [] {
    } else {
      var front, last := evs[..|evs| - 1], evs[|evs| - 1];
      var s := Run(net, caching, front);
      RunOnce(net, caching, front);
      if id in s.injected {
        RunConserves(net, caching, front, id, x);
      }
      if Enabled(net, s, last) {
        match last
        case Inject(k, org) =>
          if k == id {
            InjectStarts(net, caching, s, k, org, x);
          } else {
            InjectKeepsOthers(net, caching, s, k, org, id, x);
          }
        case Deliver(u, v) =>
          if Gets(net, s, id, x) {
            DeliverLosesNothing(net, caching, s, u, v, id, x);
          } else if Gets(net, Step(net, caching, s, last), id, x) {
            DeliverAddsNothing(net, caching, s, u, v, id, x);
          }
      }
    }
  }

  /** Once nothing is in flight, a frame was accepted by exactly the stations flooding reaches. */
  lemma AcceptedWhenQuiet(net: Net, caching: bool, evs: seq<Event>, id: nat, x: nat)
    requires ValidNet(net) && id in Run(net, caching, evs).injected && Quiet(Run(net, caching, evs))
    ensures var org := Run(net, caching, evs).injected[id];
      Adj(net.tree, org.host, org.via) &&
      ((id, x) in Run(net, caching, evs).accepted <==> x in FloodArrives(net, org.host, org.via, org.frame))
  {
    RunConserves(net, caching, evs, id, x);
    var s := Run(net, caching, evs);
    forall a: nat, b: nat, i: nat | PendingAt(net, s, id, x, a, b, i) ensures false {
      assert Flight(s, a, b, 0);
    }
  }

  /**
   * Caching is invisible: in a learning network and in an always-flooding one, whatever else
   * was sent and however it was interleaved, the same frame ends up at the same stations.
   */
  lemma CachingIsInvisible(net: Net, learning: seq<Event>, flooding: seq<Event>, i: nat, j: nat, x: nat)
    requires ValidNet(net)
    requires Quiet(Run(net, true, learning)) && Quiet(Run(net, false, flooding))
    requires i in Run(net, true, learning).injected && j in Run(net, false, flooding).injected
    requires Run(net, true, learning).injected[i] == Run(net, false, flooding).injected[j]
    ensures (i, x) in Run(net, true, learning).accepted <==> (j, x) in Run(net, false, flooding).accepted
  {
    AcceptedWhenQuiet(net, true, learning, i, x);
    AcceptedWhenQuiet(net, false, flooding, j, x);
  }

  /** At any time, who has accepted a frame is another station, the addressee unless it is a broadcast. */
  lemma OnlyTheAddressee(net: Net, caching: bool, evs: seq<Event>, id: nat, x: nat)
    requires ValidNet(net) && id in Run(net, caching, evs).injected && (id, x) in Run(net, caching, evs).accepted
    ensures var org := Run(net, caching, evs).injected[id];
      IsStation(net, x) && x != org.host && (org.frame.dst == BROADCAST || Owns(net, x, org.frame.dst))
  {
    RunConserves(net, caching, evs, id, x);
    var org := Run(net, caching, evs).injected[id];
    FloodAhead(net, org.host, org.via, org.frame, x);
  }
}
