/**
 * What every reachable state of a bridged tree satisfies: tables point the right way, and
 * every frame in flight moves away from the station that sent it.
 */
module BridgeLearning {
  import opened Wrappers
  import opened MacTable
  import opened Ethernet
  import opened Switch
  import opened Tree
  import opened Bridge

  /** The station that injected the frame `m` is a copy of. */
  ghost function Host(s: State, m: Msg): nat
    requires m.id in s.injected
  {
    s.injected[m.id].host
  }

  /** Node `v` has a table entry for the MAC of station `o`. */
  ghost predicate Known(net: Net, s: State, v: nat, o: nat)
    requires Shape(net, s) && IsSwitch(net, v) && IsStation(net, o)
  {
    PortOf(s.tables[v], net.nodes[o].mac).Some?
  }

  /** The frame carries its sender's MAC, is not addressed to it, and its sender is behind it. */
  ghost predicate Away(net: Net, s: State, a: nat, b: nat, i: nat)
    requires Shape(net, s) && Flight(s, a, b, i)
  {
    var m := At(s, a, b, i);
    && Adj(net.tree, a, b) && m.id in s.injected && IsStation(net, Host(s, m))
    && m.frame.src == net.nodes[Host(s, m)].mac && m.frame.dst != m.frame.src
    && m.frame.dst == s.injected[m.id].frame.dst
    && Beyond(net.tree, b, a, Host(s, m))
  }

  /** The entry of `v` for `mac` names the port toward the station `o`. */
  ghost predicate Points(net: Net, s: State, v: nat, mac: Mac, o: nat)
    requires Shape(net, s) && IsSwitch(net, v)
  {
    Owns(net, o, mac) && PortOf(s.tables[v], mac) == Some(PortFacing(net, v, Toward(net.tree, v, o)).name)
  }

  ghost predicate TableSound(net: Net, s: State, v: nat)
    requires Shape(net, s) && IsSwitch(net, v)
  {
    && UniqueMacs(s.tables[v])
    && forall mac: Mac :: PortOf(s.tables[v], mac).Some? ==> exists o: nat :: Points(net, s, v, mac, o)
  }

  /** If `v` knows station `o`, so does every switch on the way from `v` to `o`. */
  ghost predicate KnownBackward(net: Net, s: State, v: nat, o: nat)
    requires Shape(net, s) && IsSwitch(net, v) && IsStation(net, o)
  {
    var u := Toward(net.tree, v, o);
    Known(net, s, v, o) && u != o ==> IsSwitch(net, u) && Known(net, s, u, o)
  }

  /** The switch that sent a frame on knows the frame's sender. */
  ghost predicate SenderKnown(net: Net, s: State, a: nat, b: nat, i: nat)
    requires Shape(net, s) && Flight(s, a, b, i) && Away(net, s, a, b, i)
  {
    var h := Host(s, At(s, a, b, i));
    a != h ==> IsSwitch(net, a) && Known(net, s, a, h)
  }

  /** A frame moving away from its addressee `o` finds `o` unknown when it arrives. */
  ghost predicate NoTurnBack(net: Net, s: State, a: nat, b: nat, i: nat)
    requires Shape(net, s) && Flight(s, a, b, i) && Away(net, s, a, b, i)
  {
    forall o: nat :: Owns(net, o, At(s, a, b, i).frame.dst) && Beyond(net.tree, b, a, o) && IsSwitch(net, b) ==>
      && !Known(net, s, b, o)
      && forall j: nat :: j < i && At(s, a, b, j).id in s.injected ==> Host(s, At(s, a, b, j)) != o
  }

  ghost predicate Inv(net: Net, caching: bool, s: State) {
    && Shape(net, s)
    && (forall a: nat, b: nat, i: nat :: Flight(s, a, b, i) ==> Away(net, s, a, b, i) && SenderKnown(net, s, a, b, i))
    && (forall v: nat :: IsSwitch(net, v) ==> TableSound(net, s, v))
    && (forall v: nat, o: nat :: IsSwitch(net, v) && IsStation(net, o) ==> KnownBackward(net, s, v, o))
    && (caching ==> forall a: nat, b: nat, i: nat :: Flight(s, a, b, i) ==> NoTurnBack(net, s, a, b, i))
  }

  // ----- one learning step

  /** Learning a station's MAC binds it and touches no other station's entry. */
  lemma LearnsSender(net: Net, es: seq<MacEntry>, h: nat, port: Name, mac: Mac)
    requires ValidNet(net) && IsStation(net, h) && UniqueMacs(es)
    requires PortOf(es, mac).Some? ==> exists o: nat :: Owns(net, o, mac)
    ensures UniqueMacs(Learned(es, net.nodes[h].mac, port))
    ensures PortOf(Learned(es, net.nodes[h].mac, port), mac) ==
            if mac == net.nodes[h].mac then Some(port) else PortOf(es, mac)
  {
    LearnedPort(es, net.nodes[h].mac, port, mac);
  }

  /** What a delivery at switch `v` does to the table entry of `v` for `mac`. */
  lemma TableStep(net: Net, caching: bool, s: State, u: nat, v: nat, mac: Mac)
    requires Inv(net, caching, s) && Enabled(net, s, Deliver(u, v)) && IsSwitch(net, v)
    ensures var m := At(s, u, v, 0);
      var es' := Step(net, caching, s, Deliver(u, v)).tables[v];
      && UniqueMacs(es')
      && PortOf(es', mac) ==
           if mac == m.frame.src && Ingress(PortFacing(net, v, u).cfg, m.frame).Some?
           then Some(PortFacing(net, v, u).name) else PortOf(s.tables[v], mac)
  {
    var m := At(s, u, v, 0);
    assert Away(net, s, u, v, 0) && TableSound(net, s, v);
    if PortOf(s.tables[v], mac).Some? {
      var o: nat :| Points(net, s, v, mac, o);
    }
    LearnsSender(net, s.tables[v], Host(s, m), PortFacing(net, v, u).name, mac);
  }

  lemma DeliverKeepsTables(net: Net, caching: bool, s: State, u: nat, v: nat, x: nat)
    requires Inv(net, caching, s) && Enabled(net, s, Deliver(u, v)) && IsSwitch(net, x)
    ensures TableSound(net, Step(net, caching, s, Deliver(u, v)), x)
  {
    var s' := Step(net, caching, s, Deliver(u, v));
    var m := At(s, u, v, 0);
    var h := Host(s, m);
    assert Away(net, s, u, v, 0) && TableSound(net, s, x);
    if x == v {
      TableStep(net, caching, s, u, v, m.frame.src);
    }
    forall mac: Mac | PortOf(s'.tables[x], mac).Some?
      ensures exists o: nat :: Points(net, s', x, mac, o)
    {
      if x == v {
        TableStep(net, caching, s, u, v, mac);
      }
      if x == v && mac == m.frame.src && Ingress(PortFacing(net, v, u).cfg, m.frame).Some? {
        assert Points(net, s', x, mac, h);
      } else {
        var o: nat :| Points(net, s, x, mac, o);
        assert Points(net, s', x, mac, o);
      }
    }
  }

  lemma DeliverKeepsKnown(net: Net, caching: bool, s: State, u: nat, v: nat, x: nat, o: nat)
    requires Inv(net, caching, s) && Enabled(net, s, Deliver(u, v)) && IsSwitch(net, x) && IsStation(net, o)
    ensures var s' := Step(net, caching, s, Deliver(u, v));
      var m := At(s, u, v, 0);
      m.id in s.injected &&
      (Known(net, s', x, o) <==>
        Known(net, s, x, o) || (x == v && o == Host(s, m) && Ingress(PortFacing(net, v, u).cfg, m.frame).Some?))
  {
    assert Away(net, s, u, v, 0);
    if x == v {
      TableStep(net, caching, s, u, v, net.nodes[o].mac);
    }
  }

  lemma DeliverKeepsBackward(net: Net, caching: bool, s: State, u: nat, v: nat, x: nat, o: nat)
    requires Inv(net, caching, s) && Enabled(net, s, Deliver(u, v)) && IsSwitch(net, x) && IsStation(net, o)
    ensures KnownBackward(net, Step(net, caching, s, Deliver(u, v)), x, o)
  {
    var y := Toward(net.tree, x, o);
    assert KnownBackward(net, s, x, o) && SenderKnown(net, s, u, v, 0) && Away(net, s, u, v, 0);
    DeliverKeepsKnown(net, caching, s, u, v, x, o);
    if IsSwitch(net, y) {
      DeliverKeepsKnown(net, caching, s, u, v, y, o);
    }
  }

  // ----- where a switch sends a frame

  /** A copy is the frame itself, but for its tag. */
  lemma CopyKeepsTheFrame(net: Net, caching: bool, s: State, u: nat, v: nat, w: nat)
    requires Shape(net, s) && Enabled(net, s, Deliver(u, v))
    requires IsSwitch(net, v) && Adj(net.tree, v, w) && Copies(net, caching, s, u, v, w) != []
    ensures Ingress(PortFacing(net, v, u).cfg, At(s, u, v, 0).frame).Some?
    ensures |Copies(net, caching, s, u, v, w)| == 1
    ensures var m, m' := At(s, u, v, 0), Copies(net, caching, s, u, v, w)[0];
      m'.id == m.id && m'.frame == m.frame.(tag := m'.frame.tag)
  {
    var f := At(s, u, v, 0).frame;
    PortsKeepTheFrame(PortFacing(net, v, u).cfg, f);
    var g := Ingress(PortFacing(net, v, u).cfg, f).value;
    PortsKeepTheFrame(PortFacing(net, v, w).cfg, g);
  }

  lemma NamesTellPortsApart(net: Net, v: nat, w: nat, x: nat)
    requires ValidNet(net) && IsSwitch(net, v) && Adj(net.tree, v, w) && Adj(net.tree, v, x)
    requires PortFacing(net, v, w).name == PortFacing(net, v, x).name
    ensures w == x
  {
    assert ValidSwitch(net, v);
  }

  /** The switch's own port names decide: to the port its table names, or to all but the ingress. */
  lemma CopyFollowsTable(net: Net, caching: bool, s: State, u: nat, v: nat, w: nat)
    requires Shape(net, s) && Enabled(net, s, Deliver(u, v))
    requires IsSwitch(net, v) && Adj(net.tree, v, w) && Copies(net, caching, s, u, v, w) != []
    ensures var f := At(s, u, v, 0).frame;
      var es := if caching then TableAfter(net, s.tables[v], u, v, f) else [];
      && (!Floods(es, f) ==> PortFacing(net, v, w).name == PortOf(es, f.dst).value)
      && (Floods(es, f) ==> w != u)
  {
    var f := At(s, u, v, 0).frame;
    var es := if caching then TableAfter(net, s.tables[v], u, v, f) else [];
    var g := Ingress(PortFacing(net, v, u).cfg, f).value;
    PortsKeepTheFrame(PortFacing(net, v, u).cfg, f);
    ForwardedByName(net.nodes[v].ports, es, Facing(net, v, u), g, Facing(net, v, w));
  }

  /** Once a switch knows the addressee, it sends a frame toward it or nowhere. */
  lemma KnownGoesToward(net: Net, s: State, u: nat, v: nat, w: nat, o: nat)
    requires Inv(net, true, s) && Enabled(net, s, Deliver(u, v))
    requires IsSwitch(net, v) && Adj(net.tree, v, w) && Copies(net, true, s, u, v, w) != []
    requires Owns(net, o, At(s, u, v, 0).frame.dst) && Known(net, s, v, o)
    ensures Toward(net.tree, v, o) == w
  {
    var f := At(s, u, v, 0).frame;
    assert Away(net, s, u, v, 0) && TableSound(net, s, v);
    var o': nat :| Points(net, s, v, f.dst, o');
    TableStep(net, true, s, u, v, f.dst);
    CopyFollowsTable(net, true, s, u, v, w);
    NamesTellPortsApart(net, v, w, Toward(net.tree, v, o'));
  }

  /** A copy never goes back where the frame came from. */
  lemma NeverBack(net: Net, caching: bool, s: State, u: nat, v: nat, w: nat)
    requires Inv(net, caching, s) && Enabled(net, s, Deliver(u, v))
    requires IsSwitch(net, v) && Adj(net.tree, v, w) && Copies(net, caching, s, u, v, w) != []
    ensures w != u
  {
    var f := At(s, u, v, 0).frame;
    assert Away(net, s, u, v, 0);
    CopyFollowsTable(net, caching, s, u, v, w);
    if caching {
      TableStep(net, true, s, u, v, f.dst);
      assert TableSound(net, s, v) && NoTurnBack(net, s, u, v, 0);
      if PortOf(s.tables[v], f.dst).Some? {
        var o: nat :| Points(net, s, v, f.dst, o);
        KnownGoesToward(net, s, u, v, w, o);
      }
    }
  }

  lemma DeliverKeepsAway(net: Net, caching: bool, s: State, u: nat, v: nat, a: nat, b: nat, i: nat)
    requires Inv(net, caching, s) && Enabled(net, s, Deliver(u, v))
    requires Flight(Step(net, caching, s, Deliver(u, v)), a, b, i)
    ensures var s' := Step(net, caching, s, Deliver(u, v));
      Away(net, s', a, b, i) && SenderKnown(net, s', a, b, i)
  {
    var s' := Step(net, caching, s, Deliver(u, v));
    AfterDeliver(net, caching, s, u, v, a, b, i);
    var m' := At(s', a, b, i);
    assert Away(net, s, u, v, 0);
    var h := Host(s, At(s, u, v, 0));
    if a == v && i == |s.links[(a, b)]| {
      CopyKeepsTheFrame(net, caching, s, u, v, b);
      NeverBack(net, caching, s, u, v, b);
      LinkSplits(net.tree, v, b, h);
      LinkSplits(net.tree, u, v, h);
      DeliverKeepsKnown(net, caching, s, u, v, v, h);
    } else {
      var k := if (a, b) == (u, v) then i + 1 else i;
      assert Away(net, s, a, b, k) && SenderKnown(net, s, a, b, k);
      if IsSwitch(net, a) {
        DeliverKeepsKnown(net, caching, s, u, v, a, Host(s, m'));
      }
    }
  }

  /** With caching on, a frame already in flight still finds an addressee behind it unknown. */
  lemma DeliverKeepsWaiting(net: Net, s: State, u: nat, v: nat, a: nat, b: nat, i: nat)
    requires Inv(net, true, s) && Enabled(net, s, Deliver(u, v))
    requires Flight(s, a, b, i) && ((a, b) == (u, v) ==> i > 0)
    ensures var s' := Step(net, true, s, Deliver(u, v));
      var k := if (a, b) == (u, v) then i - 1 else i;
      Flight(s', a, b, k) && Away(net, s', a, b, k) && NoTurnBack(net, s', a, b, k)
  {
    var s' := Step(net, true, s, Deliver(u, v));
    var k := if (a, b) == (u, v) then i - 1 else i;
    DeliverKeepsAway(net, true, s, u, v, a, b, k);
    forall o: nat | Owns(net, o, At(s', a, b, k).frame.dst) && Beyond(net.tree, b, a, o) && IsSwitch(net, b)
      ensures !Known(net, s', b, o)
      ensures forall j: nat :: j < k && At(s', a, b, j).id in s'.injected ==> Host(s', At(s', a, b, j)) != o
    {
      StillUnknown(net, s, u, v, a, b, i, o);
      forall j: nat | j < k ensures At(s', a, b, j).id in s'.injected ==> Host(s', At(s', a, b, j)) != o {
        QueueStillWaiting(net, s, u, v, a, b, i, o, j);
      }
    }
  }

  lemma StillUnknown(net: Net, s: State, u: nat, v: nat, a: nat, b: nat, i: nat, o: nat)
    requires Inv(net, true, s) && Enabled(net, s, Deliver(u, v))
    requires Flight(s, a, b, i) && ((a, b) == (u, v) ==> i > 0)
    requires Owns(net, o, At(s, a, b, i).frame.dst) && Beyond(net.tree, b, a, o) && IsSwitch(net, b)
    ensures !Known(net, Step(net, true, s, Deliver(u, v)), b, o)
  {
    assert Away(net, s, a, b, i) && NoTurnBack(net, s, a, b, i) && Away(net, s, u, v, 0);
    DeliverKeepsKnown(net, true, s, u, v, b, o);
  }

  lemma QueueStillWaiting(net: Net, s: State, u: nat, v: nat, a: nat, b: nat, i: nat, o: nat, j: nat)
    requires Inv(net, true, s) && Enabled(net, s, Deliver(u, v))
    requires Flight(s, a, b, i) && Owns(net, o, At(s, a, b, i).frame.dst)
    requires Beyond(net.tree, b, a, o) && IsSwitch(net, b)
    requires if (a, b) == (u, v) then j + 1 < i else j < i
    ensures var s' := Step(net, true, s, Deliver(u, v));
      Flight(s', a, b, j) && (At(s', a, b, j).id in s'.injected ==> Host(s', At(s', a, b, j)) != o)
  {
    assert Away(net, s, a, b, i) && NoTurnBack(net, s, a, b, i);
    var s' := Step(net, true, s, Deliver(u, v));
    assert At(s', a, b, j) == At(s, a, b, if (a, b) == (u, v) then j + 1 else j);
  }

  /** With caching on, a new copy sent away from its addressee finds it unknown at the next switch. */
  lemma NewCopyWaits(net: Net, s: State, u: nat, v: nat, w: nat)
    requires Inv(net, true, s) && Enabled(net, s, Deliver(u, v))
    requires IsSwitch(net, v) && Adj(net.tree, v, w) && Copies(net, true, s, u, v, w) != []
    ensures var s' := Step(net, true, s, Deliver(u, v));
      var k := |s.links[(v, w)]|;
      Flight(s', v, w, k) && Away(net, s', v, w, k) && NoTurnBack(net, s', v, w, k)
  {
    var s' := Step(net, true, s, Deliver(u, v));
    var k := |s.links[(v, w)]|;
    CopyKeepsTheFrame(net, true, s, u, v, w);
    DeliverKeepsAway(net, true, s, u, v, v, w, k);
    assert At(s', v, w, k) == Copies(net, true, s, u, v, w)[0];
    forall o: nat | Owns(net, o, At(s', v, w, k).frame.dst) && Beyond(net.tree, w, v, o) && IsSwitch(net, w)
      ensures !Known(net, s', w, o)
      ensures forall j: nat :: j < k && At(s', v, w, j).id in s'.injected ==> Host(s', At(s', v, w, j)) != o
    {
      AddresseeUnknownAhead(net, s, u, v, w, o);
      DeliverKeepsKnown(net, true, s, u, v, w, o);
      assert forall j: nat :: j < k ==> At(s', v, w, j) == At(s, v, w, j);
    }
  }

  /** Nothing on or beyond the link of such a copy has heard of the addressee. */
  lemma AddresseeUnknownAhead(net: Net, s: State, u: nat, v: nat, w: nat, o: nat)
    requires Inv(net, true, s) && Enabled(net, s, Deliver(u, v))
    requires IsSwitch(net, v) && Adj(net.tree, v, w) && Copies(net, true, s, u, v, w) != []
    requires Owns(net, o, At(s, u, v, 0).frame.dst) && Beyond(net.tree, w, v, o) && IsSwitch(net, w)
    ensures !Known(net, s, w, o)
    ensures forall j: nat :: Flight(s, v, w, j) && At(s, v, w, j).id in s.injected ==> Host(s, At(s, v, w, j)) != o
  {
    if Known(net, s, v, o) {
      KnownGoesToward(net, s, u, v, w, o);
      LinkSplits(net.tree, v, w, o);
      assert false;
    }
    assert KnownBackward(net, s, w, o);
    forall j: nat | Flight(s, v, w, j) && At(s, v, w, j).id in s.injected
      ensures Host(s, At(s, v, w, j)) != o
    {
      assert Away(net, s, v, w, j) && SenderKnown(net, s, v, w, j);
    }
  }

  lemma DeliverKeepsInv(net: Net, caching: bool, s: State, u: nat, v: nat)
    requires Inv(net, caching, s) && Enabled(net, s, Deliver(u, v))
    ensures Inv(net, caching, Step(net, caching, s, Deliver(u, v)))
  {
    var s' := Step(net, caching, s, Deliver(u, v));
    forall a: nat, b: nat, i: nat | Flight(s', a, b, i)
      ensures Away(net, s', a, b, i) && SenderKnown(net, s', a, b, i)
      ensures caching ==> NoTurnBack(net, s', a, b, i)
    {
      DeliverKeepsAway(net, caching, s, u, v, a, b, i);
      if caching {
        AfterDeliver(net, true, s, u, v, a, b, i);
        if a == v && i == |s.links[(a, b)]| {
          NewCopyWaits(net, s, u, v, b);
        } else {
          DeliverKeepsWaiting(net, s, u, v, a, b, if (a, b) == (u, v) then i + 1 else i);
        }
      }
    }
    forall x: nat | IsSwitch(net, x) ensures TableSound(net, s', x) {
      DeliverKeepsTables(net, caching, s, u, v, x);
    }
    forall x: nat, o: nat | IsSwitch(net, x) && IsStation(net, o) ensures KnownBackward(net, s', x, o) {
      DeliverKeepsBackward(net, caching, s, u, v, x, o);
    }
  }

  lemma InjectKeepsInv(net: Net, caching: bool, s: State, id: nat, org: Origin)
    requires Inv(net, caching, s) && Enabled(net, s, Inject(id, org))
    ensures Inv(net, caching, Step(net, caching, s, Inject(id, org)))
  {
    var s' := Step(net, caching, s, Inject(id, org));
    var l := (org.host, org.via);
    forall a: nat, b: nat, i: nat | Flight(s', a, b, i)
      ensures Away(net, s', a, b, i) && SenderKnown(net, s', a, b, i)
      ensures caching ==> NoTurnBack(net, s', a, b, i)
    {
      if (a, b) == l && i == |s.links[l]| {
        LinkSplits(net.tree, org.host, org.via, org.host);
        forall o: nat | Owns(net, o, org.frame.dst) ensures !Beyond(net.tree, org.via, org.host, o) {
          LinkSplits(net.tree, org.host, org.via, o);
        }
      } else {
        assert Flight(s, a, b, i) && At(s, a, b, i) == At(s', a, b, i);
        assert Away(net, s, a, b, i) && SenderKnown(net, s, a, b, i);
        InjectKeepsWaiting(net, caching, s, id, org, a, b, i);
      }
    }
    forall x: nat | IsSwitch(net, x) ensures TableSound(net, s', x) {
      assert TableSound(net, s, x);
      forall mac: Mac | PortOf(s'.tables[x], mac).Some? ensures exists o: nat :: Points(net, s', x, mac, o) {
        var o: nat :| Points(net, s, x, mac, o);
        assert Points(net, s', x, mac, o);
      }
    }
    forall x: nat, o: nat | IsSwitch(net, x) && IsStation(net, o) ensures KnownBackward(net, s', x, o) {
      assert KnownBackward(net, s, x, o);
    }
  }

  lemma InjectKeepsWaiting(net: Net, caching: bool, s: State, id: nat, org: Origin, a: nat, b: nat, i: nat)
    requires Inv(net, caching, s) && Enabled(net, s, Inject(id, org)) && Flight(s, a, b, i)
    ensures var s' := Step(net, caching, s, Inject(id, org));
      Flight(s', a, b, i) && At(s', a, b, i) == At(s, a, b, i)
      && Away(net, s', a, b, i) && (caching ==> NoTurnBack(net, s', a, b, i))
  {
    var s' := Step(net, caching, s, Inject(id, org));
    assert Away(net, s, a, b, i);
    if caching {
      assert NoTurnBack(net, s, a, b, i);
      forall j: nat | j < i ensures At(s', a, b, j) == At(s, a, b, j) && At(s, a, b, j).id in s.injected {
        assert Flight(s, a, b, j) && Away(net, s, a, b, j);
      }
    }
  }

  /** In every reachable state, with caching on or off, tables point the right way and frames move away. */
  lemma {:induction false} RunInv(net: Net, caching: bool, evs: seq<Event>)
    requires ValidNet(net)
    ensures Inv(net, caching, Run(net, caching, evs))
  {
    if evs == [] {
      EmptyTablesKnowNothing(net, caching);
    } else {
      var front, last := evs[..|evs| - 1], evs[|evs| - 1];
      RunInv(net, caching, front);
      if Enabled(net, Run(net, caching, front), last) {
        match last
        case Inject(id, org) => InjectKeepsInv(net, caching, Run(net, caching, front), id, org);
        case Deliver(u, v) => DeliverKeepsInv(net, caching, Run(net, caching, front), u, v);
      }
    }
  }

  lemma EmptyTablesKnowNothing(net: Net, caching: bool)
    requires ValidNet(net)
    ensures Inv(net, caching, Start(net))
  {
    var s := Start(net);
    forall a: nat, b: nat, i: nat | Flight(s, a, b, i) ensures false {
    }
  }
}
