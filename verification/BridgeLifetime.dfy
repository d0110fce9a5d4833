/** On a bridged tree no node handles an injected frame twice, so every frame dies out. */
module BridgeLifetime {
  import opened Circles
  import opened Tree
  import opened Bridge
  import opened BridgeLearning

  /** No node ahead of a frame has handled a copy of it. */
  ghost predicate NewAhead(net: Net, s: State, a: nat, b: nat, i: nat)
    requires Shape(net, s) && Flight(s, a, b, i)
  {
    forall x: nat :: Beyond(net.tree, a, b, x) ==> (At(s, a, b, i).id, x) !in s.seen
  }

  /** Two copies of one frame have no node ahead of both. */
  ghost predicate Apart(net: Net, s: State, a: nat, b: nat, i: nat, c: nat, d: nat, j: nat)
    requires Shape(net, s) && Flight(s, a, b, i) && Flight(s, c, d, j)
  {
    (a, b, i) != (c, d, j) && At(s, a, b, i).id == At(s, c, d, j).id ==>
      forall x: nat :: !(Beyond(net.tree, a, b, x) && Beyond(net.tree, c, d, x))
  }

  ghost predicate Once(net: Net, s: State) {
    && Shape(net, s)
    && (forall a: nat, b: nat, i: nat :: Flight(s, a, b, i) ==> NewAhead(net, s, a, b, i))
    && (forall a: nat, b: nat, i: nat, c: nat, d: nat, j: nat ::
          Flight(s, a, b, i) && Flight(s, c, d, j) ==> Apart(net, s, a, b, i, c, d, j))
    && (forall p :: p in s.seen ==> p.0 in s.injected && p.1 < |net.nodes| && p.1 != s.injected[p.0].host)
    && s.accepted <= s.seen
  }

  // ----- one step

  /** The frame at `(a, b, i)` descends from the one at `(c, d, j)`, with no more ahead. */
  ghost predicate Descends(net: Net, s: State, s': State, u: nat, v: nat,
                           a: nat, b: nat, i: nat, c: nat, d: nat, j: nat) {
    && Shape(net, s) && Shape(net, s') && Flight(s, c, d, j) && Flight(s', a, b, i)
    && At(s, c, d, j).id == At(s', a, b, i).id
    && (forall x: nat :: Beyond(net.tree, a, b, x) ==> Beyond(net.tree, c, d, x))
    && if (c, d, j) == (u, v, 0)
       then a == v && Adj(net.tree, v, b) && i == |s.links[(a, b)]| && !Beyond(net.tree, a, b, v)
       else (c, d) == (a, b) && j == (if (a, b) == (u, v) then i + 1 else i)
  }

  /** A frame in flight after a delivery descends from one in flight before it. */
  lemma Parent(net: Net, caching: bool, s: State, u: nat, v: nat, a: nat, b: nat, i: nat)
      returns (c: nat, d: nat, j: nat)
    requires Inv(net, caching, s) && Enabled(net, s, Deliver(u, v))
    requires Flight(Step(net, caching, s, Deliver(u, v)), a, b, i)
    ensures Descends(net, s, Step(net, caching, s, Deliver(u, v)), u, v, a, b, i, c, d, j)
  {
    AfterDeliver(net, caching, s, u, v, a, b, i);
    if a == v && i == |s.links[(a, b)]| {
      CopyKeepsTheFrame(net, caching, s, u, v, b);
      NeverBack(net, caching, s, u, v, b);
      forall x: nat | Beyond(net.tree, a, b, x) ensures Beyond(net.tree, u, v, x) {
        BeyondShrinks(net.tree, u, v, b, x);
      }
      return u, v, 0;
    }
    c, d, j := a, b, if (a, b) == (u, v) then i + 1 else i;
  }

  lemma DeliverKeepsNewAhead(net: Net, caching: bool, s: State, u: nat, v: nat, a: nat, b: nat, i: nat)
    requires Inv(net, caching, s) && Once(net, s) && Enabled(net, s, Deliver(u, v))
    requires Flight(Step(net, caching, s, Deliver(u, v)), a, b, i)
    ensures NewAhead(net, Step(net, caching, s, Deliver(u, v)), a, b, i)
  {
    assert Away(net, s, u, v, 0);
    LinkSplits(net.tree, u, v, v);
    var c, d, j := Parent(net, caching, s, u, v, a, b, i);
    assert NewAhead(net, s, c, d, j) && Apart(net, s, c, d, j, u, v, 0);
  }

  /** Copies whose parents have nothing ahead in common have nothing ahead in common. */
  lemma NothingInCommon(net: Net, s: State, s': State, u: nat, v: nat,
                        a: nat, b: nat, i: nat, a': nat, b': nat, i': nat,
                        c: nat, d: nat, j: nat, c': nat, d': nat, j': nat)
    requires Descends(net, s, s', u, v, a, b, i, a', b', i') && Descends(net, s, s', u, v, c, d, j, c', d', j')
    requires Apart(net, s, a', b', i', c', d', j')
    ensures Apart(net, s', a, b, i, c, d, j)
  {
  }

  lemma DeliverKeepsApart(net: Net, caching: bool, s: State, u: nat, v: nat,
                          a: nat, b: nat, i: nat, c: nat, d: nat, j: nat)
    requires Inv(net, caching, s) && Once(net, s) && Enabled(net, s, Deliver(u, v))
    requires Flight(Step(net, caching, s, Deliver(u, v)), a, b, i)
    requires Flight(Step(net, caching, s, Deliver(u, v)), c, d, j)
    ensures Apart(net, Step(net, caching, s, Deliver(u, v)), a, b, i, c, d, j)
  {
    var s' := Step(net, caching, s, Deliver(u, v));
    var a', b', i' := Parent(net, caching, s, u, v, a, b, i);
    var c', d', j' := Parent(net, caching, s, u, v, c, d, j);
    NothingInCommon(net, s, s', u, v, a, b, i, a', b', i', c, d, j, c', d', j');
  }

  lemma DeliverKeepsOnce(net: Net, caching: bool, s: State, u: nat, v: nat)
    requires Inv(net, caching, s) && Once(net, s) && Enabled(net, s, Deliver(u, v))
    ensures Once(net, Step(net, caching, s, Deliver(u, v)))
    ensures (At(s, u, v, 0).id, v) !in s.seen
  {
    var s' := Step(net, caching, s, Deliver(u, v));
    assert Away(net, s, u, v, 0) && NewAhead(net, s, u, v, 0);
    LinkSplits(net.tree, u, v, v);
    forall a: nat, b: nat, i: nat | Flight(s', a, b, i) ensures NewAhead(net, s', a, b, i) {
      DeliverKeepsNewAhead(net, caching, s, u, v, a, b, i);
    }
    forall a: nat, b: nat, i: nat, c: nat, d: nat, j: nat | Flight(s', a, b, i) && Flight(s', c, d, j)
      ensures Apart(net, s', a, b, i, c, d, j)
    {
      DeliverKeepsApart(net, caching, s, u, v, a, b, i, c, d, j);
    }
  }

  lemma InjectKeepsOnce(net: Net, caching: bool, s: State, id: nat, org: Origin)
    requires Inv(net, caching, s) && Once(net, s) && Enabled(net, s, Inject(id, org))
    ensures Once(net, Step(net, caching, s, Inject(id, org)))
  {
    var s' := Step(net, caching, s, Inject(id, org));
    var l := (org.host, org.via);
    forall a: nat, b: nat, i: nat | Flight(s', a, b, i)
      ensures
        || (Flight(s, a, b, i) && At(s', a, b, i) == At(s, a, b, i) && At(s, a, b, i).id != id)
        || ((a, b) == l && i == |s.links[l]| && At(s', a, b, i).id == id)
    {
      if !((a, b) == l && i == |s.links[l]|) {
        assert Flight(s, a, b, i) && Away(net, s, a, b, i);
      }
    }
    forall a: nat, b: nat, i: nat | Flight(s', a, b, i) ensures NewAhead(net, s', a, b, i) {
      if Flight(s, a, b, i) {
        assert NewAhead(net, s, a, b, i);
      }
    }
    forall a: nat, b: nat, i: nat, c: nat, d: nat, j: nat | Flight(s', a, b, i) && Flight(s', c, d, j)
      ensures Apart(net, s', a, b, i, c, d, j)
    {
      if Flight(s, a, b, i) && Flight(s, c, d, j) {
        assert Apart(net, s, a, b, i, c, d, j);
      }
    }
  }

  // ----- every run

  /** In every reachable state, no node ahead of a frame has handled it before. */
  lemma {:induction false} RunOnce(net: Net, caching: bool, evs: seq<Event>)
    requires ValidNet(net)
    ensures Inv(net, caching, Run(net, caching, evs)) && Once(net, Run(net, caching, evs))
  {
    RunInv(net, caching, evs);
    if evs == [] {
      forall a: nat, b: nat, i: nat | Flight(Start(net), a, b, i) ensures false {
      }
    } else {
      var front, last := evs[..|evs| - 1], evs[|evs| - 1];
      RunOnce(net, caching, front);
      if Enabled(net, Run(net, caching, front), last) {
        match last
        case Inject(id, org) => InjectKeepsOnce(net, caching, Run(net, caching, front), id, org);
        case Deliver(u, v) => DeliverKeepsOnce(net, caching, Run(net, caching, front), u, v);
      }
    }
  }

  /** The number of frames a run takes off a link. */
  ghost function Deliveries(net: Net, caching: bool, evs: seq<Event>): nat
    requires ValidNet(net)
  {
    if evs == [] then 0 else
      var front, last := evs[..|evs| - 1], evs[|evs| - 1];
      Deliveries(net, caching, front) +
        if last.Deliver? && Enabled(net, Run(net, caching, front), last) then 1 else 0
  }

  /** Every delivery is the first of its frame at its node. */
  lemma {:induction false} DeliveriesAreNew(net: Net, caching: bool, evs: seq<Event>)
    requires ValidNet(net)
    ensures Deliveries(net, caching, evs) == |Run(net, caching, evs).seen|
  {
    if evs == [] {
    } else {
      var front, last := evs[..|evs| - 1], evs[|evs| - 1];
      DeliveriesAreNew(net, caching, front);
      RunOnce(net, caching, front);
      if last.Deliver? && Enabled(net, Run(net, caching, front), last) {
        DeliverKeepsOnce(net, caching, Run(net, caching, front), last.from, last.to);
      }
    }
  }

  ghost function Below(n: nat): (r: set<nat>)
    ensures |r| == n && forall x: nat :: x in r <==> x < n
  {
    if n == 0 then {} else Below(n - 1) + {n - 1}
  }

  /** A set of pairs in which each key has partners below `n` other than its host. */
  lemma {:induction false} PairsBound(pairs: set<(nat, nat)>, keys: set<nat>, host: map<nat, nat>, n: nat)
    requires n > 0 && keys <= host.Keys && forall k :: k in keys ==> host[k] < n
    requires forall p :: p in pairs ==> p.0 in keys && p.1 < n && p.1 != host[p.0]
    ensures |pairs| <= |keys| * (n - 1)
    decreases keys
  {
    if keys == {} {
      assert pairs == {};
    } else {
      var k :| k in keys;
      var mine := set p | p in pairs && p.0 == k;
      PairsOfOne(mine, k, Below(n) - {host[k]});
      PairsBound(pairs - mine, keys - {k}, host, n);
      assert pairs == (pairs - mine) + mine;
      OneMoreRow(|pairs - mine|, |mine|, |keys| - 1, n - 1);
    }
  }

  ghost predicate HostsInNet(net: Net, s: State) {
    forall k :: k in s.injected ==> s.injected[k].host < |net.nodes|
  }

  lemma RunHosts(net: Net, caching: bool, evs: seq<Event>)
    requires ValidNet(net)
    ensures HostsInNet(net, Run(net, caching, evs))
  {
    if evs == [] {
    } else {
      RunHosts(net, caching, evs[..|evs| - 1]);
    }
  }

  lemma SeenBound(net: Net, s: State)
    requires Once(net, s) && HostsInNet(net, s) && |net.nodes| > 0
    ensures |s.seen| <= |s.injected| * (|net.nodes| - 1)
  {
    var host := map k | k in s.injected :: s.injected[k].host;
    forall p | p in s.seen ensures p.0 in s.injected.Keys && p.1 < |net.nodes| && p.1 != host[p.0] {
    }
    PairsBound(s.seen, s.injected.Keys, host, |net.nodes|);
  }

  /**
   * Every injected frame dies out: whatever the interleaving, a run delivers at most one copy
   * of each injected frame to each node other than its sender.
   */
  lemma FramesDieOut(net: Net, caching: bool, evs: seq<Event>)
    requires ValidNet(net)
    ensures Deliveries(net, caching, evs) <= |Run(net, caching, evs).injected| * (|net.nodes| - 1)
  {
    RunOnce(net, caching, evs);
    RunHosts(net, caching, evs);
    DeliveriesAreNew(net, caching, evs);
    SeenBound(net, Run(net, caching, evs));
  }

  ghost predicate Quiet(s: State) {
    forall a: nat, b: nat :: !Flight(s, a, b, 0)
  }

  /** What a run may still deliver before every frame it injected has died out. */
  ghost function Budget(net: Net, caching: bool, evs: seq<Event>): (b: nat)
    requires ValidNet(net)
  {
    FramesDieOut(net, caching, evs);
    |Run(net, caching, evs).injected| * (|net.nodes| - 1) - Deliveries(net, caching, evs)
  }

  /** A frame in flight can be delivered. */
  lemma SomethingToDeliver(net: Net, caching: bool, evs: seq<Event>) returns (e: Event)
    requires ValidNet(net) && !Quiet(Run(net, caching, evs))
    ensures e.Deliver? && Enabled(net, Run(net, caching, evs), e)
  {
    var s := Run(net, caching, evs);
    var a: nat, b: nat :| Flight(s, a, b, 0);
    RunInv(net, caching, evs);
    assert Away(net, s, a, b, 0);
    e := Deliver(a, b);
  }

  /** That uses up some of the budget. */
  lemma DeliveryCosts(net: Net, caching: bool, evs: seq<Event>, e: Event)
    requires ValidNet(net) && e.Deliver? && Enabled(net, Run(net, caching, evs), e)
    ensures Run(net, caching, evs + [e]).injected == Run(net, caching, evs).injected
    ensures Budget(net, caching, evs + [e]) == Budget(net, caching, evs) - 1
  {
    assert (evs + [e])[..|evs|] == evs;
    assert Run(net, caching, evs + [e]) == Step(net, caching, Run(net, caching, evs), e);
    assert Deliveries(net, caching, evs + [e]) == Deliveries(net, caching, evs) + 1;
  }

  /** `all` continues `evs` by deliveries alone. */
  predicate OnlyDelivers(evs: seq<Event>, all: seq<Event>) {
    evs <= all && forall i :: |evs| <= i < |all| ==> all[i].Deliver?
  }

  lemma OneMoreDelivery(evs: seq<Event>, e: Event, all: seq<Event>)
    requires e.Deliver? && OnlyDelivers(evs + [e], all)
    ensures OnlyDelivers(evs, all)
  {
    assert all[|evs|] == (evs + [e])[|evs|];
  }

  /** Every run can be continued, by deliveries alone, until no frame is in flight. */
  lemma {:induction false} Drain(net: Net, caching: bool, evs: seq<Event>, budget: nat) returns (all: seq<Event>)
    requires ValidNet(net) && budget == Budget(net, caching, evs)
    ensures OnlyDelivers(evs, all)
    ensures Quiet(Run(net, caching, all)) && Run(net, caching, all).injected == Run(net, caching, evs).injected
    decreases budget
  {
    all := evs;
    if Quiet(Run(net, caching, evs)) {
    } else {
      var e := SomethingToDeliver(net, caching, evs);
      DeliveryCosts(net, caching, evs, e);
      all := Drain(net, caching, evs + [e], budget - 1);
      OneMoreDelivery(evs, e, all);
    }
  }
}
