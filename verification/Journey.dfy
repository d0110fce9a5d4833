/**
 * How far a packet can go. Every journey is finite, unless its destination is the limited
 * broadcast address and routers on each other's segments pass that on in a circle.
 */
module Journey {
  import opened Wrappers
  import opened Circles
  import opened MacTable
  import opened Prefix
  import opened ArpTable
  import opened Layer3
  import opened PacketTrack
  import opened Internet
  import opened BridgeLifetime

  /** The `i`-th hop of a journey, by tables that are true then. */
  ghost predicate HopAt(net: Inet, arps: seq<ArpTables>, j: seq<Place>, i: nat) {
    && i < |arps| && i + 1 < |j| && j[i].node < |net.nodes|
    && ArpTrue(net, arps[i]) && Hop(net, arps[i], j[i], j[i + 1])
  }

  /** Tables may change between hops, as long as they stay true. */
  ghost predicate IsJourney(net: Inet, arps: seq<ArpTables>, j: seq<Place>) {
    && |j| == |arps| + 1
    && (forall i :: 0 <= i < |j| ==> j[i].node < |net.nodes|)
    && (forall i: nat :: i < |arps| ==> HopAt(net, arps, j, i))
  }

  /** What is left of the TTL, and whether the packet is at a node that holds its destination. */
  function Remaining(net: Inet, a: Place): int
    requires a.node < |net.nodes|
  {
    2 * Life(a.pkt.ttl) - if IsLocal(net.nodes[a.node], a.pkt.dst) then 1 else 0
  }

  /** A hop keeps all of a packet but the TTL, which drops unless the hop is direct. */
  lemma HopKeeps(net: Inet, arp: ArpTables, a: Place, b: Place)
    requires ValidInet(net) && a.node < |net.nodes| && |arp| == |net.nodes| && Hop(net, arp, a, b)
    ensures b.node < |net.nodes| && b.pkt == a.pkt.(ttl := b.pkt.ttl)
    ensures Life(b.pkt.ttl) <= Life(a.pkt.ttl) && (a.pkt.ttl > 0 ==> b.pkt.ttl > 0)
    ensures Life(b.pkt.ttl) == Life(a.pkt.ttl) <==> DirectTo(net.nodes[a.node], a.pkt.dst)
  {
    var f := Track(net.nodes[a.node], Promote(a.pkt));
    SentKeeps(net.nodes[a.node], Promote(a.pkt));
    var j: nat :| Hears(net, (a.node, f.out), Resolve(arp[a.node], f.via).value.mac, (b.node, j));
    assert Attached(net, (b.node, j));
  }

  /** A direct hop by an entry that is not the built-in one lands on a node that holds the destination. */
  lemma DirectHopLands(net: Inet, arp: ArpTables, a: Place, b: Place)
    requires ValidInet(net) && a.node < |net.nodes| && ArpTrue(net, arp) && Hop(net, arp, a, b)
    requires Life(b.pkt.ttl) == Life(a.pkt.ttl)
    requires Resolve(arp[a.node], a.pkt.dst) != Some(INITIAL)
    ensures !IsLocal(net.nodes[a.node], a.pkt.dst)
    ensures b.node < |net.nodes| && IsLocal(net.nodes[b.node], a.pkt.dst)
  {
    HopKeeps(net, arp, a, b);
    SentKeeps(net.nodes[a.node], Promote(a.pkt));
    var f := Track(net.nodes[a.node], Promote(a.pkt));
    var q := ResolvedIsHeld(net, arp, a.node, f.via);
    var j: nat :| Hears(net, (a.node, f.out), Resolve(arp[a.node], f.via).value.mac, (b.node, j));
    assert ToldApart(net, q, (b.node, j));
  }

  /** Every hop to anywhere but 255.255.255.255 brings a packet closer to its end. */
  lemma HopDescends(net: Inet, arp: ArpTables, a: Place, b: Place)
    requires ValidInet(net) && a.node < |net.nodes| && ArpTrue(net, arp) && Hop(net, arp, a, b)
    requires a.pkt.dst != BROADCAST_IP
    ensures b.node < |net.nodes| && Remaining(net, b) < Remaining(net, a)
  {
    HopKeeps(net, arp, a, b);
    if Life(b.pkt.ttl) == Life(a.pkt.ttl) {
      BuiltInIsBroadcast(net, arp, a);
      DirectHopLands(net, arp, a, b);
    }
  }

  lemma BuiltInIsBroadcast(net: Inet, arp: ArpTables, a: Place)
    requires ValidInet(net) && a.node < |net.nodes| && ArpTrue(net, arp)
    ensures Resolve(arp[a.node], a.pkt.dst) == Some(INITIAL) ==> a.pkt.dst == BROADCAST_IP
  {
    if Resolve(arp[a.node], a.pkt.dst).Some? {
      var q := ResolvedIsHeld(net, arp, a.node, a.pkt.dst);
    }
  }

  /** What any hop of a journey does. */
  lemma HopOfJourney(net: Inet, arps: seq<ArpTables>, j: seq<Place>, i: nat)
    requires ValidInet(net) && IsJourney(net, arps, j) && i < |arps|
    ensures j[i + 1].pkt == j[i].pkt.(ttl := j[i + 1].pkt.ttl) && Life(j[i + 1].pkt.ttl) <= Life(j[i].pkt.ttl)
    ensures j[i].pkt.ttl > 0 ==> j[i + 1].pkt.ttl > 0
    ensures j[i].pkt.dst != BROADCAST_IP ==> Remaining(net, j[i + 1]) < Remaining(net, j[i])
  {
    assert HopAt(net, arps, j, i);
    HopKeeps(net, arps[i], j[i], j[i + 1]);
    if j[i].pkt.dst != BROADCAST_IP {
      HopDescends(net, arps[i], j[i], j[i + 1]);
    }
  }

  /** All along a journey the packet is the same but for its TTL, which never grows. */
  lemma {:induction false} SameDestination(net: Inet, arps: seq<ArpTables>, j: seq<Place>, i: nat)
    requires ValidInet(net) && IsJourney(net, arps, j) && i < |j|
    ensures j[i].pkt == j[0].pkt.(ttl := j[i].pkt.ttl) && Life(j[i].pkt.ttl) <= Life(j[0].pkt.ttl)
    ensures j[0].pkt.ttl > 0 ==> j[i].pkt.ttl > 0
  {
    if i == 0 {
    } else {
      SameDestination(net, arps, j, i - 1);
      HopOfJourney(net, arps, j, i - 1);
    }
  }

  lemma JourneyPrefix(net: Inet, arps: seq<ArpTables>, j: seq<Place>, n: nat)
    requires ValidInet(net) && IsJourney(net, arps, j) && n <= |arps|
    ensures IsJourney(net, arps[..n], j[..n + 1])
  {
    var arps', j' := arps[..n], j[..n + 1];
    forall i: nat | i < n ensures HopAt(net, arps', j', i) {
      assert HopAt(net, arps, j, i);
    }
  }

  lemma {:induction false} RemainingFalls(net: Inet, arps: seq<ArpTables>, j: seq<Place>, i: nat)
    requires ValidInet(net) && IsJourney(net, arps, j) && i < |j| && j[0].pkt.dst != BROADCAST_IP
    ensures i + Remaining(net, j[i]) <= Remaining(net, j[0])
  {
    if i == 0 {
    } else {
      RemainingFalls(net, arps, j, i - 1);
      SameDestination(net, arps, j, i - 1);
      HopOfJourney(net, arps, j, i - 1);
    }
  }

  /**
   * For arbitrary and even looping routes a journey has fewer hops than twice the TTL it
   * starts with, and in flight the TTL stays positive and never grows.
   */
  lemma JourneyBound(net: Inet, arps: seq<ArpTables>, j: seq<Place>)
    requires ValidInet(net) && IsJourney(net, arps, j) && j[0].pkt.dst != BROADCAST_IP
    ensures |arps| + Remaining(net, j[|j| - 1]) <= Remaining(net, j[0])
    ensures |arps| < 2 * Life(j[0].pkt.ttl)
    ensures var last := j[|j| - 1].pkt;
      && last == j[0].pkt.(ttl := last.ttl)
      && Life(last.ttl) <= Life(j[0].pkt.ttl) && (j[0].pkt.ttl > 0 ==> last.ttl > 0)
  {
    RemainingFalls(net, arps, j, |arps|);
    SameDestination(net, arps, j, |arps|);
  }

  // ----- the limited broadcast address

  /** Node `p.0` sends packets to 255.255.255.255 that are not for itself out of interface `p.1`. */
  ghost predicate PassesOn(net: Inet, p: Socket) {
    && Attached(net, p)
    && DirectTo(net.nodes[p.0], BROADCAST_IP) && !IsLocal(net.nodes[p.0], BROADCAST_IP)
    && MatchingSubnet(net.nodes[p.0].intfs, BROADCAST_IP) == Some(p.1)
  }

  /** Node `n` passes such packets on to a segment on which node `k` has another interface. */
  ghost predicate Floods(net: Inet, n: nat, k: nat) {
    exists i: nat, j: nat :: PassesOn(net, (n, i)) && SameLan(net, (n, i), (k, j)) && (k, j) != (n, i)
  }

  ghost function FloodRelation(net: Inet): (nat, nat) -> bool {
    (n: nat, k: nat) => Floods(net, n, k)
  }

  /** Routers that pass the limited broadcast on to each other in a circle. */
  ghost predicate FloodCircle(net: Inet) {
    HasCircle(FloodRelation(net))
  }

  // ----- no circle, no endless journey

  /** Two hops that both leave the TTL alone: the first one was by the built-in entry. */
  lemma DirectTwice(net: Inet, arp: ArpTables, arp': ArpTables, a: Place, b: Place, c: Place)
    requires ValidInet(net) && a.node < |net.nodes| && ArpTrue(net, arp) && Hop(net, arp, a, b)
    requires b.node < |net.nodes| && ArpTrue(net, arp') && Hop(net, arp', b, c)
    requires Life(a.pkt.ttl) == Life(b.pkt.ttl) == Life(c.pkt.ttl)
    ensures a.pkt.dst == BROADCAST_IP && Floods(net, a.node, b.node)
  {
    HopKeeps(net, arp, a, b);
    HopKeeps(net, arp', b, c);
    SentKeeps(net.nodes[b.node], Promote(b.pkt));
    if Resolve(arp[a.node], a.pkt.dst) != Some(INITIAL) {
      DirectHopLands(net, arp, a, b);
    } else {
      BuiltInIsBroadcast(net, arp, a);
      SentKeeps(net.nodes[a.node], Promote(a.pkt));
      var f := Track(net.nodes[a.node], Promote(a.pkt));
      var j: nat :| Hears(net, (a.node, f.out), BROADCAST, (b.node, j));
      assert Attached(net, (b.node, j));
      assert PassesOn(net, (a.node, f.out));
    }
  }

  ghost function NodeSet(net: Inet): (all: set<nat>)
    ensures |all| == |net.nodes| && forall n: nat :: n in all <==> n < |net.nodes|
  {
    Below(|net.nodes|)
  }

  /** The number of decrements left along a journey. */
  ghost function Lives(j: seq<Place>): (l: seq<nat>)
    ensures |l| == |j| && forall i :: 0 <= i < |j| ==> l[i] == Life(j[i].pkt.ttl)
  {
    seq(|j|, i requires 0 <= i < |j| => Life(j[i].pkt.ttl))
  }

  /** Where a sequence that never grows last fell. */
  lemma {:induction false} LastDrop(l: seq<nat>) returns (s: nat)
    requires |l| > 0 && forall i :: 0 < i < |l| ==> l[i] <= l[i - 1]
    ensures s < |l| && forall i :: s <= i < |l| ==> l[i] == l[s]
    ensures s > 0 ==> l[s] < l[s - 1]
  {
    var n := |l| - 1;
    if n == 0 || l[n] < l[n - 1] {
      s := n;
    } else {
      s := LastDrop(l[..n]);
    }
  }

  ghost function NodesOf(j: seq<Place>): (ns: seq<nat>)
    ensures |ns| == |j| && forall i :: 0 <= i < |j| ==> ns[i] == j[i].node
  {
    seq(|j|, i requires 0 <= i < |j| => j[i].node)
  }

  /** Two hops in a row that leave the TTL alone, in the middle of a journey. */
  lemma FloodsAt(net: Inet, arps: seq<ArpTables>, j: seq<Place>, i: nat)
    requires ValidInet(net) && IsJourney(net, arps, j) && i + 2 < |j|
    requires Life(j[i].pkt.ttl) == Life(j[i + 1].pkt.ttl) == Life(j[i + 2].pkt.ttl)
    ensures j[i].pkt.dst == BROADCAST_IP && Floods(net, j[i].node, j[i + 1].node)
  {
    assert HopAt(net, arps, j, i) && HopAt(net, arps, j, i + 1);
    DirectTwice(net, arps[i], arps[i + 1], j[i], j[i + 1], j[i + 2]);
  }

  lemma StretchFloods(net: Inet, arps: seq<ArpTables>, j: seq<Place>, s: nat)
    requires ValidInet(net) && IsJourney(net, arps, j) && s < |arps|
    requires forall i :: s <= i < |j| ==> Life(j[i].pkt.ttl) == Life(j[s].pkt.ttl)
    ensures IsPath(FloodRelation(net), NodesOf(j)[s..|arps|])
  {
    var ns := NodesOf(j)[s..|arps|];
    forall i: nat | i + 1 < |ns| ensures LinkAt(FloodRelation(net), ns, i) {
      FloodsAt(net, arps, j, s + i);
      assert Floods(net, ns[i], ns[i + 1]);
    }
  }

  /** A journey that leaves the TTL alone is short: no longer than there are nodes. */
  lemma StretchBound(net: Inet, arps: seq<ArpTables>, j: seq<Place>, s: nat)
    requires ValidInet(net) && IsJourney(net, arps, j) && s < |j|
    requires forall i :: s <= i < |j| ==> Life(j[i].pkt.ttl) == Life(j[s].pkt.ttl)
    requires j[s].pkt.dst != BROADCAST_IP || !FloodCircle(net)
    ensures |arps| - s <= |net.nodes|
  {
    if s + 1 < |arps| {
      FloodsAt(net, arps, j, s);
      StretchFloods(net, arps, j, s);
      PathWithin(FloodRelation(net), NodesOf(j)[s..|arps|], NodeSet(net));
    }
  }

  lemma LivesFall(net: Inet, arps: seq<ArpTables>, j: seq<Place>)
    requires ValidInet(net) && IsJourney(net, arps, j)
    ensures forall i :: 0 < i < |j| ==> Lives(j)[i] <= Lives(j)[i - 1]
  {
    forall i | 0 < i < |j| ensures Lives(j)[i] <= Lives(j)[i - 1] {
      HopOfJourney(net, arps, j, i - 1);
    }
  }

  /** Between two drops of the TTL there are at most as many hops as nodes. */
  lemma {:induction false} BroadcastBound(net: Inet, arps: seq<ArpTables>, j: seq<Place>) returns (spent: nat)
    requires ValidInet(net) && IsJourney(net, arps, j)
    requires j[0].pkt.dst != BROADCAST_IP || !FloodCircle(net)
    ensures spent == Life(j[0].pkt.ttl) - Life(j[|j| - 1].pkt.ttl)
    ensures |arps| <= spent * (|net.nodes| + 1) + |net.nodes|
    decreases |j|
  {
    LivesFall(net, arps, j);
    SameDestination(net, arps, j, |arps|);
    spent := Life(j[0].pkt.ttl) - Life(j[|j| - 1].pkt.ttl);
    var s := LastDrop(Lives(j));
    SameDestination(net, arps, j, s);
    assert |arps| - s <= |net.nodes| by {
      assert forall i :: s <= i < |j| ==> Lives(j)[i] == Life(j[i].pkt.ttl);
      StretchBound(net, arps, j, s);
    }
    if s == 0 {
    } else {
      JourneyPrefix(net, arps, j, s - 1);
      var before := BroadcastBound(net, arps[..s - 1], j[..s]);
      MoreSpent(before, spent, |net.nodes| + 1);
    }
  }

  lemma MoreSpent(before: nat, spent: nat, c: nat)
    requires before < spent
    ensures before * c + c <= spent * c
  {
    MulAtLeast(c, spent - before);
    assert spent * c == before * c + (spent - before) * c;
  }

  // ----- a circle, and endless journeys

  /** Tables as they are before any ARP traffic. */
  ghost function FreshTables(net: Inet): ArpTables {
    seq(|net.nodes|, i => [INITIAL])
  }

  lemma FreshTablesAreTrue(net: Inet)
    requires ValidInet(net)
    ensures ArpTrue(net, FreshTables(net))
    ensures forall n: nat :: n < |net.nodes| ==> Resolve(FreshTables(net)[n], BROADCAST_IP) == Some(INITIAL)
  {
    assert HasIp(BROADCAST_IP)(INITIAL);
  }

  lemma PassesOnTracked(net: Inet, p: Socket, pkt: Packet)
    requires ValidInet(net) && PassesOn(net, p) && pkt.dst == BROADCAST_IP
    ensures Track(net.nodes[p.0], Promote(pkt)) == Sent(pkt, BROADCAST_IP, p.1)
  {
  }

  lemma FloodHop(net: Inet, n: nat, k: nat, p: Packet)
    requires ValidInet(net) && Floods(net, n, k) && p.dst == BROADCAST_IP
    ensures n < |net.nodes| && k < |net.nodes| && ArpTrue(net, FreshTables(net))
    ensures Hop(net, FreshTables(net), Place(n, p), Place(k, p))
  {
    var i: nat, j: nat :| PassesOn(net, (n, i)) && SameLan(net, (n, i), (k, j)) && (k, j) != (n, i);
    assert Attached(net, (k, j));
    FreshTablesAreTrue(net);
    PassesOnTracked(net, (n, i), p);
    assert Hears(net, (n, i), BROADCAST, (k, j));
  }

  ghost function PlacesAlong(ns: seq<nat>, p: Packet): (j: seq<Place>)
    ensures |j| == |ns| && forall i: nat :: i < |j| ==> j[i] == Place(ns[i], p)
  {
    seq(|ns|, i requires 0 <= i < |ns| => Place(ns[i], p))
  }

  lemma FloodNodes(net: Inet, ns: seq<nat>, p: Packet)
    requires ValidInet(net) && IsPath(FloodRelation(net), ns) && |ns| > 1 && p.dst == BROADCAST_IP
    ensures forall k :: 0 <= k < |ns| ==> ns[k] < |net.nodes|
  {
    forall k | 0 <= k < |ns| ensures ns[k] < |net.nodes| {
      var i: nat := if k == 0 then 0 else k - 1;
      assert LinkAt(FloodRelation(net), ns, i);
      FloodHop(net, ns[i], ns[i + 1], p);
    }
  }

  lemma FloodHopAt(net: Inet, ns: seq<nat>, p: Packet, arps: seq<ArpTables>, i: nat)
    requires ValidInet(net) && IsPath(FloodRelation(net), ns) && p.dst == BROADCAST_IP
    requires i < |arps| == |ns| - 1 && arps[i] == FreshTables(net)
    ensures HopAt(net, arps, PlacesAlong(ns, p), i) && ns[i] < |net.nodes| && ns[i + 1] < |net.nodes|
  {
    assert LinkAt(FloodRelation(net), ns, i);
    FloodHop(net, ns[i], ns[i + 1], p);
  }

  /** A flood of any length is a journey that never spends its TTL. */
  lemma FloodJourney(net: Inet, ns: seq<nat>, p: Packet, arps: seq<ArpTables>)
    requires ValidInet(net) && IsPath(FloodRelation(net), ns) && |ns| > 1 && p.dst == BROADCAST_IP
    requires |arps| == |ns| - 1 && forall i :: 0 <= i < |arps| ==> arps[i] == FreshTables(net)
    ensures IsJourney(net, arps, PlacesAlong(ns, p))
  {
    var j := PlacesAlong(ns, p);
    forall i: nat | i < |arps| ensures HopAt(net, arps, j, i) {
      FloodHopAt(net, ns, p, arps, i);
    }
    FloodNodes(net, ns, p);
  }

  /** No journey to `dst` has more than `limit` hops. */
  ghost predicate JourneysWithin(net: Inet, dst: Ip, limit: nat) {
    forall arps: seq<ArpTables>, j: seq<Place> :: IsJourney(net, arps, j) && j[0].pkt.dst == dst ==> |arps| <= limit
  }

  /**
   * The journeys to a destination are bounded iff it is not 255.255.255.255 or no routers pass
   * that on to each other in a circle.
   */
  lemma JourneysEndIff(net: Inet, dst: Ip)
    requires ValidInet(net)
    ensures (exists limit: nat :: JourneysWithin(net, dst, limit)) <==> dst != BROADCAST_IP || !FloodCircle(net)
  {
    if dst != BROADCAST_IP || !FloodCircle(net) {
      var limit: nat := 256 * (|net.nodes| + 1) + |net.nodes|;
      forall arps: seq<ArpTables>, j: seq<Place> | IsJourney(net, arps, j) && j[0].pkt.dst == dst
        ensures |arps| <= limit
      {
        var spent := BroadcastBound(net, arps, j);
        MoreSpent(spent, 256, |net.nodes| + 1);
      }
      assert JourneysWithin(net, dst, limit);
    } else {
      var circle: seq<nat> :| IsCircle(FloodRelation(net), circle);
      forall limit: nat ensures !JourneysWithin(net, dst, limit) {
        var ns := RoundTheCircle(FloodRelation(net), circle, limit + 1);
        var arps, p := seq(limit + 1, i => FreshTables(net)), Packet(0, dst, INITIAL_TTL, Other(17, []));
        FloodJourney(net, ns, p, arps);
        assert PlacesAlong(ns, p)[0].pkt.dst == dst;
      }
    }
  }
}
