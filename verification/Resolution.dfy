/**
 * From nothing but the built-in ARP entries to delivery: requests and replies that the segments
 * deliver give every node on the way the entry it needs.
 */
module Resolution {
  import opened Wrappers
  import opened MacTable
  import opened Prefix
  import opened ArpTable
  import opened ArpProtocol
  import opened Layer3
  import opened Internet
  import opened EndToEnd

  // ----- one exchange

  /** `hs` lists every routed interface of the internet. */
  ghost predicate ListsAll(net: Inet, hs: seq<Holder>) {
    HoldersOf(net, hs) && forall p: Socket {:trigger Listed(net, hs, p)} :: Attached(net, p) ==> Listed(net, hs, p)
  }

  ghost predicate Listed(net: Inet, hs: seq<Holder>, p: Socket) {
    exists i: nat :: Lists(net, hs, i, p)
  }

  ghost predicate Lists(net: Inet, hs: seq<Holder>, i: nat, p: Socket) {
    i < |hs| && HolderAt(net, hs[i], p) && hs[i].node == p.0
  }

  /** Interface `p` is to learn the MAC of `q`, which has the address `ip`, on the segment they share. */
  datatype Need = Need(p: Socket, ip: Ip, q: Socket)

  ghost predicate CanLearn(net: Inet, d: Need) {
    SameLan(net, d.p, d.q) && d.p.0 != d.q.0 && IntfAt(net, d.q).addr.value.ip == d.ip
  }

  /** The segment brings the request out of `d.p` to `d.q`, and the reply, which is for `d.p` alone, back. */
  ghost predicate ExchangeDelivered(net: Inet, d: Need, ask: ArpFrame, reply: ArpFrame)
    requires Attached(net, d.p)
  {
    && DeliversTo(net, d.p, ask.dst, d.q) && DeliversTo(net, d.q, reply.dst, d.p)
    && reply.dst == IntfAt(net, d.p).mac
  }

  lemma SegmentDeliversExchange(net: Inet, hs: seq<Holder>, d: Need, i: nat, j: nat)
    requires ValidInet(net) && CanLearn(net, d) && Lists(net, hs, i, d.p) && Lists(net, hs, j, d.q)
    ensures var ask := AskFrame(hs[i], d.ip);
      ExchangeDelivered(net, d, ask, ReplyTo(hs[j], ask))
  {
    assert ToldApart(net, d.p, d.q);
    assert Hears(net, d.p, BROADCAST, d.q) && Hears(net, d.q, IntfAt(net, d.p).mac, d.p);
    HearsIffDelivered(net, d.p, BROADCAST, d.q);
    HearsIffDelivered(net, d.q, IntfAt(net, d.p).mac, d.p);
  }

  /** The frames sent by the time of event `t`. */
  ghost function Air(net: Inet, hs: seq<Holder>, evs: seq<ArpEvent>, t: nat): set<(nat, ArpFrame)>
    requires t <= |evs|
  {
    ArpRun(hs, |net.nodes|, evs[..t]).air
  }

  /**
   * At `t` of the run `d.p` asks for the address, `d.q` hears what it sent, and `d.p` hears what
   * `d.q` sent then; the segment delivers both frames.
   */
  ghost predicate ExchangedAt(net: Inet, hs: seq<Holder>, evs: seq<ArpEvent>, d: Need, t: nat) {
    && t + 3 <= |evs| && evs[t].Ask? && evs[t].target == d.ip && evs[t + 1].Hear? && evs[t + 2].Hear?
    && Lists(net, hs, evs[t].i, d.p) && Lists(net, hs, evs[t + 1].i, d.q) && evs[t + 2].i == evs[t].i
    && var ask, reply, seg := evs[t + 1].frame, evs[t + 2].frame, net.at[d.p].0;
       && Air(net, hs, evs, t + 1) == Air(net, hs, evs, t) + {(seg, ask)} && ask.msg.Request?
       && Air(net, hs, evs, t + 2) == Air(net, hs, evs, t + 1) + {(seg, reply)} && reply.msg.Reply?
       && ExchangeDelivered(net, d, ask, reply)
  }

  lemma ExchangedBefore(net: Inet, hs: seq<Holder>, evs: seq<ArpEvent>, more: seq<ArpEvent>, d: Need, t: nat)
    requires ExchangedAt(net, hs, evs, d, t) && evs <= more
    ensures ExchangedAt(net, hs, more, d, t)
  {
    assert evs[..t] == more[..t] && evs[..t + 1] == more[..t + 1] && evs[..t + 2] == more[..t + 2];
  }

  /** After a run, node `n` resolves `ip` to `mac`. */
  ghost predicate Knows(net: Inet, hs: seq<Holder>, evs: seq<ArpEvent>, n: nat, ip: Ip, mac: Mac) {
    var s := ArpRun(hs, |net.nodes|, evs);
    n < |s.tables| && Resolve(s.tables[n], ip).Some? && Resolve(s.tables[n], ip).value.mac == mac
  }

  lemma {:induction false} RunTables(hs: seq<Holder>, nodes: nat, evs: seq<ArpEvent>)
    ensures |ArpRun(hs, nodes, evs).tables| == nodes
  {
    ArpSound(hs, nodes, evs);
  }

  lemma RunMore(hs: seq<Holder>, nodes: nat, evs: seq<ArpEvent>, e: ArpEvent)
    ensures ArpRun(hs, nodes, evs + [e]) == ArpStep(hs, ArpRun(hs, nodes, evs), e)
  {
    assert (evs + [e])[..|evs|] == evs;
  }

  /** The three events of an exchange. */
  ghost function ExchangeOf(hs: seq<Holder>, i: nat, j: nat): (evs: seq<ArpEvent>)
    requires i < |hs| && j < |hs|
    ensures |evs| == 3
  {
    var ask := AskFrame(hs[i], hs[j].ip);
    [Ask(i, hs[j].ip), Hear(j, ask), Hear(i, ReplyTo(hs[j], ask))]
  }

  /** They continue a run. */
  lemma ExchangeEvents(hs: seq<Holder>, nodes: nat, evs: seq<ArpEvent>, i: nat, j: nat)
    requires i < |hs| && j < |hs| && hs[i].seg == hs[j].seg
    ensures var more, t, s := evs + ExchangeOf(hs, i, j), |evs|, ArpRun(hs, nodes, evs);
      var s1 := ArpStep(hs, s, more[t]);
      && more[..t] == evs && ArpRun(hs, nodes, more[..t + 1]) == s1
      && ArpRun(hs, nodes, more[..t + 2]) == ArpStep(hs, s1, more[t + 1])
      && ArpRun(hs, nodes, more) == Exchange(hs, s, i, j)
  {
    var e, t := ExchangeOf(hs, i, j), |evs|;
    var more := evs + e;
    RunMore(hs, nodes, evs, e[0]);
    RunMore(hs, nodes, evs + [e[0]], e[1]);
    RunMore(hs, nodes, evs + [e[0]] + [e[1]], e[2]);
    assert more[..t + 1] == evs + [e[0]] && more[..t + 2] == evs + [e[0]] + [e[1]];
    assert more == evs + [e[0]] + [e[1]] + [e[2]];
  }

  lemma ExchangeHappens(net: Inet, hs: seq<Holder>, evs: seq<ArpEvent>, d: Need, i: nat, j: nat)
    requires ValidInet(net) && CanLearn(net, d) && Lists(net, hs, i, d.p) && Lists(net, hs, j, d.q)
    ensures ExchangedAt(net, hs, evs + ExchangeOf(hs, i, j), d, |evs|)
  {
    var s, ask := ArpRun(hs, |net.nodes|, evs), AskFrame(hs[i], d.ip);
    ExchangeEvents(hs, |net.nodes|, evs, i, j);
    SegmentDeliversExchange(net, hs, d, i, j);
    FramesSent(hs, s, Ask(i, d.ip));
    FramesSent(hs, ArpStep(hs, s, Ask(i, d.ip)), Hear(j, ask));
  }

  /** What an exchange between `i` and `j` makes node `n` know. */
  lemma KnowsAfter(net: Inet, hs: seq<Holder>, evs: seq<ArpEvent>, more: seq<ArpEvent>, i: nat, j: nat,
                   n: nat, ip: Ip, mac: Mac)
    requires i < |hs| && j < |hs| && hs[i].seg == hs[j].seg && hs[i].node < |net.nodes|
    requires ArpRun(hs, |net.nodes|, more) == Exchange(hs, ArpRun(hs, |net.nodes|, evs), i, j)
    ensures n != hs[i].node && Knows(net, hs, evs, n, ip, mac) ==> Knows(net, hs, more, n, ip, mac)
    ensures n == hs[i].node && ip == hs[j].ip ==> Knows(net, hs, more, n, ip, hs[j].mac)
  {
    RunTables(hs, |net.nodes|, evs);
    if n < |net.nodes| {
      AskedAndAnswered(hs, ArpRun(hs, |net.nodes|, evs), i, j, n, ip);
    }
  }

  ghost predicate Learned(net: Inet, hs: seq<Holder>, evs: seq<ArpEvent>, d: Need) {
    Attached(net, d.q) && Knows(net, hs, evs, d.p.0, d.ip, IntfAt(net, d.q).mac)
  }

  /** A run can go on so that a node learns what it needs, and the others know what they knew. */
  lemma LearnOne(net: Inet, hs: seq<Holder>, evs: seq<ArpEvent>, d: Need) returns (more: seq<ArpEvent>)
    requires ValidInet(net) && ListsAll(net, hs) && CanLearn(net, d)
    ensures evs <= more && Learned(net, hs, more, d) && ExchangedAt(net, hs, more, d, |evs|)
    ensures forall n: nat, ip: Ip, mac: Mac :: n != d.p.0 && Knows(net, hs, evs, n, ip, mac) ==>
      Knows(net, hs, more, n, ip, mac)
  {
    assert Listed(net, hs, d.p) && Listed(net, hs, d.q);
    var i: nat :| Lists(net, hs, i, d.p);
    var j: nat :| Lists(net, hs, j, d.q);
    more := evs + ExchangeOf(hs, i, j);
    ExchangeEvents(hs, |net.nodes|, evs, i, j);
    ExchangeHappens(net, hs, evs, d, i, j);
    KnowsAfter(net, hs, evs, more, i, j, d.p.0, d.ip, hs[j].mac);
    forall n: nat, ip: Ip, mac: Mac | n != d.p.0 && Knows(net, hs, evs, n, ip, mac)
      ensures Knows(net, hs, more, n, ip, mac)
    {
      KnowsAfter(net, hs, evs, more, i, j, n, ip, mac);
    }
  }

  // ----- all exchanges

  /** What each of some nodes needs to learn. */
  ghost predicate Learnable(net: Inet, needs: map<nat, Need>) {
    forall n :: n in needs ==> LearnableBy(net, needs, n)
  }

  ghost predicate LearnableBy(net: Inet, needs: map<nat, Need>, n: nat)
    requires n in needs
  {
    needs[n].p.0 == n && CanLearn(net, needs[n])
  }

  /** Node `n` has learned what it needs, by an exchange that its segment delivered. */
  ghost predicate Done(net: Inet, hs: seq<Holder>, evs: seq<ArpEvent>, needs: map<nat, Need>, n: nat) {
    && n in needs && needs[n].p.0 == n && Learned(net, hs, evs, needs[n])
    && exists t: nat :: ExchangedAt(net, hs, evs, needs[n], t)
  }

  /** All of `todo` have. */
  ghost predicate AllDone(net: Inet, hs: seq<Holder>, evs: seq<ArpEvent>, needs: map<nat, Need>, todo: set<nat>) {
    forall n :: n in todo ==> Done(net, hs, evs, needs, n)
  }

  lemma OneMoreDone(net: Inet, hs: seq<Holder>, before: seq<ArpEvent>, needs: map<nat, Need>, done: set<nat>, n: nat)
      returns (evs: seq<ArpEvent>)
    requires ValidInet(net) && ListsAll(net, hs) && n in needs && LearnableBy(net, needs, n)
    requires n !in done && AllDone(net, hs, before, needs, done)
    ensures AllDone(net, hs, evs, needs, done + {n})
  {
    evs := LearnOne(net, hs, before, needs[n]);
    forall k | k in done + {n} ensures Done(net, hs, evs, needs, k) {
      if k == n {
        assert ExchangedAt(net, hs, evs, needs[n], |before|);
      } else {
        assert Done(net, hs, before, needs, k);
        var t: nat :| ExchangedAt(net, hs, before, needs[k], t);
        ExchangedBefore(net, hs, before, evs, needs[k], t);
      }
    }
  }

  lemma TakenAndPutBack(s: set<nat>, n: nat)
    requires n in s
    ensures (s - {n}) + {n} == s
  {
  }

  lemma {:induction false} LearnAll(net: Inet, hs: seq<Holder>, needs: map<nat, Need>, todo: set<nat>)
      returns (evs: seq<ArpEvent>)
    requires ValidInet(net) && ListsAll(net, hs) && Learnable(net, needs) && todo <= needs.Keys
    ensures AllDone(net, hs, evs, needs, todo)
    decreases todo
  {
    if todo == {} {
      evs := [];
    } else {
      var n :| n in todo;
      var rest := todo - {n};
      var before := LearnAll(net, hs, needs, rest);
      assert LearnableBy(net, needs, n);
      evs := OneMoreDone(net, hs, before, needs, rest, n);
      TakenAndPutBack(todo, n);
    }
  }

  // ----- from routes and segments to delivery

  /** Node `n`'s next hop is an address of node `k` on the segment the frame goes out to. */
  ghost predicate Connects(net: Inet, n: nat, hop: Option<NextHop>, k: nat, d: Need) {
    hop.Some? && d == Need((n, hop.value.out), hop.value.via, (k, d.q.1)) && CanLearn(net, d)
  }

  lemma LearnedLeads(net: Inet, hs: seq<Holder>, evs: seq<ArpEvent>, n: nat, hop: Option<NextHop>, k: nat, d: Need)
    requires Connects(net, n, hop, k, d) && Learned(net, hs, evs, d)
    ensures n < |ArpRun(hs, |net.nodes|, evs).tables|
    ensures EndToEnd.LeadsTo(net, ArpRun(hs, |net.nodes|, evs).tables, n, hop, k)
  {
    assert MacOnLan(net, (n, hop.value.out), IntfAt(net, d.q).mac, (k, d.q.1));
  }

  /** Ranked nodes hold the destination, or are connected to a node of lower rank that is their next hop. */
  ghost predicate RoutesConnect(net: Inet, dst: Ip, rank: map<nat, nat>) {
    && (forall n :: n in rank ==> n < |net.nodes|)
    && forall n :: n in rank ==>
         IsHome(net.nodes[n], dst) || exists k: nat, d: Need :: NextRank(net, dst, rank, n, k, d)
  }

  ghost predicate NextRank(net: Inet, dst: Ip, rank: map<nat, nat>, n: nat, k: nat, d: Need)
    requires n in rank && n < |net.nodes|
  {
    k in rank && rank[k] < rank[n] && Connects(net, n, TransitHop(net.nodes[n], dst), k, d)
  }

  /** So is the sender, which no ranked node needs. */
  ghost predicate OriginConnects(net: Inet, dst: Ip, rank: map<nat, nat>, o: nat) {
    o < |net.nodes| && o !in rank &&
    (IsHome(net.nodes[o], dst) || exists k: nat, d: Need :: FirstConnects(net, dst, rank, o, k, d))
  }

  ghost predicate FirstConnects(net: Inet, dst: Ip, rank: map<nat, nat>, o: nat, k: nat, d: Need)
    requires o < |net.nodes|
  {
    k in rank && rank[k] < 64 && Connects(net, o, OriginHop(net.nodes[o], dst), k, d)
  }

  ghost function NextNeed(net: Inet, dst: Ip, rank: map<nat, nat>, n: nat): (kd: (nat, Need))
    requires RoutesConnect(net, dst, rank) && n in rank && !IsHome(net.nodes[n], dst)
    ensures NextRank(net, dst, rank, n, kd.0, kd.1)
  {
    var k: nat, d: Need :| NextRank(net, dst, rank, n, k, d);
    (k, d)
  }

  ghost function TransitNeeds(net: Inet, dst: Ip, rank: map<nat, nat>): map<nat, Need>
    requires RoutesConnect(net, dst, rank)
  {
    map n | n in rank && !IsHome(net.nodes[n], dst) :: NextNeed(net, dst, rank, n).1
  }

  lemma TransitLearnable(net: Inet, dst: Ip, rank: map<nat, nat>)
    requires RoutesConnect(net, dst, rank)
    ensures Learnable(net, TransitNeeds(net, dst, rank))
  {
    var needs := TransitNeeds(net, dst, rank);
    forall n | n in needs ensures LearnableBy(net, needs, n) {
      assert NextRank(net, dst, rank, n, NextNeed(net, dst, rank, n).0, needs[n]);
    }
  }

  /** Once the nodes have learned what they need, the routes lead. */
  lemma LearnedRoutesLead(net: Inet, hs: seq<Holder>, evs: seq<ArpEvent>, dst: Ip, rank: map<nat, nat>)
    requires RoutesConnect(net, dst, rank)
    requires forall n :: n in TransitNeeds(net, dst, rank) ==> Learned(net, hs, evs, TransitNeeds(net, dst, rank)[n])
    ensures |ArpRun(hs, |net.nodes|, evs).tables| == |net.nodes|
    ensures RoutesLead(net, ArpRun(hs, |net.nodes|, evs).tables, dst, rank)
  {
    var arp := ArpRun(hs, |net.nodes|, evs).tables;
    RunTables(hs, |net.nodes|, evs);
    forall n | n in rank && !IsHome(net.nodes[n], dst)
      ensures exists k: nat :: Closer(net, arp, dst, rank, n, k)
    {
      var (k, d) := NextNeed(net, dst, rank, n);
      LearnedLeads(net, hs, evs, n, TransitHop(net.nodes[n], dst), k, TransitNeeds(net, dst, rank)[n]);
      assert Closer(net, arp, dst, rank, n, k);
    }
  }

  lemma LearnedOriginLeads(net: Inet, hs: seq<Holder>, evs: seq<ArpEvent>, dst: Ip, rank: map<nat, nat>, o: nat,
                           k: nat, d: Need)
    requires o < |net.nodes| && FirstConnects(net, dst, rank, o, k, d) && Learned(net, hs, evs, d)
    requires |ArpRun(hs, |net.nodes|, evs).tables| == |net.nodes|
    ensures OriginLeads(net, ArpRun(hs, |net.nodes|, evs).tables, dst, rank, o)
  {
    LearnedLeads(net, hs, evs, o, OriginHop(net.nodes[o], dst), k, d);
    assert FirstHop(net, ArpRun(hs, |net.nodes|, evs).tables, dst, rank, o, k);
  }

  lemma OneMoreNeed(net: Inet, needs: map<nat, Need>, o: nat, d: Need)
    requires Learnable(net, needs) && d.p.0 == o && CanLearn(net, d)
    ensures Learnable(net, needs[o := d])
  {
    var more := needs[o := d];
    forall n | n in more ensures LearnableBy(net, more, n) {
      if n != o {
        assert LearnableBy(net, needs, n);
      }
    }
  }

  /** What the sender and the ranked nodes need, those in `transit`. */
  lemma AllNeeds(net: Inet, dst: Ip, rank: map<nat, nat>, o: nat, transit: map<nat, Need>)
      returns (needs: map<nat, Need>, k: nat, d: Need)
    requires OriginConnects(net, dst, rank, o) && Learnable(net, transit) && o !in transit
    ensures Learnable(net, needs) && forall n :: n in transit ==> n in needs && needs[n] == transit[n]
    ensures !IsHome(net.nodes[o], dst) ==> FirstConnects(net, dst, rank, o, k, d) && o in needs && needs[o] == d
  {
    needs, k, d := transit, 0, Need((0, 0), 0, (0, 0));
    if !IsHome(net.nodes[o], dst) {
      k, d :| FirstConnects(net, dst, rank, o, k, d);
      OneMoreNeed(net, transit, o, d);
      needs := transit[o := d];
    }
  }

  /**
   * From nothing: if routes, addresses and segments connect the sender to the destination, then
   * after some exchanges, which the segments deliver, what the sender makes of `body` arrives.
   */
  lemma FromNothing(net: Inet, hs: seq<Holder>, dst: Ip, rank: map<nat, nat>, o: nat, body: Body)
      returns (needs: map<nat, Need>, evs: seq<ArpEvent>, j: seq<Place>)
    requires ValidInet(net) && ListsAll(net, hs) && RoutesConnect(net, dst, rank) && OriginConnects(net, dst, rank, o)
    ensures Learnable(net, needs) && AllDone(net, hs, evs, needs, needs.Keys)
    ensures var arp := ArpRun(hs, |net.nodes|, evs).tables;
      && |arp| == |net.nodes| && ArpTrue(net, arp)
      && Arrives(net, arp, j) && SetsOut(net, arp, o, body, dst, j) && IsOwn(net.nodes[o], body, dst, j[0].pkt)
  {
    var k, d;
    TransitLearnable(net, dst, rank);
    needs, k, d := AllNeeds(net, dst, rank, o, TransitNeeds(net, dst, rank));
    evs := LearnAll(net, hs, needs, needs.Keys);
    ArpRunsAreTrue(net, hs, evs);
    forall n | n in TransitNeeds(net, dst, rank) ensures Learned(net, hs, evs, TransitNeeds(net, dst, rank)[n]) {
      assert Done(net, hs, evs, needs, n);
    }
    LearnedRoutesLead(net, hs, evs, dst, rank);
    if !IsHome(net.nodes[o], dst) {
      assert Done(net, hs, evs, needs, o);
      LearnedOriginLeads(net, hs, evs, dst, rank, o, k, d);
    }
    j := EndToEnd.EndToEnd(net, ArpRun(hs, |net.nodes|, evs).tables, rank, o, body, dst);
  }
}
