/**
 * ARP over every run. Any frame ever sent on a segment may reach any interface on it, at any
 * time and any number of times, so the results hold for every medium and every interleaving.
 */
module ArpProtocol {
  import opened Wrappers
  import opened MacTable
  import opened Prefix
  import opened ArpTable

  /** A routed interface of node `node`, on segment `seg`. */
  datatype Holder = Holder(node: nat, name: Name, mac: Mac, ip: Ip, seg: nat)

  datatype ArpMsg =
    | Request(srcMac: Mac, srcIp: Ip, dstIp: Ip)
    | Reply(srcMac: Mac, srcIp: Ip, dstMac: Mac, dstIp: Ip)

  datatype ArpFrame = ArpFrame(dst: Mac, src: Mac, msg: ArpMsg)

  /** `air` holds every frame ever sent, with the segment it was sent on. */
  datatype ArpState = ArpState(tables: seq<seq<ArpEntry>>, air: set<(nat, ArpFrame)>)

  datatype ArpEvent =
    | Ask(i: nat, target: Ip)
    | Hear(i: nat, frame: ArpFrame)
    | Forget(node: nat, ip: Ip)

  /** The reply to a request, made by the interface that holds the address asked for. */
  function ReplyTo(h: Holder, f: ArpFrame): ArpFrame
    requires f.msg.Request?
  {
    ArpFrame(f.src, h.mac, Reply(h.mac, f.msg.dstIp, f.msg.srcMac, f.msg.srcIp))
  }

  function AskFrame(h: Holder, target: Ip): ArpFrame {
    ArpFrame(BROADCAST, h.mac, Request(h.mac, h.ip, target))
  }

  function ArpStep(hs: seq<Holder>, s: ArpState, e: ArpEvent): ArpState {
    match e
    case Ask(i, target) =>
      if i < |hs| then s.(air := s.air + {(hs[i].seg, AskFrame(hs[i], target))}) else s
    case Hear(i, f) =>
      if i >= |hs| || (hs[i].seg, f) !in s.air || (f.dst != hs[i].mac && f.dst != BROADCAST) then s
      else if f.msg.Request? then
        if hs[i].ip != f.msg.dstIp then s else s.(air := s.air + {(hs[i].seg, ReplyTo(hs[i], f))})
      else if hs[i].node >= |s.tables| then s
      else
        var t := Added(s.tables[hs[i].node], ArpEntry(f.msg.srcIp, f.msg.srcMac, hs[i].name));
        s.(tables := s.tables[hs[i].node := t])
    case Forget(n, ip) =>
      if n < |s.tables| then s.(tables := s.tables[n := Deleted(s.tables[n], ip)]) else s
  }

  /**
   * A request is a broadcast that names its sender and the address asked for. What a holder of
   * the address sends on hearing it is for the request's sender alone, and names the holder's MAC
   * and that address. Nothing else adds a frame.
   */
  lemma FramesSent(hs: seq<Holder>, s: ArpState, e: ArpEvent)
    ensures ArpStep(hs, s, e).air == s.air + match e
      case Ask(i, target) =>
        if i >= |hs| then {}
        else {(hs[i].seg, ArpFrame(BROADCAST, hs[i].mac, Request(hs[i].mac, hs[i].ip, target)))}
      case Hear(i, f) =>
        if i < |hs| && f.msg.Request? && f.msg.dstIp == hs[i].ip && Reaches(hs, s, i, f)
        then {(hs[i].seg, ArpFrame(f.src, hs[i].mac, Reply(hs[i].mac, hs[i].ip, f.msg.srcMac, f.msg.srcIp)))}
        else {}
      case Forget(_, _) => {}
  {
  }

  /** The frame is on the segment of interface `i`, and is for that interface or for everyone. */
  predicate Reaches(hs: seq<Holder>, s: ArpState, i: nat, f: ArpFrame)
    requires i < |hs|
  {
    (hs[i].seg, f) in s.air && (f.dst == hs[i].mac || f.dst == BROADCAST)
  }

  /**
   * What an event does to the answers of node `n`: a reply that reaches an interface of it gives
   * the sender's address its MAC and that interface, forgetting takes an answer away, and nothing
   * else changes any, a reply for another MAC included.
   */
  lemma AnswersAfter(hs: seq<Holder>, s: ArpState, e: ArpEvent, n: nat, ip: Ip)
    requires n < |s.tables|
    ensures |ArpStep(hs, s, e).tables| == |s.tables|
    ensures var before, after := Resolve(s.tables[n], ip), Resolve(ArpStep(hs, s, e).tables[n], ip);
      after == match e
        case Ask(_, _) => before
        case Hear(i, f) =>
          if i < |hs| && hs[i].node == n && f.msg.Reply? && f.msg.srcIp == ip && Reaches(hs, s, i, f)
          then Some(ArpEntry(ip, f.msg.srcMac, hs[i].name))
          else before
        case Forget(m, gone) => if m == n && gone == ip then None else before
  {
    match e
    case Ask(_, _) =>
    case Hear(i, f) =>
      if i < |hs| && hs[i].node == n && f.msg.Reply? {
        AddedResolves(s.tables[n], ArpEntry(f.msg.srcIp, f.msg.srcMac, hs[i].name), ip);
      }
    case Forget(m, gone) =>
      DeletedResolves(s.tables[n], gone, ip);
  }

  function ArpRun(hs: seq<Holder>, nodes: nat, evs: seq<ArpEvent>): ArpState {
    if evs == [] then ArpState(seq(nodes, i => [INITIAL]), {})
    else ArpStep(hs, ArpRun(hs, nodes, evs[..|evs| - 1]), evs[|evs| - 1])
  }

  /** Some interface on the segment really has this address pair. */
  ghost predicate Held(hs: seq<Holder>, seg: nat, ip: Ip, mac: Mac) {
    exists i :: 0 <= i < |hs| && hs[i].seg == seg && hs[i].ip == ip && hs[i].mac == mac
  }

  /** An entry of node `n` is the built-in one or true of the segment of the interface it names. */
  ghost predicate EntryTrue(hs: seq<Holder>, n: nat, e: ArpEntry) {
    e == INITIAL ||
    exists i :: 0 <= i < |hs| && hs[i].node == n && hs[i].name == e.oif && Held(hs, hs[i].seg, e.ip, e.mac)
  }

  ghost predicate Sound(hs: seq<Holder>, s: ArpState) {
    && (forall p :: p in s.air && p.1.msg.Reply? ==> Held(hs, p.0, p.1.msg.srcIp, p.1.msg.srcMac))
    && (forall n, e :: 0 <= n < |s.tables| && e in s.tables[n] ==> EntryTrue(hs, n, e))
  }

  lemma {:induction false} UpdatedMembers(es: seq<ArpEntry>, e: ArpEntry, x: ArpEntry)
    requires x in Updated(es, e)
    ensures x == e || x in es
  {
    if es != [] && es[0].ip != e.ip {
      if x != es[0] {
        UpdatedMembers(es[1..], e, x);
      }
    }
  }

  lemma StepKeepsSound(hs: seq<Holder>, s: ArpState, ev: ArpEvent)
    requires Sound(hs, s)
    ensures Sound(hs, ArpStep(hs, s, ev))
  {
    var s' := ArpStep(hs, s, ev);
    forall n, e | 0 <= n < |s'.tables| && e in s'.tables[n] ensures EntryTrue(hs, n, e) {
      match ev
      case Ask(_, _) =>
      case Forget(m, ip) =>
        if m == n {
          FilterMembers(s.tables[n], OtherIp(ip));
        }
      case Hear(i, f) =>
        if s'.tables != s.tables && n == hs[i].node {
          var new_ := ArpEntry(f.msg.srcIp, f.msg.srcMac, hs[i].name);
          if e == new_ {
            assert Held(hs, hs[i].seg, e.ip, e.mac);
          } else {
            UpdatedMembers(s.tables[n], new_, e);
          }
        }
    }
  }

  /** After any run, every ARP entry but the built-in broadcast one is true. */
  lemma {:induction false} ArpSound(hs: seq<Holder>, nodes: nat, evs: seq<ArpEvent>)
    ensures |ArpRun(hs, nodes, evs).tables| == nodes && Sound(hs, ArpRun(hs, nodes, evs))
  {
    if evs == [] {
    } else {
      var front := evs[..|evs| - 1];
      ArpSound(hs, nodes, front);
      StepKeepsSound(hs, ArpRun(hs, nodes, front), evs[|evs| - 1]);
    }
  }

  /**
   * So a frame sent by the table carries the next hop's MAC, whichever node sends it and when,
   * and the next hop is on the segment of the interface the entry was learned on.
   */
  lemma ResolvedMacIsReal(hs: seq<Holder>, nodes: nat, evs: seq<ArpEvent>, n: nat, nextHop: Ip)
    requires n < nodes && |ArpRun(hs, nodes, evs).tables| == nodes
    ensures var e := Resolve(ArpRun(hs, nodes, evs).tables[n], nextHop);
      e.Some? ==> e.value.ip == nextHop && EntryTrue(hs, n, e.value)
  {
    ArpSound(hs, nodes, evs);
    var es := ArpRun(hs, nodes, evs).tables[n];
    if Resolve(es, nextHop).Some? {
      var e := Resolve(es, nextHop).value;
      assert e in es && HasIp(nextHop)(e);
    }
  }

  /** The state after interface `i` asked for `j`'s address, `j` heard that, and `i` heard the reply. */
  function Exchange(hs: seq<Holder>, s: ArpState, i: nat, j: nat): ArpState
    requires i < |hs| && j < |hs| && hs[i].seg == hs[j].seg
  {
    var ask := AskFrame(hs[i], hs[j].ip);
    ArpStep(hs, ArpStep(hs, ArpStep(hs, s, Ask(i, hs[j].ip)), Hear(j, ask)), Hear(i, ReplyTo(hs[j], ask)))
  }

  /** An exchange makes the asking node resolve that address as it is, and changes nothing else. */
  lemma AskedAndAnswered(hs: seq<Holder>, s: ArpState, i: nat, j: nat, n: nat, ip: Ip)
    requires i < |hs| && j < |hs| && hs[i].seg == hs[j].seg && hs[i].node < |s.tables| && n < |s.tables|
    ensures |Exchange(hs, s, i, j).tables| == |s.tables|
    ensures Resolve(Exchange(hs, s, i, j).tables[n], ip) ==
            if n == hs[i].node && ip == hs[j].ip then Some(ArpEntry(ip, hs[j].mac, hs[i].name))
            else Resolve(s.tables[n], ip)
  {
    AddedResolves(s.tables[hs[i].node], ArpEntry(hs[j].ip, hs[j].mac, hs[i].name), ip);
  }

  // ----- waiting for a reply

  /** While a thread sleeps, the receiver thread may do anything to the table. */
  method Sleep(t: ArpTable)
    requires t.Valid()
    modifies t.list, t.list.repr
    ensures t.Valid() && t.list.repr == old(t.list.repr)
  {
  }

  /** Looks the next hop up; failing that, sends one request out of `oif`, sleeps, and looks again. */
  method ResolveNextHop(t: ArpTable, oif: Holder, nextHop: Ip) returns (mac: Option<Mac>, request: Option<ArpFrame>)
    requires t.Valid()
    modifies t.list, t.list.repr
    ensures t.Valid()
    ensures request.Some? <==> Resolve(old(t.list.entries), nextHop).None?
    ensures request.Some? ==> request.value == ArpFrame(BROADCAST, oif.mac, Request(oif.mac, oif.ip, nextHop))
    ensures request.None? ==> t.list.entries == old(t.list.entries)
    ensures mac.Some? <==> Resolve(t.list.entries, nextHop).Some?
    ensures mac.Some? ==> Resolve(t.list.entries, nextHop).value.mac == mac.value
  {
    request := None;
    var e, k := t.LookupEntry(nextHop);
    while e == null
      invariant t.Valid() && t.list.repr == old(t.list.repr)
      invariant request.Some? || t.list.entries == old(t.list.entries)
      invariant request.Some? ==> request.value == AskFrame(oif, nextHop)
      invariant request.Some? ==> Resolve(old(t.list.entries), nextHop).None?
      invariant e == null <==> Resolve(t.list.entries, nextHop).None?
      invariant e != null ==> Resolve(t.list.entries, nextHop) == Some(e.data)
      decreases if request.Some? then 0 else 1
    {
      if request.Some? {
        return None, request;
      }
      request := Some(AskFrame(oif, nextHop));
      Sleep(t);
      e, k := t.LookupEntry(nextHop);
    }
    mac := Some(e.data.mac);
  }
}
