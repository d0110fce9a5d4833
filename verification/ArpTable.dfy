/** The ARP table: a list with duplicates that answers every lookup like a map. */
module ArpTable {
  import opened Wrappers
  import opened Glthread
  import opened MacTable
  import opened Prefix

  datatype ArpEntry = ArpEntry(ip: Ip, mac: Mac, oif: Name)

  const BROADCAST_IP: Ip := 0xFFFF_FFFF
  /** The string "local". */
  const LOCAL: Name := [0x6C, 0x6F, 0x63, 0x61, 0x6C]
  const INITIAL: ArpEntry := ArpEntry(BROADCAST_IP, BROADCAST, LOCAL)

  function HasIp(ip: Ip): ArpEntry -> bool {
    (e: ArpEntry) => e.ip == ip
  }

  function OtherIp(ip: Ip): ArpEntry -> bool {
    (e: ArpEntry) => e.ip != ip
  }

  function Resolve(es: seq<ArpEntry>, ip: Ip): Option<ArpEntry> {
    First(es, HasIp(ip))
  }

  /** `es` with the first entry for `e.ip`, if any, brought up to date. */
  function Updated(es: seq<ArpEntry>, e: ArpEntry): (r: seq<ArpEntry>)
    ensures |r| == |es|
  {
    if es == [] then [] else if es[0].ip == e.ip then [e] + es[1..] else [es[0]] + Updated(es[1..], e)
  }

  /** Adding updates the entry a lookup would find and then inserts the new one in front as well. */
  function Added(es: seq<ArpEntry>, e: ArpEntry): seq<ArpEntry> {
    [e] + Updated(es, e)
  }

  function Deleted(es: seq<ArpEntry>, ip: Ip): seq<ArpEntry> {
    Filter(es, OtherIp(ip))
  }

  // ----- each operation is the map operation

  /** The new entry is in front, and an older one for its address says the same from then on. */
  lemma AddedTwice(es: seq<ArpEntry>, e: ArpEntry)
    ensures |Added(es, e)| == |es| + 1 && Added(es, e)[0] == e
    ensures Resolve(Added(es, e)[1..], e.ip) == if Resolve(es, e.ip).Some? then Some(e) else None
  {
    if Resolve(es, e.ip).Some? {
      UpdatedFinds(es, e);
    } else {
      UpdatedWithout(es, e);
    }
  }

  lemma {:induction false} UpdatedFinds(es: seq<ArpEntry>, e: ArpEntry)
    requires Resolve(es, e.ip).Some?
    ensures Resolve(Updated(es, e), e.ip) == Some(e)
  {
    if es[0].ip == e.ip {
      assert HasIp(e.ip)(e);
    } else {
      assert ([es[0]] + Updated(es[1..], e))[1..] == Updated(es[1..], e);
      UpdatedFinds(es[1..], e);
    }
  }

  lemma AddedResolves(es: seq<ArpEntry>, e: ArpEntry, ip: Ip)
    ensures Resolve(Added(es, e), ip) == if ip == e.ip then Some(e) else Resolve(es, ip)
  {
    assert ([e] + Updated(es, e))[1..] == Updated(es, e);
    if ip != e.ip {
      UpdatedResolves(es, e, ip);
    }
  }

  lemma {:induction false} UpdatedResolves(es: seq<ArpEntry>, e: ArpEntry, ip: Ip)
    requires ip != e.ip
    ensures Resolve(Updated(es, e), ip) == Resolve(es, ip)
  {
    if es == [] {
    } else {
      assert ([e] + es[1..])[1..] == es[1..];
      assert ([es[0]] + Updated(es[1..], e))[1..] == Updated(es[1..], e);
      UpdatedResolves(es[1..], e, ip);
    }
  }

  lemma {:induction false} DeletedResolves(es: seq<ArpEntry>, gone: Ip, ip: Ip)
    ensures Resolve(Deleted(es, gone), ip) == if ip == gone then None else Resolve(es, ip)
  {
    if es == [] {
    } else {
      var rest := Deleted(es[1..], gone);
      DeletedResolves(es[1..], gone, ip);
      assert ([es[0]] + rest)[1..] == rest && [] + rest == rest;
    }
  }

  lemma {:induction false} UpdatedIsOverwrite(es: seq<ArpEntry>, e: ArpEntry, k: nat)
    requires k < |es| && es[k].ip == e.ip && forall j :: 0 <= j < k ==> es[j].ip != e.ip
    ensures Updated(es, e) == es[k := e]
  {
    if k == 0 {
    } else {
      UpdatedIsOverwrite(es[1..], e, k - 1);
    }
  }

  lemma UpdatedWithout(es: seq<ArpEntry>, e: ArpEntry)
    requires Resolve(es, e.ip).None?
    ensures Updated(es, e) == es
  {
    if es == [] {
    } else {
      assert !HasIp(e.ip)(es[0]);
      UpdatedWithout(es[1..], e);
    }
  }

  // ----- every run of operations

  datatype ArpOp = Add(e: ArpEntry) | Delete(ip: Ip)

  function RunList(ops: seq<ArpOp>): seq<ArpEntry> {
    if ops == [] then [INITIAL] else
      var before, last := RunList(ops[..|ops| - 1]), ops[|ops| - 1];
      match last
      case Add(e) => Added(before, e)
      case Delete(ip) => Deleted(before, ip)
  }

  function RunMap(ops: seq<ArpOp>): map<Ip, ArpEntry> {
    if ops == [] then map[BROADCAST_IP := INITIAL] else
      var before, last := RunMap(ops[..|ops| - 1]), ops[|ops| - 1];
      match last
      case Add(e) => before[e.ip := e]
      case Delete(ip) => before - {ip}
  }

  /** After any run, every lookup in the list, duplicates and all, is a lookup in the map. */
  lemma {:induction false} ArpTableRefinesMap(ops: seq<ArpOp>, ip: Ip)
    ensures Resolve(RunList(ops), ip) == if ip in RunMap(ops) then Some(RunMap(ops)[ip]) else None
  {
    if ops == [] {
      assert HasIp(BROADCAST_IP)(INITIAL);
    } else {
      var front, last := ops[..|ops| - 1], ops[|ops| - 1];
      ArpTableRefinesMap(front, ip);
      match last
      case Add(e) => AddedResolves(RunList(front), e, ip);
      case Delete(gone) =>
        DeletedResolves(RunList(front), gone, ip);
        assert ip in RunMap(ops) <==> ip in RunMap(front) && ip != gone;
    }
  }

  // ----- the table itself

  class ArpTable {
    const list: GlList<ArpEntry>

    ghost predicate Valid()
      reads this, list, list.repr
    {
      list.Valid()
    }

    constructor ()
      ensures Valid() && list.entries == [INITIAL] && fresh(list) && fresh(list.repr)
    {
      list := new GlList(INITIAL);
      new;
      var n := new Glue(INITIAL);
      list.Push(n);
    }

    method LookupEntry(ip: Ip) returns (e: Glue?<ArpEntry>, ghost k: nat)
      requires Valid()
      ensures e == null <==> Resolve(list.entries, ip).None?
      ensures e != null ==> Resolve(list.entries, ip) == Some(e.data) && e in list.repr
      ensures e != null ==> k < |list.entries| && e == list.links[k + 1] && list.entries[k].ip == ip
      ensures e != null ==> forall j :: 0 <= j < k ==> list.entries[j].ip != ip
    {
      e, k := list.Find(HasIp(ip));
      assert e != null ==> forall j :: 0 <= j < k ==> !HasIp(ip)(list.entries[j]);
    }

    /**
     * The early return of the program compares whole structures, links included. An entry in
     * the table always has a left neighbour and a new one has none, so it is never taken.
     */
    method AddEntry(n: Glue<ArpEntry>) returns (added: bool)
      requires Valid() && n !in list.repr && n.left == null && n.right == null
      modifies list, list.repr, n
      ensures Valid() && list.repr == old(list.repr) + {n}
      ensures added && list.entries == Added(old(list.entries), old(n.data))
    {
      var old_, k := LookupEntry(n.data.ip);
      if old_ != null {
        var sameLeft, sameRight := old_.left == n.left, old_.right == n.right;
        if old_.data == n.data && sameLeft && sameRight {
          assert false;
        }
        UpdatedIsOverwrite(list.entries, n.data, k);
        list.Overwrite(old_, k, ArpEntry(old_.data.ip, n.data.mac, n.data.oif));
      } else {
        UpdatedWithout(list.entries, n.data);
      }
      list.Push(n);
      added := true;
    }

    method DeleteEntry(ip: Ip)
      requires Valid()
      modifies list, list.repr
      ensures Valid() && list.repr == old(list.repr)
      ensures list.entries == Deleted(old(list.entries), ip)
    {
      ghost var visited := list.RetainIf(OtherIp(ip));
    }
  }
}
