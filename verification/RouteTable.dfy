/** The longest-prefix-match route table. */
module RouteTable {
  import opened Wrappers
  import opened Glthread
  import opened MacTable
  import opened Prefix

  datatype Route = Route(dest: Ip, mask: MaskLen, isDirect: bool, gw: Ip, oif: Name)

  predicate Matches(r: Route, ip: Ip) {
    Mask(ip, r.mask) == r.dest
  }

  predicate Canonical(r: Route) {
    Mask(r.dest, r.mask) == r.dest
  }

  /** The loop of the route lookup: a later route replaces the best one if its mask is longer. */
  function Lpm(rs: seq<Route>, ip: Ip): Option<Route> {
    if rs == [] then None else
      var best, last := Lpm(rs[..|rs| - 1], ip), rs[|rs| - 1];
      if Matches(last, ip) && (best.None? || last.mask > best.value.mask) then Some(last) else best
  }

  /** Route `k` contains `ip`, no other such route has a longer mask, and no newer one as long. */
  ghost predicate LongestAt(rs: seq<Route>, ip: Ip, k: nat) {
    && k < |rs| && Covers(rs[k].dest, rs[k].mask, ip)
    && forall i :: 0 <= i < |rs| && Covers(rs[i].dest, rs[i].mask, ip) ==>
         rs[i].mask < rs[k].mask || (rs[i].mask == rs[k].mask && k <= i)
  }

  /** What a route lookup owes its caller; the newest route comes first in `rs`. */
  ghost predicate IsLongestMatch(rs: seq<Route>, ip: Ip, r: Option<Route>) {
    match r
    case None => forall i :: 0 <= i < |rs| ==> !Covers(rs[i].dest, rs[i].mask, ip)
    case Some(best) => exists k: nat :: LongestAt(rs, ip, k) && rs[k] == best
  }

  ghost predicate AllCanonical(rs: seq<Route>) {
    forall i :: 0 <= i < |rs| ==> Canonical(rs[i])
  }

  lemma MatchesIffCovers(r: Route, ip: Ip)
    requires Canonical(r)
    ensures Matches(r, ip) <==> Covers(r.dest, r.mask, ip)
  {
    MaskedEqualIffCovers(r.dest, ip, r.mask);
  }

  // ----- the lookup is exact

  /** The loop returns the newest route among the longest ones containing `ip`, if any does. */
  lemma LpmIsLongestMatch(rs: seq<Route>, ip: Ip)
    requires AllCanonical(rs)
    ensures IsLongestMatch(rs, ip, Lpm(rs, ip))
  {
    var k := LpmPosition(rs, ip);
  }

  lemma {:induction false} LpmPosition(rs: seq<Route>, ip: Ip) returns (k: nat)
    requires AllCanonical(rs)
    ensures Lpm(rs, ip).None? ==> forall i :: 0 <= i < |rs| ==> !Covers(rs[i].dest, rs[i].mask, ip)
    ensures Lpm(rs, ip).Some? ==> LongestAt(rs, ip, k) && rs[k] == Lpm(rs, ip).value
  {
    k := 0;
    if rs == [] {
    } else {
      var front, last := rs[..|rs| - 1], rs[|rs| - 1];
      k := LpmPosition(front, ip);
      MatchesIffCovers(last, ip);
      if Matches(last, ip) && (Lpm(front, ip).None? || last.mask > front[k].mask) {
        k := |rs| - 1;
        assert rs[k] == last;
      } else {
        assert Lpm(rs, ip).Some? ==> rs[k] == front[k];
      }
    }
  }

  /** The match is the most specific: its addresses lie in every stored prefix containing `ip`. */
  lemma LpmMostSpecific(rs: seq<Route>, ip: Ip, r: Route, other: Ip)
    requires AllCanonical(rs) && r in rs && Covers(r.dest, r.mask, ip)
    ensures Lpm(rs, ip).Some?
    ensures var best := Lpm(rs, ip).value;
      Covers(best.dest, best.mask, other) ==> Covers(r.dest, r.mask, other)
  {
    LpmIsLongestMatch(rs, ip);
    var i :| 0 <= i < |rs| && rs[i] == r;
    var best := Lpm(rs, ip).value;
    if Covers(best.dest, best.mask, other) {
      CoveringPrefixesNest(r.dest, r.mask, best.dest, best.mask, ip, other);
    }
  }

  /** Which prefix wins does not depend on the order, or the number of times, routes were added. */
  lemma LpmOrderFree(rs: seq<Route>, ss: seq<Route>, ip: Ip)
    requires AllCanonical(rs) && AllCanonical(ss) && (forall r :: r in rs <==> r in ss)
    ensures Lpm(rs, ip).Some? <==> Lpm(ss, ip).Some?
    ensures Lpm(rs, ip).Some? ==>
      Lpm(rs, ip).value.mask == Lpm(ss, ip).value.mask && Lpm(rs, ip).value.dest == Lpm(ss, ip).value.dest
  {
    LpmAtLeast(rs, ss, ip);
    LpmAtLeast(ss, rs, ip);
    LpmInTable(rs, ip);
    LpmInTable(ss, ip);
  }

  lemma LpmAtLeast(rs: seq<Route>, ss: seq<Route>, ip: Ip)
    requires AllCanonical(rs) && AllCanonical(ss) && (forall r :: r in rs ==> r in ss)
    ensures Lpm(rs, ip).Some? ==> Lpm(ss, ip).Some? && Lpm(rs, ip).value.mask <= Lpm(ss, ip).value.mask
  {
    LpmInTable(rs, ip);
    LpmIsLongestMatch(ss, ip);
    if Lpm(rs, ip).Some? {
      var best := Lpm(rs, ip).value;
      var i :| 0 <= i < |ss| && ss[i] == best;
      MatchesIffCovers(best, ip);
    }
  }

  /** The lookup answers with a stored route that matches. */
  lemma LpmInTable(rs: seq<Route>, ip: Ip)
    ensures Lpm(rs, ip).Some? ==> Lpm(rs, ip).value in rs && Matches(Lpm(rs, ip).value, ip)
  {
  }

  // ----- the table itself

  class RouteTable {
    const list: GlList<Route>

    ghost predicate Valid()
      reads this, list, list.repr
    {
      list.Valid() && AllCanonical(list.entries)
    }

    constructor ()
      ensures Valid() && list.entries == [] && fresh(list) && fresh(list.repr)
    {
      list := new GlList(Route(0, 32, false, 0, []));
    }

    /** The destination is stored as given: its callers pass a masked one or a host address. */
    method AddDirectRoute(dst: Ip, mask: MaskLen)
      requires Valid() && Mask(dst, mask) == dst
      modifies list, list.repr
      ensures Valid() && fresh(list.repr - old(list.repr))
      ensures list.entries == [Route(dst, mask, true, 0, [])] + old(list.entries)
    {
      var n := new Glue(Route(dst, mask, true, 0, []));
      list.Push(n);
    }

    method AddRoute(dst: Ip, mask: MaskLen, gw: Ip, oif: Name)
      requires Valid()
      modifies list, list.repr
      ensures Valid() && fresh(list.repr - old(list.repr))
      ensures list.entries == [Route(Mask(dst, mask), mask, false, gw, oif)] + old(list.entries)
    {
      MaskMask(dst, mask, mask);
      var destNetwork := ApplyMask(dst, mask);
      var n := new Glue(Route(destNetwork, mask, false, gw, oif));
      list.Push(n);
    }

    method LookupLpm(dest: Ip) returns (r: Glue?<Route>)
      requires Valid()
      ensures r == null <==> Lpm(list.entries, dest).None?
      ensures r != null ==> Lpm(list.entries, dest) == Some(r.data)
      ensures IsLongestMatch(list.entries, dest, if r == null then None else Some(r.data))
    {
      r := null;
      var longestMask: int := 0;
      var curr := list.head.right;
      ghost var k := 0;
      while curr != null
        invariant 0 <= k < |list.links|
        invariant curr == if k + 1 < |list.links| then list.links[k + 1] else null
        invariant r == null <==> Lpm(list.entries[..k], dest).None?
        invariant r != null ==> Lpm(list.entries[..k], dest) == Some(r.data)
        invariant longestMask == if r == null then 0 else r.data.mask
        decreases |list.links| - k
      {
        assert list.entries[..k + 1][..k] == list.entries[..k];
        var subnet := ApplyMask(dest, curr.data.mask);
        if subnet == curr.data.dest {
          if curr.data.mask > longestMask {
            longestMask := curr.data.mask;
            r := curr;
          }
        }
        curr := curr.right;
        k := k + 1;
      }
      assert list.entries[..k] == list.entries;
      LpmIsLongestMatch(list.entries, dest);
    }
  }
}
