/** MAC addresses, interface names, and the learning table of a switch. */
module MacTable {
  import opened Wrappers
  import opened Glthread

  type Byte = x: int | 0 <= x < 256

  type Mac = m: seq<Byte> | |m| == 6 witness [0, 0, 0, 0, 0, 0]

  /** A C string: the bytes in front of its terminating zero. */
  type Name = n: seq<Byte> | 0 !in n witness []

  const BROADCAST: Mac := [0xFF, 0xFF, 0xFF, 0xFF, 0xFF, 0xFF]

  /** An entry; in memory the six bytes of `mac` are followed by the string `oif`. */
  datatype MacEntry = MacEntry(mac: Mac, oif: Name)

  /** What `strcmp` reads at `s`: everything in front of the first zero byte. */
  function CString(s: seq<Byte>): (r: seq<Byte>)
    ensures r <= s && 0 !in r && (|r| < |s| ==> s[|r|] == 0)
  {
    if s == [] || s[0] == 0 then [] else [s[0]] + CString(s[1..])
  }

  /** What `strcmp` reads at the address of an entry's MAC, running on into its name. */
  function MacAsString(e: MacEntry): seq<Byte> {
    CString(e.mac + e.oif)
  }

  function HasMac(mac: Mac): MacEntry -> bool {
    (e: MacEntry) => e.mac == mac
  }

  function SurvivesDelete(victim: MacEntry): MacEntry -> bool {
    (e: MacEntry) => MacAsString(e) != MacAsString(victim)
  }

  function Lookup(es: seq<MacEntry>, mac: Mac): Option<MacEntry> {
    First(es, HasMac(mac))
  }

  function Learned(es: seq<MacEntry>, mac: Mac, oif: Name): seq<MacEntry> {
    var old_ := Lookup(es, mac);
    [MacEntry(mac, oif)] + if old_.Some? then Filter(es, SurvivesDelete(old_.value)) else es
  }

  /** The port a table gives for `mac`. */
  function PortOf(es: seq<MacEntry>, mac: Mac): Option<Name> {
    var e := Lookup(es, mac);
    if e.Some? then Some(e.value.oif) else None
  }

  ghost predicate UniqueMacs(es: seq<MacEntry>) {
    forall i, j :: 0 <= i < j < |es| ==> es[i].mac != es[j].mac
  }

  /** Two MACs that `strcmp` cannot tell apart: they agree up to their first zero byte. */
  ghost predicate Alias(m: Mac, n: Mac) {
    m != n && CString(m) == CString(n)
  }

  // ----- strcmp on raw MAC bytes

  lemma CStringAppend(a: seq<Byte>, b: seq<Byte>)
    ensures CString(a + b) == if CString(a) == a then a + CString(b) else CString(a)
    ensures |CString(a)| < |a| ==> a[|CString(a)|] == 0
  {
    if a == [] {
      assert a + b == b;
    } else {
      assert (a + b)[1..] == a[1..] + b;
      CStringAppend(a[1..], b);
    }
  }

  /** On entries with different MACs, deletion confuses two entries iff their MACs alias. */
  lemma DeleteConfusesIff(d: MacEntry, e: MacEntry)
    requires d.mac != e.mac
    ensures MacAsString(d) == MacAsString(e) <==> Alias(d.mac, e.mac)
  {
    CStringAppend(d.mac, d.oif);
    CStringAppend(e.mac, e.oif);
    NoZero(d.oif);
    NoZero(e.oif);
    if CString(d.mac) == d.mac && CString(e.mac) == e.mac {
      assert (d.mac + d.oif)[..6] == d.mac && (e.mac + e.oif)[..6] == e.mac;
    }
  }

  /** What deletion compares: the MACs up to a zero byte and, if there is none, the names as well. */
  lemma ComparesEqualIff(d: MacEntry, e: MacEntry)
    ensures MacAsString(d) == MacAsString(e) <==>
      if 0 in d.mac then CString(d.mac) == CString(e.mac) else d == e
  {
    CStringAppend(d.mac, d.oif);
    CStringAppend(e.mac, e.oif);
    NoZero(d.oif);
    NoZero(e.oif);
    if 0 !in d.mac && 0 !in e.mac {
      NoZero(d.mac);
      NoZero(e.mac);
      assert (d.mac + d.oif)[..6] == d.mac && (e.mac + e.oif)[..6] == e.mac;
      assert (d.mac + d.oif)[6..] == d.oif && (e.mac + e.oif)[6..] == e.oif;
    }
  }

  lemma NoZero(s: seq<Byte>)
    requires 0 !in s
    ensures CString(s) == s
  {
  }

  // ----- one learning step

  lemma {:induction false} UniqueFilter(es: seq<MacEntry>, keep: MacEntry -> bool)
    requires UniqueMacs(es)
    ensures UniqueMacs(Filter(es, keep))
  {
    if es == [] {
    } else {
      UniqueFilter(es[1..], keep);
      FilterMembers(es[1..], keep);
      assert forall e :: e in Filter(es[1..], keep) ==> e.mac != es[0].mac;
    }
  }

  lemma {:induction false} LookupFilter(es: seq<MacEntry>, keep: MacEntry -> bool, mac: Mac)
    requires UniqueMacs(es)
    ensures var e := Lookup(es, mac);
      Lookup(Filter(es, keep), mac) == if e.Some? && keep(e.value) then e else None
  {
    if es == [] {
    } else {
      var rest := Filter(es[1..], keep);
      LookupFilter(es[1..], keep, mac);
      assert ([es[0]] + rest)[1..] == rest && [] + rest == rest;
      if es[0].mac == mac {
        assert forall e :: e in es[1..] ==> !HasMac(mac)(e);
      }
    }
  }

  /**
   * What learning `mac` on port `oif` does to every binding: `mac` gets the new port, and
   * any other MAC keeps its port, or loses it exactly when `mac` was resident and aliases it.
   */
  lemma LearnedPort(es: seq<MacEntry>, mac: Mac, oif: Name, other: Mac)
    requires UniqueMacs(es)
    ensures UniqueMacs(Learned(es, mac, oif)) && Learned(es, mac, oif)[0] == MacEntry(mac, oif)
    ensures PortOf(Learned(es, mac, oif), other) ==
            if other == mac then Some(oif)
            else if PortOf(es, mac).Some? && Alias(mac, other) then None
            else PortOf(es, other)
  {
    var old_ := Lookup(es, mac);
    if old_.Some? {
      var keep := SurvivesDelete(old_.value);
      UniqueFilter(es, keep);
      LookupFilter(es, keep, other);
      LookupFilter(es, keep, mac);
      var e := Lookup(es, other);
      if e.Some? && other != mac {
        DeleteConfusesIff(old_.value, e.value);
      }
      AbsentMac(Filter(es, keep), mac);
    } else {
      AbsentMac(es, mac);
    }
  }

  lemma AbsentMac(es: seq<MacEntry>, mac: Mac)
    requires Lookup(es, mac).None?
    ensures forall i :: 0 <= i < |es| ==> es[i].mac != mac
  {
    forall i | 0 <= i < |es| ensures es[i].mac != mac {
      assert es[i] in es && !HasMac(mac)(es[i]);
    }
  }

  /** Learning is exactly a map update iff it is a first sighting or no resident MAC aliases. */
  lemma LearnIsMapUpdateIff(es: seq<MacEntry>, mac: Mac, oif: Name)
    requires UniqueMacs(es)
    ensures (forall m: Mac :: PortOf(Learned(es, mac, oif), m) == if m == mac then Some(oif) else PortOf(es, m))
       <==> (PortOf(es, mac).Some? ==> forall e :: e in es ==> !Alias(mac, e.mac))
  {
    forall m: Mac { LearnedPort(es, mac, oif, m); }
    forall e | e in es ensures PortOf(es, e.mac).Some? {
      assert HasMac(e.mac)(e);
    }
    if PortOf(es, mac).Some? && exists m: Mac :: Alias(mac, m) && PortOf(es, m).Some? {
      var m: Mac :| Alias(mac, m) && PortOf(es, m).Some?;
      assert Lookup(es, m).value in es;
    }
  }

  // ----- every run of learning steps

  datatype Sighting = Sighting(mac: Mac, oif: Name)

  function LearnAll(ops: seq<Sighting>): seq<MacEntry> {
    if ops == [] then [] else
      var last := ops[|ops| - 1];
      Learned(LearnAll(ops[..|ops| - 1]), last.mac, last.oif)
  }

  /** The port of the newest sighting of `mac`. */
  function Newest(ops: seq<Sighting>, mac: Mac): Option<Name> {
    if ops == [] then None
    else if ops[|ops| - 1].mac == mac then Some(ops[|ops| - 1].oif)
    else Newest(ops[..|ops| - 1], mac)
  }

  /**
   * Soundness of the table after any run: keys are unique, a binding is never anything but
   * the newest sighting of its MAC, and none is missing when no two sighted MACs alias.
   */
  lemma {:induction false} LearnAllSound(ops: seq<Sighting>, mac: Mac)
    ensures UniqueMacs(LearnAll(ops))
    ensures PortOf(LearnAll(ops), mac).Some? ==> PortOf(LearnAll(ops), mac) == Newest(ops, mac)
    ensures (forall i :: 0 <= i < |ops| ==> !Alias(ops[i].mac, mac)) ==> PortOf(LearnAll(ops), mac) == Newest(ops, mac)
  {
    if ops == [] {
    } else {
      var front, last := ops[..|ops| - 1], ops[|ops| - 1];
      LearnAllSound(front, mac);
      LearnedPort(LearnAll(front), last.mac, last.oif, mac);
    }
  }

  /** Two stations differing after their first zero byte: the second learning evicts the other. */
  lemma AliasEvictsExample()
    ensures var a: Mac, b: Mac := [7, 0, 1, 0, 0, 0], [7, 0, 2, 0, 0, 0];
      var ops := [Sighting(a, [1]), Sighting(b, [2]), Sighting(a, [1])];
      Newest(ops, b) == Some([2]) && PortOf(LearnAll(ops), b) == None
  {
    var a: Mac, b: Mac := [7, 0, 1, 0, 0, 0], [7, 0, 2, 0, 0, 0];
    var s1, s2, s3 := Sighting(a, [1]), Sighting(b, [2]), Sighting(a, [1]);
    var ops := [s1, s2, s3];
    assert ops[..2] == [s1, s2] && ops[..2][..1] == [s1] && [s1][..0] == [];
    assert CString(a) == [7] == CString(b) by {
      assert CString(a[1..]) == [] == CString(b[1..]);
    }
    LearnAllSound([s1], a);
    LearnAllSound([s1, s2], a);
    LearnedPort(LearnAll([s1]), b, [2], a);
    LearnedPort(LearnAll([s1, s2]), a, [1], b);
    assert [s1, s2][..1] == [s1] && LearnAll([s1]) == [MacEntry(a, [1])];
  }

  // ----- the table itself

  class MacTable {
    const list: GlList<MacEntry>

    ghost predicate Valid()
      reads this, list, list.repr
    {
      list.Valid() && UniqueMacs(list.entries)
    }

    constructor ()
      ensures Valid() && list.entries == [] && fresh(list) && fresh(list.repr)
    {
      list := new GlList(MacEntry([0, 0, 0, 0, 0, 0], []));
    }

    method LookupEntry(mac: Mac) returns (e: Glue?<MacEntry>)
      requires Valid()
      ensures e == null <==> Lookup(list.entries, mac).None?
      ensures e != null ==> Lookup(list.entries, mac) == Some(e.data)
    {
      ghost var k;
      e, k := list.Find(HasMac(mac));
    }

    method Delete(victim: MacEntry)
      requires Valid()
      modifies list, list.repr
      ensures Valid() && list.repr == old(list.repr)
      ensures list.entries == Filter(old(list.entries), SurvivesDelete(victim))
    {
      UniqueFilter(list.entries, SurvivesDelete(victim));
      ghost var visited := list.RetainIf(SurvivesDelete(victim));
    }

    method Learn(mac: Mac, oif: Name)
      requires Valid()
      modifies list, list.repr
      ensures Valid() && fresh(list.repr - old(list.repr))
      ensures list.entries == Learned(old(list.entries), mac, oif)
    {
      assert UniqueMacs(Learned(list.entries, mac, oif)) by {
        LearnedPort(list.entries, mac, oif, mac);
      }
      var old_ := LookupEntry(mac);
      if old_ != null {
        Delete(old_.data);
      }
      var n := new Glue(MacEntry(mac, oif));
      list.Push(n);
    }
  }
}
