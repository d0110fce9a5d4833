/** One switch: it learns where a frame comes from and forwards or floods it. */
module Switch {
  import opened Wrappers
  import opened MacTable
  import opened Interface
  import opened Ethernet

  /** The interface of that name: the first slot that holds it. */
  function PortByName(ports: seq<Port>, name: Name): (i: Option<nat>)
    ensures i.Some? ==> i.value < |ports| && ports[i.value].name == name
    ensures i.Some? ==> forall j :: 0 <= j < i.value ==> ports[j].name != name
    ensures i.None? ==> forall j :: 0 <= j < |ports| ==> ports[j].name != name
  {
    if ports == [] then None
    else if ports[0].name == name then Some(0)
    else var i := PortByName(ports[1..], name);
      if i.Some? then Some(i.value + 1) else None
  }

  /** A frame goes everywhere if it is a broadcast or its destination is not in the table. */
  predicate Floods(es: seq<MacEntry>, f: Frame) {
    f.dst == BROADCAST || PortOf(es, f.dst).None?
  }

  /**
   * What a switch with table `es` puts on the wire of port `i` for a frame that came in on
   * port `iif`. Each port gets its own copy of the frame.
   */
  function Forwarded(ports: seq<Port>, es: seq<MacEntry>, iif: nat, f: Frame, i: nat): Option<Frame>
    requires i < |ports|
  {
    if Floods(es, f) then
      if i == iif || ports[i].cfg.mode == Unknown then None else Egress(ports[i].cfg, f)
    else if PortByName(ports, PortOf(es, f.dst).value) == Some(i) then Egress(ports[i].cfg, f)
    else None
  }

  lemma ForwardedByName(ports: seq<Port>, es: seq<MacEntry>, iif: nat, f: Frame, i: nat)
    requires i < |ports| && Forwarded(ports, es, iif, f, i).Some?
    ensures !Floods(es, f) ==> ports[i].name == PortOf(es, f.dst).value
    ensures Floods(es, f) ==> i != iif
  {
  }

  /**
   * A frame leaves by a port iff that port carries its VLAN, and either it is the first of the
   * name the table has for the destination, or there is no such name, or the frame is for
   * everyone, and the port is not the one the frame came in on. It leaves a trunk as it is and an
   * ACCESS port untagged.
   */
  lemma ForwardedIff(ports: seq<Port>, es: seq<MacEntry>, iif: nat, f: Frame, i: nat)
    requires i < |ports|
    ensures var c, vlan := ports[i].cfg, if f.tag.Some? then f.tag.value else 0;
      var name := if f.dst == [0xFF, 0xFF, 0xFF, 0xFF, 0xFF, 0xFF] then None else PortOf(es, f.dst);
      var carried := (c.mode == Access && c.vlans[0] == vlan) || (c.mode == Trunk && vlan in c.vlans);
      var meant := match name
        case None => i != iif
        case Some(n) => ports[i].name == n && forall j :: 0 <= j < i ==> ports[j].name != n;
      Forwarded(ports, es, iif, f, i) ==
        if carried && meant then Some(f.(tag := if c.mode == Trunk then f.tag else None)) else None
  {
    if !Floods(es, f) {
      var k := PortByName(ports, PortOf(es, f.dst).value);
    }
  }

  class Switch {
    const table: MacTable
    const ports: seq<Port>

    ghost predicate Valid()
      reads this, table, table.list, table.list.repr
    {
      table.Valid()
    }

    constructor (ports: seq<Port>)
      ensures Valid() && table.list.entries == [] && this.ports == ports
    {
      table := new MacTable();
      this.ports := ports;
    }

    method SendOut(f: Frame, i: nat) returns (sent: Option<Frame>)
      requires i < |ports|
      ensures sent == Egress(ports[i].cfg, f)
    {
      var c := ports[i].cfg;
      var vlan: Vlan := 0;
      if f.tag.Some? {
        vlan := f.tag.value;
      }
      if c.mode == Trunk {
        if !TrunkMember(c, vlan) {
          return None;
        }
        return Some(f);
      }
      if c.mode == Access {
        if AccessVlan(c) != vlan {
          return None;
        }
        return Some(Untagged(f));
      }
      return None;
    }

    method FloodOut(f: Frame, iif: nat) returns (sent: seq<Option<Frame>>)
      ensures |sent| == |ports|
      ensures forall i :: 0 <= i < |ports| ==>
        sent[i] == if i == iif || ports[i].cfg.mode == Unknown then None else Egress(ports[i].cfg, f)
    {
      sent := [];
      var i := 0;
      while i < |ports|
        invariant 0 <= i <= |ports| && |sent| == i
        invariant forall j :: 0 <= j < i ==>
          sent[j] == if j == iif || ports[j].cfg.mode == Unknown then None else Egress(ports[j].cfg, f)
      {
        var copy := None;
        if i != iif && ports[i].cfg.mode != Unknown {
          copy := SendOut(f, i);
        }
        sent := sent + [copy];
        i := i + 1;
      }
    }

    /**
     * A frame received on port `iif`, already qualified and tagged: learn its source, then
     * forward it. `sent[i]` is what goes out on port `i`.
     */
    method RecvFrame(iif: nat, f: Frame) returns (sent: seq<Option<Frame>>)
      requires Valid() && iif < |ports|
      modifies table.list, table.list.repr
      ensures Valid()
      ensures table.list.entries == Learned(old(table.list.entries), f.src, ports[iif].name)
      ensures |sent| == |ports|
      ensures forall i :: 0 <= i < |ports| ==> sent[i] == Forwarded(ports, table.list.entries, iif, f, i)
    {
      table.Learn(f.src, ports[iif].name);
      if f.dst == BROADCAST {
        sent := FloodOut(f, iif);
        return;
      }
      var entry := table.LookupEntry(f.dst);
      if entry == null {
        sent := FloodOut(f, iif);
        return;
      }
      sent := seq(|ports|, i => None);
      var oif := PortByName(ports, entry.data.oif);
      if oif.Some? {
        var copy := SendOut(f, oif.value);
        sent := sent[oif.value := copy];
      }
    }
  }
}
