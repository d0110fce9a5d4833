/** Frames, and what an interface does to a frame coming in and going out. */
module Ethernet {
  import opened Wrappers
  import opened MacTable
  import opened Interface

  /** A 12-bit VLAN id, as the tag holds it. */
  type Vid = v: int | 0 <= v < 4096

  datatype Frame = Frame(dst: Mac, src: Mac, tag: Option<Vid>, etype: int, payload: seq<Byte>)

  datatype Verdict = Reject | Accept(vlanToTag: Vlan)

  datatype Port = Port(name: Name, cfg: PortCfg)

  /** Whether an interface with MAC `mac` takes a frame, and the VLAN to tag it with; 0 is none. */
  function Qualify(c: PortCfg, mac: Mac, f: Frame): Verdict
  {
    if !c.l3 && c.mode == Unknown then Reject
    else if c.l3 && f.tag.Some? then Reject
    else if c.mode == Access then
      if f.tag.Some? && f.tag.value != AccessVlan(c) then Reject else Accept(AccessVlan(c))
    else if c.mode == Trunk then
      if f.tag.None? then Reject else if TrunkMember(c, f.tag.value) then Accept(0) else Reject
    else if f.dst == mac || f.dst == BROADCAST then Accept(0)
    else Reject
  }

  function Tagged(f: Frame, v: Vlan): Frame {
    f.(tag := Some(v % 4096))
  }

  function Untagged(f: Frame): Frame {
    f.(tag := None)
  }

  /** A frame entering a switched interface, as handed to the switch; None is a drop. */
  function Ingress(c: PortCfg, f: Frame): Option<Frame>
    requires !c.l3
  {
    match Qualify(c, BROADCAST, f)
    case Reject => None
    case Accept(v) => Some(if v != 0 then Tagged(f, v) else f)
  }

  /** The VLAN a frame is forwarded in; an untagged one is in VLAN 0. */
  function VlanOf(f: Frame): Vlan {
    if f.tag.Some? then f.tag.value else 0
  }

  /** A frame leaving a switched interface, as put on the wire; None if it may not leave here. */
  function Egress(c: PortCfg, f: Frame): Option<Frame>
  {
    if c.mode == Trunk then
      if TrunkMember(c, VlanOf(f)) then Some(f) else None
    else if c.mode == Access then
      if AccessVlan(c) == VlanOf(f) then Some(Untagged(f)) else None
    else None
  }

  /** Tagging and untagging touch nothing but the tag. */
  lemma PortsKeepTheFrame(c: PortCfg, f: Frame)
    requires !c.l3
    ensures Ingress(c, f).Some? ==> Ingress(c, f).value == f.(tag := Ingress(c, f).value.tag)
    ensures Egress(c, f).Some? ==> Egress(c, f).value == f.(tag := Egress(c, f).value.tag)
  {
  }

  /** The port belongs to VLAN `v`. */
  predicate Carries(c: PortCfg, v: Vlan) {
    (c.mode == Access && AccessVlan(c) == v) || TrunkMember(c, v)
  }

  /** The port takes the frame as one of VLAN `v`: by its tag, or by the 12 bits a tag keeps of its own VLAN. */
  predicate Enters(c: PortCfg, f: Frame, v: Vid) {
    if f.tag.Some? then f.tag == Some(v) && Carries(c, v)
    else c.mode == Access && AccessVlan(c) % 4096 == v
  }

  /**
   * Inside a switch a frame is in VLAN `v` iff it enters in that VLAN. It may leave by a port iff
   * that belongs to the VLAN, and leaves as it came but for its tag: tagged on a trunk, unless it
   * entered untagged on an ACCESS port without a VLAN, and untagged on an ACCESS port.
   */
  lemma CrossingIff(p: PortCfg, q: PortCfg, f: Frame, v: Vid)
    requires !p.l3
    ensures Ingress(p, f).Some? && VlanOf(Ingress(p, f).value) == v <==> Enters(p, f, v)
    ensures Enters(p, f, v) ==>
      var tagged := f.tag.Some? || AccessVlan(p) != 0;
      Egress(q, Ingress(p, f).value) ==
        if !Carries(q, v) then None else Some(f.(tag := if q.mode == Trunk && tagged then Some(v) else None))
  {
  }

  /** The same on the slots: an ACCESS port is in the VLAN of its first one, a trunk in those of all of them. */
  lemma CarriesIff(c: PortCfg, v: Vlan)
    ensures Carries(c, v) <==> match c.mode
      case Access => c.vlans[0] == v
      case Trunk => v in c.vlans
      case Unknown => false
  {
  }

  /** A port takes a frame, and with which tag: its own if the port carries that, on an ACCESS port a new one. */
  lemma TakesIff(c: PortCfg, f: Frame)
    requires !c.l3
    ensures Ingress(c, f) == match c.mode
      case Access =>
        if f.tag.Some? && f.tag.value != c.vlans[0] then None
        else if c.vlans[0] == 0 then Some(f)
        else Some(f.(tag := Some(c.vlans[0] % 4096)))
      case Trunk => if f.tag.Some? && f.tag.value in c.vlans then Some(f) else None
      case Unknown => None
  {
  }

  /** A routed interface accepts exactly the untagged frames sent to it or to everyone. */
  lemma RoutedAccepts(c: PortCfg, mac: Mac, f: Frame)
    requires c.l3 && c.mode == Unknown
    ensures Qualify(c, mac, f) != Reject <==>
      f.tag == None && (f.dst == mac || forall i :: 0 <= i < 6 ==> f.dst[i] == 0xFF)
  {
  }
}
