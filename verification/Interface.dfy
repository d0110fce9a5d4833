/** The configuration of an interface: routed or switched, its mode, and its VLAN slots. */
module Interface {
  import opened Prefix
  import opened RouteTable

  const MAX_VLAN_MEMBERSHIP: int := 10

  type Vlan = v: int | 0 <= v < 0x1_0000

  datatype L2Mode = Access | Trunk | Unknown

  /** `vlans` are the ten slots; a zero marks an empty one. */
  datatype AnyCfg = PortCfg(l3: bool, mode: L2Mode, vlans: seq<Vlan>)

  type PortCfg = c: AnyCfg | |c.vlans| == MAX_VLAN_MEMBERSHIP witness INITIAL_CFG

  /** A fresh interface: switched, in ACCESS mode, a member of no VLAN. */
  const INITIAL_CFG: AnyCfg := PortCfg(false, Access, [0, 0, 0, 0, 0, 0, 0, 0, 0, 0])

  // ----- what each operation does to a configuration

  datatype PortOp =
    | SetIp
    | UnsetIp
    | SetMode(mode: L2Mode)
    | SetVlan(vlan: Vlan)
    | RemoveVlan(vlan: Vlan)

  function FirstSlot(vlans: seq<Vlan>, v: Vlan): (i: nat)
    ensures i <= |vlans| && v !in vlans[..i] && (i < |vlans| ==> vlans[i] == v)
  {
    if vlans == [] || vlans[0] == v then 0 else 1 + FirstSlot(vlans[1..], v)
  }

  function WithVlan(vlans: seq<Vlan>, v: Vlan): seq<Vlan> {
    if v in vlans || 0 !in vlans then vlans else vlans[FirstSlot(vlans, 0) := v]
  }

  function WithoutVlan(vlans: seq<Vlan>, v: Vlan): seq<Vlan> {
    if v in vlans then vlans[FirstSlot(vlans, v) := 0] else vlans
  }

  function Empty(n: nat): (r: seq<Vlan>)
    ensures |r| == n && forall i :: 0 <= i < n ==> r[i] == 0
  {
    if n == 0 then [] else [0] + Empty(n - 1)
  }

  function FirstSlotOnly(vlans: seq<Vlan>): seq<Vlan>
    requires vlans != []
  {
    [vlans[0]] + Empty(|vlans| - 1)
  }

  function Apply(c: PortCfg, op: PortOp): PortCfg
  {
    match op
    case SetIp => c.(l3 := true, mode := Unknown)
    case UnsetIp => c.(l3 := false)
    case SetMode(m) =>
      if c.mode == m || c.l3 then c
      else if c.mode == Trunk && m == Access then c.(mode := m, vlans := FirstSlotOnly(c.vlans))
      else c.(mode := m)
    case SetVlan(v) =>
      if c.l3 || c.mode == Unknown then c
      else if c.mode == Access then c.(vlans := c.vlans[0 := v])
      else c.(vlans := WithVlan(c.vlans, v))
    case RemoveVlan(v) =>
      if c.mode == Unknown then c else c.(vlans := WithoutVlan(c.vlans, v))
  }

  function AccessVlan(c: PortCfg): Vlan
  {
    if c.mode != Access then 0 else c.vlans[0]
  }

  predicate TrunkMember(c: PortCfg, v: Vlan) {
    c.mode == Trunk && v in c.vlans
  }

  // ----- the VLAN slots as a set

  ghost function Elems(s: seq<Vlan>): set<Vlan> {
    set v | v in s
  }

  /** The VLANs an interface is a member of. */
  ghost function Members(c: PortCfg): set<Vlan> {
    Elems(c.vlans) - {0}
  }

  /** No VLAN sits in two slots, and an ACCESS port uses the first slot only. */
  ghost predicate Clean(c: PortCfg) {
    && Distinct(c.vlans)
    && (c.mode == Access ==> TailEmpty(c))
  }

  ghost predicate TailEmpty(c: PortCfg) {
    forall i :: 1 <= i < |c.vlans| ==> c.vlans[i] == 0
  }

  /** The operation that does not look at the slots it should: to ACCESS from UNKNOWN, with VLANs left over. */
  ghost predicate LeavesVlans(c: PortCfg, op: PortOp) {
    op == SetMode(Access) && c.mode == Unknown && !c.l3 && !TailEmpty(c)
  }

  /** Every operation keeps a configuration clean, except that one. */
  lemma StepCleanIff(c: PortCfg, op: PortOp)
    requires Clean(c)
    ensures Clean(Apply(c, op)) <==> !LeavesVlans(c, op)
  {
    if op.SetVlan? && c.mode == Trunk && op.vlan !in c.vlans && 0 in c.vlans {
      var i := FirstSlot(c.vlans, 0);
      assert forall j :: 0 <= j < |c.vlans| ==> c.vlans[j] != op.vlan;
    }
  }

  lemma ElemsCount(s: seq<Vlan>)
    ensures |Elems(s)| <= |s|
    ensures (forall i, j :: 0 <= i < j < |s| ==> s[i] != s[j]) ==> |Elems(s)| == |s|
  {
    if s == [] {
    } else {
      ElemsCount(s[1..]);
      assert Elems(s) == {s[0]} + Elems(s[1..]);
    }
  }

  /** At most ten VLANs are members, and fewer than ten iff a slot is empty. */
  lemma MembersBound(c: PortCfg)
    requires Clean(c)
    ensures |Members(c)| <= MAX_VLAN_MEMBERSHIP
    ensures |Members(c)| < MAX_VLAN_MEMBERSHIP <==> 0 in c.vlans
  {
    ElemsCount(c.vlans);
    assert Elems(c.vlans) == if 0 in c.vlans then Members(c) + {0} else Members(c);
  }

  ghost predicate Distinct(vlans: seq<Vlan>) {
    forall i, j :: 0 <= i < j < |vlans| && vlans[i] != 0 ==> vlans[i] != vlans[j]
  }

  lemma AddedToSlots(vlans: seq<Vlan>, v: Vlan)
    requires v != 0 && (v in vlans || 0 in vlans)
    ensures Elems(WithVlan(vlans, v)) - {0} == Elems(vlans) - {0} + {v}
  {
    if v !in vlans {
      Overwritten(vlans, FirstSlot(vlans, 0), v);
    }
  }

  lemma RemovedFromSlots(vlans: seq<Vlan>, v: Vlan)
    requires v != 0 && Distinct(vlans)
    ensures Elems(WithoutVlan(vlans, v)) - {0} == Elems(vlans) - {0} - {v}
  {
    if v in vlans {
      Overwritten(vlans, FirstSlot(vlans, v), 0);
    }
  }

  lemma RoomIffEmptySlot(c: PortCfg, v: Vlan)
    requires Clean(c) && v != 0
    ensures v in Members(c) || |Members(c)| < MAX_VLAN_MEMBERSHIP <==> v in c.vlans || 0 in c.vlans
  {
    MembersBound(c);
  }

  /** On a trunk, adding, removing and testing act on the set of members, which holds at most ten. */
  lemma TrunkOpsAreSetOps(c: PortCfg, v: Vlan)
    requires Clean(c) && !c.l3 && c.mode == Trunk && v != 0
    ensures TrunkMember(c, v) <==> v in Members(c)
    ensures Members(Apply(c, SetVlan(v))) ==
            if v in Members(c) || |Members(c)| < MAX_VLAN_MEMBERSHIP then Members(c) + {v} else Members(c)
    ensures Members(Apply(c, RemoveVlan(v))) == Members(c) - {v}
  {
    RoomIffEmptySlot(c, v);
    assert Apply(c, SetVlan(v)).vlans == WithVlan(c.vlans, v);
    assert Apply(c, RemoveVlan(v)).vlans == WithoutVlan(c.vlans, v);
    if v in c.vlans || 0 in c.vlans {
      AddedToSlots(c.vlans, v);
    }
    RemovedFromSlots(c.vlans, v);
  }

  /** Overwriting one slot exchanges its VLAN, if no other slot holds it. */
  lemma Overwritten(vlans: seq<Vlan>, i: nat, v: Vlan)
    requires i < |vlans|
    requires vlans[i] == 0 || forall j :: 0 <= j < |vlans| && j != i ==> vlans[j] != vlans[i]
    ensures Elems(vlans[i := v]) - {0} == Elems(vlans) - {0, vlans[i]} + ({v} - {0})
  {
    var vs := vlans[i := v];
    assert vs[i] == v;
    forall w | w in Elems(vlans) - {0, vlans[i]} ensures w in vs {
      var j :| 0 <= j < |vlans| && vlans[j] == w;
      assert vs[j] == w;
    }
  }

  /** On an ACCESS port, setting a VLAN replaces the only member. */
  lemma AccessHoldsOne(c: PortCfg, v: Vlan)
    requires Clean(c) && !c.l3 && c.mode == Access
    ensures AccessVlan(Apply(c, SetVlan(v))) == v
    ensures Members(Apply(c, SetVlan(v))) == if v == 0 then {} else {v}
  {
    var vs := c.vlans[0 := v];
    assert vs[0] == v && forall i :: 1 <= i < |vs| ==> vs[i] == 0;
  }

  /**
   * A change of mode, where there is one, changes the mode; of the slots it empties the last
   * nine, and only from TRUNK to ACCESS.
   */
  lemma ModeChange(c: PortCfg, m: L2Mode, i: nat)
    requires i < MAX_VLAN_MEMBERSHIP
    ensures var d := Apply(c, SetMode(m));
      && d.l3 == c.l3 && d.mode == (if c.l3 then c.mode else m)
      && d.vlans[i] == if !c.l3 && c.mode == Trunk && m == Access && i > 0 then 0 else c.vlans[i]
  {
  }

  /** So an ACCESS port that was a trunk is in the VLAN of the trunk's first slot. */
  lemma TrunkBecomesAccess(c: PortCfg)
    requires !c.l3 && c.mode == Trunk
    ensures var d := Apply(c, SetMode(Access));
      AccessVlan(d) == c.vlans[0] && TailEmpty(d) && Clean(d) && Members(d) == {c.vlans[0]} - {0}
  {
    var d := Apply(c, SetMode(Access));
    ModeChange(c, Access, 0);
    forall i: nat | 1 <= i < |d.vlans| ensures d.vlans[i] == 0 {
      ModeChange(c, Access, i);
    }
    assert d.vlans[0] in d.vlans;
  }

  /** A VLAN set on a trunk takes the first empty slot, if it is new and there is one. */
  lemma SlotGiven(c: PortCfg, v: Vlan)
    requires !c.l3 && c.mode == Trunk && v !in c.vlans && 0 in c.vlans
    ensures exists k: nat :: FirstAt(c.vlans, 0, k) && Apply(c, SetVlan(v)) == c.(vlans := c.vlans[k := v])
  {
    assert FirstAt(c.vlans, 0, FirstSlot(c.vlans, 0));
  }

  /** A VLAN that is removed leaves its first slot empty. */
  lemma SlotFreed(c: PortCfg, v: Vlan)
    requires c.mode != Unknown && v in c.vlans
    ensures exists k: nat :: FirstAt(c.vlans, v, k) && Apply(c, RemoveVlan(v)) == c.(vlans := c.vlans[k := 0])
  {
    assert FirstAt(c.vlans, v, FirstSlot(c.vlans, v));
  }

  /** Slot `k` is the first that holds `v`. */
  predicate FirstAt(vlans: seq<Vlan>, v: Vlan, k: nat) {
    k < |vlans| && vlans[k] == v && forall j :: 0 <= j < k ==> vlans[j] != v
  }

  /** What changes nothing: VLANs of a routed port or one without a mode, no VLAN to remove, no slot to take. */
  lemma NothingToDo(c: PortCfg, v: Vlan)
    ensures c.l3 || c.mode == Unknown ==> Apply(c, SetVlan(v)) == c
    ensures c.mode == Unknown || v !in c.vlans ==> Apply(c, RemoveVlan(v)) == c
    ensures c.mode == Trunk && (v in c.vlans || 0 !in c.vlans) ==> Apply(c, SetVlan(v)) == c
  {
  }

  /** An IP address takes the port out of every mode and leaves its slots; losing it gives no mode back. */
  lemma Addressed(c: PortCfg)
    ensures Apply(c, SetIp) == PortCfg(true, Unknown, c.vlans)
    ensures Apply(c, UnsetIp) == PortCfg(false, c.mode, c.vlans)
  {
  }

  // ----- every run

  function RunOps(ops: seq<PortOp>): PortCfg
  {
    if ops == [] then INITIAL_CFG else Apply(RunOps(ops[..|ops| - 1]), ops[|ops| - 1])
  }

  /** Over every run, an interface with an IP address is in no L2 mode. */
  lemma {:induction false} RoutedIsNotSwitched(ops: seq<PortOp>)
    ensures RunOps(ops).l3 ==> RunOps(ops).mode == Unknown
  {
    if ops == [] {
    } else {
      RoutedIsNotSwitched(ops[..|ops| - 1]);
    }
  }

  ghost predicate CleanAt(ops: seq<PortOp>, k: nat) {
    k <= |ops| ==> Clean(RunOps(ops[..k]))
  }

  ghost predicate LeavesAt(ops: seq<PortOp>, k: nat) {
    k < |ops| && LeavesVlans(RunOps(ops[..k]), ops[k])
  }

  /** Over every run whatever, the slots stay clean iff no operation is of that kind. */
  lemma {:induction false} RunStaysCleanIff(ops: seq<PortOp>)
    ensures (forall k: nat :: CleanAt(ops, k)) <==> (forall k: nat :: !LeavesAt(ops, k))
  {
    if forall k: nat :: !LeavesAt(ops, k) {
      forall k: nat | k <= |ops| ensures CleanAt(ops, k) {
        CleanSoFar(ops, k);
      }
    } else {
      var k: nat :| LeavesAt(ops, k);
      if CleanAt(ops, k) {
        RunNext(ops, k);
        StepCleanIff(RunOps(ops[..k]), ops[k]);
        assert !CleanAt(ops, k + 1);
      }
    }
  }

  lemma RunNext(ops: seq<PortOp>, k: nat)
    requires k < |ops|
    ensures RunOps(ops[..k + 1]) == Apply(RunOps(ops[..k]), ops[k])
  {
    assert ops[..k + 1][..k] == ops[..k];
  }

  lemma {:induction false} CleanSoFar(ops: seq<PortOp>, k: nat)
    requires k <= |ops| && forall i: nat :: !LeavesAt(ops, i)
    ensures Clean(RunOps(ops[..k]))
  {
    if k == 0 {
    } else {
      CleanSoFar(ops, k - 1);
      RunNext(ops, k - 1);
      assert !LeavesAt(ops, k - 1);
      StepCleanIff(RunOps(ops[..k - 1]), ops[k - 1]);
    }
  }

  /** So they do over every run that neither assigns an IP address nor asks for UNKNOWN mode. */
  lemma {:induction false} SwitchedStaysClean(ops: seq<PortOp>)
    requires forall i :: 0 <= i < |ops| ==> ops[i] != SetIp && ops[i] != SetMode(Unknown)
    ensures Clean(RunOps(ops)) && !RunOps(ops).l3 && RunOps(ops).mode != Unknown
  {
    if ops == [] {
    } else {
      var front := ops[..|ops| - 1];
      SwitchedStaysClean(front);
      StepCleanIff(RunOps(front), ops[|ops| - 1]);
    }
  }

  /** A run by which a port gets there: an IP address is assigned to a trunk, and taken away again. */
  const LEFTOVER: seq<PortOp> := [SetMode(Trunk), SetVlan(10), SetVlan(20), SetIp, UnsetIp, SetMode(Access)]

  lemma SecondSlotTaken()
    ensures WithVlan([10, 0, 0, 0, 0, 0, 0, 0, 0, 0], 20) == [10, 20, 0, 0, 0, 0, 0, 0, 0, 0]
  {
    var one: seq<Vlan> := [10, 0, 0, 0, 0, 0, 0, 0, 0, 0];
    SlotIs(one, 0, 1);
    assert one[1 := 20] == [10, 20, 0, 0, 0, 0, 0, 0, 0, 0];
  }

  lemma TrunkChosen()
    ensures RunOps(LEFTOVER[..1]) == PortCfg(false, Trunk, [0, 0, 0, 0, 0, 0, 0, 0, 0, 0])
  {
    RunNext(LEFTOVER, 0);
    assert LEFTOVER[..0] == [];
  }

  lemma FirstVlanSet()
    ensures RunOps(LEFTOVER[..2]) == PortCfg(false, Trunk, [10, 0, 0, 0, 0, 0, 0, 0, 0, 0])
  {
    TrunkChosen();
    RunNext(LEFTOVER, 1);
    var none: seq<Vlan> := [0, 0, 0, 0, 0, 0, 0, 0, 0, 0];
    SlotIs(none, 0, 0);
    assert none[0 := 10] == [10, 0, 0, 0, 0, 0, 0, 0, 0, 0];
  }

  lemma SecondVlanSet()
    ensures RunOps(LEFTOVER[..3]) == PortCfg(false, Trunk, [10, 20, 0, 0, 0, 0, 0, 0, 0, 0])
  {
    FirstVlanSet();
    SecondSlotTaken();
    RunNext(LEFTOVER, 2);
  }

  lemma LeftoverReached()
    ensures RunOps(LEFTOVER) == PortCfg(false, Access, [10, 20, 0, 0, 0, 0, 0, 0, 0, 0])
  {
    SecondVlanSet();
    RunNext(LEFTOVER, 3);
    RunNext(LEFTOVER, 4);
    RunNext(LEFTOVER, 5);
    assert LEFTOVER[..6] == LEFTOVER;
  }

  /**
   * Such a run: afterwards VLAN 20 can be put into two slots of a trunk, and removing it leaves
   * it a member.
   */
  lemma LeftoverVlansExample()
    ensures !Clean(RunOps(LEFTOVER))
    ensures TrunkMember(RunOps(LEFTOVER + [SetVlan(20), SetMode(Trunk), RemoveVlan(20)]), 20)
  {
    LeftoverReached();
    assert RunOps(LEFTOVER).vlans[1] == 20;
    var ops := LEFTOVER + [SetVlan(20), SetMode(Trunk), RemoveVlan(20)];
    assert ops[..6] == LEFTOVER && ops[..9] == ops;
    RunNext(ops, 6);
    RunNext(ops, 7);
    var twice: seq<Vlan> := [20, 20, 0, 0, 0, 0, 0, 0, 0, 0];
    assert RunOps(ops[..8]).vlans == twice;
    RunNext(ops, 8);
    assert FirstSlot(twice, 20) == 0 && twice[0 := 0][1] == 20;
  }

  // ----- the interface itself

  class IntfProps {
    var isIpConfigured: bool
    var ip: Ip
    var mask: int
    var mode: L2Mode
    const vlans: array<Vlan>

    ghost predicate Valid()
      reads this
    {
      vlans.Length == MAX_VLAN_MEMBERSHIP && (isIpConfigured ==> 1 <= mask <= 32)
    }

    ghost function Cfg(): PortCfg
      requires Valid()
      reads this, vlans
    {
      PortCfg(isIpConfigured, mode, vlans[..])
    }

    constructor ()
      ensures Valid() && Cfg() == INITIAL_CFG && fresh(vlans)
    {
      isIpConfigured, ip, mask, mode := false, 0, 0, Access;
      vlans := new Vlan[MAX_VLAN_MEMBERSHIP](_ => 0);
    }

    /** Assigning an address turns the interface into a routed one and installs its subnet. */
    method SetIpAddress(rt: RouteTable, ip: Ip, mask: MaskLen)
      requires Valid() && rt.Valid()
      modifies this, rt.list, rt.list.repr
      ensures Valid() && rt.Valid() && fresh(rt.list.repr - old(rt.list.repr))
      ensures Cfg() == Apply(old(Cfg()), SetIp) && this.ip == ip && this.mask == mask
      ensures rt.list.entries == [Route(Mask(ip, mask), mask, true, 0, [])] + old(rt.list.entries)
    {
      isIpConfigured := true;
      this.mask := mask;
      mode := Unknown;
      this.ip := ip;
      var dest := ApplyMask(ip, mask);
      MaskMask(ip, mask, mask);
      rt.AddDirectRoute(dest, mask);
    }

    method UnsetIpAddress()
      requires Valid()
      modifies this
      ensures Valid() && Cfg() == Apply(old(Cfg()), UnsetIp) && ip == 0 && mask == 0
    {
      isIpConfigured, ip, mask := false, 0, 0;
    }

    method SetL2Mode(m: L2Mode)
      requires Valid()
      modifies this, vlans
      ensures Valid() && Cfg() == Apply(old(Cfg()), SetMode(m))
      ensures mode == (if isIpConfigured then old(mode) else m)
      ensures isIpConfigured == old(isIpConfigured) && ip == old(ip) && mask == old(mask)
      ensures vlans[0] == old(vlans[0])
      ensures forall i :: 1 <= i < vlans.Length ==>
        vlans[i] == if old(mode) == Trunk && m == Access && !isIpConfigured then 0 else old(vlans[i])
    {
      if mode == m {
        return;
      }
      if isIpConfigured {
        return;
      }
      if mode == Trunk && m == Access {
        forall i | 1 <= i < vlans.Length {
          vlans[i] := 0;
        }
        assert vlans[..] == FirstSlotOnly(old(vlans[..]));
      }
      mode := m;
    }

    method AddVlanToTrunk(v: Vlan)
      requires Valid()
      modifies vlans
      ensures Valid() && vlans[..] == WithVlan(old(vlans[..]), v)
      ensures v in old(vlans[..]) || 0 !in old(vlans[..]) ==> vlans[..] == old(vlans[..])
      ensures v !in old(vlans[..]) ==>
        forall k: nat :: FirstAt(old(vlans[..]), 0, k) ==> vlans[..] == old(vlans[..])[k := v]
    {
      var slot, emptySlot := 0, -1;
      while slot < MAX_VLAN_MEMBERSHIP
        invariant 0 <= slot <= MAX_VLAN_MEMBERSHIP
        invariant forall j :: 0 <= j < slot ==> vlans[j] != v
        invariant emptySlot == -1 ==> forall j :: 0 <= j < slot ==> vlans[j] != 0
        invariant emptySlot != -1 ==> 0 <= emptySlot < slot && vlans[emptySlot] == 0
        invariant emptySlot != -1 ==> forall j :: 0 <= j < emptySlot ==> vlans[j] != 0
      {
        if v == vlans[slot] {
          return;
        } else if vlans[slot] == 0 && emptySlot == -1 {
          emptySlot := slot;
        }
        slot := slot + 1;
      }
      if emptySlot != -1 {
        SlotIs(vlans[..], 0, emptySlot);
        vlans[emptySlot] := v;
      }
    }

    method SetVlan(v: Vlan)
      requires Valid()
      modifies vlans
      ensures Valid() && Cfg() == Apply(old(Cfg()), PortOp.SetVlan(v))
    {
      if isIpConfigured {
        return;
      }
      if mode == Unknown {
        return;
      }
      if mode == Access {
        vlans[0] := v;
        return;
      }
      AddVlanToTrunk(v);
    }

    method RemoveVlan(v: Vlan)
      requires Valid()
      modifies vlans
      ensures Valid() && Cfg() == Apply(old(Cfg()), PortOp.RemoveVlan(v))
      ensures mode != Unknown ==>
        forall k: nat :: FirstAt(old(vlans[..]), v, k) ==> vlans[..] == old(vlans[..])[k := 0]
    {
      if mode == Unknown {
        return;
      }
      var slot := 0;
      while slot < MAX_VLAN_MEMBERSHIP
        invariant 0 <= slot <= MAX_VLAN_MEMBERSHIP
        invariant vlans[..] == old(vlans[..]) && forall j :: 0 <= j < slot ==> vlans[j] != v
      {
        if vlans[slot] == v {
          SlotIs(vlans[..], v, slot);
          vlans[slot] := 0;
          return;
        }
        slot := slot + 1;
      }
    }

    method IsTrunkMember(v: Vlan) returns (member: bool)
      requires Valid()
      ensures member <==> TrunkMember(Cfg(), v)
    {
      if mode != Trunk {
        return false;
      }
      var i := 0;
      while i < MAX_VLAN_MEMBERSHIP
        invariant 0 <= i <= MAX_VLAN_MEMBERSHIP
        invariant forall j :: 0 <= j < i ==> vlans[j] != v
      {
        if v == vlans[i] {
          return true;
        }
        i := i + 1;
      }
      return false;
    }
  }

  lemma SlotIs(vlans: seq<Vlan>, v: Vlan, i: nat)
    requires i < |vlans| && vlans[i] == v && forall j :: 0 <= j < i ==> vlans[j] != v
    ensures FirstSlot(vlans, v) == i && v in vlans
  {
    if i == 0 {
    } else {
      SlotIs(vlans[1..], v, i - 1);
    }
  }
}
