/** Nodes, their interface slots, and the links that wire them together. */
module Topology {
  import opened MacTable

  const MAX_INTF_PER_NODE := 10
  const IF_NAME_SIZE := 16

  /** The first fifteen characters of a name are kept. */
  function Truncated(n: Name): (r: Name)
    ensures |n| < 16 ==> r == n
    ensures |n| >= 16 ==> |r| == 15 && r <= n
  {
    if |n| < IF_NAME_SIZE then n else n[..IF_NAME_SIZE - 1]
  }

  /** One end of a link: it belongs to a node, in one of its slots, and points back to its link. */
  class Interface {
    const name: Name
    const attNode: Node
    ghost const slot: nat
    var link: Link?

    constructor (name: Name, attNode: Node, ghost slot: nat)
      ensures this.name == name && this.attNode == attNode && this.slot == slot && link == null
    {
      this.name, this.attNode, this.slot, link := name, attNode, slot, null;
    }
  }

  /** A link and its two ends, which come into being with it. */
  class Link {
    const intf1: Interface
    const intf2: Interface
    const cost: nat

    constructor (node1: Node, ghost slot1: nat, from: Name, node2: Node, ghost slot2: nat, to: Name, cost: nat)
      ensures fresh(intf1) && fresh(intf2) && intf1 != intf2 && intf1.link == this == intf2.link
      ensures this.cost == cost
      ensures intf1.name == Truncated(from) && intf1.attNode == node1 && intf1.slot == slot1
      ensures intf2.name == Truncated(to) && intf2.attNode == node2 && intf2.slot == slot2
    {
      intf1 := new Interface(Truncated(from), node1, slot1);
      intf2 := new Interface(Truncated(to), node2, slot2);
      this.cost := cost;
      new;
      intf1.link := this;
      intf2.link := this;
    }
  }

  /** A node and its ten slots, which lie in the node itself. */
  class Node {
    const name: Name
    var intf: seq<Interface?>
    /** The number of slots in use. */
    ghost var used: nat

    constructor (name: Name)
      ensures this.name == name && used == 0 && Slots()
    {
      this.name, used := name, 0;
      intf := seq(MAX_INTF_PER_NODE, i => null);
    }

    /** Used slots are a prefix, and the last slot is never used. */
    ghost predicate Slots()
      reads this
    {
      && |intf| == MAX_INTF_PER_NODE && used < MAX_INTF_PER_NODE
      && forall i :: 0 <= i < |intf| ==> (intf[i] != null <==> i < used)
    }

    method AvailableSlot() returns (slot: int)
      requires Slots()
      ensures slot == if used < MAX_INTF_PER_NODE - 1 then used else -1
    {
      var index := 0;
      while index < MAX_INTF_PER_NODE - 1
        invariant 0 <= index <= used
      {
        if intf[index] == null {
          return index;
        }
        index := index + 1;
      }
      return -1;
    }

    /** Writes a slot in use, or the first free one. */
    method Occupy(slot: nat, e: Interface)
      requires Slots() && (slot < used || slot == used < MAX_INTF_PER_NODE - 1)
      modifies this
      ensures Slots() && intf == old(intf)[slot := e]
      ensures used == if slot == old(used) then old(used) + 1 else old(used)
    {
      intf := intf[slot := e];
      used := if slot == used then used + 1 else used;
    }

    /** The first interface of that name is in slot `i`. */
    ghost predicate FirstNamed(n: Name, r: Interface, i: int)
      requires Slots()
      reads this
    {
      0 <= i < used && intf[i] == r && r.name == n && forall j :: 0 <= j < i ==> intf[j].name != n
    }

    /** The first interface of that name; the search stops at the first empty slot. */
    method IntfByName(n: Name) returns (r: Interface?)
      requires Slots()
      ensures r == null <==> forall i :: 0 <= i < used ==> intf[i].name != n
      ensures r != null ==> exists i :: FirstNamed(n, r, i)
    {
      var i := 0;
      while i < MAX_INTF_PER_NODE - 1
        invariant 0 <= i <= used
        invariant forall j :: 0 <= j < i ==> intf[j].name != n
      {
        if intf[i] == null {
          return null;
        }
        if intf[i].name == n {
          assert FirstNamed(n, intf[i], i);
          return intf[i];
        }
        i := i + 1;
      }
      return null;
    }
  }

  /** The other end of the link of an interface. */
  function Remote(intf: Interface): (far: Interface)
    requires intf.link != null
    reads intf
    ensures far == intf.link.intf1 || far == intf.link.intf2
    ensures intf.link.intf1 != intf.link.intf2 ==> far != intf
  {
    if intf.link.intf1 == intf then intf.link.intf2 else intf.link.intf1
  }

  /** The node at the other end of the link of an interface. */
  function NbrNode(intf: Interface): (nbr: Node)
    requires intf.link != null
    reads intf
    ensures nbr == intf.link.intf1.attNode || nbr == intf.link.intf2.attNode
  {
    if intf.link.intf1 != intf then intf.link.intf1.attNode else intf.link.intf2.attNode
  }

  class Graph {
    ghost var nodes: set<Node>
    ghost var links: set<Link>
    ghost var ends: set<Interface>
    /** The ends of all links, with and without a slot. */
    ghost var wires: set<Interface>

    /** A node's slots are in order and hold ends of the graph. */
    ghost predicate ValidNode(n: Node)
      reads this`ends, n
    {
      && n.Slots()
      && (forall i :: 0 <= i < n.used ==> n.intf[i] in ends && n.intf[i].attNode == n && n.intf[i].slot == i)
    }

    /** The end sits in its slot. */
    ghost predicate InSlot(e: Interface)
      reads e.attNode
    {
      var n := e.attNode;
      n.Slots() && e.slot < n.used && n.intf[e.slot] == e
    }

    ghost predicate Seated()
      reads this`nodes, this`ends, nodes
    {
      && (forall n :: n in nodes ==> ValidNode(n))
      && (forall e :: e in ends ==> e.attNode in nodes && InSlot(e))
    }

    /** Both ends of a link point back to it, and both have a slot, unless they compete for one of the same node. */
    ghost predicate Wired(l: Link)
      reads this`ends, l.intf1, l.intf2
    {
      && l.intf1 != l.intf2 && l.intf1.link == l == l.intf2.link
      && l.intf2 in ends && (l.intf1 in ends <==> l.intf1.attNode != l.intf2.attNode)
    }

    /** An interface is one of the two ends of its link. */
    ghost predicate EndOfLink(e: Interface)
      reads this`links, e
    {
      e.link != null && e.link in links && (e == e.link.intf1 || e == e.link.intf2)
    }

    ghost predicate Valid()
      reads this, nodes, ends, wires
    {
      && Seated()
      && (forall l :: l in links ==> l.intf1 in wires && l.intf2 in wires && Wired(l))
      && (forall e :: e in ends ==> EndOfLink(e))
    }

    constructor ()
      ensures Valid() && nodes == {} && links == {}
    {
      nodes, links, ends, wires := {}, {}, {}, {};
    }

    method AddNode(name: Name) returns (n: Node)
      requires Valid()
      modifies this
      ensures Valid() && fresh(n) && n.used == 0 && n.name == name
      ensures nodes == old(nodes) + {n} && links == old(links) && ends == old(ends)
    {
      n := new Node(name);
      nodes := nodes + {n};
      forall e | e in ends ensures InSlot(e) {
        assert old(InSlot(e));
      }
    }

    /** Puts one end into its slot; whatever was there has lost it. */
    method Attach(slot: nat, e: Interface)
      requires Seated() && e.attNode in nodes && slot == e.slot
      requires slot < e.attNode.used || slot == e.attNode.used < MAX_INTF_PER_NODE - 1
      modifies this`ends, e.attNode
      ensures Seated() && e.attNode.intf == old(e.attNode.intf)[slot := e]
      ensures e.attNode.used == if slot == old(e.attNode.used) then slot + 1 else old(e.attNode.used)
      ensures ends == old(if slot < e.attNode.used then ends - {e.attNode.intf[slot]} else ends) + {e}
    {
      assert ValidNode(e.attNode);
      ghost var lost := if slot < e.attNode.used then {e.attNode.intf[slot]} else {};
      e.attNode.Occupy(slot, e);
      ends := ends - lost + {e};
      forall m | m in nodes ensures ValidNode(m) {
        assert old(ValidNode(m));
      }
      forall d | d in ends ensures InSlot(d) {
        assert d != e ==> old(InSlot(d));
      }
    }

    /** The free slot of its node is meant for the end. */
    ghost predicate Fits(e: Interface)
      reads this`nodes, e.attNode
    {
      e.attNode in nodes && e.slot == e.attNode.used < MAX_INTF_PER_NODE - 1
    }

    /** What a new link adds to the ends that have a slot: both of its own, or one if they compete. */
    ghost function NewEnds(l: Link): set<Interface> {
      if l.intf1.attNode == l.intf2.attNode then {l.intf2} else {l.intf1} + {l.intf2}
    }

    /** Puts both ends of a new link into the free slots of their nodes. */
    method AttachBoth(link: Link, slot1: nat, slot2: nat)
      requires Seated() && link.intf1 !in ends && link.intf2 !in ends && link.intf1 != link.intf2
      requires Fits(link.intf1) && Fits(link.intf2)
      requires slot1 == link.intf1.slot && slot2 == link.intf2.slot
      modifies this`ends, link.intf1.attNode, link.intf2.attNode
      ensures Seated() && ends == old(ends) + NewEnds(link)
      ensures link.intf2.attNode.intf == old(link.intf2.attNode.intf)[slot2 := link.intf2]
      ensures link.intf1.attNode != link.intf2.attNode ==>
        link.intf1.attNode.intf == old(link.intf1.attNode.intf)[slot1 := link.intf1]
    {
      Attach(slot1, link.intf1);
      Attach(slot2, link.intf2);
      assert ends == old(ends) + NewEnds(link);
    }

    /** Wires a new link up. */
    method Connect(link: Link, slot1: nat, slot2: nat)
      requires Valid() && link !in links && link.intf1 !in ends && link.intf2 !in ends
      requires link.intf1 != link.intf2 && link.intf1.link == link == link.intf2.link
      requires Fits(link.intf1) && Fits(link.intf2)
      requires slot1 == link.intf1.slot && slot2 == link.intf2.slot
      modifies this`ends, this`links, this`wires, link.intf1.attNode, link.intf2.attNode
      ensures Valid() && links == old(links) + {link} && ends == old(ends) + NewEnds(link)
      ensures link.intf2.attNode.intf == old(link.intf2.attNode.intf)[slot2 := link.intf2]
      ensures link.intf1.attNode != link.intf2.attNode ==>
        link.intf1.attNode.intf == old(link.intf1.attNode.intf)[slot1 := link.intf1]
    {
      AttachBoth(link, slot1, slot2);
      links, wires := links + {link}, wires + {link.intf1, link.intf2};
      forall l | l in links ensures l.intf1 in wires && l.intf2 in wires && Wired(l) {
        assert l in old(links) ==> old(Wired(l));
      }
      forall e | e in ends ensures EndOfLink(e) {
        assert e in old(ends) ==> old(EndOfLink(e));
      }
    }

    /**
     * `insert_link_between_two_nodes`: nothing happens if either node is out of slots. A link
     * from a node to itself gets one slot, which its second end takes from the first.
     */
    method InsertLink(node1: Node, node2: Node, from: Name, to: Name, cost: nat) returns (ghost link: Link?)
      requires Valid() && node1 in nodes && node2 in nodes
      modifies this`ends, this`links, this`wires, node1, node2
      ensures Valid()
      ensures link == null <==> old(node1.used) == 9 || old(node2.used) == 9
      ensures link == null ==> unchanged(this, node1, node2)
      ensures link != null ==>
        && links == old(links) + {link} && ends == old(ends) + NewEnds(link)
        && fresh(link) && link.cost == cost && fresh(link.intf1) && fresh(link.intf2) && link.intf1 != link.intf2
        && link.intf1.name == Truncated(from) && link.intf1.attNode == node1
        && link.intf2.name == Truncated(to) && link.intf2.attNode == node2
        && node2.intf == old(node2.intf)[old(node2.used) := link.intf2]
        && (node1 != node2 ==> node1.intf == old(node1.intf)[old(node1.used) := link.intf1])
    {
      assert ValidNode(node1) && ValidNode(node2);
      var slot1 := node1.AvailableSlot();
      var slot2 := node2.AvailableSlot();
      if slot1 == -1 || slot2 == -1 {
        return null;
      }
      var wire := new Link(node1, slot1, from, node2, slot2, to, cost);
      Connect(wire, slot1, slot2);
      link := wire;
    }

    /** The end has a slot, and no earlier slot of its node holds an interface of its name. */
    ghost predicate FirstOfItsName(e: Interface)
      reads this, nodes
    {
      && e in ends && e.attNode in nodes && e.slot < |e.attNode.intf|
      && forall i :: 0 <= i < e.slot ==> e.attNode.intf[i] != null && e.attNode.intf[i].name != e.name
    }

    /**
     * A frame sent on an interface carries the far end's name to the far end's node, where that
     * name is looked up. It is received on the far end iff that is the first of its name there;
     * then a frame sent back on it is meant for this end. It is lost only on a link of a node to
     * itself.
     */
    method SendAcross(intf: Interface) returns (nbr: Node, received: Interface?)
      requires Valid() && intf in ends
      ensures intf.link != null && nbr == Remote(intf).attNode && nbr in nodes
      ensures Remote(intf) != intf && (intf.link.intf1, intf.link.intf2) in {(intf, Remote(intf)), (Remote(intf), intf)}
      ensures received == Remote(intf) <==> FirstOfItsName(Remote(intf))
      ensures received == Remote(intf) ==> received.link == intf.link && Remote(received) == intf
      ensures received != null ==> received in ends && received.attNode == nbr && received.name == Remote(intf).name
      ensures received == null ==> nbr == intf.attNode
    {
      assert EndOfLink(intf) && Wired(intf.link);
      nbr := NbrNode(intf);
      var remote := Remote(intf);
      assert remote in ends ==> InSlot(remote);
      assert remote in ends || remote.attNode == intf.attNode;
      assert InSlot(intf);
      assert ValidNode(nbr);
      received := nbr.IntfByName(remote.name);
    }

    /** Looking up a name finds an interface iff one of that name is attached, and then the first. */
    method Lookup(n: Node, name: Name) returns (r: Interface?)
      requires Valid() && n in nodes
      ensures r == null <==> forall e :: e in ends && e.attNode == n ==> e.name != name
      ensures r != null ==> r.attNode == n && r.name == name && FirstOfItsName(r)
    {
      assert ValidNode(n);
      r := n.IntfByName(name);
      if r == null {
        forall e | e in ends && e.attNode == n ensures e.name != name {
          assert InSlot(e);
        }
      }
    }
  }
}
