# A verified model of the TCP/IP stack simulator

The simulator runs a whole network in one process: nodes with up to nine
interfaces, point-to-point links, switches that learn MAC addresses and keep
VLANs apart, ARP, and static IP routing with TTL and ICMP. This project models
that behaviour in Dafny 4.11 and proves what the pieces promise, alone and
together. `dafny verify dfyconfig.toml` checks all of it.

The model has two layers.

**Data structures and algorithms**, as classes, arrays and loops, each method
proved against a function of its inputs or of the old state:

| file | what it holds |
|---|---|
| `Glthread.dfy` | the intrusive doubly linked list, with the deletion-safe loop |
| `MacTable.dfy`, `ArpTable.dfy`, `RouteTable.dfy` | the three tables built on it, `Prefix.dfy` under the last |
| `Interface.dfy` | interface modes and the ten VLAN slots |
| `PacketBuffer.dfy` | tagging, untagging, shifting and framing in place, on the bytes |
| `Topology.dfy` | nodes, slots, links, back pointers, and the far end of a link |
| `HashCode.dfy` | the name hash and the MAC made from it |
| `Switch.dfy`, `Ethernet.dfy` | one switch; one interface |
| `Layer3.dfy` | one node's layer 3, with the calls between the layers |

**The network**, as transition systems whose steps are the functions the first
layer is proved against:

| file | what it holds |
|---|---|
| `Tree.dfy`, `Bridge.dfy` | switches and stations on a tree of FIFO links; runs of any events in any order |
| `BridgeLearning.dfy` | the invariant of every reachable state: tables point the right way, frames move away from their sender |
| `BridgeLifetime.dfy` | no node handles a frame twice, every frame dies out |
| `BridgeCache.dfy` | learning changes nothing about who accepts a frame |
| `VlanIsolation.dfy`, `BridgeDelivery.dfy` | VLANs stay apart over every run, and within one exactly the addressees get a frame |
| `ArpProtocol.dfy` | ARP on an adversarial medium never stores a false address |
| `PacketTrack.dfy` | what becomes of one packet at one node |
| `Internet.dfy` | routers whose interfaces are stations of bridged segments; what goes out of an interface stays on its segment |
| `Journey.dfy`, `Circles.dfy` | how far a packet can go, and exactly when it goes on for ever |
| `EndToEnd.dfy` | delivery from the sending node to the destination, and a ping's answer |
| `Resolution.dfy` | the same from nothing but the built-in ARP entries, by exchanges the segments deliver |
| `Flows.dfy` | what a node transmits because of a packet, and who may hear it, read off the configuration |
| `Traffic.dfy` | how many packets one packet leads to, and exactly when that is without end |
| `Cascade.dfy` | how long a chain of errors about errors can be, and exactly when it goes on for ever |
| `Examples.dfy` | networks that satisfy the hypotheses, and those that show what they exclude |

The main results, hardest first: `BridgeLearning.RunInv`,
`BridgeCache.CachingIsInvisible`, `Traffic.TrafficEndsIff` with `Flows.EmissionIsReal`
and `Flows.MayHearIff`, `Resolution.FromNothing`, `EndToEnd.EndToEnd` with
`EndToEnd.PingRoundTrip`, `Cascade.CascadesEndIff` with `Cascade.LeadsIff`,
`Journey.JourneysEndIff` with `Journey.JourneyBound`,
`BridgeLifetime.FramesDieOut` with `BridgeLifetime.Drain`,
`BridgeDelivery.LanDelivers`, `VlanIsolation.VlansStayApart`,
`Layer3.RecursionEndsIff`, `ArpProtocol.ArpSound`.

They build on each other: the segments of `Internet.dfy` are the bridged
networks of `Bridge.dfy`, `Internet.HearsIffDelivered` takes a hop from
`BridgeDelivery.LanDelivers`, `Internet.ArpRunsAreTrue` takes true tables from
`ArpProtocol.ArpSound`, `Resolution.FromNothing` composes `ArpProtocol.AskedAndAnswered`
with both, and the nodes are those of `Layer3.dfy`.

## How the code is read

Where the code leaves something undefined, or departs from what it is plainly
meant to do, the model chooses as follows.

- **Flooding.** The code hands one buffer to every port, and sending on an
  ACCESS port untags that buffer (`src/layer2/l2switch.c:117,127-133`). The model
  gives every egress port its own copy of the frame.
- **Uninitialised variables.** `vlan_to_tag` is not set on the TRUNK path, and
  `vlan_id` not for an untagged frame (`src/layer2/layer2.c:417`,
  `src/layer2/l2switch.c:97-100`). Both are 0 here: no tag is added, and an
  untagged frame is in VLAN 0.
- **Untagging reports the old size** (`src/layer2/layer2.c:489,519`), so a switch
  sends four bytes more than the frame out of an ACCESS port
  (`src/layer2/l2switch.c:116-118`). `PacketBuffer.UntagInPlace` returns that size;
  the frames of `Ethernet.dfy` and of the networks end where the payload ends.
- **Deleting a MAC compares with `strcmp`** (`src/layer2/l2switch.c:51`). The
  comparison stops at a zero byte and runs on into the interface name if there
  is none. The model does the same; `MacTable.LearnIsMapUpdateIff` says exactly when
  this is harmless and `MacTable.AliasEvictsExample` shows a run where it is not.
- **Adding an ARP entry** updates the old entry and then inserts a duplicate. Its
  early return compares whole structures, list links included
  (`src/layer2/layer2.c:61`), so it is never taken; `ArpTable.AddEntry` proves that.
- **A prefix of length 0** shifts a 32-bit word by 32, which C does not define
  (`src/utils.c:13`), and could never win a lookup. Prefix lengths are 1 to 32.
- **No loopback address**: the source of a packet made for a direct route off
  every subnet is then an uninitialised variable (`src/layer3/layer3.c:202,232`);
  here it is 0, as it is where there is no route (`src/layer3/layer3.c:218-220`).
- **A routed port of a switch**: sending on it stops the program
  (`src/layer2/l2switch.c:91-94`); here the frame is dropped. Flooding passes such a port over
  in both, and no network of the results has one.
- **A null interface** is passed on as the address of a field of it and compared
  with null (`src/layer2/layer2.c:356,411`); here it is an option.
- **Byte layout** is that of a little-endian machine with bit-fields filled from
  the low bit, as gcc on x86-64 does; multi-byte fields of the tag and the
  ethertype are stored that way, since the code does not convert them.
- **Dotted-quad text** stands for 32-bit numbers; the conversions are taken to
  be inverse to each other.
- **The 20-byte IP header** is a record. An address that no interface has been
  given is not matched by any packet.

What the results about runs assume: a bridged network is a tree, numbered so
that each node is linked to one with a smaller number; interfaces keep their
configuration during a run; a station is one routed interface at the end of a
link, and no two stations' MACs agree up to their first zero byte; switch ports
are not routed; a frame is not addressed to its own sender. Routers may be on
any number of segments, in any way; no two of them share a MAC, and different
interfaces of one node have different names, since the code finds the interface a
frame goes out of, or came in on, by its name (`src/layer2/layer2.c:367-369`,
`src/communications.c:46-63`). The results about one node do not need the latter: a
repeated name means the first interface of that name. Tables may change at every
hop of a journey as long as they are true.

## Model

| member | source | states |
|---|---|---|
| Glthread.AddNext | src/gluethread/glthread.c:44-58 | linking after an entry keeps the chain mutually inverse and acyclic, and inserts at exactly that place |
| Glthread.AddBefore | src/gluethread/glthread.c:60-75 | linking before an entry does the same one place earlier, also in front of the first |
| Glthread.Remove | src/gluethread/glthread.c:77-98 | unlinking leaves a well-formed chain without that one entry, and the entry alone; unlinking the head cuts it off |
| Glthread.GlList.Push | src/gluethread/glthread.c:44-58 | adding after the head puts the new entry first and keeps the others in order |
| Glthread.GlList.AddLast | src/gluethread/glthread.c:110-124 | appends, on an empty list too |
| Glthread.GlList.Count | src/gluethread/glthread.c:126-136 | counts the entries |
| Glthread.GlList.Find | include/gluethread/glthread.h:68-78 | a lookup loop finds the first entry that satisfies its test, or none does |
| Glthread.GlList.RetainIf | include/gluethread/glthread.h:70-78 | the deletion-safe loop visits every original entry once, in order, though its body unlinks the current one; what it keeps stays, in order |
| Glthread.GlList.Clear | src/gluethread/glthread.c:100-108 | deleting a list leaves it empty |
| MacTable.DeleteConfusesIff | src/layer2/l2switch.c:44-56 | deletion takes two entries for the same iff their MACs agree up to the first zero byte |
| MacTable.ComparesEqualIff | src/layer2/l2switch.c:51 | what that comparison sees, for any two entries: the MACs up to a zero byte, or else the names as well |
| MacTable.LearnedPort | src/layer2/l2switch.c:57-88 | one learning step binds the MAC to its port, keeps keys unique, and every other binding is unchanged or, exactly when it aliases a re-learned MAC, gone; never altered |
| MacTable.LearnIsMapUpdateIff | src/layer2/l2switch.c:44-88 | learning is a map update iff the MAC is new or no other resident MAC aliases it |
| MacTable.LearnAllSound | src/layer2/l2switch.c:69-88 | after any run, keys are unique, a binding is the newest sighting of its MAC, and none is missing without aliases |
| MacTable.AliasEvictsExample | src/layer2/l2switch.c:51-53 | a run in which re-learning one station evicts another |
| MacTable.MacTable.Delete | src/layer2/l2switch.c:44-56 | exactly the entries that compare equal as C strings go, the rest stay in order |
| MacTable.MacTable.Learn | src/layer2/l2switch.c:69-88 | the linked table after learning holds what the specification of a learning step says, with unique keys |
| Prefix.MaskedEqualIffCovers | src/utils.c:9-18 | two addresses mask to the same prefix iff one's prefix contains the other |
| Prefix.MaskMask | src/utils.c:9-18 | masking twice is masking once at the shorter length |
| Prefix.CoveringPrefixesNest | src/layer3/layer3.c:75-91 | of two prefixes with a common address the longer lies inside the shorter |
| Prefix.ApplyMask | src/utils.c:9-18 | shifting ones and a bitwise and clear exactly the host bits |
| RouteTable.LpmIsLongestMatch | src/layer3/layer3.c:63-96 | none iff no stored prefix contains the address, else the newest among the longest that do |
| RouteTable.LpmMostSpecific | src/layer3/layer3.c:63-96 | the chosen prefix lies inside every stored prefix containing the address |
| RouteTable.LpmOrderFree | src/layer3/layer3.c:63-96 | the chosen prefix does not depend on insertion order or repetition |
| RouteTable.RouteTable.AddDirectRoute | src/layer3/layer3.c:22-31 | a direct route goes in front; stored prefixes stay canonical |
| RouteTable.RouteTable.AddRoute | src/layer3/layer3.c:46-62 | a remote route goes in front with its destination masked; stored prefixes stay canonical |
| RouteTable.RouteTable.LookupLpm | src/layer3/layer3.c:63-96 | the loop over the list returns the exact longest match |
| ArpTable.AddedResolves | src/layer2/layer2.c:55-70 | adding is a map update for first-match lookup, duplicates and all |
| ArpTable.AddedTwice | src/layer2/layer2.c:55-70 | the new entry is in front, and an older one for its address, if there was one, is brought up to date and stays |
| ArpTable.DeletedResolves | src/layer2/layer2.c:107-118 | deleting removes the key and no other |
| ArpTable.ArpTableRefinesMap | src/layer2/layer2.c:44-118 | after any sequence of adds and deletes every lookup is the lookup in a map |
| ArpTable.ArpTable.AddEntry | src/layer2/layer2.c:55-70 | the early return is never taken: the old entry is updated and a new one inserted in front |
| ArpTable.ArpTable.DeleteEntry | src/layer2/layer2.c:107-118 | every duplicate of the key is unlinked |
| ArpTable.ArpTable.constructor | src/layer2/layer2.c:44-54 | a new table holds the broadcast entry alone |
| Interface.StepCleanIff | src/net.c:149-179 | which single operation breaks the slot invariant, as an if and only if: ACCESS from UNKNOWN with VLANs left over |
| Interface.MembersBound | src/net.c:180-205 | at most ten members, fewer iff a slot is empty |
| Interface.TrunkOpsAreSetOps | src/net.c:180-295 | on a trunk, add, remove and test are set operations, add only while there is room |
| Interface.AccessHoldsOne | src/net.c:219-224 | an ACCESS port has the one VLAN last set |
| Interface.ModeChange | src/net.c:149-179 | for every change of mode, slot by slot: nothing on a routed port; the last nine slots emptied from TRUNK to ACCESS, the first kept; otherwise all kept |
| Interface.TrunkBecomesAccess | src/net.c:171-179 | a trunk that becomes an ACCESS port is in the VLAN of its first slot and no other |
| Interface.SlotGiven | src/net.c:180-205 | a new VLAN takes the first empty slot of a trunk and no other changes |
| Interface.SlotFreed | src/net.c:241-273 | a removed VLAN leaves the first slot that held it empty and no other changes |
| Interface.NothingToDo | src/net.c:206-273 | setting and removing VLANs changes nothing on a port without a mode, with the VLAN there or not there already, or with no slot free |
| Interface.RoutedIsNotSwitched | src/net.c:39-62 | over every run an interface with an IP address has L2 mode UNKNOWN |
| Interface.RunStaysCleanIff | src/net.c:39-62 | over every run of all operations the slots hold distinct ids and ACCESS uses the first slot only, iff no mode change of the run leaves VLANs behind |
| Interface.LeftoverVlansExample | src/net.c:160-178 | a run from a fresh interface, with an IP address assigned in between, that leaves a VLAN in two slots, so that removing it does not |
| Interface.IntfProps.SetIpAddress | src/net.c:39-53 | routed mode, and the subnet as a canonical direct route in front |
| Interface.IntfProps.SetL2Mode | src/net.c:149-179 | the mode change, slot by slot on the array: the first is kept always, the others unless a trunk becomes an ACCESS port |
| Interface.IntfProps.AddVlanToTrunk | src/net.c:180-205 | the first empty slot is taken unless the VLAN is there or no slot is free |
| Interface.IntfProps.RemoveVlan | src/net.c:241-273 | the first slot holding the VLAN is cleared, also in ACCESS mode |
| Interface.IntfProps.IsTrunkMember | src/net.c:283-295 | true iff in TRUNK mode some slot holds the VLAN |
| Ethernet.CrossingIff | include/layer2/layer2.h:259-294 | which VLAN a frame is in inside a switch, VLAN 0 included, and exactly by which ports and with which tag it leaves |
| Ethernet.CarriesIff | src/net.c:274-295 | an ACCESS port is in the VLAN of its first slot, a trunk in those of all its slots, a port without a mode in none |
| Ethernet.TakesIff | include/layer2/layer2.h:248-321 | which frames a switched port takes in, on its slots, and with which tag |
| Ethernet.RoutedAccepts | include/layer2/layer2.h:248-321 | a routed interface accepts exactly the untagged frames sent to it or to everyone |
| Switch.Switch.SendOut | src/layer2/l2switch.c:89-123 | a frame leaves a TRUNK with its tag iff its VLAN is a member, an ACCESS port untagged iff it is that port's VLAN |
| Switch.Switch.FloodOut | src/layer2/l2switch.c:125-135 | every other switched port gets its own copy |
| Switch.Switch.RecvFrame | src/layer2/l2switch.c:136-165 | learning first, then one port by name or all but the ingress |
| Switch.ForwardedIff | src/layer2/l2switch.c:89-156 | for any table and ports: a frame leaves by a port iff the port carries its VLAN and is the first of the name the table has, or, with no such name or for a broadcast, is not the one it came in on; and with which tag |
| PacketBuffer.VidRoundTrip | include/layer2/layer2.h:96-100 | the 12 bits of the tag give back the VLAN id modulo 4096 and leave the priority bits alone |
| PacketBuffer.TaggedBytesDecode | src/layer2/layer2.c:450-485 | the tagged bytes decode to the same frame with the tag set; four bytes longer iff there was none |
| PacketBuffer.UntaggedBytesDecode | src/layer2/layer2.c:486-521 | the untagged bytes decode to the same frame without its tag |
| PacketBuffer.UntagAfterTag | src/layer2/layer2.c:450-521 | untagging undoes tagging byte for byte |
| PacketBuffer.RetagOverwrites | src/layer2/layer2.c:464-469 | of two taggings the last counts, nothing else is left of the first |
| PacketBuffer.TagInPlace | src/layer2/layer2.c:450-485 | the overlapping writes in the buffer leave exactly the tagged frame, four bytes further to the front, and touch nothing around it |
| PacketBuffer.UntagInPlace | src/layer2/layer2.c:486-521 | the overlapping writes leave exactly the untagged frame; the size returned is the old one |
| PacketBuffer.TagThenUntag | src/layer2/layer2.c:450-521 | with four bytes of headroom the frame is back at its place, with its bytes, and four bytes of headroom zeroed |
| PacketBuffer.ShiftRight | src/layer2/layer2.c:15-41 | the packet ends at the buffer's end and zeros are in front, if it fits half of it |
| PacketBuffer.Demote | src/layer2/layer2.c:399-413 | the headroom becomes an IP header without MACs; payload and buffer around it stay |
| PacketBuffer.FillMacs | src/layer2/layer2.c:394-395 | once resolved, both MACs are written and nothing else |
| PacketBuffer.Encapsulate | src/layer2/layer2.c:394-413 | together they leave header and unchanged IP bytes, with a cleared FCS behind them, and the rest of the buffer as it was |
| PacketBuffer.FrameForWire | src/communications.c:169-178 | the far end's name reads back as a C string and the packet follows it at byte 16 |
| PacketBuffer.OneHop | src/communications.c:46-63 | shift, header, framing and unframing give layer 3 of the next node the same bytes and length, every write in bounds |
| Topology.Node.AvailableSlot | include/graph.h:97-105 | the used slots are a prefix, so the first free one is their number; none beyond nine |
| Topology.Node.IntfByName | include/graph.h:107-115 | null iff no used slot holds that name, else the first interface of that name |
| Topology.Graph.InsertLink | src/graph.c:28-68 | a link is wired into both nodes or into neither; slots stay prefixes, back pointers and slots agree; on a link of a node to itself the second end takes the slot of the first |
| Topology.Graph.SendAcross | src/communications.c:154-178 | a frame sent on one end is received, by name lookup, on the other end iff that is the first of its name on its node, whatever names and links there are; then the way back ends here |
| Topology.Graph.Lookup | include/graph.h:107-115 | a name lookup succeeds iff an attached interface has that name, and finds the first |
| HashCode.ComputeHash | src/net.c:10-20 | the loop computes the sum of c_i * 97^(n-i) modulo 2^32, for signed characters |
| HashCode.AssignMac | src/net.c:21-31 | the first four bytes of an interface's MAC, least significant first, are the product of the two hashes modulo 2^32; the last two are zero |
| HashCode.OneCharacterChangesHash | src/net.c:10-20 | two names of one length differing in one character have different hashes |
| HashCode.MacsDifferIff | src/net.c:21-31 | on a node, interfaces whose stored 16-byte names have different hashes always have different MACs iff the node's hash is odd; for an even one "HI-BB" and "0010a" get the same MAC |
| HashCode.MacsTellInterfacesApart | src/net.c:21-31 | on such a node, names one character apart give different MACs |
| Bridge.RefusedIsGone | src/layer2/layer2.c:414-449 | a frame the port does not take in is neither learned from nor passed on |
| Bridge.StationsEnd | src/layer2/layer2.c:414-449 | a station learns nothing and passes nothing on; it takes in what is untagged and for it or for everyone |
| BridgeLearning.RunInv | src/layer2/l2switch.c:57-165 | in every reachable state each MAC entry names the port toward the MAC's owner, and each frame in flight has its sender behind it and will not be turned back |
| BridgeLearning.NeverBack | src/layer2/l2switch.c:136-156 | though forwarding does not compare egress with ingress, no copy goes back where it came from |
| BridgeLearning.KnownGoesToward | src/layer2/l2switch.c:144-155 | a switch that knows the addressee sends toward it or nowhere |
| BridgeLifetime.RunOnce | src/layer2/l2switch.c:125-165 | in every reachable state no node ahead of a frame has handled it, and no two copies have a node ahead in common |
| BridgeLifetime.DeliveriesAreNew | src/layer2/l2switch.c:157-165 | every delivery is the first of that frame at that node, so no link carries it twice |
| BridgeLifetime.FramesDieOut | src/layer2/l2switch.c:125-165 | a run delivers each injected frame at most once to each other node |
| BridgeLifetime.Drain | src/layer2/l2switch.c:125-165 | every run can be completed by deliveries alone until nothing is in flight |
| BridgeCache.RunConserves | src/layer2/l2switch.c:136-156 | at every point of every run, accepted copies and copies still to come add up to what flooding reaches |
| BridgeCache.AcceptedWhenQuiet | src/layer2/l2switch.c:136-165 | once quiet, a frame was accepted by exactly the stations flooding reaches |
| BridgeCache.CachingIsInvisible | src/layer2/l2switch.c:136-156 | learning and always-flooding networks deliver a frame to the same stations, whatever else was sent |
| BridgeCache.OnlyTheAddressee | include/layer2/layer2.h:295-321 | at any time who accepted a frame is another station, and the addressee unless it was a broadcast |
| BridgeDelivery.LanDelivers | src/layer2/layer2.c:414-449 | whatever VLANs there are, an untagged frame from a station of a VLAN that the trunks carry is accepted by its addressees in that VLAN, the sender excepted, and by nobody else |
| Examples.BridgedLan | src/net.c:149-240 | two switches configured by the modelled operations, with a trunk and two VLANs, satisfy the hypotheses of delivery |
| VlanIsolation.VlansStayApart | src/layer2/l2switch.c:89-135 | over every run a frame from an ACCESS port of a VLAN is tagged with it on trunks, untagged toward stations, and accepted only on ACCESS ports of it |
| ArpProtocol.ArpSound | src/layer2/layer2.c:84-99 | after any run, on any medium, every entry but the built-in one pairs an address with the MAC of an interface that holds it, on the segment of the interface the entry names |
| ArpProtocol.ResolvedMacIsReal | src/layer2/layer2.c:371-396 | a frame sent by the table carries the real MAC of the next hop it was looked up for |
| ArpProtocol.FramesSent | src/layer2/layer2.c:160-305 | a request is a broadcast from the asker's MAC and address; hearing one makes the holder of the address, and nobody else, send a reply to the request's sender alone, with the holder's MAC; nothing else sends a frame |
| ArpProtocol.AnswersAfter | src/layer2/layer2.c:84-118 | what each event does to every answer of every table: only a reply that reaches an interface of the node, by its MAC or as a broadcast, gives one, and only forgetting takes one away |
| ArpProtocol.AskedAndAnswered | src/layer2/layer2.c:160-305 | a request heard by the holder of the address and its reply heard by the asker make the asker resolve the address to the holder's MAC, and change no other answer of any table |
| ArpProtocol.ResolveNextHop | src/layer2/layer2.c:369-392 | a request from the outgoing interface is sent once and only if the address is unknown, and the answer is what the table holds after the wait |
| Layer3.RouterNode.IsLocalDelivery | src/layer3/layer3.c:100-139 | true iff the address is the loopback's or a routed interface's |
| Layer3.FromTheTop | src/layer3/layer3.c:193-287 | a packet from the top carries the address of the first interface on the subnet of its direct route or gateway, off every subnet the loopback address or 0, and TTL 64, and goes down to its gateway or destination; without a route the node tells its loopback address so |
| Layer3.SwapsBytes | src/layer3/layer3.c:389-393 | the data of a reply is that of the ping with its four bytes reversed, 0xEFBEADDE for 0xDEADBEEF |
| Layer3.StepDescends | src/layer3/layer3.c:181-287 | every call between the layers lowers a rank: packet kind, then whether a route exists, then the layer |
| Layer3.EndsWithinRank | src/layer3/layer3.c:413-467 | with a route to the loopback address every call ends, in at most one step more than its rank, for any packet and any route table |
| Layer3.RecursionEndsIff | src/layer3/layer3.c:193-287 | the recursion ends for every packet iff the loopback address has a route |
| Layer3.OwnConsumedIff | src/layer3/layer3.c:193-287 | with a route to its loopback address, a node hands a packet of its own, not a ping or a Destination Unreachable, to itself iff the destination is local and directly routed; all it may keep otherwise is Destination Unreachable about that destination |
| Layer3.PingOneselfIff | src/layer3/layer3.c:359-412 | a ping a node sends is answered at the node itself iff destination and source address are both local and directly routed; then with its identifier and number, the bytes of its data in reverse order, and TTL 64 |
| Layer3.AnswersTheSender | src/layer3/layer3.c:359-483 | because of a packet a node sends on, or keeps, nothing but that packet, the one answer it calls for, addressed to its sender with TTL 64 and the source address of that way, or word to itself that there is no way back |
| Layer3.RouterNode.MatchingInterface | src/net.c:121-139 | the loop finds the first interface whose subnet contains the address, or none does |
| Layer3.RouterNode.SendDown | src/layer3/layer3.c:193-287 | filling the header field by field and calling on has the outcome of the call machine |
| Layer3.RouterNode.PassDown | src/layer2/layer2.c:347-368 | a packet without an interface that is for this node goes up again, otherwise it is sent as it is, out of the first interface with the name of the one it was given |
| Layer3.RouterNode.HandUp | src/layer3/layer3.c:413-483 | the outcome is that of the call machine, and of the packet only the TTL changes, by one, iff there is a route that is not direct |
| Layer3.RouterNode.Forward | src/layer3/layer3.c:468-482 | the forwarding case of it: the TTL goes down, by exactly one unless the packet comes up again |
| Layer3.OwnPacketsStartAt64 | src/layer3/layer3.c:256 | whatever a node sends by itself, errors and answers included, starts with TTL 64 |
| PacketTrack.TrackFollowsCalls | src/layer3/layer3.c:413-483 | following one packet is following the calls: it is sent, delivered here, or dropped |
| PacketTrack.LaunchFollowsCalls | src/layer3/layer3.c:193-287 | the same for a packet the node makes itself |
| PacketTrack.AnswerFollowsCalls | src/layer3/layer3.c:413-483 | the answer a packet calls for is a call the node comes to, in so many steps |
| PacketTrack.ArrivedIff | src/layer3/layer3.c:443-458 | a packet handed up has arrived iff its destination is local and directly routed |
| PacketTrack.DirectIsHandled | src/layer3/layer3.c:443-467 | with a direct route: delivered iff the destination is the loopback address or an interface's, otherwise sent straight there out of the first interface on its subnet, or lost without one |
| PacketTrack.TransitGoesOn | src/layer3/layer3.c:468-482 | with any other route: on to the gateway, one off the TTL, out of the interface the route names, or else the first one on the gateway's subnet |
| PacketTrack.TransitExpires | src/layer3/layer3.c:468-476 | with one hop left it goes nowhere and its sender gets Time Exceeded about its destination |
| PacketTrack.UnroutedIsAnswered | src/layer3/layer3.c:430-436 | without a route it goes nowhere and its sender gets Destination Unreachable about its destination |
| PacketTrack.ArrivedIsAnswered | src/layer3/layer3.c:359-411 | of the packets that arrive only pings are answered, to their sender, with identifier, number and the bytes of the data in reverse order |
| PacketTrack.DirectIsLaunched | src/layer3/layer3.c:224-287 | a packet a node makes itself, by a direct route: kept iff the destination is an address of the node, otherwise straight there, with the source address of the way and TTL 64 |
| PacketTrack.RemoteIsLaunched | src/layer3/layer3.c:244-287 | by any other route: to the gateway, out of the first interface with the name of the one on the gateway's subnet |
| PacketTrack.BodyMakesNoDifference | src/layer3/layer3.c:359-411 | what a packet that is not a ping says makes no difference to its way or to the answer |
| Internet.HearsIffDelivered | src/communications.c:154-178 | an interface hears a frame sent out of another one iff their segment delivers it there, in every run of the segment, and the name it carries finds that interface |
| Internet.SendOnLan | src/layer2/layer2.c:394-396 | any run of a segment can go on with a frame to any MAC but the sender's, until that has died out |
| Internet.ArpRunsAreTrue | src/layer2/layer2.c:235-305 | every run of the ARP protocol leaves tables that are true of the segments |
| Journey.HopDescends | src/layer3/layer3.c:442-482 | every hop but of the limited broadcast lowers (TTL, not yet at its owner) |
| Journey.JourneyBound | src/layer3/layer3.c:413-483 | for arbitrary, even looping, routes and any starting TTL a journey has fewer hops than twice the TTL, which stays positive and never grows |
| Journey.JourneysEndIff | src/layer2/layer2.c:48-51 | for every destination journeys are bounded iff it is not 255.255.255.255 or no routers pass that on to each other in a circle |
| EndToEnd.LearnedHere | src/layer2/layer2.c:94-96 | an entry learned on the interface a packet goes out of leads to the holder of the next hop |
| EndToEnd.InTransit | src/layer3/layer3.c:413-483 | from any node the routes lead on from, the segments carry the packet to a node that holds its destination, the TTL lower by the nodes with a route that is not direct |
| EndToEnd.EndToEnd | src/layer3/layer3.c:193-287 | if the routes lead there over fewer than 64 ranks, what a node makes of a body, with the address of its interface on the way as the source and TTL 64, arrives at a node that holds the destination, unchanged but for one off the TTL for each node in between with a route that is not direct |
| EndToEnd.PingRoundTrip | src/layer3/layer3.c:389-393 | the answer to a ping arrives at a node that holds the address the ping carried, with its identifier and number and the bytes of its data in reverse order; both carry the address of the sender's interface on the way |
| Resolution.SegmentDeliversExchange | src/layer2/layer2.c:160-305 | between interfaces of two nodes on one segment, the segment delivers the request frame to the holder of the address, and the reply frame, which is for the asker's MAC alone, to the asker, in every run |
| Resolution.FromNothing | src/layer2/layer2.c:347-396 | from tables with the built-in entry alone: where routes, addresses and segments connect a sender to a destination, exchanges make every node on the way know its next hop, each one three events of the run whose request and reply are the frames sent then and are delivered by the segment, and then what the sender makes of a body arrives |
| Flows.MoveDecides | src/layer3/layer3.c:413-483 | whether a packet is delivered, goes on and where to, gets stuck, expires, or calls for an answer, by its longest match and its TTL alone, for every configuration and packet |
| Flows.EmitsOnce | src/layer3/layer3.c:193-287 | because of one call a node transmits once at most |
| Flows.EmissionIsReal | src/layer3/layer3.c:193-483 | header, next hop and interface of what a node transmits because of a packet, forwarded or answered, are those its configuration gives, and it transmits iff that gives any |
| Flows.MayHearIff | src/layer2/layer2.c:371-396 | who may hear a frame for a next hop, read off addresses and segments, are exactly those who hear it by some true ARP tables |
| Traffic.TrafficEndsIff | src/layer3/layer3.c:413-483 | how many packets are received because of one, forwarded, answered or heard by many, is bounded iff from that packet at that node the flows read off routes, addresses and segments lead to no circle |
| Traffic.CircleKinds | src/layer3/layer3.c:442-482 | a circle of flows contains an answer, unless the packet is for 255.255.255.255 and routers pass that on to each other in a circle |
| Traffic.FloodsWithoutEnd | src/layer2/layer2.c:48-51 | at a router of such a circle one packet to 255.255.255.255 leads to more packets than any bound |
| Cascade.LeadsIff | src/layer3/layer3.c:171-192 | a packet sent by one node to an address may cause an error of another one to an address iff routes, addresses and segments take it to where it calls for an answer |
| Cascade.CascadesEndIff | src/layer3/layer3.c:171-192 | the length of a chain of errors, each about the one before, is bounded iff by routes, addresses and segments no errors lead to each other in a circle |
| Examples.NeighboursPing | src/layer3/layer3.c:193-287 | two routers with nothing but their own subnet and each other's MAC satisfy the hypotheses of a round trip, and a ping between them is answered |
| Examples.PingFromTheInterface | src/layer3/layer3.c:224-241 | a node with loopback 1.1.1.1 and 10.1.1.1/24 sends to 10.1.1.x from 10.1.1.1 |
| Examples.LoopbackIsReached | src/layer3/layer3.c:107-113 | and delivers what is for 1.1.1.1 to itself |
| Examples.FloodCircleExists | src/layer2/layer2.c:48-51 | two routers on one link that pass the limited broadcast to each other: one packet is passed on without end |
| Examples.ErrorCircleExists | src/layer3/layer3.c:473-476 | two routers on one link that route an address of one of them to each other: an error causes the next for ever |

## Left out

- Sockets, threads, `select`, sleeping and the shared static buffers: links are FIFO queues, and the wait for an ARP reply is a point where the table may change in any way.
- The command line, terminal modes, printing and dumping.
- The sample topologies: results are for arbitrary ones.
- FCS and checksums, which are never computed, and the IP version field.
- ARP "sane" entries and their pending lists, which nothing calls.
- `glthread_priority_insert`, which the stack does not use.
- Finding a node by the prefix of its name, the ping loop and the layer above IP.
- Gateways off every subnet: they end in `NoInterface`, where the code follows a null pointer.
- Routes by an interface without an IP address: such an interface is a switch port, and a node that is router and switch at once is not part of the networks.
- Bridged networks with cycles: the switches have no spanning tree protocol, so frames on a cycle do not die out.
- Topology.Node.IntfByName: the ten slots of a node are a sequence the methods reassign, not memory inside the node.
- Glthread.GlList.Find: the embedding structure is reached by a field where the code subtracts an offset, so pointer arithmetic is not modelled.
- PacketBuffer.OneHop: the IP packet is a sequence of bytes; the layout of the fields inside the 20-byte header is not modelled, and layer 3 works on records.
- BridgeCache.CachingIsInvisible: it compares runs after which nothing is in flight; `BridgeLifetime.Drain` shows that every run can be continued to such a point.
- Journey.JourneyBound: the bound by the TTL alone excludes the destination 255.255.255.255; `Journey.JourneysEndIff` covers every destination.
- EndToEnd.EndToEnd: the tables are those at the time, and stay; `Resolution.FromNothing` begins with the built-in entries, and what a node learns while it waits is `ArpProtocol.ResolveNextHop`.
- Resolution.FromNothing: the exchanges come before the packet, not at each hop while the packet waits there.
- Cascade.CascadesEndIff: bounds the length of a chain of errors; how many packets there are in all is `Traffic.TrafficEndsIff`.
- Ethernet.CrossingIff: leaves out the four bytes the code sends behind a frame out of an ACCESS port.
- Switch.Switch.SendOut: drops a frame for a routed port, where the code stops.
- Prefix.ApplyMask: the length 0 is excluded, because C leaves the shift by 32 undefined.
