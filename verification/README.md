# DS-Lite NAT, port mapping and router advertisements, in Dafny

A model of three programs of this repository, with proofs about it.

- `wan-mode/src/aftr-1.1/aftr.c`, the address family transition router. It carries IPv4 packets in IPv6
  tunnels and translates their sources. Its trees, heap, caches, allocator and packet loops are modelled as
  classes over linked nodes, arrays and byte buffers, in the steps the program takes.
- `wan-mode/src/aftr-1.1/xpmpd.py`, the daemon that hands out port mappings to clients behind the router.
- radvd's packing of options into router advertisements, its DNS search list option, and how `radvdump`
  prints that option back.

`dafny verify dfyconfig.toml` checks everything.

| file | what it holds |
|---|---|
| `NatEntry.dfy` | a NAT binding, its key and the four comparison chains |
| `RbTree.dfy`, `SplayTree.dfy`, `NatHeap.dfy`, `PatriciaTree.dfy` | the linked structures, each refining a set or a map |
| `Caches.dfy` | the direct-mapped caches in front of the NAT trees and of the tunnel tree |
| `PortRange.dfy`, `PortPool.dfy` | the bitmap, buckets and hold queue of a port range, and all of them together |
| `NatTable.dfy`, `Binding.dfy`, `Aftr.dfy` | bindings in all their indexes, with their ports, the expiry heap, the counters and the cache |
| `Checksum.dfy`, `Packet.dfy`, `Translation.dfy` | the incremental checksum, what it does to the checksums of a packet, and both directions of the translation |
| `Service.dfy` | runs: any sequence of packets, seconds, commands, reloads and slices of what follows them |
| `Lookups.dfy` | inputs on which lookups do not answer what they are for |
| `Fragmentation.dfy`, `Reassembly.dfy`, `Defrag.dfy` | cutting packets for a tunnel and putting them together again |
| `Fragments4.dfy` | the fragments of an IPv4 packet, byte for byte, and what becomes of them |
| `Reload.dfy` | generations of the configuration, sliced collection and backtrack |
| `PortMapping.dfy` | the mapping daemon |
| `SafeBuffer.dfy`, `Dnssl.dfy`, `RaPacking.dfy` | radvd's buffers, the search list option and the packing |
| `Options.dfy` | a value that may be missing |

How the parts hang together: a linked structure keeps a ghost `shape` (a tree, a path, a chain), a snapshot
`Mem()` of the links, and a predicate that says the links are those of the shape. Rotations, splices and
rewirings are then lemmas about shapes and snapshots. `Aftr.Nats` ties the entries of all indexes to the
owner of every port; `Translation` and `Service` use only its contracts.

## Findings

Where the code does not do what it is for, the model keeps the code as it is, and a contract says exactly when it
does. For lookups, fragments, advertisements and port mappings there is an input as well.

- `natcnt` is an unsigned short. The default range for ICMP has all 65536 identifiers (aftr.c:1027-1037), and
  with the last of them in use the counter starts from zero again. `PortRange.Range.Take` says that the count is
  right exactly until then; `PortRange.Range.FreeFirst` says when it becomes right again.
- The incremental checksum differs from recomputation on a block that becomes all zero by a rewrite, and
  translating back does not restore a checksum of 0xffff that a rewrite touched: `Checksum.FixIsRecomputation`,
  `Checksum.FixBack`. In a packet that can only be an ICMP message (`Packet.SegmentStays`).
- A UDP checksum that would be computed as zero is stored as zero, which says that there is none, and not as 0xffff:
  a datagram whose checksum is accepted and is not 0xffff leaves without one exactly then
  (`Packet.SegmentStays`), and `Packet.LosesChecksum` is an input.
- The cache in front of the tree may change the answer of `nat_lookup`. `Translation.LookupIsSearch` says exactly
  when: the slot of the packet's hash holds an entry that answers the packet and is of the other kind than the
  tree's (`add_prr` and `add_snat0` accept one external address and port, aftr.c:6109-6190 and 6315-6390, and no
  third entry can answer the packet), or it does not and the tree's entry is stale. `Lookups.TwoKinds` is an input
  without any stale entry, from an empty NAT on; the program's own check (aftr.c:5443-5449) reports such a pair.
- `nat_lookup` refuses an entry that a reload has passed over when it comes from the tree, and hands it out when it
  comes from the cache: exactly when the packet's slot holds it (`Translation.StaleLookup`). `Lookups.PassedOver`
  is an input: an entry looked up before the reload and after it, and again when the cache has been replaced.
- The splay search tests the generation of the search template, which is zero, and not that of the entry found,
  so from inside entries are found whatever their generation (`SplayTree.Splay.Find`, `Aftr.Nats.FindIn`).
- `add_snat0` and `add_prr` accept a static entry on an internal address and port that has entries for one
  destination. The search from inside is sure to find a match unless there is such an entry for a smaller
  destination than the packet's (`Binding.Findable`), and for every static entry and every such entry
  `Lookups.HiddenWildcard` is a tree in which the static entry is missed: the packet then gets a binding of its own.
  No other call brings this about (`Translation.StillFindable`).
- With an mtu for which `mtu - 48` is no multiple of 8 the equal cut, which is for the fewest fragments, may take
  one more than the plain cut: exactly when what is left over full pieces fits beside the last of them
  (`Fragmentation.EqualAgainstPlain`). `Fragmentation.EqualTakesMore` is an input, 2465 bytes at an mtu of 1281.
  The plain cut has the fewest pieces of all cuts (`Fragmentation.PlainIsLeast`).
- A deleted mapping of xpmpd whose hold ends while the other protocol's mapping of the port lives becomes a
  companion and stays marked as on hold. Asked for again it serves its source port but can no longer be deleted,
  and when it expires the router is not told: `PortMapping.HeldFromTheStart` is an input, and the last clause of
  `PortMapping.Served` the exact condition.
- A search list option of 2041 to 2048 bytes is let pass, but its length does not fit the byte it has and the
  padding goes round the range of `size_t`; a label of 256 bytes or more makes the writer go on until its
  buffer is too large. `Dnssl.AddDnssl` says exactly when an option comes out.
- The test for an empty buffer in `send_ra` looks at the advertisement being built, never empty, instead of at
  the option. When the first node of the list is empty, an advertisement without options goes out exactly when the
  first option does not fit beside the header, and that is one more than needed: `RaPacking.HeaderOnly`,
  `RaPacking.EmptyNodeCost`, and `RaPacking.TwoForOne` as an input.

## Model

| member | source | states |
|---|---|---|
| `NatEntry.TreeOrder` | wan-mode/src/aftr-1.1/aftr.c:2864-2910 | on admissible entries the sign of nat_tree_compare_abs is that of the difference of two integers, so it is a strict total order, zero only for equal keys |
| `NatEntry.SplayOrder` | wan-mode/src/aftr-1.1/aftr.c:2948-2996 | the same for nat_splay_compare_abs |
| `NatEntry.TreeWildMonotone` | wan-mode/src/aftr-1.1/aftr.c:2912-2946 | along a sorted sequence that does not mix wildcards with exact entries, nat_tree_compare_wild only falls, so a binary search with it is sound |
| `NatEntry.SplayWildMonotone` | wan-mode/src/aftr-1.1/aftr.c:2998-3034 | the same for nat_splay_compare_wild, where on the packet's own internal address and port wildcards may stand beside exact entries for no smaller destination |
| `RbTree.NatTree.Insert` | wan-mode/src/aftr-1.1/aftr.c:3270-3298 | the set of entries grows by exactly the new one, or the one of the same key is returned and nothing changes; order, colours, black height and parent links hold afterwards |
| `RbTree.NatTree.InsertColor` | wan-mode/src/aftr-1.1/aftr.c:3072-3119 | the colour repair ends, keeps the in-order sequence and restores the colouring |
| `RbTree.NatTree.Remove` | wan-mode/src/aftr-1.1/aftr.c:3202-3268 | exactly the given entry leaves, in all four shapes of the removal; order, colours, black height and parent links hold afterwards |
| `RbTree.NatTree.RemoveColor` | wan-mode/src/aftr-1.1/aftr.c:3121-3200 | the repair of a missing black ends, keeps the in-order sequence and restores the black height |
| `RbTree.NatTree.FindWild` | wan-mode/src/aftr-1.1/aftr.c:3300-3316 | finds an entry that matches the packet exactly when there is one |
| `SplayTree.Splay.SplayTo` | wan-mode/src/aftr-1.1/aftr.c:3406-3480 | the in-order sequence stays the same whatever the comparison answers; when it falls along the entries, the root matches afterwards or no entry does |
| `SplayTree.Splay.Insert` | wan-mode/src/aftr-1.1/aftr.c:3482-3507 | refines insertion into a set of entries that are distinct under the comparison |
| `SplayTree.Splay.Remove` | wan-mode/src/aftr-1.1/aftr.c:3509-3531 | refines removal from that set |
| `SplayTree.Splay.Find` | wan-mode/src/aftr-1.1/aftr.c:3533-3568 | what it finds matches, whatever its generation; it finds a match exactly when there is one if no entry for a smaller destination hides a wildcard, and it keeps the set |
| `SplayTree.Splay.ReadOnlyFind` | wan-mode/src/aftr-1.1/aftr.c:3570-3591 | the search that does not splay finds an entry exactly when there is one, on the same condition as Find |
| `SplayTree.ExactMatchUnique` | wan-mode/src/aftr-1.1/aftr.c:3533-3591 | two entries with the key searched for are the same, so the two searches agree |
| `NatHeap.Heap.Insert` | wan-mode/src/aftr-1.1/aftr.c:3665-3676 | the heap gains exactly the entry; order and back pointers hold |
| `NatHeap.Heap.Delete` | wan-mode/src/aftr-1.1/aftr.c:3678-3704 | the heap loses exactly the entry at an index, whichever way the last one has to move |
| `NatHeap.Heap.Sooner` | wan-mode/src/aftr-1.1/aftr.c:3717-3726 | a lowered timeout floats up; the entries stay, order and back pointers hold |
| `NatHeap.Heap.Later` | wan-mode/src/aftr-1.1/aftr.c:3706-3715 | a raised timeout sinks down; the entries stay, order and back pointers hold |
| `NatHeap.Heap.Earliest` | wan-mode/src/aftr-1.1/aftr.c:12849-12854 | the entry at index 1 times out before all others, and is missing only when the heap is empty |
| `PatriciaTree.FirstDifference` | wan-mode/src/aftr-1.1/aftr.c:3790-3806 | the bit found is the first one two keys differ in |
| `PatriciaTree.TunnelTree.Find` | wan-mode/src/aftr-1.1/aftr.c:3743-3764 | finds the tunnel of a key exactly when there is one |
| `PatriciaTree.TunnelTree.Insert` | wan-mode/src/aftr-1.1/aftr.c:3767-3889 | adds exactly the tunnel, or returns the one with the same key; bits grow downwards, glue nodes have two children, keys below a node agree on the bits above it, and no error branch is taken |
| `PatriciaTree.TunnelTree.Remove` | wan-mode/src/aftr-1.1/aftr.c:3892-3962 | removes exactly the tunnel and the glue node it leaves with one child |
| `PatriciaTree.TunnelTree.OneTunnelPerKey` | wan-mode/src/aftr-1.1/aftr.c:3767-3889 | two tunnels of one key are the same, so the tree is a map |
| `PatriciaTree.TunnelTree.GlueCount` | wan-mode/src/aftr-1.1/aftr.c:5783-5801 | there is one glue node less than tunnels |
| `PortRange.Range.FillBucket` | wan-mode/src/aftr-1.1/aftr.c:4274-4334 | a bucket gains only ports that were free and are now the tunnel's, at most its size; it gets one if and only if one of the first at most ten draws was free, and it is short only when ten draws on what is left all failed; without any there is no bucket |
| `PortRange.Range.Draw` | wan-mode/src/aftr-1.1/aftr.c:4306-4321 | a port is found if and only if one of at most ten draws is free, it is that one, and nothing else changes; without one, ten were drawn and none was free |
| `PortRange.Range.Take` | wan-mode/src/aftr-1.1/aftr.c:4367-4376 | the port of a new entry goes from the bucket to live; natcnt stays live plus held exactly until the last of 65536 ports is taken, when it starts from zero |
| `PortRange.Range.FreeFirst` | wan-mode/src/aftr-1.1/aftr.c:4196-4214 | the head of the hold queue becomes free; natcnt is right afterwards exactly when it was, or when both are zero |
| `PortRange.Range.FreeHelds` | wan-mode/src/aftr-1.1/aftr.c:4184-4218 | exactly what is due, in the order of the queue up to the first that is not, is free afterwards |
| `PortRange.Range.ReturnBucket` | wan-mode/src/aftr-1.1/aftr.c:4243-4258 | exactly the tunnel's reserved ports become free |
| `PortRange.SetBit` | wan-mode/src/aftr-1.1/aftr.c:4208-4210 | setting a bit of the bitmap changes that port and no other |
| `PortPool.Ports.Allot` | wan-mode/src/aftr-1.1/aftr.c:4352-4376 | of all pools only the tunnel's own changes; with a port in the bucket there is one, and otherwise if and only if one of the ports drawn was free, so always when all ports of the pool are free; on failure no port has changed hands |
| `PortPool.Ports.RemoveSlot` | wan-mode/src/aftr-1.1/aftr.c:4243-4258 | with the bucket, all reservations of the slot are gone, in every pool |
| `PortPool.Ports.FreeHelds` | wan-mode/src/aftr-1.1/aftr.c:4184-4218 | every pool's queue is served up to the first port that is not due |
| `NatTable.Table.Enter` | wan-mode/src/aftr-1.1/aftr.c:4377-4415 | an entry is in its red-black tree and its splay tree, or in neither; tnatcnt is the size of the splay tree |
| `NatTable.Table.Leave` | wan-mode/src/aftr-1.1/aftr.c:4090-4147 | an entry leaves both trees, and tnatcnt follows |
| `NatTable.Table.CheckEntry` | wan-mode/src/aftr-1.1/aftr.c:5298-5346 | what the program's own checks look for: every entry is the one that the search of its tunnel's splay tree finds |
| `Binding.Bindings.Bind` | wan-mode/src/aftr-1.1/aftr.c:4377-4415 | with a port just drawn the only collision possible is one in the splay tree, with an entry for the same packet |
| `Binding.Bindings.Unbind` | wan-mode/src/aftr-1.1/aftr.c:4090-4181 | an entry leaves both trees, and its port is on hold if it is dynamic |
| `Binding.Bindings.AddStatic` | wan-mode/src/aftr-1.1/aftr.c:6109-6190 | a static entry enters exactly when its port is outside the dynamic range and neither tree knows its key |
| `Binding.Bindings.OnePerPort` | wan-mode/src/aftr-1.1/aftr.c:4337-4422 | no two live entries share a dynamic port of one pool and protocol |
| `Binding.Bindings.OneOfKind` | wan-mode/src/aftr-1.1/aftr.c:2864-2946 | two entries on one external address, port and protocol that both leave packets as they are, or both do not, are the same |
| `Binding.Bindings.Partition` | wan-mode/src/aftr-1.1/aftr.c:5501-5537 | every port of a range has its bit set, or is once in one bucket, or has one live entry, or is once on hold, and never two of these; bucket, entry and time are those its owner names |
| `Binding.Bindings.Counted` | wan-mode/src/aftr-1.1/aftr.c:5516-5537 | natcnt is the number of live entries on dynamic ports of the pool plus the length of its hold queue, unless it has gone round |
| `Aftr.CountTotal` | wan-mode/src/aftr-1.1/aftr.c:5321-5346 | the global counters add up to the number of entries |
| `Aftr.Nats.NewNat` | wan-mode/src/aftr-1.1/aftr.c:4337-4422 | a new entry is in both trees, the heap and the counters, under the pool's address and a port of its range; on failure the entries are the same, and without a match for the packet it comes about if and only if the bucket had a port or one of the ports drawn was free |
| `Aftr.Nats.DelNat` | wan-mode/src/aftr-1.1/aftr.c:4072-4181 | the entry leaves the trees, the heap, the counters and the cache, and its port is held until now plus hold_lifetime |
| `Aftr.Nats.Expire` | wan-mode/src/aftr-1.1/aftr.c:12848-12854 | what has timed out goes and nothing else, the heap holds no entry that has, with the hold queue in order of time every port whose hold is over is free, and ports change hands only as they may |
| `Aftr.Nats.DelTunnel` | wan-mode/src/aftr-1.1/aftr.c:4222-4271 | exactly the tunnel's entries go, its live ports are on hold and its reserved ones free |
| `Aftr.Nats.AddStatic` | wan-mode/src/aftr-1.1/aftr.c:6109-6190 | a static entry enters exactly when pool, port and trees allow it, for a tunnel that is set up if it is not there; no dynamic port changes hands |
| `Checksum.InCksum` | wan-mode/src/aftr-1.1/aftr.c:9700-9715 | the loop and its folds give the checksum of RFC 1071, without overflow up to 65535 bytes |
| `Checksum.FixCksum` | wan-mode/src/aftr-1.1/aftr.c:9753-9791 | the two bytes become what equation 3 of RFC 1624 gives |
| `Checksum.FixIsRecomputation` | wan-mode/src/aftr-1.1/aftr.c:9753-9791 | the fix equals recomputation if and only if the rewritten block is not all zero or nothing was rewritten |
| `Checksum.FixBack` | wan-mode/src/aftr-1.1/aftr.c:9753-9791 | translating back restores the checksum if and only if it was not 0xffff or nothing was rewritten |
| `Checksum.FixAccepted` | wan-mode/src/aftr-1.1/aftr.c:9753-9791 | with whatever checksum is stored for a block that is not all zero and does not become so, a receiver accepts it after the fix if and only if it would have accepted it before |
| `Packet.AllKept` | wan-mode/src/aftr-1.1/aftr.c:10938-10979 | rewriting a packet changes its address, its port and its checksums and no other byte; the header checksum, and that of TCP, UDP and ICMP over what each covers, is right or accepted afterwards if it was before, and accepted only then, but for an ICMP message all of zeros; no checksum stays none |
| `Packet.LosesChecksum` | wan-mode/src/aftr-1.1/aftr.c:10972-10977 | an input on which a UDP datagram with a checksum leaves without one |
| `Translation.TcpSeen` | wan-mode/src/aftr-1.1/aftr.c:10339-10403 | connection state, lifetime and timeout become what the segment makes of them, and the heap follows |
| `Translation.Touch` | wan-mode/src/aftr-1.1/aftr.c:10982-10986 | the timer of a binding becomes what a packet makes of it, in both directions, and the heap follows |
| `Translation.PacketTimes` | wan-mode/src/aftr-1.1/aftr.c:10339-10403 | a timeout falls only when both sides have closed the connection, to the time left to it; otherwise it does not fall and is at least now plus the time allowed in the packet's direction; a static entry has none |
| `Translation.SegmentTimes` | wan-mode/src/aftr-1.1/aftr.c:10339-10403 | which state, lifetime and timeout every TCP segment leaves: the lifetime is that of a closed connection when the second side's FIN closes it, and on a reset the fourth or the fifth one, as an acknowledgement has been seen or not |
| `Translation.FirstTimes` | wan-mode/src/aftr-1.1/aftr.c:11033-11057 | the lifetime of a new binding by protocol, and its timeout |
| `Translation.ClosedByBoth` | wan-mode/src/aftr-1.1/aftr.c:10339-10403 | over any run of segments without a reset: a side is closed if and only if a FIN came from it, the lifetime is that of a closed connection if and only if FINs came from both, and then the binding outlives its last segment by no more than that lifetime or the retransmission time |
| `Translation.ClosedStaysClosed` | wan-mode/src/aftr-1.1/aftr.c:10339-10403 | once both sides have closed a connection, no segment but a reset changes its timer by closing it again |
| `Translation.BindingFor` | wan-mode/src/aftr-1.1/aftr.c:10938-11062 | the entry that matches the packet, or a new one, or none; what exists is never duplicated where no wildcard is hidden; with no limit against it there is one if and only if a port was to be had |
| `Translation.NatIn` | wan-mode/src/aftr-1.1/aftr.c:10898-11066 | a packet that a binding carries leaves with the binding's source, its checksums as right as they were and no other byte changed; so does one for which a limit allows a new binding, if and only if the bucket has a port or one of those drawn is free; the timer of that binding follows and no other; a packet that does not leave has changed nothing but ports the failed attempt reserved or held |
| `Translation.StillFindable` | wan-mode/src/aftr-1.1/aftr.c:10938-11062 | a new binding hides no static entry from any packet |
| `Translation.Lookup` | wan-mode/src/aftr-1.1/aftr.c:3971-3997 | the answer is what the packet's slot holds if it matches, else what the search in the tree finds unless it is stale, and then it is in the slot; every filled slot is live and knows its slot |
| `Translation.LookupIsSearch` | wan-mode/src/aftr-1.1/aftr.c:3971-3997 | the answer is that of the search in the tree if and only if, on a hit, both entries are of one kind, or, on a miss, the tree's entry is not stale; so always when all that answers the packet is of one kind and not stale |
| `Translation.StaleLookup` | wan-mode/src/aftr-1.1/aftr.c:3971-3997 | a stale entry is handed out if and only if the packet's slot holds it |
| `Translation.NatOut` | wan-mode/src/aftr-1.1/aftr.c:11813-11945 | the packet is sent to the tunnel of the binding nat_lookup gives, unless it is too big, with the original destination, its checksums as right as they were and no other byte changed; the timer of that binding follows and no other |
| `Translation.ReplyAnswers` | wan-mode/src/aftr-1.1/aftr.c:11813-11945 | a reply to a translated packet answers its binding and is rewritten to the original address and port |
| `Translation.RoundTrip` | wan-mode/src/aftr-1.1/aftr.c:11813-11945 | as long as a dynamic binding lives, whatever natout finds for a reply is that binding, so it goes to no other tunnel, and it does find it unless a reload has passed it over |
| `Service.NotReissued` | wan-mode/src/aftr-1.1/aftr.c:4167-4218 | over any run, a port that stops being live at a time has no other use before that time plus hold_lifetime |
| `Service.HoldDown` | wan-mode/src/aftr-1.1/aftr.c:4184-4218 | over any run, a held port stays held until its time |
| `Service.Server.EveryPort` | wan-mode/src/aftr-1.1/aftr.c:5501-5537 | in every state that any calls lead to, every port of every pool is in exactly one place: bitmap, bucket, live entry or hold queue |
| `Service.Server.PoolCount` | wan-mode/src/aftr-1.1/aftr.c:5516-5537 | in every such state natcnt is live entries plus ports on hold, unless it has gone round |
| `Service.Server.NeverTooEarly` | wan-mode/src/aftr-1.1/aftr.c:4167-4218 | the same in every state that any sequence of packets, seconds and commands leads to |
| `Service.Server.FromTunnel` | wan-mode/src/aftr-1.1/aftr.c:12604-12652 | a packet from a tunnel is a step of a run, does what natin promises, success and checksums included, and disturbs no reload, collection or backtrack under way |
| `Service.Server.FromInternet` | wan-mode/src/aftr-1.1/aftr.c:12655-12697 | a packet from the Internet is a step of a run, does what natout promises with the generation of the last reload, checksums included, and disturbs no collection or backtrack |
| `Service.Server.Second` | wan-mode/src/aftr-1.1/aftr.c:12848-12854 | the housekeeping of a second is a step of a run: exactly what has timed out goes, which is nothing of the configuration, every port whose hold is over is free, and a collection goes on |
| `Service.Server.DelTunnel` | wan-mode/src/aftr-1.1/aftr.c:4222-4271 | the end of a tunnel is a step of a run: exactly its entries go, each leaves the configuration or session it was listed for, and cursors and goal of a collection follow |
| `Service.Server.Collect` | wan-mode/src/aftr-1.1/aftr.c:12509-12556 | a slice may come between any other calls: it deletes its full quantum or ends, and deletes nothing but what ended sessions have left and what the last reload has not confirmed; in the end exactly what the filter would have left of the rest is left |
| `Service.Server.AddStatic` | wan-mode/src/aftr-1.1/aftr.c:6109-6190 | a static entry is a step of a run; one of the configuration being read comes to the head of its list with the new generation |
| `Service.Server.EndSession` | wan-mode/src/aftr-1.1/aftr.c:9302-9340 | what a session has declared is marked for deletion, while packets, a reload, a collection or a backtrack may be under way |
| `Lookups.TwoKinds` | wan-mode/src/aftr-1.1/aftr.c:3971-3997 | an input, from an empty NAT on, on which no entry is stale and nat_lookup answers otherwise than the tree |
| `Lookups.PassedOver` | wan-mode/src/aftr-1.1/aftr.c:3971-3997 | an input on which nat_lookup hands out an entry that a reload has passed over |
| `Lookups.HiddenWildcard` | wan-mode/src/aftr-1.1/aftr.c:3533-3568 | for every static entry and every entry for a smaller destination on its internal address and port, a tree in which nat_splay_find misses the static entry |
| `Caches.NatCache.Forget` | wan-mode/src/aftr-1.1/aftr.c:4149-4150 | the cache is in order without the entry, and only its own slot has been cleared |
| `Caches.TunnelCache.Lookup` | wan-mode/src/aftr-1.1/aftr.c:3999-4020 | equals the search in the tree, whatever was looked up, removed or resized before |
| `Caches.DelTunnel` | wan-mode/src/aftr-1.1/aftr.c:4222-4271 | the tunnel leaves tree and cache; no slot points at it |
| `Caches.TunnelCache.Resize` | wan-mode/src/aftr-1.1/aftr.c:12931-13022 | a table of another size and with another hash is in order for whatever is live |
| `Fragmentation.EqualSizes` | wan-mode/src/aftr-1.1/aftr.c:12387-12412 | for every mtu from 1280 and every length that needs cutting, the first and the medium size give exactly the fewest pieces, without underflow |
| `Fragmentation.Encap` | wan-mode/src/aftr-1.1/aftr.c:12318-12445 | whole when it fits, else fragments that cover the packet, with multiples of 8 but the last and none above the mtu; equal cuts have the fewest pieces of the size allowed to them, biggest first; plain cuts fill every piece but the last |
| `Fragmentation.FewestIsLeast` | wan-mode/src/aftr-1.1/aftr.c:12387-12412 | no cut into pieces of that size has fewer |
| `Fragmentation.PlainIsLeast` | wan-mode/src/aftr-1.1/aftr.c:12424-12427 | no proper cut at all has fewer pieces than the plain one |
| `Fragmentation.EqualAgainstPlain` | wan-mode/src/aftr-1.1/aftr.c:12387-12427 | the equal cut takes as many pieces as the plain one, or one more, which it does if and only if what is left over full pieces is at most (mtu - 48) % 8 bytes and not nothing |
| `Fragmentation.EqualTakesMore` | wan-mode/src/aftr-1.1/aftr.c:12387-12427 | an mtu and a length for which it does |
| `Fragmentation.PacketsFit` | wan-mode/src/aftr-1.1/aftr.c:12413-12440 | no packet exceeds the mtu, and its length field is right |
| `Defrag.Queue.Collect` | wan-mode/src/aftr-1.1/aftr.c:10140-10225 | the linked trains of the queue refine the map from identifications to lists of pieces |
| `Defrag.Defrag6` | wan-mode/src/aftr-1.1/aftr.c:10091-10253 | one fragment has the effect of one step, and what is rebuilt is the header and the pieces in order |
| `Defrag.Defrag4` | wan-mode/src/aftr-1.1/aftr.c:9878-10083 | one IPv4 fragment has the effect of one step, and what is rebuilt is the header of the first fragment and the pieces in order; `Fragments4` says what that is for the fragments of a packet |
| `Reassembly.CompleteIsWhole` | wan-mode/src/aftr-1.1/aftr.c:9948-10083 | pieces of a packet that tile it from 0 to a last one are all its pieces |
| `Reassembly.AnyOrder` | wan-mode/src/aftr-1.1/aftr.c:9948-10083 | in any order of arrival, with duplicates and among other traffic, the train is complete exactly with the last missing piece, and header and payload do not depend on the order |
| `Defrag.CutRebuilt` | wan-mode/src/aftr-1.1/aftr.c:12332-12445 | the fragments of encap put together are the packet it would have sent whole |
| `Defrag.RoundTrip` | wan-mode/src/aftr-1.1/aftr.c:10091-10253 | encap's fragments, in any order and repeated at will: the last missing one, and none before it, completes the packet, equal to the one sent whole |
| `Defrag.Receive` | wan-mode/src/aftr-1.1/aftr.c:10091-10253 | the same for a call of defrag6 on the queue, which is left ready for the next |
| `Fragments4.ReadFragment` | wan-mode/src/aftr-1.1/aftr.c:9917-9933 | a fragment as section 3.2 of RFC 791 makes it is read as the part of the packet it was made from, and as the last one if and only if it is |
| `Fragments4.Receive` | wan-mode/src/aftr-1.1/aftr.c:9878-10083 | defrag on a fragment of an IPv4 packet, after any arrivals of it and of others: it succeeds exactly on the last one missing, and leaves the packet with neither DF nor MF nor an offset, with its length, its data, the rest of its header and the checksum of that header |
| `Fragments4.ReceiveAll` | wan-mode/src/aftr-1.1/aftr.c:9878-10083 | defrag on the fragments of an IPv4 packet in any order and with any repetitions: it succeeds on the first with which none is missing and on no other, and leaves that packet |
| `Fragments4.RestoredItself` | wan-mode/src/aftr-1.1/aftr.c:10057-10082 | a packet that may be cut, with its length and header checksum right, is itself again byte for byte |
| `Reload.Collector.GcIncr` | wan-mode/src/aftr-1.1/aftr.c:12509-12556 | a slice deletes its full quantum or ends; whatever it deletes was left by an ended session or is of the configuration and not confirmed; when the collection is done, exactly what a one-shot filter leaves is left |
| `Reload.Collector.Delete` | wan-mode/src/aftr-1.1/aftr.c:4134-4141 | a deletion of any entry between slices, also of a cursor's, takes it off the list it is on and out of what is to be left, and the cursors step over it |
| `Reload.Collector.DelTunnel` | wan-mode/src/aftr-1.1/aftr.c:4222-4271 | the same for all entries of a tunnel that ends |
| `Reload.Collector.BtIncr` | wan-mode/src/aftr-1.1/aftr.c:12558-12580 | a slice deletes nothing; when the backtrack is done no entry has a generation above the last good one |
| `Reload.Collector.FinishReload` | wan-mode/src/aftr-1.1/aftr.c:9045-9068 | a reload that failed starts a backtrack to the old generation, one that succeeded a collection, also when a session has ended during the reload |
| `Reload.Collector.Confirm` | wan-mode/src/aftr-1.1/aftr.c:6265-6309 | an entry declared again is listed once, at the head unless the configuration listed it, and no more for an ended session, with the new generation |
| `Reload.Collector.EndSession` | wan-mode/src/aftr-1.1/aftr.c:9302-9340 | the list of the session is put before those to be emptied, its entries lose their generation, and a slice is asked for unless one is due |
| `PortMapping.Daemon.Ownership` | wan-mode/src/aftr-1.1/xpmpd.py:358-456 | a port is a client's exactly when it has one UDP and one TCP mapping for it, not both companions; a source port is served at one port; at most 64 mappings |
| `PortMapping.Daemon.OneOwner` | wan-mode/src/aftr-1.1/xpmpd.py:358-456 | two clients of a natted address never have mappings for one port |
| `PortMapping.Daemon.SetMapping` | wan-mode/src/aftr-1.1/xpmpd.py:358-456 | keeps these, calls itself at most once, changes the port asked for only when it may and must, and does exactly what its outcome says; on the port it settles on it grants what the router grants and a renewal whatever the router says, and refuses everything else, unless a new mapping finds 64 there or no port is free |
| `PortMapping.Daemon.SettledOwn` | wan-mode/src/aftr-1.1/xpmpd.py:367-372 | the port a source port has already ends the recursion |
| `PortMapping.Daemon.SettledFree` | wan-mode/src/aftr-1.1/xpmpd.py:373-386 | a free port ends the recursion |
| `PortMapping.Daemon.Expire` | wan-mode/src/aftr-1.1/xpmpd.py:574-585 | what is due goes and nothing else: no time up to now is left, and mappings that expire later stay; every time in the heap is a key of the table |
| `PortMapping.Daemon.Expire1` | wan-mode/src/aftr-1.1/xpmpd.py:310-322 | the port goes with its last mapping, otherwise the mapping becomes the other's companion |
| `PortMapping.Daemon.DelMapping` | wan-mode/src/aftr-1.1/xpmpd.py:324-342 | exactly the mapping that serves the source port goes on hold, unless it counts as on hold already |
| `PortMapping.Daemon.DelAll` | wan-mode/src/aftr-1.1/xpmpd.py:129-155 | exactly the mappings of the protocol, of the source or of the whole client, that are neither companions nor on hold go on hold |
| `PortMapping.HeldFromTheStart` | wan-mode/src/aftr-1.1/xpmpd.py:310-440 | an input, from the start of the daemon on, on which a mapping serves its source port and can no longer be deleted |
| `SafeBuffer.Buffer.Resize` | wan-mode/src/radvd-2.17/util.c:54-69 | grows to whole blocks of 64, or ends the program if and only if more than 64K is asked for, and keeps the contents |
| `SafeBuffer.Buffer.Append` | wan-mode/src/radvd-2.17/util.c:79-89 | appends the bytes, or ends the program if and only if there would be more than 64K |
| `Dnssl.SerializeDomainNames` | wan-mode/src/radvd-2.17/send.c:379-412 | ends on every input, and without ending the program writes exactly the names in the form of section 3.1 of RFC 1035, none of whose labels is 256 bytes or longer |
| `Dnssl.AddDnssl` | wan-mode/src/radvd-2.17/send.c:486-532 | an option comes out if and only if all labels are shorter than 256 bytes and it has at most 2040; type, length, reserved bytes, lifetime, names and padding are where section 5.2 of RFC 6106 has them |
| `Dnssl.PrintDnssl` | wan-mode/src/radvd-2.17/radvdump.c:396-428 | prints what the recursive reading of the option says, and its string never overflows |
| `Dnssl.RoundTrip` | wan-mode/src/radvd-2.17/radvdump.c:401-428 | the list of names is printed back if and only if every name is a list of nonempty labels of at most 254 bytes, or of 255 in more than one label |
| `RaPacking.BuildRaOptions` | wan-mode/src/radvd-2.17/send.c:646-708 | the list holds the options in the order they are built, the first of a list in the node that is there; the program ends if and only if one is larger than 64K |
| `RaPacking.SendRa` | wan-mode/src/radvd-2.17/send.c:736-821 | each advertisement has the header and takes options as long as they fit, and one at least; all options are sent unless a sending fails or the program ends, which with a limit of at most 64K it does if and only if the header with some one option is larger than 64K |
| `RaPacking.BodiesAreOptions` | wan-mode/src/radvd-2.17/send.c:736-821 | behind their headers the advertisements carry all options, in order |
| `RaPacking.FewestAdvertisements` | wan-mode/src/radvd-2.17/send.c:736-821 | no packing that keeps the order of the nodes takes fewer advertisements, an empty node counting as one of no bytes |
| `RaPacking.HeaderOnly` | wan-mode/src/radvd-2.17/send.c:749-754 | an advertisement without options goes out if and only if it is the first, the first node is empty, and there is no option or none fits beside the header |
| `RaPacking.EmptyNodeCost` | wan-mode/src/radvd-2.17/send.c:749-754 | the empty node costs one advertisement if and only if the first option does not fit beside the header; otherwise there are as few as without it |
| `RaPacking.TwoForOne` | wan-mode/src/radvd-2.17/send.c:749-754 | an option, a header and a limit for which it does |

## Left out

What the programs do and the model does not:

- The FTP application gateway and its temporary wildcard entries, the rewriting of the maximum segment size,
  and the ICMP errors that carry an inner packet.
- Devices, sockets, the select loop, logging, signals, files, command parsing, statistics, and failure of
  memory allocation.
- The limit on new entries per second: an attempt is limited or not, as a parameter.
- Tunnels without NAT, `prrin` and its counterpart for ICMP errors, access lists, and the filters before the NAT.
- `limit_port` on a pool already in use.
- The list of a session that has not ended: it is a parameter of `Reload.Collector.EndSession`, and an entry that is
  deleted or confirmed before leaves it unseen.
- The expiry of incomplete trains of fragments, the hash slot of IPv4 trains, and the traffic class of the outer
  header, which the program compiles only with an option it does not set.
- The upward walk at the end of `nat_tree_remove` (aftr.c:3241-3245), which changes nothing.
- The exact values of the hash functions and of the random draws: any function, any choice.
- `delclient` of xpmpd: it fails on a mapping that has become a companion when its time came, since that time
  has no entry in the table any more. The daemon's packet format, and the commands it sends to the router, whose
  answers are parameters.
- radvd's timers, interfaces and its other options, which are byte strings here; the header of an advertisement
  is never empty, it has 16 bytes.

Members that promise less than the program might be taken to, or ask more than it does:

- NatTable.Table.Enter: `tnatcnt` is a natural number, where the program has an unsigned short (aftr.c:1305);
  static entries are not limited, so with more than 65535 entries of one protocol in a tunnel it would wrap.
- Aftr.Nats.NewNat: the global counters are natural numbers, where the program has unsigned ints.
- Aftr.Nats.AddStatic: a pool is there for all protocols or for none, and so is a tunnel, as `add_pool` and
  `add_tunnel` make them; for `add_prr` the pool whose turn it is for a new tunnel is a parameter.
- Reload.Collector.DelTunnel: its entries leave their lists before they are deleted, root after root; the program
  does both for one entry after the other, and neither reads what the other changes.
- Aftr.Nats.NewNat: asks that the destination is not 0.0.0.0; the comparisons would take such an entry for a
  wildcard.
- Aftr.Nats.DelNat: the steps on the cache, the heap, the trees and the hold queue come in another order than in
  the program; no step reads what another one changes.
- PortRange.Range.FillBucket: the bucket is the list of its available ports; the program keeps the array and an
  index into it.
- Defrag.Queue.Collect: the count of trains of a tunnel is a natural number, where the program has an unsigned
  char; the limit it is compared with is at most 255, so it never wraps.
- Defrag.Defrag6: takes fragments of any size; `decap` drops a packet of less than 56 bytes before, so a last
  fragment of less than 8 bytes never gets there.
- Translation.NatIn: a packet is at least 40 bytes long, so that every field it may look at is in the buffer.
- PortMapping.Daemon.AddSource: asks that the range of ports does not contain 0; with a negative `-m` it may, and
  `setmapping` then calls itself without end once 0 is drawn.
- RaPacking.SendRa: a sending that fails is a parameter, and a header is never empty.
