# Verification of the networking exercises

This Dafny project models three components of the repository and proves what
each of them guarantees over every input, every run, or every order of events.

* **The spanning-tree protocol** (`prj06`).  `StpSwitch.dfy` holds the switch as
  an object and as functions; `StpInvariant.dfy` what one switch keeps;
  `StpNetwork.dfy` a network of switches over links that may lose, delay,
  reorder and duplicate messages; `StpSafety.dfy` what holds in every state of
  every run; `StpLink.dfy` and `StpFifo.dfy` what holds in addition when links
  deliver everything once and in order, `StpOrder.dfy` which ports and neighbours
  are preferred, and `StpRing.dfy` a run in which a farther one is.  The rule implemented is the root
  selection of section 8.6.8 of IEEE 802.1D-1998.
* **Longest-prefix match** (`prj09`, and the list scan of `prj14`).
  `Addresses.dfy` and `Routes.dfy` say what the answer is; `BaseTrie.dfy` and
  `BaseLpm.dfy` are the one-bit trie; `PoptrieNode.dfy`, `PoptrieTree.dfy`,
  `PoptrieMemory.dfy`, `PoptrieTable.dfy`, `PoptrieLpm.dfy`, `PoptrieDrop.dfy`,
  `PoptrieAnswer.dfy` and `PoptrieBuild.dfy` are the compressed trie, from one node up to loading a
  table.
* **The TCP data path** (`prj14`).  `RingBuffer.dfy`, `OfoList.dfy` and
  `TcpReceiver.dfy` are the receiving side, `SynchWait.dfy` and
  `TcpBlocking.dfy` how its two threads wait for each other; `TcpSender.dfy`,
  `TcpSenderSafety.dfy`, `TcpSenderTiming.dfy`, `TcpSocket.dfy` and
  `TcpWaitSend.dfy` the sending side and how its threads wait;
  `TcpEndToEnd.dfy` joins the two over an unreliable network, `TcpAnswers.dfy`
  says what is acknowledged and kept there,
  `TcpRoom.dfy` says when the receiver comes to wait for room, and
  `TcpFullBuffer.dfy` follows a pair into a hang;
  `Checksum.dfy` is the header checksum.  The related standards are sections 3.1
  and 3.2 of RFC 5681, section 3.2 of RFC 6582 and section 1 of RFC 1071.

Code that updates structures in place is modelled by classes and methods with
loops; each method is proved equal to a function on values, and the properties
are proved about those functions.  The stretches between two releases of a lock
are the atomic steps.  `TcpReceiver.dfy` and `TcpEndToEnd.dfy` let a waiting
thread look again at any time, which covers every run of the threads;
`TcpBlocking.dfy` says which of those looks really happen.  Clock readings, the
choice of which message arrives next, and what the applications write and read
are parameters.

## What the proofs found

* The poptrie does not answer by longest-prefix match after every sequence of
  insertions.  `PoptrieLpm.PutCorrectIffSafe` gives the exact condition on the
  routes for one insertion, `PoptrieBuild.CorrectThroughoutIffSafe` for a whole
  table.  There are two ways to fail, each loaded by a method at a concrete pair
  of routes: a longer prefix at another level hides addresses
  (`PoptrieBuild.InnerFirstMisses`), and a longer prefix at the same level loses
  its leaf, which shifts the leaves behind it and makes some lookup read outside
  the leaf array (`PoptrieBuild.SameLevelMisses`, `PoptrieLpm.DroppedIsMisread`).
  Tables in which no route is inserted after a strictly longer one nested in it
  are always fine, and sorting by address and length gives such an order.
  As long as no leaf is dropped, each address is in the end answered by the last
  route that reached it, and a later route can hide an earlier failure
  (`PoptrieBuild.FinalAnswers`, `PoptrieBuild.LaterRouteHides`).
* A receiver whose buffer is full can hang for ever.  Asleep without a
  notification it is only woken by a read that has already passed its spin; any
  other read spins on the sleeper it should wake (`TcpBlocking.WakesExactly`).
  A sender of this program gets it there over a perfect network, because with
  nothing outstanding its window test lets a whole packet go whatever the
  receiver has told (`TcpFullBuffer.HonestPairHangs`).  A sender that writes
  nothing past the right edge it has been told would keep the receiver out of
  that wait altogether (`TcpRoom.NeverWaitsForRoom`, `TcpRoom.FillsExactly`).
* A reader can sleep although there are bytes, until another segment arrives that
  is not old; this happens exactly if it goes to sleep without a notification
  while the protocol thread waits for a segment (`TcpBlocking.DozesExactly`,
  `TcpBlocking.NewSegmentStirs`, `TcpBlocking.ReaderOversleeps`).
* A writer can sleep with nothing outstanding and the window open.  Its last
  acknowledgement must come with data, and either be handled before the writer
  sleeps, or come with a segment that is old or never finds room, after which
  nobody is notified at all.  The data segments of this program carry no
  acknowledgement, and between two of its own ends this never happens
  (`TcpWaitSend.StarvesExactly`, `TcpWaitSend.NeverStarves`,
  `TcpWaitSend.WriterStarves`, `TcpWaitSend.SleeperStarves`).
* An out-of-order TCP segment that belongs in front of everything buffered is
  lost, and leaves the list inconsistent (`OfoList.List.Insert`,
  `OfoList.LostInsertDangles`).
* A partial acknowledgement in fast recovery reads a packet behind an empty send
  queue exactly in the case `TcpSenderSafety.WildExactlyWhenEmpty` states.  The
  acknowledgements of an honest receiver, repeated and delayed by the network,
  reach it (`TcpEndToEnd.HonestRunReadsWild`); a recovery entered with a packet
  outstanding never does (`TcpEndToEnd.ProperRecoveryNeverReadsWild`).
* A packet is sent again by exactly the scans 20 and 60 of every 140; the third
  expiry of each cycle sends nothing (`TcpSenderTiming.ResentExactly`).
* Two packets that time out in the same scan, as any two sent between the same
  two scans do, leave a slow-start threshold of 1 instead of half the window
  (`TcpSenderTiming.ScanHalvesOnce`, `TcpSenderTiming.BurstCollapsesThreshold`).
* Storing the checksum always makes the sum over the data come out as 0, even
  when the 32-bit accumulator has overflowed (`Checksum.RecheckIsZero`).
* The second port selection of the spanning-tree handler never has an effect
  (`StpSwitch.BestOverallIsRootOrDesignated`).
* When the spanning tree has gone quiet, the designated end of a link need not be
  the nearer one to the root, and a root port need not lead to the nearest
  neighbour: in the ring of four, one late message is enough
  (`StpRing.FartherEndIsDesignated`).  A link is right as long as no message
  through another port overtakes what its blocked end holds
  (`StpOrder.StepHolds`, `StpOrder.DesignatedIsNearerExactly`).
* A send window smaller than a packet wraps around with the first packet sent and
  counts as 4 GB more (`TcpSocket.WriteOnWindow`).

## Model

| member | source | states |
|---|---|---|
| StpSwitch.PortCmpIsTotalOrder | prj06/stp.c:171-181 | the comparison is a total order on priority vectors, so refusing to replace a vector means it is strictly better |
| StpSwitch.BestIsLast | prj06/stp.c:194-202 | a selection finds a candidate that no candidate improves on, the last of equal ones, and nothing exactly when there is no candidate |
| StpSwitch.BestOverallIsRootOrDesignated | prj06/stp.c:194-215 | the best port overall is the root port or a designated port, so the condition after the selections is always false |
| StpOrder.RootPortIsLeast | prj06/stp.c:171-202 | the root port is the blocked port with the least root, cost, switch ID and port ID, compared as numbers, the last of equal ones |
| StpOrder.TakenExactly | prj06/stp.c:183-193 | a message is taken exactly if it is not worse in that order than what the port holds |
| StpOrder.FourthPrefersSecond | prj06/stp.c:176-177 | switch 4 of the ring of four, between 2 and 3 at the same distance, chooses 2 |
| StpInvariant.InitCoherent | prj06/stp.c:235-272 | a switch of one to 32 ports starts with ports, root port, root, cost and timer consistent |
| StpSwitch.Stp.SendAll | prj06/stp.c:91-98 | exactly the designated ports are announced, in order |
| StpSwitch.Stp.SelectPorts | prj06/stp.c:194-202 | the one interleaved scan makes both selections |
| StpSwitch.Stp.HandleConfigPacket | prj06/stp.c:183-224 | handling a message in place refines the step function used in the network proofs |
| StpSwitch.Stp.TimerRunOnce | prj06/stp_timer.c:34-64 | the hello timer fires exactly when it is active and has run out, announces all designated ports and starts again |
| StpInvariant.AcceptPorts | prj06/stp.c:193-221 | port by port: the receiving port holds the message, other blocked ports are untouched, designated ports say the new root and cost, no port becomes designated |
| StpInvariant.AcceptKeeps | prj06/stp.c:183-224 | a message from another switch keeps ports, root port, root, cost and timer consistent and worsens none of them |
| StpInvariant.BroadcastSaysOwn | prj06/stp.c:91-98 | an announcement leaves once through each designated port and states the switch's own belief |
| StpInvariant.ReplySaysOwn | prj06/stp.c:190-190 | the reply to a worse message leaves once, through the port it came in by |
| StpNetwork.PathThroughRootPort | prj06/stp.c:203-207 | a switch that chooses a root port is not yet on the path behind it, so its own path to the root is simple |
| StpNetwork.StepInv | prj06/stp.c:183-224 | the invariant over switches, stored vectors and messages in flight is inductive for every step |
| StpSafety.RunInv | prj06/stp.c:65-224 | every state of every run satisfies the network invariant, whatever the network does to messages |
| StpSafety.BeliefsNeverWorsen | prj06/stp.c:203-211 | over a whole run a switch's root and cost never get lexicographically worse |
| StpSafety.BlockedStaysBlocked | prj06/stp.c:212-221 | a port that has stopped being designated stays so forever |
| StpSafety.TimerRunsExactlyAtRoots | prj06/stp.c:204-210 | the hello timer is active, the root port unset and the cost 0 exactly at switches that take themselves for root, and no root exceeds the own ID |
| StpSafety.NoCountingToInfinity | prj06/stp.c:164-169 | beliefs, stored vectors and messages in flight name a real switch at the length of a simple path to it, below the number of switches |
| StpSafety.RootPortsFormForest | prj06/stp.c:183-224 | following root ports never returns to a switch and ends at one that takes itself for root |
| StpSafety.LowestStaysRoot | prj06/stp.c:108-115 | the switch with the lowest ID is root and keeps all ports designated forever |
| StpLink.LinkMove | prj06/stp.c:183-224 | what crossing messages on one link guarantee to both ends is kept by every move of an end |
| StpFifo.FifoRunInv | prj06/stp.c:183-224 | over links that neither lose nor reorder messages, every link keeps those guarantees in every run |
| StpFifo.EveryLinkKeepsDesignatedEnd | prj06/stp.c:183-224 | in no reachable state are both ends of a link non-designated |
| StpFifo.NoForwardingLoop | prj06/stp.c:29-42 | when every active link is one hop of a root port, no frame can circulate through root and designated ports |
| StpFifo.QuietNetworkIsForest | prj06/stp.c:183-224 | once everything sent has arrived, each link has exactly one designated end and no frame can circulate |
| StpFifo.QuietCostsAreExact | prj06/stp.c:203-207 | then the cost of a switch is the exact number of root ports between it and the root it names |
| StpFifo.PairGoesQuiet | prj06/stp.c:91-224 | two linked switches reach such a state, with the lower one as root at costs 0 and 1 |
| StpOrder.StepHolds | prj06/stp.c:193-211 | a blocked port goes on holding something nearer to the root than its own switch, except exactly after a message through another port that makes the switch as near |
| StpOrder.RunHolds | prj06/stp.c:183-224 | over any run it does so as long as there is no such message |
| StpOrder.DesignatedIsNearerExactly | prj06/stp.c:183-224 | in a quiet network the designated end of a link is the nearer one, by root, cost and switch ID, exactly if the blocked end has not been overtaken; it is then one hop nearer to the same root, or as near with the lower ID |
| StpOrder.RootPortLeadsToNearest | prj06/stp.c:198-206 | then the root port leads to the nearest of the neighbours behind blocked ports, and to its lowest port |
| StpOrder.RootPortLeadsToNearestOfAll | prj06/stp.c:198-206 | if no blocked port has been overtaken, to the nearest of all neighbours |
| StpRing.FartherEndIsDesignated | prj06/four_node_ring.py:43-46 | neither holds in every quiet network: a run of the ring of four in which the farther switch 4 is designated towards 2, and its root port leads to 3 |
| Addresses.AgreeIsUnder | prj09/poptrie.c:75-77 | matching a prefix is the same on addresses and on the six-bit keys cut from them |
| Addresses.UnderIsRange | prj09/poptrie.c:185-187 | a prefix covers exactly one aligned range of slots of the node at its level |
| Routes.LpmIsWinner | prj14/ip.c:28-41 | the specified answer is nothing exactly when nothing matches, and otherwise the longest matching route, the last of equally long ones |
| Routes.LongestPrefixMatch | prj14/ip.c:29-41 | for any 32-bit netmasks the scan of the route list returns the first of the matching entries with the largest netmask |
| Routes.EntryMatchesBits | prj14/ip.c:34-34 | an entry matches exactly the addresses that equal its own in every bit of its netmask |
| Routes.EntryMatchesRoute | prj14/ip.c:34-34 | with a netmask of leading ones, an entry matches exactly the addresses under its prefix |
| Routes.ScanAgreesWithLpm | prj14/ip.c:29-41 | on distinct prefixes with contiguous netmasks the entry selected is the longest-prefix match |
| Routes.ForwardByScan | prj14/ip.c:29-41 | so the scan of such a table answers every address by longest-prefix match |
| BaseTrie.AgreeIsPath | prj09/base.c:28-36 | two addresses agree on a prefix exactly when they walk the same path of bits |
| BaseTrie.Trie.constructor | prj09/base.c:18-22 | a new trie stores no route |
| BaseTrie.Trie.Put | prj09/base.c:24-58 | an insertion stores its route at its path, keeps every other stored route, and keeps the nodes linked as a tree |
| BaseTrie.Trie.Get | prj09/base.c:60-72 | a lookup returns the node of the longest stored path that starts the address, or NULL |
| BaseLpm.LongestAtIsLpm | prj09/base.c:60-72 | the longest stored path is the longest-prefix match of the routes inserted |
| BaseLpm.AddRoutes | prj09/base.c:24-58 | after any sequence of insertions each path stores its last route |
| BaseLpm.Forward | prj09/base.c:60-72 | for every sequence of insertions and every address the lookup is longest-prefix match |
| BaseLpm.TriesAgree | prj09/poptrie.c:59-98 | compressed and plain trie give the same interface wherever a route matches, and (0, 0) and NULL where none does |
| BaseLpm.LoadBoth | prj09/test.c:18-83 | loading any safe table into both structures by their loops, the two lookups of any address agree, and find nothing exactly when no route matches |
| PoptrieNode.Rank | prj09/poptrie.c:73-86 | the counting loop gives the number of leaf runs and children up to a key |
| PoptrieNode.CountOneBit | prj09/poptrie.c:15-22 | counts the ones of all 64 bits |
| PoptrieNode.MakeRoom | prj09/poptrie.c:133-165 | turning a leaf slot into a child keeps the node well formed and the leaf of every other slot |
| PoptrieNode.CopyBefore | prj09/poptrie.c:193-205 | the leaf runs in front of the prefix are copied as they are |
| PoptrieNode.WriteRange | prj09/poptrie.c:206-228 | among the slots of the prefix the first leaf slot and every run start get the new leaf, except runs of a longer prefix, which keep their bit and lose their entry |
| PoptrieNode.CopyAfter | prj09/poptrie.c:229-250 | behind the prefix every run is copied, and its first leaf slot opens one with the leaf it had |
| PoptrieNode.Paint | prj09/poptrie.c:185-256 | the three loops leave exactly the node that `Repainted` describes, whatever the node holds |
| PoptrieNode.RepaintedPaints | prj09/poptrie.c:206-250 | without a longer prefix among the slots, that node is well formed and gives the new leaf there and the old leaves elsewhere |
| PoptrieNode.RepaintedIsShort | prj09/poptrie.c:211-224 | with one, it has fewer entries than run starts |
| PoptrieTree.ExpandedWf | prj09/poptrie.c:133-179 | opening a child keeps the tree well formed: disjoint bit vectors, leaf and child arrays of exactly as many elements as bits, depth at most six |
| PoptrieTree.ExpandedFind | prj09/poptrie.c:166-178 | opening a child changes no lookup |
| PoptrieTree.OverwrittenWf | prj09/poptrie.c:206-256 | repainting a node keeps the tree well formed |
| PoptrieTree.OverwrittenFind | prj09/poptrie.c:206-256 | repainting changes exactly the lookups that end in the painted slots |
| PoptrieTree.RepaintedUnreadable | prj09/poptrie.c:211-224 | with a longer prefix among the slots, the last run starts at a slot whose index lies outside the leaf array, and which addresses reach at every level |
| PoptrieMemory.AtInjective | prj09/poptrie.c:166-182 | no two nodes of the tree share a cell of memory |
| PoptrieMemory.MemStore | prj09/poptrie.c:252-255 | writing one node in place leaves every other node as it was |
| PoptrieMemory.GrownMem | prj09/poptrie.c:166-182 | reallocating a child array and freeing the old one leaves every node where the tree says it is |
| PoptrieTable.Poptrie.constructor | prj09/poptrie.c:50-57 | the empty structure is well formed and answers (0, 0) everywhere |
| PoptrieTable.Poptrie.Get | prj09/poptrie.c:59-98 | the lookup ends at a leaf slot although the bit counter wraps, and returns its entry, or none where it would read outside the leaf array; in a sound structure that never happens and the entry is the leaf of the tree |
| PoptrieTable.Poptrie.GetWithoutShortcut | prj09/poptrie.c:63-68 | the shortcut table never changes an answer |
| PoptrieTable.Poptrie.RenewPointing | prj09/poptrie.c:24-34 | exactly the shortcuts of one level-1 node are redirected, each to its element of the new child array |
| PoptrieTable.Poptrie.Install | prj09/poptrie.c:166-178 | after every reallocation the shortcut of twelve bits points at their level-2 node, and is unset exactly where there is none |
| PoptrieTable.Poptrie.Put | prj09/poptrie.c:100-257 | on any sound structure: opens exactly the nodes of the prefix without changing a lookup and repaints its slots; if no longer prefix holds a leaf under it, exactly the lookups under it that end at its level change, otherwise some slot that addresses reach is answered from outside the leaf array; the two counters stay exact |
| PoptrieDrop.PutReadsExactly | prj09/poptrie.c:189-256 | after any insertion into a sound structure, an address whose lookup ends in another node reads what it read; one in the node of the prefix reads the right leaf of the run start of its rank among those that keep their entry, or outside the array if there are fewer |
| PoptrieDrop.FrontIsRight | prj09/poptrie.c:206-228 | even if leaves are dropped, every address of the node in front of the first longer prefix reads the right leaf |
| PoptrieLpm.PutCorrectIffSafe | prj09/poptrie.c:206-228 | an insertion keeps every lookup in range and equal to longest-prefix match if and only if the stated condition on the routes holds |
| PoptrieLpm.DroppedIsMisread | prj09/poptrie.c:211-224 | an insertion that drops a leaf makes the lookup of some address read outside its leaf array |
| PoptrieLpm.SafeRepresents | prj09/poptrie.c:100-257 | a safe insertion leaves exactly the table with the new route represented |
| PoptrieLpm.UnservedIncorrect | prj09/poptrie.c:211-224 | where the condition fails, an address is given whose lookup is wrong: one the condition excludes, or one that reads outside its leaf array |
| PoptrieLpm.NoneNestedIsSafe | prj09/poptrie.c:100-257 | an insertion with no strictly longer nested route before it is safe |
| PoptrieLpm.SortedIsOuterFirst | prj09/poptrie.c:100-257 | a table sorted by address, then length, is inserted in a safe order |
| PoptrieLpm.InnerFirstFails | prj09/poptrie.c:211-224 | after a /7 the enclosing /6 misses the addresses the /7 does not hold |
| PoptrieBuild.InnerFirstMisses | prj09/poptrie.c:100-257 | loading that pair of routes and looking the address up gives (0, 0) although the /6 matches |
| PoptrieBuild.SameLevelMisreads | prj09/poptrie.c:206-250 | after 0.0.0.0/12 the route 0.0.0.0/11 takes over its addresses, its own get (0, 0), and some lookup reads outside the leaf array |
| PoptrieBuild.SameLevelMisses | prj09/poptrie.c:100-257 | loading that pair and looking two addresses up gives those wrong answers |
| PoptrieBuild.CorrectThroughoutIffSafe | prj09/poptrie.c:100-257 | loading a table, every lookup is right after every insertion if and only if each insertion is safe |
| PoptrieBuild.OuterFirstIsSafe | prj09/poptrie.c:100-257 | an order without nested longer routes first is safe at every insertion |
| PoptrieAnswer.ReachedIsLast | prj09/poptrie.c:100-257 | the answer found by folding over the insertions is that of the last route that matches with no earlier node opened below its level |
| PoptrieAnswer.FitsExactly | prj09/poptrie.c:206-228 | whether an insertion drops a leaf is decided by the routes inserted before it |
| PoptrieAnswer.InsertedAnswers | prj09/poptrie.c:100-257 | one that drops none makes the new route the answer of exactly the addresses it reaches |
| PoptrieBuild.SafeIsKept | prj09/poptrie.c:100-257 | in a sequence of safe insertions none drops a leaf, and the last route that reaches an address is its longest match |
| PoptrieBuild.AddRoutes | prj09/poptrie.c:100-257 | for every sequence of insertions that drops no leaf the structure answers with the last route that reached the address, for every safe one it represents the table; its counters are exact |
| PoptrieBuild.FinalAnswers | prj09/poptrie.c:100-257 | every tree on the way is sound if and only if no insertion drops a leaf; then the loaded table answers each address with the last route that reached it, and all final answers are right if and only if that is always the longest match |
| PoptrieBuild.LaterRouteHides | prj09/poptrie.c:100-257 | after the /7 and the unsafe /6, the other /7 makes all answers right again |
| PoptrieBuild.Forward | prj09/poptrie.c:59-98 | then every 32-bit address is answered with interface and mask of the longest prefix, the last of equal ones, or (0, 0) |
| RingBuffer.Ring.Used | prj14/include/ring_buffer.h:55-58 | the modular difference of the two positions is the number of queued bytes |
| RingBuffer.Ring.Free | prj14/include/ring_buffer.h:60-64 | the free space is the capacity minus the bytes queued |
| RingBuffer.Ring.Write | prj14/include/ring_buffer.h:101-116 | the bytes are appended to the queue, across the end of the array |
| RingBuffer.Ring.Read | prj14/include/ring_buffer.h:80-98 | the oldest bytes are taken, across the end of the array |
| RingBuffer.WriteWrapped | prj14/include/ring_buffer.h:105-110 | the two copies of a wrapped write append to the queued bytes |
| RingBuffer.ReadSplits | prj14/include/ring_buffer.h:84-95 | the one or two copies of a read are the oldest bytes, and what stays queued are the others |
| OfoList.InsertedAscending | prj14/tcp_in.c:81-90 | sorted insertion keeps the order, loses nothing and adds only the new segment |
| OfoList.List.Insert | prj14/tcp_in.c:69-91 | the linked list stays sound and gains the segment in its place if and only if the segment does not belong in front of everything buffered |
| OfoList.List.DeleteFirst | prj14/include/list.h:60-66 | removing the first segment keeps the list sound |
| OfoList.LostInsertDangles | prj14/tcp_in.c:77-88 | after a lost insertion, removing the first segment leaves the head pointing at it |
| TcpReceiver.Receiver.ArriveSegment | prj14/tcp_in.c:223-262 | an arriving segment is accepted, buffered or only acknowledged, as the step function says |
| TcpReceiver.Receiver.ProceedStore | prj14/tcp_in.c:226-234 | one look at the buffer: an accepted segment that fits is queued and the window shrinks by its length, one that does not fit changes nothing |
| TcpReceiver.Receiver.ProceedDrain | prj14/tcp_in.c:235-255 | one look at the buffer: the next buffered segment follows if there is no gap and it fits; at the gap the next expected number moves and is acknowledged |
| TcpReceiver.Receiver.ReadBytes | prj14/tcp_sock.c:372-374 | the reader takes the oldest bytes and the window grows by the length returned |
| SynchWait.OperationsKeep | prj14/include/synch_wait.h:40-72 | every operation keeps the flags consistent with the one thread that may sleep |
| TcpBlocking.RunKeeps | prj14/tcp_in.c:223-270 | over every run of the two threads the flags of both wait structures agree with who sleeps, the protocol thread waits only with a segment in hand, and then a reader that found nothing has been notified if there are bytes now |
| TcpBlocking.WakesExactly | prj14/tcp_sock.c:377-378 | a protocol thread asleep for want of room can ever be woken if and only if it has been notified or a read has passed its spin |
| TcpBlocking.WakingStays | prj14/tcp_sock.c:377-378 | then its waking stays possible whatever else happens first |
| TcpBlocking.DoomIsForever | prj14/tcp_sock.c:367-378 | otherwise, over every run, nothing is accepted or acknowledged any more and at most one more read takes bytes, which then spins for ever |
| TcpBlocking.FullBufferHangs | prj14/tcp_in.c:226-231 | 45 full packets in order and one read reach such a hang, in which neither thread can make a move |
| TcpRoom.RunEdges | prj14/tcp_in.c:255-267 | in every state of every run, no acknowledgement on the wire tells a right edge beyond the bytes read and a full buffer |
| TcpRoom.NeverWaitsForRoom | prj14/tcp_in.c:226-241 | over any run whose writes stay within an edge the sender has been told, the receiver never waits for room |
| TcpRoom.FillsExactly | prj14/tcp_in.c:226-241 | in any state of any run, some order of arrival makes the receiver wait for room before it reads again if and only if more is written than was read and fits into the buffer |
| TcpFullBuffer.HonestPairHangs | prj14/tcp_sock.c:393-397 | a sender that obeys its window test, over a network that loses and reorders nothing, sends 1460 bytes to a receiver that has told 1295, and the threads of that receiver come to a stand on exactly the packets of that run |
| TcpBlocking.StirsExactly | prj14/tcp_sock.c:367-371 | a sleeping reader can go on without another segment if and only if it is not stranded, on bytes if and only if it has not overslept |
| TcpBlocking.StirsSoon | prj14/tcp_in.c:226-266 | then it does: without another segment only a bounded number of other moves is possible, and until it goes on some move is |
| TcpBlocking.StirringStays | prj14/tcp_in.c:226-266 | over any run, with or without segments, the possibility lasts until it goes on |
| TcpBlocking.DozesExactly | prj14/tcp_sock.c:369-370 | going to sleep on bytes needs another segment to end exactly without a notification and with the protocol thread waiting for a segment |
| TcpBlocking.NewSegmentStirs | prj14/tcp_in.c:223-266 | out of that state only an arriving segment leads, and the reader goes on without a further one exactly if that segment is not old |
| TcpBlocking.ReaderOversleeps | prj14/tcp_in.c:264-266 | an announcement between the look at the empty buffer and the sleep reaches that state |
| TcpSenderSafety.InitKeeps | prj14/tcp_sock.c:84-88 | the initial state of an established connection satisfies the invariant of the sender |
| TcpSenderSafety.StepKeeps | prj14/tcp_out.c:60-89 | sending a packet, like every other event, keeps the queue gapless up to nxt, inflight its length and the control state consistent |
| TcpSender.Sender.PopAll | prj14/tcp_in.c:131-140 | the loop pops the packets the acknowledgement covers and grows the window for each |
| TcpSender.Sender.HandleAck | prj14/tcp_in.c:103-162 | handling an acknowledgement in place refines the step function |
| TcpSender.Sender.ScanTimers | prj14/tcp_timer.c:27-52 | one pass over the timers refines the step function, including what is sent again and in which order |
| TcpSenderTiming.ScanSends | prj14/tcp_timer.c:30-50 | a scan sends exactly the packets whose timers say so, each once, with increasing sequence numbers |
| TcpSenderSafety.PopAckedPops | prj14/tcp_in.c:131-140 | exactly the packets that end at or below the acknowledgement leave the queue, and the others follow without a gap |
| TcpSenderSafety.ScanFromTicks | prj14/tcp_timer.c:30-51 | a scan ticks every packet once, and enters LOSS exactly when some timer expires, noting the recovery point only then |
| TcpSenderSafety.RunInv | prj14/tcp_out.c:12-39 | in every reachable state, for any acknowledgements, the queue holds the bytes from una to nxt in strictly increasing packets, the last ending at nxt, and inflight counts them; in LOSS the window is 1 |
| TcpSenderSafety.LeavesRecovery | prj14/tcp_in.c:141-158 | recovery ends exactly with a new acknowledgement that reaches the recovery point |
| TcpSenderSafety.RecoveryAcksAllOutstanding | prj14/tcp_in.c:103-159 | back in OPEN, every packet outstanding when OPEN was left has been acknowledged, through any mix of RCVR and LOSS |
| TcpSenderSafety.WildExactlyWhenEmpty | prj14/tcp_in.c:141-150 | a partial acknowledgement reads a packet that is not there exactly in RCVR with an empty queue and an acknowledgement below the recovery point; otherwise it resends the lowest unacknowledged packet |
| TcpSenderSafety.PartialAckResendsLowest | prj14/tcp_in.c:107-149 | if fast recovery is entered with a packet outstanding, the queue is never empty while it lasts and every partial acknowledgement resends the lowest packet |
| TcpSenderSafety.WindowMovesExactly | prj14/tcp_in.c:39-51 | the window changes exactly for an acknowledgement within what was outstanding before it, to the smaller of the advertised and the congestion window |
| TcpSenderSafety.DuplicateEffects | prj14/tcp_in.c:104-129 | a duplicate acknowledgement touches the count of duplicates only, and the congestion state exactly as the third one in OPEN or every second one in RCVR |
| TcpSenderSafety.AckResendsExactly | prj14/tcp_in.c:107-150 | an acknowledgement sends a packet again exactly as the third duplicate, the first one queued, or as a partial one in fast recovery, the lowest left |
| TcpSenderTiming.TickAged | prj14/tcp_timer.c:31-50 | the timer of a packet is a function of the scans since it was sent, always positive, so the exact test for zero is never skipped |
| TcpSenderTiming.ResentExactly | prj14/tcp_timer.c:30-50 | a queued packet is sent again by exactly the scans 20 and 60 of every 140, whatever happens in between |
| TcpSenderTiming.ResentWithin100 | prj14/include/tcp_timer.h:21-24 | between two such scans lie at most 100 |
| TcpSenderTiming.CopiesExactly | prj14/tcp_timer.c:30-50 | while a packet stays queued, `n` scans put it on the wire exactly `(n + 120) / 140 + (n + 80) / 140` times |
| TcpSenderTiming.AckGrows | prj14/tcp_in.c:22-34 | after an acknowledgement of n packets in OPEN the window has grown by n up to the threshold, and the packets beyond it are counted towards the next windows |
| TcpSenderTiming.SlowStartCounts | prj14/tcp_in.c:24-26 | below the threshold, over any run that stays in OPEN, the window grows by exactly one for each packet acknowledged |
| TcpSenderTiming.SlowStartFromTwo | prj14/tcp_sock.c:84-88 | from the start of a connection that is two packets and one more for each, up to a threshold of 44 |
| TcpSenderTiming.CreditConserved | prj14/tcp_in.c:27-33 | above it, over any run that stays in OPEN, cwnd * (cwnd - 1) / 2 + cwnd_unit grows by exactly one for each packet acknowledged |
| TcpSenderTiming.EntersFastRecovery | prj14/tcp_in.c:107-126 | fast recovery is only entered from OPEN by the third duplicate, halves the threshold and sends the first packet again |
| TcpSenderTiming.FastRecoveryWindow | prj14/tcp_in.c:120-126 | after n further duplicates the window is max(1, c - 1 - (n + 1) / 2) |
| TcpSenderTiming.DuplicatesEnter | prj14/tcp_in.c:104-126 | with no new acknowledgement, exactly the third duplicate enters fast recovery; until then the window and the threshold stay, afterwards they are given exactly |
| TcpSenderTiming.ThresholdMoves | prj14/tcp_in.c:109-110 | the threshold changes only by the third duplicate in OPEN and by a scan in which a timer expires |
| TcpSenderTiming.ThresholdAfterRecovery | prj14/tcp_in.c:107-145 | set to half the window at the entry of fast recovery, it stays so through the recovery and after it until the next such event, and back in OPEN the window grows by it |
| TcpSenderTiming.FirstThreshold | prj14/tcp_sock.c:84-88 | before the first one it is 44 packets |
| TcpSenderTiming.ScanHalvesOnce | prj14/tcp_timer.c:32-38 | one expiry in a scan halves the window into the threshold, two or more leave a threshold of 1, and none changes anything |
| TcpSenderTiming.BurstCollapsesThreshold | prj14/tcp_timer.c:30-38 | two queued packets sent between the same two scans expire together, so the threshold becomes 1 |
| TcpSocket.ChunksCarryData | prj14/tcp_sock.c:384-391 | the packets of one write are not empty, full except for the last, and carry the data in order |
| TcpSocket.StrlenIs | prj14/tcp_sock.c:385-385 | the string length reaches a given length exactly if no byte in front of it is NUL |
| TcpSocket.EndsExactly | prj14/tcp_sock.c:384-391 | the loop of a write ends exactly if the data holds no NUL byte |
| TcpSocket.StuckOnEmptyPackets | prj14/tcp_sock.c:385-391 | otherwise it goes on with empty packets |
| TcpSocket.Write | prj14/tcp_sock.c:382-402 | while other threads process acknowledgements and timers between any two of its steps, a write sends exactly those packets in order, each after the first only when a look since the one before has found that the window covers a full packet for every one in flight; it looks again only when notified, and either returns with all sent and the window found open, or is asleep with no notification since its last look |
| TcpSocket.WindowAfterSending | prj14/tcp_out.c:83-86 | packets within the window lower it by exactly their bytes, and move nothing else but the queue and its counters |
| TcpSocket.WriteOnWindow | prj14/tcp_sock.c:384-400 | with nothing in flight and no other thread acting, a write of full packets on a window of `w` bytes sleeps after exactly `w / 2920 + 1` of them, or has sent all of its fewer ones |
| TcpWaitSend.MoveKeeps | prj14/tcp_in.c:198-270 | every move of the writer, the timer and the protocol thread keeps the sender and the flags of the wait structure consistent |
| TcpWaitSend.WakesAloneExactly | prj14/tcp_in.c:205-206 | without another segment the writer can go on if and only if it has been notified or the protocol thread is about to do it in OPEN; timers never wake it |
| TcpWaitSend.RousesExactly | prj14/tcp_in.c:258-270 | a segment lets a sleeping writer go on exactly if it moves a window whose low 16 bits are 0, or leaves the state OPEN and is neither old data nor data that never finds room |
| TcpWaitSend.NotifiesExactly | prj14/tcp_in.c:43-44 | the events that end a sleep of a write are exactly the acknowledgements that wake a writer here |
| TcpWaitSend.LastAckWakes | prj14/tcp_in.c:141-159 | the pure acknowledgement of all that is outstanding wakes it in every congestion state |
| TcpWaitSend.StarvesExactly | prj14/tcp_in.c:258-270 | a writer comes to sleep with nothing outstanding and no notification under way in exactly two ways: the protocol thread looks for a sleeper before it sleeps, or the last acknowledgement comes with data that is old or never finds room and moves no window of 0 |
| TcpWaitSend.NeverStarves | prj14/tcp_out.c:76-76 | over every run in which no data segment carries an acknowledgement, as in this program, that does not happen |
| TcpWaitSend.WriterStarves | prj14/tcp_in.c:268-270 | a run reaches it in the first way, with the window open |
| TcpWaitSend.SleeperStarves | prj14/tcp_in.c:258-261 | a run reaches it in the second way, by a repeated data segment after the writer has gone to sleep, with the window open |
| TcpEndToEnd.ArriveKeeps | prj14/tcp_in.c:224-262 | any segment ever sent keeps the receiver consistent with the byte stream |
| TcpEndToEnd.ProceedKeeps | prj14/tcp_in.c:226-255 | storing and draining append exactly the next bytes of the stream |
| TcpEndToEnd.WindowIsRoomAfterRead | prj14/tcp_sock.c:372-374 | the window equals the free space after a read exactly if the length asked for was not negative |
| TcpEndToEnd.RunSysInv | prj14/tcp_in.c:94-162 | the invariant over sender, receiver, and everything on the wire holds in every state of every run |
| TcpEndToEnd.DeliversExactlyWhatWasWritten | prj14/tcp_in.c:220-271 | bytes read followed by bytes queued are exactly the first bytes written, up to rcv_nxt |
| TcpEndToEnd.WindowIsFreeSpace | prj14/tcp_in.c:226-249 | the advertised window is the free space, and nothing empty is ever handed to the ring buffer |
| TcpEndToEnd.UnacceptedIsQueued | prj14/tcp_in.c:133-140 | every packet the receiver has not accepted is still in the send queue |
| TcpEndToEnd.MissingPacketComesAgain | prj14/tcp_timer.c:30-50 | in any stretch of a run with 100 scans in which rcv_nxt does not move, the packet the receiver waits for is sent again, whatever else happens; an idle receiver accepts it |
| TcpEndToEnd.HonestRunReadsWild | prj14/tcp_in.c:107-150 | a run with an honest receiver, one acknowledgement repeated and one late, reads a packet that is not there |
| TcpEndToEnd.ProperRecoveryNeverReadsWild | prj14/tcp_in.c:107-149 | in a fast recovery entered with a packet outstanding no acknowledgement does that, over any run of the system |
| TcpEndToEnd.NothingIsTakenBack | prj14/tcp_in.c:94-162 | what has been read stays a prefix of what is read later, and una never passes rcv_nxt |
| TcpAnswers.AnsweredExactly | prj14/tcp_in.c:224-267 | every arriving segment but the awaited one is answered at once |
| TcpAnswers.ArrivalIs | prj14/tcp_in.c:223-267 | the awaited segment is accepted and answered later; any other one is answered with the next byte expected and the free space, and kept if it lies ahead |
| TcpAnswers.EveryArrivalIsAnswered | prj14/tcp_in.c:223-267 | over any run there are exactly as many acknowledgements as arrivals, but for one segment being worked on |
| TcpAnswers.AcceptedIsAnswered | prj14/tcp_in.c:225-267 | an accepted segment is answered exactly once, when the receiver becomes idle, by a number beyond it |
| TcpAnswers.BufferedIsKept | prj14/tcp_in.c:236-257 | a segment that arrives ahead stays buffered until its bytes are queued for reading |
| TcpAnswers.ReadTakes | prj14/tcp_sock.c:372-374 | a read hands over as many bytes as it asks for, or all there are |
| TcpAnswers.UnackedComesAgain | prj14/tcp_timer.c:30-50 | while the sender does not learn what has been accepted, its lowest packet is sent again within any 100 scans of a run |
| TcpAnswers.OldIsAnswered | prj14/tcp_in.c:258-261 | that packet, arriving at an idle receiver, is answered with all that has been accepted |
| TcpAnswers.AnswerMovesUna | prj14/tcp_in.c:131-140 | and that answer, arriving in turn, moves una to what the receiver expects |
| Checksum.Fold | prj14/include/checksum.h:16-17 | the folding loop ends with the number congruent modulo 65535 that is 0 only for 0 |
| Checksum.Compute | prj14/include/checksum.h:8-20 | the result is the complement of the folded 32-bit sum of all bytes, those at odd positions 256-fold |
| Checksum.ByteChanged | prj14/include/checksum.h:10-14 | changing one byte changes that sum by 1 or 256 times the difference, by its position |
| Checksum.OddIsPadded | prj14/include/checksum.h:13-14 | a last odd byte counts as if a zero byte followed |
| Checksum.OneByteDetected | prj14/include/checksum.h:8-20 | changing any single byte changes the result, even if the 32-bit accumulator overflows |
| Checksum.CongruentExactly | prj14/include/checksum.h:8-20 | the folded sum is congruent to the exact total if and only if the number of lost carries is a multiple of 65535, in particular without overflow |
| Checksum.RecheckIsZero | prj14/include/checksum.h:8-20 | with the result stored in its zeroed field, the checksum over the data is 0 |

## Left out

- Sockets, ioctl, netlink, poll loops, raw packet sending, threads, logging and window records: input and output with no property of their own.
- Spanning-tree convergence, agreement on the root and shortest paths: the code never makes a port designated again, so these do not hold (a switch of cost 1 with an alternate port of cost 2 is recorded in prj06/ten_result.txt:37-44).
- Byte order and LLC framing of configuration messages, and the fields of a message that are never compared.
- StpInvariant.InitCoherent: takes the switch ID as a parameter, the composition of the ID from MAC address and priority only concerns input.
- Links between a switch and itself, and segments shared by more than two switches.
- SynchWait.OperationsKeep: the mutex inside a wait structure makes each operation one atomic step, so they are functions on its flags.
- PoptrieBuild.FinalAnswers: what is answered when insertions go on after a dropped leaf is left open; repainting that node again reads one entry for each run start, more than its leaf array has.
- PoptrieTable.Poptrie.Put: expects a sound structure, one in which no leaf has been dropped; covers prefix lengths 1 to 32; length 0 shifts a 32-bit number by 32, which C leaves undefined.
- BaseTrie.Trie.Get: as in the code, a route of length 0 is stored at the root and never returned; the table lemmas therefore speak of lengths 1 to 32.
- The clearing of a leaf array of zero elements (prj09/poptrie.c:36-41), the space computed from the counters, and the failure of malloc.
- PoptrieMemory.GrownMem: memory is a map of blocks, a freed block is removed; addresses are never reused.
- The NAT of prj10 and the mOSPF routing of prj08: their interesting guarantees do not hold of this code (the set of assigned ports is never filled; matrix entries are cleared on each advertisement).
- ARP caches and MAC tables, which are list scans with timeouts; the earlier versions of the TCP code in prj12 and prj13; the HTTP programs.
- TCP handshake and close, SYN and FIN in the send queue, hash tables, reference counts: the models start from an established connection.
- TcpEndToEnd.RunSysInv: assumes that sequence numbers do not wrap around during a run, a one-way data phase (a segment without PSH overwrites rcv_nxt, prj14/tcp_in.c:101), no segment in front of everything buffered, and no acknowledgement below the recovery point in fast recovery with an empty queue; each of the last two is shown to break the code.
- TcpSender.Sender.HandleAck: the congestion window is an unbounded number; its growth past 32 bits is not modelled.
- Flow control: snd_wnd is decremented without a test and may wrap around, so no claim bounds what is in flight.
- TcpBlocking.WakesExactly: takes `pthread_cond_wait` to return only when signalled; the `dead` flag of a wait structure is never set by this code and is left out.
- TcpEndToEnd.MissingPacketComesAgain: promises the resend and its acceptance by an idle receiver; a receiver that waits for room may hang as TcpBlocking shows.
- TcpWaitSend.RousesExactly: takes as given which data segments are old and whether one that has to wait for room is ever stored; TcpReceiver and TcpBlocking decide that.
- PoptrieBuild.AddRoutes: expects a sequence that drops no leaf, as Poptrie.Put expects a sound structure.
- The fields of a connection that the source reads and writes without a lock are updated in atomic steps here.
- Checksum.Compute: words are read as on a little-endian host.
