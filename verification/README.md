# proxyio, verified

A Dafny model of the parts of the proxyio messaging library on which its correctness rests, with proofs.
`dafny verify dfyconfig.toml` checks all of it.

Objects the C code updates in place are classes here, and its loops are loops: red-black nodes, messages, pages, queues,
endpoints and pollers. Every method is verified against a function or relation on values, and the theorems are about
those. What several threads do together (one connection, a network of endpoints, a poll entry) is a state machine whose
steps are the code's critical sections and system calls; its theorems hold for every run.

| files | what they model |
|---|---|
| `Seqs`, `RbTree`, `RbPlug`, `RbInsert`, `RbErase`, `RbUnlink`, `RbWalk` | the red-black tree on a heap of linked nodes, with a functional tree and a context with a hole as specification |
| `I64Rb`, `StrRb`, `ConsistentHash` | its ordered clients and the consistent hash |
| `Bufio` | the paged byte queue |
| `MsgTree`, `MsgParse`, `MsgOps`, `MsgSend`, `MsgQueue` | message trees, wire format, sub-message operations, partial sends, as values |
| `MsgHeap`, `MsgCtl`, `MsgRecv`, `MsgHead`, `Sio` | the same operations on message objects, queues and one connection |
| `Pipeline`, `SioSteps` | senders, network and receiver together, and a connection as a run of those steps |
| `EvSig`, `Flow` | wake-ups and flow control between any number of threads and the loop thread |
| `Bus`, `BusNet` | BUS endpoints, and flooding on any finite tree |
| `RrHdr`, `ReqRep`, `RrNet`, `RrOnce` | REQREP headers, proxies and end points, routing through chains of proxies, and what becomes of each request |
| `Rrbin` | weighted round robin |
| `Md5` | streaming MD5 around an arbitrary block function |
| `Xpoll`, `XpollSys` | the readiness cache of xpoll: its parts, and all sockets and pollers together |
| `PollRef` | the life of a poll entry and of the reference on its socket |

Reading notes:

- The code's left and right branches are mirror images; the tree operations take the side as a parameter.
- Messages travel with `checksum` as an arbitrary 16-bit value; the code fills it with a checksum of the length field
  and never compares it.
- Where the code and its comments differ, the code is followed: the frame header is eight bytes with packed 4-bit and
  12-bit fields, not the six bytes drawn above it (`src/msgbuf/msgbuf.h:36-42`), and a message takes at most 15 subs, not 16
  (`include/xio/cmsghdr.h:33`, `src/msgbuf/msgbuf.h:45`).
- Some expected laws do not hold of the code. Each has its exact condition: `MsgOps.SwitchAccurate`,
  `MsgOps.CloneExact`, `MsgOps.AddBelowAttached`, `MsgParse.FramingExact`, `MsgParse.Soundness`, `Sio.LoopEnds`,
  `RrHdr.SendFirst`, `RrHdr.AppendFirst`, `RrHdr.TtlWidth`, `RrNet.LongChains`, `XpollSys.System.Silent`,
  `PollRef.ExitTrips`, `PollRef.GetTrips`; `StrRb.StrTree.Insert` counts refused duplicates, and
  `ConsistentHash.ConHash.Get` looks for the raw key among digests.
- Readers, writers and the kernel are scripts of results, so every contract about them holds for all of their
  behaviours; a script that runs out stands for EAGAIN.

## Model

| member | source | states |
|---|---|---|
| RbInsert.ChangeChild | src/utils/krb_augmented.h:113-125 | the slot of the old node, in its parent or the root, now holds the new one; the rest of the context is untouched |
| RbInsert.FlipColors | src/utils/krb.c:102-122 | the parent, the uncle and the grandparent change colour in place and nothing else changes |
| RbInsert.RotateInner | src/utils/krb.c:126-150 | the rotation at the parent links the two frames the other way round, with all parent pointers right |
| RbInsert.RotateOuter | src/utils/krb.c:152-170 | the rotation at the grandparent puts the parent on top, black, over two red children, and hangs it where the grandparent hung |
| RbInsert.InsertColor | src/utils/krb.c:77-214 | from a red-black tree with a freshly linked red leaf, the fix-up loop terminates in a red-black tree whose in-order sequence is the old one with that node at its slot |
| RbInsert.LinkNode | src/utils/i64_rb.c:71-73 | linking a red leaf into an empty slot of a red-black tree gives exactly the situation the fix-up starts from |
| RbErase.EraseCase1 | src/utils/krb.c:236-253 | case 1: the red sibling rotates up; the same side is still short by one, now beside a black sibling, order unchanged |
| RbErase.EraseCase2 | src/utils/krb.c:257-291 | case 2: recolouring the sibling either ends with a red-black tree or moves the missing black one level up, order unchanged |
| RbErase.EraseNear | src/utils/krb.c:293-316 | case 3: a rotation at the sibling moves the red near nephew to the far side and hangs the near one under the parent, order unchanged |
| RbErase.EraseFar | src/utils/krb.c:318-341 | case 4: the final rotation repays the missing black and leaves a red-black tree |
| RbErase.EraseColor | src/utils/krb.c:220-409 | from a tree that is one black short at the slot where a node was taken out, the loop terminates in a red-black tree with the same in-order sequence; every pointer it dereferences is non-null |
| RbUnlink.SpliceOut | src/utils/krb_augmented.c:37-63 | a node with at most one child is bypassed; what is left is red-black, or short by one black exactly at the reported rebalance point |
| RbUnlink.DetachSuccessor | src/utils/krb_augmented.c:96-104 | a deeper successor leaves its place to its right child |
| RbUnlink.UnlinkInner | src/utils/krb_augmented.c:64-127 | a node with two children is replaced by its in-order successor, with the rebalance point chosen where the successor was |
| RbUnlink.Unlink | src/utils/krb_augmented.c:30-131 | the in-order sequence loses exactly the node, and rebalancing is asked for exactly where a black is missing |
| RbUnlink.Erase | src/utils/krb.c:438-445 | erasing any node of a red-black tree yields a red-black tree whose in-order sequence is the old one minus that node |
| Seqs.MinusOnce | src/utils/krb.c:438-445 | what "minus that node" means: the same sequence with that one element cut out |
| RbWalk.Outermost | src/utils/krb.c:464-495 | rb_first and rb_last return the first and the last node in order, null only for an empty tree |
| RbWalk.Neighbour | src/utils/krb.c:498-564 | rb_next and rb_prev return the in-order successor and predecessor, null only at the end |
| RbWalk.ReplaceNode | src/utils/krb.c:567-584 | the tree is again red-black and its in-order sequence is the old one with the new node in the victim's place |
| RbWalk.Logarithmic | src/utils/krb.c:77-214 | a red-black tree of n nodes has height at most 2 log2(n + 1) |
| I64Rb.I64Tree.FindSlot | src/utils/i64_rb.c:56-70 | the search stops at the slot after all keys that are not greater |
| I64Rb.I64Tree.Insert | src/utils/i64_rb.c:56-75 | the node goes behind all equal and smaller keys and before all greater ones; the size counts it |
| I64Rb.I64Tree.Min | src/utils/i64_rb.c:27-39 | the first node in order, null for an empty tree |
| I64Rb.I64Tree.Max | src/utils/i64_rb.c:42-54 | the last node in order, null for an empty tree |
| I64Rb.I64Tree.Delete | src/utils/i64_rb.c:78-81 | the tree loses exactly that node and the size follows |
| I64Rb.SortThrough | src/utils/i64_rb.c:27-81 | inserting nodes one by one and then taking the minimum until the tree is empty returns them sorted by key, equal keys in the order they came in |
| StrRb.EqualIsEquality | src/utils/str_rb.c:61-67 | the search's equality test (memcmp over the common length, then length) is equality of keys |
| StrRb.LessIs | src/utils/str_rb.c:61-76 | the order is the byte order: one key goes left of another if they agree up to a place where it ends or has the smaller byte |
| StrRb.Trichotomy | src/utils/str_rb.c:61-76 | for any two keys exactly one of less, equal, greater holds |
| StrRb.Transitive | src/utils/str_rb.c:61-76 | the order of keys is transitive |
| StrRb.StrTree.Search | src/utils/str_rb.c:54-133 | the common search loop ends at the entry with the key, or at the one slot where such an entry belongs |
| StrRb.StrTree.Find | src/utils/str_rb.c:54-77 | finds an entry exactly when one with this key is stored |
| StrRb.StrTree.FindLeaf | src/utils/str_rb.c:79-102 | a stored key is found; for a missing key the result is, of its in-order predecessor and successor, the one without a child on the side of the key; null only for an empty tree |
| StrRb.StrTree.Insert | src/utils/str_rb.c:105-133 | a new key is placed between its neighbours; a duplicate is refused with the tree unchanged; the size grows in both cases |
| StrRb.StrTree.Delete | src/utils/str_rb.c:136-139 | the tree loses exactly that entry |
| ConsistentHash.ConHash.Add | src/utils/consistent_hash.c:86-120 | adds all 100 virtual nodes of a key or none: it succeeds exactly when every digest is unused and new, otherwise list and tree are as before and only the size counter has moved |
| ConsistentHash.ConHash.Rollback | src/utils/consistent_hash.c:113-117 | exactly the entries inserted so far leave the tree |
| ConsistentHash.ConHash.Rm | src/utils/consistent_hash.c:140-153 | the key set loses exactly this key, list and tree still hold the same entries |
| ConsistentHash.ConHash.Get | src/utils/consistent_hash.c:122-138 | answers with the owner of the entry where a search for the raw key ends: that key if it happens to be a digest, otherwise the neighbour without a child on its side |
| ConsistentHash.DropExpand | src/utils/consistent_hash.c:140-153 | filtering the list by key removes whole members, all virtual nodes of each |
| ConsistentHash.MemberRefused | src/utils/consistent_hash.c:98-101 | a key that is a member is refused |
| ConsistentHash.FreshKey | src/utils/consistent_hash.c:86-103 | a key whose 100 digests differ and are not in use is accepted |
| ConsistentHash.WithoutIs | src/utils/consistent_hash.c:140-153 | removal leaves exactly the members with another key, in their order |
| ConsistentHash.SortedUnique | src/utils/consistent_hash.c:113-117 | an ordered tree is determined by its set of entries, so undoing the insertions restores its order too |
| Bufio.BioPage.Copy | src/utils/bufio.c:80-85 | copies the longest prefix that fits |
| Bufio.BioPage.Read | src/utils/bufio.c:87-96 | takes a prefix off and moves the rest to the start of the page |
| Bufio.BioPage.Write | src/utils/bufio.c:98-105 | appends as much as the page has room for |
| Bufio.Bio.Copy | src/utils/bufio.c:150-162 | the first sz bytes of the queue across pages, or all of them |
| Bufio.Bio.Read | src/utils/bufio.c:164-180 | take and drop: returns the first sz bytes and leaves the rest; pages stay non-empty and start at 0 |
| Bufio.Bio.MakeRoom | src/utils/bufio.c:124-190 | the last page has room afterwards and the content is unchanged |
| Bufio.Bio.Write | src/utils/bufio.c:193-208 | appends the whole buffer |
| Bufio.Bio.Prefetch | src/utils/bufio.c:232-245 | appends exactly the bytes the reader delivered before its first error, in order; -1 only if that error was fatal and nothing came |
| Bufio.DeliveredIs | src/utils/bufio.c:232-245 | each piece read is delivered behind those before it, and the first error ends everything, fatally unless it is EAGAIN |
| Bufio.Bio.FlushSome | src/utils/bufio.c:216-222 | one write moves the accepted bytes of a page-sized piece off the front, in order |
| Bufio.Bio.Flush | src/utils/bufio.c:211-230 | the bytes the writer took are a prefix of the queue and exactly those are gone, however the writer splits them |
| Bufio.AcceptedIs | src/utils/bufio.c:211-230 | each write takes what it can of a page of what is left, and the first error ends everything |
| MsgTree.HeaderInverse | src/msgbuf/msgbuf.h:48-54 | the eight header bytes with their 4-bit and 12-bit fields read back to the fields written |
| MsgTree.HeaderLayout | src/msgbuf/msgbuf.h:48-54 | the eight bytes: checksum, count in the low four bits of the third byte with cmsg_length above it, payload length, low byte first |
| MsgTree.ReadHeaderFits | src/msgbuf/msgbuf.h:48-54 | any eight bytes read as fields within their widths, and writing those gives the bytes back |
| MsgTree.BytesConcat | src/msgbuf/msgbuf.c:228-254 | the wire image of a list of trees is the concatenation of theirs, whatever their counts say |
| MsgParse.ParseBytes | src/msgbuf/msgbuf.c:289-343 | for every tree with right counts, followed by anything: it waits while its own cmsg_length is not there, then decodes to itself if no node below has a cmsg_length beyond what follows that node, and trips the nested BUG_ON otherwise |
| MsgParse.ParseCut | src/msgbuf/msgbuf.c:289-343 | a strict prefix never decodes: it waits until its own cmsg_length is there, and then trips the nested BUG_ON |
| MsgParse.RoundTrip | src/msgbuf/msgbuf.c:289-343 | decoding the bytes of a framed tree followed by anything returns the same tree and leaves what follows; no BUG_ON fires |
| MsgParse.AccurateFramed | src/msgbuf/msgbuf.c:138-152 | trees whose counts and lengths are all right are framed |
| MsgParse.Truncated | src/msgbuf/msgbuf.c:289-303 | on every strict prefix of a framed tree's bytes the decoder waits and consumes nothing |
| MsgParse.Soundness | src/msgbuf/msgbuf.c:323-343 | for all received bytes: what is decoded re-encodes to exactly the bytes consumed if and only if no header on the way announces a length that wraps a u32; otherwise fewer bytes were consumed than the message has |
| MsgParse.ZeroByte | src/msgbuf/msgbuf.c:289-319 | a decode consumes nothing if and only if the announced length is 0xFFFFFFF8 and the cmsg_length is there |
| MsgParse.ZeroByteWitness | src/msgbuf/msgbuf.c:31-33 | eight such bytes, decoded as an empty message with all eight still in the buffer |
| MsgParse.FramingExact | src/msgbuf/msgbuf.c:289-343 | for every tree a user can make: the decoder waits on each strict prefix and decodes the whole to that tree if and only if it is framed: all counts are right, the root's cmsg_length is the sum of the subtree lengths, and no node below has a cmsg_length beyond the end of the message |
| MsgParse.TooShort | src/msgbuf/msgbuf.c:323-343 | whenever the root's cmsg_length is too small the decoder trips its BUG_ON on the prefix that cmsg_length asks for |
| MsgParse.NeverBroken | src/msgbuf/msgbuf.c:323-343 | no prefix trips a BUG_ON if and only if the root's cmsg_length is too large, or the sum with no node below reaching beyond the end |
| MsgOps.AddAccurate | src/msgbuf/msgbuf.c:138-152 | SADD succeeds exactly within 15 subs and 4095 bytes, and then counts and lengths are right, the new sub is last and the rest is as before |
| MsgOps.RmAccurate | src/msgbuf/msgbuf.c:154-163 | SRM keeps counts and lengths right and everything but that sub; the narrow fields do not wrap |
| MsgOps.SwitchAccurate | src/msgbuf/msgbuf.c:165-175 | SSWITCH moves the subs in front of the destination's and leaves payloads alone; the destination is accurate exactly when it had no subs |
| MsgOps.SwitchWitness | src/msgbuf/msgbuf.c:165-175 | two messages with one sub each, and the destination is not accurate |
| MsgOps.AddBelowAttached | src/msgbuf/msgbuf.c:138-152 | adding below a sub that is already attached always leaves the grandparent's length too small |
| MsgOps.AddBelowWitness | src/msgbuf/msgbuf.c:138-152 | the smallest such message |
| MsgOps.CloneFacts | src/sp/sp_module.h:265-276 | a clone has the payload and one bare copy per sub, each with its payload, none sent and with fresh checksums; no add fails on the way |
| MsgOps.CloneExact | src/msgbuf/msgbuf.c:188-200 | a clone equals its original exactly when no sub has subs of its own |
| MsgOps.CloneWitness | src/msgbuf/msgbuf.c:188-200 | a message with a sub in a sub, and its clone differs |
| MsgOps.StaleBelowWitness | src/msgbuf/msgbuf.c:138-163 | SADD and SRM on an attached sub give a message whose own cmsg_length is right and on which the receiver trips its BUG_ON |
| MsgOps.StaleHarmlessWitness | src/msgbuf/msgbuf.c:138-152 | SADD below an attached sub before the SADD to the root gives a message that is not accurate and is framed all the same |
| MsgSend.SerializeDescribes | src/msgbuf/msgbuf.c:228-254 | the scatter list is a start of the pending bytes in pre-order, all of them or exactly n non-empty pieces |
| MsgSend.SerializeAllDescribes | src/msgbuf/msgbuf_head.c:110-123 | the same for a whole queue |
| MsgSend.InstallAdvances | src/msgbuf/msgbuf.c:256-279 | recording k accepted bytes moves the tree's pending bytes on by exactly k, and the value returned is what has been sent of it |
| MsgSend.InstallAllAdvances | src/msgbuf/msgbuf.c:256-279 | the same for a list of subs |
| MsgQueue.QInstallAdvances | src/msgbuf/msgbuf_head.c:126-142 | recording k bytes on the queue reports exactly the messages now fully sent, and the others have the old pending bytes less the first k |
| MsgQueue.UnsentPending | src/msgbuf/msgbuf.c:228-254 | a fresh message has its whole wire image pending, whatever its counts and lengths say |
| MsgHeap.SerializeInto | src/msgbuf/msgbuf.c:228-254 | the walk over the message objects writes exactly the specified scatter list and nothing before it |
| MsgHeap.SerializeWalk | src/msgbuf/msgbuf_head.c:110-123 | the same for a list of messages, stopping at n pieces |
| MsgHeap.InstallInto | src/msgbuf/msgbuf.c:256-279 | the walk changes only soff fields of this tree, exactly as specified |
| MsgHeap.InstallWalk | src/msgbuf/msgbuf.c:270-278 | the same for the list of subs, stopping when every byte is accounted for |
| MsgRecv.Extract | src/msgbuf/msgbuf.c:305-319 | on any header: a new message with the header fields and payload, exactly the bytes of the u32 length leave the buffer; refused with nothing consumed where the buffer is too short or the allocation too small |
| MsgRecv.Deserialize | src/msgbuf/msgbuf.c:289-343 | on the paged buffer and any bytes: EAGAIN with nothing consumed, a failed BUG_ON, or a fresh tree of objects that is the parsed message, with what the parse leaves still buffered |
| MsgRecv.ReceiveSubs | src/msgbuf/msgbuf.c:335-339 | the announced number of subs, in order |
| MsgCtl.LensOf | src/msgbuf/msgbuf.c:33-41 | the length of the whole tree |
| MsgCtl.SubAdd | src/msgbuf/msgbuf.c:138-152 | SADD on objects: appended with fields updated, or refused with nothing changed |
| MsgCtl.SubRm | src/msgbuf/msgbuf.c:154-163 | SRM on objects: exactly that sub is detached, intact |
| MsgCtl.SubSwitch | src/msgbuf/msgbuf.c:165-175 | SSWITCH on objects: the subs move in front of the destination's, fields are overwritten |
| MsgCtl.Clone | src/sp/sp_module.h:265-276 | clone_ubuf on objects: a fresh tree that shares nothing with the original |
| MsgHead.MsgHead.In | src/msgbuf/msgbuf_head.c:87-108 | the message goes last, size grows by its payload, callbacks fire in the code's order |
| MsgHead.MsgHead.Out | src/msgbuf/msgbuf_head.c:59-85 | the first message leaves, size shrinks by its payload, callbacks fire in the code's order; size is always the sum of queued payloads |
| MsgHead.FiredIs | src/msgbuf/msgbuf_head.c:59-108 | which callbacks an addition and a removal make, each once, and in what order |
| MsgHead.MsgHead.PreinstallIovs | src/msgbuf/msgbuf_head.c:110-123 | fills the caller's array with the scatter list of the queue |
| MsgHead.MsgHead.InstallIovs | src/msgbuf/msgbuf_head.c:126-142 | records accepted bytes and counts complete messages as specified; size is unaffected |
| MsgHead.MsgHead.RecordSent | src/socket/sio/sio.c:253-267 | the complete messages leave the queue, the rest is exactly what is still pending, and the removal callbacks fire in the code's order |
| MsgHead.SamePayload | src/msgbuf/msgbuf_head.c:126-142 | recording sent bytes changes no payload, so the size stays right |
| Pipeline.StepInv | src/socket/sio/sio.c:227-287 | every step of senders, network and receiver keeps: bytes received plus bytes in flight plus bytes pending are the wire image of what has not been handed up |
| Pipeline.Delivery | src/socket/sio/sio.c:227-287 | in every run in which framed messages are queued, the messages handed up are a prefix of them: same trees, same order, none lost, doubled or torn, and no BUG_ON |
| Pipeline.Drained | src/socket/sio/sio.c:227-287 | once nothing is pending or in flight, all of them have been handed up |
| Pipeline.SomethingToOffer | src/socket/sio/sio.c:269-287 | a non-empty queue always offers the kernel at least one byte |
| Sio.Sendv | src/socket/sio/sio.c:279-281 | a gathering write takes a prefix of the concatenated pieces |
| Sio.Connection.SimpleSend | src/socket/sio/sio.c:269-287 | what the kernel took plus what is pending afterwards is what was pending before, and the queue is the old one with those bytes recorded; fails exactly on an empty queue or a refusal |
| Sio.Connection.FlushSnd | src/socket/sio/sio.c:289-296 | the same over the whole loop; a kernel that keeps accepting drains the queue |
| Sio.Connection.ConnectorRcv | src/socket/sio/sio.c:227-242 | hands up exactly the messages that decode from what was buffered plus what arrived, keeps the unfinished rest, and says whether the loop waits, stops at a BUG_ON or spins |
| Sio.LoopEnds | src/socket/sio/sio.c:236-239 | the decode loop ends if and only if it does not reach a header whose length wraps to 0 |
| Sio.MessagesOf | src/socket/sio/sio.c:236-239 | bytes of whole framed messages followed by an unfinished one yield exactly those messages |
| SioSteps.SendIsSteps | src/socket/sio/sio.c:269-287 | one send of a connection is three steps of `Pipeline`, to the same queue and the same bytes |
| SioSteps.RefusedIsSteps | src/socket/sio/sio.c:279-285 | a send that the kernel refuses leaves everything but the scatter list |
| SioSteps.ReceiveIsSteps | src/socket/sio/sio.c:227-242 | one receive is an arrival and as many deliveries as there are messages; in no run does its loop stop at a BUG_ON or spin |
| EvSig.EventSignal.Signal | src/ev/ev.c:48-60 | the signal is queued last and one token goes into the pipe exactly when the queue was empty |
| EvSig.EventSignal.GetSignals | src/ev/ev.c:62-69 | the oldest signals leave the byte queue as the integers that were written |
| EvSig.EventSignal.Unsignal | src/ev/ev.c:71-85 | no token is left when the queue is empty, otherwise there is one less; no signal is touched |
| Flow.NeverTrips | src/socket/sio/sio.c:335-342 | the send_lock BUG_ONs never fire, and ev_unsignal never misses a token |
| Flow.StepInv | src/socket/sio/sio.c:31-103 | every critical section keeps all flow-control invariants |
| Flow.RunInv | src/socket/sio/sio.c:321-365 | so does every interleaving of any number of threads with the loop thread |
| Flow.Safety | src/ev/ev.c:48-101 | no stranded send, no lost wake-up and none without cause, signals handled exactly once in posting order, messages sent and taken in order without loss, size the sum of payloads, EV_WRITE on only with something to send, and EV_READ right once the signals under way are applied |
| Flow.Quiet | src/ev/ev.c:87-101 | a loop at rest with an empty pipe has handled every signal, polls for writing exactly when something is queued, and reads exactly when the window is open |
| Flow.SettlesSoon | src/ev/ev.c:87-101 | left to itself the loop takes a bounded number of steps |
| Flow.NotStuck | src/ev/ev.c:87-101 | and until it is at rest it has one to take |
| Flow.WriteDrains | src/socket/sio/sio.c:321-348 | after an event for writing, with a kernel that takes everything, the queue is empty and EV_WRITE off |
| Flow.ReadReceives | src/socket/sio/sio.c:321-333 | an event for reading brings messages into the receive queue and posts FULL exactly when the window is used up |
| Flow.ReadEnds | src/socket/sio/sio.c:321-348 | an event that brings nothing leaves everything as it was |
| Flow.Frames | src/socket/sio/sio.c:31-103 | interests, the flag of a running send and the queues change only at their places |
| Flow.Excluded | src/socket/sio/sio.c:63-80 | between a queue operation and its signal nothing it depends on changes |
| Bus.Endpoint.Join | src/sp/bus/bus.c:107-117 | a new target comes last, with an empty queue |
| Bus.Endpoint.Send | src/sp/bus/bus.c:43-62 | every target gets the message once, the last one the original, the others clones |
| Bus.Endpoint.Add | src/sp/bus/bus.c:67-91 | every target but the source gets a clone, the local queue the original |
| Bus.Endpoint.Rm | src/sp/bus/bus.c:93-105 | the oldest message for the target leaves, or polling for output stops; a non-empty queue is always polled for output |
| Bus.CloneTwice | src/sp/bus/bus.c:79 | cloning a clone changes nothing, so hops do not erode a message further |
| BusNet.StartIsSend | src/sp/bus/bus.c:43-62 | a broadcast step does to the queues of its origin what `Bus.Endpoint.Send` does |
| BusNet.ArriveIsAdd | src/sp/bus/bus.c:67-91 | an arrival step does to an endpoint what `Bus.Endpoint.Add` does |
| BusNet.TransmitIsRm | src/sp/bus/bus.c:93-105 | a transmission takes off what `Bus.Endpoint.Rm` takes off |
| BusNet.EdgeSides | src/sp/bus/bus.c:73-76 | on a tree, an edge separates: exactly one end has the other on its way to any given endpoint |
| BusNet.ArriveDestined | src/sp/bus/bus.c:67-91 | forwarding keeps, for every endpoint, the number of deliveries made and to come |
| BusNet.ExactlyOnce | src/sp/bus/bus.c:43-105 | in every run on any finite tree, each broadcast is delivered at most once to each endpoint, never to its origin, and exactly once to all others when nothing is in flight |
| BusNet.Contents | src/sp/bus/bus.c:54-79 | what is delivered is the broadcast with its direct subs; it is the broadcast itself when no sub had subs |
| BusNet.ForwardStep | src/sp/sp_module.c:47-80 | every forwarding step brings the end of propagation closer |
| BusNet.Terminates | src/sp/bus/bus.c:67-105 | without new broadcasts propagation ends after a bounded number of steps |
| RrHdr.SendFirst | src/sp/reqrep/req_ep.c:65-67 | the header of a sent request can be found exactly when the message had no subs |
| RrHdr.AppendFirst | src/sp/reqrep/rr.h:104-111 | the extended header can be found exactly when it is the only sub |
| RrHdr.HeaderLostWitness | src/sp/reqrep/req_ep.c:65-67 | a request with one sub of its own, and a forwarded one, whose headers cannot be found |
| RrHdr.TtlWidth | src/sp/reqrep/rr.h:94-102 | the 4-bit ttl counts the path exactly up to 15 hops and is lost at the sixteenth |
| RrHdr.RequestKept | src/sp/reqrep/rr.h:94-111 | sending and forwarding keep the payload and the user's subs; a new header is going, one hop deep, with end_ttl 0 |
| RrHdr.ReplyKept | src/sp/reqrep/rep_ep.c:44-68 | answering and lowering keep the payload and the other subs; an answer is marked as coming back, with end_ttl its ttl |
| RrHdr.FirstKept | src/sp/reqrep/req_ep.c:73-93 | lowering whatever comes first changes four bits of it and nothing else |
| RrHdr.AppendableIs | src/sp/reqrep/rr.h:74-77 | the BUG_ON behind an append stops exactly a ttl that is used up |
| RrHdr.HeaderFits | src/sp/reqrep/rr.h:56-72 | a header of up to 15 entries is never refused as a sub |
| ReqRep.Proxy.ReceiverAdd | src/sp/reqrep/pipeline.c:45-62 | the request goes to the selected target and its connection learns the uuid on top of the stack; without a target nothing changes |
| ReqRep.Proxy.DispatcherRm | src/sp/reqrep/pipeline.c:64-77 | the oldest request leaves with this hop pushed on its stack |
| ReqRep.Proxy.RouteBackward | src/sp/reqrep/pipeline.c:36-43 | finds the first target with the uuid one level down the stack, exactly when there is one |
| ReqRep.Proxy.DispatcherAdd | src/sp/reqrep/pipeline.c:80-94 | the reply goes to that target one level lower, or is refused with nothing changed |
| ReqRep.Proxy.ReceiverRm | src/sp/reqrep/pipeline.c:96-105 | the oldest reply leaves unchanged |
| ReqRep.Requester.Add | src/sp/reqrep/req_ep.c:73-93 | the reply is handed up with the last level taken off, whatever its first sub is; one without subs is refused with -1 and nothing changes |
| ReqRep.Replier.Add | src/sp/reqrep/rep_ep.c:70-88 | the request is handed up and its connection learns the uuid on top of the stack |
| ReqRep.Replier.Send | src/sp/reqrep/rep_ep.c:44-68 | the reply leaves through the first target its stack names, which moves to the front; the others keep their order |
| RrNet.LongChains | src/sp/reqrep/rr.h:94-102 | no run trips a BUG_ON of rr.h if and only if no chain from a requester has more than 15 connections, that is 14 proxies |
| RrNet.AlwaysSafe | src/sp/reqrep/rr.h:74-92 | every header the code reads is there and in bounds |
| RrNet.FindOnly | src/sp/reqrep/pipeline.c:41 | the search by uuid finds the one connection that has it |
| RrNet.RouteExists | src/sp/reqrep/pipeline.c:80-94 | a reply always has a target, the connection its request came in on |
| RrNet.RouteUnique | src/sp/reqrep/rep_ep.c:44-68 | whichever target with the uuid a search in any order finds, it is the one on the reply's way |
| RrNet.StepInv | src/sp/reqrep/pipeline.c:36-105 | every step of clients, proxies and servers keeps stack, ttl and path of every message in agreement |
| RrNet.RepliesRetrace | src/sp/reqrep/req_ep.c:73-93 | every reply a requester gets arrives with ttl 0 on the connection that sent its request, after the request's hops in reverse |
| RrNet.TtlExact | src/sp/reqrep/rr.h:94-102 | on the way the ttl is the length of the path still to go and never exceeds 15 |
| RrNet.NoReplyLost | src/sp/reqrep/rep_ep.c:44-68 | no reply is ever dropped for want of a target |
| RrOnce.ExactlyOnce | src/sp/reqrep/pipeline.c:36-105 | in every run each request is at exactly one place: on its way, at its server, on its way back as an answer, or handed up; unless a proxy without a target dropped it |
| RrOnce.Contents | src/sp/reqrep/req_ep.c:50-93 | in every run a server gets the payload that was sent, and a requester the payload of the answer given to a request it sent over that connection |
| RrOnce.KeptStep | src/sp/reqrep/pipeline.c:36-105 | every step keeps both, and requests marked as going, answers as coming back from the end of the path |
| RrOnce.NeverStuck | src/sp/reqrep/pipeline.c:36-105 | a message that has not arrived can always move on |
| RrOnce.Nearer | src/sp/reqrep/pipeline.c:36-105 | every step but a new request takes one message nearer to its end, of at most 130 such steps, or drops it |
| Rrbin.RrbinLbs.Select | src/sp/reqrep/lbs_rrbin.c:32-49 | picks the first target; list and counters change as specified |
| Rrbin.RrbinLbs.Add | src/sp/reqrep/lbs_rrbin.c:64-70 | a new target goes last with weight 1 |
| Rrbin.RrbinLbs.Rm | src/sp/reqrep/lbs_rrbin.c:72-74 | exactly that target leaves, the order of the others stays |
| Rrbin.RrbinLbs.SetWeight | src/sp/reqrep/req_ep.c:184-206 | refused for another balancer with nothing changed; otherwise the weight of the target with that fd changes, of none when there is no such target, and the running counters stay |
| Rrbin.OnePass | src/sp/reqrep/lbs_rrbin.c:32-49 | from any counters, one pass picks each target its counter times in list order and refills all counters |
| Rrbin.Fair | src/sp/reqrep/lbs_rrbin.c:32-49 | started at any point of a turn, as many selections as the weights add up to pick each target exactly its weight times and restore list and counters |
| Rrbin.Settles | src/sp/reqrep/lbs_rrbin.c:32-49 | whatever weights and counters are set to, one pass later the list is in turn |
| Md5.PaddingIsLeast | src/utils/md5.c:234-251 | the padding is the least that leaves the length congruent to 448 modulo 512 bits (section 3.1 of RFC 1321) |
| Md5.PaddedIs | src/utils/md5.c:225-262 | the padded input: the input, 0x80, zeros, and the length in bits in the last eight bytes, low-order byte first; whole blocks, none too many (sections 3.1 and 3.2 of RFC 1321) |
| Md5.StartBytes | src/utils/md5.c:175-183 | the state starts from the bytes of section 3.3 of RFC 1321 |
| Md5.FoldConcat | src/utils/md5.c:198-217 | folding the block function over whole blocks can be split anywhere between blocks |
| Md5.Md5State.Process | src/utils/md5.c:191-218 | whatever the pieces, the state is the fold over the whole blocks of all input so far, with the remainder buffered and the bits counted |
| Md5.Md5State.Done | src/utils/md5.c:225-264 | the digest is that of the padded input (sections 3.1 to 3.5 of RFC 1321), so it does not depend on the pieces: its four words, low-order byte first, are those of the folded state in order |
| Md5.MsgInto | src/msgbuf/msgbuf.c:346-361 | the digest of any message tree is fed exactly its wire image, whatever its cmsg fields say |
| Xpoll.Poll.Find | src/poll/poll_struct.c:146-155 | finds the entry of a socket exactly when there is one; XPOLL_HEADFD finds the first entry |
| Xpoll.Poll.Emit | src/poll/eventpoll.c:38-70 | the entry shows the new events and is put in front, or at the end if it showed something before and does not now; all others keep their order; an entry off the list is reported for dropping |
| Xpoll.Poll.Wait | src/poll/eventpoll.c:195-238 | returns exactly the first min(size, number ready) entries, all ready |
| Xpoll.Poll.Rm | src/poll/poll_struct.c:207-224 | exactly the entry of this socket leaves, or the first one for XPOLL_HEADFD; -1 exactly when there is none |
| Xpoll.ReadyIsPrefix | src/poll/eventpoll.c:214-233 | with ready entries in front, stopping at the first idle one misses none |
| Xpoll.CheckTells | src/socket/eventnotify.c:34-66 | after any history: XPOLLIN exactly while something received, or to be accepted, has not been taken; XPOLLOUT exactly while all is sent or the payloads not sent are below the window; XPOLLERR once the connection or listener has failed |
| Xpoll.EventTurns | src/socket/eventnotify.c:34-66 | what each single event does to what is shown |
| Xpoll.Socket.EmitPollevents | src/socket/eventnotify.c:76-91 | afterwards every entry of the socket shows exactly the events it is interested in, entries that left their poller are gone, and all pollers keep their members and their order |
| XpollSys.System.Refresh | src/socket/eventnotify.c:76-91 | one emit_pollevents on the socket that changed restores the invariant of the whole system |
| Xpoll.Socket.Apply | src/socket/send.c:31-76 | what queueing, dequeueing, accepting and failing do to a socket |
| XpollSys.System.Queue | src/socket/send.c:31-76 | a message queued or taken on either side, a connection queued or accepted, a failure: afterwards every attached entry shows what that event makes of it, the whole system is right again and no other socket has changed |
| XpollSys.System.Shows | src/socket/eventnotify.c:34-91 | at every quiescent point an attached entry shows what the history of its socket says, unless that ends with a change the code does not report |
| XpollSys.System.Silent | src/socket/sio/sio_listener.c:94-107 | a listener that fails to accept, and a new send window (src/socket/sio/sio_getsetor.c:142), are not reported: the caches stay right if and only if no attached entry's events have changed |
| XpollSys.UnseenWitness | src/socket/sio/sio_listener.c:94-107 | a listener polled for XPOLLERR fails, one entry has that event, and xpoll_wait reports nothing |
| XpollSys.WindowWitness | src/socket/sio/sio_getsetor.c:140-145 | a send window set above what is queued: one entry could be told XPOLLOUT, and xpoll_wait reports nothing |
| XpollSys.System.Add | src/poll/eventpoll.c:99-128 | a new entry agrees with its socket at once, whatever the caller left in `happened`; a second entry for a socket is refused; no other poller's members change |
| XpollSys.System.Mod | src/poll/eventpoll.c:136-164 | the cache agrees with the new interest, membership stays everywhere; an unknown socket is refused |
| XpollSys.System.Drop | src/poll/poll_struct.c:207-224 | removal from a poller keeps the invariant, and exactly that entry leaves, or the first for XPOLL_HEADFD |
| XpollSys.System.Close | src/socket/close.c:31-58 | a closing socket leaves every poller and the table, and nothing else leaves |
| XpollSys.System.ClosePoll | src/poll/eventpoll.c:241-261 | a closing poller loses all its entries, other pollers none |
| XpollSys.System.Ctl | src/poll/eventpoll.c:175-193 | each request is answered and done as its operation says, also XPOLL_DEL of an unknown descriptor and of XPOLL_HEADFD; unknown pollers and operations are refused; other pollers keep their members and sockets their state |
| XpollSys.System.Wait | src/poll/eventpoll.c:195-238 | returns exactly min(size, number of entries that show something), no socket twice; what it says of a socket whose changes were all reported is what the history of that socket tells, and with only such sockets it misses none |
| XpollSys.System.Run | src/poll/eventpoll.c:38-261 | in every sequence of socket and poller operations every poller has its ready entries in front, and every attached entry shows its socket's events unless the last change of that socket is one the code does not report |
| XpollSys.System.Perform | src/poll/eventpoll.c:38-261 | each operation has its effect on the tables, and a BUG_ON ends the run exactly for an accepted XPOLL_ADD or XPOLL_MOD with an empty interest |
| PollRef.Counted | src/poll/poll_struct.c:68-90 | under every interleaving the entry's count is membership in the two lists plus the threads that hold it, the socket's likewise; no BUG_ON fires but that of sockbase_exit and that of xget |
| PollRef.AttachNeverFails | src/socket/sockbase.h:155-168 | add_pollbase never fails inside xpoll_add, whose own reference keeps the socket in the table |
| PollRef.OthersHold | src/poll/poll_struct.c:74-90 | in every run: whoever holds the entry may put it without freeing a listed one, and an entry about to be attached is on no list |
| PollRef.ExitTrips | src/socket/sockbase.c:168-198 | over all runs, the BUG_ON of sockbase_exit fires if and only if the run gets to the exit of a socket to which the entry was attached after xclose and from which no report has taken it |
| PollRef.GetTrips | src/socket/sockbase.c:109-122 | the BUG_ON of xget fires if and only if it is called between the last xput and the clearing of the slot |
| PollRef.NoBug | src/socket/close.c:31-58 | a caller who attaches and looks up nothing after xclose never trips a BUG_ON |
| PollRef.StragglerWitness | src/socket/sockbase.c:191-195 | the shortest such run: xclose, then the attach of an xpoll_add under way |
| PollRef.DestroyedOnce | src/poll/poll_struct.c:173-224 | in every run: destroyed exactly once as soon as nothing refers to the entry, never before; once the socket has exited, the poller has dropped it and no thread holds it, it has been |
| PollRef.NoUseAfter | src/poll/eventpoll.c:38-78 | no step that reads or changes a destroyed entry is possible in any run |

## Left out

- Allocation failure, logging, statistics, option tables, address parsing, and the epoll, poll and select back ends.
- The augmented-tree callbacks, and the test in rb_next and rb_prev for a node that is not linked: no node of a tree satisfies it.
- crc16 and md5_compress: both are arbitrary functions here; the table and the rounds are not modelled.
- 64-bit keys of the i64 tree are integers, since they are only compared; the sizes of containers do not wrap.
- Headers whose u32 length sums wrap are decoded as the code decodes them, but a message made from one is given no payload, since
  what its announced payload would hold is memory the code never wrote; its checksum before the frame is read over it is given as 0.
- Messages with payloads of 2 GB and more, which ualloc's int argument cannot make, in `MsgParse.FramingExact`.
- A payload length so large that the allocation of header and payload together wraps: reading into it is outside the allocated
  memory, and `MsgRecv.Extract` counts it as refused.
- Callers' buffers are sequences; the pages of the byte queue are arrays. `bio_reset` and page recycling are not modelled.
- Closing a connection, `epipe` and the threads that wait for room or for messages: waiting only delays steps the state machines allow at any time.
- The capacity of the wake-up pipe: a writer that spins on a full pipe is a step that comes later.
- Changing a window while messages are queued: it posts no signal, so `Flow` keeps the receive window fixed.
- Disconnects in `BusNet` and `RrNet`, and endpoints without any target, whose broadcasts are dropped.
- bus_ep_send on an endpoint without connectors neither queues nor frees the message; `Bus.Endpoint.Send` says only that nothing is queued.
- Timeouts in message headers, `set_proxyto`, and the other load balancers (`lbs_ulhash.c`, `lbs_conhash.c`).
- XPOLL_ADD and XPOLL_MOD with an empty interest: the code stops at a BUG_ON, so `XpollSys` ends the run there.
- xpoll_wait on a poller without entries reads a field of the list head before it finds the list empty; `Xpoll.Poll.Wait` starts after the wait and returns nothing for it.
- Races inside xpoll_add between the two lists: `XpollSys` takes each control operation as one step; `PollRef` interleaves them.
- The table of endpoints, and the poller's own reference count.
- A socket is closed once: a second xclose of the same descriptor while the first is under way is not part of `PollRef`.
- ReqRep.Requester.Add: a first sub of at most 16 bytes is left as it is; the code lowers four bits behind its end, outside the message.
- Ring properties of consistent hashing, and fairness of xpoll_wait: the code does not have them.
- RbWalk.Logarithmic: states the bound with powers of two instead of a logarithm.
- XpollSys.System.Queue: messages in a socket's queues are their payload lengths, which is all that decides its events.
