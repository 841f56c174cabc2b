# Verification of the mailbox, container and driver code

This project models the parts of the repository that have real invariants, in Dafny, and
proves what they keep. `dafny verify dfyconfig.toml` checks all of it.

- **Mailbox** (`Mailbox*.dfy`). A bounded ring in shared memory with free-running 32-bit
  indices, a separate `count` and a channel-filtered scan. `MailboxDevice` is the instance
  as the kernel module holds it, fields and a byte array updated in place; `MailboxRing`
  is what each critical section does to the shared image; `MailboxHistory`, `MailboxRuns`
  and `MailboxChannels` add the whole history and prove theorems about every interleaving
  of sends, receives and flushes by any number of processes. `MailboxJams` says when
  receivers that listen to some channels only bring it to a halt, `MailboxFaults` which
  configurations deliver every message as sent, and `MailboxMasks` which message a mask
  gets. `MailboxAnswers` says what a call answers, byte by byte. The stride is a parameter:
  the bare header the kernel uses, or header plus message size, which the allocation and
  the library use.
- **Containers** (`LinkedList`, `DoublyLinkedList`, `ListEquivalence`, `RingQueue`,
  `HashSpec`, `HashLaws`, `HashTable`, `TreeSpec`, `TreeTheorems`, `TreeWalks`, `TreeLaws`,
  `BinaryTree`, `ContainerRuns`). Each is a class that relinks its heap in place, proved
  against a value (`seq`, chains, tree) whose own laws are then proved. Allocation failure is an input of every call that allocates.
- **PCIe endpoint driver** (`Pcie*.dfy`). The resource ladder of probe, with each kernel
  request an input that may fail, its error labels, remove, and the minor bitmap, over
  every run of probes and removals. `PcieTraces` writes the orders out.
- **Power management chip** (`Pmic*.dfy`). Voltage codes, settings bytes and the whole
  configuration written over a bus on which any transfer may fail, before or after taking
  effect. `PmicAnswers` says what a call answers, in addresses and bits.

What the code does that its documentation, or its evident intent, does not say is proved
as such, with an input that shows it and the exact condition. The kernel's slot address
lets a record overwrite its neighbour's payload and header (`KernelPayloadRun`,
`KernelHeaderRun`), while the allocation and the library leave room; the size field keeps
16 bits of sizes of up to 1 MiB (`OversizeIsDelivered`); a depth that is not a power of two
misplaces records when the index wraps (`WrapIsReached`); and nothing else goes wrong with
what is delivered (`DeliversIff`). A receive steps over messages for other channels for
good while `count` still includes them, so that the mailbox can refuse senders with a
single message in it (`JamIsReached`) and poll can announce messages that no one can get
(`PollDisagrees`). Error codes are negated twice and so look like ids and sizes
(`SendReturnAmbiguousIff`, `ReadOnEmpty`). The queue's growth loses elements unless the
front is 0 (`ShippedFifoIff`); a failed replacement in the hash table has already freed the
old value (`ReplacementLosesValue`, `FailedInsertHarmlessIff`); BAR0 is unmapped before
BAR1 (`ReverseOrderIff`); BUCK voltages above 1579 mV are programmed modulo 256 steps, in
the shipped configuration too (`DefaultConfigWraps`); the configuration call drops the
errors of the watchdog and monitor writes, a refused monitor mode among them
(`MonitorsConfiguredIff`); it never turns a monitor off, though mode 0 asks for that
(`ModeZeroLeavesMonitorOn`); an enabled watchdog with a timeout below 256 ms is
programmed as a disabled one (`WatchdogLooksDisabledIff`); and the sleep register's fields
share bits, so that more stays on than was asked for (`SleepRoundTripIff`,
`DefaultSleepKeepsMore`).

The mailbox documentation says an urgent send may overwrite the oldest message of a full
queue and gives other header sizes; the model follows the code, which rejects the send and
whose header has 20 bytes. The register map puts a BUCK's code 0xFF at 3.345 V; by the
driver's own formula it is 1.575 V.

Conventions. A run is *safe* when every accepted send fits the stride and the 16-bit size
field and keeps the window on safe ground (`SafeSend`); `GoodConfigIsSafe` shows that a
suitable configuration alone makes every run safe. `Counters`, `Fates` and `Contents`
are the invariants of the history and hold of a new mailbox. A comparator is any function
that is a total preorder in the C convention; a hash is lawful when key equality is an
equivalence the hash respects.

## Model

| member | source | states |
|---|---|---|
| `MailboxWrap.SlotIsUnboundedIff` | mailbox_framework/kernel/mbox_kern.c:154-157 | reducing an index to 32 bits before taking it modulo depth gives the unbounded slot for every index exactly when depth divides 2^32 |
| `MailboxWrap.SafePairDiffers` | mailbox_framework/kernel/mbox_kern.c:154-157 | two different indices of a live window of at most depth entries never share a slot when depth divides 2^32, the window is short enough, or it does not cross the wrap |
| `MailboxWrap.UnsafeWindowCollides` | mailbox_framework/kernel/mbox_kern.c:154-157 | outside that condition two indices of the window do share a slot, and the lemma returns them |
| `MailboxWrap.WindowDistinctIff` | mailbox_framework/kernel/mbox_kern.c:154-157 | both directions: a window occupies pairwise distinct slots exactly under that condition |
| `MailboxLayout.HeaderRoundTrip` | mailbox_framework/kernel/mbox_kern.c:54-63 | decoding the 20 encoded header bytes gives back all seven fields |
| `MailboxLayout.UnaffectedIff` | mailbox_framework/kernel/mbox_kern.c:205-207 | reading a byte range is unaffected by every write to another range exactly when the two are disjoint |
| `MailboxLayout.RecordReadsBack` | mailbox_framework/kernel/mbox_kern.c:197-207 | a record written to a slot reads back as written: the header, and any prefix of the payload |
| `MailboxLayout.StartIsProduct` | mailbox_framework/lib/mbox_lib.c:104-110 | slot k starts at k times the stride |
| `MailboxLayout.StrideSafeIff` | mailbox_framework/lib/mbox_lib.c:104-110 | records of up to n payload bytes in different slots never overlap exactly when the stride is at least header plus n |
| `MailboxLayout.RecordInBounds` | mailbox_framework/kernel/mbox_kern.c:700-719 | every record stays inside the allocation, at the kernel's stride and at the allocated one |
| `MailboxRing.ScanIsFirstMatch` | mailbox_framework/kernel/mbox_kern.c:259-292 | the bounded scan with wrapping index answers exactly the first live record whose channel the mask selects (by `MailboxMasks.MatchesIff`, whose bit is set in it), and nothing if there is none |
| `MailboxRing.IndexIsHeadIff` | mailbox_framework/kernel/mbox_kern.c:262-262 | the test against head sees the end of the window and nothing before it, across the 32-bit wrap |
| `MailboxRing.AllChannelsMatch` | mailbox_framework/kernel/mbox_kern.c:265-265 | an all-ones mask selects every channel |
| `MailboxMasks.MatchesIff` | mailbox_framework/kernel/mbox_kern.c:265-265 | a mask selects a channel c below 32 exactly when mask / 2^c is odd |
| `MailboxMasks.OnlyChannelSelects` | mailbox_framework/kernel/mbox_kern.c:265-265 | the mask 2^c selects channel c and no other channel below 32 |
| `MailboxMasks.UnionMatches` | mailbox_framework/kernel/mbox_kern.c:265-265 | the bitwise union of two masks selects the channels that either selects |
| `MailboxMasks.RecvByBits` | mailbox_framework/kernel/mbox_kern.c:256-300 | after every safe run with channels below 32, a receive hands out, as it was sent, the first unread message on a channel whose bit is set in the mask, and fails, changing nothing, exactly when there is none |
| `MailboxMasks.RecvOneChannel` | mailbox_framework/kernel/mbox_kern.c:256-300 | so a receive with the mask 2^c hands out the first unread message of channel c, and fails exactly when there is none |
| `MailboxRing.SendReturnAmbiguousIff` | mailbox_framework/kernel/mbox_kern.c:176-229 | the integer a failed send returns is also returned by a successful one exactly for the ids 5 and 8, error codes being negated twice |
| `MailboxAnswers.SendAnswers` | mailbox_framework/kernel/mbox_kern.c:164-229 | a send byte by byte: which are refused and how, and the 20 header bytes, low byte first, and payload of an accepted one |
| `MailboxAnswers.SendCode` | mailbox_framework/kernel/mbox_kern.c:176-228 | the integer returned: 8, 5 or the id as a signed number, negative exactly for an accepted send with an id of 2^31 or more, whose readers are then not woken |
| `MailboxAnswers.RecvAnswers` | mailbox_framework/kernel/mbox_kern.c:256-300 | a receive changes tail, count and the two receive counters only, by one message of the size returned, or nothing |
| `MailboxAnswers.ReadAnswers` | mailbox_framework/kernel/mbox_kern.c:563-584 | what a read hands out: the payload received, zeros when its record claims more than fits, seven zeros when there was none |
| `MailboxDevice.Mailbox.Create` | mailbox_framework/kernel/mbox_kern.c:677-719 | succeeds exactly for a depth of 2 to 4096, a message size of 64 to 1048576 and memory available; the new queue's counters are 0 and its area, depth times 20 plus message size bytes, is zeroed |
| `MailboxDevice.Mailbox.Enqueue` | mailbox_framework/kernel/mbox_kern.c:164-229 | in-place send: TooBig for more than the message size, NoBufs at a full count, counted as dropped exactly for odd flags; otherwise the record's bytes in slot head modulo depth, the four counters modulo the word size, and nothing else; and all of it equals the specification's send |
| `MailboxDevice.Mailbox.FindMatch` | mailbox_framework/kernel/mbox_kern.c:259-292 | the loop over idx and tries computes the specification's scan |
| `MailboxDevice.Mailbox.Dequeue` | mailbox_framework/kernel/mbox_kern.c:256-300 | one attempt equals the specification's receive, in what it returns and in the new state: nothing changes without a message, otherwise the counters go by one message and its size, and data is handed out exactly if it fits |
| `MailboxDevice.Mailbox.Remove` | mailbox_framework/kernel/mbox_kern.c:279-283 | tail moves past the record, count drops by one, totals wrap |
| `MailboxDevice.Mailbox.Peek` | mailbox_framework/kernel/mbox_kern.c:331-364 | changes nothing and returns the specification's peek |
| `MailboxDevice.Mailbox.Flush` | mailbox_framework/kernel/mbox_kern.c:477-485 | head, tail and count go to zero and nothing else changes |
| `MailboxDevice.Mailbox.Poll` | mailbox_framework/kernel/mbox_kern.c:612-632 | readable exactly when count is positive, writable exactly when it is below depth |
| `MailboxHistory.CountersStep` | mailbox_framework/kernel/mbox_kern.c:164-292 | every send, receive and flush, with any mask and at any stride, keeps head, tail, count and the totals consistent with the full history |
| `MailboxHistory.FatesStep` | mailbox_framework/kernel/mbox_kern.c:197-288 | every step keeps ids equal to positions in sending order and every message in at most one of received, stepped over, flushed |
| `MailboxHistory.ContentsSend` | mailbox_framework/kernel/mbox_kern.c:192-216 | a safe send stores its record and leaves every unread record, header and payload, as it was |
| `MailboxHistory.ContentsRecv` | mailbox_framework/kernel/mbox_kern.c:262-288 | a receive hands out exactly the message that was sent, with its own id, channel, flags, size and payload |
| `MailboxRuns.Conservation` | mailbox_framework/kernel/mbox_kern.c:144-286 | in every reachable state 0 <= head - tail <= count <= depth, count is live plus stepped over since the last flush, those stepped over stay below depth, and sent is received plus stepped over plus flushed plus live |
| `MailboxRuns.NeverStuck` | mailbox_framework/kernel/mbox_kern.c:182-292 | in every reachable state some send of acceptable size or some receive can proceed |
| `MailboxRuns.AcceptedIff` | mailbox_framework/kernel/mbox_kern.c:176-190 | a send of acceptable size is accepted exactly while live messages plus those stepped over since the last flush are fewer than depth |
| `MailboxRuns.LossLastsUntilFlush` | mailbox_framework/kernel/mbox_kern.c:279-281 | what has been stepped over is never given back by any sends and receives before a flush |
| `MailboxJams.JammedIff` | mailbox_framework/kernel/mbox_kern.c:182-292 | for receivers with given masks, no send and none of their receives can proceed exactly when count equals depth and no live message is on a channel one of the masks selects |
| `MailboxJams.JamPersists` | mailbox_framework/kernel/mbox_kern.c:182-292 | the jam lasts through all sends and all receives with those masks, which neither accept nor hand out anything |
| `MailboxJams.BoundIsMet` | mailbox_framework/kernel/mbox_kern.c:262-292 | for every configuration a run that ends with depth - 1 messages stepped over and none live, so the bound is exact and one message at a time is all the mailbox then holds |
| `MailboxJams.JamIsReached` | mailbox_framework/kernel/mbox_kern.c:262-292 | for every configuration a run that ends in the jam for receivers of channel 1 with one message live |
| `MailboxRuns.RunContents` | mailbox_framework/kernel/mbox_kern.c:192-288 | over every safe run, what is handed out is byte for byte what was sent, despite all writes to other slots in between |
| `MailboxRuns.IdsIncrease` | mailbox_framework/kernel/mbox_kern.c:197-288 | ids handed out over every safe run from creation, across consumers and flushes, strictly increase and each names the message that was sent |
| `MailboxRuns.FifoRefinement` | mailbox_framework/kernel/mbox_kern.c:164-292 | when every receive covers the queued channels, what was handed out since the last flush is a prefix of what was sent since it, the window holds the rest in order, and count equals head minus tail |
| `MailboxRuns.GoodConfigIsSafe` | mailbox_framework/lib/mbox_lib.c:104-110 | with the allocated stride, messages that fit 16 bits and a depth dividing 2^32, every run is safe whatever the callers do |
| `MailboxRuns.UnsafeWrapOverwritesUnread` | mailbox_framework/kernel/mbox_kern.c:154-214 | otherwise the first accepted send for which the window straddles the wrap puts its record on an unread one |
| `MailboxRuns.OversizeIsTruncated` | mailbox_framework/kernel/mbox_kern.c:203-206 | the stored size is the payload length modulo 2^16, so it is right exactly below 65536 bytes, and only that prefix is handed out |
| `MailboxRuns.OversizeIsDelivered` | mailbox_framework/kernel/mbox_kern.c:203-285 | sent to an empty mailbox and received, a payload of any accepted size comes out with its length modulo 2^16 and that prefix of its bytes |
| `MailboxRuns.PeekPredictsRecv` | mailbox_framework/kernel/mbox_kern.c:331-364 | a peek that finds a message names what the next receive with that mask gets, even after any number of safe sends; with no sends between it also fails exactly when the receive does |
| `MailboxRuns.PollAgreesIff` | mailbox_framework/kernel/mbox_kern.c:621-627 | for a covering mask the poll bit agrees with receive exactly when something is live or nothing has been stepped over |
| `MailboxRuns.PollExactOnFifo` | mailbox_framework/kernel/mbox_kern.c:621-627 | over every safe run in which receives cover the queued channels, the poll bit holds exactly when a covering receive gets a message |
| `MailboxFaults.PollDisagrees` | mailbox_framework/kernel/mbox_kern.c:621-627 | a run of three calls after which poll says readable and no receive with any mask gets anything |
| `MailboxRuns.ReadOnEmpty` | mailbox_framework/kernel/mbox_kern.c:563-584 | the short form of read hands out the message's bytes, and seven zero bytes when there is none, so the two cannot be told apart exactly for a message of seven zeros |
| `MailboxFaults.NextSendReachesPayload` | mailbox_framework/kernel/mbox_kern.c:154-207 | at the kernel's stride of a bare header the second of two sends leaves the first record's header and replaces its first payload byte by the low byte of its own id |
| `MailboxFaults.KernelPayloadRun` | mailbox_framework/kernel/mbox_kern.c:154-288 | so from creation, for every message that carries data and every second message, a receive gets the first one's id and size and 2 for its first byte |
| `MailboxFaults.PayloadReachesHeader` | mailbox_framework/kernel/mbox_kern.c:154-207 | at that stride a send with any payload replaces the low byte of the id of the unread record in the next slot |
| `MailboxFaults.KernelHeaderRun` | mailbox_framework/kernel/mbox_kern.c:154-288 | for every depth and byte a run after which a receive hands out the second message under an id that ends in that byte |
| `MailboxFaults.WrapIsReached` | mailbox_framework/kernel/mbox_kern.c:154-214 | for every depth that does not divide 2^32 a run to a state in which one more send overwrites an unread record |
| `MailboxFaults.DeliversIff` | mailbox_framework/kernel/mbox_kern.c:154-292 | every run hands out every message as it was sent, and keeps every unread one, exactly when the stride is header plus message size, sizes fit 16 bits and depth divides 2^32 |
| `MailboxChannels.SkippedOffChannel` | mailbox_framework/kernel/mbox_kern.c:262-292 | a receive that listens to a channel steps over no message of that channel |
| `MailboxChannels.ChannelFifo` | mailbox_framework/kernel/mbox_kern.c:259-288 | over every safe run in which all receivers listen to a channel, whatever else they listen to, that channel is first-in first-out without loss between flushes |
| `MailboxChannels.RunBytes` | mailbox_framework/kernel/mbox_kern.c:213-286 | over every safe run the byte counters count what was sent and received, and bytes sent are bytes received, stepped over, flushed or live |
| `MailboxChannels.FreshHolds` | mailbox_framework/kernel/mbox_kern.c:677-719 | a fresh mailbox satisfies both, so both hold of every safe run from creation |
| `LinkedLists.LinkedList.InsertAt` | linked_list/linked_list.c:28-55 | relinking puts the element at the index; those before it stay and the others move up by one; fails, changing nothing, exactly for a bad index or either failed allocation |
| `LinkedLists.LinkedList.RemoveAt` | linked_list/linked_list.c:57-80 | unlinking answers the element at the index; those before it stay and those behind it move down by one; fails, changing nothing, exactly for a bad index |
| `LinkedLists.LinkedList.GetAt` | linked_list/linked_list.c:82-91 | returns the element at the index or fails, changing nothing |
| `LinkedLists.LinkedList.Clear` | linked_list/linked_list.c:97-109 | empties the list and gives back all its blocks |
| `DoublyLinkedLists.DoublyLinkedList.InsertAt` | doubly_linked_list/doubly_linked_list.c:43-73 | all four linking cases put the element at the index; those before it stay, the others move up by one, both link directions kept; fails, changing nothing, exactly for a bad index or failed allocation |
| `DoublyLinkedLists.DoublyLinkedList.RemoveAt` | doubly_linked_list/doubly_linked_list.c:75-105 | all three unlinking cases answer the element at the index; those before it stay, those behind it move down by one, both link directions kept; fails, changing nothing, exactly for a bad index |
| `DoublyLinkedLists.DoublyLinkedList.GetAt` | doubly_linked_list/doubly_linked_list.c:107-124 | the walk from head or from tail, whichever is chosen, returns the element at the index |
| `DoublyLinkedLists.DoublyLinkedList.Clear` | doubly_linked_list/doubly_linked_list.c:130-143 | empties the list and gives back all its blocks |
| `DoublyLinkedLists.WalksMirror` | doubly_linked_list/doubly_linked_list.c:43-105 | following prev from tail gives the exact reverse of following next from head, and both see length nodes |
| `ListEquivalence.RunBoth` | doubly_linked_list/doubly_linked_list.c:21-143 | any sequence of operations with the same allocation outcomes gives the same statuses and data on both lists, follows the element-by-element description call by call, and leaves twice the length plus one blocks allocated in each |
| `ListSpec.DoesIff` | linked_list/linked_list.c:20-109 | the specification of a call is exactly its description element by element: what is answered, what stays and what moves |
| `ListSpec.RoundTrips` | linked_list/linked_list.c:28-80 | over every list, what is inserted at an index comes out from there and leaves the list as it was, and what is taken out can be put back |
| `ListSpec.RunFollows` | linked_list/linked_list.c:20-109 | over every run, each call does what its description says to the contents before it |
| `RingQueue.RearIsMod` | queue/queue.c:52-71 | rear is (front + length) mod capacity in every valid state |
| `RingQueue.Queue.Grow` | queue/queue.c:30-50 | the copy into the doubled buffer equals the specification for the chosen guard, including what a straight copy reads past the buffer |
| `RingQueue.Queue.Enqueue` | queue/queue.c:52-61 | adds the element behind the others unless the buffer is full and memory refused, and equals the specification's enqueue |
| `RingQueue.Queue.Dequeue` | queue/queue.c:63-71 | answers and takes out the first element, or fails on an empty queue, and equals the specification's dequeue |
| `RingQueue.Queue.Peek` | queue/queue.c:73-79 | returns the front element or fails, changing nothing |
| `ContainerRuns.RunQueue` | queue/queue.c:30-79 | any sequence of calls on a queue object leaves the specification's state and gives its answers |
| `ContainerRuns.RunNewQueue` | queue/queue.c:5-79 | on a new queue, if the guard asks whether the contents wrap or growth happens only at front 0: the data of the successful dequeues is a prefix of the elements whose enqueue returned 0, a dequeue or peek fails exactly when the counts are equal, a peek gives the next one, and an enqueue fails exactly on a full buffer without memory; growths copy fewer than two elements per element accepted |
| `QueueSpec.NewQueueAnswers` | queue/queue.c:5-79 | the same of the specification, in terms of the calls and answers of the run alone |
| `QueueSpec.RunFifo` | queue/queue.c:30-71 | with a guard that asks whether the contents wrap, every run is an unbounded first-in first-out queue; with the shipped guard every run that grows only at front 0 is |
| `QueueSpec.ShippedFifoIff` | queue/queue.c:30-71 | with the shipped guard a run is an unbounded first-in first-out queue whatever lies past the buffer exactly when it grows only at front 0 |
| `QueueSpec.ShippedGuardAlwaysTrue` | queue/queue.c:35-35 | at the only moment growth happens front equals rear, so the split copy is never reached |
| `QueueSpec.ShippedGrowthRightIff` | queue/queue.c:35-42 | the shipped growth keeps the contents whatever lies past the buffer exactly when front is 0, which is exactly when it stays inside the buffer |
| `QueueSpec.ShippedLosesAnElement` | queue/queue.c:30-61 | a concrete run of five calls on capacity 2 in which an element is lost |
| `QueueSpec.RunAmortised` | queue/queue.c:30-61 | over every interleaving, growths copy capacity minus initial capacity elements in total, fewer than two per element accepted |
| `HashSpec.FindIsLookup` | hash_table/hash_table.c:50-62 | the chain scan finds a key exactly when the map holds an equal one, and then at the stored key |
| `HashSpec.SearchRefines` | hash_table/hash_table.c:82-95 | search answers as the finite map does |
| `HashSpec.InsertRefines` | hash_table/hash_table.c:47-80 | insert, with any mallocs failing, does what the map update does, including the value lost when a replacement fails |
| `HashSpec.RemoveRefines` | hash_table/hash_table.c:97-120 | remove does what map deletion does |
| `HashSpec.RunRefines` | hash_table/hash_table.c:47-124 | any run of insert, search, remove and size answers like the map and keeps every entry in its bucket, keys unique, and size the map's cardinality |
| `HashSpec.HashIsInvisible` | hash_table/hash_table.c:5-27 | no run can tell two lawful hash functions or bucket counts apart |
| `HashLaws.SearchIff` | hash_table/hash_table.c:82-95 | search finds a value exactly when an entry of the table with an equal key holds it, and nothing exactly when no entry has an equal key |
| `HashLaws.InsertLaws` | hash_table/hash_table.c:47-80 | when an insert fails, what it does to the size, what equal and other keys find afterwards, and that a new entry comes first in the chain of its hash |
| `HashLaws.RemoveLaws` | hash_table/hash_table.c:97-120 | a removal succeeds exactly when an equal key is there, which is then found no more; all other keys find what they found; the size goes by one |
| `HashLaws.RunKeepsPlaced` | hash_table/hash_table.c:5-120 | after every run on a new table each entry is in the chain its hash gives modulo the number of buckets, 16 if none was asked for |
| `HashSpec.FailedInsertHarmlessIff` | hash_table/hash_table.c:54-73 | a failed insert leaves the table unchanged exactly when the key was not present, or its value was already missing |
| `HashSpec.ReplacementLosesValue` | hash_table/hash_table.c:53-60 | for every key and value two calls on a new table after which the second has failed, the first value is gone and the key is still found |
| `HashTables.HashTable.Locate` | hash_table/hash_table.c:99-118 | the walk with a trailing pointer reaches the first entry with an equal key and its predecessor |
| `HashTables.HashTable.Insert` | hash_table/hash_table.c:47-80 | in-place insertion into the chains equals the specification |
| `HashTables.HashTable.Search` | hash_table/hash_table.c:82-95 | the chain walk equals the specification |
| `HashTables.HashTable.Remove` | hash_table/hash_table.c:97-120 | in-place unlinking equals the specification |
| `HashTables.HashTable.Elsewhere` | hash_table/hash_table.c:76-77 | an entry of one bucket is in no other bucket's chain |
| `ContainerRuns.RunTable` | hash_table/hash_table.c:47-124 | any sequence of calls on a table object leaves the specification's table and gives its answers |
| `ContainerRuns.RunNewTable` | hash_table/hash_table.c:5-124 | on a new table the answers are the finite map's, whatever the number of buckets |
| `TreeSpec.BstIffSorted` | binary_tree/binary_tree.c:127-132 | a tree is a search tree exactly when its in-order walk visits strictly increasing elements |
| `TreeSpec.SizeIsLength` | binary_tree/binary_tree.c:163-166 | size is the number of elements the in-order walk visits |
| `TreeSpec.SearchRefines` | binary_tree/binary_tree.c:73-84 | search on a search tree is lookup in its in-order sequence |
| `TreeSpec.InsertRefines` | binary_tree/binary_tree.c:54-66 | insertion puts the element between the smaller and the larger ones, keeps a present equal one, and fails only without memory |
| `TreeSpec.RemoveRefines` | binary_tree/binary_tree.c:96-120 | deletion takes out exactly the matching element, successor copy and second deletion included; it fails exactly when there is none, and then the tree keeps its shape |
| `TreeTheorems.RunRefines` | binary_tree/binary_tree.c:54-166 | every run of insert, search, remove and size answers like the sorted dictionary and ends in a search tree |
| `TreeTheorems.SearchAfterInsert` | binary_tree/binary_tree.c:54-84 | after an insert the first element inserted under a key is found and other keys are untouched |
| `TreeTheorems.SearchAfterRemove` | binary_tree/binary_tree.c:73-120 | after a removal the key is gone and other keys are untouched |
| `TreeLaws.SearchIff` | binary_tree/binary_tree.c:73-84 | search hands out an element exactly when it sits in the tree and matches, and nothing exactly when none matches |
| `TreeLaws.InsertStatus` | binary_tree/binary_tree.c:54-66 | an insert fails exactly when nothing matches and there is no memory; it adds one node exactly when nothing matches and there is |
| `TreeLaws.RemoveStatus` | binary_tree/binary_tree.c:96-120 | a removal succeeds exactly when an element matches, and leaves one node fewer; otherwise the tree is as it was |
| `TreeLaws.RemoveRoot` | binary_tree/binary_tree.c:96-120 | at the root a lone child takes the place, or between two children the first element of the right one, the left one staying as it was |
| `TreeWalks.WalkMembers` | binary_tree/binary_tree.c:127-146 | every walk visits exactly what sits in the tree, as many visits as nodes |
| `TreeWalks.WalkOrder` | binary_tree/binary_tree.c:127-146 | in all three walks everything in a left subtree comes before everything in its sibling; pre-order visits a node before both its subtrees, in-order between them, post-order after both, at every node of the tree |
| `TreeWalks.VisitedOnce` | binary_tree/binary_tree.c:127-146 | each element of a search tree is visited once, so that order is the only one |
| `TreeTheorems.RebuildFromPreorder` | binary_tree/binary_tree.c:134-139 | inserting the pre-order walk of a search tree into an empty tree gives exactly that tree, shape included |
| `TreeTheorems.RebuildFromReversedPostorder` | binary_tree/binary_tree.c:141-146 | so does inserting the reverse of the post-order walk |
| `BinaryTrees.InsertNode` | binary_tree/binary_tree.c:54-66 | in-place insertion equals the specification and keeps nodes and buffers unshared |
| `BinaryTrees.SearchNode` | binary_tree/binary_tree.c:73-84 | the recursive search equals the specification |
| `BinaryTrees.FindMin` | binary_tree/binary_tree.c:91-94 | the loop to the left reaches a node of the tree that holds the least element |
| `BinaryTrees.RemoveNode` | binary_tree/binary_tree.c:96-120 | in-place deletion equals the specification for the key's value on entry, though the key may lie in the tree; exactly one node and its buffer are reclaimed on success and none on failure |
| `BinaryTrees.MoveSuccessorUp` | binary_tree/binary_tree.c:112-114 | the two-children case: copying the successor and searching the right subtree by a key inside it has the specification's effect |
| `BinaryTrees.SizeNode` | binary_tree/binary_tree.c:163-166 | the recursive count equals the specification |
| `BinaryTrees.InorderNode` | binary_tree/binary_tree.c:127-132 | visits the elements in the order of the specification's in-order walk |
| `BinaryTrees.PreorderNode` | binary_tree/binary_tree.c:134-139 | visits the elements in the order of the specification's pre-order walk |
| `BinaryTrees.PostorderNode` | binary_tree/binary_tree.c:141-146 | visits the elements in the order of the specification's post-order walk, which `TreeWalks.WalkOrder` describes |
| `BinaryTrees.BinaryTree.Insert` | binary_tree/binary_tree.c:68-71 | the public call has the effect of the specification on the whole tree |
| `BinaryTrees.BinaryTree.Remove` | binary_tree/binary_tree.c:122-125 | the public call has the effect of the specification; one node and one buffer fewer on success, the same nodes on failure |
| `ContainerRuns.RunTree` | binary_tree/binary_tree.c:54-170 | any sequence of calls on a tree object leaves the specification's tree and gives its answers, on nodes that were there or are new |
| `ContainerRuns.RunNewTree` | binary_tree/binary_tree.c:19-170 | on a new tree the answers are the sorted dictionary's and the result is a search tree whose in-order walk is the dictionary |
| `PcieSpec.ProbeBalances` | pcie_ep_driver/xilinx_pcie_ep.c:342-472 | whatever fails and whenever, probe takes nothing twice and gives back nothing unheld; it ends holding what it took on success and nothing on failure |
| `PcieSpec.RemoveBalances` | pcie_ep_driver/xilinx_pcie_ep.c:474-499 | remove gives back everything a device holds, once |
| `PcieSpec.SucceedsIff` | pcie_ep_driver/xilinx_pcie_ep.c:342-448 | probe succeeds exactly when every mandatory request is granted and a minor is free, and then holds exactly what was granted |
| `PcieSpec.ReverseOrderIff` | pcie_ep_driver/xilinx_pcie_ep.c:450-470 | resources come back in the exact reverse of the order taken precisely when BAR1 was not mapped, BAR0 being unmapped before BAR1 |
| `PcieTraces.TakenInOrder` | pcie_ep_driver/xilinx_pcie_ep.c:342-448 | a probe takes its resources in the listed order, and each exactly when it and all mandatory requests before it are granted |
| `PcieTraces.UnwindInOrder` | pcie_ep_driver/xilinx_pcie_ep.c:450-499 | labels and remove give back what is held in their listed order |
| `PcieTraces.ProbeInOrder` | pcie_ep_driver/xilinx_pcie_ep.c:342-472 | one whole probe, with both orders written out: what it gets, and all of it back unless it got the device node |
| `PcieRuns.FirstZero` | pcie_ep_driver/xilinx_pcie_ep.c:419-419 | the least minor not taken, or the limit |
| `PcieRuns.StepKeepsValid` | pcie_ep_driver/xilinx_pcie_ep.c:342-499 | every probe and removal keeps the minor bitmap equal to the live devices' minors, distinct and below the limit, and every live device holding all mandatory resources |
| `PcieRuns.RunIsValid` | pcie_ep_driver/xilinx_pcie_ep.c:342-499 | so does every run, and there are as many minors taken as devices live, at most the limit |
| `PcieRuns.LedgerBalances` | pcie_ep_driver/xilinx_pcie_ep.c:342-499 | over every run, replaying all that was acquired and released for a device never errs and leaves exactly what the driver records for it, nothing while it is not live |
| `PcieRuns.ProbeSucceedsIff` | pcie_ep_driver/xilinx_pcie_ep.c:419-424 | in every reachable state a probe succeeds exactly when all mandatory requests are granted and fewer devices than the limit are live; it gets the least free minor, and a failed one changes nothing |
| `PcieRuns.ProbeThenRemove` | pcie_ep_driver/xilinx_pcie_ep.c:342-499 | removing a device right after probing it restores the driver state, successful or not |
| `PcieDriver.EpDriver.FindFirstZeroBit` | pcie_ep_driver/xilinx_pcie_ep.c:419-419 | the loop over the bitmap stays inside it and returns the least free minor or the limit |
| `PcieDriver.EpDriver.Attach` | pcie_ep_driver/xilinx_pcie_ep.c:384-460 | the rungs from the DMA mask on publish the device, or leave bitmap and devices as they were having given back exactly what they took |
| `PcieDriver.EpDriver.Register` | pcie_ep_driver/xilinx_pcie_ep.c:418-453 | the rungs from the minor on publish the device or leave bitmap and devices as they were, having given back exactly what they took |
| `PcieDriver.EpDriver.Probe` | pcie_ep_driver/xilinx_pcie_ep.c:342-472 | the labelled ladder logs exactly the specification's actions in order and has exactly its effect on bitmap and devices |
| `PcieDriver.EpDriver.Remove` | pcie_ep_driver/xilinx_pcie_ep.c:474-499 | the removal logs exactly the releases of all the device held, in label order, and has the specification's effect |
| `PmicSpec.LdoReadsBack` | tps6594_driver/src/tps6594.c:313-362 | an LDO reads back the request rounded down by less than 50 mV, for all of 600 to 3300 mV |
| `PmicSpec.BuckReadsBack` | tps6594_driver/src/tps6594.c:294-360 | a BUCK reads back the request rounded down to 5 mV less 1280 mV for every wrap of its eight-bit code |
| `PmicSpec.ReadsBackIff` | tps6594_driver/src/tps6594.c:294-360 | reading back is within one step below the request exactly up to 1579 mV on a BUCK and always on an LDO |
| `PmicSpec.BuckConfRoundTripIff` | tps6594_driver/src/tps6594.c:753-760 | a BUCK's settings decode from the register as given exactly when frequency and phase stay within their bits; otherwise those bits are cut |
| `PmicSpec.LdoConfRoundTripIff` | tps6594_driver/src/tps6594.c:776-782 | an LDO's settings decode as given exactly when low noise is not asked of one of the first three |
| `PmicSpec.RegistersApart` | tps6594_driver/src/tps6594.c:308-784 | no two voltage or settings registers share an address |
| `PmicSpec.WriteIff` | tps6594_driver/src/tps6594.c:101-112 | a write with retries succeeds exactly when one of its attempts does; then the register holds the value, otherwise it may or may not, and nothing else changes |
| `PmicSpec.SwitchKeepsSettings` | tps6594_driver/src/tps6594.c:159-287 | enabling or disabling changes the enable bit alone and no other register |
| `PmicAnswers.WriteAnswers` | tps6594_driver/src/tps6594.c:101-112 | a write answers OK exactly when one of the next three transfers succeeds, makes transfers up to the first that does, and leaves the value in the register unless all three are lost |
| `PmicAnswers.ModifyAnswers` | tps6594_driver/src/tps6594.c:159-170 | a masked update answers OK exactly when its read and one of the next three transfers succeed; masked bits are those given, the others those read; a failed read changes nothing |
| `PmicAnswers.SwitchAnswers` | tps6594_driver/src/tps6594.c:247-287 | a switch is refused exactly when not initialised or for an id of 9 or more; otherwise it is that update of bit 7 of register 0x11 + 4 id or 0x29 + 4 (id - 5) |
| `PmicAnswers.VoltageAnswers` | tps6594_driver/src/tps6594.c:289-330 | a voltage is refused exactly when not initialised, for an id of 9 or more, or outside 300 to 3340 mV or 600 to 3300 mV; otherwise its code is written to the regulator's register and remembered on OK |
| `PmicAnswers.SettingsBits` | tps6594_driver/src/tps6594.c:753-782 | which bit of a settings byte stands for which setting |
| `PmicAnswers.SleepAnswers` | tps6594_driver/src/tps6594.c:496-525 | the sleep and wake registers are written in this order, the second only after the first succeeded |
| `PmicAnswers.SleepReadsBack` | tps6594_driver/src/tps6594.c:505-518 | what the sleep registers say: enabling sleep also keeps BUCK1 on and retention LDO1, and the reverse; LDO3 and LDO4 are dropped |
| `PmicAnswers.SleepRoundTripIff` | tps6594_driver/src/tps6594.c:505-518 | sleep settings survive exactly when both pairs that share a bit agree and each field fits its bits |
| `PmicAnswers.DefaultSleepKeepsMore` | tps6594_driver/src/tps6594.c:64-72 | the shipped configuration asks for BUCK3 and LDO2 in sleep and leaves BUCK1 and LDO1 on as well |
| `PmicSpec.RegulatorFacts` | tps6594_driver/src/tps6594.c:289-330 | programming one regulator sets both its registers or stops partway, refuses exactly an uninitialised driver or a voltage out of range, and touches no other register |
| `PmicSpec.RegulatorsFacts` | tps6594_driver/src/tps6594.c:743-787 | after the loops all regulators are programmed, or some k is where it stopped: those before programmed, those after untouched |
| `PmicSpec.ConfigOk` | tps6594_driver/src/tps6594.c:734-807 | if the call returns OK, under any pattern of failed transfers, all nine voltage and settings registers and the sleep registers hold the configuration and no other register changed but the watchdog's and the monitor's |
| `PmicSpec.ConfigReadsBack` | tps6594_driver/src/tps6594.c:743-787 | after OK every settings byte decodes to the configuration, up to the bits the register has no room for |
| `PmicSpec.ConfigStopsSomewhere` | tps6594_driver/src/tps6594.c:743-792 | if it does not return OK it stopped at one regulator, with INVAL exactly for a refused voltage or uninitialised driver, or all are programmed and the bus failed afterwards |
| `PmicSpec.ConfigSucceedsIff` | tps6594_driver/src/tps6594.c:101-807 | as long as no three transfers in a row fail, it returns OK exactly when all voltages are in range |
| `PmicSpec.FailuresLeaveNoTrace` | tps6594_driver/src/tps6594.c:101-807 | two successful calls from the same registers agree on all but the watchdog's and monitor's register, however many transfers failed in either |
| `PmicSpec.OkWithoutWatchdog` | tps6594_driver/src/tps6594.c:794-806 | for every configuration in range there are failures under which it returns OK with the watchdog's and the monitor's register untouched |
| `PmicSpec.WriteLeavesIff` | tps6594_driver/src/tps6594.c:101-112 | a write, reported as failed or not, leaves its value in the register exactly when it was there or one of its possible attempts is not lost |
| `PmicSpec.MonitorsConfiguredIff` | tps6594_driver/src/tps6594.c:794-806 | after OK the watchdog's register holds the configuration exactly when it already did or not all attempts were lost; the monitor's likewise for modes 1 and 2, and for every other mode it is unchanged |
| `PmicSpec.MonitorsWithRetries` | tps6594_driver/src/tps6594.c:734-807 | as long as no three transfers in a row fail, OK means the watchdog's register is written, and the monitor's for modes 1 and 2; for mode 0 the monitor is off exactly when it was off before; a mode above 2 changes nothing; so the monitor is as asked exactly for modes 1 and 2, and for mode 0 when it was off |
| `PmicSpec.WatchdogLooksDisabledIff` | tps6594_driver/src/tps6594.c:549-572 | its byte then stands for the timeout, cut at 32 s and rounded down to 256 ms, and is the one that disabling writes exactly when the watchdog is not enabled or its timeout is below 256 ms |
| `PmicSpec.ModeZeroLeavesMonitorOn` | tps6594_driver/src/tps6594.c:801-804 | mode 0 means disabled, but with every transfer succeeding a monitor that is on in mode 1 stays on and the call returns OK |
| `PmicSpec.ModeThreeIsDropped` | tps6594_driver/src/tps6594.c:595-603 | a refused monitor mode with every transfer succeeding: the call returns OK and the monitor stays off |
| `PmicSpec.ConfigRoundsIff` | tps6594_driver/src/tps6594.c:734-807 | after OK every regulator reads back within one step below the request exactly on an LDO, and on a BUCK up to 1579 mV |
| `PmicSpec.RecordIsTrueIff` | tps6594_driver/src/tps6594.c:323-327 | after OK the voltage the driver remembers is what the chip reads back exactly when the request lies on a step and a BUCK's does not exceed 1579 mV |
| `PmicSpec.DefaultConfigWraps` | tps6594_driver/src/tps6594.c:25-62 | the shipped configuration leaves BUCK1 at 740 mV for 3300 and BUCK2 at 520 for 1800, and the other seven right |
| `PmicDevice.Device.I2cWrite` | tps6594_driver/src/tps6594.c:101-112 | the retry loop: OK exactly when one of the next three transfers succeeds, with what it leaves in the registers; equals the specification's write |
| `PmicDevice.Device.RegModify` | tps6594_driver/src/tps6594.c:159-170 | reads once without retry, OK exactly when that and one of the next three transfers succeed; masked bits are written and the others kept |
| `PmicDevice.Device.SetEnabled` | tps6594_driver/src/tps6594.c:247-287 | refused exactly when not initialised or for an id of 9 or more; otherwise sets or clears bit 7 of the regulator's settings register, OK exactly when the read and one of the next three transfers succeed, nothing changed when the read fails |
| `PmicDevice.Device.RegulatorSetVoltage` | tps6594_driver/src/tps6594.c:289-330 | refusals, code, register address and remembered voltage, in numbers, and equals the specification |
| `PmicDevice.Device.RegulatorGetVoltage` | tps6594_driver/src/tps6594.c:332-362 | INVAL exactly when not initialised or for an id of 9 or more; otherwise one transfer, OK exactly when it succeeds, and then 300 + 5 code or 600 + 50 code of the register; no register changes |
| `PmicDevice.Device.I2cRead` | tps6594_driver/src/tps6594.c:115-119 | one transfer, OK exactly when it succeeds |
| `PmicDevice.Device.WatchdogEnable` | tps6594_driver/src/tps6594.c:549-565 | writes the timeout, cut at 32 s, in units of 256 ms to register 0x61 |
| `PmicDevice.Device.EsmEnable` | tps6594_driver/src/tps6594.c:595-609 | refuses a mode above 2; otherwise writes 0x80, 0x81 or 0x82 to register 0x70 |
| `PmicDevice.Device.ConfigureSleep` | tps6594_driver/src/tps6594.c:496-525 | writes the sleep and wake registers, stopping at the first failure |
| `PmicDevice.Device.SetConfiguration` | tps6594_driver/src/tps6594.c:734-807 | the two loops and what follows equal the specification for every pattern of failed transfers |

## Left out

- MailboxDevice.Mailbox.Dequeue: models one attempt of the loop; waiting, timeouts, signals and wake-ups are scheduler behaviour, and a waiting receiver is a later receive event.
- MailboxDevice.Mailbox.Peek: taken as one atomic step, though the code peeks without the lock.
- MailboxDevice.Mailbox.Enqueue: time stamps are the zeros the code writes, and the sender's process id is an input.
- MailboxRuns.IdsIncrease: assumes fewer than 2^32 messages have been sent, since ids are 32 bits wide and repeat after that.
- MailboxRuns.RunContents: for safe runs only; `MailboxFaults.DeliversIff` says which configurations make all runs safe and shows runs that fail at all others.
- MailboxRuns.ReadOnEmpty: copying to the caller is taken to succeed, and the caller's buffer to hold what is handed out.
- MailboxRing.AllChannelsMatch: channels from 32 up are tested modulo 32; the C shift is undefined there.
- A receive buffer larger than the message size, which no caller passes; the model's receive takes a limit of at most the message size.
- Urgent and broadcast priority, per-reader tails and the mapped reader index: declared in the code without behaviour.
- System calls, ioctl copying, mmap, the library's handles, the reading of statistics, mailbox names and reference counts.
- Memory barriers and interrupt masking, which the atomic steps subsume.
- QueueSpec.RunFifo: the shipped guard is covered for runs that grow only at front 0; `QueueSpec.ShippedFifoIff` shows that it fails for the others.
- RingQueue.Queue.Grow: what a straight copy reads past the old buffer is an input; the C read is undefined.
- HashSpec.SearchRefines: an entry whose replacement failed is found with no value; copying that value out in C is undefined.
- Destroy callbacks of the hash table and tree, and destroying whole structures; elements, keys and values are typed values instead of byte blocks, so element sizes and their overflow do not appear.
- Null arguments: the model's references are never null, so the early returns for null pointers do not appear.
- BinaryTrees.RemoveNode: gives the freed node back as a ghost result instead of deallocating it.
- PcieSpec.ProbeBalances: a DMA buffer counts as one resource, whether it came from the coherent allocator or from the fallback, and is freed as such.
- PcieDriver.EpDriver.Probe: written as three methods, one per stretch of the ladder; the fields of a device's record are locals until it is published, device register writes are left out, and probes are not concurrent. With a limit above the 256 bits of the bitmap and 256 devices live, the code scans past the bitmap, which is undefined; that one call is excluded.
- PcieDriver.EpDriver.FindFirstZeroBit: excludes the scan past the bitmap, for the same reason.
- A negative limit on devices, with which the module does not load.
- File operations, interrupts, DMA transfers and module loading of the PCIe driver.
- PmicAnswers.SleepReadsBack: reads the fields at the places the code writes them; the header gives the mask of the LDO field but not its place.
- PmicSpec.ConfigReadsBack: decodes with the bit masks of the header; the driver's own read-back of a configuration is not implemented.
- Low-noise mode of the last LDO changes the chip's step to 25 mV by the register map, while the driver codes and reads back in steps of 50; only the driver's side is modelled.
- Power states, power-good status, interrupts, non-volatile memory and the SafeRTOS layer of the power management driver.
- The VirtIO block driver, a skeleton that does not compile; the stack, an easier case of the queue; the QNX applications, demos and tests.
