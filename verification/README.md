# agentsmith in Dafny

agentsmith follows a log file, counts hostile hits per IP address in a shared table, calls an
action script when a threshold is crossed and again when the record is purged, and informs other
agents of its own detections over a fixed 144-byte wire format. This project models those parts
and proves what the daemon promises about them. `dafny verify dfyconfig.toml` checks everything.

How the pieces fit:

- `RecordVector.dfy` is the slot vector behind the host table, as a class; every operation is
  proved against the map operations of `HostTable.dfy`.
- `Lifecycle.dfy` is the life of records as a state machine over that map, with the full event log
  as history. A step is what one thread does to one record under the vector mutex, with its own
  clock reading, so runs include every interleaving of whole passes. `Daemon.dfy` proves that each
  operation on the vector (hit, remote record, action pass, mark-all, maintenance, shutdown) is
  such a run.
- `ClientQueue.dfy` and `Client.dfy` are the linked-list queues and the 25-entry batch. Records are
  heap objects that can be freed, so that entries have to hold copies of their own. `Relay.dfy` is
  the same machinery with its workers and condition variables as a state machine in which workers
  run while a flush is half done; the classes' operations are proved to be steps of it.
- `Wire.dfy`, `Codec.dfy` and `Framing.dfy` are byte order, the codec and the byte stream.
- `Network.dfy` puts any number of agents together in any topology, each with its lifecycle, its
  relay machinery and the records in flight; batches travel on connections of their own and may
  overtake each other or be lost one by one. `RelayStorm.dfy` is the termination measure.
- `Delivery.dfy` proves that detections do get through: from every reachable network there is a run
  from hits at one agent to its record in a peer's table.
- `Agent.dfy` puts the vector and the client together and proves that a round of the action thread
  over them is a run of the network.
- `Cidr.dfy` and `Exclude.dfy` are the exclude list, `LineChunker.dfy` the log reader's buffer,
  `WorkerSemaphore.dfy` the bound on serving threads.

What the environment is taken to do: mutex, condition variable and allocation calls succeed; the
clock is positive and never goes back; an agent's numeric host string, as its peers see it, is
never "localhost"; the action script can be run. In the network model a record in flight arrives
whole or not at all; when the byte stream guarantees that is a result (`Framing.SelectionExactly`).
Names are C strings given by their bytes. Counters are signed 32-bit integers that wrap, so nothing
is assumed about how often a host is hit.

Five things the code does that a reader might not expect are stated as results, each with an input
that shows it and the exact condition:

- An address string of 46 or more bytes is stored cut off but looked up whole. Keys stay unique
  exactly if the string fits or its cut-off form is not a key yet (`RecordVector.RecordVector.AddIp`,
  `RecordVector.LongAddressTwice`, `Daemon.Daemon.LocalHit`).
- A merge can push a record below its threshold. It stays at or above it exactly when the 32-bit sum does
  not overflow (`Lifecycle.MergeKeepsThreshold`, `Lifecycle.MergeCanOverflow`).
- Local hits do not take back a removal mark, so a record that was hit a moment ago is purged
  (`Lifecycle.JustHitPurgeHappens`, `Lifecycle.PurgedWhenJustHit`). All hits of a marked local record
  are stale exactly if none came after the mark (`Lifecycle.StaleExactlyIfNotHitSince`).
- An IPv4 prefix of 0 shifts by 32, which C leaves undefined. It matches everything exactly if that
  shift happens to give 0 (`Cidr.Ipv4ZeroPrefix`).
- The send loop goes on after a failed write, so one that left part of a frame behind can make the
  receiver add records that were never sent (`Framing.PartialWriteMisleads`). What is added is always
  an in-order selection of what was sent exactly if the bytes written from the first partial frame on
  do not make up a whole command (`Framing.SelectionExactly`).

## Model

| member | source | states |
|---|---|---|
| `RecordVector.RecordVector.constructor` | src/records.c:228-250 | the initial vector is one empty chunk and stands for the empty map |
| `RecordVector.RecordVector.Find` | src/records.c:182-198 | a scan that stops at the high-water mark finds a key exactly when the whole map has it, and finds its record |
| `RecordVector.RecordVector.FindFree` | src/records.c:210-226 | the first empty slot, or "no space" exactly when all slots are in use |
| `RecordVector.RecordVector.Grow` | src/records.c:163-180 | adds one empty chunk, keeps all records in place and names the first new slot |
| `RecordVector.RecordVector.Insert` | src/records.c:397-437 | takes the first free slot and leaves the rest, growing by one chunk exactly when there is none; keys stay unique exactly when the key is new |
| `RecordVector.RecordVector.AddIp` | src/records.c:364-453 | refines the map's hit operation for every string that fits the field; uniqueness survives exactly if the string fits or its cut-off form is not a key yet; a new record goes to the first free slot; other records stay where they are |
| `RecordVector.LongAddressTwice` | src/records.c:417-418 | two hits on a string too long for the field leave two records with the same key |
| `Base.TruncatedMeans` | src/records.c:417-418 | what an address field keeps of a string: all of it up to 45 bytes, else exactly the first 45 |
| `RecordVector.RecordVector.AddRecord` | src/records.c:459-542 | refines insert-or-merge on the map; a new record is stored whole in the first free slot; other records stay where they are |
| `RecordVector.RecordVector.Remove` | src/records.c:545-581 | removes exactly the key, fails exactly if it is missing, leaves every other slot, and leaves the lazily kept high-water mark valid |
| `RecordVector.RecordVector.Get` | src/records.c:643-667 | agrees with the map |
| `RecordVector.RecordVector.Enumerate` | src/records.c:100-130 | calls back once per record in slot order with its current value, stops only where a callback asks for it, and leaves the map with every reply applied |
| `RecordVector.VisitedAt` | src/records.c:115-121 | after a pass each visited record is the callback's reply to its value before the pass |
| `RecordVector.RecordVector.Maintenance` | src/records.c:279-362 | frees exactly the flagged records, one callback each in slot order, leaves survivors unchanged in their slots, and on both the shrink and the bail-out path ends with fill = last used slot + 1 and the least size of whole chunks that holds it |
| `RecordVector.RecordVector.SweepFlagged` | src/records.c:296-308 | the deletion loop: which slots are emptied, in which order callbacks run, which map is left |
| `RecordVector.RecordVector.LastUsed` | src/records.c:313-318 | one past the last used slot, 0 for an empty vector |
| `RecordVector.RecordVector.Shrink` | src/records.c:327-347 | cutting to whole chunks loses nothing |
| `RecordVector.RecordVector.Destroy` | src/records.c:253-273 | hands every record in the table to the callback exactly once |
| `Lifecycle.RunKeepsInv` | src/threads.c:181-210 | every interleaving of hits, remote records, action visits, marks, purges and shutdown keeps the invariant that ties each record's fields to the log |
| `Lifecycle.ActionsAlternate` | src/threads.c:346-355 | for every IP the actions strictly alternate NEW, REMOVE from NEW on; the table holds a processed record exactly when the last was NEW; after shutdown every NEW is matched |
| `Lifecycle.LocalMeansUntouched` | src/records.c:410-415 | a record's origin is "localhost" exactly while no peer's record has reached it since its insertion, and then it was inserted by a hit |
| `Lifecycle.LocalCount` | src/records.c:379-395 | a local record's counter is the number of hits since insertion inside its time interval, as a 32-bit value |
| `Lifecycle.CountIsTally` | src/records.c:477-503 | every record's count, whatever reached it, is the peer's or the first hit's, plus each hit in the window then valid, plus for each later peer's record its count and one if it came in its window, in 32 bits; and that window is the record's |
| `Lifecycle.LocalNewNeedsThreshold` | src/threads.c:186-190 | a local NEW fires only if at least the threshold of hits fell in the interval, even if the counter wraps |
| `Lifecycle.VisitExactly` | src/threads.c:181-210 | by the log alone: a visit calls NEW exactly if the last action was not NEW and the count is at the threshold, marks exactly if it does not call NEW and the IP has not been heard of for the purge time, and changes nothing else |
| `Lifecycle.PurgeSafety` | src/threads.c:192-209 | an action visit marks a local record exactly if it does not fire and every hit of the whole run is older than the purge time |
| `Lifecycle.TouchedIsNotPurged` | src/threads.c:200-208 | whatever its origin, a record that a hit or a peer's record reached here is marked exactly if it does not fire and its purge time has passed since |
| `Lifecycle.RemoteSettings` | src/records.c:487-497 | a record that a peer has overwritten carries the last peer's origin, first sighting, threshold and times, and was last seen when something last reached it here, else when the peer said |
| `Lifecycle.FlagIsMark` | src/threads.c:192-208 | a record's removal flag is set exactly if it was marked since it was inserted or last overwritten by a peer |
| `Lifecycle.OnlyMarkedArePurged` | src/records.c:297-307 | maintenance can free a record exactly if it was marked since it was inserted or last overwritten by a peer |
| `Lifecycle.FreedWhileRunning` | src/records.c:297-307 | while the threads run a record leaves the table only by maintenance and only if it is marked |
| `Lifecycle.ShutdownOnlyRemoves` | src/main.c:274-276 | after the stop no record is inserted or changed and nothing is called for an IP but the one REMOVE that its NEW still owes |
| `Lifecycle.HitsDoNotUnmark` | src/records.c:379-395 | in any run without a peer's record for the IP, a marked record stays marked whatever local hits arrive |
| `Lifecycle.PurgedWhenJustHit` | src/records.c:379-395 | from every reachable state with a marked local record, a hit at any time followed by maintenance frees the record whose last hit was just then |
| `Lifecycle.JustHitPurgeHappens` | src/records.c:297-307 | under every sane configuration such a run exists from the start |
| `Lifecycle.StaleExactlyIfNotHitSince` | src/threads.c:192-209 | after an action visit has marked a local record, all its hits are older than the purge time exactly if no hit came since the mark, whatever else happens |
| `Lifecycle.MergeKeepsThreshold` | src/records.c:477-503 | a merged record is at or above its threshold exactly when the sum of the counts is, without 32-bit overflow |
| `Lifecycle.MergeCanOverflow` | src/records.c:499-503 | two counts in range whose merged record is far below its threshold and does not fire |
| `Lifecycle.DueStaysDue` | src/threads.c:186-189 | a record at its threshold stays due or processed through any run that neither frees it nor overflows its counter |
| `Lifecycle.ReceivedGetsProcessed` | src/network/srv/worker.c:260-265 | if all received records are conforming, a received record is processed by the next action visit, whatever happens in between, unless it is freed or its count overflows first |
| `Daemon.ActionPassRuns` | src/threads.c:219-222 | a pass of the action callback over any keys, with a clock reading per record, is a run of the lifecycle |
| `Daemon.MarkPassRuns` | src/sighandler.c:99-104 | the mark-all pass is a run of the lifecycle |
| `Daemon.PurgeRuns` | src/records.c:296-308 | a maintenance sweep is a run that frees exactly the flagged keys |
| `Daemon.DestroyRuns` | src/records.c:260-267 | tearing the table down is a run that frees every key |
| `Daemon.Daemon.LocalHit` | src/records.c:364-453 | on the vector, a matched string of any length is one lifecycle step on what the address field keeps of it, exactly unless that is a cut key already taken |
| `Daemon.Daemon.RemoteAdd` | src/network/srv/worker.c:245-265 | on the vector, a received record is one lifecycle step |
| `Daemon.Daemon.ActionPass` | src/threads.c:213-222 | on the vector, a round of the action thread is a run that visits every record exactly once and shows each callback the record as it was |
| `Daemon.Daemon.MarkAll` | src/sighandler.c:99-104 | on the vector, mark-all is a run that marks every record |
| `Daemon.Daemon.MaintenancePass` | src/threads.c:246-254 | on the vector, a maintenance round is a run that frees exactly the flagged records |
| `Daemon.Daemon.Shutdown` | src/main.c:274-276 | stopping and destroying is a run that ends with an empty table |
| `Wire.NetworkOrder` | src/network/netshared.c:281-295 | whatever the host's byte order, the bytes copied to the buffer are the big-endian form |
| `Wire.HostOrder` | src/network/netshared.c:297-300 | reading a word and converting it gives the big-endian value on every host |
| `Wire.HtonTwice` | src/network/netshared.c:297-300 | the conversion undoes itself |
| `Wire.Htonll` | src/network/netshared.c:281-295 | the reversal loop turns the little-endian image of a word into its big-endian one |
| `Wire.FourBytes` | src/network/netshared.c:281-300 | the value of four bytes, the most significant first |
| `Wire.EightBytes` | src/network/netshared.c:281-300 | the value of eight bytes, the most significant first |
| `Codec.CommandToBuff` | src/network/netshared.c:91-148 | the buffer ends up as the 144-byte image on every host: at each field's offset the address field, or the number modulo its size with the most significant byte first |
| `Codec.BuffToCommand` | src/network/netshared.c:164-219 | the fields read are those the buffer holds at their offsets, in the range of their C types, on every host |
| `Codec.LayoutDetermines` | src/network/netshared.c:164-219 | a buffer holds at most one command with fields in range |
| `Codec.DecodeEncode` | src/network/netshared.c:91-219 | decoding gives back every command and every in-memory record |
| `Codec.EncodeDecode` | src/network/netshared.c:164-219 | every 144-byte buffer is the image of what it decodes to |
| `Codec.FrameRoundTrip` | src/network/cli/clientqueue.c:309-309 | a host record with C-string addresses survives padding, encoding and decoding |
| `Codec.FrameBytes` | src/network/cli/clientqueue.c:309-309 | the frame of a queue entry: command 0, each address followed by zeros to the end of its field, and the numbers in place |
| `Framing.NetRead` | src/network/netshared.c:221-249 | short reads and interrupts deliver the next bytes of the stream in order, short only at its end; an error only if a call failed |
| `Framing.NetWrite` | src/network/netshared.c:251-279 | short writes and interrupts write all bytes in order; if a call fails, exactly the bytes written before it, and later calls may succeed again |
| `Framing.NextCommand` | src/network/srv/worker.c:194-231 | one whole command is read and judged by its bytes, or none |
| `Framing.Serve` | src/network/srv/worker.c:194-301 | the records added are those of the one-shot reading of the stream, or a prefix of them if the connection fails |
| `Framing.ByCommand` | src/network/srv/worker.c:233-300 | by the number in a command's first four bytes: 0 adds its record, 1 and 2 are passed over, any other ends the connection, whatever follows |
| `Framing.RemoveThenAdd` | src/network/srv/worker.c:280-300 | an ADD behind a REMOVE or INFORMATION is served, and behind an unknown command it is not |
| `Framing.Send` | src/network/cli/clientqueue.c:294-340 | what is written is of each frame in order the part that its own calls let through; a failed write does not stop the loop |
| `Framing.ServedCut` | src/network/srv/worker.c:220-231 | a stream on which no partial frame is made up to a command, cut at any byte, is served as exactly the records whose frames were written whole before the cut |
| `Framing.AlignedIsHarmless` | src/network/cli/clientqueue.c:330-338 | failed writes do no harm if each moved nothing of its frame or nothing is written after it |
| `Framing.Transfer` | src/network/netshared.c:221-279 | for any fragmentation on both sides the receiver adds exactly the records sent; with failures that do no harm, exactly those whose frames were written whole, in order; with a cut, a prefix of those |
| `Framing.SelectionExactly` | src/network/cli/clientqueue.c:324-338 | what is added is an in-order selection of what was sent, for all records, exactly if the bytes written from the first partial frame on do not make up a whole command |
| `Framing.ScriptFor` | src/network/netshared.c:251-279 | every pattern of partly written frames is the effect of some behaviour of the connection |
| `Framing.PartialWriteMisleads` | src/network/cli/clientqueue.c:324-338 | a run of the send loop: one byte of a frame, an error, then a whole frame make the receiver add a record for the empty address, whatever was sent |
| `Relay.RunKeepsInv` | src/network/cli/clientqueue.c:194-340 | every interleaving of batching, half-done flushes and workers keeps ledger and monitor invariants |
| `Relay.Conservation` | src/network/cli/client.c:112-186 | at every point each queue's settled ++ in hand ++ linked ++ still owed entries are the accepted records in order |
| `Relay.SentInOrder` | src/network/cli/clientqueue.c:294-340 | what a peer is sent is an in-order subsequence of what was accepted |
| `Relay.NoLostWakeup` | src/network/cli/clientqueue.c:195-219 | a worker that waits unsignalled has nothing queued, and an append leaves its worker runnable with work to do |
| `Relay.WorkerDrains` | src/network/cli/clientqueue.c:194-343 | from every state the invariant allows, the worker's own steps settle everything queued, in order, with one step an entry and the linked entries taken together |
| `Relay.FlushRun` | src/network/cli/client.c:152-186 | a whole flush gives every queue the whole batch and empties it |
| `Relay.QueueFull` | src/network/cli/client.c:122-135 | taking a record when the batch is full is a flush followed by taking it |
| `ClientQueue.ClientQueue.Append` | src/network/cli/clientqueue.c:481-585 | links copies behind the last entry, each a new entry with a new live record outside the batch, and signals a waiting worker, on an empty and on a non-empty list |
| `ClientQueue.ClientQueue.Link` | src/network/cli/clientqueue.c:498-569 | the list grows by the records in order, in new entries with new records, and stays a proper chain |
| `ClientQueue.ClientQueue.Check` | src/network/cli/clientqueue.c:206-217 | waits on an empty list, otherwise detaches all of it |
| `ClientQueue.ClientQueue.SettleOne` | src/network/cli/clientqueue.c:294-340 | settles and unlinks the first entry in hand and frees its record; every other entry keeps a live record |
| `Client.Client.constructor` | src/network/cli/client.c:69-77 | not started, with an empty batch |
| `Client.Client.Start` | src/network/cli/client.c:79-104 | makes one empty queue per configured agent, at most 256, and opens the client |
| `Client.AppendTo` | src/network/cli/client.c:170-173 | appending to one queue leaves every other queue as it was, and the new records are outside the batch |
| `Client.FanOut` | src/network/cli/client.c:170-178 | every queue gets its own copies of the batch, none of them a record of the batch |
| `Client.FreeBatch` | src/network/cli/client.c:180-183 | freeing the records of the batch leaves every queue in order, with all its records live |
| `Client.Client.Flush` | src/network/cli/client.c:152-186 | does nothing before the start or on an empty batch, otherwise is a whole flush of the relay |
| `Client.Client.Distribute` | src/network/cli/client.c:170-185 | after handing out and freeing the batch every queue has it and no record of the old batch is live |
| `Client.Client.QueueRecord` | src/network/cli/client.c:112-147 | refuses before the start, otherwise is the relay run that accepts the record, after a forced flush exactly when the batch is full |
| `Client.Client.DoAction` | src/threads.c:122-152 | only the NEW of a local record is accepted for relaying, as a run of the relay; nothing else changes |
| `Network.RunKeepsInv` | src/network/srv/worker.c:233-278 | every run of any network keeps every agent sound: lifecycle, relay ledger, provenance, and that each record sent is in flight, read or lost, once |
| `Network.OneHop` | src/threads.c:123-143 | each peer's queue holds or settled exactly one entry per local detection since the client started, in order, and nothing that a peer ever touched |
| `Network.LinkConservation` | src/network/cli/clientqueue.c:309-324 | every record that a worker sent to a peer is in flight, was read there or was lost, exactly once, and what is in flight keeps the order of sending |
| `Network.OneLeaves` | src/network/srv/worker.c:194-231 | a delivery or a loss takes exactly one record off the wire and leaves the others in order |
| `Network.ReceiverAssertion` | src/network/srv/worker.c:245-265 | every record in flight, whichever arrives first, arrives unchanged, satisfies 1 <= threshold <= occurrences, and can be added exactly while the receiver runs and its clock is not past |
| `Network.ArrivalExactly` | src/records.c:459-542 | what a delivery does to the receiver's table: a new IP gets the record as it was sent, of the sender's origin and neither flagged nor processed; a known one takes its settings, stays processed if it was and adds the counts |
| `Network.DueOnArrival` | src/network/srv/worker.c:260-265 | a record in flight fires at its receiver if it is new there, and is due after a merge unless the counts overflow |
| `Network.ProjectedRuns` | src/network/srv/worker.c:245-278 | what a run of the network does to one agent's table is a run of the lifecycle |
| `Network.ProjectedConforms` | src/threads.c:186-189 | every peer's record that reaches a table of the network is at or above its own positive threshold |
| `Network.RelayedGetsProcessed` | src/network/srv/worker.c:260-265 | after any delivery, whatever happens anywhere, the receiver's next visit of the record leaves it processed, unless the record was freed or its count overflowed there in between |
| `Network.AgentActionsAlternate` | src/threads.c:181-210 | relaying disturbs no agent's alternation of NEW and REMOVE |
| `Delivery.DrainOut` | src/network/cli/clientqueue.c:294-340 | a worker can send all it has and all that is linked, behind what is in flight, in order |
| `Delivery.DetectionArrives` | src/threads.c:123-143 | a local detection about to fire can be taken to any peer, whose table then has exactly the record that fired, under the sender's name |
| `Delivery.HitsReachPeer` | src/network/srv/worker.c:245-265 | from every reachable network, a run of a threshold of hits at one agent and its relaying puts the whole record into any peer's table |
| `Agent.Agent.Start` | src/main.c:251-256 | opening the client is the network's start step |
| `Agent.VisitRun` | src/threads.c:181-190 | an action callback, with the flush a full batch forces, is a run of the network that changes this agent only |
| `Agent.Agent.ActionRound` | src/threads.c:213-231 | a round of the action thread on the real vector and client is a run of the network in which this agent alone moves; every record is visited once; afterwards every peer's queue has been given exactly the local records that fired, in order and once each, however many forced flushes it took |
| `RelayStorm.StepWeight` | src/network/srv/worker.c:245-252 | every step but a log hit keeps the weight of a network from rising, every relay step lowers it |
| `RelayStorm.QuietRun` | src/network/cli/client.c:112-186 | in a run without log hits, relay steps plus the final weight never exceed the initial weight |
| `RelayStorm.NoRelayStorm` | src/threads.c:123-143 | from every reachable state of any number of agents in any topology, only finitely many more records are relayed unless a log hit occurs |
| `Cidr.PrefixExact` | src/exclude.c:377-403 | comparing bytes under the mask of a prefix is comparing the first bits |
| `Cidr.LongerPrefix` | src/exclude.c:371-403 | a longer prefix of the same address matches a subset |
| `Cidr.PrefixToIpv6Mask` | src/exclude.c:330-368 | the loop and the partial-byte shift build the mask for every prefix 0 to 128 |
| `Cidr.Ipv6InNet` | src/exclude.c:377-403 | the sixteen-byte loop decides equality under the mask |
| `Cidr.HostMaskBytes` | src/exclude.c:702-703 | the shifted word in network order is the mask for every prefix 1 to 32 |
| `Cidr.Ipv4Exact` | src/exclude.c:371-374 | for prefixes 1 to 32 the word comparison matches exactly the addresses with the same first bits |
| `Cidr.Ipv4ZeroPrefix` | src/exclude.c:702-703 | prefix 0 matches everything exactly if the undefined shift gives 0 |
| `Exclude.EntryExact` | src/exclude.c:476-489 | an entry matches exactly the addresses of its network, and with an undefined mask exactly those that agree on the bits it happens to have |
| `Exclude.AnswersCover` | src/exclude.c:702-703 | that is the right answer if the undefined shift gives 0 |
| `Exclude.MakeEntry` | src/exclude.c:699-715 | the entry built for a parsed line carries its address and the mask of its prefix, or the result of the undefined shift for an IPv4 prefix of 0 |
| `Exclude.ExcludeList.constructor` | src/exclude.c:534-558 | starts empty |
| `Exclude.ExcludeList.Clear` | src/exclude.c:582-624 | forgets every network and goes back to one chunk |
| `Exclude.ExcludeList.FindFree` | src/exclude.c:516-532 | the first free slot is the fill, and there is none exactly when the vector is full |
| `Exclude.ExcludeList.Grow` | src/exclude.c:410-427 | growth loses no network |
| `Exclude.ExcludeList.Add` | src/exclude.c:638-738 | accepts exactly the lines that parse with a prefix that fits the family, also across growth |
| `Exclude.ExcludeList.Find` | src/exclude.c:474-496 | finds the first matching entry of the family, or there is none |
| `Exclude.ExcludeList.IsExcluded` | src/exclude.c:740-761 | yes exactly when some network accepted since the last clear matches, whatever the order and multiplicity of adds; by family and first bits unless an IPv4 prefix of 0 meets a nonzero undefined shift, and then by the compiled mask |
| `LineChunker.Chunker.Take` | src/follow.c:115-140 | one byte completes the pending chunk or joins it |
| `LineChunker.Chunker.ReadToEof` | src/follow.c:87-141 | a call emits and keeps exactly what the one-shot cut of the pending and the new bytes gives |
| `LineChunker.Chunker.ReadAll` | src/follow.c:87-141 | however a stream is divided among calls, the chunks are those of the one-shot cut of the whole |
| `LineChunker.SplitFacts` | src/follow.c:117-139 | every chunk has 1 to 1023 bytes, no newline before its last byte, and ends in a newline or is full; what is left is shorter and has no newline |
| `LineChunker.SplitJoins` | src/follow.c:115-140 | chunks and rest put together are the input |
| `LineChunker.SplitResumes` | src/follow.c:89-89 | cutting goes on after a pending rest as if there had been no break |
| `WorkerSemaphore.Conservation` | src/network/srv/worker.c:132-138 | in every run, free slots plus serving workers are the configured maximum, which lies between 1 and 256 for every configuration |
| `Base.SanitizeMeans` | src/cfg.c:474-503 | an option in range is kept; a threshold, interval or purge time below 1 becomes its default; connections become 256 above 256 and 5 below 1; sanitising twice changes nothing |
| `WorkerSemaphore.StepConserves` | src/network/srv/worker.c:303-308 | entering, being refused and leaving by any exit keep the sum |
| `WorkerSemaphore.ConnectionsAccounted` | src/network/srv/server.c:391-430 | in every run each connection gets a worker, is dropped or is the one in hand, and workers come only from connections |
| `WorkerSemaphore.SlotFreeNoWait` | src/network/srv/server.c:353-357 | with a slot free the first poll ends the wait and a worker is spawned; a second poll is impossible |
| `WorkerSemaphore.WaitIsBounded` | src/network/srv/server.c:353-388 | whatever the workers do, a connection waits for at most ten polls |
| `WorkerSemaphore.WaitInVain` | src/network/srv/server.c:374-386 | with no slot free the polls run out and the server accepts and spawns all the same |
| `WorkerSemaphore.FillsUp` | src/network/srv/server.c:353-430 | states with no slot free come up from every state |
| `WorkerSemaphore.SpawningIsUnbounded` | src/network/srv/server.c:353-430 | with no slot free and none ever freed, any number of further connections still get a worker each |

## Left out

- TLS: connections are modelled as the plain-socket build makes them; calls into OpenSSL are not part of this model.
- Matching: regular expressions, `inet_pton`, `getaddrinfo` and `getnameinfo` are outside; hits, parsed addresses and host names are inputs.
- The action script: `_do_action` is an event in the log and a relay decision; `access()` and `system()` are not modelled.
- Debug assertions that relayed addresses have more than two characters are not modelled.
- Thread cancellation, cleanup handlers and shutdown order; a batch whose connection fails counts as dropped.
- Following the file: `stat`, reopening and sleeping around the line chunker, and its stop flag, which only ends a call early.
- Configuration files: only the sanitised bounds of the options are used.
- The text syntax of exclude lines: entries start from a parsed family, address and prefix; a query with a prefix is not modelled.
- `records_remove` is part of the table but not of the lifecycle, since no daemon code calls it.
- Records are values in the slots of the table; pointers into the table handed out by `records_get` are not modelled.
- IPv4 words are modelled as the four bytes they are in memory, on which a bitwise and acts one by one.
- The action thread holds the vector mutex during a forced flush; in the network model other threads may also run between that flush and the record being accepted, which only adds runs.
