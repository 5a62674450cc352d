# Display-panel tester firmware: a model and its proofs

This project models, in Dafny 4.11, the logic of the firmware of a display-panel tester: the packet transport between
tester and server, its thread pool and message queue, its JSON library, its INI files, and the file synchronisation with
its record cache. It proves what that code is for, for all inputs and all runs. Check it with
`dafny verify dfyconfig.toml`.

Code that changes state is modelled as classes, arrays, linked nodes and loops; each such method is proved against a
function of values, and the theorems are about those functions. Concurrency is modelled as a state machine whose steps
are the critical sections and semaphore operations of the original.

| part | files | the main results |
|---|---|---|
| transport | `Crc`, `CrcPoly`, `Wire`, `WireFormat`, `Rings`, `CmdFifo`, `Reassembly`, `PendingList`, `Receiver`, `Sender`, `Transport`, `Messages`, `Damage` | however the byte stream is cut, every command of one packet arrives once, whole and in order; its size bound is exact; the checksum is a remainder of polynomials, by the generator of IEEE 802.3; it is known exactly when a message of several packets is put together from its own, in a stream with other packets of its code and in a damaged one |
| thread pool | `ThreadPool`, `PoolRuns`, `PoolClosing` | in every interleaving no job and no wake-up is lost, a pool with a worker and room for a job does not deadlock, destroy shuts out every later job and returns only when every accepted one has been run, and it is known exactly when the freed pool is touched |
| message queue | `MsgQueue`, `QueueRuns`, `QueueEnds`, `QueueSteps`, `Rendezvous` | a granted permit always finds a node, messages leave in order, every blocking call gets its own answer |
| JSON | `CStrings`, `JsonText`, `JsonGrammar`, `JsonRoundTrip`, `JsonReparse`, `JsonStrings`, `JsonSpelling`, `JsonTokens`, `JsonMinify`, `JsonComments`, `JsonPrint`, `JsonBuffer`, `JsonParse` | the parser accepts exactly a grammar, parse undoes print, both printers and the minifier agree, comments included, every write stays inside its allocation, and a buffered print fails exactly past its room |
| INI | `Dictionary`, `IniText`, `IniChars`, `IniRoundTrip`, `IniLines`, `IniKeys`, `IniForms`, `Iniparser`, `RwIni` | the slot table is a map, the case of names makes no difference, a file loads exactly when its lines allow, load undoes dump exactly when entries have sections and values read as themselves |
| file sync | `LoopList`, `LocalDb`, `FileSync`, `SyncRuns` | the cache is never stale, a finished sync has every listed file recorded and stored byte for byte, and it is known exactly when the next one is quiet |
| paths | `ParsePath`, `PathLaws` | the in-place rewrite is split, drop, pop, join, trim, and so keeps the laws of paths |

`Wrappers`, `Sums` and `Rings` hold what several modules share. A `char` stands for a byte.

## Where the code does less than its comments or callers expect

Each of these is a lemma, with the exact condition where there is one.

- Removing a delivered command's fragments relinks the list correctly only when they form a prefix and a suffix of it;
  two interleaved messages break it (`Reassembly.StripIsExact`, `Reassembly.InterleavedMessagesDangle`).
- Fragments are told apart by their command code alone (packsocket/packsocket.c:136-164). A single packet of a message's
  own code between its fragments, as every reply of the client has the code of its fragmented one (client.c:561-671), is
  taken for one of them (`Messages.OwnFragmentsIff`, `Messages.MergedMessage`); and once a fragment has been dropped for
  its CRC, fragments of one message are delivered with those of the next (`Damage.OwnPacketsIff`,
  `Damage.MixedMessages`).
- A CRC field of zero switches the check off (`Wire.AlteredPayloadRefused`), and every payload of at most 65531 bytes is
  four bytes away from one (`Wire.UncheckedIsZero`, `Transport.UncheckedIsDelivered`).
- A message of 104857600 bytes or more is cut short by the 16-bit fragment number (`Transport.FragmentationIsIdentity`).
- `threadpool_destroy` wakes callers that sleep in a full queue but does not wait for them before it frees the pool
  (`PoolRuns.FreedPoolTouched`, `PoolRuns.SleepingCallerTouchesFreedPool`).
- `threadpool_init` accepts a pool with no worker or with room for no job, in which callers wait for good
  (`PoolRuns.NoWorkerRunsNothing`, `PoolRuns.NoRoomServesNobody`).
- A message too long for the OS queue costs the queue one place for good (`QueueRuns.LeakIsForGood`).
- A buffered JSON print fails when it has to grow its buffer past 2^30 bytes, the last size `pow2gt` can round up
  (`JsonBuffer.PrintBuffered`, `JsonBuffer.PastLimit`).
- A comment that begins `/*/` ends there for `cJSON_Minify`, whatever closes it (`JsonComments.BlockEndsIff`,
  `JsonComments.SlashEndsIt`).
- The JSON parser reads a minus sign by itself as 0, lets one 0 stand in front of other digits, and takes the end of the
  text for a missing quotation mark (`JsonSpellings.NumberIff`, `JsonGrammar.UnclosedString`); it skips any character up
  to the space as white space, which section 2 of RFC 8259 does not (`JsonGrammar.ParseIsGrammar`).
- An empty object inside another is printed with its closing brace a tab too far left (`JsonTokens.PrintIsLaid`).
- Entries whose section is not in the dictionary are lost by a dump, so `write_sync_config` over a file without a
  `[sync]` section, the empty file first of all, writes nothing that is read back (`RwIni.ReadAfterWrite`,
  `RwIni.EmptyFileForgets`).
- A syntax error in an INI file is forgotten when a section or an entry follows and fatal when none does
  (`IniLines.ErrorForgotten`, `IniLines.ErrorAtEnd`); a last line without a newline is reported as too long
  (`IniLines.NoNewlineAtEnd`); no file with a NUL in it loads (`IniLines.NulNeverLoads`); a section and a key too wide
  together overrun a buffer, and the end of a line that begins with a NUL is looked for in front of one
  (`IniLines.StaysInBounds`).
- A dump does not quote: a value with blanks, quotes or comment characters comes back changed
  (`IniRoundTrip.ReadsItselfIff`), and an empty section line opens the section before it once more
  (`IniKeys.EmptyHead`).
- A section's name of 4096 characters, which `iniparser_set` lets in, overruns a buffer of `iniparser_dump_ini`
  (`Iniparsers.DumpIni`); no loaded file has one (`IniKeys.LoadedSections`).
- A key that is a section's name has a NULL value, which `iniparser_getint` gives to `strtol` (`RwIni.ReadsNullIff`).
- A file's body before its begin, and any of its messages once the sync is over, go through a NULL pointer
  (`FileSyncs.WildIff`).
- The comment of `dictionary_set` says that a NULL value deletes the key (ini/dictionary.c:217-222); the code keeps the
  key, and so does the model. The comment of `iniparser_set` says that a missing entry is an error
  (ini/iniparser.c:433-435); the code adds it.
- A listed file that has dropped out of the full cache is downloaded again at every sync
  (`SyncRuns.DroppedIsFetchedAgain`), and with 1000 files or more none is the last (`SyncRuns.OverfullIsNeverQuiet`);
  with fewer it depends on what the cache began with (`SyncRuns.NextSyncIsQuietIff`).

## Model

| member | source | states |
|---|---|---|
| Crc.Crc32Le | util/util.c:278-287 | the two nested loops compute the checksum of every byte string from every start value |
| Crc.CrcAppend | util/util.c:278-287 | the checksum chains: that of a concatenation is that of the second part, started from that of the first |
| Crc.StepBijective | util/util.c:278-287 | for a fixed byte the step is a bijection on 32-bit states |
| Crc.CrcInjectiveInState | util/util.c:278-287 | two start states that give one text the same checksum are equal |
| Crc.BurstDetected | util/util.c:278-287 | texts of equal length that agree outside four consecutive bytes share a checksum if and only if they are equal |
| Crc.OwnBytesCancel | util/util.c:278-287 | every state is taken to zero by its own four bytes, low byte first |
| CrcPolynomials.CrcIsRemainder | util/util.c:278-287 | the checksum, and it alone, is the remainder of the start value and the text, the bits of each byte lowest first, behind 32 more places, as polynomials over two elements, on division by the generator with the exponents 32, 26, 23, 22, 16, 12, 11, 10, 8, 7, 5, 4, 2, 1 and 0 (section 3.2.9 of IEEE 802.3) |
| CrcPolynomials.PolyIsGenerator | util/util.h:26 | the constant of the loop is that generator without its highest term |
| Wire.PacketDecodes | packsocket/packsocket.c:35-104 | a packet reads back as the fields, payload and CRC that were put into it |
| Wire.PacketCutOff | packsocket/packsocket.c:286-314 | whatever follows a packet in the stream, the reader measures and cuts off exactly the packet |
| Wire.PartialPacketWaits | packsocket/packsocket.c:286-314 | an incomplete packet at the end of the stream is left alone |
| Wire.TryReadExtends | packsocket/packsocket.c:286-314 | bytes that arrive behind a whole packet do not change how it is read |
| Wire.SentIsAccepted | packsocket/packsocket.c:35-104 | every packet the sender writes passes the CRC test, and carries all of the caller's data if and only if its length fits 16 bits |
| Wire.AlteredPayloadRefused | packsocket/packsocket.c:369-405 | a packet whose payload was changed within four consecutive bytes is accepted if and only if its CRC field is zero, the value that switches the test off |
| Wire.UncheckedIsZero | packsocket/packsocket.c:59-66 | every payload of at most 65531 bytes, with the four bytes of its own checksum behind it, is sent with a CRC field of zero |
| Wire.UncheckedIsAccepted | packsocket/packsocket.c:369-374 | such a payload, altered within four consecutive bytes, passes the CRC test |
| WireFormats.PacketBytes | packsocket/packsocket.c:35-104 | the bytes of a packet one by one: 47 47, command, address, number, last number, type, length, data and checksum, each number with its high byte first |
| WireFormats.PacketCrc | packsocket/packsocket.c:59-66 | the CRC field of a packet with data is the remainder of the data behind the start value |
| WireFormats.NoSyncNoPacket | packsocket/packsocket.c:286-314 | bytes that do not begin with 47 47 are never read as a packet, however many there are |
| CmdFifos.CmdFifo.constructor | packsocket/packsocket.c:241-255 | an empty FIFO of the given size |
| CmdFifos.CmdFifo.Write | packsocket/packsocket.c:257-284 | in every wrap case the data is queued behind what waits, with write = (write + len) mod size; data that does not fit is refused and changes nothing |
| CmdFifos.CmdFifo.TryReadLen | packsocket/packsocket.c:286-314 | the length of the packet at the front once it is whole, read across the end of the buffer, and nothing is taken |
| CmdFifos.CmdFifo.Read | packsocket/packsocket.c:316-331 | takes exactly that many bytes off the front, in both wrap cases |
| CmdFifos.RingWriteAround | packsocket/packsocket.c:257-284 | a write that crosses the end of the buffer appends to the ring it stands for |
| Reassembly.StripIsExact | packsocket/packsocket.c:186-228 | removing a command's fragments leaves exactly the other commands' fragments if and only if no matching fragment stands between two that do not match |
| Reassembly.MatchLeft | packsocket/packsocket.c:186-228 | otherwise some fragment of the removed command is left on the list |
| Reassembly.SettleKeepsHealthy | packsocket/packsocket.c:371-432 | after every packet each command with pending fragments lacks at least one; a delivery has lastNo + 1 fragments in arrival order; a refused packet changes nothing; the list is left dangling only by a sandwiched fragment |
| Reassembly.InterleavedMessagesDangle | packsocket/packsocket.c:186-228 | two interleaved messages of several fragments: the first delivery leaves a fragment of the other command behind a freed node |
| Reassembly.Parse | packsocket/packsocket.c:344-436 | the parser stops at a completed command or when no whole packet is left, never having read more than it was given |
| PendingLists.PendingList.Add | packsocket/packsocket.c:114-134 | the fragment is hung at the end of the linked list and no other node changes |
| PendingLists.PendingList.Check | packsocket/packsocket.c:136-164 | true if and only if the command's fragments number its first one's lastNo + 1; the list is not changed |
| PendingLists.PendingList.Collect | packsocket/packsocket.c:409-431 | the payloads of the command's fragments glued in list order |
| PendingLists.PendingList.Destroy | packsocket/packsocket.c:186-228 | the in-place walk frees every node of the command and leaves on the chain what the removal on sequences says, flagging the freed nodes it leaves behind |
| PendingLists.PendingList.Take | packsocket/packsocket.c:369-432 | filing and delivering on the linked list is filing and settling on the sequence of fragments |
| Receivers.Receiver.RecvSocketCmd | packsocket/packsocket.c:333-342 | a chunk is queued whole or dropped whole |
| Receivers.Receiver.ParseSocketCmd | packsocket/packsocket.c:344-436 | one call on the FIFO and the linked list is one Parse of the bytes and fragments they stand for |
| Receivers.Receiver.DrainAll | client.c:1336-1359 | parsing until NULL hands over what draining the stream hands over, in order |
| Receivers.Receiver.Run | client.c:1327-1363 | the receive loop over any chunks is the specification's run over them |
| Senders.SendSocketCmd | packsocket/packsocket.c:35-104 | the bytes written, header, payload and CRC, are the packet of the call, with the length field cut to 16 bits |
| Senders.PiecesCover | client.c:598-625 | the fragments cover the data once, in order and without gaps, an exact multiple of 1600 included, and none is longer than 1600 bytes |
| Senders.RebackMipiCode | client.c:598-625 | the loop sends exactly those fragments, in order |
| WireFormats.PieceIs | client.c:598-625 | the type, command, numbers and place of each fragment, and how many there are: none of an empty reply, an empty last one of a multiple of 1600 bytes |
| Transport.DrainMore | packsocket/packsocket.c:344-436 | draining what has come and then the rest is draining all of it at once, for any bytes |
| Transport.DrainStream | packsocket/packsocket.c:344-436 | draining the bytes of sent packets feeds their fragments to the list one after the other |
| Transport.LeftoverIsShort | client.c:1327-1363 | however much of a stream of packets of at most 20481 bytes has come, a drain leaves less than one packet |
| Transport.ChunkingIsIrrelevant | client.c:1327-1363 | for every split of the stream into chunks of at most 20480 bytes the receiver hands over what feeding the fragments in order hands over, and leaves no byte behind |
| Transport.SinglesArrive | client.c:1327-1363 | single-fragment commands of at most 20461 bytes arrive equal, in order, none lost, doubled or merged |
| Transport.Session | packsocket/packsocket.c:333-436 | the same through the receiver's own FIFO, list and loops |
| Transport.BoundIsTight | packsocket/packsocket.c:257-284 | whenever the first payload of a stream is longer than that, a first chunk of one byte and two of 20480 lose bytes of its packet |
| Transport.LargerIsLost | packsocket/packsocket.c:257-284 | for every payload from 20462 to 40921 bytes there is a stream of two commands and a way to cut it of which nothing arrives |
| Messages.StreamArrives | packsocket/packsocket.c:371-432 | among single packets of other codes, one code's packets are put together in the order they were sent, as many at a time as the first of each group says; the others arrive in order; what is left of an unfinished group stays pending |
| Messages.OwnFragmentsIff | packsocket/packsocket.c:136-164 | a message of several packets among single packets of its own code is put together from its own fragments, with nothing left pending, if and only if no other send of the code stands between its first and its last fragment |
| Messages.MessageInStream | packsocket/packsocket.c:333-436 | the same of a stream with single packets of other codes anywhere, through bytes and chunks |
| Messages.MergedMessage | client.c:561-671 | a single packet of the message's own code between its two fragments completes the message with the wrong bytes and leaves the second fragment pending |
| Messages.InterleavedMessageArrives | packsocket/packsocket.c:371-432 | a message whose fragments have no other packet of their code between them, with single packets of that code before and behind and of other codes anywhere, arrives once and whole; the others arrive in order; nothing stays pending |
| Messages.MessagesArrive | packsocket/packsocket.c:371-432 | any number of such stretches one after the other: each gives its message once and whole and its other commands in order |
| Transport.FragmentationIsIdentity | client.c:598-625 | fragmenting and reassembling is the identity if and only if the data is shorter than 104857600 bytes, where the 16-bit last number wraps |
| Transport.FragmentsArrive | client.c:598-625 | fragments, bytes, chunks and reassembly together give back one command with the original bytes |
| Transport.AlteredNeverFiled | packsocket/packsocket.c:369-405 | a packet altered within four consecutive bytes is taken off the stream and neither filed nor delivered |
| Transport.UncheckedIsDelivered | packsocket/packsocket.c:369-432 | a command that goes unchecked and is altered is delivered as what it has become |
| Damage.DamagedAreMissing | packsocket/packsocket.c:369-405 | of a stream with any number of damaged packets, cut into chunks anyhow, the receiver hands over what it hands over when only the undamaged ones are sent |
| Damage.DamagedSinglesAreMissing | packsocket/packsocket.c:369-405 | of single commands exactly the undamaged ones arrive, in order |
| Damage.OwnPacketsIff | packsocket/packsocket.c:136-164 | of messages of one code with n packets each, a message is delivered from its own packets if and only if none of them is damaged and the number of damaged packets before it is a multiple of n |
| Damage.DamagedMessages | packsocket/packsocket.c:333-436 | the same through bytes and chunks: the deliveries are the undamaged packets in groups of n |
| Damage.MixedMessages | packsocket/packsocket.c:136-164 | with one packet of a message of two lost, its other packet is delivered together with the first packet of the next message |
| ThreadPools.JobQueue.AddJob | threadpool/threadpool.c:60-97 | one pass of add_job on the linked queue is one Add on its contents, with the same signal |
| ThreadPools.JobQueue.TakeJob | threadpool/threadpool.c:100-139 | one pass of a worker is one Take: oldest job first, with the boundary signals |
| ThreadPools.JobQueue.CloseQueue | threadpool/threadpool.c:141-160 | the first half of destroy: refused if closing already, else closed to new jobs and, once empty, to all |
| ThreadPools.JobQueue.CloseWhenDrained | threadpool/threadpool.c:151-160 | the wait of destroy ends only with the queue empty |
| PoolRuns.StepKeepsInv | threadpool/threadpool.c:60-181 | every step of every thread keeps the accounting, the wake-up, the flag and the phase invariants |
| PoolRuns.NoJobIsLost | threadpool/threadpool.c:60-181 | in every run jobs are taken in the order they were accepted, each once; the pool is closed only with the queue closed and empty; once destroy has joined its workers the executed jobs are exactly the accepted ones |
| PoolRuns.NoWakeupIsLost | threadpool/threadpool.c:67-160 | in every run an un-notified sleeper on not-empty means an empty queue, on not-full a full one, and a draining destroyer a non-empty one |
| PoolRuns.NoDeadlock | threadpool/threadpool.c:60-181 | with at least one worker and room for at least one job, the pool comes to rest only with the queue empty, all accepted jobs run, and every call of add_job and destroy answered |
| PoolRuns.Progress | threadpool/threadpool.c:60-181 | every step but a spurious wake-up lowers a measure |
| PoolRuns.RunsEnd | threadpool/threadpool.c:60-181 | a run without spurious wake-ups has a bounded number of steps |
| PoolRuns.EveryAcceptedJobIsRun | threadpool/threadpool.c:60-181 | with at least one worker and room for at least one job, every run carried to its end has run every accepted job exactly once |
| PoolClosings.ClosedToNewJobs | threadpool/threadpool.c:67-77 | in every run, once some destroy is past its first test no job is accepted any more: every caller that makes a pass from then on is refused, none falls asleep, and one that was asleep can only be woken |
| PoolClosings.OpenUntilDestroyed | threadpool/threadpool.c:73-77 | in every run, as long as no destroy has made its first test no caller is refused |
| PoolRuns.NoRoomServesNobody | threadpool/threadpool.c:67-71 | with room for no job, which threadpool_init accepts, no call of add_job ever returns in any run without a destroy |
| PoolRuns.NoWorkerRunsNothing | threadpool/threadpool.c:100-139 | with no worker, which it accepts too, no job is ever run, and no destroy gets past the wait for an empty queue once a job has been accepted |
| PoolRuns.FreedPoolTouched | threadpool/threadpool.c:141-181 | a run carried to its end has touched the pool after destroy freed it if and only if, when the workers were joined, some call of add_job had not returned or some other call of destroy had not begun; no run touches it otherwise |
| PoolRuns.SleepingCallerTouchesFreedPool | threadpool/threadpool.c:67-71 | a run in which a caller asleep in a full queue before destroy begins wakes up on the freed pool |
| MsgQueues.NodeList.AddTail | pgos/MsOS_queue.c:42-81 | the node is hung at the tail through prev and next; the head's prev goes on pointing at the last node |
| MsgQueues.NodeList.RemoveHead | pgos/MsOS_queue.c:83-104 | takes the head, or nothing from an empty list, and keeps the links of the rest |
| MsgQueues.MsgQueue.constructor | pgos/MsOS_queue.c:141-170 | all nodes free, none used |
| MsgQueues.MsgQueue.Claim | pgos/MsOS_queue.c:173-190 | takes a free node into the caller's hands and touches no message |
| MsgQueues.MsgQueue.Send | pgos/MsOS_queue.c:209-239 | a message is queued last, whole, or refused if it is too long, its node going back |
| MsgQueues.MsgQueue.Recv | pgos/MsOS_queue.c:243-299 | the oldest message, cut to the receiver's size, is removed and its node freed |
| QueueRuns.StepKeepsInv | pgos/MsOS_queue.c:173-299 | every semaphore operation, locked section and copy of any process keeps all invariants of the queue |
| QueueRuns.EveryPermitFindsANode | pgos/MsOS_queue.c:173-270 | in every run each node is in exactly one of the free list, the used list or one process's hands, and a removal after a granted permit never finds an empty list |
| QueueRuns.PermitFindsNode | pgos/MsOS_queue.c:173-258 | permits, permits in flight and lost permits account for both list lengths, so a permit means a node |
| QueueRuns.DeliveredInOrder | pgos/MsOS_queue.c:209-299 | messages are removed in the order they were linked; the k-th is one sender's data and one receiver's, cut to that receiver's size |
| QueueRuns.NothingSentIsLost | pgos/MsOS_queue.c:192-207 | a linked message is either removed or still on the used list, unchanged |
| QueueRuns.AtRest | pgos/MsOS_queue.c:173-299 | when no call can move, the permits equal the list lengths less one for each message that was too long |
| QueueRuns.NobodyWaitsInVain | pgos/MsOS_queue.c:173-299 | a sender and a receiver are both left waiting only once over-long messages have used up every permit |
| QueueRuns.LeakIsForGood | pgos/MsOS_queue.c:222-229 | each over-long message costs the queue one place for good; after as many as there are nodes no send is granted a permit again |
| QueueEnds.RunsEnd | pgos/MsOS_queue.c:209-299 | a run has at most five steps a call |
| QueueEnds.EveryRunComesToRest | pgos/MsOS_queue.c:209-299 | every run can be carried on, within that bound, to a point where no call can move, and the accounts at rest hold there |
| QueueSteps.TakeFreeNode | pgos/MsOS_queue.c:173-190 | the locked section on the linked lists is the step that takes a free node |
| QueueSteps.FillNode | pgos/MsOS_queue.c:216-221 | the copy into the node in hand is the step that fills it |
| QueueSteps.GiveUpNode | pgos/MsOS_queue.c:222-229 | the node of a message that is too long goes back as the step says |
| QueueSteps.LinkNode | pgos/MsOS_queue.c:192-207 | the locked section is the step that links a message |
| QueueSteps.RemoveNode | pgos/MsOS_queue.c:243-258 | the locked section is the step that removes the oldest message |
| QueueSteps.FreeNode | pgos/MsOS_queue.c:260-277 | the locked section is the step that frees a node |
| Rendezvous.StepKeepsInv | pgos/MsOS_queue.c:343-381 | every step of callers and apartment thread keeps order, ownership and the state of each caller's result and semaphore |
| Rendezvous.CallsGetTheirOwnAnswer | pgos/MsOS_queue.c:343-364 | every blocking call that returns gives back the handler's result for its own message, and no two calls share a message; no result or semaphore is touched after its call is over |
| Rendezvous.HandledInOrder | pgos/MsOS_control.c:4-26 | messages are handled in the order they were linked, each at most once |
| Rendezvous.CallerIsThere | pgos/MsOS_control.c:17-24 | while the thread has a result to write or a semaphore to release, their caller is still waiting |
| Rendezvous.EveryCallReturns | pgos/MsOS_queue.c:343-381 | when nothing can move every call has returned and every message has been handled |
| Rendezvous.RunsEnd | pgos/MsOS_control.c:4-26 | a run has at most six steps a call |
| JsonRoundTrip.RoundTrip | json/cJSON.c:325-374 | parsing the formatted or unformatted print of any item of null, booleans, 32-bit integers, NUL-free strings, arrays and objects gives the same item |
| JsonRoundTrip.ValueRoundTrip | json/cJSON.c:362-552 | the same for a value inside a text: the parser stops exactly behind it |
| JsonRoundTrip.NumberRoundTrip | json/cJSON.c:96-117 | a printed 32-bit integer reads back, whatever follows that does not continue a number |
| JsonRoundTrip.StringRoundTrip | json/cJSON.c:194-251 | a printed string, every escape included, reads back |
| JsonRoundTrip.PrintsDiffer | json/cJSON.c:347-348 | no two items have the same text |
| JsonReparse.ValueIsStorable | json/cJSON.c:362-374 | whatever the parser accepts, no string of it holds a NUL |
| JsonReparse.ReparseIsStable | json/cJSON.c:325-358 | parsing any accepted text, printing the result and parsing that gives the same result |
| JsonReparse.UnclosedArrayFails | json/cJSON.c:411-436 | items followed by neither a comma nor the closing bracket are refused |
| JsonGrammar.ParserIsGrammar | json/cJSON.c:362-552 | the parser accepts exactly the texts of a grammar of values, spelled out without the parser, each as the item it is a text of, and stops exactly behind it |
| JsonGrammar.ParseIsGrammar | json/cJSON.c:325-345 | a whole text is accepted if and only if it is white space, a text of an item, and anything behind that |
| JsonSpellings.NumberIff | json/cJSON.c:96-117 | a number is read exactly where an optional minus sign, an optional 0 and digits that do not begin with 0 stand, one of the three being enough, with nothing behind that would go on with it |
| JsonSpellings.StringIff | json/cJSON.c:194-251 | a string is read exactly where a row of characters, letter escapes and single or paired \u escapes stands between its quotation marks, as the bytes each of them means |
| JsonGrammar.UnclosedString | json/cJSON.c:194-251 | the end of the text ends a string like a quotation mark |
| JsonTokens.PrintIsTokens | json/cJSON.c:377-663 | the unformatted print is the tokens of the item and nothing between them |
| JsonTokens.PrintIsLaid | json/cJSON.c:439-663 | the formatted print is the same tokens with the gaps of their kind and depth between them: a space behind an item's comma, a tab behind a colon, a line and its tabs in an object |
| JsonStrings.Utf8RoundTrip | json/cJSON.c:231-239 | the bytes written for a code point are its UTF-8 form (section 3 of RFC 3629) |
| JsonStrings.Hex4Spells | json/cJSON.c:179-191 | four hex digits in any mix of capital and small letters are read as the number they spell |
| JsonStrings.Hex4OfOthers | json/cJSON.c:179-191 | with any other character among the four the number is 0 |
| JsonStrings.SurrogatePair | json/cJSON.c:219-229 | a surrogate pair in the text, spelled in any mix of cases, becomes the UTF-8 bytes of its code point |
| JsonStrings.BasicPlane | json/cJSON.c:219-221 | so does a single escape outside the surrogates and other than NUL |
| JsonStrings.NothingLeft | json/cJSON.c:219-221 | an escape for NUL or for the second half of a pair leaves nothing |
| JsonStrings.LoneHigh | json/cJSON.c:223-225 | nor does one for a first half without an escape behind it |
| JsonStrings.HighWithoutLow | json/cJSON.c:226-227 | nor does one for a first half with an escape behind it that is no second half, and that escape goes with it |
| JsonStrings.LetterMeans | json/cJSON.c:211-241 | what each letter behind a backslash stands for |
| JsonStrings.EscapeIs | json/cJSON.c:290-304 | what is printed for each character that a string cannot hold as it is |
| JsonStrings.PlainIsKept | json/cJSON.c:259-268 | all other characters are printed as they are |
| JsonStrings.StringFits | json/cJSON.c:199-247 | the two loops of parse_string stop at the same place and the second writes no more than the first counted, when every escape is whole, its four characters hex digits or not |
| JsonMinify.MinifyInPlace | json/cJSON.c:740-755 | the in-place loop writes the minified text and its terminator, never past where it reads, and nothing behind the old terminator |
| JsonMinify.MinifyPrinted | json/cJSON.c:740-755 | minifying the formatted print gives the unformatted print, and minifying that changes nothing |
| JsonComments.BlockVanishes | json/cJSON.c:750 | a comment between /* and */ that does not begin with a slash vanishes, whatever follows it |
| JsonComments.BlockEndsIff | json/cJSON.c:750 | it is skipped up to its end if and only if it does not begin with a slash |
| JsonComments.SlashEndsIt | json/cJSON.c:750 | of one that does no more than its first three characters vanish |
| JsonComments.LineVanishes | json/cJSON.c:749 | a comment behind // vanishes with its newline |
| JsonComments.LastLineVanishes | json/cJSON.c:749 | and so does one at the end of the text |
| JsonComments.CommentsVanish | json/cJSON.c:740-755 | printed text with any such comments and blanks in front of, between and behind its tokens minifies to the unformatted print |
| JsonPrint.PrintNumber | json/cJSON.c:149-177 | an integer fits the 2 or 21 bytes allocated for it |
| JsonPrint.PrintStringPtr | json/cJSON.c:254-309 | the escaped text fits the length computed for it, in both branches |
| JsonPrint.PrintValue | json/cJSON.c:377-408 | the unbuffered printers return the specified text, and every write of every one stays inside its allocation |
| JsonPrint.PrintArray | json/cJSON.c:439-516 | an array's text and terminator fit the length added up from its entries |
| JsonPrint.PrintObject | json/cJSON.c:555-663 | an object's text and terminator fit the length added up from its names, entries and depth |
| JsonBuffer.Pow2gtRoundsUp | json/cJSON.c:119 | the shifts and ors round up to the next power of two |
| JsonBuffer.PastLimit | json/cJSON.c:119 | past 2^30 the result is 2^31, which is not an int |
| JsonBuffer.PrintBuffer.Ensure | json/cJSON.c:123-138 | room for the bytes asked for exactly when they fit the buffer as it is or 2^30 bytes, and then what was written is kept across the reallocation |
| JsonBuffer.PrintBuffer.Update | json/cJSON.c:140-146 | offset moves on to the end of the text just printed |
| JsonBuffer.PrintBuffer.PrintValue | json/cJSON.c:377-393 | the buffered printers append the specified text behind what the buffer holds, exactly when everything they ask for fits |
| JsonBuffer.PrintBuffered | json/cJSON.c:350-358 | from any positive initial size, at both formats and across every regrowth, the buffered print is the unbuffered one if and only if its largest request is within the initial size or 2^30 bytes, and else fails |
| JsonBuffer.PeakBounds | json/cJSON.c:377-663 | the largest request is the text and its terminator at least, and at most twenty bytes more than the text |
| JsonBuffer.TextThatFits | json/cJSON.c:350-358 | a text twenty bytes short of that room is always printed, one that fills it never |
| JsonParse.ParseString | json/cJSON.c:194-251 | the two loops of parse_string compute the specified string, inside the array the first one sized |
| JsonParse.ParseNumber | json/cJSON.c:96-117 | the number loop computes the specified value and end |
| JsonParse.ParseArray | json/cJSON.c:411-436 | the loop over items builds the chain the specification parses |
| JsonParse.ParseObject | json/cJSON.c:519-552 | the loop over members builds the chain the specification parses |
| JsonParse.Parse | json/cJSON.c:325-345 | the parser's methods together compute the specified parse |
| Dictionaries.DictionaryHash | ini/dictionary.c:94-110 | the hash loop computes the hash of the key |
| Dictionaries.HashOfKeys | ini/dictionary.c:94-110 | the hash of three keys, worked out |
| Dictionaries.Pigeonhole | ini/dictionary.c:255-275 | fewer keys than slots if and only if there is a hole |
| Dictionaries.InsertOk | ini/dictionary.c:276-281 | filling a hole with a new key keeps keys unique, hashes right and the count exact, and is a map update |
| Dictionaries.RemoveOk | ini/dictionary.c:321-329 | emptying a slot is removing the key from the map |
| Dictionaries.DoubleOk | ini/dictionary.c:255-267 | doubling the arrays changes no entry |
| Dictionaries.Dictionary.constructor | ini/dictionary.c:123-138 | an empty map, in at least 128 slots |
| Dictionaries.Dictionary.Get | ini/dictionary.c:181-199 | the value of the key, NULL included, or the default if there is no such key: the hash filter hides nothing |
| Dictionaries.Dictionary.Set | ini/dictionary.c:227-282 | the map updated at the key; a new key always finds a hole after the growth test |
| Dictionaries.Dictionary.Grow | ini/dictionary.c:255-267 | twice the slots and the same map |
| Dictionaries.Dictionary.Unset | ini/dictionary.c:295-330 | the map without the key |
| Iniparsers.StrStrip | ini/iniparser.c:81-99 | the string without blanks at either end, or an overrun exactly when what follows its leading blanks is longer than 4096 |
| Iniparsers.StrLwc | ini/iniparser.c:51-65 | the first 4096 characters in lower case |
| IniChars.LowerIs | ini/iniparser.c:51-65 | the k-th capital becomes the k-th small letter, every other character is kept, and no capital is left |
| IniChars.StripIs | ini/iniparser.c:81-99 | stripping takes the six blank characters off both ends, as far as they go, and nothing else |
| IniChars.CaseOfNamesIsIrrelevant | ini/iniparser.c:488-508 | two files that differ only in the case of the names of their sections and entries load to the same mapping, or both to none |
| Iniparsers.GetNsec | ini/iniparser.c:119-134 | the number of keys without a colon |
| Iniparsers.GetSecName | ini/iniparser.c:150-170 | the n-th such key in slot order, or NULL, for a negative n as well |
| Iniparsers.DumpIni | ini/iniparser.c:213-257 | the nested loops write the specified text for the dictionary's slots, or overrun keym exactly when some section's name is 4096 characters or longer |
| Iniparsers.LoadIni | ini/iniparser.c:542-662 | the loop over lines builds the specified mapping, returns no dictionary or leaves its buffers, each exactly when the specification says so |
| IniRoundTrip.SectionLineParses | ini/iniparser.c:488-493 | a dumped section line is read as that section |
| IniRoundTrip.EntryLineParses | ini/iniparser.c:494-508 | a dumped entry line, padded or not, whatever its value, is read as its name and the value as it reads behind an equals sign |
| IniRoundTrip.ReadsItselfIff | ini/iniparser.c:494-520 | a value that is written comes back as it is if and only if it has no blanks around it, no comment character in it, and no quotes about it |
| IniRoundTrip.RoundTrip | ini/iniparser.c:213-257 | loading a dump none of whose lines is joined to the next, too long or taken for a section's gives the sections without a value and the entries of present sections each with its value as it reads, a NULL value having become empty; without any section every key comes back with a colon in front |
| IniRoundTrip.RoundTripIsExact | ini/iniparser.c:542-662 | loading such a dump gives the same mapping if and only if every entry has its section, values are where they belong, and every one of them reads as itself |
| IniLines.QuotedValue | ini/iniparser.c:494-508 | quotes of either kind protect comment characters |
| IniLines.CommentedValue | ini/iniparser.c:496-500 | an unquoted value ends at the first ; or # |
| IniLines.EmptyValue | ini/iniparser.c:509-520 | a key with nothing, or only a comment, behind its equals sign has an empty value |
| IniLines.ErrorLine | ini/iniparser.c:521-524 | a line that is no comment and no section is an error if and only if it has no equals sign or nothing before it |
| IniForms.LineKinds | ini/iniparser.c:480-524 | which lines are blank, comments, sections and errors, by their first and last characters |
| IniForms.SectionName | ini/iniparser.c:488-493 | a section's name ends at the first closing bracket, and is stripped and put in lower case |
| IniForms.QuotedForms | ini/iniparser.c:494-495 | a quoted value ends at the next quotation mark of its kind, or with the line |
| IniForms.EmptyQuotes | ini/iniparser.c:501-508 | two quotation marks of one kind, with nothing or a comment behind them, are an empty value |
| IniForms.LineLimit | ini/iniparser.c:577-593 | a line of up to 4094 characters is read, a longer one costs the whole file |
| IniForms.WideForms | ini/iniparser.c:625-628 | a section and a key of more than 4095 characters together are too wide for tmp, and a section's name of more for keym |
| IniForms.PaddedName | ini/iniparser.c:246-251 | a dumped name is filled up to thirty characters |
| IniForms.DumpForms | ini/iniparser.c:213-257 | the text of a dump of a section, of an entry in it, and of an entry without any section, with a value or NULL |
| IniLines.LoadIsLines | ini/iniparser.c:573-657 | the load with its bounded buffer is the fold over the logical lines of the file, cut at newlines, joined at backslashes, and ended by a line with a NUL in it |
| IniLines.LoadsIff | ini/iniparser.c:542-662 | a file loads if and only if every line ends within the buffer and has no NUL in it, no entry is too wide for tmp, and the last line that is neither blank nor a comment is no error |
| IniLines.StaysInBounds | ini/iniparser.c:585-628 | the load leaves its buffers if and only if some entry and the section it stands in are longer together than tmp, or it comes to a line that begins with a NUL |
| IniLines.WideEntryOverruns | ini/iniparser.c:625-628 | a section and an entry that each fit a line but not tmp together are such a file |
| IniLines.ErrorForgotten | ini/iniparser.c:615-640 | a file with a line in error loads like the file without it when a section or an entry follows anywhere behind |
| IniLines.ErrorAtEnd | ini/iniparser.c:630-657 | an error with nothing but blank lines and comments behind it costs the whole file |
| IniLines.NoNewlineAtEnd | ini/iniparser.c:585-593 | no file without a newline at its end loads |
| IniLines.NulNeverLoads | ini/iniparser.c:577-593 | no file with a NUL in it loads |
| IniLines.ContinuedLine | ini/iniparser.c:603-613 | a backslash at the end of a line joins it to the next |
| IniLines.NullIsHeader | ini/iniparser.c:615-628 | a key is left without a value if and only if the last line that sets it is a section line |
| IniKeys.LoadedSections | ini/iniparser.c:488-493 | whatever file is loaded, its sections have no value and names that fit the buffer of a dump |
| IniKeys.LoadedKeys | ini/iniparser.c:488-508 | a file whose section lines have no colon in their names loads only keys that a line can have |
| IniKeys.LoadDumpLoad | ini/iniparser.c:213-257 | such a file, loaded, dumped from any arrangement of its slots and loaded again, gives what a dump keeps, as long as each dumped line can be read by itself |
| IniKeys.EmptyHead | ini/iniparser.c:488-493 | an empty section line opens the section before it once more |
| RwIni.ReadSyncConfig | rwini.c:5-24 | the two integers of the loaded file, or zeros, or no defined result |
| RwIni.ReadsNullIff | rwini.c:5-24 | there is none if and only if the load leaves its buffers, or the file loads and the last of its lines that sets one of the two keys is a section line: strtol is then given NULL |
| RwIni.SectionReadsNull | ini/iniparser.c:488-493 | a section line with the name of either key is such a file |
| RwIni.WriteSyncConfig | rwini.c:26-66 | the file is a dump of the loaded dictionary with the two entries set, or the fresh file |
| RwIni.ReadAfterFreshWrite | rwini.c:5-66 | over a file that does not load, reading after writing gives the two integers back |
| RwIni.ReadAfterWrite | rwini.c:5-66 | over one that loads, reading after writing gives the two integers back if and only if the file had a sync section or both are zero, and zeros otherwise, as long as each dumped line can be read by itself |
| RwIni.EmptyFileForgets | rwini.c:26-66 | over the empty file, which loads, nothing that is written is read back |
| RwIni.StrToLOfSigned | ini/iniparser.c:314-321 | reading back a printed integer with base detection gives that integer |
| IniForms.HexNumber | ini/iniparser.c:314-321 | behind 0x or 0X hex digits of either case, at least one, are that number in base 16 |
| IniForms.OctalNumber | ini/iniparser.c:314-321 | behind another 0 octal digits are that number in base 8 |
| IniForms.DecimalNumber | ini/iniparser.c:314-321 | else decimal digits are that number in base 10 |
| IniForms.SignsAndBlanks | ini/iniparser.c:314-321 | blanks in front are passed over, a minus sign negates and a plus sign does not |
| LoopLists.LoopList.PushToTail | loop/loop.c:38-51 | appends, dropping the first item of a full list |
| LoopLists.LoopList.PushToHead | loop/loop.c:54-69 | prepends, dropping the last item of a full list |
| LoopLists.LoopList.PopFromHead | loop/loop.c:71-82 | takes the first item, or nothing |
| LoopLists.LoopList.PopFromTail | loop/loop.c:84-95 | takes the last item, or nothing |
| LoopLists.LoopList.Remove | loop/loop.c:106-131 | the shifting loop removes the first equal item and keeps the others in order, round the end of the array |
| LoopLists.LoopList.Search | loop/loop.c:133-150 | the first item that passes the test |
| LoopLists.LoopList.Clear | loop/loop.c:163-172 | empties the list and hands every item to the delete function in order |
| LocalDbs.HitIsTrue | client.c:141-170 | a lookup hit is never stale while list and table agree |
| LocalDbs.StoreKeepsCoherent | clipg.c:123-133 | storing a file keeps list and table in agreement, records it, and touches no other row |
| LocalDbs.AddIsCoherentIff | pgDB/pgLocalDB.c:116-168 | localDBAdd keeps them in agreement if and only if the name is not in the list or is there with the same values |
| LocalDbs.UpdateIsCoherentIff | pgDB/pgLocalDB.c:170-186 | so does localDBUpdate |
| LocalDbs.StoreIsCompleteIff | pgDB/pgLocalDB.c:163-164 | the list goes on holding the whole table if and only if it has room for a new name |
| LocalDbs.DroppedStaysOut | pgDB/pgLocalDB.c:133-142 | storing any file keeps a file that has dropped out of the list out of it |
| LocalDbs.ReadBackAgrees | pgDB/pgLocalDB.c:65-111 | reading the table back makes the list agree with it: the list holds the last rows it has room for, and the whole table if and only if there is room |
| LocalDbs.LocalDb.constructor | pgDB/pgLocalDB.c:33-114 | the list and table that reading these rows gives |
| LocalDbs.LocalDb.GetRec | pgDB/pgLocalDB.c:234-245 | the record of this name in the list, or NULL |
| LocalDbs.LocalDb.Add | pgDB/pgLocalDB.c:116-168 | table and list change as the specification says, overflow included |
| LocalDbs.LocalDb.Update | pgDB/pgLocalDB.c:170-186 | only the table's row changes, if there is one |
| LocalDbs.LocalDb.DelAll | pgDB/pgLocalDB.c:213-232 | both are empty |
| LocalDbs.LocalDb.FindFile | client.c:141-170 | true if and only if the list has the name with this time and size |
| LocalDbs.LocalDb.Store | clipg.c:123-133 | the record is changed in place and the row updated, or the file is added |
| FileSyncs.TakeKeepsInv | clirecvcmd5srv.c:1270-1331 | every message that finds what it needs keeps: files dealt with are recorded, files fetched are on disk with the listed size, and all else is as it was |
| FileSyncs.WildIff | clirecvcmd5srv.c:1273-1295 | a run uses a NULL pointer if and only if some message of it comes when no file is to be received, or is a body to be copied before the begin of its file |
| FileSyncs.StrayMessages | clirecvcmd5srv.c:1273-1295 | both kinds of message do so whenever they come |
| FileSyncs.SyncIsCorrect | clirecvcmd5srv.c:1200-1332 | whatever messages come, as long as no NULL pointer is used, when the end is reported every listed file is in the table with the listed size and time, fetched files are on disk with the listed size, skipped ones were recorded before, and nothing else has changed |
| FileSyncs.TransferStores | clirecvcmd5srv.c:1275-1324 | however a file is cut into bodies, exactly its bytes are stored |
| FileSyncs.SyncCompletes | client.c:172-211 | with a server that sends what it is asked for every sync ends, asks for each file at most once, and leaves each on disk byte for byte |
| FileSyncs.SessionEnds | clipg.c:77-160 | the same from any state of a sync; the files still to come are the measure |
| SyncRuns.AcceptedBodiesAreStored | clirecvcmd5srv.c:1270-1331 | after any messages each file that came whole holds exactly the bodies accepted for it, in order, with the listed size, and nothing else on disk has changed |
| SyncRuns.StartIsQuietIff | client.c:172-211 | a sync ends at once, asking for nothing, if and only if every listed file is current |
| SyncRuns.NextSyncIsQuietIff | client.c:172-211 | after a sync that ended, whatever its messages, the next with the same list asks for nothing if and only if every listed name is among the last 999 of the names the list in memory began with and, behind them, the listed names that were new to the table |
| SyncRuns.SecondSyncIsQuiet | client.c:172-211 | so it is when the list in memory held the whole table and the names in table and list have room in it together |
| SyncRuns.OverfullIsNeverQuiet | client.c:172-211 | with a list of 1000 files or more every next sync asks for files again |
| SyncRuns.DroppedIsFetchedAgain | client.c:172-211 | a listed file that has dropped out of the list in memory is fetched in every sync that ends, and is still out after it |
| FileSyncs.FileSet.constructor | clirecvcmd5srv.c:1216-1240 | a file set about to begin |
| FileSyncs.FileSet.GetFileFromSet | client.c:172-211 | the loop skips the files that are current and asks for the first that is not, or ends the sync |
| FileSyncs.FileSet.SyncFile | clipg.c:77-160 | the file is written, recorded and counted, and the next is asked for |
| FileSyncs.FileSet.SendFile | clirecvcmd5srv.c:1270-1331 | begin, body and end change buffer, count, disk and database as the specification says, and a message that finds no file or buffer marks the run |
| ParsePaths.ParsePath | util/util.c:66-101 | the in-place scan leaves the canonical path and its terminator; the write index never passes the read index and nothing behind the path is touched |
| ParsePaths.Scan | util/util.c:76-91 | what the scan writes over its own input is the resolved parts joined, up to a slash |
| ParsePaths.CanonicalIsProper | util/util.c:66-101 | the canonical path has no empty part, no .., no slash at either end and no dot or space at its end |
| ParsePaths.Idempotent | util/util.c:66-101 | parsing a path twice changes nothing more |
| PathLaws.BackslashIsSlash | util/util.c:71-74 | a backslash is a slash |
| PathLaws.SpareSlashes | util/util.c:88-99 | a slash before another, at the front or at the end makes no difference |
| PathLaws.NameAndBack | util/util.c:77-86 | a name and the .. behind it cancel |
| PathLaws.NoWayOut | util/util.c:77-86 | a .. at the front makes no difference |
| PathLaws.NamesStay | util/util.c:66-101 | names with single slashes between them are left as they are, but for dots and spaces behind the last |
| PathLaws.DotsVanish | util/util.c:93-99 | nothing but dots and spaces comes to nothing |

## Left out

- Sockets, multicast, reconnecting, guard threads, files, SQLite and `system()`: the model has the byte streams, texts
  and maps they carry. A failed database operation is not modelled.
- FPGA, GPIO, MIPI, power, OTP and measuring code, and the other cases of `msgProc`.
- Several connections one after the other on one FIFO: what an earlier one left behind is not modelled.
- A stream with a wrong sync word or a packet larger than the FIFO: the parser waits on it for good
  (packsocket/packsocket.c:303-313); the stream theorems are about packets as the sender writes them.
- Allocation failure, everywhere.
- Locks and condition variables themselves: a critical section is one step, and going to sleep is part of it. Spurious
  wake-ups are steps of their own.
- What a thread finds in a freed pool: the model marks the run and lets the thread go on as if the memory held what it
  held.
- `MsOS_PeekFromQueue`, `MsOS_DeleteQueue`, events, timers and event handlers.
- In `Rendezvous` putting a message on the queue and taking it off are single steps; that the queue itself is first in,
  first out is proved in `QueueRuns`, whose steps `QueueSteps` finds in the linked lists.
- JSON numbers that are not 32-bit integers, and \u escapes with a quote, a backslash or the end of the text among their
  four characters: the parser's outcome is "not modelled". The prev, next and child pointers of items: an item is a
  value with a chain of children. Lookups, editing, duplication and references of items.
- JsonParse.ParseNumber: fractions, exponents and numbers outside 32 bits are answered as not modelled.
- JsonParse.ParseString: so are such cut-off escapes.
- JsonParse.Parse: so is a text with either.
- JsonBuffer.PrintBuffered: a request past the largest int, where the sum in `ensure` overflows, counts as failed too.
- JsonBuffer.PrintBuffer.Ensure: so it does here.
- JsonMinify.MinifyInPlace: only for texts whose strings and comments are closed, because the original reads past the
  end of the others.
- IniRoundTrip.RoundTrip: asks that no dumped line ends in a backslash, which would swallow the line after it, is too
  long, or is taken for a section's, and that each name is one a line can have. It takes the text of a dump without
  sections as written, though the code does not close that file (ini/iniparser.c:225-233).
- IniRoundTrip.RoundTripIsExact: among the same slots.
- RwIni.ReadAfterWrite: asks the same of the dumped lines, and that no section line of the file has an empty name or a
  colon in it; the names of the entries follow from the file (`IniKeys.LoadedKeys`).
- What a load does after it has left its buffers, and overflow in `strtol`.
- The sign of characters above 127 in the dictionary's hash, which depends on the compiler.
- `iniparser_dump`, the double and boolean getters, and the module name file of rwini.c.
- `loop_get_from_head`, whose index does not wrap, `loop_cleanup`, and lists of one slot, which hold nothing.
- Empty columns of the table and the counter beside the list (pgDB/pgLocalDB.c:79-109); `localDBDelete`, which deletes
  nothing.
- What a sync does after it has used a NULL pointer: the model marks the run and leaves its state as it is.
- Files of size zero in a sync, the JSON text of its messages, directories, the image conversion and the progress file.
- The character past the terminator that `parse_path` looks at and ignores, and the one before an empty line in
  `iniparser_load`, which is taken not to be a backslash.
