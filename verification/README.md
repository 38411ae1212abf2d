# Verified models of the init supervisor

Dafny models of the parts of this repository whose correctness spans many calls: how init
supervises services, how the helpers built into it encode and check text, and how its data
structures index and queue things. `dafny verify dfyconfig.toml` checks everything.

Operating-system results are inputs: the clock, fork, kill, stat, timers, memory allocation
and the return values of hooks are parameters of the events and methods that meet them, so
every claim holds for all of their outcomes. A *run* is any sequence of the modelled events
(for a service its start, on-demand, stop and timer commands, reaps and firing timers), each where it
is possible, with a monotone clock.

- **Service supervisor** (`ServiceSpec`, `ServiceRuns`, `ServiceOutcomes`, `ServiceRequests`, `CrashWindow`,
  `CriticalPanic`, `RestartRate`, `StopRuns`, `Service`, `Shutdown`). One service record with its child, flags,
  crash window, timer and deferred arguments. `ServiceSpec` gives every handler as a step on
  values together with the outputs it makes (forks, signals, reboots, allocations); the class
  `Service` is the imperative code on the attribute word, proved against those steps; the other
  modules prove what holds over whole runs. `CrashWindow` defines crash windows on a bare list of times, without
  any service record, and the restart and panic results are stated against it.
- **Per-user instances** (`ByUserSpec`, `ByUserPublished`, `ByUserStatus`, `ByUser`). The registry keyed by service
  and user: a linked list on the heap, refined to a sequence, and the children and parameters it
  stands for.
- **Parameter publisher** (`Publisher`, `PublisherOrder`, `PublisherRing`). Two threads as interleaved atomic steps, and
  their intrusive queue on the heap, including the lists that are no rings any more.
- **Checksums** (`CrcRegister`, `Checksums`, `Crc`, `CheckValues`). Both loops against one bit-serial shift
  register of any width and polynomial, from which all their laws follow, and their published check values.
- **Text codecs** (`BitString`, `Base32`, `Base64Spec`, `Base64`, `TextEscapes`, `TextTables`,
  `TextCodec`).
  Base32 and base64 against the bit-string definitions in sections 6 and 4 of RFC 4648.
- **Data structures** (`RingBuffer`, `PriorityQueue`, `List`, `HookSpec`, `HookRuns`,
  `HookManager`, `GroupIndexSpec`, `GroupIndex`). Each refines a plain sequence or map. `List`
  keeps the pointers of the circular list on the heap; the hook manager uses the sequence
  functions that `List` proves those pointer operations compute.
- **Service resources** (`HeldFdsSpec`, `HeldFds`, `Capabilities`). Held descriptors through the
  environment, and dropped and granted capabilities.

Where the code does less than its name or comments suggest, the model follows the code and
states exactly when the expected property holds:

- A stop that finds the service not running returns before it cancels a pending timer
  (`StopRuns.StopIsFinalExactlyWhen`).
- A critical on-demand service counts a crash even when the reap serves a deferred request
  (`ServiceRuns.ReapLeavesCrashesExactlyWhen`). With a limit of one crash, a crash that opens a
  later window does not panic again (`CriticalPanic.PanicExactly`).
- When the restart timer cannot be created or started, the crash counter is reset but no pause is
  kept (`RestartRate.RestartRateBound`, `RestartRate.EarlyStartBreaksRate`).
- The cleanup of zombies in the boot commands (`services/init/standard/init_cmds.c:504-506`) waits for
  any child, so the per-user registry can keep and publish the pid of a child that is gone
  (`ByUserPublished.PublishedExactlyWhen`, `ByUserPublished.StopAllDrainsExactlyWhen`), and a pid handed
  out again can then be looked up wrongly (`ByUserPublished.ReapFindsOwnExactlyWhen`).
- The publisher's retry appends its node without the emptiness test of the normal path, which breaks the
  ring of a node that is linked already (`PublisherRing.RetryParameter`, `PublisherRing.RequeuedLoses`,
  `PublisherRing.LoopSticksExactlyWhen`).
- The mark that the queue is empty is written without the lock and can hide a new request until the timed
  wait ends (`Publisher.WakeUpCanBeMissed`).
- The ring's index is reduced by the capacity only once (`RingBuffers.RingBuffer.Write`,
  `RingBuffers.ServeAll`).
- Unescaping a hexadecimal escape starts at its backslash, so its `x` is taken for a digit
  (`TextEscapes.UnescapeInvertsExactlyWhen`). The hexadecimal table answers 255 for other
  characters, never a negative value, so the callers' rejection of malformed digits never
  applies; decoding in `TextEscapes` has the values this yields.
- The percent-encoding table also encodes `~`, which section 2.3 of RFC 3986 leaves unreserved.
- Hooks are ordered by a 32-bit difference of their priorities (`HookSpec.TwoHooksExactlyWhen`).
- Deleting a group node does not release the service on it
  (`GroupIndexSpec.ServiceCountExactlyWhen`).
- The slots for dropped capabilities are counted from the length of the list
  (`Capabilities.SlotsExactlyWhen`, `Capabilities.DropCapability`).
- Held descriptors of which none can be duplicated make the terminator go in front of the buffer
  (`HeldFds.PublishHoldFds`).

## Model

| member | source | states |
|---|---|---|
| RestartRate.RestartRateBound | services/init/init_common_service.c:1069-1118 | in every run without stop requests and timer commands, in which no start request finds the service down, its counter reset and no timer armed before the window or the pause is over, any crashTime seconds hold at most 2*crashCount-3 immediate relaunches of a non-critical service (none for a limit of one), one second more at most 2*crashCount-2, and the counter is below the limit between events |
| RestartRate.EarlyStartBreaksRate | services/init/init_common_service.c:1283-1306 | after every run that has come to a full window: if its timer cannot be had and a start request comes before the window is over, there are crashes that exceed the rate |
| RestartRate.WindowCanFill | services/init/init_common_service.c:960-983 | every ordinary service with a limit of two or more can come to a full window |
| RestartRate.WorkingTimersArePatient | services/init/init_common_service.c:1283-1306 | while the timer facility works, no start request is that early, so the bound needs no condition on start requests |
| RestartRate.TrackRun | services/init/init_common_service.c:960-983 | over every such run the relaunches split into blocks, each below the limit, opened more than crashTime after the previous block's first or at least crashTime after its last; the record describes the last block |
| RestartRate.ReapStepOrdinary | services/init/init_common_service.c:1101-1118 | a reap of an ordinary service relaunches at once within the limit, and otherwise resets the counter and arms the restart timer for crashTime seconds, or leaves nothing armed and no child when the timer facility fails |
| RestartRate.BlocksBoundCount | services/init/init_common_service.c:960-983 | relaunches that split into such blocks never exceed the rate in any interval, wherever it starts |
| CriticalPanic.PanicExactly | services/init/init_common_service.c:1101-1108 | an event of a run asks for the panic reboot exactly when it is a counted crash that does not reopen the window and brings it to crashCount; up to the first panic that is exactly the crashCount-th crash of the window |
| CriticalPanic.CrashRecordFollowsHistory | services/init/init_common_service.c:960-983 | in every run crashCnt is the number of crashes since the current window's first crash and firstCrashTime is that crash |
| CriticalPanic.PanicMeansBurst | services/init/init_common_service.c:960-983 | a panic means that the last crashCount crashes lie within crashTime seconds |
| CriticalPanic.BurstMeansPanic | services/init/init_common_service.c:960-983 | 2*crashCount-2 crashes within crashTime seconds force a panic, however they fall across windows |
| CriticalPanic.ReapOutcome | services/init/init_common_service.c:1069-1118 | which reaps of a critical service count a crash, forget the crashes, or leave the record alone |
| CrashWindow.BurstFillsWindow | services/init/init_common_service.c:960-983 | among 2n-2 crashes within the limit some window reaches n |
| CrashWindow.WindowIsBurst | services/init/init_common_service.c:960-983 | a window of n crashes spans at most the limit |
| ServiceRuns.DeferredRequestIsServed | services/init/init_service_manager.c:1360-1407 | the reap after any run of requests to a running on-demand service starts exactly the last request's arguments, if and only if no stop, timer, period or invalid mark interferes; the crash record is untouched if and only if the service is not critical |
| ServiceRuns.RunKeepsQuiescent | services/init/init_common_service.c:1053-1067 | between events NEED_RESTART implies a running on-demand service and pending arguments imply NEED_RESTART, in every run |
| ServiceRuns.EveryVectorHasOneOwner | services/init/init_service_manager.c:1360-1364 | over every run no argument vector is freed twice, used after release or leaked: what is allocated and not freed is exactly what the record owns |
| ServiceRuns.ReapLeavesCrashesExactlyWhen | services/init/init_common_service.c:1101-1117 | serving a deferred request leaves the crash record alone if and only if the service is not critical |
| ServiceRuns.WaitingKeepsLastRequest | services/init/init_service_manager.c:1366-1375 | while the child runs, requests only replace the pending arguments: the last one wins and nothing is forked |
| StopRuns.StopIsFinalExactlyWhen | services/init/init_common_service.c:900-913 | after a stop, init forks the service again on its own in some run if and only if the stop found it not running with a timer still armed (and it is startable) |
| StopRuns.InvalidStaysDown | services/init/init_common_service.c:792-797 | once marked invalid, no run of events forks the service and the mark stays |
| ServiceOutcomes.EventDoes | services/init/init_common_service.c:847-1118 | for every event in every state: it forks exactly when it is a start that nothing stands in the way of (once, period, on-demand, the stop mark, the crash limit), with the arguments of the request, the deferred ones or the configured ones, and signals exactly the recorded child, with SIGTERM for a term and the configured signal for a stop |
| ServiceOutcomes.ObserverKnowsChild | services/init/init_common_service.c:847-1137 | over every run an observer of forks, signals and reaps alone knows the recorded child: at most one at a time, only it is signalled, and its pid leaves the record by a reap or a signal only |
| ServiceOutcomes.EventTimer | services/init/init_common_service.c:1089-1117 | for every event: which arm the start or restart timer and for when (the period, crashTime seconds in milliseconds), which cancel it, and that all others leave it alone |
| ServiceOutcomes.EventMarks | services/init/init_common_service.c:792-809 | a service becomes invalid exactly by a stop-all with the mark, an attempted start whose executable is missing outside /data/, or an on-demand exit whose console cannot be watched |
| ServiceOutcomes.OneShotStaysDown | services/init/init_common_service.c:1086-1089 | over every run of reaps and stops a one-shot service is not forked again and nothing is armed to do so |
| ServiceOutcomes.PeriodicWaits | services/init/init_common_service.c:1090-1093 | the exit of a periodic service arms exactly its period and forks nothing |
| ServiceOutcomes.NotBeforeDeadline | services/init/init_common_service.c:1214-1256 | over every run of reaps and firing timers that ends before its deadline an armed service is not forked |
| ServiceRequests.EventAsks | services/init/init_common_service.c:1069-1137 | for every event in every state: whether a stop and a restart stay asked for, and which event settles them |
| ServiceRuns.IntervalIsDistance | services/utils/init_utils.c:856-864 | the interval is the distance of two clock readings in 32 bits, whichever is later |
| Shutdown.ShutdownLatch | services/init/init_service_manager.c:1520-1542 | after stop-all with the invalid mark, no later sequence of service and per-user events forks any marked service, directly or for a user |
| Shutdown.StopConfiguredServices | services/init/init_service_manager.c:1520-1542 | every node with a service that the filter does not spare is marked and stopped; the others are unchanged |
| Shutdown.OnlyStartForks | services/init/init_service_by_userid.c:449-458 | a per-user child appears only by a start whose template exists and is not invalid, and for that key |
| Services.Service.constructor | services/init/init_service_manager.c:113-121 | a new record: no child, no crashes, no timer, no pending arguments |
| Services.Service.IsServiceInvalid | services/init/init_common_service.c:792-809 | on the attribute word: marks and refuses a service whose executable is missing, except below /data/, refuses an invalid one, and keeps every configured bit |
| Services.Service.ServiceStart | services/init/init_common_service.c:847-888 | takes the start step: the new record and exactly the fork it makes |
| Services.Service.ServiceStop | services/init/init_common_service.c:890-958 | takes the stop step with either signal, including the early return for a service that is not running; `ServiceOutcomes.EventDoes` has the signal it sends |
| Services.Service.CalculateCrashTime | services/init/init_common_service.c:960-983 | takes the crash-window step and answers whether the limit is still respected |
| Services.Service.ExecuteServiceRestart | services/init/init_common_service.c:1053-1067 | takes the restart step with the deferred arguments when there are any |
| Services.Service.HandleServiceExit | services/init/init_common_service.c:1069-1118 | takes the exit step branch by branch: invalid, timer, stop, once, period, on-demand, critical, rate limit, restart; `ServiceOutcomes` and `ServiceRequests` say what the step means |
| Services.Service.ServiceReap | services/init/init_common_service.c:1120-1137 | takes the reap step, handing the pending arguments over and releasing them once |
| Services.Service.ServiceArmTimer | services/init/init_common_service.c:1258-1306 | replaces the timer, with the failure of creating or starting it |
| Services.Service.ServiceTimerProcess | services/init/init_common_service.c:1214-1256 | a firing timer is cancelled first and then starts the service |
| Services.Service.StartServiceByName | services/init/init_service_manager.c:1338-1358 | takes the start-by-name step; its extra arguments are freed once |
| Services.Service.StartOnDemandServiceByName | services/init/init_service_manager.c:1386-1407 | takes the on-demand step: refuse, defer, or start now |
| Services.Service.StartOnDemandServiceLater | services/init/init_service_manager.c:1366-1375 | defers: the record takes the arguments and NEED_RESTART |
| Services.Service.StartOnDemandServiceNow | services/init/init_service_manager.c:1377-1384 | starts with the request's arguments or the configured ones |
| ByUserRuns.OneChildPerUser | services/init/init_service_by_userid.c:480-584 | over every run each (service, user) has at most one unreaped child, tracked by exactly one instance; keys are unique and every unreaped child is the published one of its key |
| ByUserPublished.PublishedExactlyWhen | services/init/init_service_by_userid.c:341-373 | in every run the published pid is that of the unreaped child of the key, or 0 without one, if and only if no child of the key was taken behind the registry's back and not noticed since |
| ByUserPublished.PublishedWithoutElsewhere | services/init/init_service_by_userid.c:341-373 | in every run in which only the registry waits for its children, every published pid is right |
| ByUserPublished.TakenChildStaysPublished | services/init/init_service_by_userid.c:709-736 | a run in which a child waited for elsewhere stays published |
| ByUserPublished.ReapFindsOwnExactlyWhen | services/init/init_service_by_userid.c:676-689 | a reap finds the instance of the child's own key if and only if no instance in front of it records the same pid |
| ByUserPublished.ReusedPidReapsAnother | services/init/init_service_by_userid.c:709-736 | a run in which a pid handed out again makes the reap drop another key's instance |
| ByUserPublished.StopAllDrainsExactlyWhen | services/init/init_service_by_userid.c:611-623 | after stop-all in any run every instance left is stopping; each has an unreaped child of its own, and some legal sequence of waits empties the registry, its children and the published pids, if and only if the stop found every child gone that was waited for elsewhere |
| ByUserPublished.StaleInstanceNeverDrains | services/init/init_service_by_userid.c:611-623 | a run after which no sequence of waits empties the registry |
| ByUserStatus.StatusMeans | services/init/init_service_by_userid.c:341-373 | over every run the status published for a key is stopped if and only if no pid is published, and otherwise stopping if the key was told to stop after its last fork and started if not |
| ByUserStatus.StartForksExactlyWhen | services/init/init_service_by_userid.c:449-548 | a start request forks, records and publishes a child exactly when the template, path, memory and fork are fine and the key has no recorded child; otherwise children and parameters are unchanged |
| ByUserStatus.NobodyLingers | services/init/init_service_by_userid.c:594-736 | over every run an instance that was stopped without a child or reaped is gone from the list |
| ByUser.InstanceList.FindServiceByUserId | services/init/init_service_by_userid.c:375-389 | the walk over the linked list returns the first node of the key, or null |
| ByUser.InstanceList.GetServiceByUserPid | services/init/init_service_by_userid.c:676-689 | the first node with the pid; null for a pid that is not positive |
| ByUser.InstanceList.RemoveServiceByUserIdInstance | services/init/init_service_by_userid.c:594-609 | the walk over the links unlinks exactly the target, so the list is the old one without it; a node that is not in the list changes nothing |
| ByUser.InstanceList.StartServiceInstanceByUserId | services/init/init_service_by_userid.c:634-655 | takes the start step: create on demand, keep a running child, fork and publish |
| ByUser.InstanceList.StopInstanceProcess | services/init/init_service_by_userid.c:550-584 | publishes stopping; signals the recorded pid if there is one, and forgets it only when it is gone |
| ByUser.InstanceList.StopServiceInstanceByUserId | services/init/init_service_by_userid.c:657-674 | takes the stop step, signals the recorded pid of that key and no other, and drops an instance without a child |
| ByUser.InstanceList.StopAllServiceByUserIdInstances | services/init/init_service_by_userid.c:611-623 | the walk with a saved next pointer, which frees nodes as it goes, stops every instance and signals exactly the recorded pids, in list order; the saved pointer is always the next node still linked |
| ByUser.InstanceList.ReapServiceByUserId | services/init/init_service_by_userid.c:709-736 | takes the reap step and answers whether the pid was one of its children; `ByUserStatus.StatusMeans` has the status it publishes |
| Publisher.NoLostUpdate | ueventd/standard/ueventd_parameter.c:50-134 | under every interleaving the queue has no duplicate, and when the queue is empty and both threads are idle every configuration ever requested is published, as added if and only if its last request was an addition |
| Publisher.DrainsAlone | ueventd/standard/ueventd_parameter.c:63-103 | from every state of a run with the producer idle, the thread started and no failed set waiting whose configuration is queued again, steps of the publishing thread alone reach a quiet state with everything requested published |
| Publisher.RetryCanFindItQueued | ueventd/standard/ueventd_parameter.c:94-99 | a run in which the retry finds its configuration queued again |
| Publisher.WakeUpCanBeMissed | ueventd/standard/ueventd_parameter.c:85-91 | a run in which the mark that the queue is empty overwrites the one of a new request, so the thread waits with a configuration queued |
| PublisherOrder.TakenInOrder | ueventd/standard/ueventd_parameter.c:50-111 | under every interleaving configurations are taken in the order in which they were queued, and a retry goes behind what waits |
| PublisherOrder.MarkIsLastWritten | ueventd/standard/ueventd_parameter.c:85-118 | under every interleaving the empty mark is the one written last by either thread, and only an existing thread is signalled |
| PublisherRing.RetryParameter | ueventd/standard/ueventd_parameter.c:94-99 | on the heap: after the retry of a whole ring the links from the head form a ring if and only if the configuration was not queued again meanwhile, and in every case the new shape of the list is that of the retry step |
| PublisherRing.AddParameter | ueventd/standard/ueventd_parameter.c:105-111 | on the heap: appends the configuration exactly when both links of its node point to itself, whatever shape the list is in; that queues what is neither queued nor cut off and changes nothing else |
| PublisherRing.GetFirstParameter | ueventd/standard/ueventd_parameter.c:50-61 | on the heap: unlinks and returns the node behind the head, whatever shape the list is in |
| PublisherRing.ServeAll | ueventd/standard/ueventd_parameter.c:50-111 | every legal sequence of queueing, taking, publishing and retrying on the heap leaves the list in the shape of the run and takes exactly the nodes of its log |
| PublisherRing.CleanRunsAreFifo | ueventd/standard/ueventd_parameter.c:50-111 | in every run whose retries find their configuration unqueued, everything appended was taken once in order or is still in the ring |
| PublisherRing.CutOffNeverTaken | ueventd/standard/ueventd_parameter.c:94-111 | a configuration cut off by a retry is never taken or queued again in any later run |
| PublisherRing.StuckForever | ueventd/standard/ueventd_parameter.c:50-61 | once the first node cannot be unlinked, every later take of any run returns that node |
| PublisherRing.RequeuedLoses | ueventd/standard/ueventd_parameter.c:94-99 | a retry that finds its configuration queued cuts off all behind it, and with none behind it the thread alone ends up taking it for ever |
| PublisherRing.LoopSticksExactlyWhen | ueventd/standard/ueventd_parameter.c:50-111 | taking a configuration that a retry has made loop leaves the list stuck if and only if nothing was appended since; otherwise exactly what was appended is queued behind it |
| PublisherRing.LaterUpdateLost | ueventd/standard/ueventd_parameter.c:94-111 | request, take, request again, failed set, retry: a configuration queued after that is never taken |
| Publisher.RunKeepsInv | ueventd/standard/ueventd_parameter.c:105-134 | in every run each request is published, queued or in hand at its latest value |
| Crc32Model.Crc32 | services/utils/init_text_utils.c:1293-1308 | the loop computes the reflected word-wise check with both inversions |
| Crc32Model.IsShiftRegister | services/utils/init_text_utils.c:1297-1306 | the check is a 32-bit shift register with a polynomial, reversible, into which each byte enters whole, so all the laws below hold for it |
| Crc16Model.Crc16 | services/utils/init_text_utils.c:1277-1291 | the loop computes the word-wise check, most significant bit first |
| Crc16Model.IsShiftRegister | services/utils/init_text_utils.c:1280-1289 | the check is a 16-bit shift register with a polynomial, reversible, into which each byte enters whole, so all the laws below hold for it |
| CheckValues.Crc32CheckValue | services/utils/init_text_utils.c:1293-1308 | the digits 1 to 9 have the published check value 0xCBF43926 of CRC-32 |
| CheckValues.Crc16CheckValue | services/utils/init_text_utils.c:1277-1291 | the digits 1 to 9 have the published check value 0xFEE8 of the CRC-16 with this polynomial |
| CheckValues.Crc32Polynomial | services/utils/init_text_utils.c:37-37 | the polynomial has exactly the exponents 32, 26, 23, 22, 16, 12, 11, 10, 8, 7, 5, 4, 2, 1 and 0 of section 8 of RFC 1952 |
| CheckValues.Crc16Polynomial | services/utils/init_text_utils.c:36-36 | the polynomial has exactly the exponents 16, 15, 2 and 0 |
| Checksums.UpdateImplementsRegister | services/utils/init_text_utils.c:1280-1306 | for any such checksum a byte update is the bit-serial shift register of the polynomial |
| Checksums.CrcConcat | services/utils/init_text_utils.c:1277-1308 | the checksum of a concatenation is that of the second part seeded with that of the first |
| Checksums.SeedSurjective | services/utils/init_text_utils.c:1277-1308 | for any message every checksum is reached by some seed |
| Checksums.SeedInjective | services/utils/init_text_utils.c:1277-1308 | for any message different seeds give different checksums |
| Checksums.BurstDetected | services/utils/init_text_utils.c:1277-1308 | messages that differ only within as many consecutive bits as the word has never share a checksum |
| Checksums.ByteChangeDetected | services/utils/init_text_utils.c:1277-1308 | a change of one byte always changes the checksum |
| Base32.Base32Encode | services/utils/init_text_utils.c:1240-1275 | writes the text of section 6 of RFC 4648 and its terminator exactly when they fit, otherwise nothing; nothing behind the terminator is touched |
| Base32.EncodeSymbols | services/utils/init_text_utils.c:1255-1268 | the streaming loop over the 32-bit register emits the symbol of every five-bit group of the input bit string |
| Base32.Absorb | services/utils/init_text_utils.c:1256-1257 | shifting a byte into the 32-bit register loses no pending bit |
| Base32.EncodedLength | services/utils/init_text_utils.c:1249-1252 | the text has eight characters per started block of five bytes |
| Base32.EncodeInjective | services/utils/init_text_utils.c:1240-1275 | different inputs never share a text |
| TextTables.Base32Alphabet | services/utils/init_text_utils.c:223-226 | the symbols are table 3 of RFC 4648, written out |
| Base64.Base64Encode | services/utils/init_text_utils.c:1138-1164 | writes the block-wise text and its terminator exactly when they fit, otherwise nothing |
| Base64Spec.EncodeIsReference | services/utils/init_text_utils.c:1117-1164 | the block-wise text is the bit-string definition in section 4 of RFC 4648 |
| Base64.Base64Decode | services/utils/init_text_utils.c:1210-1238 | returns all decoded bytes when the text is accepted and they fit, and zero otherwise |
| Base64.DecodeBase64Group | services/utils/init_text_utils.c:1166-1208 | accepts a group under exactly the rules of the padding cases, and yields its digits and byte count |
| Base64Spec.RoundTrip | services/utils/init_text_utils.c:1117-1238 | decoding an encoding gives back every byte string |
| Base64Spec.AcceptedExactly | services/utils/init_text_utils.c:1166-1216 | decoding accepts exactly whole groups of the alphabet with at most two padding characters at the very end, and yields three bytes a group less the padding |
| Base64Spec.ReencodedExactlyWhen | services/utils/init_text_utils.c:1187-1202 | encoding what was decoded restores the text if and only if the bits dropped from its last symbol are zero (section 3.5 of RFC 4648) |
| Base64Spec.TablesAreInverse | services/utils/init_text_utils.c:197-221 | the two tables invert each other and the padding character is outside the alphabet |
| TextTables.Base64Alphabet | services/utils/init_text_utils.c:197-221 | the symbols and their values are table 1 of RFC 4648, written out |
| TextCodec.TextUriEncode | services/utils/init_text_utils.c:1061-1089 | stores the encoding of the longest prefix of the input that fits, and its terminator |
| TextCodec.TextUriDecode | services/utils/init_text_utils.c:1091-1115 | stores what fits of the decoded bytes, or returns zero on an encoded NUL met before the buffer is full |
| TextEscapes.UriRoundTrip | services/utils/init_text_utils.c:1061-1115 | decoding an encoding gives back every string |
| TextEscapes.UriTruncationIsPrefix | services/utils/init_text_utils.c:1074-1083 | an encoding cut short by the buffer decodes to a prefix of the input, to all of it exactly when the encoding fits |
| TextTables.EncodedIsUriText | services/utils/init_text_utils.c:1061-1089 | whatever is encoded, the text holds nothing but letters, digits, hyphens, dots, underscores and triplets of a percent sign and two upper-case digits |
| TextTables.UnreservedStandsForItself | services/utils/init_text_utils.c:178-195 | a text is left alone if and only if it is made of letters, digits, hyphens, dots and underscores |
| TextTables.DecodingGoesOn | services/utils/init_text_utils.c:1091-1115 | whatever follows encoded text is decoded on its own |
| TextTables.EncodedNulEndsIt | services/utils/init_text_utils.c:1099-1109 | an encoded NUL ends the decoding wherever it stands, and a percent sign too short for two digits stays |
| TextEscapes.FitIsLongest | services/utils/init_text_utils.c:1069-1086 | the characters encoded are the longest prefix whose encoding fits |
| TextCodec.AppendEscape | services/utils/init_text_utils.c:892-957 | appends the character's escape whole or not at all |
| TextCodec.TextEscape | services/utils/init_text_utils.c:959-981 | stores the escapes of the longest prefix of the input that fits, in every mode |
| TextCodec.TextUnescape | services/utils/init_text_utils.c:1017-1059 | stores what fits of the unescaped bytes |
| TextCodec.UnescapeOne | services/utils/init_text_utils.c:1027-1054 | one step of unescaping: the byte and how much text it takes |
| TextEscapes.UnescapeInvertsExactlyWhen | services/utils/init_text_utils.c:983-1059 | unescaping undoes named-mode escaping if and only if every character is printable, newline, return or tab |
| TextEscapes.EscapeTruncationIsPrefix | services/utils/init_text_utils.c:959-1059 | on such text a cut-short escaping unescapes to a prefix of the input |
| TextEscapes.ControlCharacterIsLost | services/utils/init_text_utils.c:1039-1041 | an escaped control character comes back as two other bytes |
| TextTables.NamedEscapes | services/utils/init_text_utils.c:892-957 | which characters have a named escape, and which |
| TextTables.NumericEscapes | services/utils/init_text_utils.c:892-957 | space to tilde stand for themselves, any other character gets two lower-case digits |
| TextTables.UnknownEscapesStay | services/utils/init_text_utils.c:1027-1054 | a backslash before any other character, an unfinished escape and a lone backslash stay |
| RingBuffers.RingBuffer.constructor | services/init/init_data_structures.c:288-311 | an empty ring of the given capacity |
| RingBuffers.InitRingBuffer | services/init/init_data_structures.c:288-311 | an empty ring exactly when there is a size and memory, otherwise none and minus one |
| RingBuffers.RingBuffer.Write | services/init/init_data_structures.c:331-373 | without overwriting appends what fits; with it keeps exactly the last capacity bytes of old content and data; the ring stays valid if and only if the read index is not carried round twice, which data no longer than the capacity never does |
| RingBuffers.RingBuffer.CopyIn | services/init/init_data_structures.c:349-359 | the chunked copy leaves the view from the write index as the end of the byte stream |
| RingBuffers.RingBuffer.Read | services/init/init_data_structures.c:375-406 | first in, first out: the bytes read and the bytes left are the old content; an empty read is counted |
| RingBuffers.RingBuffer.Peek | services/init/init_data_structures.c:408-437 | what a read after skipping would return, with the ring unchanged |
| RingBuffers.RingBuffer.Clear | services/init/init_data_structures.c:455-465 | empties the ring |
| RingBuffers.AdvanceWraps | services/init/init_data_structures.c:278-281 | advancing by at most the capacity is addition modulo the capacity |
| RingBuffers.FirstInFirstOut | services/init/init_data_structures.c:331-406 | over every run that stays in the storage what is held is the newest part of what was accepted, and without overwriting accepted is delivered followed by held |
| RingBuffers.OpMovesAllItCan | services/init/init_data_structures.c:331-406 | after any run a write accepts everything when overwriting and otherwise all there is room for, and a read delivers the oldest bytes, as many as asked for or as there are |
| RingBuffers.ServeAll | services/init/init_data_structures.c:331-406 | a ring used for any sequence of writes and reads stays valid if and only if the sequence stays in the storage, and then holds and has delivered what the run says |
| RingBuffers.ShortWritesFit | services/init/init_data_structures.c:331-373 | writes no longer than the capacity, and all writes without overwriting, stay in the storage |
| RingBuffers.LongWriteLeavesStorage | services/init/init_data_structures.c:331-373 | the smallest overwriting write that does not |
| PriorityQueues.PopTakesOldestOfHighest | services/init/init_data_structures.c:181-204 | whatever the run, the next pop takes the oldest node of the highest priority present |
| PriorityQueues.RunIsSound | services/init/init_data_structures.c:150-204 | over every run the queue is strictly ordered by level and sequence number, within capacity, and what was pushed is what was popped and what is queued |
| PriorityQueues.NobodyOvertakes | services/init/init_data_structures.c:150-204 | first come, first served over every run: within a priority nothing is handed out before what arrived earlier |
| PriorityQueues.PushTakenExactlyWhen | services/init/init_data_structures.c:150-179 | after any run a push is taken if and only if it has data, a priority from 0 to 5, room and memory; it is then the newest node, otherwise nothing changes |
| PriorityQueues.AppendIsInsert | services/init/init_data_structures.c:82-102 | appending to a level is the stable insertion into the whole order |
| PriorityQueues.PriorityQueue.constructor | services/init/init_data_structures.c:104-125 | an empty queue with its capacity |
| PriorityQueues.InitPriorityQueue | services/init/init_data_structures.c:104-125 | an empty queue exactly for a capacity from 1 to 1024, otherwise none and minus one |
| PriorityQueues.PriorityQueue.InsertSorted | services/init/init_data_structures.c:82-102 | the sorted insertion by sequence number puts a new node last in its level |
| PriorityQueues.PriorityQueue.Push | services/init/init_data_structures.c:150-179 | takes the push step: refusals, a failed allocation that uses up a number, or the insertion |
| PriorityQueues.PriorityQueue.Pop | services/init/init_data_structures.c:181-204 | returns and removes the first node in order, or null |
| PriorityQueues.PriorityQueue.Peek | services/init/init_data_structures.c:206-221 | returns the first node in order, or null |
| Lists.InsertBefore | services/utils/list.c:102-106 | four pointer writes turn a ring into the ring with the node in front of the given one |
| Lists.AddTail | services/utils/list.c:45-54 | the four writes on nodes linked in any way, which on a ring without the node give the ring with the node at its end |
| Lists.Remove | services/utils/list.c:63-70 | two pointer writes leave the ring of the other nodes |
| Lists.AddWithOrder | services/utils/list.c:83-107 | inserts in front of the first node that compares greater; the other nodes keep their order |
| Lists.Find | services/utils/list.c:117-133 | the first matching node, or null |
| Lists.Traversal | services/utils/list.c:152-180 | visits the nodes in order or exactly backwards, and stops at the first error when asked |
| Lists.RemoveMatching | services/utils/list.c:166-177 | a traversal that unlinks the node it visits removes all and only the matching nodes |
| Lists.GetCnt | services/utils/list.c:218-232 | the number of nodes behind the head |
| HookRuns.StagesAreStableSorts | interfaces/innerkits/hookmgr/hookmgr.c:93-237 | over every run of additions and deletions stages are unique, and each holds the stable sort by priority of exactly its registered hooks, none twice |
| HookRuns.ExecutionOrder | interfaces/innerkits/hookmgr/hookmgr.c:264-288 | after any run a stage executes its hooks in that order or exactly backwards, all of them or up to and including the first error when asked to stop |
| HookRuns.ExecutedAt | interfaces/innerkits/hookmgr/hookmgr.c:264-288 | the hook run as the i-th is the i-th of the sorted stage, counted from the back when reversed |
| HookRuns.NothingToExecute | interfaces/innerkits/hookmgr/hookmgr.c:264-275 | after any run a stage that is not there runs nothing and returns minus one without a manager and minus one thousand with one |
| HookRuns.AddRegisters | interfaces/innerkits/hookmgr/hookmgr.c:141-183 | after any run an addition is answered by zero if and only if the hook has a function and every allocation it needs succeeds; then exactly that hook is registered, behind those before it |
| HookRuns.DelUnregisters | interfaces/innerkits/hookmgr/hookmgr.c:195-237 | after any run a deletion takes exactly the hooks of the function out of the stage, or with no function the whole stage |
| HookSpec.SortIsStable | interfaces/innerkits/hookmgr/hookmgr.c:111-165 | hooks of one priority stay in the order they were added |
| HookSpec.SortIsOrdered | interfaces/innerkits/hookmgr/hookmgr.c:111-165 | the stage is sorted by priority and holds the same hooks |
| HookSpec.Sort32IsSort | interfaces/innerkits/hookmgr/hookmgr.c:111-119 | with the 32-bit difference of the comparison the stage is the same sort, whenever no hook is further from a later one than the difference can hold |
| HookSpec.TwoHooksExactlyWhen | interfaces/innerkits/hookmgr/hookmgr.c:111-119 | two hooks are put in order if and only if their difference fits |
| HookSpec.FarHooksRunBackwards | interfaces/innerkits/hookmgr/hookmgr.c:111-119 | two hooks that are too far apart and stay in the wrong order |
| HookSpec.SortThenDelete | interfaces/innerkits/hookmgr/hookmgr.c:195-237 | deleting from the sorted stage is sorting what is left |
| HookManager.HookMgr.constructor | interfaces/innerkits/hookmgr/hookmgr.c:57-57 | no default manager yet |
| HookManager.HookMgr.GetHookMgr | interfaces/innerkits/hookmgr/hookmgr.c:59-70 | the default manager, created only when asked and possible |
| HookManager.HookMgr.GetHookStage | interfaces/innerkits/hookmgr/hookmgr.c:93-109 | the stage's position, created at the end only when asked and possible |
| HookManager.HookMgr.HasHook | interfaces/innerkits/hookmgr/hookmgr.c:127-138 | finds exactly the same priority, function and cookie |
| HookManager.HookMgr.AddHookToStage | interfaces/innerkits/hookmgr/hookmgr.c:141-165 | takes the add step of a stage: duplicate, no memory, or the ordered insertion |
| HookManager.HookMgr.HookMgrAddEx | interfaces/innerkits/hookmgr/hookmgr.c:167-183 | takes the whole add step and returns its result |
| HookManager.HookMgr.HookMgrDel | interfaces/innerkits/hookmgr/hookmgr.c:215-237 | takes the delete step: all hooks of a function, or the whole stage for a null function |
| HookManager.HookMgr.HookMgrExecute | interfaces/innerkits/hookmgr/hookmgr.c:264-288 | runs and returns exactly what the order and the flags ask for, with its errors for no manager and no stage |
| HookManager.HookMgr.HookMgrGetHooksCnt | interfaces/innerkits/hookmgr/hookmgr.c:368-380 | the number of hooks of the stage, zero when there is none |
| GroupIndexSpec.IndexAgreesWithList | services/init/init_group_manager.c:262-331 | after every run the hash map holds, chain by chain and in order, exactly the uniquely named nodes of the list, and lookup equals a scan of the list |
| GroupIndexSpec.ServiceCountExactlyWhen | services/init/init_service_manager.c:95-124 | the service count is the number of nodes with a service if and only if no node was deleted while its service was set |
| GroupIndexSpec.DeletingABusyNodeMiscounts | services/init/init_group_manager.c:308-331 | adding a service and deleting its node leaves a count of one with no service |
| GroupIndexSpec.EventNames | services/init/init_service_manager.c:95-213 | after every run, for every event and name: whether the name then has a node and whether it has a service, including names outside the group and failed allocations |
| GroupIndexSpec.ServicesSitOnNodes | services/init/init_group_manager.c:262-331 | after every run every service sits on a node of the list |
| GroupIndexSpec.Buckets | services/init/init_group_manager.c:57-66 | two names and the buckets of 32 they fall into, one below and one above 'A' |
| GroupIndexSpec.RunSound | services/init/init_group_manager.c:262-331 | the mirror, unique names and addresses, and count = services set + services stranded, over every run |
| GroupIndexSpec.FindInBucket | services/utils/init_hashmap.c:123-133 | looking in the name's bucket finds what a scan of the list finds |
| GroupIndex.GenerateHashCode | services/init/init_group_manager.c:57-66 | the loop, which wraps at every step, yields the 32-bit wrap of the sum of the characters' distances from 'A', for signed and unsigned characters |
| GroupIndex.GetHashNodeByKey | services/utils/init_hashmap.c:62-74 | the first node of the chain with the name |
| GroupIndex.Unlink | services/utils/init_hashmap.c:106-120 | the chain without its first node of that name, in order |
| GroupIndex.Workspace.constructor | services/init/init_group_manager.c:202-224 | an empty list and 32 empty buckets |
| GroupIndex.Workspace.HashMapGet | services/utils/init_hashmap.c:123-133 | the node of that name in its bucket |
| GroupIndex.Workspace.HashMapAdd | services/utils/init_hashmap.c:76-95 | puts the node first in its bucket unless the name is there |
| GroupIndex.Workspace.HashMapRemove | services/utils/init_hashmap.c:97-121 | changes only the name's bucket |
| GroupIndex.Workspace.AddGroupNode | services/init/init_group_manager.c:262-285 | takes the add step on list and map, and returns the node of that name |
| GroupIndex.Workspace.DelGroupNode | services/init/init_group_manager.c:308-331 | takes the delete step on list and map |
| GroupIndex.Workspace.ReleaseService | services/init/init_service_manager.c:159-213 | takes the release step: the count and the node's service change together |
| GroupIndex.Workspace.AddService | services/init/init_service_manager.c:95-124 | takes the add-service step, releasing a service the node already has; success leaves the node with one |
| HeldFdsSpec.HeldFdsReadBack | interfaces/innerkits/fd_holder/fd_holder.c:147-193 | what fits the publisher's buffer fits the reader's, and the reader gets exactly the duplicated descriptors in order |
| HeldFdsSpec.NumberIsRead | interfaces/innerkits/fd_holder/fd_holder.c:178-186 | behind any blanks and a sign a number is read up to its last digit, within the range of a long |
| HeldFdsSpec.NumbersAreNarrowed | interfaces/innerkits/fd_holder/fd_holder.c:178-186 | reading fails exactly when a word is out of that range, and every other number keeps its low 32 bits |
| HeldFds.PublishHoldFds | services/init/init_common_service.c:376-403 | publishes the numbers of the duplicated descriptors separated by spaces exactly when they fit the buffer, and stores in front of the buffer exactly when descriptors are held and none can be duplicated |
| HeldFds.SplitStringExt | services/utils/init_utils.c:339-380 | the words between any delimiters, with room for every one of them in the growing vector; no result exactly when the maximum is negative or an allocation that was made failed |
| HeldFds.ServiceGetFd | interfaces/innerkits/fd_holder/fd_holder.c:147-193 | the numbers of the words, or nothing when the variable is missing, too long or out of range, or an allocation failed |
| HeldFdsSpec.WordsOfPublished | services/utils/init_utils.c:355-378 | the words of a published text are the decimals of its descriptors |
| Capabilities.SlotsExactlyWhen | services/init/init_common_service.c:221-228 | the capabilities to drop fill the allocated slots exactly if and only if the list is distinct and in range; they are never fewer |
| Capabilities.DropCapability | services/init/init_common_service.c:221-240 | drops the unlisted capabilities that the counted slots hold, in order, up to the first the kernel refuses; stores past the slots happen if and only if the list is not distinct and in range, and a list longer than the capabilities drops nothing |
| Capabilities.AcceptedIsLongest | services/init/init_common_service.c:229-235 | what is handed to the kernel is the longest prefix of which it accepts every entry |
| Capabilities.GetInvalidCaps | services/init/init_common_service.c:202-219 | fills the slots with the ascending complement of the list, touches no other, and says how many stores go past them, for every list |
| Capabilities.ExcessExactly | services/init/init_common_service.c:221-228 | the stores past the slots are as many as the entries that repeat another or name no capability |
| Capabilities.FullEntryExceeds | services/init/init_common_service.c:221-228 | the list of just the full entry has one store too many |
| Capabilities.RepeatedEntryExceeds | services/init/init_common_service.c:221-228 | so has a capability listed twice |
| Capabilities.ComplementExactly | services/init/init_common_service.c:206-218 | exactly the unlisted capabilities in range are dropped |
| Capabilities.ComplementAscends | services/init/init_common_service.c:206-218 | they come in ascending order, none twice |
| Capabilities.CapabilityMask | services/init/init_common_service.c:242-261 | the two-word mask has exactly the listed bits, or all of them when the full entry is listed |
| Capabilities.DroppedOrGranted | services/init/init_common_service.c:202-261 | on a distinct list in range each capability is dropped or granted, never both |

## Left out

- Everything a child does between fork and exec (sandbox, SELinux, access token, seccomp, uid and gid): a fork is its returned pid.
- Jobs, restart commands and boot-stage hooks that run inside start, stop and reap: they are taken not to touch the same service.
- Socket and console watching, cgroup killing, the event loop itself and the JSON parser: input and output plumbing.
- Parsing of the per-user control value, MCS labels and the runtime argument vector: per-user events arrive decoded.
- ByUserRuns.OneChildPerUser: parameter writes are taken to succeed; a new pid is not that of an unreaped child, and a kill reports no such process only for a pid without one, as the kernel guarantees.
- ByUser.InstanceList.RemoveServiceByUserIdInstance: freeing is not modelled; an unlinked node is only never reached again.
- Services.Service.ServiceStart: argument vectors are values with the address of their block, so copying them is not modelled; their ownership is.
- RestartRate.RestartRateBound: runs without stop requests and timer commands, because a stop clears the counter and a short timer command replaces the pause; the uptime in seconds stays below 2^32.
- CriticalPanic.PanicExactly: the uptime in seconds is taken to stay below 2^32, where the code's 32-bit first crash time would wrap.
- Publisher.NoLostUpdate: runs in which a failed set is retried while its configuration is queued again stop there, because the list is then no queue (`PublisherRing` has what follows); the list operations of the two threads are atomic, as their mutexes make them.
- Null pointer arguments of the C entry points: Dafny's types exclude them; each returns at once.
- HookRuns.StagesAreStableSorts: priorities are compared as unbounded integers; `HookSpec.Sort32IsSort` and `HookSpec.TwoHooksExactlyWhen` say when the 32-bit difference of the code gives the same order.
- HookManager: the stage and hook lists are sequences, so freeing and aliasing of list nodes is covered only by `List`; HookMgrTraversal and HookMgrDestroy only walk or free.
- GroupIndex: the list and the chains are sequences of node addresses, so the in-place pointer writes of the chains are not modelled.
- PriorityQueues.PriorityQueue.Push: the level lists are sequences; PriorityQueueRemoveByTag is left out because it frees nodes without unlinking them.
- RingBuffers.RingBuffer.Write: a failing memcpy_s, which only lengths beyond 2 GB cause, is not modelled.
- HeldFds.PublishHoldFds: formatting the name of the variable and setting it are not modelled; the store in front of the buffer is reported and ends the call.
- Capabilities.GetInvalidCaps: stores past the slots are counted, what they overwrite is not modelled; the ambient set and capset itself are system calls.
- Capabilities.CapabilityMask: requires each entry to be below 64 or the full entry, because the code would index outside its two words for any other.
- CloseServiceSpace, OH_HashMapTraverse, OH_HashMapDestory and OH_ListRemoveAll: they only visit or free every node.
- Number, size and duration formatting, hex dumps, character classes, trimming and the remaining text helpers: easy members that add little.
- Device nodes, fstab and mounting, device_info, watchdog and the command-line tools: driven by system calls and external programs.
