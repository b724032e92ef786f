# Verified models of NVIDIA out-of-tree driver logic

A Dafny project that models the stateful and arithmetic core of seven Linux drivers and
proves what they promise: the virtual security engine and its crypto device front end,
the suspend-to-idle barrier, two frequency governors, the SPI slave FIFO path and the
PTP clock read. `dafny verify dfyconfig.toml` checks everything.

| module | what it models |
|---|---|
| `ShaStream`, `ShaRuns`, `ShaExact`, `ShaGuards`, `ShaDriver` | SHA requests: specification of both paths and of the engine, whole hashes, exactly which runs are right, as states and as requests, and the in-place request context that refines the specification |
| `IvcHandshake`, `IvcOutcome` | the `wait_interrupt` protocol between a requester, the kernel thread, the interrupt handler and the server |
| `ScatterSplit` | scatterlist to (address, length) list |
| `CmacTail` | CMAC block split, tail gathering, chained requests |
| `CtrCounter` | 128-bit counter addition and the counter carried across CTR calls |
| `ChunkBuffer`, `GcmLayout`, `GcmEngine` | chunked kernel buffers, the AES-GCM layout over them and whole requests |
| `S2Idle`, `S2IdleRuns` | the suspend-to-idle barrier for any number of CPUs |
| `PodGovernor`, `PodRequest`, `PodMeaning` | history ring and frequency request of the pod-scaling governor |
| `WmarkGovernor` | thresholds and hysteresis of the watermark governor |
| `SpiFifo` | FIFO packing, unpacking and byte accounting of the SPI slave |
| `PtpClock` | the torn-free clock read |
| `Bytes`, `Wrappers` | byte sequences, division facts, `Option` |

Compression function, padding, MAC chaining and block cipher are arbitrary functions
(datatype fields or parameters). Block, chunk and table sizes and CPU counts are symbolic.
The two protocols are state machines whose steps are the source's atomic actions; results
about them hold for every interleaving. Loops and in-place updates are methods over
arrays and class fields, each proved against a specification function.

Where the code does not do what it is meant to, the model follows the code, and the exact
condition under which it is right is proved:

- The SHA fast path drops a partial residual (`ShaGuards.UnsafeRunIff`, `ShaRuns.ShortThenLongLosesData`).
  The in-repository client always passes a multi-entry scatterlist and is not affected.
- SHA-3 and SHAKE block sizes do not divide the 4 MiB buffer, so long requests are cut
  unaligned (`ShaRuns.WhichBlockSizesDivideTheBuffer`), and a copy length can wrap after one
  (`ShaRuns.LongRequestWraps`).
- Final with a byte count but no absorbed data sends no task (`ShaRuns.FinalSendsLastIff`).
- The security engine handshake can lose a wake-up in two ways (`IvcHandshake.LostWakeup`,
  `IvcHandshake.ReplyUnheard`), and a request can be overtaken by its own completion
  (`IvcOutcome.OvertakenFails`).
- RESUME_START is stored in a `bool` and then equals SUSPEND_START (`S2Idle.ReenteringCpuParksAgain`).
- The shipped watermark step of four can overshoot (`WmarkGovernor.NeverReversesIff`).
- A watermark down margin above the load target wraps a threshold (`WmarkGovernor.MarksOrderedIff`).
- A duplex SPI transfer with missing words books them as moved (`SpiFifo.AccountingExactIff`).
- A pod-scaling bias above 100 can ask for a negative frequency (`PodRequest.RequestNonnegativeIff`),
  which the limits turn into the maximum (`PodRequest.LimitIsClampIff`).
- The index test of the scatter split lets in one range more than its limit, and both limits
  are above the single range the SHA and CMAC messages have room for
  (`ScatterSplit.ShaCallStaysInsideIff`, `ScatterSplit.CmacCallStaysInsideIff`).
- The pod governor returns table frequencies through an `int`, which frequencies from 2^31 Hz
  on do not survive (`PodRequest.ChooseFrequency`).

## Model

| member | source | states |
|---|---|---|
| `ShaGuards.FinalExactFromRequests` | drivers/crypto/tegra-hv-vse-safety.c:1381-1551 | the exact condition on a whole hash read off its requests alone (entries, byte counts, order), with no reference to the state they lead to: the client always gets the one-shot hash if and only if every request is safe behind those before it, and final brings no byte count to a hash without data |
| `ShaGuards.UnsafeRunIff` | drivers/crypto/tegra-hv-vse-safety.c:1542-1548 | when blocks divide 4 MiB, a run is unsafe if and only if a single-entry request of at least a block follows a partial residual built only from single-entry requests shorter than a block |
| `ShaGuards.SafeRunIff` | drivers/crypto/tegra-hv-vse-safety.c:1542-1548 | for any block size, a run is safe if and only if every request in it is, from the requests alone |
| `ShaGuards.GuardIff` | drivers/crypto/tegra-hv-vse-safety.c:1542-1545 | after a safe run force_align is on if and only if the residual is partial and not built from short single-entry requests only |
| `ShaGuards.UpdateGuards` | drivers/crypto/tegra-hv-vse-safety.c:1245-1252 | a nonempty update leaves force_align on if and only if it was on or the request turns it on, and no whole block is held back; a short single-entry request never turns it off early (cleared only at 1347-1352) |
| `ShaGuards.EmptyUpdateIs` | drivers/crypto/tegra-hv-vse-safety.c:1460-1515 | an empty update touches nothing, but the very first one of a SHAKE hash sends a task without bytes that opens it |
| `ShaGuards.FastPathTasks` | drivers/crypto/tegra-hv-vse-safety.c:1153-1235 | the fast path sends a held-back block, if there is one, and all other whole blocks in one task, however long the request |
| `ShaGuards.SlowPathTasks` | drivers/crypto/tegra-hv-vse-safety.c:1306-1330 | the slow path sends one task when more than a block is there and the buffer holds all whole blocks, and none otherwise |
| `ShaExact.FinalExactIff` | drivers/crypto/tegra-hv-vse-safety.c:1280-1379 | over every run of updates closed by final: the client gets the one-shot hash of all bytes, for every compression function on byte strings and whatever the engine held before, if and only if every update passed its path guard and final did not bring a byte count to a hash without data |
| `ShaExact.FinupExactIff` | drivers/crypto/tegra-hv-vse-safety.c:1719-1748 | the same for finup (and digest): exactly when every update, the last one included, passed its guard |
| `ShaExact.UnsafeRunLoses` | drivers/crypto/tegra-hv-vse-safety.c:1127-1379 | after any unsafe run at least one counted byte can no longer reach the digest, or the length of a copy has wrapped |
| `ShaExact.UnsafeLoses` | drivers/crypto/tegra-hv-vse-safety.c:1127-1379 | one unsafe update of an intact hash is enough |
| `ShaExact.UpdateShort` | drivers/crypto/tegra-hv-vse-safety.c:1381-1551 | and no later update makes up for it |
| `ShaExact.ShortFails` | drivers/crypto/tegra-hv-vse-safety.c:1356-1376 | such a hash, finished, differs from the one-shot hash for concatenation with padding to the next block |
| `ShaExact.ConcatFold` | drivers/crypto/tegra-hv-vse-safety.c:1042-1059 | folding concatenation appends exactly the whole blocks of the bytes |
| `ShaExact.ConcatOneShot` | drivers/crypto/tegra-hv-vse-safety.c:1101-1107 | the one-shot hash by concatenation is the message, its SHAKE byte and the padding, nothing else |
| `ShaExact.SendBlocksShort` | drivers/crypto/tegra-hv-vse-safety.c:1306-1330 | the chunk loop gains no bytes, and loses some when its request does not fit |
| `ShaRuns.FinalRefinesOneShot` | drivers/crypto/tegra-hv-vse-safety.c:1280-1379 | any chunking of a message into safe updates, closed by final, makes the engine compute the one-shot hash of everything the updates carried, whatever it held before; the empty message gives the zero-length vector (SHA-2, SHA-3) or the one-byte SHAKE message |
| `ShaRuns.FinupRefinesOneShot` | drivers/crypto/tegra-hv-vse-safety.c:1719-1748 | the same for finup, which absorbs its own request first, and for digest, which is finup straight after init |
| `ShaRuns.UpdateExact` | drivers/crypto/tegra-hv-vse-safety.c:1540-1551 | over every state and request, an update keeps the invariant (nothing lost or doubled, only whole blocks sent, exact counts, exact first/last marks, 1..blk bytes held back) if and only if it is empty or passes a check the caller could make first: no partial residual on the fast path, aligned part within 4 MiB or block size dividing 4 MiB on the slow path |
| `ShaRuns.RunInv` | drivers/crypto/tegra-hv-vse-safety.c:1690-1717 | that invariant after any run of safe updates, by induction over the run, and no empty task when no request was empty |
| `ShaRuns.OrdinaryRunIsSafe` | drivers/crypto/tegra-hv-vse-safety.c:1542-1548 | requests that are multi-entry or at least a block long (and bounded when blocks do not divide the buffer) always make a safe run: force_align protects every partial residual |
| `ShaRuns.FastAgreesWithSlow` | drivers/crypto/tegra-hv-vse-safety.c:1127-1278 | from a residual of zero or one block, both paths leave the same residual bytes and total_count and send the same concatenated bytes |
| `ShaRuns.SignallingExact` | drivers/crypto/tegra-hv-vse-safety.c:1031-1059 | in a finished hash the two length words agree on the first task and on no other, msg_left is the real byte count on the last task and on no other, and the last task carries 1..blk message bytes |
| `ShaRuns.FinishDigest` | drivers/crypto/tegra-hv-vse-safety.c:1356-1376 | finishing any state that satisfies the invariant hashes the whole message, SHAKE domain byte included |
| `ShaRuns.EmptyShakeDigest` | drivers/crypto/tegra-hv-vse-safety.c:1493-1515 | an empty SHAKE message is hashed as its domain byte alone |
| `ShaRuns.FinupIsUpdateThenFinish` | drivers/crypto/tegra-hv-vse-safety.c:1741 | finup equals update followed by the last task, whenever there is any data |
| `ShaRuns.UpdateDense` | drivers/crypto/tegra-hv-vse-safety.c:1306-1330 | a nonempty update never sends a task without bytes |
| `ShaRuns.FinalSendsLastIff` | drivers/crypto/tegra-hv-vse-safety.c:1773 | final sends a last task if and only if data was absorbed or it is an empty SHAKE request; with a byte count left over and no data it sends none |
| `ShaRuns.ShortThenLong` | drivers/crypto/tegra-hv-vse-safety.c:1153-1184 | concrete family where the code loses data: a short single-entry update leaves force_align off and the next block-sized single-entry update replaces its bytes, while total_count still counts them |
| `ShaRuns.ShortThenLongLosesData` | drivers/crypto/tegra-hv-vse-safety.c:1245-1268 | what final then sends for that family: one task that claims to continue a hash nobody started |
| `ShaRuns.WhichBlockSizesDivideTheBuffer` | drivers/crypto/tegra-hv-vse-safety.c:222-227 | of the six block sizes only 64 and 128 divide 4 MiB; for SHA-3 and SHAKE a longer aligned part is sent unaligned |
| `ShaRuns.LongRequestWraps` | drivers/crypto/tegra-hv-vse-safety.c:1306-1313 | concrete family for 136-byte blocks: a long aligned request leaves more than a block behind, and the next short request makes the unsigned length of a copy wrap below zero |
| `ShaStream.SlowAbsorbGood` | drivers/crypto/tegra-hv-vse-safety.c:1291-1354 | the slow path keeps the invariant if and only if its chunks stay aligned |
| `ShaStream.FastAbsorbGood` | drivers/crypto/tegra-hv-vse-safety.c:1147-1253 | the fast path keeps the invariant if and only if it finds no residual or a whole block |
| `ShaStream.FastAbsorbLoses` | drivers/crypto/tegra-hv-vse-safety.c:1165-1184 | entered with a partial residual, the fast path continues as if the residual had never been there |
| `ShaStream.SendBlocksGood` | drivers/crypto/tegra-hv-vse-safety.c:1306-1330 | the chunk loop sends exactly the whole blocks of its buffer, in order, in aligned tasks, when they fit |
| `ShaStream.SendBlocksBad` | drivers/crypto/tegra-hv-vse-safety.c:1308-1319 | when they do not fit, an unaligned task goes out |
| `ShaStream.MarkExact` | drivers/crypto/tegra-hv-vse-safety.c:1046-1058 | a task that is not the last claims eight bytes more than it has, and sixteen in total unless it is the first; no 32-bit wrap for requests of the permitted size |
| `ShaStream.EngineFold` | drivers/crypto/tegra-hv-vse-safety.c:1042-1059 | a well-marked task log makes the engine fold the compression function over all bytes sent, from the initial state |
| `ShaStream.FoldSplit` | drivers/crypto/tegra-hv-vse-safety.c:1306-1330 | hashing in two parts, the first of whole blocks, is hashing the whole (section 6.2.2 of FIPS 180-4) |
| `ShaDriver.RequestContext.Op` | drivers/crypto/tegra-hv-vse-safety.c:1381-1551 | the imperative request operation changes the context exactly as the specification function does, for all four uses |
| `ShaDriver.RequestContext.constructor` | drivers/crypto/tegra-hv-vse-safety.c:1664-1668 | the context after init: nothing sent, counted or held back |
| `ShaDriver.RequestContext.SendShaData` | drivers/crypto/tegra-hv-vse-safety.c:1031-1059 | one task is appended with its data and length words, and is_first is consumed |
| `ShaDriver.RequestContext.SendOne` | drivers/crypto/tegra-hv-vse-safety.c:1087-1125 | the buffered bytes become one task; a last SHAKE task gets 0xff written behind them and counted |
| `ShaDriver.RequestContext.FastPath` | drivers/crypto/tegra-hv-vse-safety.c:1127-1278 | refines the fast path specification, last task included |
| `ShaDriver.RequestContext.FlushResidual` | drivers/crypto/tegra-hv-vse-safety.c:1153-1163 | a held-back whole block goes out first |
| `ShaDriver.RequestContext.AbsorbDirect` | drivers/crypto/tegra-hv-vse-safety.c:1147-1253 | in-place buffer and counters after the fast path are those of the specification |
| `ShaDriver.RequestContext.SendDirect` | drivers/crypto/tegra-hv-vse-safety.c:1191-1230 | whole blocks of the request go out from where they are, counted |
| `ShaDriver.RequestContext.HoldBack` | drivers/crypto/tegra-hv-vse-safety.c:1173-1185 | the end of the request is copied into the buffer and counted |
| `ShaDriver.RequestContext.SlowPath` | drivers/crypto/tegra-hv-vse-safety.c:1280-1379 | refines the slow path specification, last task included |
| `ShaDriver.RequestContext.SendChunk` | drivers/crypto/tegra-hv-vse-safety.c:1308-1327 | one chunk: what is buffered followed by the next request bytes, as long as specified |
| `ShaDriver.RequestContext.SendNext` | drivers/crypto/tegra-hv-vse-safety.c:1306-1330 | one turn of the loop brings it closer to the tasks and rest that all chunks together have to come to |
| `ShaDriver.RequestContext.SlowLimit` | drivers/crypto/tegra-hv-vse-safety.c:1294-1310 | how many buffered bytes may be sent, and whether the first copy length wraps |
| `ShaDriver.RequestContext.SendChunks` | drivers/crypto/tegra-hv-vse-safety.c:1303-1330 | the loop sends the chunks of residual followed by data and knows what is left |
| `ShaDriver.RequestContext.TakeRest` | drivers/crypto/tegra-hv-vse-safety.c:1332-1345 | the bytes left over are held back, or the whole request is piled behind the residual |
| `ShaDriver.RequestContext.SendAndKeep` | drivers/crypto/tegra-hv-vse-safety.c:1303-1345 | tasks sent and bytes kept are those of the chunk specification |
| `ShaDriver.RequestContext.AbsorbLinear` | drivers/crypto/tegra-hv-vse-safety.c:1291-1354 | in-place buffer and counters after the slow path are those of the specification |
| `ShaDriver.RequestContext.FinishLast` | drivers/crypto/tegra-hv-vse-safety.c:1356-1376 | held-back bytes become the last task and the result is the engine digest |
| `ShaDriver.DivideRequest` | drivers/crypto/tegra-hv-vse-safety.c:1165-1186 | whole blocks and rest of a fast-path request, a whole block held back when there is no rest |
| `ShaDriver.HashStream` | drivers/crypto/tegra-nvvse-cryptodev.c:458-501 | the crypto device client, over every sequence of requests, empty ones included: one update each, then final on the last request with its byte count still set; it gets the one-shot hash of all the bytes exactly for safe runs, and runs of multi-entry requests of a fitting size are safe |
| `IvcHandshake.HandshakeSafe` | drivers/crypto/tegra-hv-vse-safety.c:839-880 | over every interleaving of requester, thread and server: the two never dequeue in the same phase, every dummy read gets the filler of its own request, every valid read its own reply, and completions are strictly increasing, so each request completes at most once; the thread wakes only on a completion of the interrupt handler |
| `IvcHandshake.StepKeeps` | drivers/crypto/tegra-hv-vse-safety.c:4689-4738 | one atomic step of anyone keeps the inductive invariant that says which messages are still to be dequeued in each phase |
| `IvcHandshake.RunKeeps` | drivers/crypto/tegra-hv-vse-safety.c:652-752 | so does every run |
| `IvcOutcome.HandedBackOnce` | drivers/crypto/tegra-hv-vse-safety.c:747-748 | when a request has been handed back, it and all before it have been completed exactly once and in order; while it is outstanding, exactly those before it |
| `IvcOutcome.ReadsOwnReply` | drivers/crypto/tegra-hv-vse-safety.c:672-752 | a requester that finds its reply readable reads it by its own steps, completes its request and leaves the state alone |
| `IvcOutcome.CanBeServedIffNotLost` | drivers/crypto/tegra-hv-vse-safety.c:839-880 | from every place of its handshake a reachable request can still be served if and only if it is not lost: failed, overtaken by the thread, or with its wake-up lost or bound to be |
| `IvcOutcome.ServedUnlessLost` | drivers/crypto/tegra-hv-vse-safety.c:839-880 | the run that serves it, constructed |
| `IvcOutcome.LostStays` | drivers/crypto/tegra-hv-vse-safety.c:839-880 | no step of anyone saves a lost request |
| `IvcOutcome.OvertakenFails` | drivers/crypto/tegra-hv-vse-safety.c:839-849 | a third defect, reachable with the very first request: the thread reads both messages, completes and disarms before the requester looks at the state, which then tries to read a filler that is gone and fails |
| `IvcOutcome.ThreadComesToRest` | drivers/crypto/tegra-hv-vse-safety.c:4656-4739 | left to itself the thread is waiting for the handler again after at most eight steps |
| `IvcOutcome.QuietStays` | drivers/crypto/tegra-hv-vse-safety.c:4632-4633 | an interrupt that finds nothing to read wakes nobody: without a new request a sleeping thread sleeps on |
| `IvcHandshake.LostWakeup` | drivers/crypto/tegra-hv-vse-safety.c:747-748 | because a request is completed before the state is written back (lines 4703-4706), a reachable interleaving leaves the next requester waiting for an interrupt nobody will act on |
| `IvcHandshake.ReplyUnheard` | drivers/crypto/tegra-hv-vse-safety.c:672-676 | the second reachable way to lose a wake-up: the reply arrives after the requester found none and before it writes the state; the thread, woken by its interrupt (4632-4633, 4658), still sees NO_INTERRUPT (4693) and goes back to sleep |
| `IvcHandshake.FirstRequestIsHeard` | drivers/crypto/tegra-hv-vse-safety.c:5040 | the wake-up of the very first request cannot be lost, in any interleaving up to the next one |
| `IvcHandshake.DoomedStays` | drivers/crypto/tegra-hv-vse-safety.c:4693 | in either situation no step of anyone ever helps |
| `IvcHandshake.ServedUnlessDoomed` | drivers/crypto/tegra-hv-vse-safety.c:873-879 | from any other waiting state there is a run that serves the requester (constructed, with a decreasing distance) |
| `IvcHandshake.CanBeServedIffNotDoomed` | drivers/crypto/tegra-hv-vse-safety.c:873-879 | a reachable waiting requester can still be served if and only if it is in neither situation, with an interrupt only for a message on an empty channel (drivers/platform/tegra/tegra-ivc.c:675-690) and a wake-up only where its handler found one |
| `S2Idle.PauseFindsAllParked` | drivers/cpuidle/cpuidle-tegra-auto.c:88-109 | any number of CPUs, any interleaving: from issuing the guest pause until the mask is cleared, every other online CPU is in its parked loop with its bit set |
| `S2IdleRuns.WholeSuspend` | drivers/cpuidle/cpuidle-tegra-auto.c:77-120 | for every set of online CPUs there is a run that pauses the guest with all others parked and then has every CPU outside again with an empty mask (constructed) |
| `S2IdleRuns.ScanReachesPauseIff` | drivers/cpuidle/cpuidle-tegra-auto.c:92-104 | a scanning boot CPU reaches the pause by its own steps if and only if the bits of all CPUs it has not passed are set |
| `S2IdleRuns.NotifierGates` | drivers/cpuidle/cpuidle-tegra-auto.c:44-51 | after suspend-prepare an idle CPU enters the barrier; after post-suspend none does |
| `S2Idle.StepKeeps` | drivers/cpuidle/cpuidle-tegra-auto.c:77-120 | the barrier invariant (a bit is set exactly while its CPU is parked and the mask has not been cleared since) is kept by every step |
| `S2Idle.ParkedUntilClear` | drivers/cpuidle/cpuidle-tegra-auto.c:110-116 | a CPU with its bit set stays parked over any run that does not clear the mask |
| `S2Idle.LeavesIffCleared` | drivers/cpuidle/cpuidle-tegra-auto.c:36-39 | a parked CPU leaves if and only if the mask was cleared since it parked, and every clear follows a pause that returned |
| `S2Idle.ResumePassesEntryTest` | drivers/cpuidle/cpuidle-tegra-auto.c:33 | stored in a bool, the resume state passes the test for the suspend state |
| `S2Idle.StateHeldUntilPostSuspend` | drivers/cpuidle/cpuidle-tegra-auto.c:41-53 | only the post-suspend notification takes the state back |
| `S2Idle.EntersIff` | drivers/cpuidle/cpuidle-tegra-auto.c:83-86 | an idle CPU enters the barrier exactly while the stored state is not NONE, that is, also after RESUME_START |
| `S2Idle.ReenteringCpuParksAgain` | drivers/cpuidle/cpuidle-tegra-auto.c:83-86 | consequence: after resume, a CPU that goes idle before that notification parks again and stays parked until the next clear, whatever else happens |
| `ScatterSplit.SplitExact` | drivers/crypto/tegra-hv-vse-safety.c:920-960 | the (address, length) list describes, in order, exactly the first total_len bytes of the scatterlist, with 32-bit addresses, however entries are cut at the 16 MiB limit |
| `ScatterSplit.SplitBounded` | drivers/crypto/tegra-hv-vse-safety.c:931-957 | every range has 1 to 2^24 - 1 bytes |
| `ScatterSplit.RangesAligned` | drivers/crypto/tegra-hv-vse-safety.c:931-946 | every range of an entry but its last has 16 MiB less one block |
| `ScatterSplit.CutsBetweenBlocks` | drivers/crypto/tegra-hv-vse-safety.c:931-946 | so no block of an entry is cut in two when blocks divide 16 MiB |
| `ScatterSplit.SingleEntrySingleRange` | drivers/crypto/tegra-hv-vse-safety.c:1204-1211 | a single entry needs a single range if and only if the bytes are below the split limit, which is what the SHA fast path relies on |
| `ScatterSplit.PrepareLinkedList` | drivers/crypto/tegra-hv-vse-safety.c:905-974 | for any destination that holds what is written: exactly the planned ranges, one to a place from the first place on, and the rest unchanged, on success and on error; succeeds if and only if the list fits the index test and every needed entry maps; on error unmaps every mapped entry once, in order, and leaves the count alone |
| `ScatterSplit.PlanExact` | drivers/crypto/tegra-hv-vse-safety.c:919-960 | when the loop succeeds and what it has written and mapped when it stops, for every limit and every mapping failure |
| `ScatterSplit.ShaCallStaysInsideIff` | drivers/crypto/tegra-hv-vse-safety.c:1204-1211 | the SHA call, with a destination for one range and a limit that lets in two: the writes stay inside if and only if the blocks are below 16 MiB, as every request is |
| `ScatterSplit.CmacCallStaysInsideIff` | drivers/crypto/tegra-hv-vse-safety.c:2325-2331 | the CMAC calls, with a destination for one range and a limit that lets in three: the writes stay inside if and only if the whole blocks are below 16 MiB and a single one of the entries holds them all; otherwise a range is written behind the destination |
| `ScatterSplit.TakeEntry` | drivers/crypto/tegra-hv-vse-safety.c:921-959 | one mapped entry of the plan |
| `ScatterSplit.MapAndSplit` | drivers/crypto/tegra-hv-vse-safety.c:919-960 | the mapping loop carries out the plan |
| `ScatterSplit.SplitEntry` | drivers/crypto/tegra-hv-vse-safety.c:931-958 | one entry: as many of its ranges are appended as the index test lets in |
| `ScatterSplit.Unmap` | drivers/crypto/tegra-hv-vse-safety.c:965-971 | exactly the first entries are unmapped, each once |
| `CmacTail.StreamingRefinesOneShot` | drivers/crypto/tegra-hv-vse-safety.c:2275-2290 | updates of whole blocks closed by a nonempty request (or an empty message) give the MAC chain of the whole message, chaining and closing uninterpreted (section 2.4 of RFC 4493) |
| `CmacTail.ChainIsOneShotIff` | drivers/crypto/tegra-hv-vse-safety.c:2275-2290 | the blocks handed over by a chain of requests are those of the one-shot MAC if and only if every update is whole blocks and the closing request brings data or there is none at all |
| `CmacTail.RunChainFolds` | drivers/crypto/tegra-hv-vse-safety.c:2321-2333 | the chaining register over the requests is a fold over the concatenated whole blocks |
| `CmacTail.ChainFeedsMessage` | drivers/crypto/tegra-hv-vse-safety.c:2275-2362 | a chain of whole-block updates and a closing request feeds the MAC every byte of the message once and in order (shown by concatenation) |
| `CmacTail.FoldConcat` | drivers/crypto/tegra-hv-vse-safety.c:2321-2333 | folding concatenation appends exactly the whole blocks |
| `CmacTail.SplitLast` | drivers/crypto/tegra-hv-vse-safety.c:2278-2287 | blocks * 16 + last is the length, last is 1..16 for a nonempty message |
| `CmacTail.GatherTail` | drivers/crypto/tegra-hv-vse-safety.c:2336-2362 | for any segmentation, the segment loop copies exactly the final bytes, in order, and nothing behind them |
| `CmacTail.CopyTail` | drivers/crypto/tegra-hv-vse-safety.c:2582-2652 | the one-copy tail of the sign/verify path and its size check |
| `CmacTail.TailsAgree` | drivers/crypto/tegra-hv-vse-safety.c:2648-2652 | both give the last block of the message |
| `CtrCounter.UpdateCounter` | drivers/crypto/tegra-nvvse-cryptodev.c:310-348 | exact 128-bit big-endian addition when the sum is below 2^128, otherwise an error with the bytes unchanged |
| `CtrCounter.LoadLimbs` | drivers/crypto/tegra-nvvse-cryptodev.c:319-322 | the OR loop builds four limbs that spell the same number |
| `CtrCounter.AddWithCarry` | drivers/crypto/tegra-nvvse-cryptodev.c:324-330 | carry out and limbs together are the exact sum |
| `CtrCounter.StoreLimbs` | drivers/crypto/tegra-nvvse-cryptodev.c:338-342 | the bytes written back spell the limbs |
| `CtrCounter.BeLimbs` | drivers/crypto/tegra-nvvse-cryptodev.c:319-322 | big-endian bytes and big-endian words are the same number |
| `CtrCounter.CryptoContext.AesCtr` | drivers/crypto/tegra-nvvse-cryptodev.c:1156-1374 | one CTR call with a user nonce: which counter it starts from, its output, when it overflows, and what counter it leaves for the next |
| `CtrCounter.EncryptInCalls` | drivers/crypto/tegra-nvvse-cryptodev.c:1268-1282 | streaming calls whose non-final lengths are whole blocks produce the output of one call on everything, succeed if and only if the counter stays below 2^128, and leave the counter behind all blocks |
| `CtrCounter.CtrJoins` | drivers/crypto/tegra-nvvse-cryptodev.c:1345-1357 | two stretches of CTR output join when the first is whole blocks (section 6.5 of NIST SP 800-38A) |
| `CtrCounter.CountersDisjointIff` | drivers/crypto/tegra-nvvse-cryptodev.c:1348 | consecutive calls use disjoint counters if and only if the first length is a multiple of 16; otherwise they share exactly one |
| `CtrCounter.UsesCounterIff` | drivers/crypto/tegra-nvvse-cryptodev.c:1268-1282 | what a call does depends on the cipher at a counter if and only if the counter is one of those |
| `CtrCounter.StreamIsBlocks` | drivers/crypto/tegra-nvvse-cryptodev.c:1268-1282 | the output is that of the blocks, one after the other, each with the next counter (section 6.5 of NIST SP 800-38A) |
| `CtrCounter.OneCallDecrypts` | drivers/crypto/tegra-nvvse-cryptodev.c:1268-1274 | decryption in one call undoes any streamed encryption |
| `GcmLayout.LayoutInput` | drivers/crypto/tegra-nvvse-cryptodev.c:1496-1616 | for all AAD, data and chunk sizes the filled chunks, read through the scatterlist, are the AAD first, then the data, then on decryption the tag, and every chunk index is allocated |
| `GcmLayout.ExtractOutput` | drivers/crypto/tegra-nvvse-cryptodev.c:1640-1724 | the client gets exactly the bytes behind the AAD as data and on encryption the 16 after them as tag |
| `GcmLayout.RoundTrip` | drivers/crypto/tegra-nvvse-cryptodev.c:1640-1724 | laying out and extracting is the identity, also when the tag straddles two chunks, and fails exactly when too many chunks are needed |
| `GcmEngine.Encrypt` | drivers/crypto/tegra-nvvse-cryptodev.c:1496-1728 | for any engine that keeps lengths, the client gets exactly its ciphertext and tag for the AAD and data of the request |
| `GcmEngine.Decrypt` | drivers/crypto/tegra-nvvse-cryptodev.c:1496-1728 | the client gets exactly the data the engine opens from AAD, ciphertext and tag, or nothing |
| `GcmEngine.EncryptThenDecrypt` | drivers/crypto/tegra-nvvse-cryptodev.c:1496-1728 | decrypting what was encrypted gives the data back, for all lengths and wherever the tag falls |
| `GcmLayout.ChunksSuffice` | drivers/crypto/tegra-nvvse-cryptodev.c:48-51 | within the length limits at most 33 chunks are needed |
| `GcmLayout.ChunksNeeded` | drivers/crypto/tegra-nvvse-cryptodev.c:48-51 | and the longest decryption needs all 33 |
| `GcmLayout.CopyWhole` | drivers/crypto/tegra-nvvse-cryptodev.c:1560-1585 | whole chunks and the residual extend the message in place |
| `GcmLayout.FillChunk` | drivers/crypto/tegra-nvvse-cryptodev.c:1537-1558 | data first fills the chunk the AAD ends in |
| `GcmLayout.CopyTag` | drivers/crypto/tegra-nvvse-cryptodev.c:1587-1616 | the tag extends the message, across two chunks if it must |
| `GcmLayout.TakeWhole` | drivers/crypto/tegra-nvvse-cryptodev.c:1668-1693 | whole chunks and the residual are read back |
| `GcmLayout.TakeFirst` | drivers/crypto/tegra-nvvse-cryptodev.c:1645-1666 | data sharing a chunk with the AAD is read back |
| `GcmLayout.TakeTag` | drivers/crypto/tegra-nvvse-cryptodev.c:1695-1724 | the tag is read back from one chunk or two |
| `ChunkBuffer.AllocBuf` | drivers/crypto/tegra-nvvse-cryptodev.c:165-198 | chunk count, and the error when there are more than 33 |
| `ChunkBuffer.CopyUserBuf` | drivers/crypto/tegra-nvvse-cryptodev.c:228-262 | the chunks hold the user bytes, or the size is refused |
| `ChunkBuffer.CopyKernBuf` | drivers/crypto/tegra-nvvse-cryptodev.c:264-297 | the user gets the bytes the chunks hold, or the size is refused |
| `ChunkBuffer.SgBytesIs` | drivers/crypto/tegra-nvvse-cryptodev.c:188-198 | what the scatterlist exposes of chunks that hold a message is the message |
| `PodGovernor.RecordRun` | drivers/devfreq/governor_pod_scaling.c:654-670 | after any loads since the last clear, recent_high is the maximum of the last min(k, size) of them, history_count is min(k, size) and history_next is k mod size |
| `PodGovernor.History.Record` | drivers/devfreq/governor_pod_scaling.c:654-670 | one sample moves the window on by one and keeps recent_high its maximum |
| `PodGovernor.History.RescanHigh` | drivers/devfreq/governor_pod_scaling.c:656-663 | the rescan finds the maximum of everything but the oldest sample |
| `PodGovernor.History.Clear` | drivers/devfreq/governor_pod_scaling.c:589-600 | a suspend empties the window |
| `PodGovernor.WindowWrite` | drivers/devfreq/governor_pod_scaling.c:664-667 | writing at history_next and advancing is append-and-drop-oldest on the window, for a ring that is full or still filling |
| `PodGovernor.MaxOfIsMax` | drivers/devfreq/governor_pod_scaling.c:657-662 | the reference maximum is an upper bound and an element |
| `PodRequest.Governor.EstimateFreq` | drivers/devfreq/governor_pod_scaling.c:573-688 | every exit with its whole effect: suspend, disabled, user, idle, local request, and the periodic evaluation with history, averages, chosen frequency and last_scale |
| `PodRequest.Governor.Evaluate` | drivers/devfreq/governor_pod_scaling.c:647-687 | the chosen frequency is the smallest table entry not below the scaled request exactly when that entry survives the int, lies within the limits when the maximum is an entry below 2^31, and last_scale moves only when it changes |
| `PodRequest.Governor.ScalingStateCheck` | drivers/devfreq/governor_pod_scaling.c:317-376 | in the machine widths the average and the request are what they are over the integers, and the result lies between the limits |
| `PodRequest.Governor.ComputeRequest` | drivers/devfreq/governor_pod_scaling.c:329-361 | boost and damping chosen by load, compared as unsigned; the busyness comes from the maximum of the whole recorded window |
| `PodRequest.RequestNonnegativeIff` | drivers/devfreq/governor_pod_scaling.c:350-361 | the request is nonnegative at every load if and only if the biased share of the frequency does not exceed the frequency; a bias of up to 100 never makes it negative |
| `PodRequest.BoostAtIdle` | drivers/devfreq/governor_pod_scaling.c:350-358 | at zero load the boost is exactly minus the biased share of the frequency, target or no target |
| `PodRequest.BiasAbove100` | drivers/devfreq/governor_pod_scaling.c:350-361 | a bias above 100 can make it negative |
| `PodRequest.RequestBounded` | drivers/devfreq/governor_pod_scaling.c:346-361 | the request stays between zero and frequency plus a third of the maximum |
| `PodRequest.SmoothExact` | drivers/devfreq/governor_pod_scaling.c:363-365 | mixed 32-bit signed and unsigned smoothing is exact integer smoothing and stays within the bound |
| `PodRequest.DampedBetween` | drivers/devfreq/governor_pod_scaling.c:367-368 | damping stays within the bound and fixes a steady request |
| `PodMeaning.OverloadIsUndamped` | drivers/devfreq/governor_pod_scaling.c:346-349 | a device that is too busy asks for a third of the maximum on top of what it has, clamped, whatever it asked for before |
| `PodMeaning.DampEnds` | drivers/devfreq/governor_pod_scaling.c:367-368 | a factor of 10 is the request, a factor of 0 the average |
| `PodMeaning.DampMoves` | drivers/devfreq/governor_pod_scaling.c:367-368 | a growing factor moves the result from the average to the request, whichever is higher |
| `PodMeaning.BoostAtTargets` | drivers/devfreq/governor_pod_scaling.c:350-358 | no boost on target, the biased share of the frequency at twice the target |
| `PodMeaning.BoostAt` | drivers/devfreq/governor_pod_scaling.c:350-358 | k targets above the target the boost is k times the biased share |
| `PodMeaning.BoostMonotone` | drivers/devfreq/governor_pod_scaling.c:350-358 | more load, no less boost |
| `PodMeaning.RequestAtTargets` | drivers/devfreq/governor_pod_scaling.c:350-361 | a device on target asks for the frequency it has; at twice its target for the biased share more, up to a third of the maximum |
| `PodMeaning.BusynessReachesIff` | drivers/devfreq/governor_pod_scaling.c:334-339 | the busyness reaches k thousandths if and only if some recorded load does, or the average while none is recorded |
| `PodMeaning.OverloadedIff` | drivers/devfreq/governor_pod_scaling.c:346 | a load limit that is not negative is exceeded as over the integers, a negative one never |
| `PodMeaning.AsksUnless` | drivers/devfreq/governor_pod_scaling.c:325-327 | with a positive minimum nothing is asked for exactly within the blocking window or while no frequency is known |
| `PodMeaning.ClampNearest` | drivers/devfreq/governor_pod_scaling.c:156-168 | the clamp is the nearest frequency within the limits |
| `PodMeaning.SampleMeaning` | drivers/devfreq/governor_pod_scaling.c:647-652 | the smoothed load stays when steady, is the present one without smoothing and otherwise lies between; full and no load are 1000 and 0 thousandths |
| `PodRequest.LimitIsClampIff` | drivers/devfreq/governor_pod_scaling.c:156-168 | for a signed 64-bit request the unsigned comparison is the clamp if and only if the request is not negative or the limits leave no choice; otherwise a negative request becomes the maximum |
| `PodRequest.GetFreqRange` | drivers/devfreq/governor_pod_scaling.c:112-134 | limits of a table sorted either way, with the minimum never above the maximum |
| `PodRequest.FreqlistUp` | drivers/devfreq/governor_pod_scaling.c:385-396 | the entry some steps above the first not below the target, capped at the last, as an int: it is that entry if and only if the entry survives the int |
| `PodRequest.StoredExactIff` | drivers/devfreq/governor_pod_scaling.c:385-396 | a frequency survives the int return value if and only if it is below 2^31, or among the last 2^31 of 64 bits |
| `PodRequest.HighFrequencyIsLost` | drivers/devfreq/governor_pod_scaling.c:679 | concrete input: a request of 1.5 GHz on a table of 1 and 2.2 GHz gives neither entry, and more than the maximum |
| `PodRequest.UpEntryFound` | drivers/devfreq/governor_pod_scaling.c:390-395 | on an ascending table, without further steps, that is the smallest entry not below the target, or the last one when all are below |
| `PodRequest.ChooseFrequency` | drivers/devfreq/governor_pod_scaling.c:385-396 | on an ascending table the smallest entry not below the request if and only if that entry survives the int; the entry is within the maximum if and only if the table has an entry there |
| `WmarkGovernor.NeverReversesIff` | drivers/devfreq/tegra_wmark.c:96-113 | under a constant load, from any entry and over every sequence of events, the index never reverses direction if and only if every consecutive step lands where the load that caused it does not call for the way back: the exact condition on table, tunables and limits |
| `WmarkGovernor.SingleStepsNeverReverse` | drivers/devfreq/tegra_wmark.c:96-113 | with single steps it never reverses and stops within the table |
| `WmarkGovernor.AtMostOneReversal` | drivers/devfreq/tegra_wmark.c:485-489 | with single steps down and any number up, as shipped, it turns at most once, from up to down, and stops within twice the table |
| `WmarkGovernor.ShippedStepOvershoots` | drivers/devfreq/tegra_wmark.c:485-489 | the shipped step of four does not meet the condition on an evenly spaced table |
| `WmarkGovernor.DoubleStepsPingPong` | drivers/devfreq/tegra_wmark.c:103-110 | steps of two both ways can alternate for ever under a constant load |
| `WmarkGovernor.Reverses` | drivers/devfreq/tegra_wmark.c:96-113 | from any step that does not fit, a load and events that reverse |
| `WmarkGovernor.OneWayIfStepsFit` | drivers/devfreq/tegra_wmark.c:96-113 | every run is one-way when all steps fit |
| `WmarkGovernor.OnlyDownAfterDown` | drivers/devfreq/tegra_wmark.c:97-105 | once no up event can fire, only steps down follow, at most one per entry |
| `WmarkGovernor.OnlyUpAfterUp` | drivers/devfreq/tegra_wmark.c:100-110 | the mirror image |
| `WmarkGovernor.StopsBetweenMarks` | drivers/devfreq/tegra_wmark.c:197-216 | no event fires if and only if the load lies between the enabled average marks |
| `WmarkGovernor.CrossesAverage` | drivers/devfreq/tegra_wmark.c:197-216 | an event that fires also crosses the average mark of its side, and there is an entry to go to |
| `WmarkGovernor.FiresIff` | drivers/devfreq/tegra_wmark.c:197-216 | for which loads each event fires, over the integers: kilohertz of the entry or the one below times the target, plus or less the margin |
| `WmarkGovernor.LowerMarkOfLimit` | drivers/devfreq/tegra_wmark.c:206-211 | a minimum above the previous entry gives the lower average mark |
| `WmarkGovernor.MarksMeet` | drivers/devfreq/tegra_wmark.c:205-214 | the lower average mark of an entry is the upper one of the entry below: no gap and no overlap |
| `WmarkGovernor.MarksOrderedIff` | drivers/devfreq/tegra_wmark.c:197-214 | the four marks are ordered if and only if the down margin is at most the load target (or there is nothing to subtract from); otherwise the consecutive lower mark wraps in 32 bits |
| `WmarkGovernor.WmarkData.UpdateWmarkThreshold` | drivers/devfreq/tegra_wmark.c:174-219 | for any table and frequency: the index is the first entry not below it, the marks are those of that entry, and the result says whether there is such an entry (where there is none the source reads behind the table) |
| `WmarkGovernor.WmarkData.TargetFreq` | drivers/devfreq/tegra_wmark.c:83-118 | the frequency is an entry the whole step away in the direction of the event, or the end of the table when that is nearer; on an ascending table it never goes against the event |
| `WmarkGovernor.WmarkData.GetFreqIndex` | drivers/devfreq/tegra_wmark.c:64-81 | the first entry not below the frequency, or the table size |
| `SpiFifo.Loopback` | drivers/spi/spi-tegra124-slave.c:536-635 | a transfer whose words come back gives the client its own bytes, packed or not, for every valid length that fits the FIFO, and is booked in full |
| `SpiFifo.AccountingExactIff` | drivers/spi/spi-tegra124-slave.c:1814-1817 | actual_length grows by exactly the bytes received if and only if the transfer only receives or all its words are present; transmit-only is always exact |
| `SpiFifo.StreamRoundTrip` | drivers/spi/spi-tegra124-slave.c:536-635 | unpacking the packed words of any byte stream gives the stream, for every grouping of 1 to 4 bytes |
| `SpiFifo.WordRoundTrip` | drivers/spi/spi-tegra124-slave.c:557-559 | the bytes of a packed word are the bytes packed into it |
| `SpiFifo.LittleEndian` | drivers/spi/spi-tegra124-slave.c:558-559 | the first client byte is the lowest of the word |
| `SpiFifo.PackPush` | drivers/spi/spi-tegra124-slave.c:557-559 | OR-ing the next byte in at its place is packing one byte more |
| `SpiFifo.PackCount` | drivers/spi/spi-tegra124-slave.c:555 | one FIFO word for every group begun |
| `SpiFifo.CalculateParam` | drivers/spi/spi-tegra124-slave.c:500-534 | packing mode and word counts: every word of a valid length is transferred, and the FIFO word count is the rounded-up quotient |
| `SpiFifo.FillTxFifo` | drivers/spi/spi-tegra124-slave.c:536-578 | the words written are the packed form of as many client words as fit |
| `SpiFifo.PackStream` | drivers/spi/spi-tegra124-slave.c:556-563 | the nested word and byte loops write that packed form |
| `SpiFifo.StoreWords` | drivers/spi/spi-tegra124-slave.c:607-612 | the receive loops store the unpacked bytes at their place and touch nothing else |
| `SpiFifo.Transfer.ReadRxFifo` | drivers/spi/spi-tegra124-slave.c:580-635 | bytes stored, words and length left and position after a read, the rest of the buffer unchanged |
| `SpiFifo.Transfer.HandleMessage` | drivers/spi/spi-tegra124-slave.c:1731-1737 | the whole accounting state after a fixed-length transfer |
| `PtpClock.NeverTorn` | drivers/nvpps/nvpps_main.c:202-236 | if the call takes at most a second, the value is the clock at its first or its second nanosecond read, across any seconds rollover |
| `PtpClock.TornIff` | drivers/nvpps/nvpps_main.c:202-236 | exactly when it is neither, however long the call takes |
| `PtpClock.TornBeyondASecond` | drivers/nvpps/nvpps_main.c:223-233 | the bound of one second cannot be raised by a nanosecond |
| `PtpClock.GetSystime` | drivers/nvpps/nvpps_main.c:208-235 | read register by register, the value is the clock at the first or the second nanosecond read whenever the clock is monotone and the call takes at most a second |

## Left out

- ShaExact.FinalExactIff: the engine itself is not in the repository: it is taken to restart when its two length words agree and to pad when msg_left is the byte count it was given, which is what the driver sets them up for. After a copy length has wrapped the model only says that nothing is delivered.
- ShaDriver.HashStream: the device's own limit on a single request is left out, except for the 16 MiB - 1 that its buffer holds.
- IvcHandshake.HandshakeSafe: covers runs without timeouts, interrupted waits or malformed messages, and a server that sends one filler and one reply per request; a failed request ends in a state that takes no more steps.
- IvcOutcome.CanBeServedIffNotLost: the server's end of the channel is taken to follow the notification rule of drivers/platform/tegra/tegra-ivc.c:675-690 without its spurious notifications; the channel's reset notification (lines 4671-4682) and fairness are not modelled, so "can be served" means that some interleaving does.
- ScatterSplit.PrepareLinkedList: what is overwritten by a range behind the destination is not modelled, only exactly when there is one.
- CtrCounter.CryptoContext.AesCtr: only the user-nonce case; CBC, ECB and the initial vector generated by the server are left out. The OR of the bytes of a limb is modelled as a sum, after their places are shown to be disjoint.
- CmacTail.StreamingRefinesOneShot: the engine is taken to read all whole blocks of a request; that its message has room for one range only (`ScatterSplit.CmacCallStaysInsideIff`), key slots and initial vectors are left out.
- PodRequest.Governor.ScalingStateCheck: assumes a positive target, a bias of 0 to 100, a damping of 0 to 10 and frequencies in MHz whose smoothed sum stays below 2^31; overflow of the 64-bit products is not modelled.
- PodRequest.Governor.EstimateFreq: takes the same ranges as the request where it evaluates one; errors of the statistics callback and changes of the tunables or of the history size while running are left out.
- WmarkGovernor.NeverReversesIff: assumes a down margin of at most the load target and marks below 2^32, limits that are table entries, and events that fire exactly when an enabled mark is crossed.
- WmarkGovernor.WmarkData.UpdateWmarkThreshold: limits are parameters, so the range computation with PM QoS is left out; what is read behind the table is not modelled, only exactly when.
- WmarkGovernor.WmarkData.TargetFreq: for a current index in the table.
- SpiFifo.Loopback: FIFO transfers of fixed length; the DMA copies, variable-length transfers, the 64K packet-count correction, clocks and controller resets are left out.
- PtpClock.GetSystime: the TSC value and the device fields kept beside it are left out.
- S2Idle.PauseFindsAllParked: a fixed online set with the boot CPU in it and atomic mask operations; WFI, the hypervisor call itself and hotplug are left out.
- Allocation, DMA mapping of buffers other than scatter entries, user-copy faults, a suspended device and failing IVC sends: early returns without a property of their own.
- The table of zero-length digests: only that it is used is modelled. Export and import of a request context are plain copies.
- SHA requests longer than the client's 16 MiB - 1 and a 64-bit wrap of total_count.
- Probe, device tree, sysfs, debugfs, ioctl dispatch, character devices, key slots, random numbers, GMAC, TSEC and the register-level drivers of the repository.
