# UDS over LIN: verified model

This project models the diagnostic stack of a small ECU: the LIN transport layer that cuts UDS messages
into 8-byte frames and puts them together again, the security-access, session and transfer state machines,
the service dispatcher that joins them, and the tables behind the memory, trouble-code and routine
services. The project is written for Dafny 4.11; `dafny verify dfyconfig.toml` verifies it.

Every imperative part of the C code is a class or method whose contract ties its new state to a function
on values; the theorems are lemmas about those functions over all inputs, all runs and all interleavings.

| files | content |
|---|---|
| `Bytes`, `Uds`, `AddressRange` | fixed-width integers, big-endian words, memcpy/memset; requests and responses; the 32-bit range guard |
| `LinProtocol` | frame layout (ISO 17987-2 N_PCI scheme with the repository's own 3-bit PCI type), receive step and stream sender as functions |
| `LinReassembly`, `LinStreaming`, `LinSystem`, `LinOneShot` | theorems on receiving, on sending under flow control, on two joined nodes, and on the one-shot encoder |
| `LinFrames` | frames byte by byte, the address filter, which frames are accepted |
| `LinContext` | the transport context with its buffers, updated in place |
| `SeedKey`, `SeedVectors` | algebra of the LFSR and of the CRC-8 key check; recurrence of the output bits, known values |
| `Security`, `SecurityRuns`, `SecurityTotals`, `SecurityAnswers`, `SecurityModule` | security access (Annex I of ISO 14229-1:2020): functions, timed runs of a level and of all levels, answers as they follow from a run, the module in place |
| `Transfer`, `TransferRuns`, `TransferModule` | upload/download: functions, refinement of a ledger, the module in place |
| `Session`, `Services`, `Ecu`, `EcuRuns`, `EcuAnswers`, `SessionLocks`, `EcuTotals`, `EcuWitnesses`, `EcuModule` | session switch, dispatch table, one whole-ECU step, its runs, its answers byte by byte, when session changes lock, failed keys over all levels, concrete runs from boot, the ECU as objects |
| `Memory`, `MemoryModule` | 0x23 and 0x3D over registered regions, and the flat memory they implement |
| `Dtc`, `DtcReport`, `DtcModule` | the 32-slot trouble-code table as a finite map, its report, the table in place |
| `Routine`, `RoutineSessions`, `RoutineModule` | the routine registry as one lock, the session masks it ignores, the registry in place |

## Where the code and its documentation disagree

The model follows the code. For each disagreement a lemma says exactly when the documented behaviour holds; where that
leaves open whether the failing case is ever reached, another one gives an input or a run that reaches it.

- The one-shot encoder accepts 4095 bytes but narrows the remaining length to 8 bits: its CF loop reaches the
  end exactly for lengths up to 260 (`LinOneShot.LoopTerminatesIff`, `LinContext.Context.EncodeOneShot`; it makes no
  progress for any longer one: `LinOneShot.LoopStalls`).
- Flow control CONTINUE is documented to resume a paused stream; it does so exactly if the sender was never polled
  after a block had ended (`LinStreaming.StreamResumesIff`). Polling while `lin_tx_has_more` holds, as the header asks,
  does just that: such a caller gets one block out and never more (`LinStreaming.DocumentedDriverIff`; shortest run:
  `LinStreaming.TwoPollsGetStuck`).
- WAIT and OVERFLOW do not pause the sender (`LinStreaming.OnlyBlockSizePauses`; run from the start of a stream:
  `LinStreaming.NoPauseForWait`). The wait counter is reset by nothing short of a reset of the context and wraps at 256
  (`LinStreaming.WaitRefusedIff`; runs: `LinStreaming.WaitAcceptedAgain`).
- Leaving a non-default session is documented to lock security, leaving the default session not to. The ECU locks if
  and only if the change is answered, whatever session is left: it fails to lock on a suppressed change, and locks
  without reason on an answered change from the default session, because the lock flag of the session context is
  always set. `SessionLocks.RelockIff` says for any rule which changes follow it, `SessionLocks.LocksAsDocumentedIff`
  which runs from boot do. A request for the session already active locks by Figure 7 (key 3) and has no side effects by
  the comment in uds_session.c, so there is one instance for either reading (`SessionLocks.HeaderRelockIff`,
  `SessionLocks.FigureRelockIff`). Runs from boot: `SessionLocks.StaysUnlocked`, `SessionLocks.LocksWithoutReason`,
  `SessionLocks.SameSessionLocks`.
- By Figure 7 (key 3, ii) locking ends what depends on being unlocked. A transfer needs an unlocked ECU only when it is
  opened and outlives the locking; its blocks are still taken
  (`EcuRuns.BlockWhileLockedIff`; run from boot: `EcuWitnesses.BlockTakenByLockedEcu`).
- 0x23 and 0x3D compute lengths in 16 bits. Which requests slip past the length checks is stated by
  `Memory.OverrunIff`, and for which region tables there are any by `Memory.ReadsOverrunIff` and
  `Memory.WritesOverrunIff` (input: `Memory.GuardMissesLargeRead`).
- Report 0x0A is described as listing every stored code; codes with status 0 are missing
  (`DtcReport.SupportedReportsIff`; input: `DtcReport.SnapshotOnlyIsMissing`).
- 0x14 passes a 24-bit group where the database compares its lowest four bits with bits 23:20 of a code
  (`Dtc.ClearsNamedGroupIff`; input: `Dtc.ChassisRequestClearsPowertrain`).
- A routine's session mask is stored and never read, so a routine is served outside its sessions
  (`RoutineSessions.DocumentedIff`, over runs `RoutineSessions.RunDocumentedIff`, in the whole ECU
  `RoutineSessions.EcuRoutinesDocumentedIff`; run from boot: `RoutineSessions.EcuErasesInDefaultSession`).

## Reading aids

- `hide F;` in a proof only keeps the solver from unfolding `F` there.
- `Overrun` as an answer means that the next copy would leave its buffer.
- An uploaded or downloaded byte sequence, a buffer's valid prefix and a pointer-plus-length pair are all plain
  sequences of bytes. Time is an unbounded count of milliseconds.
- `Foreign` is whatever a handler outside the model answers. `Serve` carries a parsed request; `Uds.Parse` relates
  it to its raw bytes.
- Callbacks are parameters: a key validator is a function of level, seed and key that may differ from call to
  call, a routine's callback is its outcome at that call.

## Model

| member | source | states |
|---|---|---|
| LinReassembly.DecodeKeepsInv | src/uds/uds_lin_transport.c:220-353 | every frame whatsoever keeps the reassembly invariant: received length within announced length within 4095, and while CFs are awaited length and sequence number are both determined by the number of accepted CFs |
| LinReassembly.ReassemblySound | src/uds/uds_lin_transport.c:254-320 | after any traffic the buffer is exactly the data of the last accepted FF and the CFs since; whatever frame comes next completes a message only as the announced prefix of a gap-free FF-CF sequence |
| LinReassembly.ThinningUnobservable | src/uds/uds_lin_transport.c:220-353 | deleting any choice of rejected and FC frames from any traffic changes neither the completed messages nor the receiver |
| LinReassembly.InOrderDelivers | src/uds/uds_lin_transport.c:254-320 | frames that carry a message in order deliver it exactly once, whatever the receiver was doing before |
| LinReassembly.MessageFramesCarry | src/uds/uds_lin_transport.c:164-213 | the frames of a message carry exactly its payload, block by block, under the numbers the receiver expects |
| LinReassembly.SeqNumClosed | src/uds/uds_lin_transport.c:198-199 | CF k carries the number ((k - 1) mod 15) + 1 |
| LinReassembly.SkipUndetectedIff | src/uds/uds_lin_transport.c:286-298 | losing k consecutive CFs goes unnoticed at the next one if and only if k mod 15 = 0 |
| LinReassembly.SequenceWindowSafe | src/uds/uds_lin_transport.c:254-320 | for 7..95 bytes, however frames of the message are lost, duplicated or reordered, any completed message is the payload |
| LinReassembly.SequenceWindowExact | src/uds/uds_lin_transport.c:254-320 | 95 is exact: from 96 bytes on, delivering CF 1 and CF 16 in each other's place completes a message, which is wrong exactly if the two frames differ in their data |
| LinFrames.AddressFilterIff | src/uds/uds_lin_transport.c:228-232 | a frame is refused for its address exactly if it carries neither the context's address nor, with functional reception on, 0x7E; then nothing happens |
| LinFrames.AddressedDeliveryIff | src/uds/uds_lin_transport.c:220-353 | an encoding sent to any address delivers its payload exactly to the contexts with that address and, if it is 0x7E, to those with functional reception on; to all others it delivers nothing |
| LinFrames.FunctionalDeliveryIff | src/uds/uds_lin_transport.c:228-232 | a functional request is heard exactly by contexts with functional reception on or 0x7E as their own address |
| LinFrames.AcceptedIff | src/uds/uds_lin_transport.c:220-353 | of the frames that pass the filter, exactly which are accepted, by PCI byte, announced length, expected number and waits so far; a malformed frame changes nothing |
| LinFrames.HandedUp | src/uds/uds_lin_transport.c:238-352 | what each kind of accepted frame hands up |
| LinFrames.MessageBytes | src/uds/uds_lin_transport.c:126-214 | every byte of every frame of a 7 to 4095 byte message, by position in the payload, with the number of frames and the zero padding |
| LinFrames.ShortFrameBytes | src/uds/uds_lin_transport.c:400-545 | every byte of a stream's single frame and of a flow-control frame |
| LinFrames.SingleFrameEndsReassembly | src/uds/uds_lin_transport.c:238-252 | after an accepted single frame, and any traffic short of an FF, no CF is accepted |
| LinFrames.CompletionEndsReassembly | src/uds/uds_lin_transport.c:312-318 | the same after any completed message |
| LinFrames.FreshContext | src/uds/uds_lin_transport.c:58-88 | a fresh context hears its own address and 0x7E, awaits no CF, has no WAIT counted and no block limit, and sends nothing |
| LinStreaming.OnlyFcReachesSender | src/uds/uds_lin_transport.c:322-352 | no frame but flow control with an accepted address changes the sending half of a context |
| LinStreaming.RespondAt | src/uds/uds_lin_transport.c:587-628 | a CF appears exactly on a poll of a ready sender and is the next CF of the payload |
| LinStreaming.EmitsTheMessage | src/uds/uds_lin_transport.c:587-628 | any interleaving of polls and flow control emits exactly the next CFs in order, without repetition, and leaves exactly the unsent payload pending |
| LinStreaming.BlockYieldsExactly | src/uds/uds_lin_transport.c:595-606 | between two flow-control frames, n polls yield exactly min(n, rest of the block, rest of the payload) CFs |
| LinStreaming.ContinueGrantsBlock | src/uds/uds_lin_transport.c:328-336 | CONTINUE opens a block of the size it carries, whatever was used up before: n polls then yield min(n, block, rest of the payload) CFs |
| LinStreaming.BlockCounted | src/uds/uds_lin_transport.c:587-628 | over any polls and flow control the place in the block is the number of CFs since the last CONTINUE, modulo 256 |
| LinStreaming.LastCfEnds | src/uds/uds_lin_transport.c:620-624 | with its last CF, and not before, a stream is over and the sender idle |
| LinStreaming.AbortSilences | src/uds/uds_lin_transport.c:643-651 | after an abort, and after a payload sent as a single frame, no polls or flow control make the sender emit anything |
| LinStreaming.BlockWaitIsFinal | src/uds/uds_lin_transport.c:595-606 | once a sender has been polled beyond its block, no frame and no poll ever makes it emit a CF again |
| LinStreaming.ContinueResumesIff | src/uds/uds_lin_transport.c:328-336 | CONTINUE lets an active sender emit its next CF if and only if it is not in BLOCK_WAIT |
| LinStreaming.StuckIffOverpolled | src/uds/uds_lin_transport.c:595-606 | a sender ends in BLOCK_WAIT if and only if it was polled after a block had ended |
| LinStreaming.StreamResumesIff | src/uds/uds_lin_transport.c:328-336 | from the start of a stream, after any polls and flow control: CONTINUE yields the next CF of an unfinished stream if and only if the sender was never polled after a block had ended |
| LinStreaming.TwoPollsGetStuck | src/uds/uds_lin_transport.c:595-606 | concrete failing run: for every payload above 11 bytes block size 1 and two polls leave the stream stuck after one CF |
| LinStreaming.DocumentedDriverIff | inc/uds/uds_lin_transport.h:340-352 | a caller that polls while more is announced gets exactly one block out, whatever flow control follows; so it gets the whole message if and only if the first CONTINUE sets no limit or a block the message fits in |
| LinStreaming.OnlyBlockSizePauses | src/uds/uds_lin_transport.c:323-349 | WAIT and OVERFLOW stop a sender exactly if the block size they carry is already used up |
| LinStreaming.NoPauseForWait | src/uds/uds_lin_transport.c:323-349 | failing run from the start of a stream: CONTINUE, poll, WAIT or OVERFLOW with block size 0, poll yields two CFs |
| LinStreaming.WaitsAccumulate | src/uds/uds_lin_transport.c:337-346 | short of a reset, the wait counter is the number of accepted WAITs since initialisation modulo 256, whatever frames are decoded and whatever is polled, begun, aborted or encoded in between |
| LinStreaming.WaitRefusedIff | src/uds/uds_lin_transport.c:337-346 | a WAIT is refused if and only if that number, itself included, exceeds 3 modulo 256 |
| LinStreaming.WaitAcceptedAgain | src/uds/uds_lin_transport.c:337-346 | concrete runs: the fourth WAIT is refused, the 257th is accepted again |
| LinStreaming.FcRoundTrip | src/uds/uds_lin_transport.c:400-417 | flow-control parameters survive encoding and decoding and touch nothing but the sender |
| LinStreaming.DisciplinedDrains | src/uds/uds_lin_transport.c:587-628 | a sender polled only when ready emits one CF per poll until nothing is left |
| LinStreaming.StreamIsMessage | src/uds/uds_lin_transport.c:522-628 | for every block-size schedule, FF and CFs of a drained stream are byte for byte the one-shot frames |
| LinStreaming.LazyScheduleFinishes | src/uds/uds_lin_transport.c:587-637 | a driver that supplies CONTINUE only when the sender is not ready always finishes, polling once per CF, for any block sizes |
| LinSystem.RunKeepsInv | src/uds/uds_lin_transport.c:220-628 | the two-node invariant holds over every run of polls, arbitrary frames at the sender, deliveries and foreign traffic at the receiver, for every address in the PDU |
| LinSystem.StreamedMessageIsSafe | src/uds/uds_lin_transport.c:522-628 | for 7..4095 bytes, every address in the PDU and every run: the sender has emitted exactly the leading frames and holds exactly the rest, a listening receiver holds a prefix of the payload, at most one message arrives and it is the payload; once drained and delivered ceil((n-5)/6) CFs were used, and the payload was received if and only if the receiver accepts both the address in the PDU and the sender's own |
| LinSystem.StaleReceiverMixes | src/uds/uds_lin_transport.c:254-320 | why the receiver must not be waiting for CFs if it rejects the FF: it completes an older message with the new CFs |
| LinSystem.CompletableIff | src/uds/uds_lin_transport.c:522-637 | after any run so far, the message can still be completed if and only if the receiver accepts both addresses and the sender is not stuck in BLOCK_WAIT |
| LinSystem.CompletesFrom | src/uds/uds_lin_transport.c:522-637 | from any such state, polls, CONTINUE of any block sizes whenever the sender is not ready, and deliveries complete it |
| LinSystem.EveryMessageCompletes | src/uds/uds_lin_transport.c:522-637 | whatever block sizes are announced, if CONTINUE is supplied before a poll beyond the block, every message of 7..4095 bytes is delivered, once, to a receiver that accepts both addresses |
| LinOneShot.EncodingRoundTrip | src/uds/uds_lin_transport.c:126-320 | decoding an encoding in order hands up exactly the payload, and its number of frames is the one computed beforehand |
| LinOneShot.StreamStartIff | src/uds/uds_lin_transport.c:522-581 | a stream start refuses exactly the lengths without an encoding and then changes nothing; up to 6 bytes it yields the whole encoding, beyond that its first frame |
| LinOneShot.PageKept | src/uds/uds_lin_transport.c:190-210 | the CF loop never leaves the 256-byte page of the remaining length it started in |
| LinOneShot.LoopTerminatesIff | src/uds/uds_lin_transport.c:190-210 | the CF loop reaches the end of the payload if and only if it has at most 260 bytes |
| LinOneShot.LoopStalls | src/uds/uds_lin_transport.c:190-210 | for longer payloads every iteration from the 44th on makes no progress |
| LinContext.Context.constructor | src/uds/uds_lin_transport.c:58-88 | a fresh context is the initial node and satisfies the invariant |
| LinContext.Context.Reset | src/uds/uds_lin_transport.c:359-376 | reset gives a fresh context at the default address, except that the last flow-control parameters are kept |
| LinContext.Context.Decode | src/uds/uds_lin_transport.c:220-353 | the in-place decoder does what the receive step does, on every frame: state, buffers, status and reported data |
| LinContext.Context.BeginStream | src/uds/uds_lin_transport.c:522-581 | the in-place stream start does what the stream-begin step does and leaves the receiver alone |
| LinContext.Context.NextCf | src/uds/uds_lin_transport.c:587-628 | the in-place poll does what the poll step does and leaves the receiver alone |
| LinContext.Context.HasMore | src/uds/uds_lin_transport.c:634-637 | the next poll yields a CF if and only if this test holds and the block is not spent |
| LinContext.Context.AbortStream | src/uds/uds_lin_transport.c:643-651 | aborting empties the stream and changes nothing else |
| LinContext.Context.CalcFrameCount | src/uds/uds_lin_transport.c:99-120 | the count is the number of frames needed, modulo 256, for every 16-bit length |
| LinContext.Context.EncodeOneShot | src/uds/uds_lin_transport.c:126-214 | exactly for 1..260 bytes and enough frames the result is the encoding, nothing behind it is touched; rejected exactly for a bad length or too few frames by the 8-bit count; otherwise it runs over the caller's frames |
| LinContext.Context.EncodeCfs | src/uds/uds_lin_transport.c:190-210 | the CF loop writes exactly the message's CFs behind the FF, or overruns |
| SeedKey.ShiftBijective | src/uds/uds_security.c:57-75 | the Galois step is a bijection on 32-bit states that fixes only zero |
| SeedKey.FourBytesIdentify | src/uds/uds_security.c:57-90 | two different states never give the same first four bytes |
| SeedKey.SeedsDiffer | src/uds/uds_security.c:83-90 | seeds of different levels differ within their first four bytes |
| SeedKey.CrcLinear | src/uds/uds_security.c:168-207 | the CRC register is linear over XOR in start value and data together |
| SeedKey.Crc8Affine | src/uds/uds_security.c:168-207 | CRC-8 over seeds of one length is affine under XOR |
| SeedKey.OneByteChangeDetected | src/uds/uds_security.c:168-207 | changing exactly one byte of a seed always changes its CRC |
| SeedKey.ExactlyOneLastKeyByte | src/uds/uds_security.c:168-207 | for every seed and leading key bytes exactly one last byte is accepted |
| SeedKey.KeyFitsNoNeighbour | src/uds/uds_security.c:168-207 | a key accepted for one seed is refused for every seed that differs in one byte |
| SeedVectors.OutputRecurrence | src/uds/uds_security.c:57-75 | from any state, every output bit is the sum modulo 2 of those 32, 22, 2 and 1 places earlier |
| SeedVectors.FirstSeed | src/uds/uds_security.c:83-90 | the seed of level 1 is 04 2A DF 5C E4 72 3D 0A |
| SeedVectors.CheckValue | src/uds/uds_security.c:168-207 | the CRC-8 of the digits 1 to 9 is FB |
| SeedVectors.FirstKeys | src/uds/uds_security.c:168-207 | keys that fit the seed of level 1, in one and in two bytes, and one that does not |
| SecurityRuns.RunKeepsInv | src/uds/uds_security.c:258-434 | over every timed run the state of each level agrees with an account kept from the answers alone |
| SecurityRuns.FailedKeysBounded | src/uds/uds_security.c:276-419 | in D ms a level rejects at most 5 * (1 + accepted + D div 10000) keys, 0x36 is answered at most 1 + D div 10000 times over all levels, and no attempt counter exceeds 5 |
| SecurityRuns.BoundAttained | src/uds/uds_security.c:357-416 | that bound cannot be improved: for every k some run of 10 k seconds attains it |
| SecurityTotals.AllFailedKeysBounded | src/uds/uds_security.c:276-419 | in D ms all sixteen levels together reject at most 80 + 5 * (accepted + D div 10000) keys |
| SecurityTotals.AllBoundAttained | src/uds/uds_security.c:357-416 | that bound cannot be improved: for every k some run of 10 k seconds attains it |
| SecurityRuns.DelayBlocksEverything | src/uds/uds_security.c:276-434 | while the delay runs no seed is issued and no validator is called at any level, and locking ends neither the delay nor any count |
| SecurityRuns.DelayReportedExactly | src/uds/uds_security.c:469-486 | after any run the reported remaining time is exactly how long everything stays refused, at most 10 s |
| SecurityRuns.UnlockNeedsKey | src/uds/uds_security.c:330-419 | a level turns unlocked only by a sendKey whose validator accepted the seed in force |
| SecurityRuns.UnlockProvenance | src/uds/uds_security.c:292-434 | a level unlocked after any run owes it to a sendKey at some position, accepted against the seed then in force, with no lock since |
| SecurityRuns.ConsultedIffVerdict | src/uds/uds_security.c:357-416 | the validator is consulted exactly when the key is then accepted or rejected |
| SecurityRuns.OneUsePerSeed | src/uds/uds_security.c:292-419 | validator calls and 0x36 answers of a level never exceed the seeds issued to it; it is unlocked exactly if a key was accepted since the last lock |
| SecurityAnswers.LevelOfSubfunction | src/uds/uds_security.c:135-150 | level k + 1 owns exactly subfunctions 2k + 1 and 2k + 2; 1 to 32 are valid |
| SecurityAnswers.KeyDecided | src/uds/uds_security.c:330-419 | with a seed pending and no delay in force: after five failures the key is answered 0x36 and starts 10 s of delay; before, the validator alone decides, and an accepted key unlocks however many failures came before; nothing else changes |
| SecurityAnswers.KeyRefused | src/uds/uds_security.c:330-375 | every other key is refused with 0x12, 0x24 or 0x37, exactly when, and changes nothing |
| SecurityAnswers.SeedAnswer | src/uds/uds_security.c:258-318 | when a seed is refused, with which code, and that nothing changes then |
| SecurityAnswers.SeedWithheld | src/uds/uds_security.c:295-301 | an unlocked level answers zeros and changes nothing |
| SecurityAnswers.SeedGiven | src/uds/uds_security.c:303-318 | a locked level answers the seed of its own level, at most 8 bytes, keeps it for the key and no other level moves |
| SecurityAnswers.KeyDecidedByAccount | src/uds/uds_security.c:258-434 | after any timed run the fate of a key follows from what was answered before: refused without a seed in force and for 10 s after any 0x36, 0x36 after five rejections in a row, else accepted exactly if the validator accepts it |
| SecurityAnswers.SeedDecidedByAccount | src/uds/uds_security.c:258-434 | and that of a requested seed: refused for 10 s after any 0x36, zeros while unlocked, else issued |
| SecurityAnswers.ReportedDelay | src/uds/uds_security.c:469-486 | after any run the reported delay is what is left of 10 s since the last 0x36 |
| SecurityModule.DefaultKeyValidate | src/uds/uds_security.c:168-207 | the two loops decide whether the XOR of the key bytes is the CRC-8 of the seed |
| SecurityModule.Module.GenerateSeed | src/uds/uds_security.c:83-90 | the bit loops draw exactly the seed that belongs to the level |
| SecurityModule.Module.RequestSeed | src/uds/uds_security.c:258-318 | the in-place service does what the request-seed step does: new state, answer and seed |
| SecurityModule.Module.SendKey | src/uds/uds_security.c:330-419 | the in-place service does what the send-key step does, including the timer |
| SecurityModule.Module.Lock | src/uds/uds_security.c:424-434 | every level loses its unlock and its pending seed, counters and delay stay |
| SecurityModule.Module.IsUnlocked | src/uds/uds_security.c:439-449 | true exactly if some level is unlocked |
| SecurityModule.Module.DelayRemainingMs | src/uds/uds_security.c:469-486 | the remaining time, clearing an expired delay on the way |
| AddressRange.GuardExact | src/uds/uds_svc_upload.c:76-100 | the 32-bit wrap guard and comparison decide exactly whether the integer interval lies in the region |
| Transfer.RangeCheckExact | src/uds/uds_svc_upload.c:76-100 | a request is in range exactly if its non-empty integer interval lies in one registered region |
| TransferRuns.StepRefines | src/uds/uds_svc_upload.c:116-470 | every service call answers as the ledger expects, hands the expected bytes to the response, and keeps the machine in step with the ledger |
| TransferRuns.MachineRefinesLedger | src/uds/uds_svc_upload.c:116-470 | over every run the machine gives exactly the answers, and hands out exactly the bytes, of a ledger that only remembers what was announced, received and fetched; 0x71 is never answered |
| TransferRuns.TransferConservation | src/uds/uds_svc_upload.c:288-416 | from initialisation on: buffered plus remaining equals announced, at most 1024; a download holds the first min(M, total) bytes received; an upload holds the supply minus what was fetched; the counter is the number of matching calls modulo 256 |
| TransferRuns.FetchesDrain | src/uds/uds_svc_upload.c:355-416 | with t bytes to fetch exactly the first ceil(t / 256) calls are answered with data, all later ones with 0x31, and the blocks together are exactly the next t bytes of the supply |
| TransferRuns.UploadDrains | src/uds/uds_svc_upload.c:355-416 | an upload of M bytes supplied with L yields exactly ceil(min(L, M) / 256) blocks, whose bytes together are the first min(L, M) bytes supplied; the buffer keeps the others and M - min(L, M) are still expected |
| Transfer.PointerShowsBlockIff | src/uds/uds_svc_upload.c:380-404 | if a response points at the buffer instead of copying, then after the memmove it shows the block if and only if the bytes behind the block repeat it |
| TransferModule.Module.IsRangeValid | src/uds/uds_svc_upload.c:76-100 | the scan finds a covering region exactly if there is one |
| TransferModule.Module.RequestTransfer | src/uds/uds_svc_upload.c:116-238 | the in-place service opens a transfer exactly when the request step does, with the same state and answer |
| TransferModule.Module.TransferData | src/uds/uds_svc_upload.c:268-424 | the in-place service takes or gives a block exactly as the block step does and hands the front of the buffer to the response; the memmove drops exactly that |
| TransferModule.Module.TransferExit | src/uds/uds_svc_upload.c:430-470 | the in-place service closes a transfer exactly as the exit step does |
| Session.SwitchKeepsInv | src/uds/uds_session.c:77-138 | exactly sessions 1 to 3 are entered, with their own timing; events are paused exactly outside the default session; the lock flag stays set |
| Session.Context.Switch | src/uds/uds_session.c:77-138 | the in-place switch does what the switch step does and leaves the context alone on an unsupported session |
| Services.LookupFinds | src/uds/uds_service.c:63-71 | lookup succeeds exactly for registered SIDs and yields their registration |
| Services.BuiltInServices | src/uds/uds_service.c:288-452 | each modelled SID reaches its own handler; the four transfer services are allowed exactly in the programming session, 0x10 and 0x27 in all three |
| Services.ServiceTable.constructor | src/uds/uds_service.c:288-452 | all 26 registrations succeed |
| Services.ServiceTable.Register | src/uds/uds_service.c:103-137 | a registration succeeds exactly for a new SID while a slot is free, and appends exactly that entry |
| Services.ServiceTable.Find | src/uds/uds_service.c:63-71 | the scan of the slots is the lookup in the list of registrations |
| Uds.ParseKeepsBytes | src/uds/uds_core.c:30-69 | splitting byte 1 and putting it together again loses nothing |
| EcuRuns.AdvanceKeepsInv | sim/main_sim.c:80-148 | every input keeps the session supported, its lock flag set and the unlock flag equal to "some level unlocked" |
| EcuRuns.StepByRoute | src/uds/uds_service.c:144-277 | a step is exactly the work of the handler its SID and session lead to, then the synchronisation; without one nothing moves |
| EcuRuns.RouteMeaning | src/uds/uds_service.c:179-231 | which handler a SID reaches in which session; no transfer service is reachable outside the programming session |
| EcuRuns.SessionControlOutcome | src/uds/uds_svc_diagcomm.c:123-173 | a supported session change always happens; all levels are locked if it is answered, and keep their state if the response is suppressed |
| EcuRuns.LockedAfterChangeIff | sim/main_sim.c:122-148 | after a session change the ECU is locked if and only if the response was not suppressed or nothing was unlocked, whatever session is left |
| SessionLocks.RelockIff | src/uds/uds_session.c:91-126 | for any rule on which changes must lock: a session change leaves the lock as the rule says if and only if nothing was unlocked, or a response was asked for exactly where the rule locks |
| SessionLocks.HeaderRelockIff | inc/uds/uds_session.h:47-63 | the instance for the documented rule of the header, a same-session request having no side effects |
| SessionLocks.FigureRelockIff | inc/uds/uds_session.h:47-63 | the instance for Figure 7 of ISO 14229-1, by which every change in a non-default session locks |
| SessionLocks.OnlyChanges | src/uds/uds_svc_diagcomm.c:123-173 | nothing but a 0x10 request with a supported session and no data changes the session |
| SessionLocks.LocksAsDocumentedIff | sim/main_sim.c:80-148 | for any rule and every run from boot: the ECU is unlocked exactly when it should be, all along, if and only if before every session change made while unlocked a response is asked for exactly where the rule locks |
| SessionLocks.StaysUnlocked | sim/main_sim.c:122-148 | failing run from boot: 10 03, seed and key, 10 82 leave the extended session and stay unlocked, although every reading locks |
| SessionLocks.LocksWithoutReason | src/uds/uds_session.c:108-113 | failing run from boot: seed and key, 10 03 leave the default session and lock, although no reading locks |
| SessionLocks.SameSessionLocks | src/uds/uds_session.c:93-103 | failing run from boot: 10 03, seed and key, 10 03 lock, although a request for the active session is said to have no side effects |
| EcuRuns.TimingReported | src/uds/uds_svc_diagcomm.c:158-173 | an answered session change reports the timing of the session entered, as big-endian words |
| EcuRuns.FunctionalOnlyMutes | src/uds/uds_service.c:147-277 | functional addressing changes the ECU as physical addressing does; exactly the negative answers 0x11, 0x12 and 0x31 are not sent |
| EcuRuns.TransferGuarded | src/uds/uds_svc_upload.c:116-470 | transfers open, take blocks and close only on their own service in the programming session, open only while unlocked, and nothing else starts or ends one |
| EcuRuns.BlockTakenIff | src/uds/uds_svc_upload.c:268-424 | a block is taken exactly if it arrives in the programming session and the transfer machine accepts it; the lock is not asked |
| EcuRuns.FlagFollows | sim/main_sim.c:122-148 | the unlock flag is set by accepted keys and cleared by answered session changes, and by nothing else |
| EcuRuns.BlockWhileLockedIff | src/uds/uds_svc_upload.c:268-424 | over every run from boot, a block is taken by a locked ECU if and only if, since the transfer was opened, a session change was answered and no key accepted after it |
| EcuWitnesses.BlockTakenByLockedEcu | src/uds/uds_svc_upload.c:268-424 | concrete run from boot in which that happens |
| EcuRuns.EcuSafe | sim/main_sim.c:80-251 | after every run from boot the session is one of three, locking stays demanded, and the ECU is unlocked exactly if a key was accepted after the last answered session change |
| EcuRuns.RunMirrored | src/uds/uds_svc_diagcomm.c:220-315 | every run of the ECU is a run of its security module, with the same accepted and rejected keys |
| EcuRuns.EcuFailedKeysBounded | src/uds/uds_svc_diagcomm.c:220-315 | the bound on failed keys holds for the whole ECU, whatever is requested in between |
| EcuTotals.EcuAllFailedKeysBounded | src/uds/uds_svc_diagcomm.c:220-315 | the bound over all levels holds for the whole ECU, whatever is requested in between |
| EcuRuns.RejectionVisible | src/uds/uds_svc_diagcomm.c:268-315 | a key is rejected exactly if the tester sees 7F 27 35 |
| EcuRuns.EcuTransferRefines | src/uds/uds_svc_upload.c:116-470 | the transfer half of every ECU run obeys the ledger |
| EcuRuns.EcuDownloadConservation | src/uds/uds_svc_upload.c:288-353 | in every state reached from boot an active download holds exactly the first min(M, total) bytes accepted and expects the rest |
| EcuAnswers.RefusedByDispatcherIff | src/uds/uds_service.c:144-452 | for every service identifier and session: the dispatcher refuses exactly the unregistered ones with 0x11, silently under functional addressing, and those of another session with 0x7F, and changes nothing |
| EcuAnswers.NoSession | src/uds/uds_service.c:186-197 | in a session that is none of the three every registered service is answered 7F 00 7F and nothing changes |
| EcuAnswers.PassedOn | src/uds/uds_service.c:229-277 | a served request without a handler here is answered by its own service, and nothing modelled changes |
| EcuAnswers.AnsweredUnlessSuppressed | src/uds/uds_service.c:229-277 | a physically addressed request is answered unless it asked to suppress a positive answer |
| EcuAnswers.FunctionalKeepsBack | src/uds/uds_service.c:147-277 | functional addressing keeps back exactly the negative answers 0x11, 0x12 and 0x31 and changes nothing else |
| EcuAnswers.SessionAnswer | src/uds/uds_svc_diagcomm.c:123-173 | the answer to 0x10 byte by byte, with the session and event state after it |
| EcuAnswers.SeedAnswer | src/uds/uds_svc_diagcomm.c:220-267 | the answer to a seed request byte by byte in every reachable state |
| EcuAnswers.KeyAnswer | src/uds/uds_svc_diagcomm.c:268-315 | the answer to a key in every reachable state: 67 exactly if the validator accepts it, fewer than five failures are counted, a seed is pending and no delay runs; and then the ECU is unlocked |
| EcuAnswers.KeyAnswerOverRuns | src/uds/uds_svc_diagcomm.c:220-315 | from boot over every run: that answer follows from the account of what was answered before |
| EcuAnswers.SeedAnswerOverRuns | src/uds/uds_svc_diagcomm.c:220-315 | the same for a requested seed |
| EcuAnswers.OpenAnswer | src/uds/uds_svc_upload.c:116-262 | a transfer opens exactly in the programming session, unlocked, for 1 to 1024 bytes all in one region, with none open; each refusal code exactly when, and nothing changes on a refusal |
| EcuAnswers.BlockAnswer | src/uds/uds_svc_upload.c:268-424 | the answer to every block against the ledger: an upload block carries exactly the next bytes of the supply, a download block is only confirmed, each refusal exactly when |
| EcuAnswers.ExitAnswer | src/uds/uds_svc_upload.c:430-470 | the answer to 0x37, and that the transfer is over exactly if it is positive |
| EcuAnswers.TesterReadsTheLedger | src/uds/uds_svc_upload.c:355-424 | over every run of the ECU the data of all positive 0x76 answers, joined, are exactly the bytes the ledger hands out |
| EcuAnswers.BlocksReadOn | src/uds/uds_svc_upload.c:355-424 | over any blocks these are consecutive bytes of the supply, without gap or repetition |
| EcuModule.Simulator.constructor | sim/main_sim.c:157-203 | the joined objects start in the boot state |
| EcuModule.Simulator.Dispatch | src/uds/uds_service.c:144-277 | the in-place dispatcher does what the dispatch step does: lookup, session checks, handler, muted negative answers |
| EcuModule.Simulator.Synchronise | sim/main_sim.c:122-148 | the in-place synchronisation does what the synchronisation step does |
| EcuModule.Simulator.Step | sim/main_sim.c:215-251 | dispatching one complete request and synchronising is one step of the whole ECU |
| Memory.AccessRoundTrip | src/uds/uds_svc_data.c:99-152 | any mix of 1 to 4 byte formats decodes to the address and size encoded |
| Memory.UnderstoodIff | src/uds/uds_svc_data.c:99-152 | exactly which requests are understood, and that address and size are their big-endian numbers |
| Memory.FindExact | src/uds/uds_svc_data.c:162-189 | a region is found exactly if the integer interval lies in one region |
| Memory.LengthExactIff | src/uds/uds_svc_data.c:397-398 | the 16-bit length is the true one modulo 65536, hence the true one if and only if that is below 65536 |
| Memory.GuardMissesLargeRead | src/uds/uds_svc_data.c:397-404 | failing input: over one region of 65536 bytes, the request for all of them in 4-byte formats looks like an answer of 9 bytes and overruns the response buffer |
| Memory.OverrunIff | src/uds/uds_svc_data.c:397-412 | for any regions, exactly which reads pass the length check although their answer does not fit the response buffer, and which writes although their request does not carry the bytes |
| Memory.ReadsOverrunIff | src/uds/uds_svc_data.c:397-412 | some read overruns the response buffer if and only if some region has more than 65526 bytes |
| Memory.WritesOverrunIff | src/uds/uds_svc_data.c:843-865 | some write is read past its end if and only if some region has more than 65527 bytes |
| Memory.FlatIff | src/uds/uds_svc_data.c:162-189 | accesses of any length work on the bytes single-byte accesses work on if and only if every region is apart from all earlier ones or contained in one of them |
| Memory.ReadExact | src/uds/uds_svc_data.c:366-416 | for any regions, a read returns data exactly if its interval lies in one region and its true length fits the response; the data are the bytes of the first such region and, in a flat table, the flat memory's |
| Memory.WriteExact | src/uds/uds_svc_data.c:804-875 | for any regions, a write is accepted exactly if unlocked, complete and within one region; in a flat table it changes exactly the addressed bytes, to the bytes sent |
| Memory.AnswersNameTheAccess | src/uds/uds_svc_data.c:396-416 | every positive answer, parsed again, gives the address and size of its request |
| Memory.ReadRefused | src/uds/uds_svc_data.c:366-416 | which reads are refused with 0x13, 0x31 and 0x14, and which are answered, by the addresses the regions have |
| Memory.WriteRefused | src/uds/uds_svc_data.c:804-875 | a write to a locked ECU is refused with 0x33; which others with 0x13 and 0x31; a refused write changes nothing |
| Memory.SmallRegionsDefined | src/uds/uds_svc_data.c:366-875 | over regions of at most 65526 bytes no run ever overruns |
| Memory.MemoryIsFlat | src/uds/uds_svc_data.c:366-875 | in a flat table, after any mix of reads and writes that does not overrun, every address holds what was last written to it |
| MemoryModule.Module.Register | src/uds/uds_svc_data.c:195-212 | a region is registered exactly if it is an interval and the table has room, whatever it overlaps, however large it is, and whatever buffer it names; the table stays fit for the services if the buffer is large enough and not shared |
| MemoryModule.Module.Parse | src/uds/uds_svc_data.c:99-152 | the parse loops yield the big-endian address and size, or nothing for a malformed request |
| MemoryModule.Module.FindRegion | src/uds/uds_svc_data.c:162-189 | the scan yields the first covering region |
| MemoryModule.Module.Read | src/uds/uds_svc_data.c:366-416 | the in-place service answers as the read step does, up to the copy that would overrun |
| MemoryModule.Module.Write | src/uds/uds_svc_data.c:804-875 | the memcpy into the application's buffer is the write step on the regions, up to the copy that would overrun; other buffers keep their bytes |
| Dtc.FindOrCreateRefines | src/uds/uds_dtc.c:51-73 | a known code is found, an unknown one added empty while there is room; it fails exactly on an unknown code in a full table |
| Dtc.SetStatusRefines | src/uds/uds_dtc.c:86-120 | setting and clearing bits does to the table what it does to the map |
| Dtc.SettingAddsBits | src/uds/uds_dtc.c:112-115 | setting bits of a stored code makes its status the old one OR the mask; no other code is touched |
| Dtc.ClearingTakesBits | src/uds/uds_dtc.c:116-119 | clearing makes it the old one AND NOT the mask |
| Dtc.UnknownCodeStored | src/uds/uds_dtc.c:86-110 | an unknown code is stored with just the bits set while there is room; clearing its bits, and code 0, do nothing |
| Dtc.BitsAreLastWritten | src/uds/uds_dtc.c:32-304 | from initialisation over every run, each status bit of each code is what was last written to it since the code was stored |
| Dtc.GetStatusRefines | src/uds/uds_dtc.c:125-133 | the status read is the map's, 0 for an unknown code |
| Dtc.ClearRefines | src/uds/uds_dtc.c:168-192 | clearing removes exactly the codes of the group |
| Dtc.ClearedIff | src/uds/uds_dtc.c:168-192 | a code is gone exactly if the group is FFFFFF or its bits 3:0 are the code's bits 23:20; the others stay as they are |
| Dtc.ClearsNamedGroupIff | src/uds/uds_svc_stored.c:358-369 | 0x14 clears the group it names if and only if the group is FFFFFF or its first and last hexadecimal digit agree |
| Dtc.ChassisRequestClearsPowertrain | src/uds/uds_dtc.c:168-192 | concrete failing input: group 0x200000 removes exactly the codes of group 0 |
| Dtc.SetSnapshotRefines | src/uds/uds_dtc.c:267-283 | storing a snapshot succeeds exactly for a real code, 1 to 8 bytes and room, and updates the map at that code alone |
| Dtc.SetExtendedRefines | src/uds/uds_dtc.c:288-304 | the same for extended data |
| Dtc.StoredIff | src/uds/uds_dtc.c:267-304 | when data can be stored, in plain numbers |
| Dtc.AbsSize | src/uds/uds_dtc.c:51-73 | the table is full exactly if it holds as many different codes as slots |
| Dtc.TableRefinesMap | src/uds/uds_dtc.c:32-304 | over every run the table is a finite map of at most 32 codes, without duplicates, and every operation is the map's |
| Dtc.DatabaseIsMap | src/uds/uds_dtc.c:32-304 | from initialisation on, after every run the table is the finite map the operations build from nothing |
| DtcReport.MatchingExact | src/uds/uds_dtc.c:138-158 | the mask query lists exactly the codes stored with a status that has a bit of the mask, each once |
| DtcReport.CountIsNumberOfCodes | src/uds/uds_dtc.c:249-262 | its length is the number of codes stored with a bit of the mask |
| DtcReport.ListedInSlotOrder | src/uds/uds_dtc.c:149-155 | the list keeps the order of the slots |
| DtcReport.ReportBytes | src/uds/uds_svc_stored.c:149-190 | the report byte by byte: mask, OR of the listed statuses, and three code bytes and the status of the i-th matching code |
| DtcReport.ReportDecodes | src/uds/uds_svc_stored.c:149-190 | for every database the report is 2 + 4 * count bytes, never truncated, decodes to exactly the matching codes, cut to three bytes, with their statuses, and its second byte is the OR of those statuses |
| DtcReport.ReportExactIff | src/uds/uds_svc_stored.c:56-76 | the report lists the stored codes themselves, each once, if and only if all matching codes have 24 bits |
| DtcReport.ReportsOfRunsExact | src/uds/uds_svc_stored.c:149-190 | with 24-bit codes from callers, the report after every run lists exactly what is stored |
| DtcReport.RunKeeps24 | src/uds/uds_dtc.c:32-304 | with 24-bit codes from callers every reachable table has only 24-bit codes, so its reports decode |
| DtcReport.SupportedReportsIff | src/uds/uds_svc_stored.c:268-315 | 0x0A lists a stored code if and only if its status is not 0 |
| DtcReport.SnapshotOnlyIsMissing | src/uds/uds_svc_stored.c:268-315 | failing input: a code that got a snapshot before any status is stored and not listed |
| DtcModule.Database.FindOrCreate | src/uds/uds_dtc.c:51-73 | the in-place search and reuse of an empty slot is find-or-create on the slots |
| DtcModule.Database.SetStatus | src/uds/uds_dtc.c:86-120 | the in-place update is the status operation on the slots |
| DtcModule.Database.GetByStatusMask | src/uds/uds_dtc.c:138-158 | the loop yields the matching codes in slot order, cut at the caller's capacity |
| DtcModule.Database.GetCount | src/uds/uds_dtc.c:249-262 | the count is the number of codes the query lists |
| DtcModule.Database.Clear | src/uds/uds_dtc.c:168-192 | the in-place clear is the group operation on the slots |
| DtcModule.Database.SetSnapshot | src/uds/uds_dtc.c:267-283 | the in-place memcpy is the snapshot operation on the slots |
| DtcModule.Database.SetExtended | src/uds/uds_dtc.c:288-304 | the in-place memcpy is the extended-data operation on the slots |
| DtcModule.Database.GetSnapshot | src/uds/uds_dtc.c:197-218 | the snapshot returned is the one stored last for the code, empty if there is none |
| DtcModule.Database.GetExtended | src/uds/uds_dtc.c:223-244 | the same for extended data |
| DtcModule.Database.Availability | src/uds/uds_svc_stored.c:37-45 | the loop yields the OR of the statuses |
| DtcModule.Database.WriteRecords | src/uds/uds_svc_stored.c:56-76 | exactly as many whole records as fit are written, in order, and nothing before them is touched |
| DtcModule.Database.ReportByMask | src/uds/uds_svc_stored.c:149-190 | query, availability mask and records together are the report body, within 256 bytes |
| DtcModule.Database.ClearDiagnosticInfo | src/uds/uds_svc_stored.c:321-376 | 0x14 is refused outside its conditions without any change, else it removes exactly the group from the map |
| Routine.SlotOfKnown | src/uds/uds_svc_routine.c:58-70 | the flag of a known routine and the scan over the others together tell who holds the lock |
| Routine.RegisterRefines | src/uds/uds_svc_routine.c:367-397 | a routine is registered exactly if its identifier is new and one of 16 slots is free; nobody's running flag changes |
| Routine.ControlRefines | src/uds/uds_svc_routine.c:150-305 | every RoutineControl request is answered as the single lock would answer it |
| Routine.ControlAnswer | src/uds/uds_svc_routine.c:150-305 | the answer code to every request, by what is known and what runs |
| Routine.ControlMoves | src/uds/uds_svc_routine.c:215-305 | only an accepted start or stop moves the lock, to the routine named or to none |
| Routine.RegistryIsOneLock | src/uds/uds_svc_routine.c:150-397 | over every run the sixteen running flags act as one lock and never two routines run |
| Routine.StartsBalanceStops | src/uds/uds_svc_routine.c:215-279 | accepted starts and stops balance against what is running before and after |
| Routine.StuckForGood | src/uds/uds_svc_routine.c:223-265 | once a routine without stop callback runs, no start is ever accepted again |
| Routine.ReleaseIff | src/uds/uds_svc_routine.c:250-279 | the lock can be released again if and only if the running routine has a stop callback |
| Routine.InitRepresents | src/uds/uds_svc_routine.c:325-365 | after initialisation exactly the two default routines are known and none runs |
| Routine.DefaultsStartOnce | src/uds/uds_svc_routine.c:325-365 | with the default routines alone at most one start is ever accepted |
| Routine.KnownStays | src/uds/uds_svc_routine.c:367-397 | no run changes or removes a registered routine |
| Routine.DefaultsStay | src/uds/uds_svc_routine.c:325-365 | after every run since initialisation FF00 (programming session, secured) and FF01 (all sessions, not secured) are known, both with a start callback only |
| Routine.OnlyEraseIsSecured | src/uds/uds_svc_routine.c:202-213 | over every run since initialisation eraseMemory is refused with 0x33 on a locked ECU, and checkProgrammingIntegrity starts there whenever nothing runs |
| RoutineSessions.DocumentedIff | src/uds/uds_svc_routine.c:150-305 | for every state, session and request: an accepted request is answered as by a handler that honours the session mask if and only if the mask allows the session; a refused one is refused either way |
| RoutineSessions.EraseStartsInDefaultSession | src/uds/uds_svc_routine.c:330-345 | failing input: eraseMemory, registered for the programming session, starts in the default session |
| RoutineSessions.RunDocumentedIff | src/uds/uds_svc_routine.c:150-397 | over every run the registry accepts the same requests with the same records as the documented one if and only if every accepted request came in a session of its routine |
| RoutineSessions.RoutineControlAlwaysReached | src/uds/uds_service.c:288-452 | the dispatcher adds no restriction: 0x31 reaches its handler in every reachable state and session |
| RoutineSessions.EcuRunsRegistry | src/uds/uds_svc_routine.c:150-305 | the registry inside the ECU is a run of the registry alone |
| RoutineSessions.EraseNeedsUnlocking | src/uds/uds_svc_routine.c:202-213 | from boot over every run of the whole ECU: while it is locked, eraseMemory is answered 7F 31 33 |
| RoutineSessions.EcuRoutinesDocumentedIff | src/uds/uds_svc_routine.c:150-397 | the same criterion from boot over every run of the whole ECU |
| RoutineSessions.EcuErasesInDefaultSession | src/uds/uds_svc_routine.c:330-345 | concrete run from boot that fails it: after an accepted key, eraseMemory starts without the default session ever being left |
| RoutineModule.Registry.constructor | src/uds/uds_svc_routine.c:325-365 | initialisation in place registers both default routines |
| RoutineModule.Registry.Register | src/uds/uds_svc_routine.c:367-397 | the in-place registration is the registration step |
| RoutineModule.Registry.AnyOtherRunning | src/uds/uds_svc_routine.c:58-70 | the scan decides whether another active routine runs |
| RoutineModule.Registry.Control | src/uds/uds_svc_routine.c:150-305 | the in-place handler does what the control step does: flags, answer code and status record |

## Left out

- LinContext.Context.EncodeOneShot: after the first write behind the caller's frames the outcome is only called an overrun, because C leaves everything after it undefined.
- LinSystem.StreamedMessageIsSafe: a receiver that rejects the FF is taken not to be waiting for CFs of an older message, because then the new CFs complete the old message (StaleReceiverMixes).
- Memory.MemoryIsFlat: says nothing after an overrun, because C leaves everything after it undefined.
- MemoryModule.Module.Read: needs buffers as large as their regions, because C reads past a smaller one without noticing.
- MemoryModule.Module.Write: needs the same, and no buffer shared by two regions, because a write would then change both.
- Transfer.Payload: the bytes handed to the response when it is built; whether the response copies them is decided in uds_svc_util.h, which is not part of this model, and PointerShowsBlockIff says what it shows if it does not.
- SecurityModule.HalTimer: the clock is an unbounded number; wrap-around of the 32-bit millisecond counter is not modelled.
- EcuModule.Simulator.Step: dispatches complete requests; serialisation, sending and the dispatch of partial multi-frame PDUs in the simulator loop are not modelled.
- RoutineSessions.RunDocumentedIff: compares acceptance and records, not refusal codes, because the documentation does not say with which code a routine outside its session is refused.
- Routine.Control: the security level of a routine is reduced to zero or not zero, which is all the code looks at, and a status record is whatever the callback wrote.
- uds_cfg.h and uds_svc_util.h are not part of this model: UDS_MEM_REGION_MAX is a symbolic capacity, and a positive response carries the request SID plus 0x40.
- HAL, UART, NVM, POSIX timers, the simulator's main loop, mocks, tests and fuzz harnesses: I/O or test plumbing.
- Non-context wrappers, the context pool, address and functional-reception setters, local flow-control parameters, time stamps and transport timeouts, STmin conversion, the send callback: thin, or tied to a real clock.
- Response-pending timing through clock_gettime in the dispatcher: tied to a real clock.
- Null-pointer checks and aliasing of C pointers: types exclude null, request bytes are disjoint from module buffers, callbacks do not touch module state.
- The handlers of 0x11, 0x28, 0x29, 0x38, 0x3E, 0x84, 0x85, 0x86, 0x87: stateless or stubs.
- Data identifiers, scaling, periodic and dynamic identifiers, I/O control, the event store, 0x19 subfunctions 0x01 and 0x06: look-ups in tables of their own that none of the modelled state machines reads or writes.
- 0x23, 0x3D, 0x14 and 0x19 inside the whole-ECU step: they touch none of the session, security and transfer state and are modelled on their own.
