# Forge: a verified model

Forge is the core of an incremental build daemon. This project models the parts of it that carry
hard properties and proves those properties with Dafny 4.11. `dafny verify dfyconfig.toml` checks
everything.

The model has four parts.

1. **The FST-1 state log and crash recovery.** Records are sealed by two checksums and padded
   (`StateCodec`, on top of `Envelope`); a transaction is a begin record, data records and a commit
   whose digest covers the whole log before it (`Transactions`); recovery replays arbitrary bytes
   (`Recovery`), and `RecoveryLaw` says without a state machine what that comes to; a damaged log is
   repaired before the next append (`Compaction`); the store works on
   an abstract disk of two files (`StateStore`). `CrashSafety` proves that the bytes follow a small
   abstract machine over whole runs in which every call may stop half-way, and reads crash safety,
   checkpointing and the cases where a sequence number is lost off that machine.
2. **Checksums, digests and words.** `Words` is little-endian coding, `Crc` is CRC32C with the loop
   of the source proved equal to a bit-serial shift register, and its detection of every error burst of
   at most four bytes, also where it reaches from a header into its stored checksum. `CrcDivision` shows
   that the register divides polynomials as section 12.1 of RFC 3720 says, and `CrcValues` computes the
   published check values. `Digests` is the content digest (`DigestValues` computes one out), `Actions` the
   canonical key material of a build action.
3. **The FIPC-1 decoder and session.** `FipcCodec` and `FipcStream` are the incremental decoder and
   the receive loop; `Session` is the session; `SessionSplit` proves that the cutting of the bytes
   does not matter; `SessionTrace` states the protocol's rules over the trace of accepted frames and
   proves them of every run; `SessionAccepts` says which frames are accepted; `SessionRuns` carries
   this over to arbitrary bytes in arbitrary chunks, mixed with local calls.
4. **The graph, the planner and the build loop.** `Walks` is reachability, `BuildGraphs` the mutable
   graph and the reverse closure, `CycleSearch` the coloured depth-first search, `Planning` the
   post-order plan, `Build` the loop that runs one job per distinct action key. `EventHubs`,
   `Coalescer` and `Leases` are the small ledgers beside it.

## How it is modelled

- Bytes and words are mathematical integers confined to their width; truncation is written out
  (`% 0x1_0000_0000`). The CRC register is a sequence of 32 bits. Identifiers, generations, sequence
  counters and clocks are unbounded.
- Framing, recovery, the store and the session take the checksum as a parameter `crc`: what they
  prove holds for every checksum. Only damage detection asks something of it (`DetectsBursts`), and
  `Crc32cDetectsBursts` shows that CRC32C provides it.
- Classes have the source's fields. Each method is proved equal to a function of the old state, and
  the properties are lemmas about those functions.
- `std::map` over ids is iterated in id order: node ids are exactly 1 .. nextNode - 1, and edges are
  kept as the id-sorted list of their entries. `std::set` of node ids is an ascending list. Options
  are a map whose iteration order (`Entries`) is defined by the byte-wise order of the keys.
- The recursive closures of the source that capture variables (`cycle_witness`, `plan_order`) are
  recursive methods that take the captured variables in and hand them back.
- Replacing a file is one atomic step. An append may stop after any number of bytes (`reach`).
- The executor and the artifact store are arbitrary functions of the call number and the request.
- Diagnostic texts are constructors of a datatype.

## Where the documents and the code differ

The model follows the code.

- docs/FIPC_PROTOCOL.md gives 36 as the smallest frame length; the code uses 40.
- The specification says a transaction's base sequence equals the replayed state; replay never looks
  at it.
- The specification keeps the last committed state sequence. The code loses it in three places.
  `recover` does not report the sequence of a log without a committed data record, damaged or not
  (`CrashSafety.CrashSafe` gives the exact sequence, `SequenceUnreported` an instance). Repair forgets
  it in the log itself when no data record was committed (`CrashSafety.RepairKeepsSequence` says
  exactly when, for every log; `SequenceForgotten` is an instance). Between the two file replacements
  of a checkpoint the old log's sequence wins (`CrashSafety.CheckpointInterrupted`).
- The specification accepts a result only if the worker succeeded; the build never reads the success
  flag (`Build.SuccessIsIgnored`). `Build.RunReported` says exactly when a run is reported as succeeded,
  and `Build.FailureReportedAsSuccess` is an instance with a result that says it failed.
- A lease revoked and issued again revives the older lease (`Leases.RevokedLeaseRevives`;
  `Leases.LeaseValidatesIff` is the exact condition).
- The specification asks for a length-delimited encoding of an action key. The digests are not
  delimited: the two lists run together (`Actions.DigestListsRunTogether`), and options run into them, so
  that two different actions can share material (`Actions.OptionReadsLikeDigest`).
  `Actions.ActionsCollideIff` says exactly which actions can, `Actions.MaterialsEqualIff` exactly when
  they do, and `Actions.MaterialIdentifies` that actions with equally many options never do.

## Model

| member | source | states |
|---|---|---|
| Words.AppendLe | src/base/checked.cpp:30-45 | the append loops add exactly the little-endian bytes of the value |
| Words.ReadLe | src/base/checked.cpp:47-80 | a read gives the word at the offset, or nothing exactly when the bytes end first |
| Words.ReadWritten | src/base/checked.cpp:30-80 | reading a written word that fits its width gives it back |
| Words.WriteRead | src/base/checked.cpp:30-80 | writing a read word gives the same bytes back, so no two byte strings read alike |
| Words.CheckedAdd | include/forge/error.hpp:92-99 | the sum, refused exactly when it would exceed 64 bits |
| Crc.ComputeCrc32c | src/base/checked.cpp:82-92 | the byte-wise loop computes the bit-serial CRC of the message's bit string |
| CrcDivision.StoredIsRemainder | src/base/checked.cpp:82-92 | for every message the four stored bytes are the inverted remainder of the inverted message times x^32 divided by 0x1_1edc_6f41, and no other word is |
| CrcDivision.RemainderUnique | src/base/checked.cpp:82-92 | division by the generator has one quotient and one remainder |
| CrcDivision.RegisterDivides | src/base/checked.cpp:84-90 | the shift register, from any start value, ends as the remainder, and the bits that drop out are the quotient |
| CrcValues.CheckValue | src/base/checked.cpp:82-92 | the nine bytes "123456789" have the checksum 0xe3069283 |
| CrcValues.ZerosValue | src/base/checked.cpp:82-92 | 32 zero bytes have the checksum 0x8a9136aa, as section B.4 of RFC 3720 lists |
| CrcValues.StepIs | src/base/checked.cpp:86-90 | a step of the bit register is the 32-bit shift and exclusive or with 0x82f63b78 |
| CrcValues.CrossingUndetected | src/state/state_codec.cpp:50-53 | four damaged bytes across the end of the stored payload checksum can turn an intact envelope into another |
| Crc.MaskedStep | src/base/checked.cpp:86-90 | the branch-free mask form of one bit step adds the polynomial exactly when a one drops out |
| Crc.ShiftedIsRun | src/base/checked.cpp:84-90 | adding up to 32 bits at once and shifting them out equals feeding them one by one |
| Crc.EqualEnds | src/base/checked.cpp:82-92 | registers that end alike over at most 32 bits differed at the start exactly where the messages do |
| Crc.BurstDetected | src/base/checked.cpp:82-92 | equal-length messages that differ only within four consecutive bytes have different CRCs |
| Crc.LowBitsTell | src/base/checked.cpp:82-92 | equally long messages of at most 32 - n bits after which the registers differ in their low n bits at most are equal |
| Crc.OverlapDetected | src/base/checked.cpp:82-92 | messages that differ only in their last bytes differ in the stored checksum beyond its first m bytes, if those and the last bytes are at most four |
| Crc.Crc32cDetectsBursts | src/base/checked.cpp:82-92 | CRC32C has both detection properties the two formats rely on |
| Envelope.SealBuffer | src/ipc/fipc_codec.cpp:26-34 | filling both checksum fields and patching the first yields fields, header CRC, payload CRC, payload |
| Envelope.HeaderMatches | src/ipc/fipc_codec.cpp:63-72 | zeroing the stored checksum in a copied header does not affect what is checked |
| Envelope.OverlapBreaksHeader | src/state/state_codec.cpp:38-45 | four bytes of damage across the end of the fields and their stored checksum leave the checksum wrong |
| Envelope.DamageBreaksSeal | src/state/state_codec.cpp:38-53 | any damage inside a detectable window leaves one of the two checksums wrong |
| StateCodec.EncodeRecord | src/state/state_codec.cpp:8-28 | the buffer built by appending, patching and padding is the encoded record |
| StateCodec.DecodeRecord | src/state/state_codec.cpp:30-59 | the decoder with its consuming loop decides as the format says, error by error |
| StateCodec.AcceptedIff | src/state/state_codec.cpp:30-59 | bytes are accepted as a record if and only if they start with its sealed form, whatever the two reserved bytes |
| StateCodec.RejectedIff | src/state/state_codec.cpp:31-53 | which of the four errors bytes are rejected with |
| StateCodec.EncodedHeader | src/state/state_codec.cpp:8-24 | where each field and checksum stands in the encoded bytes |
| StateCodec.PaddedWithZeros | src/state/state_codec.cpp:24-27 | the padding is zero and the least that fills eight bytes |
| StateCodec.RecordRoundTrip | src/state/state_codec.cpp:8-59 | before any suffix, an encoded record decodes to itself and its padded length, if and only if its length fits 32 bits |
| StateCodec.TornRecordRejected | src/state/state_codec.cpp:30-59 | a record cut anywhere before the end of its payload is rejected |
| StateCodec.TornPaddingAccepted | src/state/state_codec.cpp:54-57 | a record cut inside its padding is accepted and all bytes are consumed |
| StateCodec.DecodeExtends | src/state/state_codec.cpp:30-59 | for arbitrary bytes, an accepted record stays the same when bytes are added; only cut padding can still grow |
| StateCodec.DamagedRecordRejected | src/state/state_codec.cpp:35-53 | a record damaged inside a detectable window is never accepted, whatever follows it |
| StateCodec.Crc32cRecordDamageRejected | src/state/state_codec.cpp:35-53 | the same for CRC32C outright |
| Recovery.RecoverLog | src/state/recovery.cpp:5-65 | the replay loop over arbitrary bytes is the record state machine |
| Recovery.ReplayMonotone | src/state/recovery.cpp:13-64 | from any replay state, a longer input commits an extension of what its prefix commits |
| Recovery.CutLogRecoversPrefix | src/state/recovery.cpp:5-65 | cutting any bytes anywhere never adds, changes or reorders committed records |
| Recovery.ReplayResumes | src/state/recovery.cpp:13-64 | after an undiagnosed log of whole eight-byte units, replay of more bytes continues as if it began there |
| RecoveryLaw.RecoverObeys | src/state/recovery.cpp:5-65 | for arbitrary bytes: exactly the transactions closed by a commit with the right count and the checksum of all bytes before it are published, in order, with the last one's sequence; every diagnostic is named |
| RecoveryLaw.CommittedIsSealed | src/state/recovery.cpp:32-55 | whatever is committed stands between a begin and a commit whose digest covers all bytes before that commit |
| RecoveryLaw.SealedIsCommitted | src/state/recovery.cpp:32-55 | every transaction so sealed, before anything that halts replay, is committed as a whole |
| Transactions.ReplayDeclared | src/state/recovery.cpp:23-55 | a begin with any count, records, and a commit with any digest publish if and only if count and digest are right; otherwise one mismatch is diagnosed and nothing else stays |
| Transactions.ReplayTransaction | src/state/append_log.cpp:5-21 | a transaction replayed after the log it was written for commits exactly its records and its sequence |
| Transactions.RecordsRoundTrip | src/state/state_codec.cpp:8-59 | any records, encoded one after the other, decode to exactly those records |
| Transactions.TailDecodes | src/state/append_log.cpp:5-21 | what a transaction adds decodes to its begin record with id, base sequence and count, its records, and its commit |
| Transactions.ReplayTornTail | src/state/recovery.cpp:13-63 | a transaction cut before its last byte commits nothing, keeps the sequence, and is noticed |
| Compaction.ReplayWeighed | src/state/recovery.cpp:13-63 | for arbitrary bytes, what replay has committed, staged and diagnosed is paid for by the bytes it read |
| Compaction.RepairShrinks | src/state/file_state_store.cpp:48-57 | repair of any diagnosed log is strictly shorter, so equal sizes mean nothing changed |
| Compaction.RepairDecodes | src/state/file_state_store.cpp:209-221 | a rewritten log decodes to one compaction transaction of the committed records |
| StateStore.AppendLog.CommitTxn | src/state/append_log.cpp:17-21 | the commit record carries the checksum of the whole log before it |
| StateStore.AppendLog.WriteTransaction | src/state/file_state_store.cpp:10-34 | the appending loop writes begin, restamped records and commit, and refuses exactly control records |
| StateStore.FileStateStore.CleanLogBytes | src/state/file_state_store.cpp:209-221 | returns the log, nothing, or one compacted transaction, or refuses |
| StateStore.FileStateStore.AppendTransaction | src/state/file_state_store.cpp:40-84 | the log on disk becomes the repaired log and the reached part of the transaction's tail; refusals leave it repaired |
| StateStore.FileStateStore.WriteCheckpoint | src/state/file_state_store.cpp:86-97 | publishes one checkpoint transaction, then empties the log unless stopped between |
| StateStore.FileStateStore.RecoverStore | src/state/file_state_store.cpp:99-127 | checkpoint records then log records; the log's sequence only if the log has records |
| StateStore.CheckpointComesFirst | src/state/file_state_store.cpp:99-127 | what the checkpoint gives comes before what the log gives, diagnostics included |
| StateStore.CheckpointDecodes | src/state/file_state_store.cpp:86-97 | a checkpoint file decodes to one transaction with the checkpoint record |
| StateStore.CommitCoversDisk | src/state/file_state_store.cpp:59-83 | the commit digest of a completed append covers every byte on disk before its commit record |
| CrashSafety.AppendRefines | src/state/file_state_store.cpp:40-84 | on any sound log, one append with any cut does to the bytes what the abstract machine does to the history |
| CrashSafety.RunRefines | src/state/file_state_store.cpp:40-97 | any run of appends and checkpoints with crashes anywhere follows the abstract machine |
| CrashSafety.RecoverAfterRun | src/state/file_state_store.cpp:99-127 | recovery after any run returns exactly the machine's records and sequence, and diagnoses exactly a torn tail |
| CrashSafety.CrashSafe | docs/RECOVERY.md:3 | from no files, recovery returns in order exactly the records of the transactions fully written; the sequence is the last one's if any of them had a record and zero otherwise |
| CrashSafety.CheckpointThenAppends | src/state/file_state_store.cpp:86-127 | after a completed checkpoint on any disk, recovery is the checkpoint record and exactly the later committed records |
| CrashSafety.CheckpointInterrupted | src/state/file_state_store.cpp:92-123 | stopped between its replacements, the new checkpoint is followed by the whole old log, whose sequence wins |
| CrashSafety.RepairKeepsSequence | src/state/file_state_store.cpp:214-220 | for every byte string, repair keeps the recovered sequence if and only if nothing is diagnosed, records were committed, or the sequence was zero |
| CrashSafety.SequenceForgotten | src/state/file_state_store.cpp:217-219 | a torn log whose recovered sequence is n and, once repaired, zero |
| CrashSafety.SequenceUnreported | src/state/file_state_store.cpp:118-123 | a whole log with sequence n for which `recover` reports zero |
| FipcCodec.EncodeFrame | src/ipc/fipc_codec.cpp:16-35 | the buffer built by appending and patching is the encoded frame |
| FipcCodec.FipcCodec.Feed | src/ipc/fipc_codec.cpp:37-88 | buffering, limit check and decoding of one frame, and which error closes the decoder |
| FipcCodec.FipcCodec.Eof | src/ipc/fipc_codec.cpp:90-97 | end of input closes the decoder and is an error exactly when bytes are left |
| FipcCodec.FoundIff | src/ipc/fipc_codec.cpp:45-88 | a frame is found if and only if the bytes start with its encoding and it is within the limits |
| FipcCodec.WaitsIff | src/ipc/fipc_codec.cpp:48-62 | more bytes are waited for if and only if the header, or a possible announced length, is not there yet; an impossible length is refused |
| FipcCodec.MismatchIff | src/ipc/fipc_codec.cpp:63-85 | which checksum error a whole frame is refused with |
| FipcCodec.ImpossibleLengthCloses | src/ipc/fipc_codec.cpp:56-59 | a header with an impossible length closes the decoder at once |
| FipcCodec.BufferStaysWithin | src/ipc/fipc_codec.cpp:38-44 | in every run the buffer stays within the limit, a feed that would exceed it closes the decoder, and a closed one does not change |
| FipcCodec.EncodedHeader | src/ipc/fipc_codec.cpp:16-34 | where each field and checksum stands in the encoded bytes |
| FipcCodec.FrameRoundTrip | src/ipc/fipc_codec.cpp:16-88 | an encoded frame is found again before any suffix if and only if it is within the limits |
| FipcCodec.NextFrameStable | src/ipc/fipc_codec.cpp:45-88 | for arbitrary bytes, more input never changes a frame found or an error reported |
| FipcCodec.DamagedFrameNotFound | src/ipc/fipc_codec.cpp:56-85 | a frame damaged inside a detectable window is never delivered; unless the length was hit the decoder closes |
| FipcCodec.Crc32cFrameDamageNotFound | src/ipc/fipc_codec.cpp:56-85 | the same for CRC32C outright |
| FipcStream.PumpChunk | src/ipc/client.cpp:119-134 | the client's loop returns the first status event among the frames the buffered bytes complete, or delivers them all |
| FipcStream.DrainSplit | src/ipc/fipc_codec.cpp:37-88 | draining bytes in two steps is draining them at once, errors included |
| FipcStream.RestIsIncomplete | src/ipc/fipc_codec.cpp:45-54 | what draining without an error leaves is never a whole frame |
| FipcStream.StreamRoundTrip | src/ipc/fipc_codec.cpp:16-88 | any frames within limits, encoded, joined and re-cut into admissible chunks, arrive exactly; the limit never trips and less than one frame is buffered |
| Session.FipcSession.ApplyFrame | src/ipc/session.cpp:60-122 | one frame's effect on phase, streams, retired generations and tokens, with partial effects on errors |
| Session.FipcSession.GrantCredit | src/ipc/session.cpp:31-42 | credit grows by the grant, or nothing changes on overflow or an unknown stream |
| Session.FipcSession.Reserve | src/ipc/session.cpp:44-58 | credit is spent, or a terminal is marked pending, or the send is refused |
| Session.FipcSession.Feed | src/ipc/session.cpp:7-29 | the loop applies every complete frame in order; an error shuts the session and discards the call's events |
| SessionSplit.ProcessSplit | src/ipc/session.cpp:7-29 | processing bytes in two steps is processing them at once |
| SessionSplit.SplitIndependence | src/ipc/session.cpp:7-29 | two cuttings of the same bytes within the limit leave equal sessions, fail alike, and without failure give equal events |
| SessionSplit.SmallChunksStayWithin | src/ipc/fipc_codec.cpp:37-44 | chunks of any bytes no longer than max_single_allocation less max_frame_bytes never exceed the buffer limit |
| SessionSplit.ProcessIsApplied | src/ipc/session.cpp:7-29 | for arbitrary bytes, feeding is applying the decoded frames up to the first refused; a decoder error closes the session |
| SessionSplit.FeedAnswered | src/ipc/session.cpp:7-29 | which error a feed of arbitrary bytes ends with, that a failed one returns no events, and when the decoder is closed after it |
| SessionSplit.ShutIsAbsorbing | src/ipc/session.cpp:85-87 | a closed session fed anything stays as it is and emits nothing |
| SessionSplit.ChunkedFramesApply | src/ipc/session.cpp:7-29 | encoded frames fed in admissible chunks have exactly the effect of applying the frames |
| SessionTrace.RunKeepsInv | src/ipc/session.cpp:31-122 | every run keeps the trace legal and the session state a mirror of it |
| SessionTrace.PhasesAgree | src/ipc/session.cpp:69-84 | active means one live stream, negotiated and accepted mean none |
| SessionTrace.HelloComesFirst | src/ipc/session.cpp:61-68 | the first accepted frame is HELLO on the control stream with sequence zero |
| SessionTrace.ShutStaysShut | src/ipc/session.cpp:85-87 | after closing no frame is accepted and nothing but local credit moves |
| SessionTrace.OpeningsIncrease | src/ipc/session.cpp:69-84 | per stream id the generations that open it strictly increase |
| SessionTrace.SequencesWithoutGaps | src/ipc/session.cpp:92-97 | a frame on a stream belongs to the opening in force and its sequence counts the frames since: 0, 1, 2, ... |
| SessionTrace.TokensAgree | src/ipc/session.cpp:108-114 | accepted build requests sharing a token have equal payloads |
| SessionTrace.CreditBalances | src/ipc/session.cpp:31-58 | a live stream's credit is what was granted since its opening less what was reserved, and a terminal is pending exactly when one was sent without credit |
| SessionAccepts.ReceivedIff | src/ipc/session.cpp:60-122 | in every open run, which frames are accepted, said on the trace and the account, and the error of every refusal |
| SessionAccepts.AcceptedIffMayFollow | src/ipc/session.cpp:60-122 | a frame is accepted if and only if it may follow the trace by the rules and the stream and credit limits hold |
| SessionAccepts.LocalCallsAnswered | src/ipc/session.cpp:31-58 | when granting credit and reserving a send are refused, and with what error |
| SessionTrace.FramesRun | src/ipc/session.cpp:7-29 | after any run, further decoded frames drive the session as a run of the machine, and its events are the trace |
| SessionRuns.CallsTraced | src/ipc/session.cpp:7-58 | every run of feeds of arbitrary bytes in any chunks and of local calls, limit and decoder errors included, is a run of the trace machine |
| SessionRuns.FedBytesObey | src/ipc/session.cpp:7-122 | whatever is fed, the accepted frames are the first in the bytes, all unless a feed failed, they obey the rules, and the events returned are theirs |
| SessionRuns.EventsAreFrames | src/ipc/session.cpp:118-121 | every event returned carries the type, stream, sequence and token of the frame it stands for |
| SessionRuns.EventsStopAtFailure | src/ipc/session.cpp:17-24 | the events of a failed feed and of all later ones are lost |
| SessionRuns.FirstEventIsHello | src/ipc/session.cpp:61-68 | the first event any session returns is HELLO on the control stream |
| SessionRuns.FedTokensAgree | src/ipc/session.cpp:108-114 | while no feed failed, build requests in the bytes sharing a token have equal payloads |
| SessionRuns.FedSequences | src/ipc/session.cpp:69-97 | while no feed failed, each frame in the bytes opens its stream or is numbered by the frames since the opening in force |
| SessionRuns.SplitInUse | src/ipc/session.cpp:7-29 | split independence after any calls that did not fail |
| BuildGraphs.BuildGraph.PutNode | src/graph/build_graph.cpp:7-26 | a known name keeps its id and gets the new action; a new one gets the next id; names stay unique |
| BuildGraphs.BuildGraph.PutEdge | src/graph/build_graph.cpp:28-42 | an edge joins known nodes, exists once per kind, and marks its source dirty when new |
| BuildGraphs.BuildGraph.RemoveDiscoveredFrom | src/graph/build_graph.cpp:44-54 | removes exactly the discovered edges leaving the node |
| BuildGraphs.WithoutDiscoveredIs | src/graph/build_graph.cpp:44-54 | what is left are exactly the other edges |
| BuildGraphs.BuildGraph.ReverseClosure | src/graph/build_graph.cpp:56-71 | the worklist returns exactly the nodes with a walk to a seed |
| CycleSearch.FindCycle | src/graph/cycle_analyzer.cpp:8-57 | returns nothing exactly when the graph is acyclic, otherwise a real cycle with distinct nodes and, for each step, the id of the first edge that makes it |
| CycleSearch.Visit | src/graph/cycle_analyzer.cpp:16-47 | without a finding, all the node leads to is finished and finished nodes are listed dependencies first |
| CycleSearch.CloseCycle | src/graph/cycle_analyzer.cpp:28-42 | meeting a gray node yields a valid witness from the stack |
| Planning.Dependencies | src/graph/snapshot.cpp:8-17 | exactly the targets of the node's edges, ascending |
| Planning.ReverseDependencies | src/graph/snapshot.cpp:19-28 | exactly the sources of edges into the node, ascending |
| Planning.PlanOrder | src/workspace/workspace.cpp:108-129 | refused exactly for an unknown target; else each reachable node once, and without a cycle the post-order of the targets with dependencies ascending |
| Planning.ListsAllUnique | src/workspace/workspace.cpp:108-129 | there is only one such order |
| Planning.Visit | src/workspace/workspace.cpp:112-121 | a visit adds exactly new reachable nodes and ends all it began; seen dependencies are listed unless there is a cycle |
| Planning.ClosurePlanDuality | src/graph/build_graph.cpp:56-71 | a node is in the reverse closure of s if and only if s is in the node's plan |
| Planning.ReverseClosureIsForward | src/graph/build_graph.cpp:56-71 | the reverse closure is forward reachability with every edge turned round |
| Walks.FirstIsAcyclic | src/workspace/workspace.cpp:38-46 | a graph whose nodes can be listed dependencies first has no cycle |
| Build.Workspace.BuildTargets | src/workspace/workspace.cpp:38-97 | refuses exactly cyclic graphs, unknown targets, and a request whose 32-bit stream id is zero or open; otherwise follows a valid plan to its end or first failure under a new stream and request number |
| Build.BuildSuppressesDuplicates | src/workspace/workspace.cpp:54-72 | without a failure exactly the first node of each distinct key ran, in plan order under fresh jobs, and every other joined an earlier run of its key |
| Build.AfterKeepsInv | src/workspace/workspace.cpp:54-96 | the same of the part of the plan before a failure |
| Build.DependenciesServedFirst | src/workspace/workspace.cpp:54-96 | when a node ran, each dependency had been run, or had joined a run, before it |
| Build.ArtifactsKept | src/workspace/workspace.cpp:84-93 | in every build the artifacts are the keys the store gave to the runs' artifacts, run by run under upload numbers 0, 1, 2, ...; a failed run contributes those before the refusal |
| Build.OneByteApart | src/workspace/workspace.cpp:60-69 | actions whose key materials differ in one byte never share a job |
| Build.RunReported | src/workspace/workspace.cpp:73-94 | a run is reported succeeded if and only if it answered, its claim validates and every artifact is accepted; otherwise failed |
| Build.BuildReported | src/workspace/workspace.cpp:54-96 | in every build the notices are those of the trace in plan order; only the last run can be reported failed |
| Build.SuccessIsIgnored | src/workspace/workspace.cpp:74-94 | the worker's success flag has no influence on the outcome |
| Build.FailureReportedAsSuccess | src/workspace/workspace.cpp:74-94 | a result that says it failed is reported as succeeded |
| Actions.ActionKeyFor | src/graph/invalidation.cpp:5-30 | the key is the digest of the canonical material, options in key order |
| Actions.TagsSpelled | src/graph/invalidation.cpp:13-29 | the tag is "forge-action-key-v1" and the digest domain "action" |
| Actions.EntriesAscend | src/graph/invalidation.cpp:15-18 | the entries are those of the map in ascending order of their keys |
| Actions.LexLessIs | src/graph/invalidation.cpp:15-18 | the order of keys: at the first difference the smaller byte, or a proper prefix |
| Actions.EntriesDetermineMap | src/graph/invalidation.cpp:15-18 | the ordered entries determine the option map |
| Actions.MaterialsEqualIff | src/graph/invalidation.cpp:5-30 | exactly when two materials with any digests are equal |
| Actions.MaterialIdentifies | src/graph/invalidation.cpp:5-30 | with equally many options, two materials are equal if and only if the actions and the joined digest lists are |
| Actions.MaterialIdentifiesAction | src/graph/invalidation.cpp:5-18 | without digests, as the build calls it, two materials are equal if and only if command and options are |
| Actions.DigestListsRunTogether | src/graph/invalidation.cpp:19-28 | moving digests from one list to the other does not change the material |
| Actions.ActionsCollideIff | src/graph/invalidation.cpp:15-28 | two actions can share material if and only if the options of one are the first of the other and the rest fills whole digests |
| Actions.OptionReadsLikeDigest | src/graph/invalidation.cpp:15-23 | a collision: an option of twelve and twelve bytes against a digest and no option |
| Digests.DigestBytes | src/base/checked.cpp:107-124 | the mixing loops fold domain, separator and data into each word |
| Digests.MixInjective | src/base/checked.cpp:109-115 | one mixing step loses neither the word nor the byte |
| Digests.OneByteChangesEveryWord | src/base/checked.cpp:107-124 | inputs differing in exactly one byte differ in all four digest words |
| Digests.DomainChangesEveryWord | src/base/checked.cpp:117-119 | domains differing in exactly one byte give digests differing in all four words |
| DigestValues.EmptyDigest | src/base/checked.cpp:107-124 | the digest of no data in the domain without a name, computed out |
| EventHubs.EventHub.Publish | src/event/event_hub.cpp:26-46 | charges, retains or drops one event and inserts the gap at the first drop |
| EventHubs.EventHub.Drain | src/event/event_hub.cpp:48-59 | the popping loop returns the whole queue in order and empties it |
| EventHubs.StreamKeepsBook | src/event/event_hub.cpp:5-59 | in every run, drained then queued events are the accepted ones in order with one gap at the first drop, if any |
| EventHubs.AnswersMatchBook | src/event/event_hub.cpp:26-46 | in every run an event is answered as accepted exactly when the book does not drop it |
| EventHubs.CreditConserved | src/event/event_hub.cpp:13-36 | balance plus charged bytes equals initial plus granted credit and never overflows |
| EventHubs.TerminalsDelivered | src/event/event_hub.cpp:37-40 | every terminal event is delivered once and in order, whatever the credit |
| Coalescer.FileEventCoalescer.Complete | src/workspace/file_coalescer.cpp:27-38 | accepts exactly the current token, stores the next epoch and clears the path |
| Coalescer.RunTallies | src/workspace/file_coalescer.cpp:7-38 | in every run a pending entry counts the pushes since the last acceptance and merges their kinds, and the stored fingerprint is that of the last acceptance with the number of acceptances as its epoch |
| Coalescer.AcceptedIffCurrent | src/workspace/file_coalescer.cpp:27-31 | a completion is accepted if and only if its token counts all pushes since the last accepted one |
| Leases.AttemptsCount | src/execute/executor_manager.cpp:7-11 | the stored attempt counts the job's leases since it was last revoked |
| Leases.LeaseIdsCount | src/execute/executor_manager.cpp:10 | no two leases share an id |
| Leases.LeaseValidatesIff | src/execute/executor_manager.cpp:21-35 | a claim validates if and only if it is the lease's own and the count of leases since the last revocation is what it was at its issue |
| Leases.OnlyNewestValidates | src/execute/executor_manager.cpp:7-30 | while a job is not revoked, a lease validates if and only if no newer one was issued for it |
| Leases.RevokedLeaseRevives | src/execute/executor_manager.cpp:32-35 | after a revocation an old lease and the next one both validate |

## Left out

- Sockets, the client (but for its receive loop) and the server, inotify and the daemon lifecycle: kernel calls around a few assignments.
- File I/O bodies and the remove-then-rename fallback: only the abstract effect on the two files is kept.
- The content-addressed store: `Build` takes its answers as given.
- `PathPolicy` and the manifest parser: they rest on `std::filesystem` and iostreams.
- `AppendLog::replay` and `FileEventCoalescer::current`: a call of recovery and a map lookup.
- Wrap-around of ids, generations, tokens, due times and sequence counters at 2^64.
- The name digest of `Digest256::hex`: jobs are keyed by the four words themselves.
- Coalescer.FileEventCoalescer.Due: returns a set; the source lists the same events in path order.
- Build.Workspace.BuildTargets: event texts, and the two digest lists and declared inputs that `build` always leaves empty, are not modelled.
- Envelope.DamageBreaksSeal: leaves out damage that reaches from the stored payload checksum into the payload, which CRC32C can miss (`CrcValues.CrossingUndetected`).
- CrashSafety.CrashSafe: record counts and payload lengths are assumed to fit their 64-bit and 32-bit fields.
