# A verified model of the locci-kv replication layer

locci-kv keeps a byte-keyed RocksDB store in step across nodes with Raft. Between the `raft-rs` library and the
store lies the repository's own code: a durable log adapter, the `handle_ready` pipeline with its tracking of
proposals, a prefix scan, and a TCP transport. This project models that code in Dafny and proves what it keeps
over whole runs, including crashes between any two writes, refused writes, and any interleaving of callers.

| file | content |
|---|---|
| `wrappers.dfy`, `bytes.dfy`, `codec.dfy` | options, byte order, integer and record encodings with their inverses |
| `ordered_store.dfy` | the store and its seek-and-stop prefix scan |
| `durable_log.dfy` | the Raft records on disk and what recovery makes of them |
| `raft_storage.dfy` | the log adapter: runs of its operations, its reads, and its code as a class |
| `shared_store.dfy` | Raft records and user keys in one store |
| `ready_pipeline.dfy`, `ready_theorems.dfy` | the persist / advance / apply machine with crashes, and its theorems |
| `committed_reads.dfy` | what the adapter's cache answers when raft-rs reads committed entries back |
| `proposals.dfy` | the machine of `propose` calls |
| `node_machine.dfy` | both machines together; acknowledgements |
| `raft_node.dfy` | the node's code as classes, proved to be runs of the node machine |
| `framing.dfy`, `transport.dfy` | frames, the read loop, and the cache of connections |

## How the source is modelled

- raft-rs is the environment. The committed log is a parameter `log` of every theorem, so a theorem holds for all
  of them, and `ReadyPipeline.Enabled` states the contract of raft-rs: committed entries are handed out in order,
  from index 1 after every start, and only once raft-rs has been told that they are persisted; an index already
  handed out as committed is never handed out with another entry. What raft-rs "has been told" is part of the
  machine: the log loaded at a start, and the entries of each Ready at its `advance`. That this is really on disk
  is proved, not assumed. raft-rs reads persisted entries back through the adapter's cache, so keeping the contract
  is partly up to this repository: `committed_reads.dfy` proves exactly when the cache lets it.
- A committed log's proposals are assumed to spare the reserved keys (`DurableLog.Reserved`: the log prefix and
  the two fixed keys). `SharedStore.ReservedExactly` shows that these are exactly the keys that matter; keys not
  starting with `__raft_` are never reserved (`DurableLog.RaftPrefixReserved`).
- The store's answer to a write is a parameter (`io`, `puts`, `Io`): a refused write changes nothing and its error
  takes the path it takes in the source. A crash is a machine step possible at any moment.
- A timeout is a step that may happen at any time; a one-shot channel is an entry in `mail`.
- A TCP stream is the bytes accepted on it; the receiver gets any prefix of them. Write failures come after any
  number of bytes of a frame; a `write_all` that fails after its last byte leaves the same bytes as one that
  succeeds before a next step that fails at once, and is not told apart from it.
- Where the design notes differ from the code (docs/PHASE_2.md:651-710 saves the hard state after applying and
  looks up the waiter by log index; the code saves it first and looks up the id in the entry's context), the model
  follows the code.

## Where the code does not do what one might expect

Each of these has the exact condition and an example as lemmas.

- An append never truncates, so a cache may disagree with what a restart recovers: exactly when the pushed indices
  are not strictly increasing (`RaftStorage.AppendsRecoverExactly`), or, for lookups, when first and last pushes at
  an index differ (`RaftStorage.AppendsLookupAgreement`, example `DurableLog.OverwriteIsNotSeenUntilRestart`).
- The same cache answers raft-rs when it reads back committed entries. It answers with the committed stretch exactly
  when the cached indices in that range strictly increase (`CommittedReads.CommittedReadExact`), which holds in every
  run whose Readies continue the cached log (`CommittedReads.InPlaceReadsKeepContract`; there the contract on content
  follows from the adapter's answers, `CommittedReads.InPlaceReadsAreAllowed`). It fails after a conflicting append,
  or after a Ready appended again because its hard state was refused (`CommittedReads.OverwriteReadsBoth`).
- A refused write makes the running process skip committed entries for good: the failing one, or all in a Ready
  whose persistence failed. From then on, through any further errors and deliveries, at any position past the furthest
  one consumed before, the user keys are right exactly when the store already holds what each skipped entry not
  overwritten since would have written (`ReadyTheorems.RefusedWritesExact`, key by key `ReadyTheorems.KeyExact`,
  example `ReadyTheorems.LostCommittedEntry`). A restart delivers them again (`ReadyTheorems.CrashReplay`).
- Proposal ids restart at 1 with every process while the log is delivered again, so a redelivered entry can answer
  a new call with success (`NodeMachine.StaleIdAcknowledged`). All successful replies of a run are right exactly when
  no entry from elsewhere is applied while the id it carries is pending (`NodeMachine.AckExact`). A node can make sure
  of that across restarts by not registering an id that an entry still to be consumed carries from elsewhere
  (`NodeMachine.ClearRegistrationsSuffice`).
- The sender checks no sizes. A receiver reads nothing but a prefix of what was written exactly when the first body it
  does not accept has a length that does not wrap, as a u32, to an acceptable one (`Framing.PrefixReadExact`).

## Model

| member | source | states |
|---|---|---|
| Bytes.PrefixInterval | src/storage/rocksdb_storage.rs:69-78 | past the first key at or after the prefix that does not start with it, no later key does |
| Bytes.PrefixNotBefore | src/storage/rocksdb_storage.rs:70 | seeking to the prefix skips no key that starts with it |
| Bytes.DecimalRoundTrip | src/raft/storage.rs:495-499 | the decimal index in a log key can be read back, so different indices have different keys |
| Bytes.DecimalDigits | src/raft/storage.rs:495-499 | what is printed are decimal digits without a leading zero, so the index's one decimal form |
| Bytes.BigEndianRoundTrip | src/network/transport.rs:98 | the receiver's big-endian u32 undoes the sender's |
| Bytes.BigEndianLayout | src/network/transport.rs:98 | the first of the four bytes is the most significant |
| Bytes.LittleEndianRoundTrip | src/raft/node.rs:562-563 | the u64 id read from a context is the id that `propose` put there |
| Bytes.LittleEndianLayout | src/raft/node.rs:562-563 | the first of the eight bytes is the least significant |
| OrderedStore.SortedKeys | src/storage/rocksdb_storage.rs:80-85 | a full iteration visits every key once, in ascending order |
| OrderedStore.WithPrefixExact | docs/PHASE_1.md:348-368 | scan-and-filter yields exactly the matching keys, ascending, without repeats |
| OrderedStore.SeekAndStop | src/storage/rocksdb_storage.rs:69-78 | on an ascending iteration, the run from the seek point to the first non-match is the filtered full scan |
| OrderedStore.TakeWhileMatching | src/storage/rocksdb_storage.rs:69-78 | the loop with its early break returns the filtered full scan |
| OrderedStore.RocksDbStorage.ListKeys | src/storage/rocksdb_storage.rs:62-89 | with a prefix: exactly what the older scan-and-filter listing returns; without: all keys in order |
| OrderedStore.RocksDbStorage.Put | src/storage/rocksdb_storage.rs:45-49 | the key holds the value if the store accepts the write, otherwise nothing changes |
| OrderedStore.RocksDbStorage.Delete | src/storage/rocksdb_storage.rs:51-55 | the key is gone if the store accepts the write, otherwise nothing changes |
| Codec.EntryRoundTrip | src/raft/storage.rs:500-502 | a saved entry decodes to itself |
| Codec.ProposalRoundTrip | src/raft/node.rs:557 | a committed proposal decodes to what was proposed |
| DurableLog.ReservedKeysApart | src/raft/storage.rs:367-371 | the two fixed keys are outside the log prefix and differ from each other |
| DurableLog.RaftPrefixReserved | src/raft/storage.rs:367-371 | every reserved key starts with `__raft_` |
| DurableLog.LogKeyInjective | src/raft/storage.rs:495-499 | entries with different indices never share a record |
| DurableLog.LogKeyLayout | src/raft/storage.rs:495-499 | a log key is `__raft_log_` followed by the index in decimal |
| DurableLog.RecoveryIsDurableLog | src/raft/storage.rs:437-452 | although keys are listed in lexicographic order, recovery yields exactly the stored entries in index order, each index once |
| DurableLog.RecoveryOutcome | src/raft/storage.rs:437-452 | on any store recovery fails exactly on an undecodable log record; otherwise it yields every decoded record, sorted by index |
| DurableLog.PutEntriesAt | src/raft/storage.rs:506-508 | after a run of puts every index holds the last entry put there and every other record is unchanged |
| DurableLog.RecoveryExact | src/raft/storage.rs:490-519 | from an empty log, recovery returns the pushed entries if and only if their indices strictly increase |
| DurableLog.LookupAgreement | src/raft/storage.rs:537-545 | recovery answers with the last push at an index; it agrees with the cache everywhere if and only if first and last pushes coincide |
| DurableLog.OverwriteIsNotSeenUntilRestart | src/raft/storage.rs:510-516 | a replaced entry is still answered from the cache while recovery yields its replacement |
| DurableLog.AppendRecovery | src/raft/storage.rs:505-508 | appending at a position of a contiguous log recovers as the old log overwritten there, its stale tail included |
| DurableLog.CrashInsideAppend | src/raft/storage.rs:505-516 | after any number of a batch's puts, recovery is the old log followed by exactly the entries put, contiguous |
| RaftStorage.RestartStability | src/raft/storage.rs:399-434 | over any starts with any voter lists the stored voters are the first non-empty list ever stored; log, hard state and learners never change |
| RaftStorage.FreshStore | src/raft/storage.rs:399-434 | a first start on a store without Raft records succeeds with an empty log, hard state (0, 0, 0) and the configured voters, which are stored |
| RaftStorage.OpenFailsExactly | src/raft/storage.rs:399-434 | a start fails exactly on an undecodable record or a refused put of missing voters |
| RaftStorage.OpenYields | src/raft/storage.rs:399-434 | otherwise it holds what is stored; missing voters are filled in and stored, nothing else is written |
| RaftStorage.RunsKeepOneLog | src/raft/storage.rs:399-519 | over any contiguous appends, complete or stopped anywhere, saves and restarts: the cache is a prefix of what recovery yields, both numbered from 1, and the loaded states are the cached ones |
| RaftStorage.RestartAfterAnyRun | src/raft/storage.rs:437-452 | in all those states a restart succeeds unless its own put fails, and yields the cache if and only if nothing is stored at the next index |
| RaftStorage.AppendsRecoverExactly | src/raft/storage.rs:490-519 | after any completed appends to an empty log the cache is the batches end to end, and recovery equals it if and only if its indices strictly increase |
| RaftStorage.AppendsLookupAgreement | src/raft/storage.rs:537-545 | cached and recovered lookups agree at every index if and only if first and last pushes do; always for increasing indices |
| RaftStorage.RangeReadExact | src/raft/storage.rs:558-591 | on a contiguous log a bounded read is the longest prefix of the slice whose encoding fits the bound, at least one entry, all of it without a bound |
| RaftStorage.InRangeConcat | src/raft/storage.rs:571-582 | on any cache the entries in range are kept one by one, in cache order |
| RaftStorage.TotalSizeEncoded | src/raft/storage.rs:573 | the total size is the length of the entries' encodings end to end |
| RaftStorage.RunningTotalWraps | src/raft/storage.rs:569-580 | the running total is that length as a u64, whatever the sizes |
| RaftStorage.ReadsOfAnyCache | src/raft/storage.rs:593-628 | on any cache `term` is that of the first entry with the index or unavailable, never compacted, and the first and last index are those of the vector's ends |
| RaftStorage.OneAbstractLog | src/raft/storage.rs:593-628 | `first_index`, `last_index`, `term` and one-entry reads describe one log; `term` succeeds exactly at 0 and first..=last |
| RaftStorage.RaftStorageAdapter.NewInner | src/raft/storage.rs:399-434 | loads the three records or fails; fills in and stores empty voters; a failed put leaves the store as it was |
| RaftStorage.RaftStorageAdapter.LoadLog | src/raft/storage.rs:437-452 | list, decode in key order, stop at the first undecodable record, sort by index |
| RaftStorage.RaftStorageAdapter.SaveHardState | src/raft/storage.rs:474-480 | disk and memory take the new state together, or neither does; no other key changes |
| RaftStorage.RaftStorageAdapter.SaveConfState | src/raft/storage.rs:482-488 | disk and memory take the new state together, or neither does; no other key changes |
| RaftStorage.RaftStorageAdapter.AppendEntries | src/raft/storage.rs:490-519 | each index holds the last entry put there, other keys are unchanged; the cache grows by the whole batch if all puts succeed and not at all otherwise |
| RaftStorage.RaftStorageAdapter.GetEntry | src/raft/storage.rs:537-545 | the first cached entry with the index, or unavailable |
| RaftStorage.RaftStorageAdapter.Entries | src/raft/storage.rs:558-591 | for all sizes: the entries in range, cut before the first (but not the very first) that takes the u64 running total above the bound; an error exactly when none is in range |
| RaftStorage.WrappingReadFits | src/raft/storage.rs:558-591 | as long as the sizes in range sum to less than 2^64, the bound holds for the true total size |
| SharedStore.NonInterference | src/raft/storage.rs:437-519 | for any mix of saves and applies on unreserved keys, recovery depends on the saves alone and the user keys on the applies alone |
| SharedStore.ReservedExactly | src/raft/storage.rs:367-371 | a key's content can never matter to recovery if and only if the key is not reserved |
| ReadyPipeline.ReplayTouched | src/raft/state_machine.rs:18-32 | last write wins: replaying a log leaves the same under every key it touches, from any starting store |
| ReadyPipeline.SkippedExactly | src/raft/node.rs:551-557 | an entry changes nothing exactly if its data is empty or does not decode, else it applies its proposal |
| ReadyPipeline.ReplaySkips | src/raft/node.rs:551-557 | replaying a log equals replaying it without its empty and undecodable entries |
| ReadyPipeline.RunsKeepInv | src/raft/node.rs:483-572 | the pipeline's invariants (disk, stage, delivery, replay, history) hold in every reachable state |
| ReadyTheorems.CrashReplay | src/raft/node.rs:244-253 | over any crashes, with redelivery from index 1 each time: back at or past the furthest index ever consumed, the user keys equal the committed log replayed once, if the running process skipped nothing |
| ReadyTheorems.OnlyConsumedKeysChange | src/raft/node.rs:528-569 | at any moment the user keys differ from the initial ones only where the longest consumed prefix touches |
| ReadyTheorems.ReplicaAgreement | src/raft/node.rs:538-569 | two nodes cutting one committed log into any Readies and light Readies show equal user keys at equal positions |
| CommittedReads.CommittedReadExact | src/raft/storage.rs:558-591 | in any run, the adapter answers a committed stretch with that stretch if and only if the cached indices in its range strictly increase |
| CommittedReads.InPlaceReadsKeepContract | src/raft/storage.rs:558-591 | in every run whose Readies continue the cached log, crashes and refused writes included, a read of a committed stretch with any bound yields it or a non-empty beginning of it |
| CommittedReads.InPlaceReadsAreAllowed | src/raft/storage.rs:558-591 | in those runs, handing out the adapter's answer for any persisted committed range, with any size bound, is a step the contract allows: the content of committed entries need not be assumed |
| CommittedReads.OverwriteReadsBoth | src/raft/storage.rs:510-516 | a run after which the entry raft-rs must hand out is answered together with the one it replaced |
| ReadyTheorems.KeyExact | src/raft/node.rs:529-535 | whatever was refused, a user key is as in the replayed log if and only if its last writer was not skipped or the store holds that writer's value anyway |
| ReadyTheorems.RefusedWritesExact | src/raft/node.rs:529-569 | in any run with any refused writes, back at or past the furthest index, the user keys equal the replayed log if and only if the store holds what every skipped and not overwritten entry would have written |
| ReadyTheorems.LostCommittedEntry | src/raft/node.rs:533-535 | a run in which a committed entry of a failed Ready is not applied, and no continuation without a crash ever applies it |
| ReadyTheorems.WriteAhead | src/raft/node.rs:501-548 | whenever messages are returned, their Ready was advanced and its entries and hard state were on disk at that moment |
| ReadyTheorems.FailedReadyIsNeverAnswered | src/raft/node.rs:529-535 | a Ready with a refused log or hard-state write is never advanced and none of its messages is ever returned |
| ReadyTheorems.AppliedIsDurable | src/raft/node.rs:551-571 | every entry ever applied is in the durable log, then and ever after, across crashes |
| ReadyTheorems.RestartAlwaysLoads | src/raft/node.rs:241 | a crashed node's records always load, and the loaded log contains everything it ever applied |
| Proposals.ProposalConservation | src/raft/node.rs:278-308 | ids are 1..=counter and never reused, enter and leave the map at most once, and the map holds exactly the registered ids neither replied to nor timed out; no waiter is forgotten |
| Proposals.OutcomeIsFinal | src/raft/node.rs:300-308 | a call that has returned keeps its one outcome whatever happens later |
| NodeMachine.AckSoundness | src/raft/node.rs:557-567 | a call that returned Ok had its own committed entry applied by its own process before the reply, if no entry from elsewhere was applied for a waiter |
| NodeMachine.AckExact | src/raft/node.rs:557-567 | over any run: every successful reply was on account of the caller's own committed entry if and only if no entry from another node or process was applied while its id was pending |
| NodeMachine.ReplyExact | src/raft/node.rs:561-566 | one reply is on account of the waiter's own entry if and only if the applied entry does not come from elsewhere |
| NodeMachine.RunsKeepReplies | src/raft/node.rs:557-567 | in any run a reply goes to a registered call and is about an entry carrying its id, and only a successful one makes a call return Ok |
| NodeMachine.CarriesExact | src/raft/node.rs:560-563 | the id is in the first eight bytes of a context, least significant first; a shorter context carries none; what `propose` writes is read back |
| NodeMachine.ClearRegistrationsSuffice | src/raft/node.rs:278-291 | across restarts: if no id is registered while an entry still to be consumed carries it from elsewhere, no entry from elsewhere is ever applied for a waiter |
| NodeMachine.StaleIdAcknowledged | src/raft/node.rs:278-297 | a run from an empty log over a call, its answer, a crash, a restart and a new call, which is answered with success although no committed entry has its proposal |
| RaftNode.StateMachine.Apply | src/raft/state_machine.rs:18-32 | the store changes as the proposal says, or not at all on an error |
| RaftNode.RaftNode.New | src/raft/node.rs:226-269 | a start is the machine's restart step: the stored log and states, voters filled in, no pending proposals, counter 0; it fails exactly on an undecodable record or a refused put of the voters |
| RaftNode.RaftNode.Propose | src/raft/node.rs:272-297 | the next id, registered with its proposal and submitted; a refusal leaves it registered |
| RaftNode.RaftNode.Await | src/raft/node.rs:300-308 | the reply if there is one and the timer does not win; otherwise a timeout, with the id no longer pending |
| RaftNode.RaftNode.ApplyOne | src/raft/node.rs:551-569 | an empty or undecodable entry changes neither store nor proposals and counts as consumed; any other is applied if the store accepts it, and a pending id in its context is taken out and told the result |
| RaftNode.AcceptedSnoc | src/raft/node.rs:551-558 | of the committed entries exactly those whose application the store refuses are left out |
| RaftNode.RaftNode.HandleReady | src/raft/node.rs:483-572 | on success one answer with exactly the returned messages is recorded, its entries and hard state are cached and, in reachable states, on disk, and the user keys are the old ones with every accepted committed entry applied; it fails exactly if a log or hard-state put is refused, and then the Ready is marked failed, unanswered, and its committed entries are given up |
| Framing.FramingRoundTrip | src/network/transport.rs:84-111 | frames read back as their bodies if and only if every body has 1 byte to 10 MiB |
| Framing.ReadFrameExact | src/network/transport.rs:84-111 | one turn of the read loop yields a body and a rest if and only if the stream is that body's frame, of acceptable size, followed by that rest |
| Framing.FrameLayout | src/network/transport.rs:201-216 | a frame is the length in four bytes, the most significant first, and the body |
| Framing.ParseAnyPrefix | src/network/transport.rs:84-127 | cut anywhere, a stream of frames yields exactly the frames wholly before the cut, up to the first body the receiver does not accept |
| Framing.PrefixReadExact | src/network/transport.rs:201-216 | for all bodies: every cut reads as a prefix of them if and only if the first unacceptable one does not wrap to an acceptable length |
| Framing.WholeFramesExact | src/network/transport.rs:201-216 | how many frames lie before a cut: the most whose bytes fit |
| Framing.HandleConnection | src/network/transport.rs:80-128 | forwards the messages of the reference parse, up to the first undecodable one or a closed channel; Ok exactly for a clean end |
| Framing.ForwardableExact | src/network/transport.rs:113-126 | the bodies are decoded in order and forwarded up to the first undecodable one |
| Framing.EndsCleanlyExact | src/network/transport.rs:84-127 | a connection ends cleanly if and only if it carried whole frames with acceptable, decodable bodies and fewer than four bytes more |
| Framing.CutEndsCleanly | src/network/transport.rs:84-111 | a stream of frames cut anywhere ends cleanly if and only if fewer than four bytes follow the last whole frame, so a body cut short is an error |
| Framing.BadLengthNotClean | src/network/transport.rs:98-105 | a length of zero or above 10 MiB never ends cleanly |
| Transport.StreamIntegrity | src/network/transport.rs:175-198 | over any sends and failures a receiver reads a prefix of what was written to its stream; of acceptable bodies it misses at most the last, and none of a cached stream |
| Transport.SendExact | src/network/transport.rs:175-198 | one send writes the body to the cached stream, to a new one if there is none or it fails, and to no other; it succeeds, and something is cached, exactly if a whole write did |
| Transport.SentIsOnTheWire | src/network/transport.rs:175-216 | after a successful send the peer's cached stream ends with the body, all its frames whole |
| Transport.BodiesAreAttempts | src/network/transport.rs:131-216 | over any run the bodies written to a stream are those of the attempts on it, in order |
| Transport.MessagesArriveInOrder | src/network/transport.rs:131-172 | a receiver forwards, in order, a prefix of the messages sent on its connection |
| Transport.DroppedStreamStaysDropped | src/network/transport.rs:183-195 | a stream that is not cached is never written or cached again |
| Transport.NetworkTransport.WriteMessage | src/network/transport.rs:201-216 | length, body and flush, each of which may fail, add to the stream the whole frame or as many of its bytes as got through |
| Transport.NetworkTransport.SendToPeer | src/network/transport.rs:175-198 | succeeds exactly if the peer is then cached, on a stream that ends with the body and carries whole frames; keeps the cache invariant |
| Transport.NetworkTransport.SendMessage | src/network/transport.rs:131-172 | own messages are queued, unknown peers ignored; a peer still cached afterwards has the message whole at the end of its stream, a failed send only forgets the connection |

## Left out

- raft-rs itself (elections, quorums, flow control): only its contract is used. What raft-rs does when a read back through the cache breaks it is not modelled.
- RaftNode.RaftNode.HandleReady: its steps run without interruption in the class; their interleaving with callers, timeouts and crashes is in the node machine, whose steps the class is proved to take.
- Proposals.ProposalConservation: the counter is taken to stay below 2^64; a counter that wraps is not modelled.
- RaftStorage.RaftStorageAdapter.Entries: a u64 running total wraps, as in a release build; that a debug build panics instead is not modelled.
- Read failures of RocksDB: they end the operation with an error and change nothing.
- A refused write of the store is taken to have changed nothing on disk.
- The prost and bincode formats: an invertible varint format stands for them, so sizes are those of that format.
- Snapshots: a stub in the source; its index and term stay 0, so `Compacted` is never answered.
- Entry types: configuration changes are not told apart from other entries, as in the source, which skips only empty data.
- `RaftNode::step`, `tick`, leadership queries and the event loop of src/server.rs: they only call raft-rs or one another.
- `NetworkTransport::new`, `add_peer`, `remove_peer`, `start_server`: plumbing around the set of peers and the listener.
- HTTP handlers, configuration, command line, logging, `stats`, RocksDB options, wall-clock time.
- The design in docs/PHASE_3_PERFORMANCE.md: not implemented in the source.
