# Wormzy, modelled and proved

Wormzy pairs two programs through a Redis-backed mailbox, picks one network path between them and streams
one encrypted file. This project models the parts of it where a wrong interleaving, a lost message or an
altered byte would matter, and proves what they promise over every run.

Each file holds one module.

| file | what it models |
|---|---|
| `SessionModel.dfy` | one rendezvous session and the effect of each mutator |
| `SessionLog.dfy` | the store as a sequential object: lease arithmetic and legal logs of committed operations |
| `SessionStore.dfy` | many mailbox processes on one Redis server: every interleaving of reads, retries, commits, deletes and expiries |
| `SessionMutators.dfy` | the mutators as they update a decoded session in place |
| `SessionRetry.dfy` | the optimistic retry loop, shown to continue any run of `SessionStore` by one of its interleavings |
| `SelectiveMailbox.dfy` | receiving by message type with a bounded deferral buffer |
| `Candidates.dfy` | canonical snapshot digests and the merge of a refreshed snapshot |
| `Pairing.dfy` | two programs over two queues, from the PAKE to the refreshed snapshot |
| `PairingMailbox.dfy` | the receives of `Pairing` as calls of the deferral buffer |
| `Authenticators.dfy` | what the message authenticators are computed over |
| `Stream.dfy` | counter nonces, chunk framing, and a reader facing arbitrary bytes |
| `FileTransfer.dfy` | sending and receiving one file |
| `Completion.dfy` | the four-message receipt, and the file end to end |
| `PathRace.dfy` | the race of dial, accept and relay workers |
| `Relay.dfy` | relay admission and pairing |
| `Limits.dfy` | fixed-window rate limits and the long-poll gate |

Concurrent parts are state machines. A function `Next` performs one step of one participant, a run is any
sequence of steps, and the main results are lemmas about every run. Code that changes fields in place is a
class whose methods are proved against the functions that the state machines use.

## Assumptions

- Redis: a key is live while the clock in milliseconds is below its expiry; WATCH aborts EXEC after any
  write, delete or expiry of the key; scripts and MULTI blocks are atomic; one clock is shared and never
  goes back, but any time may pass between a client's reading of it and its next command; a committed result
  reaches its caller; the lease is at least one millisecond.
- Cryptography is ideal. Sealing is injective under one nonce, and opening succeeds only on what was sealed
  under that key and nonce; nobody makes an authenticator without its key. The file hash is only assumed to
  have 32 bytes: where a result needs more, it says which two files would have to collide.
  `Completion.AssumptionsCanBeMet` gives a cipher and a codec with these properties, and
  `Completion.EveryFileCanBeDelivered` an instance of the end-to-end theorem for every file.
- Storing a session and encoding the file trailer as JSON lose nothing.
- The base nonce of a file stream arrives as it was sent; everything after it may be replaced.

## What the proofs bring to light

- A reader that has a length but no body reports a clean end of stream, because a full read of zero bytes
  does. So a complete file stream followed by four bytes that announce an acceptable frame is accepted like
  the stream alone. `Stream.CleanEndExactly` gives the exact condition; no other addition is accepted, and
  the file kept is the same.
- A rate-limit counter lives to the end of its window for every call time exactly when the window is a
  whole number of milliseconds or divides one millisecond (`Limits.SurvivalIsAlignment`). For any other
  length `Limits.UnalignedWindowsLeak` builds a run that is granted twice the limit within one window. The
  default window of one minute is of the safe kind.
- A rate-limit request takes its window from its own clock reading, but its counter from the moment the script
  runs. For every window length, a script delayed past the end of its window can find the counter gone, and the
  window's limit is granted again (`Limits.LateScriptsLeak`). `Limits.GrantsAreExact` says exactly when a key is
  granted more than its limit allows: more calls than the limit were made, and one of them ran when the counter
  that the first had started was gone. In an aligned window only a late script does that
  (`Limits.OnlyLateCallsOutlive`), and the calls whose scripts run in time are always admitted exactly
  (`Limits.WindowAdmitsExactly`).
- Both housekeeping deletes of the session store (`removeWatchedSession` in a mutation and
  `removeSessionValue` in a load) can be reached, when a thread is slow enough (`SessionStore.DoomedIsReached`,
  `SessionStore.StaleIsReached`), but never find a live session to remove (`SessionStore.HousekeepingIsIdle`). Only
  an explicit delete removes one.
- A lease refresh that published the original snapshot before the peer's second read would make that read
  fail exactly when the mapping changed the candidates (`Pairing.EarlyLeaseIsRejected`). The code
  starts the lease later.
- The size a sender reports is the one seen when the file was opened. `FileTransfer.HonestTransfer` shows that the
  receiver accepts exactly when the reads returned that many bytes.
- Neither side's success implies the other's. A sender that succeeds has a receiver that sent everything, and
  `Completion.SenderSuccessIsShared` says exactly when that one succeeds too: when its last read is given the
  sender's last message. Otherwise that message is lost or replaced (`Completion.LastMessageMayBeLost`), still
  to come, or will not be read, because the receiver stopped at a write that reported an error although its
  message went out (`Completion.ReceiverErrorMayBeSpurious`). A receiver that succeeds has a sender that sent
  everything, and it succeeds exactly unless its own last write was of that kind
  (`Completion.ReceiverSuccessIsShared`, `Completion.LastErrorMayBeSpurious`). `writeAll` returns an error even
  when it came with a full count.
- A file that changes while it is sent is not delivered as something else: what the receiver keeps is then
  the whole of what was read, or a shorter beginning of it with the same hash
  (`Completion.SuccessMeansDelivered`).

## Model

| member | source | states |
|---|---|---|
| `SessionModel.MutateKeeps` | internal/transport/session_store.go:207-542 | every successful mutator leaves a well-formed session (sender present, distinct role IDs below the next one, distinct verifiers, bounded queues and bytes) and keeps claims and creation time |
| `SessionModel.ClaimKeeps` | internal/transport/session_store.go:295-321 | a successful claim keeps the session well formed and every earlier claim |
| `SessionModel.EnqueueKeeps` | internal/transport/session_store.go:410-449 | an accepted message keeps both queue bounds and the byte bound |
| `SessionModel.DequeueKeeps` | internal/transport/session_store.go:467-503 | taking a message keeps the session well formed |
| `SessionModel.ClaimIsIdempotent` | internal/transport/session_store.go:216-222 | repeating a claim with the same verifier succeeds and changes nothing in the session |
| `SessionModel.FreshSessionOk` | internal/transport/session_store.go:246-254 | a created session is well formed |
| `SessionModel.ClaimIsExact` | internal/transport/session_store.go:216-321 | a claim succeeds exactly with the verifier that holds the role, or for a free receiver role with any canonical one but the sender's, and a new receiver gets identifier 2 |
| `SessionModel.StoreInfoIsExact` | internal/transport/session_store.go:334-343 | metadata is stored exactly with the canonical verifier that holds the role, and only there |
| `SessionModel.EnqueueIsExact` | internal/transport/session_store.go:426-447 | a message is appended exactly if the source's verifier is given, fewer than 16 are pending and all bytes stay within 262144; otherwise the first failing check decides the error |
| `SessionModel.DequeueIsExact` | internal/transport/session_store.go:474-487 | the oldest message is taken exactly with the verifier that holds the role and from a queue that is not empty |
| `SessionModel.RecordStatsIsExact` | internal/transport/session_store.go:524-552 | a report is stored exactly with the verifier that holds the role, and the receiver's is the one shown |
| `SessionLog.LeaseWithinDeadline` | internal/transport/session_store.go:176-205 | deadline arithmetic stays within 64 bits, and an accepted lease lies strictly after the time read and not after the deadline |
| `SessionLog.RefreshNeverShortens` | internal/transport/session_store.go:191-205 | a refresh never shortens a live lease and is still in the future when it commits |
| `SessionLog.StoredSessionsOk` | internal/transport/session_store.go:658-718 | after every legal log each stored session is well formed and its lease is within the deadline |
| `SessionLog.CommitKeepsClaims` | internal/transport/session_store.go:658-718 | one more commit keeps claims and never shortens the lease |
| `SessionLog.ClaimsAreFinal` | internal/transport/session_store.go:208-327 | until a session is removed, creation time, role IDs and verifiers never change |
| `SessionLog.MutateMovesQueue` | internal/transport/session_store.go:444-485 | an enqueue appends, a dequeue returns and removes the oldest, nothing else moves a queue |
| `SessionLog.QueuesAreFifo` | internal/transport/session_store.go:410-503 | committed messages in order are those returned followed by those pending |
| `SessionLog.LeasesAreFull` | internal/transport/session_store.go:176-205 | a lease is the whole configured time, or all that is left until the deadline, and there is one exactly while the deadline is ahead and fits in 64 bits |
| `SessionLog.DefaultsApply` | internal/transport/session_store.go:157-172 | a setting that is not positive stands for 2048 sessions and twelve hours |
| `SessionLog.OnlyClaimantsCommit` | internal/transport/session_store.go:567-587 | in every legal log each committed operation carries the canonical verifier that claimed its role in that incarnation of the session |
| `SessionStore.NextKeepsInv` | internal/transport/session_store.go:208-718 | every step of every thread keeps server, index, threads and results consistent |
| `SessionStore.RunKeepsInv` | internal/transport/session_store.go:208-718 | the invariant holds in every run |
| `SessionStore.StoreIsLinearizable` | internal/transport/session_store.go:658-718 | stored sessions and leases are those of the committed operations in commit order; success means exactly one commit with that reply, anything else none |
| `SessionStore.ErrorsChangeNothing` | internal/transport/session_store.go:688-716 | an operation that reports an error changes neither data nor lease |
| `SessionStore.OnlyDeleteRemoves` | internal/transport/session_store.go:629-655 | no step but an explicit delete removes a key |
| `SessionStore.HousekeepingIsIdle` | internal/transport/session_store.go:629-655 | the two conditional deletes find nothing to delete |
| `SessionStore.DoomedNeverCommits` | internal/transport/session_store.go:681-684 | a thread that found its session unusable never removes it: the key has changed or expired by then |
| `SessionStore.StaleNeverRemoves` | internal/transport/session_store.go:613-642 | the delete-if-value script never matches a live session |
| `SessionStore.DoomedIsReached` | internal/transport/session_store.go:664-684 | under every configuration that admits a session, a mutation that reads before the deadline and the clock after it arrives at the watched delete |
| `SessionStore.StaleIsReached` | internal/transport/session_store.go:590-626 | likewise a load arrives at the delete-if-value script |
| `SessionStore.ExecIsExact` | internal/transport/session_store.go:695-712 | a computed mutation commits exactly if its key is live and unwritten since it was read, and otherwise starts over |
| `SessionStore.CancelIsExact` | internal/transport/session_store.go:657-718 | an operation can be cancelled until it is over, and then reports just that |
| `SessionStore.StaleEnds` | internal/transport/session_store.go:613-642 | a load past the deadline ends as if there had been no session, and changes nothing |
| `SessionStore.CapacityIsExact` | internal/transport/session_store.go:37-58 | index entries in the future are the live sessions with their exact expiries, the limit holds, and creation is refused for capacity exactly when that many are live |
| `SessionStore.RefusedExactlyWhenFull` | internal/transport/session_store.go:43-46 | refusal for capacity is equivalent to the number of live sessions reaching the limit |
| `SessionStore.NoRunOutlivesDeadline` | internal/transport/session_store.go:174-205 | no session's expiry passes creation time plus the maximum lifetime |
| `SessionStore.StoredSessionsAreWellFormed` | internal/transport/session_store.go:452-464 | every stored session has a sender, distinct claims and queues within bounds, so totalling its bytes never fails |
| `SessionStore.ReceiverClaimFailsOnlyOnConflict` | internal/transport/session_store.go:299-321 | on a stored session a receiver claim fails exactly when another verifier, or the sender's, holds it |
| `SessionStore.ExistenceIsHidden` | internal/transport/session_store.go:567-587 | an operation whose verifier is not the one that holds its role gets the same answer as on a missing session |
| `SessionStore.OtherErrorsAreNamed` | internal/transport/session_store.go:567-587 | only a missing or unavailable session is hidden; every other error keeps its name |
| `SessionStore.RunsAreAuthorised` | internal/transport/session_store.go:567-587 | in every concurrent run each committed operation carries the verifier that claimed its role |
| `SessionStore.SuccessWasAuthorised` | internal/transport/session_store.go:657-718 | an operation that reports success committed while its verifier held its role |
| `SessionStore.LoadReturnsStored` | internal/transport/session_store.go:590-626 | a successful load returns a session that was live under its code when the load began |
| `SessionStore.LoadIsExact` | internal/transport/session_store.go:606-626 | a load that found a session succeeds exactly if its deadline is still ahead when the clock is read |
| `SessionStore.RunsAreFifo` | internal/transport/session_store.go:410-503 | queues are first in first out and exactly once in every concurrent run |
| `SessionStore.RunKeepsClaims` | internal/transport/session_store.go:208-327 | claims are final and leases never shrink over every continuation of a run |
| `SessionMutators.MailboxSession.ClaimSender` | internal/transport/session_store.go:216-232 | the in-place sender claim has exactly the specified effect |
| `SessionMutators.MailboxSession.ClaimReceiver` | internal/transport/session_store.go:299-321 | the in-place receiver claim has exactly the specified effect |
| `SessionMutators.MailboxSession.UpdatePeerInfo` | internal/transport/session_store.go:334-343 | storing metadata changes the authenticated peer only, as `SessionModel.StoreInfoIsExact` says |
| `SessionMutators.MailboxSession.Enqueue` | internal/transport/session_store.go:426-447 | the in-place enqueue is the one of `SessionModel.EnqueueIsExact`, with its three refusals in order |
| `SessionMutators.MailboxSession.Dequeue` | internal/transport/session_store.go:474-487 | the in-place dequeue is the one of `SessionModel.DequeueIsExact` |
| `SessionMutators.MailboxSession.RecordStats` | internal/transport/session_store.go:524-552 | a report is stored as `SessionModel.RecordStatsIsExact` says |
| `SessionMutators.SessionPendingBytes` | internal/transport/session_store.go:452-464 | in whatever order the map is walked, it totals the bytes and fails exactly when they are over the limit |
| `SessionRetry.Read` | internal/transport/session_store.go:665-672 | watching and reading is one step of the state machine |
| `SessionRetry.Apply` | internal/transport/session_store.go:677-690 | the clock, the lease check and the mutator are one step |
| `SessionRetry.Commit` | internal/transport/session_store.go:695-712 | commit, removal or a lost race is one step |
| `SessionRetry.Attempt` | internal/transport/session_store.go:664-712 | one pass of the loop is an interleaving with whatever other clients do before and between its commands |
| `SessionRetry.Modify` | internal/transport/session_store.go:657-718 | the whole retry loop continues any run of the state machine; a reply means that the operation committed exactly once with that reply, an error or exhausted attempts that it committed nothing |
| `SessionRetry.ResultIsConclusive` | internal/transport/session_store.go:657-718 | in every run, what the caller of an operation sees tells whether and how it committed |
| `SelectiveMailbox.ProtocolMailbox.Receive` | internal/transport/mailbox_iface.go:48-69 | removes the head of buffer plus unread input; a deferred message is never refused |
| `SelectiveMailbox.ProtocolMailbox.DeferMessage` | internal/transport/mailbox_iface.go:103-113 | appends within the bound, otherwise changes nothing |
| `SelectiveMailbox.ProtocolMailbox.TakeDeferred` | internal/transport/mailbox_iface.go:76-84 | removes the first accepted message of the buffer and keeps the rest in order |
| `SelectiveMailbox.ProtocolMailbox.ReadOne` | internal/transport/mailbox_iface.go:86-100 | one turn of the reading loop: deliver, set aside or fail |
| `SelectiveMailbox.ProtocolMailbox.ReadUntil` | internal/transport/mailbox_iface.go:86-100 | the loop selects from the whole queue, with the exact condition for success |
| `SelectiveMailbox.ProtocolMailbox.ReceiveType` | internal/transport/mailbox_iface.go:71-101 | removes the first accepted message of the whole queue, keeps the rest in order, and says what each error leaves |
| `SelectiveMailbox.ReceiveMailboxType` | internal/transport/mailbox_iface.go:131-145 | refuses an empty or unnamed type set, otherwise selects by the set of types |
| `SelectiveMailbox.RemovalIsFifo` | internal/transport/mailbox_iface.go:76-84 | a selection takes the oldest of its type and leaves other types alone |
| `SelectiveMailbox.DeliveryIsFifoPerType` | internal/transport/mailbox_iface.go:48-101 | per type, arrivals are deliveries followed by what is queued, in every run |
| `Candidates.CandidateOrder` | internal/transport/progressive_upnp.go:376-389 | the comparator is a strict total order on all four fields |
| `Candidates.TextOrder` | internal/transport/authenticated_signaling.go:161 | string order is a strict total order |
| `Candidates.CanonicalIsEverySort` | internal/transport/progressive_upnp.go:371-396 | every sort of a list, stable or not, is the canonical arrangement |
| `Candidates.CandidateDigestIsCanonical` | internal/transport/progressive_upnp.go:370-396 | two lists have the same pre-hash form exactly when they are equal as multisets |
| `Candidates.SnapshotDigestIsCanonical` | internal/transport/authenticated_signaling.go:147-184 | a snapshot has a digest exactly when its counts, texts and priorities are in bounds, and two have the same one exactly when one is in bounds, endpoints agree and both lists are equal as multisets |
| `Candidates.PublishableIsExact` | internal/transport/authenticated_signaling.go:147-184 | a snapshot can be published exactly with at most 16 candidates and features, texts of 1 to 256 visible characters (features 64) and priorities within 10000 |
| `Candidates.CandidateSetDigestIsExact` | internal/transport/progressive_upnp.go:371-396 | a candidate list has a digest exactly within the limit of 16, equal exactly for equal multisets |
| `Candidates.AddUPnPCandidate` | internal/transport/progressive_upnp.go:445-455 | promotes the first candidate with the address, or appends one |
| `Candidates.MergeUPnPFallbackPeer` | internal/transport/progressive_upnp.go:398-416 | the merge loop takes the first candidate that validates |
| `Candidates.MergeChangesAtMostOneCandidate` | internal/transport/progressive_upnp.go:398-455 | a merge changes at most one candidate, to a mapped one, and exactly when a mapping was reported and one validates within the limit |
| `Candidates.WithUPnPTwice` | internal/transport/progressive_upnp.go:445-455 | publishing one mapping twice is publishing it once |
| `Candidates.ValidationIsExact` | internal/transport/progressive_upnp.go:418-443 | a refreshed candidate validates exactly if it is a mapped UDP one whose address is usable, with a port in range, and the peer's own public address where that is known |
| `Candidates.PromotionIsExact` | internal/transport/progressive_upnp.go:445-455 | promotion replaces the first UDP candidate with the address, or appends one, with type, protocol and priority of a mapped one |
| `Candidates.MergePromotesReachable` | internal/transport/progressive_upnp.go:398-443 | the first candidate within the limit that names such an address is what a reported mapping promotes |
| `Candidates.MergedIsReachable` | internal/transport/progressive_upnp.go:398-443 | whenever the merge changes anything there is such a candidate, and it promoted the first one |
| `Pairing.RunKeepsInv` | internal/transport/transport.go:608-697 | the conversation's invariant holds in every interleaving |
| `Pairing.SendBreaksExactly` | internal/transport/session_store.go:426-437 | a send fails exactly when sixteen messages wait |
| `Pairing.ReceiveBreaksExactly` | internal/transport/transport.go:640-697 | an untyped receive fails exactly when another kind comes first |
| `Pairing.DeferBreaksExactly` | internal/transport/mailbox_iface.go:86-113 | a typed receive fails for want of room exactly when it would set aside a seventeenth message |
| `Pairing.PeerMissingExactly` | internal/transport/transport.go:608-633 | reading the peer snapshot is counted as a failure exactly when there is none, and otherwise keeps what was read |
| `Pairing.NeverMisroutes` | internal/transport/transport.go:640-697 | no unexpected message, rejected authenticator, missing snapshot or full queue in any run; what waits is one message per kind sent and not taken |
| `Pairing.HeadIsExpected` | internal/transport/transport.go:640-697 | whatever reaches an untyped PAKE receive first is the expected message |
| `Pairing.HandledOk` | internal/transport/authenticated_signaling.go:42-73 | the honest message of a phase is accepted and moves the phase on |
| `Pairing.AtMostSix` | internal/transport/mailbox_iface.go:103-113 | a queue or buffer never holds more than six messages |
| `Pairing.RefreshIsABarrier` | internal/transport/progressive_upnp.go:210-268 | the second read finds the announced snapshot and the merge combines what the peer published and reported |
| `Pairing.EarlyLeaseIsRejected` | internal/transport/transport.go:415-455 | a lease refresh before the second read breaks it exactly when the snapshots differ |
| `Pairing.AcceptedAuthIsHonest` | internal/transport/authenticated_signaling.go:42-73 | a snapshot authenticator is accepted exactly if it is the peer's own and for the snapshot that was read |
| `Pairing.IceNeedsBoth` | internal/transport/ice_path.go:672-707 | a program goes on to connect exactly when both ICE messages have come, in either order |
| `Pairing.OutcomesAreExact` | internal/transport/ice_path.go:672-707 | a program may stop at any point, give ICE up anywhere in it, and succeed by it only once both messages have come |
| `Pairing.LeaseIsExact` | internal/transport/transport.go:327-345 | a lease may be refreshed as soon as its program is past pairing, unless the peer may still be between this side's readiness and its second read |
| `Pairing.RefreshIsExact` | internal/transport/progressive_upnp.go:210-268 | the second read passes exactly if what it finds has the announced digest, and then merges it |
| `Pairing.RefreshChangesAtMostOneTarget` | internal/transport/progressive_upnp.go:398-455 | after the barrier at most one dial target differs, and only for a reported mapping |
| `Pairing.StopsOnlyWithoutDigest` | internal/transport/authenticated_signaling.go:147-184 | left alone, a program stops exactly when a snapshot it is about to announce was refused |
| `Pairing.StuckOnlyOnSilence` | internal/transport/ice_path.go:663-708 | a program that cannot move waits for a message its peer has not sent |
| `Pairing.NoDeadlock` | internal/transport/ice_path.go:663-708 | the two programs never wait for each other |
| `PairingMailbox.WireIsValid` | internal/transport/mailbox_iface.go:115-129 | every message of the conversation passes the envelope checks |
| `PairingMailbox.ReceiveAnyIsReceive` | internal/transport/mailbox_iface.go:48-69 | an untyped receive of the conversation is one call of the mailbox |
| `PairingMailbox.ReceiveTypedScans` | internal/transport/mailbox_iface.go:76-84 | a typed receive that finds its message in the buffer is the mailbox's scan |
| `PairingMailbox.ReceiveTypedReads` | internal/transport/mailbox_iface.go:86-100 | a typed receive that does not is one turn of the mailbox's reading loop |
| `Authenticators.ParseIsExact` | internal/transport/ice_path.go:409-418 | a parser undoes the length-prefixed encoding and accepts nothing else |
| `Authenticators.UniquelyDecodable` | internal/transport/authenticated_signaling.go:186-195 | two field lists share an input only when they are equal |
| `Authenticators.WriteFields` | internal/transport/progressive_upnp.go:353-368 | the writing loop produces exactly the encoding |
| `Authenticators.DecimalInjective` | internal/transport/transfer_completion.go:306 | decimal notation tells numbers apart |
| `Authenticators.DigitsAreText` | internal/transport/transfer_completion.go:280-314 | digits are the characters 0 to 9 and a to f, and a colon follows a length |
| `Authenticators.LabelsDiffer` | internal/transport/ice_path.go:31-32 | the five protocol labels differ |
| `Authenticators.StatementsNeverShareInput` | internal/transport/progressive_upnp.go:353-368 | label, code, role and fields are all determined by the input |
| `Authenticators.ReceiptInjective` | internal/transport/transfer_completion.go:301-314 | a receipt's input determines code, role, size and digest |
| `Authenticators.WordsRoundTrip` | internal/transport/transport.go:779-793 | the four-byte-length encoding is undone by a parser |
| `Authenticators.WriteWords` | internal/transport/transport.go:787-791 | the confirmation loop produces exactly that encoding |
| `Authenticators.ConfirmationInjective` | internal/transport/transport.go:779-793 | confirmations with different roles or fields have different inputs |
| `Authenticators.ConfirmationStandsApart` | internal/transport/transport.go:779-793 | no confirmation input equals an input of another protocol |
| `Stream.NoncesDiffer` | internal/transport/transport.go:983-989 | nonces of distinct 64-bit counters over one base are distinct |
| `Stream.XorBits` | internal/transport/transport.go:983-989 | each bit of the mixed byte says whether the two bits differ |
| `Stream.NonceIsExact` | internal/transport/transport.go:983-989 | the first sixteen bytes are the base's own, and the counter's low byte is mixed into the last |
| `Stream.MakeNonce` | internal/transport/transport.go:983-989 | the loop folds the counter into the last eight bytes |
| `Stream.AeadWriter.WriteChunk` | internal/transport/transport.go:991-1005 | refuses an oversized chunk; otherwise seals it under the next counter and appends its frame, or the part of it that goes out before the network fails |
| `Stream.AeadReader.ReadChunk` | internal/transport/transport.go:1007-1026 | reads one frame with every way it can fail |
| `Stream.ReadIsNextWritten` | internal/transport/transport.go:1007-1026 | a chunk read is the chunk written at that counter, consumed whole |
| `Stream.ReaderYieldsPrefix` | internal/transport/transport.go:1007-1026 | whatever bytes follow the base, the chunks read are a prefix of the chunks written |
| `Stream.WrittenReadsBack` | internal/transport/transport.go:991-1026 | an untouched stream reads back completely |
| `Stream.CleanEndExactly` | internal/transport/transport.go:1007-1026 | all chunks and a clean end come from exactly the bytes written, or those and one dangling length |
| `FileTransfer.HeaderRoundTrip` | internal/transport/transport.go:1090-1096 | the header is read back as written |
| `FileTransfer.HeaderIsExact` | internal/transport/transport.go:1179-1190 | a chunk is read as a header exactly when it begins with that header's encoding |
| `FileTransfer.LongestHeaderFits` | internal/transport/transport.go:62-75 | the longest header is the longest plaintext a chunk may hold |
| `FileTransfer.PiecesKeepContent` | internal/transport/transport.go:1098-1125 | however reads split a file, the pieces are non-empty and together its content |
| `FileTransfer.SendData` | internal/transport/transport.go:1098-1125 | the read loop hashes and sends every non-empty read, and succeeds exactly when it reaches the end of the file and the network takes every chunk |
| `FileTransfer.SendFile` | internal/transport/transport.go:1030-1141 | sends header, pieces and trailer, and succeeds exactly when everything could be opened, the name and trailer fit, the file was read to its end and the network took every chunk; whatever fails, what was sealed is a beginning of that stream |
| `FileTransfer.ReceiveData` | internal/transport/transport.go:1216-1243 | the receiving loop computes the specified data or refusal and stands at the next chunk |
| `FileTransfer.ReceiveFile` | internal/transport/transport.go:1146-1266 | the receive loop, with cancellation and local storage errors, computes the specified verdict and terminates on the bytes missing |
| `FileTransfer.ReceiveIsExact` | internal/transport/transport.go:1180-1266 | a stream is accepted exactly when it is header, non-empty data of the advertised size, matching trailer and clean end, and the receiver's own side admits it |
| `FileTransfer.TrailerChecks` | internal/transport/transport.go:1579-1617 | an honest trailer passes verification |
| `FileTransfer.TrailerIsExact` | internal/transport/transport.go:1581-1617 | a chunk passes as the trailer exactly if it is the prefix and text of the algorithm, chunk size, size and 32-byte digest of what was received |
| `FileTransfer.AcceptedTrailer` | internal/transport/transport.go:1581-1617 | over any stream, an accepted file ends in metadata with the fixed algorithm and chunk size, the advertised size and the digest of what was kept |
| `FileTransfer.RefusalIsExplained` | internal/transport/transport.go:1216-1247 | after a header and good data, what comes next decides which error refuses the stream |
| `FileTransfer.HonestTransfer` | internal/transport/transport.go:1030-1266 | the undisturbed chunks are accepted exactly when the reads returned the announced size and the receiver's own side admits them, and those bytes are kept |
| `FileTransfer.UnchangedFileArrives` | internal/transport/transport.go:1030-1266 | from file to file over the wire bytes: however reads split an unchanged file, it is accepted and kept as it is |
| `FileTransfer.AcceptedIsPrefixOfSent` | internal/transport/transport.go:1146-1266 | from any part of what was sent, an accepted file is the announced number of bytes of what was read |
| `FileTransfer.AnyNetwork` | internal/transport/transport.go:1146-1266 | over arbitrary bytes, and after whatever the sender came to seal, an accepted file is a prefix of what was read, of the announced size; for an unchanged file it is the file |
| `Completion.WriteAll` | internal/transport/transfer_completion.go:334-350 | writes everything exactly when every call makes progress without an error |
| `Completion.WritesExactly` | internal/transport/transfer_completion.go:334-350 | all bytes are written exactly when some first calls each make progress without an error and together accept them |
| `Completion.FramesReadBack` | internal/transport/transfer_completion.go:316-376 | exactly the frames are read, each as its message |
| `Completion.FrameIsExact` | internal/transport/transfer_completion.go:316-332 | exactly messages of 1 to 2048 bytes are framed, by their length in two bytes |
| `Completion.MacsDiffer` | internal/transport/transfer_completion.go:280-314 | an authenticator determines key, code, size, digest and step |
| `Completion.AcceptedWasWritten` | internal/transport/transfer_completion.go:253-278 | an accepted message was written by the other side for the same file |
| `Completion.NetworkSendsAnythingElse` | internal/transport/transfer_completion.go:352-376 | the network may deliver anything written so far, noise, and any authenticator under a key that neither side holds |
| `Completion.NextKeepsInv` | internal/transport/transfer_completion.go:161-219 | every step, honest, failing or by the network, keeps the protocol's invariant |
| `Completion.SuccessMeansAgreement` | internal/transport/transfer_completion.go:161-219 | success of either side means equal code, key, size and digest, and all four messages written |
| `Completion.ReceiverSuccessIsShared` | internal/transport/transfer_completion.go:161-219 | when the receiver succeeds, the sender does exactly unless some action of the run was its last write reporting an error although the message went out |
| `Completion.SenderSuccessIsShared` | internal/transport/transfer_completion.go:161-219 | when the sender succeeds, the receiver is at its last read or has stopped; it succeeds exactly when some action is its last read and is given a message that verifies, and each other way to end has its own exact action |
| `Completion.LeakedExactly` | internal/transport/transfer_completion.go:334-350 | a side has given up at a message that is on the network exactly when its write of it reported an error after all of it went out |
| `Completion.EndedExactly` | internal/transport/transfer_completion.go:192-219 | a receiver succeeds, or gives up at the end, exactly by its last read |
| `Completion.ReceiverErrorMayBeSpurious` | internal/transport/transfer_completion.go:334-350 | a receiver's write that reports an error can go out, and then the sender succeeds alone with nothing lost |
| `Completion.LastErrorMayBeSpurious` | internal/transport/transfer_completion.go:334-350 | a last write that reports an error can complete the exchange, and then the receiver alone succeeds |
| `Completion.ExchangeWorks` | internal/transport/transfer_completion.go:192-219 | two sides that agree get through every message |
| `Completion.AgreementCanSucceed` | internal/transport/transfer_completion.go:192-219 | both sides can succeed |
| `Completion.LastMessageMayBeLost` | internal/transport/transfer_completion.go:201-219 | a run in which the last message is lost and the sender alone succeeds |
| `Completion.SuccessMeansDelivered` | internal/transport/transport.go:377-412 | if either side succeeds, both hold the same code and key and the receiver kept a beginning of what the sender read, of the announced size and with the sender's digest: the file itself if it did not change while it was sent, and otherwise unless two different files collide |
| `Completion.UnchangedFileSucceeds` | internal/transport/transport.go:327-412 | an unchanged file over an undisturbed network is kept and both sides succeed |
| `Completion.EveryFileCanBeDelivered` | internal/transport/transport.go:327-412 | the end-to-end theorem has an instance for every file |
| `PathRace.WaitLoop.HandleDirect` | internal/transport/path_selection.go:620-658 | a preferred result is adopted at once, another becomes provisional or is discarded |
| `PathRace.WaitLoop.HandleProvisionalTimer` | internal/transport/path_selection.go:659-671 | the grace timer adopts the provisional winner |
| `PathRace.WaitLoop.HandleRelayTimer` | internal/transport/path_selection.go:672-693 | a relay attempt starts only when none is in flight |
| `PathRace.WaitLoop.HandleRelay` | internal/transport/path_selection.go:694-715 | a relay win discards the provisional winner |
| `PathRace.WaitLoop.HandleLateRelay` | internal/transport/path_selection.go:731-743 | the last relay result is adopted or dropped |
| `PathRace.WaitLoop.HandleCancel` | internal/transport/path_selection.go:716-757 | cancellation takes the provisional winner, else what an attempt in flight still brings, else nothing |
| `PathRace.WaitLoop.Wait` | internal/transport/path_selection.go:617-758 | the loop folds events until a connection is chosen or it is cancelled, and looks at none after that |
| `PathRace.DrainRaceLosers` | internal/transport/path_selection.go:228-241 | every successful connection in the channels is closed, in order |
| `PathRace.RaceConservesConnections` | internal/transport/path_selection.go:428-767 | on return every authenticated connection is selected or has been discarded, exactly once |
| `PathRace.EveryConnectionIsSomewhere` | internal/transport/path_selection.go:428-767 | at every moment a connection that was made is in exactly one place |
| `PathRace.NoWorkerBlocks` | internal/transport/path_selection.go:192-202 | a live worker always finds room for its result, and at most one relay attempt is outstanding |
| `PathRace.InitiatorIsConsistent` | internal/transport/path_selection.go:590-609 | the initiator flag returned agrees with the kind of the selected connection |
| `PathRace.ChoiceIsJustified` | internal/transport/path_selection.go:617-743 | a connection in the preferred direction is chosen as soon as it is seen, another only after its grace period or at cancellation, a relayed one only from the relay |
| `PathRace.PreferredIsTaken` | internal/transport/path_selection.go:620-658 | in every run a waiting receiver takes its own dial and a waiting sender what it accepted at once, and closes what it held in reserve |
| `PathRace.OtherIsReserved` | internal/transport/path_selection.go:620-658 | the first connection in the other direction is held in reserve under the grace timer, any further one is closed |
| `PathRace.ReserveIsTaken` | internal/transport/path_selection.go:659-671 | the grace timer takes exactly the connection in reserve |
| `PathRace.RelayIsTaken` | internal/transport/path_selection.go:694-715 | a relayed connection is taken as soon as it is seen and the one in reserve is closed |
| `PathRace.EventsAreSteps` | internal/transport/path_selection.go:617-715 | each event of the waiting loop is the step of the race |
| `PathRace.CancelIsSteps` | internal/transport/path_selection.go:716-757 | cancellation of the loop is that of the race, which waits for a relay attempt exactly with nothing in reserve |
| `PathRace.LateRelayIsTaken` | internal/transport/path_selection.go:731-743 | the last wait ends with the attempt's result |
| `PathRace.StartIsExact` | internal/transport/path_selection.go:428-616 | a race starts unless there is nothing to race; only a receiver's first dial runs at once |
| `PathRace.DialsEndExactly` | internal/transport/path_selection.go:192-226 | a dial wakes from its turn, ends without a result exactly by cancellation, and otherwise pushes its one result |
| `PathRace.BothEndsAgree` | internal/transport/path_selection.go:509-635 | the two ends of one connection both take it on seeing it if the receiver dialed it, and neither does if the sender did |
| `PathRace.LateRelayArrives` | internal/transport/path_selection.go:731-743 | the last wait for a relay result always has one to come |
| `PathRace.EndOne` | internal/transport/path_selection.go:213-226 | after cancellation some worker can end, leaving one fewer |
| `PathRace.WorkerStepsRunOut` | internal/transport/path_selection.go:213-226 | every worker step that does anything leaves fewer steps to take |
| `PathRace.FinishAlwaysJoins` | internal/transport/path_selection.go:213-226 | under every schedule a joining race returns within as many steps as its workers have left and one, and until then some step is possible |
| `Relay.RelayServer.AdmitConnection` | internal/transport/relay_server.go:253-267 | admits within both live limits and counts, or changes nothing |
| `Relay.AdmissionIsExact` | internal/transport/relay_server.go:253-267 | a connection is admitted exactly while both live limits, or their defaults, have room |
| `Relay.ArrivalIsDecided` | internal/transport/relay_server.go:118-130 | a new connection is read exactly while both limits have room, and otherwise is over at once |
| `Relay.RelayServer.ReleaseConnection` | internal/transport/relay_server.go:269-281 | gives one place back, dropping an empty counter |
| `Relay.RelayServer.WaitingForSource` | internal/transport/relay_server.go:374-383 | counts the waiting peers of a source in any map order |
| `Relay.RelayServer.Register` | internal/transport/relay_server.go:288-316 | pairs, refuses or keeps a peer |
| `Relay.RelayServer.UnregisterWaiting` | internal/transport/relay_server.go:401-415 | removes a client's own entry only |
| `Relay.NextKeepsInv` | internal/transport/relay_server.go:118-188 | every handler step keeps counters, entries and pairs consistent |
| `Relay.CountersAreExact` | internal/transport/relay_server.go:253-316 | the live count is the sum of the per-source counters and the number of admitted handlers, and all four limits hold |
| `Relay.PairsAreFair` | internal/transport/relay_server.go:288-308 | pairs share session and token, have opposite roles and are two clients |
| `Relay.PairingIsExact` | internal/transport/relay_server.go:295-308 | a peer whose session has a waiting one is paired with it exactly if roles differ and tokens are equal, and refused otherwise |
| `Relay.KeepingIsExact` | internal/transport/relay_server.go:309-316 | a peer whose session has none is kept exactly while both waiting limits have room |
| `Relay.FittingPeersPair` | internal/transport/relay_server.go:288-316 | two fitting peers that register in either order end in one pair, whatever happens in between, if the first is still waiting |
| `Relay.NoClientInTwoPairs` | internal/transport/relay_server.go:288-308 | no client is in two pairs |
| `Relay.PairedWaiterStays` | internal/transport/relay_server.go:159-188 | a paired waiter leaves only when its connection does |
| `Relay.TimerDecides` | internal/transport/relay_server.go:177-186 | a waiter whose timer fired leaves exactly when no partner has come |
| `Relay.NoticeIsExact` | internal/transport/relay_server.go:159-176 | a waiter notices exactly when its partner has come |
| `Relay.HeldLeavesTables` | internal/transport/relay_server.go:159-188 | a paired waiter whose connection ends leaves without touching the tables |
| `Relay.NothingIsLeftBehind` | internal/transport/relay_server.go:401-415 | no handler exits leaving an entry, and when all have finished every table is empty |
| `Limits.RateLimiter.AllowRequest` | internal/transport/mailbox_limits.go:94-130 | the counter and the decision are the specified ones, with the window of the clock reading and the expiry of the script |
| `Limits.MalformedIsExact` | internal/transport/mailbox_limits.go:101-106 | a request is refused as malformed exactly for a missing name, limit or window, and then costs nothing |
| `Limits.RefusalTellsWindow` | internal/transport/mailbox_limits.go:107-130 | a refused caller is told to wait until the first moment of the next window |
| `Limits.RateLimiter.AllowClaimRequest` | internal/transport/mailbox_limits.go:196-225 | claims ask the narrower limits first, each with its own reading and script, and stop at the first refusal |
| `Limits.SurvivalIsAlignment` | internal/transport/mailbox_limits.go:108-115 | counters live to the end of their window exactly for aligned window lengths |
| `Limits.CountersAreExact` | internal/transport/mailbox_limits.go:39-45 | in every run, whatever the delays, a counter is the number of calls of its window until one of them outlives it |
| `Limits.GrantsAreExact` | internal/transport/mailbox_limits.go:108-129 | in every run a window grants at least its first calls up to the limit, and more exactly if more are made and one outlives the first call's counter |
| `Limits.OnlyLateCallsOutlive` | internal/transport/mailbox_limits.go:108-125 | in an aligned window only a script that runs after the window's end can outlive the counter |
| `Limits.WindowAdmitsExactly` | internal/transport/mailbox_limits.go:94-130 | in every run over an aligned window, of the calls whose scripts run within it the first up to the limit are admitted and no others |
| `Limits.IntervalAdmitsAtMostTwice` | internal/transport/mailbox_limits.go:94-130 | any interval as long as a window admits at most twice the limit of the calls whose scripts run within their window |
| `Limits.UnalignedWindowsLeak` | internal/transport/mailbox_limits.go:108-115 | for any other window length some run without delays is granted twice the limit in one window |
| `Limits.LateScriptsLeak` | internal/transport/mailbox_limits.go:108-125 | for every window length some run with late scripts is granted twice the limit in one window |
| `Limits.NarrowRejectionIsFree` | internal/transport/mailbox_limits.go:206-224 | a claim refused by a narrower limit costs nothing of the global budget |
| `Limits.PassedClaimCostsOne` | internal/transport/mailbox_limits.go:224 | a claim that passes them costs exactly one |
| `Limits.ClaimIsExact` | internal/transport/mailbox_limits.go:196-225 | a claim passes exactly when each of its role's own limits and the global one have room |
| `Limits.LongPollGate.AcquireSlot` | internal/transport/mailbox_limits.go:155-166 | is the acquiring step of the gate: takes a place for a new capability within the maximum |
| `Limits.AcquireIsExact` | internal/transport/mailbox_limits.go:139-161 | a place is given exactly for a named capability that has none, while one of at least one place is free |
| `Limits.ReleaseIsExact` | internal/transport/mailbox_limits.go:168-176 | releasing a slot frees its place, once |
| `Limits.LongPollGate.ReleaseSlot` | internal/transport/mailbox_limits.go:168-176 | is the releasing step of the gate, and acts once |
| `Limits.GateIsExact` | internal/transport/mailbox_limits.go:155-177 | occupied places are those of the unreleased slots, one per capability, within the maximum, in every run |

## Left out

- JSON: Go may compact or escape a stored body, so the byte bound is about bodies whose stored form has the accepted length; undecodable sessions and messages are not generated, and the field that only repeats the lease in seconds is dropped.
- Session identifiers and role names that the code refuses before it reaches the store, and the checks on message and report contents before a mutation starts.
- A reply lost after a committed EXEC or dequeue: the caller would see an error for an operation that committed.
- Scores of the capacity index as floating-point numbers: every expiry in use is far below 2 to the power 53.
- Different configurations in different mailbox processes: lease, limit and lifetime are shared.
- SelectiveMailbox.ReceiveMailboxType: does not model the fallback for a mailbox without a deferral buffer, because every program wraps its mailbox first.
- ReceiveType: conservation is claimed only when no error other than the end of the wait is returned, because the code drops the message it has just read.
- Authenticators.ConfirmationInjective: assumes lengths below 2 to the power 32, because the code truncates longer ones; its fields are 32 bytes long.
- Candidates: parsing and joining of addresses and the test for usable public addresses are parameters; case folding is ASCII, which is exact for the words compared.
- Pairing: contents of PAKE and ICE messages, feature checks, and what a program does after it has stopped.
- SendFile: does not tell apart the errors before its first chunk (examining and opening the file, opening the stream, choosing and writing the base nonce); one flag stands for all of them, because none of them leaves a chunk.
- FileTransfer: file name cleaning, free space and the choice of the target name (one flag says whether the target could be created), and progress reports.
- Completion: the half-close and lingering after the last message; a message of which only a part goes out is read by the other side as one that does not verify.
- PathRace: outcome texts and per-candidate status, the candidate reported with the path, UDP punching and the carrier cleanup after return.
- Relay: forwarding of bytes, readiness messages, idle and lifetime timers of a pair, and hello decoding (a client arrives with its role, session and decoded token).
- Limits: the two limits on authenticated traffic, which use the same counter with other names, and hashing of identities in keys.
- UPnP discovery and mapping, STUN, ICE and TURN, the retired TCP rendezvous server, the command line, dashboard and terminal interface.
- Liveness in real time: the proofs show safety, conservation, absence of deadlock and termination of the loops, not that a connection is found.
