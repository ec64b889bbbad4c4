# Verified model of the access-control decision path

This project models, in Dafny, the path a reader's frame takes through the access-control server: from raw
bytes through the wire parser, the replay window, decryption, the anomaly detector and the policy, to a decision
and its entry in the hash-chained audit log. It proves what the server promises about single frames and about
whole runs. It also covers the sender's side of the protocol, the HKDF key derivation and the event bus.

## How the model is built

- Objects the program updates in place are classes with the program's fields and steps: `ReplayWindow`,
  `ProtocolAnomalyDetector`, `FrameParser`, `FrameHandler`, `DecisionEngine`, `SqliteAuditLog`, `Hkdf`,
  `EventBus`. Each method states its result and its whole new state through a function on values, and the
  theorems are about those functions.
- A replay window stands for its *history*, the sequence of all numbers it ever recorded. The bounded cache
  (maximum, hash set, FIFO queue) is shown to take every decision from the last `W` entries and the maximum of
  that history, so properties of the cache become properties of sequences.
- HMAC, AEAD, key derivation and JSON are function values in `Primitives`. Nothing is assumed of them, except
  that opening undoes sealing where the sender meets the receiver. Collisions appear as computed outcomes.
- The laws are stated over these primitives, the configuration's own fields and raw bytes at fixed offsets, not over
  the helpers that handler, sender and audit log share. So which key opens a frame, what a nonce is the HMAC of, how
  many slots a window has, what an entry's hash covers and which text a card is stored under are part of the theorems.
- Clock readings, the store and storage faults arrive with every frame (`Env`), so they may differ from frame
  to frame in every theorem about runs. When an audit append throws, the exception leaves the engine: the caller
  gets no decision, while window and detector keep what they recorded.

## Main results

- **Replay window, exactly.** A sequence is accepted in full if and only if equal numbers are more than `W`
  places apart and none is `W` or more below an earlier one. Beside a rollback threshold `T`, no run accepts a
  number twice if and only if `W = 1` or `W > 2T`, with `2T + 1` in place of `2T` when number 0 escapes the test.
  Without a threshold only `W = 1` protects; size 2 accepts 5 twice in 5, 4, 6, 5.
- **No double grant, exactly.** With anti-replay and detector on, two grants of one reader and number always
  have an unquarantine of that reader between them if and only if `W <= 1`, `W > 2T + 1` or `W + T >= 2^64`, where
  `W` is `replay_window_size` and `T` is `rollback_threshold`. The shipped profiles use 256 and 100. This and the next two results hold of each system for itself, whatever its
  cipher, key derivation, nonce mode, associated data, skew limit and audit settings are. Their "only if" asks
  that the system can grant at all: that the engine can read what its sender builds for some scan (`Grantable`).
- **Across unquarantines, exactly.** A window records a frame if and only if anti-replay is on and the ten handler
  stages pass, even when the frame is denied as quarantined. So a number can be pushed out of the window while its
  reader is quarantined: with `W = 4` and `T = 1`, number 2 is granted, replayed, and granted again after 1, 3, 4, 5
  and an unquarantine. While the server runs, no number is ever granted twice, whatever an admin does, if and only
  if `W <= 1` or `T = 2^64 - 1`. A restart forgets what was in memory (`RestartReopens`). What remains in each case is the skew
  limit: grants under one timestamp lie within twice that limit of each other (`RegrantsAreClose`).
- **Retries.** A scan that is posted again is granted at most once if, among the attempts, fewer than `W` other
  numbers of its reader arrive, or none below its own; or if the bound above holds and the reader is not
  unquarantined. With neither, that is so if and only if `W <= 1` or `T = 2^64 - 1`.
- **Tamper evidence.** Two audit tables that verify under one key and one anchor hold the same records and hashes,
  or a computed witness shows an HMAC collision or a preimage of the zero block. The log of any series of runs and
  restarts verifies and is the history of returned decisions, even where appends fail; the engine object is shown
  to log, at each of its ten return sites, what it returns there.
- **The whole decision as a table.** A frame is granted if and only if 17 flat conditions hold, each written over the
  primitives, the store and the configured values; a denial names the first that fails in the order of the code. The same table says which frames set off which anomaly, and
  a reader is quarantined if and only if it had one since its last unquarantine.
- Readers are independent; rejected frames leave no trace in the handler; the wire codec is an exact inverse both
  ways; sender and receiver agree; HKDF is that of RFC 5869; a polling client misses only evicted events.

## Where the code differs from its documentation

- `access_core/README.md:87` says quarantined frames are rejected without cryptographic processing. The engine
  runs the handler first (access_decision/src/engine.cpp:201-213); such a frame is decrypted and its number
  recorded (`WindowGrowsExactly`), and that can reopen a number (`UnquarantineReopens`). The model follows the code.
- `protocol_anomaly_detector.hpp:46` says frames are denied until an admin unquarantines. Unquarantine keeps the
  detector's maximum, so a number is flagged if and only if some number shown before, authentic or not, is above it
  by more than the threshold (`RollsBackExactly`). One high number shuts the lower ones out through any number of
  unquarantines (`RolledBackForever`).
- `README.md:266` says the window rejects duplicates. The window alone does so only for size 1
  (`WindowAloneExactly`); with the detector the exact bounds are `NoDoubleGrantExactly` and `NeverGrantsAgainExactly`.
- `protocol_anomaly_detector.hpp:72` documents the rollback test over the integers. In 64 bits it differs exactly
  where the sum wraps to a value below the maximum (`RollbackTestExactly`).
- `replay_window.hpp:22-24` says `remember` does not check; it does, and ignores what is not fresh.
- `mac_verification_failed` is documented but never reported: every cipher failure reads `decrypt_failed`
  (access_core/src/frame_decryptor.cpp:13-19).
- The web page takes the bus's last id as its next cursor (web/js/events.js:45-46). A poll then loses events that
  are still held exactly when more are pending than fit one page (`LastIdCursorShowsAllExactly`).
- Event text is hashed whole but stored up to its first NUL, so an entry with a NUL in it does not verify
  (`NulBreaksVerification`). The engine never logs one (`AuditIsPlain`).
- `audit_chain_enabled: false` stores zero hashes, which the verifier does not take for an unchained log: short of a
  zero preimage it refuses any such log with an entry in it (`UnchainedVerifiesExactly`), and so does the import of
  a database (access_admin/src/app_state.cpp:22-41).

## Model

| member | source | states |
|---|---|---|
| `Words.DecodeEncode` | protocol_lib/src/protocol_utils.cpp:5-42 | reading back a little-endian word gives the word that was written |
| `Words.EncodeDecode` | protocol_lib/src/protocol_utils.cpp:5-42 | writing back what was read gives the same bytes |
| `Words.PutLe64` | access_storage/src/serialization.cpp:12-16 | the shift-and-mask loop appends exactly the little-endian bytes of the word |
| `Words.GetLe64` | protocol_lib/src/protocol_utils.cpp:22-28 | the or-loop reads the word that eight bytes encode, inside the buffer |
| `ReplayCache.ReplayWindow.Contains` | protocol_lib/src/replay_window.cpp:7-17 | the bounded cache refuses a number iff it is among the last W recorded or W or more below the maximum of all recorded |
| `ReplayCache.ReplayWindow.Remember` | protocol_lib/src/replay_window.cpp:23-40 | recording with FIFO eviction keeps the cache the exact image of its history, which grows by fresh numbers only |
| `ReplayCache.ReplayWindow.Accept` | protocol_lib/src/replay_window.cpp:42-48 | accepts iff the number is fresh against the history, and then records it |
| `ReplayHistory.AdmissibleExactly` | protocol_lib/src/replay_window.cpp:7-48 | a sequence is accepted in full iff equal numbers are more than W places apart and none is W or more below an earlier one |
| `ReplayHistory.SecondAcceptance` | protocol_lib/src/replay_window.cpp:7-48 | a second acceptance needs W accepts in between, the first W of them pairwise distinct, one of those smaller |
| `ReplayHistory.RefusedForever` | protocol_lib/src/replay_window.cpp:7-48 | a number is refused as long as nothing smaller was accepted after it |
| `ReplayHistory.InsertionOrderEviction` | protocol_lib/src/replay_window.cpp:23-28 | with size 2 the run 5, 4, 6, 5 is accepted in full, so 5 twice |
| `ReplayHistory.AtMostOnceExactly` | protocol_lib/src/replay_window.cpp:7-48 | runs that stay within T of the maximum never repeat a number iff W = 1 or W > 2T (2T + 1 with number 0 exempt), for every W and T |
| `ReplayHistory.WindowAloneExactly` | protocol_lib/src/replay_window.cpp:7-48 | with no reordering bound, only the window of one slot never accepts a number twice |
| `ReplayHistory.RefinesUnboundedSet` | protocol_lib/src/replay_window.cpp:7-48 | under bounded reordering the cache accepts what an unbounded set with the same age cut-off accepts, nothing twice |
| `ReplayHistory.EveryDecisionAgrees` | protocol_lib/src/replay_window.cpp:7-48 | the same decision by decision, refusals included |
| `WireCodec.ToBytes` | protocol_lib/src/packet.cpp:9-22 | the header serialises to its 52 fixed bytes, and reading those gives the header back |
| `WireCodec.Serialize` | protocol_lib/src/frame.cpp:11-32 | the printer appends exactly the frame layout, length cut to 32 bits |
| `WireCodec.FrameParser.Parse` | protocol_lib/src/frame_parser.cpp:13-89 | the cursor parser never reads outside the buffer and returns the frame or the first error of the fixed-offset reading |
| `WireCodec.FrameParser.ParseCiphertext` | protocol_lib/src/frame_parser.cpp:67-78 | leaves room for the tag that the next step reads unchecked |
| `WireCodec.FrameLayout` | protocol_lib/src/frame.cpp:11-32 | where each field stands in a printed frame, with the magic "AS01" and version 1 |
| `WireCodec.ParseErrorsExactly` | protocol_lib/src/frame_parser.cpp:13-89 | each parse error with its cause in the raw bytes, in the order of the parser |
| `WireCodec.RoundTripExactly` | protocol_lib/src/frame.cpp:11-37 | a printed frame parses back to itself iff its ciphertext is within maxCtLen |
| `WireCodec.ParsedPrintsBack` | protocol_lib/src/frame_parser.cpp:13-89 | bytes that parse re-serialise to exactly those bytes |
| `WireCodec.ParsesExactly` | protocol_lib/src/frame_parser.cpp:13-89 | bytes are rejected iff no frame within the limit prints to them |
| `AnomalyDetector.SilenceBoundsTheDrop` | access_core/src/protocol_anomaly_detector.cpp:55-70 | a number that is not flagged is at most T below the maximum over the integers, even if the sum wraps |
| `AnomalyDetector.RollbackTestExactly` | access_core/src/protocol_anomaly_detector.cpp:60-64 | the 64-bit test equals the documented one iff the sum does not wrap to a value below the maximum |
| `AnomalyDetector.WrapFlagsAHigherNumber` | access_core/src/protocol_anomaly_detector.cpp:60-64 | a concrete number above the maximum that the wrapped sum flags |
| `AnomalyDetector.ProtocolAnomalyDetector.ReportSeq` | access_core/src/protocol_anomaly_detector.cpp:55-70 | flags and quarantines, or raises the maximum; the whole reader table afterwards |
| `AnomalyDetector.ProtocolAnomalyDetector.ReportTagFailure` | access_core/src/protocol_anomaly_detector.cpp:79-91 | counts the failure and quarantines at the limit; the whole reader table afterwards |
| `AnomalyDetector.ProtocolAnomalyDetector.ReportSuccess` | access_core/src/protocol_anomaly_detector.cpp:93-100 | resets the streak and raises the maximum; the whole reader table afterwards |
| `AnomalyDetector.ProtocolAnomalyDetector.Unquarantine` | access_core/src/protocol_anomaly_detector.cpp:102-111 | clears quarantine and streak of a quarantined reader only, keeps its maximum, and says whether it was quarantined |
| `FrameHandling.KeyVersionBand` | access_core/src/handle_frame.cpp:77-86 | accepted key versions are the current one and, if allowed, the one before; the 32-bit wrap lets in no other |
| `FrameHandling.HandlerFootprint` | access_core/src/handle_frame.cpp:88-195 | a frame touches only its reader's window, and only by appending its fresh number when it is allowed |
| `FrameHandling.MalformedIsReaderZero` | access_core/src/handle_frame.cpp:12-60 | what does not parse is rejected with its parse error under a header of zeros, so as reader 0, and touches no window |
| `FrameHandling.HandlerIsLocal` | access_core/src/handle_frame.cpp:101-195 | the result depends on the windows only through the frame's own reader |
| `FrameHandling.RejectedLeaveNoTrace` | access_core/src/handle_frame.cpp:88-195 | deleting every rejected frame from any run changes no other result and no window |
| `FrameHandling.WindowIsFoldOfAllowed` | access_core/src/handle_frame.cpp:129-195 | each window is the fold of its reader's allowed frames, each accepted in its turn |
| `FrameHandling.FrameHandler.GetOrCreateWindow` | access_core/src/handle_frame.cpp:129-134 | creates an empty window if absent, with as many slots as configured and 1 for size 0, and changes no recorded history |
| `FrameHandling.FrameHandler.Handle` | access_core/src/handle_frame.cpp:101-195 | the object over real windows returns the result and leaves the histories that the value-level handler prescribes |
| `DecisionObject.DecisionEngine.ResolveCardHmac` | access_decision/src/engine.cpp:103-133 | the reassigning lookup returns hash and role of the first pepper that knows the card; the text reads as the card's HMAC under the current or the previous pepper, or that of version 1 |
| `DecisionObject.DecisionEngine.HandleFrameBytes` | access_decision/src/engine.cpp:199-289 | the engine over its objects, with an audit call in front of each return, makes exactly the step of the state machine: windows, detector, audit log and outcome |
| `DecisionObject.DecisionEngine.DecideFrame` | access_decision/src/engine.cpp:208-250 | at the three detector returns the entry logged is the verdict returned, and the detector is updated as the judgement says |
| `DecisionObject.DecisionEngine.DecideUnflagged` | access_decision/src/engine.cpp:254-289 | the same for rejected frames, which may quarantine, and for unreadable payloads |
| `DecisionObject.DecisionEngine.CheckPolicy` | access_decision/src/engine.cpp:148-181 | the same for the five policy returns, where only those after the card lookup log card and action |
| `GrantTable.WindowGrowsExactly` | access_decision/src/engine.cpp:199-289 | a frame's number enters its reader's window iff anti-replay is on and the handler's ten stages pass, whatever the verdict, quarantined included |
| `EngineRuns.NoDoubleGrant` | access_decision/src/engine.cpp:199-289 | in every run of every system, two grants of one reader and number have an unquarantine of it between them when the configured W <= 1, W > 2T + 1 or W + T >= 2^64 |
| `GrantBound.NoDoubleGrantExactly` | access_decision/src/engine.cpp:199-289 | and for no other W and T: in each system that can grant at all, with its own cipher and configuration, some run then grants a number twice with no unquarantine between |
| `GrantBound.UnquarantineReopens` | access_decision/src/engine.cpp:199-289 | W = 4 and T = 1 meet that bound, and in each such system that can grant, number 2 is granted twice across an unquarantine |
| `GrantBound.RegrantIsQuarantined` | access_decision/src/engine.cpp:208-213 | in such runs every frame between replay and unquarantine is denied as quarantined |
| `GrantBound.NeverGrantsAgainExactly` | access_decision/src/engine.cpp:199-289 | for each system that can grant: over all runs with any unquarantines, no number is granted twice iff the configured W <= 1 or T = 2^64 - 1 |
| `GrantBound.EveryConfigurationCanGrant` | access_admin/src/service/hw_service.cpp:58-127 | for every configuration there are lawful primitives under which a scan can be granted, so the three theorems above speak of every configuration |
| `GrantBound.RestartReopens` | access_admin/include/access_admin/app_state.hpp:36-43 | windows and detector start empty, so each start of the server grants any number anew |
| `EngineRuns.RegrantsAreClose` | access_core/src/frame_decryptor.cpp:45-57 | with a skew limit, grants under one timestamp are within twice the limit of each other, across unquarantines and restarts |
| `EngineRuns.RegrantNeedsFrames` | access_decision/src/engine.cpp:199-289 | with or without a detector, between two grants of one number at least W other numbers of the reader arrive, one of them smaller |
| `EngineRuns.QuarantinedExactly` | access_core/src/protocol_anomaly_detector.cpp:23-111 | in every reachable state a reader is quarantined iff an anomaly fired for it since its last unquarantine |
| `EngineRuns.DeniedUntilUnquarantined` | access_decision/src/engine.cpp:208-213 | until then each of its frames is denied as quarantined and changes nothing in the detector |
| `EngineRuns.QuarantineNamesItsAnomaly` | access_core/src/protocol_anomaly_detector.cpp:23-27 | the recorded quarantine carries the type and clock reading of the anomaly that still stands |
| `EngineRuns.CounterIsFailuresInARow` | access_core/src/protocol_anomaly_detector.cpp:79-111 | the streak counter is the number of cipher failures since the reader last passed the handler or left quarantine |
| `EngineRuns.StreakFiresExactly` | access_core/src/protocol_anomaly_detector.cpp:79-91 | the streak anomaly fires iff a frame fails first at the seal and the failures in a row reach the limit with it |
| `EngineRuns.FailureCounterBounded` | access_core/src/protocol_anomaly_detector.cpp:79-91 | the failure counter never exceeds max(limit, 1), so it never wraps |
| `EngineRuns.MaximumOfUnflagged` | access_core/src/protocol_anomaly_detector.cpp:55-111 | over any run the detector's maximum is that of all unflagged numbers and survives unquarantine |
| `EngineRuns.RollsBackExactly` | access_core/src/protocol_anomaly_detector.cpp:55-111 | after any run the rollback test flags a number iff some number of the reader, shown and let through before, is above its 64-bit sum with T |
| `EngineRuns.RolledBackForever` | access_decision/src/engine.cpp:208-222 | each such frame is denied as quarantined and leaves its reader quarantined, through any unquarantines |
| `GrantTable.AnomalyExactly` | access_decision/src/engine.cpp:208-279 | a frame sets off an anomaly iff its first failing stage is rollback, nonce, replay, or a seal failure that fills the streak; the type is that of the stage |
| `EngineRuns.AuditIsDecisionHistory` | access_decision/src/engine.cpp:33-64 | the audit log is the sequence of returned decisions, entry by entry, whatever appends fail; an entry names the hash the card lookup returned iff the card was looked up |
| `EngineRuns.GrantsReadOk` | access_decision/src/engine.cpp:33-64 | exactly the entries that allow have the reason "ok" |
| `EngineRuns.OneEntryPerFrame` | access_decision/src/engine.cpp:147-289 | if appends succeed, every processed frame adds exactly one entry |
| `EngineRuns.RunsOnlyExtendTheLog` | access_decision/src/engine.cpp:33-64 | no decision reads the log: a server started on a log decides as on an empty one and extends what it found |
| `EngineRuns.SessionsAreLogged` | access_decision/src/engine.cpp:33-64 | across restarts the log is the concatenated decision history of the runs |
| `EngineRuns.AuditIsPlain` | access_decision/src/engine.cpp:33-64 | no entry the engine logs contains a NUL or a string of 2^32 bytes |
| `EngineRuns.AnchoredHistory` | access_storage/src/audit_verify.cpp:175-227 | the log of any series of starts and runs verifies, and any table verifying against its final anchor holds that history and the same hashes, or exhibits a collision or zero preimage |
| `EngineRuns.ReadersAreIndependent` | access_decision/src/engine.cpp:199-289 | a reader's outcomes in an interleaved run equal those of the run restricted to its own inputs, unparsable frames counting as reader 0 |
| `GrantTable.OpensExactly` | access_core/src/handle_frame.cpp:141-195 | bytes open to a plaintext iff they print a frame within the limit whose box unseals to it under the master key in direct mode, else the key of its reader and version, with 24 or 12 nonce bytes and no or 52 bound bytes |
| `GrantTable.HandlerAllowsExactly` | access_core/src/handle_frame.cpp:88-195 | the handler allows iff its ten stages pass over configuration, store, clock and recorded numbers, and then returns that plaintext |
| `GrantTable.FreshIsUnseen` | access_core/src/handle_frame.cpp:88-138 | a number is refused as replay iff it is among the last `replay_window_size` recorded, or that many or more below the largest; size 0 acts as 1 |
| `GrantTable.NoncePassesExactly` | access_decision/src/engine.cpp:225-242 | a nonce passes iff its 24 or 12 bytes are those of the HMAC, under the reader's nonce key, of the header bytes with the nonce zeroed |
| `GrantTable.VerdictReads` | access_decision/src/engine.cpp:103-289 | the text of a verdict: "ok" when no stage fails, else that of the first failing stage |
| `Domain.CodeReads` | access_core/src/handle_frame.cpp:12-86 | every reason has its own text and reads back from it |
| `GrantTable.GrantExactly` | access_decision/src/engine.cpp:103-289 | allow iff all 17 flat conditions hold; a denial carries the reason of the first failing one; the outcome is that verdict unless the append throws |
| `Domain.HexReads` | access_decision/src/card_id_hasher.cpp:11-19 | the hex text of a block reads back, digit pair by digit pair, as the block |
| `KeyRotation.ResolvedCardExactly` | access_decision/src/engine.cpp:103-133 | the named text is the one whose role is returned, and reads as the card's HMAC under the current pepper, or the previous one's only if the current one does not know the card |
| `KeyRotation.ResolvesExactly` | access_decision/src/engine.cpp:103-133 | a card resolves iff it is enrolled under a version of the reader's band, or another enrolment has the 32-byte HMAC of the card under such a version |
| `KeyRotation.ResolvesWhileInBand` | access_decision/src/engine.cpp:114-130 | a card enrolled under v alone resolves iff the reader is at v, or at v + 1 with previous versions allowed, which is the handler's band |
| `Sender.BuildEncryptedFrameBytes` | access_admin/src/service/hw_service.cpp:58-127 | nothing iff key derivation throws; else a frame with the scan's fields, a drawn nonce or the HMAC of its zeroed header, and the payload sealed under the key of reader and version or the master key, with that nonce and the header bound |
| `Sender.NonceAgreement` | access_decision/src/engine.cpp:225-250 | the sender's derived nonce passes the engine's check, for both ciphers |
| `Sender.EqualNoncesExactly` | crypto_lib/src/nonce_generator.cpp:24-40 | derived nonces of one reader and version are equal iff the scans' header fields are, or two distinct contexts have HMACs that agree on those bytes |
| `Sender.ContextBindsFields` | access_admin/src/service/hw_service.cpp:57-72 | the nonce context determines every header field but the nonce |
| `Sender.AadBindsHeader` | access_core/src/frame_decryptor.cpp:31-43 | in full mode equal associated data means equal headers |
| `Sender.HandlerAcceptsSent` | access_core/src/handle_frame.cpp:101-195 | a sent frame with a fresh number passes the handler with exactly the original payload |
| `Sender.HandlerAcceptsNextNumber` | access_core/src/handle_frame.cpp:101-195 | a sender that counts up is never refused: any number above all recorded ones passes, whatever the window size |
| `Sender.SentFrameGetsItsPolicy` | access_decision/src/engine.cpp:199-289 | end to end, a sent frame gets exactly the policy's verdict on the request that was sent |
| `Retry.PostWithRetry` | access_admin/src/service/hw_service.cpp:298-319 | the three-attempt loop returns the first answer with status 200, throws on a body that is not JSON, and else says unavailable; between attempts the engine takes any other inputs |
| `Retry.AnswerExactly` | access_admin/src/service/hw_service.cpp:298-319 | the reader is told what the first attempt settles that arrives, is decided and answered with status 200, by the kind of its reply; else unavailable |
| `Retry.PostsAreInputs` | access_admin/src/service/hw_service.cpp:290-319 | the posts are inputs of the engine's run, in order, with the same bytes, and the answer is the outcome of the last |
| `Retry.RetryGrantsAtMostOnce` | access_admin/src/service/hw_service.cpp:290-319 | whatever else reaches the engine between posts, the scan's number is granted at most once among the attempts if fewer than W other numbers of the reader arrive, or none smaller, or the detector protects and nobody unquarantines the reader |
| `Retry.RetryNeedsNoGuardExactly` | access_admin/src/service/hw_service.cpp:290-319 | for each system that can grant: without any such guard, at most one post is granted iff the configured W <= 1 or T = 2^64 - 1 |
| `AuditEncoding.NumbersInPlace` | access_storage/src/sqlite_audit_log.cpp:84-92 | for every event, time, reader, door and number are read back at 0, 8, 12 and 16, and byte 24 is 1 iff allow |
| `AuditEncoding.ReadEventExactly` | access_storage/src/audit_verify.cpp:33-43 | bytes read as an event, at those offsets and then three length-prefixed texts, iff they are its encoding |
| `AuditEncoding.EventBytesInjective` | access_storage/src/serialization.cpp:5-21 | the hashed encoding determines the event, for strings under 2^32 bytes |
| `AuditChain.ReadBack` | access_storage/src/audit_verify.cpp:74-103 | storing and reading back changes nothing but what follows a NUL, through signed casts and NULL |
| `AuditChain.StoredColumns` | access_storage/src/sqlite_audit_log.cpp:113-138 | the columns of a stored event: numbers modulo their width, 1 for allow, NULL for an empty text |
| `AuditChain.ColumnsRead` | access_storage/src/audit_verify.cpp:74-91 | how any row is read: numbers cut to their width, allow iff its low 32 bits are not zero, NULL as empty text |
| `AuditChain.CStringCut` | access_storage/src/sqlite_audit_log.cpp:117-138 | stored text is all of it before the first NUL |
| `AuditChain.VerifiedExactly` | access_storage/src/audit_verify.cpp:105-227 | a table verifies iff each row names the hash before it and carries the HMAC of that hash and of bytes that read as its event, and the anchor is the last hash |
| `AuditChain.VerifyAuditChain` | access_storage/src/audit_verify.cpp:175-227 | ok iff every row links and hashes and the anchor is the last hash; otherwise id and error kind of the first bad row, else the failed step, else what is wrong with the anchor; null handle and throwing queries included |
| `AuditChain.BlameMeans` | access_storage/src/audit_verify.cpp:105-136 | each kind of row error with its own cause: a hash not of 32 bytes, a previous hash that is not the row's before, an entry hash that is not the HMAC |
| `AuditChain.TamperEvidence` | access_storage/src/audit_verify.cpp:105-227 | two tables verifying under one key and anchor hold the same records and hashes in order, or a computed collision or zero preimage |
| `AuditChain.WrittenVerifiesExactly` | access_storage/src/sqlite_audit_log.cpp:79-184 | a written log verifies iff the HMACs of whole and stored text agree at every entry |
| `AuditChain.UnchainedVerifiesExactly` | access_storage/src/sqlite_audit_log.cpp:164-171 | with chaining off, a log verifies iff every event hashes to the zero block after the zero block |
| `AuditChain.AppendKeepsVerified` | access_storage/src/sqlite_audit_log.cpp:161-184 | any table that verifies, imported ones included, still does after an append of a NUL-free event |
| `AuditChain.NulFreeLogVerifies` | access_storage/src/sqlite_audit_log.cpp:161-184 | NUL-free events: the log verifies, ends at its anchor and reads back as the events |
| `AuditChain.NulBreaksVerification` | access_storage/src/sqlite_audit_log.cpp:126-138 | a logged NUL breaks verification or shows two inputs with one HMAC |
| `AuditChain.MixedAppendsVerify` | access_storage/src/sqlite_audit_log.cpp:60-184 | after any mix of committed and rolled-back appends the log verifies and holds the committed events |
| `AuditChain.SqliteAuditLog.Append` | access_storage/src/sqlite_audit_log.cpp:161-184 | all or nothing for a fault at any step: neither table changes, or both advance, the new row with the HMAC of the previous hash and of bytes that read as the event, and the anchor with it |
| `HkdfSpec.ByteOfBlock` | crypto_lib/src/hkdf.cpp:31-84 | byte j of any output is byte j mod 32 of T(j / 32 + 1) |
| `HkdfSpec.ShorterIsPrefix` | crypto_lib/src/hkdf.cpp:57-84 | a shorter output is a prefix of every longer one |
| `HkdfObject.Hkdf.ExpandBlock` | crypto_lib/src/hkdf.cpp:57-72 | one block of expansion; the counter byte does not wrap and the remaining length does not underflow |
| `HkdfObject.Hkdf.Derive` | crypto_lib/src/hkdf.cpp:74-84 | the first L bytes of T(1), T(2), ..., spelled out over the HMAC of the input key under salt or 32 zeros; an exception beyond 8160; a second call returns the same bytes |
| `HkdfSpec.HkdfUnique` | crypto_lib/src/hkdf.cpp:31-84 | no other bytes of that length are such an output |
| `EventBusObject.EventBus.Push` | runtime_events/src/event_bus.cpp:7-15 | the buffer holds the consecutive ids ending at the last id, as many as fit, each with its note |
| `EventBusObject.EventBus.GetAfter` | runtime_events/src/event_bus.cpp:17-31 | returns the stretch of the stream right after the cursor or the evicted events; a limit of 0 acts as 1 |
| `EventStream.PageIsFull` | runtime_events/src/event_bus.cpp:17-31 | a page holds every event still buffered above the cursor, or the first `limit` of them |
| `EventStream.ReceivedInOrder` | runtime_events/src/event_bus.cpp:7-36 | a polling client receives rising ids, each at most once, as pushed |
| `EventStream.MissedOnlyIfEvicted` | runtime_events/src/event_bus.cpp:7-36 | an id its cursor has passed was received, or was already evicted at a poll |
| `EventStream.InTimeLosesNothing` | runtime_events/src/event_bus.cpp:7-36 | a client that polls before eviction overtakes it has the whole stream up to its cursor |
| `EventStream.LastIdCursorShowsAllExactly` | web/js/events.js:43-51 | with the bus's last id as cursor, a poll shows all held events iff they fit one page |

## Left out

- libsodium: HMAC and AEAD are uninterpreted, and key derivation inside `KeyManager` is a function of reader and version.
- SQLite and the access store's own operations: tables are sequences, maps and sets, a transaction is all or nothing.
- AuditChain.VerifyAuditChain: columns are assumed to hold the declared type.
- AuditChain.TamperEvidence: compares records as the verifier reads them; row ids, the text after a NUL and integer columns equal after the cast are not told apart. Strings of 2^32 bytes, which SQLite cannot hold, are excluded.
- AuditChain.SqliteAuditLog.Append: a `ROLLBACK` that itself throws is not among the faults. If the transaction was already undone the tables are the ones modelled; one left open appears as `BeginFails` at every later append, but what the same connection reads of it meanwhile is not modelled. Row ids count up from 1, as in a table nobody deleted from.
- Retry.PostWithRetry: the 100 ms pauses and timeouts are not modelled; a post that arrives late is one of the other inputs, which `RetryGrantsAtMostOnce` counts too. The local mode, one call under the mutex, is one input.
- EventBusObject.EventBus.Push: ids are unbounded, so a wrap after 2^64 pushes is not modelled.
- HkdfObject.Hkdf.constructor: lengths of 2^63 and more are excluded, since reserving the output buffer throws there.
- DecisionObject.DecisionEngine.HandleFrameBytes: events on the bus are not part of the step; an absent detector counts as a disabled one, and the windows belong to the engine's handler.
- Replay window of size 0: the handler raises it to 1; an event bus of capacity 0 is excluded.
- Thread interleavings: each engine call, append, push and unquarantine is one step.
- JSON, YAML, HTTP, the web page apart from its cursor rule, database import and the firmware: input and output plumbing.
- Request signatures of the hardware endpoint, hex parsing and the in-memory audit log: easy members.
