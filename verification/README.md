# RavenFabric verification model

RavenFabric runs commands on remote agents over an encrypted channel, moves files to and from
them, and keeps a tamper-evident audit log of what it did. This project models its protocol and
data-handling core in Dafny and proves what that core promises, over every input and every run.

| file | what it models |
|---|---|
| `AuditChain.dfy`, `AuditLogger.dfy` | the hash chain of the audit file, its retention, restart and checker |
| `SignedText.dfy` | the text an HMAC is taken over, and what an HMAC and an accepted file commit to |
| `AuditFaults.dfy`, `DirectCallers.dfy` | the same log when writes stop part-way, and when several callers share it |
| `Collector.dfy` | the buffered collector, and producers, worker and file logger as an interleaved step machine |
| `Adler.dfy`, `DeltaSync.dfy` | the Adler-32 checksum, and delta push as index, diff and rebuild |
| `Channel.dfy`, `Streaming.dfy` | encrypted frames with one nonce per direction, and streamed push and pull over them |
| `FileTransfer.dfy` | chunked, delta and streamed pushes through temporary files on a failing file system |
| `RateLimiter.dfy`, `RelayFailover.dfy`, `TrustStore.dfy` | the HTTP rate limit, relay failover and backoff, the key store with its rotation log |
| `Template.dfy` | secret references resolved by repeated rescanning |
| `SiemText.dfy`, `Leef.dfy`, `Cef.dfy`, `Base64.dfy` | LEEF and CEF lines against readers of the formats, and Base64 |
| `JsonLaws.dfy` | a printer and a reader that meet every law assumed of JSON, so the laws do not conflict |
| `Prelude.dfy` | shared helpers |

Foreign functions are parameters. SHA-256, the HMAC and the AEAD are arbitrary functions: theorems
conclude "or there is a collision" or "or a ciphertext was forged" and name it, rather than assuming
an ideal primitive. Of the text of a time stamp it is used that different times print differently, and
of it and of hex digests that they hold no pipe. Of JSON it is used that parsing undoes printing, that blank text is no entry and that an
entry prints as one line; where a line end is missing also that an entry is read behind JSON white
space only, that no printed entry begins another, and that pieces of entries run together are
unreadable (`JsonLaws.LawsCanBeMet` shows that all of these can hold at once). Of the AEAD only that
unsealing undoes sealing and that sealing adds 16 bytes; of the message encoding only that a message
is at least as long as what it carries. Clocks, policy answers, operating-system failures, session
outcomes and process ids are inputs. State that the code updates in place is a class whose methods
are proved equal to the step functions the theorems are about.

Where code and documentation disagree, the model follows the code:

- The deletion filter's comment says all criteria must match; the code deletes on any one
  (`AuditLogger.DeletionMeetsItsCommentIff`).
- The audit rewrite's comment says it is atomic; it truncates and writes line by line
  (`AuditLogger.InterruptedRewrite`).
- The chain's file invariant rests on the collector's single worker. Callers that share the file
  logger directly, as the ingress and the MCP server do, keep it exactly when no other line is
  taken between the one whose hash a call read and its own (`DirectCallers.DirectCallersAcceptedIff`).
- A restart resumes the chain exactly when the file ends in a non-blank line with its line end
  (`AuditLogger.ResumeKeepsAcceptanceIff`); which stopped writes the file survives is
  `AuditFaults.EveryRunAcceptedIff`.
- The HMAC is documented as covering the fields one after the other; the code joins them with pipes that
  are not escaped and leaves an absent reason out, so different entries can be signed as one text
  (`SignedText.OnlyEntryWithItsTextIff`).
- The client clamps the delta block size to at least 1024, the agent to at least 1; below 1024
  the round trip fails (`DeltaSync.RoundTripForAllIff`, `DeltaSync.RoundTripIff`). A local file that
  is the remote one cut at a block boundary counts as up to date (`DeltaSync.UpToDateIff`). The
  index and the patches travel in one frame each, so a push fails when either exceeds 65519 bytes
  (`DeltaSync.LargeBlockPushCompletesIff`).
- `send` documents 65535 bytes as the largest payload; the code refuses more than 65519.
- `failover` documents `None` for exhausted relays; the code starts over and returns `None` only
  for an empty list.
- `sha256_hex` in the trust store is hex text, not a digest. Rotating a key to itself leaves it
  trusted, although the old key is said to become untrusted (`TrustStore.RotationMovesTrust`).
- Template resolution rescans what it has put in, so it can differ from substitution
  (`Template.RescanIsOnePassIff`) and need not end (`Template.EndsForAllIff`).
- The rate limiter reads the clock before it takes its lock; handled out of time order, requests
  can exceed the limit of a window, unless the limit is one (`RateLimiter.LimitKeptIff`).
- A delta patch takes any failure to read the old file for a new file and rebuilds from nothing
  (`FileTransfer.PatchKeepsOldIff`). A pushed chunk at a later offset is written without a flush, so
  its failure can go unreported (`FileTransfer.UnseenFailureAcknowledged`). A supplied checksum
  guards against both (`FileTransfer.ChecksumPinsFile`).
- Enrolling or rotating to a key that another agent holds drops that agent without an event
  (`TrustStore.AgentLeavesIff`).
- LEEF and CEF call an event a single line; header fields keep line breaks (`Leef.SingleLineIff`,
  `Cef.SingleLineIff`). The CEF header comment omits the severity 7 that the code gives to errors.

## Model

| member | source | states |
|---|---|---|
| AuditChain.ChainIsOk | crates/rf-audit/src/logger.rs:191-203 | the chain the logger builds over any payloads links every entry to the content hash of the one before and signs each one |
| AuditChain.ChainKeepsPayloads | crates/rf-audit/src/logger.rs:191-203 | rebuilding a chain changes no entry beyond `prev_hash` and `hmac`, and neither drops nor reorders one |
| AuditChain.ChainIgnoresOldLinks | crates/rf-audit/src/logger.rs:197-199 | the rebuilt chain does not depend on the links the entries carried before |
| AuditChain.RenderedIsAccepted | crates/rf-audit/src/logger.rs:265-328 | every rebuilt or appended file is accepted by the checker and reads back as exactly its chain |
| AuditChain.ChainOkSnoc | crates/rf-audit/src/logger.rs:282-322 | a chain with one more entry is accepted if and only if the shorter one is and the new entry is signed and points at its end |
| AuditChain.DeterminedByEnd | crates/rf-audit/src/types.rs:84-89 | two accepted chains that end in the same content hash are equal, length included, or contain a SHA-256 collision |
| AuditChain.AcceptedFilesWithOneEndAgree | crates/rf-audit/src/logger.rs:265-328 | two non-empty accepted files whose last entries share a content hash hold the same entries, or exhibit a SHA-256 collision |
| SignedText.PipedAgreeIff | crates/rf-audit/src/types.rs:34-57 | two lists of fields have one signed text if and only if they fall into the same pieces between pipes |
| SignedText.UnpipedTextsAgreeIff | crates/rf-audit/src/types.rs:34-57 | entries without pipes in their fields share their signed text if and only if they agree in every field but `hmac`, an absent link or command read as empty |
| SignedText.TwinSharesText | crates/rf-audit/src/types.rs:52-55 | every entry with a reason, or with a pipe in a text field, has a different entry with the same signed text |
| SignedText.OnlyEntryWithItsTextIff | crates/rf-audit/src/types.rs:34-57 | an entry is the only one with its signed text if and only if it gives no reason and no pipe is in its text fields |
| SignedText.HmacCoversEveryField | crates/rf-audit/src/types.rs:59-66 | for entries that pipes and reasons do not confuse, one HMAC under one key means equality field by field, or a collision of the MAC on their texts, and conversely |
| SignedText.AcceptedLineIsSigned | crates/rf-audit/src/logger.rs:303-322 | every readable line of an accepted file carries the HMAC of its own fields |
| SignedText.EditedLineIsRejected | crates/rf-audit/src/logger.rs:265-328 | a file with one line of an accepted file replaced is rejected if only the HMAC was changed; rejected, or a MAC collision, if any signed field was changed under the same HMAC; and rejected, or a SHA-256 collision, if anything was changed in a line that is not the last |
| SignedText.EditedLastIff | crates/rf-audit/src/logger.rs:303-322 | the last entry changed under its HMAC stays accepted, short of a MAC collision, if and only if no signed field changed, which leaves an absent command written as empty and an absent first link |
| SignedText.DeterminedByLastHmac | crates/rf-audit/src/logger.rs:265-328 | two accepted files whose last entries carry one HMAC agree in all earlier entries and in every signed field of the last, or SHA-256 or the MAC has a collision among them |
| AuditLogger.Keeps | crates/rf-audit/src/logger.rs:133-162 | deletion keeps an entry if and only if the entry meets none of the criteria that are set |
| AuditLogger.DeletionMeetsItsCommentIff | crates/rf-audit/src/logger.rs:33-49 | the comment (all criteria) and the code (any criterion) select the same entries if and only if exactly one criterion is set |
| AuditLogger.PurgeKeepsExactly | crates/rf-audit/src/logger.rs:110-121 | of any readable file a completed purge keeps, in order, every copy of exactly the entries stamped at or after the cutoff, and answers the number of older ones |
| AuditLogger.DeleteKeepsExactly | crates/rf-audit/src/logger.rs:130-170 | of any readable file a completed deletion keeps, in order, every copy of exactly the entries that meet no criterion, each criterion spelt out |
| AuditLogger.PurgeIsDeleteByAge | crates/rf-audit/src/logger.rs:110-170 | on any file, and however the rewrite ends, purging is deleting by age alone, save that removing nothing is no error |
| AuditLogger.RetainTwice | crates/rf-audit/src/logger.rs:110-170 | two retentions in a row leave the file and hash of one that keeps what both keep, for any file |
| AuditLogger.TwoPurgesAreOne | crates/rf-audit/src/logger.rs:110-121 | two purges in a row are one with the later cutoff |
| AuditLogger.RepliesCountRemovals | crates/rf-audit/src/logger.rs:110-170 | purge answers the number of entries that did not survive; delete does too, except that removing none is an error |
| AuditLogger.EveryRunRefinesAList | crates/rf-audit/src/logger.rs:78-254 | after any run of open, log, purge, delete and reopen whose writes complete, the file is the chain over the list the same operations make of a plain list, the in-memory hash is that of the last entry, and the checker accepts the file |
| AuditLogger.FreshFileHoldsNothing | crates/rf-audit/src/logger.rs:78-101 | a missing or empty file starts a run with nothing stored |
| AuditLogger.ResumeKeepsAcceptanceIff | crates/rf-audit/src/logger.rs:78-101 | opening any accepted file and appending keeps it accepted if and only if it holds no entry and ends in JSON white space at most, or holds entries and ends in a line that is not blank and has its line end |
| AuditLogger.MissingLineEndBreaks | crates/rf-audit/src/logger.rs:241-243 | every good file that lacks only its last line end is accepted, and is rejected after the next append |
| AuditLogger.InterruptedRewrite | crates/rf-audit/src/logger.rs:191-224 | a rewrite that stops between lines leaves an accepted prefix of the survivors; appending through the same logger then breaks the file short of a collision, reopening first repairs it |
| AuditLogger.InterruptedInsideLine | crates/rf-audit/src/logger.rs:191-224 | a rewrite that stops inside a line leaves an accepted file if and only if only the line end is missing, and no append or reopening repairs it |
| AuditLogger.OverlappingAppendsAcceptedIff | crates/rf-audit/src/logger.rs:228-254 | two direct callers that both read the hash before either writes leave an accepted file if and only if the first new entry hashes to the value both read; never from an empty file |
| AuditFaults.EveryRunAcceptedIff | crates/rf-audit/src/logger.rs:78-254 | over every run in which any write may stop at any character, the file is accepted if and only if no line was broken and nothing was appended between a cut-off rewrite and the next reopen or completed rewrite, short of a SHA-256 collision among the entries made |
| AuditFaults.EveryRunKeepsInv | crates/rf-audit/src/logger.rs:78-254 | through all such runs the readable entries, the text behind the last line end, the hash in memory and the depth of every entry stay accounted for |
| AuditFaults.OneDepth | crates/rf-audit/src/logger.rs:197-202 | short of a collision, an entry ever made ends a chain of one length only, so a stale hash is never the file's by chance |
| DirectCallers.EveryRunKeepsInv | crates/rf-audit/src/logger.rs:228-254 | through every interleaving of direct callers each line is signed and points at the line whose hash its caller had read |
| DirectCallers.MemoryIsLastLine | crates/rf-audit/src/logger.rs:242-254 | whenever no call is between its write and its update, the hash in memory is that of the last line |
| DirectCallers.DirectCallersAcceptedIff | crates/rf-audit/src/logger.rs:228-254 | for any number of callers and every interleaving of their lock sections, the file is accepted if and only if every line directly follows the one whose hash its caller had read, short of a SHA-256 collision in the file |
| DirectCallers.ExclusiveCallsAccepted | crates/rf-audit/src/logger.rs:228-254 | callers that let no call begin during another keep the file accepted after every step |
| DirectCallers.OverlappingCallsRejected | crates/rf-audit/src/logger.rs:228-254 | two calls that both read before either writes leave a rejected file or a collision, whatever the file held |
| AuditLogger.VerifyAuditChain | crates/rf-audit/src/logger.rs:265-328 | the checker accepts exactly the well-linked, well-signed files; a rejection names the first spoiling line, as a parse failure exactly if it is unreadable, as an HMAC mismatch exactly if it parses and its link fits, and else as a broken chain |
| AuditLogger.FirstEntryAcceptedIff | crates/rf-audit/src/logger.rs:294-301 | a file of one signed entry is accepted if and only if its link is absent or empty |
| AuditLogger.SerializeChain | crates/rf-audit/src/logger.rs:191-203 | the loop produces the lines and the end hash of the chain over the given entries |
| AuditLogger.Partition | crates/rf-audit/src/logger.rs:110-121 | the survivors in order, and the count of the others |
| AuditLogger.FileAuditLogger.constructor | crates/rf-audit/src/logger.rs:78-101 | the logger resumes from the last line of an existing file, and from nothing if that line is unreadable |
| AuditLogger.FileAuditLogger.LogEntry | crates/rf-audit/src/logger.rs:228-254 | one append extends file and hash together, behind whatever the file ends with; a write that stops leaves what was written and the old hash |
| AuditLogger.FileAuditLogger.ReadAllEntries | crates/rf-audit/src/logger.rs:173-188 | all entries in order without blank lines, or nothing if any line is unreadable |
| AuditLogger.FileAuditLogger.RewriteChain | crates/rf-audit/src/logger.rs:191-224 | on success file and hash are those of the new chain; stopped after some lines and characters, those remain with the old hash |
| AuditLogger.FileAuditLogger.PurgeEntriesBefore | crates/rf-audit/src/logger.rs:110-121 | after a completed purge of a readable file exactly the entries stamped at or after the cutoff are left, in order, and the answer counts the others; an unreadable file is left alone with an error; a stopped rewrite leaves what the retention step says |
| AuditLogger.FileAuditLogger.DeleteEntriesByFilter | crates/rf-audit/src/logger.rs:130-170 | after a completed deletion from a readable file exactly the entries that meet no criterion are left, in order, with an error if that is all of them; an unreadable file is left alone with an error |
| Collector.BufferedAuditCollector.constructor | crates/rf-audit/src/collector.rs:137-163 | a new collector is empty and not stopped |
| Collector.BufferedAuditCollector.LogEntry | crates/rf-audit/src/collector.rs:239-268 | one critical section updates buffer, id queue and id set together, dropping a known id |
| Collector.BufferedAuditCollector.DrainBuffer | crates/rf-audit/src/collector.rs:190-223 | the worker takes the whole buffer and forwards, in order, every copy of exactly the entries with no age limit or stamped at most that long ago; it sees the stop flag of that moment |
| Collector.BufferedAuditCollector.RequestStop | crates/rf-audit/src/collector.rs:166-172 | only the stop flag changes |
| Pipeline.EveryRunKeepsInv | crates/rf-audit/src/collector.rs:180-268 | accounting, file contents, dedup index, buffer bound and stop discipline hold together after every step of every interleaving |
| Pipeline.FileAcceptedInEveryInterleaving | crates/rf-audit/src/collector.rs:180-268 | with any number of producers and the one worker interleaving lock section by lock section, the checker accepts the file after every step, and it holds the earlier entries followed by exactly the lines taken, in acceptance order |
| Pipeline.Conservation | crates/rf-audit/src/collector.rs:166-268 | at every step the accepted entries are, each once, those handed over, held, buffered, evicted or expired; the buffer never exceeds max(1, capacity) |
| Pipeline.OrderPreserved | crates/rf-audit/src/collector.rs:166-268 | what was handed over, then held, then buffered is a subsequence of acceptance order |
| Pipeline.EveryFateExplained | crates/rf-audit/src/collector.rs:203-268 | in every interleaving an accepted entry expired if and only if an age limit is set and it was flushed later than its stamp plus that limit, and was evicted if and only if it made room for a later one, which is the one accepted max(1, capacity) places after it |
| Pipeline.DedupRefinesWindow | crates/rf-audit/src/collector.rs:239-268 | in every run the id queue is the last max(1, window) accepted ids without repeats, the id set is its contents, and equal ids are more than a window apart |
| Pipeline.DroppedIff | crates/rf-audit/src/collector.rs:243-249 | an entry is dropped if and only if its id is among the last max(1, window) accepted ids |
| Pipeline.ThreeStepsAreOneAppend | crates/rf-audit/src/logger.rs:228-254 | the three lock sections of `log`, uninterrupted, are the sequential append |
| Pipeline.WorkerAdvances | crates/rf-audit/src/collector.rs:180-236 | once stopped, every step of the worker lowers a bound on its remaining steps, whatever the clock says and whether or not a line is written |
| Pipeline.StopDrains | crates/rf-audit/src/collector.rs:166-236 | once stopped, the worker exits within that bound for all clock values and write failures, the buffer is empty, and everything neither evicted nor expired has been handed over once, in order |
| Adler.Adler32 | crates/rf-executor/src/command.rs:2261-2270 | the 32-bit loop, without wrap-around, computes both closed-form sums of section 2.2 of RFC 1950, modulo 65521, packed in one word; the client's copy at crates/rf-cli/src/main.rs:2795-2803 is the same loop |
| Adler.SumsSnoc | crates/rf-executor/src/command.rs:2265-2268 | one turn of the loop is one more byte in both closed-form sums |
| Adler.ChecksumSplits | crates/rf-executor/src/command.rs:2269 | the 32-bit word gives both sums back |
| Adler.ChecksumOfConcat | crates/rf-executor/src/command.rs:2261-2270 | the checksum of a concatenation is determined by the two checksums and the length of the second part |
| DeltaSync.BlockSizesAgreeIff | crates/rf-cli/src/main.rs:2741 | agent and client use the same block size if and only if 1024 or more is asked for |
| DeltaSync.UnchangedIff | crates/rf-cli/src/main.rs:2783-2827 | a block is left out of the diff if and only if the agent holds the same block at that offset, short of a SHA-256 collision |
| DeltaSync.BothChecksumsDecide | crates/rf-cli/src/main.rs:2794-2814 | for any index, a block is left out if and only if the index shows both its Adler-32 and its SHA-256 at that offset, and is sent unchanged otherwise |
| DeltaSync.RebuiltAt | crates/rf-executor/src/command.rs:2440-2484 | byte by byte, for every block size: the rebuilt file has the local byte where agent and client blocks start together and the remote byte elsewhere |
| DeltaSync.RoundTrip | crates/rf-executor/src/command.rs:2440-2484 | for block sizes from 1024 on, rebuilding from the diff gives exactly the local file for every pair of files, or there is a block collision |
| DeltaSync.RoundTripIff | crates/rf-executor/src/command.rs:2440-2484 | for any block size, the local file is rebuilt if and only if the two files already agree wherever block starts do not coincide |
| DeltaSync.SmallBlocksFail | crates/rf-cli/src/main.rs:2741 | for every block size below 1024 there is a pair of files that is not rebuilt, whatever the hash |
| DeltaSync.RoundTripForAllIff | crates/rf-cli/src/main.rs:2741 | the round trip holds for all pairs of files, short of a block collision, if and only if the block size is at least 1024 |
| DeltaSync.NoPatchesIff | crates/rf-cli/src/main.rs:2783-2827 | the diff is empty if and only if every client block has an equal agent block |
| DeltaSync.UpToDateIff | crates/rf-cli/src/main.rs:2783-2827 | from 1024 on, the diff is empty if and only if the files are equal or the local one is a proper prefix of the remote one that ends on a block boundary |
| DeltaSync.UpToDateSmallIff | crates/rf-cli/src/main.rs:2783-2827 | below 1024 the diff is empty if and only if the local file is empty or equals the agent's first block |
| DeltaSync.BuildIndex | crates/rf-executor/src/command.rs:2355-2370 | one index entry for each block start of the agent's file, in file order, with that block's size and checksums |
| DeltaSync.DescribeBlock | crates/rf-executor/src/command.rs:2358-2369 | offset, size and both checksums of one block |
| DeltaSync.ComputeDiff | crates/rf-cli/src/main.rs:2783-2827 | exactly the local blocks that the index does not show with both checksums, in file order |
| DeltaSync.BlockChanged | crates/rf-cli/src/main.rs:2794-2814 | a block counts as changed if the index lacks its offset or either checksum differs |
| DeltaSync.NextPiece | crates/rf-executor/src/command.rs:2455-2480 | each byte of a block comes from its patch if there is one, else from the old file, and is zero past their ends |
| DeltaSync.ApplyPatches | crates/rf-executor/src/command.rs:2440-2484 | the block loop builds the file that is defined byte by byte |
| DeltaSync.DeltaPush | crates/rf-cli/src/main.rs:2734-2880 | query, diff and patch together, however the agent fares: an index or a patch message above one frame ends the push, a missing file is sent whole, "applied" means the agent has the local file short of a collision, anything else leaves its file unchanged |
| DeltaSync.LargeBlockPushSucceeds | crates/rf-executor/src/command.rs:2440-2484 | from 1024 on the rebuilt file is the local one, and the diff of different files is empty only if the local one is cut at a block boundary |
| DeltaSync.LargeBlockPushCompletesIff | crates/rf-cli/src/main.rs:2734-2880 | from 1024 on, the exact condition of every end of a push: up to date if and only if the index arrives and the files are equal or cut at a block boundary, completed if and only if moreover any patches fit one frame and the agent allows, rebuilds and installs them, and likewise for too large, refused and failed; only an agent that cannot read its old file refuses |
| DeltaSync.SmallBlockPushIff | crates/rf-cli/src/main.rs:2734-2880 | below 1024, exactly which pushes do not fit, are up to date, are applied and are refused: applied if and only if the files agree wherever block starts do not coincide, short of a collision |
| DeltaSync.UnreadableOldFile | crates/rf-executor/src/command.rs:2442-2443 | an agent that cannot read its old file applies a patch only if the local file is zero outside the patches, or by a collision |
| DeltaSync.LargeIndexFails | crates/rf-agent/src/main.rs:926-929 | an agent file of more than 1023 blocks makes every push fail, even of an equal file |
| DeltaSync.LargePatchFails | crates/rf-cli/src/main.rs:2842-2860 | onto an empty file every push of more than 65519 bytes fails, for every block size |
| Channel.BigEndianRoundTrip | crates/rf-crypto/src/channel.rs:100-103 | the four length bytes give the length back |
| Channel.FrameRoundTrip | crates/rf-crypto/src/channel.rs:115-150 | a framed ciphertext of legal size is read back whole and the bytes after it are left alone |
| Channel.PartialFrame | crates/rf-crypto/src/channel.rs:115-150 | every proper prefix of a frame is waited for |
| Channel.RecvAnswers | crates/rf-crypto/src/channel.rs:115-167 | the answer to any four length bytes, most significant first: below 16 is frame injection, above 65539 too large, a shorter body is waited for or a disconnect, and no failure moves the nonce |
| Channel.NextKeepsInv | crates/rf-crypto/src/channel.rs:78-167 | every step of sender, transport and receiver keeps nonces, wire and deliveries in step |
| Channel.EveryRunKeepsCount | crates/rf-crypto/src/channel.rs:78-167 | in every run the sender uses nonces 0, 1, 2, … once each, in wire order while the transport takes whole frames and also when it refuses one, and the receiver's nonce is the number of delivered payloads |
| Channel.DeliveredIsPrefix | crates/rf-crypto/src/channel.rs:78-167 | whatever the transport drops, repeats, reorders, splits or replaces, the delivered payloads are a prefix of the sent ones, or a ciphertext was forged |
| Channel.DrainWire | crates/rf-crypto/src/channel.rs:115-167 | an untouched stream delivers every payload in order |
| Channel.UntouchedStreamDelivers | crates/rf-crypto/src/channel.rs:115-167 | cut off anywhere, an untouched stream delivers exactly the payloads of its whole frames |
| Channel.ChannelWriter.constructor | crates/rf-crypto/src/channel.rs:45-67 | a writer starts at nonce 0 with nothing on the wire |
| Channel.ChannelWriter.SendFrame | crates/rf-crypto/src/channel.rs:78-110 | a payload is refused as too large if and only if it exceeds 65519 bytes, with nonce and wire untouched; otherwise a nonce is used and the frame, or what the transport took of it, is on the wire |
| Channel.ChannelWriter.CloseNotify | crates/rf-crypto/src/channel.rs:174-177 | a close notice is never too large and uses a nonce like any frame |
| Channel.ChannelReader.constructor | crates/rf-crypto/src/channel.rs:45-67 | a reader starts at nonce 0 |
| Channel.ChannelReader.RecvFrame | crates/rf-crypto/src/channel.rs:115-167 | the nonce moves exactly when a frame unseals; bad lengths and tampered frames use up what was read; too few bytes are waited on, and used up by a disconnect at the end of the stream |
| Streaming.FramesOfFile | crates/rf-cli/src/main.rs:1923-1931 | the chunks of every file are non-empty, fit a frame and join to the file |
| Streaming.AllButLastFull | crates/rf-cli/src/main.rs:1923-1931 | every frame but the last carries exactly 65519 bytes |
| Streaming.CollectSound | crates/rf-agent/src/main.rs:1586-1609 | the agent's loop finishes only with exactly the announced number of bytes, made of non-empty frames in order |
| Streaming.CollectEnds | crates/rf-agent/src/main.rs:1586-1609 | how the loop ends over any frames: with the announced size, at an empty frame, at one that is too long, or at the end of the channel, after exactly the frames taken before |
| Streaming.CollectDoneIff | crates/rf-agent/src/main.rs:1586-1609 | it succeeds if and only if some first frames, none of them empty, add up to the announced size |
| Streaming.CollectComplete | crates/rf-agent/src/main.rs:1586-1609 | any non-empty frames that add up to the announced size are accepted by both loops, and later frames are left for the next message |
| Streaming.LooseDiffersOnlyByOverrun | crates/rf-cli/src/main.rs:1992-2009 | the client's pull loop agrees with the agent's if and only if no frame overruns the announced size; otherwise it returns a longer file |
| Streaming.TransferDelivers | crates/rf-agent/src/main.rs:1798-1806 | over an untouched channel push and pull both end with exactly the file, for every file |
| Streaming.PrefixCollects | crates/rf-agent/src/main.rs:1586-1609 | any prefix of the sent frames yields the whole file or no file, in either loop |
| Streaming.HostileTransferAllOrNothing | crates/rf-agent/src/main.rs:1586-1609 | over any transport the agent's push loop and the client's pull loop (crates/rf-cli/src/main.rs:1992-2009) both end with exactly the file or keep waiting, or a ciphertext was forged |
| Streaming.SendFile | crates/rf-cli/src/main.rs:2712-2718 | the sending loop puts exactly the file's frames on a wire that takes them, and `send` refuses none of them |
| Streaming.ReceiveFile | crates/rf-agent/src/main.rs:1586-1609 | the receiving loop over the channel reader accepts what the frame-level loop accepts and leaves later frames unread |
| FileTransfer.WrittenAt | crates/rf-executor/src/command.rs:1983-2013 | each byte of the temporary file comes from the last chunk that covers it |
| FileTransfer.WrittenZero | crates/rf-executor/src/command.rs:1983-2013 | bytes no chunk covers are zero |
| FileTransfer.WrittenWithin | crates/rf-executor/src/command.rs:1968-1980 | chunks within the limit make a file within the limit |
| FileTransfer.OnlyRenameChangesDestination | crates/rf-executor/src/command.rs:2059-2065 | for all three requests, no file but the request's temporary file changes unless it is the destination of a successful request |
| FileTransfer.UnchangedWithoutSuccess | crates/rf-executor/src/command.rs:1914-2096 | over any run, a file that is no request's temporary file keeps its content unless a request on it succeeded |
| FileTransfer.SuccessMatchesChecksum | crates/rf-executor/src/command.rs:2037-2058 | a success reply means the destination exists and matches the supplied checksum |
| FileTransfer.ChecksumPinsFile | crates/rf-executor/src/command.rs:2037-2058 | with the checksum of the intended file, success leaves exactly that file or a SHA-256 collision, whatever reads and writes failed |
| FileTransfer.DeniedIff | crates/rf-executor/src/command.rs:1927-1980 | a request is denied if and only if the policy forbids it or, except for a stream, the limit would be passed; then, and for a stream past the limit, no file changes |
| FileTransfer.ChunkAcknowledgedIff | crates/rf-executor/src/command.rs:1914-2096 | exactly when a chunk is acknowledged, and that the answer names the offset behind it |
| FileTransfer.PatchAppliedIff | crates/rf-executor/src/command.rs:2391-2540 | exactly when a patch is applied |
| FileTransfer.StreamSucceedsIff | crates/rf-agent/src/main.rs:1500-1664 | a streamed push succeeds if and only if it is allowed and within any limit, some first frames, none empty, have the announced size and checksum, and the disk does not fail; then the destination holds the data of those frames |
| FileTransfer.TempFilesCleanedUp | crates/rf-agent/src/main.rs:1640-1664 | after a success the temporary file is gone, after a failed stream too unless its removal failed, and any other failed request leaves what it wrote only if its write was cut off |
| FileTransfer.CutPatchStays | crates/rf-executor/src/command.rs:2502-2511 | a patch whose write is cut off leaves the part written in its temporary file |
| FileTransfer.PatchKeepsOldIff | crates/rf-executor/src/command.rs:2442-2484 | an applied patch keeps the old bytes outside its patches if and only if the old file could be read, or already reads as zero there |
| FileTransfer.UnreadableFileZeroed | crates/rf-executor/src/command.rs:2442-2443 | an empty patch without a checksum turns any file the agent cannot read into zeros and is answered as applied |
| FileTransfer.UnseenFailureAcknowledged | crates/rf-executor/src/command.rs:1990-2012 | a later chunk whose unflushed write fails is acknowledged in full although only a part of it is on disk |
| FileTransfer.RunRefinesUpload | crates/rf-executor/src/command.rs:1914-2096 | over any run of requests on any files, and any combination of disk failures, the destination is what the list of its own requests says: the overlay of the chunks since the last offset-0 chunk, a rebuilt file or a streamed file, arriving whole or not at all |
| FileTransfer.PushStaysWithin | crates/rf-executor/src/command.rs:1968-1980 | a finished chunked push leaves a file within the largest limit in force during it |
| FileTransfer.RunStaysWithin | crates/rf-executor/src/command.rs:1968-1980 | however the limit changes, every write pending after any run ends within the largest limit in force |
| FileTransfer.UploadEndsInOverlay | crates/rf-executor/src/command.rs:1914-2096 | an uninterrupted upload installs the overlay of its chunks if that matches the checksum and otherwise leaves the destination alone |
| FileTransfer.InOrderRestoresFile | crates/rf-executor/src/command.rs:1983-2013 | pieces sent one after the other overlay to the file they were cut from |
| FileTransfer.TransferAgent.constructor | crates/rf-executor/src/command.rs:1914-1926 | an agent starts from the given file system |
| FileTransfer.TransferAgent.FilePush | crates/rf-executor/src/command.rs:1914-2096 | one push chunk, with every denial and error path, and with failures of unflushed writes that go unreported; no file but the destination and its `.rf_transfer` file changes |
| FileTransfer.TransferAgent.FileDeltaPatch | crates/rf-executor/src/command.rs:2391-2540 | one delta patch, with every denial and error path; an old file that cannot be read counts as empty; no file but the destination and its `.rf_delta` file changes |
| FileTransfer.TransferAgent.ReceiveInto | crates/rf-agent/src/main.rs:1586-1609 | the receiving loop writes what arrived before it ended and reports success exactly for a complete, fully written stream |
| FileTransfer.TransferAgent.FilePushStream | crates/rf-agent/src/main.rs:1500-1664 | one streamed push, with every denial and error path and the clean-up |
| RateLimiter.EvictKeepsRecent | crates/rf-executor/src/command.rs:2903-2910 | dropping expired stamps from the front keeps exactly the accepted stamps at most a window old |
| RateLimiter.RefusedIff | crates/rf-executor/src/command.rs:2905-2930 | a request is refused if and only if `limit` accepted ones to that destination lie in the window before it |
| RateLimiter.EveryRunKeepsInv | crates/rf-executor/src/command.rs:2895-2930 | every queue is the recent rest of the accepted stamps, within the limit, after every run on a monotone clock |
| RateLimiter.EveryRunRefusesIff | crates/rf-executor/src/command.rs:2895-2930 | the same refusal condition for the next request of any run, over all destinations |
| RateLimiter.ZeroLimitAcceptsAll | crates/rf-executor/src/command.rs:2896 | with a limit of zero every request of every run passes, in any order, and no queue is kept |
| RateLimiter.NoWindowExceedsLimit | crates/rf-executor/src/command.rs:2895-2930 | accepted requests i and i + limit to one destination are always more than a window apart |
| RateLimiter.LimitKeptIff | crates/rf-executor/src/command.rs:2897-2930 | over all runs of requests handled at most a skew out of time order, accepted requests i and i + limit are always more than a window apart if and only if the skew is zero or the limit is one |
| RateLimiter.SingleLimitKept | crates/rf-executor/src/command.rs:2897-2930 | with a limit of one the queue is the last accepted stamp and the full window holds in whatever order requests are handled |
| RateLimiter.SpacingUnderSkew | crates/rf-executor/src/command.rs:2897-2930 | in general they are more than the window less the skew apart |
| RateLimiter.SkewBoundIsTight | crates/rf-executor/src/command.rs:2897-2930 | for limits of two and more that bound is attained, for every window and skew |
| RateLimiter.OutOfOrderExceedsLimit | crates/rf-executor/src/command.rs:2897-2930 | an instance: handled in the order 0, 0, 100, 1, all four requests pass a limit of two in ten, three of them within one unit of time |
| RateLimiter.HttpRateLimiter.constructor | crates/rf-executor/src/command.rs:2899-2902 | no destination has a queue at the start |
| RateLimiter.HttpRateLimiter.Admit | crates/rf-executor/src/command.rs:2895-2930 | a limit of zero admits and changes nothing; otherwise one request updates its destination's queue only, is stamped last in it if admitted, and is refused only by a queue of at least the limit |
| RelayFailover.FirstHealthyIsFirst | crates/rf-agent/src/main.rs:226-233 | the relay found is the first in ring order that has not failed, and none is found if and only if all have |
| RelayFailover.FailoverAdvances | crates/rf-agent/src/main.rs:221-239 | a failure moves to the next relay of the ring; the one that completes a lap clears all marks and starts at relay 0 |
| RelayFailover.SessionsClosedForm | crates/rf-agent/src/main.rs:221-239 | which relay each of the next failing sessions tries, in closed form |
| RelayFailover.BatchTriesEachOnce | crates/rf-agent/src/main.rs:221-239 | n failures from a cleared list try every relay exactly once, in ring order |
| RelayFailover.EveryRelayTried | crates/rf-agent/src/main.rs:221-239 | any 2n - 1 failing sessions in a row include every relay |
| RelayFailover.BoundIsTight | crates/rf-agent/src/main.rs:221-239 | from one failure at the last relay, 2n - 2 are not enough |
| RelayFailover.BoundIsTightReached | crates/rf-agent/src/main.rs:594-634 | n - 1 failures, a clean session and one failure bring the loop there |
| RelayFailover.EveryRunKeepsInv | crates/rf-agent/src/main.rs:594-634 | however sessions end, the marks are exactly the relays that failed since the last clear and never the current one, and consecutive failures stay within `max_retries` |
| RelayFailover.StopsIff | crates/rf-agent/src/main.rs:594-634 | in terms of session outcomes alone: the loop stops if and only if a retry limit is set and a turn comes after that many failures in a row, and until then `attempt` is the number of failures in a row |
| RelayFailover.AnyRunReachesEveryRelay | crates/rf-agent/src/main.rs:594-634 | from every reachable state 2n - 1 failures in a row try every relay |
| RelayFailover.WaitBounds | crates/rf-agent/src/main.rs:636-641 | every wait lies between the capped backoff and a quarter more, so at most 75 seconds; saturation never changes it; within a streak it doubles five times up to a minute and then stays |
| RelayFailover.RelayList.constructor | crates/rf-agent/src/main.rs:205-213 | no relay is marked and the first is current |
| RelayFailover.RelayList.MarkFailed | crates/rf-agent/src/main.rs:222-239 | the new state of a failover; `None` is returned for an empty list only |
| RelayFailover.RelayList.ResetFailures | crates/rf-agent/src/main.rs:242-244 | all marks are cleared and the current relay kept |
| RelayFailover.Reconnect | crates/rf-agent/src/main.rs:594-641 | the loop with its retry limit, over sessions with given outcomes, ends in the state of the step machine |
| TrustStore.KeyHashInjective | crates/rf-bootstrap/src/enrollment.rs:49-75 | no two keys share a key hash, so an event names its keys |
| TrustStore.KeyHashReadsBack | crates/rf-bootstrap/src/enrollment.rs:49-75 | each byte of a key is found in its place in the hash, the higher half first, in lower-case digits |
| TrustStore.ApplyKeepsInv | crates/rf-bootstrap/src/enrollment.rs:161-270 | every operation keeps each agent under its own key, with a version that counts its keys and a documented history |
| TrustStore.EveryRunIsDocumented | crates/rf-bootstrap/src/enrollment.rs:161-270 | in every run each agent's key history and current key are a path of rotation events that occur in that order in the log with versions 2 to `version` |
| TrustStore.LogGrows | crates/rf-bootstrap/src/enrollment.rs:228-268 | the rotation log is only appended to |
| TrustStore.LogCounts | crates/rf-bootstrap/src/enrollment.rs:204-270 | over every run the log grows by one for each rotation and each immediate revocation of a known key, and by nothing else |
| TrustStore.LogTellsEveryRecordedStep | crates/rf-bootstrap/src/enrollment.rs:204-270 | each of those operations has its event in its place in the log, with the agent, keys and version as stored then |
| TrustStore.EveryEventIsTold | crates/rf-bootstrap/src/enrollment.rs:204-270 | conversely every event of the log stands for one such operation of the run |
| TrustStore.EveryRevocationIsLogged | crates/rf-bootstrap/src/enrollment.rs:204-231 | in every run each agent stored as revoked has its revocation in the log under its present id, key and version |
| TrustStore.TrustedAfterIff | crates/rf-bootstrap/src/enrollment.rs:183-270 | a key is trusted after an operation if and only if the operation granted it, or it was trusted and not withdrawn |
| TrustStore.UntrustedStaysUntrusted | crates/rf-bootstrap/src/enrollment.rs:183-270 | an untrusted key stays so through any run that neither enrols it nor rotates to it |
| TrustStore.RotationMovesTrust | crates/rf-bootstrap/src/enrollment.rs:235-270 | rotation makes the new key trusted, even for a revoked agent, and a different old key untrusted, keeping id and history |
| TrustStore.AgentLeavesIff | crates/rf-bootstrap/src/enrollment.rs:161-270 | an agent leaves the store if and only if its key is removed, enrolled again or rotated onto by another agent, and no event tells of it |
| TrustStore.OriginCarriesOver | crates/rf-bootstrap/src/enrollment.rs:161-270 | every stored agent is newly enrolled or carries over from before, unchanged, revoked or renewed |
| TrustStore.AgentTrustStore.constructor | crates/rf-bootstrap/src/enrollment.rs:132-138 | a new store is empty |
| TrustStore.AgentTrustStore.RegisterAgent | crates/rf-bootstrap/src/enrollment.rs:161-180 | enrolment replaces whatever the key held before |
| TrustStore.AgentTrustStore.RevokeAgent | crates/rf-bootstrap/src/enrollment.rs:189-200 | removal, answering whether the key was known; nothing is logged |
| TrustStore.AgentTrustStore.RevokeAgentImmediately | crates/rf-bootstrap/src/enrollment.rs:204-231 | the agent stays but is marked, with exactly one event that tells its id, key and version if it was known; nothing changes otherwise |
| TrustStore.AgentTrustStore.Rotate | crates/rf-bootstrap/src/enrollment.rs:235-270 | the agent moves to the new key with exactly one event that tells both keys and the new version, or nothing happens for an unknown key |
| Template.FindIsFirst | crates/rf-crypto/src/secrets.rs:275 | the search finds the first occurrence if there is any |
| Template.ScanFirst | crates/rf-crypto/src/secrets.rs:275-282 | the found reference splits the text into before, name and after around its delimiters |
| Template.OneReference | crates/rf-crypto/src/secrets.rs:273-293 | the reference `{{ secrets.NAME }}` alone resolves to the value of the secret, for spaceless names and brace-free values |
| Template.PlainValuesTerminate | crates/rf-crypto/src/secrets.rs:273-293 | if no secret contains an opening brace the loop ends for every template, within half as many turns as it has braces |
| Template.SingleBracesTerminate | crates/rf-crypto/src/secrets.rs:273-293 | values with at most one opening brace each end too, within as many turns as the template has braces |
| Template.EndsForAllIff | crates/rf-crypto/src/secrets.rs:273-293 | the loop ends for every store whose values have at most k opening braces and every template if and only if k is at most 1 |
| Template.ExpandsInPlace | crates/rf-crypto/src/secrets.rs:273-293 | a value that itself holds references is expanded in place, or fails as its expansion does, before the loop goes on behind it |
| Template.RankedSecretsEnd | crates/rf-crypto/src/secrets.rs:273-293 | secrets that refer to one another without a cycle end in the recursive expansion, or its failure, after one turn for each reference that comes up |
| Template.BoundOf | crates/rf-crypto/src/secrets.rs:273-293 | every template has a bound on the ranks of its references, as that needs |
| Template.SelfReferenceNeverEnds | crates/rf-crypto/src/secrets.rs:273-293 | a secret whose value is its own reference keeps the loop running for ever |
| Template.InertIff | crates/rf-crypto/src/secrets.rs:275 | a text is inert if and only if no continuation makes a reference begin inside it |
| Template.RescanIsOnePass | crates/rf-crypto/src/secrets.rs:273-293 | when literals and values are inert, rescanning equals one-pass substitution, result and failure alike |
| Template.RescanIsOnePassIff | crates/rf-crypto/src/secrets.rs:273-293 | for every template that one-pass substitution resolves, the loop returns that text if and only if the text holds no opening of a reference |
| Template.SameFailure | crates/rf-crypto/src/secrets.rs:273-293 | where one-pass substitution fails, the loop fails in the same way if no reference opens in the text put together before |
| Template.OtherFailure | crates/rf-crypto/src/secrets.rs:273-293 | otherwise it may fail differently: a value that refers to a missing secret fails first |
| Template.DoneHoldsNoOpening | crates/rf-crypto/src/secrets.rs:275 | whatever the loop returns holds no opening of a reference |
| Template.EachReferenceTakesOne | crates/rf-crypto/src/secrets.rs:273-293 | with fewer turns than references the loop is not done, so it takes exactly one turn per reference |
| Template.TemplateIsOnePass | crates/rf-crypto/src/secrets.rs:273-293 | the same from the start of a template |
| Template.BracelessIsInert | crates/rf-crypto/src/secrets.rs:275 | text without an opening brace is inert |
| Template.ResolveTemplate | crates/rf-crypto/src/secrets.rs:273-293 | the loop computes the rescanning specification for any number of turns |
| SiemText.UnescapeEscape | crates/rf-audit/src/leef.rs:62-68 | unescaping undoes escaping for every text |
| SiemText.ChainIsOnePass | crates/rf-audit/src/leef.rs:62-68 | `replace` calls one after the other, backslash first, equal escaping character by character in one pass |
| SiemText.HeaderRoundTrip | crates/rf-audit/src/leef.rs:72-74 | pipe-separated header fields read back whatever they contain |
| SiemText.TabbedRoundTrip | crates/rf-audit/src/leef.rs:86-107 | tab-separated attributes read back whatever their values contain |
| SiemText.ExtensionRoundTrip | crates/rf-audit/src/cef.rs:60-76 | space-separated extension attributes read back although values may contain spaces |
| SiemText.EscapeHeaderIsOnePass | crates/rf-audit/src/leef.rs:72-74 | the two header replacements are the one-pass escape; CEF has the same function at crates/rf-audit/src/cef.rs:46-48 |
| SiemText.SeverityIff | crates/rf-audit/src/leef.rs:46-53 | severity 8 exactly for decisions that hold "denied", 7 for "error" without it, 3 for "allowed" without either, 5 for all others |
| Leef.EscapeValueIsOnePass | crates/rf-audit/src/leef.rs:62-68 | the five value replacements are the one-pass escape |
| Leef.FormatLeef | crates/rf-audit/src/leef.rs:80-136 | the line is the specified one, and a reader of the format recovers exactly the header fields and attributes, in both versions |
| Leef.ReadBack | crates/rf-audit/src/leef.rs:80-136 | every line of either version reads back as exactly its fields and attributes, for all field contents |
| Leef.LineSays | crates/rf-audit/src/leef.rs:80-136 | a reader finds each part of the entry under its own key and under no other, and the header fields in the order of the format, in both versions |
| Leef.EscapedCharacters | crates/rf-audit/src/leef.rs:62-68 | each of the five special characters is written as a backslash and its letter, all others as they are |
| Leef.LinesEqualIff | crates/rf-audit/src/leef.rs:80-136 | two lines are equal if and only if version, product version and the recorded entry are equal: all but chain fields and sub-millisecond time |
| Leef.SingleLineIff | crates/rf-audit/src/leef.rs:72-74 | an event contains a line break if and only if its product version, action or version-2 label does |
| Cef.EscapeValueIsOnePass | crates/rf-audit/src/cef.rs:38-43 | the four value replacements are the one-pass escape |
| Cef.FormatCef | crates/rf-audit/src/cef.rs:53-88 | the line is the specified one, and a reader of the format recovers exactly the header fields and extension |
| Cef.ReadBack | crates/rf-audit/src/cef.rs:53-88 | every line reads back as exactly its fields and extension, for all field contents |
| Cef.LineSays | crates/rf-audit/src/cef.rs:53-88 | a reader finds each part of the entry under its own key and under no other, and the seven header fields in order with the severity of the decision |
| Cef.EscapedCharacters | crates/rf-audit/src/cef.rs:38-43 | each of the four special characters is written as a backslash and its letter, all others as they are |
| Cef.LinesEqualIff | crates/rf-audit/src/cef.rs:53-88 | two lines are equal if and only if product version, process id and recorded entry are equal, where an absent reason records as a dash and an absent command as the action |
| Cef.SingleLineIff | crates/rf-audit/src/cef.rs:46-48 | an event contains a line break if and only if its product version, action or name does |
| Base64.AlphabetIsSymbols | crates/rf-audit/src/elasticsearch.rs:153 | the table is the alphabet of section 4 of RFC 4648 |
| Base64.SextetsOfWord | crates/rf-audit/src/elasticsearch.rs:156-161 | shifts and masks of the 24-bit word give the four six-bit groups |
| Base64.DecodeIff | crates/rf-audit/src/elasticsearch.rs:152-174 | a strict reader accepts a text as these bytes if and only if it is their encoding |
| Base64.EncodeLength | crates/rf-audit/src/elasticsearch.rs:152-174 | the encoding of n bytes has 4 * ceil(n / 3) characters |
| Base64.PaddingAtEnd | crates/rf-audit/src/elasticsearch.rs:162-171 | padding fills exactly the missing places at the end and all else is in the alphabet |
| Base64.Base64Encode | crates/rf-audit/src/elasticsearch.rs:152-174 | the loop computes the encoding, and the strict reader gives the bytes back |
| Base64.EncodeChunk | crates/rf-audit/src/elasticsearch.rs:156-171 | one chunk of one to three bytes becomes its group of four characters |

## Left out

- Noise handshake, SHA-256, HMAC, ChaCha20-Poly1305, HSM, TPM and key files: foreign libraries or hardware, kept as parameters.
- Proxy tunnels, PTY, port forwarding, process spawning, updater, webhooks, metrics and SIEM senders: input and output.
- Policy decisions, codec, orchestrator, relay selection and probing, CLI handling: an answer of theirs is an input where one is needed.
- One-time passwords, tickets, alerts, reports and desired-state checks: each is decided within one call and shares no state with what is modelled.
- OCSF, syslog and CSV text: fixed layouts that no other part of the program reads back.
- Audit entries written by the file handlers, bandwidth throttling and setting of file modes: no effect on contents; a failing mode change of a streamed file behaves like the failing rename modelled here.
- SignedText.HmacCoversEveryField: only for entries that `Distinguishable` admits; for the others it is false, exactly as `SignedText.OnlyEntryWithItsTextIff` says.
- AuditLogger.EveryRunRefinesAList: covers runs whose writes complete; runs with stopped writes are `AuditFaults.EveryRunAcceptedIff`.
- AuditLogger.FileAuditLogger.RewriteChain: a write stops between characters; a cut inside one UTF-8 character, which makes the file unreadable as text, is not modelled.
- AuditLogger.FileAuditLogger.LogEntry: lock poisoning does not occur.
- Pipeline.FileAcceptedInEveryInterleaving: a line is written whole or not at all, and purge and delete do not run beside the worker; a waiting worker may wake at any time, so time-outs are not modelled.
- DirectCallers.DirectCallersAcceptedIff: a line is written whole or not at all, and the callers only log; purge and delete do not run beside them.
- Channel.EveryRunKeepsCount: nonces are unbounded numbers, so exhaustion of the 64-bit counter is not modelled.
- Streaming.SendFile: the transport takes every byte; a refused frame is in `Channel.EveryRunKeepsCount` and ends the transfer.
- Channel.ChannelReader.RecvFrame: the two kinds of decryption error are one.
- DeltaSync.DeltaPush: denials, size limits and file system errors are answers of the agent given as inputs; the query and the final answer are taken to fit a frame, and the full transfer of a missing file is taken to succeed.
- FileTransfer.RunRefinesUpload: paths are names; requests whose temporary name is another request's file or destination are excluded by `Separate`.
- FileTransfer.TransferAgent.FilePush: offsets are unbounded, so overflow of offset plus length is not modelled; an unflushed write is over before the next step, so that it may land after the checksum is read or the file is renamed is not modelled.
- RateLimiter.EveryRunRefusesIff: limit and window stay fixed during a run; a limit of zero means no limit, as in the code.
- RelayFailover.Reconnect: starts from a fresh list and ends with the given outcomes; waiting and shutdown signals are not modelled.
- TrustStore.AgentTrustStore.Rotate: an in-memory store; saving to a file, its errors and the time stamps are not modelled, and versions are unbounded.
- Template.ResolveTemplate: carries a bound on replacements because the loop may not end; unsealing with its grace period and UTF-8 check is one lookup that may fail.
- Template.SameFailure: one direction only, because a reference that opens across put-in text can lead to the same failure by chance.
- Base64.Base64Encode: shifts and masks on the 32-bit word are written as divisions and remainders.
- Texts are sequences of characters: byte offsets inside UTF-8 are not modelled.
