# A verified model of the request-grant server's hard core

The repository is an MCP server for a Termux device. Mutating tools are authorised by short-lived,
single-use request grants; responses are streamed as server-sent events and can be replayed within a
session; provider programs run under a supervisor. This project models the code that carries hard
properties and proves them for every input, every schedule and every run.

| file | models |
|---|---|
| `Common`, `BigEndian`, `Hex`, `Segments` | byte strings, big-endian integers, lowercase hex, `split('.')`, fixed-width field layouts |
| `GrantCodec` | payloads, tokens and the parser of the five grant families |
| `Preimages` | every byte string fed to HMAC-SHA-256 or SHA-256 by the grant code |
| `GrantReplay` | the bounded, pruned, clock-guarded replay table and the process-global registry |
| `GrantAuthority` | issuing and consuming tokens, and runs of any number of authorities over one registry |
| `SseWire` | the event printer, and the interpreter of the WHATWG HTML Living Standard, sections 9.2.5 and 9.2.6 |
| `SessionStore` | the session store with idle expiry and the bounded window of replayable streams |
| `ProcessSupervisor` | the event loop, the bounded readers, the deadlines and authoritative cleanup |
| `SnapshotCopy` | the copy-and-hash loops under short reads, short writes and a changing source |
| `VolumeControl` | the single-lane set, verify and roll-back protocol |
| `TransportSecurity` | host and origin normalisation and the request check |

**Form.** Objects the source mutates are classes whose methods are tied to a step function of the old
state (`Table`, `System`, `Store`, `Loop`, `Run`); loops over buffers are methods with loop invariants.
Results about runs are lemmas over those step functions, and each method's contract says that it takes
exactly one such step. Each mutex-protected call is one atomic step. `Bytes` is a byte string, text
included.

**Primitives.** HMAC-SHA-256 (RFC 2104), SHA-256 (FIPS 180-4) and UUID text are function values in
`Primitives`; nothing is assumed about them beyond result lengths, so where a collision could matter
it appears in the statement (`GrantAuthority.Coincidence`). Textual IP addresses are function values
in `IpText`, assumed to round-trip, to accept only letters, digits, dots and colons, and for IPv6 to
ignore case; `TransportSecurity.LawfulTextExists` shows the assumptions consistent.

## Findings

- The bounded replay table is *not* always the registry that remembers every grant: after an entry
  expires, the same id under a later expiry is accepted again (`GrantReplay.RevivalExample`). The two
  agree over a run if and only if no such request occurs (`GrantReplay.TableRefinesHistory`); no run in
  which each id carries one expiry has one. A token fixes both, so single use of tokens is unaffected.
- The session store is *not* always its unpruned, unevicting reference: a call whose clock is earlier
  than a previous one can name a session that was pruned and is alive again by that clock
  (`SessionStore.BackwardClockExample`). Over any run the two answer alike if and only if no call runs
  into such a session (`SessionStore.StoreMatchesReferenceIff`); under a non-decreasing clock none does.
  The clock is read before the lock is taken (`src/mcp_session.rs:115-145`), so two threads can present
  times out of order. What a session retains does not depend on the clock
  (`SessionStore.RetainedStreamsAreLongestSuffix`).
- A printed list of events is recovered from the wire if and only if no event's data holds CR or LF
  (`SseWire.RecoveredIffAllOneLine`, `SseWire.LineFeedInDataIsLost`); the printer itself does not check.
- One dot after a host is *not* always ignored: `[::1]` is accepted and `[::1].` is refused, because
  after the bracket only a port may follow (`TransportSecurity.BracketedDotExample`,
  `TransportSecurity.TrailingDotIgnoredIff`).
- The second size check of `record_sse_response_at` can never fail
  (`SessionStore.SecondSizeCheckNeverFails`), and the `checked_add` failures of the copy loop are
  unreachable: the model keeps every offset within `u64` by proof.
- A token is at most 361 bytes long, below the 384 the header limit allows (`GrantCodec.TokenShape`).

## Model

| member | source | states |
|---|---|---|
| GrantReplay.TableRefinesHistory | src/grant_replay.rs:65-110 | Over every run with arbitrary clocks the pruned bounded table answers call by call as a registry that forgets nothing and counts only unexpired entries, if and only if no expired id is presented again as a timely grant |
| GrantReplay.TableIsHistoryForSingleExpiries | src/grant_replay.rs:65-110 | When each id always carries one expiry, the two agree on every run from empty |
| GrantReplay.RevivalExample | src/grant_replay.rs:86-109 | A concrete run on which the table accepts one id twice and the full history does not |
| GrantReplay.SpentStep | src/grant_replay.rs:65-110 | Acceptance spends an (id, expiry) pair, every later call keeps it spent, and a spent pair is always refused |
| GrantReplay.AcceptedAtMostOnce | src/grant_replay.rs:65-110 | No run, whatever its clocks, accepts one (id, expiry) pair twice |
| GrantReplay.LiveGrantsNeverExceedCapacity | src/grant_replay.rs:95-109 | After any run the table holds at most its capacity |
| GrantReplay.AcceptedEntriesExpire | src/grant_replay.rs:74-109 | Every entry in the table after a run was there before it or was accepted by some call, and expires by that call's time plus lifetime plus skew, saturation included |
| GrantReplay.CapacityRecovers | src/grant_replay.rs:86-109 | Once the clock is lifetime plus skew past the last acceptance of any run, a well-formed grant is accepted unless the clock rolled back |
| GrantReplay.RollbackIff | src/grant_replay.rs:78-84 | Over any run a call is a clock rollback if and only if an earlier call, or the state, saw a strictly later time |
| GrantReplay.EveryAnswerIsDecided | src/grant_replay.rs:65-110 | Every answer of every run of a new state follows from the requests alone: the clocks before it, its own times, and the unexpired grants accepted before |
| GrantReplay.SharedReplayState.Consume | src/grant_replay.rs:65-110 | One locked call is exactly one table step and never accepts a pair already accepted |
| GrantReplay.ReplayRegistry.Resolve | src/grant_replay.rs:155-178 | A known namespace always yields its one retained state or a capacity refusal; a new one gets a fresh empty state while there is room; distinct namespaces never share a state |
| GrantAuthority.GrantAuthority.ConsumeAt | src/copy_file_grant.rs:380-407 | A token refused before the replay check leaves replay state untouched; an admitted one is exactly one replay step on its id, issue time and expiry |
| GrantAuthority.KeyTextIsCanonical | src/copy_file_grant.rs:291-308 | Up to resolving the replay state, construction gives the authority of a key, with the keyed digest of the secret, if and only if key id, secret and capacity are valid and the text is the key's lowercase spelling; otherwise the configuration is invalid |
| GrantAuthority.GrantProcess.Construct | src/copy_file_grant.rs:285-324 | Construction is exactly one system step: a bad configuration leaves the registry alone, a good one resolves its namespace or is refused for capacity or room |
| GrantAuthority.GrantProcess.SharedReplayState | src/grant_replay.rs:181-206 | Resolving through the registry is exactly the system's resolution of the namespace |
| GrantAuthority.GrantProcess.IssueAt | src/copy_file_grant.rs:355-378 | Issuing is exactly one system step and changes nothing |
| GrantAuthority.GrantProcess.ConsumeAt | src/copy_file_grant.rs:380-407 | Consuming with an authority of the process is exactly one system step: no namespace but its own changes |
| GrantAuthority.SessionTextIsCanonical | src/copy_file_grant.rs:527-533 | Only one text names a session |
| GrantAuthority.IssueIff | src/copy_file_grant.rs:355-378 | Issuing succeeds if and only if the session is a printed UUID and sixty seconds fit the clock; each failure is named, in the family's order |
| GrantAuthority.IssuedTokenReads | src/copy_file_grant.rs:355-378 | An issued token reads as a grant with the drawn id, issued now, expiring in sixty seconds, for its authority, session and target field by field |
| GrantAuthority.AdmissionIff | src/create_directory_grant.rs:264-285 | A token is admitted if and only if it reads as a grant for this authority, session and target, posture and family byte included |
| GrantAuthority.AdmissionErrors | src/android_volume_grant.rs:230-248 | A refused token is refused for the first thing wrong: no token, session, token text, binding |
| GrantAuthority.ConsumeIsDecided | src/copy_file_grant.rs:380-407 | Every answer to a presented token, error by error, from the admitted grant's times, the clock and what is live |
| GrantAuthority.IssuedTokenIsUsable | src/write_file_grant.rs:381-433 | An issued token is accepted by its own authority from five seconds before its issue until sixty after it, by a clock not running backwards, while its id is not live and there is room; every refusal names its one reason |
| GrantAuthority.SharedNamespaceIsCoincidence | src/grant_replay.rs:208-224 | Two authorities share a replay state only if they are one, or by an explicit HMAC coincidence |
| GrantAuthority.AdmittedTokenIsEncoding | src/copy_file_grant.rs:380-397 | An admitted token is the re-encoding of its own grant under the admitting authority, with that family's capability byte |
| GrantAuthority.IssuedTokenBindsItsOperation | src/copy_file_grant.rs:355-407 | An issued token is admitted for its own session and target; for the structural families for no other, for the keyed families for another only if two distinct binding inputs have one HMAC |
| GrantAuthority.NoTokenServesTwoFamilies | src/request_grant_capability.rs:22-57 | No token is admitted by two families, for any keys, sessions and targets; two admissions see one grant and one key id |
| GrantAuthority.NamespacesAreIsolated | src/grant_replay.rs:155-206 | In any interleaving one namespace behaves as a lone table fed with the requests admitted for it |
| GrantAuthority.DoubleAdmissionIsCoincidence | src/copy_file_grant.rs:380-448 | Two different authorities that admit one token exhibit an explicit HMAC coincidence |
| GrantAuthority.TokenAcceptedAtMostOnce | src/grant_replay.rs:155-195 | Over any interleaving of any number of authorities a token is accepted at most once, save for an explicit HMAC coincidence between two different authorities |
| GrantAuthority.OneAuthorityAcceptsOnce | src/grant_replay.rs:155-206 | One authority, however often reconstructed, accepts a token once, with no cryptographic assumption |
| GrantCodec.TokenIsCanonical | src/copy_file_grant.rs:409-485 | A string parses to a grant if and only if it is that decodable grant's own signed encoding |
| GrantCodec.ParsedTokenIsEncoding | src/copy_file_grant.rs:450-485 | Whatever parses equals the re-encoding of what it parsed to |
| GrantCodec.EncodingParses | src/android_volume_grant.rs:262-309 | For every valid key id, parsing a signed encoding returns the grant, or is malformed exactly when the grant carries an unknown volume stream |
| GrantCodec.TokenShape | src/copy_file_grant.rs:409-416 | An encoding is ASCII, splits into exactly its four segments and fits the header limit |
| GrantCodec.PayloadDecodeIsExact | src/create_directory_grant.rs:404-468 | The payload codec is a bijection between decodable grants and accepted payloads |
| GrantCodec.EncodePayloadInjective | src/copy_file_grant.rs:535-553 | Two grants of one layout with one payload are equal |
| GrantCodec.PayloadWidth | src/android_volume_grant.rs:355-377 | Every field sits at its fixed offset and payloads are 65, 130 or 91 bytes |
| GrantCodec.PayloadLayout | src/create_directory_grant.rs:404-427 | Every field of every layout is at its offset, byte for byte |
| GrantCodec.RefusalsAreNamed | src/copy_file_grant.rs:450-485 | A text of four segments is refused for the first thing wrong: length or characters, version, key id, hexadecimal fields, signature over everything before it, payload |
| GrantCodec.MisshapenIsMalformed | src/copy_file_grant.rs:451-463 | An empty, overlong, non-ASCII or otherwise segmented text is malformed |
| GrantCodec.KeyIdAlphabet | src/copy_file_grant.rs:519-525 | Key ids are one to 32 lowercase letters, digits, dashes or underscores |
| GrantCodec.Put | src/copy_file_grant.rs:572-576 | Writes the next field at the moving offset and keeps every earlier byte |
| GrantCodec.EncodeOpaqueInPlace | src/write_file_grant.rs:571-589 | Filling the buffer field by field gives the payload encoding |
| GrantCodec.EncodeDirectoryInPlace | src/create_directory_grant.rs:404-427 | Filling the buffer field by field gives the payload encoding |
| GrantCodec.EncodeVolumeInPlace | src/android_volume_grant.rs:355-377 | Filling the buffer field by field gives the payload encoding |
| Hex.EncodeThenDecode | src/copy_file_grant.rs:585-612 | Decoding an encoding returns the bytes |
| Hex.EncodeAt | src/copy_file_grant.rs:585-593 | Each byte is printed as two digits of the source's alphabet, the high half first |
| Hex.DecodeArrayIsExact | src/copy_file_grant.rs:595-612 | A text decodes to an array if and only if it is that array's lowercase encoding |
| Hex.EncodeLoop | src/copy_file_grant.rs:585-593 | The byte loop prints the lowercase encoding |
| Hex.DecodeArrayLoop | src/copy_file_grant.rs:595-604 | The pair loop decodes exactly the encodings of the wanted length |
| BigEndian.U64RoundTrip | src/copy_file_grant.rs:535-570 | Eight big-endian bytes and a 64-bit integer convert back and forth |
| BigEndian.ByteAt | src/copy_file_grant.rs:535-570 | The most significant byte comes first |
| Segments.JoinThenSplit | src/copy_file_grant.rs:450-465 | Splitting joined dot-free segments returns the segments |
| Segments.SplitThenJoin | src/copy_file_grant.rs:450-465 | Joining what was split returns the text |
| Preimages.MacInputsAreDisjoint | src/copy_file_grant.rs:418-448 | Under one key all HMAC inputs, of any purpose, family, grant, principal, session and target, are pairwise distinct |
| Preimages.MacBytesAreTheSources | src/write_file_grant.rs:444-483 | The message authenticated for each purpose, byte for byte: tag, NUL, and every field in the source's order and width |
| Preimages.DomainsSeparate | src/copy_file_grant.rs:54-56 | Two NUL-terminated domains can begin one byte string only if they are equal |
| Preimages.TargetFieldsInjective | src/write_file_grant.rs:444-483 | Within a family the target fields have fixed widths and determine the target |
| Preimages.TrashFieldsInjective | src/trash_file_grant.rs:372-400 | The trash binding, recovery posture included, determines every target field |
| Preimages.ExistingFieldsInjective | src/write_file_grant.rs:465-480 | Absent and present identities take equal widths and never coincide |
| Preimages.NamespaceInjective | src/grant_replay.rs:208-224 | The replay namespace input determines family, key id and principal |
| Preimages.PathPreimageInjective | src/copy_file_grant.rs:173-193 | No two component lists of any number and length, and no two families, feed a path digest the same bytes |
| Preimages.PathPreimageIsTheSources | src/copy_file_grant.rs:173-193 | A path digest is taken over the family's tag, each component behind its four-byte length at its place, and the four-byte count; it is refused exactly for no components or a number that does not fit |
| Preimages.NormalizedPathDigest | src/copy_file_grant.rs:173-193 | The hashing loop digests exactly that preimage, and refuses exactly the empty, overlong or too many components |
| SseWire.OutputBuffer.AppendEvent | src/mcp_session.rs:53-62 | Appends exactly one event's wire bytes, as many as the length function says |
| SseWire.StreamLength | src/mcp_session.rs:64-75 | The printed length of any list of events is the sum of their wire lengths |
| SseWire.PrintedEventsAreRecovered | src/mcp_session.rs:53-62 | A standard interpreter recovers the ids, data and retry marks of any list of one-line events |
| SseWire.RecoveredIffAllOneLine | src/mcp_session.rs:53-62 | A whole printed list with safe ids is recovered if and only if every event's data holds no CR or LF |
| SseWire.RecoveredIffOneLine | src/mcp_session.rs:53-62 | An event with a safe id is recovered if and only if its data holds no CR or LF |
| SseWire.LineFeedInDataIsLost | src/mcp_session.rs:53-62 | A concrete event whose data the reader truncates at its line feed |
| SessionStore.StepKeepsValid | src/mcp_session.rs:147-301 | Every call keeps all bounds: sessions, streams, two events a stream, distinct stream ids, exact byte count |
| SessionStore.EveryReachableStoreIsValid | src/mcp_session.rs:147-301 | Every reachable store keeps them |
| SessionStore.ReachableBounds | src/mcp_session.rs:147-301 | In every reachable store sessions are within the limit, and each holds at most 8 streams whose printed bytes are the counter's exact value and at most 262144 |
| SessionStore.SecondSizeCheckNeverFails | src/mcp_session.rs:240-247 | The check on both events' bytes is implied by the check on the data |
| SessionStore.EvictionIsOptimal | src/mcp_session.rs:249-262 | Greedy front eviction from the optimal window is the optimal window of everything recorded |
| SessionStore.WindowIsLongest | src/mcp_session.rs:249-262 | The window is the longest suffix that fits both bounds |
| SessionStore.RetainedStreamsAreLongestSuffix | src/mcp_session.rs:207-271 | After any run, whatever its clocks, a session retains exactly the one longest suffix of everything its calls recorded that is at most 8 streams and 262144 printed bytes |
| SessionStore.StoreMatchesReferenceIff | src/mcp_session.rs:147-310 | Over every run with arbitrary clocks the store answers call by call as a reference that prunes and evicts nothing, if and only if no call runs into a session that was pruned and is alive by that call's clock |
| SessionStore.StepAgreesUnlessMissed | src/mcp_session.rs:147-310 | One call: the answers part exactly when the call misses, and the stores stay related when it does not |
| SessionStore.StoreRefinesReference | src/mcp_session.rs:147-310 | From related stores and under a non-decreasing clock, every answer is the reference's |
| SessionStore.StoreIsTheReference | src/mcp_session.rs:102-310 | From a new store and under a non-decreasing clock, eager pruning and eviction answer as a store that prunes and evicts nothing, capacity answers included |
| SessionStore.BackwardClockExample | src/mcp_session.rs:303-310 | A concrete run with a clock running backwards on which they differ |
| SessionStore.RefusalsExtendNothing | src/mcp_session.rs:147-301 | A refused call extends no session, and an answered one touches only its own |
| SessionStore.RecordedResponseIsTheResponse | src/mcp_session.rs:224-271 | What a recording answers and retains is a priming event and the very response, under one drawn identifier, and one-line data is read from the wire as such |
| SessionStore.RunLives | src/mcp_session.rs:147-310 | Whether a session exists after any run, its phase and its last touch are what its own answered calls and the clocks tell, with no other session in sight |
| SessionStore.EveryAnswerIsDecided | src/mcp_session.rs:147-310 | Every answer of every run of a new store follows from its history: the life of the session it names, what was recorded in it, and, to create one, which sessions live |
| SessionStore.ActiveStaysActive | src/mcp_session.rs:185-195 | A living session's phase never goes back from active |
| SessionStore.ReplayCompletesTheStream | src/mcp_session.rs:273-301 | After any run, whatever its clocks, an answered replay is the rest, after the cursor, of events that an earlier call recorded and delivered in that session |
| SessionStore.RetainedCursorReplays | src/mcp_session.rs:284-300 | In every valid session a retained cursor has one place only and is answered with the rest of its stream |
| SessionStore.CursorFoundIffRetained | src/mcp_session.rs:284-300 | A cursor is found exactly when a retained stream holds it |
| SessionStore.ReplayIsIsolated | src/mcp_session.rs:273-301 | A replay's answer depends on no other session |
| SessionStore.MintedEventsAreSafe | src/mcp_session.rs:225-247 | The ids the store mints always survive the wire |
| SessionStore.McpSessionStore.CreateAt | src/mcp_session.rs:147-172 | One locked call is one store step and keeps the store valid |
| SessionStore.McpSessionStore.PhaseAt | src/mcp_session.rs:174-183 | One locked call is one store step and keeps the store valid |
| SessionStore.McpSessionStore.ActivateAt | src/mcp_session.rs:185-195 | One locked call is one store step and keeps the store valid |
| SessionStore.McpSessionStore.TerminateAt | src/mcp_session.rs:197-205 | One locked call is one store step and keeps the store valid |
| SessionStore.McpSessionStore.RecordSseResponseAt | src/mcp_session.rs:207-271 | The running byte counter, the draw loop and the eviction loop do exactly the recording step |
| SessionStore.McpSessionStore.ReplaySseAfterAt | src/mcp_session.rs:273-301 | The nested search does exactly the replay step |
| SessionStore.MakeRoom | src/mcp_session.rs:249-258 | The eviction loop terminates, never pops an empty queue, never underflows and evicts as specified |
| ProcessSupervisor.DeadlinesAreOrdered | src/bounded_process.rs:244-250 | The final deadline is start plus timeout, cleanup's share is a quarter of it but at most 250 ms, and the operation keeps three milliseconds or more |
| ProcessSupervisor.LimitsIff | src/bounded_process.rs:173-214 | Exactly timeouts of 4 ms to 5 s and limits up to 16384 and 4096 bytes are accepted, the first broken one is named |
| ProcessSupervisor.CapturedIsWholeStream | src/bounded_process.rs:582-610 | However a stream is chunked, it is captured whole, or refused exactly when it is over the limit |
| ProcessSupervisor.UnfinishedReads | src/bounded_process.rs:592-609 | A pipe still open is pending and a broken one has failed, unless it was over its limit before |
| ProcessSupervisor.CompleteMeansClosed | src/bounded_process.rs:593-600 | A completed read saw end of file after exactly the bytes it returns |
| ProcessSupervisor.BoundedReader.Poll | src/bounded_process.rs:582-610 | Reading piecemeal gives the answer of reading all that arrived at once |
| ProcessSupervisor.EventLoop.PollOnce | src/bounded_process.rs:462-508 | One biased select does the specified turn in the source's order of precedence |
| ProcessSupervisor.Supervisor.Select | src/bounded_process.rs:441-510 | The select loop terminates by the operation deadline and computes the specified terminal state |
| ProcessSupervisor.Supervisor.TerminateAndReap | src/bounded_process.rs:537-580 | Outcome, disarming and acts are exactly those its waits determine |
| ProcessSupervisor.Supervisor.Supervise | src/bounded_process.rs:427-535 | The result is a wait failure unless the child was reaped by the final deadline without the last resort; then it is the outputs, the named failure, or a wait failure for a cancellation; every run kills the group before any wait and releases the completion guard last |
| ProcessSupervisor.CleanupIsAuthoritative | src/bounded_process.rs:340-369 | For every reaping outcome the group is killed before waiting, and killed again at the end unless the child was reaped |
| ProcessSupervisor.CleanupSteps | src/bounded_process.rs:537-580 | The acts of cleanup for every outcome of the waits, one by one |
| ProcessSupervisor.SuccessIsEarned | src/bounded_process.rs:427-535 | Success implies a successful exit, both pipes closed within their limits and captured whole, before any cancellation or deadline, and reaping in time |
| ProcessSupervisor.SuccessIsReached | src/bounded_process.rs:441-510 | Once both pipes closed in bounds and the child succeeded, three undisturbed turns are enough |
| ProcessSupervisor.FailureHasCause | src/bounded_process.rs:455-510 | Every failure has its own cause at a turn that no cancellation or deadline preceded |
| ProcessSupervisor.FailuresAreReported | src/bounded_process.rs:441-510 | The converse, from the start of the loop: the first thing to go wrong is what is reported, for a cancellation, the deadline, each pipe over its limit or broken, and each bad exit |
| ProcessSupervisor.StdoutFailureIsReported | src/bounded_process.rs:472-482 | A failing standard output is reported at once, whatever else happened by then |
| ProcessSupervisor.StderrFailureIsReported | src/bounded_process.rs:484-494 | A failing standard error is reported within one more turn, whatever happened to the child |
| ProcessSupervisor.ExitFailureIsReported | src/bounded_process.rs:496-508 | A failed or unwaitable child is reported within two more turns, one for each pipe that closes |
| ProcessSupervisor.InterruptionIsReported | src/bounded_process.rs:462-471 | While something is missing, a cancellation ends the loop, and so does the deadline from its very instant on |
| SnapshotCopy.HashExactFile | src/rish_backend.rs:598-615 | Digests exactly the asked number of bytes, in order, succeeds exactly when no read failed or came back empty, and tells those two apart |
| SnapshotCopy.WriteAll | src/rish_backend.rs:740-757 | However short the writes, a filled buffer is written whole, or a write failed or moved nothing |
| SnapshotCopy.CopyAndHashExactFile | src/rish_backend.rs:722-763 | The destination starts with exactly the bytes hashed and keeps what it held beyond them; a stable source is copied verbatim; success exactly when no access failed, and each failure is named |
| SnapshotCopy.FinalizeWritableSnapshot | src/rish_backend.rs:700-720 | Success means the snapshot is exactly the asked length with the expected digest; for a stable source and faultless access the whole outcome, errors included, is decided by digest, file type and length |
| SnapshotCopy.AdjacentWrites | src/rish_backend.rs:740-757 | Two adjacent writes are one write of both |
| VolumeControl.StreamCodesAreInverse | src/android_volume_control.rs:57-78 | The code tables are inverse, name by name, on exactly the codes 1 to 6 |
| VolumeControl.EveryRunKeepsTheChain | src/android_volume_control.rs:209-361 | In every interleaving at most one mutation is open, every level a result vouches for is the device's, and each request captured what the results before it left |
| VolumeControl.LastResultIsTrue | src/android_volume_control.rs:308-361 | With no mutation open, a last result that is success or a confirmed rollback names a stream of the device, and its requested or captured level is the stream's |
| VolumeControl.PreparationIsDecided | src/android_volume_control.rs:209-226 | A request is refused at once while the lane is held, then without a truthful reading or outside the range just read, and is otherwise prepared with that reading |
| VolumeControl.VolumeClient.Execute | src/android_volume_control.rs:308-340 | The sequential code does exactly the lane's steps; the result, a confirmed or unconfirmed rollback included, is decided by the providers' answers; success and confirmed rollback leave the promised level; other streams are untouched |
| VolumeControl.VolumeClient.Recover | src/android_volume_control.rs:342-360 | The recovery does exactly the lane's last two steps and reports a confirmed rollback if and only if the level was set back and read back |
| TransportSecurity.LawfulTextExists | src/transport_security.rs:185-226 | The assumptions on textual IP addresses can be met |
| TransportSecurity.NameBytewise | src/transport_security.rs:244-258 | A DNS name, byte by byte: at most 253 bytes, no dash or dot at an end or next to a dot, no more than 63 in a row without one |
| TransportSecurity.NormalFormIsDenotation | src/transport_security.rs:185-226 | The normal form of a text is the printout of the one authority it denotes; texts denoting none have none |
| TransportSecurity.SameNormalFormIffSameAuthority | src/transport_security.rs:185-226 | Two accepted texts share a normal form if and only if they denote one authority |
| TransportSecurity.NormalizationIsIdempotent | src/transport_security.rs:185-226 | Normalising a normal form changes nothing |
| TransportSecurity.NormalizationIgnoresCase | src/transport_security.rs:185-226 | ASCII case never matters, for accepted and refused texts |
| TransportSecurity.OneTrailingDotIsIgnored | src/transport_security.rs:214-217 | One dot after an unbracketed host that has none at its end changes nothing, for accepted and refused texts |
| TransportSecurity.BracketedDotIsRefused | src/transport_security.rs:197-205 | A dot after a bracketed host is always refused |
| TransportSecurity.TrailingDotIgnoredIff | src/transport_security.rs:185-226 | A dot after the host is ignored if and only if the host is unbracketed without a dot at its end, or the text without the dot is refused too |
| TransportSecurity.BracketedDotExample | src/transport_security.rs:197-205 | A concrete bracketed address that is accepted and whose dotted form is refused |
| TransportSecurity.LeadingZerosAreIgnored | src/transport_security.rs:228-242 | Leading zeros of a port change nothing |
| TransportSecurity.OriginUsesHostNormalization | src/transport_security.rs:168-183 | An origin is its scheme in any case and a host normalised by the same function |
| TransportSecurity.OriginNormalizationIsIdempotent | src/transport_security.rs:168-183 | Normalising a normal origin changes nothing |
| TransportSecurity.RequestPassesIff | src/transport_security.rs:71-153 | A request passes if and only if its host denotes a configured authority and its origin has a configured normal form, or is absent where that is allowed |
| TransportSecurity.RequestErrors | src/transport_security.rs:121-153 | A refused request is refused for the first thing wrong with it, host before origin, with what was received |
| TransportSecurity.PolicyIff | src/transport_security.rs:71-96 | A policy is made if and only if every configured text has a normal form; a bad host is reported before a bad origin |
| TransportSecurity.SchemesAreHttp | src/transport_security.rs:174-180 | The two schemes, letter by letter |

## Left out

- HMAC-SHA-256, SHA-256, UUID generation and UUID text: uninterpreted functions; a random id is an arbitrary argument, a random source an arbitrary list.
- Mutex poisoning: a locked call is one atomic step, so the errors for a poisoned lock never arise.
- SessionStore.McpSessionStore.CreateAt: the redraw loop runs over a finite list of draws; a list that ends before an unused id answers `StillDrawing`, where the source would keep drawing.
- SessionStore.McpSessionStore.RecordSseResponseAt: the same finite list of draws for stream ids.
- GrantAuthority.TokenAcceptedAtMostOnce: up to an HMAC coincidence between two different authorities, because nothing is assumed about HMAC.
- ProcessSupervisor.BoundedReader.Poll: allocation failure of the growing buffer is not modelled, and the 4 KiB chunk size is left to the schedule.
- ProcessSupervisor.Supervisor.Supervise: process creation, the spawn errors and the join error of `run_inner` are not modelled; the schedule must reach the operation deadline, as a running clock does.
- SnapshotCopy.FinalizeWritableSnapshot: the destination is private to the copy, as a memory file is; sealing and reopening it are not modelled.
- VolumeControl.VolumeClient.Execute: `prepare_mutation` is a step of the lane and not a method; status parsing and the result's descriptive fields are left out.
- SseWire.PrintedEventsAreRecovered: the reader has no event type buffer, because nothing the store prints has an `event` field; such a line is skipped like an unknown field.
- TransportSecurity.RequestPassesIff: textual IP addresses are assumed to round-trip; the fixed localhost policy is not modelled.
- Filesystem identity collection and the validation of link counts and nanoseconds on construction, path normalisation, the publication lock and the tool router: `src/mcp_transport.rs` and `src/tools/filesystem.rs` are not part of this model.
- Operating-system calls, configuration loading, HTTP middleware, JSON parsing, status modules, reason-code tables and debug redaction.
