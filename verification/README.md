# Verified model of rpackit-tauri

rpackit-tauri runs a bundled R/Shiny application behind an authenticated
loopback proxy on Windows. Its correctness rests on a dozen small stateful
machines written in the repository itself. This project models those machines
in Dafny and proves what they promise over every input, every run and every
interleaving. `dafny verify dfyconfig.toml` checks everything.

| file | what it models |
|---|---|
| `CommandLine.dfy` | argument quoting for `CreateProcessW`, and the Microsoft C runtime rules ("Parsing C command-line arguments") that undo it |
| `NameOrder.dfy`, `Environment.dfy` | the case-insensitive environment table and its serialized block |
| `ByteStream.dfy`, `ResponseHead.dfy`, `ResponseGuard.dfy`, `HeadGrammar.dfy`, `RequestReplay.dfy` | the guards that read a bounded head off an adversarially scheduled socket |
| `RateFloor.dfy`, `BodyGuard.dfy`, `ResponsePolicy.dfy` | size, declared-length, idle, total and throughput limits on message bodies |
| `RateLimiter.dfy` | the token bucket of upgraded tunnels |
| `LauncherEvents.dfy`, `EventDecoder.dfy`, `LifecycleTracker.dfy`, `StdoutMonitor.dfy` | launcher protocol 2, from bytes to validated sessions |
| `RuntimeOwner.dfy`, `OwnedRuntime.dfy`, `GracefulShutdown.dfy` | ownership and cleanup of one runtime under every native outcome |
| `HttpText.dfy`, `Headers.dfy`, `Admission.dfy`, `Cookies.dfy`, `Pipeline.dfy`, `Bootstrap.dfy` | what a browser request must pass and what of it reaches the upstream |
| `ContentCodings.dfy` | content-coding lists and decoder layers |
| `TrackedTasks.dfy` | task ownership against concurrent shutdown |
| `TreeHash.dfy` | the byte stream behind the runtime-tree digest |

Each stateful component is a class whose methods keep the loops and the field
updates of the original; a method's contract equates the new fields and the
result with a function of the old ones. The theorems are about those functions
and about runs of them. What the original calls and does not own is a parameter
or a script chosen by an adversary: socket schedules, clocks, timers, native
call outcomes, the HTTP and JSON parsers, secret comparison and codecs. Where a
limit is a fixed-width integer, its saturation or overflow check is written out.

Two promises do not hold as they stand, and the model says exactly when they do.

* A program path survives the command line exactly when it holds no quote and,
  if it needs quoting, does not end in a backslash: the C runtime reads the
  program name without escapes (`CommandLineRoundTrip`, `UnsafeProgramExample`).
* A graceful shutdown report always means a completed session, but the stdout
  pipe was clean exactly when no stdout failure was received by an earlier call:
  `poll_health` uses up the messages it reports
  (`GracefulMeansCompletedSession`, `ReportedFailureIsForgotten`).

## Model

| member | source | states |
|---|---|---|
| `CommandLine.CommandLineRoundTrip` | crates/windows-launcher/src/lib.rs:1107-1158 | for all NUL-free programs and arguments, the C runtime splits the built line back into exactly the program and the arguments, if and only if the program is safe |
| `CommandLine.BuildCommandLine` | crates/windows-launcher/src/lib.rs:1107-1121 | succeeds exactly for NUL-free fields within 32,767 units including the NUL; which error wins otherwise; the line it returns |
| `CommandLine.QuoteArgument` | crates/windows-launcher/src/lib.rs:1123-1158 | the quoting loop with its backslash counter emits the escaped form, or reports an interior NUL |
| `CommandLine.EscapedReadsBack` | crates/windows-launcher/src/lib.rs:1138-1157 | escaped text between quotes is read back unit for unit whatever backslash runs and quotes it holds |
| `CommandLine.TailReadsBack` | crates/windows-launcher/src/lib.rs:1109-1115 | the quoted arguments, separated by spaces, are read back as the same list, empty strings included |
| `CommandLine.QuotedProgramReadsAs` | crates/windows-launcher/src/lib.rs:1108 | what argv[0] becomes for every quote-free path: trailing backslashes of a quoted path are doubled |
| `CommandLine.UnsafeProgramExample` | crates/windows-launcher/src/lib.rs:1155-1156 | a concrete path for which the round trip fails |
| `Environment.LaunchEnvironment.Set` | crates/windows-launcher/src/lib.rs:127-142 | keeps the table strictly sorted and makes it the old map with the folded name bound to the new entry; a malformed name or value changes nothing |
| `Environment.LaunchEnvironment.Remove` | crates/windows-launcher/src/lib.rs:149-156 | deletes exactly the folded name and says whether it was there |
| `Environment.LaunchEnvironment.SortEntries` | crates/windows-launcher/src/lib.rs:179-193 | the in-place insertion sort leaves no inversion and permutes the entries |
| `Environment.LaunchEnvironment.Replay` | crates/windows-launcher/src/lib.rs:113-157 | after any sequence of calls the table is sorted and is the last-write-wins map on folded names |
| `Environment.ViewDeterminesEntries` | crates/windows-launcher/src/lib.rs:74-79 | the sorted table, hence its block, depends only on that map |
| `Environment.LaunchEnvironment.EncodedBlock` | crates/windows-launcher/src/lib.rs:195-216 | returns the block exactly when its precomputed size fits the address space |
| `Environment.BlockRoundTrip` | crates/windows-launcher/src/lib.rs:195-216 | the block reads back to exactly its entries, its only double NUL is at its end, and its length is the precomputed capacity, at least two |
| `ResponseGuard.ResponseGuardIo.PollRead` | crates/transport/src/response_guard_io.rs:54-110 | one poll, loop included, is the step function the theorems are about |
| `ResponseGuard.GuardReleasesOnlyAcceptedStreams` | crates/transport/src/response_guard_io.rs:53-111 | in every run over every fragmentation the reader gets a prefix of the stream, nothing of a refused one, and the withheld prefix stays within the limit |
| `ResponseGuard.GuardIsFragmentationIndependent` | crates/transport/src/response_guard_io.rs:53-111 | end of stream only after the whole stream; a refusal is the one the stream alone determines and is latched; a poll waits only when the socket does |
| `ResponseGuard.GuardLatchesExactly` | crates/transport/src/response_guard_io.rs:53-111 | a read finds the guard closed exactly when an earlier read failed before anything was released; an accepted stream on a working socket never meets a failure |
| `ResponseGuard.GuardDelivers` | crates/transport/src/response_guard_io.rs:53-111 | however a working socket stalls and splits, enough reads deliver an accepted stream whole and without failure, and report the one refusal of any other stream |
| `ResponseGuard.ReleasedHeadsAreUnambiguous` | crates/transport/src/response_guard_io.rs:138-202 | whoever receives a byte reads a stream whose head fits, uses only CRLF, and has an allowed status and a single framing |
| `HeadGrammar.AcceptedStreamsAreExact` | crates/transport/src/response_guard_io.rs:53-202 | a stream is accepted if and only if it begins with CRLF lines and one empty line within the limit, which the parser reads whole, with an allowed status and one framing |
| `HeadGrammar.BareEndingsAreExact` | crates/transport/src/response_guard_io.rs:197-202 | a head has no bare line ending if and only if it is a list of CR-free and LF-free lines joined by CRLF |
| `HeadGrammar.OneFramingIsExact` | crates/transport/src/response_guard_io.rs:166-193 | at most one framing field among all lines, with a readable value |
| `HeadGrammar.LengthsAreByPlace` | crates/transport/src/response_guard_io.rs:174-184 | a length is a string of digits whose number has 64 bits |
| `ResponseHead.HeaderEndIsStable` | crates/transport/src/response_guard_io.rs:131-136 | later bytes never move the end of a complete head nor complete one inside bytes already seen |
| `RequestReplay.ReadRequestPrefix` | crates/transport/src/proxy.rs:613-637 | the reading loop computes the collected prefix or its error |
| `RequestReplay.CollectExplains` | crates/transport/src/proxy.rs:613-637 | which client streams are collected, too long or truncated depends on the stream, not on its fragmentation |
| `RequestReplay.ReplayIo.PollRead` | crates/transport/src/replay_io.rs:24-36 | hands over stored bytes first, then reads through |
| `RequestReplay.AdmittedPrefixIsReplayed` | crates/transport/src/proxy.rs:570-588 | the head admission sees is the head the HTTP library then reads; nothing of the stream is lost, added or reordered, and enough reads of a working socket replay all of it |
| `RateFloor.FloorIsExact` | crates/transport/src/request_body.rs:173-181 | the threshold is the rounded-up product clamped once, for every rate and window, despite both saturations |
| `BodyGuard.Guard.PollFrame` | crates/transport/src/response_body.rs:119-187 | one poll of the streaming, forbidden, upload or decoded guard is the step function |
| `BodyGuard.ReleasedIsBoundedPrefix` | crates/transport/src/response_body.rs:119-187 | released frames are a whole-frame prefix of what the inner body produced, within cap and declared length; a clean end means an orderly, complete body of exactly the declared length |
| `BodyGuard.NothingFollowsAnError` | crates/transport/src/response_body.rs:241-272 | after an error or an end every poll reports the end |
| `BodyGuard.FloorAndDeadlinesHold` | crates/transport/src/request_body.rs:101-152 | bytes forwarded are at least the floor times the closed windows plus the open one; every frame precedes the idle and total deadlines |
| `BodyGuard.ClosedWindowsElapsed` | crates/transport/src/request_body.rs:86-91 | closing k windows takes at least k window lengths |
| `BodyGuard.TimeoutsAreExact` | crates/transport/src/request_body.rs:101-121 | at every poll of every run a total, idle or rate failure strikes exactly when it is due by the polling times and the bytes that arrived |
| `BodyGuard.OutcomesAreExact` | crates/transport/src/response_body.rs:119-187 | the outcome of every poll of every run: the end after an end, then a due time limit, then what the inner body's step and the bytes released so far decide |
| `BodyGuard.UploadLimitsAreExact` | crates/transport/src/request_body.rs:34-121 | which time limit of an upload is due, in configured terms |
| `BodyGuard.ResponseLimitsAreExact` | crates/transport/src/response_body.rs:126-140 | which time limit of a response is due, in configured terms |
| `BodyGuard.UploadsKeepTheirRate` | crates/transport/src/request_body.rs:34-57 | in the terms an upload is configured with: size, total duration and sustained rate |
| `BodyGuard.BodiesPassExactly` | crates/transport/src/request_body.rs:95-152 | a body ends cleanly if and only if its inner body ends in order, fits the cap and its declared length, is polled to its end, and no time limit is due at any of those polls, over any number of renewed idle deadlines and closed windows |
| `ResponsePolicy.BodylessResponsesReleaseNothing` | crates/transport/src/proxy.rs:921-984 | HEAD, 204, 205 and 304 responses release no byte, and only they are bodyless |
| `ResponsePolicy.StreamedSizesAreBounded` | crates/transport/src/proxy.rs:857-911 | a streamed response releases a prefix of the upstream body within the encoded limit, an identity body within both; a clean end means all of it and exactly the declared length |
| `ResponsePolicy.DecodedResponsesAreFaithful` | crates/transport/src/response_decode.rs:69-108 | a clean end after decoding means the encoded body ended in order at its declared length and the client holds exactly its decoding, within the decoded limit; once decoded, it ends cleanly exactly when the decoding fits |
| `ResponsePolicy.ClientsReceiveTheRepresentation` | crates/transport/src/proxy.rs:886-900 | the client always holds a prefix of the representation the upstream encoded, and all of it after a clean end |
| `ResponsePolicy.AcceptedFramingIsExact` | crates/transport/src/proxy.rs:921-984 | exactly which response framings pass, with the rules for 204 and 205 and the size limit where a body is allowed |
| `ResponsePolicy.HeadRefusalsAreExact` | crates/transport/src/proxy.rs:921-984 | why a response head is refused |
| `ResponsePolicy.DeclaredLengthIsKept` | crates/transport/src/proxy.rs:939-984 | the policy and length an accepted head gives |
| `RateLimiter.ByteRateLimiter.PollAllowance` | crates/transport/src/websocket_io.rs:130-157 | however often it retries, the balance is that of one refill at the last clock reading; it grants exactly when a byte is due, else arms the timer for that instant |
| `RateLimiter.ByteRateLimiter.constructor` | crates/transport/src/websocket_io.rs:113-128 | a fresh bucket is full and holds rate times burst, within 128 bits and at least one byte |
| `RateLimiter.RefillManyIsRefillOnce` | crates/transport/src/websocket_io.rs:159-164 | any number of intermediate refills gives the balance of the last one alone, saturation and cap included |
| `RateLimiter.WaitIsExact` | crates/transport/src/websocket_io.rs:145-147 | the wake-up delay is the least number of nanoseconds after which a byte is available |
| `RateLimiter.WaitingEndsStarvation` | crates/transport/src/websocket_io.rs:130-157 | a drained bucket reads again exactly when that delay is over |
| `RateLimiter.ReadNeverOverdraws` | crates/transport/src/websocket_io.rs:166-172 | the saturating subtraction never clips |
| `RateLimiter.PollReadTunnel` | crates/transport/src/websocket_io.rs:50-76 | one tunnel read, retries included, is one poll at the last clock reading; it is limited by allowance, room and offer and charges what it read |
| `RateLimiter.PumpTunnel` | crates/transport/src/websocket_io.rs:50-76 | every sequence of tunnel reads under a non-decreasing clock keeps the bytes read within the balance plus rate times elapsed time |
| `RateLimiter.RateBound` | crates/transport/src/websocket_io.rs:54-76 | over every interval of every run, bytes read in token units are at most the capacity plus rate times elapsed time |
| `RateLimiter.ConfiguredRateBound` | crates/transport/src/websocket_io.rs:112-173 | over every interval of every run of a fresh limiter, bytes read are at most the configured burst plus the configured rate times elapsed time |
| `RateLimiter.FirstReadIsExact` | crates/transport/src/websocket_io.rs:113-157 | the first read gets exactly the burst, the room or the offer, whichever is least |
| `RateLimiter.PumpFreshTunnel` | crates/transport/src/websocket_io.rs:50-76 | the same bound for every run of the object from its creation |
| `LauncherEvents.AcceptedShapeIsCanonical` | crates/launcher-protocol/src/lib.rs:381-481 | an accepted object has exactly the fields of the event it yields, whose values are valid |
| `LauncherEvents.CanonicalShapeIsAccepted` | crates/launcher-protocol/src/lib.rs:381-481 | every valid event has such an object and decodes to itself |
| `LauncherEvents.ShapesAreExact` | crates/launcher-protocol/src/lib.rs:381-481 | an object means an event if and only if it is that event's canonical object, with a message that is cleaned to the event's |
| `LauncherEvents.RefusalsAreExact` | crates/launcher-protocol/src/lib.rs:398-400 | which refusal any other object meets |
| `LauncherEvents.ControlsBecomeSpaces` | crates/launcher-protocol/src/lib.rs:544-563 | cleaning turns each control into a space and changes nothing else |
| `LauncherEvents.MessagesAreCleaned` | crates/launcher-protocol/src/lib.rs:544-563 | blanks around a message go |
| `LauncherEvents.MessagesAreKeptExactly` | crates/launcher-protocol/src/lib.rs:544-563 | a message is kept if and only if it has at most 4096 bytes and something to read |
| `EventDecoder.StreamDecoder.PushBytes` | crates/launcher-protocol/src/lib.rs:158-187 | the byte loop with its buffer, poison flag and counter is the step function |
| `EventDecoder.StreamDecoder.FinishStream` | crates/launcher-protocol/src/lib.rs:194-204 | succeeds only on an unpoisoned, empty buffer |
| `EventDecoder.ChunkingIsInvisible` | crates/launcher-protocol/src/lib.rs:158-187 | any chunking yields the events, count and buffer of one push; or exactly one chunk reports the one-shot error, earlier ones succeed and later ones find poison; the buffer stays bounded |
| `EventDecoder.FeedReadsLines` | crates/launcher-protocol/src/lib.rs:158-187 | the decoder refines reading whole lines: meanings in order, first error in stream order, noise counted, tail kept |
| `EventDecoder.FinishMeansWholeLines` | crates/launcher-protocol/src/lib.rs:194-204 | a stream finishes exactly when it is empty or ends with a newline |
| `EventDecoder.FinishIsExact` | crates/launcher-protocol/src/lib.rs:194-204 | how closing a stream ends, and that a failed decoder stays failed |
| `EventDecoder.EmittedEventsAreDecoded` | crates/launcher-protocol/src/lib.rs:368-379 | the lines a launcher writes for any expressible events decode back to exactly those events, with or without carriage returns, and the stream finishes |
| `EventDecoder.MixedOutputIsDecoded` | crates/launcher-protocol/src/lib.rs:158-204 | events among any other output lines: exactly the events in order, and exactly the other lines counted |
| `EventDecoder.BadEventFailsTheDecoder` | crates/launcher-protocol/src/lib.rs:368-379 | a prefixed line without a valid event fails the decoder with exactly its own reason |
| `LifecycleTracker.LifecycleTracker.ObserveEvent` | crates/launcher-protocol/src/lib.rs:277-286 | one observation, failure latch included, is the step function |
| `LifecycleTracker.LifecycleTracker.ObserveActiveEvent` | crates/launcher-protocol/src/lib.rs:288-337 | the transition table with its error for each refusal |
| `LifecycleTracker.TrackerLanguage` | crates/launcher-protocol/src/lib.rs:277-337 | the accepted sequences are exactly the session prefixes, completed sessions and sessions cut by one compatible error |
| `LifecycleTracker.HaltedMeansCompleted` | crates/launcher-protocol/src/lib.rs:277-337 | the stopped state is reached exactly by completed sessions |
| `LifecycleTracker.RejectionIsFinal` | crates/launcher-protocol/src/lib.rs:277-286 | nothing is accepted after a rejection |
| `LifecycleTracker.RefusalsAreExact` | crates/launcher-protocol/src/lib.rs:277-337 | why an event is refused |
| `StdoutMonitor.MonitorStdout` | crates/windows-lifecycle/src/lib.rs:1200-1254 | the thread sends exactly the specified message sequence |
| `StdoutMonitor.ReportedStatesAreTrue` | crates/windows-lifecycle/src/lib.rs:1224-1244 | after every message the events so far are accepted and the state sent is the tracker's; Halted means a completed session |
| `StdoutMonitor.CleanEndMeansCleanStream` | crates/windows-lifecycle/src/lib.rs:1246-1254 | a final StdoutEnded means the whole pipe was complete, bounded, valid lines, with its noise counted |
| `StdoutMonitor.CleanEndIsExact` | crates/windows-lifecycle/src/lib.rs:1200-1254 | the thread signs off with StdoutEnded if and only if every read succeeded, the lines are whole, bounded and valid, and their events are accepted |
| `OwnedRuntime.RuntimeHandle.StopGracefully` | crates/windows-lifecycle/src/lib.rs:451-477 | shutdown, wait loop and fallbacks included, is the step function, keeps the ownership invariant, and reports only after full cleanup |
| `OwnedRuntime.RuntimeHandle.StopByForce` | crates/windows-lifecycle/src/lib.rs:485-491 | forced shutdown is the step function, keeps the invariant and reports only after full cleanup |
| `OwnedRuntime.RuntimeHandle.RetryCleanup` | crates/windows-lifecycle/src/lib.rs:503-530 | a retry refuses live resources and otherwise removes only the session |
| `OwnedRuntime.RuntimeHandle.Finish` | crates/windows-lifecycle/src/lib.rs:696-777 | waits, first error, early return and release in the original's order |
| `OwnedRuntime.RuntimeHandle.Abort` | crates/windows-lifecycle/src/lib.rs:779-823 | abort releases only a Job observed empty |
| `OwnedRuntime.RuntimeHandle.ReceiveMessages` | crates/windows-lifecycle/src/lib.rs:850-913 | strict and lenient draining of monitor messages |
| `OwnedRuntime.RuntimeHandle.WaitUntilReady` | crates/windows-lifecycle/src/lib.rs:532-582 | the readiness loop, message by message |
| `OwnedRuntime.RuntimeHandle.CheckHealth` | crates/windows-lifecycle/src/lib.rs:421-439 | keeps the invariant; healthy means ready, owned, captured and listening |
| `OwnedRuntime.RuntimeHandle.Replay` | crates/windows-lifecycle/src/lib.rs:421-530 | after any sequence of calls on one object, whatever the native outcomes: no unsafe removal, a cleaned object holds nothing, and at most one call ever reports, of an empty Job, both exit codes and a removed session |
| `RuntimeOwner.CleanupIsSafe` | crates/windows-lifecycle/src/lib.rs:671-848 | after every sequence of calls and native outcomes: files go only after the Job was seen empty and closed; Cleaned holds nothing; a report means an empty Job, both exit codes and a removed session |
| `RuntimeOwner.CleanedIsPermanent` | crates/windows-lifecycle/src/lib.rs:451-507 | no call changes a cleaned owner |
| `RuntimeOwner.CleanupSucceeds` | crates/windows-lifecycle/src/lib.rs:485-530 | when native calls succeed, force cleans and reports, and a retry completes a removal that failed |
| `RuntimeOwner.ReportsAreAccurate` | crates/windows-lifecycle/src/lib.rs:696-777 | a report names the exit codes observed for wrapper and runtime, and the ignored lines the stdout thread signed off with |
| `RuntimeOwner.GracefulStopSucceeds` | crates/windows-lifecycle/src/lib.rs:451-477 | a session that ends halted and harmless, with native calls that succeed, is reported graceful and leaves a cleaned owner |
| `RuntimeOwner.UnsignalledStopIsForced` | crates/windows-lifecycle/src/lib.rs:451-477 | a stop that cannot be signalled is forced and says so |
| `RuntimeOwner.ObservationIsExact` | crates/windows-lifecycle/src/lib.rs:661-669 | when a stop is seen to be graceful |
| `RuntimeOwner.AbandoningCleansUp` | crates/windows-lifecycle/src/lib.rs:779-823 | dropping an owner, or a start that fails, leaves nothing behind when native calls succeed |
| `RuntimeOwner.HealthIsExact` | crates/windows-lifecycle/src/lib.rs:421-439 | a health poll is content if and only if the owner is ready, both processes run, what arrived is harmless and the last state is listening |
| `RuntimeOwner.HealthFailuresAreExact` | crates/windows-lifecycle/src/lib.rs:421-439 | which failure a discontented health poll names |
| `RuntimeOwner.DrainIsExact` | crates/windows-lifecycle/src/lib.rs:850-913 | a strict drain succeeds exactly on harmless messages from connected threads |
| `RuntimeOwner.DrainFailuresAreExact` | crates/windows-lifecycle/src/lib.rs:850-913 | the failure of a strict drain is that of the first message that is not harmless, or the loss of the threads |
| `RuntimeOwner.AbortFailuresAreExact` | crates/windows-lifecycle/src/lib.rs:779-823 | which failure an abort reports |
| `RuntimeOwner.FinishFailuresAreExact` | crates/windows-lifecycle/src/lib.rs:696-777 | which failure a cleanup reports |
| `RuntimeOwner.ForceFailuresAreExact` | crates/windows-lifecycle/src/lib.rs:671-694 | a forced stop keeps its own failure in front of the cleanup's |
| `RuntimeOwner.AbandonedStartIsSafe` | crates/windows-lifecycle/src/lib.rs:1292-1340 | a start without an owner removes files exactly when the Job was seen empty and deletion worked |
| `RuntimeOwner.AbandonFailuresAreExact` | crates/windows-lifecycle/src/lib.rs:1292-1340 | its cause first, then the first failure of the cleanup |
| `RuntimeOwner.ReadyMeansListening` | crates/windows-lifecycle/src/lib.rs:532-582 | a start that ends Ready received the listening event, and in one turn saw the token gone, captured the runtime and found its listener ready |
| `RuntimeOwner.ReadinessFailuresAreExact` | crates/windows-lifecycle/src/lib.rs:532-582 | what ends the readiness wait before the listening event |
| `RuntimeOwner.SettlingIsExact` | crates/windows-lifecycle/src/lib.rs:558-566 | what is checked after it, in order |
| `GracefulShutdown.GracefulMeansCompletedSession` | crates/windows-lifecycle/src/lib.rs:661-669 | a graceful report means that the events reported over the whole pipe form a completed session and that everything sent was received; and the pipe was clean if and only if no stdout failure was received by an earlier call |
| `GracefulShutdown.NoFailureIsCleanPipe` | crates/windows-lifecycle/src/lib.rs:1200-1254 | the stdout thread sends no failure if and only if the pipe was clean |
| `GracefulShutdown.ReportedFailureIsForgotten` | crates/windows-lifecycle/src/lib.rs:421-439 | a pipe and a run of calls from the owner's creation: the launcher says `stopped` twice, two health polls use up the messages, and shutdown reports itself graceful although the pipe was not clean |
| `Headers.CollectFields` | crates/transport/src/admission.rs:88-97 | the loop builds, per name, the trimmed values in order |
| `Headers.CollectingLosesNothing` | crates/transport/src/admission.rs:88-97 | per name, every line's value in order of arrival |
| `Headers.OwsIsTrimmed` | crates/transport/src/admission.rs:88-97 | optional whitespace around a value goes, and nothing else |
| `Admission.ParseConnectionTokens` | crates/transport/src/admission.rs:228-248 | the token loop |
| `Admission.ReadTokensIsExact` | crates/transport/src/admission.rs:235-247 | a list is read exactly when its trimmed parts are tokens that differ in lower case, and then gives those |
| `Admission.AdmittedTokensAreTheOptions` | crates/transport/src/admission.rs:103-118 | admitted tokens are the nominated options in lower case, distinct, none protected |
| `Admission.AdmissionIsExact` | crates/transport/src/admission.rs:101-118 | exactly which parsed heads are admitted: unambiguous security and framing fields, options that are tokens, distinct and unprotected, and an upgrade nominated if and only if present and then to a WebSocket |
| `Admission.ProtectedNamesAre` | crates/transport/src/admission.rs:271-285 | the names a Connection field may not nominate, in words |
| `Admission.NumbersAreByPlace` | crates/transport/src/admission.rs:210-218 | a declared length means the number of its digits, place by place |
| `Admission.RefusalsAreExact` | crates/transport/src/admission.rs:101-118 | which refusal a head meets, in order |
| `Admission.FramingFaultsAreExact` | crates/transport/src/admission.rs:197-226 | which framing is refused, and why |
| `Cookies.AuthenticateAndStrip` | crates/transport/src/cookie.rs:24-78 | the scanning loop computes the field to forward or the error |
| `Cookies.StrippingIsExact` | crates/transport/src/cookie.rs:24-78 | acceptance if and only if one well-formed field holds exactly one valid session cookie and distinct others; the forwarded field re-reads as the application cookies in order, none reserved |
| `Cookies.SentCookiesAreStripped` | crates/transport/src/cookie.rs:24-78 | of the cookies a browser sends, a request passes if and only if exactly one is the session's and holds the secret and the others are distinct; and exactly the others go on as written |
| `Cookies.StripRefusalsAreExact` | crates/transport/src/cookie.rs:24-78 | when a request is ambiguous and when unauthenticated |
| `Cookies.WellFormedIsExact` | crates/transport/src/cookie.rs:36-46 | a segment is a token, an equals sign and a value without controls |
| `Cookies.NormalizeSetCookie` | crates/transport/src/cookie.rs:96-152 | the attribute loop computes the normalized field or the error |
| `Cookies.NormalizationAcceptsExactly` | crates/transport/src/cookie.rs:96-152 | exactly which Set-Cookie fields pass |
| `Cookies.NormalizationIsIdempotent` | crates/transport/src/cookie.rs:96-152 | an accepted field keeps everything but at most one accepted Domain, and normalizing again changes nothing |
| `Cookies.EverySpellingIsReserved` | crates/transport/src/cookie.rs:154-161 | every mix of letter case and percent-encoding of the session cookie name is reserved |
| `Cookies.ReservedNamesAreExact` | crates/transport/src/cookie.rs:154-161 | reserved names are exactly those spellings |
| `Cookies.DomainsAreExact` | crates/transport/src/cookie.rs:135-146 | a Domain names the upstream host exactly after leading dots, in any letter case and padding |
| `Pipeline.StripRequestHeaders` | crates/transport/src/proxy.rs:1403-1434 | the three removal loops leave exactly the fields that are not hop-by-hop, nominated or forwarding |
| `Pipeline.ForwardedRequestsAreClean` | crates/transport/src/proxy.rs:651-686 | every admitted request that reaches the upstream passed Origin and session checks, carries one secret and one Host, no bootstrap, forwarding or reserved-cookie trace, its application cookies, and on the HTTP path no hop-by-hop or nominated field (section 7.6.1 of RFC 9110) and every other field unchanged |
| `Pipeline.AuthorizedRequestsAreForwarded` | crates/transport/src/proxy.rs:651-686 | each answer if and only if, in terms of verb, path and fields: claimed, rejected, forbidden, unauthorized, refused handshake, forwarded over HTTP or WebSocket |
| `Pipeline.ChecksAreAsStated` | crates/transport/src/proxy.rs:688-771 | the Origin, bootstrap-route and bootstrap-header checks in words |
| `Pipeline.UpgradesAreExact` | crates/transport/src/proxy.rs:1091-1134 | which requests have the shape of a version-13 handshake |
| `Pipeline.CleanIsAsStated` | crates/transport/src/proxy.rs:811-844 | what a clean request holds, by field name |
| `Pipeline.HttpIsClean` | crates/transport/src/proxy.rs:811-832 | the HTTP rewriting, and that nominated tokens cannot remove Cookie or Origin |
| `Pipeline.WebSocketIsClean` | crates/transport/src/proxy.rs:1136-1169 | the rebuilt request is clean and is a complete version-13 handshake with the browser's key and no extension |
| `Pipeline.ProtocolOfferSurvives` | crates/transport/src/proxy.rs:1285-1305 | the upstream is offered exactly the browser's subprotocols |
| `Bootstrap.BootstrapIsOneShot` | crates/transport/src/proxy.rs:703-715 | in every interleaving at most one response over the run carries the session cookie, for a bootstrap request with one valid header; what is sent upstream is authorized and clean |
| `Bootstrap.FlagMovesOnlyForValidBootstrap` | crates/transport/src/proxy.rs:703-715 | only a valid bootstrap request moves the flag, and only from false to true |
| `Bootstrap.FirstExchangeWins` | crates/transport/src/proxy.rs:703-715 | whichever valid request reaches the exchange first is given the cookie, every later one is turned away |
| `Bootstrap.ExaminationIsExact` | crates/transport/src/proxy.rs:651-686 | in every run a request is claimed, sent or answered exactly by the stated rules |
| `ContentCodings.ParseContentCodings` | crates/transport/src/response_decode.rs:30-65 | the nested loops compute the layers or the first error |
| `ContentCodings.AcceptanceIsExact` | crates/transport/src/response_decode.rs:39-62 | a list is accepted exactly when all tokens are known and the layers fit; the result is those layers in order |
| `ContentCodings.TokensMeanRegisteredCodings` | crates/transport/src/response_decode.rs:40-57 | a token means a coding exactly when it is its registered name, or x-gzip for gzip, in any letter case and padding |
| `ContentCodings.OtherTokensAreExact` | crates/transport/src/response_decode.rs:40-57 | identity, unknown and malformed tokens |
| `ContentCodings.RefusalsAreExact` | crates/transport/src/response_decode.rs:39-62 | a refused list stops at its first bad token or its first layer too many, with that reason |
| `ContentCodings.FieldOrderIsOneList` | crates/transport/src/response_decode.rs:30-65 | several fields are accepted, with the same layers, exactly when the comma-joined field is |
| `ContentCodings.DecodeBody` | crates/transport/src/response_decode.rs:77-102 | the reverse loop stacks the decoders |
| `ContentCodings.AcceptedBodiesDecode` | crates/transport/src/response_decode.rs:69-108 | for codecs that invert each other, decoding recovers what the listed codings encoded, within the layer limit |
| `TrackedTasks.TaskSet.SpawnTask` | crates/transport/src/proxy.rs:442-453 | the locked spawn drops finished handles and accepts unless closed |
| `TrackedTasks.AcceptanceIsExact` | crates/transport/src/proxy.rs:442-453 | in every run a task is accepted and owned if and only if no earlier step closed the set; the handles kept are exactly the unfinished ones in order |
| `TrackedTasks.ClosedIsExact` | crates/transport/src/proxy.rs:442-467 | the set is closed exactly after an abort, a failed listener or a take |
| `TrackedTasks.TaskSet.AbortAll` | crates/transport/src/proxy.rs:455-461 | closes the set and tells every handle in it to abort |
| `TrackedTasks.TaskSet.TakeAll` | crates/transport/src/proxy.rs:463-467 | closes the set and hands over every handle |
| `TrackedTasks.ShutdownLeavesNothingLive` | crates/transport/src/proxy.rs:349-391 | in every interleaving of listeners, tasks that spawn tasks, completions and shutdown, when shutdown has returned no accepted task is live |
| `TrackedTasks.ShutdownIsNeverStuck` | crates/transport/src/proxy.rs:349-391 | from every world of every run shutdown can still return once what it told to stop stops |
| `TrackedTasks.LiveTasksAreOwned` | crates/transport/src/proxy.rs:428-468 | every live accepted task is in the handle list or the taken list |
| `TrackedTasks.ClosingAbortsEverything` | crates/transport/src/proxy.rs:349-378 | once the set is closed every task still live has been told to abort |
| `TrackedTasks.NothingAcceptedOnceClosed` | crates/transport/src/proxy.rs:442-467 | no task is accepted once the set is closed |
| `TreeHash.NormalizedRelativePath` | apps/windows-spike/src/fixed_runtime.rs:433-458 | components joined by slashes, within the length bounds |
| `TreeHash.JoinedIsInjective` | apps/windows-spike/src/fixed_runtime.rs:433-458 | different paths have different texts |
| `TreeHash.HashRuntimeTree` | apps/windows-spike/src/fixed_runtime.rs:460-490 | feeds exactly the specified stream, and fails exactly when a file no longer has its recorded length |
| `TreeHash.ContentsAreAllReads` | apps/windows-spike/src/fixed_runtime.rs:472-482 | a file is everything read up to the first empty read |
| `TreeHash.StreamIsInjective` | apps/windows-spike/src/fixed_runtime.rs:460-490 | equal streams mean equal paths, lengths and contents in the same order |
| `TreeHash.StreamReadsBack` | apps/windows-spike/src/fixed_runtime.rs:460-490 | the stream is the spelled-out domain and records from which a reader recovers every path and content |
| `TreeHash.EnumerationOrderIsInvisible` | apps/windows-spike/src/fixed_runtime.rs:344 | for distinct paths the sorted list and its stream do not depend on enumeration order |

## Left out

- HTTP and JSON grammars, URL parsing, percent-decoding errors in UTF-8, SHA-1, SHA-256, base64 and the compression formats are parameters; a constant-time secret comparison is a predicate.
- The stacked decompressors are any source that yields no more than what it has read allows and ends in order only at the end of a body that decodes to what it yielded (`ResponsePolicy.DecodedFrom`).
- Win32 and file-system calls appear only as the outcomes the code branches on; a failing native comparison of environment names is not modelled, the order is total.
- Tokio timers are exact deadlines compared with one clock reading per poll; a panic from adding durations past the clock's range is not modelled.
- The relative order of different header names is not modelled, because the original's header map does not keep it; values of one name keep their order.
- `Admission.Admit` starts from parsed header lines: line-ending, request-line, method and target checks are not modelled.
- Admission runs once per connection and the HTTP library may reuse connections; the model admits every request on its own head, which is the same as long as each response closes its connection, as the proxy's responses ask.
- Response header rewriting (`strip_response_headers`, `rewrite_location`, `strip_decoded_representation_headers`, `validate_decoded_response_transform`) is not modelled; it would add only easy members.
- The upstream's WebSocket answer, tunnel shutdown and idle detection are not modelled.
- Size hints and `is_end_stream` of the body guards are not modelled.
- The readiness probe, listener ownership and bundle validation are single outcomes of the startup wait.
- Window, WebView2, installer, test-harness and resource-bundle code is not modelled.
