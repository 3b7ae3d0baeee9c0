# DSHPilot: verified models of its crash-safe, concurrent and parsing core

DSHPilot installs and supervises a Harness runtime, keeps a durable log of control events, and serves remote clients
over HTTP, server-sent events and a relay. This project models the parts of it whose correctness depends on more than
one function and proves what they are for. `dafny verify dfyconfig.toml` checks everything.

Five groups of modules:

1. **Runtime pointers and installation.** `RuntimePointerStore` (the pair `current.json`/`previous.json`, journalled
   through a transaction file) and `RuntimeInstall` (download, verification, smoke tests, promotion and the command
   line's rollback). One file operation is one step, and an arbitrary schedule says how each of them ends: it may
   succeed, throw, or be the last thing before or after which the process dies. Replacing a file on Windows may be a
   removal followed by a rename.
2. **Event log and its delivery.** `EventStore` (window in memory, lagging chain of disk writes, compaction, load),
   `EventDelivery` with `EventPages` (the hand-over from page to live events in `sse`, the client loop with reconnects
   and catch-up), `EventGenerations` (the same across server processes with different logs), `StreamSync` (the
   projection `reduceSync`), `SseFraming` and `SseBytes` (the format, as text and as bytes), `StaleJobs` (the restart
   pass over the log).
3. **Concurrent requests.** `PromptAdmission`, `DeviceTokens` with `TokenRefresh` and `TokenCalls`, `RelayTunnel`,
   `RateWindows`: state machines whose steps interleave at each `await`.
4. **Codecs.** `ChunkSizeLine` with `ChunkedBody`, `JsonText` with `JsonReader`, `KeyOrder` and `CanonicalJson`,
   `ZipArchive` with `ZipRoundTrip`, `CsvRows`: each reader against a writer, and each loop against a specification
   function.
5. **Fixpoints.** `McpReconcile` with `McpRepeats` (loader entries against configured servers) and `WorkspacePeers` (the
   worklist of the runtime bundler).

`Prelude` holds what they share.

## Where the code does not do what one would expect

The lemmas named here give the input that fails and say exactly when the promise is kept.

- A client more than 1000 events behind when it connects can lose events although the server still has them
  (`EventDelivery.FarBehindLosesEvents`, for every distance above 1000); up to 1000 it loses none
  (`EventDelivery.DeliveryIsGapFree`).
- An event whose JSON contains `event: reset-required` is read as a reset (`SseFraming.ClassifyBody`). The client then
  starts over (`EventDelivery.MisreadStartsOver`) and is handed events twice unless none of those it was handed is kept
  any more when the page is served (`EventDelivery.MisreadKeepsOrderExactly`).
- A client that names its generation is never handed events of another log as a continuation
  (`EventGenerations.StretchesAreOfOneGeneration`), unless a gap is filled by a server process of another generation
  than the connection's. Then it skips the beginning of the new log, or mixes both, exactly as
  `EventGenerations.ForeignCatchUpExactly` says. A client that names none is not told
  (`EventGenerations.UnnamedGenerationContinues`).
- A snapshot reports one event less than it moves past (`StreamSync.SnapshotReportsOneLess`).
- A restart remembers an admitted prompt if and only if its record is among the oldest 500 events
  (`PromptAdmission.RestartRemembersExactlyTheOldest`).
- A restart judges jobs by the oldest 500 events: what it says of each job (`StaleJobs.StartSaysExactly`), when it leaves
  no job running (`StaleJobs.StartLeavesNoneStaleExactly`), when it leaves the other jobs alone
  (`StaleJobs.StartKeepsOthersExactly`; a job that finished later is overwritten, `StaleJobs.FinishedJobIsOverwritten`),
  and when the next restart does the same again (`StaleJobs.StartIsRepeatedExactly`).
- A compaction empties the log when the write chain lags by a whole window (`EventStore.SnapshotKeepsTheEnd`,
  `EventStore.LaggingCompactionEmptiesLog`). Numbers are given twice in a generation if and only if some process has
  handed out a later one of that generation than the last on disk (`EventStore.NumbersAreReusedExactly`); what a crash
  lost is still missing at the next restart, although that one loses nothing (`EventStore.LossIsInherited`).
- A lost reply to a granted refresh, a request granted after the client gave it up, or a rotation that somebody else
  asks for leaves the client with tokens that never work again (`TokenRefresh.PairIsStoredExactly`,
  `TokenRefresh.LostPairIsDeadForGood`).
- Of two calls whose token has expired one can fail although nothing is lost or refused: a 401 that is handled after the
  refresh starts another one, which retires the token that the first call is sent again with
  (`TokenCalls.LateUnauthorizedFailsAnother`; exactly when in `TokenCalls.SecondAnswerExactly`).
- One tunnel object can forward a request twice if and only if the two clock readings of a delivery can lie further
  apart than the request's age at its first acceptance and it was still fresh then (`RelayTunnel.ReplayableExactly`);
  with one reading, if it was dated ahead of the receiver (`RelayTunnel.ReplayableExactlyWhenAhead`). A new object has an
  empty window and forwards every request that is still fresh (`RelayTunnel.RestartForwardsFreshAgain`).
- Installing another archive under an installed version name promotes a manifest that does not describe the directory
  (`RuntimeInstall.RuntimeStore.DownloadAndInstall`, `RuntimeInstall.RuntimeStore.InstallUnderUsedVersion`).
- The signing payload depends on the order of keys that the locale leaves tied (`CanonicalJson.OrderIsIgnoredExactly`),
  and the TypeScript and Rust forms differ on integer-like keys even where the locale sorts by bytes
  (`CanonicalJson.NumericKeysDisagree`, exactly when in `CanonicalJson.FormsAgreeExactly`).
- A chunk-size line that fits the machine word makes the decoder panic if and only if position and size together do not
  (`ChunkedBody.OversizedChunkPanicsExactly`); blanks between the size and an extension end the body
  (`ChunkSizeLine.LineSizeExactly`).
- A row limit of zero still returns the first row with text (`CsvRows.ZeroRowsExactly`).
- When two records share a server name that no entry has yet, the second reconciliation changes the loader again
  (`McpRepeats.SecondRunIsIdleExactly`); the third never does (`McpRepeats.ThirdRunIsIdle`).

## Model

| member | source | states |
|---|---|---|
| `RuntimePointerStore.ValidVersionsExactly` | packages/desktop-host/src/index.ts:70 | A version is valid exactly if it has 1 to 160 letters, digits, hyphens, full stops and underscores and begins with a letter or digit |
| `RuntimePointerStore.ValidVersionIsFileName` | packages/desktop-host/src/index.ts:70 | A valid version names a directory directly inside the one of all versions |
| `RuntimePointerStore.RuntimePointers.AtomicWrite` | packages/desktop-host/src/index.ts:91-103 | A replacement returns exactly if directory, temporary file and rename succeed, or (only on Windows) a refused rename is followed by a removal and a second one; then the new contents are in place. One that throws or dies left the old file, the new one, or (only on Windows) no file |
| `RuntimePointerStore.RuntimePointers.RecoverInterruptedTransaction` | packages/desktop-host/src/index.ts:138-145 | However it ends, even dying half-way, the pair the next reader sees is unchanged; when it returns the transaction file is gone |
| `RuntimePointerStore.RuntimePointers.ReplacePointers` | packages/desktop-host/src/index.ts:115-120 | The two pointer writes and the removal of the journal: returning is the new pair, throwing the old, dying one of the two |
| `RuntimePointerStore.RuntimePointers.Transact` | packages/desktop-host/src/index.ts:127-133 | A journalled replacement that throws has restored the old pair, also when its own recovery fails |
| `RuntimePointerStore.RuntimePointers.Promote` | packages/desktop-host/src/index.ts:109-121 | A promotion whose operations all succeed returns exactly for a valid manifest; off Windows it returns only then. All or nothing for every crash point: the pair afterwards is the old one or (manifest, old current) |
| `RuntimePointerStore.RuntimePointers.Rollback` | packages/desktop-host/src/index.ts:122-135 | A rollback whose operations all succeed returns exactly if there is a previous runtime. All or nothing exchange of the two pointers, with the previous manifest as result; without a previous runtime it never returns |
| `RuntimePointerStore.RuntimePointers.Current` | packages/desktop-host/src/index.ts:107 | Reading recovers first and returns what the pair says, changing nothing a reader can see; it returns whenever its operations succeed |
| `RuntimePointerStore.RuntimePointers.Previous` | packages/desktop-host/src/index.ts:108 | The same for the previous pointer |
| `RuntimePointerStore.RunIsSerial` | packages/desktop-host/src/index.ts:105-149 | Every run of calls, each returning, throwing or dying anywhere, equals a serial execution in which all returned calls and no thrown ones took effect completely |
| `RuntimePointerStore.RunPointsAtPromoted` | packages/desktop-host/src/index.ts:105-149 | In every run from nothing the pointers name valid manifests that some call promoted, and a previous runtime exists only beside a current one |
| `RuntimePointerStore.RollbackUndoes` | packages/desktop-host/src/index.ts:122-135 | Two rollbacks are the identity if and only if there was a current runtime |
| `RuntimeInstall.Download` | packages/desktop-host/src/index.ts:252-264 | However the response is cut into chunks: when all reads and writes succeed, the download succeeds exactly if the body has the announced size within the limit; success means the whole body, and never more bytes than allowed are kept |
| `RuntimeInstall.RuntimeStore.VerifyArtifact` | packages/desktop-host/src/index.ts:165-185 | An archive is accepted exactly if its size and hash are the manifest's, its signature verifies or is a local one that is allowed, and the manifest's signature, where required, verifies or may be missing |
| `RuntimeInstall.HashesIgnoreCaseOnly` | packages/desktop-host/src/index.ts:178 | Two hashes count as equal exactly if they differ in nothing but the case of letters |
| `RuntimeInstall.RuntimeStore.Stage` | packages/desktop-host/src/index.ts:265-268 | When nothing fails, staging succeeds exactly for an accepted archive that extracts; what is staged was verified, extracted from that archive and smoke-tested |
| `RuntimeInstall.RuntimeStore.Place` | packages/desktop-host/src/index.ts:269-279 | An existing version directory is never changed; placing succeeds exactly if its operations do, and then the version's directory passed a smoke test |
| `RuntimeInstall.RuntimeStore.InstallSteps` | packages/desktop-host/src/index.ts:250-282 | Every way the `try` can end keeps the invariant that both pointers name smoke-tested directories; when no operation fails it returns exactly for a body that installs |
| `RuntimeInstall.RuntimeStore.DownloadAndInstall` | packages/desktop-host/src/index.ts:237-289 | When no operation fails, the manifest is promoted exactly if it is valid and the body has its size, hash and signatures and extracts. An install that ends before `promote` returned leaves the pointers as they were, one that got there promoted exactly its manifest; without the option for unsigned runtimes nothing unsigned is promoted; the promoted manifest describes its directory if and only if the version was new or already described by it |
| `RuntimeInstall.RuntimeStore.InstallUnderUsedVersion` | packages/desktop-host/src/index.ts:270-281 | Promoting another archive under a version name in use, which happens whenever no operation fails, makes the current pointer describe a directory that came from something else |
| `RuntimeInstall.RuntimeStore.CliRollback` | packages/desktop-host/src/runtime-cli.ts:97-105 | When no operation fails, the command rolls back to the previous runtime if there is one. A rollback whose second smoke fails ends with the pointers it started from when its undo returns; the undo is always possible, so that only a second failure can stop it; all other endings are told apart |
| `RuntimeInstall.RuntimeStore.Run` | packages/desktop-host/src/index.ts:237-289 | After any sequence of installs, rollbacks and reads, crashes included, both pointers name directories that passed a smoke test and no version directory was overwritten; when nothing fails the pointers are what the commands say |
| `EventStore.ListIsLogSlice` | packages/remote-daemon/src/index.ts:83-98 | A page is the gap-free slice of the log that starts after the cursor (or at the oldest event kept), cut at the clamped limit |
| `EventStore.PageDemandsResetExactly` | packages/remote-daemon/src/index.ts:88-98 | For any generation argument: a page demands no reset if and only if the generation is absent or the store's own and no event after a positive cursor was dropped; it names the store's generation, the oldest event kept and the latest |
| `EventStore.FileSizeIsTextLength` | packages/remote-daemon/src/index.ts:105-109 | The size that decides about compaction is that of the lines with their line ends |
| `EventStore.SnapshotKeepsTheEnd` | packages/remote-daemon/src/index.ts:105-117 | A compaction writes a gap-free block of history that ends with its event if and only if the window has not moved past that event, otherwise nothing |
| `EventStore.ReadLines` | packages/remote-daemon/src/index.ts:43-49 | The lines are accepted exactly when their numbers strictly increase, and numbering resumes after the last |
| `EventStore.Trim` | packages/remote-daemon/src/index.ts:69 | The shifting loop keeps exactly the newest events |
| `EventStore.AppendedIsSound` | packages/remote-daemon/src/index.ts:58-81 | Appending keeps memory, write chain and disk consistent and does not change what is durable |
| `EventStore.LoadedIsSound` | packages/remote-daemon/src/index.ts:35-56 | Whatever point of the write chain a crash fell on, the next process accepts the files; what it reads is a gap-free block of history up to the last durable event, and it resumes numbering right after it in the same generation |
| `EventStore.NumbersAreReusedExactly` | packages/remote-daemon/src/index.ts:35-56 | For every state a crash can leave, after any number of restarts: the first number given after a restart was already given in the same generation, by this or any earlier process, if and only if some process handed out a later number of that generation than the last line on disk |
| `EventStore.LossIsInherited` | packages/remote-daemon/src/index.ts:35-56 | Two restarts in a row, on a log that is not empty: the second would give a number twice if and only if the first would, although nothing is lost in between |
| `EventStore.NumbersAreReusedExactlyAfterLoss` | packages/remote-daemon/src/index.ts:35-56 | While no compaction has lagged by a window and something is durable, that is the case if and only if the crash lost an event, or some process handed out a later number of the generation than this one has come to |
| `EventStore.EmptiedLogReusesNumbers` | packages/remote-daemon/src/index.ts:43-52 | From an emptied log the next process starts again at 1 in the same generation, where 1 was given before, also when nothing counts as lost |
| `EventStore.LaggingCompactionEmptiesLog` | packages/remote-daemon/src/index.ts:105-117 | Two events and a window of one are enough to empty the log on disk |
| `EventStore.DurableEventStore.Append` | packages/remote-daemon/src/index.ts:58-81 | The event has the next number, the window and the chain become what `Appended` says, the store stays valid |
| `EventStore.DurableEventStore.WriteLine` | packages/remote-daemon/src/index.ts:74 | One more line is durable, and the lines on disk stay a gap-free block of history |
| `EventStore.DurableEventStore.TruncateGeneration` | packages/remote-daemon/src/index.ts:75 | The generation file may be found empty, and the store is still valid |
| `EventStore.DurableEventStore.CompactIfNeeded` | packages/remote-daemon/src/index.ts:105-112 | Either the job ends or a snapshot of the window up to its own event waits beside the log; nothing durable changes; a lag of more than the window is recorded |
| `EventStore.DurableEventStore.RenameSnapshot` | packages/remote-daemon/src/index.ts:113 | The snapshot replaces the log without losing the last durable event |
| `EventStore.DurableEventStore.Load` | packages/remote-daemon/src/index.ts:35-56 | Files are refused exactly when numbers do not increase; a load succeeds exactly if they are not and no operation fails; one that dies leaves the old log or its newest part |
| `EventStore.DurableEventStore.Restart` | packages/remote-daemon/src/index.ts:35-56 | From the files of any crash, a restart succeeds whenever no operation fails, and leads to a valid store again even if it crashes itself |
| `EventDelivery.EventStream.OnAppend` | packages/remote-daemon/src/index.ts:624-627 | An event appended before the page is flushed is buffered, afterwards it is written at once; the stream stays valid |
| `EventDelivery.EventStream.GoLive` | packages/remote-daemon/src/index.ts:628-633 | Whatever is appended between the steps, the client is sent the demand for a reset if there is one, the page, and then every event after the page's latest number, each once and in order |
| `EventDelivery.Flush` | packages/remote-daemon/src/index.ts:633 | The loop passes on exactly the buffered events after the page's latest number |
| `EventPages.PageIsStorePage` | packages/remote-daemon/src/index.ts:88-98 | The pages of the protocol are those of the event store, with the same numbers, generation and demand for a reset, whatever generation is asked for |
| `EventDelivery.DeliveryIsStrictlyIncreasing` | packages/remote-client/src/index.ts:253-289 | In every interleaving of appends, drops and reconnects with one server process, `onEvent` sees strictly increasing numbers above the start cursor, provided that no page from the start is sent to a client that was handed an event the server still keeps |
| `EventDelivery.WithoutMisreadsInOrder` | packages/remote-client/src/index.ts:253-289 | That holds by itself in every run in which no event is taken for a reset |
| `EventDelivery.MisreadStartsOver` | packages/remote-client/src/index.ts:266-275 | A client that takes an event for a reset asks for the page from the start, whatever it was handed before |
| `EventDelivery.MisreadKeepsOrderExactly` | packages/remote-client/src/index.ts:268 | When that page is served, after any number of appends, handing it out keeps the order if and only if no event handed out before is kept any more |
| `EventDelivery.KeptExactlyWithinWindow` | packages/remote-daemon/src/index.ts:88-98 | The server still has all a client lacks if and only if the client lacks nothing, or is at most a window behind and not before the first event the server knows |
| `EventDelivery.DeliveryIsGapFree` | packages/remote-client/src/index.ts:253-289 | A client that is at most 1000 events behind at each connect, asks for no page of which the beginning is trimmed and takes no event for a reset is handed exactly the log from its start cursor on, each event once |
| `EventDelivery.CanCatchUp` | packages/remote-client/src/index.ts:253-289 | From any state of a client that has lost nothing, is at most 500 events behind and loses its connection, its own steps lead to a new connection and to the whole log |
| `EventDelivery.FarBehindLosesEvents` | packages/remote-client/src/index.ts:270-275 | For every distance above 1000 there is a run, without any event that looks like a reset, in which events are skipped although the server has them |
| `EventGenerations.StretchesAreOfOneGeneration` | packages/remote-client/src/index.ts:253-289 | Over any number of server processes with logs of any generations: as long as every page is answered by a process of the generation the client asked for, all that is handed out since it last started over is of the one generation it names, in order |
| `EventGenerations.MoveKeepsInv` | packages/remote-client/src/index.ts:253-289 | Every step of client, server and the replacement of the server process keeps that invariant |
| `EventGenerations.ConnectStartsOverExactly` | packages/remote-daemon/src/index.ts:624-634 | A connecting client is told to start over if and only if it names another generation or has lost events; it then names the server's generation and asks for the page from the start |
| `EventGenerations.StartedOverFromOldest` | packages/remote-client/src/index.ts:268 | Whenever that page is served, it is handed out from the oldest event kept on |
| `EventGenerations.ForeignCatchUpExactly` | packages/remote-client/src/index.ts:270-275 | When a gap is filled by a process of another generation, the oldest event of the new log is handed out if and only if the old cursor was below it, and what is handed out is of one generation if and only if the page reaches the number of the event that showed the gap |
| `EventGenerations.UnnamedGenerationContinues` | packages/remote-daemon/src/index.ts:95 | A client that names no generation is handed the events of another log as a continuation |
| `StreamSync.NeverMissedExactlyWithoutGap` | apps/remote-pwa/src/stream-sync.ts:46-99 | The projection reports a missed event if and only if the numbers handed to it skip one |
| `StreamSync.StreamAfterSnapshotNeverMisses` | apps/remote-pwa/src/main.tsx:139-156 | Under the same conditions a client that takes a snapshot and streams from its latest number never reports a missed event |
| `StreamSync.EventsAreAccountedFor` | apps/remote-pwa/src/stream-sync.ts:80-96 | Of the events of one generation, in any order and repeated at will: the cursor ends at the highest number, and every number it moved past was either accepted or reported missing |
| `StreamSync.SnapshotReportsOneLess` | apps/remote-pwa/src/stream-sync.ts:70-77 | A snapshot of the known generation reports one event less than it moves past, and shows a gap exactly when it reports some |
| `StreamSync.StatusSaysWhy` | apps/remote-pwa/src/stream-sync.ts:46-99 | Which inputs lead to each status and note; an input that tells of the server alone or repeats an event changes neither them nor the cursor |
| `StreamSync.HttpIsLastWord` | apps/remote-pwa/src/stream-sync.ts:48-77 | The server is shown as up or down as the last input that tells of it has it |
| `StreamSync.GenerationIsLastWord` | apps/remote-pwa/src/stream-sync.ts:56-96 | The generation of the cursor is that of the last snapshot or event |
| `SseFraming.ReadFrames` | packages/remote-client/src/index.ts:261-265 | However the stream is cut into chunks, the frames and the buffer are the parts of the whole text |
| `SseFraming.SplitAppend` | packages/remote-client/src/index.ts:264 | Splitting is incremental: going on from the last part is splitting the whole |
| `SseFraming.WireFormat` | packages/remote-daemon/src/index.ts:626-634 | The lines that each kind of message is written as |
| `SseFraming.SplitEncoding` | packages/remote-daemon/src/index.ts:626-634 | The text written for a list of messages splits into exactly their bodies |
| `SseFraming.ChunksYieldMessages` | packages/remote-client/src/index.ts:261-277 | Any cutting of the decoded text yields exactly the messages written, in order, with nothing left over |
| `SseFraming.BrokenStreamYieldsPrefix` | packages/remote-client/src/index.ts:261-277 | A connection that breaks anywhere has yielded a prefix of the messages, none cut short |
| `SseFraming.ClassifyBody` | packages/remote-client/src/index.ts:266-269 | A message is read as what it was written as, except that an event is taken for a reset if and only if its JSON holds the marker text |
| `SseBytes.DecodeAppend` | packages/remote-client/src/index.ts:264 | Streaming UTF-8 decoding, cut anywhere, decodes the whole |
| `SseBytes.ReadBytes` | packages/remote-client/src/index.ts:261-265 | Decoder and frame loop together yield the parts of the whole text, however the bytes are cut |
| `SseBytes.Utf8IsRead` | packages/remote-client/src/index.ts:264 | Every text has a UTF-8 form and is read back from it |
| `SseBytes.BytesYieldMessages` | packages/remote-client/src/index.ts:261-277 | The UTF-8 bytes of the messages written, cut anywhere, inside characters too, yield exactly those messages, in order, with nothing left over |
| `SseBytes.BrokenBytesYieldPrefix` | packages/remote-client/src/index.ts:261-277 | A connection that breaks after any byte has yielded a prefix of the messages, none cut short |
| `PromptAdmission.InvStep` | packages/remote-daemon/src/index.ts:481-501 | Every step of callers, adapter and restarts keeps what is promised for an id; a restart must find the id's records among the oldest 500 events |
| `PromptAdmission.RunKeepsInv` | packages/remote-daemon/src/index.ts:481-501 | So it holds for the id in every state of every run with such restarts, however long the log is |
| `PromptAdmission.AdmittedAtMostOnce` | packages/remote-daemon/src/index.ts:481-501 | For one id: at most one adapter call outstanding, at most one success, at most one `prompt.accepted`, and one task in all success replies, in every run in which each restart finds the id's records among the oldest 500 events |
| `PromptAdmission.EveryCallerIsExplained` | packages/remote-daemon/src/index.ts:481-501 | In every run, restarts included, every caller that joined a call in flight is told what became of that call, marked as deduplicated; one that started a call is told what became of it, unmarked; an admitted id is answered with its task; a failure is told only of a call that failed or an adapter that threw; `NOT_CONFIGURED` is said exactly without an adapter and for an id that is neither admitted nor in flight; and only a restart cuts a caller off |
| `PromptAdmission.FailedCallIsRetryable` | packages/remote-daemon/src/index.ts:490-500 | An adapter call that fails has an owner, the owner is told of the failure, and the next caller with the id starts a new call |
| `PromptAdmission.RestartRemembersExactlyTheOldest` | packages/remote-daemon/src/index.ts:388-390 | After any restart, the first or a later one, an id is answered from the log if and only if a record of it is among the oldest 500 events; otherwise its prompt goes to the adapter again |
| `PromptAdmission.RebuildHolds` | packages/remote-daemon/src/index.ts:388-390 | Rebuilding finds exactly the ids recorded, with the recorded task |
| `DeviceTokens.DeviceRegistry.Authorize` | packages/remote-daemon/src/index.ts:236-243 | A token authorizes exactly a current, unexpired, unrevoked device that has the scope or is an administrator's |
| `DeviceTokens.DeviceRegistry.RevokeDevice` | packages/remote-daemon/src/index.ts:245-251 | Revoking succeeds exactly for a known device and changes nothing else |
| `DeviceTokens.DeviceRegistry.RotateDevice` | packages/remote-daemon/src/index.ts:253-261 | Rotation succeeds exactly for a known, unrevoked device and stores the fresh pair it returns |
| `DeviceTokens.DeviceRegistry.RefreshDevice` | packages/remote-daemon/src/index.ts:263-267 | A refresh succeeds exactly for the current refresh token of an unrevoked device before its expiry |
| `DeviceTokens.DeviceRegistry.AddPaired` | packages/remote-daemon/src/index.ts:230-233 | Pairing stores a device with the fresh tokens it returns |
| `DeviceTokens.ApplyRetires` | packages/remote-daemon/src/index.ts:236-267 | A change brings only fresh tokens to life and retires the pair it replaces or revokes |
| `DeviceTokens.RetiredForGood` | packages/remote-daemon/src/index.ts:236-267 | In every history a rotated or revoked access token never authorizes again and a used refresh token is never accepted again |
| `DeviceTokens.AuthorizesExactly` | packages/remote-daemon/src/index.ts:223-261 | In every history a token authorizes at a time if and only if it is the access token last issued for its device, less than 15 minutes before, and nothing was carried out for the device since, a revocation included |
| `DeviceTokens.RefreshesExactly` | packages/remote-daemon/src/index.ts:223-267 | A refresh is granted if and only if the token is the refresh token issued beside it, within 30 days |
| `TokenRefresh.InvStep` | packages/remote-client/src/index.ts:293-311 | Every step of concurrent calls, the server and the network keeps the refresh invariant |
| `TokenRefresh.RefreshIsSingleFlight` | packages/remote-client/src/index.ts:300-309 | In every run at most one refresh is outstanding and no refresh token is accepted twice |
| `TokenRefresh.PairIsStoredExactly` | packages/remote-client/src/index.ts:293-311 | Whenever the client waits for no refresh it holds the pair the registry stores, revoked or not, if and only if no grant went unheard (a lost reply, or a request given up that was granted later) and nobody else had the pair rotated; otherwise neither of its tokens is live |
| `TokenRefresh.LostPairIsDeadForGood` | packages/remote-daemon/src/index.ts:236-267 | After that, whatever happens to the registry, the access token never authorizes and the refresh token is never accepted |
| `TokenRefresh.RotationSupersedesThePair` | packages/remote-daemon/src/index.ts:253-261 | A rotation by somebody else is enough, with no reply lost |
| `TokenCalls.CallFailsOnlyForCause` | packages/remote-client/src/index.ts:293-311 | In every run a call ends with failure only after its message was lost, a refresh was lost or refused, or its second sending was answered with 401; missing credentials have such a cause themselves |
| `TokenCalls.WokenCallIsSentAgain` | packages/remote-client/src/index.ts:295 | A call woken by a refresh that succeeded is sent once more with the access token the client then holds |
| `TokenCalls.SecondSendingFollowsRefresh` | packages/remote-client/src/index.ts:295 | Whenever a call is out for the second time, a refresh that succeeded woke it, and it carries the token that the client held then |
| `TokenCalls.CallOnlyAdvances` | packages/remote-client/src/index.ts:293-299 | No call is sent a third time, and its end is final |
| `TokenCalls.AnswerExactly` | packages/remote-daemon/src/index.ts:236-243 | Every sending succeeds if and only if its token is the one the registry stores for the device, neither expired nor revoked |
| `TokenCalls.SecondAnswerExactly` | packages/remote-client/src/index.ts:293-311 | A second sending succeeds if and only if it is answered before the token expires and before the device's tokens are renewed again or revoked |
| `TokenCalls.FaultlessCallsSucceed` | packages/remote-client/src/index.ts:293-311 | In a run without lost messages and refused refreshes, in which second sendings are answered while their token is accepted, every call that ends succeeds, whatever tokens expire |
| `TokenCalls.LateUnauthorizedFailsAnother` | packages/remote-client/src/index.ts:300-309 | A run of two calls in which nothing is lost, refused, revoked or rotated by others, and one of them fails |
| `RelayTunnel.RestrictedRelayTunnel.HandleRequest` | packages/remote-daemon/src/relay-tunnel.ts:74-80 | Freshness, replay and capacity are decided in the order of the source, and the window becomes what `Handle` says |
| `RelayTunnel.VerdictExactly` | packages/remote-daemon/src/relay-tunnel.ts:74-80 | In any run: a request is invalid exactly if it is malformed or dated more than 60 s before or after the first clock reading, else a replay exactly if its id was forwarded within the last 60 s, else refused exactly if 10000 ids were, and forwarded otherwise |
| `RelayTunnel.EntryStays` | packages/remote-daemon/src/relay-tunnel.ts:77-80 | The entry of a forwarded request is there until more than 60 s have passed |
| `RelayTunnel.ForwardedFarApart` | packages/remote-daemon/src/relay-tunnel.ts:77-80 | Two requests with one id are forwarded only more than 60 s apart |
| `RelayTunnel.ForwardedAtMostOnce` | packages/remote-daemon/src/relay-tunnel.ts:74-80 | In any run a request is forwarded at most once as long as the clock readings of the later delivery lie no further apart than its age at the first |
| `RelayTunnel.ReplayableExactly` | packages/remote-daemon/src/relay-tunnel.ts:74-80 | From any state and with any deliveries in between: a forwarded request can be forwarded again by a delivery with readings at most a gap apart if and only if the gap exceeds its age at the first acceptance and it was still fresh then |
| `RelayTunnel.ReplayableExactlyWhenAhead` | packages/remote-daemon/src/relay-tunnel.ts:74-80 | With one reading per delivery that is the case if and only if it was dated ahead of the receiver |
| `RelayTunnel.RestartForwardsFreshAgain` | packages/remote-daemon/src/relay-tunnel.ts:74-80 | A tunnel object that has just been made forwards a request exactly while it is fresh, also one that its predecessor forwarded |
| `RelayTunnel.ClockReadingsApartAdmitReplay` | packages/remote-daemon/src/relay-tunnel.ts:76-77 | A gap of one millisecond is enough for a request created in the millisecond of its acceptance |
| `RateWindows.RelayConnection.OnMessage` | packages/remote-relay/src/index.ts:172-173 | The window rolls over and counts as in the source; the frame passes exactly when it is within the limit |
| `RateWindows.FramesPerSecond` | packages/remote-relay/src/index.ts:169-173 | Of the frames of a connection within any 1000 ms at most 240 pass |
| `RateWindows.FramesPerSecondIsReached` | packages/remote-relay/src/index.ts:169-173 | 240 frames within two milliseconds do pass |
| `RateWindows.PassesExactly` | packages/remote-relay/src/index.ts:169-173 | Every frame passes if and only if it is among the first 120 since its window was opened, which is by the first frame a second or more after the window before |
| `RateWindows.SilenceReadmits` | packages/remote-relay/src/index.ts:169-173 | After a second of silence frames pass again, whatever was refused before |
| `RateWindows.RequestLimiter.EnforceRateLimit` | packages/remote-daemon/src/index.ts:534-541 | The address's window is counted, expired ones are dropped when there are too many, and the request is admitted exactly when within the limit |
| `RateWindows.RequestsPerMinute` | packages/remote-daemon/src/index.ts:534-541 | Whatever other addresses do, at most 1199 requests of one address are admitted within any 60 s |
| `RateWindows.RequestsPerMinuteIsReached` | packages/remote-daemon/src/index.ts:534-541 | One request and, 60 s later, 1199 more within two milliseconds are all admitted |
| `RateWindows.AdmitsExactly` | packages/remote-daemon/src/index.ts:534-541 | Every request is admitted if and only if it is among the first 600 of its address since that address's window was opened; forgetting expired windows changes nothing |
| `StaleJobs.ControlPlane.HydrateStaleJobs` | packages/remote-daemon/src/index.ts:400-419 | The loops append exactly the events of `Hydration`, within the window of the log |
| `StaleJobs.Collect` | packages/remote-daemon/src/index.ts:401-407 | The ordered map holds the latest report of every job |
| `StaleJobs.GroupStale` | packages/remote-daemon/src/index.ts:408-414 | The stale jobs are grouped by session in the order of their appearance |
| `StaleJobs.IdleExactly` | packages/remote-daemon/src/index.ts:400-419 | A start appends nothing if and only if no job in the events it reads is running or stopping |
| `StaleJobs.StartSettlesJobs` | packages/remote-daemon/src/index.ts:400-419 | For a log of at most 500 events including those appended: no job is running or stopping afterwards, stale ones are interrupted with everything else about them kept, all other jobs are unchanged, and a second start appends nothing |
| `StaleJobs.OneInterruptionEach` | packages/remote-daemon/src/index.ts:416-418 | Exactly one `job.interrupted` is appended for each stale job, with its session and kind, and none for any other |
| `StaleJobs.StartSaysExactly` | packages/remote-daemon/src/index.ts:400-419 | On a log of any length: a job that is `running` or `stopping` among the oldest 500 events is declared `interrupted` with the time of the start and all else as it was then; any other job stays as it is |
| `StaleJobs.KnownIsLastReport` | packages/remote-daemon/src/index.ts:401-407 | What is known of a job is the last entry of its id in the last list that has one |
| `StaleJobs.StartLeavesNoneStaleExactly` | packages/remote-daemon/src/index.ts:400-419 | After a start no job is running or stopping if and only if every stale job is stale among the oldest 500 events |
| `StaleJobs.StartKeepsOthersExactly` | packages/remote-daemon/src/index.ts:400-419 | All jobs that are not stale are unchanged if and only if none of them is stale among the oldest 500 events, or was last reported just as declared |
| `StaleJobs.FinishedJobIsOverwritten` | packages/remote-daemon/src/index.ts:402-407 | A job reported running among the first 500 events and finished after them is declared interrupted |
| `StaleJobs.StartIsRepeatedExactly` | packages/remote-daemon/src/index.ts:402-419 | The next start appends nothing if and only if the events of this one, all but those for the jobs of its last session, leave the log below 500 |
| `ChunkSizeLine.LineSizeOf` | apps/desktop/src-tauri/src/lib.rs:268-276 | A chunk-size line with any extension is read as its hexadecimal size |
| `ChunkSizeLine.LineSizeExactly` | apps/desktop/src-tauri/src/lib.rs:268-276 | Before an extension, blanks after the size make the decoder stop, and only they do |
| `ChunkSizeLine.PlusIsSkipped` | apps/desktop/src-tauri/src/lib.rs:275-276 | A plus sign before the size changes nothing |
| `ChunkSizeLine.DigitsExactly` | apps/desktop/src-tauri/src/lib.rs:275-276 | Large and small letters have the values of hexadecimal digits, and nothing else has one |
| `ChunkSizeLine.HexRoundTrip` | apps/desktop/src-tauri/src/lib.rs:275-276 | Every size can be written and is read back |
| `ChunkedBody.DecodeHttpBody` | apps/desktop/src-tauri/src/lib.rs:246-295 | On arbitrary bytes the loop terminates and computes `Decode`; a body without chunked coding is returned as it is |
| `ChunkedBody.ReadChunk` | apps/desktop/src-tauri/src/lib.rs:257-293 | One iteration moves the cursor strictly forward or ends the loop |
| `ChunkedBody.DecodeEncoded` | apps/desktop/src-tauri/src/lib.rs:254-295 | Decoding the encoding of any nonempty chunks, with any extensions and any trailer, gives the concatenation of their data |
| `ChunkedBody.DecodePrefix` | apps/desktop/src-tauri/src/lib.rs:254-295 | Decoding any prefix of an encoding gives the data of exactly the chunks whose data arrived completely |
| `ChunkedBody.OversizedChunkPanicsExactly` | apps/desktop/src-tauri/src/lib.rs:275-284 | After any chunks, a size line that announces more than is left makes the decoder panic if and only if the size fits the machine word and its sum with the position does not; otherwise the chunks are what is decoded |
| `ChunkedBody.OversizedChunkPanics` | apps/desktop/src-tauri/src/lib.rs:281-284 | Every such size can be written at the start of a body, and the decoder panics on it |
| `JsonReader.PrintIsRead` | packages/desktop-host/src/index.ts:88 | A reader of JSON written down from RFC 8259 reads every print back as its value, whatever follows |
| `JsonReader.PrintIsTheCompactText` | packages/desktop-host/src/index.ts:88 | The print of a value is the one text that is read as the value by a reader that accepts no whitespace and of each character only its shortest spelling |
| `JsonReader.PlainTextIsPrintedAsItself` | apps/desktop/src-tauri/src/lib.rs:797 | A string of characters from space on without quotes and backslashes is printed as itself between quotes |
| `JsonReader.StringsAreConcatenated` | apps/desktop/src-tauri/src/lib.rs:797 | Strings are printed character by character |
| `JsonReader.ShortForms` | apps/desktop/src-tauri/src/lib.rs:797 | The texts of the seven characters that have a short form |
| `JsonReader.OtherControls` | apps/desktop/src-tauri/src/lib.rs:797 | Every other control character is printed as four lower-case hexadecimal digits of its number |
| `JsonReader.PrintIsInjective` | packages/desktop-host/src/index.ts:88 | Two values have the same JSON text if and only if they are equal |
| `JsonReader.PrintIsUnique` | packages/desktop-host/src/index.ts:88 | A text begins with the print of at most one value |
| `KeyOrder.SortPlaces` | packages/desktop-host/src/index.ts:83 | Sorting orders two keys as the comparison says and leaves tied ones as they stood |
| `KeyOrder.ByteOrder` | apps/desktop/src-tauri/src/lib.rs:814 | The byte order is a strict total order on keys |
| `KeyOrder.ByteOrderExactly` | apps/desktop/src-tauri/src/lib.rs:814 | One key comes before another if and only if it is cut off first or has the smaller character where they first differ |
| `KeyOrder.IndicesExactly` | packages/desktop-host/src/index.ts:83 | The keys that JavaScript lists first are the numbers below 2^32 - 1 in decimal, in their order |
| `KeyOrder.SameList` | packages/desktop-host/src/index.ts:83 | A list of entries is determined by what it holds and in which order |
| `CanonicalJson.CanonicalRuntimeJson` | apps/desktop/src-tauri/src/lib.rs:791-832 | The recursive writer with its loops appends exactly the Rust form's payload to the output |
| `CanonicalJson.PrintArray` | apps/desktop/src-tauri/src/lib.rs:800-809 | The loop over items appends the array |
| `CanonicalJson.PrintObject` | apps/desktop/src-tauri/src/lib.rs:810-829 | Filtering, sorting and the loop over fields append the object without its signature members |
| `CanonicalJson.PayloadIsTheCompactText` | packages/desktop-host/src/index.ts:80-89 | What is signed is the one compact text that is read as the canonical form, with nothing after it |
| `CanonicalJson.ObjectPlaces` | packages/desktop-host/src/index.ts:80-84 | The canonical form of an object holds its members without the signature, each in canonical form, and in the order of the form |
| `CanonicalJson.PayloadTellsApart` | packages/desktop-host/src/index.ts:80-89 | Values with the same payload differ only in the order of keys and in `manifestSignature` members, at any depth and in every form |
| `CanonicalJson.CanonicalOfEquivalent` | packages/desktop-host/src/index.ts:80-84 | Values that differ only so have the same canonical form where the order decides every pair of keys |
| `CanonicalJson.OrderIsIgnoredExactly` | packages/desktop-host/src/index.ts:80-89 | The payload ignores the order of keys if and only if the form orders any two keys that share an object |
| `CanonicalJson.RustDecides` | apps/desktop/src-tauri/src/lib.rs:814 | The Rust form orders all keys of every value |
| `CanonicalJson.ArrangePlaces` | packages/desktop-host/src/index.ts:83 | Sorting by locale and then listing own keys is one order: array indices first, then the locale |
| `CanonicalJson.FormsAgreeExactly` | apps/desktop/src-tauri/src/lib.rs:791-832 | Two forms, TypeScript in two locales or TypeScript and Rust, give one payload if and only if they order all keys present alike |
| `CanonicalJson.NumericKeysDisagree` | packages/desktop-host/src/index.ts:83 | With the keys "10" and "9" the TypeScript and Rust payloads differ even in a locale that sorts by bytes |
| `CanonicalJson.SigningKeepsPayload` | scripts/runtime/index.ts:272-275 | Attaching or replacing the signature does not change what is signed, in every form |
| `ZipArchive.FindEnd` | packages/desktop-host/src/phase2/documents.ts:67-69 | The end record found is the last one in the last 65557 bytes, and none is found only if there is none |
| `ZipArchive.EndIsSearchedExactly` | packages/desktop-host/src/phase2/documents.ts:67-69 | An end record is found if and only if its four letters stand among the last 65557 bytes, with room for the record |
| `ZipArchive.ZipEntries` | packages/desktop-host/src/phase2/documents.ts:66-88 | On arbitrary bytes the backward search and the directory loop compute `Entries`, errors included |
| `ZipArchive.ReadAll` | packages/desktop-host/src/phase2/documents.ts:72-87 | The directory loop reads entry after entry and stops at the first error |
| `ZipArchive.EntryIsAcceptedExactly` | packages/desktop-host/src/phase2/documents.ts:74-85 | Which directory entries are accepted: those that are whole, not encrypted, not ZIP64, stored or deflated, within the limits, and safely named once backslashes are slashes |
| `ZipArchive.SafeNameExactly` | packages/desktop-host/src/phase2/documents.ts:80 | A name is safe if and only if it holds no NUL, does not begin with a slash, and has no two dots alone between slashes or ends |
| `ZipArchive.SlashedExactly` | packages/desktop-host/src/phase2/documents.ts:79 | Backslashes become slashes, and nothing else changes |
| `ZipArchive.ZipRead` | packages/desktop-host/src/phase2/documents.ts:90-99 | What is read has the declared size and checksum |
| `ZipArchive.EntriesAreWithinLimits` | packages/desktop-host/src/phase2/documents.ts:66-88 | Whatever the bytes, an accepted map has at most `maxEntries` members with safe names, known methods and bounded ratios, and all declared sizes together stay within `maxExpandedBytes`, repeated names or not |
| `ZipArchive.DeclaredAfterSet` | packages/desktop-host/src/phase2/documents.ts:82-85 | Setting an entry, new or repeated, adds at most its declared size |
| `ZipRoundTrip.LaidOutIsReadBack` | packages/desktop-host/src/phase2/documents.ts:66-99 | An archive whose records lie anywhere in the data is read back to exactly its members |
| `ZipRoundTrip.ArchiveIsReadBack` | packages/desktop-host/src/phase2/documents.ts:66-99 | An archive with distinct safe names, stored or deflated, any extra fields and any comment is read back to exactly its members and their contents, if nothing after the start of its end record looks like another one |
| `ZipRoundTrip.EndIsFoundExactly` | packages/desktop-host/src/phase2/documents.ts:67-69 | The archive's own end record is the one found if and only if no later offset, in the record itself or in its comment, looks like one |
| `ZipRoundTrip.ArchiveIsLaidOut` | packages/desktop-host/src/phase2/documents.ts:66-88 | The usual order of local records, directory and end record is such a layout |
| `ZipRoundTrip.MemberIsRead` | packages/desktop-host/src/phase2/documents.ts:90-99 | A member in place is read to its content |
| `ZipRoundTrip.NumberIsRead` | packages/desktop-host/src/phase2/documents.ts:50-51 | Little-endian numbers are read back |
| `ZipRoundTrip.RecordsAreSigned` | packages/desktop-host/src/phase2/documents.ts:66-92 | The three kinds of record begin with the letters PK and their numbers |
| `CsvRows.CsvRows` | packages/desktop-host/src/phase2/documents.ts:107-120 | The loop with its look-ahead and early exit computes `Rows` |
| `CsvRows.TableIsReadBack` | packages/desktop-host/src/phase2/documents.ts:107-120 | A table with plain or quoted fields and LF or CRLF line ends is read back, without its leading empty rows and cut at `maxRows` |
| `CsvRows.QuotedText` | packages/desktop-host/src/phase2/documents.ts:110-113 | What the quoted fields of such a table look like |
| `CsvRows.LastRowNeedsNoEnd` | packages/desktop-host/src/phase2/documents.ts:118 | The last row may lack its line end, and is dropped exactly when it is a single empty field |
| `CsvRows.FirstRowIsRead` | packages/desktop-host/src/phase2/documents.ts:115 | With a limit of zero the reader returns the first row, if it has text |
| `CsvRows.ZeroRowsExactly` | packages/desktop-host/src/phase2/documents.ts:115 | With a limit of zero nothing is returned if and only if the first row has no text |
| `CsvRows.RowsAreLimited` | packages/desktop-host/src/phase2/documents.ts:107-120 | On arbitrary text at most `maxRows` rows come out and none is without a cell |
| `McpReconcile.McpManager.ReconcileMcpLoader` | packages/dsh-plugin-desktop/src/index.ts:476-512 | Loader, managed set and reply become what `Reconciled` says, and `reloaded` tells exactly whether the loader was called |
| `McpReconcile.McpManager.SweepLoader` | packages/dsh-plugin-desktop/src/index.ts:480-504 | The loop over the entries, removing and updating in place, leaves exactly what `Sweep` says |
| `McpReconcile.McpManager.FillLoader` | packages/dsh-plugin-desktop/src/index.ts:505-510 | The loop over the records creates exactly the entries of `Fill` |
| `McpReconcile.ReconciledIsAsDesired` | packages/dsh-plugin-desktop/src/index.ts:476-512 | After a run the first entry of every record is managed and has the desired configuration and flag, and no managed entry is without a record or a duplicate |
| `McpReconcile.DesiredIsLast` | packages/dsh-plugin-desktop/src/index.ts:479 | Of the records with one name the last counts |
| `McpReconcile.SecondRunIsIdle` | packages/dsh-plugin-desktop/src/index.ts:476-512 | A second run makes no loader call, changes nothing and replies `reloaded: false` |
| `McpReconcile.ForeignStay` | packages/dsh-plugin-desktop/src/index.ts:476-512 | Other plugins' entries, and unmanaged clients no record names, stay as they are and in order, even when resolving fails half-way |
| `McpReconcile.ReconciledIsSound` | packages/dsh-plugin-desktop/src/index.ts:476-512 | Entry identifiers stay distinct, even when resolving fails half-way |
| `McpRepeats.SecondRunIsIdleExactly` | packages/dsh-plugin-desktop/src/index.ts:479-510 | For any records and any loader: the second run is idle if and only if every name that records share had a client entry before the first |
| `McpRepeats.ThirdRunIsIdle` | packages/dsh-plugin-desktop/src/index.ts:476-512 | The third run makes no loader call and changes nothing, whatever names are repeated |
| `McpRepeats.RepeatedNamesTakeTwoRuns` | packages/dsh-plugin-desktop/src/index.ts:479-510 | Two records with one name and an empty loader: the second run changes the loader, the third does not |
| `WorkspacePeers.RequiredWorkspacePackages` | scripts/runtime/index.ts:80-109 | The result is exactly the set of workspace packages reachable from the CLI's dependency lists through dependencies, optional dependencies and non-optional workspace peers; it fails exactly when there is no CLI package |
| `WorkspacePeers.Collect` | scripts/runtime/index.ts:88-109 | The worklist terminates although its queue grows, and collects exactly the reachable packages |
| `WorkspacePeers.Advance` | scripts/runtime/index.ts:95-109 | A turn either adds a new package or shortens the rest of the queue, and keeps the worklist's invariant |
| `WorkspacePeers.ClosedHoldsChain` | scripts/runtime/index.ts:95-109 | A set closed under need holds every package at the end of a chain from the roots |

## Left out

- HTTP routing, WebSocket and TLS plumbing, CORS and Host checks, user interfaces, tray, notifications and Cloudflare
  setup: input and output without a property of this kind.
- Hashes, signatures, encryption, CRC-32, inflate, text decoding of names and the JSON libraries: given functions.
- Process spawning, health polling and sleeping; clocks are parameters, and a smoke test passes or fails as the schedule
  of the environment has it.
- A failing file operation has no effect in the models; torn lines, full disks and the Windows replacement of the event
  log are not modelled.
- Two processes on one set of pointer files: the update lock of the command line is assumed to keep them apart.
- A rename onto an existing version directory is taken to fail, as it does when the directory holds a file.
- Rust's `recover_previous_runtime` and the embedded seed, which bypass the pointer transaction.
- The event log is modelled with a file and a window of at least one event; `redactLegacyEvent` and the error for an
  invalid cursor are left out.
- Workspace filters on pages and streams, and aborts of a stream by its caller.
- Malformed bytes in the event stream; its text is decoded as code points, not as UTF-16.
- The detection of chunked coding in a header and the final lossy conversion to text: the decoder works on the body.
- Admissions and restarts see one log that has dropped nothing and is written completely: what a crash can lose of it
  is the subject of `EventStore`.
- Calls of an adapter that a restart cuts off have an unknown outcome and count as neither success nor failure.
- Rotation that the client itself asks for (it takes over the reply whatever device was rotated), pairing offers and the
  last-seen time of a device.
- A failed save of the device registry and a crash of its process: what a refresh or rotation stores counts as kept.
- Runs of the relay tunnel are those of one tunnel object; a restart, which empties its window, ends such a run.
- Numbers in JSON are known by their printed token: that two libraries print a number alike is not part of this model,
  nor are lone surrogates in strings.
- The order of UTF-8 bytes is taken to be the order of code points.
- The checks of manifest fields except the version name, and extraction of archives.
- The order in which `zipEntries` lists names, and its abort signal.
- Loader calls are taken to succeed, to be made by one reconciliation at a time, and to use every identifier once.
- Materialising the required packages on disk.
- Reports of jobs carry no `restarted` flag, and a report without a job list counts as another event.
- `SessionLineageStore` (parents and forks of sessions), the relay's `RelayReplayGuard` (frame numbers per session and
  direction), the comparison of versions, the differences an import of servers shows, token estimates and usage buckets.
- StaleJobs.StartIsRepeatedExactly: speaks, like the other lemmas about a start, of a log from which the window has dropped
  nothing since, as with fewer than 10000 events.
