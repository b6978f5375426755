# KalamDB, verified

A Dafny model of the parts of KalamDB whose correctness rests on an argument rather than on a glance: the per-address
connection guard of the server, crash-safe file replacement and self-update in the command line client, the
two-lock transaction registry, claims on primary keys, the table and CSV writers, the command history, SQL
identifiers, release ordering, the version manifest, and benchmark statistics.

`dafny verify dfyconfig.toml` checks everything.

| module | what it is about |
|---|---|
| `GuardModel`, `GuardRules`, `GuardRefinement`, `ConnectionGuards`, `ConnectionRace` | the connection guard: what one call does, in plain numbers, what whole runs keep, the objects that implement it, and the check-then-add race |
| `Staging`, `AtomicWrite`, `AtomicCall`, `PlainWrite`, `SelfUpdate` | staging, syncing and renaming under interleaving, refusals, kills and power loss, on Unix and elsewhere; replacing a running program |
| `TransactionRegistry`, `PrimaryKeyClaims` | two protocols of concurrent transactions, as state machines over their lock-protected steps |
| `TableLayout`, `TableRender`, `Csv`, `Sums` | fitting columns to a terminal, drawing the table, writing CSV |
| `History`, `HistoryPolicy`, `Base64`, `Utf8`, `Text` | the history file, its encoding, which commands may be in it, and what runs of history operations keep |
| `Identifiers` | parsing and printing of qualified table names |
| `Releases`, `Manifest`, `ManifestRules`, `Metrics` | version precedence and choice, manifest syncing field by field, percentiles |

How to read the model:

* Objects that the program updates in place are classes (`IpState`, `ConnectionGuard`, `FileSystem`, `Disk`,
  `TransactionEngine`, `CommandHistory`); loops are methods with invariants; the column widths are an array that is
  shrunk in place. The methods of the guard, of the history and of the formatter are tied to functions on values, and
  the theorems are about those functions. The calls of `FileSystem` and `TransactionEngine` are shown to be runs of
  the state machines of their modules. `Disk` keeps a trace of all states it has been in, and its contracts speak of
  that trace.
* Concurrency is a state machine: a step is one atomic operation, one critical section or one system call, and a run
  is any sequence of enabled steps.
* The clock is an input that never runs backwards; the verdict of the rate window is an arbitrary boolean per call;
  eviction of an idle address is a call of its own. Whether a system call is refused, and how many bytes it manages
  to write, are inputs too.
* Characters are Unicode scalar values, bytes are numbers below 256, and lengths in bytes are computed from the UTF-8
  encoding where the program measures bytes.

Where the program does not do what one would hope for, the model keeps the program's behaviour and says exactly when
it matters:

* A manifest sync followed by a verification can disagree: `Manifest.SyncIsIdempotent` gives the exact condition and
  `Manifest.PaddedVersionDoesNotSettle` the failing family.
* A table is only as even as its cells are free of line breaks: `TableRender.ShownTableIsEven`, with one such table in
  `TableRender.DrawBrokenTable`.
* Printing and parsing a qualified name returns it exactly when both parts are non-empty and have no surrounding
  whitespace: `Identifiers.PrintParseRoundTrip`.
* CSV data cannot be read back when there is no column at all, and the header only when every column name is plain:
  `Csv.NoColumnsNoRoundTrip`, `Csv.DocumentReadsBack`.
* Moving a command to the end brings two equal history entries together exactly when it stands alone between them:
  `History.MoveKeepsNeighboursExactly`, over whole runs `History.NeighboursDifferExactly`, with a failing run in
  `History.MoveCanJoinEqualNeighbours`.
* On other systems than Unix a destination stays whole as long as nobody opens a staging file that another call may
  still rename, and no power loss follows a rename: `PlainWrite.DestinationsStayWhole`. Wherever either happens, the
  destination can be torn: `PlainWrite.ClashCanTear`, `PlainWrite.LossCanTear`.
* The connection limit can be passed, by exactly one less than the number of threads: `ConnectionRace.OvershootIsExact`.
* A waiter for a primary key can miss its wake-up, exactly when its second look finds the key taken again:
  `PrimaryKeyClaims.WakeUpsLostExactlyWhenStale`.
* On Windows, an update that starts when the program is missing from its own path deletes the copy kept next to it:
  `SelfUpdate.Disk.ReplaceInstalledBinary`.

## Model

| member | source | states |
|---|---|---|
| ConnectionGuards.IpState.IsBanned | backend/src/connection_guard.rs:34-45 | answers with the ban exactly while now is before its end, and forgets a ban that has ended |
| ConnectionGuards.IpState.CheckRequest | backend/src/connection_guard.rs:134-161 | the object's new counters, ban and answer are those of the record function the run theorems are about |
| ConnectionGuards.IpState.RegisterConnection | backend/src/connection_guard.rs:171-203 | the same for registering a connection on one record |
| ConnectionGuards.ConnectionGuard.GetOrCreateState | backend/src/connection_guard.rs:105-109 | an address without a record gets a fresh one; all other records are untouched |
| ConnectionGuards.ConnectionGuard.CheckRequest | backend/src/connection_guard.rs:116-162 | the guard as a whole moves and answers as `Step`: disabled, oversized body and loopback first, and no other address changes |
| ConnectionGuards.ConnectionGuard.RegisterConnection | backend/src/connection_guard.rs:164-204 | the same for `register_connection` |
| ConnectionGuards.ConnectionGuard.UnregisterConnection | backend/src/connection_guard.rs:206-221 | the count of a known address goes down by one but not below zero; an unknown address stays unknown |
| ConnectionGuards.ConnectionGuard.IsBanned | backend/src/connection_guard.rs:223-226 | the answer, and the lazy clearing it causes, are those of `Step` |
| ConnectionGuards.ConnectionGuard.BanIp | backend/src/connection_guard.rs:228-234 | a manual ban ends `duration` from now and counts as ten violations, also for an address not seen before |
| ConnectionGuards.ConnectionGuard.UnbanIp | backend/src/connection_guard.rs:236-241 | the ban of a known address is gone, its counters stay |
| ConnectionGuards.ConnectionGuard.GetStats | backend/src/connection_guard.rs:243-263 | for every order of visiting, the totals count each visited record as it is when visited, and only ended bans are cleared |
| GuardRules.CheckRequestRules | backend/src/connection_guard.rs:116-162 | the answer and the whole new guard for every request, with limits and bans as numbers: off, too large, loopback, banned, granted, refused below ten violations, in each ten, and from sixty on |
| GuardRules.RegisterConnectionRules | backend/src/connection_guard.rs:164-204 | the same for a connection: refused at the limit, banned for one duration from the fifth violation on |
| GuardRules.OtherCallRules | backend/src/connection_guard.rs:206-241 | the same for closing a connection, asking for a ban, banning and unbanning by hand, and losing a record |
| GuardRules.StatsAreTotals | backend/src/connection_guard.rs:243-263 | for every order of visiting all addresses, the statistics are the number of addresses and the sums of bans in force, connections and violations, and each record then keeps a ban in force and forgets an ended one |
| GuardModel.StepOnRecord | backend/src/connection_guard.rs:116-263 | what any call of anyone can do to the record of one address: a counted violation starts no earlier than the end of its ban, adds one and bans for one duration per full ten violations, at most six, or, for connections, for one duration from the fifth on; anything else at most forgets an ended ban |
| GuardModel.RunKeepsEarliest | backend/src/connection_guard.rs:116-263 | over any run, the instant from which an address can next be punished never moves back |
| GuardModel.ViolationSpacing | backend/src/connection_guard.rs:134-204 | a later violation of an address starts no earlier than the end of an earlier one plus the ban of so many durations that earlier one earned, whatever calls lie between |
| GuardModel.RunKeepsPaid | backend/src/connection_guard.rs:134-204 | over any run, time passed pays for one ban duration per violation after the tenth, and the recorded violations grow by exactly the refusals given |
| GuardModel.ViolationBound | backend/src/connection_guard.rs:134-204 | from a clean record, any run refuses an address at most 10 + elapsed / ban duration times |
| GuardModel.ViolationBoundIsSharp | backend/src/connection_guard.rs:134-204 | for every configuration and every number k of ban durations some run of that length reaches 10 + k refusals |
| GuardRefinement.StepRefines | backend/src/connection_guard.rs:34-54 | one call on the guard that clears bans lazily answers as one that never clears and only compares times |
| GuardRefinement.PlainKeepsBans | backend/src/connection_guard.rs:34-45 | that one really never forgets a ban unless it is told to |
| GuardRefinement.LazyExpiryRefinesComparison | backend/src/connection_guard.rs:34-54 | every run under every non-decreasing clock gets the same answers from both |
| GuardRefinement.QuestionsAreInvisible | backend/src/connection_guard.rs:223-263 | if any `is_banned` and `get_stats` calls are left out of a run, every call that stays is answered as before, call by call |
| GuardRefinement.BanHolds | backend/src/connection_guard.rs:116-204 | while an address is banned until u, every attempt of it in any run is answered with that same u, and of its record only closed connections change |
| ConnectionRace.LimitUnderOverlap | backend/src/connection_guard.rs:164-221 | with at most k registrations under way at once, connections plus registrations past the test stay within max - 1 + k; without overlap the limit itself holds |
| ConnectionRace.ThreadsBoundOverlap | backend/src/connection_guard.rs:164-221 | T threads never have more than T registrations past the test |
| ConnectionRace.LimitUnderThreads | backend/src/connection_guard.rs:164-221 | for every interleaving of T threads, connections plus registrations past the test stay within max - 1 + T, and at zero when max is zero |
| ConnectionRace.OvershootIsExact | backend/src/connection_guard.rs:181-203 | for every limit and every T some interleaving reaches max - 1 + T connections, so the bound is sharp |
| ConnectionRace.StepsAreCalls | backend/src/connection_guard.rs:164-221 | without interference the load and the add of the race are one registration of the guard, and its close one deregistration |
| Staging.StagingIsNotDestination | cli/src/fs_atomic.rs:94-98 | a staging name is never the destination's own name |
| Staging.StagingNameForms | cli/src/fs_atomic.rs:94-98 | the staging name replaces the extension, or is added where there is none, also for a name that only begins with a dot |
| Staging.TagsKeepApart | cli/src/fs_atomic.rs:94-98 | two calls for one destination stage in the same file exactly if they drew the same tag |
| Staging.OneDestinationIsSeparate | cli/src/fs_atomic.rs:94-98 | one destination always meets the assumption that no staging name is a destination |
| AtomicWrite.SyncedFilesNeverChange | cli/src/fs_atomic.rs:76-116 | no step of any writer, reader or power loss changes the bytes of a synced file |
| AtomicWrite.StepKeepsInv | cli/src/fs_atomic.rs:76-116 | each step keeps: staging files have one owner, every directory the disk may fall back to shows whole synced files at the destinations, readers see whole files |
| AtomicWrite.RunKeepsInv | cli/src/fs_atomic.rs:76-116 | so does every interleaving of writers, readers, kills and power losses |
| AtomicWrite.ReadsAreWhole | cli/src/fs_atomic.rs:56-92 | a finished read of a destination returns what the file held when opened, which is its first bytes or all bytes of one call |
| AtomicWrite.DestinationsStayWhole | cli/src/fs_atomic.rs:76-116 | in every reachable state, also right after a power loss, a destination holds its first bytes or all bytes of one call, and never disappears |
| AtomicWrite.RenameInstallsOwnBytes | cli/src/fs_atomic.rs:85-91 | the rename that ends a successful call installs the caller's own complete bytes and touches no other destination |
| AtomicWrite.OnlyRenameChangesDestination | cli/src/fs_atomic.rs:76-116 | nothing else but a power loss changes what a destination holds |
| AtomicWrite.LossGoesBack | cli/src/fs_atomic.rs:85-110 | the directory is never synced, and the disk assumed is no kinder than that: after any run a power loss can bring back the directory of any moment of the run |
| AtomicWrite.LossIsArbitrary | cli/src/fs_atomic.rs:76-116 | with it, a file whose writer had not synced it yet can come back with any bytes |
| AtomicWrite.WriterCanGoOn | cli/src/fs_atomic.rs:76-116 | no writer waits for another: in every reachable state each can create under any tag, append any further piece, sync, rename or clean up, whichever is next |
| AtomicWrite.StepsAreLocal | cli/src/fs_atomic.rs:76-116 | a step of one process changes no other process, and only a sync makes a file safe |
| AtomicWrite.EndingRules | cli/src/fs_atomic.rs:76-116 | a kill touches no file; a power loss ends every call that had begun and every read under way |
| AtomicWrite.DeadStayDead | cli/src/fs_atomic.rs:76-116 | in any run, a call that was ended does nothing more |
| AtomicWrite.CallsCanBeRefused | cli/src/fs_atomic.rs:83-91 | every call a writer makes can be refused, which changes no file; only a refused rename is followed by a removal |
| AtomicWrite.OnlyRenameSucceeds | cli/src/fs_atomic.rs:76-92 | a call reports success by its rename and by no other step |
| AtomicWrite.ReadCanFinish | cli/src/fs_atomic.rs:56-92 | a reader can always read on to the end and then has all of its file, so the statement on reads is not empty |
| AtomicWrite.AnyoneCanRead | cli/src/fs_atomic.rs:56-74 | from any state a reader can open any name and alone gets what is there |
| PlainWrite.StepKeepsInv | cli/src/fs_atomic.rs:76-116 | each step without a clash and without a power loss after a rename keeps: a file being written has one writer and one name, destinations and their readers have files nobody writes to |
| PlainWrite.RunKeepsInv | cli/src/fs_atomic.rs:76-116 | so does every careful interleaving, and after a rename some destination is not safe on disk |
| PlainWrite.ReadsAreWhole | cli/src/fs_atomic.rs:56-115 | in every careful run a finished read of a destination returns its first bytes or all bytes of one call |
| PlainWrite.DestinationsStayWhole | cli/src/fs_atomic.rs:76-115 | in every state of a careful run a destination holds its first bytes or all bytes of one call, and never disappears |
| PlainWrite.ClashCanTear | cli/src/fs_atomic.rs:112-115 | wherever a careful run has come to, an open that clashes can leave any number of leading bytes of its call at the other call's destination |
| PlainWrite.TornFromStart | cli/src/fs_atomic.rs:94-115 | from every initial state, two calls for one destination that draw the same name can leave any leading piece of one there |
| PlainWrite.LossCanTear | cli/src/fs_atomic.rs:112-115 | wherever a careful run with a rename has come to, a power loss can leave any bytes at a destination, because nothing was synced |
| PlainWrite.LossGoesBack | cli/src/fs_atomic.rs:112-115 | after any run a power loss can bring back the directory of any moment of the run |
| PlainWrite.LossIsArbitrary | cli/src/fs_atomic.rs:112-115 | with it, a file that a live call of a careful run has written can come back with any bytes |
| PlainWrite.WriterCallRules | cli/src/fs_atomic.rs:76-115 | what each call does to the files: an open empties the file under the staging name or makes one, a write goes on from its own position, a rename moves the name, a clean-up removes it |
| PlainWrite.WriterCanGoOn | cli/src/fs_atomic.rs:76-115 | no call waits for another: each can open under any tag, write any further piece, close, rename as long as its staging file is there, or clean up |
| PlainWrite.StepsAreLocal | cli/src/fs_atomic.rs:76-115 | a step of one process changes no other process, and no step makes a file safe |
| PlainWrite.EndingRules | cli/src/fs_atomic.rs:76-115 | a kill touches no file; a power loss ends every call that had begun and every read under way |
| PlainWrite.DeadStayDead | cli/src/fs_atomic.rs:76-115 | in any run, a call that was ended does nothing more |
| PlainWrite.CallsCanBeRefused | cli/src/fs_atomic.rs:83-91 | every call a writer makes can be refused, which changes no file; only a refused rename is followed by a removal |
| PlainWrite.OnlyRenameSucceeds | cli/src/fs_atomic.rs:76-92 | a call reports success by its rename and by no other step |
| PlainWrite.ReadCanFinish | cli/src/fs_atomic.rs:56-115 | a reader can always read on to the end and then has all of its file |
| PlainWrite.AnyoneCanRead | cli/src/fs_atomic.rs:56-74 | from any state a reader can open any name and alone gets what is there |
| PlainWrite.WriteAtRules | cli/src/fs_atomic.rs:112-115 | a write replaces the bytes from its position on, after zeros up to it, and leaves those before and behind |
| AtomicCall.FileSystem.WriteAtomic | cli/src/fs_atomic.rs:76-92 | succeeds exactly when the staging name is free and no request is refused, and then only the destination differs; a failure never touches the destination and leaves at most a leading piece of the bytes under the staging name |
| AtomicCall.FileSystem.FillStaging | cli/src/fs_atomic.rs:100-111 | the staging file holds the bytes that fit, and success means all of them, synced |
| AtomicCall.CallIsRun | cli/src/fs_atomic.rs:76-116 | a call without interference is a run of the concurrent machine with the same outcome, whatever is refused |
| SelfUpdate.SiblingsAreDistinctArtifacts | cli/src/self_update.rs:47-48 | the two siblings are the program's name with the process id and the suffix .kalam-old or .kalam-new; they differ from each other and from the program, and the cleanup recognises them but not the program |
| SelfUpdate.ArtifactsExactly | cli/src/self_update.rs:79-101 | an artifact is a name that goes on after the program's with a dot and ends in one of the two suffixes, and nothing else is |
| SelfUpdate.SiblingsOfProcesses | cli/src/self_update.rs:103-112 | processes with different ids use different siblings |
| SelfUpdate.Disk.RetryRename | cli/src/self_update.rs:114-129 | succeeds exactly when the file exists and one of the ten attempts is not refused; nothing changes before it does |
| SelfUpdate.Disk.Copy | cli/src/release_download.rs:254-255 | exact success condition; at every moment of the copy only the destination differs from before, and the moments are those with the first 0, 1, 2, ... bytes there |
| SelfUpdate.Disk.CopyExecutable | cli/src/release_download.rs:247-266 | the same with a refusal to make the directory or to set the mode as further failures, each with its cause |
| SelfUpdate.Disk.MoveAside | cli/src/self_update.rs:46-58 | succeeds exactly if the program is there and one of the ten attempts after the two removals is granted; the old program is at its path or aside at every moment; nothing but the two siblings and the program is touched |
| SelfUpdate.Disk.RollBack | cli/src/self_update.rs:60-70 | the old program is back at its path exactly when one of the ten attempts is not refused, and is never lost; everything else stays |
| SelfUpdate.Disk.CopyOrRollBack | cli/src/self_update.rs:60-64 | exact success condition; the old program is kept at every moment, and after a failed copy it is back exactly unless the ten requests that follow are refused |
| SelfUpdate.Disk.RenameIn | cli/src/self_update.rs:66-76 | succeeds exactly unless ten requests are refused, and then the new program is at the path for good; after a failure the copy is removed first and the old program is back exactly unless the next ten are refused |
| SelfUpdate.Disk.InstallCopy | cli/src/self_update.rs:60-76 | exact success condition; success installs the complete new program and the old one is kept until then; failure has a cause and keeps the old program at every moment |
| SelfUpdate.Disk.ReplaceByRenamingAside | cli/src/self_update.rs:45-77 | exact success condition in terms of the requests granted; for every pattern of refusals and a crash at any moment the old bytes are at the path or its sibling until the new program is there for good; an error leaves the old program in place unless ten requests in a row were refused; no other file changes, and nothing is left over if nothing is refused |
| SelfUpdate.Disk.ReplaceByRenameOver | cli/src/self_update.rs:32-43 | exact success condition; at every moment the path holds the old program or the complete new one, and no other file but the copy beside it changes |
| SelfUpdate.Disk.CleanupStaleArtifacts | cli/src/self_update.rs:79-101 | makes one request for each listed artifact, removes all of them unless refused, and touches nothing else at any moment |
| SelfUpdate.Disk.ReplaceInstalledBinary | cli/src/self_update.rs:18-30 | on both systems the exact success condition after the requests of the cleanup: with the new program there and nothing refused it succeeds, on Windows unless the program is missing from its path; the guarantees of the replacement hold for the whole operation, cleanup included; listed artifacts are gone afterwards if nothing is refused, and files that are no artifacts stay; on Windows, if the program is not at its path to begin with, the copies next to it are deleted and the operation fails |
| TransactionRegistry.RunKeepsInv | backend/benches/backend_session_block_latency.rs:18-97 | every interleaving of begin and finish, at every point where either lock changes hands, keeps: owner entries are backed by handles or by a call in progress, handles are owned, locks match |
| TransactionRegistry.OneLiveTransactionPerOwner | backend/benches/backend_session_block_latency.rs:26-56 | at any point of any run two handles of one owner are the same transaction |
| TransactionRegistry.FinishClearsOwnEntry | backend/benches/backend_session_block_latency.rs:82-97 | when a finish reaches the owner map, the entry found there is its own transaction's and removing it removes nothing else |
| TransactionRegistry.QuiescentMapsAreInverse | backend/benches/backend_session_block_latency.rs:18-97 | whenever no call is in progress the two maps are exact inverses |
| TransactionRegistry.FinishedStaysFinished | backend/benches/backend_session_block_latency.rs:82-97 | a finished transaction never comes back, as ids are fresh |
| TransactionRegistry.SecondFinishIsNoOp | backend/benches/backend_session_block_latency.rs:82-97 | another finish of a transaction, any time later, from any thread and however interleaved, changes neither map |
| TransactionRegistry.NoDeadlock | backend/benches/backend_session_block_latency.rs:26-97 | with both locks modelled as held across steps, some call in progress can always take its next step |
| TransactionRegistry.OnlyLocksDelay | backend/benches/backend_session_block_latency.rs:26-97 | the next step of a call is possible exactly when the lock it asks for is free, and no step moves another thread |
| TransactionRegistry.BeginIsRun | backend/benches/backend_session_block_latency.rs:26-56 | a begin without interference is a run of the machine that adds exactly one entry to each map |
| TransactionRegistry.FinishIsRun | backend/benches/backend_session_block_latency.rs:82-97 | so is a finish, which removes exactly the entries of its transaction |
| TransactionRegistry.IdleCallsAreRuns | backend/benches/backend_session_block_latency.rs:26-97 | so are a refused begin and a finish of an unknown transaction, which change no map |
| TransactionRegistry.TransactionEngine.Begin | backend/benches/backend_session_block_latency.rs:26-56 | succeeds exactly for an owner without a transaction and adds exactly one entry to each map; otherwise nothing changes |
| TransactionRegistry.TransactionEngine.Finish | backend/benches/backend_session_block_latency.rs:82-97 | both maps lose exactly the entries of this transaction |
| TransactionRegistry.TransactionEngine.BeginThenFinish | backend/benches/backend_session_block_latency.rs:103-115 | a begin followed by its finish restores both maps |
| TransactionRegistry.TransactionEngine.ActiveForOwner | backend/benches/backend_session_block_latency.rs:66-71 | an owner is active exactly if some live handle is its own, and the answer is that handle |
| TransactionRegistry.TransactionEngine.GetHandle | backend/benches/backend_session_block_latency.rs:73-78 | a handle is found exactly while its transaction is the active one of its owner |
| PrimaryKeyClaims.RunKeepsInv | backend/crates/kalamdb-transactions/src/pk_claims.rs:39-97 | every interleaving keeps: holders are the owners on record, notifiers are never reused |
| PrimaryKeyClaims.KeyHasOneOwner | backend/crates/kalamdb-transactions/src/pk_claims.rs:36-69 | two calls that hold a key at the same time belong to the same transaction |
| PrimaryKeyClaims.LookRules | backend/crates/kalamdb-transactions/src/pk_claims.rs:45-61 | a look takes a free key, is content with its owner's own, and otherwise remembers the notifier it found; no other claim changes |
| PrimaryKeyClaims.RegisterRules | backend/crates/kalamdb-transactions/src/pk_claims.rs:62-67 | a task registers with the notifier it saw and has not heard it yet, and a woken task starts over; nothing else changes |
| PrimaryKeyClaims.LookAgainRules | backend/crates/kalamdb-transactions/src/pk_claims.rs:62-68 | the second look sleeps exactly if the key is another's, still registered as before, and otherwise starts over |
| PrimaryKeyClaims.ReleaseRules | backend/crates/kalamdb-transactions/src/pk_claims.rs:72-97 | releasing one key or all keys drops exactly the claims that are the owner's |
| PrimaryKeyClaims.ReleaseEndsHolding | backend/crates/kalamdb-transactions/src/pk_claims.rs:72-97 | a release ends the holding of the keys it drops and leaves alone whoever does not wait |
| PrimaryKeyClaims.WakingRules | backend/crates/kalamdb-transactions/src/pk_claims.rs:80-97 | a registered task is woken by a release exactly if the claim of its notifier is dropped |
| PrimaryKeyClaims.ReleaseWakesWaiter | backend/crates/kalamdb-transactions/src/pk_claims.rs:44-97 | in every interleaving: a task that waits while one claim of another owner stays on its key does not get the key before, and the release of that claim wakes it, or its second look finds the key free |
| PrimaryKeyClaims.StrandedForever | backend/crates/kalamdb-transactions/src/pk_claims.rs:62-67 | a waiter asleep on the notifier of a claim that is gone is never woken again |
| PrimaryKeyClaims.StrandingStep | backend/crates/kalamdb-transactions/src/pk_claims.rs:62-67 | a step leaves a waiter in that position exactly when it is its second look and finds the key under a newer claim of another owner |
| PrimaryKeyClaims.WakeUpsLostExactlyWhenStale | backend/crates/kalamdb-transactions/src/pk_claims.rs:39-97 | a run from the start loses a wake-up if and only if it contains such a second look |
| PrimaryKeyClaims.SleeperIsServed | backend/crates/kalamdb-transactions/src/pk_claims.rs:39-97 | in every run without such a second look each sleeper's key is on record with the notifier it hears, and once its owner lets go the sleeper can wake and take the key |
| PrimaryKeyClaims.WakeUpCanBeLost | backend/crates/kalamdb-transactions/src/pk_claims.rs:44-68 | with three transactions such a run exists |
| TableLayout.LevelIsUnique | cli/src/formatter.rs:350-370 | two fair layouts of the same columns with the same total are the same layout |
| TableLayout.LevelIsFair | cli/src/formatter.rs:350-370 | no layout within the same total gives a shrunk column more without taking from a column that then has less than it |
| TableLayout.MinimumIsShared | cli/src/formatter.rs:351-366 | no column is shrunk below 6 while another is above 6 |
| TableLayout.WidestAbove | cli/src/formatter.rs:351-356 | finds the last of the widest columns above the floor, or none exactly when there is none |
| TableLayout.ChooseColumn | cli/src/formatter.rs:350-368 | while the columns overflow, the two-tier choice is always the last of the widest columns, so the loop never breaks off |
| TableLayout.CapAll | cli/src/formatter.rs:342-348 | every width is capped at 32, in place |
| TableLayout.FitWidths | cli/src/formatter.rs:330-372 | widths that fit are untouched; otherwise they are capped and, if still too wide, sum to exactly the available space with every shrunk column within one of every wider one |
| TableLayout.Available | cli/src/formatter.rs:330-337 | the space left after three characters per column and one more, but never less than one character per column |
| TableRender.CellHasColumnWidth | cli/src/formatter.rs:77-87 | a drawn cell has exactly the column's width in characters, also where truncation counted bytes, and a value that fits is shown whole |
| TableRender.CellShows | cli/src/formatter.rs:77-87 | a value that fits is shown whole and padded; another shows its first characters and three dots, or no dots in a column of at most three |
| TableRender.CellStandsAt | cli/src/formatter.rs:394-434 | in a row, the cell of each column stands at that column's offset, between a space and a space and a bar |
| TableRender.CornerStandsAt | cli/src/formatter.rs:374-434 | in a border, each column is a dash for every character of its cells and then its corner |
| TableRender.TableShowsAll | cli/src/formatter.rs:374-434 | the lines are a border, the names, a border, one line per row with each value in its own column and NULL for a missing one, and a border |
| TableRender.LinesAreShown | cli/src/formatter.rs:374-434 | the text splits into exactly these lines if none has a break |
| TableRender.TextShowsAll | cli/src/formatter.rs:374-434 | the text is one line after the other of the same length, with line breaks in cells or without, and line r shows the r-th border, names or row, each value in its own column |
| TableRender.LinesAreEven | cli/src/formatter.rs:374-434 | every border, header and data line has sum of widths + 3n + 1 characters |
| TableRender.FitsTerminal | cli/src/formatter.rs:330-372 | fitted lines are no longer than a terminal of at least 4n + 1 columns, and exactly as long when columns had to be shrunk |
| TableRender.EvenExactlyWithoutBreaks | cli/src/formatter.rs:374-434 | the text falls apart into lines of that length if and only if no drawn line has a line break inside |
| TableRender.ShownTableIsEven | cli/src/formatter.rs:374-434 | the shown table is even if and only if no drawn cell, after truncation, has a line break |
| TableRender.NothingIsCut | cli/src/formatter.rs:312-372 | when the natural widths fit, every header and cell is shown in full, also in a table without rows |
| TableRender.BrokenCellShows | cli/src/formatter.rs:312-434 | then a line break in any cell makes the shown table uneven |
| TableRender.DrawBrokenTable | cli/src/formatter.rs:312-434 | one such table, drawn on a terminal of 80 columns |
| TableRender.MeasureColumns | cli/src/formatter.rs:312-328 | each measured width is the largest byte length in its column, header included |
| TableRender.NaturalWidthIsLargest | cli/src/formatter.rs:312-328 | no name or value of the column is longer, and one is just as long |
| TableRender.DrawTable | cli/src/formatter.rs:312-434 | the text has a line of the same length for each border, the names and each row, in that order, with every name and value in its own line and column, for the natural widths fitted to the terminal; also when cells have line breaks |
| Csv.ReadField | cli/src/formatter.rs:690-702 | a reader by section 2 of RFC 4180 gets back any cell text, with commas, quotes and newlines |
| Csv.FieldIsMinimal | cli/src/formatter.rs:690-702 | a cell is written as it is exactly if it has no comma, quote or line feed |
| Csv.ReadRecord | cli/src/formatter.rs:487-500 | and any record of at least one cell |
| Csv.ReadUndoesWrite | cli/src/formatter.rs:487-500 | and the whole table: as many rows and columns, each cell with its own text, missing cells as empty |
| Csv.OutputIsUnambiguous | cli/src/formatter.rs:464-503 | tables with equal output have the same number of rows and the same texts in them, a missing cell counting as empty |
| Csv.NoColumnsNoRoundTrip | cli/src/formatter.rs:464-503 | without columns the rows can be read back if and only if there are none |
| Csv.HeaderReadsOther | cli/src/formatter.rs:484-485 | the first column name with a comma, quote or line feed is never read as itself |
| Csv.DocumentReadsBack | cli/src/formatter.rs:464-503 | the whole output reads back, names and every single cell, if and only if there are columns and rows and every column name is plain |
| Csv.FormatCsv | cli/src/formatter.rs:464-503 | the loop writes the names as they are and then data that reads back cell by cell; nothing without rows, and only empty lines without columns |
| History.EncodedEntryIsPlain | cli/src/history.rs:223-230 | an encoded entry has nothing to trim, cannot touch the delimiter, and is empty only for an empty entry |
| History.LoadUndoesSave | cli/src/history.rs:211-236 | loading after saving returns the newest entries up to the limit without the empty ones, for all texts |
| History.LoadKeepsNewest | cli/src/history.rs:176-196 | a file written under one limit and read under another gives the last of its entries, as many as the new limit allows |
| History.PaddedEntryIsRead | cli/src/history.rs:292-297 | white space around a stored entry does no harm |
| History.SavedTextRules | cli/src/history.rs:211-236 | the file is the base64 of each entry's UTF-8, one after the other with a delimiter line between |
| History.FileIsReadByParts | cli/src/history.rs:287-291 | a file of parts without line breaks is read part by part |
| History.DecodedIsEncoding | cli/src/history.rs:292-300 | a part is read as an entry only if it is the encoding of that entry, which is not empty |
| History.DamageIsSkipped | cli/src/history.rs:287-300 | a damaged part is passed over, and all entries before and after it are read |
| History.ApplyKeepsLoaded | cli/src/history.rs:238-285 | each operation keeps the limit and invents no entry |
| History.MoveToEndIsExact | cli/src/history.rs:271-285 | the command ends up once and last; only the oldest other entry can be lost, exactly when the list was full without the command |
| History.WithoutKeepsOthers | cli/src/history.rs:276-277 | what `retain` leaves has exactly the other entries |
| History.WithoutKeepsOrder | cli/src/history.rs:276-277 | and has all of them at rising old places, so in their old order |
| History.AppendIsExact | cli/src/history.rs:238-256 | an append changes nothing for a command that may not be stored or is the last already, and otherwise adds it last and loses at most the oldest entry |
| History.RunKeeps | cli/src/history.rs:238-285 | every run stays within the limit, and keeps neighbours different as long as no move joins |
| History.MoveKeepsNeighboursExactly | cli/src/history.rs:271-285 | a move keeps neighbours different if and only if its command stands nowhere alone between two equal entries |
| History.NeighboursDifferExactly | cli/src/history.rs:238-285 | all lists of a run have different neighbours if and only if none of its moves finds its command so |
| History.RunsWithoutMovesJoinNothing | cli/src/history.rs:238-264 | so runs of appends and clears never hold two equal neighbours |
| History.MoveCanJoinEqualNeighbours | cli/src/history.rs:238-285 | a run of three appends and a move that ends with equal neighbours, for any two storable commands |
| HistoryPolicy.LetterIsStored | cli/src/history.rs:74-116 | commands of one letter are storable, so there is such a run |
| HistoryPolicy.StorableExactly | cli/src/history.rs:74-116 | a command is kept exactly if it is not blank, does not call one of the eight meta commands, alone or with arguments, and has none of the eight words anywhere in it, whatever the case |
| HistoryPolicy.SecretAnywhere | cli/src/history.rs:74-116 | so each word without a space at its end, at any place and in any case, keeps a command out |
| HistoryPolicy.SecretWithin | cli/src/history.rs:74-116 | and so does each of the eight words, if it does not stand in the white space around the command |
| HistoryPolicy.BlankIsNotStorable | cli/src/history.rs:74-116 | blank commands are never kept |
| History.NothingSensitiveStored | cli/src/history.rs:74-116 | if only storable or stored commands are moved, no run ever has a command in its list that must not be stored, by that rule |
| History.Retain | cli/src/history.rs:276-277 | the loop leaves exactly what the lemmas on `Without` are about |
| History.CommandHistory.Load | cli/src/history.rs:176-196 | a missing file is an empty history, text that is not UTF-8 an error, and what is loaded is within the limit and has no empty entry |
| History.CommandHistory.Save | cli/src/history.rs:211-236 | the next load sees the newest entries without the empty ones; a refused write leaves the file alone |
| History.CommandHistory.Append | cli/src/history.rs:238-256 | exact success condition; a command that may not be stored leaves the file alone; the next load sees the list operation the run theorems are about |
| History.CommandHistory.DeduplicateAndMoveToEnd | cli/src/history.rs:271-285 | the same for moving a command to the end |
| History.CommandHistory.ClearHistory | cli/src/history.rs:258-264 | the same for clearing, which also succeeds without a file |
| Base64.DecodeUndoesEncode | cli/src/history.rs:223-230 | the decoder of section 4 of RFC 4648 gives back any bytes |
| Base64.DecodesExactly | cli/src/history.rs:294-297 | it accepts exactly what the encoder writes, so no second text stands for the same bytes |
| Base64.EncodeAlphabet | cli/src/history.rs:223-230 | the encoding uses only the alphabet and padding |
| Base64.SymbolInTable | cli/src/history.rs:223-230 | each value has its character of the standard table |
| Base64.GroupMeaning | cli/src/history.rs:223-230 | three bytes are the four digits of their number to the base of 64, first digit first |
| Base64.ShortGroupMeaning | cli/src/history.rs:223-230 | a last group of one or two bytes is encoded as if followed by zeros, with padding for their characters |
| Base64.GroupByGroup | cli/src/history.rs:223-230 | the encoding goes on group by group |
| Utf8.DecodeUndoesEncode | cli/src/history.rs:294-297 | the bytes of any text decode to it |
| Utf8.DecodesExactly | cli/src/history.rs:294-297 | bytes decode to a text if and only if they are its encoding |
| Utf8.CharMeaning | cli/src/history.rs:223-230 | a character is one to four bytes by its size, its bits six to a byte behind the right first byte |
| Utf8.EncodeConcat | cli/src/history.rs:223-230 | texts are encoded character by character |
| Text.SplitUndoesJoin | cli/src/history.rs:287-291 | splitting at the delimiter undoes joining for parts without its first character |
| Identifiers.SplitIdentifierParts | cli/src/identifiers.rs:15-57 | the character loop computes the recursive scanner, errors included, for every input |
| Identifiers.UnquotedNamesSplit | cli/src/identifiers.rs:15-57 | two names without quotes are split at the dot and trimmed |
| Identifiers.QuotesInsideAName | cli/src/identifiers.rs:15-57 | a quoted piece inside a name is taken as it is, with the rest of the name |
| Identifiers.UnclosedQuoteIsRefused | cli/src/identifiers.rs:15-57 | a quote that is never closed is an error |
| Identifiers.ScanPrinted | cli/src/identifiers.rs:129-147 | scanning a printed name, quoted or not, collects the name itself |
| Identifiers.ParsePrinted | cli/src/identifiers.rs:104-126 | parsing a printed name gives its parts trimmed, or an error when one is blank |
| Identifiers.DecorationIsStripped | cli/src/identifiers.rs:11-13 | white space, semicolons and white space again are stripped from the end and white space from the start, and nothing of the target |
| Identifiers.DecoratedNameParses | cli/src/identifiers.rs:66-126 | a printed name with all that around it is parsed as the name |
| Identifiers.NothingIsNoTarget | cli/src/identifiers.rs:66-86 | white space and semicolons alone name no table |
| Identifiers.OneNameParses | cli/src/identifiers.rs:66-86 | one name, written in any quoted and unquoted pieces and decorated, is a table of that name trimmed, or an error if it is blank |
| Identifiers.TwoNamesParse | cli/src/identifiers.rs:66-86 | two such names with a dot between are a namespace and a table, or an error if one is blank |
| Identifiers.MoreNamesAreRefused | cli/src/identifiers.rs:66-86 | with another dot after two names the target is refused, whatever follows; a blank name or an open quote is reported first |
| Identifiers.BareNameParses | cli/src/identifiers.rs:66-126 | a single name without quotes and dots is a table as it stands, also where it would be printed in quotes |
| Identifiers.UnqualifiedParses | cli/src/identifiers.rs:66-126 | one printed name is a table without a namespace, which is an error where one is required |
| Identifiers.ThreeNamesAreRefused | cli/src/identifiers.rs:66-86 | three printed names are an error |
| Identifiers.PrintedPlainExactly | cli/src/identifiers.rs:129-147 | a name is printed without quotes exactly if it is a letter or underscore followed by letters, digits and underscores |
| Identifiers.PrintParseRoundTrip | cli/src/identifiers.rs:104-126 | printing then parsing returns the pair if and only if both names are non-empty and trimmed |
| Identifiers.PartsAreNames | cli/src/identifiers.rs:15-57 | every accepted part is non-empty and trimmed |
| Identifiers.TargetIsNamed | cli/src/identifiers.rs:66-86 | so are the names of every accepted target |
| Identifiers.ParseIsStable | cli/src/identifiers.rs:104-126 | for every accepted input, parsing what was printed gives the same result |
| Identifiers.QualifiedTargetSurvives | cli/src/identifiers.rs:88-94 | any accepted target, qualified with a proper default, survives printing and parsing |
| Identifiers.QualifyKeepsTarget | cli/src/identifiers.rs:88-94 | the namespace of the target wins over the default |
| Releases.ComparePrereleases | scripts/resolve-latest-release-asset.py:93-100 | the early-exit loop computes the recursive comparison |
| Releases.IdentifierMeaning | scripts/resolve-latest-release-asset.py:68-77 | one identifier precedes another as section 11 of SemVer 2.0.0 says, numeric ones by value |
| Releases.IdentifierRules | scripts/resolve-latest-release-asset.py:68-77 | the same without values: numerals by length and then by digits, leading zeros aside, before all other texts, and these by character |
| Releases.PrereleaseMeaning | scripts/resolve-latest-release-asset.py:93-100 | identifier lists are compared at their first difference, a longer list after its prefix |
| Releases.CompareSemVerMeaning | scripts/resolve-latest-release-asset.py:80-100 | the sign is the precedence of section 11 of SemVer 2.0.0, zero exactly for equal cores and identifiers that agree |
| Releases.SemVerOrder | scripts/resolve-latest-release-asset.py:80-100 | the comparison is antisymmetric and transitive |
| Releases.CandidatesFormPreorder | scripts/resolve-latest-release-asset.py:103-110 | so is the comparison of candidates, with unparseable ones below all others |
| Releases.CompareCandidateMeaning | scripts/resolve-latest-release-asset.py:103-110 | minus one exactly if the left version precedes the right one or only the right one is parsed, zero exactly if they are equivalent or both unparsed |
| Releases.Newest | scripts/resolve-latest-release-asset.py:113-114 | returns the first of the candidates whose version precedes no other candidate's |
| Releases.Select | scripts/resolve-latest-release-asset.py:125-138 | keeps exactly the candidates a reason fits, in their order |
| Releases.NewestFit | scripts/resolve-latest-release-asset.py:121-141 | the first newest of the candidates a reason fits, or none exactly if it fits none |
| Releases.ChooseCandidate | scripts/resolve-latest-release-asset.py:121-143 | the best reason that fits any candidate decides, and the first candidate it fits whose version precedes no other such is returned: the preferred version itself, its track of equal major and minor, any parsed version, the first listed |
| Manifest.EntryRepeats | scripts/versions.py:288-324 | rebuilding a rebuilt entry repeats it if and only if it had a version on record or the new version needs no stripping |
| ManifestRules.EntryHasFields | scripts/versions.py:288-324 | a rebuilt entry has the package's version and compatible core, the protocol, its dependencies if it has any, and exactly those other fields the old entry had |
| ManifestRules.PublishedRules | scripts/versions.py:288-307 | its published version is the one on record, or else the version on record, or else the new version |
| ManifestRules.SyncedEntry | scripts/versions.py:392-529 | every package of the files has such an entry in the synced manifest, built on its former one, and no others are there |
| ManifestRules.SyncRules | scripts/versions.py:371-529 | a sync names the new core as the latest and archives the old one at the end, with its date, if it is another and not archived yet |
| ManifestRules.SyncIsWritten | scripts/versions.py:392-529 | a sync is refused and changes nothing exactly if the files disagree; otherwise the built manifest takes the place of the old one, and the first one archives nothing |
| ManifestRules.StabilityRules | scripts/versions.py:180-195 | a version without a dash is stable, or dev for main; otherwise the letters after the first dash, in lower case and without digits after them, decide: alpha, beta, rc, themselves, or pre-release without letters |
| Manifest.SyncIsIdempotent | scripts/versions.py:392-529 | syncing twice equals syncing once if and only if that holds of every package |
| Manifest.PaddedVersionDoesNotSettle | scripts/versions.py:542-573 | a first sync with any version in surrounding whitespace is changed again by the next |
| Manifest.MarkSelected | scripts/versions.py:634-644 | the loop marks the selected packages as the function does, or fails on the first that is missing |
| Manifest.MarkAllKeepsOthers | scripts/versions.py:622-651 | packages that are not selected keep their entries |
| Manifest.MarkAllPublishes | scripts/versions.py:622-651 | every selected package has the given version as its published one |
| ManifestRules.MarkSucceedsExactly | scripts/versions.py:622-651 | marking succeeds exactly if every selected package exists and has a version to be marked with |
| ManifestRules.MarkedEntry | scripts/versions.py:622-651 | of a marked entry only the published version changes, to the stripped text given or on record |
| ManifestRules.MarkPublishedExactly | scripts/versions.py:622-651 | a mark of the manifest succeeds exactly if its group is an object and every selected package can be marked, and otherwise changes nothing |
| ManifestRules.MarkReachesSelected | scripts/versions.py:633-648 | then each selected entry differs in its published version only, which is the text it was to be marked with and is on record from then on |
| ManifestRules.MarkSparesOthers | scripts/versions.py:633-648 | and every other entry of the group is as before |
| ManifestRules.MarkTouchesOneGroup | scripts/versions.py:622-651 | of the manifest nothing else changes than the group marked |
| Manifest.SyncKeepsRecord | scripts/versions.py:288-324 | a sync keeps the version on record of every package it retains |
| Manifest.MarkKeepsRecord | scripts/versions.py:622-651 | marking other packages keeps it too |
| Manifest.RecordChangesOnlyByMark | scripts/versions.py:288-651 | so over any run of syncs and marks it changes only by a mark that selects the package |
| Manifest.RunKeepsArchive | scripts/versions.py:371-389 | over any run the archive only grows and never archives a core twice if it began without duplicates |
| Manifest.ReplacedCoreStaysArchived | scripts/versions.py:371-389 | a latest core that is replaced is archived, exactly once, for the rest of any run |
| Metrics.SortSorts | benchv2/src/metrics.rs:77 | sorting gives a sorted permutation |
| Metrics.SortedIsUnique | benchv2/src/metrics.rs:77 | there is only one, so any correct sort gives the same statistics |
| Metrics.InterpolateRises | benchv2/src/metrics.rs:172-185 | the value at a fractional position never falls as the position moves on |
| Metrics.PercentileRises | benchv2/src/metrics.rs:172-185 | percentiles are in bounds, between the least and the greatest value, and rise with the percentage |
| Metrics.PercentileExact | benchv2/src/metrics.rs:172-185 | between two neighbouring ranks the percentile is on the line between the two measurements, at the rank of pct percent of n - 1 |
| Metrics.PercentileOfEnds | benchv2/src/metrics.rs:172-185 | the percentiles 0 and 100 are the first and the last measurement |
| Metrics.MedianIsMiddle | benchv2/src/metrics.rs:172-185 | the percentile 50 is the middle measurement, or the mean of the two in the middle |
| Metrics.PercentileIsDetermined | benchv2/src/metrics.rs:172-185 | these statements have exactly one solution |
| Metrics.PercentileOf | benchv2/src/metrics.rs:172-185 | computes it, and zero without measurements |
| Metrics.MeanIsBetween | benchv2/src/metrics.rs:81 | the mean lies between the least and the greatest value |
| Metrics.MeanOf | benchv2/src/metrics.rs:79-81 | the mean times the number is the sum |
| Metrics.VarianceOf | benchv2/src/metrics.rs:90-101 | the sample variance: times one less than the number it is the sum of squares less the number times the square of the mean |
| Metrics.VarianceOfDeviations | benchv2/src/metrics.rs:90-98 | that is the sum of squared deviations from the mean |
| Metrics.RateOf | benchv2/src/metrics.rs:104-109 | the rate per second times the total in microseconds is a million times the number |
| Metrics.FromDurations | benchv2/src/metrics.rs:70-130 | the summary has these values of the measurements in order, and zeros without measurements |
| Metrics.SummaryMedian | benchv2/src/metrics.rs:70-130 | its median is the middle measurement, or the mean of the two in the middle |
| Metrics.StatisticsAreOrdered | benchv2/src/metrics.rs:70-130 | min, median, p95, p99 and max are ordered, the mean is between, every measurement is between, and the variance is not negative |
| Metrics.OrderOfMeasurementsIsIrrelevant | benchv2/src/metrics.rs:70-130 | permuting the measurements changes no statistic |

## Left out

- The Raft, storage, SQL and job crates of the server, except the claims on primary keys: each is a subject of its own.
- The wiring around the guard (configuration, middleware, HTTP server, shutdown): fixed sequences of calls.
- The rate window inside the guard and the policy of its cache: an arbitrary boolean per call and an explicit eviction.
- Wrap-around of 32-bit counters and overflow of durations in the guard: counters are natural numbers.
- Interleaving of the other atomics of the guard: `ConnectionRace` covers the connection counter only.
- Lock poisoning, and the metadata stored in transaction handles.
- Cancellation of a waiting task in the primary-key claims.
- Sharing modes of open files on Windows: an open, rename or removal is refused at any time, or does what it says.
- File modes and rejection of symbolic links in atomic writes; hard links between the files a call can open, which the machine of `PlainWrite` excludes at the start.
- Deletion scheduled for after the exit of the process in the self-update.
- Resolution of the home directory, and reading errors of the history file other than text that is not UTF-8.
- Conversion of JSON values to cell texts, timestamps, the explain-plan table, and the row count and footer under a table.
- Parsing of version texts and collecting of candidates: versions are given parsed, or not at all.
- Digits and lower-casing outside ASCII in the Python scripts.
- The documentation section of the manifest, its JSON text, and the reading of package files: their agreement is one boolean.
- Rounding of floating point numbers, the square root of the variance, and the in-place update by the library sort: statistics are over real numbers and `Sort` is a function.
