# Oak-keyring: a verified model

A Dafny model of the parts of the Oak-keyring password vault whose correctness depends on the order
of steps, on interleaving, or on two pieces of code agreeing with each other. One module per
component, each in the form its source has: loops over buffers, lists and files are methods with
invariants, objects that update their fields are classes, protocols between processes or devices
are state machines whose runs are arbitrary sequences of steps.

| module | component |
|---|---|
| `SshWire`, `Signer`, `Identity`, `AgentServer` | the SSH agent: codec, signing layer, identity filter, request handling and connection loop |
| `IdleTimer`, `AgentIdle`, `AgentLifecycle` | the agent's idle lock, the lock together with the requests served, and the single-instance lifecycle over processes |
| `FileStore`, `DbRecovery`, `PendingVault` | the file system, the migration safety net of the vault database, and the speculative database behind an `.okb` restore |
| `BatchDownload`, `CloudObjects`, `MetadataCas` | the cloud store: download re-ordering, uploads and listing, metadata compare-and-swap |
| `HealthReport`, `HealthChecks` | the health report, its stored projection, and the breach-check skip rule over whole runs |
| `KeyHierarchy` | the keystore, password changes and record encryption |
| `PasswordStrength`, `PasswordGenerator` | the strength meter and the generators it rates |

Whatever the code cannot control is arbitrary: which file operations fail and when, in which order
tasks finish, what a peer sends, what the breach service answers, what the random source draws,
which step of which process or device comes next.

`dafny verify dfyconfig.toml` checks the project.

## What the code does not do

Where a property one would expect fails, the model keeps the code's behaviour, shows a run in which
it fails, and proves when it holds.

- The algorithm name in an audit row is the one in the signature exactly when the stored key's
  curve is the advertised one (`Signer.AuditNameIsBlobNameIff`); a key of another curve does sign
  (`Signer.MismatchedCurveSigns`).
- The idle lock can shut the agent down one tick after a signature
  (`IdleTimer.LateConsumptionShutsDownEarly`). It does exactly when a token is waiting as the timer
  fires and a signature fell after the window's start and less than a window ago
  (`IdleTimer.EarlyShutdownIff`, and for the replies sent `AgentIdle.EarlyShutdownIff`); with the
  channel empty it never does, dropped tokens or not (`IdleTimer.EmptyChannelMeansIdle`).
- The lock is per data directory and the socket path is not. Agents are safe from each other if and
  only if they share one directory (`AgentLifecycle.NobodyStealsIffOneDirectory`); any two of
  different directories can take each other's socket and pidfile
  (`AgentLifecycle.TwoDirectoriesCollide`).
- A socket or a pidfile can outlive its agent: `AgentLifecycle.SocketOutlivesIff` and
  `AgentLifecycle.PidFileOutlivesIff` say after exactly which steps. A failed chmod leaves the socket
  without its pidfile (`AgentLifecycle.FailedChmodLeavesSocket`).
- Opening the vault can report a foreign-key error after the migration has been applied; its snapshot
  is then gone, unless removing it failed (`DbRecovery.InitDb`).
- A crash is survived by the snapshot, but the next call removes that snapshot first. Over any number
  of crashed calls the original contents stay readable exactly if every call that got as far as
  clearing the snapshot found the database itself still reading as they do
  (`DbRecovery.ContentsSurviveCrashesIff`).
- The guard covers nothing when opening the pending database itself fails: files it created stay
  (`PendingVault.Begin`, `PendingVault.RestoreFromOkb`).
- The comment at `src/executor/import_export.rs:623-625` says dropping the guard returns the
  executor to an in-memory vault; the code leaves it locked, and so does the model.
- The push of metadata is not atomic, as its own comment says; it loses an update exactly when
  another push lands between its comparison and its publication
  (`MetadataCas.ReplacesWhatItCheckedIff`, `MetadataCas.OverlappingPushesLoseOne`), and the versions
  form a chain exactly when that never happens (`MetadataCas.ChainIffNoOverlap`).
- The listing never reports a record id containing a slash, and it reports an id that need not be
  stored when a directory is named like its record (`CloudObjects.ListedIff`); it is exact if and only
  if neither occurs (`CloudObjects.ListingIsExactIff`). Both occur with an id such as `a.json/b`
  (`CloudObjects.SlashedIdListsPhantom`). On a store whose directories stay when they are emptied,
  deleting that record does not help (`CloudObjects.DeletedRecordListsPhantom`).
- A failed `.okb` restore into an existing vault leaves the records it stored there
  (`PendingVault.RestoreFromOkb`).
- A request for the empty record id can be answered by another task's join error
  (`BatchDownload.BatchDownloadRecords`).
- Reloading a stored report merges all duplicate groups into one, so a group's size survives
  exactly when there was only one (`HealthReport.GroupSizeSurvivesIff`); `total_checked` becomes
  the number of rows.
- A check that was already in flight when a record was found compromised can clear the flag again
  (`HealthChecks.OverlappingCheckClearsFlag`). The flag is safe, with no call made, exactly if every
  check in flight has skipped the record (`HealthChecks.StaysKnownIffProtected`), as long as checks can
  read the stored rows (`HealthChecks.UnreadableRowsLoseFlag`). A record that does not decrypt loses
  its flag, too (`HealthChecks.FinishDecides`).
- A password change can report failure although the new password is already in force
  (`KeyHierarchy.FailedChangeTookEffectIff`); `initialize`, unlike a change, writes the keystore in
  place (`KeyHierarchy.KeystoreDir.Initialize`).
- Three character classes rate Fair from 8 to 15 bytes and Weak from 16 on
  (`PasswordStrength.FlaggedIff`, `PasswordGenerator.GeneratedRating`).

## Assumptions

- SQLite: an online backup writes what the source logically contains into the destination's main
  file; opening a database does not change what it logically contains, and opening a vault keeps its
  records or creates an empty one; a connection writes only the database file and its two sidecars.
  Closing a connection may checkpoint and remove the sidecars in any steps that each keep what the
  database reads as.
- File system: which of the removals, copies and backups fail is fixed beforehand and arbitrary.
- Object store: renaming and deleting one object are atomic; a listing of `records/` shows what is
  directly below it, objects and directories; temp names are fresh. A directory is either the common
  prefix of stored objects or stays once made; both kinds of store are covered.
- Vault: taking or refusing a record writes to the database files, with just that effect on the
  records; which records it takes is arbitrary.
- Cryptography is ideal: a sealed box opens only under its own key, nonce and associated data, and
  key derivation has no collisions, nor has the hash that groups equal passwords.
- Replacing the health rows stores exactly the given rows, read back in any order.
- Operating-system locks are exclusive and released by the death of their holder.

## Model

| member | source | states |
|---|---|---|
| SshWire.StringRoundTripIff | src/agent/server.rs:481-496 | a written SSH string is read back, leaving all that follows it, exactly when its length fits the 32-bit prefix |
| SshWire.StringParseIsEncoding | src/agent/server.rs:487-496 | a successful parse re-encodes to its input, and a failed one means the input is no short string's encoding followed by anything |
| SshWire.FrameRoundTrip | src/agent/server.rs:450-479 | a frame written from a payload of at most 256 KiB is read back with the rest of the stream left |
| SshWire.FrameParseIsEncoding | src/agent/server.rs:450-470 | reading fails exactly at a short header, an over-cap length or a truncated payload, and otherwise the stream is the written frame followed by the rest |
| SshWire.RequestsSplitStream | src/agent/server.rs:363-370 | every byte stream is the frames delivered, in order, followed by a tail at which reading stops |
| SshWire.RequestsOfFramed | src/agent/server.rs:363-370 | that split is unique: frames within the cap followed by any stopping tail deliver exactly their payloads |
| Signer.WireSignatureParses | src/agent/signer.rs:599-649 | a signature blob parses as the algorithm string and the signature string, with nothing after them |
| Signer.AuditNameIsBlobNameIff | src/agent/signer.rs:58-83 | for every algorithm, flags and key, the name `wire_name` gives the audit row is the one at the front of the signature if and only if the stored curve is the advertised one |
| Signer.MismatchedCurveSigns | src/agent/signer.rs:571-578 | a key of any curve signs under any other advertised one, naming its own curve in the blob and the other in the audit row |
| Signer.RsaVariantFollowsFlags | src/agent/signer.rs:389-405 | with an RSA key the blob names SHA-512 whenever it is requested and SHA-256 otherwise, carries the signature made with that very digest, and nothing else |
| Signer.LoadKeyIff | src/agent/signer.rs:307-377 | a key file yields a key exactly if it is plain and no passphrase is given, or sealed and its own is, and the key is of the advertised family, an RSA one of at least 256 bytes |
| Signer.LoadKeyFailsAs | src/agent/signer.rs:307-377 | which error each unusable key file is reported with |
| Signer.SignIff | src/agent/signer.rs:389-405 | signing succeeds exactly with a usable key, and yields the name of its algorithm and the raw signature by the right digest as two strings |
| Identity.LoadSshIdentities | src/agent/identity.rs:131-173 | the loader's loop with its early returns computes the outcome of examining records in order up to the first failure |
| Identity.ExaminedRecord | src/agent/identity.rs:84-91 | an SSH record is exposed exactly if its name is in `only` or matches `allow`, every one if neither is given, with its own id, name, algorithm and blob; each error has exactly its reason |
| Identity.LoadIsSelection | src/agent/identity.rs:131-173 | a successful load exposes precisely the SSH records whose name `only` or `allow` admits, in vault order, each with its own id, name, algorithm and blob |
| Identity.LoadFailsAtFirst | src/agent/identity.rs:139-163 | a load succeeds if and only if no record has a reason to stop it, and otherwise reports that of the first one that has |
| AgentServer.IndexHoldsLast | src/agent/server.rs:163-166 | the index has exactly the loaded blobs as keys and maps each to the last identity carrying it |
| AgentServer.AnswerIdentities | src/agent/server.rs:522-531 | the buffer loop appends a count and one blob and one name per identity |
| AgentServer.AnswerDecodes | src/agent/server.rs:522-531 | decoding the identities answer yields every (blob, name) pair in order and consumes it all |
| AgentServer.BuiltRequestParses | src/agent/server.rs:551-560 | a built sign request parses to the same blob, data and flags, whatever follows |
| AgentServer.ParsedRequestIsBuilt | src/agent/server.rs:551-560 | a body parses to a request if and only if it is that request's encoding followed by ignored bytes |
| AgentServer.Server.HandleSign | src/agent/server.rs:545-610 | the response and the audit rows of one sign request, for every failure point; the rest of the state is untouched |
| AgentServer.Server.Dispatch | src/agent/server.rs:505-519 | one request gets the reply and leaves the audit rows the specification gives for its number |
| AgentServer.Server.ServeConnection | src/agent/server.rs:352-383 | a connection ends; every complete frame before the first one that stops reading is dispatched once and in order, its reply written until a write fails, of which some first bytes may get through; the audit trail and idle tokens follow |
| AgentServer.Server.AcceptLoop | src/agent/server.rs:328-385 | whatever earlier peers sent, each peer is served in full; audit trail, numbering and tokens are those of all dispatched requests in order |
| AgentServer.Start | src/agent/server.rs:156-173 | the server holds the loaded identities and their index, or the load's error is returned |
| AgentServer.SignRequestIsAnswered | src/agent/server.rs:545-610 | the reply to an answerable sign request, byte for byte: algorithm name and raw signature over the requested data; the audit row has the record behind the blob and its name |
| AgentServer.RsaFlagsDecideVariant | src/agent/server.rs:572-575 | an RSA identity signs by SHA-512 if and only if bit 2 of the request's flags is set, and by SHA-256 otherwise |
| AgentServer.AnsweredIff | src/agent/server.rs:505-610 | a request is answered by a signature if and only if it is a sign request for an indexed blob whose stored key opens, fits the algorithm and signs |
| AgentServer.OtherReplies | src/agent/server.rs:505-519 | every other request gets the identities or the one-byte failure |
| AgentServer.NameOfIsFirst | src/agent/server.rs:588-591 | the name in an audit row is that of the first identity with the record's id |
| AgentServer.SignedKeyPassedFilter | src/agent/server.rs:545-610 | a sign response implies that the requested blob is the public key of an SSH record whose name `only` or `allow` admits, and that a key of its algorithm stored under its id made the signature |
| AgentServer.AuditFollowsReply | src/agent/server.rs:572-610 | a failure adds no audit row, a success at most one and exactly one if the log accepts it; its detail is the algorithm name in the returned blob if and only if the curve agrees |
| AgentServer.AuditTrailAppends | src/agent/server.rs:328-385 | the audit trail of two batches is that of the first followed by that of the second |
| IdleTimer.RunsStayCovered | src/agent/server.rs:370-376 | in every run each signature, dropped tokens included, is no later than the window's start unless a token is waiting |
| IdleTimer.EmptyChannelMeansIdle | src/agent/server.rs:419-434 | in every run, a shutdown with the channel empty means a whole window since the start and since every signature |
| IdleTimer.EarlyShutdownIff | src/agent/server.rs:266-279 | in every run, a shutdown comes too early if and only if a token is waiting and a signature fell after the window's start and less than a window ago |
| IdleTimer.FiresWithinLag | src/agent/server.rs:419-434 | if no token is taken more than a lag late, the timer may fire once a window and the lag have passed since the start and every signature, and without lag exactly when a window has |
| IdleTimer.PromptShutdownMeansIdle | src/agent/server.rs:419-434 | if no time passes while a token waits, a shutdown at t means no signature in the open interval (t - secs, t) |
| IdleTimer.LeftAloneShutsDown | src/agent/server.rs:419-434 | after any run, exactly the waiting tokens can be taken, and a window after that the timer may fire, not sooner, with the agent idle |
| IdleTimer.LateConsumptionShutsDownEarly | src/agent/server.rs:419-434 | a run that shuts down one tick after a signature because the token was not taken in time |
| AgentIdle.AnswersFollowRequests | src/agent/server.rs:352-383 | in every run of requests, waiting, tokens and shutdown, replies and audit log are those of the requests up to the shutdown, in order |
| AgentIdle.NothingAfterShutdown | src/agent/server.rs:266-279 | once the timer has fired, no request is answered or recorded any more |
| AgentIdle.TimerFollowsReplies | src/agent/server.rs:370-376 | the timer of such a run is a run of the timer alone, its signatures at exactly the times of the sign responses |
| AgentIdle.ServingQueuesTokens | src/agent/server.rs:370-376 | over requests alone the channel holds the tokens the server queues, one for each signature up to the capacity |
| AgentIdle.EmptyChannelShutdownMeansIdle | src/agent/server.rs:266-279 | whatever is requested, a shutdown with the channel empty means that for a whole window no reply was a sign response |
| AgentIdle.EarlyShutdownIff | src/agent/server.rs:266-279 | a shutdown is too early if and only if a token is waiting and a sign response followed the window's start less than a window ago |
| AgentLifecycle.AgentsStayExclusive | src/agent/lock.rs:56-70 | over every interleaving of any number of agents on one data directory, a process starting, serving or cleaning up is the sole lock holder, its pidfile holds its pid and its socket is its own |
| AgentLifecycle.StepKeepsExclusive | src/agent/server.rs:220-316 | every step of every agent, failures and deaths included, keeps that invariant |
| AgentLifecycle.NoAgentStealsFiles | src/agent/cli.rs:202-220 | no agent's startup or cleanup removes or replaces the socket or pidfile of another live agent |
| AgentLifecycle.StartupReachesServing | src/agent/server.rs:205-258 | with the lock free, startup reaches serving whatever files it finds, owning both files, and changes no other process |
| AgentLifecycle.CleanStopLeavesNothing | src/agent/server.rs:286-316 | over every run, a serving agent that stops and whose removals succeed ends gone, with no socket, pidfile or lock left |
| AgentLifecycle.TwoDirectoriesCollide | src/agent/cli.rs:97-117 | any two agents of different data directories can both serve, the first one's socket and pidfile replaced by the second's |
| AgentLifecycle.NobodyStealsIffOneDirectory | src/agent/cli.rs:202-220 | no agent can ever take another live agent's socket or pidfile if and only if all share one data directory |
| AgentLifecycle.SocketOutlivesIff | src/agent/server.rs:246-306 | over every run on one directory, a socket outlives its agent's hold if and only if the agent failed its chmod, failed to remove it or died holding it, and nobody removed it since |
| AgentLifecycle.PidFileOutlivesIff | src/agent/server.rs:220-316 | a pidfile outlives its agent's hold if and only if the agent failed to remove it or died holding it, and nobody removed or overwrote it since |
| AgentLifecycle.FailedChmodLeavesSocket | src/agent/server.rs:246-249 | over every run, a failed chmod removes the pidfile and leaves the socket of an agent that is gone |
| FileStore.WritesStayWithin | src/db/schema.rs:105-116 | writes confined to some paths change nothing outside them |
| DbRecovery.RemoveBackupFiles | src/db/schema.rs:185-193 | only backup files change, and after success none of the three is left |
| DbRecovery.BackupDatabase | src/db/schema.rs:175-183 | only backup files change at any step; after success the snapshot is one file holding the logical contents of the database, log included, whatever stale backup was there |
| DbRecovery.RestoreDatabase | src/db/schema.rs:217-226 | only database files change at any step; after success the main file is the snapshot and no sidecar is left, and a failure leaves the main file as it was or torn |
| DbRecovery.RunWithExistingBackup | src/db/schema.rs:139-168 | success keeps the work's result, a restored failure reads as before with no sidecar, at every step of a failing run the snapshot reads as the database did, and a failed restore leaves what the closed connection left, or a torn file |
| DbRecovery.RunWithBackup | src/db/schema.rs:105-116 | the same from any initial database, sidecars and stale backups; backup and restore fail only if an operation did, a failed backup keeps what the database reads as, and a crash at any moment of the call finds the database or its snapshot reading as before |
| DbRecovery.ContentsSurviveCrashesIff | src/db/schema.rs:139-193 | over any number of calls that crash anywhere, the first contents stay readable in the database or its snapshot if and only if every call that cleared the snapshot found the database still reading as they do |
| DbRecovery.CrashCutsTrace | src/db/schema.rs:105-116 | every initial part of what a call passes through is itself what a crashed call leaves |
| DbRecovery.InitDb | src/db/schema.rs:54-88 | each outcome exactly when it occurs: opened only with the migration, if one was due, successful; a database newer than the build is never altered; each error, its connection closed, says what the contents are afterwards and whether the snapshot is still there |
| DbRecovery.CommittedVersionIsRead | src/db/schema.rs:64-65 | the version read is the one in the last committed write of its page, whatever is committed elsewhere or uncommitted behind it |
| DbRecovery.UnloggedVersionIsRead | src/db/schema.rs:64-65 | without a log it is the main file's own, and zero for a new or unversioned database |
| DbRecovery.OverlaidReadsLatest | src/db/schema.rs:170-174 | a page of a replayed log reads as its latest image, and as in the main file if the log has none |
| DbRecovery.StaleLogCorruptsRestore | src/db/schema.rs:213-224 | dropping the log before the copy is needed: a left-over committed frame makes the restored file read differently |
| DbRecovery.BackupIsSeparate | src/db/schema.rs:74-76 | the migration backup and its sidecars share no path with the database and its sidecars |
| PendingVault.AbsentIff | src/executor/mod.rs:685-691 | the paths to remove are exactly the database paths absent before |
| PendingVault.RemovalsIff | src/executor/mod.rs:645-658 | a failure is reported if and only if some removal fails, and then it is the first; without one every attempted path is gone |
| PendingVault.Guard.RemoveNewFiles | src/executor/mod.rs:645-658 | whichever removals fail, every path absent before is attempted once, in order; gone are exactly those whose removal does not fail, and the reported path is the first whose removal does |
| PendingVault.Guard.Rollback | src/executor/mod.rs:640-668 | the executor is locked and not file-backed, its connection closed; exactly the created paths whose removal does not fail are removed, once, the drop included; the error names the first failing one; if none fails only database paths present before are left |
| PendingVault.Guard.Drop | src/executor/mod.rs:671-700 | nothing after a commit or rollback; otherwise the same closing and removals, leaving only database paths present before if no removal fails, and other paths untouched |
| PendingVault.Guard.EarlierPathsLeft | src/executor/mod.rs:685-697 | when nothing created is left, the main file and the migration backup are there exactly if they were before, a sidecar only if it was |
| PendingVault.CleanupKeepsRecords | src/executor/mod.rs:677-697 | once the created paths are gone, a vault absent before is gone; one present before still holds what it held when closed, or, if its log was created since and not checkpointed, what its main file holds without that log |
| PendingVault.Guard.Commit | src/executor/mod.rs:626-630 | the executor becomes file-backed and keeps its vault and every file |
| PendingVault.Begin | src/executor/mod.rs:540-554 | presence is recorded before anything is opened; a success opens the vault with its records or none; a failure returns no guard, keeps the runtime and leaves what it wrote |
| PendingVault.VaultDbPathsDiffer | src/executor/mod.rs:706-713 | the four paths are distinct, so no removal is attempted twice |
| PendingVault.ImportAll | src/executor/import_export.rs:687-704 | created plus failed is the number of items, and the vault on disk gains exactly the accepted ones in order |
| PendingVault.RestoreFromOkb | src/executor/import_export.rs:551-724 | restored if and only if all checks pass and every item is accepted, all stored in order; otherwise, once opened, locked with exactly the created paths whose removal does not fail removed; if none fails, the vault on disk, unless a new log outlived closing, holds what it held before if and only if there was none or nothing was stored; earlier errors change nothing |
| BatchDownload.Reorder | src/cloud/storage.rs:294-309 | for any ids and any collected results, the k-th entry is the next unused result for the k-th id in completion order or a not-found error, and what is placed and left over is what was collected plus the placeholders |
| BatchDownload.BatchDownloadRecords | src/cloud/storage.rs:240-310 | for any completion order and any panics, the k-th entry answers the k-th id; as many requests for an id get a collected entry, none used twice, as tasks for it survived, the empty id getting the join errors too, and the others not-found; without panics the multiset of entries is that of the results |
| BatchDownload.NothingLeft | src/cloud/storage.rs:278-309 | without panics no placeholder is made and no result is left over |
| BatchDownload.SteadyStoreAnswersEachRequest | src/cloud/storage.rs:240-310 | when fetching is a function of the id, every request, duplicates included, gets its own record |
| CloudObjects.ExtractInvertsFormat | src/cloud/storage.rs:404-423 | an id is extracted from a path if and only if it is non-empty and the path without trailing slashes is that id's record path |
| CloudObjects.TempIsNeverListed | src/cloud/storage.rs:175-185 | no temp name of a record or of the metadata is ever taken for a record |
| CloudObjects.StoreRefinesRegisters | src/cloud/storage.rs:155-187 | under any interleaving of uploads and deletes failing at any step, each final path is absent or holds the whole body of its latest completed upload not deleted since |
| CloudObjects.RenameKeepsRefinement | src/cloud/storage.rs:50-60 | renaming a temp object changes its target and no other object readers see |
| CloudObjects.EraseKeepsRefinement | src/cloud/storage.rs:313-326 | a delete clears its record and touches neither another record nor an upload in progress |
| CloudObjects.ListRecords | src/cloud/storage.rs:216-236 | the loop returns the ids extracted from the entries, in order |
| CloudObjects.ListedIff | src/cloud/storage.rs:216-236 | whatever is stored, the listing reports an id if and only if it is non-empty, has no slash, and its record exists or a directory takes its record's name |
| CloudObjects.ListingIsExactIff | src/cloud/storage.rs:216-236 | after any run and for both kinds of store, the listing reports exactly the non-empty stored ids, each once, if and only if no stored id has a slash and no directory is named like a record |
| CloudObjects.SlashedIdListsPhantom | src/cloud/storage.rs:404-423 | for every slash-free first part and every remainder, uploading such an id makes every listing omit it and report the first part, which is not stored |
| CloudObjects.DeletedRecordListsPhantom | src/cloud/storage.rs:312-326 | once that record is deleted nothing is stored; every listing is exact where directories are prefixes, and none is where they stay |
| MetadataCas.RunsStayTagged | src/cloud/storage.rs:123-152 | in every run the current metadata is the last published one, no push lands twice, and each published version is its expected version plus one |
| MetadataCas.ReplacesWhatItCheckedIff | src/cloud/storage.rs:115-152 | a push replaces the very object it compared with if and only if no push landed in between |
| MetadataCas.ChainIffNoOverlap | src/cloud/storage.rs:123-152 | versions go up by exactly one from the initial object if and only if no publication falls in another push's window |
| MetadataCas.InterruptedPushBreaksChain | src/cloud/storage.rs:118-122 | a push that lands behind another's back repeats a version |
| MetadataCas.ChainHasOneWinnerPerVersion | src/cloud/metadata.rs:123-126 | then versions strictly increase and at most one push succeeds per expected version |
| MetadataCas.LonePushSucceedsIff | src/cloud/storage.rs:129-151 | an undisturbed push succeeds if and only if it expects version zero of a store without metadata or the very version there is, and then publishes the next |
| MetadataCas.OverlappingPushesLoseOne | src/cloud/storage.rs:120-122 | a run in which two overlapping pushes of one expected version succeed and the second overwrites the first unseen |
| HealthReport.IssueCount | src/commands/types.rs:325-342 | the nested insert loops count the distinct records with an issue of any category |
| HealthReport.IssueIdsHaveIssues | src/commands/types.rs:325-347 | the counted ids are exactly those listed as weak, duplicate, compromised or expired |
| HealthReport.FirstGroupFinds | src/commands/types.rs:359-365 | the group search finds one if and only if some group contains the id, and the group found does |
| HealthReport.IssueByMembership | src/commands/types.rs:349-370 | the issue shown is compromised, else weak, else duplicate with the size of the first group listing the record, else expired, and none exactly without any of them |
| HealthReport.PopulateHealthFields | src/executor/record.rs:226-239 | every record gets the flags of the report, or keeps its own without one |
| HealthReport.ProjectHealthReport | src/executor/health.rs:89-124 | the lookup tables and the loop produce one row per record, later groups winning |
| HealthReport.LoadCachedHealthReport | src/executor/health.rs:242-292 | no rows load as no report, otherwise the flagged rows in order and all duplicates in one group |
| HealthReport.RowAgreesWithFlags | src/executor/health.rs:112-123 | with disjoint groups the stored row of a record says what the list view shows for it |
| HealthReport.ReloadKeepsMemberships | src/executor/health.rs:242-292 | projecting and loading back keeps weak, compromised, expired and duplicate membership and the issue kind of every id, in any row order |
| HealthReport.IssueCountSurvivesReload | src/commands/types.rs:325-347 | the issue count and whether there are issues survive the round trip |
| HealthReport.GroupSizeSurvivesIff | src/executor/health.rs:236-241 | the size given with a duplicate issue survives if and only if there was a single group |
| HealthChecks.DetectDuplicatePasswords | src/services/health.rs:42-56 | one group for each password shared by at least two records, holding exactly those records in order |
| HealthChecks.DetectedGroupsAreProper | src/services/health.rs:42-56 | the groups are disjoint, without repeats, of size at least two, and two records share a group if and only if they share a password |
| HealthChecks.PartitionEntriesForHibp | src/executor/health.rs:47-68 | each side receives, in order, exactly the entries whose stored row allows or forbids skipping |
| HealthChecks.PartitionIsComplete | src/executor/health.rs:47-68 | the two sides together are the entries, none lost or duplicated |
| HealthChecks.SkipIffKnown | src/executor/health.rs:33-38 | a record may be skipped if and only if its last stored row says compromised at the present version |
| HealthChecks.BeginSplits | src/executor/health.rs:366-384 | a check skips a live record exactly if it is known compromised at its version, and otherwise asks about it |
| HealthChecks.OthersAreLeftOut | src/executor/health.rs:336-358 | deleted records, other credentials and passwords that do not decrypt are neither skipped nor asked about |
| HealthChecks.WholeCheckDecides | src/executor/health.rs:295-478 | whatever happens during a check, it stores the weak, duplicate and expired findings of its start; a record known compromised at its version is stored so without a call, and any other live one is asked about and the answer alone decides |
| HealthChecks.CheckLoop | src/executor/health.rs:401-459 | the loop asks about each remaining record once and in order, reports the skipped and the breached ones, and reports nothing when stopped at any point |
| HealthChecks.FinishDecides | src/executor/health.rs:107-123 | a finished check stores a record as compromised if and only if it skipped it or the service reported it |
| HealthChecks.LiveRecordIsDecrypted | src/executor/health.rs:338-358 | a live, decryptable login record is among a check's entries with its version looked up correctly |
| HealthChecks.CompromisedStaysKnown | src/executor/health.rs:33-68 | over any interleaving of checks, answers, cancellations and edits of other rows, a decryptable login known compromised at a version stays so and causes no call while checks see that version |
| HealthChecks.StaysKnownIffProtected | src/executor/health.rs:366-384 | a known compromised record stays known and uncalled in every steady run if and only if every check in flight has skipped it |
| HealthChecks.UnreadableRowsLoseFlag | src/executor/health.rs:371-374 | a check that cannot read the stored rows asks about the record again, and an unavailable service then clears its flag |
| HealthChecks.OverlappingCheckClearsFlag | src/executor/health.rs:366-478 | two overlapping checks, the earlier of which clears the flag the later one stored, with no change of version |
| KeyHierarchy.WrappedUnlocksIff | src/crypto/keystore.rs:244-321 | a keystore file unlocks under its password and no other, to its key, parameters and language |
| KeyHierarchy.UnlockIff | src/crypto/keystore.rs:244-321 | a keystore file unlocks to a key if and only if version, algorithm and parameters are acceptable and the key is sealed in it under the password |
| KeyHierarchy.KeystoreDir.Initialize | src/crypto/keystore.rs:185-242 | a success wraps the key under the password, the file having been torn on the way; a failed write leaves it as it was or torn, and refused parameters leave it untouched |
| KeyHierarchy.KeystoreDir.ChangeCmk | src/crypto/keystore.rs:323-435 | the file goes from wholly old to wholly new at most once and is never torn; the new one wraps the same key with the same parameters and language under the new password; what each failure leaves in the temporary file |
| KeyHierarchy.ChangesKeepSecretKey | src/crypto/keystore.rs:323-435 | after any sequence of successful and failed changes the file wraps the original key, parameters and language under the current password |
| KeyHierarchy.CurrentPasswordUnlocksIff | src/crypto/keystore.rs:244-321 | after any such sequence the current password, and no other, unlocks the original key |
| KeyHierarchy.FailedChangeTookEffectIff | src/crypto/keystore.rs:418-428 | after a failed change the new password unlocks if and only if the failure was the permission step after the rename, and the old one unlocks otherwise |
| KeyHierarchy.CryptoManager.UnlockWithPassword | src/crypto/crypto_manager.rs:21-26 | the fields change only on success |
| KeyHierarchy.CryptoManager.Lock | src/crypto/crypto_manager.rs:46-48 | no keystore is held and nothing decrypts |
| KeyHierarchy.CryptoManager.Encrypt | src/crypto/crypto_manager.rs:50-55 | fails only when locked; the result opens for exactly the holders of the same secret key using the current version |
| KeyHierarchy.EarlierRecordsStayReadable | src/crypto/crypto_manager.rs:50-87 | a record sealed at any point of any history of changes opens at any other point with its own key version and associated data, and with no others |
| KeyHierarchy.SessionsKeepRecordsReadable | src/crypto/crypto_manager.rs:21-87 | over any interleaving of password changes, unlocks, recoveries, locks and stored records, a record opens at any later time if and only if the manager holds the secret key that sealed it, and the password in force unlocks the original one |
| KeyHierarchy.HoldsIffHandedOver | src/crypto/crypto_manager.rs:21-48 | after any run, the manager holds a keystore if and only if an unlocking or recovery handed it over and nothing has locked or replaced it since |
| KeyHierarchy.RightWordsOpenEverything | src/crypto/crypto_manager.rs:28-44 | if every recovery gives the original key, every record ever stored opens whenever the manager is unlocked |
| PasswordStrength.FlaggedIff | src/services/health.rs:25-37 | a password is flagged if and only if it is short, has at most two classes, or has three at sixteen bytes or more |
| PasswordStrength.LengthIsCharsIff | src/crypto/strength.rs:42-42 | the byte length the meter takes is the number of characters if and only if all are ASCII, and more otherwise |
| PasswordStrength.BytesCarryBits | src/crypto/strength.rs:42-42 | a character takes the fewest bytes whose payload bits hold its code point |
| PasswordStrength.ClassesAreListed | src/crypto/strength.rs:43-46 | the four classes are the ASCII letters, digits and the twelve special characters |
| PasswordStrength.BarShowsLevel | src/crypto/strength.rs:53-65 | each level has its own bar length |
| PasswordGenerator.GenerateWithPolicy | src/crypto/password.rs:32-76 | an error exactly for a bad length or minimums that do not fit; otherwise the shuffle of the draft its draws pick, of the exact length, of safe characters alone and with all four minimums |
| PasswordGenerator.GenerateWithCharTypes | src/crypto/password.rs:78-124 | an error exactly for a bad length or no type; otherwise the shuffle of the draft its draws pick, of the exact length, over the enabled alphabets and using each of them |
| PasswordGenerator.Shuffle | src/crypto/password.rs:73-73 | the in-place swaps compute the specified shuffle, a permutation |
| PasswordGenerator.ShuffleReaches | src/crypto/password.rs:73-73 | every rearrangement is the outcome of some positions to swap with |
| PasswordGenerator.EveryAdmissiblePasswordIsReached | src/crypto/password.rs:46-75 | every password over the charset that meets the minimums is the outcome of some draws and some shuffle |
| PasswordGenerator.CountIsPermutationInvariant | src/crypto/password.rs:69-75 | a permutation keeps how many characters come from each alphabet |
| PasswordGenerator.AlphabetsAreClasses | src/crypto/strength.rs:43-46 | the meter recognises each generator alphabet and tells them apart |
| PasswordGenerator.MeterCountsEnabledTypes | src/crypto/strength.rs:48-51 | the meter counts exactly the enabled types of a generated password |
| PasswordGenerator.GeneratedRating | src/crypto/strength.rs:53-65 | the rating of a generated password follows from the options and its length alone; all four types rate Strong for 8 to 19 and VeryStrong from 20 |
| PasswordGenerator.PolicyRating | src/crypto/strength.rs:53-65 | a policy password with a minimum of one of each type is VeryWeak, Strong or VeryStrong by its length alone |

## Left out

- DbRecovery.ContentsSurviveCrashesIff: a crash is a recorded state between two operations; a torn write to the database's own files is a write of the work.
- AgentServer.Server.AcceptLoop: counts tokens as if no timer took them and runs until accepting fails; AgentIdle adds the timer and a shutdown at any request.
- AgentIdle.AnswersFollowRequests: serves one request at a time; a shutdown while a reply is being written is not told from one after it.
- AgentServer.Server.HandleSign: one failure value stands for every error of the sign path; the log lines are not modelled.
- Signer.WireSignatureParses: ECDSA signatures are opaque bytes, as the source carries them; the three wire builders, identical in the source, are one function.
- KeyHierarchy.KeystoreDir.ChangeCmk: here and in `Initialize`, failures of memory locking count as failures to derive; creation dates and device ids are not modelled.
- PendingVault.RestoreFromOkb: `keystoreUnlocks` stands for both keystore checks of the SQLCipher build and is true in the plain build; parsing and mapping of items are a parameter.
- The list of deltas that `persist_health_report` returns, which only decides what is synchronised again.
- The breach service's protocol, rate limit and progress messages, and the frequency gate of the check.
- The SQLCipher variant of the snapshot, which differs only in keying the destination.
- Google Drive's direct overwrite, whose atomicity is the provider's.
- The sync lock, merge and conflict handling, and the `CloudMetadata` mutators other than the version.
- SSH key parsing, real cryptography, recovery-word lists, zeroisation and memory locking.
- The passphrase and unconstrained password generators, which promise nothing beyond their charset.
- The terminal interface, OAuth, provider adapters, clipboard, signals, error codes and configuration.
