# Firewall bookkeeping and audit log: a verified model

The agent installs firewall rules, lets them expire, rolls them back, and writes down what it did. Each of
these activities keeps state both in memory and in an append-only file, may be interrupted at any moment,
and may race with the others. This project models the parts where that matters and proves what they
guarantee over whole runs.

* **TTL engine** (`ttl_registry`, `ttl_log`, `ttl_runs`, `ttl_recovery`, `ttl_engine`, `ttl_history`). A registry with
  two indexes, an operation log that is replayed with generation guards, compaction, the expiry of due rules, and any
  number of lives of the engine with crashes between them.
* **Removal coordinator** (`removal_coordinator`, `removal_protocol`, `removal_progress`, `removal_workers`). The table
  through which TTL expiry and rollback agree on who removes a rule: a class, a state machine of any number of workers
  interleaved at every lock and every backend call, and the two engines as workers of that machine.
* **Rollback engine** (`rule_registry`, `rollback_journal`, `rollback_crash_runs`, `rollback_book`, `rollback_engine`,
  `rollback_history`, `rollback_versions`). A registry with four indexes, a write-ahead journal, and the
  last-in-first-out rollback of a scope against a backend that may answer anything; and a crash model of its workers.
* **Action journal and recovery** (`action_journal`, `recovery`). A journal in which the last valid record
  of an entry wins, its compaction, retried compensations, and crash recovery.
* **Audit log** (`audit_entry`, `audit_chain`, `merkle`, `audit_runs`, `audit_logger`, `audit_restart`,
  `audit_interleaving`). The byte encoding that is hashed, the hash chain and its verifier, the write-ahead log,
  checkpoints and their Merkle root.
* **Files of lines** (`log_files`, `torn_writes`). What a crash in the middle of a write leaves in a file, for the
  action journal, whose loader skips what does not parse, and for the other three, whose loaders then give up.
* **Smaller parts** (`rule_comment`, `cidr`, `circuit_breaker`): the comment that carries rule metadata,
  CIDR containment, and the circuit breaker.

`common`, `ordered_keys`, `sorting` and `arith` hold what several of these share: the backend, ordered iteration,
stable sorting, division.

## How it is modelled

Objects whose methods update fields are classes; each method is proved against a function of the old state, and the
theorems are about those functions. What the functions mean is said without them, in plain states, generations,
records, calls and bytes: in the contracts of the methods, and in lemmas where several values are involved. The
engines and the audit logger also keep a ghost record of what they did in which order, the writes to their files and
the questions to the backend, and their contracts state it. Where engines run, their files are sequences of records
and appending one is one atomic step; the action journal keeps its file as lines, with or without a newline at the
end, and `torn_writes` says which crashes in the middle of a line the other three files survive. The backend and the
compensation handlers are oracles: they may answer anything, and the calls made to them are recorded. The clock is a
parameter. The hash is an unknown function of fixed width; freedom from collisions is a hypothesis about the inputs
that are actually hashed, since a hash of fixed width cannot be free of collisions on all inputs. A region under a
lock is one atomic step. A crash may happen between any two steps, so every list of steps is also a crash point.

## What does not hold, and exactly when it does

Where the code departs from what its comments say, the model follows the code. Each departure has a lemma
with its exact condition, and where that is not itself a single input, one that shows the failure.

* `TtlEngine::extend` moves the entry's time before it asks for the old bucket to be cleaned. The indexes
  stay in agreement exactly when the extension is zero (`ExtendAgreesIff`).
* `TtlEngine::register` appends to the log before it looks for a duplicate. Log and registry stay equal
  exactly when the rule was not registered, or was registered with the very same entry (`RegisterRefinesIff`).
* TTL recovery hands what was interrupted to a routine that needs the rule to be registered, which it is
  not. The backend is never called, and a rule that was free is left taken. Log and registry are equal
  afterwards exactly when every interrupted rule was known to be gone (`TtlEngine.Recover`, `RecoveredIff`);
  the log is ahead in any case, in every later run too, by no more than the other interrupted rules
  (`RunKeepsAhead`).
* A rule that was taken by a worker that then returned with an error stays taken. A taken rule can be freed
  exactly while some worker holds it (`FreedIffHeld`), and the attempts that end so strand it
  (`LostExpiryIsStranded`, `LostRollbackIsStranded`).
* TTL compaction keeps Active entries only. It cannot be noticed later exactly when all logged entries are
  Active (`CompactionTransparentIff`).
* The rollback-in-progress flag is read outside the lock, so a TTL worker can be in the backend while a
  rollback runs (`FlagIsNotABarrier`). The flag keeps TTL workers out of the backend until the rollback ends
  exactly when none of them is past it already: none holds a rule it has not heard about from the backend,
  and none that saw the flag clear wants a rule that is not stranded (`FlagKeepsOutIff`). Exclusion per rule
  comes from the table and always holds.
* `register_rule` reads the version counter and never advances it. The version index stays complete exactly when the
  rule and its version are new (`RuleRegistry.Register`, `RollbackEngine.RegisterRule`), and only then does the
  version listing hold every record (`ListingCompleteIff`). After a run of registrations the index holds one rule, the
  last, and the last n rules are that one (`OnlyTheLastIsListed`); all have one version, so a rollback takes them in
  whatever order the scope lists them (`RollbackOrderIsListingOrder`), which for the rules of an action is the oldest
  first (`ActionGoesOldestFirst`, `OldestCanGoFirst`). The index is complete after a run exactly when the counter had
  been advanced or nothing but one rule was registered (`VersionIndexCompleteIff`).
* A rule created under an id whose confirmed removal is not yet journaled is lost with the next journal
  write. Creation is safe exactly when no such removal is pending (`CreationSafeIff`).
* The All scope resolves to Active rules only, so rules whose rollback failed are left out of a second
  rollback of everything (`ResolveAgain`).
* A list of specific rules that names a rule twice is rolled back twice from one snapshot. Its record ends in the
  state of the last attempt that changed it, which after a removal is ManuallyRemoved (`StateByLastChange`,
  `RepeatedRemovalIsManual`); after two failures the journal is behind the memory (`StaleSnapshotFallsBehind`).
  However a rollback ends, the journal stays ahead exactly when no rule that can be taken is named twice
  (`RollbackKeepsJournaledIff`).
* A record written behind a line without a newline makes one line with it, and neither parses. In the action
  journal an append is seen by the next load exactly when the file ended in a newline (`AppendSeenIff`); a crash can
  leave it otherwise, and then a prepared entry that a load had accepted goes down with the next record
  (`TwoRecordsLost`). After any history the records found are exactly those that had a line of their own, and they
  are all complete records exactly when nothing but a further cut followed a cut and nothing followed a missing
  newline (`HistoryReloads`). A restart after a recovery finds an entry still prepared exactly when the file did not
  end in a newline, its terminated lines hold the entry prepared, and no mark is of it but possibly the first, which
  went down (`PreparedAfterRestartIff`); behind a partial line the newest prepared entry is compensated a second time
  (`TornTailCompensatesAgain`).
* TTL log, rollback journal and audit log are read by loaders that fail at the first line that does not parse. Over
  any history such a file loads exactly when no crash ever cut a record and nothing was written behind a missing
  newline (`LoadsIff`); otherwise never again, as long as it is only appended to (`StaysUnreadable`). So a crash in
  the middle of a write is either one between two records or the end of recovery (`TtlCrashLoadsIff`,
  `RollbackCrashLoadsIff`), for the audit log too, although its write-ahead log holds the whole entry at that moment
  (`AuditCrashOpensIff`).
* At audit startup the surviving write-ahead record is thrown away, although the log message speaks of a
  replay. Its entry is in the log exactly when the log had been written before the crash
  (`SurvivorKeptIff`, `PreparedEntryIsLost`).
* A restart of the audit logger restores the cumulative hash up to the last checkpoint only. That is the
  running hash exactly for the empty log, and the hashes since the last checkpoint are right exactly when
  there are none (`RestartRestoresFoldIff`, `RestartRestoresMemoryIff`).
* The hashed encoding has no separators, so entries with different actors can have one encoding
  (`ActorNotRecovered`). Of a state snapshot it holds the state hash alone, although the comment on the entry hash
  speaks of all fields. It determines the number and the link of an entry, and the whole entry exactly among
  entries of one layout (the same options present, fields of the same lengths, lists of the same shape) whose
  snapshots agree in type, data and capture time (`EncodingDeterminesIff`). Exchanging those three in the snapshots
  of any entry of a log leaves it linked with the same last hash (`SnapshotsNotBound`).
* A checkpoint is written from what was read before the lock was taken again. It anchors the log before it exactly
  when nothing was written in between (`CheckpointAnchorsIff`); the hash of an append that comes in between is
  neither among its leaves nor pending afterwards (`OvertakenCheckpointLosesLeaf`).
* The Merkle root binds lists of equal length only: without a collision, lists with one root are equal exactly when
  they have equally many hashes (`SameRootIff`), and there are others (`OddTailRepeats`, `LevelAboveHasSameRoot`). A
  checkpoint's count and root together bind its leaves (`CheckpointBindsLeaves`).
* A rule's metadata comes back from its comment exactly when its id has no colon (`RoundTripIff`).

## Model

| member | source | states |
|---|---|---|
| `RemovalProtocol.RemovalIsExclusive` | src/firewall/ttl.rs:645-715 | in every interleaving of any number of TTL and rollback workers, two different workers are never both between acquiring and finishing one rule, nor both in its backend removal, and each rule has at most one confirmed removal until a cleanup forgets it |
| `RemovalProtocol.StepKeepsInv` | src/firewall/ttl.rs:645-715 | each atomic step (flag check outside the lock, acquisition, backend call, answer, finish, abandon, cleanup, begin and end of a rollback) keeps the invariant that holders agree with the table and that a confirmed rule is never handed out again |
| `RemovalProtocol.CleanupKeepsHeldRules` | src/firewall/ttl.rs:709-715 | a cleanup never drops the table entry of a rule some worker holds |
| `RemovalProtocol.ConfirmedIsNotGrantedAgain` | src/firewall/ttl.rs:645-685 | after a confirmed removal neither side is granted the rule before it is forgotten |
| `RemovalProgress.FlagKeepsOutIff` | src/firewall/ttl.rs:645-663 | from any state with the flag up, no continuation without the end of the rollback brings a TTL worker to the backend, if and only if no TTL worker is past the flag: holding a rule or in the backend, or having seen the flag clear for a rule that is not stranded |
| `RemovalProgress.BeginRollbackKeepsOutIff` | src/firewall/ttl.rs:698-700 | the same at the beginning of a rollback in any run |
| `RemovalProgress.FreedIffHeld` | src/firewall/ttl.rs:682-695 | a taken rule is freed by some continuation if and only if some worker holds it |
| `RemovalProgress.AbandonStrands` | src/firewall/ttl.rs:1080-1083 | wherever a holder returns with an error and leaves the lock taken, nobody holds the rule any more and no continuation frees it |
| `RemovalProtocol.AbandonedStaysStuck` | src/firewall/ttl.rs:645-695 | a taken rule without a holder stays so under every list of steps, and neither side is granted it |
| `RemovalWorkers.ExpiryIsWorkerSteps` | src/firewall/ttl.rs:1057-1117 | one expiry by the engine is a list of steps of the protocol: for every table, flag, registration and answer, the table it leaves by its contract is the one those steps leave, with one confirmed removal exactly when the outcome is confirmed |
| `RemovalWorkers.RollbackIsWorkerSteps` | src/rollback/firewall_rollback.rs:1145-1211 | the same for one rollback of a rule, for every outcome its contract allows |
| `RemovalWorkers.LostExpiryIsStranded` | src/firewall/ttl.rs:1080-1083 | an expiry of an unregistered rule that was granted strands the rule |
| `RemovalWorkers.LostRollbackIsStranded` | src/rollback/firewall_rollback.rs:1163-1164 | so does a rollback of a rule that is not registered |
| `RemovalCoordinator.TtlRollbackCoordinator.TryAcquireTtlRemoval` | src/firewall/ttl.rs:645-663 | answer and table after a TTL acquisition: refused during a rollback, otherwise decided by the state of the rule alone |
| `RemovalCoordinator.TtlRollbackCoordinator.TryAcquireRollbackRemoval` | src/firewall/ttl.rs:666-679 | answer and table after a rollback acquisition |
| `RemovalCoordinator.TtlRollbackCoordinator.ReleaseRemoval` | src/firewall/ttl.rs:688-695 | only a rule that is being removed goes back to Active |
| `RemovalCoordinator.TtlRollbackCoordinator.CleanupOldStates` | src/firewall/ttl.rs:709-715 | above the limit exactly the removed rules are forgotten; at or below it nothing changes |
| `RemovalCoordinator.TtlRollbackCoordinator.WaitForRollback` | src/firewall/ttl.rs:638-642 | the wait ends with no rollback running, and changes nothing if none was |
| `TtlRegistryModule.IndexDetermined` | src/firewall/ttl.rs:160-171 | index agreement leaves no freedom: the entries determine the time buckets |
| `TtlRegistryModule.TtlRegistry.NextExpiration` | src/firewall/ttl.rs:182-184 | the first bucket is the true minimum over all entries, and absent exactly for an empty registry |
| `TtlRegistryModule.TtlRegistry.EntriesExpiringBefore` | src/firewall/ttl.rs:187-201 | every entry in state Active or Failed whose time has come, exactly once, in order of expiration, and nothing else |
| `TtlRegistryModule.TtlRegistry.Register` | src/firewall/ttl.rs:204-220 | a new rule enters both indexes, a registered one is refused without a change; the buckets stay the exact inverse of the entries |
| `TtlRegistryModule.TtlRegistry.Cancel` | src/firewall/ttl.rs:223-239 | the entry leaves both indexes, is returned as Cancelled, and no empty bucket stays |
| `TtlRegistryModule.TtlRegistry.MarkExpired` | src/firewall/ttl.rs:264-281 | the same for an expired entry, with an error for an unknown rule |
| `TtlRegistryModule.TtlRegistry.Mark` | src/firewall/ttl.rs:252-293 | a state change touches one entry, raises its generation and leaves the time index alone |
| `TtlRegistryModule.TtlRegistry.UpdateExpiration` | src/firewall/ttl.rs:313-338 | moving an entry to another time keeps the indexes in agreement |
| `TtlRegistryModule.TtlRegistry.ListActive` | src/firewall/ttl.rs:296-302 | every Active entry exactly once |
| `TtlRegistryModule.ExtendAgreesIff` | src/firewall/ttl.rs:957-980 | `extend` keeps the indexes in agreement if and only if it extends by nothing; otherwise the rule also stays in its former bucket, while every entry is still in its own |
| `TtlRegistryModule.TtlRegistry.ExtendInPlace` | src/firewall/ttl.rs:972-976 | the in-place change of `extend`, tied to that condition |
| `TtlLog.Load` | src/firewall/ttl.rs:444-498 | the loading loop computes the replay of the log |
| `TtlLog.RecordMeans` | src/firewall/ttl.rs:466-494 | a record whose number the marker covers changes nothing, and an update with an old generation or of an unknown rule is ignored on replay |
| `TtlLog.LoadFile` | src/firewall/ttl.rs:444-498 | the file loads to the replay of its records if every line parses, and to an error otherwise |
| `TtlLog.FindNextSeq` | src/firewall/ttl.rs:422-441 | a reopened log continues above all its numbers, with the least number that keeps it well numbered |
| `TtlLog.AppendTakesEffect` | src/firewall/ttl.rs:522-548 | a record appended under the next number is never skipped by the marker, for every well-numbered log |
| `TtlLog.CompactionKeepsActive` | src/firewall/ttl.rs:551-587 | the compacted file replays to exactly the Active entries and is well numbered |
| `TtlLog.CompactionTransparentIff` | src/firewall/ttl.rs:551-587 | compacted and original log replay alike under every continuation if and only if all logged entries are Active |
| `TtlRuns.CommandKeepsAhead` | src/firewall/ttl.rs:907-954 | one registration, cancellation or expiry keeps every registered rule in the log exactly as it is, leaves no more rules behind in the log, and every point in between is safe for a crash |
| `TtlRuns.CommandRefines` | src/firewall/ttl.rs:907-954 | so it keeps the log equal to the registry |
| `TtlRuns.RunKeepsAhead` | src/firewall/ttl.rs:853-1117 | over every sequential run from whatever state a restart left, the registered rules are in the log exactly as they are, and the rules the restart left behind are the only others |
| `TtlRuns.RunRefines` | src/firewall/ttl.rs:907-1117 | over every sequential run from every state in which log and registry agree, they agree, and every crash point is safe |
| `TtlRuns.EveryRunFromEmptyRefines` | src/firewall/ttl.rs:907-1117 | after any run from the empty engine the log replays to exactly the registry, and at every crash point the registered rules are among the replayed ones |
| `TtlRuns.RegisterRefinesIff` | src/firewall/ttl.rs:926-933 | log and registry stay equal after a registration, duplicate or not, if and only if the rule was not registered or had the very same entry; crash safety likewise, by the deadline |
| `TtlRuns.ExpireEffect` | src/firewall/ttl.rs:1057-1117 | what an expiry does to the registry, outcome by outcome: gone, Failed with two more generations, or untouched, and no other rule changes |
| `TtlEngineModule.TtlEngine.constructor` | src/firewall/ttl.rs:833-850 | an opened engine has the log as it is, an empty registry, and a numbering that fits |
| `TtlEngineModule.TtlEngine.Register` | src/firewall/ttl.rs:907-940 | the error cases; on success an Active entry of generation 1 whose deadline is the TTL in whole seconds after now, in the registry and in one more log record; a duplicate leaves the registry alone; the timer set to the soonest expiration |
| `TtlEngineModule.TtlEngine.Cancel` | src/firewall/ttl.rs:943-954 | registry first, log second, and nothing for an unknown rule; the refinement is kept |
| `TtlEngineModule.TtlEngine.ProcessSingleExpiration` | src/firewall/ttl.rs:1057-1117 | for a free registered rule one backend call, and by its answer the rule forgotten and known to be gone, or Failed with two more generations and free again, with the two log records of either; without a call otherwise: forgotten if known to be gone, taken for good if not registered, untouched if held or during a rollback; an error exactly for a refusal, an unregistered rule or another TTL worker |
| `TtlRuns.EffectsInOrder` | src/firewall/ttl.rs:907-1117 | the order of the effects of each command: logged before made for a registration, made before logged otherwise, and the attempt known before the backend is asked |
| `TtlEngineModule.DeedsAreEffects` | src/firewall/ttl.rs:1057-1117 | what the engine does in one expiry, in its order, is what the crash model has it do |
| `TtlEngineModule.AttemptInOrder` | src/firewall/ttl.rs:1079-1092 | the attempt is marked in memory and logged before the backend is asked |
| `TtlEngineModule.TtlEngine.ProcessExpirations` | src/firewall/ttl.rs:1021-1054 | after the wait for a running rollback exactly the due entries are tried once each, in order; each outcome is the one the table after the wait, the flag and the backend give, and the table ends as those outcomes say; the store is that of the legal run of the expiries; the backend is called for the attempts alone; the count is that of the counted outcomes; the timer is set; the refinement is kept |
| `TtlEngineModule.TtlEngine.Recover` | src/firewall/ttl.rs:853-903 | after a restart exactly the Active unexpired entries are tracked, as they were; the counts are those of the entries found; the backend is never called; exactly the interrupted rules that were free are taken, if no rollback runs; the log is ahead of the registry by exactly the interrupted rules not known to be gone, so equal to it if and only if there are none |
| `TtlRecovery.RecoveredIff` | src/firewall/ttl.rs:864-897 | that condition, for every log, table and flag |
| `TtlEngineModule.TtlEngine.Restore` | src/firewall/ttl.rs:864-888 | the first pass sorts the loaded entries into tracked, expired and failed ones, counts each kind, and clears the log of the stale ones |
| `TtlEngineModule.TtlEngine.HandOver` | src/firewall/ttl.rs:893-897 | an expiry of an unregistered entry calls no backend; it takes a free rule, clears the log of one known to be gone, and does nothing otherwise |
| `TtlEngineModule.TtlEngine.Compact` | src/firewall/ttl.rs:1136-1145 | the rewritten file is a marker covering all earlier numbers and the Active entries under the next ones; it replays to them and stays well numbered |
| `TtlHistory.RegisteredRuleIsTrackedAgain` | src/firewall/ttl.rs:853-1117 | over any number of lives of the engine, each a run ended by a crash between any two effects and followed by a restart, a rule that was registered at the first crash and not cancelled since is tracked again, Active and with its deadline, as long as that has not passed |
| `TtlHistory.CrashedDisk` | src/firewall/ttl.rs:907-1117 | at every crash point of a run with a clock that never goes back, only rules whose deadline has passed are on disk in another state than Active |
| `TtlHistory.RestartIsAStart` | src/firewall/ttl.rs:853-903 | what a restart leaves is a state from which the next life can start |
| `TtlHistory.DueFromDeadline` | src/firewall/ttl.rs:187-201 | a rule registered with a TTL is in no listing of due rules before its deadline, the TTL in whole seconds after the registration, and in every one from then on, whatever else ran in between, unless it was cancelled |
| `RuleRegistryModule.PushAgreesIff` | src/rollback/firewall_rollback.rs:244-270 | a group index (by action, by journal entry) agrees with the primary map after a registration if and only if the rule is new |
| `RuleRegistryModule.RetainAgrees` | src/rollback/firewall_rollback.rs:363-384 | removing a rule keeps a group index in agreement |
| `RuleRegistryModule.RuleRegistry.Register` | src/rollback/firewall_rollback.rs:244-270 | the primary map and version index after a registration, and the rule at the end of the list of its action and of its journal entry; all indexes agree afterwards if and only if rule and version are new |
| `RuleRegistryModule.RuleRegistry.UpdateState` | src/rollback/firewall_rollback.rs:347-360 | a state change touches one record, with a new generation, and no index |
| `RuleRegistryModule.RuleRegistry.Remove` | src/rollback/firewall_rollback.rs:363-384 | the record leaves the primary map and all three indexes |
| `RuleRegistryModule.RuleRegistry.NextVersion` | src/rollback/firewall_rollback.rs:239-241 | hands out the counter and advances it; no operation of the engine calls it |
| `RuleRegistryModule.RuleRegistry.GetByVersionDesc` | src/rollback/firewall_rollback.rs:304-310 | the filtering walk from the newest version down |
| `RuleRegistryModule.RuleRegistry.GetLastN` | src/rollback/firewall_rollback.rs:313-320 | the same walk cut at `count` versions |
| `RuleRegistryModule.VersionListing` | src/rollback/firewall_rollback.rs:304-320 | the listing is strictly descending, one record per version, and the last-n listing is its prefix |
| `RuleRegistryModule.ListingCompleteIff` | src/rollback/firewall_rollback.rs:304-310 | the listing holds every record, so is a permutation of them, if and only if the version index is complete |
| `RollbackJournalModule.Load` | src/rollback/firewall_rollback.rs:737-783 | the loading loop computes the replay of the journal |
| `RollbackJournalModule.LineMeans` | src/rollback/firewall_rollback.rs:758-779 | a change with an old generation or of an unknown rule is ignored on replay, creations and removals are not |
| `RollbackJournalModule.LoadFile` | src/rollback/firewall_rollback.rs:737-783 | the file loads to the replay of its records if every line parses, and to an error otherwise |
| `RollbackCrashRuns.NoRuleLost` | src/rollback/firewall_rollback.rs:973-1002 | at every crash point of every run, restarts included, a rule whose registration returned is in the journal unless the backend confirmed its removal or its expiry was notified; and every replayed record is in a state that recovery registers again |
| `RollbackCrashRuns.StepKeepsInv` | src/rollback/firewall_rollback.rs:1145-1211 | each write, backend answer and restart of each worker keeps that |
| `RollbackCrashRuns.CreationSafeIff` | src/rollback/firewall_rollback.rs:973-1002 | a creation survives every next write if and only if no removal of the same id is confirmed and unjournaled |
| `RollbackHistory.AttemptIsFourSteps` | src/rollback/firewall_rollback.rs:1163-1210 | the journal lines of one rollback by the engine are those of four steps of the crash model, so its crash points are the engine's |
| `RollbackHistory.RegistrationIsTwoSteps` | src/rollback/firewall_rollback.rs:973-1002 | the same for a registration |
| `RollbackHistory.RollbackKeepsJournaled` | src/rollback/firewall_rollback.rs:1021-1091 | if every rule that still needs a rollback is in the journal exactly as in memory, it is so after the rollback of any scope of distinct rules, however each one ended; rules that are gone may linger in the journal |
| `RollbackHistory.RollbackKeepsJournaledIff` | src/rollback/firewall_rollback.rs:1021-1211 | for rules as they stand in memory that is so after every ending the coordinator's table allows, if and only if no rule that can be taken is named twice |
| `RollbackHistory.RestartKeepsWhatNeedsRollback` | src/rollback/firewall_rollback.rs:934-1002 | after any run of registrations, notified expiries, rollbacks of distinct rules and restarts, recovery brings back every rule that still needs a rollback, with the record it had |
| `RollbackHistory.StaleSnapshotFallsBehind` | src/rollback/firewall_rollback.rs:1112-1118 | a list of specific rules that names a free rule twice resolves to its record twice; when both removals fail the whole rollback leaves the journal behind |
| `RollbackHistory.FailuresFallBehind` | src/rollback/firewall_rollback.rs:1198-1209 | k failures from one snapshot raise the generation in memory by 2k and in the journal by 2 |
| `RollbackVersions.OnlyTheLastIsListed` | src/rollback/firewall_rollback.rs:973-1002 | after any nonempty run of registrations of fresh rules the version index holds one rule, the last; the listing of all rules and the last n for every n are that one; the index is complete if and only if there was one registration |
| `RollbackVersions.RollbackOrderIsListingOrder` | src/rollback/firewall_rollback.rs:1045-1053 | sorting any rules of such a run newest first changes nothing |
| `RollbackVersions.OldestCanGoFirst` | src/rollback/firewall_rollback.rs:1045-1053 | two rules named oldest first are rolled back oldest first |
| `RollbackVersions.ActionGoesOldestFirst` | src/rollback/firewall_rollback.rs:1045-1142 | after any run of registrations the rollback of an action takes exactly its rules in the order in which they were registered |
| `RollbackVersions.DistinctVersionsComplete` | src/rollback/firewall_rollback.rs:239-270 | with the versions `next_version` would give, the i-th registration is found under version i, and the index is sound and complete |
| `RollbackVersions.VersionIndexCompleteIff` | src/rollback/firewall_rollback.rs:973-1002 | so the index is complete after a run if and only if the counter was advanced or at most one rule registered |
| `RollbackBook.EachRuleSettled` | src/rollback/firewall_rollback.rs:1145-1211 | in the rollback of distinct rules each record ends RolledBack, ManuallyRemoved or RollbackFailed with two more generations after a removal, a rule not found or a refusal, ManuallyRemoved with one more if the rule was known to be gone, and as it was otherwise; its table entry with it |
| `RollbackBook.AnswersDecide` | src/rollback/firewall_rollback.rs:1145-1211 | if no rule is named twice, a record is newly RolledBack if and only if this rollback made a call for it that was answered Removed, and every answer is in its record |
| `RollbackBook.StateByLastChange` | src/rollback/firewall_rollback.rs:1145-1211 | however often a rule is named, its record ends in the state of the last attempt that changed it |
| `RollbackEngineModule.RepeatedRemovalIsManual` | src/rollback/firewall_rollback.rs:1145-1211 | a rule that was removed and is named again ends ManuallyRemoved with three more generations, after one call |
| `RollbackBook.OthersUntouched` | src/rollback/firewall_rollback.rs:1053-1067 | a rule that is not rolled back keeps its record and its table entry |
| `RollbackBook.CallsNewestFirst` | src/rollback/firewall_rollback.rs:1045-1053 | the backend is called in descending order of versions |
| `RollbackEngineModule.RollbackGuarantees` | src/rollback/firewall_rollback.rs:1021-1091 | a rollback of any scope calls the backend newest first and only for rules of the scope, leaves every other rule untouched, and succeeded + failed = total = number of results |
| `RollbackEngineModule.ResolveAgain` | src/rollback/firewall_rollback.rs:1094-1142 | resolving the same scope again gives exactly the rules that failed or were skipped (for All, without the backend failures) and no other rule |
| `RollbackEngineModule.SecondRollbackIsEmpty` | src/rollback/firewall_rollback.rs:1006-1211 | with a backend that confirms every removal and nobody holding a rule of the scope, a second rollback finds nothing |
| `RollbackEngineModule.EachStepFits` | src/rollback/firewall_rollback.rs:1151-1164 | the outcome of each rule is the one the coordinator's table allows at the start of the rollback |
| `RollbackEngineModule.ResultSpelledOut` | src/rollback/firewall_rollback.rs:1053-1090 | the result of each rule, by what the table says at the start and the backend answers |
| `RollbackEngineModule.RollbackEngine.RegisterRule` | src/rollback/firewall_rollback.rs:973-1002 | journal first, then memory; every field of the new record, whose version is the counter's; the counter stays; the rule at the end of its action's list; the indexes agree afterwards if and only if rule and version are new |
| `RollbackEngineModule.RegisteredIsFound` | src/rollback/firewall_rollback.rs:1094-1142 | a registered rule is found by its action, its journal entry and the scope of all rules, by no other action or journal entry, and by a time range if and only if that holds the moment it was registered |
| `RollbackEngineModule.RollbackEngine.Recover` | src/rollback/firewall_rollback.rs:934-970 | the registry is rebuilt from exactly the journaled records in state Active, RollingBack or RollbackFailed, as they are, and the five counts are those of the records found; with no final record in the journal the registry equals the replay |
| `RollbackEngineModule.CountsAddUp` | src/rollback/firewall_rollback.rs:934-970 | every record found is in exactly one of the four counts |
| `RollbackEngineModule.RollbackEngine.ResolveScope` | src/rollback/firewall_rollback.rs:1094-1142 | for each of the six scopes the result lists exactly the rules of the scope in state Active or, unless all rules are asked for, RollingBack or RollbackFailed; distinct unless the caller's list repeats one; in the order of the caller's list, or of the list of the action or journal entry |
| `RollbackEngineModule.RollbackEngine.RollbackSingleRule` | src/rollback/firewall_rollback.rs:1145-1211 | for a free registered rule one backend call between the two journal lines, and by its answer the final state with two more generations, the table entry, the lines and the result; without a call otherwise: ManuallyRemoved with one more generation if known to be gone, taken for good if not registered, skipped if a TTL worker holds it, an error if another rollback does |
| `RollbackEngineModule.RollbackEngine.ExecuteRollback` | src/rollback/firewall_rollback.rs:1006-1018 | the whole effect of a rollback, tied to the functions the theorems are about: the marks around it, the flag down again, the counts of the report, and for rules named once each result by the table and the answer and each record by the calls, newly RolledBack if and only if the backend removed it |
| `RollbackEngineModule.RollbackEngine.NotifyTtlExpired` | src/rollback/firewall_rollback.rs:1278-1284 | a registered rule becomes Expired and leaves the journal; an unknown one changes nothing |
| `ActionJournal.Journal.constructor` | src/rollback/journal.rs:205-249 | loading any file, terminated or not, gives its last valid record per entry, and an id counter just above the largest |
| `ActionJournal.Journal.Prepare` | src/rollback/journal.rs:256-281 | a new id and one new record; a reload finds it, and equals the memory if it did before, exactly if the file ended in a newline |
| `ActionJournal.Journal.Commit` | src/rollback/journal.rs:284-298 | nothing for an unknown entry; otherwise the state alone changes of what the checksum covers, under a new stamp and checksum, in memory and in one more record, which a reload finds exactly if the file ended in a newline or the very same record was there before; a terminated file that reloads to the memory stays so |
| `ActionJournal.Journal.MarkRolledBack` | src/rollback/journal.rs:301-314 | the same for a rollback mark |
| `ActionJournal.Journal.MarkRollbackFailed` | src/rollback/journal.rs:317-330 | the same for a failure mark |
| `ActionJournal.TornLinesSkipped` | src/rollback/journal.rs:219-242 | a terminated line that does not parse is as good as absent, wherever it stands |
| `ActionJournal.AppendSeenIff` | src/rollback/journal.rs:333-349 | a reload after an append of a record that is not there yet is the former one with that record, if and only if the file ended in a newline |
| `ActionJournal.CrashedAppendReloads` | src/rollback/journal.rs:333-349 | on a terminated file every point at which an append can be interrupted reloads to the entries before or after it |
| `ActionJournal.TwoRecordsLost` | src/rollback/journal.rs:205-249 | a complete record without its newline is found by the next load, and gone after the append that follows, together with the record appended |
| `ActionJournal.AppendsReload` | src/rollback/journal.rs:333-349 | an unterminated line costs exactly itself and the first of the records that follow |
| `ActionJournal.HistoryReloads` | src/rollback/journal.rs:205-249 | after any history of writes and interrupted writes a reload finds the last valid word on each entry among the records that had a line of their own; these are all complete records if and only if nothing but a further cut follows a cut and nothing follows a missing newline |
| `ActionJournal.Journal.GetUncommitted` | src/rollback/journal.rs:352-365 | every prepared entry exactly once, with its own action, type and compensation data |
| `ActionJournal.Journal.Compact` | src/rollback/journal.rs:388-425 | exactly the max(0, finished - keep_last) oldest Committed or RolledBack entries go, never another; the rewritten file is terminated and reloads to what is left, whatever had been lost before |
| `ActionJournal.RewriteReloads` | src/rollback/journal.rs:428-448 | a file that holds each entry once, in any order, reloads to the same map |
| `ActionJournal.OldestArePrefix` | src/rollback/journal.rs:392-412 | cutting the finished entries sorted by age at all but `keep_last` gives the oldest of them |
| `Recovery.Compensator.Compensate` | src/rollback/compensator.rs:92-145 | at most `max_retries` calls, all of this entry, stopping at the first success; failure only after all of them, or at once without a handler |
| `Recovery.Compensator.CompensateAll` | src/rollback/compensator.rs:148-185 | each entry is compensated once, in the order of the sort by descending id, and failures do not stop the others |
| `Recovery.RecoveryManager.NeedsRecovery` | src/rollback/recovery.rs:98-101 | true exactly when some entry is prepared |
| `Recovery.RecoveryManager.Recover` | src/rollback/recovery.rs:109-164 | every prepared entry is compensated exactly once in strictly descending id order; every handler call is for a prepared entry, under its own action type and with its own compensation data, and there are no others; each entry is then RolledBack or RollbackFailed by its result, with nothing else changed of what the checksum covers; the file gets one mark for each in that order; recovered + failed = number found; nothing prepared is left in memory |
| `Recovery.MarkedAll` | src/rollback/recovery.rs:131-150 | every prepared entry becomes RolledBack if its compensation succeeded and RollbackFailed if not, every other entry is unchanged |
| `Recovery.SecondRecoveryIsEmpty` | src/rollback/recovery.rs:109-119 | a second recovery finds nothing to compensate |
| `Recovery.PreparedAfterRestartIff` | src/rollback/recovery.rs:109-164 | after a recovery and a restart an entry is still prepared if and only if the file did not end in a newline, its terminated lines hold the entry prepared, and no mark but possibly the first is of it |
| `Recovery.TornTailCompensatesAgain` | src/rollback/recovery.rs:109-164 | behind a partial line that is the newest prepared entry, and no other |
| `AuditEntry.SequenceRecovered` | src/audit/immutable.rs:403-408 | equal encodings have equal sequence numbers, for all 64-bit numbers |
| `AuditEntry.PreviousHashRecovered` | src/audit/immutable.rs:454-466 | equal encodings have equal previous hashes and checkpoint parts, by their widths from the end |
| `AuditEntry.HashedInOrder` | src/audit/immutable.rs:403-467 | the order of the parts in the encoding, for an entry that has them all |
| `AuditEntry.ByteAt` | src/audit/immutable.rs:407-464 | numbers are encoded least significant byte first |
| `AuditEntry.ContentDeterminedIff` | src/audit/immutable.rs:403-452 | equal content bytes come from equal contents if and only if the layouts are the same and the snapshots agree in type, data and capture time |
| `AuditEntry.EncodingDeterminesIff` | src/audit/immutable.rs:403-467 | equal encodings come from entries that are equal in all but the computed hash if and only if the layouts are the same and the unhashed parts of the snapshots are equal, for all 64-bit numbers |
| `AuditChain.VerifyChain` | src/audit/immutable.rs:936-996 | the verifier passes exactly the well-linked logs; otherwise it stops at the first bad entry and names it |
| `AuditChain.LoadChainState` | src/audit/immutable.rs:901-933 | the loading loop computes the state at the end of the log |
| `AuditChain.ReloadContinues` | src/audit/immutable.rs:901-933 | on a well-linked log the loaded number and hash continue the chain |
| `AuditChain.LastHashBindsHistory` | src/audit/immutable.rs:936-996 | two verified logs with checkpoints at the same positions that end in one hash have equal length, equal encodings and equal hashes entry by entry, unless the hash collides between them |
| `AuditChain.LastHashBindsLogIff` | src/audit/immutable.rs:936-996 | such logs are one and the same if and only if their entries have the same layout and equal unhashed parts, one by one |
| `AuditChain.SnapshotsNotBound` | src/audit/immutable.rs:160-170 | exchanging type, data and capture time in the snapshots of any entry of any log leaves it linked if and only if it was, with the same last hash, and is another log exactly if there was a snapshot to take the change |
| `AuditRuns.EveryCrashPointIsSound` | src/audit/immutable.rs:1000-1147 | for every interleaving of appends, checkpoints and restarts, and a crash after any step: the log verifies, a restart resumes it where it ends, and a surviving write-ahead record is either the last log entry or a valid next one, never both |
| `AuditRuns.LogKeepsClaims` | src/audit/immutable.rs:1000-1147 | in every interleaving of appends, checkpoints and restarts each log entry carries the content its writer set out to write: what was appended, as it was given, or the stamp of a checkpoint |
| `AuditRuns.StepKeepsChain` | src/audit/immutable.rs:652-672 | each of the steps of an append, a checkpoint or a restart keeps that |
| `AuditRuns.SuccessorIsUnique` | src/audit/immutable.rs:936-996 | the number, link and hash of a next entry are fixed by the log and its content |
| `AuditRuns.SurvivorKeptIff` | src/audit/immutable.rs:857-866 | the record that survives in the write-ahead log is cleared by a restart, and its entry is in the log afterwards if and only if the log had been written before the crash |
| `AuditRuns.PreparedEntryIsLost` | src/audit/immutable.rs:857-866 | an entry that had reached only the write-ahead log is gone after a restart, and its number is given away |
| `AuditRuns.LoggerHistoryIsBound` | src/audit/immutable.rs:1000-1147 | the binding theorem for the logs of any two runs of the logger at any two crash points |
| `AuditLoggerModule.ImmutableAuditLogger.constructor` | src/audit/immutable.rs:855-898 | taking over a log is the restart step, and continues a well-linked log |
| `AuditLoggerModule.ImmutableAuditLogger.Open` | src/audit/immutable.rs:834-898 | one line of the log or of the write-ahead log that does not parse, and the logger is refused with both files as they were; otherwise the write-ahead log is emptied, and a logger is refused exactly when verification is asked for, the log is taken to be non-empty and it is broken, with the number of the first bad entry; else it is opened by the restart step |
| `AuditLoggerModule.ImmutableAuditLogger.Append` | src/audit/immutable.rs:1000-1058 | the entry returned is the one written next, carries the appended content, the next number and the last hash, and is no checkpoint; the four file writes of each entry come in order; an append with its checkpoint decision is exactly its eleven steps of the run model, and leaves a logger that continues its log |
| `AuditLoggerModule.ImmutableAuditLogger.MaybeCheckpoint` | src/audit/immutable.rs:1061-1076 | nothing below the interval, otherwise the checkpoint of what was read before the lock was taken again |
| `AuditLoggerModule.ImmutableAuditLogger.CreateCheckpoint` | src/audit/immutable.rs:1079-1147 | the checkpoint that is written, and the memory after it |
| `AuditLoggerModule.ScriptAppends` | src/audit/immutable.rs:1000-1147 | those steps from rest end at rest with the log and memory of one append |
| `AuditLoggerModule.TrailIsRun` | src/audit/immutable.rs:1010-1021 | the files after each of those writes are those of the run model after the same step |
| `AuditLoggerModule.AppendKeepsLinked` | src/audit/immutable.rs:1000-1147 | an append to a well-linked log leaves it well linked |
| `AuditLoggerModule.RunsKeepContents` | src/audit/immutable.rs:1000-1058 | in every sequential run the contents of the entries that are no checkpoints are exactly the appended ones, in order |
| `AuditLoggerModule.RunsAreAnchored` | src/audit/immutable.rs:1061-1137 | in every sequential run from an empty log and without a restart, sequence s is a checkpoint exactly when s mod (k+1) = 0 for an interval k of at least one; its count is the number of leaves under its root, and its cumulative hash is the left fold over all earlier entry hashes |
| `AuditLoggerModule.AppendKeepsAnchors` | src/audit/immutable.rs:1022-1076 | one append keeps that |
| `AuditRestart.ReloadRestoresFoldBefore` | src/audit/immutable.rs:901-933 | where checkpoints carry the fold of what precedes them, the reload returns the fold of the log before its last checkpoint, or nothing if it has none |
| `AuditRestart.RestartRestoresFoldIff` | src/audit/immutable.rs:882-889 | that is the running hash of the whole log if and only if the log is empty, unless the hash collides in the fold |
| `AuditRestart.RestartRestoresMemoryIff` | src/audit/immutable.rs:882-889 | after every run without a restart, restarting gives back the running hash if and only if nothing was appended, and the pending hashes if and only if there are none |
| `AuditInterleaving.CheckpointAnchorsIff` | src/audit/immutable.rs:1061-1137 | in every interleaving of appends and checkpoints without a restart, a checkpoint carries the number, the root and the fold of what precedes it since the last one if and only if nothing was written between its decision and its turn |
| `AuditInterleaving.OvertakenCheckpointLosesLeaf` | src/audit/immutable.rs:1069-1128 | the hash of an append in between is pending and not among the leaves, and cleared with them |
| `AuditInterleaving.CheckpointBindsLeaves` | src/audit/immutable.rs:1079-1137 | two checkpoints that anchor well-linked logs with the same count and root have the same leaves, unless the hash collides under the root |
| `Merkle.ComputeMerkleRoot` | src/audit/immutable.rs:707-738 | the level-by-level loop terminates and computes the root of the levels |
| `Merkle.RootIsTree` | src/audit/immutable.rs:719-735 | that root is the one of the recursive tree over the leaves in which a missing right half is a copy of the left |
| `Merkle.SmallRoots` | src/audit/immutable.rs:707-735 | the roots of lists of up to three hashes: left before right, the odd one doubled |
| `Merkle.RootBinds` | src/audit/immutable.rs:707-738 | lists of equally many hashes with one root are equal, unless the hash collides on the way |
| `Merkle.SameRootIff` | src/audit/immutable.rs:707-738 | lists of hashes with one root are equal if and only if they are equally many, unless the hash collides on the way |
| `Merkle.LevelAboveHasSameRoot` | src/audit/immutable.rs:719-735 | the level above a list of at least two hashes, as a list, has the same root and fewer hashes, whatever the hash |
| `Merkle.OddTailRepeats` | src/audit/immutable.rs:726-731 | repeating the last of an odd number of at least three hashes leaves the root unchanged, whatever the hash |
| `LogFiles.ParsesIff` | src/audit/immutable.rs:901-933 | such a loader succeeds if and only if every line parses, and then with their records in order |
| `LogFiles.LoadsIff` | src/firewall/ttl.rs:444-548 | after any history of writes and interrupted writes the file loads if and only if no record was ever cut and nothing was written behind a missing newline, and then to exactly the records written |
| `LogFiles.StaysUnreadable` | src/rollback/firewall_rollback.rs:737-783 | a file that does not load never does again, whatever is appended |
| `LogFiles.SurvivorsAreRead` | src/rollback/journal.rs:205-249 | what a loader that skips lines finds after any history |
| `LogFiles.AllSurviveIff` | src/rollback/journal.rs:333-349 | all complete records survive a history if and only if nothing but a further cut follows a cut and nothing follows a missing newline |
| `TornWrites.TtlCrashLoadsIff` | src/firewall/ttl.rs:522-548 | in every run from the empty engine, after a crash in the middle of any write the log loads if and only if the record was not cut, and then every registered rule is found |
| `TornWrites.RollbackCrashLoadsIff` | src/rollback/firewall_rollback.rs:737-783 | the same for any interleaving of the rollback workers: loaded, and every registered rule is found or known to be gone, if and only if the record was not cut |
| `TornWrites.AuditCrashOpensIff` | src/audit/immutable.rs:834-866 | after a crash in the middle of a write to the audit log the logger opens if and only if the record was not cut, although the write-ahead log holds the whole entry; the log it opens is well linked |
| `RuleComment.RoundTripIff` | src/firewall/iptables.rs:121-150 | parsing the printed comment gives the metadata back if and only if the rule id has no colon, for all 64-bit times |
| `RuleComment.TagNumbers` | src/firewall/iptables.rs:121-150 | Block, RateLimit and Allow are printed as 0, 1 and 2, and no other number is a type |
| `RuleComment.PrintedParses` | src/firewall/iptables.rs:133-150 | printed decimal numbers of any length within the limit parse back |
| `RuleComment.OtherTexts` | src/firewall/iptables.rs:133-150 | a plus sign is accepted before digits, and overflow, the empty text and any other character are not |
| `RuleComment.CommentParts` | src/firewall/iptables.rs:121-130 | the comment of an id without colons splits into exactly its five fields |
| `Cidr.ContainsIff` | src/firewall/mod.rs:292-315 | the mask test holds exactly when family and leading bits agree, that is, after division by 2^(width - prefix), for widths 32 and 128 |
| `Cidr.MaskValue` | src/firewall/mod.rs:296-300 | the shifted mask is 2^width - 2^(width - prefix), and the shift is in range for every prefix |
| `Cidr.BuiltBlockContains` | src/firewall/mod.rs:265-315 | exactly the prefixes up to the width are accepted; for every block so built the shift is less than the width, or is not made, and `contains` compares the leading bits |
| `Cidr.NestedOrDisjoint` | src/firewall/mod.rs:292-315 | two blocks of one family are disjoint, or the one with the longer prefix lies within the other |
| `CircuitBreakerModule.CircuitBreaker.AllowRequest` | src/core/failure.rs:1343-1362 | a Closed or HalfOpen breaker lets the request through unchanged; an Open one exactly after its timeout, and is then HalfOpen |
| `CircuitBreakerModule.CircuitBreaker.RecordSuccess` | src/core/failure.rs:1365-1383 | the state after a success |
| `CircuitBreakerModule.CircuitBreaker.RecordFailure` | src/core/failure.rs:1386-1404 | the state after a failure |
| `CircuitBreakerModule.ClosedCountsTrailingFailures` | src/core/failure.rs:1365-1433 | over every trace, the count of a Closed breaker is the number of failures since the last success and below the limit, and an Open one knows when it opened |
| `CircuitBreakerModule.OpensExactlyAtLimit` | src/core/failure.rs:1386-1395 | a Closed breaker opens on an event exactly when that makes the failures in a row reach the limit |
| `CircuitBreakerModule.RefusedIff` | src/core/failure.rs:1343-1362 | after every trace a request is refused if and only if the breaker is Open and the timeout since it last opened has not passed |
| `CircuitBreakerModule.HealthyIffClosed` | src/core/failure.rs:1343-1404 | a breaker stays Closed through a whole trace if and only if no prefix ends in as many failures since the last success as open it, and then lets every request through |
| `CircuitBreakerModule.NoRequestBeforeTimeout` | src/core/failure.rs:1343-1362 | in every trace with a clock that never goes back, after an event that opens the breaker it stays Open and lets nothing through until the timeout has passed |
| `CircuitBreakerModule.OpenUntilTimeout` | src/core/failure.rs:1343-1362 | an open breaker is unchanged by whatever happens within the timeout, and lets a request through exactly from then on |
| `CircuitBreakerModule.RecoversExactlyAtQuota` | src/core/failure.rs:1371-1400 | over every trace without a failure, requests among the successes included, a half-open breaker closes exactly when the quota of successes is reached, starting over without failures, and one failure before that opens it again for a whole timeout |

## Left out

- TtlEngineModule.TtlEngine.ProcessExpirations: a rollback may begin at the start of a tick, not in the middle of one; `RemovalProtocol` has every such interleaving.
- ActionJournal.Journal.Prepare: the order of the append and the change in memory within one call is not stated; only the file survives a crash.
- RollbackHistory.RestartKeepsWhatNeedsRollback: runs of rollbacks without repeated ids; `RollbackHistory.RollbackKeepsJournaledIff` gives the exact condition for one rollback.
- RollbackCrashRuns.NoRuleLost: assumes nobody creates a rule under an id whose confirmed removal is not yet journaled; `RollbackCrashRuns.CreationSafeIff` shows that this is exactly what is needed.
- CircuitBreakerModule.CircuitBreaker.RecordFailure: sequential calls only; the separate atomics of concurrent callers are not modelled.
- Cidr.ContainsIff: addresses are numbers of 32 or 128 bits; the further restrictions of `ValidatedIp` and the parsing of address text are not modelled.
- `TtlEngine::extend` beyond its effect on the two indexes: the limit on the total time and the log record it writes.
- Times, generations, versions and counters of the TTL engine, the rollback engine and the action journal are unbounded; the source uses 64 bits without a check. Sequence numbers of the audit log are 64-bit where the encoding is concerned.
- The checksum of a rule record in the rollback journal, which nothing on the modelled paths verifies, and the checksum of a write-ahead record of the audit log.
- TtlHistory.RegisteredRuleIsTrackedAgain: crashes between two effects only, as in `RollbackCrashRuns.NoRuleLost` and `AuditRuns.EveryCrashPointIsSound`. `TornWrites` and `LogFiles.LoadsIff` say what one in the middle of a line does.
- Lines a crash could not have left: an unterminated line is a part of a record or a whole one, and two records on one line are taken not to parse. Lines that are not valid UTF-8 make every loader fail and are not modelled.
- The state hash of a snapshot, which is given and never recomputed from the data, as in the source.
- I/O errors other than as crashes, `fsync`, temporary files and renames; the compacted or rewritten file replaces the old one in one step.
- JSON, UUIDs, timestamps as text and the inside of BLAKE3: records, identifiers, numbers and an unknown function stand for them. The text parts of an audit entry are byte strings.
- The order in which hash maps and hash sets are walked is arbitrary in the model, so orders that depend on it are not stated.
- The action journal's ids may be given again after a compaction and a restart; nothing is stated about ids across restarts.
- `src/observability/versioning.rs`, and the older audit chain in `src/audit/logger.rs`, `src/audit/sink.rs` and `src/audit/integrity.rs`.
- Checkpoint directories of `RecoveryManager`, the retry delay of the compensator, the in-memory cache and metrics of the audit logger, and the convenience methods that build entries.
- Config validation, health, metrics, alerting, privilege handling, sandboxing, process plumbing and the iptables commands themselves.
