# Agent maintainer: a verified model of its stateful and text-rewriting cores

The project models the parts of the repository in which a mistake is hard to see in one function:
a file-backed wait protocol that several processes change, the merge and removal of managed hook
configuration, a per-path debt ratchet, release evidence with expiry windows, and the bounded
selection and bounded text helpers. Every statement below is about all inputs, all runs or all
reachable states of the model.

## The modules

| module | what it models |
|---|---|
| `Wrappers`, `Ordering`, `Text`, `TextLines` | option and result types; sorting and the text order; stripping, searching, splitting and joining lines; what the lines of a text are |
| `WaitRecords`, `WaitProtocol`, `WaitSpacing`, `WaitLocks`, `WaitRegistry` | wait records and the decision of each locked section; runs of atomic transitions; which reading decides how soon a watcher can be repaired again; the lock file as timed steps of many processes; the registry as an object that rewrites its store |
| `WaitOutcomes`, `WaitSessions` | what each section writes, which event brought a record into its status, and what a run of the lock machine does for one process |
| `CodexConfig`, `CodexLines`, `CodexSections`, `CodexFeatures`, `CodexMerge` | the text surgery on the Codex configuration, stage by stage |
| `CodexStability`, `CodexSettling`, `CodexExposed`, `CodexIdempotence`, `CodexOrdinary`, `CodexExamples` | when merging again changes nothing: on the finished text, on the lines left of the existing text, on the existing text itself, and texts on which it does not |
| `CodexOwnership`, `CodexKept` | which sections the merge takes for its own, by literal texts, and what it keeps of a user's configuration |
| `ClaudeHooks`, `ClaudeFields` | stripping, merging and removing managed hook commands in a settings tree; what stays of third-party entries, field by field |
| `FileBaseline`, `FileOutcomes`, `FilePruning` | recording and comparing per-path ceilings; what each answer shows, key by key; what pruning them admits |
| `ReleaseEvidence`, `EvidenceFields` | profile manifests, their aggregation, and its validation at a later time; the same field by field |
| `Sampling`, `ManifestHeap`, `Compression`, `CompressionAnswers`, `Budget` | even sampling, the streaming top 32, extractive compression, and bounded text |

Operations that the source writes as loops or in-place updates are methods, proved equal to
functions; theorems are about those functions. Every lemma carries `{:induction false}`: the
proofs are the ones written down.

## Findings

Where the code does less than its design says, the model follows the code. Each point below names
the lemma with a concrete input and the lemma that says exactly when the code does what it should.

* The hook status check relies on merging the Codex block again changing nothing
  (`src/agent_client_hooks/status.py:140-143`). Four inputs on which it does change something: a text
  without a features section whose first line opens a table gets an empty line in front of it, which
  the next merge strips (`MergeTopsTable`); a `[[hooks.Stop]]` header with trailing whitespace is kept
  and stripped by one merge and dropped as an orphan by the next (`MergeLosesSpacedStop`); removing a
  second hooks line leaves an empty line at the end of the features section, which the next merge
  strips (`MergeExposesEnd`); and a features section with one hooks line can run on into a table whose
  header ends in a comment, once the Stop sections between the two are dropped (`MergeRunsOn`). The
  exact condition, for every text, is one on the sections the text has before the merge
  (`MergeIdempotentOnSections`): of the lines of the sections that are not dropped, none holds a start
  marker but for the hooks lines the merge rewrites, and, with a features section among them, no Stop
  header is left behind and no removed hooks line exposes the open end of a section
  (`MergeIdempotentWithFeatures`), or, without one, they start outside of any section, set no hooks key
  before their first header and leave no Stop header behind (`MergeIdempotentWithoutFeatures`). For an
  existing text with one features header, in column 0, at most one hooks line under it, and a header
  at the start of every section that follows a dropped one, the Stop header is the only failure
  (`MergeIdempotentWhenOrdinary`).
* A waiter looks at the age of a lock file and unlinks it in two steps. After a process dies
  inside a section, two waiters can break the abandoned file one after the other; the first unlink
  removes a file nobody holds, the second one the first waiter's new lock (`StaleBreakRace`). Over
  every run, each process inside owns its lock file in every state exactly when no unlink of the run
  breaks a held lock (`RunProtectedIff`). For timely runs that is exactly when no state of the run has
  a timely continuation, itself without an unlink that breaks a held lock, that puts two processes
  inside (`RunExcludesIff`). Unlinks that all hit stale files meet the condition (`StaleRunSpares`), and
  if every holder releases in time, no waiter ever breaks a lock (`PromptHoldersRefine`).
* `mark_watcher_started` and `mark_watcher_poll` take their timestamp before the lock, so a start
  stamped before a repair claim can shorten the spacing of repairs (`EarlyStampUndercutsSpacing`).
  Later claims are spaced exactly when the reading that decides about them is not older than the
  claim (`RepairsSpacedIff`, failures included); without failures, exactly when no start took effect
  since the claim or the last start or poll since then carries a stamp at or after it
  (`RepairsSpacedWithoutFailure`).
* Pruning can admit debt: with a changed default (`ChangedDefaultAdmitsDebt`), and with unchanged
  defaults when the observations repeat a key, because the comparison sees only the last of them and
  the new baseline records the oversized one (`RepeatedKeyAdmitsDebt`). A prune admits none exactly
  when, key by key, what it records stays within the ceilings stored before
  (`PruneAdmitsNoDebtIff`, for any later defaults); for unchanged defaults, exactly when every
  oversized observation does (`SameDefaultsAdmitNoDebtIff`). Over a run of prunes the same holds for
  all pairs of its baselines together (`RunAdmitsNoDebtIff`) and for any single pair
  (`PairAdmitsNoDebtIff`). Since nonblank lines never outnumber physical ones, a larger nonblank
  ceiling does no harm where the physical ceiling keeps below the old one.
* Release evidence may be dated before its own manifests and still validates
  (`BackdatedEvidenceValidates`). Validated evidence could have been produced at its own date exactly
  when none of its manifests is ahead of that date, beyond the clock skew (`OwnDateIff`).
* An extract can overrun its target by the one separator in front of the filler, with a warning
  that blames required terms (`SeparatorOverruns`). If the preserved lines fit, it does so exactly
  when the filler uses up the room left and no end is stripped (`OverrunIff`).

## Model

| member | source | states |
|---|---|---|
| WaitRecords.SameIdentityIsKernel | src/agent_waits/registry.py:357-373 | the matching rule of registration is equality of identities, so it is an equivalence |
| WaitRecords.SectionKeeps | src/agent_waits/notifications.py:37-246 | every locked section, from any status, keeps id, identity and creation time, never lowers the status rank, never reactivates a record, never changes a once-only key, and freezes the terminal facts outside `pending` |
| WaitOutcomes.WritesIffDue | src/agent_waits/notifications.py:37-246 | for every section, which statuses, ages, metadata and readings make it write, and the one case in which it raises |
| WaitOutcomes.KeyChanges | src/agent_waits/notifications.py:37-246 | every metadata key is stored or removed exactly by the sections about it, with the value they give it, and is otherwise as it was |
| WaitOutcomes.FieldChanges | src/agent_waits/registry.py:177-240 | status, times, state, result and message of a written record |
| WaitOutcomes.BecomesIff | src/agent_waits/notifications.py:149-231 | over every run, a record comes into a status exactly at an effective section of its own that leads there: Resumed only by a resumption or a finish that resumed, NotifyFailed only by a failed finish or a lease repair |
| WaitOutcomes.FinishStores | src/agent_waits/notifications.py:209-231 | a finish or repair stores its time and its allowed reason, and a resumed finish leaves no reason |
| WaitOutcomes.StatusHasCause | src/agent_waits/notifications.py:149-231 | in every reachable state, a record that is no longer pending got its status from an effective event that leads there, and a failed notification still shows the reason of that event |
| WaitProtocol.RunAdvances | src/agent_waits/registry.py:177-240 | along any run, status rank, identity, once-only metadata and terminal facts of a record only advance |
| WaitProtocol.ClaimSucceedsAtMostOnce | src/agent_waits/notifications.py:37-146 | completion, the notification claim, each observation claim, the heartbeat claim and expiry each take effect at most once per wait in any run, stale-lease repair and unguarded resumption included |
| WaitProtocol.CompletionIsPermanent | src/agent_waits/registry.py:198-222 | after a completion takes effect, every later state shows exactly the result, message and state it wrote |
| WaitProtocol.CompletedByExactlyOne | src/agent_waits/registry.py:198-222 | in every reachable state a ready, notifying, failed or expired record was completed by exactly one event, and shows what that event wrote |
| WaitProtocol.RegisterTwice | src/agent_waits/registry.py:126-175 | a registration finds what it registered, so registering the same inputs again adds nothing |
| WaitOutcomes.RegistrationAddsIff | src/agent_waits/registry.py:126-175 | a registration adds a record exactly when no stored wait with the same identity is active |
| WaitOutcomes.SameIdentityMeans | src/agent_waits/registry.py:357-373 | which fields make two identities the same, by kind |
| WaitOutcomes.FreshRecord | src/agent_waits/registry.py:148-175 | a new record is pending, unobserved, and holds the inputs with the heartbeat mode defaulted |
| WaitOutcomes.RecordHasOrigin | src/agent_waits/registry.py:126-175 | every record of a reachable state was added by one registration, and still shows its inputs |
| WaitProtocol.ReusedIdReactivates | src/agent_waits/registry.py:387-389 | ids are built from kind, target and time; a reused id turns a consumed wait pending again, so freshness is needed |
| WaitProtocol.RunKeepsUniqueActive | src/agent_waits/registry.py:126-175 | every reachable state has at most one active record per identity |
| WaitProtocol.RepairsAreSpaced | src/agent_waits/watcher_state.py:130-176 | two successful repair claims are at least the second call's staleness bound apart, whatever polls and starts intervene, if no failure is recorded and no reading older than the first claim is stored between them |
| WaitSpacing.RepairsSpacedIff | src/agent_waits/watcher_state.py:67-176 | after a repair claim, whatever took effect since, the next claim comes at least its staleness bound later exactly when the reading that decides about it is not older than the claim |
| WaitSpacing.RepairsSpacedWithoutFailure | src/agent_waits/watcher_state.py:67-176 | without failures, exactly when no start took effect since, or the last start or poll since then is stamped at or after the claim |
| WaitProtocol.StaysAttended | src/agent_waits/watcher_state.py:67-107 | after a repair claim, starts and polls keep the reference time at or after the claim |
| WaitProtocol.EarlyStampUndercutsSpacing | src/agent_waits/watcher_state.py:67-91 | a start stamped before the claim allows a second claim too soon |
| WaitLocks.CommitIsAtomic | src/agent_waits/record_lock.py:18-46 | a write under the lock equals one atomic transition of the current record |
| WaitLocks.StepRefines | src/agent_waits/record_lock.py:18-57 | every step of the lock machine keeps the protection and refines one atomic step, unless it is an unlink that breaks a held lock |
| WaitLocks.RunRefines | src/agent_waits/record_lock.py:18-57 | every run in which no unlink breaks a held lock excludes concurrent sections of one wait, and its stores are those of a run of atomic transitions |
| WaitLocks.RunProtectedIff | src/agent_waits/record_lock.py:18-57 | over every run from a protected state, whoever is inside owns the lock file, and has read what the store still holds, in every state exactly when no unlink of the run breaks a held lock |
| WaitLocks.RunExcludesIff | src/agent_waits/record_lock.py:18-57 | a timely run breaks no held lock exactly when, from each of its states, every timely continuation in which no later unlink breaks a held lock excludes concurrent sections |
| WaitLocks.StaleRunSpares | src/agent_waits/record_lock.py:27-57 | a run of timely holders whose unlinks all hit stale files breaks no held lock |
| WaitLocks.PromptHoldersRefine | src/agent_waits/record_lock.py:27-57 | with any number of processes, if each holder releases within the staleness bound, at most one process is inside a section and every section is one atomic transition |
| WaitLocks.UnlinkIsSafeIff | src/agent_waits/record_lock.py:54-57 | breaking a lock loses the protection exactly when the file it removes belongs to a process that is inside |
| WaitLocks.BreakerEnters | src/agent_waits/record_lock.py:27-57 | after breaking a held lock, the breaker can go on, timely, to be inside together with the holder |
| WaitLocks.UnlinkExcludesIff | src/agent_waits/record_lock.py:27-57 | every timely continuation of an unlink in which no later unlink breaks a held lock excludes concurrent sections exactly when the lock it breaks is not held |
| WaitLocks.InterleavedClaimsAreUnique | src/agent_waits/notifications.py:37-59 | under real interleaving in which no unlink breaks a held lock, two processes never both commit the same one-shot claim of one wait |
| WaitLocks.StaleBreakRace | src/agent_waits/record_lock.py:54-57 | a complete run with timely holders and one crash that ends with two processes inside; its first unlink breaks no held lock, its second one does |
| WaitSessions.WaiterGivesUp | src/agent_waits/record_lock.py:29-39 | over every run, a poll goes back to creating exactly before five seconds have passed since the last start of its process, and gives up from then on |
| WaitSessions.RestsUntilStarted | src/agent_waits/record_lock.py:29-39 | a process that gave up gets inside again only after another start |
| WaitSessions.BreaksOnlyStale | src/agent_waits/record_lock.py:54-57 | a look at a lock file leads to breaking it exactly when the file is there and more than thirty seconds old |
| WaitSessions.BreakingPolls | src/agent_waits/record_lock.py:35-57 | breaking removes whatever lock file is there by then, and is followed by a look at the deadline |
| WaitSessions.EntersIffFree | src/agent_waits/record_lock.py:31-41 | creating the lock file succeeds, and lets in, exactly when there is none |
| WaitSessions.CommitAppliesSection | src/agent_waits/record_lock.py:18-46 | over every run in which no unlink breaks a held lock, a commit applies the section its process was started with to the record stored by then |
| WaitSessions.ReleaseFrees | src/agent_waits/record_lock.py:42-46 | releasing removes the lock file of the wait and nothing else |
| WaitRegistry.SweepIsRun | src/agent_waits/registry.py:256-304 | a sweep over all records equals running its section once per record, in any order of the ids |
| WaitRegistry.WaitRegistry.Register | src/agent_waits/registry.py:126-175 | returns the matching active record created last, or stores and returns a new pending one, and changes nothing else |
| WaitRegistry.WaitRegistry.Read | src/agent_waits/registry.py:242-254 | the stored record, or not found |
| WaitRegistry.WaitRegistry.Observe | src/agent_waits/registry.py:177-196 | the observe transition, and the record it returns |
| WaitRegistry.WaitRegistry.Complete | src/agent_waits/registry.py:198-222 | the complete transition, and the record it returns |
| WaitRegistry.WaitRegistry.MarkResumed | src/agent_waits/registry.py:224-240 | the resume transition from any status |
| WaitRegistry.WaitRegistry.ClaimReadyForNotification | src/agent_waits/registry.py:256-275 | sweeps the heartbeat claim over the store and reports exactly the records it wrote, once each |
| WaitRegistry.WaitRegistry.ExpireReadyRecords | src/agent_waits/registry.py:278-304 | sweeps expiry over the store and reports exactly the records it wrote, once each |
| WaitRegistry.WaitRegistry.ClaimTerminalNotification | src/agent_waits/notifications.py:37-59 | the notification claim, granted exactly from ready |
| WaitRegistry.WaitRegistry.ClaimTheObservation | src/agent_waits/notifications.py:130-146 | the observation claim, granted exactly when eligible and not yet recorded |
| WaitRegistry.WaitRegistry.FinishTerminalNotification | src/agent_waits/notifications.py:149-170 | finishes a claimed notification as resumed or failed, and leaves other statuses alone |
| WaitRegistry.WaitRegistry.RepairStaleNotifications | src/agent_waits/notifications.py:173-206 | sweeps lease repair over all waits or the one given, and reports exactly the repaired records; a negative lease does nothing |
| WaitRegistry.WaitRegistry.ClaimWatcherRepair | src/agent_waits/watcher_state.py:150-176 | the repair claim, granted exactly when pending, inactive and stale, with an unparsable reference as an error |
| WaitRegistry.WaitRegistry.UpdateMetadata | src/agent_waits/watcher_state.py:191-211 | while pending, updates, then removals, then the cleared failure keys; otherwise nothing |
| WaitRegistry.WaitRegistry.MarkWatcherStarted | src/agent_waits/watcher_state.py:67-91 | the watcher-started transition |
| WaitRegistry.WaitRegistry.MarkWatcherPoll | src/agent_waits/watcher_state.py:94-107 | the watcher-poll transition |
| WaitRegistry.WaitRegistry.MarkWatcherFailed | src/agent_waits/watcher_state.py:110-127 | the watcher-failed transition, with only allowed failure codes |
| CodexConfig.StripManagedBlock | src/agent_client_hooks/merge.py:39-51 | the loop terminates with a text that does not hold both markers, or reports an end marker missing after the first start marker |
| CodexOwnership.StripCuts | src/agent_client_hooks/merge.py:39-51 | cuts out one block after the other, each from the first start marker through the first end marker behind it, until a marker is missing, and fails exactly when no end marker follows |
| CodexOwnership.AroundBlockKept | src/agent_client_hooks/merge.py:39-51 | the text before and the text after a single block are kept as they are |
| CodexConfig.SplitTomlSections | src/agent_client_hooks/merge.py:82-95 | groups the lines into sections, each but the first starting with a bracket in column 0 and none holding another such line |
| CodexConfig.PreviousHookIndexes | src/agent_client_hooks/merge.py:63-79 | exactly the managed sections, the parents of managed sections, and the orphaned parents |
| CodexOwnership.DroppedIffGoes | src/agent_client_hooks/merge.py:63-132 | the dropped sections are those that go, said by their lines and by literal texts |
| CodexOwnership.EventHeaderGoesIff | src/agent_client_hooks/merge.py:98-132 | an event header goes exactly when the section behind it is its child and names an owner text, when it names one itself, or as an orphan |
| CodexOwnership.UserSectionSurvives | src/agent_client_hooks/merge.py:54-109 | a section that is no PostToolUse or Stop section, or names none of the three owner texts, survives with its end stripped, unless it is blank or an event header |
| CodexOwnership.OursNeverSurvives | src/agent_client_hooks/merge.py:54-109 | a PostToolUse or Stop section with an owner text never survives |
| CodexOwnership.StripPreviousLeaves | src/agent_client_hooks/merge.py:54-60 | the drop stage leaves exactly the lines of the sections that do not go, with their ends stripped |
| CodexConfig.FeaturesSectionBounds | src/agent_client_hooks/merge.py:150-161 | the bounds of the features section |
| CodexConfig.ScanFinds | src/agent_client_hooks/merge.py:150-161 | the found section starts at a features line, holds no header and no other features line, and ends at a header or the end; nothing is found exactly when there is no features line |
| CodexConfig.NormalizeFeatureSection | src/agent_client_hooks/merge.py:164-179 | one enabled hooks line in the place of the first, the others dropped |
| CodexKept.NormalizedIs | src/agent_client_hooks/merge.py:164-179 | the lines that set no hooks key stay as they are and in order, and one enabled line stands where the first hooks line stood, or at the end |
| CodexKept.EnsureIsParts | src/agent_client_hooks/merge.py:135-179 | enabling rewrites the lines of the features section that scanning finds, and no others |
| CodexKept.HasFeaturesIff | src/agent_client_hooks/merge.py:150-161 | a features section is found exactly when a line reads so |
| CodexKept.MergedTextIs | src/agent_client_hooks/merge.py:30-36 | the merged text is the surviving lines of the existing text, enabled, then an empty line and the block |
| CodexKept.MergeFailsIff | src/agent_client_hooks/merge.py:30-51 | merging fails exactly when cutting the old block does |
| CodexKept.MergeKeepsSection | src/agent_client_hooks/merge.py:30-36 | every section of a user's configuration that does not go is in front of the block, in one piece |
| CodexKept.MergeDropsOurs | src/agent_client_hooks/merge.py:30-36 | the text in front of the block holds no PostToolUse or Stop section with an owner text |
| CodexLines.StripPreviousLines | src/agent_client_hooks/merge.py:54-60 | dropping old sections yields the kept lines; their weight never exceeds that of the text and equals it only if every section is kept as it is |
| CodexLines.StripPreviousFixedIff | src/agent_client_hooks/merge.py:54-60 | a stripped text is left unchanged exactly when none of its sections is dropped, blank or has an end to strip |
| CodexSections.SectionsKept | src/agent_client_hooks/merge.py:54-95 | splitting the result again gives exactly the kept sections |
| CodexSections.StripPreviousIdempotentIff | src/agent_client_hooks/merge.py:54-132 | dropping old hook sections is idempotent exactly when no lone Stop header is left without a Stop child |
| CodexFeatures.EnsureEnables | src/agent_client_hooks/merge.py:135-147 | enabling leaves a features section with exactly one hooks line, also after stripping the end |
| CodexFeatures.EnabledFixed | src/agent_client_hooks/merge.py:135-179 | enabling an enabled text changes nothing |
| CodexMerge.BlockCutsOut | src/agent_client_hooks/merge.py:30-51 | cutting the appended block leaves the text in front of it |
| CodexStability.MergeIdempotentIff | src/agent_client_hooks/merge.py:30-36 | for every text, merging again changes nothing exactly when no stray start marker is left in front of the block and that text is final |
| CodexStability.StrayStartLost | src/agent_client_hooks/merge.py:39-51 | a stray start marker in front of the block makes the next pass cut everything after it |
| CodexIdempotence.MergeIdempotentWithFeatures | src/agent_client_hooks/merge.py:30-179 | with a features section and no start marker, merging again changes nothing exactly when dropping left no Stop header behind and removing hooks lines exposed no open end |
| CodexExposed.EnsureEnds | src/agent_client_hooks/merge.py:135-179 | enabling leaves no section with an end to strip exactly when no open end stands in front of removed hooks lines that an opening line follows |
| CodexExposed.CoreSettledIff | src/agent_client_hooks/merge.py:54-179 | with a features section, the next pass keeps every section as it is exactly when no Stop header was left behind and no open end exposed |
| CodexIdempotence.FeaturesKept | src/agent_client_hooks/merge.py:54-60 | a features header in column 0 of the existing text survives the drop stage |
| CodexIdempotence.MergeIdempotentWithoutFeatures | src/agent_client_hooks/merge.py:135-147 | without a features section, merging again changes nothing exactly when the rest does not start with a section, sets no hooks key before its first header, and leaves no Stop header behind |
| CodexIdempotence.MergeIdempotentWhenEmpty | src/agent_client_hooks/merge.py:135-139 | with nothing left but the block, one merge settles the text |
| CodexIdempotence.CoreMarkIff | src/agent_client_hooks/merge.py:30-36 | the text in front of the block holds a start marker exactly when a line left by the drop stage does that the merge does not rewrite |
| CodexIdempotence.MergeIdempotentOnSections | src/agent_client_hooks/merge.py:30-179 | for every text, in terms of the sections it has before the merge: the exact condition under which merging again changes nothing |
| CodexIdempotence.BareAreLeft | src/agent_client_hooks/merge.py:54-60 | the lines left by the drop stage are those of the sections that are not dropped, each with its end stripped |
| CodexOrdinary.OrdinaryKeepsOne | src/agent_client_hooks/merge.py:54-161 | an ordinary text keeps its features section and at most one hooks line in it through the drop stage |
| CodexOrdinary.NoFeaturesKept | src/agent_client_hooks/merge.py:54-161 | a text without a features line has none after the drop stage |
| CodexOrdinary.MergeIdempotentWhenOrdinary | src/agent_client_hooks/merge.py:30-179 | for an ordinary text without a start marker, merging again changes nothing exactly when no Stop header is left behind |
| CodexExamples.SpacedStopLost | src/agent_client_hooks/merge.py:123-132 | a concrete text on which dropping twice differs from dropping once |
| CodexExamples.MergeLosesSpacedStop | src/agent_client_hooks/merge.py:30-132 | merging twice differs from merging once: a spaced Stop header |
| CodexExamples.MergeExposesEnd | src/agent_client_hooks/merge.py:135-179 | merging twice differs from merging once: two hooks lines with an empty line between them |
| CodexExamples.MergeRunsOn | src/agent_client_hooks/merge.py:85-179 | merging twice differs from merging once although the text has one hooks line in its features section and no Stop header is left behind |
| CodexExamples.MergeTopsTable | src/agent_client_hooks/merge.py:135-147 | merging twice differs from merging once: a table on the first line and no features section |
| ClaudeHooks.StripManagedEntry | src/agent_client_hooks/claude_merge.py:55-104 | the recursive strip, with its loop over nested hooks |
| ClaudeHooks.StripRemovesManaged | src/agent_client_hooks/claude_merge.py:55-104 | a removal is reported exactly when a managed command sits at some `hooks` depth, none is left, and an entry without one is unchanged |
| ClaudeFields.SurvivesIff | src/agent_client_hooks/claude_merge.py:76-104 | an entry survives exactly when it is no null, runs no managed command itself, and holds none below or has a nested entry that survives |
| ClaudeFields.StripLeaves | src/agent_client_hooks/claude_merge.py:102-104 | an entry that survives keeps all of its fields but `hooks`, and so does every surviving entry nested in it |
| ClaudeHooks.CleanEntries | src/agent_client_hooks/removal.py:61-71 | the cleaning loop |
| ClaudeHooks.CleanRemovesManaged | src/agent_client_hooks/removal.py:61-71 | cleaning leaves no managed command and no null, and without managed commands only drops nulls |
| ClaudeFields.CleanLeaves | src/agent_client_hooks/removal.py:61-71 | cleaning leaves exactly what is left of the surviving entries, in order |
| ClaudeFields.ChainKept | src/agent_client_hooks/claude_merge.py:76-104 | a third-party entry is found again at the same depth, with all fields of the entries around it but their `hooks` |
| ClaudeHooks.ThirdPartyStays | src/agent_client_hooks/claude_merge.py:41-52 | a third-party entry keeps its place between whatever is left of its neighbours |
| ClaudeHooks.MergeClaudeEvent | src/agent_client_hooks/claude_merge.py:29-52 | the splice, with the loop that finds the insertion index |
| ClaudeHooks.InsertionPlace | src/agent_client_hooks/claude_merge.py:41-52 | the managed entries go directly behind what is kept of the entries before the first managed one |
| ClaudeHooks.MergeEventShape | src/agent_client_hooks/claude_merge.py:29-38 | the merged event is the kept entries with the managed ones as one contiguous run, and no managed command elsewhere |
| ClaudeFields.MergeLeaves | src/agent_client_hooks/claude_merge.py:29-52 | the managed entries stand between what is left of the entries in front of the first one with a managed command and what is left of the others, or at the end |
| ClaudeFields.InstallKeeps | src/agent_client_hooks/claude_merge.py:12-26 | installing leaves the other settings and the other events alone, and says what becomes of each managed event |
| ClaudeFields.InstallFailsIff | src/agent_client_hooks/claude_merge.py:12-26 | it fails exactly on managed settings without a hooks object |
| ClaudeFields.InstallKeepsThirdParty | src/agent_client_hooks/claude_merge.py:12-104 | it keeps every third-party command and all fields of the entries around it |
| ClaudeHooks.MergeEventIdempotent | src/agent_client_hooks/claude_merge.py:29-38 | merging the same fully managed entries again changes nothing |
| ClaudeHooks.HooksObject.MergeAll | src/agent_client_hooks/claude_merge.py:24-25 | the in-place loop over managed events |
| ClaudeHooks.HooksObject.RemoveManagedEvents | src/agent_client_hooks/removal.py:42-58 | the in-place removal loop, and whether it changed anything |
| ClaudeFields.RemoveLeaves | src/agent_client_hooks/removal.py:42-58 | an event goes exactly when a command was removed from it and nothing survives |
| ClaudeFields.UninstallKeeps | src/agent_client_hooks/removal.py:11-28 | uninstalling leaves the other settings alone, and fails exactly on settings that are no object |
| ClaudeFields.HooksVanishIff | src/agent_client_hooks/removal.py:11-58 | it drops the hooks object exactly when there is an event and every event is left empty |
| ClaudeFields.UninstallKeepsThirdParty | src/agent_client_hooks/removal.py:11-71 | it keeps every third-party command and all fields of the entries around it |
| ClaudeHooks.MergeSettingsIdempotent | src/agent_client_hooks/claude_merge.py:12-26 | installing twice equals installing once, for any current settings |
| ClaudeHooks.HooksCancelIff | src/agent_client_hooks/removal.py:42-58 | on the hooks object, removing after merging equals removing directly exactly when every managed event is absent or restorable |
| ClaudeHooks.InstallUninstallCancelsIff | src/agent_client_hooks/removal.py:11-28 | install then uninstall equals uninstall exactly when `hooks` is absent, or a non-empty object in which every managed event is absent or a restorable array |
| FileBaseline.Compare | src/agent_maintainer/assess/file_baseline_state.py:149-177 | the two loops: deltas of observed keys in key order, then removals |
| FileBaseline.KeyOrder | src/agent_maintainer/assess/file_baseline_state.py:33-37 | group and path order the keys totally |
| FileBaseline.DeltasMean | src/agent_maintainer/assess/file_baseline_state.py:203-261 | every delta is a regression or an improvement, never both; new paths are regressions; flags, counts and ceilings are those of its key |
| FileOutcomes.ObservedDeltaIff | src/agent_maintainer/assess/file_baseline_state.py:149-261 | for the last observation of a key and what is stored for it: there is a delta exactly when an active count regresses or improves, and its eleven fields |
| FileOutcomes.UnseenDeltaIff | src/agent_maintainer/assess/file_baseline_state.py:164-176 | the deltas of keys that are no longer observed, field by field |
| FileOutcomes.DeltasInOrder | src/agent_maintainer/assess/file_baseline_state.py:149-177 | the observed keys come first and the removed ones last, each in group and path order and each once |
| FileBaseline.ReportedIff | src/agent_maintainer/assess/file_baseline_state.py:149-227 | a comparison reports exactly the keys that regressed, improved, or are stored but no longer observed |
| FileBaseline.PassedIffAccepted | src/agent_maintainer/assess/file_baseline_state.py:112-115 | a comparison passes exactly when the current observation of every key is within its effective ceilings |
| FilePruning.AcceptedByCeilings | src/agent_maintainer/assess/file_baseline_state.py:230-250 | acceptance is staying within the effective ceilings in every active dimension |
| FileBaseline.CreatedMembers | src/agent_maintainer/assess/file_baseline_state.py:128-146 | a baseline holds exactly the records of the oversized observations, under distinct keys |
| FileOutcomes.CreateFailsIff | src/agent_maintainer/assess/file_baseline_state.py:68-146 | recording is refused for more than 20000 oversized observations, then for a malformed commit, then for two oversized observations of one key, and for nothing else |
| FileOutcomes.CreatedRecords | src/agent_maintainer/assess/file_baseline_state.py:128-146 | one entry per oversized observation, in key order, with its counts in the active dimensions and zero in the others |
| FileOutcomes.PruneFailsIff | src/agent_maintainer/assess/file_baseline_state.py:180-190 | pruning is refused exactly when the last observation of some key regresses, and otherwise records afresh |
| FileBaseline.CreatedSorted | src/agent_maintainer/assess/file_baseline_state.py:68-75 | its entries come out in key order |
| FilePruning.OwnBaselineHasNoDeltasIff | src/agent_maintainer/assess/file_baseline_state.py:128-177 | observations have no deltas against their own baseline exactly when the last observation of every key reaches what is recorded for it |
| FilePruning.OwnBaselineHasNoDeltas | src/agent_maintainer/assess/file_baseline_state.py:128-177 | in particular with one observation per key |
| FilePruning.NoNewDebtIff | src/agent_maintainer/assess/file_baseline_state.py:230-250 | whatever passes against one baseline passes against another exactly when its ceilings are within the other's, key by key |
| FilePruning.CreatedCeilings | src/agent_maintainer/assess/file_baseline_state.py:128-190 | the effective ceilings of a created or pruned baseline, from the observations it was made from |
| FilePruning.PruneAdmitsNoDebtIff | src/agent_maintainer/assess/file_baseline_state.py:180-190 | for any later defaults, a prune admits no debt exactly when, for every key, what it records stays within the stored ceilings under these defaults |
| FilePruning.SameDefaultsAdmitNoDebtIff | src/agent_maintainer/assess/file_baseline_state.py:180-190 | with unchanged defaults, exactly when every oversized observation stays within the stored ceilings |
| FilePruning.OnePerKeySuffices | src/agent_maintainer/assess/file_baseline_state.py:149-190 | with one observation per key the comparison has seen to that |
| FilePruning.PruneLowers | src/agent_maintainer/assess/file_baseline_state.py:180-190 | such a prune raises no effective ceiling and keeps only stored keys |
| FilePruning.CeilingsNeverRise | src/agent_maintainer/assess/file_baseline_state.py:180-190 | along any run of such prunes no effective ceiling rises and no key comes back |
| FilePruning.RunAdmitsNoDebtIff | src/agent_maintainer/assess/file_baseline_state.py:180-190 | over a run of prunes, whatever passes against a later baseline passed against every earlier one, exactly when every prune saw oversized observations only within the ceilings stored by then |
| FilePruning.PairAdmitsNoDebtIff | src/agent_maintainer/assess/file_baseline_state.py:180-190 | between any two baselines of a run, the first and the last included: no new debt exactly when the oversized observations of the last prune are within the earlier ceilings |
| FilePruning.PruneTwice | src/agent_maintainer/assess/file_baseline_state.py:180-190 | pruning twice with the same observations equals pruning once |
| FilePruning.ChangedDefaultAdmitsDebt | src/agent_maintainer/assess/file_baseline_state.py:128-190 | with a changed default, a count the stored baseline rejects passes after a prune |
| FilePruning.RepeatedKeyAdmitsDebt | src/agent_maintainer/assess/file_baseline_state.py:128-190 | with unchanged defaults, observations that repeat a key make a prune admit a count that no baseline admitted |
| ReleaseEvidence.ValidateChecks | src/agent_run_artifacts/release_profile_evidence.py:73-121 | the loop accepts exactly non-empty lists of differently named successful checks with at least one passed |
| ReleaseEvidence.ValidIff | src/agent_run_artifacts/release_profile_evidence.py:12-70 | a sound manifest is valid exactly from the clock skew before its time to one day after it |
| EvidenceFields.ManifestAnswer | src/agent_run_artifacts/release_profile_evidence.py:12-121 | which manifests are accepted, field by field with the literal profiles, statuses and bounds, and how the others are refused |
| ReleaseEvidence.ValidatedProfiles | src/agent_run_artifacts/release_evidence.py:51-69 | the collecting loop |
| ReleaseEvidence.ByProfileIs | src/agent_run_artifacts/release_evidence.py:51-69 | collecting succeeds exactly on valid manifests of different profiles, and keeps each under its profile |
| ReleaseEvidence.ExpiryIsEarliest | src/agent_run_artifacts/release_evidence.py:95-97 | the expiry is the earliest of the manifests' own, and one of them |
| ReleaseEvidence.AggregateIs | src/agent_run_artifacts/release_evidence.py:22-48 | aggregation succeeds exactly when the commit is well formed and there is one valid manifest per required profile; its self-check never fails |
| EvidenceFields.AggregateFields | src/agent_run_artifacts/release_evidence.py:80-106 | every field of aggregated evidence, each profile with its own manifest and digest |
| EvidenceFields.AggregateRefuses | src/agent_run_artifacts/release_evidence.py:51-69 | the first manifest that is refused, for itself or for a repeated profile, decides the error |
| EvidenceFields.AggregateAnswer | src/agent_run_artifacts/release_evidence.py:22-77 | without one, it fails exactly on a malformed commit or a missing profile |
| ReleaseEvidence.ValidatesUntilExpiry | src/agent_run_artifacts/release_evidence_validation.py:13-95 | evidence validates at every time from its aggregation to its expiry and at no later one, and earlier only as far as the clock skew allows |
| ReleaseEvidence.OrderDoesNotMatter | src/agent_run_artifacts/release_evidence.py:22-106 | manifests in any order aggregate to the same evidence, or not at all |
| ReleaseEvidence.ValidatesIffAggregate | src/agent_run_artifacts/release_evidence_validation.py:13-168 | validation accepts exactly what aggregating the embedded manifests now would produce, except for the time of generation |
| EvidenceFields.ValidatesMeans | src/agent_run_artifacts/release_evidence_validation.py:13-168 | exactly which evidence validates for a commit at a time, field by field |
| ReleaseEvidence.ValidAtIff | src/agent_run_artifacts/release_evidence_validation.py:13-168 | evidence that validates once validates at another time exactly within its window and with no manifest ahead of the clock |
| ReleaseEvidence.OwnDateIff | src/agent_run_artifacts/release_evidence_validation.py:76-95 | validated evidence is what aggregating its manifests at its own date gives exactly when none of them is ahead of that date |
| ReleaseEvidence.DigestsFixTheEvidence | src/agent_run_artifacts/release_evidence_validation.py:151-168 | with a digest that tells the embedded manifests apart, the commit and five digests fix all valid evidence but its time of generation |
| ReleaseEvidence.BackdatedEvidenceValidates | src/agent_run_artifacts/release_evidence_validation.py:76-95 | evidence dated before its own manifests validates, although aggregation at that time fails |
| ReleaseEvidence.CommandManifestValidIff | src/agent_run_artifacts/release_evidence.py:109-141 | the manifest of an external command is valid exactly when it exited with 0 for a required profile on the clean commit, recently |
| Sampling.RoundsToNearest | src/agent_maintainer/attention/signal_context.py:116-118 | rounding is off by at most one half, and by one half only to an even integer |
| Sampling.GapNearStep | src/agent_maintainer/attention/signal_context.py:116-118 | consecutive sampled indexes rise, by within one of the exact step |
| Sampling.EvenSampleIs | src/agent_maintainer/attention/signal_context.py:109-118 | an even sample picks exactly the limit of evenly spread places, each once, from the first to the last |
| Sampling.SamplePathsExact | src/agent_maintainer/attention/signal_context.py:91-106 | above the limit: a sorted sub-collection with every required path, all of them if they fill the limit, else exactly the limit |
| Sampling.RequiredSampled | src/agent_maintainer/attention/signal_context.py:91-106 | every required path of the inventory is sampled, whatever the limit |
| Sampling.SampleSpread | src/agent_maintainer/attention/signal_context.py:91-106 | with fewer required paths than the limit, the sample is the required paths and the optional ones at evenly spread places of the inventory |
| Sampling.EndsSampled | src/agent_maintainer/attention/signal_context.py:91-118 | without required paths the first path of the inventory is sampled, and from limit 2 on the last one too |
| Sampling.WholeInventory | src/agent_maintainer/attention/signal_context.py:91-100 | an inventory within the limit is sampled whole |
| Sampling.FromPaths | src/agent_maintainer/attention/signal_context.py:48-82 | the sample with exactly the notes that apply, in order |
| Sampling.NotesMean | src/agent_maintainer/attention/signal_context.py:48-82 | when each note applies |
| Sampling.TrackedCount | src/agent_maintainer/attention/signal_context.py:48-82 | for an inventory without repetitions, how many paths are tracked, without repetition, in every case |
| ManifestHeap.CandidateOrder | src/agent_maintainer/attention/signal_artifacts.py:93-109 | candidates are totally ordered by time, name and path |
| ManifestHeap.CandidateLeIff | src/agent_maintainer/attention/signal_artifacts.py:93-109 | the time decides before the name and the name before the path |
| ManifestHeap.ManifestPaths | src/agent_maintainer/attention/signal_artifacts.py:61-77 | the push-then-pop-least loop returns exactly the last 32 candidates of the fully sorted list, in ascending order |
| ManifestHeap.NewestInAnyOrder | src/agent_maintainer/attention/signal_artifacts.py:61-77 | which does not depend on the order of the candidates |
| ManifestHeap.ManifestPathsAre | src/agent_maintainer/attention/signal_artifacts.py:61-77 | at most 32 paths, of the newest safe run directories in ascending order of time, name and path; none that is left out comes after a kept one |
| Compression.FillerLines | src/agent_context/compression/backends.py:108-126 | the filler is the longest prefix of the eligible lines that fits when joined |
| Compression.LongestFitUnique | src/agent_context/compression/backends.py:108-126 | there is only one such prefix |
| Compression.ExtractiveContentByLoop | src/agent_context/compression/backends.py:72-78 | the extract computed with the loop is the specified one |
| CompressionAnswers.ExtractIs | src/agent_context/compression/backends.py:72-153 | the kept and the filling lines by their places in the source: which must be kept, which may fill, in which order, and how many fit |
| CompressionAnswers.CompressIs | src/agent_context/compression/backends.py:19-86 | the answer for every backend: its draft, a prefix for truncation, if that holds every preserve term, otherwise the extract; with both lengths and every warning |
| CompressionAnswers.CompressFailsIff | src/agent_context/compression/backends.py:30-47 | compression fails exactly on an unknown backend or as the optional dependency does |
| Compression.ExtractBounded | src/agent_context/compression/backends.py:72-86 | an extract is no longer than the target and one separator, unless the preserved lines alone are; without these it keeps to the target and does not warn |
| Compression.SeparatorOverruns | src/agent_context/compression/backends.py:135-153 | a concrete request whose extract overruns the target by one |
| Compression.OverrunIff | src/agent_context/compression/backends.py:72-153 | with preserved lines that fit, the target is overrun, and warned about, exactly when preserved and filler lines are both there, fill the target between them, and no end is stripped |
| Compression.ExtractKeepsTerm | src/agent_context/compression/backends.py:72-105 | a preserve term without breaks and without whitespace at its ends is in the extract exactly when it is in the source |
| Compression.FactsPreservedIff | src/agent_context/compression/backends.py:170-192 | an extract of such terms reports its facts preserved exactly when the source held them all |
| Compression.CompressKeepsTerms | src/agent_context/compression/backends.py:19-27 | whatever the backend, compression loses no such term of the source |
| Compression.ForbiddenOnlyThroughPreserved | src/agent_context/compression/backends.py:108-126 | a forbidden term without breaks survives in an extract only through a preserved line |
| Budget.AtMostLines | src/agent_context/budget.py:35-48 | a prefix has at most m lines exactly when it ends no later than the first m lines do |
| Budget.LinesGrow | src/agent_context/budget.py:43-48 | a longer prefix has no fewer lines |
| Budget.BoundIsLongest | src/agent_context/budget.py:8-40 | bounding keeps the longest prefix within both limits |
| Budget.BoundAccounts | src/agent_context/budget.py:8-26 | kept and omitted add up to the original in characters and lines, and truncation is reported exactly when the text changed |
| Text.SplitJoin | src/agent_client_hooks/merge.py:82-95 | splitting undoes joining, for break-free lines that do not end in an empty one |
| TextLines.LinesAreUnique | src/agent_context/budget.py:35-48 | a text put together from lines and their ends has just these lines; with TextLines.SplitHasLines, splitting finds exactly the lines |
| TextLines.BreaksAre | src/agent_context/compression/backends.py:129-132 | the line boundaries by code point |
| Text.ContainsSplit | src/agent_context/compression/backends.py:101-105 | a text without breaks occurs in a text exactly when it occurs in one of its lines |
| Ordering.SortedUnique | src/agent_maintainer/attention/signal_artifacts.py:77-77 | a sorted arrangement is determined by its elements |
| Ordering.TextLeIff | src/agent_maintainer/assess/file_baseline_state.py:33-37 | the first difference between two texts decides their order, and a prefix comes first |

## Left out

- File, JSON, TOML and ISO-8601 handling: records, settings and evidence are values, times are integers, and parsing and rendering are taken to be inverse. The sorts of timestamp strings are not modelled; sweeps visit the records in any order.
- WaitRecords.SectionKeeps: the status of a stored record is one of the six the code writes; other texts in hand-edited files are not covered.
- WaitProtocol.RepairsAreSpaced: asks that no reading older than the first claim is stored between two claims; the exact condition is WaitSpacing.RepairsSpacedIff.
- WaitRegistry.WaitRegistry.Register: one atomic step with a fresh id, because the source takes no lock there; two simultaneous registrations of one identity are outside the model.
- WaitRegistry.WaitRegistry.Read: malformed files and missing fields are not modelled.
- WaitLocks.RunRefines: one clock stands for the wall clock of the lock file and the monotonic clock of the deadline; the temporary file of a write, the directory and the hash that names the lock file are not modelled.
- WaitLocks.PromptHoldersRefine: a process may die anywhere but inside a section.
- `mark_pending_watcher_polls`: one poll transition per pending record, nothing new.
- CodexStability.MergeIdempotentIff: its finality is stated on the text in front of the block; CodexIdempotence.MergeIdempotentOnSections states the same on the sections of the existing text.
- CodexOrdinary.MergeIdempotentWhenOrdinary: being ordinary is a sufficient condition that is easy to read off the text; the exact one is in CodexIdempotence.MergeIdempotentOnSections.
- CodexMerge.BlockCutsOut: the managed block is any fenced text whose body does not hold the end marker.
- `remove_codex_config`: the same two stages without the append; its final strip is not modelled.
- ClaudeHooks.InstallUninstallCancelsIff: compares the resulting settings; that an untouched file keeps its exact text and an empty result becomes an empty file is not modelled. Which commands are managed is a parameter.
- FileBaseline.CreatedMembers: the source commit is reduced to whether it is well formed, and the validation of paths is not modelled; that counts are legal is a predicate the pruning theorems ask of observations.
- FilePruning.PruneLowers: asks that oversized observations stay within the stored ceilings, which is exactly when a prune admits no debt (FilePruning.SameDefaultsAdmitNoDebtIff).
- ReleaseEvidence.AggregateIs: the digest is a parameter that yields well-formed digests; error messages are reduced to their kind, and fields no check reads are not modelled.
- ReleaseEvidence.DigestsFixTheEvidence: assumes a digest without collisions among the manifests embedded in the two pieces of evidence.
- Sampling.EvenSampleIs: arithmetic is exact; the rounding of floating-point steps is not modelled.
- ManifestHeap.ManifestPaths: the heap is any arrangement whose pop removes a least element; its tree layout, path confinement and symlink checks are not modelled. Listing errors are one absent value.
- Compression.CompressKeepsTerms: the Headroom dependency is a parameter; terms with line breaks or edge whitespace are not covered, and content kinds and metadata are not modelled.
- Wait rendering, the broker, capabilities, command text, hook templates, the manifest inventory, `verification_aggregate.py`, `distribution_bundle.py`, configuration coercion, the baseline codec, debt scoring, catalogs, command lines and documentation indexing: field-by-field or presentational code that would add only easy members.
