# Models of the Miden source code verification services

Dafny models of the algorithms and protocols in this repository, with proofs of
what they are for. Each module follows one component; methods follow the code
that updates state, and are proved against functions whose properties are the
lemmas.

* `Mast`, `ReadOnly`, `Execution`, `Classification`: the analysis that tells from
  a package's MAST whether a procedure can change transaction state. The walk is
  proved to compute the join over everything reachable, and that join is proved
  sound, and where digests descend exact, against a step-by-step execution.
* `TypeWriting`, `TypeReading`, `TypeMeaning`, `TypeAlike`, `TypeNames`, `TypeErrors`:
  the writer of recursive types. When what it prints reads back as the type it was given, and
  when it fails, are both stated exactly.
* `Bank`, `BankLedger`: the bank account and its two note scripts over the field
  of order 2^64 - 2^32 + 1: solvency and conservation over every run.
* `Registry`, `RegistryCleanup`, `RegistryProtocol`, `RegistryLoss`, `RegistryRace`,
  `RegistryService`, `RegistryRows`, `RegistryRuns`: the registry's transactions, its
  requests interleaved at their awaits, exactly when a row loses an artifact, and its
  handlers, by what they leave and as runs of those requests.
* `Limiter`, `LimiterFates`, `Builds`, `Compile`: the compile queue and the directories of builds.
* `Masker`, `Signatures`, `Declarations`, `Tidying`, `Tidiness`: the viewer's masking of Rust
  sources, its search for declarations, and the signatures it shows.
* `Paths`, `FileTree`, `FileOrder`, `Explorer`: the viewer's file tree.
* `Project`, `Opening`: which projects are accepted, and entrypoint inference.
* `Cadence`: the status page's outage clock and reminders.
* `Components`: standard components, package verification and the viewer's count.

`Wrappers` has the option and result types, `Reachability` the induction over the
states or nodes that steps lead to.

What is assumed of the world: a deserialized forest refers only to its own nodes;
fungible asset ids have two zero leading limbs, and the kernel's vault adds and
removes what it is told to; database transactions are serial and a row id is
never drawn twice; the names of temporary directories are drawn without `-` or `_`
after their prefix; run timestamps do not decrease; object keys are distinct. The
parsing of TOML, the collation of names, the protocol's two lists of procedure
names and the text of a digest are parameters.

## Model

| member | source | states |
|---|---|---|
| ReadOnly.Analyzer.Procedure | apps/api-compile/crates/miden-package-metadata/src/read_only.rs:271-324 | the worklist walk ends, and its answer is the join of what everything reachable without passing through a protocol procedure contributes, whatever it skipped by returning early |
| ReadOnly.Analyzer.Expand | apps/api-compile/crates/miden-package-metadata/src/read_only.rs:293-321 | what one node pushes and joins: children, callee or resolved external; unknown for a syscall, a dynamic call or an unresolved external |
| ReadOnly.ResolvedExactly | apps/api-compile/crates/miden-package-metadata/src/read_only.rs:306-319 | an external procedure resolves exactly when some forest's first root with its digest is no reference itself, and then to that root in the first such forest: one that only re-exports it is passed over |
| Mast.FoundExactly | apps/api-compile/crates/miden-package-metadata/src/read_only.rs:309-311 | a forest finds its first root with a digest, and finds one whenever it has one |
| ReadOnly.Analyzer.OwnBodyFirst | apps/api-compile/crates/miden-package-metadata/src/read_only.rs:272-274 | the package's own forest is searched before the libraries |
| ReadOnly.Analyzer.LibrariesInOrder | apps/api-compile/crates/miden-package-metadata/src/read_only.rs:272-274 | and a library only after those before it |
| ReadOnly.AnswerMeans | apps/api-compile/crates/miden-package-metadata/src/read_only.rs:275-323 | state-changing exactly when a procedure classed so is reached; else unknown exactly when one classed unknown, a syscall, a dynamic call or an external held nowhere is |
| ReadOnly.AnswerIsLeastUpperBound | apps/api-compile/crates/miden-package-metadata/src/read_only.rs:185-191 | the answer is the least access above every reachable contribution, so no order of traversal gives another |
| ReadOnly.VisitKeeps | apps/api-compile/crates/miden-package-metadata/src/read_only.rs:278-321 | visiting a location keeps the walk's invariant: all met is reachable, nothing reachable from a seen location is forgotten, the access is the join over the seen |
| ReadOnly.WalkIsDone | apps/api-compile/crates/miden-package-metadata/src/read_only.rs:277-323 | with an empty stack the access so far is the answer for everything reachable |
| Execution.Soundness | apps/api-compile/crates/miden-package-metadata/src/read_only.rs:4-18 | when the answer is read-only, no run from the root, with any branches, loop counts, depth and hops into libraries, is ever in a changed transaction state; graphs may be cyclic and shared |
| Execution.StepIsReadOnly | apps/api-compile/crates/miden-package-metadata/src/read_only.rs:271-324 | one step of an execution stays within the reachable locations and keeps the state when the answer is read-only |
| Execution.CanFinish | apps/api-compile/crates/miden-package-metadata/src/read_only.rs:295-304 | where digests descend, any location can be run to its end without touching the state |
| Execution.CanReach | apps/api-compile/crates/miden-package-metadata/src/read_only.rs:295-320 | whatever the walk reaches, some run reaches |
| Execution.ReadOnlyExactly | apps/api-compile/crates/miden-package-metadata/src/read_only.rs:13-18 | where digests descend, the answer is read-only exactly when no run can change the state |
| Classification.RaisingRaises | apps/api-compile/crates/miden-package-metadata/src/read_only.rs:282-292 | raising the class of a protocol procedure never lowers an answer |
| Classification.ListingNeverLowers | apps/api-compile/crates/miden-package-metadata/src/read_only.rs:205-226 | moving names into the state-changing list, whatever list they were in, never lowers any procedure's answer |
| Classification.AppendingOnlySettlesUnknown | apps/api-compile/crates/miden-package-metadata/src/read_only.rs:228-246 | appending libraries to the search list never changes a read-only or state-changing answer |
| Classification.AppendingKeepsNode | apps/api-compile/crates/miden-package-metadata/src/read_only.rs:306-320 | at a location that says anything definite, appended libraries change neither where the walk goes nor what it finds |
| Classification.Exports | apps/api-compile/crates/miden-package-metadata/src/read_only.rs:250-267 | each procedure export, in order, with the exact answer for its root, or unknown when it has no root |
| Classification.ExportAnswerExactly | apps/api-compile/crates/miden-package-metadata/src/read_only.rs:259-263 | an export is answered for its manifest's node, else for the first root with its digest, and is unknown without either |
| Classification.AnswersInOrder | apps/api-compile/crates/miden-package-metadata/src/read_only.rs:252-266 | there is one answer for each procedure export, at its place among them |
| Classification.ClassifiedExactly | apps/api-compile/crates/miden-package-metadata/src/read_only.rs:206-213 | a digest is classified exactly when some procedure of the protocol library has it |
| Classification.ClassExactly | apps/api-compile/crates/miden-package-metadata/src/read_only.rs:214-225 | its class is by which list the last such procedure's path is in below `::miden::protocol::`, or whole when not below that; the state-changing list first |
| TypeWriting.TypeWriter.Ty | apps/api-compile/crates/miden-package-metadata/src/main.rs:192-238 | writing ends on every finite, possibly cyclic environment, yields what the environment determines, and leaves the stack as it found it, also on failure; a reference on the stack is written as its struct's or enum's name |
| TypeWriting.BackCarriesName | apps/api-compile/crates/miden-package-metadata/src/main.rs:221-224 | inside its own definition a reference is written as that struct's name, which it may lack, or that enum's |
| TypeWriting.TypeWriter.Aggregate | apps/api-compile/crates/miden-package-metadata/src/main.rs:240-326 | one level is written part by part in the source's order, the stack as before whether or not a part fails |
| TypeWriting.TypeWriter.Fields | apps/api-compile/crates/miden-package-metadata/src/main.rs:244-256 | the fields are written in order and the first failure ends it |
| TypeWriting.TypeWriter.Variants | apps/api-compile/crates/miden-package-metadata/src/main.rs:271-288 | a variant fails on a discriminant over 64 bits before its value is written |
| TypeWriting.TypeWriter.Types | apps/api-compile/crates/miden-package-metadata/src/main.rs:302-312 | parameters and results are written in order |
| TypeReading.BackReferencesAreEnclosed | packages/utils/src/manifest.ts:86-89 | every printed back reference lies inside a definition of the name it carries, however types are named |
| TypeMeaning.MeaningExactly | apps/api-compile/crates/miden-package-metadata/src/main.rs:180-230 | the printed tree read back agrees with the type to every unfolding depth exactly when every back reference finds, by its name, a definition that unfolds like its own |
| TypeAlike.AlikeExactly | apps/api-compile/crates/miden-package-metadata/src/main.rs:240-270 | two types unfold alike to every depth exactly when some relation kept from level to level holds of them |
| TypeAlike.AlikeIsDecided | apps/api-compile/crates/miden-package-metadata/src/main.rs:240-270 | whether they do is told by unfolding both to one depth, the number of pairs of types that the two and the definitions hold |
| TypeMeaning.TreeReads | apps/api-compile/crates/miden-package-metadata/src/main.rs:221-230 | inside any enclosing aggregates, references that find definitions like their own read back, to every depth |
| TypeMeaning.TreeMeans | apps/api-compile/crates/miden-package-metadata/src/main.rs:221-230 | and a tree that reads back to every depth has no other references |
| TypeNames.PrintingKeepsMeaning | apps/api-compile/crates/miden-package-metadata/src/main.rs:180-230 | when no name is captured, so that each reference finds its own definition, the meaning is kept |
| TypeNames.DistinctNamesKeepMeaning | apps/api-compile/crates/miden-package-metadata/src/main.rs:182-185 | so it is when the recursive structs' and enums' names differ from one another and from those of structs and enums in place |
| TypeNames.SharedNamesMayStayApart | apps/api-compile/crates/miden-package-metadata/src/main.rs:221-224 | recursive structs of one name side by side capture nothing |
| TypeNames.SharedNamesAreConfused | apps/api-compile/crates/miden-package-metadata/src/main.rs:221-224 | two recursive structs of one name, each in the other, print as a tree that reads back as another type |
| TypeErrors.FailsExactlyOnLargeDiscriminants | apps/api-compile/crates/miden-package-metadata/src/main.rs:274-281 | the writer fails exactly when something the type can unfold to has a discriminant over 64 bits |
| TypeErrors.FailureHasCause | apps/api-compile/crates/miden-package-metadata/src/main.rs:269-288 | a failure at any depth names the first variant with a discriminant over 64 bits of an enum reachable by unfolding |
| TypeErrors.FirstFailureEnds | apps/api-compile/crates/miden-package-metadata/src/main.rs:243-312 | the first part that fails ends a level with its error: variants before the discriminant's type, a variant's discriminant before its value, parameters before results |
| Bank.BankAccount.Initialize | apps/api-compile/examples/miden-bank/bank-account/src/lib.rs:138-149 | succeeds exactly while the flag is zero, and sets it |
| BankLedger.NothingMovesBeforeInitialize | apps/api-compile/examples/miden-bank/bank-account/src/lib.rs:283-289 | until a transaction initializes the bank, no run of others changes anything at all |
| BankLedger.StaysInitialized | apps/api-compile/examples/miden-bank/bank-account/src/lib.rs:138-149 | once initialized the bank stays so, and initializing it again is refused |
| Bank.BankAccount.Deposit | apps/api-compile/examples/miden-bank/bank-account/src/lib.rs:162-210 | every assertion of a deposit, and the balance and vault after it |
| Bank.BankAccount.Withdraw | apps/api-compile/examples/miden-bank/bank-account/src/lib.rs:212-268 | every assertion of a withdrawal, the field subtraction being the exact one |
| Bank.BankAccount.CreateP2idNote | apps/api-compile/examples/miden-bank/bank-account/src/lib.rs:319-360 | the note pays the asset to the recipient alone: the reused storage holds its suffix, prefix and two zeros |
| Bank.BankAccount.RunDepositNote | apps/api-compile/examples/miden-bank/deposit-note/src/lib.rs:32-43 | a note deposits all its assets or, at the first refusal, none |
| Bank.BankAccount.RunWithdrawNote | apps/api-compile/examples/miden-bank/withdraw-request-note/src/lib.rs:44-77 | exactly 14 items, from which the asset is rebuilt and withdrawn |
| Bank.BankAccount.Transact | apps/api-compile/examples/miden-bank/bank-account/src/lib.rs:24-27 | a transaction whose assertion fails leaves no trace |
| BankLedger.InitializeExactly | apps/api-compile/examples/miden-bank/bank-account/src/lib.rs:138-149 | initializing commits exactly while the flag is zero and changes nothing but the flag |
| BankLedger.DepositNoteExactly | apps/api-compile/examples/miden-bank/bank-account/src/lib.rs:162-210 | a deposit note commits exactly when the bank is initialized and each asset is fungible, received, at most 1,000,000, and with those before it within 2^63 - 2^31 in the sender's balance and in the vault |
| BankLedger.WithdrawNoteExactly | apps/api-compile/examples/miden-bank/bank-account/src/lib.rs:212-359 | a withdraw request commits exactly when its 14 items ask what the sender's balance and the vault cover; then one note more is sent, to the sender's account id, with the request's tag, type, serial number, script root and asset, and one balance and one holding are less by the amount |
| Bank.SubIsExact | apps/api-compile/examples/miden-bank/bank-account/src/lib.rs:237-248 | a covered subtraction in the field is the integer one |
| Bank.DepositCannotOverflow | apps/api-compile/examples/miden-bank/bank-account/src/lib.rs:191-204 | the u64 addition of a deposit overflows for no balance at all |
| Bank.AbortIsFinal | apps/api-compile/examples/miden-bank/deposit-note/src/lib.rs:39-42 | once one asset is refused the note is |
| BankLedger.LiabilitiesSplit | apps/api-compile/examples/miden-bank/bank-account/src/lib.rs:53-64 | the sum of the balances of an asset does not depend on the order it is taken in |
| BankLedger.LiabilitiesUpdate | apps/api-compile/examples/miden-bank/bank-account/src/lib.rs:206-206 | setting one balance moves its asset's sum by the difference, and no other asset's |
| BankLedger.DepositMovesOneBalance | apps/api-compile/examples/miden-bank/bank-account/src/lib.rs:184-209 | a deposit moves the one balance and the one holding by its amount, and the vault's margin over what is owed by nothing |
| BankLedger.DepositNoteCreditsSender | apps/api-compile/examples/miden-bank/deposit-note/src/lib.rs:32-43 | a committed note credits its sender with its assets; other depositors and other assets are untouched |
| BankLedger.WithdrawalDebitsSender | apps/api-compile/examples/miden-bank/bank-account/src/lib.rs:226-267 | a committed withdrawal takes its amount from one balance and one holding and puts it in the note it sends |
| BankLedger.RunKeepsMargin | apps/api-compile/examples/miden-bank/bank-account/src/lib.rs:162-268 | solvency over every run, aborted transactions included: the vault's amount less the sum of all balances of an asset never changes |
| BankLedger.RunConserves | apps/api-compile/examples/miden-bank/bank-account/src/lib.rs:206-267 | what is held and paid out of an asset is what was, plus what the committed deposits brought |
| BankLedger.RunConservesBalance | apps/api-compile/examples/miden-bank/bank-account/src/lib.rs:162-268 | after any run each balance is what it was, plus the committed credits to its key, less the committed withdrawals from it |
| BankLedger.RunKeepsBounds | apps/api-compile/examples/miden-bank/bank-account/src/lib.rs:36-36 | in every reachable state each balance is at most 2^63 - 2^31 |
| BankLedger.WithdrawalsAreCovered | apps/api-compile/examples/miden-bank/bank-account/src/lib.rs:237-267 | in every reachable state a withdrawal goes through exactly when the depositor's own balance covers it and the note may be created: the vault never refuses |
| BankLedger.DepositNoteIsAllOrNothing | apps/api-compile/examples/miden-bank/deposit-note/src/lib.rs:39-42 | a note refused at any asset leaves the account as it was |
| Registry.RecordingKeepsConsistent | apps/api-registry/src/lib/verify-resource.ts:185-205 | recorded, refused or rolled back, a verification keeps unique keys, references with their copied commitments, one component per account and commitment, and no unused package or account |
| Registry.RecordedExactly | apps/api-registry/src/lib/verify-resource.ts:33-135 | a verification is refused exactly when the package is recorded for the resource already; otherwise it adds the one record, and the package and account rows only if missing |
| Registry.RepeatIsRefused | apps/api-registry/src/lib/verify-resource.ts:97-103 | after a verification commits, the same one again is refused |
| RegistryCleanup.CleanUpIsExact | apps/api-registry/src/lib/cleanup-playground.ts:30-111 | exactly the records of source `miden-playground` created before the cutoff go, then exactly the account codes and packages all of whose records those were |
| RegistryCleanup.NothingCascades | apps/api-registry/src/db/schema.ts:98-103 | the deletions of accounts and packages cascade to no record |
| RegistryCleanup.CleanUpKeepsConsistent | apps/api-registry/src/lib/cleanup-playground.ts:31-111 | the tables stay consistent |
| RegistryCleanup.CleanUpIsIdempotent | apps/api-registry/src/lib/cleanup-playground.ts:30-111 | a second run at the same time removes nothing |
| RegistryCleanup.CountsAreDifferences | apps/api-registry/src/lib/cleanup-playground.ts:121-127 | the reported counts are the differences in the tables' sizes |
| RegistryProtocol.StepKeepsTables | apps/api-registry/src/lib/verify-resource.ts:176-216 | every step of every request, cleanups racing verifications included, keeps the tables consistent |
| RegistryProtocol.RunKeepsTables | apps/api-registry/src/lib/verify-resource.ts:176-216 | so does every run |
| RegistryProtocol.StepKeepsArtifacts | apps/api-registry/src/lib/cleanup-playground.ts:113-119 | a step keeps every row's artifacts unless a verification is about to record anew a package whose artifacts a cleanup is deleting |
| RegistryProtocol.RunKeepsArtifacts | apps/api-registry/src/lib/verify-resource.ts:177-205 | in every state reached by interleaving requests at their awaits, each free to stop, every row has its release artifact, and its debug artifact when it has a debug commitment, so long as no verification is about to record a removed package anew during that cleanup; verifications at any other await are harmless |
| RegistryProtocol.RunWithoutCleanupsKeepsArtifacts | apps/api-registry/src/lib/debug-build.ts:8-32 | verifications and backfills alone need no such condition |
| RegistryLoss.SafeExactly | apps/api-registry/src/lib/cleanup-playground.ts:113-119 | an artifact survives every deletion in flight exactly when it is in the store and in no cleanup's list |
| RegistryLoss.LossExactly | apps/api-registry/src/lib/verify-resource.ts:177-216 | for the release and the debug artifacts each: the next step keeps what rows need out of reach of the deletions in flight exactly when no request is about to make a row need an artifact that is gone or listed for deletion |
| RegistryLoss.RunLosesExactly | apps/api-registry/src/lib/verify-resource.ts:177-216 | after a run with no such request in any of its states every row has its release, or its debug, artifact, and from a state that has one a loss can follow |
| RegistryLoss.RaceExactly | apps/api-registry/src/lib/cleanup-playground.ts:113-119 | between the steps of runs that keep their artifacts, the next step can cost a release artifact exactly when a verification that is not refused is about to record a package whose release artifact is listed for deletion, and no debug artifact |
| RegistryLoss.RaceCanLose | apps/api-registry/src/lib/cleanup-playground.ts:113-119 | from every state with such a race, over a release or a debug artifact, some run leaves a row without it in consistent tables |
| RegistryRace.RaceLosesArtifact | apps/api-registry/src/lib/cleanup-playground.ts:113-119 | a cleanup racing a verification of what it removes can leave a consistent row without its artifact |
| RegistryService.Service.InsertPackage | apps/api-registry/src/lib/verify-resource.ts:33-65 | the row inserted, or found by commitment |
| RegistryService.Service.InsertAccountComponent | apps/api-registry/src/lib/verify-resource.ts:69-107 | the account row found or inserted, the component refused if it is there |
| RegistryService.Service.InsertNote | apps/api-registry/src/lib/verify-resource.ts:109-135 | the note refused if its key is there |
| RegistryService.Service.VerifyResource | apps/api-registry/src/lib/verify-resource.ts:171-218 | artifact, transaction, debug build: the status and the whole new state whichever put, transaction or row update fails, with every row keeping its artifacts |
| RegistryService.VerifyKeepsSound | apps/api-registry/src/lib/verify-resource.ts:177-216 | a verification leaves no row without its artifacts, whichever of these calls fails |
| RegistryRows.VerificationExactly | apps/api-registry/src/lib/verify-resource.ts:171-217 | which answer a verification gets by what fails and what is on record; if recorded, the rows added, the package's debug build kept or, having none, set to this one's; if not, the tables as they were; and which artifacts are put |
| RegistryService.Service.StoreDebugBuild | apps/api-registry/src/lib/debug-build.ts:8-32 | the artifact, then the row: nothing when there is no build or the put fails, the artifact alone when the row's update fails |
| RegistryRows.DebugIsRecorded | apps/api-registry/src/lib/debug-build.ts:19-31 | a debug build is stored exactly when there is one and neither call fails; its own commitment is then on that row and nothing else on any row has changed |
| RegistryService.Service.Backfill | apps/api-registry/src/routes/admin.ts:52-94 | how a backfill ends and what it leaves, whichever put or row update fails |
| RegistryRows.BackfillExactly | apps/api-registry/src/routes/admin.ts:63-93 | how a backfill ends by what the row holds and what fails; the row ends with the build's commitment and, having had no entrypoint, the inferred one; no other row changes |
| RegistryRows.NothingToBackfill | apps/api-registry/src/routes/admin.ts:58-62 | a commitment not on record is answered as such and nothing changes |
| RegistryRuns.VerifyIsARun | apps/api-registry/src/lib/verify-resource.ts:171-218 | what that leaves is what a run of the verification's own interleaved steps leaves |
| RegistryRuns.BackfillIsARun | apps/api-registry/src/routes/admin.ts:58-93 | so it is for the backfill |
| RegistryRuns.CleanupIsARun | apps/api-registry/src/lib/cleanup-playground.ts:30-119 | and for a cleanup that completes |
| RegistryService.Service.CleanupRecords | apps/api-registry/src/lib/cleanup-playground.ts:31-111 | the four statements, each on what the earlier ones left and returned |
| RegistryService.Service.CleanupPlayground | apps/api-registry/src/lib/cleanup-playground.ts:23-128 | rows, artifacts and counts after a cleanup that completes, exactly |
| RegistryRows.CleanupTakesArtifacts | apps/api-registry/src/lib/cleanup-playground.ts:113-119 | a completed cleanup takes along exactly both artifacts of each package whose row it removed |
| Limiter.NextIsSafe | apps/api-compile/src/lib/limiter.ts:23-67 | every arrival, abort and completion keeps: slots held as counted and within the limit, the queue within its size, nobody waiting while a slot is free, starts in order of arrival |
| Limiter.EveryScheduleIsSafe | apps/api-compile/src/lib/limiter.ts:23-67 | so does every schedule |
| Limiter.AbortFindsItsTask | apps/api-compile/src/lib/limiter.ts:48-51 | `indexOf` is never -1 in `onAbort`, which removes that task and no other |
| Limiter.FatesAreFinal | apps/api-compile/src/lib/limiter.ts:36-67 | a task refused, aborted or done stays so, and one that started is neither refused nor aborted |
| Limiter.StartsAreFifo | apps/api-compile/src/lib/limiter.ts:26-34 | tasks start in the order they arrived |
| Limiter.PlaceMoves | apps/api-compile/src/lib/limiter.ts:26-58 | one event moves a waiting task up a place, or starts it, exactly on a release or an abort ahead of it |
| Limiter.WaitsForItsTurn | apps/api-compile/src/lib/limiter.ts:26-67 | a waiting task starts after exactly as many releases as tasks ahead of it that do not abort, plus one |
| Limiter.TaskLimiter.Acquire | apps/api-compile/src/lib/limiter.ts:36-58 | a slot, a place in the queue, or a refusal: the arrival event |
| LimiterFates.ArrivalExactly | apps/api-compile/src/lib/limiter.ts:36-58 | an arrival not aborted runs exactly while fewer than `concurrency` tasks run, waits exactly when that many run and fewer than `queueSize` wait, and is refused exactly when that many wait; no other task changes |
| Limiter.TaskLimiter.Abort | apps/api-compile/src/lib/limiter.ts:48-51 | the abort listener: the abort event |
| LimiterFates.ListensExactly | apps/api-compile/src/lib/limiter.ts:48-57 | in any schedule a task has an abort listener exactly while it waits, if it came with a signal |
| LimiterFates.AbortExactly | apps/api-compile/src/lib/limiter.ts:48-51 | after any schedule an abort takes out its task exactly when that waits and came with a signal, and otherwise does nothing |
| Limiter.TaskLimiter.Release | apps/api-compile/src/lib/limiter.ts:26-34 | the slot handed to the next waiting task or given back: the completion event |
| LimiterFates.CompletionExactly | apps/api-compile/src/lib/limiter.ts:27-34 | a finished task's slot goes to the waiting task that arrived first, and no other fate changes |
| Builds.DirectoriesAreApart | apps/api-compile/src/lib/compile.ts:250-254 | in every schedule no two builds share a directory, since an output directory's name tells the temporary directory it goes with |
| Builds.NextIsSound | apps/api-compile/src/lib/compile.ts:249-285 | every event keeps each build's directories its own and on disk, its slot held until it returns or is cleaned up, and every directory some build's or one whose deletion failed |
| Builds.EveryScheduleIsSound | apps/api-compile/src/lib/compile.ts:249-285 | so does every schedule |
| Builds.NothingIsLeftBehind | apps/api-compile/src/lib/compile.ts:246-248 | where deletions succeed, the directories on disk are those of requests building or in use, so none remain once all have ended, whichever step threw |
| Builds.WhatIsLeftIsLeaked | apps/api-compile/src/lib/utils.ts:12-20 | in every schedule, once all requests have ended the directories on disk are exactly those whose deletion failed or was left under way |
| Builds.BuildsAreLimited | apps/api-compile/src/lib/compile.ts:267-279 | no more builds at once than the limit, those still cleaning up after a throw included |
| Compile.Compiler.RemoveDirs | apps/api-compile/src/lib/utils.ts:12-20 | both deletions run at once: a failure is only logged and ends the wait for the other, which stays under way |
| Compile.Compiler.Compile | apps/api-compile/src/lib/compile.ts:249-265 | a build that throws takes its directories along, but for those a failed deletion leaves |
| Compile.Compiler.QueueCompile | apps/api-compile/src/lib/compile.ts:275-285 | the slot is given back before `use`, `use` runs exactly when the build returns and on its directories, and only what could not be deleted or is still being deleted stays |
| Compile.CourseLeaves | apps/api-compile/src/lib/compile.ts:249-285 | of a request's two directories one stays exactly when its deletion fails, or is slow when the other's fails; no other directory is touched; the first step that throws is the failure |
| Compile.CourseIsScheduled | apps/api-compile/src/lib/compile.ts:249-285 | what one request does to the disk is what some schedule of its own events does |
| Masker.MaskSource | apps/web-viewer/src/lib/procedure-signatures.ts:31-58 | the skipping masker computes the mask of the one-character lexer, and the text can be read as spans |
| Masker.Mask | apps/web-viewer/src/lib/procedure-signatures.ts:29-30 | the mask has the source's length and newlines |
| Masker.MaskKeepsPlainSpans | apps/web-viewer/src/lib/procedure-signatures.ts:36-55 | however the text is read as comments, strings and plain characters, the mask keeps exactly the plain ones and has a space for every other but line breaks |
| Masker.SpanExactly | apps/web-viewer/src/lib/procedure-signatures.ts:36-51 | what the spans are in the text: a line comment up to its line's end, a block comment through its first end mark, a string through its first quote after an even number of backslashes, or to the end of the text |
| Masker.MaskIsAllCode | apps/web-viewer/src/lib/procedure-signatures.ts:29-30 | the mask has no comment and no string in it |
| Masker.MaskingIsIdempotent | apps/web-viewer/src/lib/procedure-signatures.ts:31-58 | masking twice is masking once |
| Masker.StringEnd | apps/web-viewer/src/lib/procedure-signatures.ts:43-48 | the inner loop finds where the string ends |
| Signatures.FindFunction | apps/web-viewer/src/lib/procedure-signatures.ts:92-121 | a declaration is found whenever there is one, and it is the preferred one: in the first component trait that declares it, else the first note script of that name, else the first |
| Declarations.DeclaresExactly | apps/web-viewer/src/lib/procedure-signatures.ts:93-93 | a declaration is `fn` as a word, whitespace and the whole name |
| Declarations.FnExactly | apps/web-viewer/src/lib/procedure-signatures.ts:112-112 | and a function of any name is `fn` as a word, whitespace and a word |
| Declarations.BodyStartExactly | apps/web-viewer/src/lib/procedure-signatures.ts:94-97 | a component trait's body starts after the attribute, whitespace, maybe a visibility, the keyword as a word, and the first brace after it |
| Declarations.BodiesExactly | apps/web-viewer/src/lib/procedure-signatures.ts:96-97 | the bodies are those of the first trait from the start of the text, then of the first from the start of each body, with none after the last |
| Signatures.PreferredIsUnique | apps/web-viewer/src/lib/procedure-signatures.ts:88-91 | there is one such place |
| Signatures.DeclarationIsCode | apps/web-viewer/src/lib/procedure-signatures.ts:29-30 | neither the `fn` nor the name found is in a comment or a string |
| Signatures.FindInTraits | apps/web-viewer/src/lib/procedure-signatures.ts:96-110 | the first trait whose body declares the name, and the first declaration in it |
| Signatures.BodyEnd | apps/web-viewer/src/lib/procedure-signatures.ts:98-104 | a trait's body ends at the brace that closes it, or with the text |
| Declarations.BraceDepthExactly | apps/web-viewer/src/lib/procedure-signatures.ts:98-104 | the depth is one more than the braces opened since the body's start less those closed |
| Signatures.FindScript | apps/web-viewer/src/lib/procedure-signatures.ts:111-118 | the first attribute whose next function has the name |
| Signatures.ReadSignature | apps/web-viewer/src/lib/procedure-signatures.ts:60-86 | the signature is what is before the first `;` or `{` outside every bracket, arrows aside, tidied; there is none if none is |
| Declarations.SignatureEndsExactly | apps/web-viewer/src/lib/procedure-signatures.ts:66-76 | a signature ends at a `;` or `{` with as many of `(`, `[` and `<` before it as of `)`, `]` and `>`, an arrow's not counted |
| Tidiness.TidyingKeepsText | apps/web-viewer/src/lib/procedure-signatures.ts:77-82 | tidying keeps the text in order but for whitespace and one comma before each `)` |
| Tidiness.AnyRunIsASpace | apps/web-viewer/src/lib/procedure-signatures.ts:79-79 | any run of whitespace reads as a space |
| Tidiness.NoneAfterOpen | apps/web-viewer/src/lib/procedure-signatures.ts:80-80 | whitespace after a `(` leaves no trace |
| Tidiness.NoneBeforeClose | apps/web-viewer/src/lib/procedure-signatures.ts:81-81 | nor does whitespace before a `)`, but after a comma |
| Tidiness.TidyIsKept | apps/web-viewer/src/lib/procedure-signatures.ts:77-82 | a text with none of these to change stays as it is |
| Tidying.WrappedReadsAsOneLine | apps/web-viewer/src/lib/procedure-signatures.ts:60-64 | a parameter list wrapped over lines with a trailing comma reads as it does on one line, whatever whitespace is between |
| Tidying.TidiedIsOnOneLine | apps/web-viewer/src/lib/procedure-signatures.ts:76-82 | a tidied signature is on one line with no whitespace around it |
| Paths.JoinSplit | apps/web-viewer/src/lib/source-files.ts:153-156 | joining what a path splits into gives the path |
| Paths.SplitJoin | apps/web-viewer/src/lib/source-files.ts:153-156 | and splitting what names join into gives the names |
| FileTree.InsertPutsIn | apps/web-viewer/src/lib/source-files.ts:155-167 | inserting a path puts one file into the flattened tree and keeps the others in their order |
| FileTree.InsertKeepsLevel | apps/web-viewer/src/lib/source-files.ts:156-166 | inserting keeps: each path joins the names from the root, no folder is empty, one folder per name on a level |
| FileTree.RebuildLevel | apps/web-viewer/src/lib/source-files.ts:150-168 | inserting what a tree flattens to builds the tree again |
| FileOrder.SortSorts | apps/web-viewer/src/lib/source-files.ts:131-138 | a level is ordered folders first, each by name, for any total preorder of names |
| FileOrder.SortIsStable | apps/web-viewer/src/lib/source-files.ts:146-146 | nodes that compare equal keep their order |
| FileOrder.SortTreeOrders | apps/web-viewer/src/lib/source-files.ts:140-147 | every level is sorted |
| FileOrder.SortTreeKeepsFiles | apps/web-viewer/src/lib/source-files.ts:140-147 | sorting keeps the files |
| FileOrder.TreeHoldsThePaths | apps/web-viewer/src/lib/source-files.ts:150-170 | the finished tree's files are the given paths, each as often, and every level is sound and sorted |
| FileOrder.TreeIsItsPaths | apps/web-viewer/src/lib/source-files.ts:150-170 | any sound sorted tree is what its own paths build |
| Explorer.InsertedInPlace | apps/web-viewer/src/lib/source-files.ts:154-167 | pushing into the arrays along a path inserts it into the tree they stand for, and changes no other folder |
| Explorer.Builder.InsertPath | apps/web-viewer/src/lib/source-files.ts:153-167 | the loop over a path's names does that insertion |
| Explorer.Builder.SortLevel | apps/web-viewer/src/lib/source-files.ts:140-147 | sorting the arrays in place sorts the tree they stand for, and nothing outside it |
| Explorer.Builder.Build | apps/web-viewer/src/lib/source-files.ts:150-170 | the arrays then stand for the tree of the paths |
| Project.CleanLeadsDown | packages/utils/src/project.ts:24-32 | the accepted paths are those without a backslash that lead, from any directory, straight down their own names |
| Project.CleanPathsAreApart | packages/utils/src/project.ts:24-26 | two accepted paths never lead to one place |
| Project.NormalizeEntrypoint | packages/utils/src/project.ts:37-58 | the loops compute the normal form |
| Project.NormalizedExactly | packages/utils/src/project.ts:34-36 | an entrypoint means a directory exactly when it is a text that spells it: some `./`, the clean directory, some `/` |
| Project.RootExactly | packages/utils/src/project.ts:34-56 | an entrypoint means the root exactly when it is absent, or some `./`, alone or before a `.` |
| Project.NormalizingIsIdempotent | packages/utils/src/project.ts:37-58 | normalising again changes nothing and yields `.` or a clean path |
| Opening.OpenProject | packages/utils/src/project.ts:94-136 | the project, or the first thing wrong in the documented order |
| Opening.ComplaintExactly | packages/utils/src/project.ts:98-113 | the complaint before any directory is looked at: no files, the first file at fault by its path or else its content, or an entrypoint that means nothing |
| Opening.DirectoryExactly | packages/utils/src/project.ts:114-135 | then at the directory: no `Cargo.toml`, no `miden-project.toml`, a `Cargo.toml` that is not TOML or names no package, or the project opened with its name |
| Opening.OpensAsExactly | packages/utils/src/project.ts:109-135 | some entrypoint opens accepted files at a directory exactly when that is the root or a clean path and the manifests there read as such |
| Opening.InferInvertsOpen | packages/utils/src/project.ts:138-159 | an entrypoint is inferred exactly when it is the only one the files open with under that name |
| Opening.OpenedIsInferred | packages/utils/src/project.ts:138-140 | a project opened and stored gets its entrypoint back, or none when another directory would open under its name |
| Cadence.RollUpExactly | apps/status-page/scripts/probe.ts:494-500 | healthy, unhealthy or degraded as all, none or some of the endpoints are healthy; healthy without endpoints |
| Cadence.SinceIsTheStreaks | apps/status-page/scripts/probe.ts:581-596 | `since` is the first run of the current streak of equal health |
| Cadence.LeftStateIsRemembered | apps/status-page/scripts/probe.ts:591-594 | when the state changes, the start of the one left is still there |
| Cadence.ClockExactly | apps/status-page/scripts/probe.ts:581-602 | the clock starts again exactly when the snapshot before has none of this health to carry on, and what is left behind is remembered |
| Cadence.PostedExactly | apps/status-page/scripts/notify.ts:81-116 | what each run posts: a change, a first bad sighting, or the first run past a six-hour multiple of an outage |
| Cadence.ReasonExactly | apps/status-page/scripts/notify.ts:81-115 | what any snapshot has posted, readable or not: a reminder exactly when a bad state is unchanged, all three times are known and a multiple of six hours lies past the last run's and not past this one's |
| Cadence.RemindersFollowTheClock | apps/status-page/scripts/notify.ts:72-80 | reminders of an outage number at most the six-hour multiples it has passed, and exactly those if and only if no gap passes two |
| Cadence.RegularRunsRemindOnTime | apps/status-page/scripts/notify.ts:96-112 | with gaps of at most six hours they number exactly those |
| Cadence.HealthIsSilent | apps/status-page/scripts/notify.ts:94-94 | a service that stays healthy posts nothing more |
| Components.StandardComponents | apps/api-compile/crates/miden-import/src/main.rs:167-179 | the loop takes each component exactly when the account has all its procedures and no earlier one claimed any |
| Components.GreedyIsUnique | apps/api-compile/crates/miden-import/src/main.rs:118-122 | the order decides which are taken |
| Components.DetectedAreApart | apps/api-compile/crates/miden-import/src/main.rs:114-122 | the components detected share no procedure and claim only the account's |
| Components.NothingIsStillClaimable | apps/api-compile/crates/miden-import/src/main.rs:169-177 | a component left out could not be claimed from what is left at the end |
| Components.LeftOutExactly | apps/api-compile/crates/miden-import/src/main.rs:167-179 | a component is left out exactly when the account lacks one of its procedures or an earlier one taken has it |
| Components.TakenInOrder | apps/api-compile/crates/miden-import/src/main.rs:167-179 | those taken are listed in their order |
| Components.VerifiedExactly | apps/web-viewer/src/lib/verification-status.ts:12-15 | the count never exceeds the total and reaches it exactly when every procedure is accounted for |
| Components.KnownExactly | apps/web-viewer/src/lib/verification-status.ts:25-37 | a procedure is accounted for exactly when its digest, in any case, is a standard component's or that of a convention 3 procedure of a verified package |
| Components.CountIsWhatIsClaimed | apps/web-viewer/src/lib/verification-status.ts:16-44 | the viewer counts exactly the procedures the account's standard components claim and those that only verified packages account for |
| Components.VerifyAccountComponent | apps/api-compile/crates/miden-verifier/src/main.rs:136-215 | the components named, the rejection of a package without exports, and the custom entry exactly when the package has account procedures and the account has them all |
| Components.NamesInOrder | apps/api-compile/crates/miden-verifier/src/main.rs:136-215 | each standard component is named, at its place among them |
| Components.AccountedIsCounted | apps/web-viewer/src/lib/verification-status.ts:25-42 | each account procedure of a package that accounts for custom code is one the viewer counts |

## Left out

- Execution.ReadOnlyExactly: its second half asks that every location's successors rank below it, as hashing digests ensures; in a cyclic graph a run may never get to the node the walk reaches. `Execution.Soundness` has no such condition.
- RegistryProtocol.RunKeepsArtifacts: the property fails when a cleanup races a verification of the same commitment; `RegistryLoss` says exactly when, and `RegistryRace.RaceLosesArtifact` is an instance.
- Builds.NothingIsLeftBehind: is about schedules in which every deletion succeeds; `Builds.WhatIsLeftIsLeaked` is about all.
- Signatures.FindFunction: takes the name as an identifier, since the code puts it into a regular expression unescaped.
- Cadence.RemindersFollowTheClock: is about runs that each read the snapshot of the run before; with a lost snapshot the outage clock starts again, and a recovery is not announced.
- RegistryService.Service.VerifyResource: runs with nothing in between, as the other handlers do; their interleavings are the steps of `RegistryProtocol`. A failed transaction restores the tables instead of staging its writes.
- RegistryService.Service.CleanupPlayground: a deletion of an artifact that fails, and ends the cleanup there, is only among the steps of `RegistryProtocol`, where a request can stop at any await.
- The arrays of the file tree are numbered and reached through an index, not held as objects; sorting one array is a stable insertion sort, as the language only promises the result.
- The queue's closures, promises and abort signals: events and the set of attached listeners stand for them.
- Registry columns that no property reads: names, manifests, files, build versions and update times; so the backfill's inferred entrypoint is a parameter, and `Opening` has the inference.
- Database isolation weaker than serial transactions: the component table has no unique index, so its one-row-per-commitment property would not survive it.
- The transaction kernel, the virtual machine, proofs and the compiler: foreign code, known here by what it promises.
- Fees, nonces and the other contents of a note's recipient hash: the bank's note is its own fields.
- Characters are single units; UTF-16 surrogates, nested block comments, raw strings and character literals are read as the masker reads them, which is not Rust's grammar.
- Backslashes are rejected in project paths but not given a meaning as separators.
- HTTP routes, clients, subprocesses, file reads, Slack posts, the storage back ends and the command line tools: plumbing around what is modelled.
- The classification of an account's procedures into interfaces, and each standard component's procedures: foreign, so parameters of `Components`.
- Address encoding, hex parsing, retries and formatting helpers: easy members.
- `verify_note_script`, the package listing pages and the user interface: no hard property.
