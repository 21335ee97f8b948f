# A verified model of mcp-chain

mcp-chain lets one session publish a short id that other sessions wait on. All of it rests on one JSON file that any
number of processes read and rewrite under a mutex and a file lock, on an allocator that never hands out an id twice,
and on a shell loop that polls until an id is resolved. This project models those parts and proves what they promise.

`dafny verify dfyconfig.toml` checks everything.

## Layers

- `WordList.dfy`, `IdGen.dfy`: the word list parser and the allocator on top of it.
- `Schema.dfy`, `StoreSpec.dfy`: documents, errors, and each operation as a function of the state it loads.
- `AtomicWrite.dfy`, `Store.dfy`: the code in its own form. A directory object with open handles and failing calls, the
  temporary-file sequence, the loaded state that closures mutate in place, and the store with its mutex and file lock.
  Go closures passed to the lock functions become a value naming the operation and a method that runs it.
- `History.dfy`: the log of committed writes, and what a state says about that log.
- `Verdicts.dfy`: when each call succeeds, its errors otherwise, and the file it leaves, on documents and on the log.
- `Protocol.dfy`, `Guarantees.dfy`: any number of processes and threads, one step at a time, with a crash or a failing
  call possible at every step; the inductive invariant and what follows from it for whole runs.
- `Refinement.dfy`: a call of the store object is an uncontended run of the protocol.
- `ChainWait.dfy`, `Waiter.dfy`, `Table.dfy`: the wait script, its guarantees against the log, and the listing.

`Outcome`, `Explained`, `RecordIsFromLog` and the other predicates named in lemmas are defined next to them.

## What is assumed about the surroundings

- A rename replaces its target in one step. A file that was written successfully holds what was written.
- Closing a temporary file releases its handle even if it reports an error; removing a closed file succeeds, removing an
  open one does not. `os.CreateTemp` picks an unused name.
- The file lock makes a request wait for conflicting holders of other processes. A request from a process that already
  holds it may succeed and may wait. A release that fails leaves the lock with its process until that process ends.
- A process that dies loses its mutex and its locks and takes no further step. Each process has one store object.
- System call failures, clock readings and temporary names are inputs of every call and are never restricted.
- Times are integers on one axis, texts are sequences of characters, tokens are compared for equality, and `uint64`
  values are numbers below 2^64 with explicit wrap-around.

## Where the code and its documentation differ

- The comment on `RegisterWithID` calls allocated ids and caller-supplied ids independent. `Register` does not look
  whether its id is taken and replaces a live record that a caller registered under that id:
  `History.SlugIsReplaced` gives the smallest case, `History.ReplacesIffSlugUnpurged` says on the log exactly when it
  happens, and `History.SlugAtRiskIff` what a caller can check: an id is at risk if and only if it is one that `Register`
  has yet to hand out.
- The comment on `Allocate` ends the four-digit range at counter 1296+65535. The code ends it at 1296+65534
  (`IdGen.AllocateRanges`).
- `Register` ids are distinct for the first 2^64 calls only, since the counter wraps (`History.RegisterIdsDistinct`).
- A file lock whose release fails can stop other processes (`Guarantees.FailedReleaseBlocks`), and possibly later calls
  of its own process. Calls stop one another in no other way: `Guarantees.MayStopIffBehindAnyLeak` and
  `Guarantees.MustStopIffBehindLeak` are exact for the two ways a request behind its own process can turn out.
- The wait script reads minutes and hours with a leading zero as octal, and seconds as decimal
  (`ChainWait.LeadingZeroIsOctal`).

## Model

| member | source | states |
|---|---|---|
| WordList.IsValidWord | internal/idgen/wordlist.go:80-90 | true exactly when every character is a lower-case letter or a hyphen |
| WordList.ParseAndValidate | internal/idgen/wordlist.go:43-75 | the result is the word column if no line has a fault, and otherwise the line count or the first fault in line order |
| WordList.OutcomeUnique | internal/idgen/wordlist.go:43-75 | the lines determine the outcome, including which fault is reported |
| WordList.AcceptedIffValidColumn | internal/idgen/wordlist.go:35-42 | a text is accepted with a list exactly when that list is its word column and is 1296 distinct non-empty [a-z-]+ words without the hex- prefix |
| WordList.PrintedListParses | internal/idgen/wordlist.go:43-75 | a valid list printed as prefix, tab, word, line feed parses back to exactly that list |
| WordList.AcceptedIffPrinted | internal/idgen/wordlist.go:46-72 | conversely every accepted text is such a table, up to carriage returns before line feeds and trailing line feeds |
| WordList.SameOutcomeForCrlf | internal/idgen/wordlist.go:44-47 | a text without carriage returns and its CRLF form have the same outcome, success or error |
| WordList.ValidWordsExist | internal/idgen/wordlist.go:19-22 | the conditions on the list can be met |
| WordList.ReportedFaultIsFirst | internal/idgen/wordlist.go:50-72 | the reported line is at fault in the reported way (no tab, empty, foreign character, hex- prefix, or a word of an earlier line) and the lines before it are the beginning of a valid list |
| WordList.TrimmedIsPrefix | internal/idgen/wordlist.go:45 | exactly the final line feeds are trimmed |
| WordList.StripCrPiecewise | internal/idgen/wordlist.go:44 | a carriage return goes exactly when a line feed follows it |
| WordList.WordAlphabet | internal/idgen/wordlist.go:80-90 | the word characters are the 26 letters and the hyphen |
| IdGen.Format04xReadsBack | internal/idgen/idgen.go:20-22 | the zero-padded widening hex form parses back to its number at every width |
| IdGen.PositionalValue | internal/idgen/idgen.go:20-22 | numerals are read positionally in base sixteen with the digits 0-9 and a-f |
| IdGen.CanonicalFormats | internal/idgen/idgen.go:7-10 | every numeral of four digits, or of more without a leading zero, is the form of its value, and four digits mean below 65536 |
| IdGen.AllocateReadsBack | internal/idgen/idgen.go:16-23 | the counter value can be recovered from any allocated id |
| IdGen.AllocateInjective | internal/idgen/idgen.go:5-23 | no two counter values of the whole uint64 range share an id |
| IdGen.AllocateRange | internal/idgen/idgen.go:7-10 | the allocated ids are exactly the words and hex- with a canonical numeral from 1 to the end of the counter's range |
| IdGen.AllocateRanges | internal/idgen/idgen.go:7-10 | words up to counter 1295, then numerals of value counter - 1295 that are four digits wide exactly up to counter 1296+65534 |
| IdGen.YetToBeAllocatedIff | internal/idgen/idgen.go:16-23 | whether some counter value from here on yields an id can be computed from the id and the counter |
| Schema.SavedStateLoads | internal/store/store.go:254-289 | what is saved after a load has version 1 and non-null records, is accepted by the next load and comes back unchanged |
| Schema.LoadsOrRefuses | internal/store/store.go:254-277 | a file is refused exactly when it does not decode or its version is not 1, with that error; every other file loads as the document it holds |
| AtomicWrite.FillAndRename | internal/store/atomic_windows.go:30-47 | whichever call fails, the handle is closed on return and the target is old or new at every moment |
| AtomicWrite.WriteStateAtomic | internal/store/atomic_windows.go:19-48 | nil exactly when no call fails and then the rename happened once and the target holds the new bytes; otherwise the directory is as before; no handle or temporary file remains, and at every crash point the target holds exactly the old or the new bytes |
| Store.CallCommitsOrLeavesFile | internal/store/lock.go:31-53 | a call commits exactly when arguments, lock, load, closure and save go well; otherwise the file is unchanged and the error is not that of the release; after a commit only the release can turn the result into an error |
| Store.FailuresDecide | internal/store/lock.go:31-53 | which of several failures a call reports: arguments, lock, read, refused file, closure, save, release, in this order, all but the last leaving the file alone |
| Store.Collect | internal/store/store.go:192-195 | the loop lists every record once, in whatever order the keys come |
| Store.ValidateId | internal/store/store.go:125-141 | no error exactly for 1 to 64 slug characters that start with a letter or digit |
| Store.Store.LoadState | internal/store/store.go:254-277 | a fresh empty state for a missing file, the decoded state for version 1 with null records read as empty, and the read, corrupt or version error otherwise |
| Store.Store.SaveState | internal/store/store.go:282-289 | the file holds the encoded state exactly when nothing fails, and is otherwise untouched |
| Store.Store.RegisterIn | internal/store/store.go:69-84 | the closure of Register allocates before incrementing and writes one pending record |
| Store.Store.RegisterWithIdIn | internal/store/store.go:105-118 | the closure of RegisterWithID refuses a taken id and leaves the counter alone |
| Store.Store.ResolveIn | internal/store/store.go:150-168 | the closure of Resolve, with its three errors in order and no change on error |
| Store.Store.PurgeResolvedIn | internal/store/store.go:233-239 | for every iteration order exactly the resolved records go and their number is returned |
| Store.Store.PurgeIn | internal/store/store.go:222-243 | the closure of Purge for an id, for all and for the resolved, with the number removed |
| Store.Store.WithLockedState | internal/store/lock.go:31-53 | the mutex is free on return and the file lock too unless its release failed; result and file are those of the load, apply, save cycle, where a failed release only spoils a success; no other file changes |
| Store.Store.WithSharedLock | internal/store/lock.go:63-82 | likewise for a read, which changes no file |
| Store.Store.Register | internal/store/store.go:67-88 | the id on success, the empty id with the error otherwise, and the file after the call |
| Store.Store.RegisterWithId | internal/store/store.go:101-119 | an invalid id is refused before any lock; otherwise the cycle with its error |
| Store.Store.Resolve | internal/store/store.go:149-169 | the error, if any, and the file after the call |
| Store.Store.Purge | internal/store/store.go:205-248 | anything but one target is refused before any lock; the count on success and zero with the error otherwise |
| Store.Store.Get | internal/store/store.go:173-184 | the record found, also when only the release fails, or the zero record with the error |
| Store.Store.List | internal/store/store.go:189-199 | all records once each in some order, also when only the release fails |
| History.ExtendKeepsLegal | internal/store/lock.go:45-52 | a write that succeeds on the current state extends the log without changing anything before it |
| History.CounterCounts | internal/store/store.go:72-73 | the counter is the number of registrations, modulo 2^64, whatever was purged |
| History.CounterNeverDecreases | internal/store/store.go:203-204 | it never decreases before 2^64 is reached |
| History.RegisterIdsAreAllocated | internal/store/store.go:67-88 | the i-th Register returns the id of the i-th counter value |
| History.RegisterIdsDistinct | internal/store/store.go:67-88 | all ids returned by Register are pairwise distinct if and only if there are at most 2^64 of them |
| History.RecordsComeFromTheLog | internal/store/store.go:67-248 | an id is present exactly when registered and not purged since, with owner, condition and time of its latest registration and the resolution since then |
| History.StatesWellFormed | internal/store/schema.go:21-45 | keys equal ids, the status is pending or resolved, and the resolution time is set exactly when resolved |
| History.ResolveCarriesLatestToken | internal/store/store.go:149-169 | a committed Resolve that is not forced carries the token of the latest registration of its id, which was unresolved |
| History.ResolveAnswers | internal/store/store.go:149-169 | Resolve succeeds exactly when the id is live and unresolved in the log and it is forced or has the token of the latest registration, and otherwise gives the error of the first condition that fails |
| History.IdAnswers | internal/store/store.go:101-231 | a registration under an id fails exactly when the id is live in the log, and a purge by id exactly when it is not |
| History.SurvivorsOnlyResolve | internal/store/store.go:149-169 | a record not registered anew between two moments is untouched or resolved exactly once, by its owner or by force, with no other field changed |
| History.ReplacesIffSlugUnpurged | internal/store/store.go:72-81 | Register replaces a live record exactly when an earlier entry is a caller's registration of the allocated id that no entry since has purged |
| History.SafeSlugIsNeverReturned | internal/store/store.go:90-118 | a caller's id that is not one Register has yet to hand out is never returned by a later Register |
| History.SlugAtRiskIff | internal/store/store.go:90-118 | a caller's fresh registration can be replaced in some continuation if and only if its id is one Register has yet to hand out |
| History.SlugIsReplaced | internal/store/store.go:90-118 | a two-entry log in which Register replaces a caller's record |
| History.LiveIdOrigin | internal/store/store.go:67-119 | the latest registration of a live id wrote its owner, condition and time, and was a Register that took a counter value below the counter or a caller's registration of that id |
| History.RegistrationsAccountedFor | internal/store/store.go:205-248 | registrations equal live records plus all removed counts plus replacements by Register |
| History.ResolutionLasts | internal/store/store.go:149-248 | a resolved record stays resolved until it is purged or its id registered again |
| History.SeenResolvedWasResolved | internal/store/store.go:149-169 | a record seen resolved was resolved in the log after its latest registration, with that token or by force |
| Verdicts.ReadsShowTheDocument | internal/store/store.go:173-199 | List returns exactly the records of the document, and Get the record of an id or unknown id |
| Verdicts.RefusedFileAnswers | internal/store/store.go:264-273 | on a file that is corrupt or of another version every read and every write with valid arguments returns that error and leaves the file alone |
| Verdicts.RegisterAnswers | internal/store/store.go:67-88 | Register of a loading file succeeds with the id of the counter, one pending record and the counter one on |
| Verdicts.SlugAlphabet | internal/store/store.go:121-141 | the accepted slugs are 1 to 64 characters of the 39 listed, the first not a dot, underscore or hyphen |
| Verdicts.RegisterWithIdAnswers | internal/store/store.go:101-119 | a malformed slug is refused, then a taken one; any other is registered with the counter untouched |
| Verdicts.ResolveAnswersOn | internal/store/store.go:149-169 | unknown id, resolved already, foreign token without force; otherwise success, and only the status and resolution time of that record change |
| Verdicts.ResolveAnswersFromLog | internal/store/store.go:149-169 | the whole call gives each of its four answers exactly under the condition on the log, and changes the file only on success |
| Verdicts.PurgeNeedsOneTarget | internal/store/store.go:206-218 | no target, or two or more, is refused with the file untouched whatever fails |
| Verdicts.PurgeIdAnswers | internal/store/store.go:224-229 | a purge of a listed id removes that record and counts one; of any other id it is unknown |
| Verdicts.PurgeAllAnswers | internal/store/store.go:230-232 | a purge of all counts the listed records and leaves none |
| Verdicts.PurgeResolvedAnswers | internal/store/store.go:233-239 | a purge of the resolved removes and counts exactly the listed records with that status |
| Verdicts.WritesAreRead | internal/store/store.go:67-289 | a Get or List after a successful write shows exactly the document that write left |
| Protocol.NoConflictWhenUnblocked | internal/store/lock.go:26-43 | a granted file lock conflicts with no holder, although holders of the same process never block |
| Protocol.StepKeepsInv | internal/store/lock.go:31-82 | every step, crash and failure keeps the invariant of the protocol |
| Guarantees.RunInv | internal/store/lock.go:31-82 | every state of every run satisfies the invariant the following results start from |
| Guarantees.FileIsReplayOfCommits | internal/store/lock.go:31-53 | after any run the file is the replay of the committed writes in rename order, each applied to what its predecessor left |
| Guarantees.RefusedFilesStay | internal/store/store.go:264-273 | a run that starts from a corrupt file or another version never commits, keeps the file, and every returned call has that error, an argument error or a failing system call |
| Guarantees.FileChangesWithLog | internal/store/lock.go:45-52 | the file changes only with a rename, which commits exactly its own call |
| Guarantees.CallsAreLinearizable | internal/store/lock.go:31-82 | every returned outcome, success or error, is what the log gives at one position between the call's start and its return |
| Guarantees.ReadsSeeCommittedWrites | internal/store/lock.go:55-82 | a read sees every write committed before it began, also one whose release failed or that has not returned |
| Guarantees.ErrorsLeaveNoTrace | internal/store/lock.go:39-52 | a returned call is in the log, once, exactly when it is a write that succeeded or only failed to release the lock |
| Guarantees.WritersAreAlone | internal/store/lock.go:26-43 | only readers of different processes ever hold the lock together, and what a holder loaded is what the file still holds |
| Guarantees.ReadersOverlap | internal/store/lock.go:57-68 | a reader is granted the lock while only other readers hold it |
| Guarantees.WithoutMutexAnUpdateIsLost | internal/store/lock.go:26-30 | two calls of one process past the mutex together would lose a registration and return the same id |
| Guarantees.RegisterCallsGetDistinctIds | internal/store/store.go:67-88 | successful Register calls of a run return different ids, across processes, crashes, purges and caller-supplied ids |
| Guarantees.ReachableDocuments | internal/store/store.go:254-263 | starting without a file every reachable document loads, is well formed, is what the log says, and accounts for every registration |
| Guarantees.MayStopIffBehindAnyLeak | internal/store/lock.go:26-43 | no step of the normal course is certain exactly when every unfinished call waits behind a lock that a failed release left with some process, perhaps its own |
| Guarantees.MustStopIffBehindLeak | internal/store/lock.go:26-43 | none is possible exactly when those locks were left by other processes than the waiting ones |
| Guarantees.FailedReleaseBlocks | internal/store/lock.go:39-43 | a run in which a reader's failed release stops a writer of another process for good |
| Guarantees.NoDeadlock | internal/store/lock.go:32-43 | without failed releases some call can go on for certain, whichever way requests behind their own process turn out |
| Guarantees.NormalStepsSettle | internal/store/lock.go:32-43 | from every state without a leaked lock, steps that are certain lead to one with all calls finished and all mutexes and locks free |
| Guarantees.MaximalStretchesSettle | internal/store/lock.go:32-43 | every maximal stretch without new calls and failed releases ends so, whoever crashes and whatever else fails, with temporary files left by crashed calls only |
| Guarantees.StretchesEnd | internal/store/lock.go:31-82 | without new calls the number of steps is bounded by the work left at the start, whatever fails or crashes |
| Refinement.WriteCallIsARun | internal/store/lock.go:31-53 | an uncontended write of the store object, with its failures, is a run of the protocol with the same outcome and file |
| Refinement.ReadCallIsARun | internal/store/lock.go:63-82 | likewise a read |
| ChainWait.ParseArgs | plugin/scripts/chain-wait.sh:15-55 | accepted exactly with one id and any timeouts in any order, the last timeout counting; usage exactly when a help flag is what ends the loop; refused otherwise |
| ChainWait.ArgumentKinds | plugin/scripts/chain-wait.sh:23-51 | what each argument is to the loop: --timeout with and without its value, --timeout=, the help flags, an id, or an unknown flag |
| ChainWait.UsageForms | plugin/scripts/chain-wait.sh:15-55 | an id alone, or with a timeout in either spelling on either side, is accepted as that id and timeout |
| ChainWait.LastTimeoutCounts | plugin/scripts/chain-wait.sh:23-35 | of two timeouts in either spelling the last one counts |
| ChainWait.RefusedForms | plugin/scripts/chain-wait.sh:36-55 | no id and two ids are refused, and a help flag is answered only if the loop reaches it |
| ChainWait.ParseDuration | plugin/scripts/chain-wait.sh:60-91 | up to 15 digits the budget is what the duration is worth when that is 1 to 604800 seconds, refused otherwise, and zero for no duration |
| ChainWait.WorthIffPrinted | plugin/scripts/chain-wait.sh:57-77 | without a leading zero a duration is worth w exactly when it prints a positive count with a suffix whose unit makes it w |
| ChainWait.UnitsInSeconds | plugin/scripts/chain-wait.sh:57-77 | s, m and h are 1, 60 and 3600 seconds; another suffix or a character that is no digit is refused |
| ChainWait.LeadingZeroIsOctal | plugin/scripts/chain-wait.sh:62-77 | with a leading zero seconds are decimal; minutes and hours are refused exactly with a digit above seven, and worth the decimal reading exactly when that is below eight, less otherwise |
| ChainWait.PollLoop | plugin/scripts/chain-wait.sh:101-138 | the first poll that is not pending or is past the budget decides the outcome and the exit status, and `continue` is printed exactly on a resolved one |
| ChainWait.OutcomeUnique | plugin/scripts/chain-wait.sh:101-138 | that determines the outcome |
| ChainWait.ExitStatuses | plugin/scripts/chain-wait.sh:101-138 | the exit status is 0, 1 or 124 as the first deciding poll is 0, neither 0 nor 2, or 2 past the budget, and none while every poll goes on |
| ChainWait.TimeoutIsBounded | plugin/scripts/chain-wait.sh:101-138 | with a timeout the loop ends within budget + 1 polls, and exits 124 only after the budget and on a poll that saw pending |
| Waiter.StatusCodes | internal/cli/status.go:57-78 | 0 for a record found resolved, 2 for one found pending, and 1 for every error |
| Waiter.PollOfRefusedFile | internal/cli/status.go:57-62 | while the file is refused every status process exits with 1 |
| Waiter.PollReportsTheLog | internal/cli/status.go:57-78 | status exits 0, 2 or 1 exactly as the log says resolved, pending or not registered at the position of the poll |
| Waiter.ContinueMeansResolved | plugin/scripts/chain-wait.sh:102-128 | in every run, a waiter exits with 0, and prints `continue`, only if its last poll saw, between its beginning and end, a log in which a Resolve by the owner or forced follows the latest registration of the id |
| Waiter.PollAfterResolutionReportsIt | internal/cli/status.go:63-67 | a poll that reads after the Resolve and before any purge or new registration exits 0 |
| Waiter.WaitersContinueAfterResolution | plugin/scripts/chain-wait.sh:102-128 | in every run, any waiter's poll that begins after the Resolve is committed ends its wait with `continue`, if none ended it before, its own calls succeed, and nothing purged or re-registered the id before it read |
| Table.SortPermutes | internal/cli/format/table.go:38-45 | sorting keeps exactly the records |
| Table.SortSorts | internal/cli/format/table.go:40-45 | records with distinct ids end up in strictly ascending order of creation time and id |
| Table.StringLessIsTextBefore | internal/cli/format/table.go:40-45 | the id order is a proper prefix, or a smaller character at the first difference |
| Table.SortedRowsAscend | internal/cli/format/table.go:40-45 | rows of records with distinct ids ascend in creation time, and in the id order at equal times |
| Table.RowsTabulate | internal/cli/format/table.go:47-74 | under the header every record has its row, with its own fields and the first characters of its condition |
| Table.WriteTable | internal/cli/format/table.go:34-62 | nothing for no records; otherwise the header and one row per record with its fields, in ascending creation time and then id |
| Table.TableIgnoresIterationOrder | internal/cli/format/table.go:38-60 | for a well-formed document the sorted rows are a permutation in strict order and the same for every iteration order |

## Left out

- JSON text: documents are decoded values, and a failed or partial write is one that does not decode.
- renameio (the unix form of the atomic write) and the flock library: their code is not part of this model; the unix write
  is taken to behave as the explicit sequence does.
- Durability below an atomic rename, file modes, and network file systems.
- Token generation, constant-time comparison and the server that carries calls to the store.
- WithLockedState: has no contract about waiting for a lock; waiting, and threads that meet, are in the protocol.
- ParseDuration: says of numbers of more than 15 digits only that they are out of range, because there the shell's 64-bit
  arithmetic need not be exact.
- PollLoop: describes the finite beginnings of a run, because without a timeout the loop may poll forever; it does not
  model the second status call that repeats an error message.
- ParseArgs: does not model the messages; a help flag ends the script with status 0 before any poll.
- WriteTable: does not model column padding or the format of timestamps.
- SliceStable: the library's algorithm is not part of this model; it is taken as insertion in order.
- Path resolution, the install and smoke scripts, the plugin manifests and the MCP wiring: environment and plumbing.
