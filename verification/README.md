# Verified models of the cleat-ports harness

The ports in this repository exercise an engine that lives elsewhere; what decides
whether their tests mean anything is the harness itself. This project models that
harness in Dafny and proves what its comments and documentation promise.

- `FixtureState`, `FixtureProtocol`, `FixtureInvariants`, `FixtureTheorems`: the
  fixture service. `Service` is the module state with one method per critical section.
  The protocol runs any number of handlers against that state: a handler first takes the
  one lock its next section needs, then performs the section, and the condition
  variable's wait is split into evaluating the predicate, sleeping, being notified
  (every sleeper of every key) and the last look after the ceiling. A run is a sequence
  of worlds and actions; the theorems hold in every world of every run.
- `FixtureSwapped`: the same protocol with the epoch read and the publish exchanged, and
  a run in which a release is lost.
- `RetryClient`: a client that retries sequentially, crashes included; its steps are
  shown to be steps of the protocol.
- `TableScanner`, `TableShapes`: the README table scanner, and what it reports for tables
  of any width.
- `Inventory`, `InventoryRows`, `InventoryTheorems`, `InventoryHidden`: the table generator
  and the check that compares its tables with the README, with exactly which foreign rows
  and which hidden tables pass it.
- `Collector`, `CollectorCounts`: which test definitions are counted, how many cases each
  stands for, and the work-list.
- `AssertionChecks`, `AssertionVerdict`: the walk over a test's syntax tree and the
  verdict over a suite.
- `VersionPins`: the toolchain-pin check.
- `EntryParams`, `EntryIntent`, `EntryRegistry`: reading a Go parameter list, what is
  enforced when types have several tokens, and refusing a start that omits a parameter.
- `BudgetLoops`, `BudgetEnds`: three workflow loops with one total time budget, and
  exactly how each ends.
- `Text`, `Basics`: the string and list operations they share.

Strings are sequences of characters, integers are unbounded, a `defaultdict` is a map
read with a default. A line of a file is a string without its line break, so a README is
the list of its lines, and a pattern is a predicate on lines written out by hand.

## Where the code does not do what it says

The models follow the code.

- A row the generator did not produce is to make the check fail (lines 566-599 of
  `count-queue-cases.py`). Next to a table's header it need not: line 589 skips a table
  whose pattern does not match because "the missing-line check already reports this",
  and it does not. The last line of a README without a final line break escapes as well.
  For a row added to either table of a sound README, `InventoryTheorems.SplicedIntoFirst`
  and `InventoryTheorems.SplicedIntoSecond` say exactly when all four tests pass;
  `InventoryTheorems.UnnoticedRow` is an instance for any two tables.
- `count-queue-cases.py:559-560` looks for a generated line anywhere inside the README,
  not as a line of it. `InventoryHidden.MissingIsExactIff` says for which READMEs the two
  are the same; in a block quote both tables pass the whole check though no line of
  either is there (`InventoryHidden.QuotedTablesPass`).
- `conftest.py:78` promises the required parameters. A part of three or more tokens is
  dropped, so a channel is forgotten (`EntryIntent.ChannelIsForgotten`), and the other
  names of its group borrow a type from their right, so an optional parameter can be
  demanded (`EntryIntent.OptionalIsDemanded`). `EntryIntent.EnforcesIntentIff` says
  exactly when the promise holds.
- `conftest.py:605-607` leaves the old entry when a workflow is deployed again without
  anything to declare (`EntryRegistry.OldEntrySurvives`). A start is judged by the
  workflow as it is deployed exactly under `EntryRegistry.JudgedByCurrentIff`.
- `awaitsignals/main.go:39-40` waits until every listed name has arrived. A list that
  holds one name twice can never complete (`BudgetLoops.CanCompleteIff`).
- `check-go-toolchain-pin.py:66-69` speaks of counting setup-go steps. The code asks for
  one comparable pin in a file that has any step (`VersionPins.TwoSetupsOnePin`), which is
  one for each step exactly when there is at most one (`VersionPins.OnePinPerSetupIff`).
- `count-queue-cases.py:109-110` raises when a parametrize names a constant without a
  length, where lines 96-98 promise a count of 1 for what cannot be evaluated. `Collector.RaisesIff`
  says exactly when.

## Model

| member | source | states |
|---|---|---|
| `FixtureState.Service.CountCall` | scripts/fixture-service.py:247-250 | a call takes the next number on its key and its operation is appended to the key's log |
| `FixtureState.Service.Publish` | scripts/fixture-service.py:305-308 | one more in flight, and the high-water mark raised only when passed |
| `FixtureState.Service.Retire` | scripts/fixture-service.py:323-324 | one fewer in flight, nothing else changed |
| `FixtureState.Service.ReadEpoch` | scripts/fixture-service.py:303-304 | the epoch read is the stored epoch of the key |
| `FixtureState.Service.MayLeave` | scripts/fixture-service.py:319-321 | a waiter may leave exactly when its key was released after its own epoch |
| `FixtureState.Service.PostRelease` | scripts/fixture-service.py:216-223 | the number of holders is returned and the epoch of the key goes up by one |
| `FixtureState.Service.PostCall` | scripts/fixture-service.py:237-326 | a call served alone gives exactly the state and the answer of the value-level `Served` |
| `FixtureInvariants.OccupiedStep` | scripts/fixture-service.py:305-324 | every step keeps each in-flight count equal to the number of handlers between publish and retire |
| `FixtureInvariants.LockedStep` | scripts/fixture-service.py:87-124 | every step keeps at most one handler inside the sections of each lock |
| `FixtureInvariants.GatedStep` | scripts/fixture-service.py:294-321 | every step keeps: no epoch from the future, no sleeper whose predicate is true, nobody woken without a newer release |
| `FixtureInvariants.InjectiveStep` | scripts/fixture-service.py:247-250 | every step keeps the numbers on a key distinct |
| `FixtureInvariants.OntoStep` | scripts/fixture-service.py:247-250 | every step keeps every number up to the count taken by some call |
| `FixtureInvariants.InvHolds` | scripts/fixture-service.py:127-326 | all these invariants hold in every world of every run |
| `FixtureTheorems.InflightIsExact` | scripts/fixture-service.py:143-150 | the in-flight count is exact in every world, hence never negative |
| `FixtureTheorems.PeakIsMaximum` | scripts/fixture-service.py:89-103 | the peak is an upper bound of the occupancy of every world so far and was attained in one |
| `FixtureTheorems.PeakIsHighWater` | scripts/fixture-service.py:305-308 | the stored peak equals the running maximum of the occupancy |
| `FixtureTheorems.SerialPeak` | ports/dbos-transact-py/tests/test_parallelism.py:163-198 | calls issued one after another never give a peak above 1, and exactly 1 once one was held |
| `FixtureTheorems.NoLostRelease` | scripts/fixture-service.py:294-321 | from the moment a release lands after the epoch read, the predicate stays true, the call never sleeps, and it leaves because of a release |
| `FixtureTheorems.EpochCountsReleases` | scripts/fixture-service.py:220-222 | in every world the epoch of a key is the number of its releases so far |
| `FixtureTheorems.SeenCountsReleases` | scripts/fixture-service.py:303-304 | what a held call remembers is the number of releases of its key before its epoch read |
| `FixtureTheorems.NoLatch` | scripts/fixture-service.py:116-124 | a hold ended before its ceiling is justified by a release of its key strictly after its own epoch read |
| `FixtureTheorems.HoldEndsEarlyIff` | scripts/fixture-service.py:303-321 | at the step that ends a hold: it ends early if and only if a release of the key fell between its epoch read and that step |
| `FixtureTheorems.ReleasedNumberIsHonoured` | scripts/fixture-service.py:216-223 | the returned number is the occupancy at the count, and when the answer goes out each of those calls has left or has a true predicate |
| `FixtureTheorems.PollActRelease` | scripts/fixture-service.py:51-60 | a call that is the only holder at a poll that reports 1 stays held until the first release after its epoch read unless its ceiling ends it, and if it still waits at that release it never needs the ceiling, whatever happened on the key before |
| `FixtureTheorems.DeadlockFree` | scripts/fixture-service.py:136-326 | a world with an unfinished handler has an enabled step that is not a new request |
| `FixtureTheorems.Drains` | scripts/fixture-service.py:136-326 | without new requests, n handlers take at most n(2n+14) further steps under any schedule |
| `FixtureTheorems.StopsEmpty` | scripts/fixture-service.py:316-324 | where no step is left everybody has been answered and nothing is in flight |
| `FixtureTheorems.CanDrain` | scripts/fixture-service.py:316-324 | every run extends, without new requests, to one at rest |
| `FixtureTheorems.ReadersAreToldTheTruth` | scripts/fixture-service.py:136-164 | each read request is answered with the current occupancy, the greatest one so far, the number of calls and the log |
| `FixtureTheorems.AttemptNumbers` | scripts/fixture-service.py:237-250 | the numbers on a key are exactly 1 to the count, each one call's, and the log entry at that place is its operation |
| `FixtureTheorems.FirstCallsFail` | scripts/fixture-service.py:252-282 | with a common fail_times f and no permanent failure, call number a fails if and only if a <= f |
| `FixtureTheorems.AnswersAreRight` | scripts/fixture-service.py:233-282 | an answered call was refused for its key if and only if that is empty, failed for good if and only if it asked for it, whatever its number, failures and delay, and otherwise failed with its status (503 by default) while its number was within fail_times and succeeded after |
| `FixtureTheorems.NumberedCallIsHeldIff` | scripts/fixture-service.py:247-294 | a call that takes its number goes on to be held if and only if it is not permanent, its number is above fail_times and its delay is not 0; otherwise it is answered at once |
| `FixtureTheorems.OnlyTheHeldAreHeld` | scripts/fixture-service.py:252-324 | in every world nobody else is held or on the way there |
| `FixtureTheorems.LoneCallIsServedRight` | scripts/fixture-service.py:237-326 | the same of `Served`, with exactly the counters it leaves |
| `FixtureTheorems.RaiseWakesEverybody` | scripts/fixture-service.py:220-222 | after a raise nobody is asleep, on any key |
| `FixtureSwapped.LostRelease` | scripts/fixture-service.py:294-302 | with the two lines swapped there is a run in which a release counts a call and the call still goes to sleep deaf to it |
| `FixtureSwapped.LostForGood` | scripts/fixture-service.py:294-302 | such a call stays unwoken until another release of its key; only its ceiling can end it |
| `RetryClient.AttemptsMade` | scripts/fixture-service.py:19-31 | with c calls already counted a retried call makes min(n, max(f-c,0)+1) calls and succeeds exactly when the failures due are fewer than the budget |
| `RetryClient.FreshKey` | ports/dbos-transact-py/tests/test_recovery.py:421-443 | on a fresh key: min(n, f+1) calls, success exactly when f < n |
| `RetryClient.CountTellsClass` | scripts/fixture-service.py:28-31 | with enough failures the count is the budget for 408, 429 and 500 to 599, and 1 for any other status |
| `RetryClient.CalledOnce` | scripts/fixture-service.py:252-282 | a permanent failure, or a failure with a status that is not retried, is called once and gets its answer, whatever was counted before |
| `RetryClient.RestartingMakes` | ports/dbos-transact-py/tests/test_recovery.py:421-443 | restarting after failed prefixes totalling c makes min(n+c, f+1) calls |
| `RetryClient.ResumeVersusRestart` | ports/dbos-transact-py/tests/test_recovery.py:421-443 | resuming and restarting make equally many calls if and only if f < n, and otherwise differ by min(c, f+1-n) |
| `RetryClient.ServedRuns` | scripts/fixture-service.py:237-326 | a call to a quiet service has a run of the protocol ending in exactly the state and answer of `Served` |
| `RetryClient.ClientExtendsRun` | scripts/fixture-service.py:237-326 | the retrying client's calls extend any run at rest, with the counters the formulas speak of |
| `TableScanner.MalformedTableRows` | ports/dbos-transact-py/scripts/count-queue-cases.py:486-522 | the loop reports exactly the declaratively malformed rows, once each, in line order |
| `TableShapes.ClosedRowHasItsCells` | ports/dbos-transact-py/scripts/count-queue-cases.py:503-504 | n cells without bars, the outer two not empty, between bars and before blanks are n cells |
| `TableShapes.OpenRowHasItsCells` | ports/dbos-transact-py/scripts/count-queue-cases.py:503-504 | also without the closing bar, when the last cell is more than blanks |
| `Text.StripIs` | ports/dbos-transact-py/scripts/count-queue-cases.py:504 | stripping takes off all white space at both ends and nothing else |
| `Text.TrimIs` | ports/dbos-transact-py/scripts/count-queue-cases.py:504 | trimming bars takes off all bars at both ends and nothing else |
| `TableShapes.TableReport` | ports/dbos-transact-py/scripts/count-queue-cases.py:510-519 | of a table with a header of m cells and rows of any numbers of cells, exactly the rows of another number than m are reported, each with its line, both numbers and both lines |
| `TableShapes.OneRowIff` | ports/dbos-transact-py/scripts/count-queue-cases.py:489-519 | a table with one row of n cells is reported, with that row alone, if and only if m is not n |
| `TableShapes.RuleIff` | ports/dbos-transact-py/scripts/count-queue-cases.py:511 | a rule is a bar before cells of dashes, colons and blanks |
| `TableShapes.FenceIff` | ports/dbos-transact-py/scripts/count-queue-cases.py:508 | a fence is blanks before three backticks |
| `TableShapes.FencedIsClean` | ports/dbos-transact-py/scripts/count-queue-cases.py:508-510 | no table between two fences is reported |
| `TableScanner.ExactIsUnique` | ports/dbos-transact-py/scripts/count-queue-cases.py:486-522 | no two reports are exact for the same text |
| `TableScanner.RowIsNoFence` | ports/dbos-transact-py/scripts/count-queue-cases.py:509-519 | a line the loop jumps over is never a fence line |
| `TableScanner.ScanConcat` | ports/dbos-transact-py/scripts/count-queue-cases.py:506-522 | after an even number of fences, and with no table across the seam, the report of two texts is the first report followed by the shifted second |
| `TableScanner.ScanAcrossBlank` | ports/dbos-transact-py/scripts/count-queue-cases.py:506-522 | in particular for two texts with a blank line between them |
| `Inventory.Generate` | ports/dbos-transact-py/scripts/count-queue-cases.py:420-483 | unmapped modules are listed, exactly those and in order, and stop it; otherwise both tables, one row per file and per module in order |
| `Inventory.Check` | ports/dbos-transact-py/scripts/count-queue-cases.py:558-620 | accepts exactly when the four tests pass; otherwise hands back exactly the lines that offend the first failing test, in order |
| `Inventory.Figures` | ports/dbos-transact-py/scripts/count-queue-cases.py:525-544 | the upstream and skipped totals, and grouping by upstream file conserves cases: the mapped total is that of the mapped modules, the rest that of the others |
| `InventoryRows.UpRowSays` | ports/dbos-transact-py/scripts/count-queue-cases.py:455 | a row of the first table holds the file, its number of cases and its priority, in that order |
| `InventoryRows.SuiteRowSays` | ports/dbos-transact-py/scripts/count-queue-cases.py:475-482 | a row of the second table holds the module, its cases with the skipped ones if any, and its target: "none" if and only if the module is not credited, with the note if there is one |
| `InventoryRows.UpRowReadsBack` | ports/dbos-transact-py/scripts/count-queue-cases.py:455 | equal rows are of one file with one number and one priority |
| `InventoryRows.SuiteRowReadsBack` | ports/dbos-transact-py/scripts/count-queue-cases.py:475-482 | equal rows are of one module with one count: a count that changes changes its row |
| `InventoryRows.GainsAreTotalled` | ports/dbos-transact-py/scripts/count-queue-cases.py:525-544 | cases or skips that one module gains are gained by the total of its kind, mapped if its row has a target, and by no other |
| `InventoryRows.NothingTotalled` | ports/dbos-transact-py/scripts/count-queue-cases.py:525-544 | without cases the totals are 0 |
| `InventoryTheorems.RowHasThreeCells` | ports/dbos-transact-py/scripts/count-queue-cases.py:455-482 | a row of three cells without bars is counted as three cells by the scanner |
| `InventoryTheorems.RowCellsAre` | ports/dbos-transact-py/scripts/count-queue-cases.py:455-504 | and splitting it gives those cells back |
| `InventoryTheorems.GeneratorAgreesWithCheck` | ports/dbos-transact-py/scripts/count-queue-cases.py:420-620 | the generated tables in sound surroundings pass all tests, for every count map and every note without a bar |
| `InventoryTheorems.StaleIff` | ports/dbos-transact-py/scripts/count-queue-cases.py:581-599 | a foreign row added to a generated table is reported, alone, if and only if it is below the rule and not the README's last line |
| `InventoryTheorems.SplicedIntoFirst` | ports/dbos-transact-py/scripts/count-queue-cases.py:558-620 | a foreign row in the first table passes all four tests if and only if it stands next to the header, bears no totals mark, fits there, and does not pose as the second header above rows that are not the second table's |
| `InventoryTheorems.SplicedIntoSecond` | ports/dbos-transact-py/scripts/count-queue-cases.py:558-620 | in the second table if and only if it stands next to the header or is an unclosed last line, bears no totals mark and fits there |
| `InventoryTheorems.SplicedCleanIff` | ports/dbos-transact-py/scripts/count-queue-cases.py:506-522 | the scanner finds the table with the added row well formed if and only if the row fits: three cells anywhere, any width above the header, or in the second line when it is a rule or no rows follow |
| `InventoryTheorems.UnnoticedRow` | ports/dbos-transact-py/scripts/count-queue-cases.py:586-589 | a README, for any two generated tables, that holds a foreign row and passes |
| `InventoryHidden.MissingIsExactIff` | ports/dbos-transact-py/scripts/count-queue-cases.py:558-560 | finding nothing missing means that every generated line is a line of the README if and only if each stretch of a README line that looks like a generated line is a line itself |
| `InventoryHidden.ShapedReadmeHidesNothing` | ports/dbos-transact-py/scripts/count-queue-cases.py:558-560 | it is so when every line with four bars or more has exactly four and begins and ends with one |
| `InventoryHidden.TableIsThereIff` | ports/dbos-transact-py/scripts/count-queue-cases.py:558-560 | in such a README nothing of a table is missing if and only if all its lines are lines of the README |
| `InventoryHidden.RowlessPassesIff` | ports/dbos-transact-py/scripts/count-queue-cases.py:558-620 | a README without any table row passes all tests if and only if nothing is missing |
| `InventoryHidden.QuotedTablesPass` | ports/dbos-transact-py/scripts/count-queue-cases.py:558-620 | and two tables written as a block quote do pass, with no line of either in the README |
| `Collector.AddCases` | ports/dbos-transact-py/scripts/count-queue-cases.py:125-132 | a definition adds as many cases as the product of its decorators' multipliers, or raises |
| `Collector.CollectCases` | ports/dbos-transact-py/scripts/count-queue-cases.py:121-140 | the cases of the module-level tests and of the methods of test classes, in order |
| `Collector.FindDuplicates` | ports/dbos-transact-py/scripts/count-queue-cases.py:166-178 | lists exactly the names defined twice or more, each once |
| `Collector.Collect` | ports/dbos-transact-py/scripts/count-queue-cases.py:114-187 | it raises if and only if a counted definition has a parametrize that names a constant without a length; otherwise a module is refused if and only if some qualified name is defined twice |
| `Collector.RaisesIff` | ports/dbos-transact-py/scripts/count-queue-cases.py:87-132 | the same, for any list of definitions |
| `Collector.HopelessIff` | ports/dbos-transact-py/scripts/count-queue-cases.py:396-417 | a module has no count if and only if it raises or defines a name twice |
| `Collector.CaseCount` | ports/dbos-transact-py/scripts/count-queue-cases.py:125-140 | the number of cases is the sum over definitions of the products of multipliers |
| `Collector.ProductAtLeastOne` | ports/dbos-transact-py/scripts/count-queue-cases.py:87-111 | no decorator removes a case |
| `CollectorCounts.DecoratorMultiplies` | ports/dbos-transact-py/scripts/count-queue-cases.py:87-132 | a parametrize over n values, literal or named, among any decorators multiplies the cases of its definition by n, by 1 when n is 0; any other decorator leaves them |
| `CollectorCounts.StandsForProduct` | ports/dbos-transact-py/scripts/count-queue-cases.py:87-132 | a definition with parametrizes of n1, ..., nk values stands for exactly n1 * ... * nk cases, all its own, numbered from 0 when there are several |
| `CollectorCounts.DecoratorInModule` | ports/dbos-transact-py/scripts/count-queue-cases.py:121-140 | in a module it adds exactly that definition's new cases |
| `CollectorCounts.CollectTwice` | ports/dbos-transact-py/scripts/count-queue-cases.py:114-187 | the same of what is collected before and after a test function gets one decorator more |
| `CollectorCounts.ConstantsAre` | ports/dbos-transact-py/scripts/count-queue-cases.py:75-84 | a name is a constant if and only if a literal is assigned to it, and the last one counts |
| `CollectorCounts.DefinitionsAre` | ports/dbos-transact-py/scripts/count-queue-cases.py:134-140 | what counts: functions named test_ and methods named test_ of classes named Test, under the name pytest knows |
| `CollectorCounts.SkipCount` | ports/dbos-transact-py/scripts/count-queue-cases.py:413-416 | the skipped cases are those of the skipped definitions |
| `Collector.CaseNamesDistinct` | ports/dbos-transact-py/scripts/count-queue-cases.py:117-140 | distinct definitions have pairwise distinct case names, parametrized or not |
| `Collector.Worklist` | ports/dbos-transact-py/scripts/count-queue-cases.py:193-216 | the cases are partitioned, and the number printed as portable is the number of names listed |
| `Collector.Report` | ports/dbos-transact-py/scripts/count-queue-cases.py:190-216 | from a module's text: refused for a duplicate, else the count and the list agree |
| `Collector.PortCounts` | ports/dbos-transact-py/scripts/count-queue-cases.py:396-417 | every module's own case and skip counts, or a module for which no count is right |
| `AssertionChecks.Checks.Visit` | scripts/check-assertions-executed.py:100-113 | the recursive walk appends exactly `Walk` to the shared list |
| `AssertionChecks.ChecksIn` | scripts/check-assertions-executed.py:96-116 | the list of a whole test body |
| `AssertionChecks.WalkIsExact` | scripts/check-assertions-executed.py:96-116 | the walk reports the nodes of all paths below the body, each path once and in strict pre-order, each with the guard of its own path |
| `AssertionChecks.GuardedUnfold` | scripts/check-assertions-executed.py:100-104 | the guard carried down the walk is the existence of a guarding edge on the path |
| `AssertionChecks.GuardedIff` | scripts/check-assertions-executed.py:101-104 | guarded is exactly what stands below an if, a try or a handler, or in the else part of a loop |
| `AssertionChecks.NotedIs` | scripts/check-assertions-executed.py:105-112 | noted is an assert or a waiting call with the guard of its place, a fail call as guarded, and nothing else |
| `AssertionChecks.WalkReports` | scripts/check-assertions-executed.py:96-116 | a finding is in the list if and only if it stands at some path |
| `AssertionVerdict.Outcomes` | scripts/check-assertions-executed.py:119-132 | one outcome per name, from the last case of that name and its first telling child |
| `AssertionVerdict.ResultIff` | scripts/check-assertions-executed.py:125-131 | a case passed if and only if no child is a failure, an error or a skip; otherwise the first of these names its result |
| `AssertionVerdict.JudgeTest` | scripts/check-assertions-executed.py:162-194 | the suspects of one test, none when it is not a test, did not pass in every case, or was not measured |
| `AssertionVerdict.Verdict` | scripts/check-assertions-executed.py:135-208 | 2 without data, 1 with a suspect, 0 otherwise |
| `AssertionVerdict.FailsIff` | scripts/check-assertions-executed.py:159-208 | there is a suspect if and only if a test that passed and is not excused has an unexecuted check on a path without a guard |
| `AssertionVerdict.Spared` | scripts/check-assertions-executed.py:162-175 | no suspect in what is not a test function, is not listed, or did not pass in some case or parameter |
| `AssertionVerdict.MoreExecutedFewerFindings` | scripts/check-assertions-executed.py:186-194 | executing more lines never adds a suspect |
| `VersionPins.SatisfiesIffExtends` | scripts/check-go-toolchain-pin.py:78-88 | a pin satisfies a floor if and only if some extension of its fields is at or above the whole floor |
| `VersionPins.FirstDifferenceDecides` | scripts/check-go-toolchain-pin.py:86-88 | one version is at or above another if and only if it begins with it or is above it at the first difference |
| `VersionPins.ComparisonIsTotal` | scripts/check-go-toolchain-pin.py:86-88 | any two versions compare, and two at or above each other are equal |
| `VersionPins.FailsAtFirstDifference` | scripts/check-go-toolchain-pin.py:78-88 | a pin fails a floor if and only if at some field it is below it with all earlier fields equal |
| `VersionPins.WrittenComparison` | scripts/check-go-toolchain-pin.py:74-88 | the same of versions written in decimal |
| `Text.LeadingDigitIs` | scripts/check-go-toolchain-pin.py:75 | a field of a version is read as a decimal number |
| `VersionPins.LowerFloor` | scripts/check-go-toolchain-pin.py:78-88 | lowering the floor never rejects an accepted pin |
| `VersionPins.VersionRoundTrip` | scripts/check-go-toolchain-pin.py:74-75 | a version written in decimal is numeric and reads back as itself |
| `VersionPins.FindPinIsLeftmost` | scripts/check-go-toolchain-pin.py:53-63 | the recogniser finds the leftmost match of the pin pattern, if there is one |
| `VersionPins.SetsUpGoIff` | scripts/check-go-toolchain-pin.py:70 | a line sets up Go if and only if the pattern matches somewhere in it |
| `VersionPins.WrittenPinIsRead` | scripts/check-go-toolchain-pin.py:53-63 | a value written bare or in either quoting is read back |
| `VersionPins.OnePinPerSetupIff` | scripts/check-go-toolchain-pin.py:66-69 | among files with n setup-go lines, being judged implies n pins if and only if n is at most 1 |
| `VersionPins.TwoSetupsOnePin` | scripts/check-go-toolchain-pin.py:133-172 | a file with two setup-go lines and one pin that is judged |
| `VersionPins.FindPins` | scripts/check-go-toolchain-pin.py:133-172 | fails if and only if some file cannot be judged; otherwise exactly the numeric pins of the files |
| `VersionPins.Check` | scripts/check-go-toolchain-pin.py:175-220 | the exit status is the declarative three-valued `Code` |
| `VersionPins.FailsIffSomePinIsBelow` | scripts/check-go-toolchain-pin.py:203-217 | a tree that can be judged exits with 1 if and only if some pin is below the floor at its first difference from it, and with 0 otherwise |
| `VersionPins.OrderDoesNotMatter` | scripts/check-go-toolchain-pin.py:133-220 | the status depends on the set of files only |
| `VersionPins.AddingAFile` | scripts/check-go-toolchain-pin.py:188-197 | adding a file turns a non-zero status into 0 only from 2, and only by bringing the first pin |
| `VersionPins.LowerFloorKeepsPassing` | scripts/check-go-toolchain-pin.py:203-220 | a passing tree keeps passing under a lower floor |
| `EntryParams.Read` | ports/dbos-transact-py/tests/conftest.py:95-120 | the right-to-left loop computes `Resolve`, and the answer is None or the names that are not pointers |
| `EntryParams.WordsConcat` | ports/dbos-transact-py/tests/conftest.py:101 | any stretch of white space separates words, line breaks included, and makes none |
| `EntryParams.ReadsWhatIsPrinted` | ports/dbos-transact-py/tests/conftest.py:91-117 | however adjacent parameters of one type are grouped, reading the printed list gives every name its type |
| `EntryParams.DeclaredByPrinted` | ports/dbos-transact-py/tests/conftest.py:78-120 | None exactly for no parameter and for a single string, otherwise the names that are not pointers, in order |
| `EntryIntent.ReadsWide` | ports/dbos-transact-py/tests/conftest.py:100-113 | with types of any number of tokens and any grouping: a name printed with a longer type is dropped, and the bare names before it take the type of the first one-token group on their right |
| `EntryIntent.EnforcesIntentIff` | ports/dbos-transact-py/tests/conftest.py:78-117 | for any grouping of distinct names, what is enforced is what should be if and only if every type of several tokens is a pointer's, the bare names of such a group meet a pointer on their right, and dropping leaves no lone string |
| `EntryIntent.UngroupedIff` | ports/dbos-transact-py/tests/conftest.py:100-117 | with every parameter on its own, repeated names allowed: if and only if only pointers have several tokens and dropping leaves no lone string |
| `EntryIntent.ChannelIsForgotten` | ports/dbos-transact-py/tests/conftest.py:100-107 | a channel parameter is never asked for |
| `EntryIntent.OptionalIsDemanded` | ports/dbos-transact-py/tests/conftest.py:91-113 | an optional parameter grouped before one of several tokens is asked for |
| `EntryRegistry.Registry.Deploy` | ports/dbos-transact-py/tests/conftest.py:605-607 | a workflow that declares something is registered, any other leaves the registry alone |
| `EntryRegistry.Registry.Start` | ports/dbos-transact-py/tests/conftest.py:246-256 | a name is reported if and only if it is registered for the workflow and not in the payload; in the order of declaration |
| `EntryRegistry.RegistryIs` | ports/dbos-transact-py/tests/conftest.py:605-607 | after any deployments, the entry of a workflow is what its last deployment that declared something declared |
| `EntryRegistry.RefusedIff` | ports/dbos-transact-py/tests/conftest.py:246-256 | after any deployments, a start is refused if and only if the payload lacks a parameter, not a pointer, of the workflow's last deployment that has one |
| `EntryRegistry.Session` | ports/dbos-transact-py/tests/conftest.py:605-607 | the same of the registry object: deployed to from empty, then asked |
| `EntryRegistry.JudgedByCurrentIff` | ports/dbos-transact-py/tests/conftest.py:605-607 | every start is judged by the current deployment if and only if that one demands something or none before it did |
| `EntryRegistry.OldEntrySurvives` | ports/dbos-transact-py/tests/conftest.py:605-607 | a workflow deployed again without parameters is still asked for the old one |
| `BudgetLoops.AwaitSignals` | ports/samples-go/workflows/awaitsignals/main.go:50-114 | the loop over a set and a slice ends as `Collect` says, with the same order and clock |
| `BudgetLoops.CollectKeepsBudget` | ports/samples-go/workflows/awaitsignals/main.go:64-92 | the clock never passes the deadline, however many duplicates arrive |
| `BudgetLoops.CollectReportsArrivals` | ports/samples-go/workflows/awaitsignals/main.go:83-113 | however it ends, the order reported is the first-arrival order of the deliveries taken |
| `BudgetLoops.CollectGivesUpWhen` | ports/samples-go/workflows/awaitsignals/main.go:83-99 | it gives up only at the deadline or when the host times out |
| `BudgetLoops.CompleteMeansAll` | ports/samples-go/workflows/awaitsignals/main.go:83-113 | completion means every wanted name arrived, in first-arrival order |
| `BudgetLoops.CompletesIff` | ports/samples-go/workflows/awaitsignals/main.go:80-113 | for distinct names, a host makes it complete if and only if its first so many answers deliver every name and the last of them is awaited before the deadline |
| `BudgetLoops.CanCompleteIff` | ports/samples-go/workflows/awaitsignals/main.go:51-83 | some host makes it complete if and only if the names are distinct |
| `BudgetEnds.WaitEndsIff` | ports/samples-go/workflows/awaitsignals/main.go:83-113 | for every way of ending, exactly the hosts that bring it about: as many names as wanted in time, an error before that, the deadline or silence before that; and the names reported then |
| `BudgetLoops.SignalCounter` | ports/samples-go/workflows/signalcounter/main.go:34-68 | ends as `Count` says, having published 0, 1, ... up to its count |
| `BudgetLoops.CountKeepsBudget` | ports/samples-go/workflows/signalcounter/main.go:34-46 | the clock stays within the budget |
| `BudgetLoops.CountIsTicks` | ports/samples-go/workflows/signalcounter/main.go:41-67 | the count is the number of ticks seen, and the run completes exactly on a last "done" |
| `BudgetLoops.CountSeesDeliveries` | ports/samples-go/workflows/signalcounter/main.go:41-67 | what was seen is a beginning of the deliveries, none lost or taken twice |
| `BudgetEnds.CountEndsIff` | ports/samples-go/workflows/signalcounter/main.go:41-66 | it completes if and only if the first n answers are ticks and the next is "done", awaited in time, with count n; it fails if and only if the host breaks first; it gives up if and only if the deadline is reached or the host is silent first |
| `BudgetEnds.CountEndsThere` | ports/samples-go/workflows/signalcounter/main.go:41-66 | and what is counted and seen in each case |
| `BudgetLoops.PromiseChain` | ports/dbos-transact-py/workflows/promisechain/main.go:36-71 | a negative count panics, a failed creation stops before any await, otherwise it ends as `Chain` says |
| `BudgetLoops.ChainIsExact` | ports/dbos-transact-py/workflows/promisechain/main.go:51-70 | it reports exactly the resolved prefix, times out exactly when that is not all, and truncation to milliseconds keeps the clock within the deadline |
| `BudgetEnds.ChainEndsIff` | ports/dbos-transact-py/workflows/promisechain/main.go:51-70 | an await fails if and only if the host breaks there in time, the chain times out if and only if the clock or the host runs out first, and it reports all promises if and only if all are resolved in time, with the number each time |

## Left out

- HTTP, sockets, JSON decoding and the chat echo (fixture-service.py:174-214): a request is a record with its defaults applied.
- Wall-clock time: a ceiling is a step that may fire whenever its call sleeps; the workflow clock is a number that the host advances, in unbounded nanoseconds.
- Inside a critical section: each section is one step taken while its lock is held; the single reads and writes of a section are not interleaved.
- The engine's own retry policy: the retrying client is the sequential one that the recovery test describes, with the status classes of fixture-service.py:8-10.
- Regular expressions and the Python and Go parsers: patterns are written out as predicates on lines, syntax trees are datatypes, and the Go parameter list is the text the signature pattern captures.
- Fetching the floor and reading the environment file (check-go-toolchain-pin.py:91-130): the floor is an argument that may be missing.
- Counters and messages that only get printed: the clean, expected and not-judged tallies of the assertion check, and the wording of reports.
- Inventory.Generate: takes the modules in the order in which they are to be listed instead of sorting them; the theorems about the tables hold for every order.
- `BudgetLoops.AwaitSignals`, `BudgetLoops.SignalCounter` and `BudgetLoops.PromiseChain`: a host has finitely many answers and then lets awaits time out, so runs that never end are not modelled; 64-bit overflow of durations is not modelled.
- The other workflows, scripts and self-tests: single-call wrappers, line filters and finite cases.
