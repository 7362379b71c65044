# Verified model of the core engines of webdev

`webdev` is a Go library for web applications. This project models ten of its small engines in Dafny
and proves what they are for. Each engine has pure functions that say what it computes or how its state
moves, classes and methods in the form of the Go code that are proved equal to those functions, and
lemmas about all inputs, all runs or all reachable states.

`dafny verify dfyconfig.toml` checks everything.

## The engines

**Conditions to SQL** (`SqlIdent`, `Q`, `SqlGrammar`, `SqlLexer`, `QParse`, `QReadBack`, `QMeaning`,
`QPlaceholders`, `QSpelling`, `QConditions`). `Q.Build` turns a condition tree into text and arguments.
The text is then read as a database would read it: cut into tokens by the dialect's rules and parsed by a
grammar of boolean value expressions in which NOT binds tighter than AND and AND tighter than OR (section
6.34 of ISO/IEC 9075-2:2003). The grammar is unambiguous, the text has the intended parse and no other,
and with the arguments bound that parse has the truth of the condition on every row, in three-valued
logic. One family of conditions has no parse at all: with the Generic dialect, which does not quote names,
a column part spelled like a keyword (`NOT = ?`). `HasParseIffReadable` gives the exact condition.
`QSpelling` and `QConditions` say the same for conditions as a user writes them, with operators given by
their spellings: which ones build, and what the text of each then says of a row.

**The prepared-statement cache** (`StmtCacheSpec`, `StmtCacheProof`, `StmtCallers`, `StmtCache`). A state
machine whose actions are the critical sections of acquire, release and closeAll and the unlocked
preparation between them; a run is any interleaving of any number of callers. Statements are open while
held, closed once, and closed exactly when evicted and unused; nothing leaks; the list is ordered by last
acquire; the counters add up. A lookup hits exactly when an open cache lists the key, callers prepare only
after a miss of their own, and one caller after the other prepares a key once.

**The menu forest** (`Menu`, `MenuProof`, `MenuBuild`, `MenuListing`). `BuildTree` accepts exactly the
tables whose ids are positive and distinct, whose parents exist and whose chains all end at the root; the
depth guard never fires; the tree is the only one with sorted levels and does not depend on the order of
the rows; flattening lists every record once, at the depth of its chain. `MenuListing` says what that
means for the records' own fields, in tree and flat list.

**Migrations** (`MigrateLoad`, `MigrateNames`, `Migrate`, `MigratePrefix`, `MigrateRunners`,
`MigrateHistory`). Loading file names by a grammar that can be read back, running files in transactions,
Up, Down, and any number of runners that take the advisory lock, read the table, run files, crash and
leave in any order. With the lock a successful Up leaves everything applied, and the up of a file that
runs in a transaction never takes effect twice without a down in between. A file marked to run outside a
transaction keeps its effect when its record cannot be written, and the next Up runs it again:
`NeverTwiceIff` says that the lock keeps every version from going up twice exactly when no up file is so
marked. If downs undo their ups, the table determines the schema in every run. Without the lock two Ups
collide (`WithoutLockUpConflicts`). The text of `README.md:409` of the repository says there is no lock;
`pkg/migrate/lock.go` has one, and the model follows the code.

**Circuit breaker and retry** (`BreakerSpec`, `Breaker`, `Retry`, `Policies`). Admission and recording are
separate steps, so results of old calls arrive in any later state. At most one probe is in flight, the
breaker is never stuck, and it trips exactly on the threshold-th failure in a row. `MaxDelay` of the retry
policy does not bound the first wait (`FirstDelayExceeds`): `MaxDelayBoundsWaits` says for which policies
it bounds every wait of every run.

**Bulk statements** (`BulkSql`, `BulkProof`, `BulkBatches`, `BulkRead`, `BulkEval`, `BulkInsert`,
`BulkRows`). The `CASE`/`IN` update of a batch is read back from its text as the only statement it can be.
For rows whose keys do not repeat, running what is read in the texts of all batches, in order, changes a
table as updating the keys one by one does, for every batch size. For rows that do repeat a key one
statement takes the first row of the key and one-by-one updates end with the last, so the batch size
matters (`RepeatedKeyExample`); `BulkUpdateIsOneByOneIff` gives the exact condition: in the last batch
that holds a row's key, the first and the last row with it agree on the updated columns. Neither NULL keys
nor the key column among the updated ones matter. The inserts are read back in the same way: running what
is read in the texts of all batches adds exactly the given rows, in order, each value under its column.

**Named parameters in SQL text** (`BindNamed`, `BindRegex`, `BindColumn`, `BindMeaning`). Binding
`${name}` writes placeholders and collects arguments; an empty list makes the test of a column a constant,
taking back text that is already written; where such a test is found is what the program's regular
expressions say (`ColumnTestIff`). Filling the question marks with the arguments puts every value where
its name stood if and only if the remaining places hold the arguments one after the other
(`BindingSubstitutesIff`). Two things break that: a question mark of the text's own before a parameter
(`? ${x}`), and the place of a value inside a bracketed or quoted name that goes with an empty list
(`[${i}] IN (${e})`, which keeps the argument and loses its placeholder).

**Routes** (`Router`, `RouterPattern`, `RouterPrintf`, `RouterProof`, `RouterUrl`, `RouterNamed`).
Patterns have a grammar: literal characters, `{name}` and `{name:regex}` with balanced braces and escapes,
`:name` with its marks, and jokers. Parsing succeeds exactly on the texts of the grammar and gives their
meaning. `ReverseIff` says which URLs there are: the values fill the parameters in the one possible way,
each segment shows itself, greedy values keep their slashes, and an absent optional parameter takes along
the slash before it. Reverse URLs can be matched back to exactly the given values, so they are injective
(percent-encoding is that of section 2.1 of RFC 3986). Filling by name counts used keys; that count is
right for every map exactly when no parameter name repeats in the pattern (`NamedCheckIsRight`): with
`/{id}/{id}` an unknown key goes unnoticed.

**Rate limiting** (`RateLimit`, `LoginLimit`). The bucket grants a call exactly when burst and rate,
counted from every earlier call, allow one more, whatever the clock shows; an uncontended wait takes at
most two sleeps, and one exactly when the time to wait is a whole number of nanoseconds or no longer than
the shortest sleep. The per-address table that sweeps idle buckets decides like one that never sweeps
exactly when the window is at most ten minutes and one nanosecond.

**Signals** (`SignalsSpec`, `Signals`). The subscriber list is a slice whose backing array Emit shares. No
call on the signal writes a cell of a live snapshot, so Emit calls exactly the subscribers registered when
it started, in order, whatever is called meanwhile.

Time, what a migration file does to the schema, what a called function returns, when a context ends and
how much room an append adds are inputs of the model.

## Model

| member | source | states |
|---|---|---|
| SqlIdent.ValidateIdent | pkg/sqlutil/ident.go:76-95 | accepts one to three dotted parts, each a letter or underscore followed by at most 127 letters, digits or underscores |
| SqlIdent.ValidNameIff | pkg/sqlutil/ident.go:76-95 | a name is valid if and only if it is one to three parts with dots between them, in character codes |
| SqlIdent.QuoteIdent | pkg/sqlutil/ident.go:97-137 | refuses invalid names, quotes every part of a valid one as the dialect does |
| SqlIdent.AtoiItoa | pkg/sqlutil/ident.go:139-149 | the number in a placeholder can be read back |
| Q.Builder.Ph | pkg/q/q.go:143-146 | appends the argument and gives the placeholder of its number |
| Q.Builder.Build | pkg/q/q.go:148-181 | the recursive compiler: text numbered from the arguments already there, its own arguments appended in order, or the first error |
| Q.Builder.Leaf | pkg/q/q.go:183-220 | one comparison, with the operator of its spelling (QSpelling.ParseOpIff): NULL tests, lists, empty lists, plain comparisons, errors for bad fields and operators |
| Q.Build | pkg/q/q.go:127-136 | text and arguments, or the first error and neither |
| SqlGrammar.Unambiguous | pkg/q/q.go:148-181 | no token sequence has two parses under NOT over AND over OR |
| QParse.LexText | pkg/q/q.go:148-239 | the emitted text, wherever it stands, is read as the intended tokens in every dialect |
| QReadBack.HasParseIffReadable | pkg/q/q.go:148-220 | the emitted text has a parse if and only if no unquoted column part is spelled like a keyword |
| QReadBack.ParseIsTree | pkg/q/q.go:148-220 | any parse of the emitted text is the intended tree |
| QReadBack.QuotingMakesReadable | pkg/sqlutil/ident.go:127-137 | in the four dialects that quote names every condition can be read |
| QReadBack.ReservedNameExample | pkg/q/q.go:121-125 | a column named NOT: readable unless names are left unquoted |
| QMeaning.MeaningIsKept | pkg/q/q.go:148-220 | the tree with its arguments bound has the three-valued truth of the condition on every row: nil children skipped, empty And and NotIn true, empty Or and In false, Eq and Ne of nil as NULL tests |
| QMeaning.TextMeansCondition | pkg/q/q.go:127-220 | whatever a database parses from Build's text, with Build's arguments it has the truth of the condition |
| QMeaning.SameInEveryDialect | pkg/sqlutil/ident.go:97-149 | unquoted and with arguments in place, the trees of any two dialects are equal |
| QMeaning.DialectsAgree | pkg/q/q.go:127-136 | the parsed texts of two dialects are the same expression over the same columns and values |
| QSpelling.ParseOpIff | pkg/q/q.go:34-49 | an operator is read if and only if the blank-separated words of the string, in upper case, are one of its thirteen spellings, each written out |
| QConditions.BuildsIff | pkg/q/q.go:66-136 | a condition builds if and only if every field is one to three names and every operator one of the spellings |
| QConditions.LeafErrorTells | pkg/q/q.go:183-191 | the error of a leaf: its field before its operator |
| QConditions.TextHolds | pkg/q/q.go:66-220 | whatever a database parses from the text of a written condition says of a row what is written, operator by operator: less than for "<", NULL tests for "=" and "!=" with nil, membership for IN, and so on |
| QConditions.WhereKeepsMeaning | pkg/q/q.go:86-95 | normalising the operator early changes neither text nor error |
| QPlaceholders.PlaceholdersInOrder | pkg/q/q.go:143-146 | the text holds as many placeholders as there are arguments, the k-th being number k |
| QPlaceholders.ErrorIsFirstBadLeaf | pkg/q/q.go:183-191 | Build fails exactly when a reachable leaf has a bad field or operator, with the error of the first such leaf |
| StmtCache.StmtCache.Lookup | pkg/db/stmtcache.go:39-48 | returns the entry listed under the key if and only if the cache is open and lists one; a hit adds a reference and moves the entry to the front, otherwise nothing changes |
| StmtCache.StmtCache.Prepare | pkg/db/stmtcache.go:50-53 | a new open statement in flight, nothing else |
| StmtCache.StmtCache.Insert | pkg/db/stmtcache.go:55-82 | the second critical section: the loser of a race is closed and uses the winner, a closed cache keeps nothing, a new entry goes first and may evict one |
| StmtCache.StmtCache.Evict | pkg/db/stmtcache.go:84-97 | leaves list and map, and closes the statement when nobody holds it |
| StmtCache.StmtCache.Release | pkg/db/stmtcache.go:100-107 | one reference less, and the last one out closes an evicted statement |
| StmtCache.StmtCache.CloseAll | pkg/db/stmtcache.go:110-117 | closes the cache and evicts every entry, whatever the order of the map |
| StmtCallers.HitIffListed | pkg/db/stmtcache.go:39-48 | in every state of the invariant a lookup hits if and only if the cache is open and its list holds an entry with the key |
| StmtCallers.PreparesOnlyWhatIsMissing | pkg/db/stmtcache.go:39-58 | in every run of any number of callers, one prepares a key only if the last thing it did was to look that key up in a closed cache or one that did not list it |
| StmtCallers.OnePreparation | pkg/db/stmtcache.go:39-82 | without interleaving, any positive number of acquires of a key that an open cache does not list prepares it exactly once |
| StmtCallers.ClosedPreparesAlways | pkg/db/stmtcache.go:39-69 | and a closed cache prepares at every acquire |
| StmtCacheProof.ApplyKeeps | pkg/db/stmtcache.go:39-117 | every action keeps the invariant: map and list hold the same entries, references are counted, closes match |
| StmtCacheProof.ReachableInv | pkg/db/stmtcache.go:39-117 | so it holds in every state that any interleaving of callers reaches |
| StmtCacheProof.SameCount | pkg/db/stmtcache.go:70-97 | map and list are equally long, so the bound on one is a bound on the other |
| StmtCacheProof.ClosedExactlyWhenUnused | pkg/db/stmtcache.go:84-107 | in every run a held statement is open, no statement is closed twice, and an entry's statement is closed exactly when evicted with no holder |
| StmtCacheProof.NothingLeaks | pkg/db/stmtcache.go:50-117 | closed cache, nobody in flight: every statement ever prepared is closed once, race losers included |
| StmtCacheProof.ClosesOnlyGrow | pkg/db/stmtcache.go:84-107 | no action reopens a statement |
| StmtCacheProof.EvictsLeastRecentlyAcquired | pkg/db/stmtcache.go:70-97 | a full cache evicts exactly the least recently acquired entry, never the new one; one with room evicts nothing |
| StmtCacheProof.BoundedAndCounted | pkg/db/stmtcache.go:39-82 | a positive size bounds the cache, the list is ordered by last acquire without duplicates, and prepares plus hits are the successful acquires once all hits are counted |
| StmtCacheProof.ClosingStep | pkg/db/stmtcache.go:110-117 | every step of closeAll's loop, whichever entry it takes, comes nearer to one and the same end |
| Menu.SortedUnique | cmd/crm/menusvc/menuloader.go:104-136 | there is one way to sort a level by position and id |
| Menu.ShowsUnique | cmd/crm/menusvc/menuloader.go:104-136 | at most one tree shows the records with sorted levels |
| Menu.Flatten | cmd/crm/menusvc/menuloader.go:154-165 | the recursive walk lists items before their children, with depths |
| MenuBuild.Load | cmd/crm/menusvc/menuloader.go:82-94 | the first loop: ids positive and distinct, records grouped under their parents in input order |
| MenuBuild.TreeBuilder.Build | cmd/crm/menusvc/menuloader.go:104-136 | never hits the depth guard, returns the sorted tree under the parent and marks exactly its ids as visited |
| MenuBuild.PathFits | cmd/crm/menusvc/menuloader.go:104-107 | a path of parents is never longer than the table, so the depth guard cannot reject |
| MenuBuild.CountDecides | cmd/crm/menusvc/menuloader.go:141-143 | as many ids visited as records if and only if every chain reaches the root |
| MenuBuild.BuildTree | cmd/crm/menusvc/menuloader.go:82-145 | succeeds exactly on positive distinct ids, known parents and no cycle; returns the sorted tree (MenuListing.MirrorsIff says what its items hold), or an error that is true of the records |
| MenuProof.ListedOnce | cmd/crm/menusvc/menuloader.go:104-165 | no record appears twice in a tree |
| MenuProof.ReachableListed | cmd/crm/menusvc/menuloader.go:104-145 | a record whose chain reaches the root appears in the tree |
| MenuBuild.FlattenListsEachOnce | cmd/crm/menusvc/menuloader.go:147-165 | flattening the built tree lists every record exactly once with its own fields, at the depth of its chain of parents |
| MenuBuild.OrderDoesNotMatter | cmd/crm/menusvc/menuloader.go:82-145 | the same records in another order are accepted alike and give the same tree |
| MenuListing.ProperIff | cmd/crm/menusvc/menuloader.go:82-145 | accepted are exactly the tables whose ids are positive and differ, whose parents exist and whose records all have a chain of parents to the root |
| MenuListing.MirrorsIff | cmd/crm/menusvc/menuloader.go:104-145 | the built tree is the one whose levels are the children of each record by position and id, every item with its record's label key, route name, url, object, action, icon, badge and hide flag, and badge class badge |
| MenuListing.FlatListsRecords | cmd/crm/menusvc/menuloader.go:147-165 | the flat list holds every record once, field by field, siblings by position and id and everything under its parent |
| MigrateLoad.KeyIsNumber | pkg/migrate/migrate.go:221-233 | equal keys exactly for equal numbers, and the order of versions is the order of numbers |
| MigrateLoad.Gather | pkg/migrate/migrate.go:170-208 | the loop over file names: one entry per version with its files, or an inconsistency |
| MigrateLoad.Load | pkg/migrate/migrate.go:162-218 | succeeds exactly when the files of each version agree and one of them goes up; the result is strictly ascending and complete; an error is true of the names |
| MigrateNames.ParseFileIff | pkg/migrate/migrate.go:47-50 | a name is read as a file of version v and title t that goes up or down if and only if it is digits v, an underscore, title t and .up.sql or .down.sql, or, where plain files count, an up file without a mark |
| MigrateNames.ParseOtherIff | pkg/migrate/migrate.go:176-190 | which other names are skipped and which are invalid, exactly |
| MigrateNames.LoadsWhatIsWritten | pkg/migrate/migrate.go:162-218 | a directory that holds the files of some migrations, each number once, and names to skip is loaded as exactly those migrations, in order of their numbers |
| Migrate.Applied | pkg/migrate/migrate.go:267-288 | the recorded versions by normalised key |
| Migrate.Database.Run | pkg/migrate/migrate.go:435-489 | body and record commit together or, in a transaction, not at all, whether the file, the connection or the record fails; outside one the schema keeps what the body did |
| Migrate.Database.Up | pkg/migrate/migrate.go:294-328 | runs the files not applied when it looked, in order, until one fails; nothing when the lock or the table fails, and an error when letting go of the lock fails |
| Migrate.Database.Down | pkg/migrate/migrate.go:343-395 | takes back the newest applied versions, as many as asked or all, stopping at a failure or for want of a down file; nothing when the lock or the table fails |
| Migrate.DownSteps | pkg/migrate/migrate.go:331-336 | Down with no positive number takes back one file |
| Migrate.DownPlanTells | pkg/migrate/migrate.go:376-394 | Down goes through the applied versions, at most as many as asked for, up to the first that has no file or no down file, and reports an error exactly when there is such a one |
| Migrate.SortNewestFirst | pkg/migrate/migrate.go:371-375 | the applied versions from the newest to the oldest |
| Migrate.DescendingUnique | pkg/migrate/migrate.go:371-375 | that order is unique, so Down's plan is determined by the table |
| MigratePrefix.UpRuns | pkg/migrate/migrate.go:294-328 | from a table of the m oldest files, whatever fails, Up applies the next ones and stops with just the files before the failing one applied |
| MigratePrefix.DownRuns | pkg/migrate/migrate.go:343-395 | from such a table Down takes back exactly the newest files asked for, or the newest of them up to a fault; no file fails by itself |
| MigratePrefix.UpThenDownAllRestores | pkg/migrate/migrate.go:294-395 | from an empty table any Up, failing or not, and then a DownAll without faults restore the schema and empty the table, when downs undo their ups |
| MigrateRunners.ApplyKeeps | pkg/migrate/lock.go:48-166 | every step of every runner keeps: only the lock holder is active, its snapshot is in step with the table, and the log alternates per version |
| MigrateRunners.SnapshotStaysInStep | pkg/migrate/migrate.go:294-395 | while a runner works nobody else is active, and the table is what it read but for the files it ran |
| MigrateRunners.NeverUpTwice | pkg/migrate/migrate.go:294-328 | two ups of one version that took effect have a recorded down in between, in every run, unless the first was of a file outside a transaction and its record was lost |
| MigrateHistory.NeverTwiceIff | pkg/migrate/migrate.go:467-475 | the lock keeps versions from going up twice, for all file contents, faults and runs, if and only if no up file is marked to run outside a transaction |
| MigrateHistory.UnrecordedTwice | pkg/migrate/migrate.go:467-475 | for any such file the run that shows it: the record is lost, and the next Up runs the file again |
| MigrateRunners.RecordNeverConflicts | pkg/migrate/migrate.go:435-489 | recording an up never meets an existing row, so only the file itself can fail |
| MigrateRunners.SuccessfulUpAppliesAll | pkg/migrate/migrate.go:294-328 | when a successful Up is about to release the lock every loaded version is applied |
| MigrateHistory.AppliedAreTheOldest | pkg/migrate/migrate.go:294-395 | in every run of reversible transactional files the table holds the oldest files without a gap, and the schema is theirs |
| MigrateHistory.TableDeterminesSchema | pkg/migrate/migrate.go:294-395 | two runs with equal tables have equal schemas, whatever happened in between |
| MigrateHistory.SuccessfulCommands | pkg/migrate/migrate.go:294-395 | a successful Up has applied all files, a successful DownAll has restored the start, whoever else ran before |
| MigrateHistory.WithoutLockUpConflicts | pkg/migrate/lock.go:48-57 | with locking off two Ups can both read the table first, and then for any file that works the second fails on the recorded row |
| Breaker.CircuitBreaker.Enter | pkg/resilience/resilience.go:220-240 | admission as one step: rejected, the single probe, or a plain call |
| Breaker.CircuitBreaker.Record | pkg/resilience/resilience.go:256-289 | recording as one step, in whatever state the result arrives |
| Breaker.CircuitBreaker.Execute | pkg/resilience/resilience.go:220-254 | context errors touch nothing, rejection runs nothing; no error and errors that the predicate excuses are successes, context errors neutral, panics and all other errors failures, recorded in the state that other callers left meanwhile |
| BreakerSpec.OneProbeAtMost | pkg/resilience/resilience.go:220-289 | in every reachable state one probe is in flight exactly when half-open with the probe handed out, else none |
| BreakerSpec.RejectsExactly | pkg/resilience/resilience.go:187-240 | a call is turned away exactly while open in time or while a probe is in flight |
| BreakerSpec.NeverStuck | pkg/resilience/resilience.go:187-289 | nothing in flight and the clock past openUntil: the next call is admitted, even after panics and neutral results |
| BreakerSpec.CountsFailures | pkg/resilience/resilience.go:256-289 | while closed the counter is the failures since the last success, below the threshold |
| BreakerSpec.TripsExactly | pkg/resilience/resilience.go:256-289 | leaves closed exactly on the threshold-th failure, for the timeout |
| BreakerSpec.LeavesOpenOnly | pkg/resilience/resilience.go:187-289 | leaves open only by the clock, or by the late success of a call admitted while closed |
| BreakerSpec.ProbeDecides | pkg/resilience/resilience.go:256-289 | half-open only the probe's outcome counts, and a neutral one lets the next call probe |
| Retry.Do | pkg/resilience/resilience.go:47-99 | how many calls, which waits and which result, for every sequence of results and every end of the context |
| Retry.MaxDelayBoundsWaits | pkg/resilience/resilience.go:62-89 | the maximum bounds every wait of every run if and only if the first delay is within it, there is one attempt, or no error is worth another |
| Retry.FirstDelayExceeds | pkg/resilience/resilience.go:62-89 | a policy whose first wait is longer than its maximum |
| Retry.GoesOneWay | pkg/resilience/resilience.go:47-92 | what Do promises determines its result and the number of calls |
| Retry.DefaultDecides | pkg/resilience/resilience.go:31-92 | without a rule of its own a policy tries again after every error that is not the context's and after no other, up to the configured attempts |
| Retry.ResultTells | pkg/resilience/resilience.go:47-99 | what the result says about the context before the first call, or about the last call and the context after it, joined errors included |
| Retry.GrowsByMultiplier | pkg/resilience/resilience.go:78-89 | with a whole multiplier the k-th wait is the first times its k-th power while that is within the maximum, and the maximum from then on |
| Retry.WaitsAre | pkg/resilience/resilience.go:62-89 | the waits of a run are these, in order, one after every call that is followed by another |
| Policies.DoWithPolicies | pkg/db/db.go:661-680 | writes are tried once unless allowed; all attempts together are one call for the breaker, which sees a panic as a failure and an ended context as neutral, and whose rejection lets nothing run |
| Policies.TriesAll | pkg/db/db.go:661-680 | an operation that keeps failing runs exactly as often as configured when it reads or its writes may be retried, and otherwise once |
| BindNamed.PrintPieces | pkg/db/builders.go:32-52 | cutting the text into characters and parameters loses nothing |
| BindNamed.BindList | pkg/db/builders.go:83-88 | a list becomes numbered placeholders with commas between them |
| BindNamed.PiecesOfPrint | pkg/db/builders.go:32-52 | and cutting undoes printing |
| BindNamed.Bind | pkg/db/builders.go:32-94 | the loop, empty lists included: text with placeholders in place of the names and the arguments in order, or the error it stops at |
| BindMeaning.TextShowsItems | pkg/db/builders.go:57-82 | the written text shows the characters and places that are meant, also after text was taken back |
| BindMeaning.BindingSubstitutesIff | pkg/db/builders.go:21-31 | filling the question marks in order gives the meant text, for every way of writing values, if and only if the places hold the arguments one after the other and the text's own question marks come when none is left |
| BindMeaning.ArgumentsHavePlacesIff | pkg/db/builders.go:57-76 | every argument has its place, in order, if and only if no test that an empty list takes away has a place in its name |
| BindMeaning.PlainBindingSubstitutesIff | pkg/db/builders.go:21-31 | without empty lists values end up where their names stood if and only if the text has no question mark of its own before a parameter |
| BindMeaning.StrayMarkTakesValue | pkg/db/builders.go:91 | the text `? ${x}`, whose own question mark takes the value |
| BindMeaning.BracketsLosePlace | pkg/db/builders.go:57-76 | the text `[${i}] IN (${e})` with e empty: bound to 1=0 with one argument left over |
| BindColumn.EmptyListIsConstant | pkg/db/builders.go:12-29 | after any text without quotes, an empty list makes `column IN (...)` 1=0 and `column NOT IN (...)` 1=1 for every dotted column that is no keyword |
| BindNamed.FailsExactly | pkg/db/builders.go:39-79 | fails with an error if and only if the text can be bound up to some piece that has it: a parameter that is unclosed or not given, or an empty list in a NOT IN of something other than a column |
| BindRegex.TestIff | pkg/db/builders.go:17 | a test is found from a to e if and only if the text there is what the regular expression says, in character codes: names or quoted names with dots, blanks, NOT, IN and a bracket to the end |
| BindRegex.ColumnTestIff | pkg/db/builders.go:17-19 | the test that is used is the one from the first such place, unless its name is one of the ten keywords |
| BindRegex.NotInFrom | pkg/db/builders.go:21 | likewise for NOT IN as words of their own at the end of the text |
| BindColumn.ArgumentsAreNamed | pkg/db/builders.go:32-94 | the arguments are the values that the text names, in order: every element of a list, and any other value itself |
| BindColumn.EmptyListInTest | pkg/db/builders.go:57-76 | an empty list in the test of a column, closed by a bracket: the test becomes 1=0, or 1=1 for NOT IN |
| BindColumn.EmptyListElsewhere | pkg/db/builders.go:77-82 | anywhere else it is NULL, or an error in a NOT IN |
| BulkSql.BatchFits | pkg/db/builders.go:130-193 | the batch size is positive and within the dialect's limit, the largest such size not above the requested one; only a row too wide by itself is refused |
| BulkSql.BatchSizes | pkg/db/builders.go:130-193 | the limits and default sizes of each dialect, written out |
| BulkSql.BatchesAreRows | pkg/db/db.go:528-544 | batches are non-empty, all but the last full, and concatenate to the rows in order |
| BulkSql.BuildInsert | pkg/db/builders.go:205-242 | the text with one group per row and the values in order (BulkInsert says what it means), or the error of the first bad name or width in the order of the checks |
| BulkSql.BuildUpdate | pkg/db/builders.go:288-346 | the text and the arguments in the order of its marks, or the error of missing columns, a bad name or the first missing value, which names its row |
| BulkSql.BuildUpdateBatches | pkg/db/db.go:528-544 | every statement is built before any runs, and a bad batch fails all with its error |
| BulkRows.BulkUpdateByKey | pkg/db/db.go:500-521 | the updates of consecutive batches, each with as many marks as arguments and within the limit, or the error of the check that fails |
| BulkRows.BulkInsertRows | pkg/db/db.go:434-457 | the inserts of consecutive batches, each with as many marks as arguments and within the limit, or the error of the check that fails |
| BulkRead.Unambiguous | pkg/db/builders.go:288-346 | no token sequence reads as two update statements |
| BulkRead.TextReadsBack | pkg/db/builders.go:288-346 | a statement can be read in the emitted text if and only if no name is taken for a keyword, and then it is the intended one and no other, in all five dialects: the right column in every CASE branch, ELSE and filter |
| BulkEval.TextUpdatesEachIff | pkg/db/builders.go:288-346 | whatever is read in the emitted text, with the emitted arguments it does to a row what updating key by key does if and only if first and last row of its key agree |
| BulkEval.BulkTextsUpdateTable | pkg/db/db.go:500-580 | reading each text of the call and running the readings in order on a table gives key-by-key updating if and only if the condition of the batches holds for every row of the table |
| BulkEval.DistinctKeysUpdateTable | pkg/db/db.go:500-580 | with distinct keys it always does, for every batch size |
| BulkInsert.InsertReadsBack | pkg/db/builders.go:214-242 | an insert can be read in the emitted text if and only if no name is taken for a keyword, and then it is the intended one and no other: the columns in order, one group of marks per row |
| BulkInsert.BulkInsertAddsRows | pkg/db/db.go:434-457 | whatever is read in the texts of the call, run in order with their arguments, adds to a table exactly the given rows in order, rows[i][j] under cols[j] |
| BulkProof.StatementTakesFirst | pkg/db/builders.go:313-346 | the statement gives a matching row the values of the first row with its key and leaves all others alone |
| BulkProof.EachTakesLast | pkg/db/db.go:500-502 | updating key by key ends with the values of the last row with the key |
| BulkProof.StatementIsEachIff | pkg/db/builders.go:313-346 | the two agree on a row if and only if first and last row of its key agree on the updated columns |
| BulkBatches.BatchesAreEachIff | pkg/db/db.go:500-580 | running the batches in order changes a row as updating key by key does if and only if its key is NULL or in no batch, or first and last row with it in the last batch that holds it agree on the updated columns |
| BulkBatches.BulkUpdateIsOneByOneIff | pkg/db/db.go:500-580 | so for whole tables and every batch size |
| BulkBatches.BulkUpdateIsOneByOne | pkg/db/db.go:500-580 | distinct keys, any batch size: running the statements in order changes the table as updating key by key does |
| BulkBatches.RepeatedKeyExample | pkg/db/db.go:500-521 | two rows with one key: wrong in one batch, right in two |
| BulkProof.UpdateMarks | pkg/db/builders.go:288-346 | an update has exactly as many question marks as arguments |
| BulkProof.InsertMarks | pkg/db/builders.go:214-242 | so has an insert |
| BulkProof.StatementsFit | pkg/db/builders.go:177-193 | no statement exceeds the dialect's limit, whatever batch size was asked for |
| Router.ParsePattern | pkg/router/router.go:103-187 | the index loop gives the segments of the recursive reading, or the error of an unclosed brace or an empty name |
| RouterPattern.ParsePrint | pkg/router/router.go:103-187 | parsing the text of a pattern of the grammar gives what the pattern means: literals, braces with regular expressions, nested braces and escapes, optional, greedy and wildcard parameters and jokers |
| RouterPattern.ParsesExactlyPatterns | pkg/router/router.go:103-187 | parsing succeeds if and only if the text is one of the grammar |
| RouterPattern.MeaningIsUnique | pkg/router/router.go:103-187 | however a text is cut into pieces of the grammar, it means the same segments |
| RouterPattern.TrimIs | pkg/router/router.go:137-147 | a name in braces loses the blanks around it and nothing else |
| Router.ParsePrintf | pkg/router/router.go:189-219 | the loop over printf verbs, with %% as one percent sign |
| RouterPrintf.PrintfReads | pkg/router/router.go:189-219 | a printf pattern is read as it is printed: verbs s, d and v are parameters numbered from zero, a doubled percent sign is one, everything else is text |
| RouterPrintf.EveryTextPrinted | pkg/router/router.go:189-219 | and every text is the print of such a pattern |
| RouterPrintf.PrintfReverseIff | pkg/router/router.go:255-266 | a pattern without other parameters takes positional values for its verbs if it has any; without values it is its own URL |
| Router.FillByName | pkg/router/router.go:268-285 | values by name, an error for a missing required one or a wrong count |
| Router.FillByPosition | pkg/router/router.go:286-314 | required parameters always take an argument, optional ones from the left while any are spare |
| Router.BuildUrl | pkg/router/router.go:316-342 | literals, escaped values, dropped optional parameters with their slash, an error for an empty named one |
| Router.Registry.ReverseURL | pkg/router/router.go:239-348 | the URL of a registered pattern: printf fallback, patterns without parameters, filling, building, never empty |
| RouterUrl.EscapeIs | pkg/router/router.go:337-341 | an escaped value keeps letters, digits and ten marks, and every other byte becomes a percent sign and two upper-case hexadecimal digits |
| RouterUrl.KeepSlashIs | pkg/router/router.go:385-391 | a greedy value keeps its slashes as well, and only these |
| RouterUrl.PositionalIff | pkg/router/router.go:286-314 | positional values are accepted if and only if there is a way to place them all in order, with none for a literal, one for every required parameter and the optional ones filled from the left; and that is how they are placed |
| RouterUrl.BuildsUrl | pkg/router/router.go:316-342 | what is built: every segment shows itself, but for a last slash where an absent optional parameter follows with nothing shown in between and then the end or a slash; an error exactly for an empty named value |
| RouterUrl.ReverseIff | pkg/router/router.go:239-348 | u is the reverse URL of a pattern with parameters if and only if the values fill the parameters, no named one is empty and u shows them, a single slash standing for nothing |
| RouterUrl.ReverseFails | pkg/router/router.go:239-348 | the error is that of the pattern if it is outside the grammar, otherwise that of the parameters |
| RouterProof.UnescapeEscape | pkg/router/router.go:337-341 | escaping a value loses nothing |
| RouterProof.UnescapeKeepSlash | pkg/router/router.go:385-391 | nor does escaping that keeps slashes |
| RouterProof.ReverseMatches | pkg/router/router.go:239-348 | parameters required, within a segment and up to its end: a URL exists exactly for the right number of non-empty values, and a matcher reads exactly them back |
| RouterProof.ReverseInjective | pkg/router/router.go:239-348 | different positional values give different URLs |
| RouterNamed.NamedCheckIsRight | pkg/router/router.go:268-285 | accepting exactly the maps with no required key missing and none unknown holds for all maps if and only if no parameter name repeats |
| RouterNamed.RepeatedNameHidesUnknownKey | pkg/router/router.go:283-285 | the pattern /{id}/{id} with the keys id and page gives the URL /7/7, though page is unknown |
| RouterNamed.NamedMatches | pkg/router/router.go:267-348 | by name as well, the matcher reads back the given values |
| RouterNamed.NamedInjective | pkg/router/router.go:267-348 | with distinct names two maps that give one URL are equal |
| RouterNamed.NamedReverseIff | pkg/router/router.go:267-348 | with distinct names u is the reverse URL of a map if and only if no required key is missing, none is unknown, no named value is empty and u shows the values under their names |
| RateLimit.NewLimiter | pkg/ratelimit/ratelimit.go:38-54 | refuses rates and intervals that are not positive, otherwise a full bucket of at least one token |
| RateLimit.Limiter.Refill | pkg/ratelimit/ratelimit.go:57-65 | adds what flowed in, capped; a clock that has not advanced changes nothing |
| RateLimit.Limiter.Allow | pkg/ratelimit/ratelimit.go:68-80 | takes a token if there is one, never when closed |
| RateLimit.Limiter.Reserve | pkg/ratelimit/ratelimit.go:83-100 | a token, or the truncated wait of at least a microsecond, or closed |
| RateLimit.Limiter.Wait | pkg/ratelimit/ratelimit.go:105-131 | the loop, for every clock, all calls of others and every way a sleep can end |
| RateLimit.BoundedByBurst | pkg/ratelimit/ratelimit.go:57-80 | between two points of a run at most burst plus rate times the advance of last is granted, for any clock readings |
| RateLimit.GrantedExactlyWithinBound | pkg/ratelimit/ratelimit.go:57-80 | a call is granted if and only if one more grant respects burst and rate counted from every earlier call |
| RateLimit.TwoSleepsSuffice | pkg/ratelimit/ratelimit.go:83-131 | an uncontended uncancelled wait gets its token after at most two sleeps |
| RateLimit.OneSleepSufficesIff | pkg/ratelimit/ratelimit.go:83-131 | every such wait is done after at most one sleep if and only if a token is there, or what is missing arrives within a microsecond or after a whole number of nanoseconds |
| RateLimit.OneSleepMayNotDo | pkg/ratelimit/ratelimit.go:94-98 | a bucket whose truncated wait is too short |
| RateLimit.NewBucketGrants | pkg/ratelimit/ratelimit.go:38-80 | of any number of calls at the start of a new limiter as many are granted as its burst, at least one, and none at the same time after that |
| RateLimit.OutcomeTells | pkg/ratelimit/ratelimit.go:105-131 | why Wait ended: a context that is done comes before a closed limiter and that before a token, and while sleeping the first event counts |
| LoginLimit.LoginRateLimit.Sweep | cmd/crm/middleware/middleware.go:104-113 | drops exactly the entries idle for more than ten minutes, at most once in ten minutes |
| LoginLimit.LoginRateLimit.Handle | cmd/crm/middleware/middleware.go:87-139 | unlimited when switched off or not a POST; otherwise the decision of the address's bucket |
| LoginLimit.SameDecisions | cmd/crm/middleware/middleware.go:101-139 | from coupled tables every run gets the same decisions with and without sweeping |
| LoginLimit.SweepIsInvisible | cmd/crm/middleware/middleware.go:83-139 | sweeping changes no decision of any run if and only if the window is at most 600,000,000,001 nanoseconds, ten minutes and one |
| Signals.Append | pkg/signals/signals.go:41-52 | writes behind the slice when there is room, else copies; never a cell within the slice |
| Signals.Signal.Subscribe | pkg/signals/signals.go:41-52 | appends under a new id; nil subscribes nothing |
| Signals.Signal.Remove | pkg/signals/signals.go:54-67 | the remaining subscribers in a new array; unknown ids change nothing |
| Signals.Signal.Clear | pkg/signals/signals.go:77-81 | an empty list in a new slice |
| Signals.Signal.DoAll | pkg/signals/signals.go:41-81 | any calls leave every cell of every live snapshot as it was |
| Signals.Signal.Emit | pkg/signals/signals.go:85-107 | calls exactly the subscribers registered at its start, in order, whatever is called meanwhile; panics are reported to the handler set at its start and stop nobody; afterwards the signal is as the calls made meanwhile left it |
| Signals.Subscription.Unsubscribe | pkg/signals/signals.go:50-52 | removes its subscriber the first time, nothing afterwards |
| SignalsSpec.ListsTheRegistered | pkg/signals/signals.go:41-81 | after any calls the list is exactly those registered and not taken away since, ids ascending |
| SignalsSpec.ReportsAre | pkg/signals/signals.go:93-107 | reported are exactly the subscribers that panic, each once, in the order of their ids, to one handler |
| SignalsSpec.HandlerIsLast | pkg/signals/signals.go:33-37 | the handler is the one set last |

## Left out

- Dialect strings outside the known ones, which the Go code treats as Generic: a dialect is one of five values.
- Text outside ASCII: blanks beyond it in route patterns, letter case beyond it in file names; route strings are bytes, and the text that binding reads is a sequence of characters, never malformed UTF-8.
- Machine integers and floats: unbounded integers, and reals in the limiter and the backoff.
- QReadBack.HasParseIffReadable: the keywords are those of the three grammars (conditions, UPDATE, INSERT); further reserved words of a product are not considered.
- Migrate.Database.Run: a commit that fails counts as a record that cannot be written; one whose outcome is unknown to the client is not modelled.
- MigrateRunners.ApplyKeeps: a lock session lost while its process lives, lock timeouts and the dialects' lock calls (polling, names, keys) are not modelled; a crash frees the lock. Dialects without a lock (`pkg/migrate/lock.go:53-57`) run as with locking off.
- MigrateLoad.Load: reading directories and files, and two directory entries of one name, are not modelled.
- MigratePrefix.UpThenDownAllRestores: needs transactional files, since files marked to run without one are not atomic (`pkg/migrate/migrate.go:467-475`).
- Migration status, timestamps, dry listing and the messages of all errors.
- The menu loader's time-based cache and menu filtering; the sorting library is replaced by the sorted order, which is unique.
- Breaker.CircuitBreaker.Execute: a failure predicate that panics is not recorded by the code (`pkg/resilience/resilience.go:250-252`); here the predicate is total. What others do meanwhile is a list of steps that are possible beside the call.
- Policies.DoWithPolicies: which errors are worth another attempt is a parameter.
- BulkRead.TextReadsBack: the keywords are those of the three grammars; so for BulkInsert.InsertReadsBack.
- BulkEval.BulkTextsUpdateTable: execution errors, rollback of the surrounding transaction and type conversion in comparisons are left out, and a column is its spelling: `id` as the key and `ID` or `t.id` among the updated columns can be one column for the database and give another result.
- BulkInsert.BulkInsertAddsRows: execution errors, constraints, defaults and type conversion are left out.
- Upserts, MERGE, OUTPUT clauses and query logging.
- RouterProof.ReverseMatches: covers positional values of plain parameters; greedy and optional parameters can run into their neighbours and have no unique reading.
- LoginLimit.LoginRateLimit.Handle: looking up a bucket and asking it count as one step at one time; a limiter fetched before a sweep and asked after it is not captured, and buckets are kept by value.
- RateLimit.TwoSleepsSuffice: exact arithmetic, timers that are not early, a clock that does not go back during the wait.
- Signals.Signal.Emit: a panic handler that itself panics is not modelled, nor the bus of named topics; handlers and values are opaque.
- Network, HTTP, templates, storage, mail, sessions, cryptography and the remaining packages.
