# goProbe retention and fan-in reduction, modelled in Dafny

This project models two pieces of goProbe, a flow-record database with a
query engine on top of it.

**Retention (`goQuery admin clean` / `wipe`).** The database root holds one
directory per capture interface. Each interface directory holds one
directory per day, named by the day's Unix timestamp. Each of those
partitions carries metadata listing its blocks with their flow counts and
traffic. A summary document records, per interface, the total flow count,
the total traffic and the earliest retained timestamp (`Begin`).

- `cleanIfaceDir` walks one interface directory:
  - plain files and *foreign* directories are kept; a foreign directory is one whose name does not survive the int64 parse/print round trip;
  - *stale* partitions (named before the day of the cutoff) are removed, and their blocks' counters are collected as deltas;
  - *retained* partitions may lower `NewBegin`.
  - The interface directory itself goes only when every entry was a stale partition.
- `cleanOldDBDirs` does three things in order. It refuses a cutoff that is not in the past. It cleans every interface directory. It then applies one transform to the summary: gone interfaces are dropped, and the others have their deltas subtracted and their begin overwritten.
- `wipeDB` removes every directory under the root and keeps plain files.

The filesystem is an immutable value:

- A directory listing is a `seq<Entry>` in listing order.
- An entry is a `File` or a `Dir` with its children and its metadata blocks.
- A `Faults` value says which paths cannot be listed and which cannot be removed, and whether the summary lock times out.

Every retention operation is a pure function from a database to the
database it leaves behind, together with the error it returns.

**Reduction (`aggregate`).** Query workers send partial group-by maps from
flow key to four counters over a channel. The reducer merges them key by
key and keeps grand totals. A nil map is an internal error. An empty final
map means "no results". The channel is a sequence of `Option<map<K, Val>>`.

Modules:

- `Wrappers`: `Option`, `Result`, `Outcome`.
- `Decimal`: `strconv.ParseInt(s, 10, 64)`, `fmt.Sprintf("%d")`, and the partition-name test.
- `Store`: uint64 and int64 arithmetic, `DayTimestamp`, and the tree.
- `DirScan`: the entry loop of `cleanIfaceDir`, over any classification of entries.
- `CleanIface`: `cleanIfaceDir` itself.
- `Summary`: the summary transform and `ModifyDBSummary`.
- `CleanDb`: `cleanOldDBDirs`, `wipeDB`, and the summary/disk invariant.
- `RetentionScenario`: the two-day `eth0` example worked through.
- `Aggregate`: the reducer.

Four behaviours of the code are worth spelling out, because the model keeps them as written:

- **Gone is not removal.** `Gone` is set when `NewBegin` is still MaxInt64 (admin.go:160), whatever `clean` is. An interface holding only a stray file, or only retained partitions with empty metadata, therefore loses its summary entry while its directory stays (`CleanIface.GoneButKept`).
- **NewBegin reads metadata lazily.** A retained partition's metadata is read only when the partition's own timestamp is below the current `NewBegin` (admin.go:149). The result is still the earliest first block over all retained partitions whenever every first block lies inside its partition's day (`CleanIface.CleanIfaceDirBegin`).
- **The transform touches every cleaned interface.** Every interface directory the loop cleaned gets its entry changed (admin.go:203-213), including those with zero deltas, and its `Begin` is always overwritten.
- **Counters.** Subtraction is uint64 `-=`, so it wraps. An interface missing from the summary is read as the zero value and written back after the subtraction.

## Model

| member | source | states |
|---|---|---|
| Decimal.FormatParseRoundTrip | cmd/goQuery/commands/admin.go:123-124 | parsing what `%d` prints gives the same int64 back, so every int64 spells a partition name |
| Decimal.PartitionNameIsCanonical | cmd/goQuery/commands/admin.go:123-129 | a name passes the parse-and-reprint test exactly when it is canonical decimal (no sign but a `-` on non-zero values, no leading zero) of a value in the int64 range |
| Decimal.ForeignNames | cmd/goQuery/commands/admin.go:123-129 | `"007"`, `"notANumber"`, `"+7"`, `"-0"` and `""` are not partition names |
| Store.DayTimestamp | cmd/goQuery/commands/admin.go:103 | the day-aligned cutoff is a multiple of 86400 at most one day from the timestamp, rounded toward zero |
| Store.SubWrap | cmd/goQuery/commands/admin.go:208-209 | uint64 `-=` is exact when nothing is borrowed and wraps by 2^64 otherwise |
| Store.AddBlocksIsWrappedSum | cmd/goQuery/commands/admin.go:143-146 | adding the blocks one by one with wrapping uint64 `+=` equals the unbounded sum taken modulo 2^64 |
| DirScan.LowerBegin | cmd/goQuery/commands/admin.go:149-154 | `NewBegin` never grows, and it moves only to a first-block timestamp, and only for a partition named below its current value |
| DirScan.ScanKeepsNonStale | cmd/goQuery/commands/admin.go:117-157 | files, foreign directories and retained partitions are never removed, even when the loop stops on an error |
| DirScan.ScanInventsNothing | cmd/goQuery/commands/admin.go:117-158 | every entry left after the loop was in the directory before |
| DirScan.ScanFailure | cmd/goQuery/commands/admin.go:139-141 | the loop fails exactly when some stale partition cannot be removed, and it reports such a partition |
| DirScan.ScanStops | cmd/goQuery/commands/admin.go:135-141 | a failed loop reports the first stale partition it cannot remove; the stale partitions before it are gone, and it and every later entry stay on disk |
| DirScan.ScanKeepsSurvivors | cmd/goQuery/commands/admin.go:117-158 | a loop without failure leaves exactly the non-stale entries, in order |
| DirScan.ScanDelta | cmd/goQuery/commands/admin.go:134-146 | the deltas are the sums over exactly the stale partitions' blocks, modulo 2^64 |
| DirScan.ScanCleanFlag | cmd/goQuery/commands/admin.go:116-148 | without failure, `clean` stays true exactly when every entry was a stale partition |
| DirScan.NewBeginSource | cmd/goQuery/commands/admin.go:147-160 | `NewBegin` stays MaxInt64 exactly when no retained partition can lower it; otherwise it is some retained partition's first-block timestamp |
| DirScan.NewBeginMonotone | cmd/goQuery/commands/admin.go:149-154 | `NewBegin` at the end is at most its value after any prefix of the listing |
| DirScan.NewBeginIsEarliest | cmd/goQuery/commands/admin.go:147-156 | when first blocks lie inside their partitions, `NewBegin` is the earliest first block over all retained partitions |
| CleanIface.CleanIfaceDir | cmd/goQuery/commands/admin.go:101-169 | a failed clean never removes the interface directory; a removed directory held only stale partitions; every non-stale entry is still there afterwards |
| CleanIface.ClassifyMeaning | cmd/goQuery/commands/admin.go:118-134 | without reference to the parser: a directory is a partition exactly when its name is the canonical decimal spelling of an int64 (no `+`, no leading zero, no `-0`); its timestamp is the value spelled; it is stale exactly when that value is below the day-aligned cutoff; plain files are never partitions |
| CleanIface.NeverDeletesForeign | cmd/goQuery/commands/admin.go:118-129 | a plain file, or a directory without a partition name, survives any clean of its interface |
| CleanIface.CleanIfaceDirSucceeds | cmd/goQuery/commands/admin.go:107-166 | the clean succeeds exactly when the directory can be listed, every stale partition removed, and the directory itself removed when it held only stale partitions |
| CleanIface.CleanIfaceDirSpec | cmd/goQuery/commands/admin.go:114-166 | a successful clean removes the directory exactly when all entries were stale, otherwise keeps exactly the survivors; its deltas are the wrapped stale sums; `Gone` holds exactly when `NewBegin` is MaxInt64, which is exactly when no retained partition opens a begin |
| CleanIface.CleanIfaceDirBegin | cmd/goQuery/commands/admin.go:147-156 | with first blocks inside their partitions, the new begin is the earliest retained first block |
| CleanIface.StoredSplit | cmd/goQuery/commands/admin.go:134-146 | the counters stored in an interface split into those of the stale partitions and those of the partitions left |
| CleanIface.GoneButKept | cmd/goQuery/commands/admin.go:160-166 | an interface holding only a stray file is reported Gone while its directory stays |
| Summary.Subtract | cmd/goQuery/commands/admin.go:207-211 | adding the delta back restores the stored counters; the subtraction is exact when the delta does not exceed them; `Begin` becomes `NewBegin` |
| Summary.ApplyInOrderReconciles | cmd/goQuery/commands/admin.go:203-213 | the range loop, in any visiting order without repeats, yields the closed-form reconciled map |
| Summary.Reconcile | cmd/goQuery/commands/admin.go:198-201 | the transform fails exactly when the summary is missing, and with that error |
| Summary.ReconcileSpec | cmd/goQuery/commands/admin.go:198-216 | gone interfaces are removed; every other processed interface is reduced by its delta with `Begin` overwritten; interfaces without a result are unchanged |
| Summary.ReconcileOrderIndependent | cmd/goQuery/commands/admin.go:203-213 | the reconciled summary is the same for every order Go's map range may choose |
| Summary.ModifyDBSummary | cmd/goQuery/commands/admin.go:198 | the new summary is stored only when the lock is acquired and the transform succeeds; otherwise the stored summary is untouched |
| CleanDb.CleanOldDBDirs | cmd/goQuery/commands/admin.go:173-217 | a cutoff not in the past fails and changes nothing; a failed run leaves the summary as it was; root files are always kept |
| CleanDb.CleanRootKeepsFiles | cmd/goQuery/commands/admin.go:186-189 | plain files in the root are skipped by the interface loop |
| CleanDb.CleanRootComplete | cmd/goQuery/commands/admin.go:186-196 | the loop meets no error exactly when every interface cleans; then it leaves the reference result and holds one result per interface directory |
| CleanDb.CleanRootResults | cmd/goQuery/commands/admin.go:191-195 | with distinct names, each interface's stored result is what cleaning it returned |
| CleanDb.CleanRootStops | cmd/goQuery/commands/admin.go:191-194 | on the first failing interface the loop stops: earlier interfaces stay cleaned, later entries are untouched, and the error is that interface's |
| CleanDb.CleanOldDBDirsSucceeds | cmd/goQuery/commands/admin.go:173-217 | a clean succeeds exactly when the cutoff is past, the root lists, every interface cleans, the summary exists and its lock is acquired |
| CleanDb.CleanOldDBDirsSpec | cmd/goQuery/commands/admin.go:186-216 | a successful clean leaves the reference root, drops gone interfaces from the summary, reduces every other interface by its own delta, and leaves other summary entries unchanged |
| CleanDb.CleanIfaceKeepsConsistent | cmd/goQuery/commands/admin.go:203-213 | the stored counters minus the removed delta are the counters of the partitions left, modulo 2^64 |
| CleanDb.CleanKeepsConsistent | cmd/goQuery/commands/admin.go:173-217 | if the summary matched the partitions on disk before a successful clean, it matches the partitions left after it |
| CleanDb.WipeDB | cmd/goQuery/commands/admin.go:219-237 | a wipe never changes the summary and never creates entries |
| CleanDb.WipeKeepsFiles | cmd/goQuery/commands/admin.go:228-234 | plain files survive every wipe, successful or not |
| CleanDb.WipeEntriesSpec | cmd/goQuery/commands/admin.go:228-234 | the wipe loop fails exactly when some directory cannot be removed, and otherwise leaves exactly the plain files |
| CleanDb.WipeStops | cmd/goQuery/commands/admin.go:228-234 | a failed wipe reports the first directory it cannot remove; the directories before it are gone, and it and every later entry stay in place |
| CleanDb.WipeDBSpec | cmd/goQuery/commands/admin.go:219-237 | a wipe succeeds exactly when the root lists and every directory goes; it then leaves no directory, and files always survive |
| CleanDb.WipeIdempotent | cmd/goQuery/commands/admin.go:219-237 | wiping a wiped database changes nothing |
| RetentionScenario.FirstCleanIface | cmd/goQuery/commands/admin.go:134-160 | cleaning `eth0` at day T1 removes the T0 partition, with delta 10 flows and 1000 bytes and new begin T1 |
| RetentionScenario.FirstClean | cmd/goQuery/commands/admin.go:173-216 | the whole first clean leaves only the T1 partition and the summary {5, 500, T1} |
| RetentionScenario.SecondCleanIface | cmd/goQuery/commands/admin.go:160-166 | cleaning at T1 plus one day and one second removes the last partition and the directory, and reports Gone |
| RetentionScenario.SecondClean | cmd/goQuery/commands/admin.go:198-216 | the whole second clean deletes `eth0` from the root and from the summary |
| Aggregate.MergeItem | pkg/query/aggregate.go:44-60 | merging one map, in any visiting order, adds its values key by key to the final map and its total to the totals |
| Aggregate.RunAggregate | pkg/query/aggregate.go:23-76 | the reducer returns the reference result: each key holds its sum over the inputs, and the totals equal the total of the final map |
| Aggregate.TotalsAgree | pkg/query/aggregate.go:44-59 | the sum of every counter of every input entry equals the sum over the merged map |
| Aggregate.ReduceErrors | pkg/query/aggregate.go:38-68 | the result is an internal error exactly when some item is nil, wherever it sits; it is "no results" exactly when every item is a non-nil empty map |
| Aggregate.ReduceKeys | pkg/query/aggregate.go:44-59 | the final map holds exactly the keys of the input maps |
| Aggregate.ReducePermutation | pkg/query/aggregate.go:38-62 | reordering the input maps changes neither the result nor the error |

## Left out

- Command wiring, argument parsing and console status output (admin.go:19-92, 105, 108, 239-245): command-line plumbing. The cutoff arrives already parsed.
- `goDB.ParseTimeArgument` and `query.CheckDBExists` are not part of this model; they only feed the command wiring.
- `goDB.TryReadMetadata`: only its effect is modelled. A directory's `meta` field stands for whatever block list it yields, possibly empty; reading the metadata file is not modelled.
- `goDB.ModifyDBSummary`: only its effect is modelled (`Summary.ModifyDBSummary`). Its lock file, the 10-second wait and the JSON persistence are not. A `lockTimeout` flag stands for the wait failing, and the call is all-or-nothing.
- `goDB.DayTimestamp`: only its effect is modelled, and its body is not available. It is assumed to truncate toward zero to a multiple of 86400, as Go's integer division does.
- `time.Now()` is the parameter `now`.
- `os.RemoveAll` is atomic here. A removal that fails halfway is not modelled; an undeletable path stays whole.
- A summary whose `Interfaces` map is nil would make the assignment at admin.go:211 panic. The model's summary always has a map.
- A directory entry's own `IsDir` is taken from the tree. Symbolic links and permission bits are not modelled.
- The goroutine and channels of `aggregate` are a sequence fold. Blocked producers after an early return are not modelled.
- Aggregate.RunAggregate: the counters are unbounded naturals, so the uint64 wrap-around of the `+=` at aggregate.go:45-54 is not modelled. Every equality stated is between sums, so it would hold modulo 2^64 as well, but that step is not proved.
- pkg/api/api.go, pkg/api/auth.go, cmd/goProbe/config/config.go, pkg/query/meminfo_darwin.go and cmd/goQuery/commands/help.go are outside the modelled core. They cover HTTP routing and authentication, configuration parsing, a platform constant and help text.
