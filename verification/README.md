# rangearray: a verified model of the `Uint32` run table

The Go package `rangearray` stores a semi-dense set of `uint32` values as a
run-length-encoded table: a slice of `Uint32Run{Value, Index, Count}` entries,
each covering the consecutive values `Value .. Value+Count-1`, with `Index`
counting the values recorded in all earlier runs. The table answers `Min`,
`Max`, `Len`, `LowerBound` (which run holds or follows `x`) and `IndexOf`
(how many recorded values lie below `x`), and grows only through `Push`.

This project models that table in Dafny and proves its contracts:

- `runtable.dfy` (module `RunTable`): the `Run` datatype, the abstract set
  `Elems` of recorded values, the representation invariant `Valid` (non-empty
  runs, runs strictly apart, ends within 32 bits, indices equal to prefix
  sums), and the fact that a valid table is determined by the set it records.
- `binarysearch.dfy` (module `BinarySearch`): the halving loop of Go's
  `sort.Search` over a monotone predicate.
- `queries.dfy` (module `Queries`): `Min`, `Max`, `Len`, the lower-bound
  search and `IndexOf`, each tied to `Elems`.
- `push.dfy` (module `Insert`): `Push` and each of its cases, each shown to keep
  the invariant and to record exactly the old values plus `x` (one value more
  unless `x` was already recorded, when the table is unchanged).
- `scenarios.dfy` (module `Scenarios`): pushing ranges and batches, and the
  two test scenarios of `rangearray_test.go` replayed on the model.

A table is a `seq<Run>`. The Go `Push` mutates its receiver; here it is a pure
function that takes the old table and returns the new one.

## Model

| member | source | states |
|---|---|---|
| RunTable.SeparatedIffNeighboursApart | rangearray.go:29-36 | for non-empty runs, "every run ends before every later run starts" is equivalent to "each run ends before the next starts", the ordering the encoding relies on |
| RunTable.IndexedIffIndexChain | rangearray.go:31-34 | the index of each run being the sum of all earlier counts is equivalent to the first index being 0 and each next index being the previous index plus the previous count |
| RunTable.ElemsCard | rangearray.go:47-51 | when the runs are non-empty and apart, the number of values a table records is the sum of its run counts |
| RunTable.Canonical | rangearray.go:29-36 | two valid tables that record the same set of values are equal, so the encoding is unique |
| Queries.Min | rangearray.go:60-63 | on a non-empty valid table, the first run's start is recorded and no recorded value is smaller |
| Queries.Max | rangearray.go:65-69 | on a non-empty valid table, the last run's last value is recorded and no recorded value is larger |
| Queries.Len | rangearray.go:71-79 | the result is the number of recorded values and the sum of the counts; it is 0 on the empty table |
| Queries.FirstEndAbove | rangearray.go:96-107 | the result is the first run position whose end is above `x`: every earlier run ends at or before `x`, and the run at the result ends after `x` |
| Queries.EndsAscend | rangearray.go:104-106 | in a valid table each run ends strictly after every earlier run, so the search predicate `x < Value+Count` is monotone as `sort.Search` requires |
| BinarySearch.Search | rangearray.go:104-106 | for a monotone predicate on [0, n), the result splits [0, n) into a prefix where the predicate fails and a suffix where it holds |
| Queries.LowerBound | rangearray.go:96-107 | the binary search returns the first run whose end is above `x`, every run before it ends at or before `x`, and it returns 0 on the empty table |
| Queries.LowerBoundUnique | rangearray.go:96-107 | any split point where all runs before end at or before `x` and all runs after end above `x` equals the lower bound |
| Queries.SearchLands | rangearray.go:96-98 | the lower bound is `n` when `x` lies at or past the end of run n-1 and before the end of run n |
| Queries.CountBelow | rangearray.go:81-94 | the number of recorded values below `x` is the found run's index when `x` is at or before that run's start, the index plus the distance into the run when `x` is inside it, and the total when no run ends above `x` |
| Queries.IndexOf | rangearray.go:81-94 | the result is the number of recorded values strictly below `x`, and it equals `Len` when the table is empty or `x` is past `Max` |
| Insert.ExtendTail | rangearray.go:121-126 | when `x` is one past the tail run, the tail run grows by one, every other run is kept, and the table stays valid with exactly `x` added |
| Insert.AppendRun | rangearray.go:128-136 | when `x` lies past the tail run with a gap, a run {x, number of recorded values, 1} is appended, the old runs are kept, and the table stays valid with exactly `x` added |
| Insert.InteriorSearch | rangearray.go:138-144 | below the end of the tail run the search lands inside the table, on a run that ends after `x`, and `x >= S[n].Value` holds exactly when `x` is already recorded, so the "LowerBound had a bug" alternative cannot occur |
| Insert.Merge | rangearray.go:150-178 | when `x` closes the one-value gap between runs n-1 and n, run n-1 absorbs `x` and run n, the later runs move down one slot with their indices up by one, and the table stays valid with exactly `x` added |
| Insert.ExtendLeft | rangearray.go:157-178 | when `x` is just before run n and not just after run n-1, run n starts at `x` and grows by one, the later runs' indices go up by one, and the table stays valid with exactly `x` added |
| Insert.ExtendRight | rangearray.go:161-178 | when `x` is just after run n-1 and not just before run n, run n-1 grows by one, the indices from run n on go up by one, and the table stays valid with exactly `x` added |
| Insert.ShiftedChain | rangearray.go:175-178 | when every index of a chain goes up by one and values and counts are kept, the result is again a chain, its base one higher, recording the same values |
| Insert.InsertRun | rangearray.go:164-178 | when `x` touches neither neighbour, a run {x, old index of run n, 1} is inserted at n, run n and the later runs move up one slot with their indices up by one, and the table stays valid with exactly `x` added |
| Insert.PushInterior | rangearray.go:138-178 | below the end of the tail run, the result is valid, records the old values plus `x`, and is the old table when `x` was already recorded |
| Insert.Push | rangearray.go:109-179 | the result is valid and records exactly the old values plus `x`, and it equals the old table if and only if `x` was already recorded |
| Insert.PushLands | rangearray.go:128-140 | when `x` lies at or past the end of run n-1 and before the end of run n, neither tail case applies and the search finds run n |
| Insert.PushSelectsMerge | rangearray.go:146-156 | whenever Merge's precondition holds at run n, Push does exactly what Merge does |
| Insert.PushSelectsExtendLeft | rangearray.go:146-160 | whenever ExtendLeft's precondition holds at run n, Push does exactly what ExtendLeft does |
| Insert.PushSelectsExtendRight | rangearray.go:146-163 | whenever ExtendRight's precondition holds at run n, Push does exactly what ExtendRight does |
| Insert.PushSelectsInsert | rangearray.go:146-173 | whenever InsertRun's precondition holds at run n, Push does exactly what InsertRun does |
| Insert.PushTwice | rangearray.go:140-143 | pushing the same value twice gives the same table as pushing it once |
| Insert.PushCommutes | rangearray.go:109-179 | pushing `x` then `y` gives the same table as pushing `y` then `x` |
| Scenarios.PushRange | rangearray_test.go:58-63 | pushing a, a+1, ..., b-1 keeps the table valid and adds exactly [a, b) to the recorded set |
| Scenarios.PushAll | rangearray.go:109-179 | pushing a sequence of values keeps the table valid and adds exactly the set of those values |
| Scenarios.PushAllOrderFree | rangearray.go:109-179 | two batches with the same set of values give the same table, whatever their order or repetitions |
| Scenarios.AppendRange | rangearray.go:121-136 | a range pushed past the tail of a table becomes one new run whose index is the old length |
| Scenarios.RangeLaw | rangearray.go:60-94 | one range [a, b) pushed into an empty table gives the single run {a, 0, b-a}, with Min a, Max b-1, Len b-a, and IndexOf 0, x-a or b-a below, inside or past the range |
| Scenarios.EmptyTable | rangearray_test.go:27-42 | the empty table records nothing, and its Len, IndexOf(x) and lower bound are 0 |
| Scenarios.TwoRanges | rangearray_test.go:55-67 | pushing [a, b) and then [c, d), with b < c, into an empty table gives exactly the two runs {a, 0, b-a} and {c, b-a, d-c} |
| Scenarios.GrownBuilt | rangearray_test.go:57-63 | pushing 100..199 and then 350..449 into an empty table builds exactly the two runs {100,0,100} and {350,100,100} |
| Scenarios.SearchScenario | rangearray_test.go:65-78 | on that two-run table: two runs, lower bound 0 for 50, and IndexOf 100, 150 and 200 for 275, 400 and 500 |
| Scenarios.PatchInsertFront | rangearray_test.go:79 | pushing 75 into that table gives {75,0,1}, {100,1,100}, {350,101,100} |
| Scenarios.PatchExtendRight | rangearray_test.go:80 | then pushing 200 gives {75,0,1}, {100,1,101}, {350,102,100} |
| Scenarios.PatchInsertMiddle | rangearray_test.go:81 | then pushing 202 gives {75,0,1}, {100,1,101}, {202,102,1}, {350,103,100} |
| Scenarios.PatchMerge | rangearray_test.go:82 | then pushing 201 merges into {75,0,1}, {100,1,103}, {350,104,100} |
| Scenarios.PatchDuplicate | rangearray_test.go:83 | then pushing 200 again leaves the table unchanged |
| Scenarios.PatchExtendLeft | rangearray_test.go:84 | then pushing 349 gives {75,0,1}, {100,1,103}, {349,104,101} |
| Scenarios.PatchedSearchLow | rangearray_test.go:86-89 | on the patched table, IndexOf gives 0, 1 and 101 for 75, 100 and 200 |
| Scenarios.PatchedSearchGap | rangearray_test.go:86-92 | on the patched table, IndexOf gives 103, 104 and 104 for 202, 203 and 349 |
| Scenarios.PatchedSearchHigh | rangearray_test.go:86-96 | on the patched table, IndexOf gives 105, 205 and 205 for 350, 450 and 500 |

`Grown` and `Patched1` to `Patched` are the literal tables of the search test.
`GrownBuilt` shows that pushing 100..199 and then 350..449 builds `Grown`.

## Left out

- Push: requires `x < 2^32 - 1`. The model keeps every run end `Value + Count` at or below 2^32 - 1, so the value 2^32 - 1 cannot be recorded. The Go code stores it and lets `Value + Count` wrap to 0, which the model does not follow.
- Shift: the `Index++` of rangearray.go:175-178 cannot wrap in the model. In a valid table every run has `Index + Count <= Value + Count <= 2^32 - 1` (`RunTable.IndexRoom`) and `Count >= 1`, so every index is below 2^32 - 1.
- The difference between a nil slice and an empty non-nil slice is not modelled; both are the empty sequence. In Go, `Min`, `Max`, `Len`, `IndexOf` (through `Len`, rangearray.go:93) and `Push` index `S[0]` or `S[-1]` on an empty non-nil slice, and the model treats that slice like nil instead.
- Min, Max: the Go code panics on an empty table (rangearray_test.go:7-25). The model requires a non-empty table instead of modelling the panic.
- LowerBound: `sort.Search` is part of the Go standard library and is not part of this model. `BinarySearch.Search` follows its halving algorithm. The pure functions use the linear reference `FirstEndAbove`, which the `LowerBound` method is proved to equal.
- In-place slice mutation (`copy`, `append`, aliasing of `r.S`) and the package's performance notes: tables are immutable sequences.
- The test scaffolding of rangearray_test.go (`t.Errorf`, `recover`): only the values it checks are modelled, as the scenario lemmas.
