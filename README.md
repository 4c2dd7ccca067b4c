# Vectorized hash joiner inner loops, in Dafny

This project models the templated inner machinery of CockroachDB's
vectorized hash join, found in `pkg/sql/exec/hashjoiner_tmpl.go`. It has four routines, each a loop over
dense arrays:

- `rehash` folds one equality column into per-row 64-bit hash
  accumulators, as `acc*31 + hash(v)` modulo 2^64.
- `checkCol` verifies one equality column for the probe rows listed in
  `toCheck`. Each row's candidate is the build row id `groupID[r]`, which
  is 1-based, with 0 standing for "none". A null probe value rejects the
  row (`groupID := 0`). A null build value, or unequal values, only set
  `differs`.
- `collect` drains each probe row's chain cursor `head[i]` through the
  table's `same` links. It stages (build index, probe position) pairs
  into `buildIdx`/`probeIdx`, stops at `ColBatchSize` pairs, and
  remembers the batch in `prevBatch` for the next call. In right-outer
  mode, a row whose cursor is 0 stages one null-extended pair and sets
  `buildNil`. That write comes before the capacity check. The model
  gives `buildNil` ColBatchSize + 1 slots, one more than the other
  staging arrays, so that the write always has a slot (see "Left out").
- `distinctCollect` is the N:1 fast path. It stages `groupID`'s single
  candidate per row, and for build-outer joins it marks `visited`.

The files:

- `columns.dfy`: uint64 words, the batch capacity, selection vectors,
  and columns with a null bitmap.
- `hashing.dfy`: the rehash step, and the per-row key hash that successive
  rehash calls build up, one call per equality column, each with that
  column's own hash kernel.
- `chains.dfy`: the `same` chains, and `Pending`, the pairs that a set
  of cursors still has to produce, in probe-row order and then chain
  order. Also the pairs of the distinct fast path.
- `checking.dfy`: the `checkCol` loop stated on values, and the verdict
  it gives each scanned row.
- `hashjoiner.dfy`: the classes. `HashTable` holds `same`, `visited`
  and the build columns. `Prober` holds the per-batch arrays, and its
  loop methods are proved against the functions above.
- `scenarios.dfy`: the test file's collision and duplicate-key cases, and
  a few others, worked out.

The central property is resumption of the no-outer collector. The pairs
staged by a call, followed by the pairs still owed by the updated
cursors, are exactly the pairs owed at entry (`CollectNoOuter`). The
right-outer collector stages the first `Min(|owed|, ColBatchSize)` owed
pairs. It makes no resumption promise: a drained row (cursor 0) is owed a
null-extended pair again on the next call (`DrainedRowsUnderOuter`).

## Model

| member | source | states |
|---|---|---|
| Hashing.KeyHashIsPolynomial | pkg/sql/exec/hashjoiner_tmpl.go:112-117 | folding the columns' hashes, each column's value hashed by that column's own kernel, with wrapping `acc*31 + h` equals the base-31 polynomial of the hashes reduced once mod 2^64, so wrap-around loses nothing; the polynomial takes the column hashes in column order |
| Hashing.KeyHashStepInjective | pkg/sql/exec/hashjoiner_tmpl.go:114-116 | two rows that agree on their earlier columns get equal key hashes after one more column exactly when that column's value hashes are equal, so a rehash step loses nothing of the new hash |
| HashJoiner.HashTable.Rehash | pkg/sql/exec/hashjoiner_tmpl.go:206-223 | for every row i below nKeys, buckets[i] becomes old*31 + hash(value) mod 2^64, with the value read at sel[i] or i; entries from nKeys on are unchanged; rows with equal start values and equal keys end equal |
| Chains.Chain | pkg/sql/exec/hashjoiner_tmpl.go:155-167 | the ids visited from a cursor by following `same` are nonzero, strictly decreasing, linked by `same`, end at an id whose link is 0, and are empty exactly when the cursor is 0 |
| Chains.RowPairsWalkChain | pkg/sql/exec/hashjoiner_tmpl.go:155-167 | a row's staged pairs are (id - 1, position) for the ids of its chain, in chain order |
| Chains.PendingFrame | pkg/sql/exec/hashjoiner_tmpl.go:155-167 | what rows [from, to) owe depends only on their own cursors |
| Chains.PendingSnoc | pkg/sql/exec/hashjoiner_tmpl.go:155-167 | one more probe row appends exactly that row's pairs, so pairs are ordered by probe row |
| Chains.PendingSkipDrained | pkg/sql/exec/hashjoiner_tmpl.go:157 | without outer semantics, rows whose cursor is 0 owe nothing |
| Chains.RowOfOuterStep | pkg/sql/exec/hashjoiner_tmpl.go:132-146 | in right-outer mode a row owes the pair of its cursor (build index -1 for cursor 0) followed by the pairs of the next id unless that is 0 |
| Chains.OuterPendingCoversRows | pkg/sql/exec/hashjoiner_tmpl.go:125-147 | with outer semantics every probe row of the batch is owed at least one pair, matched or null-extended |
| Chains.DistinctPairs | pkg/sql/exec/hashjoiner_tmpl.go:187-196 | the no-outer fast path yields at most one pair per row, each with a build index of at least 0 |
| Chains.RowOfUnique | pkg/sql/exec/hashjoiner_tmpl.go:176-196 | a cursor whose link is 0 owes only its own pair, or one null-extended pair in outer mode for cursor 0 |
| Chains.DistinctAgreesNoOuter | pkg/sql/exec/hashjoiner_tmpl.go:187-196 | when every candidate ends its chain, the general no-outer collector owes exactly the pairs the fast path stages |
| Chains.DistinctAgreesOuter | pkg/sql/exec/hashjoiner_tmpl.go:174-184 | the same agreement in right-outer mode, where a row without a candidate yields (-1, position) on both paths |
| Checking.CheckColRef | pkg/sql/exec/hashjoiner_tmpl.go:69-86 | the checkCol loop keeps the array lengths, only clears candidates (a groupID entry stays or becomes 0), and never clears `differs` |
| Checking.CheckStepFrame | pkg/sql/exec/hashjoiner_tmpl.go:72-83 | an iteration for one row position changes no other position |
| Checking.CheckStepVerdict | pkg/sql/exec/hashjoiner_tmpl.go:72-83 | an iteration brings its position to its verdict, and repeating it on a position that already has its verdict keeps it, so duplicates in toCheck do no harm |
| Checking.CheckColFrame | pkg/sql/exec/hashjoiner_tmpl.go:69-72 | positions that toCheck[0..nToCheck) does not list are left untouched |
| Checking.CheckColVerdicts | pkg/sql/exec/hashjoiner_tmpl.go:69-86 | each listed position ends at its verdict: no candidate means untouched; a null probe value clears the candidate and keeps differs; otherwise the candidate stays and differs becomes old differs or (build null or values unequal) |
| Checking.NullAsymmetry | pkg/sql/exec/hashjoiner_tmpl.go:77-82 | for a row with a candidate, the three cases as its caller sees them: probe null rejects, build null marks differs, both non-null marks differs exactly when unequal |
| HashJoiner.Prober.CheckRow | pkg/sql/exec/hashjoiner_tmpl.go:72-86 | one iteration updates groupID/differs as one CheckStep of the old state |
| HashJoiner.Prober.CheckRows | pkg/sql/exec/hashjoiner_tmpl.go:69-88 | the loop leaves groupID/differs equal to CheckColRef of their old values |
| HashJoiner.Prober.CheckCol | pkg/sql/exec/hashjoiner_tmpl.go:229-248 | the new groupID/differs are CheckColRef of the old ones, every listed position has its verdict, and every unlisted position is unchanged |
| HashJoiner.Prober.CollectChain | pkg/sql/exec/hashjoiner_tmpl.go:156-167 | walking one row's chain stages the next owed pairs in order; it stops with the cursor at 0, or with the arrays full and the cursor on the first unstaged id; other cursors are unchanged |
| HashJoiner.Prober.NoOuterRow | pkg/sql/exec/hashjoiner_tmpl.go:155-167 | one probe row either drains its cursor and moves the collector's progress on to the next row, or fills the arrays and is left where the next call resumes |
| HashJoiner.Prober.NoOuterRows | pkg/sql/exec/hashjoiner_tmpl.go:155-167 | the row loop ends after the last row with every owed pair staged, or in the row where the arrays filled up |
| HashJoiner.Prober.CollectNoOuter | pkg/sql/exec/hashjoiner_tmpl.go:153-170 | resumption: the first n owed pairs are staged, and what the updated cursors owe is exactly the rest; if more than ColBatchSize pairs were owed then n == ColBatchSize and prevBatch is the batch, otherwise n is the total, prevBatch is unchanged and every cursor is 0 |
| HashJoiner.Prober.CollectChainOuter | pkg/sql/exec/hashjoiner_tmpl.go:132-146 | the right-outer chain walk stages at least one pair when there is room (the null-extended one for cursor 0) and otherwise behaves as CollectChain; only that first pair can have a negative build index |
| HashJoiner.Prober.RightOuterRow | pkg/sql/exec/hashjoiner_tmpl.go:126-146 | one probe row in right-outer mode: cursor 0 sets its slot's buildNil before the capacity check; staged slots' buildNil is old or (build index < 0); when the arrays were already full the cursor-0 write lands in buildNil[ColBatchSize], which ends as old or (the row's cursor was 0) |
| HashJoiner.Prober.RightOuterRows | pkg/sql/exec/hashjoiner_tmpl.go:125-147 | the right-outer row loop ends after the last row with every owed pair staged and buildNil from slot n on unchanged, or in the row where the arrays filled up, with buildNil[ColBatchSize] old or (that row's cursor was 0) |
| HashJoiner.Prober.CollectRightOuter | pkg/sql/exec/hashjoiner_tmpl.go:123-149 | stages exactly the first Min(owed, ColBatchSize) owed pairs and sets prevBatch when more were owed; buildNil[k] for staged k is old or (build index < 0); slots after n are unchanged; slot n is unchanged unless the call stopped in a row, in which case it is old or (that row's cursor was 0); cursors of rows before the stop row are 0 and those after it are unchanged |
| HashJoiner.Prober.Collect | pkg/sql/exec/hashjoiner_tmpl.go:253-271 | dispatch on `outer`: both modes stage the owed prefix and set prevBatch when more than ColBatchSize pairs were owed; no-outer also resumes exactly and leaves buildNil alone; right-outer keeps CollectRightOuter's buildNil facts for slots up to n, at n and after n; cursors before the stop row are 0, and cursors after it or beyond the batch are unchanged |
| HashJoiner.Prober.DistinctCollectRightOuter | pkg/sql/exec/hashjoiner_tmpl.go:174-184 | stages (groupID[i] - 1, position of i) for every row of the batch, returns batchSize, and sets buildNil[i] exactly when groupID[i] is 0 |
| HashJoiner.Prober.DistinctCollectNoOuter | pkg/sql/exec/hashjoiner_tmpl.go:187-196 | stages one pair per row with a nonzero groupID, in row order, and returns their count |
| HashJoiner.Prober.MarkVisited | pkg/sql/exec/hashjoiner_tmpl.go:300-302 | every id anywhere in groupID is marked visited, and only such ids change |
| HashJoiner.Prober.DistinctCollect | pkg/sql/exec/hashjoiner_tmpl.go:276-306 | dispatch on `outer` with the staged pairs and count above; visited changes only in build-outer mode, and then marks every id in groupID |
| Scenarios.CollidingKeysAreToldApart | pkg/sql/exec/hashjoiner_test.go:78-101 | build keys 0, b, 2b, 3b share a bucket; probing 0, b, 3b against the bucket's head id 4 leaves only the 3b row without `differs` |
| Scenarios.NullsAreAsymmetric | pkg/sql/exec/hashjoiner_tmpl.go:77-82 | equal values still fail: a null probe value clears the candidate, a null build value marks differs |
| Scenarios.DuplicateProbeKeys | pkg/sql/exec/hashjoiner_test.go:107-134 | probe keys 1, 1, 1, 2, 2 with groupID 2, 2, 2, 3, 3 stage (1,0), (1,1), (1,2), (2,3), (2,4) on the fast path and on the general collector |
| Scenarios.ChainsInProbeOrder | pkg/sql/exec/hashjoiner_tmpl.go:125-167 | a two-row chain and a one-row chain are owed in probe order then chain order; outer mode adds (-1, 2) for the row with cursor 0 |
| Scenarios.DrainedRowsUnderOuter | pkg/sql/exec/hashjoiner_tmpl.go:125-130 | drained cursors owe nothing without outer semantics, and one null-extended pair each with it |

## Left out

- The per-type `switch` and its `panic` default (pkg/sql/exec/hashjoiner_tmpl.go:208-222, 230-247) are not modelled. All columns share one value type `V` with `==`, and a type with no template has no counterpart. The per-type hash kernel is a parameter `hash: V -> u64`.
- The four-way `HasNulls()` dispatch (pkg/sql/exec/hashjoiner_tmpl.go:91-105) is modelled as its one null-aware body. This assumes a column without nulls never reports `NullAt`.
- Floating-point hashing and equality are not modelled; equality is Dafny's `==` on `V`.
- Construction of the hash table (which fills `same`), the driver that moves each probe row's candidate along its chain and resets `differs`, the seeding of `head` from `groupID`, the output projection and the operator's `Next` are not part of this model. Their results are taken as preconditions (`LinksWellFormed`, cursors in range). `hashTableBucketSize` is not part of this model either, so the collision scenario takes the bucket size as a parameter.
- The multiset agreement with a nested-loop join, and build-outer completeness across the final unmatched-build pass, need the driver, and are not modelled.
- The hash table's `same` is a read-only `seq`, not an array, because probing never writes it.
- Collect, CollectChainOuter, DistinctCollectRightOuter: the build index `id - 1` of a null-extended slot is `-1` (`buildIdx` holds `int`), where Go's `uint64` wraps to 2^64 - 1.
- The `uint16` counters `i`, `nResults` and `nToCheck` are unbounded; `batchSize <= ColBatchSize` is required, so they never overflow.
- `ColBatchSize` is 1024. Its definition is not part of this model.
- RightOuterRow, CollectRightOuter: `buildNil` has ColBatchSize + 1 slots in the model. The code that allocates it is not part of this model. Line 129 of `hashjoiner_tmpl.go` writes `buildNil[nResults]` before the capacity check at line 133. If the array has only ColBatchSize slots, that write indexes out of range (a panic in Go) in one case: exactly ColBatchSize pairs have been staged and a later probe row of the batch has cursor 0. The model does not capture that panic; it writes the extra slot instead.
- CollectRightOuter: no resumption promise, because on a resumed call rows drained earlier (cursor 0) would be staged null-extended again (`DrainedRowsUnderOuter`).
- `buildNil` is never cleared for matched rows, which the model keeps: staged slots keep their old `true`.
- Each source loop keeps its branches and order, but is split into nested methods so that each proof stays small: the row loop and one row's chain walk, and checkCol's loop and one iteration. The early `return` from the inner loop becomes a `full` flag that each enclosing loop checks, after which it returns immediately.
- MarkVisited: ranges over all `ColBatchSize` entries of `groupID`, not only the current batch, as the source's `range prober.groupID` does. It requires every entry to be a valid index of `visited`; the source would panic on an out-of-range id.
