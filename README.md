# tatami_test in Dafny

A Dafny model of the logic in `tatami_test`, the test-support library of the
tatami matrix-access framework. The model covers:

- the visiting sequence a matrix-access test walks (forward, reverse or
  shuffled rows or columns), the seed behind the shuffle, and the oracle that
  announces the sequence in advance;
- the harness `test_access_base`:
  - every row or column of that sequence is extracted in dense form, in sparse
    form and through the indices-only, values-only and neither extractors;
  - the sparse result is expanded back to dense form by the full, block or
    indexed expander;
  - everything is compared NaN-aware with a reference matrix;
  - the structural non-zeros are counted for the density check;
- the unsorted harness `test_unsorted_access_base`: an unordered sparse
  extraction is zipped, sorted by index, unzipped, and checked against the
  ordered extraction;
- `ReversedIndicesWrapper`, whose sparse extractors reverse their output in
  place whenever ordered indices are not required;
- the `fetch` helpers that copy an extractor's output into owned vectors and
  trim the sparse ones;
- the fixture builders `simulate_compressed_sparse` and
  `create_indexed_subset`, and the `manual_transpose` helper of the access
  tests.

Extractors are not modelled as code. One call to an extractor is described by
two things: what it left in the caller's buffers, and the pointers it returned
(null, the caller's buffer, or storage of its own). The harness's verdicts are
proved against predicates over these call outcomes. Random draws are inputs:
- the shuffle engine is a function from seed to its stream of draws;
- the Bernoulli and value draws of the compressed-sparse builder are a function
  of the cell;
- the keep decisions of the subset generator are a predicate on the element.

Modules, one per file:
- `Values`: doubles with NaN, and NaN-aware matching.
- `Seqs`: orderings and reversal.
- `AccessSequence`: options, seed, visiting sequence and oracle.
- `Fetch`: extraction results and the `fetch` helpers.
- `Compare`: `compare_vectors` and the increasing-index check.
- `Channels`: the single-channel cross-checks.
- `Expand`: the three expanders and `reposition`.
- `IndexedSubset`, `CompressedSparse` and `ManualTranspose`: the fixtures.
- `AccessHarness`: `test_access_base` and its entry points.
- `UnsortedAccess`: the unsorted harness.
- `ReversedIndices`: the wrapper.

The unsorted harness compares the neither extractor's count with the
*ordered* extraction's count (include/tatami_test/test_unsorted_access.hpp:134),
not with the unordered extraction's count.

## Model

| member | source | states |
|---|---|---|
| Values.IdenticalVectorsMatch | include/tatami_test/test_access.hpp:107-118 | a vector always passes `compare_vectors` against itself, NaNs included |
| Values.MatchWithoutNaNIsEquality | include/tatami_test/test_access.hpp:110-117 | when the expected vector has no NaN, passing the comparison is exactly equality |
| Values.NaNPayloadIgnored | include/tatami_test/test_access.hpp:112-113 | a NaN expectation is met by any NaN, even a structurally different one |
| Compare.CompareVectors | include/tatami_test/test_access.hpp:107-118 | a length mismatch is reported iff the lengths differ; otherwise the reported positions are exactly those where the NaN-aware match fails, in increasing order; no failure iff the vectors match |
| Compare.IsIncreasing | include/tatami_test/test_access.hpp:228-237 | true iff every index is below the next one |
| Seqs.IncreasingIsDistinct | include/tatami_test/test_access.hpp:228-237 | strictly increasing indices hold no duplicates |
| Seqs.ReversedInvolution | include/tatami_test/ReversedIndicesWrapper.hpp:38 | reversing twice gives the sequence back |
| Seqs.ReversedMultiset | include/tatami_test/ReversedIndicesWrapper.hpp:38 | reversal keeps every element with its multiplicity |
| Seqs.ReversedIncreasingIsDecreasing | include/tatami_test/ReversedIndicesWrapper.hpp:41-45 | reversed strictly increasing indices are strictly decreasing |
| AccessSequence.ConvertOptions | include/tatami_test/test_access.hpp:79-86 | the options carry the tuple's four fields and the default `check_sparse` |
| AccessSequence.ConvertRoundTrip | include/tatami_test/test_access.hpp:79-86 | converting an options value's tuple back gives the same options whenever `check_sparse` has its default |
| AccessSequence.SimpleColumnAccessOptions | include/tatami_test/test_access.hpp:481-498 | the column quick test iterates over columns, and every other option has its default |
| AccessSequence.SimpleRowAccessOptions | include/tatami_test/test_access.hpp:500-517 | the row quick test, as written, also iterates over columns, and every other option has its default |
| AccessSequence.SimpleRowAccessIsColumnAccess | include/tatami_test/test_access.hpp:500-517 | as written, the row and column quick tests run with identical options |
| AccessSequence.DocumentedRowAccessOptions | include/tatami_test/test_access.hpp:500-503 | the documented row quick test iterates over rows and otherwise matches the column test |
| AccessSequence.DocumentedRowAccessDiffersFromColumnAccess | include/tatami_test/test_access.hpp:500-517 | the documented row test differs from the column test and from the row test as written |
| AccessSequence.Wrap | include/tatami_test/test_access.hpp:121-126 | reduction into `uint64_t` lands below 2^64 |
| AccessSequence.CreateSeed | include/tatami_test/test_access.hpp:120-127 | the seed fits in a `uint64_t` |
| AccessSequence.CreateSeedIsWrappedSum | include/tatami_test/test_access.hpp:120-127 | the step-by-step wrapped seed equals (NR·NC + 13·use_row + 57·order + 101·jump) mod 2^64 |
| AccessSequence.SimulateTestAccessSequence | include/tatami_test/test_access.hpp:129-149 | the push-back loops (and the shuffle) produce exactly the specified visiting sequence |
| AccessSequence.Shuffle | include/tatami_test/test_access.hpp:142-145 | the in-place shuffle loop computes the swap-by-draw permutation |
| AccessSequence.StridedShape | include/tatami_test/test_access.hpp:139-141 | a strided run from `from` is empty iff from ≥ limit, steps by jump, stays in [from, limit) and ends within one jump of limit |
| AccessSequence.ForwardShape | include/tatami_test/test_access.hpp:138-141 | forward order starts at 0, steps by jump, stays below the extent, its last element + jump reaches the extent, and it is empty iff the extent is 0 |
| AccessSequence.DescendingShape | include/tatami_test/test_access.hpp:134-137 | a descending run starts at from - 1, steps down by jump, stays in [0, from) and ends below jump |
| AccessSequence.ReverseShape | include/tatami_test/test_access.hpp:134-137 | reverse order starts at extent - 1, steps down by jump, never goes below 0, ends below jump, and is empty iff the extent is 0 |
| AccessSequence.SwapPermutes | include/tatami_test/test_access.hpp:144 | one exchange of the shuffle keeps the multiset |
| AccessSequence.ShuffleFromPermutes | include/tatami_test/test_access.hpp:144 | the whole shuffle keeps the multiset, whatever the draws |
| AccessSequence.RandomIsPermutationOfForward | include/tatami_test/test_access.hpp:138-145 | random order is a permutation of forward order |
| AccessSequence.SequenceIgnoresOracleAndCheck | include/tatami_test/test_access.hpp:120-149 | seed and sequence depend on neither `use_oracle` nor `check_sparse` |
| AccessSequence.CreateOracle | include/tatami_test/test_access.hpp:151-164 | an oracle exists iff oracles are on; it is consecutive iff jump = 1 and order is forward; it announces as many indices as the sequence holds |
| AccessSequence.UnitStrideIsRun | include/tatami_test/test_access.hpp:155-156 | a unit-stride forward run is the consecutive range |
| AccessSequence.OraclePredictsSequence | include/tatami_test/test_access.hpp:151-164 | whichever form is chosen, the oracle announces exactly the visiting sequence |
| Fetch.CopyN | include/tatami_test/fetch.hpp:49 | the first `number` slots hold what the source pointer shows; the rest of the buffer is untouched |
| Fetch.CopiedN | include/tatami_test/fetch.hpp:24 | the vector keeps its length; its first `number` slots are the source's and the rest are unchanged |
| Fetch.FetchDense | include/tatami_test/fetch.hpp:45-68 | the result is the first `number` values the extractor returned, whether its pointer aliases the buffer or not |
| Fetch.SparseVector.constructor | include/tatami_test/fetch.hpp:80 | both vectors have length n, value-initialised |
| Fetch.SparseVector.Trim | include/tatami_test/fetch.hpp:22-28 | both vectors end with length raw.number and hold the raw values and indices position by position |
| Fetch.FetchSparse | include/tatami_test/fetch.hpp:107-130 | the sparse vector holds exactly the reported values and indices |
| Channels.IndicesOnly | include/tatami_test/test_access.hpp:239-250 | indices are read iff the value pointer is null (else the fatal check fires), and are then exactly the reported indices |
| Channels.ValuesOnly | include/tatami_test/test_access.hpp:252-263 | values are read iff the index pointer is null (else the fatal check fires), and are then exactly the reported values |
| Expand.Scatter | include/tatami_test/test_access.hpp:296-301 | a scatter into `extent` slots has length `extent` |
| Expand.ScatterAt | include/tatami_test/test_access.hpp:298-300 | with no slot written twice, slot pos[k] holds vals[k] |
| Expand.ScatterElsewhere | include/tatami_test/test_access.hpp:296-301 | a slot no write targets keeps the fill value |
| Expand.Fill | include/tatami_test/test_access.hpp:296-301 | the writing loop computes the scatter of the values into a zero vector |
| Expand.BlockPlacesValues | include/tatami_test/test_access.hpp:322-329 | in a block expansion of distinct indices, value[k] sits at index[k] - start |
| Expand.BlockPlacesZeros | include/tatami_test/test_access.hpp:322-329 | a block expansion is zero wherever no index points |
| Expand.ExpandBlock | include/tatami_test/test_access.hpp:322-329 | block expander: scatter at index - start; values placed for distinct indices, zeros elsewhere |
| Expand.ExpandFull | include/tatami_test/test_access.hpp:295-302 | full expander: scatter at the indices; values placed for distinct indices, zeros elsewhere |
| Expand.BuildReposition | include/tatami_test/test_access.hpp:363-366 | reposition[indices[i]] = i for distinct indices; every unselected slot keeps size_t(-1) |
| Expand.RepositionInverts | include/tatami_test/test_access.hpp:363-366 | for a duplicate-free subset, reposition inverts the subset |
| Expand.ExpandIndexed | include/tatami_test/test_access.hpp:373-380 | indexed expander: scatter at reposition[index[k]] into a vector as long as the subset |
| Expand.IndexedExpansionPlacesValues | include/tatami_test/test_access.hpp:363-380 | value[k] lands at the subset position of index[k], and every subset position the extraction skipped is zero |
| IndexedSubset.KeptShape | include/tatami_test/create_indexed_subset.hpp:45-49 | accepted elements are strictly increasing, lie in [lo, hi), number at most hi - lo, and are all of [lo, hi) when every draw accepts |
| IndexedSubset.SubsetShape | include/tatami_test/create_indexed_subset.hpp:34-53 | empty iff start ≥ extent; otherwise starts at start; strictly increasing; in [start, extent); at most extent - start long; the full range when every draw accepts |
| IndexedSubset.CreateIndexedSubset | include/tatami_test/create_indexed_subset.hpp:34-53 | the loop builds exactly the subset; it is empty iff start ≥ extent, strictly increasing and within [start, extent) |
| CompressedSparse.Rows | include/tatami_test/simulate_compressed_sparse.hpp:88-99 | after p primary elements, `indptr` has p + 1 entries |
| CompressedSparse.SliceShape | include/tatami_test/simulate_compressed_sparse.hpp:91-97 | a slice has as many values as indices and at most `secondary` of them; its indices strictly increase, lie in [0, secondary), are exactly the non-zero draws, and carry the drawn values |
| CompressedSparse.Extended | include/tatami_test/simulate_compressed_sparse.hpp:89-98 | one more primary element adds one `indptr` entry |
| CompressedSparse.ExtendKeepsBounds | include/tatami_test/simulate_compressed_sparse.hpp:89-98 | appending a slice keeps data and index of equal length, closes `indptr` at their length, keeps `indptr` non-decreasing with steps ≤ secondary, and keeps indices in range |
| CompressedSparse.ExtendKeepsSlices | include/tatami_test/simulate_compressed_sparse.hpp:89-98 | appending a slice leaves earlier slices holding their draws |
| CompressedSparse.ExtendWellFormed | include/tatami_test/simulate_compressed_sparse.hpp:89-98 | appending a slice keeps the triple well formed and holding the draws |
| CompressedSparse.RowsShape | include/tatami_test/simulate_compressed_sparse.hpp:82-102 | for any draws: `indptr` has primary + 1 entries, starts at 0, is non-decreasing with steps ≤ secondary, and ends at \|data\| = \|index\|; every index lies in [0, secondary); each slice strictly increases and holds exactly that row's non-zero draws |
| CompressedSparse.AppendSlice | include/tatami_test/simulate_compressed_sparse.hpp:90-97 | the inner loop appends the slice's values and indices and advances `idx` by their number |
| CompressedSparse.SimulateCompressedSparse | include/tatami_test/simulate_compressed_sparse.hpp:82-102 | the construction loop yields exactly the specified triple, a function of the draws alone |
| ManualTranspose.OffsetsInRange | tests/src/test_access.cpp:7-11 | both offsets of an in-range (r, c) lie in [0, NR·NC) |
| ManualTranspose.Transposed | tests/src/test_access.cpp:5-13 | the transpose has NR·NC entries and is empty if NR or NC is 0 |
| ManualTranspose.TransposedAt | tests/src/test_access.cpp:9 | transposed[c·NR + r] = contents[r·NC + c] |
| ManualTranspose.ColumnMajorBijective | tests/src/test_access.cpp:7-11 | (r, c) ↦ c·NR + r maps the grid one-to-one onto [0, NR·NC) |
| ManualTranspose.TransposeRoundTrip | tests/src/test_access.cpp:5-13 | transposing (NC, NR) after (NR, NC) gives the contents back |
| ManualTranspose.Transpose | tests/src/test_access.cpp:5-13 | the nested loops compute exactly the transpose |
| ReversedIndices.ReverseInPlace | include/tatami_test/ReversedIndicesWrapper.hpp:38 | the first n slots are reversed in place and the rest are untouched |
| ReversedIndices.ReversedIndicesExtractor.constructor | include/tatami_test/ReversedIndicesWrapper.hpp:25-26 | the extractor remembers `must_sort` |
| ReversedIndices.ReversedIndicesExtractor.Fetch | include/tatami_test/ReversedIndicesWrapper.hpp:33-48 | with must_sort: the host's range and buffers are unchanged. Otherwise each present channel's buffer prefix is the reversal of the host's output and its pointer is the buffer, while slots past `number` are untouched. `number` and absent channels are always kept. The whole outcome equals `ReversingFetch` of the host's range and buffers |
| ReversedIndices.ReversalKeepsPairs | include/tatami_test/ReversedIndicesWrapper.hpp:36-45 | output k is the host's pair n-1-k, and reversing again restores the host's order |
| ReversedIndices.AnswerFor | include/tatami_test/ReversedIndicesWrapper.hpp:80-158 | the dispatch table: exactly the six sparse overloads wrap, with must_sort = sparse_ordered_index. What each answer means to the caller is `WrapperFetches` |
| ReversedIndices.WrapperFetches | include/tatami_test/ReversedIndicesWrapper.hpp:33-158 | through the wrapper, metadata and dense requests, and sparse requests with `sparse_ordered_index`, receive the wrapped matrix's range and buffers untouched. Sparse requests without it receive the same count and null channels, and every present channel reads back as the reversal of the host's output. A myopic and an oracular sparse request receive the same outcome |
| UnsortedAccess.Zipped | include/tatami_test/test_unsorted_access.hpp:72-76 | one pair per unordered value |
| UnsortedAccess.UnzipZip | include/tatami_test/test_unsorted_access.hpp:72-86 | unzipping the zipped pairs gives back the indices and the values |
| UnsortedAccess.InsertShape | include/tatami_test/test_unsorted_access.hpp:77 | one insertion adds the entry to the multiset (and its index to the index multiset) and keeps sortedness |
| UnsortedAccess.InsertionSortedShape | include/tatami_test/test_unsorted_access.hpp:77 | the sort is a permutation of the pairs and of their indices, ordered by index |
| UnsortedAccess.SortedArrangementUnique | include/tatami_test/test_unsorted_access.hpp:77-89 | pairs with strictly increasing indices are the only index-sorted arrangement of their multiset |
| UnsortedAccess.RearrangementIsRecovered | include/tatami_test/test_unsorted_access.hpp:72-89 | sorting any rearrangement of an ordered extraction's pairs recovers that extraction |
| UnsortedAccess.ReversalIsRecovered | include/tatami_test/test_unsorted_access.hpp:72-89 | sorting a reversed ordered extraction recovers it |
| UnsortedAccess.ZipReversed | include/tatami_test/test_unsorted_access.hpp:72-76 | zipping reversed vectors reverses the zipped pairs |
| UnsortedAccess.Zip | include/tatami_test/test_unsorted_access.hpp:72-76 | the zip loop fills a fresh array with exactly the zipped pairs |
| UnsortedAccess.InsertAt | include/tatami_test/test_unsorted_access.hpp:77 | one insertion step inserts slot i into the sorted prefix and leaves later slots alone |
| UnsortedAccess.InsertSplice | include/tatami_test/test_unsorted_access.hpp:77 | insertion splices the entry in after the last entry whose index is at most its own |
| UnsortedAccess.SortByIndex | include/tatami_test/test_unsorted_access.hpp:77 | the in-place sort leaves the array equal to the insertion-sorted contents |
| UnsortedAccess.Unzip | include/tatami_test/test_unsorted_access.hpp:79-86 | the unzip loop yields the indices and the values of the pairs in the array, in order |
| UnsortedAccess.SortExtraction | include/tatami_test/test_unsorted_access.hpp:72-86 | sorted indices and values come from the sorted pairs; the sorted indices rearrange the unordered ones and are non-decreasing |
| UnsortedAccess.SortedKeys | include/tatami_test/test_unsorted_access.hpp:83-86 | index-sorted pairs unzip to non-decreasing indices |
| UnsortedAccess.SortedIndicesIncrease | include/tatami_test/test_unsorted_access.hpp:72-86 | duplicate-free unordered indices sort to strictly increasing ones |
| UnsortedAccess.CheckUnsortedPosition | include/tatami_test/test_unsorted_access.hpp:53-136 | `fatal` iff one of the `ASSERT`s fails (sorted indices, indices-only call, null index pointer of the values-only call, neither call), and a fatal failure is a failure; the position passes iff: ordered indices equal the sorted indices; ordered values match the sorted values; the indices-only call reports no values and the unordered indices; the values-only call reports no indices and values matching the unordered ones; the neither call reports both null and the ordered count |
| UnsortedAccess.TestUnsortedAccessBase | include/tatami_test/test_unsorted_access.hpp:30-137 | the loop goes on past failed comparisons and stops at a failed `ASSERT`; the test passes iff every position of the visiting sequence passes |
| UnsortedAccess.TestUnsortedFullAccess | include/tatami_test/test_unsorted_access.hpp:139-143 | passes iff every position passes with buffers spanning the secondary extent (columns when rows are iterated, rows otherwise) |
| UnsortedAccess.TestUnsortedBlockAccess | include/tatami_test/test_unsorted_access.hpp:145-151 | passes iff every position passes with buffers spanning the whole secondary extent, not the block's length |
| UnsortedAccess.TestUnsortedIndexedAccess | include/tatami_test/test_unsorted_access.hpp:153-158 | passes iff every position passes with buffers spanning the subset drawn by `create_indexed_subset` |
| UnsortedAccess.RearrangedExtractionPasses | include/tatami_test/test_unsorted_access.hpp:88-135 | an unordered extraction holding the same pairs as a strictly increasing ordered one, with consistent single-channel calls, passes |
| UnsortedAccess.PassingPositionIsRearrangement | include/tatami_test/test_unsorted_access.hpp:88-89 | a passing position's unordered indices are a rearrangement of the ordered ones, with equal counts |
| AccessHarness.Reposition | include/tatami_test/test_access.hpp:363-366 | the reposition table has one entry per secondary element |
| AccessHarness.IndexedLookupInRange | include/tatami_test/test_access.hpp:373-380 | each reported index of an indexed extraction finds its own subset position in `reposition` |
| AccessHarness.Slots | include/tatami_test/test_access.hpp:295-380 | every slot an expander writes lies within the extent |
| AccessHarness.SlotsDistinct | include/tatami_test/test_access.hpp:295-380 | distinct reported indices go to distinct slots |
| AccessHarness.Expanded | include/tatami_test/test_access.hpp:225 | the expanded vector has the extent's length |
| AccessHarness.SparseExpand | include/tatami_test/test_access.hpp:295-380 | each entry point's expander computes the expansion for its scope |
| AccessHarness.CheckPosition | include/tatami_test/test_access.hpp:201-276 | for one position: `passed` iff all seven checks pass; `fatal` iff a fatal assertion fails; a fatal failure is a failure; it counts the sparse non-zeros |
| AccessHarness.CheckNext | include/tatami_test/test_access.hpp:198-276 | one loop turn extends the all-passed verdict and the non-zero counter by one position; a fatal stop means that position failed |
| AccessHarness.CheckAll | include/tatami_test/test_access.hpp:198-276 | a completed loop's verdict is "every position passes" and its counter is the summed non-zero count; an early stop means some position failed |
| AccessHarness.TestAccessBase | include/tatami_test/test_access.hpp:166-281 | passes iff the dimensions agree, every position passes, and (when checking sparsity of a sparse matrix) fewer non-zeros were seen than NR·NC |
| AccessHarness.TestFullAccess | include/tatami_test/test_access.hpp:283-304 | the base verdict over the full secondary extent |
| AccessHarness.TestBlockAccess | include/tatami_test/test_access.hpp:306-333 | the base verdict over the block |
| AccessHarness.TestIndexedAccess | include/tatami_test/test_access.hpp:353-383 | the generated subset is sorted and in range, and the verdict is the base verdict over it |
| AccessHarness.PassingPositionCertifiesExtraction | include/tatami_test/test_access.hpp:216-225 | a passing position's sparse values match the reference at their slots, and the reference is zero at every unreported slot |
| AccessHarness.ExpansionRebuildsRow | include/tatami_test/test_access.hpp:216-225 | a sparse extraction that reports a row's non-zeros at distinct slots expands back to the row |
| AccessHarness.FaithfulExtractionPasses | include/tatami_test/test_access.hpp:201-276 | an extractor that reports the row correctly on every channel passes every check |
| AccessHarness.SparseCountBound | include/tatami_test/test_access.hpp:227 | with at most `extent` non-zeros per extraction, the counter after k positions is at most k·extent |

## Findings

| source | as written | input that shows it | evidently intended | confidence | as-written member | corrected member |
|---|---|---|---|---|---|---|
| include/tatami_test/test_access.hpp:512-517 | `test_simple_row_access` sets `use_row = false` | any call: the options equal those of `test_simple_column_access`, so rows are never tested | `use_row = true`, as its documentation at lines 500-503 states | not executed | AccessSequence.SimpleRowAccessIsColumnAccess | AccessSequence.DocumentedRowAccessOptions |

## Left out

- Pseudo-random engines (`std::mt19937_64`, `uniform_real_distribution`, `std::shuffle`) are not reproduced bit for bit. They are replaced by supplied draws:
  - the shuffle is the swap-by-draw loop driven by `engine(seed)`;
  - the compressed-sparse cells and the subset keep decisions are inputs.
- Floating-point conversions are taken as given integers:
  - block `start` and `length` (`nsecondary * relative_start`, `nsecondary * relative_length`);
  - the indexed subset's `start`;
  - the subset seed's mixing with `probability` and `start`.
- Floating-point values are a datatype with a NaN case; IEEE arithmetic, the value bounds and the density comparison are not modelled.
- AccessHarness.TestIndexedAccess: requires a non-negative converted `start`. A negative relative start would make the source index `reposition` out of bounds.
- UnsortedAccess.SortByIndex: sorts by index only, stably, where `std::sort` orders the pairs lexicographically. The two agree whenever the indices are distinct, which is the case the harness relies on. With duplicate indices the order of tied values is not modelled.
- AccessHarness.CheckAll: the `size_t` non-zero counter and the `NR * NC` product are unbounded integers; wrap-around is not modelled.
- AccessSequence.SimulateTestAccessSequence: the `int` loop counter is unbounded, so the overflow of `i += jump` near `INT_MAX` is not modelled.
- Extractors, `tatami::Matrix`, `copy_n` aliasing internals and the `ConsecutiveOracle`/`FixedViewOracle` classes are abstract. An extractor call is modelled by its outcome, given per visited position as an input. Myopic and oracular calls are therefore one model.
- AccessHarness.TestAccessBase and UnsortedAccess.TestUnsortedAccessBase require every observation to be readable, including those after an early fatal stop that the source never makes.
- AccessHarness.TestAccessBase (and CheckPosition, CheckNext, CheckAll, TestFullAccess, TestBlockAccess, TestIndexedAccess): requires every reported sparse index to lie in the scope. It must lie below the secondary extent for full access and in [start, start + length) for block access, and must be one of the subset's indices for indexed access. For any other index the source's expanders write outside their vector, since `reposition` holds size_t(-1) for an unselected index. That behaviour is undefined and not modelled.
- The internal `create_indexed_subset` (include/tatami_test/test_access.hpp:335-351) has the same structure as the public one. Both are modelled by IndexedSubset.CreateIndexedSubset.
- GoogleTest plumbing is not modelled: messages, `standard_test_access_options_combinations`, test instantiation. `ASSERT` versus `EXPECT` survives only as the fatal/non-fatal distinction.
- `ForcedOracleWrapper`, `simulate_vector` and `throws_error` are not part of this model: they delegate, draw random values or capture exceptions.
