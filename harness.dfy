/**
 * `test_access_base` and its three entry points (full, block and indexed
 * access): every row or column of the visiting sequence is extracted from the
 * matrix under test in dense form, in sparse form and through the three
 * single-channel sparse extractors, and checked against the dense extraction
 * of a reference matrix.
 */
module AccessHarness {
  import opened Values
  import opened Seqs
  import opened Fetch
  import opened Compare
  import opened Expand
  import opened Channels
  import opened AccessSequence
  import opened IndexedSubset

  // ---------------------------------------------------------------------------
  // What is extracted, and where a sparse extraction lands when expanded

  /** The secondary elements each extractor covers: all `nsecondary` of them,
      the block [start, start + length), or the listed `indices`. */
  datatype Scope =
    | FullScope(nsecondary: nat)
    | BlockScope(start: int, length: nat)
    | IndexedScope(nsecondary: nat, indices: seq<int>)

  /** The `extent` handed to `test_access_base`. */
  function Extent(scope: Scope): nat {
    match scope
    case FullScope(nsecondary) => nsecondary
    case BlockScope(_, length) => length
    case IndexedScope(_, indices) => |indices|
  }

  /** The indexed subset is the generator's: sorted, duplicate-free, in range. */
  predicate WellScoped(scope: Scope) {
    scope.IndexedScope? ==>
      && StrictlyIncreasing(scope.indices)
      && forall j :: 0 <= j < |scope.indices| ==> 0 <= scope.indices[j] < scope.nsecondary
  }

  /** Every reported index is one the expander can place. */
  predicate InScope(scope: Scope, index: seq<int>) {
    forall k :: 0 <= k < |index| ==>
      match scope
      case FullScope(nsecondary) => 0 <= index[k] < nsecondary
      case BlockScope(start, length) => start <= index[k] < start + length
      case IndexedScope(_, indices) => index[k] in indices
  }

  /** The `reposition` table of indexed access. */
  function Reposition(scope: Scope): (r: seq<nat>)
    requires scope.IndexedScope? && WellScoped(scope)
    ensures |r| == scope.nsecondary
  {
    Scatter<nat>(scope.indices, Positions(|scope.indices|), NotSelected, scope.nsecondary)
  }

  /** Each reported index of an indexed extraction is found in `reposition`
      at its own position in the subset. */
  lemma IndexedLookupInRange(scope: Scope, index: seq<int>)
    requires scope.IndexedScope? && WellScoped(scope) && InScope(scope, index)
    ensures forall k :: 0 <= k < |index| ==>
      && 0 <= index[k] < |Reposition(scope)|
      && Reposition(scope)[index[k]] < |scope.indices|
      && scope.indices[Reposition(scope)[index[k]]] == index[k]
  {
    IncreasingIsDistinct(scope.indices);
    RepositionInverts(scope.indices, scope.nsecondary);
    forall k | 0 <= k < |index|
      ensures 0 <= index[k] < |Reposition(scope)|
      ensures Reposition(scope)[index[k]] < |scope.indices|
      ensures scope.indices[Reposition(scope)[index[k]]] == index[k]
    {
      var j :| 0 <= j < |scope.indices| && scope.indices[j] == index[k];
      assert Reposition(scope)[scope.indices[j]] == j;
    }
  }

  /** The slot of the expanded vector that each reported index is written to. */
  function Slots(scope: Scope, index: seq<int>): (r: seq<int>)
    requires WellScoped(scope) && InScope(scope, index)
    ensures |r| == |index|
    ensures forall k :: 0 <= k < |r| ==> 0 <= r[k] < Extent(scope)
  {
    match scope
    case FullScope(_) => index
    case BlockScope(start, _) => Offsets(index, start)
    case IndexedScope(_, _) =>
      IndexedLookupInRange(scope, index);
      Lookup(index, Reposition(scope))
  }

  /** Distinct reported indices go to distinct slots. */
  lemma SlotsDistinct(scope: Scope, index: seq<int>)
    requires WellScoped(scope) && InScope(scope, index) && Distinct(index)
    ensures Distinct(Slots(scope, index))
  {
    if scope.IndexedScope? {
      IndexedLookupInRange(scope, index);
      var s := Slots(scope, index);
      forall a, b | 0 <= a < b < |s|
        ensures s[a] != s[b]
      {
        assert scope.indices[s[a]] == index[a] && scope.indices[s[b]] == index[b];
      }
    }
  }

  /** The sparse extraction expanded to a dense vector of the extent. */
  function Expanded(scope: Scope, index: seq<int>, value: seq<Double>): (r: seq<Double>)
    requires WellScoped(scope) && InScope(scope, index) && |index| <= |value|
    ensures |r| == Extent(scope)
  {
    Scatter(Slots(scope, index), value[..|index|], Zero, Extent(scope))
  }

  /** The expander lambda of the entry point for `scope`. */
  method SparseExpand(scope: Scope, reposition: seq<nat>, index: seq<int>, value: seq<Double>)
    returns (output: seq<Double>)
    requires WellScoped(scope) && InScope(scope, index) && |index| <= |value|
    requires scope.IndexedScope? ==> reposition == Reposition(scope)
    ensures output == Expanded(scope, index, value)
  {
    match scope
    case FullScope(nsecondary) =>
      output := ExpandFull(index, value, nsecondary);
    case BlockScope(start, length) =>
      output := ExpandBlock(index, value, start, length);
    case IndexedScope(_, indices) =>
      IndexedLookupInRange(scope, index);
      output := ExpandIndexed(index, value, reposition, |indices|);
  }

  // ---------------------------------------------------------------------------
  // One row or column

  /** The outcomes of the six extractor calls made for one row or column:
      the reference's dense call, the dense and sparse calls on the matrix
      under test, and the indices-only, values-only and neither calls. */
  datatype Observation = Observation(
    reference: DenseCall,
    dense: DenseCall,
    sparse: SparseCall,
    indicesOnly: SparseCall,
    valuesOnly: SparseCall,
    neither: SparseRange)

  /** Every call was handed buffers of `extent` slots and returned what the
      caller reads; the sparse extraction's indices are ones the expander
      can place. */
  predicate Callable(o: Observation, scope: Scope) {
    var extent := Extent(scope);
    && |o.reference.buffer| == extent && Readable(o.reference.result, o.reference.buffer, extent)
    && |o.dense.buffer| == extent && Readable(o.dense.result, o.dense.buffer, extent)
    && SparseReadable(o.sparse, extent)
    && InScope(scope, SparseIndices(o.sparse))
    && |o.indicesOnly.indexBuffer| == extent && IndicesOnlyReadable(o.indicesOnly)
    && |o.valuesOnly.valueBuffer| == extent && ValuesOnlyReadable(o.valuesOnly)
  }

  /** Every check made for one row or column passes. */
  predicate PositionPasses(o: Observation, scope: Scope)
    requires WellScoped(scope) && Callable(o, scope)
  {
    var expected := DenseValues(o.reference, Extent(scope));
    var index, value := SparseIndices(o.sparse), SparseValues(o.sparse);
    && VectorsMatch(expected, DenseValues(o.dense, Extent(scope)))
    && VectorsMatch(expected, Expanded(scope, index, value))
    && StrictlyIncreasing(index)
    && IndicesOnlyAgree(o.indicesOnly, index)
    && o.valuesOnly.range.index.Null?
    && VectorsMatch(SparseValues(o.valuesOnly), value)
    && NeitherAgrees(o.neither, |value|)
  }

  /** A check whose failure ends the whole test (a fatal assertion) fails. */
  predicate FatalFailure(o: Observation, scope: Scope)
    requires Callable(o, scope)
  {
    var index := SparseIndices(o.sparse);
    || !StrictlyIncreasing(index)
    || !IndicesOnlyAgree(o.indicesOnly, index)
    || !o.valuesOnly.range.index.Null?
    || !NeitherAgrees(o.neither, o.sparse.range.number)
  }

  /** The loop body for one row or column.  `counted` is what it adds to the
      sparse counter; `fatal` says the test stops here. */
  method CheckPosition(o: Observation, scope: Scope, reposition: seq<nat>)
    returns (passed: bool, fatal: bool, counted: nat)
    requires WellScoped(scope) && Callable(o, scope)
    requires scope.IndexedScope? ==> reposition == Reposition(scope)
    ensures passed <==> PositionPasses(o, scope)
    ensures fatal <==> FatalFailure(o, scope)
    ensures fatal ==> !passed
    ensures counted == o.sparse.range.number
  {
    var extent := Extent(scope);
    var expected := FetchDense(o.reference, extent);

    var observedDense := FetchDense(o.dense, extent);
    var comparison := CompareVectors(expected, observedDense);
    passed := Passed(comparison);

    var observed := FetchSparse(o.sparse, extent);
    var expanded := SparseExpand(scope, reposition, observed.index, observed.value);
    comparison := CompareVectors(expected, expanded);
    passed := passed && Passed(comparison);
    counted := |observed.value|;

    var increasing := IsIncreasing(observed.index);
    if !increasing {
      return false, true, counted;
    }

    var indices := IndicesOnly(o.indicesOnly);
    if indices.None? || observed.index != indices.value {
      return false, true, counted;
    }

    var values := ValuesOnly(o.valuesOnly);
    if values.None? {
      return false, true, counted;
    }
    comparison := CompareVectors(values.value, observed.value);
    passed := passed && Passed(comparison);

    if !NeitherAgrees(o.neither, |observed.value|) {
      return false, true, counted;
    }
    fatal := false;
  }

  // ---------------------------------------------------------------------------
  // The whole test

  /** The sparse counter after the first `k` rows or columns: the non-zeros
      of their sparse extractions, summed. */
  function SparseCount(observations: seq<Observation>, k: nat): nat
    requires k <= |observations|
  {
    if k == 0 then 0 else SparseCount(observations, k - 1) + observations[k - 1].sparse.range.number
  }

  /** The verdict of `test_access_base`: equal dimensions, every row or column
      passing, and, when sparsity is checked on a sparse matrix, fewer
      structural non-zeros seen than the matrix has cells. */
  predicate HarnessPasses(nr: nat, nc: nat, refNr: nat, refNc: nat, opt: Options, isSparse: bool,
                          scope: Scope, observations: seq<Observation>)
    requires WellScoped(scope)
    requires forall k :: 0 <= k < |observations| ==> Callable(observations[k], scope)
  {
    && nr == refNr && nc == refNc
    && (forall k :: 0 <= k < |observations| ==> PositionPasses(observations[k], scope))
    && (opt.checkSparse && isSparse ==> SparseCount(observations, |observations|) < nr * nc)
  }

  /** One turn of the loop of `test_access_base`: position `k` is checked
      and its non-zeros added to the counter before any fatal check. */
  method CheckNext(scope: Scope, reposition: seq<nat>, observations: seq<Observation>, k: nat,
                   passedBefore: bool, counterBefore: nat)
    returns (fatal: bool, passed: bool, counter: nat)
    requires WellScoped(scope)
    requires scope.IndexedScope? ==> reposition == Reposition(scope)
    requires k < |observations|
    requires forall j {:trigger Callable(observations[j], scope)} :: 0 <= j < |observations| ==> Callable(observations[j], scope)
    requires passedBefore <==> forall j {:trigger PositionPasses(observations[j], scope)} :: 0 <= j < k ==> PositionPasses(observations[j], scope)
    requires counterBefore == SparseCount(observations, k)
    ensures fatal ==> !PositionPasses(observations[k], scope)
    ensures passed <==> forall j {:trigger PositionPasses(observations[j], scope)} :: 0 <= j < k + 1 ==> PositionPasses(observations[j], scope)
    ensures counter == SparseCount(observations, k + 1)
  {
    var ok, counted;
    ok, fatal, counted := CheckPosition(observations[k], scope, reposition);
    counter := counterBefore + counted;
    passed := passedBefore && ok;
  }

  /** The loop of `test_access_base` over the visiting sequence.  It stops
      (`completed` false) at the first fatal failure. */
  method CheckAll(scope: Scope, reposition: seq<nat>, observations: seq<Observation>)
    returns (completed: bool, passed: bool, counter: nat)
    requires WellScoped(scope)
    requires scope.IndexedScope? ==> reposition == Reposition(scope)
    requires forall k {:trigger Callable(observations[k], scope)} :: 0 <= k < |observations| ==> Callable(observations[k], scope)
    ensures completed ==> (passed <==> forall k {:trigger PositionPasses(observations[k], scope)} :: 0 <= k < |observations| ==> PositionPasses(observations[k], scope))
    ensures completed ==> counter == SparseCount(observations, |observations|)
    ensures !completed ==> !forall k {:trigger PositionPasses(observations[k], scope)} :: 0 <= k < |observations| ==> PositionPasses(observations[k], scope)
  {
    passed, counter := true, 0;
    var k := 0;
    while k < |observations|
      invariant 0 <= k <= |observations|
      invariant passed <==> forall j {:trigger PositionPasses(observations[j], scope)} :: 0 <= j < k ==> PositionPasses(observations[j], scope)
      invariant counter == SparseCount(observations, k)
    {
      var fatal;
      fatal, passed, counter := CheckNext(scope, reposition, observations, k, passed, counter);
      if fatal {
        return false, false, counter;
      }
      k := k + 1;
    }
    completed := true;
  }

  /** `test_access_base`: observation k is what the extractors returned for
      the k-th element of the visiting sequence. */
  method TestAccessBase(nr: nat, nc: nat, refNr: nat, refNc: nat, opt: Options, engine: nat -> nat -> nat,
                        isSparse: bool, scope: Scope, reposition: seq<nat>, observations: seq<Observation>)
    returns (passed: bool)
    requires opt.jump >= 1 && WellScoped(scope)
    requires scope.IndexedScope? ==> reposition == Reposition(scope)
    requires |observations| == |VisitingSequence(nr, nc, opt, engine)|
    requires forall k :: 0 <= k < |observations| ==> Callable(observations[k], scope)
    ensures passed <==> HarnessPasses(nr, nc, refNr, refNc, opt, isSparse, scope, observations)
  {
    if nr != refNr || nc != refNc {
      return false;
    }
    var completed, counter;
    completed, passed, counter := CheckAll(scope, reposition, observations);
    if !completed {
      return false;
    }
    if opt.checkSparse && isSparse {
      passed := passed && counter < nr * nc;
    }
  }

  /** `test_full_access`. */
  method TestFullAccess(nr: nat, nc: nat, refNr: nat, refNc: nat, opt: Options, engine: nat -> nat -> nat,
                        isSparse: bool, observations: seq<Observation>)
    returns (passed: bool)
    requires opt.jump >= 1
    requires |observations| == |VisitingSequence(nr, nc, opt, engine)|
    requires forall k :: 0 <= k < |observations| ==>
      Callable(observations[k], FullScope(SecondaryExtent(refNr, refNc, opt)))
    ensures passed <==> HarnessPasses(nr, nc, refNr, refNc, opt, isSparse,
                                      FullScope(SecondaryExtent(refNr, refNc, opt)), observations)
  {
    var scope := FullScope(SecondaryExtent(refNr, refNc, opt));
    passed := TestAccessBase(nr, nc, refNr, refNc, opt, engine, isSparse, scope, [], observations);
  }

  /** `test_block_access`, with the block's start and length already
      converted from their relative values. */
  method TestBlockAccess(nr: nat, nc: nat, refNr: nat, refNc: nat, start: int, length: nat, opt: Options,
                         engine: nat -> nat -> nat, isSparse: bool, observations: seq<Observation>)
    returns (passed: bool)
    requires opt.jump >= 1
    requires |observations| == |VisitingSequence(nr, nc, opt, engine)|
    requires forall k :: 0 <= k < |observations| ==> Callable(observations[k], BlockScope(start, length))
    ensures passed <==> HarnessPasses(nr, nc, refNr, refNc, opt, isSparse, BlockScope(start, length), observations)
  {
    passed := TestAccessBase(nr, nc, refNr, refNc, opt, engine, isSparse, BlockScope(start, length), [], observations);
  }

  /** The subset an indexed test runs on. */
  function IndexedTestScope(refNr: nat, refNc: nat, start: int, keep: int -> bool, opt: Options): Scope {
    var nsecondary := SecondaryExtent(refNr, refNc, opt);
    IndexedScope(nsecondary, Subset(nsecondary, start, keep))
  }

  /** `test_indexed_access`: the subset drawn by `create_indexed_subset`
      (its start already converted, its draws given as `keep`), the
      `reposition` table built from it, then the base test. */
  method TestIndexedAccess(nr: nat, nc: nat, refNr: nat, refNc: nat, start: int, keep: int -> bool, opt: Options,
                           engine: nat -> nat -> nat, isSparse: bool, observations: seq<Observation>)
    returns (passed: bool)
    requires opt.jump >= 1 && 0 <= start
    requires |observations| == |VisitingSequence(nr, nc, opt, engine)|
    requires forall k :: 0 <= k < |observations| ==>
      Callable(observations[k], IndexedTestScope(refNr, refNc, start, keep, opt))
    ensures WellScoped(IndexedTestScope(refNr, refNc, start, keep, opt))
    ensures passed <==> HarnessPasses(nr, nc, refNr, refNc, opt, isSparse,
                                      IndexedTestScope(refNr, refNc, start, keep, opt), observations)
  {
    var nsecondary := SecondaryExtent(refNr, refNc, opt);
    var indices := CreateIndexedSubset(nsecondary, start, keep);
    var scope := IndexedScope(nsecondary, indices);
    var reposition := BuildReposition(indices, nsecondary);
    passed := TestAccessBase(nr, nc, refNr, refNc, opt, engine, isSparse, scope, reposition, observations);
  }

  // ---------------------------------------------------------------------------
  // What a passing position certifies, and what makes a position pass

  /** A passing row or column certifies the sparse extraction entry by entry:
      each reported value matches the reference at its slot, and the
      reference is zero at every slot the extraction did not report. */
  lemma PassingPositionCertifiesExtraction(o: Observation, scope: Scope)
    requires WellScoped(scope) && Callable(o, scope)
    requires PositionPasses(o, scope)
    ensures var expected, index, value := DenseValues(o.reference, Extent(scope)), SparseIndices(o.sparse), SparseValues(o.sparse);
      var slots := Slots(scope, index);
      && (forall k :: 0 <= k < |index| ==> Matches(expected[slots[k]], value[k]))
      && (forall p :: 0 <= p < Extent(scope) && p !in slots ==> expected[p] == Zero)
  {
    var expected, index, value := DenseValues(o.reference, Extent(scope)), SparseIndices(o.sparse), SparseValues(o.sparse);
    var slots := Slots(scope, index);
    var expanded := Expanded(scope, index, value);
    IncreasingIsDistinct(index);
    SlotsDistinct(scope, index);
    forall k | 0 <= k < |index|
      ensures Matches(expected[slots[k]], value[k])
    {
      ScatterAt(slots, value[..|index|], Zero, Extent(scope), k);
      assert Matches(expected[slots[k]], expanded[slots[k]]);
    }
    forall p | 0 <= p < Extent(scope) && p !in slots
      ensures expected[p] == Zero
    {
      ScatterElsewhere(slots, value[..|index|], Zero, Extent(scope), p);
      assert Matches(expected[p], expanded[p]);
    }
  }

  /** Expanding a sparse extraction that reports, at distinct slots covering
      every non-zero of `row`, exactly the row's values gives `row` back. */
  lemma ExpansionRebuildsRow(scope: Scope, index: seq<int>, value: seq<Double>, row: seq<Double>)
    requires WellScoped(scope) && InScope(scope, index) && |index| == |value|
    requires |row| == Extent(scope) && Distinct(index)
    requires forall k :: 0 <= k < |index| ==> value[k] == row[Slots(scope, index)[k]]
    requires forall p :: 0 <= p < |row| && p !in Slots(scope, index) ==> row[p] == Zero
    ensures Expanded(scope, index, value) == row
  {
    var slots := Slots(scope, index);
    var expanded := Expanded(scope, index, value);
    SlotsDistinct(scope, index);
    assert value[..|index|] == value;
    forall p | 0 <= p < |row|
      ensures expanded[p] == row[p]
    {
      if p in slots {
        var k :| 0 <= k < |slots| && slots[k] == p;
        ScatterAt(slots, value, Zero, Extent(scope), k);
      } else {
        ScatterElsewhere(slots, value, Zero, Extent(scope), p);
      }
    }
  }

  /** An extractor that gets the row right passes: the reference and the
      dense call both show `row`, the sparse call reports strictly increasing
      indices whose slots cover every non-zero with the row's values, and the
      single-channel calls repeat the sparse call's channels. */
  lemma FaithfulExtractionPasses(o: Observation, scope: Scope, row: seq<Double>)
    requires WellScoped(scope) && Callable(o, scope)
    requires DenseValues(o.reference, Extent(scope)) == row && DenseValues(o.dense, Extent(scope)) == row
    requires StrictlyIncreasing(SparseIndices(o.sparse))
    requires forall k :: 0 <= k < |SparseIndices(o.sparse)| ==>
      SparseValues(o.sparse)[k] == row[Slots(scope, SparseIndices(o.sparse))[k]]
    requires forall p :: 0 <= p < |row| && p !in Slots(scope, SparseIndices(o.sparse)) ==> row[p] == Zero
    requires IndicesOnlyAgree(o.indicesOnly, SparseIndices(o.sparse))
    requires o.valuesOnly.range.index.Null? && SparseValues(o.valuesOnly) == SparseValues(o.sparse)
    requires NeitherAgrees(o.neither, o.sparse.range.number)
    ensures PositionPasses(o, scope)
  {
    IncreasingIsDistinct(SparseIndices(o.sparse));
    ExpansionRebuildsRow(scope, SparseIndices(o.sparse), SparseValues(o.sparse), row);
    IdenticalVectorsMatch(row);
    IdenticalVectorsMatch(SparseValues(o.sparse));
  }

  /** No extraction reports more non-zeros than its extent, so the counter
      never exceeds the number of extractions times the extent. */
  lemma {:induction false} SparseCountBound(observations: seq<Observation>, k: nat, extent: nat)
    requires k <= |observations|
    requires forall j :: 0 <= j < |observations| ==> observations[j].sparse.range.number <= extent
    ensures SparseCount(observations, k) <= k * extent
  {
    if k > 0 {
      SparseCountBound(observations, k - 1, extent);
      assert (k - 1) * extent + extent == k * extent;
    }
  }
}
