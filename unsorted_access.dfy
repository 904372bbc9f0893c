/**
 * `test_unsorted_access_base` and its three entry points: an extraction that
 * need not report its indices in order must, once its (index, value) pairs
 * are sorted by index, agree with the ordered extraction of the same
 * row or column.
 */
module UnsortedAccess {
  import opened Values
  import opened Seqs
  import opened Fetch
  import opened Compare
  import opened Channels
  import opened AccessSequence
  import opened IndexedSubset

  // ---------------------------------------------------------------------------
  // Zip, sort, unzip

  /** One collected (index, value) pair. */
  datatype Entry = Entry(index: int, value: Double)

  /** The first |value| indices paired with the values. */
  function Zipped(index: seq<int>, value: seq<Double>): (r: seq<Entry>)
    requires |value| <= |index|
    ensures |r| == |value|
  {
    seq(|value|, k requires 0 <= k < |value| => Entry(index[k], value[k]))
  }

  function Keys(s: seq<Entry>): (r: seq<int>)
    ensures |r| == |s|
  {
    seq(|s|, k requires 0 <= k < |s| => s[k].index)
  }

  function Payloads(s: seq<Entry>): (r: seq<Double>)
    ensures |r| == |s|
  {
    seq(|s|, k requires 0 <= k < |s| => s[k].value)
  }

  /** Unzipping what was zipped gives back both vectors. */
  lemma UnzipZip(index: seq<int>, value: seq<Double>)
    requires |value| <= |index|
    ensures Keys(Zipped(index, value)) == index[..|value|]
    ensures Payloads(Zipped(index, value)) == value
  {
  }

  predicate SortedByIndex(s: seq<Entry>) {
    forall x, y :: 0 <= x < y < |s| ==> s[x].index <= s[y].index
  }

  /** `x` inserted into `t` after the last entry whose index is at most its own. */
  function Insert(t: seq<Entry>, x: Entry): seq<Entry>
    decreases |t|
  {
    if |t| == 0 || t[|t| - 1].index <= x.index then t + [x]
    else Insert(t[..|t| - 1], x) + [t[|t| - 1]]
  }

  /** The entries ordered by index, equal indices kept in their original order. */
  function InsertionSorted(s: seq<Entry>): seq<Entry>
  {
    if |s| == 0 then [] else Insert(InsertionSorted(s[..|s| - 1]), s[|s| - 1])
  }

  /** Where `Insert` puts `x`: after the last entry whose index is at most its own. */
  function InsertPosition(t: seq<Entry>, x: Entry): (p: nat)
    ensures p <= |t|
    decreases |t|
  {
    if |t| == 0 || t[|t| - 1].index <= x.index then |t| else InsertPosition(t[..|t| - 1], x)
  }

  lemma {:induction false} InsertPositionShape(t: seq<Entry>, x: Entry)
    ensures forall k :: InsertPosition(t, x) <= k < |t| ==> t[k].index > x.index
    ensures InsertPosition(t, x) == 0 || t[InsertPosition(t, x) - 1].index <= x.index
    decreases |t|
  {
    if |t| > 0 && t[|t| - 1].index > x.index {
      InsertPositionShape(t[..|t| - 1], x);
    }
  }

  lemma InsertShape(t: seq<Entry>, x: Entry)
    ensures multiset(Insert(t, x)) == multiset(t) + multiset{x}
    ensures multiset(Keys(Insert(t, x))) == multiset(Keys(t)) + multiset{x.index}
    ensures SortedByIndex(t) ==> SortedByIndex(Insert(t, x))
  {
    var p := InsertPosition(t, x);
    InsertPositionShape(t, x);
    InsertSplice(t, x, p);
    assert t[..p] + t[p..] == t;
    SpliceShape(t[..p], x, t[p..]);
    if SortedByIndex(t) {
      InsertKeepsOrder(t, x, p);
    }
  }

  lemma SpliceShape(u: seq<Entry>, x: Entry, v: seq<Entry>)
    ensures multiset(u + [x] + v) == multiset(u + v) + multiset{x}
    ensures multiset(Keys(u + [x] + v)) == multiset(Keys(u + v)) + multiset{x.index}
  {
    assert Keys(u + [x] + v) == Keys(u) + [x.index] + Keys(v);
    assert Keys(u + v) == Keys(u) + Keys(v);
  }

  lemma InsertKeepsOrder(t: seq<Entry>, x: Entry, p: nat)
    requires p <= |t| && SortedByIndex(t)
    requires forall k :: p <= k < |t| ==> t[k].index > x.index
    requires p == 0 || t[p - 1].index <= x.index
    ensures SortedByIndex(t[..p] + [x] + t[p..])
  {
    var r := t[..p] + [x] + t[p..];
    assert forall k :: 0 <= k < p ==> r[k] == t[k];
    assert forall k :: p < k < |r| ==> r[k] == t[k - 1];
    forall a, b | 0 <= a < b < |r|
      ensures r[a].index <= r[b].index
    {
      if a < p && b == p {
        assert t[a].index <= t[p - 1].index;
      }
    }
  }

  /** The sort rearranges the entries (and so their indices) and orders them by index. */
  lemma {:induction false} InsertionSortedShape(s: seq<Entry>)
    ensures multiset(InsertionSorted(s)) == multiset(s)
    ensures multiset(Keys(InsertionSorted(s))) == multiset(Keys(s))
    ensures SortedByIndex(InsertionSorted(s))
    decreases |s|
  {
    if |s| > 0 {
      var init := s[..|s| - 1];
      InsertionSortedShape(init);
      InsertShape(InsertionSorted(init), s[|s| - 1]);
      KeysSnoc(s);
    }
  }

  lemma KeysSnoc(s: seq<Entry>)
    requires |s| > 0
    ensures s == s[..|s| - 1] + [s[|s| - 1]]
    ensures Keys(s) == Keys(s[..|s| - 1]) + [s[|s| - 1].index]
  {
  }

  /** Entries with strictly increasing indices are the only arrangement of
      themselves that is ordered by index. */
  lemma {:induction false} SortedArrangementUnique(a: seq<Entry>, b: seq<Entry>)
    requires StrictlyIncreasing(Keys(a))
    requires SortedByIndex(b)
    requires multiset(a) == multiset(b)
    ensures a == b
    decreases |a|
  {
    if |a| == 0 {
      assert |multiset(b)| == 0;
    } else {
      assert |b| == |multiset(b)| == |multiset(a)| == |a|;
      HeadsAgree(a, b);
      TailsAgree(a, b);
      TailIncreasing(a);
      SortedArrangementUnique(a[1..], b[1..]);
      assert a == [a[0]] + a[1..] && b == [b[0]] + b[1..];
    }
  }

  /** With equal first entries, the rest are rearrangements of each other
      and the rest of an ordered arrangement is ordered. */
  lemma TailsAgree(a: seq<Entry>, b: seq<Entry>)
    requires |a| > 0 && |b| > 0 && a[0] == b[0]
    requires multiset(a) == multiset(b) && SortedByIndex(b)
    ensures multiset(a[1..]) == multiset(b[1..]) && SortedByIndex(b[1..])
  {
    assert a == [a[0]] + a[1..] && b == [b[0]] + b[1..];
    assert multiset(a) == multiset{a[0]} + multiset(a[1..]);
    assert multiset(b) == multiset{b[0]} + multiset(b[1..]);
    assert multiset(a[1..]) == multiset(a) - multiset{a[0]};
    assert multiset(b[1..]) == multiset(b) - multiset{b[0]};
    var tail := b[1..];
    forall x, y | 0 <= x < y < |tail|
      ensures tail[x].index <= tail[y].index
    {
      assert tail[x] == b[x + 1] && tail[y] == b[y + 1];
    }
  }

  /** Both arrangements start with the entry of smallest index. */
  lemma HeadsAgree(a: seq<Entry>, b: seq<Entry>)
    requires |a| > 0 && |b| > 0
    requires StrictlyIncreasing(Keys(a))
    requires SortedByIndex(b)
    requires multiset(a) == multiset(b)
    ensures a[0] == b[0]
  {
    assert a[0] in multiset(b) && b[0] in multiset(a);
    var m :| 0 <= m < |b| && b[m] == a[0];
    var m' :| 0 <= m' < |a| && a[m'] == b[0];
    if m' > 0 {
      IncreasingPairwise(Keys(a), 0, m');
      assert false;
    }
  }

  lemma TailIncreasing(a: seq<Entry>)
    requires |a| > 0 && StrictlyIncreasing(Keys(a))
    ensures StrictlyIncreasing(Keys(a[1..]))
  {
    var ka := Keys(a[1..]);
    forall i | 0 < i < |ka|
      ensures ka[i - 1] < ka[i]
    {
      assert ka[i - 1] == Keys(a)[i] && ka[i] == Keys(a)[i + 1];
    }
  }

  /** If the unordered extraction holds the same pairs as an ordered one whose
      indices increase strictly, sorting it gives the ordered extraction back. */
  lemma RearrangementIsRecovered(index: seq<int>, value: seq<Double>, index': seq<int>, value': seq<Double>)
    requires |index| == |value| && |value'| <= |index'|
    requires StrictlyIncreasing(index)
    requires multiset(Zipped(index', value')) == multiset(Zipped(index, value))
    ensures InsertionSorted(Zipped(index', value')) == Zipped(index, value)
  {
    InsertionSortedShape(Zipped(index', value'));
    assert Keys(Zipped(index, value)) == index;
    SortedArrangementUnique(Zipped(index, value), InsertionSorted(Zipped(index', value')));
  }

  /** In particular, a reversed extraction (what `ReversedIndicesWrapper`
      produces) is put back in order by the sort. */
  lemma ReversalIsRecovered(index: seq<int>, value: seq<Double>)
    requires |index| == |value| && StrictlyIncreasing(index)
    ensures InsertionSorted(Zipped(Reversed(index), Reversed(value))) == Zipped(index, value)
  {
    var z := Zipped(index, value);
    ZipReversed(index, value);
    ReversedMultiset(z);
    RearrangementIsRecovered(index, value, Reversed(index), Reversed(value));
  }

  /** Zipping two reversed vectors reverses the zipped pairs. */
  lemma ZipReversed(index: seq<int>, value: seq<Double>)
    requires |index| == |value|
    ensures Zipped(Reversed(index), Reversed(value)) == Reversed(Zipped(index, value))
  {
    var lhs, rhs := Zipped(Reversed(index), Reversed(value)), Reversed(Zipped(index, value));
    forall k | 0 <= k < |index|
      ensures lhs[k] == rhs[k]
    {
      ZipReversedAt(index, value, k);
    }
  }

  lemma ZipReversedAt(index: seq<int>, value: seq<Double>, k: nat)
    requires |index| == |value| && k < |index|
    ensures Zipped(Reversed(index), Reversed(value))[k] == Reversed(Zipped(index, value))[k]
  {
    var n := |index|;
    var z := Zipped(index, value);
    var ri, rv := Reversed(index), Reversed(value);
    ReversedAt(index, k);
    ReversedAt(value, k);
    ReversedAt(z, k);
    assert ri[k] == index[n - 1 - k] && rv[k] == value[n - 1 - k];
    assert Reversed(z)[k] == Entry(index[n - 1 - k], value[n - 1 - k]);
    assert Zipped(ri, rv)[k] == Entry(ri[k], rv[k]);
  }

  /** The zip loop: pairs built from the unordered indices and values, one per value. */
  method Zip(index: seq<int>, value: seq<Double>) returns (collected: array<Entry>)
    requires |value| <= |index|
    ensures fresh(collected)
    ensures collected[..] == Zipped(index, value)
  {
    collected := new Entry[|value|](_ => Entry(0, Zero));
    var i := 0;
    while i < |value|
      invariant 0 <= i <= |value|
      invariant forall k :: 0 <= k < i ==> collected[k] == Entry(index[k], value[k])
    {
      collected[i] := Entry(index[i], value[i]);
      i := i + 1;
    }
  }

  /** One insertion step: the entry in slot i moved down past every entry of
      the sorted prefix with a larger index. */
  method InsertAt(a: array<Entry>, i: nat)
    requires i < a.Length
    modifies a
    ensures a[..i + 1] == Insert(old(a[..i]), old(a[i]))
    ensures a[i + 1..] == old(a[i + 1..])
  {
    ghost var t := a[..i];
    var x := a[i];
    var j := i;
    while j > 0 && a[j - 1].index > x.index
      invariant 0 <= j <= i && a[j] == x
      invariant forall k :: 0 <= k < j ==> a[k] == t[k]
      invariant forall k :: j < k <= i ==> a[k] == t[k - 1]
      invariant forall k :: i < k < a.Length ==> a[k] == old(a[k])
      invariant forall k :: j <= k < i ==> t[k].index > x.index
    {
      a[j - 1], a[j] := a[j], a[j - 1];
      j := j - 1;
    }
    InsertSplice(t, x, j);
    var placed := t[..j] + [x] + t[j..];
    forall k | 0 <= k <= i
      ensures a[k] == placed[k]
    {
      if k > j {
        assert placed[k] == t[k - 1];
      }
    }
    assert a[..i + 1] == placed;
    assert a[i + 1..] == old(a[i + 1..]);
  }

  /** `x` lands just after the last entry whose index is at most its own. */
  lemma {:induction false} InsertSplice(t: seq<Entry>, x: Entry, j: nat)
    requires j <= |t|
    requires forall k :: j <= k < |t| ==> t[k].index > x.index
    requires j == 0 || t[j - 1].index <= x.index
    ensures Insert(t, x) == t[..j] + [x] + t[j..]
    decreases |t|
  {
    if |t| > j {
      var init := t[..|t| - 1];
      InsertSplice(init, x, j);
      assert init[..j] == t[..j];
      assert init[j..] + [t[|t| - 1]] == t[j..];
    }
  }

  /** `std::sort` on the collected pairs, as an insertion sort keyed on the index. */
  method SortByIndex(a: array<Entry>)
    modifies a
    ensures a[..] == InsertionSorted(old(a[..]))
  {
    ghost var s := a[..];
    var i := 0;
    while i < a.Length
      invariant 0 <= i <= a.Length
      invariant a[..i] == InsertionSorted(s[..i])
      invariant a[i..] == s[i..]
    {
      assert s[..i + 1][..i] == s[..i];
      InsertAt(a, i);
      i := i + 1;
    }
    assert a[..] == a[..a.Length] && s == s[..a.Length];
  }

  /** The unzip loop: sorted indices and sorted values pushed back pair by pair. */
  method Unzip(collected: array<Entry>) returns (sortedIndex: seq<int>, sortedValue: seq<Double>)
    ensures sortedIndex == Keys(collected[..]) && sortedValue == Payloads(collected[..])
  {
    sortedIndex, sortedValue := [], [];
    var i := 0;
    while i < collected.Length
      invariant 0 <= i <= collected.Length
      invariant sortedIndex == Keys(collected[..i]) && sortedValue == Payloads(collected[..i])
    {
      sortedIndex := sortedIndex + [collected[i].index];
      sortedValue := sortedValue + [collected[i].value];
      i := i + 1;
    }
    assert collected[..] == collected[..collected.Length];
  }

  /** The sorted view of an unordered extraction. */
  function SortedPairs(index: seq<int>, value: seq<Double>): seq<Entry>
    requires |value| <= |index|
  {
    InsertionSorted(Zipped(index, value))
  }

  /** Zip, sort and unzip of an unordered extraction. */
  method SortExtraction(index: seq<int>, value: seq<Double>) returns (sortedIndex: seq<int>, sortedValue: seq<Double>)
    requires |value| <= |index|
    ensures sortedIndex == Keys(SortedPairs(index, value)) && sortedValue == Payloads(SortedPairs(index, value))
    ensures multiset(sortedIndex) == multiset(index[..|value|])
    ensures NonDecreasing(sortedIndex)
  {
    var collected := Zip(index, value);
    SortByIndex(collected);
    sortedIndex, sortedValue := Unzip(collected);
    InsertionSortedShape(Zipped(index, value));
    UnzipZip(index, value);
    SortedKeys(SortedPairs(index, value));
  }

  lemma SortedKeys(s: seq<Entry>)
    requires SortedByIndex(s)
    ensures NonDecreasing(Keys(s))
  {
    assert forall k :: 0 <= k < |s| ==> Keys(s)[k] == s[k].index;
  }

  /** When the unordered indices hold no duplicates, the sorted indices
      increase strictly. */
  lemma SortedIndicesIncrease(index: seq<int>, value: seq<Double>)
    requires |value| <= |index| && Distinct(index[..|value|])
    ensures StrictlyIncreasing(Keys(SortedPairs(index, value)))
  {
    var sorted := SortedPairs(index, value);
    var keys := Keys(sorted);
    InsertionSortedShape(Zipped(index, value));
    UnzipZip(index, value);
    SortedKeys(sorted);
    forall i | 0 < i < |keys|
      ensures keys[i - 1] < keys[i]
    {
      if keys[i - 1] == keys[i] {
        AdjacentRepeatCounts(keys, i);
        DistinctCounts(index[..|value|], keys[i]);
        assert false;
      }
    }
  }

  // ---------------------------------------------------------------------------
  // The test loop

  /** The outcomes of the five extractor calls made for one row or column:
      ordered sparse, unordered sparse, and unordered with indices only,
      values only, and neither. */
  datatype UnsortedObservation = UnsortedObservation(
    ordered: SparseCall,
    unordered: SparseCall,
    indicesOnly: SparseCall,
    valuesOnly: SparseCall,
    neither: SparseRange)

  /** Every call was handed buffers of `extent` slots and returned what the
      caller can read. */
  predicate Callable(o: UnsortedObservation, extent: nat) {
    && SparseReadable(o.ordered, extent)
    && SparseReadable(o.unordered, extent)
    && |o.indicesOnly.indexBuffer| == extent && IndicesOnlyReadable(o.indicesOnly)
    && |o.valuesOnly.valueBuffer| == extent && ValuesOnlyReadable(o.valuesOnly)
  }

  /** Every check made for one row or column passes. */
  predicate UnsortedPositionPasses(o: UnsortedObservation, extent: nat)
    requires Callable(o, extent)
  {
    var index, value := SparseIndices(o.ordered), SparseValues(o.ordered);
    var index', value' := SparseIndices(o.unordered), SparseValues(o.unordered);
    var sorted := SortedPairs(index', value');
    && index == Keys(sorted)
    && VectorsMatch(value, Payloads(sorted))
    && IndicesOnlyAgree(o.indicesOnly, index')
    && o.valuesOnly.range.index.Null?
    && VectorsMatch(value', SparseValues(o.valuesOnly))
    && NeitherAgrees(o.neither, |value|)
  }

  /** A check whose failure ends the whole test (an `ASSERT`) fails: the
      sorted indices, the indices-only call, the null index pointer of the
      values-only call, or the neither call.  The two `compare_vectors`
      checks are not among them. */
  predicate UnsortedFatalFailure(o: UnsortedObservation, extent: nat)
    requires Callable(o, extent)
  {
    var index', value' := SparseIndices(o.unordered), SparseValues(o.unordered);
    || SparseIndices(o.ordered) != Keys(SortedPairs(index', value'))
    || !IndicesOnlyAgree(o.indicesOnly, index')
    || !o.valuesOnly.range.index.Null?
    || !NeitherAgrees(o.neither, o.ordered.range.number)
  }

  /** The body of the loop for one row or column.  A failed `ASSERT` stops
      the test (`fatal`); a failed `compare_vectors` only marks it failed. */
  method CheckUnsortedPosition(o: UnsortedObservation, extent: nat) returns (passed: bool, fatal: bool)
    requires Callable(o, extent)
    ensures passed <==> UnsortedPositionPasses(o, extent)
    ensures fatal <==> UnsortedFatalFailure(o, extent)
    ensures fatal ==> !passed
  {
    var observed := FetchSparse(o.ordered, extent);
    var observedUnordered := FetchSparse(o.unordered, extent);
    var sortedIndex, sortedValue := SortExtraction(observedUnordered.index, observedUnordered.value);
    if observed.index != sortedIndex {
      return false, true;
    }
    var comparison := CompareVectors(observed.value, sortedValue);
    passed := Passed(comparison);

    var indices := IndicesOnly(o.indicesOnly);
    if indices.None? || observedUnordered.index != indices.value {
      return false, true;
    }

    var values := ValuesOnly(o.valuesOnly);
    if values.None? {
      return false, true;
    }
    comparison := CompareVectors(observedUnordered.value, values.value);
    passed := passed && Passed(comparison);

    fatal := !NeitherAgrees(o.neither, |observed.value|);
    passed := passed && !fatal;
  }

  /** `test_unsorted_access_base`: the visiting sequence is simulated and
      observation k is what the extractors returned for its k-th element.
      The loop goes on past a failed comparison and stops at a failed
      `ASSERT`. */
  method TestUnsortedAccessBase(nr: nat, nc: nat, opt: Options, engine: nat -> nat -> nat,
                                extent: nat, observations: seq<UnsortedObservation>)
    returns (passed: bool)
    requires opt.jump >= 1
    requires |observations| == |VisitingSequence(nr, nc, opt, engine)|
    requires forall k :: 0 <= k < |observations| ==> Callable(observations[k], extent)
    ensures passed <==> forall k :: 0 <= k < |observations| ==> UnsortedPositionPasses(observations[k], extent)
  {
    var sequence := SimulateTestAccessSequence(nr, nc, opt, engine);
    passed := true;
    var k := 0;
    while k < |sequence|
      invariant 0 <= k <= |sequence|
      invariant passed <==> forall j :: 0 <= j < k ==> UnsortedPositionPasses(observations[j], extent)
    {
      var ok, fatal := CheckUnsortedPosition(observations[k], extent);
      if fatal {
        return false;
      }
      passed := passed && ok;
      k := k + 1;
    }
  }

  /** `test_unsorted_full_access`: buffers span the whole secondary extent. */
  method TestUnsortedFullAccess(nr: nat, nc: nat, opt: Options, engine: nat -> nat -> nat,
                                observations: seq<UnsortedObservation>)
    returns (passed: bool)
    requires opt.jump >= 1
    requires |observations| == |VisitingSequence(nr, nc, opt, engine)|
    requires forall k :: 0 <= k < |observations| ==> Callable(observations[k], SecondaryExtent(nr, nc, opt))
    ensures passed <==> forall k :: 0 <= k < |observations| ==>
      UnsortedPositionPasses(observations[k], SecondaryExtent(nr, nc, opt))
  {
    var nsecondary := if opt.useRow then nc else nr;
    passed := TestUnsortedAccessBase(nr, nc, opt, engine, nsecondary, observations);
  }

  /** `test_unsorted_block_access`, with the block's start and length already
      converted from their relative values.  The block only reaches the
      extractors; the buffers still span the whole secondary extent, not the
      block's length. */
  method TestUnsortedBlockAccess(nr: nat, nc: nat, start: int, length: int, opt: Options,
                                 engine: nat -> nat -> nat, observations: seq<UnsortedObservation>)
    returns (passed: bool)
    requires opt.jump >= 1
    requires |observations| == |VisitingSequence(nr, nc, opt, engine)|
    requires forall k :: 0 <= k < |observations| ==> Callable(observations[k], SecondaryExtent(nr, nc, opt))
    ensures passed <==> forall k :: 0 <= k < |observations| ==>
      UnsortedPositionPasses(observations[k], SecondaryExtent(nr, nc, opt))
  {
    var nsecondary := if opt.useRow then nc else nr;
    passed := TestUnsortedAccessBase(nr, nc, opt, engine, nsecondary, observations);
  }

  /** `test_unsorted_indexed_access`: the subset drawn by
      `create_indexed_subset` (its start already converted, its draws given
      as `keep`) reaches the extractors, and the buffers span the subset. */
  method TestUnsortedIndexedAccess(nr: nat, nc: nat, start: int, keep: int -> bool, opt: Options,
                                   engine: nat -> nat -> nat, observations: seq<UnsortedObservation>)
    returns (passed: bool)
    requires opt.jump >= 1
    requires |observations| == |VisitingSequence(nr, nc, opt, engine)|
    requires forall k :: 0 <= k < |observations| ==>
      Callable(observations[k], |Subset(SecondaryExtent(nr, nc, opt), start, keep)|)
    ensures passed <==> forall k :: 0 <= k < |observations| ==>
      UnsortedPositionPasses(observations[k], |Subset(SecondaryExtent(nr, nc, opt), start, keep)|)
  {
    var nsecondary := if opt.useRow then nc else nr;
    var indices := CreateIndexedSubset(nsecondary, start, keep);
    passed := TestUnsortedAccessBase(nr, nc, opt, engine, |indices|, observations);
  }

  /** A position whose unordered extraction is a rearrangement of its ordered
      one, with strictly increasing ordered indices and consistent
      single-channel calls, passes every check. */
  lemma RearrangedExtractionPasses(o: UnsortedObservation, extent: nat)
    requires Callable(o, extent)
    requires StrictlyIncreasing(SparseIndices(o.ordered))
    requires multiset(Zipped(SparseIndices(o.unordered), SparseValues(o.unordered)))
          == multiset(Zipped(SparseIndices(o.ordered), SparseValues(o.ordered)))
    requires IndicesOnlyAgree(o.indicesOnly, SparseIndices(o.unordered))
    requires o.valuesOnly.range.index.Null? && SparseValues(o.valuesOnly) == SparseValues(o.unordered)
    requires NeitherAgrees(o.neither, o.ordered.range.number)
    ensures UnsortedPositionPasses(o, extent)
  {
    var index, value := SparseIndices(o.ordered), SparseValues(o.ordered);
    RearrangementIsRecovered(index, value, SparseIndices(o.unordered), SparseValues(o.unordered));
    UnzipZip(index, value);
    IdenticalVectorsMatch(value);
    IdenticalVectorsMatch(SparseValues(o.unordered));
  }

  /** Conversely, a passing position certifies that the unordered indices are
      a rearrangement of the ordered ones and that both report as many
      non-zeros. */
  lemma PassingPositionIsRearrangement(o: UnsortedObservation, extent: nat)
    requires Callable(o, extent)
    requires UnsortedPositionPasses(o, extent)
    ensures multiset(SparseIndices(o.unordered)) == multiset(SparseIndices(o.ordered))
    ensures o.unordered.range.number == o.ordered.range.number
  {
    var index', value' := SparseIndices(o.unordered), SparseValues(o.unordered);
    InsertionSortedShape(Zipped(index', value'));
    UnzipZip(index', value');
    var sorted := SortedPairs(index', value');
    assert |multiset(sorted)| == |sorted|;
    assert index'[..|value'|] == index';
  }
}
