/**
 * The two element-wise checks of the access harness: `compare_vectors` and
 * the strictly-increasing test on ordered sparse indices.
 */
module Compare {
  import opened Values
  import opened Seqs

  /** What `compare_vectors` reports: a length mismatch (after which it stops),
      or the positions at which a value did not match, in the order reported. */
  datatype Comparison = LengthMismatch | Compared(mismatches: seq<int>)

  predicate Passed(c: Comparison) {
    c.Compared? && c.mismatches == []
  }

  method CompareVectors(expected: seq<Double>, observed: seq<Double>) returns (result: Comparison)
    ensures result.LengthMismatch? <==> |expected| != |observed|
    ensures result.Compared? ==>
      forall p :: p in result.mismatches <==> 0 <= p < |expected| && !Matches(expected[p], observed[p])
    ensures result.Compared? ==> StrictlyIncreasing(result.mismatches)
    ensures Passed(result) <==> VectorsMatch(expected, observed)
  {
    if |expected| != |observed| {
      return LengthMismatch;
    }
    var mismatches: seq<int> := [];
    var i := 0;
    while i < |expected|
      invariant 0 <= i <= |expected|
      invariant forall p :: p in mismatches <==> 0 <= p < i && !Matches(expected[p], observed[p])
      invariant StrictlyIncreasing(mismatches)
      invariant forall k :: 0 <= k < |mismatches| ==> mismatches[k] < i
    {
      if !Matches(expected[i], observed[i]) {
        mismatches := mismatches + [i];
      }
      i := i + 1;
    }
    result := Compared(mismatches);
    if mismatches == [] {
      assert forall p :: 0 <= p < |expected| ==> Matches(expected[p], observed[p]);
    } else {
      assert mismatches[0] in mismatches;
    }
  }

  /** The `is_increasing` loop of `test_access_base`, which stops at the first violation. */
  method IsIncreasing(index: seq<int>) returns (increasing: bool)
    ensures increasing <==> StrictlyIncreasing(index)
  {
    increasing := true;
    var i := 1;
    while i < |index|
      invariant 1 <= i
      invariant forall k :: 0 < k < i && k < |index| ==> index[k - 1] < index[k]
    {
      if index[i] <= index[i - 1] {
        increasing := false;
        break;
      }
      i := i + 1;
    }
  }
}
