/**
 * Matrix values as the test harness sees them, and the NaN-aware comparison
 * that every dense/sparse check is built on.
 */
module Values {

  /** A double-precision matrix value.  NaNs carry a payload so that two NaNs
      can differ structurally while still both being NaN, as in IEEE 754. */
  datatype Double = NaN(payload: nat) | Num(x: real)

  /** The value a freshly sized `std::vector<double>` is filled with. */
  const Zero: Double := Num(0.0)

  predicate IsNaN(d: Double) {
    d.NaN?
  }

  /** One position of `compare_vectors`: a NaN expectation asks only for a NaN,
      anything else asks for exact equality. */
  predicate Matches(expected: Double, observed: Double) {
    if IsNaN(expected) then IsNaN(observed) else expected == observed
  }

  /** `compare_vectors` reports no failure at all. */
  predicate VectorsMatch(expected: seq<Double>, observed: seq<Double>) {
    && |expected| == |observed|
    && forall i :: 0 <= i < |expected| ==> Matches(expected[i], observed[i])
  }

  /** Identical vectors always pass, NaNs included. */
  lemma IdenticalVectorsMatch(v: seq<Double>)
    ensures VectorsMatch(v, v)
  {
  }

  /** Without NaNs on the expected side, passing the comparison is plain equality. */
  lemma MatchWithoutNaNIsEquality(expected: seq<Double>, observed: seq<Double>)
    requires forall i :: 0 <= i < |expected| ==> !IsNaN(expected[i])
    ensures VectorsMatch(expected, observed) <==> expected == observed
  {
    if VectorsMatch(expected, observed) {
      assert forall i :: 0 <= i < |expected| ==> expected[i] == observed[i];
    }
  }

  /** The comparison is blind to NaN payloads: a NaN matches a different NaN. */
  lemma NaNPayloadIgnored(p: nat, q: nat)
    requires p != q
    ensures Matches(NaN(p), NaN(q)) && NaN(p) != NaN(q)
  {
  }
}
