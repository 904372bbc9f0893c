/**
 * `create_indexed_subset`: a sorted, duplicate-free subset of [0, extent)
 * that starts at `start` and keeps each later element on a random draw.
 * The draws are an input here: `keep(i)` says whether the draw made for
 * element i fell below the sampling probability.
 */
module IndexedSubset {
  import opened Seqs

  /** The elements of [lo, hi) that `keep` accepts, in increasing order. */
  function Kept(lo: int, hi: int, keep: int -> bool): (r: seq<int>)
    decreases hi - lo
  {
    if hi <= lo then [] else Kept(lo, hi - 1, keep) + (if keep(hi - 1) then [hi - 1] else [])
  }

  /** The subset the generator produces for the given draws. */
  function Subset(extent: int, start: int, keep: int -> bool): seq<int> {
    if start < extent then [start] + Kept(start + 1, extent, keep) else []
  }

  /** The accepted elements lie in [lo, hi), increase strictly, number at
      most hi - lo, and are all of [lo, hi) when every draw accepts. */
  lemma {:induction false} KeptShape(lo: int, hi: int, keep: int -> bool)
    ensures StrictlyIncreasing(Kept(lo, hi, keep))
    ensures forall k :: 0 <= k < |Kept(lo, hi, keep)| ==> lo <= Kept(lo, hi, keep)[k] < hi
    ensures lo <= hi ==> |Kept(lo, hi, keep)| <= hi - lo
    ensures (forall i :: lo <= i < hi ==> keep(i)) ==>
      Kept(lo, hi, keep) == seq(if lo <= hi then hi - lo else 0, k => lo + k)
    decreases hi - lo
  {
    if lo < hi {
      KeptShape(lo, hi - 1, keep);
      var prefix := Kept(lo, hi - 1, keep);
      var s := Kept(lo, hi, keep);
      assert s == prefix + (if keep(hi - 1) then [hi - 1] else []);
      assert forall k :: 0 <= k < |prefix| ==> s[k] == prefix[k];
    }
  }

  /** The properties the generator's documentation promises. */
  lemma SubsetShape(extent: int, start: int, keep: int -> bool)
    ensures Subset(extent, start, keep) == [] <==> start >= extent
    ensures start < extent ==> Subset(extent, start, keep)[0] == start
    ensures StrictlyIncreasing(Subset(extent, start, keep))
    ensures forall k :: 0 <= k < |Subset(extent, start, keep)| ==> start <= Subset(extent, start, keep)[k] < extent
    ensures start < extent ==> |Subset(extent, start, keep)| <= extent - start
    ensures (forall i :: start < i < extent ==> keep(i)) ==>
      Subset(extent, start, keep) == seq(if start < extent then extent - start else 0, k => start + k)
  {
    KeptShape(start + 1, extent, keep);
    var rest := Kept(start + 1, extent, keep);
    var s := Subset(extent, start, keep);
    if start < extent {
      assert s == [start] + rest;
      assert forall k :: 0 < k < |s| ==> s[k] == rest[k - 1];
    }
  }

  /** The generator loop: `start` first, then every later element whose
      draw accepts it. */
  method CreateIndexedSubset(extent: int, start: int, keep: int -> bool) returns (indices: seq<int>)
    ensures indices == Subset(extent, start, keep)
    ensures indices == [] <==> start >= extent
    ensures StrictlyIncreasing(indices)
    ensures forall k :: 0 <= k < |indices| ==> start <= indices[k] < extent
  {
    indices := [];
    if start < extent {
      indices := [start];
      var i := start + 1;
      while i < extent
        invariant start + 1 <= i <= extent
        invariant indices == [start] + Kept(start + 1, i, keep)
      {
        if keep(i) {
          indices := indices + [i];
        }
        i := i + 1;
      }
    }
    SubsetShape(extent, start, keep);
  }
}
