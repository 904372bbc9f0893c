/**
 * The sparse-to-dense expanders that `test_full_access`, `test_block_access`
 * and `test_indexed_access` hand to the harness, and the `reposition` map
 * that inverts an indexed subset.
 */
module Expand {
  import opened Values
  import opened Seqs

  /** `extent` copies of `fill`, then vals[k] written at slot pos[k] for
      k = 0, 1, ... in turn, so that a later write to a slot wins. */
  function Scatter<T>(pos: seq<int>, vals: seq<T>, fill: T, extent: nat): (r: seq<T>)
    requires |pos| == |vals|
    requires forall k :: 0 <= k < |pos| ==> 0 <= pos[k] < extent
    ensures |r| == extent
    decreases |pos|
  {
    if pos == [] then
      seq(extent, _ => fill)
    else
      var n := |pos| - 1;
      Scatter(pos[..n], vals[..n], fill, extent)[pos[n] := vals[n]]
  }

  /** With no slot written twice, slot pos[k] ends up holding vals[k]. */
  lemma {:induction false} ScatterAt<T>(pos: seq<int>, vals: seq<T>, fill: T, extent: nat, k: nat)
    requires |pos| == |vals|
    requires forall i :: 0 <= i < |pos| ==> 0 <= pos[i] < extent
    requires Distinct(pos)
    requires k < |pos|
    ensures Scatter(pos, vals, fill, extent)[pos[k]] == vals[k]
    decreases |pos|
  {
    var n := |pos| - 1;
    if k < n {
      ScatterAt(pos[..n], vals[..n], fill, extent, k);
    }
  }

  /** A slot that no write targets keeps the fill value. */
  lemma {:induction false} ScatterElsewhere<T>(pos: seq<int>, vals: seq<T>, fill: T, extent: nat, p: int)
    requires |pos| == |vals|
    requires forall i :: 0 <= i < |pos| ==> 0 <= pos[i] < extent
    requires 0 <= p < extent && p !in pos
    ensures Scatter(pos, vals, fill, extent)[p] == fill
    decreases |pos|
  {
    if pos != [] {
      var n := |pos| - 1;
      assert p != pos[n];
      assert forall i :: 0 <= i < n ==> pos[..n][i] == pos[i];
      ScatterElsewhere(pos[..n], vals[..n], fill, extent, p);
    }
  }

  lemma ScatterStep<T>(pos: seq<int>, vals: seq<T>, fill: T, extent: nat, i: nat)
    requires |pos| == |vals| && i < |pos|
    requires forall k :: 0 <= k < |pos| ==> 0 <= pos[k] < extent
    ensures Scatter(pos[..i + 1], vals[..i + 1], fill, extent)
         == Scatter(pos[..i], vals[..i], fill, extent)[pos[i] := vals[i]]
  {
    assert pos[..i + 1][..i] == pos[..i];
    assert vals[..i + 1][..i] == vals[..i];
  }

  /** The writing loop shared by the three expanders: `values[k]` stored at
      `positions[k]` in a zero vector of length `extent`, in order. */
  method Fill(positions: seq<int>, values: seq<Double>, extent: nat) returns (output: seq<Double>)
    requires |positions| == |values|
    requires forall k :: 0 <= k < |positions| ==> 0 <= positions[k] < extent
    ensures output == Scatter(positions, values, Zero, extent)
  {
    var buffer := new Double[extent](_ => Zero);
    var i := 0;
    assert buffer[..] == Scatter(positions[..0], values[..0], Zero, extent);
    while i < |positions|
      invariant 0 <= i <= |positions|
      invariant buffer[..] == Scatter(positions[..i], values[..i], Zero, extent)
    {
      ScatterStep(positions, values, Zero, extent, i);
      buffer[positions[i]] := values[i];
      i := i + 1;
    }
    assert positions[..i] == positions && values[..i] == values;
    output := buffer[..];
  }

  /** Slot of each sparse index inside a block that begins at `start`. */
  function Offsets(index: seq<int>, start: int): (r: seq<int>)
    ensures |r| == |index|
  {
    seq(|index|, k requires 0 <= k < |index| => index[k] - start)
  }

  /** In a block expansion of duplicate-free indices, value[k] sits at
      index[k] - start. */
  lemma BlockPlacesValues(index: seq<int>, value: seq<Double>, start: int, length: nat, k: nat)
    requires |index| <= |value| && Distinct(index) && k < |index|
    requires forall i :: 0 <= i < |index| ==> start <= index[i] < start + length
    ensures Scatter(Offsets(index, start), value[..|index|], Zero, length)[index[k] - start] == value[k]
  {
    var positions := Offsets(index, start);
    assert forall i :: 0 <= i < |index| ==> positions[i] == index[i] - start;
    ScatterAt(positions, value[..|index|], Zero, length, k);
  }

  /** A block expansion is zero wherever no index points. */
  lemma BlockPlacesZeros(index: seq<int>, value: seq<Double>, start: int, length: nat, p: int)
    requires |index| <= |value|
    requires forall i :: 0 <= i < |index| ==> start <= index[i] < start + length
    requires 0 <= p < length && p + start !in index
    ensures Scatter(Offsets(index, start), value[..|index|], Zero, length)[p] == Zero
  {
    var positions := Offsets(index, start);
    forall k | 0 <= k < |positions|
      ensures positions[k] != p
    {
      assert positions[k] + start == index[k];
    }
    ScatterElsewhere(positions, value[..|index|], Zero, length, p);
  }

  /** The block expander: a zero vector of the block's length with value[k]
      written at index[k] - start. */
  method ExpandBlock(index: seq<int>, value: seq<Double>, start: int, length: nat) returns (output: seq<Double>)
    requires |index| <= |value|
    requires forall k :: 0 <= k < |index| ==> start <= index[k] < start + length
    ensures output == Scatter(Offsets(index, start), value[..|index|], Zero, length)
    ensures Distinct(index) ==> forall k :: 0 <= k < |index| ==> output[index[k] - start] == value[k]
    ensures forall p :: 0 <= p < length && p + start !in index ==> output[p] == Zero
  {
    output := Fill(Offsets(index, start), value[..|index|], length);
    if Distinct(index) {
      forall k | 0 <= k < |index|
        ensures output[index[k] - start] == value[k]
      {
        BlockPlacesValues(index, value, start, length, k);
      }
    }
    forall p | 0 <= p < length && p + start !in index
      ensures output[p] == Zero
    {
      BlockPlacesZeros(index, value, start, length, p);
    }
  }

  /** The full expander: the block expander over the whole extent. */
  method ExpandFull(index: seq<int>, value: seq<Double>, nsecondary: nat) returns (output: seq<Double>)
    requires |index| <= |value|
    requires forall k :: 0 <= k < |index| ==> 0 <= index[k] < nsecondary
    ensures output == Scatter(index, value[..|index|], Zero, nsecondary)
    ensures Distinct(index) ==> forall k :: 0 <= k < |index| ==> output[index[k]] == value[k]
    ensures forall p :: 0 <= p < nsecondary && p !in index ==> output[p] == Zero
  {
    output := ExpandBlock(index, value, 0, nsecondary);
    assert Offsets(index, 0) == index;
    forall p | 0 <= p < nsecondary && p !in index
      ensures output[p] == Zero
    {
      assert p + 0 !in index;
    }
  }

  /** `size_t(-1)`, the filler of `reposition` for secondary positions outside the subset. */
  const NotSelected: nat := 0xFFFF_FFFF_FFFF_FFFF

  function Positions(n: nat): (r: seq<nat>)
    ensures |r| == n
  {
    seq(n, k => k)
  }

  /** The `reposition` loop of `test_indexed_access`: reposition[indices[i]] = i
      over a vector of `nsecondary` copies of `size_t(-1)`. */
  method BuildReposition(indices: seq<int>, nsecondary: nat) returns (reposition: seq<nat>)
    requires forall k :: 0 <= k < |indices| ==> 0 <= indices[k] < nsecondary
    ensures reposition == Scatter(indices, Positions(|indices|), NotSelected, nsecondary)
    ensures Distinct(indices) ==> forall i :: 0 <= i < |indices| ==> reposition[indices[i]] == i
    ensures forall p :: 0 <= p < nsecondary && p !in indices ==> reposition[p] == NotSelected
  {
    var buffer := new nat[nsecondary](_ => NotSelected);
    var n := |indices|;
    var order := Positions(n);
    var i := 0;
    assert buffer[..] == Scatter(indices[..0], order[..0], NotSelected, nsecondary);
    while i < n
      invariant 0 <= i <= n
      invariant buffer[..] == Scatter(indices[..i], order[..i], NotSelected, nsecondary)
    {
      ScatterStep(indices, order, NotSelected, nsecondary, i);
      buffer[indices[i]] := i;
      i := i + 1;
    }
    assert indices[..n] == indices && order[..n] == order;
    reposition := buffer[..];
    if Distinct(indices) {
      forall i | 0 <= i < n
        ensures reposition[indices[i]] == i
      {
        ScatterAt(indices, order, NotSelected, nsecondary, i);
      }
    }
    forall p | 0 <= p < nsecondary && p !in indices
      ensures reposition[p] == NotSelected
    {
      ScatterElsewhere(indices, order, NotSelected, nsecondary, p);
    }
  }

  /** For a duplicate-free subset, `reposition` inverts `indices`. */
  lemma RepositionInverts(indices: seq<int>, nsecondary: nat)
    requires Distinct(indices)
    requires forall j :: 0 <= j < |indices| ==> 0 <= indices[j] < nsecondary
    ensures var reposition := Scatter<nat>(indices, Positions(|indices|), NotSelected, nsecondary);
      forall j :: 0 <= j < |indices| ==> reposition[indices[j]] == j
  {
    forall j | 0 <= j < |indices|
      ensures Scatter<nat>(indices, Positions(|indices|), NotSelected, nsecondary)[indices[j]] == j
    {
      ScatterAt<nat>(indices, Positions(|indices|), NotSelected, nsecondary, j);
    }
  }

  /** Slot of each sparse index inside the indexed subset, looked up in `reposition`. */
  function Lookup(index: seq<int>, reposition: seq<int>): (r: seq<int>)
    requires forall k :: 0 <= k < |index| ==> 0 <= index[k] < |reposition|
    ensures |r| == |index|
  {
    seq(|index|, k requires 0 <= k < |index| => reposition[index[k]])
  }

  /** The indexed expander: a zero vector as long as the subset with
      value[k] written at reposition[index[k]]. */
  method ExpandIndexed(index: seq<int>, value: seq<Double>, reposition: seq<nat>, count: nat)
    returns (expected: seq<Double>)
    requires |index| <= |value|
    requires forall k :: 0 <= k < |index| ==> 0 <= index[k] < |reposition| && reposition[index[k]] < count
    ensures expected == Scatter(Lookup(index, reposition), value[..|index|], Zero, count)
  {
    expected := Fill(Lookup(index, reposition), value[..|index|], count);
  }

  /** For a duplicate-free subset `indices` and duplicate-free sparse indices
      drawn from it, the indexed expander puts value[k] at the subset position
      of index[k] and zero at every subset position the extraction skipped. */
  lemma IndexedExpansionPlacesValues(indices: seq<int>, nsecondary: nat, index: seq<int>, value: seq<Double>)
    requires Distinct(indices)
    requires forall j :: 0 <= j < |indices| ==> 0 <= indices[j] < nsecondary
    requires Distinct(index) && |index| <= |value|
    requires forall k :: 0 <= k < |index| ==> index[k] in indices
    ensures var reposition := Scatter<nat>(indices, Positions(|indices|), NotSelected, nsecondary);
      && (forall k :: 0 <= k < |index| ==> 0 <= index[k] < |reposition| && reposition[index[k]] < |indices|)
      && var r := Scatter(Lookup(index, reposition), value[..|index|], Zero, |indices|);
      && (forall k, j :: 0 <= k < |index| && 0 <= j < |indices| && indices[j] == index[k] ==> r[j] == value[k])
      && (forall j :: 0 <= j < |indices| && indices[j] !in index ==> r[j] == Zero)
  {
    var reposition := Scatter<nat>(indices, Positions(|indices|), NotSelected, nsecondary);
    RepositionInverts(indices, nsecondary);
    forall k | 0 <= k < |index|
      ensures 0 <= index[k] < |reposition| && reposition[index[k]] < |indices|
      ensures indices[reposition[index[k]]] == index[k]
    {
      var j :| 0 <= j < |indices| && indices[j] == index[k];
      assert reposition[indices[j]] == j;
    }
    var positions := Lookup(index, reposition);
    assert Distinct(positions);
    var r := Scatter(positions, value[..|index|], Zero, |indices|);
    forall k, j | 0 <= k < |index| && 0 <= j < |indices| && indices[j] == index[k]
      ensures r[j] == value[k]
    {
      assert positions[k] == j;
      ScatterAt(positions, value[..|index|], Zero, |indices|, k);
    }
    forall j | 0 <= j < |indices| && indices[j] !in index
      ensures r[j] == Zero
    {
      forall k | 0 <= k < |positions|
        ensures positions[k] != j
      {
        assert indices[positions[k]] == index[k];
      }
      ScatterElsewhere(positions, value[..|index|], Zero, |indices|, j);
    }
  }
}
