/**
 * `simulate_compressed_sparse`: the `data`/`index`/`indptr` triple of a
 * compressed sparse matrix built cell by cell from random draws.  The draws
 * are an input here: `draw(p, s)` says whether cell (p, s) came out non-zero
 * and, if so, the value drawn for it.
 */
module CompressedSparse {
  import opened Values
  import opened Seqs

  /** The draws for one cell: a structural zero, or a non-zero value. */
  datatype Cell = Empty | Filled(value: Double)

  /** `SimulateCompressedSparseResult`. */
  datatype Compressed = Compressed(data: seq<Double>, index: seq<int>, indptr: seq<int>)

  /** Secondary positions of the non-zero cells among (p, 0), ..., (p, s - 1). */
  function SliceIndices(p: int, s: nat, draw: (int, int) -> Cell): seq<int> {
    if s == 0 then [] else SliceIndices(p, s - 1, draw) + (if draw(p, s - 1).Filled? then [s - 1] else [])
  }

  /** Values of the non-zero cells among (p, 0), ..., (p, s - 1). */
  function SliceValues(p: int, s: nat, draw: (int, int) -> Cell): seq<Double> {
    if s == 0 then [] else SliceValues(p, s - 1, draw) + (if draw(p, s - 1).Filled? then [draw(p, s - 1).value] else [])
  }

  /** The triple after the first `p` primary elements. */
  function Rows(p: nat, secondary: nat, draw: (int, int) -> Cell): (r: Compressed)
    ensures |r.indptr| == p + 1
  {
    if p == 0 then
      Compressed([], [], [0])
    else
      Extended(Rows(p - 1, secondary, draw), p - 1, secondary, draw)
  }

  /** The structural promises of a compressed sparse triple. */
  predicate WellFormed(c: Compressed, primary: nat, secondary: nat) {
    && |c.indptr| == primary + 1
    && c.indptr[0] == 0
    && |c.data| == |c.index|
    && c.indptr[primary] == |c.index|
    && (forall p :: 0 <= p < primary ==> c.indptr[p] <= c.indptr[p + 1] <= c.indptr[p] + secondary)
    && (forall p :: 0 <= p <= primary ==> 0 <= c.indptr[p] <= |c.index|)
    && (forall k :: 0 <= k < |c.index| ==> 0 <= c.index[k] < secondary)
    && (forall p :: 0 <= p < primary ==> StrictlyIncreasing(c.index[c.indptr[p]..c.indptr[p + 1]]))
  }

  /** Slice p of a well-formed triple holds exactly the non-zero draws of row p. */
  predicate HoldsDraws(c: Compressed, primary: nat, secondary: nat, draw: (int, int) -> Cell)
    requires WellFormed(c, primary, secondary)
  {
    forall p :: 0 <= p < primary ==>
      && c.index[c.indptr[p]..c.indptr[p + 1]] == SliceIndices(p, secondary, draw)
      && c.data[c.indptr[p]..c.indptr[p + 1]] == SliceValues(p, secondary, draw)
  }

  /** A slice lists, in increasing order, exactly the positions whose draw was
      non-zero, each with its drawn value. */
  lemma {:induction false} SliceShape(p: int, s: nat, draw: (int, int) -> Cell)
    ensures |SliceValues(p, s, draw)| == |SliceIndices(p, s, draw)| <= s
    ensures StrictlyIncreasing(SliceIndices(p, s, draw))
    ensures forall k :: 0 <= k < |SliceIndices(p, s, draw)| ==>
      && 0 <= SliceIndices(p, s, draw)[k] < s
      && draw(p, SliceIndices(p, s, draw)[k]) == Filled(SliceValues(p, s, draw)[k])
    ensures forall j :: 0 <= j < s ==> (j in SliceIndices(p, s, draw) <==> draw(p, j).Filled?)
  {
    if s > 0 {
      SliceShape(p, s - 1, draw);
      var prefix, values := SliceIndices(p, s - 1, draw), SliceValues(p, s - 1, draw);
      var indices := SliceIndices(p, s, draw);
      if draw(p, s - 1).Filled? {
        assert indices == prefix + [s - 1];
        assert SliceValues(p, s, draw) == values + [draw(p, s - 1).value];
      } else {
        assert indices == prefix;
        assert SliceValues(p, s, draw) == values;
      }
    }
  }

  /** The triple after one more primary element, built from the one before. */
  function Extended(prev: Compressed, p: nat, secondary: nat, draw: (int, int) -> Cell): (next: Compressed)
    requires |prev.indptr| == p + 1
    ensures |next.indptr| == p + 2
  {
    var slice := SliceIndices(p, secondary, draw);
    Compressed(prev.data + SliceValues(p, secondary, draw), prev.index + slice,
               prev.indptr + [prev.indptr[p] + |slice|])
  }

  lemma ExtendKeepsBounds(prev: Compressed, p: nat, secondary: nat, draw: (int, int) -> Cell)
    requires WellFormed(prev, p, secondary)
    ensures var next := Extended(prev, p, secondary, draw);
      && |next.data| == |next.index|
      && next.indptr[p + 1] == |next.index|
      && (forall q :: 0 <= q < p + 1 ==> next.indptr[q] <= next.indptr[q + 1] <= next.indptr[q] + secondary)
      && (forall q :: 0 <= q <= p + 1 ==> 0 <= next.indptr[q] <= |next.index|)
      && (forall k :: 0 <= k < |next.index| ==> 0 <= next.index[k] < secondary)
  {
    SliceShape(p, secondary, draw);
    var slice := SliceIndices(p, secondary, draw);
    var next := Extended(prev, p, secondary, draw);
    assert forall q :: 0 <= q <= p ==> next.indptr[q] == prev.indptr[q];
    forall k | 0 <= k < |next.index|
      ensures 0 <= next.index[k] < secondary
    {
      if k >= |prev.index| {
        assert next.index[k] == slice[k - |prev.index|];
      }
    }
  }

  lemma ExtendKeepsSlices(prev: Compressed, next: Compressed, p: nat, secondary: nat, draw: (int, int) -> Cell)
    requires WellFormed(prev, p, secondary) && HoldsDraws(prev, p, secondary, draw)
    requires next == Extended(prev, p, secondary, draw)
    requires |next.data| == |next.index| && forall q :: 0 <= q <= p + 1 ==> 0 <= next.indptr[q] <= |next.index|
    requires forall q :: 0 <= q <= p ==> next.indptr[q] <= next.indptr[q + 1]
    ensures forall q :: 0 <= q <= p ==>
      && next.index[next.indptr[q]..next.indptr[q + 1]] == SliceIndices(q, secondary, draw)
      && next.data[next.indptr[q]..next.indptr[q + 1]] == SliceValues(q, secondary, draw)
  {
    assert next.index[next.indptr[p]..next.indptr[p + 1]] == SliceIndices(p, secondary, draw);
    assert next.data[next.indptr[p]..next.indptr[p + 1]] == SliceValues(p, secondary, draw);
    forall q | 0 <= q < p
      ensures next.index[next.indptr[q]..next.indptr[q + 1]] == SliceIndices(q, secondary, draw)
      ensures next.data[next.indptr[q]..next.indptr[q + 1]] == SliceValues(q, secondary, draw)
    {
      assert next.indptr[q] == prev.indptr[q] && next.indptr[q + 1] == prev.indptr[q + 1];
      assert next.index[next.indptr[q]..next.indptr[q + 1]] == prev.index[prev.indptr[q]..prev.indptr[q + 1]];
      assert next.data[next.indptr[q]..next.indptr[q + 1]] == prev.data[prev.indptr[q]..prev.indptr[q + 1]];
    }
  }

  lemma ExtendWellFormed(prev: Compressed, p: nat, secondary: nat, draw: (int, int) -> Cell)
    requires WellFormed(prev, p, secondary) && HoldsDraws(prev, p, secondary, draw)
    ensures WellFormed(Extended(prev, p, secondary, draw), p + 1, secondary)
    ensures HoldsDraws(Extended(prev, p, secondary, draw), p + 1, secondary, draw)
  {
    var next := Extended(prev, p, secondary, draw);
    ExtendKeepsBounds(prev, p, secondary, draw);
    ExtendKeepsSlices(prev, next, p, secondary, draw);
    forall q | 0 <= q < p + 1
      ensures StrictlyIncreasing(next.index[next.indptr[q]..next.indptr[q + 1]])
    {
      SliceShape(q, secondary, draw);
    }
  }

  /** Whatever the draws, the triple is well formed and holds the draws. */
  lemma {:induction false} RowsShape(p: nat, secondary: nat, draw: (int, int) -> Cell)
    ensures WellFormed(Rows(p, secondary, draw), p, secondary)
    ensures HoldsDraws(Rows(p, secondary, draw), p, secondary, draw)
  {
    if p > 0 {
      RowsShape(p - 1, secondary, draw);
      ExtendWellFormed(Rows(p - 1, secondary, draw), p - 1, secondary, draw);
    }
  }

  /** The inner loop for primary element p: every non-zero cell's value and
      secondary position appended, and the running count `idx` advanced. */
  method AppendSlice(p: int, secondary: nat, draw: (int, int) -> Cell, data: seq<Double>, index: seq<int>, idx: int)
    returns (data': seq<Double>, index': seq<int>, idx': int)
    ensures data' == data + SliceValues(p, secondary, draw)
    ensures index' == index + SliceIndices(p, secondary, draw)
    ensures idx' == idx + |SliceIndices(p, secondary, draw)|
  {
    data', index', idx' := data, index, idx;
    var s := 0;
    while s < secondary
      invariant 0 <= s <= secondary
      invariant data' == data + SliceValues(p, s, draw)
      invariant index' == index + SliceIndices(p, s, draw)
      invariant idx' == idx + |SliceIndices(p, s, draw)|
    {
      if draw(p, s).Filled? {
        data' := data' + [draw(p, s).value];
        index' := index' + [s];
        idx' := idx' + 1;
      }
      s := s + 1;
    }
  }

  /** One more primary element appends its slice and its end offset. */
  lemma RowsNext(p: nat, secondary: nat, draw: (int, int) -> Cell, data: seq<Double>, index: seq<int>, offsets: seq<int>)
    requires Rows(p, secondary, draw) == Compressed(data, index, offsets)
    ensures Rows(p + 1, secondary, draw) ==
      Compressed(data + SliceValues(p, secondary, draw), index + SliceIndices(p, secondary, draw),
                 offsets + [offsets[p] + |SliceIndices(p, secondary, draw)|])
  {
  }

  /** The construction loop: `indptr` sized to primary + 1, then for every
      primary element the non-zero cells appended to `data` and `index` and
      the running count stored as the element's end offset.  What the
      triple then satisfies is `RowsShape`'s. */
  method SimulateCompressedSparse(primary: nat, secondary: nat, draw: (int, int) -> Cell) returns (output: Compressed)
    ensures output == Rows(primary, secondary, draw)
  {
    var data: seq<Double> := [];
    var index: seq<int> := [];
    var indptr := new int[primary + 1](_ => 0);
    ghost var offsets := [0];
    var p := 0;
    while p < primary
      invariant 0 <= p <= primary
      invariant Rows(p, secondary, draw) == Compressed(data, index, offsets)
      invariant |offsets| == p + 1 && forall q :: 0 <= q <= p ==> indptr[q] == offsets[q]
    {
      RowsNext(p, secondary, draw, data, index, offsets);
      var idx := indptr[p];
      data, index, idx := AppendSlice(p, secondary, draw, data, index, idx);
      indptr[p + 1] := idx;
      offsets := offsets + [idx];
      p := p + 1;
    }
    assert indptr[..] == offsets;
    output := Compressed(data, index, indptr[..]);
  }
}
