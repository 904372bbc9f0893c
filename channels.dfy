/**
 * The three single-channel cross-checks shared by `test_access_base` and
 * `test_unsorted_access_base`: an extractor asked for indices only, one asked
 * for values only, and one asked for neither.
 */
module Channels {
  import opened Values
  import opened Fetch

  datatype Option<T> = None | Some(value: T)

  /** The indices-only call: its value pointer must be null (a fatal check),
      after which its indices are copied into the caller's vector of `extent`
      slots and the vector is shrunk to `number`. */
  method IndicesOnly(call: SparseCall) returns (indices: Option<seq<int>>)
    requires call.range.value.Null? ==>
      call.range.number <= |call.indexBuffer| && Readable(call.range.index, call.indexBuffer, call.range.number)
    ensures indices.Some? <==> call.range.value.Null?
    ensures indices.Some? ==> indices.value == SparseIndices(call)
  {
    if !call.range.value.Null? {
      return None;
    }
    var buffer := new int[|call.indexBuffer|](k requires 0 <= k < |call.indexBuffer| => call.indexBuffer[k]);
    CopyN(call.range.index, call.range.number, buffer);
    indices := Some(buffer[..call.range.number]);
  }

  /** The values-only call: its index pointer must be null (a fatal check),
      after which its values are copied and the vector shrunk to `number`. */
  method ValuesOnly(call: SparseCall) returns (values: Option<seq<Double>>)
    requires call.range.index.Null? ==>
      call.range.number <= |call.valueBuffer| && Readable(call.range.value, call.valueBuffer, call.range.number)
    ensures values.Some? <==> call.range.index.Null?
    ensures values.Some? ==> values.value == SparseValues(call)
  {
    if !call.range.index.Null? {
      return None;
    }
    var buffer := new Double[|call.valueBuffer|](k requires 0 <= k < |call.valueBuffer| => call.valueBuffer[k]);
    CopyN(call.range.value, call.range.number, buffer);
    values := Some(buffer[..call.range.number]);
  }

  /** What the caller may dereference in the indices-only call. */
  predicate IndicesOnlyReadable(call: SparseCall) {
    call.range.value.Null? ==>
      call.range.number <= |call.indexBuffer| && Readable(call.range.index, call.indexBuffer, call.range.number)
  }

  /** What the caller may dereference in the values-only call. */
  predicate ValuesOnlyReadable(call: SparseCall) {
    call.range.index.Null? ==>
      call.range.number <= |call.valueBuffer| && Readable(call.range.value, call.valueBuffer, call.range.number)
  }

  /** The indices-only call reports no values and exactly `expected` as indices. */
  predicate IndicesOnlyAgree(call: SparseCall, expected: seq<int>)
    requires IndicesOnlyReadable(call)
  {
    call.range.value.Null? && SparseIndices(call) == expected
  }

  /** The neither call reports null for both channels and `count` non-zeros. */
  predicate NeitherAgrees(range: SparseRange, count: nat) {
    range.value.Null? && range.index.Null? && range.number == count
  }
}
