/**
 * Extraction results as `fetch.hpp` receives them, and the copy-and-trim
 * helpers that turn them into owned vectors.
 *
 * An extractor is not modelled as code: one call to its `fetch` is described
 * by what it leaves in the caller's buffers and by the pointers it returns.
 */
module Fetch {
  import opened Values

  /** Where a pointer returned by an extractor points: nowhere (an absent
      channel), at the caller's own buffer, or at storage of the extractor's
      own whose contents are `view`. */
  datatype Pointer<T> = Null | CallerBuffer | Elsewhere(view: seq<T>)

  /** `tatami::SparseRange`: the number of structural non-zeros and the two
      channels holding their values and indices. */
  datatype SparseRange = SparseRange(number: nat, value: Pointer<Double>, index: Pointer<int>)

  /** One call to a dense extractor's `fetch`: the caller's buffer after the
      call and the pointer the call returned. */
  datatype DenseCall = DenseCall(buffer: seq<Double>, result: Pointer<Double>)

  /** One call to a sparse extractor's `fetch`: both caller buffers after the
      call and the range the call returned. */
  datatype SparseCall = SparseCall(valueBuffer: seq<Double>, indexBuffer: seq<int>, range: SparseRange)

  /** What the caller reads through a non-null pointer. */
  function View<T>(p: Pointer<T>, buffer: seq<T>): seq<T>
    requires !p.Null?
  {
    if p.Elsewhere? then p.view else buffer
  }

  /** `number` elements can be read through `p`. */
  predicate Readable<T>(p: Pointer<T>, buffer: seq<T>, number: nat) {
    !p.Null? && number <= |View(p, buffer)|
  }

  /** `tatami::copy_n` into an array: nothing is copied when the source is the
      destination itself. */
  method CopyN<T>(source: Pointer<T>, number: nat, buffer: array<T>)
    requires Readable(source, buffer[..], number) && number <= buffer.Length
    modifies buffer
    ensures buffer[..number] == View(source, old(buffer[..]))[..number]
    ensures buffer[number..] == old(buffer[number..])
  {
    if source.Elsewhere? {
      var k := 0;
      while k < number
        invariant 0 <= k <= number
        invariant forall j :: 0 <= j < k ==> buffer[j] == source.view[j]
        invariant forall j :: k <= j < buffer.Length ==> buffer[j] == old(buffer[j])
      {
        buffer[k] := source.view[k];
        k := k + 1;
      }
    }
  }

  /** `tatami::copy_n` into a vector, as a value: the first `number` slots of
      `buffer` replaced by what `source` shows. */
  function CopiedN<T>(source: Pointer<T>, number: nat, buffer: seq<T>): (r: seq<T>)
    requires Readable(source, buffer, number) && number <= |buffer|
    ensures |r| == |buffer|
    ensures r[..number] == View(source, buffer)[..number] && r[number..] == buffer[number..]
  {
    if source.Elsewhere? then source.view[..number] + buffer[number..] else buffer
  }

  /** The dense `fetch` overloads (myopic and oracular alike): a buffer of
      `number` elements is handed to the extractor and the first `number`
      elements of whatever it returned are copied into it. */
  method FetchDense(call: DenseCall, number: nat) returns (output: seq<Double>)
    requires |call.buffer| == number
    requires Readable(call.result, call.buffer, number)
    ensures output == DenseValues(call, number)
    ensures call.result.CallerBuffer? ==> output == call.buffer
    ensures call.result.Elsewhere? ==> output == call.result.view[..number]
  {
    var buffer := new Double[number](k requires 0 <= k < number => call.buffer[k]);
    CopyN(call.result, number, buffer);
    output := buffer[..];
  }

  /** The `number` values a dense call reports. */
  function DenseValues(call: DenseCall, number: nat): (r: seq<Double>)
    requires Readable(call.result, call.buffer, number)
    ensures |r| == number
  {
    View(call.result, call.buffer)[..number]
  }

  /** `SparseVector`: owned values and indices of the structural non-zeros. */
  class SparseVector {
    var value: seq<Double>
    var index: seq<int>

    /** Both vectors sized to `n`, value-initialised. */
    constructor(n: nat)
      ensures value == seq(n, _ => Zero) && index == seq(n, _ => 0)
    {
      value := seq(n, _ => Zero);
      index := seq(n, _ => 0);
    }

    /** `trim_sparse`: copy both channels of `raw` into the vectors and
        shrink the vectors to `raw.number`. */
    method Trim(raw: SparseRange)
      requires raw.number <= |value| && Readable(raw.value, value, raw.number)
      requires raw.number <= |index| && Readable(raw.index, index, raw.number)
      modifies this
      ensures |value| == raw.number && |index| == raw.number
      ensures forall k :: 0 <= k < raw.number ==> value[k] == View(raw.value, old(value))[k]
      ensures forall k :: 0 <= k < raw.number ==> index[k] == View(raw.index, old(index))[k]
    {
      value := CopiedN(raw.value, raw.number, value);
      value := value[..raw.number];
      index := CopiedN(raw.index, raw.number, index);
      index := index[..raw.number];
    }
  }

  /** Both channels of a sparse call can be read for `number` elements. */
  predicate SparseReadable(call: SparseCall, number: nat) {
    && |call.valueBuffer| == number && |call.indexBuffer| == number
    && call.range.number <= number
    && Readable(call.range.value, call.valueBuffer, call.range.number)
    && Readable(call.range.index, call.indexBuffer, call.range.number)
  }

  /** The values a sparse call reports, `number` of them. */
  function SparseValues(call: SparseCall): (r: seq<Double>)
    requires Readable(call.range.value, call.valueBuffer, call.range.number)
    ensures |r| == call.range.number
  {
    View(call.range.value, call.valueBuffer)[..call.range.number]
  }

  /** The indices a sparse call reports, `number` of them. */
  function SparseIndices(call: SparseCall): (r: seq<int>)
    requires Readable(call.range.index, call.indexBuffer, call.range.number)
    ensures |r| == call.range.number
  {
    View(call.range.index, call.indexBuffer)[..call.range.number]
  }

  /** The sparse `fetch` overloads (myopic and oracular alike): a
      `SparseVector(number)` is handed to the extractor, then trimmed to the
      range it returned. */
  method FetchSparse(call: SparseCall, number: nat) returns (output: SparseVector)
    requires SparseReadable(call, number)
    ensures fresh(output)
    ensures output.value == SparseValues(call) && output.index == SparseIndices(call)
  {
    output := new SparseVector(number);
    output.value, output.index := call.valueBuffer, call.indexBuffer;
    output.Trim(call.range);
  }
}
