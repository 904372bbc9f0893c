/**
 * `ReversedIndicesWrapper`: a matrix wrapper whose sparse extractors report
 * the structural non-zeros in reverse order whenever the caller does not ask
 * for ordered indices.
 */
module ReversedIndices {
  import opened Values
  import opened Seqs
  import opened Fetch

  /** `std::reverse` on the first `n` slots of an array. */
  method ReverseInPlace<T>(a: array<T>, n: nat)
    requires n <= a.Length
    modifies a
    ensures a[..n] == Reversed(old(a[..n]))
    ensures a[n..] == old(a[n..])
  {
    ghost var original := a[..n];
    var lo, hi := 0, n;
    while lo + 1 < hi
      invariant 0 <= lo <= hi <= n && lo + hi == n
      invariant forall k :: 0 <= k < lo ==> a[k] == original[n - 1 - k] && a[n - 1 - k] == original[k]
      invariant forall k :: lo <= k < hi ==> a[k] == original[k]
      invariant forall k :: n <= k < a.Length ==> a[k] == old(a[k])
    {
      a[lo], a[hi - 1] := a[hi - 1], a[lo];
      lo, hi := lo + 1, hi - 1;
    }
    forall k | 0 <= k < n
      ensures a[k] == Reversed(original)[k]
    {
      ReversedAt(original, k);
    }
  }

  /** What the caller holds after one `fetch`: the range returned and both
      of its buffers. */
  datatype Fetched = Fetched(range: SparseRange, values: seq<Double>, indices: seq<int>)

  /** Every present channel of the host's range can be copied from. */
  predicate HostReadable(host: SparseRange, vbuffer: seq<Double>, ibuffer: seq<int>) {
    && (!host.value.Null? ==> host.number <= |vbuffer| && Readable(host.value, vbuffer, host.number))
    && (!host.index.Null? ==> host.number <= |ibuffer| && Readable(host.index, ibuffer, host.number))
  }

  /** A buffer after one channel was copied into it and reversed there. */
  function ReversedChannel<T>(p: Pointer<T>, n: nat, buffer: seq<T>): (r: seq<T>)
    requires n <= |buffer| && Readable(p, buffer, n)
    ensures |r| == |buffer|
  {
    Reversed(View(p, buffer)[..n]) + buffer[n..]
  }

  /** The outcome of the extractor's `fetch`, given the host's range and the
      buffers as the host left them. */
  function ReversingFetch(mustSort: bool, host: SparseRange, vbuffer: seq<Double>, ibuffer: seq<int>): Fetched
    requires !mustSort ==> HostReadable(host, vbuffer, ibuffer)
  {
    if mustSort then Fetched(host, vbuffer, ibuffer)
    else
      Fetched(
        SparseRange(host.number,
                    if host.value.Null? then Null else CallerBuffer,
                    if host.index.Null? then Null else CallerBuffer),
        if host.value.Null? then vbuffer else ReversedChannel(host.value, host.number, vbuffer),
        if host.index.Null? then ibuffer else ReversedChannel(host.index, host.number, ibuffer))
  }

  /** `ReversedIndicesExtractor`, myopic and oracular alike: it owns a host
      extractor and remembers whether ordered indices were requested. */
  class ReversedIndicesExtractor {
    const mustSort: bool

    constructor(mustSort: bool)
      ensures this.mustSort == mustSort
    {
      this.mustSort := mustSort;
    }

    /** `fetch`.  The host's own `fetch` has already run on the same buffers:
        `host` is the range it returned and the buffers hold what it wrote.
        Unless ordering is required, each present channel is copied into its
        buffer, reversed there, and pointed at that buffer. */
    method Fetch(host: SparseRange, vbuffer: array<Double>, ibuffer: array<int>) returns (range: SparseRange)
      requires !mustSort && !host.value.Null? ==>
        host.number <= vbuffer.Length && Readable(host.value, vbuffer[..], host.number)
      requires !mustSort && !host.index.Null? ==>
        host.number <= ibuffer.Length && Readable(host.index, ibuffer[..], host.number)
      modifies vbuffer, ibuffer
      ensures mustSort ==> range == host && unchanged(vbuffer) && unchanged(ibuffer)
      ensures range.number == host.number
      ensures range.value.Null? <==> host.value.Null?
      ensures range.index.Null? <==> host.index.Null?
      ensures host.value.Null? ==> unchanged(vbuffer)
      ensures host.index.Null? ==> unchanged(ibuffer)
      ensures !mustSort && !host.value.Null? ==>
        && range.value == CallerBuffer
        && vbuffer[..host.number] == Reversed(View(host.value, old(vbuffer[..]))[..host.number])
        && vbuffer[host.number..] == old(vbuffer[host.number..])
      ensures !mustSort && !host.index.Null? ==>
        && range.index == CallerBuffer
        && ibuffer[..host.number] == Reversed(View(host.index, old(ibuffer[..]))[..host.number])
        && ibuffer[host.number..] == old(ibuffer[host.number..])
      ensures Fetched(range, vbuffer[..], ibuffer[..]) == ReversingFetch(mustSort, host, old(vbuffer[..]), old(ibuffer[..]))
    {
      range := host;
      if !mustSort {
        if !range.value.Null? {
          CopyN(range.value, range.number, vbuffer);
          ReverseInPlace(vbuffer, range.number);
          range := range.(value := CallerBuffer);
        }
        if !range.index.Null? {
          CopyN(range.index, range.number, ibuffer);
          ReverseInPlace(ibuffer, range.number);
          range := range.(index := CallerBuffer);
        }
      }
    }
  }

  /** Output position k of a reversed extraction holds the host's pair n-1-k,
      and reversing twice gives the host's order back. */
  lemma ReversalKeepsPairs(values: seq<Double>, indices: seq<int>, k: nat)
    requires |values| == |indices| && k < |indices|
    ensures Reversed(indices)[k] == indices[|indices| - 1 - k]
    ensures Reversed(values)[k] == values[|values| - 1 - k]
    ensures Reversed(Reversed(indices)) == indices && Reversed(Reversed(values)) == values
  {
    ReversedAt(indices, k);
    ReversedAt(values, k);
    ReversedInvolution(indices);
    ReversedInvolution(values);
  }

  /** The extent selections an extractor can be made for. */
  datatype Selection = FullSelection | BlockSelection | IndexSelection

  /** What can be asked of `ReversedIndicesWrapper`: a metadata query
      (`nrow`, `ncol`, `is_sparse`, `prefer_rows`, `uses_oracle`, and the
      proportions) or one of its twelve extractor overloads. */
  datatype Request =
    | Metadata
    | DenseExtractor(oracular: bool, selection: Selection)
    | SparseExtractor(oracular: bool, selection: Selection)

  /** How the wrapper answers: by the wrapped matrix unchanged, or by a
      `ReversedIndicesExtractor` around the wrapped matrix's extractor. */
  datatype Answer = Delegated | Wrapped(mustSort: bool)

  /** Every sparse overload, myopic or oracular, wraps the host with
      `must_sort = opt.sparse_ordered_index`; everything else delegates. */
  function AnswerFor(request: Request, sparseOrderedIndex: bool): (r: Answer)
    ensures r.Wrapped? <==> request.SparseExtractor?
    ensures r.Wrapped? ==> r.mustSort == sparseOrderedIndex
  {
    match request
    case SparseExtractor(_, _) => Wrapped(sparseOrderedIndex)
    case _ => Delegated
  }

  /** What a caller of the wrapper holds after one `fetch` of the extractor
      it was given, when the wrapped matrix's own extractor returned `host`
      and left the buffers as they are. */
  function Received(answer: Answer, host: SparseRange, vbuffer: seq<Double>, ibuffer: seq<int>): Fetched
    requires HostReadable(host, vbuffer, ibuffer)
  {
    match answer
    case Delegated => Fetched(host, vbuffer, ibuffer)
    case Wrapped(mustSort) => ReversingFetch(mustSort, host, vbuffer, ibuffer)
  }

  /** The wrapper's behaviour as its callers see it.  Requests that are not
      sparse, and sparse requests with ordered indices, receive the wrapped
      matrix's output untouched.  Sparse requests without ordered indices
      receive every present channel reversed, read through their own
      buffers.  Myopic and oracular sparse requests behave alike. */
  lemma WrapperFetches(request: Request, sparseOrderedIndex: bool, host: SparseRange,
                       vbuffer: seq<Double>, ibuffer: seq<int>)
    requires HostReadable(host, vbuffer, ibuffer)
    ensures !request.SparseExtractor? || sparseOrderedIndex ==>
      Received(AnswerFor(request, sparseOrderedIndex), host, vbuffer, ibuffer) == Fetched(host, vbuffer, ibuffer)
    ensures request.SparseExtractor? && !sparseOrderedIndex ==>
      var f := Received(AnswerFor(request, sparseOrderedIndex), host, vbuffer, ibuffer);
      && f.range.number == host.number
      && (f.range.value.Null? <==> host.value.Null?)
      && (f.range.index.Null? <==> host.index.Null?)
      && (!host.value.Null? ==>
            host.number <= |View(f.range.value, f.values)| &&
            View(f.range.value, f.values)[..host.number] == Reversed(View(host.value, vbuffer)[..host.number]))
      && (!host.index.Null? ==>
            host.number <= |View(f.range.index, f.indices)| &&
            View(f.range.index, f.indices)[..host.number] == Reversed(View(host.index, ibuffer)[..host.number]))
    ensures request.SparseExtractor? ==>
      Received(AnswerFor(request, sparseOrderedIndex), host, vbuffer, ibuffer) ==
      Received(AnswerFor(SparseExtractor(!request.oracular, request.selection), sparseOrderedIndex), host, vbuffer, ibuffer)
  {
  }
}
