/**
 * Test-access options, the seed derived from them, the order in which rows or
 * columns are visited, and the oracle that announces that order in advance.
 */
module AccessSequence {
  import opened Seqs

  /** `TestAccessOrder`. */
  datatype Order = Forward | Reverse | Random

  /** The underlying `char` value of each `TestAccessOrder` enumerator. */
  function OrderCode(o: Order): nat {
    match o
    case Forward => 0
    case Reverse => 1
    case Random => 2
  }

  /** `TestAccessOptions`. */
  datatype Options = Options(useOracle: bool, useRow: bool, order: Order, jump: int, checkSparse: bool)

  /** The member initialisers of `TestAccessOptions`. */
  const DefaultOptions: Options := Options(false, true, Forward, 1, true)

  /** `StandardTestAccessOptions`, the tuple (use_row, use_oracle, order, jump). */
  datatype StandardOptions = StandardOptions(useRow: bool, useOracle: bool, order: Order, jump: int)

  function Standardize(o: Options): StandardOptions {
    StandardOptions(o.useRow, o.useOracle, o.order, o.jump)
  }

  /** `convert_test_access_options`: the tuple's four fields, the rest defaulted. */
  function ConvertOptions(x: StandardOptions): (r: Options)
    ensures Standardize(r) == x
    ensures r.checkSparse == DefaultOptions.checkSparse
  {
    DefaultOptions.(useRow := x.useRow, useOracle := x.useOracle, order := x.order, jump := x.jump)
  }

  /** Converting back from the tuple loses nothing while `check_sparse` keeps its default. */
  lemma ConvertRoundTrip(o: Options)
    requires o.checkSparse
    ensures ConvertOptions(Standardize(o)) == o
  {
  }

  /** The options `test_simple_column_access` runs with. */
  function SimpleColumnAccessOptions(): (r: Options)
    ensures !r.useRow
    ensures r.(useRow := DefaultOptions.useRow) == DefaultOptions
  {
    DefaultOptions.(useRow := false)
  }

  /** The options `test_simple_row_access` runs with: as written it also sets
      `use_row = false`, although it is documented as the row-access test. */
  function SimpleRowAccessOptions(): (r: Options)
    ensures !r.useRow
    ensures r.(useRow := DefaultOptions.useRow) == DefaultOptions
  {
    DefaultOptions.(useRow := false)
  }

  /** Consequence of the quirk above: the "row" and "column" quick tests are the same test. */
  lemma SimpleRowAccessIsColumnAccess()
    ensures SimpleRowAccessOptions() == SimpleColumnAccessOptions()
  {
  }

  /** The options `test_simple_row_access` is documented to run with: the
      defaults, rows included. */
  function DocumentedRowAccessOptions(): (r: Options)
    ensures r.useRow
    ensures r.(useRow := false) == SimpleColumnAccessOptions()
  {
    DefaultOptions
  }

  /** The documented row test and the column test differ in the iterated dimension only. */
  lemma DocumentedRowAccessDiffersFromColumnAccess()
    ensures DocumentedRowAccessOptions() != SimpleColumnAccessOptions()
    ensures DocumentedRowAccessOptions() != SimpleRowAccessOptions()
  {
    assert DocumentedRowAccessOptions().useRow;
  }

  // ---------------------------------------------------------------------------
  // Seed arithmetic on uint64_t

  const Modulus: nat := 0x1_0000_0000_0000_0000

  /** Reduction into `uint64_t`: both `static_cast` and overflowing `+`/`*` land here. */
  function Wrap(x: int): (r: nat)
    ensures r < Modulus
  {
    x % Modulus
  }

  function BoolCode(b: bool): nat {
    if b then 1 else 0
  }

  lemma WrapShift(x: int, q: int)
    ensures Wrap(x + Modulus * q) == Wrap(x)
  {
  }

  lemma WrapAdd(a: int, b: int)
    ensures Wrap(Wrap(a) + Wrap(b)) == Wrap(a + b)
  {
    WrapShift(Wrap(a) + Wrap(b), a / Modulus + b / Modulus);
  }

  lemma WrapMul(a: int, b: int)
    ensures Wrap(Wrap(a) * Wrap(b)) == Wrap(a * b)
  {
    var qa, ra, qb, rb := a / Modulus, Wrap(a), b / Modulus, Wrap(b);
    assert a == Modulus * qa + ra;
    assert b == Modulus * qb + rb;
    assert a * b == ra * rb + Modulus * (qa * b + ra * qb) by {
      calc {
        a * b;
        (Modulus * qa + ra) * b;
        Modulus * qa * b + ra * b;
        Modulus * qa * b + ra * (Modulus * qb + rb);
        ra * rb + Modulus * (qa * b + ra * qb);
      }
    }
    WrapShift(ra * rb, qa * b + ra * qb);
  }

  /** The four wrapped accumulation steps of `create_seed` give the plain sum wrapped once. */
  lemma SeedIsWrappedSum(nr: nat, nc: nat, row: int, order: int, jump: int)
    ensures Wrap(Wrap(Wrap(Wrap(Wrap(nr) * Wrap(nc)) + Wrap(row)) + Wrap(order)) + Wrap(101 * Wrap(jump)))
         == Wrap(nr * nc + row + order + 101 * jump)
  {
    WrapMul(nr, nc);
    WrapMul(101, jump);
    assert Wrap(101) == 101;
    WrapAdd(nr * nc, row);
    WrapAdd(nr * nc + row, order);
    WrapAdd(nr * nc + row + order, 101 * jump);
  }

  /** `create_seed`, accumulated step by step in a `uint64_t`. */
  function CreateSeed(nr: nat, nc: nat, opt: Options): (seed: nat)
    ensures seed < Modulus
  {
    var product := Wrap(Wrap(nr) * Wrap(nc));
    var withRow := Wrap(product + Wrap(13 * BoolCode(opt.useRow)));
    var withOrder := Wrap(withRow + Wrap(57 * OrderCode(opt.order)));
    Wrap(withOrder + Wrap(101 * Wrap(opt.jump)))
  }

  /** The seed is NR*NC + 13*use_row + 57*order + 101*jump reduced once modulo 2^64:
      the intermediate wrap-arounds of the step-by-step accumulation do not matter. */
  lemma CreateSeedIsWrappedSum(nr: nat, nc: nat, opt: Options)
    ensures CreateSeed(nr, nc, opt)
         == (nr * nc + 13 * BoolCode(opt.useRow) + 57 * OrderCode(opt.order) + 101 * opt.jump) % Modulus
  {
    SeedIsWrappedSum(nr, nc, 13 * BoolCode(opt.useRow), 57 * OrderCode(opt.order), opt.jump);
  }

  // ---------------------------------------------------------------------------
  // Visiting sequences

  /** The extent of the dimension being iterated over. */
  function Limit(nr: nat, nc: nat, opt: Options): nat {
    if opt.useRow then nr else nc
  }

  /** The extent of the other dimension: columns when rows are iterated,
      rows otherwise. */
  function SecondaryExtent(nr: nat, nc: nat, opt: Options): nat {
    if opt.useRow then nc else nr
  }

  /** from, from + jump, from + 2*jump, ... while below `limit`. */
  function Strided(from: int, limit: int, jump: int): seq<int>
    requires jump >= 1
    decreases limit - from
  {
    if from >= limit then [] else [from] + Strided(from + jump, limit, jump)
  }

  /** from - 1, from - 1 - jump, ... while the counter stays positive. */
  function Descending(from: int, jump: int): seq<int>
    requires jump >= 1
    decreases from
  {
    if from <= 0 then [] else [from - 1] + Descending(from - jump, jump)
  }

  function Swap(s: seq<int>, i: nat, j: nat): (r: seq<int>)
    requires i < |s| && j < |s|
    ensures |r| == |s|
  {
    s[i := s[j]][j := s[i]]
  }

  /** The in-place shuffle from position `i` on: position i is exchanged with
      the position `draw(i) % (i + 1)` chosen by the engine, for i = 1, 2, ... */
  function ShuffleFrom(s: seq<int>, draw: nat -> nat, i: nat): (r: seq<int>)
    requires i >= 1
    ensures |r| == |s|
    decreases |s| - i
  {
    if i >= |s| then s else ShuffleFrom(Swap(s, i, draw(i) % (i + 1)), draw, i + 1)
  }

  /** `simulate_test_access_sequence`, with the engine seeded by a seed given as
      a function from seed to its stream of draws. */
  function VisitingSequence(nr: nat, nc: nat, opt: Options, engine: nat -> nat -> nat): seq<int>
    requires opt.jump >= 1
  {
    var limit := Limit(nr, nc, opt);
    if opt.order == Reverse then
      Descending(limit, opt.jump)
    else if opt.order == Random then
      ShuffleFrom(Strided(0, limit, opt.jump), engine(CreateSeed(nr, nc, opt)), 1)
    else
      Strided(0, limit, opt.jump)
  }

  method SimulateTestAccessSequence(nr: nat, nc: nat, opt: Options, engine: nat -> nat -> nat)
    returns (sequence: seq<int>)
    requires opt.jump >= 1
    ensures sequence == VisitingSequence(nr, nc, opt, engine)
  {
    sequence := [];
    var limit := Limit(nr, nc, opt);
    if opt.order == Reverse {
      var i: int := limit;
      while i > 0
        invariant sequence + Descending(i, opt.jump) == Descending(limit, opt.jump)
        decreases i
      {
        assert Descending(i, opt.jump) == [i - 1] + Descending(i - opt.jump, opt.jump);
        assert sequence + [i - 1] + Descending(i - opt.jump, opt.jump) == sequence + Descending(i, opt.jump);
        sequence := sequence + [i - 1];
        i := i - opt.jump;
      }
    } else {
      var i: int := 0;
      while i < limit
        invariant sequence + Strided(i, limit, opt.jump) == Strided(0, limit, opt.jump)
        decreases limit - i
      {
        assert Strided(i, limit, opt.jump) == [i] + Strided(i + opt.jump, limit, opt.jump);
        assert sequence + [i] + Strided(i + opt.jump, limit, opt.jump) == sequence + Strided(i, limit, opt.jump);
        sequence := sequence + [i];
        i := i + opt.jump;
      }
      assert Strided(i, limit, opt.jump) == [];
      assert sequence == Strided(0, limit, opt.jump);
      if opt.order == Random {
        var draw := engine(CreateSeed(nr, nc, opt));
        sequence := Shuffle(sequence, draw);
        assert sequence == ShuffleFrom(Strided(0, limit, opt.jump), draw, 1);
      }
    }
  }

  /** `std::shuffle` on the vector, with the engine's draws supplied as `draw`. */
  method Shuffle(s: seq<int>, draw: nat -> nat) returns (r: seq<int>)
    ensures r == ShuffleFrom(s, draw, 1)
  {
    r := s;
    var k := 1;
    while k < |r|
      invariant 1 <= k && |r| == |s|
      invariant ShuffleFrom(r, draw, k) == ShuffleFrom(s, draw, 1)
      decreases |r| - k
    {
      var j := draw(k) % (k + 1);
      r := r[k := r[j]][j := r[k]];
      k := k + 1;
    }
  }

  lemma {:induction false} StridedShape(from: int, limit: int, jump: int)
    requires jump >= 1
    ensures var s := Strided(from, limit, jump);
      && (s == [] <==> from >= limit)
      && (s != [] ==> s[0] == from && s[|s| - 1] < limit <= s[|s| - 1] + jump)
      && (forall k :: 0 < k < |s| ==> s[k] - s[k - 1] == jump)
      && (forall k :: 0 <= k < |s| ==> from <= s[k] < limit)
    decreases limit - from
  {
    if from < limit {
      StridedShape(from + jump, limit, jump);
    }
  }

  /** Forward order starts at 0, steps by `jump`, stays below the extent and
      stops only once another step would leave it; it is empty for an empty extent. */
  lemma ForwardShape(nr: nat, nc: nat, opt: Options, engine: nat -> nat -> nat)
    requires opt.jump >= 1 && opt.order == Forward
    ensures var s, limit := VisitingSequence(nr, nc, opt, engine), Limit(nr, nc, opt);
      && (s == [] <==> limit == 0)
      && (s != [] ==> s[0] == 0 && s[|s| - 1] + opt.jump >= limit)
      && (forall k :: 0 < k < |s| ==> s[k] - s[k - 1] == opt.jump)
      && (forall k :: 0 <= k < |s| ==> 0 <= s[k] < limit)
  {
    StridedShape(0, Limit(nr, nc, opt), opt.jump);
  }

  lemma {:induction false} DescendingShape(from: int, jump: int)
    requires jump >= 1
    ensures var s := Descending(from, jump);
      && (s == [] <==> from <= 0)
      && (s != [] ==> s[0] == from - 1 && s[|s| - 1] < jump)
      && (forall k :: 0 < k < |s| ==> s[k - 1] - s[k] == jump)
      && (forall k :: 0 <= k < |s| ==> 0 <= s[k] < from)
    decreases from
  {
    if from > 0 {
      var t := Descending(from - jump, jump);
      DescendingShape(from - jump, jump);
      var s := [from - 1] + t;
      assert Descending(from, jump) == s;
      assert forall k :: 0 < k < |s| ==> s[k] == t[k - 1];
      assert t != [] ==> t[0] == from - jump - 1;
      assert t == [] ==> s[|s| - 1] == from - 1 < jump;
      assert t != [] ==> s[|s| - 1] == t[|t| - 1];
    }
  }

  /** Reverse order starts at extent - 1, steps down by `jump`, never goes
      below 0 and ends below `jump`. */
  lemma ReverseShape(nr: nat, nc: nat, opt: Options, engine: nat -> nat -> nat)
    requires opt.jump >= 1 && opt.order == Reverse
    ensures var s, limit := VisitingSequence(nr, nc, opt, engine), Limit(nr, nc, opt);
      && (s == [] <==> limit == 0)
      && (s != [] ==> s[0] == limit - 1 && s[|s| - 1] < opt.jump)
      && (forall k :: 0 < k < |s| ==> s[k - 1] - s[k] == opt.jump)
      && (forall k :: 0 <= k < |s| ==> 0 <= s[k] < limit)
  {
    DescendingShape(Limit(nr, nc, opt), opt.jump);
  }

  lemma SwapPermutes(s: seq<int>, i: nat, j: nat)
    requires j <= i < |s|
    ensures multiset(Swap(s, i, j)) == multiset(s)
  {
    var t := s[i := s[j]];
    assert multiset(t) == multiset(s) - multiset{s[i]} + multiset{s[j]};
    assert multiset(t[j := s[i]]) == multiset(t) - multiset{t[j]} + multiset{s[i]};
  }

  lemma {:induction false} ShuffleFromPermutes(s: seq<int>, draw: nat -> nat, i: nat)
    requires i >= 1
    ensures multiset(ShuffleFrom(s, draw, i)) == multiset(s)
    decreases |s| - i
  {
    if i < |s| {
      var j := draw(i) % (i + 1);
      SwapPermutes(s, i, j);
      ShuffleFromPermutes(Swap(s, i, j), draw, i + 1);
    }
  }

  /** Random order visits exactly the positions forward order visits, each as often. */
  lemma RandomIsPermutationOfForward(nr: nat, nc: nat, opt: Options, engine: nat -> nat -> nat)
    requires opt.jump >= 1 && opt.order == Random
    ensures multiset(VisitingSequence(nr, nc, opt, engine))
         == multiset(VisitingSequence(nr, nc, opt.(order := Forward), engine))
  {
    ShuffleFromPermutes(Strided(0, Limit(nr, nc, opt), opt.jump), engine(CreateSeed(nr, nc, opt)), 1);
  }

  /** The seed and the sequence depend on neither `use_oracle` nor `check_sparse`. */
  lemma SequenceIgnoresOracleAndCheck(nr: nat, nc: nat, a: Options, b: Options, engine: nat -> nat -> nat)
    requires a.jump >= 1
    requires a.useRow == b.useRow && a.order == b.order && a.jump == b.jump
    ensures CreateSeed(nr, nc, a) == CreateSeed(nr, nc, b)
    ensures VisitingSequence(nr, nc, a, engine) == VisitingSequence(nr, nc, b, engine)
  {
  }

  // ---------------------------------------------------------------------------
  // Oracles

  /** `ConsecutiveOracle(start, length)` and `FixedViewOracle(sequence)`. */
  datatype Oracle = Consecutive(start: int, length: nat) | FixedView(indices: seq<int>)

  /** `tatami::MaybeOracle`: an oracle, or `false` when oracles are off. */
  datatype MaybeOracle = NoOracle | WithOracle(oracle: Oracle)

  /** The indices an oracle announces, in order. */
  function Predictions(o: Oracle): seq<int> {
    match o
    case Consecutive(start, length) => seq(length, k => start + k)
    case FixedView(indices) => indices
  }

  /** `create_oracle`; `useOracle` is the template flag `use_oracle_`. */
  function CreateOracle(useOracle: bool, sequence: seq<int>, opt: Options): (r: MaybeOracle)
    ensures r.WithOracle? <==> useOracle
    ensures r.WithOracle? ==> (r.oracle.Consecutive? <==> opt.jump == 1 && opt.order == Forward)
    ensures r.WithOracle? ==> |Predictions(r.oracle)| == |sequence|
  {
    if !useOracle then
      NoOracle
    else if opt.jump == 1 && opt.order == Forward then
      WithOracle(Consecutive(0, |sequence|))
    else
      WithOracle(FixedView(sequence))
  }

  lemma {:induction false} UnitStrideIsRun(from: int, limit: int)
    requires from <= limit
    ensures Strided(from, limit, 1) == seq(limit - from, k => from + k)
    decreases limit - from
  {
    if from < limit {
      UnitStrideIsRun(from + 1, limit);
    }
  }

  /** Whichever form `create_oracle` picks, the oracle announces exactly the visiting sequence. */
  lemma OraclePredictsSequence(nr: nat, nc: nat, opt: Options, engine: nat -> nat -> nat)
    requires opt.jump >= 1
    ensures var s := VisitingSequence(nr, nc, opt, engine);
      Predictions(CreateOracle(true, s, opt).oracle) == s
  {
    if opt.jump == 1 && opt.order == Forward {
      UnitStrideIsRun(0, Limit(nr, nc, opt));
    }
  }
}
