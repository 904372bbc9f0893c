/**
 * `manual_transpose` from the access tests: a row-major NR x NC matrix
 * copied into column-major order, used to build the reference matrix.
 */
module ManualTranspose {
  import opened Values

  /** Offset of (r, c) in row-major storage with `nc` columns. */
  function RowMajor(r: int, c: int, nc: int): int {
    r * nc + c
  }

  /** Offset of (r, c) in column-major storage with `nr` rows. */
  function ColumnMajor(r: int, c: int, nr: int): int {
    c * nr + r
  }

  lemma MulMonotone(a: int, b: int, n: int)
    ensures a <= b && 0 <= n ==> a * n <= b * n
  {
    if a <= b && 0 <= n {
      var d := b - a;
      assert d * n >= 0;
      assert b * n == a * n + d * n;
    }
  }

  /** Euclidean division recovers the two parts of q * n + m. */
  lemma DivModUnique(q: int, m: int, n: int)
    requires 0 <= m < n
    ensures (q * n + m) / n == q && (q * n + m) % n == m
  {
    var k := q * n + m;
    var q', m' := k / n, k % n;
    assert k == q' * n + m' && 0 <= m' < n;
    assert (q' - q) * n == m - m';
    MulMonotone(1, q' - q, n);
    MulMonotone(q' - q, -1, n);
  }

  /** Every offset of an n x d block splits into a position below n and one below d. */
  lemma SplitOffset(k: int, n: nat, d: nat)
    requires 0 <= k < n * d
    ensures n > 0 && 0 <= k % n < n && 0 <= k / n < d && k == (k / n) * n + k % n
  {
    assert n != 0;
    MulMonotone(d, k / n, n);
    MulMonotone(k / n, -1, n);
  }

  /** Both offsets of (r, c) lie in [0, nr * nc). */
  lemma OffsetsInRange(r: int, c: int, nr: int, nc: int)
    requires 0 <= r < nr && 0 <= c < nc
    ensures 0 <= RowMajor(r, c, nc) < nr * nc
    ensures 0 <= ColumnMajor(r, c, nr) < nr * nc
  {
    MulMonotone(r + 1, nr, nc);
    MulMonotone(0, r, nc);
    MulMonotone(c + 1, nc, nr);
    MulMonotone(0, c, nr);
    assert (r + 1) * nc == r * nc + nc;
    assert (c + 1) * nr == c * nr + nr;
    assert nc * nr == nr * nc;
  }

  /** The column-major copy, position by position: slot k holds the entry in
      row k % nr and column k / nr. */
  function Transposed(nr: nat, nc: nat, x: seq<Double>): (t: seq<Double>)
    requires |x| >= nr * nc
    ensures |t| == nr * nc
    ensures nr == 0 || nc == 0 ==> t == []
  {
    seq(nr * nc, k requires 0 <= k < nr * nc =>
      SplitOffset(k, nr, nc);
      OffsetsInRange(k % nr, k / nr, nr, nc);
      x[RowMajor(k % nr, k / nr, nc)])
  }

  /** (r, c) goes from row-major to column-major offset. */
  lemma TransposedAt(nr: nat, nc: nat, x: seq<Double>, r: int, c: int)
    requires |x| >= nr * nc
    requires 0 <= r < nr && 0 <= c < nc
    ensures 0 <= ColumnMajor(r, c, nr) < nr * nc && 0 <= RowMajor(r, c, nc) < nr * nc
    ensures Transposed(nr, nc, x)[ColumnMajor(r, c, nr)] == x[RowMajor(r, c, nc)]
  {
    OffsetsInRange(r, c, nr, nc);
    DivModUnique(c, r, nr);
  }

  /** (r, c) -> c * nr + r maps the nr x nc grid one-to-one onto [0, nr * nc). */
  lemma ColumnMajorBijective(nr: nat, nc: nat)
    ensures forall r, c :: 0 <= r < nr && 0 <= c < nc ==> 0 <= ColumnMajor(r, c, nr) < nr * nc
    ensures forall r1, c1, r2, c2 ::
      (0 <= r1 < nr && 0 <= c1 < nc && 0 <= r2 < nr && 0 <= c2 < nc &&
       ColumnMajor(r1, c1, nr) == ColumnMajor(r2, c2, nr)) ==> r1 == r2 && c1 == c2
    ensures forall k :: 0 <= k < nr * nc ==>
      0 <= k % nr < nr && 0 <= k / nr < nc && ColumnMajor(k % nr, k / nr, nr) == k
  {
    forall r, c | 0 <= r < nr && 0 <= c < nc
      ensures 0 <= ColumnMajor(r, c, nr) < nr * nc
    {
      OffsetsInRange(r, c, nr, nc);
    }
    forall r1, c1, r2, c2 |
      0 <= r1 < nr && 0 <= c1 < nc && 0 <= r2 < nr && 0 <= c2 < nc &&
      ColumnMajor(r1, c1, nr) == ColumnMajor(r2, c2, nr)
      ensures r1 == r2 && c1 == c2
    {
      DivModUnique(c1, r1, nr);
      DivModUnique(c2, r2, nr);
    }
    forall k | 0 <= k < nr * nc
      ensures 0 <= k % nr < nr && 0 <= k / nr < nc && ColumnMajor(k % nr, k / nr, nr) == k
    {
      SplitOffset(k, nr, nc);
    }
  }

  /** Transposing the transpose gives the original entries back. */
  lemma TransposeRoundTrip(nr: nat, nc: nat, x: seq<Double>)
    requires |x| == nr * nc
    ensures Transposed(nc, nr, Transposed(nr, nc, x)) == x
  {
    var t := Transposed(nr, nc, x);
    assert |t| == nc * nr;
    var back := Transposed(nc, nr, t);
    forall k | 0 <= k < nr * nc
      ensures back[k] == x[k]
    {
      assert k < nc * nr;
      SplitOffset(k, nc, nr);
      var r, c := k / nc, k % nc;
      assert k == RowMajor(r, c, nc);
      TransposedAt(nr, nc, x, r, c);
      assert back[k] == t[RowMajor(c, r, nr)];
    }
  }

  /** The nested loops: every (r, c) copied from row-major offset r * NC + c
      to column-major offset c * NR + r of a fresh vector. */
  method Transpose(nr: nat, nc: nat, contents: seq<Double>) returns (transposed: seq<Double>)
    requires |contents| >= nr * nc
    ensures transposed == Transposed(nr, nc, contents)
  {
    var buffer := new Double[nr * nc](_ => Zero);
    ColumnMajorBijective(nr, nc);
    var r := 0;
    while r < nr
      invariant 0 <= r <= nr
      invariant forall r', c' :: 0 <= r' < r && 0 <= c' < nc ==>
        buffer[ColumnMajor(r', c', nr)] == Transposed(nr, nc, contents)[ColumnMajor(r', c', nr)]
    {
      var c := 0;
      while c < nc
        invariant 0 <= c <= nc
        invariant forall r', c' :: 0 <= r' < r && 0 <= c' < nc ==>
          buffer[ColumnMajor(r', c', nr)] == Transposed(nr, nc, contents)[ColumnMajor(r', c', nr)]
        invariant forall c' :: 0 <= c' < c ==>
          buffer[ColumnMajor(r, c', nr)] == Transposed(nr, nc, contents)[ColumnMajor(r, c', nr)]
      {
        TransposedAt(nr, nc, contents, r, c);
        OffsetsInRange(r, c, nr, nc);
        buffer[ColumnMajor(r, c, nr)] := contents[RowMajor(r, c, nc)];
        c := c + 1;
      }
      r := r + 1;
    }
    transposed := buffer[..];
    forall k | 0 <= k < nr * nc
      ensures transposed[k] == Transposed(nr, nc, contents)[k]
    {
      assert k == ColumnMajor(k % nr, k / nr, nr);
    }
  }
}
