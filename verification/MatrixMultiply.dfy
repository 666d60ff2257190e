/** Multiplying matrices of 32-bit integers: the triple loop, and the fast form that transposes the right
    matrix tile by tile and takes the dot products in eight registers of eight lanes. */
module MatrixMultiply {
  import opened Arithmetic
  import opened MatrixProduct

  // ----- the dot product

  /** A register of eight lanes after the products of two others are added to it. */
  function MulAdd(sum: seq<int>, va: seq<int>, vb: seq<int>): (r: seq<int>)
    requires |sum| == |va| == |vb| == 8
    ensures |r| == 8
  {
    seq(8, i requires 0 <= i < 8 => Wrap(sum[i] + Wrap(va[i] * vb[i])))
  }

  /** The `t`-th register after `q` blocks of 64 terms. */
  ghost predicate Register(sum: seq<int>, ts: seq<int>, t: nat, q: nat)
    requires t < 8 && 64 * q <= |ts|
  {
    |sum| == 8 && forall i: nat | i < 8 :: sum[i] == Wrap(Column(ts, 8 * t + i, 64, q))
  }

  lemma {:induction false} RegisterStep(sum: seq<int>, ts: seq<int>, t: nat, q: nat, at: nat, va: seq<int>, vb: seq<int>)
    requires t < 8 && 64 * (q + 1) <= |ts| && Register(sum, ts, t, q) && |va| == |vb| == 8
    requires at == 64 * q + 8 * t && forall k: nat | at <= k < at + 8 :: ts[k] == va[k - at] * vb[k - at]
    ensures Register(MulAdd(sum, va, vb), ts, t, q + 1)
  {
    forall i: nat | i < 8 ensures MulAdd(sum, va, vb)[i] == Wrap(Column(ts, 8 * t + i, 64, q + 1)) {
      assert ts[at + i] == va[i] * vb[i];
      WrapAdd(Column(ts, 8 * t + i, 64, q), va[i] * vb[i]);
    }
  }

  /** The lanes of all registers before wrapping. */
  ghost function Lanes(ts: seq<int>, q: nat): (s: seq<int>)
    requires 64 * q <= |ts|
    ensures |s| == 64
  {
    seq(64, p requires 0 <= p < 64 => Column(ts, p, 64, q))
  }

  lemma {:induction false} LanesSum(ts: seq<int>, q: nat, n: nat)
    requires 64 * q <= |ts| && n <= 64
    ensures Sum(Lanes(ts, q)[..n]) == Columns(ts, n, 64, q)
  {
    if n > 0 {
      SumPrefix(Lanes(ts, q), n - 1);
      LanesSum(ts, q, n - 1);
    }
  }

  /** All lanes together are the first 64 * q terms. */
  lemma {:induction false} LanesTotal(ts: seq<int>, q: nat)
    requires 64 * q <= |ts|
    ensures Columns(Lanes(ts, q), 8, 8, 8) == Sum(ts[..64 * q])
  {
    ColumnsSum(Lanes(ts, q), 8, 8, 64);
    LanesSum(ts, q, 64);
    ColumnsSum(ts, 64, q, 64 * q);
    assert Lanes(ts, q)[..64] == Lanes(ts, q);
  }

  /** Adding lane `i` of every register. */
  function Drain(result: int, v: seq<int>): int
    requires |v| == 8
  {
    Wrap(Wrap(Wrap(Wrap(Wrap(Wrap(Wrap(Wrap(result + v[0]) + v[1]) + v[2]) + v[3]) + v[4]) + v[5]) + v[6]) + v[7])
  }

  lemma {:induction false} DrainStep(x: int, lanes: seq<int>, i: nat, v: seq<int>)
    requires |lanes| == 64 && i < 8 && |v| == 8 && forall t: nat | t < 8 :: v[t] == Wrap(lanes[8 * t + i])
    ensures Drain(Wrap(x), v) == Wrap(x + Column(lanes, i, 8, 8))
  {
    hide Wrap, Column;
    EightTerms(lanes, i);
    var y := x;
    WrapAdd(y, lanes[8 * 0 + i]);
    y := y + lanes[i];
    WrapAdd(y, lanes[8 * 1 + i]);
    y := y + lanes[8 + i];
    WrapAdd(y, lanes[8 * 2 + i]);
    y := y + lanes[16 + i];
    WrapAdd(y, lanes[8 * 3 + i]);
    y := y + lanes[24 + i];
    WrapAdd(y, lanes[8 * 4 + i]);
    y := y + lanes[32 + i];
    WrapAdd(y, lanes[8 * 5 + i]);
    y := y + lanes[40 + i];
    WrapAdd(y, lanes[8 * 6 + i]);
    y := y + lanes[48 + i];
    WrapAdd(y, lanes[8 * 7 + i]);
  }

  lemma {:induction false} EightTerms(s: seq<int>, i: nat)
    requires |s| == 64 && i < 8
    ensures Column(s, i, 8, 8) ==
            s[i] + s[8 + i] + s[16 + i] + s[24 + i] + s[32 + i] + s[40 + i] + s[48 + i] + s[56 + i]
  {
    assert Column(s, i, 8, 0) == 0 && Column(s, i, 8, 1) == s[i];
    assert Column(s, i, 8, 2) == s[i] + s[8 + i];
    assert Column(s, i, 8, 4) == Column(s, i, 8, 2) + s[16 + i] + s[24 + i];
    assert Column(s, i, 8, 6) == Column(s, i, 8, 4) + s[32 + i] + s[40 + i];
    assert Column(s, i, 8, 8) == Column(s, i, 8, 6) + s[48 + i] + s[56 + i];
  }

  /** The products of two runs in memory. */
  ghost function TermsAt(a: array<int>, aAt: nat, b: array<int>, bAt: nat, size: nat): (ts: seq<int>)
    requires aAt + size <= a.Length && bAt + size <= b.Length
    reads a, b
    ensures |ts| == size
  {
    Terms(a[aAt..aAt + size], b[bAt..bAt + size])
  }

  lemma {:induction false} TermAt(a: array<int>, aAt: nat, b: array<int>, bAt: nat, size: nat, k: nat)
    requires aAt + size <= a.Length && bAt + size <= b.Length && k < size
    ensures TermsAt(a, aAt, b, bAt, size)[k] == a[aAt + k] * b[bAt + k]
  {
  }

  /** Loads eight lanes of each side at the `at`-th term, and adds their products to the register. */
  method MulAddAt(sum: seq<int>, a: array<int>, p: nat, b: array<int>, r: nat,
                  ghost aAt: nat, ghost bAt: nat, ghost size: nat, ghost t: nat, ghost q: nat) returns (s: seq<int>)
    requires aAt + size <= a.Length && bAt + size <= b.Length && t < 8 && 64 * (q + 1) <= size
    requires p == aAt + 64 * q + 8 * t && r == bAt + 64 * q + 8 * t
    requires Register(sum, TermsAt(a, aAt, b, bAt, size), t, q)
    ensures Register(s, TermsAt(a, aAt, b, bAt, size), t, q + 1)
  {
    hide Wrap, Column;
    RegisterStep(sum, TermsAt(a, aAt, b, bAt, size), t, q, 64 * q + 8 * t, a[p..p + 8], b[r..r + 8]);
    s := MulAdd(sum, a[p..p + 8], b[r..r + 8]);
  }

  /** The dot product of two runs of length `size`. */
  method VecDot(a: array<int>, aAt: nat, b: array<int>, bAt: nat, size: nat) returns (result: int)
    requires aAt + size <= a.Length && bAt + size <= b.Length
    ensures result == Wrap(Sum(TermsAt(a, aAt, b, bAt, size)))
  {
    hide Wrap, Sum, Column, Columns, Register, Drain, TermsAt;
    ghost var ts := TermsAt(a, aAt, b, bAt, size);
    var zero := seq(8, _ => 0);
    var sum0, sum1, sum2, sum3, sum4, sum5, sum6, sum7 := zero, zero, zero, zero, zero, zero, zero, zero;
    var p, r, remainingSize := aAt, bAt, size;
    ghost var q := 0;
    ZeroRegisters(zero, ts);
    while remainingSize >= 64
      invariant 64 * q + remainingSize == size && p == aAt + 64 * q && r == bAt + 64 * q
      invariant Register(sum0, ts, 0, q) && Register(sum1, ts, 1, q) && Register(sum2, ts, 2, q) && Register(sum3, ts, 3, q)
      invariant Register(sum4, ts, 4, q) && Register(sum5, ts, 5, q) && Register(sum6, ts, 6, q) && Register(sum7, ts, 7, q)
    {
      sum0 := MulAddAt(sum0, a, p, b, r, aAt, bAt, size, 0, q);
      sum1 := MulAddAt(sum1, a, p + 8, b, r + 8, aAt, bAt, size, 1, q);
      sum2 := MulAddAt(sum2, a, p + 16, b, r + 16, aAt, bAt, size, 2, q);
      sum3 := MulAddAt(sum3, a, p + 24, b, r + 24, aAt, bAt, size, 3, q);
      sum4 := MulAddAt(sum4, a, p + 32, b, r + 32, aAt, bAt, size, 4, q);
      sum5 := MulAddAt(sum5, a, p + 40, b, r + 40, aAt, bAt, size, 5, q);
      sum6 := MulAddAt(sum6, a, p + 48, b, r + 48, aAt, bAt, size, 6, q);
      sum7 := MulAddAt(sum7, a, p + 56, b, r + 56, aAt, bAt, size, 7, q);
      p, r, remainingSize, q := p + 64, r + 64, remainingSize - 64, q + 1;
    }
    result := AddLanes(sum0, sum1, sum2, sum3, sum4, sum5, sum6, sum7, ts, q);
    for i := 0 to remainingSize
      invariant result == Wrap(Sum(ts[..64 * q + i]))
    {
      TermAt(a, aAt, b, bAt, size, 64 * q + i);
      SumPrefix(ts, 64 * q + i);
      WrapAdd(Sum(ts[..64 * q + i]), ts[64 * q + i]);
      result := Wrap(result + Wrap(a[p + i] * b[r + i]));
    }
    assert ts[..size] == ts;
  }

  lemma {:induction false} ZeroRegisters(zero: seq<int>, ts: seq<int>)
    requires |zero| == 8 && forall i: nat | i < 8 :: zero[i] == 0
    ensures forall t: nat | t < 8 :: Register(zero, ts, t, 0)
  {
  }

  /** Adds up the lanes of the registers. */
  method AddLanes(sum0: seq<int>, sum1: seq<int>, sum2: seq<int>, sum3: seq<int>, sum4: seq<int>, sum5: seq<int>,
                  sum6: seq<int>, sum7: seq<int>, ghost ts: seq<int>, ghost q: nat) returns (result: int)
    requires 64 * q <= |ts|
    requires Register(sum0, ts, 0, q) && Register(sum1, ts, 1, q) && Register(sum2, ts, 2, q) && Register(sum3, ts, 3, q)
    requires Register(sum4, ts, 4, q) && Register(sum5, ts, 5, q) && Register(sum6, ts, 6, q) && Register(sum7, ts, 7, q)
    ensures result == Wrap(Sum(ts[..64 * q]))
  {
    hide Sum, Column, Drain;
    ghost var lanes := Lanes(ts, q);
    LanesTotal(ts, q);
    result := 0;
    for i := 0 to 8
      invariant result == Wrap(Columns(lanes, i, 8, 8))
    {
      var v := [sum0[i], sum1[i], sum2[i], sum3[i], sum4[i], sum5[i], sum6[i], sum7[i]];
      DrainStep(Columns(lanes, i, 8, 8), lanes, i, v);
      result := Drain(result, v);
    }
  }

  // ----- the transposed matrix

  const TILE_SIZE := 32

  /** The entries in `done` are in their places in the transposed matrix. */
  ghost predicate Moved(m: seq<int>, n: seq<int>, rows: nat, cols: nat, done: set<(nat, nat)>)
    requires |m| == |n| == rows * cols
  {
    forall r: nat, c: nat | (r, c) in done ::
      r < rows && c < cols && (AtInside(r, c, rows, cols); AtInside(c, r, cols, rows); n[At(c, r, rows)] == m[At(r, c, cols)])
  }

  /** All entries of the rows r0, ..., r1 - 1 and the columns c0, ..., c1 - 1 are in `done`. */
  ghost predicate Covers(done: set<(nat, nat)>, r0: nat, r1: nat, c0: nat, c1: nat) {
    forall r: nat, c: nat | r0 <= r < r1 && c0 <= c < c1 :: (r, c) in done
  }

  lemma {:induction false} MovedMore(m: seq<int>, n: seq<int>, rows: nat, cols: nat, done: set<(nat, nat)>, r: nat, c: nat)
    requires |m| == |n| == rows * cols && Moved(m, n, rows, cols, done) && r < rows && c < cols
    requires At(c, r, rows) < |n| && At(r, c, cols) < |m|
    ensures Moved(m, n[At(c, r, rows) := m[At(r, c, cols)]], rows, cols, done + {(r, c)})
  {
    hide At;
    var n' := n[At(c, r, rows) := m[At(r, c, cols)]];
    forall r': nat, c': nat | (r', c') in done + {(r, c)}
      ensures r' < rows && c' < cols && At(c', r', rows) < |n'| && At(r', c', cols) < |m| && n'[At(c', r', rows)] == m[At(r', c', cols)]
    {
      if (r', c') != (r, c) {
        assert (r', c') in done;
        AtInside(r', c', rows, cols);
        AtInside(c', r', cols, rows);
        if At(c', r', rows) == At(c, r, rows) { AtDistinct(c', r', c, r, rows); }
      }
    }
  }

  lemma {:induction false} AtPlus(i: nat, j: nat, k: nat, l: nat, cols: nat)
    ensures At(i, j, cols) + k * cols + l == At(i + k, j + l, cols)
  {
    assert (i + k) * cols == i * cols + k * cols;
  }

  /** Moves one entry of the tile at row `i` and column `j`. */
  method Copy(m: array<int>, n: array<int>, tile: nat, newTile: nat, k: nat, l: nat, rows: nat, cols: nat,
              ghost i: nat, ghost j: nat, ghost done: set<(nat, nat)>) returns (ghost done': set<(nat, nat)>)
    requires m != n && m.Length == n.Length == rows * cols && tile == At(i, j, cols) && newTile == At(j, i, rows)
    requires Moved(m[..], n[..], rows, cols, done)
    requires i + k < rows && j + l < cols
    modifies n
    ensures Moved(m[..], n[..], rows, cols, done') && done <= done'
    ensures done' == done + {(i + k, j + l)}
  {
    hide At, Moved;
    AtPlus(j, i, l, k, rows);
    AtPlus(i, j, k, l, cols);
    AtInside(i + k, j + l, rows, cols);
    AtInside(j + l, i + k, cols, rows);
    ghost var before := n[..];
    n[newTile + l * rows + k] := m[tile + k * cols + l];
    done' := done + {(i + k, j + l)};
    MovedMore(m[..], before, rows, cols, done, i + k, j + l);
    assert n[..] == before[At(j + l, i + k, rows) := m[..][At(i + k, j + l, cols)]];
  }

  /** Moves four entries of a row. */
  method CopyFour(m: array<int>, n: array<int>, tile: nat, newTile: nat, k: nat, l: nat, rows: nat, cols: nat,
                  ghost i: nat, ghost j: nat, ghost done: set<(nat, nat)>) returns (ghost done': set<(nat, nat)>)
    requires m != n && m.Length == n.Length == rows * cols && tile == At(i, j, cols) && newTile == At(j, i, rows)
    requires Moved(m[..], n[..], rows, cols, done)
    requires i + k < rows && j + l + 4 <= cols
    modifies n
    ensures Moved(m[..], n[..], rows, cols, done') && done <= done'
    ensures Covers(done', i + k, i + k + 1, j + l, j + l + 4)
  {
    hide At, Moved;
    done' := done;
    done' := Copy(m, n, tile, newTile, k, l, rows, cols, i, j, done');
    done' := Copy(m, n, tile, newTile, k, l + 1, rows, cols, i, j, done');
    done' := Copy(m, n, tile, newTile, k, l + 2, rows, cols, i, j, done');
    done' := Copy(m, n, tile, newTile, k, l + 3, rows, cols, i, j, done');
  }

  /** Moves four entries of a column. */
  method CopyDown(m: array<int>, n: array<int>, tile: nat, newTile: nat, k: nat, l: nat, rows: nat, cols: nat,
                  ghost i: nat, ghost j: nat, ghost done: set<(nat, nat)>) returns (ghost done': set<(nat, nat)>)
    requires m != n && m.Length == n.Length == rows * cols && tile == At(i, j, cols) && newTile == At(j, i, rows)
    requires Moved(m[..], n[..], rows, cols, done)
    requires i + k + 4 <= rows && j + l < cols
    modifies n
    ensures Moved(m[..], n[..], rows, cols, done') && done <= done'
    ensures Covers(done', i + k, i + k + 4, j + l, j + l + 1)
  {
    hide At, Moved;
    done' := done;
    done' := Copy(m, n, tile, newTile, k, l, rows, cols, i, j, done');
    done' := Copy(m, n, tile, newTile, k + 1, l, rows, cols, i, j, done');
    done' := Copy(m, n, tile, newTile, k + 2, l, rows, cols, i, j, done');
    done' := Copy(m, n, tile, newTile, k + 3, l, rows, cols, i, j, done');
  }

  /** Moves four times four entries. */
  method CopySquare(m: array<int>, n: array<int>, tile: nat, newTile: nat, k: nat, l: nat, rows: nat, cols: nat,
                    ghost i: nat, ghost j: nat, ghost done: set<(nat, nat)>) returns (ghost done': set<(nat, nat)>)
    requires m != n && m.Length == n.Length == rows * cols && tile == At(i, j, cols) && newTile == At(j, i, rows)
    requires Moved(m[..], n[..], rows, cols, done)
    requires i + k + 4 <= rows && j + l + 4 <= cols
    modifies n
    ensures Moved(m[..], n[..], rows, cols, done') && done <= done'
    ensures Covers(done', i + k, i + k + 4, j + l, j + l + 4)
  {
    hide At, Moved;
    done' := done;
    done' := CopyFour(m, n, tile, newTile, k, l, rows, cols, i, j, done');
    done' := CopyFour(m, n, tile, newTile, k + 1, l, rows, cols, i, j, done');
    done' := CopyFour(m, n, tile, newTile, k + 2, l, rows, cols, i, j, done');
    done' := CopyFour(m, n, tile, newTile, k + 3, l, rows, cols, i, j, done');
  }

  /** Moves a whole tile. */
  method CopyTile(m: array<int>, n: array<int>, tile: nat, newTile: nat, rows: nat, cols: nat,
                  ghost i: nat, ghost j: nat, ghost done: set<(nat, nat)>) returns (ghost done': set<(nat, nat)>)
    requires m != n && m.Length == n.Length == rows * cols && tile == At(i, j, cols) && newTile == At(j, i, rows)
    requires Moved(m[..], n[..], rows, cols, done)
    requires i + TILE_SIZE <= rows && j + TILE_SIZE <= cols
    modifies n
    ensures Moved(m[..], n[..], rows, cols, done') && done <= done'
    ensures Covers(done', i, i + TILE_SIZE, j, j + TILE_SIZE)
  {
    hide At, Moved;
    done' := done;
    var k := 0;
    while k < TILE_SIZE
      invariant k <= TILE_SIZE && k % 4 == 0 && Moved(m[..], n[..], rows, cols, done') && done <= done'
      invariant Covers(done', i, i + k, j, j + TILE_SIZE)
    {
      var l := 0;
      while l < TILE_SIZE
        invariant l <= TILE_SIZE && l % 4 == 0 && Moved(m[..], n[..], rows, cols, done') && done <= done'
        invariant Covers(done', i, i + k, j, j + TILE_SIZE) && Covers(done', i + k, i + k + 4, j, j + l)
      {
        done' := CopySquare(m, n, tile, newTile, k, l, rows, cols, i, j, done');
        l := l + 4;
      }
      k := k + 4;
    }
  }

  /** Moves the entries of 32 rows from column `j` on, less than a tile. */
  method CopyRight(m: array<int>, n: array<int>, tile: nat, newTile: nat, rows: nat, cols: nat,
                   ghost i: nat, j: nat, ghost done: set<(nat, nat)>) returns (ghost done': set<(nat, nat)>)
    requires m != n && m.Length == n.Length == rows * cols && tile == At(i, j, cols) && newTile == At(j, i, rows)
    requires Moved(m[..], n[..], rows, cols, done)
    requires i + TILE_SIZE <= rows && j <= cols
    modifies n
    ensures Moved(m[..], n[..], rows, cols, done') && done <= done'
    ensures Covers(done', i, i + TILE_SIZE, j, cols)
  {
    hide At, Moved;
    done' := done;
    var k := 0;
    while k < TILE_SIZE
      invariant k <= TILE_SIZE && k % 4 == 0 && Moved(m[..], n[..], rows, cols, done') && done <= done'
      invariant Covers(done', i, i + k, j, cols)
    {
      for l := 0 to cols - j
        invariant Moved(m[..], n[..], rows, cols, done') && done <= done'
        invariant Covers(done', i, i + k, j, cols) && Covers(done', i + k, i + k + 4, j, j + l)
      {
        done' := CopyDown(m, n, tile, newTile, k, l, rows, cols, i, j, done');
      }
      k := k + 4;
    }
  }

  /** Moves the entries of 32 columns from row `i` on, less than a tile. */
  method CopyBelow(m: array<int>, n: array<int>, tile: nat, newTile: nat, rows: nat, cols: nat,
                   i: nat, ghost j: nat, ghost done: set<(nat, nat)>) returns (ghost done': set<(nat, nat)>)
    requires m != n && m.Length == n.Length == rows * cols && tile == At(i, j, cols) && newTile == At(j, i, rows)
    requires Moved(m[..], n[..], rows, cols, done)
    requires i <= rows && j + TILE_SIZE <= cols
    modifies n
    ensures Moved(m[..], n[..], rows, cols, done') && done <= done'
    ensures Covers(done', i, rows, j, j + TILE_SIZE)
  {
    hide At, Moved;
    done' := done;
    for k := 0 to rows - i
      invariant Moved(m[..], n[..], rows, cols, done') && done <= done'
      invariant Covers(done', i, i + k, j, j + TILE_SIZE)
    {
      var l := 0;
      while l < TILE_SIZE
        invariant l <= TILE_SIZE && l % 4 == 0 && Moved(m[..], n[..], rows, cols, done') && done <= done'
        invariant Covers(done', i, i + k, j, j + TILE_SIZE) && Covers(done', i + k, i + k + 1, j, j + l)
      {
        done' := CopyFour(m, n, tile, newTile, k, l, rows, cols, i, j, done');
        l := l + 4;
      }
    }
  }

  /** Moves the entries that are neither in a whole tile of rows nor in one of columns. */
  method CopyCorner(m: array<int>, n: array<int>, tile: nat, newTile: nat, rows: nat, cols: nat,
                    i: nat, j: nat, ghost done: set<(nat, nat)>) returns (ghost done': set<(nat, nat)>)
    requires m != n && m.Length == n.Length == rows * cols && tile == At(i, j, cols) && newTile == At(j, i, rows)
    requires Moved(m[..], n[..], rows, cols, done)
    requires i <= rows && j <= cols
    modifies n
    ensures Moved(m[..], n[..], rows, cols, done') && done <= done'
    ensures Covers(done', i, rows, j, cols)
  {
    hide At, Moved;
    done' := done;
    for k := 0 to rows - i
      invariant Moved(m[..], n[..], rows, cols, done') && done <= done'
      invariant Covers(done', i, i + k, j, cols)
    {
      for l := 0 to cols - j
        invariant Moved(m[..], n[..], rows, cols, done') && done <= done'
        invariant Covers(done', i, i + k, j, cols) && Covers(done', i + k, i + k + 1, j, j + l)
      {
        done' := Copy(m, n, tile, newTile, k, l, rows, cols, i, j, done');
      }
    }
  }

  /** `n` is the matrix `m` with rows and columns exchanged. */
  ghost predicate Transposed(m: seq<int>, n: seq<int>, rows: nat, cols: nat)
    requires |m| == rows * cols
  {
    && |n| == cols * rows
    && forall r: nat, c: nat | r < rows && c < cols ::
         (AtInside(r, c, rows, cols); AtInside(c, r, cols, rows); n[At(c, r, rows)] == m[At(r, c, cols)])
  }

  /** The transposed matrix, moved tile by tile. */
  method TiledTranspose(m: array<int>, rows: nat, cols: nat) returns (n: array<int>)
    requires m.Length == rows * cols
    ensures fresh(n) && Transposed(m[..], n[..], rows, cols)
  {
    hide At, Moved;
    n := new int[rows * cols];
    ghost var done: set<(nat, nat)> := {};
    NothingMoved(m[..], n[..], rows, cols);
    var i, j := 0, 0;
    while i <= rows - TILE_SIZE
      invariant i <= rows && Moved(m[..], n[..], rows, cols, done) && fresh(n) && n.Length == rows * cols
      invariant Covers(done, 0, i, 0, cols)
    {
      j := 0;
      while j <= cols - TILE_SIZE
        invariant j <= cols && Moved(m[..], n[..], rows, cols, done) && fresh(n) && n.Length == rows * cols
        invariant Covers(done, 0, i, 0, cols) && Covers(done, i, i + TILE_SIZE, 0, j)
      {
        done := CopyTile(m, n, At(i, j, cols), At(j, i, rows), rows, cols, i, j, done);
        j := j + TILE_SIZE;
      }
      done := CopyRight(m, n, At(i, j, cols), At(j, i, rows), rows, cols, i, j, done);
      i := i + TILE_SIZE;
    }
    j := 0;
    while j <= cols - TILE_SIZE
      invariant j <= cols && Moved(m[..], n[..], rows, cols, done) && fresh(n) && n.Length == rows * cols
      invariant Covers(done, 0, i, 0, cols) && Covers(done, i, rows, 0, j)
    {
      done := CopyBelow(m, n, At(i, j, cols), At(j, i, rows), rows, cols, i, j, done);
      j := j + TILE_SIZE;
    }
    done := CopyCorner(m, n, At(i, j, cols), At(j, i, rows), rows, cols, i, j, done);
    AllMoved(m[..], n[..], rows, cols, done);
  }

  lemma {:induction false} NothingMoved(m: seq<int>, n: seq<int>, rows: nat, cols: nat)
    requires |m| == |n| == rows * cols
    ensures Moved(m, n, rows, cols, {})
  {
  }

  lemma {:induction false} AllMoved(m: seq<int>, n: seq<int>, rows: nat, cols: nat, done: set<(nat, nat)>)
    requires |m| == |n| == rows * cols && Moved(m, n, rows, cols, done) && Covers(done, 0, rows, 0, cols)
    ensures Transposed(m, n, rows, cols)
  {
  }

  // ----- the products

  /** A row of the transposed matrix is a column of the matrix. */
  lemma {:induction false} DotEntry(L: array<int>, r: seq<int>, RT: array<int>, i: nat, j: nat, mid: nat, cols: nat)
    requires |r| == mid * cols && Transposed(r, RT[..], mid, cols) && j < cols
    requires At(i, 0, mid) + mid == At(i, mid, mid) <= L.Length && At(j, 0, mid) + mid <= RT.Length
    ensures Sum(TermsAt(L, At(i, 0, mid), RT, At(j, 0, mid), mid)) == Entry(L[..], r, i, j, mid, cols)
  {
    hide Sum;
    var b := RT[At(j, 0, mid)..At(j, 0, mid) + mid];
    forall q: nat | q < mid ensures b[q] == ColumnOf(r, j, mid, cols)[q] {
      assert At(j, 0, mid) + q == At(j, q, mid);
      AtInside(q, j, mid, cols);
      AtInside(j, q, cols, mid);
      assert RT[..][At(j, q, mid)] == r[At(q, j, cols)];
    }
    assert b == ColumnOf(r, j, mid, cols);
    assert L[At(i, 0, mid)..At(i, 0, mid) + mid] == RowOf(L[..], i, mid);
  }

  /** The fast form: every entry is a dot product with a row of the transposed right matrix. */
  method OptimizedMatmul(L: array<int>, R: array<int>, result: array<int>, lRow: nat, lCol: nat, rRow: nat, rCol: nat)
    requires L.Length == lRow * lCol && R.Length == rRow * rCol && lCol == rRow && result.Length == lRow * rCol
    requires result != L && result != R
    modifies result
    ensures IsProduct(L[..], R[..], result[..], lRow, lCol, rCol)
  {
    hide At, Wrap, Transposed, Entry, Filled, IsProduct;
    var RT := TiledTranspose(R, rRow, rCol);
    FilledStart(L[..], R[..], result[..], lRow, lCol, rCol);
    for i := 0 to lRow
      invariant Filled(L[..], R[..], result[..], lRow, lCol, rCol, i, 0)
      invariant Transposed(R[..], RT[..], rRow, rCol) && fresh(RT)
    {
      for j := 0 to rCol
        invariant Filled(L[..], R[..], result[..], lRow, lCol, rCol, i, j)
        invariant Transposed(R[..], RT[..], rRow, rCol) && fresh(RT)
      {
        Places(i, j, lRow, lCol, rCol);
        TransposedLength(R[..], RT[..], rRow, rCol);
        DotEntry(L, R[..], RT, i, j, lCol, rCol);
        var x := VecDot(L, At(i, 0, lCol), RT, At(j, 0, rRow), lCol);
        FilledSet(L[..], R[..], result[..], lRow, lCol, rCol, i, j, x);
        ghost var before := result[..];
        result[At(i, j, rCol)] := x;
        assert result[..] == before[At(i, j, rCol) := x];
        FilledMore(L[..], R[..], result[..], lRow, lCol, rCol, i, j);
      }
      FilledRow(L[..], R[..], result[..], lRow, lCol, rCol, i);
    }
    FilledAll(L[..], R[..], result[..], lRow, lCol, rCol);
  }

  lemma {:induction false} Places(i: nat, j: nat, lRow: nat, mid: nat, rCol: nat)
    requires i < lRow && j < rCol
    ensures At(i, 0, mid) + mid == At(i, mid, mid) <= lRow * mid && At(j, 0, mid) + mid <= rCol * mid
    ensures At(i, j, rCol) < lRow * rCol
  {
    RowInside(i, lRow, mid);
    RowInside(j, rCol, mid);
    AtInside(i, j, lRow, rCol);
  }

  lemma {:induction false} TransposedLength(m: seq<int>, n: seq<int>, rows: nat, cols: nat)
    requires |m| == rows * cols && Transposed(m, n, rows, cols)
    ensures |n| == cols * rows
  {
  }

  /** The reference: three loops. */
  method Matmul(L: array<int>, R: array<int>, result: array<int>, lRow: nat, lCol: nat, rRow: nat, rCol: nat)
    requires L.Length == lRow * lCol && R.Length == rRow * rCol && lCol == rRow && result.Length == lRow * rCol
    requires result != L && result != R
    modifies result
    ensures IsProduct(L[..], R[..], result[..], lRow, lCol, rCol)
  {
    hide At, Wrap, Entry, Filled, IsProduct;
    FilledStart(L[..], R[..], result[..], lRow, lCol, rCol);
    for i := 0 to lRow
      invariant Filled(L[..], R[..], result[..], lRow, lCol, rCol, i, 0)
    {
      for j := 0 to rCol
        invariant Filled(L[..], R[..], result[..], lRow, lCol, rCol, i, j)
      {
        AddTerms(L, R, result, lRow, lCol, rCol, i, j);
      }
      FilledRow(L[..], R[..], result[..], lRow, lCol, rCol, i);
    }
    FilledAll(L[..], R[..], result[..], lRow, lCol, rCol);
  }

  /** The innermost of the three loops: one entry of the product. */
  method AddTerms(L: array<int>, R: array<int>, result: array<int>, lRow: nat, lCol: nat, rCol: nat, i: nat, j: nat)
    requires L.Length == lRow * lCol && R.Length == lCol * rCol && result.Length == lRow * rCol && result != L && result != R
    requires i < lRow && j < rCol && Filled(L[..], R[..], result[..], lRow, lCol, rCol, i, j)
    modifies result
    ensures Filled(L[..], R[..], result[..], lRow, lCol, rCol, i, j + 1)
  {
    hide At, Wrap, Entry, Filled;
    Places(i, j, lRow, lCol, rCol);
    PartAll(L[..], R[..], i, j, lCol, rCol);
    SetEntry(L, R, result, lRow, lCol, rCol, i, j, 0);
    for k := 0 to lCol
      invariant Filled(L[..], R[..], result[..], lRow, lCol, rCol, i, j)
      invariant result[At(i, j, rCol)] == Wrap(PartEntry(L[..], R[..], i, j, lCol, rCol, k))
    {
      AtInside(k, j, lCol, rCol);
      AtInside(i, k, lRow, lCol);
      PartStep(L[..], R[..], i, j, lCol, rCol, k);
      SetEntry(L, R, result, lRow, lCol, rCol, i, j,
               Wrap(result[At(i, j, rCol)] + Wrap(L[At(i, k, lCol)] * R[At(k, j, rCol)])));
    }
    FilledMore(L[..], R[..], result[..], lRow, lCol, rCol, i, j);
  }

  /** Stores the entry that is worked on. */
  method SetEntry(L: array<int>, R: array<int>, result: array<int>, lRow: nat, lCol: nat, rCol: nat, i: nat, j: nat, x: int)
    requires L.Length == lRow * lCol && R.Length == lCol * rCol && result.Length == lRow * rCol && result != L && result != R
    requires i < lRow && j < rCol && At(i, j, rCol) < result.Length
    requires Filled(L[..], R[..], result[..], lRow, lCol, rCol, i, j)
    modifies result
    ensures Filled(L[..], R[..], result[..], lRow, lCol, rCol, i, j) && result[At(i, j, rCol)] == x
  {
    hide At, Filled;
    FilledSet(L[..], R[..], result[..], lRow, lCol, rCol, i, j, x);
    ghost var before := result[..];
    result[At(i, j, rCol)] := x;
    assert result[..] == before[At(i, j, rCol) := x];
  }

  /** An entry of the product, as far as its first `k` terms. */
  ghost function PartEntry(l: seq<int>, r: seq<int>, i: nat, j: nat, mid: nat, cols: nat, k: nat): int
    requires At(i, mid, mid) <= |l| && j < cols && |r| == mid * cols && k <= mid
  {
    Sum(Terms(RowOf(l, i, mid), ColumnOf(r, j, mid, cols))[..k])
  }

  lemma {:induction false} PartStep(l: seq<int>, r: seq<int>, i: nat, j: nat, mid: nat, cols: nat, k: nat)
    requires At(i, mid, mid) <= |l| && j < cols && |r| == mid * cols && k < mid
    requires At(i, k, mid) < |l| && At(k, j, cols) < |r|
    ensures Wrap(Wrap(PartEntry(l, r, i, j, mid, cols, k)) + Wrap(l[At(i, k, mid)] * r[At(k, j, cols)]))
            == Wrap(PartEntry(l, r, i, j, mid, cols, k + 1))
  {
    hide Wrap, Sum;
    var t := l[At(i, k, mid)] * r[At(k, j, cols)];
    assert Terms(RowOf(l, i, mid), ColumnOf(r, j, mid, cols))[k] == t;
    SumPrefix(Terms(RowOf(l, i, mid), ColumnOf(r, j, mid, cols)), k);
    WrapAdd(PartEntry(l, r, i, j, mid, cols, k), t);
  }

  lemma {:induction false} PartAll(l: seq<int>, r: seq<int>, i: nat, j: nat, mid: nat, cols: nat)
    requires At(i, mid, mid) <= |l| && j < cols && |r| == mid * cols
    ensures Wrap(PartEntry(l, r, i, j, mid, cols, 0)) == 0
    ensures PartEntry(l, r, i, j, mid, cols, mid) == Entry(l, r, i, j, mid, cols)
  {
    var ts := Terms(RowOf(l, i, mid), ColumnOf(r, j, mid, cols));
    assert ts[..mid] == ts;
  }
}
