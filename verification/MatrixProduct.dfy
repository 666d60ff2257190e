/** What a matrix product is, on integers of 32 bits that wrap around, and how its sums may be regrouped. */
module MatrixProduct {
  import opened Arithmetic

  // ----- integers of 32 bits

  /** The value that 32 bits hold for `x`, in two's complement. */
  function Wrap(x: int): int {
    (x + 0x8000_0000) % 0x1_0000_0000 - 0x8000_0000
  }

  /** The one 32-bit value that differs from `x` by a multiple of 2^32, which is `x` itself if it fits. */
  lemma {:induction false} WrapIs(x: int, y: int)
    ensures y == Wrap(x) <==> -0x8000_0000 <= y < 0x8000_0000 && (y - x) % 0x1_0000_0000 == 0
    ensures -0x8000_0000 <= x < 0x8000_0000 ==> Wrap(x) == x
  {
    var k := (y - x) / 0x1_0000_0000;
    if (y - x) % 0x1_0000_0000 == 0 { WrapShift(x, k); }
  }

  lemma {:induction false} WrapShift(x: int, k: int)
    ensures Wrap(x + 0x1_0000_0000 * k) == Wrap(x)
  {
  }

  /** Wrapping early or late makes no difference to a sum. */
  lemma {:induction false} WrapAdd(x: int, y: int)
    ensures Wrap(Wrap(x) + Wrap(y)) == Wrap(x + y)
  {
    var p, q := (x + 0x8000_0000) / 0x1_0000_0000, (y + 0x8000_0000) / 0x1_0000_0000;
    WrapShift(x + y, -p - q);
    assert Wrap(x) + Wrap(y) == x + y + 0x1_0000_0000 * (-p - q);
  }

  // ----- sums

  lemma {:induction false} SumPrefix(s: seq<int>, n: nat)
    requires n < |s|
    ensures Sum(s[..n + 1]) == Sum(s[..n]) + s[n]
  {
    assert s[..n + 1][..n] == s[..n];
  }

  /** The first `k` terms of `s` at i, m + i, 2 * m + i, ... added up. */
  ghost function Column(s: seq<int>, i: nat, m: nat, k: nat): int
    requires i < m && m * k <= |s|
  {
    if k == 0 then 0 else
      (assert m * k == m * (k - 1) + m; Column(s, i, m, k - 1) + s[m * (k - 1) + i])
  }

  /** The first `n` of `m` columns added up. */
  ghost function Columns(s: seq<int>, n: nat, m: nat, k: nat): int
    requires n <= m && m * k <= |s|
  {
    if n == 0 then 0 else Columns(s, n - 1, m, k) + Column(s, n - 1, m, k)
  }

  lemma {:induction false} RowAdded(s: seq<int>, n: nat, m: nat, k: nat, at: nat)
    requires n <= m && k > 0 && at == m * (k - 1) && at + m == m * k <= |s|
    ensures Columns(s, n, m, k) == Columns(s, n, m, k - 1) + Sum(s[at..at + n])
  {
    if n > 0 {
      RowAdded(s, n - 1, m, k, at);
      assert s[at..at + n][..n - 1] == s[at..at + n - 1];
    }
  }

  /** Adding up by columns gives the sum in order. */
  lemma {:induction false} ColumnsSum(s: seq<int>, m: nat, k: nat, end: nat)
    requires end == m * k <= |s|
    ensures Columns(s, m, m, k) == Sum(s[..end])
    decreases k
  {
    if k == 0 {
      NoRows(s, m, m);
    } else {
      var at := m * (k - 1);
      assert m * k == at + m;
      RowAdded(s, m, m, k, at);
      ColumnsSum(s, m, k - 1, at);
      assert s[..end] == s[..at] + s[at..end];
      SumConcat(s[..at], s[at..end]);
    }
  }

  lemma {:induction false} NoRows(s: seq<int>, n: nat, m: nat)
    requires n <= m
    ensures Columns(s, n, m, 0) == 0
  {
    if n > 0 { NoRows(s, n - 1, m); }
  }

  // ----- products

  /** The products of two runs, term by term. */
  ghost function Terms(a: seq<int>, b: seq<int>): (t: seq<int>)
    requires |a| == |b|
    ensures |t| == |a| && forall p :: 0 <= p < |a| ==> t[p] == a[p] * b[p]
  {
    seq(|a|, p requires 0 <= p < |a| => a[p] * b[p])
  }

  /** Row after row of a matrix with `cols` columns: the place of an entry. */
  function At(i: nat, j: nat, cols: nat): nat { i * cols + j }

  /** The rows up to `i` take up no more than all rows. */
  lemma {:induction false} RowsBelow(i: nat, rows: nat, cols: nat)
    requires i < rows
    ensures i * cols + cols <= rows * cols
  {
    var d := rows - i - 1;
    assert rows * cols == (i + 1 + d) * cols == i * cols + cols + d * cols;
    assert d * cols >= 0;
  }

  /** An entry is at its row times the length of a row, plus its column. */
  lemma {:induction false} AtIs(i: nat, j: nat, cols: nat)
    ensures At(i, j, cols) == i * cols + j
  {
  }

  lemma {:induction false} AtInside(i: nat, j: nat, rows: nat, cols: nat)
    requires i < rows && j < cols
    ensures At(i, j, cols) < rows * cols
  {
    hide At;
    AtIs(i, j, cols);
    RowsBelow(i, rows, cols);
  }

  lemma {:induction false} AtDistinct(i: nat, j: nat, i': nat, j': nat, cols: nat)
    requires j < cols && j' < cols && At(i, j, cols) == At(i', j', cols)
    ensures i == i' && j == j'
  {
    if i < i' { AtInside(i, j, i', cols); assert false; }
    if i' < i { AtInside(i', j', i, cols); assert false; }
  }

  /** Every place of a matrix is that of one of its entries. */
  lemma {:induction false} AtSome(x: nat, rows: nat, cols: nat) returns (i: nat, j: nat)
    requires x < rows * cols
    ensures i < rows && j < cols && x == At(i, j, cols)
    decreases rows
  {
    assert rows * cols == (rows - 1) * cols + cols;
    if x >= (rows - 1) * cols {
      i, j := rows - 1, x - (rows - 1) * cols;
    } else {
      i, j := AtSome(x, rows - 1, cols);
    }
  }

  ghost function RowOf(m: seq<int>, i: nat, cols: nat): (r: seq<int>)
    requires At(i, cols, cols) <= |m|
    ensures |r| == cols
  {
    m[At(i, 0, cols)..At(i, cols, cols)]
  }

  ghost function ColumnOf(m: seq<int>, j: nat, rows: nat, cols: nat): (c: seq<int>)
    requires j < cols && |m| == rows * cols
    ensures |c| == rows
  {
    seq(rows, r requires 0 <= r < rows => (AtInside(r, j, rows, cols); m[At(r, j, cols)]))
  }

  /** The entry of the product of `l` and `r` in row `i` and column `j`, before wrapping. */
  ghost function Entry(l: seq<int>, r: seq<int>, i: nat, j: nat, mid: nat, cols: nat): int
    requires At(i, mid, mid) <= |l| && j < cols && |r| == mid * cols
  {
    Sum(Terms(RowOf(l, i, mid), ColumnOf(r, j, mid, cols)))
  }

  /** `p` is the wrapped product of `l`, of `rows` times `mid`, and `r`, of `mid` times `cols`. */
  ghost predicate IsProduct(l: seq<int>, r: seq<int>, p: seq<int>, rows: nat, mid: nat, cols: nat)
    requires |l| == rows * mid && |r| == mid * cols
  {
    && |p| == rows * cols
    && forall i: nat, j: nat | i < rows && j < cols ::
         (RowInside(i, rows, mid); AtInside(i, j, rows, cols); p[At(i, j, cols)] == Wrap(Entry(l, r, i, j, mid, cols)))
  }

  lemma {:induction false} RowInside(i: nat, rows: nat, mid: nat)
    requires i < rows
    ensures At(i, mid, mid) <= rows * mid
  {
    RowsBelow(i, rows, mid);
  }

  /** There is one product. */
  lemma {:induction false} OneProduct(l: seq<int>, r: seq<int>, p: seq<int>, q: seq<int>, rows: nat, mid: nat, cols: nat)
    requires |l| == rows * mid && |r| == mid * cols
    requires IsProduct(l, r, p, rows, mid, cols) && IsProduct(l, r, q, rows, mid, cols)
    ensures p == q
  {
    forall x | 0 <= x < rows * cols ensures p[x] == q[x] {
      var i, j := AtSome(x, rows, cols);
    }
  }

  lemma {:induction false} EntryTerms(l: seq<int>, r: seq<int>, p: seq<int>, rows: nat, mid: nat, cols: nat, i: nat, j: nat, terms: seq<int>)
    requires |l| == rows * mid && |r| == mid * cols && IsProduct(l, r, p, rows, mid, cols) && i < rows && j < cols && |terms| == mid
    requires forall k: nat :: k < mid ==>
      At(i, k, mid) < |l| && At(k, j, cols) < |r| && terms[k] == l[At(i, k, mid)] * r[At(k, j, cols)]
    ensures At(i, j, cols) < |p| && p[At(i, j, cols)] == Wrap(Sum(terms))
  {
    hide Wrap, Sum;
    RowInside(i, rows, mid);
    AtInside(i, j, rows, cols);
    assert terms == Terms(RowOf(l, i, mid), ColumnOf(r, j, mid, cols));
  }

  /** Every entry of a product is a 32-bit value congruent to the sum of the products of its row and its column, and that
      sum itself if it fits in 32 bits. */
  lemma {:induction false} EntryIs(l: seq<int>, r: seq<int>, p: seq<int>, rows: nat, mid: nat, cols: nat, i: nat, j: nat, terms: seq<int>)
    requires |l| == rows * mid && |r| == mid * cols && IsProduct(l, r, p, rows, mid, cols) && i < rows && j < cols && |terms| == mid
    requires forall k: nat :: k < mid ==>
      At(i, k, mid) < |l| && At(k, j, cols) < |r| && terms[k] == l[At(i, k, mid)] * r[At(k, j, cols)]
    ensures At(i, j, cols) < |p|
    ensures var x := p[At(i, j, cols)];
      && -0x8000_0000 <= x < 0x8000_0000 && (x - Sum(terms)) % 0x1_0000_0000 == 0
      && (-0x8000_0000 <= Sum(terms) < 0x8000_0000 ==> x == Sum(terms))
  {
    hide Wrap, Sum, At, IsProduct;
    EntryTerms(l, r, p, rows, mid, cols, i, j, terms);
    WrapIs(Sum(terms), p[At(i, j, cols)]);
  }

  // ----- filling in a product, row after row

  /** The rows before `i` are filled in, and row `i` up to column `j`. */
  ghost predicate Filled(l: seq<int>, r: seq<int>, p: seq<int>, rows: nat, mid: nat, cols: nat, i: nat, j: nat)
    requires |l| == rows * mid && |r| == mid * cols
  {
    && |p| == rows * cols
    && forall a: nat, b: nat | a < rows && b < cols && (a < i || (a == i && b < j)) ::
         (RowInside(a, rows, mid); AtInside(a, b, rows, cols); p[At(a, b, cols)] == Wrap(Entry(l, r, a, b, mid, cols)))
  }

  lemma {:induction false} FilledStart(l: seq<int>, r: seq<int>, p: seq<int>, rows: nat, mid: nat, cols: nat)
    requires |l| == rows * mid && |r| == mid * cols && |p| == rows * cols
    ensures Filled(l, r, p, rows, mid, cols, 0, 0)
  {
  }

  /** The next entry may still change. */
  lemma {:induction false} FilledSet(l: seq<int>, r: seq<int>, p: seq<int>, rows: nat, mid: nat, cols: nat, i: nat, j: nat, x: int)
    requires |l| == rows * mid && |r| == mid * cols && Filled(l, r, p, rows, mid, cols, i, j) && i < rows && j < cols
    requires At(i, j, cols) < |p|
    ensures Filled(l, r, p[At(i, j, cols) := x], rows, mid, cols, i, j)
  {
    hide At, Entry, Wrap;
    var p' := p[At(i, j, cols) := x];
    forall a: nat, b: nat | a < rows && b < cols && (a < i || (a == i && b < j))
      ensures At(a, mid, mid) <= |l| && At(a, b, cols) < |p| && p'[At(a, b, cols)] == Wrap(Entry(l, r, a, b, mid, cols))
    {
      RowInside(a, rows, mid);
      AtInside(a, b, rows, cols);
      if At(a, b, cols) == At(i, j, cols) { AtDistinct(a, b, i, j, cols); }
    }
  }

  lemma {:induction false} FilledMore(l: seq<int>, r: seq<int>, p: seq<int>, rows: nat, mid: nat, cols: nat, i: nat, j: nat)
    requires |l| == rows * mid && |r| == mid * cols && Filled(l, r, p, rows, mid, cols, i, j) && i < rows && j < cols
    requires At(i, j, cols) < |p| && At(i, mid, mid) <= |l| && p[At(i, j, cols)] == Wrap(Entry(l, r, i, j, mid, cols))
    ensures Filled(l, r, p, rows, mid, cols, i, j + 1)
  {
    hide At, Entry, Wrap;
  }

  lemma {:induction false} FilledRow(l: seq<int>, r: seq<int>, p: seq<int>, rows: nat, mid: nat, cols: nat, i: nat)
    requires |l| == rows * mid && |r| == mid * cols && Filled(l, r, p, rows, mid, cols, i, cols)
    ensures Filled(l, r, p, rows, mid, cols, i + 1, 0)
  {
    hide At, Entry, Wrap;
  }

  lemma {:induction false} FilledAll(l: seq<int>, r: seq<int>, p: seq<int>, rows: nat, mid: nat, cols: nat)
    requires |l| == rows * mid && |r| == mid * cols && Filled(l, r, p, rows, mid, cols, rows, 0)
    ensures IsProduct(l, r, p, rows, mid, cols)
  {
    hide At, Entry, Wrap;
  }
}
