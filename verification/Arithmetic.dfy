/** Division and remainder facts shared by the other modules. */
module Arithmetic {

  /** The middle of a range of positions, rounded down. */
  function Mid(l: int, r: int): int { (l + r) / 2 }

  lemma {:induction false} AtLeastOnce(m: int, d: int)
    requires m > 0 && d >= 1
    ensures m * d >= m && m * (-d) <= -m
  {
    assert m * d == m + m * (d - 1);
    assert m * (-d) == -(m * d);
  }

  /** Quotient and remainder are unique. */
  lemma {:induction false} Remainder(x: int, m: int, a: int, r: int)
    requires m > 0 && x == m * a + r && 0 <= r < m
    ensures x % m == r && x / m == a
  {
    var q := x / m;
    var d := a - q;
    assert m * d == m * a - m * q;
    if d >= 1 { AtLeastOnce(m, d); }
    if d <= -1 { AtLeastOnce(m, -d); }
  }

  lemma {:induction false} MultiplesAdd(a: int, b: int, page: int)
    requires page > 0 && a % page == 0 && b % page == 0
    ensures (a + b) % page == 0
  {
    var i, j := a / page, b / page;
    assert a + b == page * (i + j);
    Remainder(a + b, page, i + j, 0);
  }

  /** Two numbers less than `r` apart have different remainders. */
  lemma {:induction false} ModDistinct(k: int, n: int, r: int)
    requires k < n < k + r
    ensures k % r != n % r
  {
    var a, b := k / r, n / r;
    var d := b - a;
    assert n - k == r * d + (n % r - k % r);
    if d >= 1 { AtLeastOnce(r, d); }
    if d <= -1 { AtLeastOnce(r, -d); }
  }

  lemma {:induction false} ModNext(n: int, r: int)
    requires r > 0
    ensures (n + 1) % r == (n % r + 1) % r
  {
    var a, b := n / r, n % r;
    if b + 1 < r {
      Remainder(n + 1, r, a, b + 1);
      Remainder(b + 1, r, 0, b + 1);
    } else {
      assert n + 1 == r * (a + 1) + 0;
      Remainder(n + 1, r, a + 1, 0);
      Remainder(r, r, 1, 0);
    }
  }

  // ----- congruence

  ghost predicate Cong(a: int, b: int, m: int)
    requires m > 0
  {
    (a - b) % m == 0
  }

  lemma {:induction false} CongBy(a: int, b: int, m: int, k: int)
    requires m > 0 && a - b == m * k
    ensures Cong(a, b, m) && Cong(b, a, m)
  {
    Remainder(a - b, m, k, 0);
    assert b - a == m * (-k);
    Remainder(b - a, m, -k, 0);
  }

  lemma {:induction false} CongQuotient(a: int, b: int, m: int) returns (k: int)
    requires m > 0 && Cong(a, b, m)
    ensures a - b == m * k
  {
    k := (a - b) / m;
  }

  lemma {:induction false} CongMod(a: int, m: int)
    requires m > 0
    ensures Cong(a % m, a, m) && 0 <= a % m < m
  {
    assert a % m - a == m * (-(a / m));
    CongBy(a % m, a, m, -(a / m));
  }

  lemma {:induction false} CongTrans(a: int, b: int, c: int, m: int)
    requires m > 0 && Cong(a, b, m) && Cong(b, c, m)
    ensures Cong(a, c, m)
  {
    var k := CongQuotient(a, b, m);
    var l := CongQuotient(b, c, m);
    assert a - c == m * (k + l);
    CongBy(a, c, m, k + l);
  }

  lemma {:induction false} CongSym(a: int, b: int, m: int)
    requires m > 0 && Cong(a, b, m)
    ensures Cong(b, a, m)
  {
    var k := CongQuotient(a, b, m);
    CongBy(a, b, m, k);
  }

  lemma {:induction false} CongAdd(a: int, b: int, c: int, d: int, m: int)
    requires m > 0 && Cong(a, b, m) && Cong(c, d, m)
    ensures Cong(a + c, b + d, m)
  {
    var k := CongQuotient(a, b, m);
    var l := CongQuotient(c, d, m);
    assert (a + c) - (b + d) == m * (k + l);
    CongBy(a + c, b + d, m, k + l);
  }

  lemma {:induction false} CongMul(a: int, b: int, c: int, m: int)
    requires m > 0 && Cong(a, b, m)
    ensures Cong(a * c, b * c, m) && Cong(c * a, c * b, m)
  {
    var k := CongQuotient(a, b, m);
    assert a * c - b * c == (a - b) * c == m * (k * c);
    CongBy(a * c, b * c, m, k * c);
    assert c * a == a * c && c * b == b * c;
  }

  /** Congruent remainders are equal. */
  lemma {:induction false} CongUnique(a: int, b: int, m: int)
    requires 0 <= a < m && 0 <= b < m && Cong(a, b, m)
    ensures a == b
  {
    var k := CongQuotient(a, b, m);
    if k >= 1 { AtLeastOnce(m, k); }
    if k <= -1 { AtLeastOnce(m, -k); }
  }

  // ----- sums

  function Sum(a: seq<int>): int { if a == [] then 0 else Sum(a[..|a| - 1]) + a[|a| - 1] }

  lemma {:induction false} SumUpdate(a: seq<int>, i: nat, x: int)
    requires i < |a|
    ensures Sum(a[i := x]) == Sum(a) - a[i] + x
  {
    var last := |a| - 1;
    if i == last {
      assert a[i := x][..last] == a[..last];
    } else {
      SumUpdate(a[..last], i, x);
      assert a[i := x][..last] == a[..last][i := x];
    }
  }

  lemma {:induction false} ZeroSum(a: seq<int>)
    requires forall i :: 0 <= i < |a| ==> a[i] == 0
    ensures Sum(a) == 0
  {
    if a != [] { ZeroSum(a[..|a| - 1]); }
  }

  lemma {:induction false} SumConcat(a: seq<int>, b: seq<int>)
    ensures Sum(a + b) == Sum(a) + Sum(b)
  {
    if b == [] {
      assert a + b == a;
    } else {
      assert (a + b)[..|a + b| - 1] == a + b[..|b| - 1];
      SumConcat(a, b[..|b| - 1]);
    }
  }
}
