/** Segment trees stored in an array, the children of node n at 2n and 2n + 1. */
module HeapTree {
  import opened Arithmetic

  /** `m` is `n` or a descendant of `n`. */
  predicate Below(m: nat, n: nat)
    decreases m
  {
    m == n || (m > n && m > 1 && Below(m / 2, n))
  }

  lemma {:induction false} BelowAtLeast(m: nat, n: nat)
    requires Below(m, n)
    ensures m >= n
  {
  }

  lemma {:induction false} BelowChild(m: nat, n: nat)
    requires n > 0 && (Below(m, 2 * n) || Below(m, 2 * n + 1))
    ensures Below(m, n) && m != n
    decreases m
  {
    if m != 2 * n && m != 2 * n + 1 {
      BelowChild(m / 2, n);
    }
  }

  /** The subtrees of the two children share no node. */
  lemma {:induction false} BelowDisjoint(m: nat, n: nat)
    requires n > 0 && Below(m, 2 * n)
    ensures !Below(m, 2 * n + 1)
    decreases m
  {
    if Below(m, 2 * n + 1) {
      BelowAtLeast(m, 2 * n + 1);
      BelowDisjoint(m / 2, n);
    }
  }

  /** The array is long enough for the subtree of `n` over [l, r]. */
  ghost predicate Fits(size: nat, n: nat, l: int, r: int)
    decreases r - l
  {
    && l <= r && 0 < n < size
    && (l < r ==> Fits(size, 2 * n, l, Mid(l, r)) && Fits(size, 2 * n + 1, Mid(l, r) + 1, r))
  }

  /** `t'` differs from `t` in the subtree of `n` only. */
  ghost predicate OnlyBelow<T>(t: seq<T>, t': seq<T>, n: nat) {
    |t'| == |t| && forall m :: 0 <= m < |t| && !Below(m, n) ==> t'[m] == t[m]
  }

  /** `t'` agrees with `t` on the subtree of `n`. */
  ghost predicate SameBelow<T>(t: seq<T>, t': seq<T>, n: nat) {
    |t'| == |t| && forall m :: 0 <= m < |t| && Below(m, n) ==> t'[m] == t[m]
  }

  /** A change below one child is a change below the node and leaves the other child and the node alone. */
  lemma {:induction false} ChildChange<T>(t: seq<T>, t': seq<T>, n: nat, left: bool)
    requires n > 0 && OnlyBelow(t, t', if left then 2 * n else 2 * n + 1)
    ensures OnlyBelow(t, t', n) && SameBelow(t, t', if left then 2 * n + 1 else 2 * n) && (n < |t| ==> t'[n] == t[n])
  {
    forall m | 0 <= m < |t| && !Below(m, n) ensures t'[m] == t[m] {
      if Below(m, 2 * n) || Below(m, 2 * n + 1) { BelowChild(m, n); }
    }
    forall m | 0 <= m < |t| && Below(m, if left then 2 * n + 1 else 2 * n) ensures t'[m] == t[m] {
      if Below(m, 2 * n) { BelowDisjoint(m, n); }
    }
    if n < |t| && Below(n, if left then 2 * n else 2 * n + 1) {
      BelowAtLeast(n, if left then 2 * n else 2 * n + 1);
    }
  }

  /** A change of the node alone leaves both children alone. */
  lemma {:induction false} NodeChange<T>(t: seq<T>, t': seq<T>, n: nat)
    requires 0 < n < |t| == |t'| && t' == t[n := t'[n]]
    ensures OnlyBelow(t, t', n) && SameBelow(t, t', 2 * n) && SameBelow(t, t', 2 * n + 1)
  {
    forall m: nat | Below(m, 2 * n) || Below(m, 2 * n + 1) ensures m != n { BelowChild(m, n); }
  }

  lemma {:induction false} SameBelowChildren<T>(t: seq<T>, t': seq<T>, n: nat)
    requires n > 0 && SameBelow(t, t', n)
    ensures SameBelow(t, t', 2 * n) && SameBelow(t, t', 2 * n + 1)
  {
    forall m | 0 <= m < |t| && (Below(m, 2 * n) || Below(m, 2 * n + 1)) ensures t'[m] == t[m] { BelowChild(m, n); }
  }

  /** Changing the two children themselves is a change below the node. */
  lemma {:induction false} ChildrenBelow(n: nat)
    requires n > 0
    ensures Below(2 * n, n) && Below(2 * n + 1, n) && Below(2 * n, 2 * n) && Below(2 * n + 1, 2 * n + 1)
    ensures !Below(n, 2 * n) && !Below(n, 2 * n + 1) && !Below(2 * n, 2 * n + 1) && !Below(2 * n + 1, 2 * n)
  {
    if Below(2 * n + 1, 2 * n) { BelowDisjoint(2 * n + 1, n); }
  }

  lemma {:induction false} OnlyBelowSelf<T>(t: seq<T>, n: nat)
    ensures OnlyBelow(t, t, n)
  {
  }

  lemma {:induction false} OnlyBelowTwice<T>(t: seq<T>, u: seq<T>, v: seq<T>, n: nat)
    requires OnlyBelow(t, u, n) && OnlyBelow(u, v, n)
    ensures OnlyBelow(t, v, n)
  {
  }

  /** The least power of two that is at least `m`. */
  function Cap(m: nat): nat { if m <= 1 then 1 else 2 * Cap((m + 1) / 2) }

  lemma {:induction false} CapGrows(a: nat, b: nat)
    requires a <= b
    ensures 1 <= Cap(a) <= Cap(b) && (b > 0 ==> Cap(b) <= 2 * b - 1)
    decreases b
  {
    if b > 1 { CapGrows(if a > 1 then (a + 1) / 2 else 0, (b + 1) / 2); }
  }

  lemma {:induction false} ChildRoom(n: nat, half: nat, small: nat)
    requires 1 <= small <= half
    ensures (2 * n + 1) * half <= (n + 1) * (2 * half) && (2 * n + 2) * small <= (n + 1) * (2 * half)
    ensures n < (n + 1) * half
  {
    assert (n + 1) * (2 * half) == (2 * n + 2) * half;
    assert (2 * n + 2) * (half - small) >= 0;
    assert (n + 1) * (half - 1) >= 0;
  }

  lemma {:induction false} FitsBelow(size: nat, n: nat, l: int, r: int, cap: nat)
    requires l <= r && n > 0 && cap == Cap(r - l + 1) && (n + 1) * cap <= size
    ensures Fits(size, n, l, r)
    decreases r - l
  {
    var m := r - l + 1;
    CapGrows(0, m);
    ChildRoom(n, cap, cap);
    if l < r {
      var half, small := Cap((m + 1) / 2), Cap(m / 2);
      CapGrows(0, m / 2);
      CapGrows(m / 2, (m + 1) / 2);
      ChildRoom(n, half, small);
      assert cap == 2 * half;
      assert Mid(l, r) - l + 1 == (m + 1) / 2 && r - (Mid(l, r) + 1) + 1 == m / 2;
      FitsBelow(size, 2 * n, l, Mid(l, r), half);
      FitsBelow(size, 2 * n + 1, Mid(l, r) + 1, r, small);
    }
  }

  /** Four times as many nodes as positions are enough. */
  lemma {:induction false} FourfoldFits(N: nat)
    requires N > 0
    ensures Fits(4 * N, 1, 1, N)
  {
    CapGrows(0, N);
    FitsBelow(4 * N, 1, 1, N, Cap(N));
  }
}
