/** Sequence facts shared by the other modules. */
module Seqs {

  ghost predicate Distinct<T>(s: seq<T>) {
    forall i, j :: 0 <= i < j < |s| ==> s[i] != s[j]
  }

  ghost function Elements<T>(s: seq<T>): set<T> {
    set x | x in s
  }

  /** `s` with its first occurrence of `x` removed; `s` itself when `x` does not occur. */
  function Without<T(==)>(s: seq<T>, x: T): seq<T> {
    if s == [] then []
    else if s[0] == x then s[1..]
    else [s[0]] + Without(s[1..], x)
  }

  lemma {:induction false} WithoutConcat<T>(a: seq<T>, b: seq<T>, x: T)
    ensures Without(a + b, x) == if x in a then Without(a, x) + b else a + Without(b, x)
  {
    hide Without;
    if a == [] {
      assert a + b == b;
    } else {
      var h, t := a[0], a[1..];
      FirstOf(a, b, x);
      WithoutFirst(a, x);
      WithoutFirst(a + b, x);
      if h != x {
        WithoutConcat(t, b, x);
        if x in t { Regroup([h], Without(t, x), b); } else { Regroup([h], t, Without(b, x)); }
      }
    }
  }

  lemma {:induction false} FirstOf<T>(a: seq<T>, b: seq<T>, x: T)
    requires a != []
    ensures (a + b)[0] == a[0] && (a + b)[1..] == a[1..] + b && a == [a[0]] + a[1..] && (x in a <==> x == a[0] || x in a[1..])
  {
  }

  lemma {:induction false} Regroup<T>(a: seq<T>, b: seq<T>, c: seq<T>)
    ensures a + (b + c) == (a + b) + c
  {
  }

  lemma {:induction false} WithoutFirst<T>(s: seq<T>, x: T)
    requires s != []
    ensures Without(s, x) == if s[0] == x then s[1..] else [s[0]] + Without(s[1..], x)
  {
  }

  lemma {:induction false} WithoutAbsent<T>(s: seq<T>, x: T)
    requires x !in s
    ensures Without(s, x) == s
  {
    if s != [] {
      WithoutAbsent(s[1..], x);
    }
  }

  /** Removing the element at `i`, when it has not occurred before, is `Without`. */
  lemma {:induction false} WithoutAt<T>(s: seq<T>, i: nat)
    requires i < |s| && s[i] !in s[..i]
    ensures Without(s, s[i]) == s[..i] + s[i + 1..]
  {
    assert s == s[..i] + s[i..];
    WithoutConcat(s[..i], s[i..], s[i]);
  }

  lemma {:induction false} WithoutDistinct<T>(s: seq<T>, x: T)
    requires Distinct(s)
    ensures Distinct(Without(s, x))
    ensures forall y :: y in Without(s, x) <==> y in s && y != x
    ensures |Without(s, x)| == if x in s then |s| - 1 else |s|
  {
    if s != [] {
      assert forall i, j :: 0 <= i < j < |s[1..]| ==> s[1..][i] == s[i + 1] && s[1..][j] == s[j + 1];
      assert s[0] !in s[1..];
      WithoutDistinct(s[1..], x);
      assert s == [s[0]] + s[1..];
    }
  }

  lemma {:induction false} WithoutDistinctAppend<T>(s: seq<T>, x: T)
    requires Distinct(s)
    ensures Distinct(Without(s, x) + [x])
  {
    WithoutDistinct(s, x);
  }

  lemma {:induction false} WithoutMembers<T>(s: seq<T>, x: T)
    ensures forall y :: y in Without(s, x) ==> y in s
    ensures forall y :: y in s && y != x ==> y in Without(s, x)
  {
    if s != [] {
      assert s == [s[0]] + s[1..];
      WithoutMembers(s[1..], x);
    }
  }

  /** The same by index, which also serves for sequences of references. */
  lemma {:induction false} WithoutIndices<T>(s: seq<T>, x: T)
    ensures var w := Without(s, x); forall i :: 0 <= i < |w| ==> w[i] in s && (Distinct(s) ==> w[i] != x)
    ensures var w := Without(s, x); forall i :: 0 <= i < |s| && s[i] != x ==> s[i] in w
    ensures Distinct(s) ==> Distinct(Without(s, x)) && x !in Without(s, x)
  {
    if x in s {
      var k := FirstIndex(s, x);
      WithoutAt(s, k);
    } else {
      WithoutAbsent(s, x);
    }
  }

  lemma {:induction false} FirstIndex<T>(s: seq<T>, x: T) returns (k: nat)
    requires x in s
    ensures k < |s| && s[k] == x && x !in s[..k]
  {
    if s[0] == x {
      k := 0;
    } else {
      k := FirstIndex(s[1..], x);
      k := k + 1;
      assert s[..k] == [s[0]] + s[1..][..k - 1];
    }
  }

  /** The last `n` elements of `s`, or all of them when there are fewer. */
  function LastN<T>(s: seq<T>, n: nat): seq<T> {
    if |s| <= n then s else s[|s| - n..]
  }

  lemma {:induction false} LastNSplit<T>(older: seq<T>, recent: seq<T>, n: nat)
    requires |recent| == n || (older == [] && |recent| <= n)
    ensures LastN(older + recent, n) == recent
  {
  }

  /** A sequence without repetitions is no longer than one that contains all its elements. */
  lemma {:induction false} Pigeonhole<T>(a: seq<T>, b: seq<T>)
    requires Distinct(a)
    requires forall x :: x in a ==> x in b
    ensures |a| <= |b|
  {
    if a != [] {
      assert a[0] in b;
      var i :| 0 <= i < |b| && b[i] == a[0];
      var rest := b[..i] + b[i + 1..];
      forall x | x in a[1..] ensures x in rest {
        assert x != a[0];
        assert x in b;
        var k :| 0 <= k < |b| && b[k] == x;
        assert rest[if k < i then k else k - 1] == x;
      }
      Pigeonhole(a[1..], rest);
    }
  }

  /** A list with `x` put in at `k`. */
  lemma {:induction false} InsertedAt<T>(s: seq<T>, k: nat, x: T, i: nat)
    requires k <= |s| && i <= |s|
    ensures (s[..k] + [x] + s[k..])[i] == if i == k then x else s[if i < k then i else i - 1]
  {
  }

  /** A list without its element `k`. */
  lemma {:induction false} RemovedAt<T>(s: seq<T>, k: nat, i: nat)
    requires k < |s| && i < |s| - 1
    ensures (s[..k] + s[k + 1..])[i] == s[if i < k then i else i + 1]
  {
  }

  lemma {:induction false} InsertedDistinct<T>(s: seq<T>, k: nat, x: T)
    requires Distinct(s) && k <= |s| && x !in s
    ensures Distinct(s[..k] + [x] + s[k..])
  {
    var more := s[..k] + [x] + s[k..];
    forall i, j | 0 <= i < j < |more|
      ensures more[i] != more[j]
    {
      InsertedAt(s, k, x, i);
      InsertedAt(s, k, x, j);
    }
  }

  lemma {:induction false} RemovedDistinct<T>(s: seq<T>, k: nat)
    requires Distinct(s) && k < |s|
    ensures Distinct(s[..k] + s[k + 1..])
  {
    var less := s[..k] + s[k + 1..];
    forall i, j | 0 <= i < j < |less|
      ensures less[i] != less[j]
    {
      RemovedAt(s, k, i);
      RemovedAt(s, k, j);
    }
  }
}
