/** The degrees of the roots of the priority queue: when linking and merging leave them in strictly ascending order. */
module Degrees {

  // ----- linking and merging on degrees alone

  function Link(a: seq<nat>, b: seq<nat>): seq<nat> {
    if a == [] then b else if b == [] then a
    else if a[0] <= b[0] then [a[0]] + Link(a[1..], b)
    else [b[0]] + Link(a, b[1..])
  }

  function MergeHead(s: seq<nat>): seq<nat>
    decreases |s|
  {
    if |s| >= 2 && s[0] == s[1] then MergeHead([s[0] + 1] + s[2..]) else s
  }

  function MergeTail(s: seq<nat>): seq<nat> {
    if |s| < 2 then s
    else if s[0] == s[1] && !(|s| > 2 && s[1] == s[2]) then [s[0] + 1] + MergeTail(s[2..])
    else [s[0]] + MergeTail(s[1..])
  }

  function Merge(s: seq<nat>): seq<nat> {
    var h := MergeHead(s);
    if h == [] then [] else [h[0]] + MergeTail(h[1..])
  }

  ghost predicate Ascending(s: seq<nat>) {
    forall i, j :: 0 <= i < j < |s| ==> s[i] < s[j]
  }

  // ----- the list between the two steps: each degree once or twice, in order

  ghost predicate Paired(s: seq<nat>) {
    && (forall i, j :: 0 <= i < j < |s| ==> s[i] <= s[j])
    && forall i, j :: 0 <= i && i + 1 < j < |s| ==> s[i] < s[j]
  }

  ghost function Count(s: seq<nat>, d: nat): nat { multiset(s)[d] }

  /** No degree that occurs twice is followed by one that occurs once. */
  ghost predicate Clean(s: seq<nat>) {
    forall d: nat :: Count(s, d) == 2 ==> Count(s, d + 1) != 1
  }

  lemma {:induction false} CountFirst(s: seq<nat>, d: nat)
    requires s != []
    ensures Count(s, d) == Count(s[1..], d) + if s[0] == d then 1 else 0
  {
    assert s == [s[0]] + s[1..];
  }

  lemma {:induction false} CountNone(s: seq<nat>, d: nat)
    requires forall i :: 0 <= i < |s| ==> s[i] != d
    ensures Count(s, d) == 0
  {
  }

  /** How often the first degree occurs, and lower ones. */
  lemma {:induction false} CountsLow(s: seq<nat>, d: nat)
    requires Paired(s) && s != [] && d <= s[0]
    ensures Count(s, d) == if d < s[0] then 0 else if |s| > 1 && s[1] == s[0] then 2 else 1
  {
    CountFirst(s, d);
    if |s| > 1 && s[1] == d {
      CountFirst(s[1..], d);
      CountNone(s[1..][1..], d);
    } else {
      CountNone(s[1..], d);
    }
  }

  /** The first degree after the tail was merged. */
  lemma {:induction false} TailFirst(s: seq<nat>)
    requires Paired(s) && s != []
    ensures MergeTail(s) != [] && MergeTail(s)[0] == if |s| > 1 && s[0] == s[1] then s[0] + 1 else s[0]
  {
  }

  lemma {:induction false} AscendingFirst(d: nat, s: seq<nat>)
    ensures Ascending([d] + s) <==> Ascending(s) && (s == [] || d < s[0])
  {
    var t := [d] + s;
    if Ascending(t) {
      forall i, j | 0 <= i < j < |s| ensures s[i] < s[j] { assert t[i + 1] < t[j + 1]; }
      assert s != [] ==> t[0] < t[1];
    }
  }

  /** Taking a lowest degree off the front. */
  lemma {:induction false} CountsWithout(s: seq<nat>, r: seq<nat>, n: nat)
    requires Paired(s) && s != [] && n == (if |s| > 1 && s[1] == s[0] then 2 else 1) && r == s[n..]
    ensures Paired(r) && forall e: nat :: Count(s, e) == (if e == s[0] then n else Count(r, e)) && (e <= s[0] ==> Count(r, e) == 0)
  {
    forall e: nat ensures Count(s, e) == (if e == s[0] then n else Count(r, e)) && (e <= s[0] ==> Count(r, e) == 0) {
      if e <= s[0] { CountNone(r, e); }
      CountFirst(s, e);
      if n == 2 {
        CountFirst(s[1..], e);
        assert s[1..][1..] == r;
      }
    }
  }

  lemma {:induction false} CleanWithout(s: seq<nat>, r: seq<nat>, d: nat, n: nat)
    requires forall e: nat :: Count(s, e) == (if e == d then n else Count(r, e)) && (e <= d ==> Count(r, e) == 0)
    ensures n == 1 ==> (Clean(s) <==> Clean(r))
    ensures n == 2 ==> (Clean(s) <==> Clean(r) && Count(r, d + 1) != 1)
  {
    hide Count;
    assert Count(s, d) == n && Count(s, d + 1) == Count(r, d + 1) && Count(r, d) == 0;
    if Clean(s) {
      forall e: nat | Count(r, e) == 2 ensures Count(r, e + 1) != 1 { assert Count(s, e) == 2; assert Count(s, e + 1) == Count(r, e + 1); }
    }
    if Clean(r) && (n == 1 || (n == 2 && Count(r, d + 1) != 1)) {
      forall e: nat | Count(s, e) == 2 ensures Count(s, e + 1) != 1 {
        if e != d { assert Count(r, e) == 2; assert Count(s, e + 1) == Count(r, e + 1); }
      }
    }
  }

  /** Merging the tail leaves it ascending exactly when it is clean. */
  lemma {:induction false} TailAscending(s: seq<nat>)
    requires Paired(s)
    ensures Ascending(MergeTail(s)) <==> Clean(s)
    decreases |s|
  {
    hide Ascending, Clean, Count;
    if s == [] {
      NothingToMerge();
    } else {
      var n := if |s| > 1 && s[1] == s[0] then 2 else 1;
      var d, r := s[0], s[n..];
      CountsWithout(s, r, n);
      CleanWithout(s, r, d, n);
      TailAscending(r);
      AscendingFirst(if n == 2 then d + 1 else d, MergeTail(r));
      if r != [] {
        TailFirst(r);
        CountsLow(r, d + 1);
      } else {
        CountNone(r, d + 1);
      }
      TailStep(s, n);
    }
  }

  lemma {:induction false} TailStep(s: seq<nat>, n: nat)
    requires Paired(s) && s != [] && n == (if |s| > 1 && s[1] == s[0] then 2 else 1)
    ensures MergeTail(s) == [if n == 2 then s[0] + 1 else s[0]] + MergeTail(s[n..])
  {
  }

  lemma {:induction false} NothingToMerge()
    ensures Ascending(MergeTail([])) && Clean([])
  {
  }

  // ----- merging at the head

  /** From `c` on each degree up to `e` occurs once, and `e` does not. */
  ghost predicate Settles(r: seq<nat>, c: nat, e: nat) {
    c <= e && (forall i: nat :: c <= i < e ==> Count(r, i) == 1) && Count(r, e) != 1
  }

  ghost predicate CleanAbove(r: seq<nat>, e: nat) {
    forall d: nat :: d > e && Count(r, d) == 2 ==> Count(r, d + 1) != 1
  }

  /** The rest of merging once the head is done. */
  function Rest(h: seq<nat>): seq<nat> { if h == [] then [] else [h[0]] + MergeTail(h[1..]) }

  /** The head takes in degrees as long as they occur once; two of one degree leave one behind it. */
  lemma {:induction false} HeadAscending(c: nat, r: seq<nat>, e: nat)
    requires Paired(r) && Settles(r, c, e) && forall i :: 0 <= i < |r| ==> r[i] >= c
    ensures Ascending(Rest(MergeHead([c] + r))) <==> Count(r, e) == 0 && CleanAbove(r, e)
    decreases |r|
  {
    hide Ascending, Count, MergeHead, MergeTail;
    if r == [] || r[0] > c {
      HeadAlone(c, r);
      CountNone(r, c);
      forall d: nat | d < c ensures Count(r, d) == 0 { CountNone(r, d); }
    } else {
      CountsLow(r, c);
      if |r| > 1 && r[1] == c {
        HeadPair(c, r);
      } else {
        HeadOnce(c, r);
        CountsWithout(r, r[1..], 1);
        HeadAscending(c + 1, r[1..], e);
      }
    }
  }

  lemma {:induction false} HeadAlone(c: nat, r: seq<nat>)
    requires Paired(r) && (r == [] || r[0] > c)
    ensures Ascending(Rest(MergeHead([c] + r))) <==> Clean(r)
  {
    hide Ascending, Clean, MergeTail;
    var t := [c] + r;
    assert MergeHead(t) == t && t[1..] == r;
    TailAscending(r);
    AscendingFirst(c, MergeTail(r));
    if r != [] { TailFirst(r); } else { assert MergeTail(r) == [] by { EmptyTail(); } }
  }

  lemma {:induction false} EmptyTail()
    ensures MergeTail([]) == []
  {
  }

  lemma {:induction false} HeadPair(c: nat, r: seq<nat>)
    requires Paired(r) && |r| > 1 && r[0] == r[1] == c
    ensures !Ascending(Rest(MergeHead([c] + r)))
  {
    hide Ascending, MergeTail;
    var t, u := [c] + r, [c + 1] + r[1..];
    assert t[2..] == r[1..];
    assert MergeHead(t) == MergeHead(u) == u && u[1..] == r[1..];
    TailFirst(r[1..]);
    AscendingFirst(c + 1, MergeTail(r[1..]));
  }

  lemma {:induction false} HeadOnce(c: nat, r: seq<nat>)
    requires r != [] && r[0] == c
    ensures MergeHead([c] + r) == MergeHead([c + 1] + r[1..])
  {
    assert ([c] + r)[2..] == r[1..];
  }

  // ----- two queues with strictly ascending degrees

  predicate Both(a: seq<nat>, b: seq<nat>, d: nat) { d in a && d in b }
  predicate One(a: seq<nat>, b: seq<nat>, d: nat) { (d in a) != (d in b) }

  function Last(s: seq<nat>): nat { if s == [] then 0 else s[|s| - 1] }

  /** The first degree from `c` on that not exactly one of the two has. */
  function Carry(a: seq<nat>, b: seq<nat>, c: nat): (e: nat)
    requires Ascending(a) && Ascending(b)
    ensures c <= e && !One(a, b, e) && forall i: nat :: c <= i < e ==> One(a, b, i)
    decreases if c <= Last(a) + Last(b) then Last(a) + Last(b) + 1 - c else 0
  {
    if One(a, b, c) then Carry(a, b, c + 1) else c
  }

  /** The degree that the head ends with, unless both have it. */
  function HeadDegree(a: seq<nat>, b: seq<nat>): nat
    requires Ascending(a) && Ascending(b) && a != [] && b != []
  {
    var m := if a[0] <= b[0] then a[0] else b[0];
    if Both(a, b, m) then Carry(a, b, m + 1) else m
  }

  /** No two of one degree meet the head, and behind it no two of one degree are followed by a single one. */
  ghost predicate NoneLeft(a: seq<nat>, b: seq<nat>)
    requires Ascending(a) && Ascending(b) && a != [] && b != []
  {
    var c := HeadDegree(a, b);
    !Both(a, b, c) && forall d: nat :: d > c && Both(a, b, d) ==> !One(a, b, d + 1)
  }

  lemma {:induction false} AscendingCount(a: seq<nat>, d: nat)
    requires Ascending(a)
    ensures Count(a, d) == if d in a then 1 else 0
  {
    if a != [] {
      CountFirst(a, d);
      assert a == [a[0]] + a[1..];
      AscendingCount(a[1..], d);
    }
  }

  lemma {:induction false} LinkCount(a: seq<nat>, b: seq<nat>, d: nat)
    ensures Count(Link(a, b), d) == Count(a, d) + Count(b, d)
  {
    if a != [] && b != [] {
      if a[0] <= b[0] {
        LinkCount(a[1..], b, d);
        CountFirst(a, d);
        CountFirst(Link(a, b), d);
      } else {
        LinkCount(a, b[1..], d);
        CountFirst(b, d);
        CountFirst(Link(a, b), d);
      }
    }
  }

  lemma {:induction false} LinkMembers(a: seq<nat>, b: seq<nat>)
    ensures forall d :: d in Link(a, b) ==> d in a || d in b
  {
    if a != [] && b != [] {
      if a[0] <= b[0] { LinkMembers(a[1..], b); } else { LinkMembers(a, b[1..]); }
    }
  }

  lemma {:induction false} LinkPaired(a: seq<nat>, b: seq<nat>)
    requires Ascending(a) && Ascending(b)
    ensures Paired(Link(a, b))
    ensures a != [] && b != [] ==> Link(a, b)[0] == if a[0] <= b[0] then a[0] else b[0]
  {
    if a != [] && b != [] {
      if a[0] <= b[0] {
        LinkPaired(a[1..], b);
        LinkFront(a[0], Link(a[1..], b), a[1..], b);
      } else {
        LinkPaired(a, b[1..]);
        LinkFront(b[0], Link(a, b[1..]), b[1..], a);
      }
    }
  }

  /** In front of a linked list goes a degree that one list exceeds and the other does not fall below. */
  lemma {:induction false} LinkFront(d: nat, s: seq<nat>, above: seq<nat>, b: seq<nat>)
    requires Paired(s) && Ascending(b) && (forall i :: 0 <= i < |above| ==> above[i] > d) && (forall i :: 0 <= i < |b| ==> b[i] >= d)
    requires (s == Link(above, b) || s == Link(b, above)) && Ascending(above)
    ensures Paired([d] + s)
  {
    var t := [d] + s;
    forall x | x in s ensures x >= d {
      LinkMembers(above, b);
      LinkMembers(b, above);
    }
    if |s| > 1 && s[1] == d {
      LinkCount(above, b, d);
      LinkCount(b, above, d);
      CountNone(above, d);
      AscendingCount(b, d);
      assert s[0] == d by { assert s[0] in s && s[0] <= s[1]; }
      CountsLow(s, d);
    }
    forall i, j | 0 <= i < j < |t| ensures t[i] <= t[j] {
      if i == 0 { assert s[j - 1] in s; } else { assert s[i - 1] <= s[j - 1]; }
    }
    forall i, j | 0 <= i && i + 1 < j < |t| ensures t[i] < t[j] {
      if i == 0 { assert s[1] in s && s[1] <= s[j - 1]; } else { assert s[i - 1] < s[j - 1]; }
    }
  }

  /** Merging two queues of strictly ascending degrees leaves them strictly ascending exactly when none are left. */
  lemma {:induction false} AscendingIff(a: seq<nat>, b: seq<nat>)
    requires Ascending(a) && Ascending(b)
    ensures Ascending(Merge(Link(a, b))) <==> a == [] || b == [] || NoneLeft(a, b)
  {
    hide Ascending, Count, Paired;
    if a == [] || b == [] {
      OneEmpty(if a == [] then b else a);
    } else {
      var s := Link(a, b);
      var m, e := s[0], HeadDegree(a, b);
      LinkPaired(a, b);
      LinkedCounts(a, b, s, m);
      PairedTail(s);
      assert s == [m] + s[1..];
      HeadSettles(a, b, s[1..], m, e);
      HeadAscending(m, s[1..], e);
      AboveBoth(a, b, s[1..], e);
      assert Merge(s) == Rest(MergeHead(s));
    }
  }

  lemma {:induction false} LinkedCounts(a: seq<nat>, b: seq<nat>, s: seq<nat>, m: nat)
    requires Ascending(a) && Ascending(b) && s == Link(a, b) && s != [] && m == s[0]
    ensures forall d: nat ::
      Count(s[1..], d) == (if d in a then 1 else 0) + (if d in b then 1 else 0) - if d == m then 1 else 0
  {
    hide Ascending, Count, Link;
    forall d: nat
      ensures Count(s[1..], d) == (if d in a then 1 else 0) + (if d in b then 1 else 0) - if d == m then 1 else 0
    {
      CountFirst(s, d);
      LinkCount(a, b, d);
      AscendingCount(a, d);
      AscendingCount(b, d);
    }
  }

  lemma {:induction false} HeadSettles(a: seq<nat>, b: seq<nat>, r: seq<nat>, m: nat, e: nat)
    requires Ascending(a) && Ascending(b) && a != [] && b != []
    requires m == (if a[0] <= b[0] then a[0] else b[0]) && e == HeadDegree(a, b)
    requires forall d: nat :: Count(r, d) == (if d in a then 1 else 0) + (if d in b then 1 else 0) - if d == m then 1 else 0
    ensures Settles(r, m, e) && (Count(r, e) == 0 <==> !Both(a, b, e))
    ensures forall d: nat :: d > e ==> Count(r, d) == (if d in a then 1 else 0) + (if d in b then 1 else 0)
  {
    hide Ascending, Count;
    assert m in a || m in b;
    if Both(a, b, m) {
      forall i: nat | m <= i < e ensures Count(r, i) == 1 {
        assert i != m ==> One(a, b, i);
      }
      assert !One(a, b, e);
    }
  }

  lemma {:induction false} PairedTail(s: seq<nat>)
    requires Paired(s) && s != []
    ensures Paired(s[1..]) && forall i :: 0 <= i < |s[1..]| ==> s[1..][i] >= s[0]
  {
  }

  lemma {:induction false} AboveBoth(a: seq<nat>, b: seq<nat>, r: seq<nat>, e: nat)
    requires forall d: nat :: d > e ==> Count(r, d) == (if d in a then 1 else 0) + (if d in b then 1 else 0)
    ensures CleanAbove(r, e) <==> forall d: nat :: d > e && Both(a, b, d) ==> !One(a, b, d + 1)
  {
    hide Count;
    forall d: nat | d > e
      ensures Count(r, d) == 2 <==> Both(a, b, d)
      ensures Count(r, d) == 1 <==> One(a, b, d)
    {
    }
  }

  lemma {:induction false} OneEmpty(a: seq<nat>)
    requires Ascending(a)
    ensures Link(a, []) == Link([], a) == a && Merge(a) == a
  {
    if a != [] {
      TailKeeps(a[1..]);
      assert MergeHead(a) == a;
      assert [a[0]] + a[1..] == a;
    }
  }

  lemma {:induction false} TailKeeps(a: seq<nat>)
    requires Ascending(a)
    ensures MergeTail(a) == a
  {
    if a != [] { TailKeeps(a[1..]); }
  }

  /** A push keeps strictly ascending degrees strictly ascending. */
  lemma {:induction false} PushAscending(a: seq<nat>)
    requires Ascending(a)
    ensures Ascending(Merge(Link(a, [0])))
  {
    AscendingIff(a, [0]);
  }

  /** The degrees after `n` pushes onto an empty queue. */
  function Pushed(n: nat): seq<nat> { if n == 0 then [] else Merge(Link(Pushed(n - 1), [0])) }

  lemma {:induction false} PushedAscending(n: nat)
    ensures Ascending(Pushed(n))
  {
    if n > 0 {
      PushedAscending(n - 1);
      PushAscending(Pushed(n - 1));
    }
  }

  /** Degrees that ascend after the head is done stay as they are. */
  lemma {:induction false} HeadDone(s: seq<nat>, h: seq<nat>)
    requires MergeHead(s) == h && Ascending(h)
    ensures Merge(s) == h
  {
    if h != [] {
      TailKeeps(h[1..]);
      assert [h[0]] + h[1..] == h;
    }
  }

  /** A lone tree is carried once. */
  lemma {:induction false} CarryOnce(c: nat, r: seq<nat>)
    requires r == [] || r[0] > c + 1
    ensures MergeHead([c] + [c] + r) == [c + 1] + r
  {
    var s, t := [c] + [c] + r, [c + 1] + r;
    assert s[2..] == r && MergeHead(t) == t;
  }

  /** The degrees of three pushes, and of the next three. */
  lemma {:induction false} PushedThree()
    ensures Pushed(0) == [] && Pushed(1) == [0] && Pushed(2) == [1] && Pushed(3) == [0, 1]
  {
    hide Pushed, MergeHead, MergeTail, Merge;
    PushedStep(0);
    OneEmpty([0]);
    PushedStep(1);
    assert Link([0], [0]) == [0] + [0] + [];
    CarryOnce(0, []);
    HeadDone([0] + [0] + [], [1]);
    PushedStep(2);
    assert Link([1], [0]) == [0, 1];
    OneEmpty([0, 1]);
  }

  lemma {:induction false} PushedSix()
    requires Pushed(3) == [0, 1]
    ensures Pushed(6) == [1, 2]
  {
    hide Pushed, MergeHead, MergeTail, Merge;
    PushedStep(3);
    assert Link([1], [0]) == [0] + [1] && Link([0, 1], [0]) == [0] + Link([1], [0]) == [0] + [0] + [1];
    CarryTwice();
    HeadDone([0] + [0] + [1], [2]);
    PushedStep(4);
    assert Link([2], [0]) == [0, 2];
    OneEmpty([0, 2]);
    PushedStep(5);
    assert Link([2], [0]) == [0] + [2] && Link([0, 2], [0]) == [0] + Link([2], [0]) == [0] + [0] + [2];
    CarryOnce(0, [2]);
    assert [0 + 1] + [2] == [1, 2];
    HeadDone([0] + [0] + [2], [1, 2]);
  }

  lemma {:induction false} CarryTwice()
    ensures MergeHead([0] + [0] + [1]) == [2]
  {
    var s := [0] + [0] + [1];
    assert [s[0] + 1] + s[2..] == [1] + [1] + [];
    CarryOnce(1, []);
  }

  lemma {:induction false} PushedStep(n: nat)
    ensures Pushed(0) == [] && Pushed(n + 1) == Merge(Link(Pushed(n), [0]))
  {
  }

  /** Queues of three and of six keys merge with neighbours of one degree left, and two of three keys out of order. */
  lemma {:induction false} NeighboursLeft()
    ensures Pushed(3) == [0, 1] && Pushed(6) == [1, 2]
    ensures Merge(Link(Pushed(3), Pushed(6))) == [0, 2, 2]
    ensures Merge(Link(Pushed(3), Pushed(3))) == [2, 1]
  {
    hide Pushed;
    PushedThree();
    PushedSix();
    assert Link([0, 1], [1, 2]) == [0] + Link([1], [1, 2]) && Link([1], [1, 2]) == [1] + [1, 2];
    assert Link([0, 1], [1, 2]) == [0, 1, 1, 2] && MergeHead([0, 1, 1, 2]) == [0, 1, 1, 2] && [0, 1, 1, 2][1..] == [1, 1, 2];
    assert [1, 1, 2][2..] == [2] && MergeTail([1, 1, 2]) == [2] + MergeTail([2]) == [2, 2];
    TwiceThree();
  }

  lemma {:induction false} TwiceThree()
    ensures Merge(Link([0, 1], [0, 1])) == [2, 1]
  {
    assert Link([1], [0, 1]) == [0] + Link([1], [1]) && Link([1], [1]) == [1] + [1];
    assert Link([0, 1], [0, 1]) == [0] + Link([1], [0, 1]) == [0, 0, 1, 1];
    assert [1] + [0, 0, 1, 1][2..] == [1, 1, 1] && [2] + [1, 1, 1][2..] == [2, 1];
    assert MergeHead([0, 0, 1, 1]) == MergeHead([1, 1, 1]) == MergeHead([2, 1]) == [2, 1];
    assert [2, 1][1..] == [1] && MergeTail([1]) == [1];
  }
}
