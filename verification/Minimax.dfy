/** Splitting 1..n in two so that the heaviest relation inside a side is as light as possible: a
    greedy pass over the relations by falling weight, on a union-find over 2n elements. */
module Minimax {

  // ----- union-find with path compression

  /** `rep` after the classes of `x` and `y` are joined. */
  ghost function Merge(rep: seq<int>, x: int, y: int): seq<int>
    requires 0 <= x < |rep| && 0 <= y < |rep|
  {
    seq(|rep|, i requires 0 <= i < |rep| => if rep[i] == rep[x] then rep[y] else rep[i])
  }

  ghost predicate Rooted(father: seq<int>, rep: seq<int>, depth: seq<nat>, x: int)
    requires |father| == |rep| == |depth| && 0 <= x < |father|
  {
    && 0 <= father[x] < |father| && 0 <= rep[x] < |father|
    && rep[father[x]] == rep[x] && rep[rep[x]] == rep[x] && father[rep[x]] == rep[x]
    && (father[x] == x <==> rep[x] == x)
    && (rep[x] != x ==> depth[father[x]] < depth[x] && depth[rep[x]] < depth[x])
  }

  /** Every chain of fathers gets shallower and ends in the representative. */
  ghost predicate Forest(father: seq<int>, rep: seq<int>, depth: seq<nat>) {
    |father| == |rep| == |depth| && forall x :: 0 <= x < |father| ==> Rooted(father, rep, depth, x)
  }

  /** Pointing an element straight at its representative keeps the forest. */
  lemma {:induction false} Compress(father: seq<int>, rep: seq<int>, depth: seq<nat>, x: int)
    requires Forest(father, rep, depth) && 0 <= x < |father| && rep[x] != x
    ensures 0 <= rep[x] < |father| && Forest(father[x := rep[x]], rep, depth)
  {
    assert Rooted(father, rep, depth, x);
    var father' := father[x := rep[x]];
    forall y | 0 <= y < |father| ensures Rooted(father', rep, depth, y) {
      assert Rooted(father, rep, depth, y);
    }
  }

  function Deepened(rep: seq<int>, depth: seq<nat>, x: int, y: int): seq<nat>
    requires |rep| == |depth| && 0 <= y < |depth|
  {
    seq(|rep|, i requires 0 <= i < |rep| => if rep[i] == x && x != y then depth[i] + 1 + depth[y] else depth[i])
  }

  /** Pointing the root `x` at the root `y` joins their classes. */
  lemma {:induction false} Join(father: seq<int>, rep: seq<int>, depth: seq<nat>, x: int, y: int)
    requires Forest(father, rep, depth) && 0 <= x < |father| && 0 <= y < |father| && rep[x] == x && rep[y] == y
    ensures Forest(father[x := y], Merge(rep, x, y), Deepened(rep, depth, x, y))
  {
    var father', rep', depth' := father[x := y], Merge(rep, x, y), Deepened(rep, depth, x, y);
    forall z | 0 <= z < |father| ensures Rooted(father', rep', depth', z) {
      assert Rooted(father, rep, depth, z) && Rooted(father, rep, depth, y);
    }
  }

  class UnionFind {
    const father: array<int>
    ghost var rep: seq<int>
    ghost var depth: seq<nat>

    ghost predicate Valid()
      reads this, father
    {
      Forest(father[..], rep, depth)
    }

    constructor (size: nat)
      ensures Valid() && fresh(father) && father.Length == size && rep == seq(size, i => i)
    {
      father := new int[size](i => i);
      rep, depth := seq(size, i => i), seq(size, _ => 0);
    }

    /** The representative of `x`; every element on the way now points straight at it. */
    method Find(x: int) returns (root: int)
      requires Valid() && 0 <= x < father.Length
      modifies father
      ensures Valid() && root == rep[x]
      decreases depth[x]
    {
      assert Rooted(father[..], rep, depth, x);
      if father[x] == x {
        return x;
      }
      root := Find(father[x]);
      Compress(father[..], rep, depth, x);
      father[x] := root;
    }

    method Union(x: int, y: int)
      requires Valid() && 0 <= x < father.Length && 0 <= y < father.Length
      modifies this, father
      ensures Valid() && rep == Merge(old(rep), x, y)
    {
      var faX := Find(x);
      var faY := Find(y);
      assert Rooted(father[..], rep, depth, x) && Rooted(father[..], rep, depth, y);
      Join(father[..], rep, depth, faX, faY);
      father[faX] := faY;
      rep, depth := Merge(rep, faX, faY), Deepened(rep, depth, faX, faY);
    }
  }

  // ----- quicksort by falling weight

  datatype Relation = Relation(catA: int, catB: int, weight: int)

  ghost predicate Falling(s: seq<Relation>) {
    forall i, j :: 0 <= i < j < |s| ==> s[i].weight >= s[j].weight
  }

  /** Everything in [lo, hi) of `s` weighs at least `w`; everything after `last`, up to `hi`, at most `w`. */
  ghost predicate AllAtLeast(s: seq<Relation>, lo: int, hi: int, w: int) {
    forall k :: lo <= k < hi && 0 <= k < |s| ==> s[k].weight >= w
  }

  ghost predicate AllAtMost(s: seq<Relation>, last: int, hi: int, w: int) {
    forall k :: last < k < hi && 0 <= k < |s| ==> s[k].weight <= w
  }

  ghost predicate AllHeavier(s: seq<Relation>, lo: int, hi: int, w: int) {
    forall k :: lo <= k < hi && 0 <= k < |s| ==> s[k].weight > w
  }

  ghost predicate AllLighter(s: seq<Relation>, last: int, hi: int, w: int) {
    forall k :: last < k <= hi && 0 <= k < |s| ==> s[k].weight < w
  }

  /** `t` is `s` with the positions in [lo, hi) permuted. */
  ghost predicate Permuted(s: seq<Relation>, t: seq<Relation>, lo: int, hi: int)
  {
    && 0 <= lo <= hi <= |s| == |t|
    && t[..lo] == s[..lo] && t[hi..] == s[hi..] && multiset(t[lo..hi]) == multiset(s[lo..hi])
  }

  lemma {:induction false} SwapKeeps(s: seq<Relation>, i: nat, j: nat)
    requires i < |s| && j < |s|
    ensures multiset(s[i := s[j]][j := s[i]]) == multiset(s)
  {
  }

  lemma {:induction false} SwapPermutes(s: seq<Relation>, t: seq<Relation>, lo: int, hi: int, i: int, j: int)
    requires Permuted(s, t, lo, hi) && lo <= i < hi && lo <= j < hi
    ensures Permuted(s, t[i := t[j]][j := t[i]], lo, hi)
  {
    var part, a, b := t[lo..hi], i - lo, j - lo;
    SwapKeeps(part, a, b);
    SwapSlices(t, lo, hi, i, j);
  }

  /** A swap inside a stretch swaps within it and leaves what is around it. */
  lemma {:induction false} SwapSlices(t: seq<Relation>, lo: int, hi: int, i: int, j: int)
    requires 0 <= lo <= i < hi <= |t| && lo <= j < hi
    ensures var u, part := t[i := t[j]][j := t[i]], t[lo..hi];
      u[..lo] == t[..lo] && u[hi..] == t[hi..] && u[lo..hi] == part[i - lo := part[j - lo]][j - lo := part[i - lo]]
  {
  }

  function Middle(begin: int, end: int): int { begin + (end - begin + 1) / 2 - 1 }

  /** The state between rounds of a partition of [begin, end) around weight `w`. */
  ghost predicate Split(s0: seq<Relation>, s: seq<Relation>, begin: int, end: int, i: int, j: int, w: int) {
    && Permuted(s0, s, begin, end) && AllAtLeast(s, begin, i, w) && AllAtMost(s, j, end, w)
    && begin <= i < end && begin - 1 <= j < end && i <= j + 2
    && if i == begin then j == end - 1 && s[Middle(begin, end)].weight == w else j < end - 1
  }

  lemma {:induction false} SplitStart(s: seq<Relation>, begin: int, end: int)
    requires 0 <= begin && begin + 2 <= end <= |s|
    ensures Split(s, s, begin, end, begin, end - 1, s[Middle(begin, end)].weight)
  {
  }

  /** Positions where the two scans of the next round stop at the latest. */
  function StopUp(begin: int, end: int, i: int, j: int): int { if i == begin then Middle(begin, end) else j + 1 }
  function StopDown(begin: int, end: int, i: int, j: int): int { if i == begin then Middle(begin, end) else i - 1 }

  lemma {:induction false} Stops(s0: seq<Relation>, s: seq<Relation>, begin: int, end: int, i: int, j: int, w: int)
    requires Split(s0, s, begin, end, i, j, w) && i <= j && end - begin >= 2
    ensures 0 <= i <= StopUp(begin, end, i, j) < end <= |s| && s[StopUp(begin, end, i, j)].weight <= w
    ensures 0 <= StopDown(begin, end, i, j) <= j < end && s[StopDown(begin, end, i, j)].weight >= w
  {
  }

  /** One round of scanning, and the swap after it, moves both borders inwards. */
  lemma {:induction false} SplitRound(s0: seq<Relation>, s: seq<Relation>, begin: int, end: int, first: int, last: int, i: int, j: int, w: int)
    requires Split(s0, s, begin, end, first, last, w) && first <= last && end - begin >= 2
    requires first <= i <= StopUp(begin, end, first, last) && StopDown(begin, end, first, last) <= j <= last
    requires AllHeavier(s, first, i, w) && AllLighter(s, j, last, w) && s[i].weight <= w && s[j].weight >= w
    ensures if i <= j then Split(s0, s[i := s[j]][j := s[i]], begin, end, i + 1, j - 1, w) else Split(s0, s, begin, end, i, j, w)
  {
    if i <= j {
      SwapPermutes(s0, s, begin, end, i, j);
    }
    hide Permuted;
    assert i > first ==> s[i - 1].weight > w;
    assert first > begin ==> s[first - 1].weight >= w;
  }

  /** The first position from `from` on that is not heavier than `w`; `stop` is one. */
  method SkipHeavier(a: array<Relation>, from: int, ghost stop: int, w: int) returns (i: int)
    requires 0 <= from <= stop < a.Length && a[stop].weight <= w
    ensures from <= i <= stop && a[i].weight <= w && AllHeavier(a[..], from, i, w)
  {
    i := from;
    while a[i].weight > w
      invariant from <= i <= stop && forall k :: from <= k < i ==> a[k].weight > w
      decreases stop - i
    {
      i := i + 1;
    }
  }

  /** The last position down from `from` that is not lighter than `w`; `stop` is one. */
  method SkipLighter(a: array<Relation>, ghost stop: int, from: int, w: int) returns (j: int)
    requires 0 <= stop <= from < a.Length && a[stop].weight >= w
    ensures stop <= j <= from && a[j].weight >= w && AllLighter(a[..], j, from, w)
  {
    j := from;
    while w > a[j].weight
      invariant stop <= j <= from && forall k :: j < k <= from ==> a[k].weight < w
      decreases j
    {
      j := j - 1;
    }
  }

  method Swap(a: array<Relation>, i: int, j: int)
    requires 0 <= i < a.Length && 0 <= j < a.Length
    modifies a
    ensures a[..] == old(a[..][i := a[j]][j := a[i]])
  {
    a[i], a[j] := a[j], a[i];
  }

  /** Splits [begin, end) around the weight of its middle element. */
  method Partition(a: array<Relation>, begin: int, end: int) returns (i: int, j: int, ghost w: int)
    requires 0 <= begin && begin + 2 <= end <= a.Length
    modifies a
    ensures Split(old(a[..]), a[..], begin, end, i, j, w) && begin < i && j < i
  {
    hide Split, AllHeavier, AllLighter;
    i, j := begin, end - 1;
    var pivot := a[begin + (end - begin + 1) / 2 - 1];
    w := pivot.weight;
    SplitStart(a[..], begin, end);
    while j - i >= 0
      invariant Split(old(a[..]), a[..], begin, end, i, j, w) && (i > begin || (i == begin && j == end - 1))
      decreases j - i
    {
      ghost var first, last := i, j;
      Stops(old(a[..]), a[..], begin, end, i, j, w);
      i := SkipHeavier(a, i, StopUp(begin, end, first, last), pivot.weight);
      j := SkipLighter(a, StopDown(begin, end, first, last), j, pivot.weight);
      SplitRound(old(a[..]), a[..], begin, end, first, last, i, j, w);
      if j - i >= 0 {
        Swap(a, i, j);
        i, j := i + 1, j - 1;
      }
    }
  }

  /** Permuting a stretch keeps the bounds on its weights. */
  lemma {:induction false} PermutedBounds(s: seq<Relation>, t: seq<Relation>, lo: int, hi: int, w: int)
    requires Permuted(s, t, lo, hi)
    ensures AllAtLeast(s, lo, hi, w) ==> AllAtLeast(t, lo, hi, w)
    ensures AllAtMost(s, lo - 1, hi, w) ==> AllAtMost(t, lo - 1, hi, w)
  {
    forall k | lo <= k < hi ensures t[k] in s[lo..hi] {
      assert t[k] == t[lo..hi][k - lo];
      assert t[k] in multiset(t[lo..hi]);
    }
  }

  lemma {:induction false} PermutedTwice(s: seq<Relation>, t: seq<Relation>, u: seq<Relation>, begin: int, i: int, end: int)
    requires begin <= i <= end && Permuted(s, t, begin, i) && Permuted(t, u, i, end)
    ensures Permuted(s, u, begin, end) && u[begin..i] == t[begin..i] && t[i..end] == s[i..end]
  {
    assert t[i..end] == s[i..end] && u[begin..i] == t[begin..i];
    assert u[begin..end] == u[begin..i] + u[i..end] && s[begin..end] == s[begin..i] + s[i..end];
  }

  lemma {:induction false} PermutedAgain(s: seq<Relation>, t: seq<Relation>, u: seq<Relation>, lo: int, hi: int)
    requires Permuted(s, t, lo, hi) && Permuted(t, u, lo, hi)
    ensures Permuted(s, u, lo, hi)
  {
  }

  /** Sorting the two sides of a partition in place sorts the whole. */
  lemma {:induction false} SortedWhole(s0: seq<Relation>, s: seq<Relation>, t: seq<Relation>, u: seq<Relation>, begin: int, i: int, j: int, end: int, w: int)
    requires Split(s0, s, begin, end, i, j, w) && begin < i && j < i
    requires Permuted(s, t, begin, i) && Permuted(t, u, i, end)
    requires Falling(t[begin..i]) && Falling(u[i..end])
    ensures Permuted(s0, u, begin, end) && Falling(u[begin..end])
  {
    PermutedTwice(s, t, u, begin, i, end);
    PermutedAgain(s0, s, u, begin, end);
    PermutedBounds(s, t, begin, i, w);
    assert AllAtMost(t, i - 1, end, w);
    PermutedBounds(t, u, i, end, w);
    assert forall k :: begin <= k < i ==> u[k] == u[begin..i][k - begin] == t[k];
    assert u[begin..end] == u[begin..i] + u[i..end];
  }

  method Sort(a: array<Relation>, begin: int, end: int)
    requires 0 <= begin <= end <= a.Length
    modifies a
    ensures Permuted(old(a[..]), a[..], begin, end) && Falling(a[begin..end])
    decreases end - begin
  {
    if end - begin <= 1 {
      return;
    }
    var i, j;
    ghost var w;
    i, j, w := Partition(a, begin, end);
    ghost var s := a[..];
    if j - begin > 0 {
      Sort(a, begin, i);
    }
    ghost var t := a[..];
    if end - i > 1 {
      Sort(a, i, end);
    }
    SortedWhole(old(a[..]), s, t, a[..], begin, i, j, end, w);
  }

  // ----- partitions of 1..n

  /** A partition puts each of 1..n on one side; it costs its heaviest relation inside a side, or 0. */
  ghost predicate SameSide(side: seq<bool>, r: Relation)
    requires 0 <= r.catA < |side| && 0 <= r.catB < |side|
  {
    side[r.catA] == side[r.catB]
  }

  ghost predicate Within(relations: seq<Relation>, n: int) {
    forall i :: 0 <= i < |relations| ==> 1 <= relations[i].catA <= n && 1 <= relations[i].catB <= n
  }

  ghost function Cost(side: seq<bool>, relations: seq<Relation>): int
    requires Within(relations, |side| - 1)
  {
    if relations == [] then 0
    else
      var rest := Cost(side, relations[..|relations| - 1]);
      var r := relations[|relations| - 1];
      if SameSide(side, r) && r.weight > rest then r.weight else rest
  }

  /** The cost is the least nonnegative bound on the weights of same-side relations. */
  lemma {:induction false} CostBounds(side: seq<bool>, relations: seq<Relation>)
    requires Within(relations, |side| - 1)
    ensures Cost(side, relations) >= 0
    ensures forall i :: 0 <= i < |relations| && SameSide(side, relations[i]) ==> relations[i].weight <= Cost(side, relations)
    ensures Cost(side, relations) == 0 ||
            exists i :: 0 <= i < |relations| && SameSide(side, relations[i]) && relations[i].weight == Cost(side, relations)
  {
    if relations != [] {
      var before := relations[..|relations| - 1];
      CostBounds(side, before);
      assert forall i :: 0 <= i < |before| ==> before[i] == relations[i];
      assert Cost(side, before) == 0 || exists i :: 0 <= i < |before| && SameSide(side, before[i]) && before[i].weight == Cost(side, before);
      if Cost(side, relations) == Cost(side, before) && Cost(side, before) != 0 {
        var i :| 0 <= i < |before| && SameSide(side, before[i]) && before[i].weight == Cost(side, before);
        assert SameSide(side, relations[i]);
      } else if Cost(side, relations) != Cost(side, before) {
        assert SameSide(side, relations[|before|]);
      }
    }
  }

  // ----- what the 2n-element union-find says: x stands for "x's side", x + n for "the other side"

  function Other(n: int, x: int): int { if x <= n then x + n else x - n }

  function Ext(n: int, side: seq<bool>, x: int): bool
    requires |side| == n + 1 && 1 <= x <= 2 * n
  {
    if x <= n then side[x] else !side[x - n]
  }

  /** Classes come in mirror pairs, and no element is in its own mirror class. */
  ghost predicate Mirrored(n: int, rep: seq<int>) {
    && |rep| == 2 * n + 1
    && (forall x, y :: 1 <= x <= 2 * n && 1 <= y <= 2 * n && rep[x] == rep[y] ==> rep[Other(n, x)] == rep[Other(n, y)])
    && forall x :: 1 <= x <= 2 * n ==> rep[x] != rep[Other(n, x)]
  }

  /** A partition agrees with the classes. */
  ghost predicate Respects(n: int, rep: seq<int>, side: seq<bool>) {
    && |side| == n + 1 && |rep| == 2 * n + 1
    && forall x, y :: 1 <= x <= 2 * n && 1 <= y <= 2 * n && rep[x] == rep[y] ==> Ext(n, side, x) == Ext(n, side, y)
  }

  ghost function Separate(n: int, rep: seq<int>, a: int, b: int): seq<int>
    requires |rep| == 2 * n + 1 && 1 <= a <= n && 1 <= b <= n
  {
    Merge(Merge(rep, a, b + n), b, a + n)
  }

  /** Mirror classes, as an equivalence for one pair of elements. */
  lemma {:induction false} MirrorPair(n: int, rep: seq<int>, x: int, y: int)
    requires Mirrored(n, rep) && 1 <= x <= 2 * n && 1 <= y <= 2 * n
    ensures rep[x] == rep[y] <==> rep[Other(n, x)] == rep[Other(n, y)]
    ensures rep[x] == rep[Other(n, y)] <==> rep[Other(n, x)] == rep[y]
    ensures rep[x] != rep[Other(n, x)]
  {
    assert Other(n, Other(n, x)) == x && Other(n, Other(n, y)) == y;
  }

  /** The two merges send the class of `a` to that of `b + n` and the class of `b` to that of `a + n`. */
  lemma {:induction false} SeparateAt(n: int, rep: seq<int>, a: int, b: int, x: int)
    requires Mirrored(n, rep) && 1 <= a <= n && 1 <= b <= n && rep[a] != rep[b] && 1 <= x <= 2 * n
    ensures Separate(n, rep, a, b)[x] ==
            if rep[x] == rep[a] then rep[b + n] else if rep[x] == rep[b] then rep[a + n] else rep[x]
  {
    MirrorPair(n, rep, a, b);
    MirrorPair(n, rep, b, b);
  }

  /** Separating two elements that are not yet together keeps the mirror symmetry. */
  lemma {:induction false} SeparateMirrored(n: int, rep: seq<int>, a: int, b: int)
    requires Mirrored(n, rep) && 1 <= a <= n && 1 <= b <= n && rep[a] != rep[b]
    ensures Mirrored(n, Separate(n, rep, a, b))
  {
    var rep' := Separate(n, rep, a, b);
    forall x, y | 1 <= x <= 2 * n && 1 <= y <= 2 * n ensures rep'[x] == rep'[y] ==> rep'[Other(n, x)] == rep'[Other(n, y)] {
      SeparatePair(n, rep, a, b, x, y);
    }
    forall x | 1 <= x <= 2 * n ensures rep'[x] != rep'[Other(n, x)] {
      SeparatePair(n, rep, a, b, x, x);
    }
  }

  lemma {:induction false} SeparatePair(n: int, rep: seq<int>, a: int, b: int, x: int, y: int)
    requires Mirrored(n, rep) && 1 <= a <= n && 1 <= b <= n && rep[a] != rep[b]
    requires 1 <= x <= 2 * n && 1 <= y <= 2 * n
    ensures var rep' := Separate(n, rep, a, b);
            && (rep'[x] == rep'[y] ==> rep'[Other(n, x)] == rep'[Other(n, y)])
            && rep'[x] != rep'[Other(n, x)]
  {
    hide Mirrored, Separate;
    SeparateAt(n, rep, a, b, x);
    SeparateAt(n, rep, a, b, y);
    SeparateAt(n, rep, a, b, Other(n, x));
    SeparateAt(n, rep, a, b, Other(n, y));
    MirrorPair(n, rep, x, a);
    MirrorPair(n, rep, x, b);
    MirrorPair(n, rep, y, a);
    MirrorPair(n, rep, y, b);
    MirrorPair(n, rep, x, y);
    MirrorPair(n, rep, a, b);
    MirrorPair(n, rep, x, x);
  }

  /** A partition that agreed with the classes still does when it parts `a` and `b`. */
  lemma {:induction false} SeparateRespects(n: int, rep: seq<int>, side: seq<bool>, a: int, b: int)
    requires Mirrored(n, rep) && 1 <= a <= n && 1 <= b <= n && rep[a] != rep[b]
    requires Respects(n, rep, side) && side[a] != side[b]
    ensures Respects(n, Separate(n, rep, a, b), side)
  {
    var rep' := Separate(n, rep, a, b);
    forall x, y | 1 <= x <= 2 * n && 1 <= y <= 2 * n && rep'[x] == rep'[y] ensures Ext(n, side, x) == Ext(n, side, y) {
      SeparateAt(n, rep, a, b, x);
      SeparateAt(n, rep, a, b, y);
    }
  }

  lemma {:induction false} SeparateJoins(n: int, rep: seq<int>, a: int, b: int, x: int, y: int)
    requires Mirrored(n, rep) && 1 <= a <= n && 1 <= b <= n && rep[a] != rep[b] && 1 <= x <= 2 * n && 1 <= y <= 2 * n
    ensures rep[x] == rep[y] ==> Separate(n, rep, a, b)[x] == Separate(n, rep, a, b)[y]
    ensures Separate(n, rep, a, b)[a] == Separate(n, rep, a, b)[b + n]
  {
    SeparateAt(n, rep, a, b, x);
    SeparateAt(n, rep, a, b, y);
    SeparateAt(n, rep, a, b, a);
    SeparateAt(n, rep, a, b, b + n);
    MirrorPair(n, rep, a, b);
    MirrorPair(n, rep, b, b);
  }

  // ----- the greedy pass

  /** The side of each element that the classes force: any fixed choice between mirror classes. */
  ghost function SideOf(n: nat, rep: seq<int>): (side: seq<bool>)
    requires |rep| == 2 * n + 1
    ensures |side| == n + 1
  {
    seq(n + 1, x requires 0 <= x <= n => x > 0 && rep[x] < rep[x + n])
  }

  ghost predicate Crosses(side: seq<bool>, relations: seq<Relation>, i: int)
    requires Within(relations, |side| - 1) && 0 <= i <= |relations|
  {
    forall k :: 0 <= k < i ==> !SameSide(side, relations[k])
  }

  /** After the first `i` relations: their ends are in mirror classes, and every partition that
      parts them all agrees with the classes. */
  ghost predicate Processed(n: int, rep: seq<int>, relations: seq<Relation>, i: int)
    requires Within(relations, n) && 0 <= i <= |relations|
  {
    && n >= 0 && Mirrored(n, rep)
    && (forall k :: 0 <= k < i ==> rep[relations[k].catA] == rep[relations[k].catB + n])
    && forall side: seq<bool> :: |side| == n + 1 && Crosses(side, relations, i) ==> Respects(n, rep, side)
  }

  lemma {:induction false} ProcessedStart(n: nat, relations: seq<Relation>)
    requires Within(relations, n)
    ensures Processed(n, seq(2 * n + 1, i => i), relations, 0)
  {
  }

  lemma {:induction false} ProcessedStep(n: int, rep: seq<int>, relations: seq<Relation>, i: int)
    requires Within(relations, n) && 0 <= i < |relations| && Processed(n, rep, relations, i)
    requires rep[relations[i].catA] != rep[relations[i].catB]
    ensures |rep| == 2 * n + 1 && Processed(n, Separate(n, rep, relations[i].catA, relations[i].catB), relations, i + 1)
  {
    var a, b := relations[i].catA, relations[i].catB;
    var rep' := Separate(n, rep, a, b);
    hide Separate;
    SeparateMirrored(n, rep, a, b);
    forall k | 0 <= k < i + 1 ensures rep'[relations[k].catA] == rep'[relations[k].catB + n] {
      SeparateJoins(n, rep, a, b, relations[k].catA, relations[k].catB + n);
    }
    forall side: seq<bool> | |side| == n + 1 && Crosses(side, relations, i + 1) ensures Respects(n, rep', side) {
      assert Crosses(side, relations, i) && !SameSide(side, relations[i]);
      SeparateRespects(n, rep, side, a, b);
    }
  }

  lemma {:induction false} MirroredLength(n: int, rep: seq<int>)
    requires Mirrored(n, rep)
    ensures |rep| == 2 * n + 1
  {
  }

  /** The forced sides part every processed relation. */
  lemma {:induction false} SideOfCrosses(n: int, rep: seq<int>, relations: seq<Relation>, i: int)
    requires Within(relations, n) && 0 <= i <= |relations| && Processed(n, rep, relations, i)
    ensures |rep| == 2 * n + 1
    ensures Crosses(SideOf(n, rep), relations, i)
  {
    hide Mirrored, Respects;
    MirroredLength(n, rep);
    forall k | 0 <= k < i ensures !SameSide(SideOf(n, rep), relations[k]) {
      var a, b := relations[k].catA, relations[k].catB;
      MirrorPair(n, rep, a, b);
      MirrorPair(n, rep, b, b);
    }
  }

  ghost predicate Heaviest(side: seq<bool>, relations: seq<Relation>, weight: int)
    requires Within(relations, |side| - 1)
  {
    && (forall k :: 0 <= k < |relations| && SameSide(side, relations[k]) ==> relations[k].weight <= weight)
    && exists k :: 0 <= k < |relations| && SameSide(side, relations[k]) && relations[k].weight == weight
  }

  ghost predicate SomeAtLeast(side: seq<bool>, relations: seq<Relation>, weight: int)
    requires Within(relations, |side| - 1)
  {
    exists k :: 0 <= k < |relations| && SameSide(side, relations[k]) && relations[k].weight >= weight
  }

  /** For weights of any sign: 0 if some partition parts every relation; else the least weight that is the
      heaviest on one side of some partition. */
  ghost predicate IsBest(n: int, relations: seq<Relation>, answer: int)
    requires Within(relations, n)
  {
    if exists side: seq<bool> :: |side| == n + 1 && Crosses(side, relations, |relations|) then answer == 0
    else
      && (exists side: seq<bool> :: |side| == n + 1 && Heaviest(side, relations, answer))
      && forall side: seq<bool> :: |side| == n + 1 ==> SomeAtLeast(side, relations, answer)
  }

  /** `answer` is the least cost over all partitions. */
  ghost predicate IsMinimax(n: int, relations: seq<Relation>, answer: int)
    requires Within(relations, n)
  {
    && (exists side: seq<bool> :: |side| == n + 1 && Cost(side, relations) == answer)
    && forall side: seq<bool> :: |side| == n + 1 ==> Cost(side, relations) >= answer
  }

  /** Without negative weights the best answer is the least cost. */
  lemma {:induction false} BestIsMinimax(n: int, relations: seq<Relation>, answer: int)
    requires Within(relations, n) && IsBest(n, relations, answer) && forall k :: 0 <= k < |relations| ==> relations[k].weight >= 0
    ensures IsMinimax(n, relations, answer)
  {
    hide Cost;
    forall side: seq<bool> | |side| == n + 1
      ensures Cost(side, relations) >= 0 && (SomeAtLeast(side, relations, answer) ==> Cost(side, relations) >= answer)
      ensures Heaviest(side, relations, answer) || (Crosses(side, relations, |relations|) && answer == 0) ==>
                Cost(side, relations) == answer
    {
      CostBounds(side, relations);
    }
  }

  /** Any partition has a relation of at least the first clash's weight on one side. */
  lemma {:induction false} ClashEverywhere(n: int, rep: seq<int>, relations: seq<Relation>, i: int, side: seq<bool>)
    requires Within(relations, n) && 0 <= i < |relations| && Processed(n, rep, relations, i) && Falling(relations)
    requires rep[relations[i].catA] == rep[relations[i].catB] && |side| == n + 1
    ensures SomeAtLeast(side, relations, relations[i].weight) && !Crosses(side, relations, |relations|)
  {
    hide Mirrored;
    if Crosses(side, relations, i) {
      assert Respects(n, rep, side);
      assert Ext(n, side, relations[i].catA) == Ext(n, side, relations[i].catB);
      assert SameSide(side, relations[i]);
    } else {
      var k :| 0 <= k < i && SameSide(side, relations[k]);
      assert relations[k].weight >= relations[i].weight;
    }
  }

  /** The first relation whose ends are already together has the best weight. */
  lemma {:induction false} FirstClashIsBest(n: int, rep: seq<int>, relations: seq<Relation>, i: int)
    requires Within(relations, n) && 0 <= i < |relations| && Processed(n, rep, relations, i) && Falling(relations)
    requires rep[relations[i].catA] == rep[relations[i].catB]
    ensures IsBest(n, relations, relations[i].weight)
  {
    hide Mirrored, Respects;
    var w := relations[i].weight;
    forall side: seq<bool> | |side| == n + 1 ensures SomeAtLeast(side, relations, w) && !Crosses(side, relations, |relations|) {
      ClashEverywhere(n, rep, relations, i, side);
    }
    MirroredLength(n, rep);
    var side := SideOf(n, rep);
    SideOfCrosses(n, rep, relations, i);
    assert SomeAtLeast(side, relations, w);
    assert Heaviest(side, relations, w);
  }

  lemma {:induction false} NoClashIsBest(n: int, rep: seq<int>, relations: seq<Relation>)
    requires Within(relations, n) && Processed(n, rep, relations, |relations|)
    ensures IsBest(n, relations, 0)
  {
    SideOfCrosses(n, rep, relations, |relations|);
  }

  lemma {:induction false} SidePermuted(side: seq<bool>, s: seq<Relation>, t: seq<Relation>, answer: int)
    requires Within(s, |side| - 1) && Within(t, |side| - 1) && multiset(s) == multiset(t)
    ensures Crosses(side, t, |t|) ==> Crosses(side, s, |s|)
    ensures SomeAtLeast(side, t, answer) ==> SomeAtLeast(side, s, answer)
    ensures Heaviest(side, t, answer) ==> Heaviest(side, s, answer)
  {
    hide SameSide;
    SameMembers(s, t);
    forall k | 0 <= k < |s|
      ensures s[k] in t
    {
    }
    forall k | 0 <= k < |t|
      ensures t[k] in s
    {
    }
  }

  lemma {:induction false} BestPermuted(n: int, s: seq<Relation>, t: seq<Relation>, answer: int)
    requires Within(s, n) && Within(t, n) && multiset(s) == multiset(t) && IsBest(n, t, answer)
    ensures IsBest(n, s, answer)
  {
    hide Crosses, SomeAtLeast, Heaviest;
    forall side: seq<bool> | |side| == n + 1
      ensures Crosses(side, s, |s|) <==> Crosses(side, t, |t|)
      ensures SomeAtLeast(side, t, answer) ==> SomeAtLeast(side, s, answer)
      ensures Heaviest(side, t, answer) ==> Heaviest(side, s, answer)
    {
      SidePermuted(side, s, t, answer);
      SidePermuted(side, t, s, answer);
    }
  }

  lemma {:induction false} SameMembers(s: seq<Relation>, t: seq<Relation>)
    requires multiset(s) == multiset(t)
    ensures |s| == |t| && forall x :: x in s <==> x in t
  {
    assert |multiset(s)| == |s| && |multiset(t)| == |t|;
    forall x
      ensures x in s <==> x in t
    {
      assert x in s <==> x in multiset(s);
      assert x in t <==> x in multiset(t);
    }
  }

  /** The best answer for weights of any sign; without negative ones the least possible cost of a partition of 1..n. */
  method Solve(n: nat, relations: array<Relation>) returns (answer: int)
    requires Within(relations[..], n)
    modifies relations
    ensures IsBest(n, old(relations[..]), answer)
    ensures (forall k :: 0 <= k < relations.Length ==> old(relations[..])[k].weight >= 0) ==> IsMinimax(n, old(relations[..]), answer)
  {
    answer := Greedy(n, relations);
    if forall k :: 0 <= k < relations.Length ==> old(relations[..])[k].weight >= 0 {
      BestIsMinimax(n, old(relations[..]), answer);
    }
  }

  /** Parts the relations from the heaviest on until one cannot be parted. */
  method Greedy(n: nat, relations: array<Relation>) returns (answer: int)
    requires Within(relations[..], n)
    modifies relations
    ensures IsBest(n, old(relations[..]), answer)
  {
    hide Processed, IsBest, Permuted, Forest, Falling;
    var m := relations.Length;
    var classes := new UnionFind(2 * n + 1);
    Sort(relations, 0, m);
    ghost var sorted := relations[..];
    assert relations[0..m] == sorted[0..|sorted|];
    SortedInput(old(relations[..]), sorted, n);
    ProcessedStart(n, sorted);
    var i := 0;
    while i < m
      invariant 0 <= i <= m && relations[..] == sorted && fresh(classes) && fresh(classes.father)
      invariant classes.Valid() && classes.father.Length == 2 * n + 1 && Processed(n, classes.rep, sorted, i)
    {
      var r := relations[i];
      assert r == sorted[i];
      var faA := classes.Find(r.catA);
      var faB := classes.Find(r.catB);
      if faA == faB {
        FirstClashIsBest(n, classes.rep, sorted, i);
        BestPermuted(n, old(relations[..]), sorted, r.weight);
        return r.weight;
      }
      ProcessedStep(n, classes.rep, sorted, i);
      Part(classes, n, r.catA, r.catB);
      i := i + 1;
    }
    NoClashIsBest(n, classes.rep, sorted);
    BestPermuted(n, old(relations[..]), sorted, 0);
    return 0;
  }

  /** Puts two elements on different sides: each is joined with the mirror of the other. */
  method Part(classes: UnionFind, n: nat, a: int, b: int)
    requires classes.Valid() && classes.father.Length == 2 * n + 1 && 1 <= a <= n && 1 <= b <= n && |classes.rep| == 2 * n + 1
    modifies classes, classes.father
    ensures classes.Valid() && classes.rep == Separate(n, old(classes.rep), a, b)
  {
    hide Forest;
    classes.Union(a, b + n);
    classes.Union(b, a + n);
  }

  lemma {:induction false} SortedInput(s: seq<Relation>, t: seq<Relation>, n: int)
    requires Permuted(s, t, 0, |s|) && Falling(t[0..|s|]) && Within(s, n)
    ensures |t| == |s| && multiset(s) == multiset(t) && Falling(t) && Within(t, n)
  {
    assert s[0..|s|] == s && t[0..|s|] == t;
    SameMembers(t, s);
    forall k | 0 <= k < |t|
      ensures t[k] in s
    {
    }
  }
}
