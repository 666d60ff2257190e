/** Forests of binomial trees as values: linking two forests, merging neighbours of one degree, and what
    this keeps. The roots need not be in order, nor their degrees different. */
module Binomial {
  import Degrees

  class Node {
    const key: int
    var degree: nat
    var child: Node?
    var next: Node?

    constructor (key: int)
      ensures this.key == key && degree == 0 && child == null && next == null
    {
      this.key, degree, child, next := key, 0, null, null;
    }
  }

  /** A list of trees: the first root, its children, and the other trees. */
  datatype Forest = Nil | Cons(n: Node, degree: nat, kids: Forest, rest: Forest)

  ghost function Keys(f: Forest): multiset<int> {
    match f
    case Nil => multiset{}
    case Cons(n, _, kids, rest) => multiset{n.key} + Keys(kids) + Keys(rest)
  }

  ghost function Size(f: Forest): nat {
    match f
    case Nil => 0
    case Cons(_, _, kids, rest) => 1 + Size(kids) + Size(rest)
  }

  /** The children of a root of degree `d`: trees of the degrees d - 1, ..., 0. */
  ghost predicate Exact(f: Forest, d: nat) {
    if d == 0 then f.Nil?
    else f.Cons? && f.degree == d - 1 && Exact(f.kids, d - 1) && Exact(f.rest, d - 1)
  }

  ghost predicate AtMost(f: Forest, k: int) {
    f.Cons? ==> f.n.key <= k && AtMost(f.rest, k)
  }

  /** Every node has the children its degree says, and no child is greater than its parent. */
  ghost predicate Heap(f: Forest) {
    f.Cons? ==> Exact(f.kids, f.degree) && AtMost(f.kids, f.n.key) && Heap(f.kids) && Heap(f.rest)
  }

  function Pow2(d: nat): nat { if d == 0 then 1 else 2 * Pow2(d - 1) }

  /** A root of degree `d` has 2^d - 1 nodes below it. */
  lemma {:induction false} ExactSize(f: Forest, d: nat)
    requires Exact(f, d)
    ensures Size(f) + 1 == Pow2(d)
    decreases d
  {
    if d > 0 {
      ExactSize(f.kids, d - 1);
      ExactSize(f.rest, d - 1);
    }
  }

  ghost function RootSizes(f: Forest): nat {
    if f.Nil? then 0 else Pow2(f.degree) + RootSizes(f.rest)
  }

  /** The roots' powers of two add up to the number of nodes. */
  lemma {:induction false} RootSizesAdd(f: Forest)
    requires Heap(f)
    ensures RootSizes(f) == Size(f) == |Keys(f)|
  {
    if f.Cons? {
      ExactSize(f.kids, f.degree);
      RootSizesAdd(f.kids);
      RootSizesAdd(f.rest);
    }
  }

  // ----- linking two forests

  /** The two lists as one: always the head of smaller degree comes next. */
  function Linked(x: Forest, y: Forest): Forest {
    if x.Nil? then y else if y.Nil? then x
    else if x.degree <= y.degree then x.(rest := Linked(x.rest, y))
    else y.(rest := Linked(x, y.rest))
  }

  lemma {:induction false} LinkedKeys(x: Forest, y: Forest)
    ensures Keys(Linked(x, y)) == Keys(x) + Keys(y)
  {
    if x.Cons? && y.Cons? {
      if x.degree <= y.degree { LinkedKeys(x.rest, y); } else { LinkedKeys(x, y.rest); }
    }
  }

  /** Linking keeps the keys and the heap. */
  lemma {:induction false} LinkedKeeps(x: Forest, y: Forest)
    ensures Keys(Linked(x, y)) == Keys(x) + Keys(y)
    ensures Heap(x) && Heap(y) ==> Heap(Linked(x, y))
  {
    hide Keys, Exact, AtMost;
    LinkedKeys(x, y);
    if x.Cons? && y.Cons? {
      if x.degree <= y.degree { LinkedKeeps(x.rest, y); } else { LinkedKeeps(x, y.rest); }
    }
  }

  // ----- merging neighbours

  /** The first two trees as one: the root that is not less becomes the root. */
  function Combined(f: Forest): (r: Forest)
    requires f.Cons? && f.rest.Cons?
    ensures r.Cons? && Length(r) + 1 == Length(f)
  {
    var b := f.rest;
    if f.n.key < b.n.key then Cons(b.n, b.degree + 1, Cons(f.n, f.degree, f.kids, b.kids), b.rest)
    else Cons(f.n, f.degree + 1, Cons(b.n, b.degree, b.kids, f.kids), b.rest)
  }

  function Length(f: Forest): nat { if f.Nil? then 0 else 1 + Length(f.rest) }

  lemma {:induction false} ExactJoin(n: Node, d: nat, kids: Forest, rest: Forest)
    requires Exact(kids, d) && Exact(rest, d)
    ensures Exact(Cons(n, d, kids, rest), d + 1)
  {
  }

  lemma {:induction false} HeapJoin(n: Node, d: nat, kids: Forest, rest: Forest)
    requires Exact(kids, d) && AtMost(kids, n.key) && Heap(kids) && Heap(rest)
    ensures Heap(Cons(n, d, kids, rest))
  {
  }

  lemma {:induction false} HeapOpen(f: Forest)
    requires Heap(f) && f.Cons?
    ensures Exact(f.kids, f.degree) && AtMost(f.kids, f.n.key) && Heap(f.kids) && Heap(f.rest)
  {
  }

  lemma {:induction false} CombinedKeys(f: Forest)
    requires f.Cons? && f.rest.Cons?
    ensures Keys(Combined(f)) == Keys(f)
  {
  }

  /** Two trees of one degree make one of the next. */
  lemma {:induction false} CombinedHeap(f: Forest)
    requires f.Cons? && f.rest.Cons? && Heap(f) && f.degree == f.rest.degree
    ensures Heap(Combined(f))
  {
    hide Exact, Heap;
    var a, b := f, f.rest;
    HeapOpen(a);
    HeapOpen(b);
    if a.n.key < b.n.key {
      ExactJoin(a.n, a.degree, a.kids, b.kids);
      HeapJoin(a.n, a.degree, a.kids, b.kids);
      HeapJoin(b.n, b.degree + 1, Cons(a.n, a.degree, a.kids, b.kids), b.rest);
    } else {
      ExactJoin(b.n, b.degree, b.kids, a.kids);
      HeapJoin(b.n, b.degree, b.kids, a.kids);
      HeapJoin(a.n, a.degree + 1, Cons(b.n, b.degree, b.kids, a.kids), b.rest);
    }
  }

  lemma {:induction false} CombinedKeeps(f: Forest)
    requires f.Cons? && f.rest.Cons?
    ensures Keys(Combined(f)) == Keys(f)
    ensures Heap(f) && f.degree == f.rest.degree ==> Heap(Combined(f))
  {
    CombinedKeys(f);
    if Heap(f) && f.degree == f.rest.degree { CombinedHeap(f); }
  }

  lemma {:induction false} AtMostTrans(f: Forest, k: int, l: int)
    requires AtMost(f, k) && k <= l
    ensures AtMost(f, l)
  {
    if f.Cons? { AtMostTrans(f.rest, k, l); }
  }

  /** The head is combined with its neighbour as long as they have one degree. */
  function MergedHead(f: Forest): Forest
    decreases Length(f)
  {
    if f.Cons? && f.rest.Cons? && f.degree == f.rest.degree then MergedHead(Combined(f)) else f
  }

  /** Further on neighbours of one degree are combined, but of three in a row the last two; what has been
      combined is not compared again. */
  function MergedTail(f: Forest): Forest {
    if f.Nil? || f.rest.Nil? then f
    else if f.degree == f.rest.degree && !(f.rest.rest.Cons? && f.rest.degree == f.rest.rest.degree) then
      var c := Combined(f);
      c.(rest := MergedTail(c.rest))
    else f.(rest := MergedTail(f.rest))
  }

  function Merged(f: Forest): Forest {
    var h := MergedHead(f);
    if h.Nil? then h else h.(rest := MergedTail(h.rest))
  }

  lemma {:induction false} MergedHeadKeeps(f: Forest)
    ensures Keys(MergedHead(f)) == Keys(f) && (Heap(f) ==> Heap(MergedHead(f)))
    decreases Length(f)
  {
    if f.Cons? && f.rest.Cons? && f.degree == f.rest.degree {
      CombinedKeeps(f);
      MergedHeadKeeps(Combined(f));
    }
  }

  lemma {:induction false} MergedTailKeeps(f: Forest)
    ensures Keys(MergedTail(f)) == Keys(f) && (Heap(f) ==> Heap(MergedTail(f)))
  {
    if f.Cons? && f.rest.Cons? {
      if f.degree == f.rest.degree && !(f.rest.rest.Cons? && f.rest.degree == f.rest.rest.degree) {
        CombinedKeeps(f);
        MergedTailKeeps(Combined(f).rest);
      } else {
        MergedTailKeeps(f.rest);
      }
    }
  }

  /** Merging keeps the keys and the heap. */
  lemma {:induction false} MergedKeeps(f: Forest)
    ensures Keys(Merged(f)) == Keys(f) && (Heap(f) ==> Heap(Merged(f)))
  {
    MergedHeadKeeps(f);
    if MergedHead(f).Cons? { MergedTailKeeps(MergedHead(f).rest); }
  }

  // ----- the greatest key

  ghost predicate AllAtMost(f: Forest, k: int) {
    f.Cons? ==> f.n.key <= k && AllAtMost(f.kids, k) && AllAtMost(f.rest, k)
  }

  /** In a heap a bound on the roots is a bound on all keys. */
  lemma {:induction false} RootsBound(f: Forest, k: int)
    requires Heap(f) && AtMost(f, k)
    ensures AllAtMost(f, k)
  {
    if f.Cons? {
      AtMostTrans(f.kids, f.n.key, k);
      RootsBound(f.kids, k);
      RootsBound(f.rest, k);
    }
  }

  lemma {:induction false} BoundKeys(f: Forest, k: int)
    requires AllAtMost(f, k)
    ensures forall x :: x in Keys(f) ==> x <= k
  {
    if f.Cons? {
      BoundKeys(f.kids, k);
      BoundKeys(f.rest, k);
    }
  }

  /** Putting the children of a removed root back one by one. */
  function Absorbed(f: Forest, kids: Forest): Forest
    decreases kids
  {
    if kids.Nil? then f else Absorbed(Merged(Linked(f, kids.(rest := Nil))), kids.rest)
  }

  lemma {:induction false} AbsorbedKeeps(f: Forest, kids: Forest)
    ensures Keys(Absorbed(f, kids)) == Keys(f) + Keys(kids)
    ensures Heap(f) && Heap(kids) ==> Heap(Absorbed(f, kids))
    decreases kids
  {
    hide Heap, Keys, Merged, Linked;
    if kids.Cons? {
      AbsorbStep(f, kids);
      AbsorbedKeeps(Merged(Linked(f, kids.(rest := Nil))), kids.rest);
    } else {
      NoKeys();
    }
  }

  lemma {:induction false} AbsorbedStep(f: Forest, kids: Forest)
    ensures Absorbed(f, kids) == if kids.Nil? then f else Absorbed(Merged(Linked(f, kids.(rest := Nil))), kids.rest)
  {
  }

  lemma {:induction false} NoKeys()
    ensures Keys(Nil) == multiset{}
  {
  }

  lemma {:induction false} AbsorbStep(f: Forest, kids: Forest)
    requires kids.Cons?
    ensures var g := Merged(Linked(f, kids.(rest := Nil)));
      Keys(g) + Keys(kids.rest) == Keys(f) + Keys(kids) && (Heap(f) && Heap(kids) ==> Heap(g) && Heap(kids.rest))
  {
    hide Heap, Keys, Merged, Linked;
    var one := kids.(rest := Nil);
    OneTree(kids);
    LinkedKeeps(f, one);
    MergedKeeps(Linked(f, one));
    Regroup(Keys(f), Keys(one), Keys(kids.rest));
  }

  lemma {:induction false} OneTree(f: Forest)
    requires f.Cons?
    ensures Keys(f.(rest := Nil)) + Keys(f.rest) == Keys(f)
    ensures Heap(f) ==> Heap(f.(rest := Nil)) && Heap(f.rest)
  {
    hide Exact, AtMost;
  }

  lemma {:induction false} Regroup(a: multiset<int>, b: multiset<int>, c: multiset<int>)
    ensures (a + b) + c == a + (b + c)
  {
  }

  ghost predicate IsGreatest(m: int, keys: multiset<int>) {
    m in keys && forall x :: x in keys ==> x <= m
  }

  lemma {:induction false} GreatestRoot(f: Forest, m: int)
    requires Heap(f) && AtMost(f, m) && m in Keys(f)
    ensures IsGreatest(m, Keys(f))
  {
    RootsBound(f, m);
    BoundKeys(f, m);
  }

  lemma {:induction false} SomeRoot(f: Forest)
    ensures f.Nil? <==> Keys(f) == multiset{}
    ensures f.Nil? <==> |Keys(f)| == 0
  {
    if f.Cons? { assert f.n.key in Keys(f); }
  }

  // ----- the degrees of the roots

  function DegreesOf(f: Forest): (s: seq<nat>)
    ensures f.Nil? <==> s == []
  {
    if f.Nil? then [] else [f.degree] + DegreesOf(f.rest)
  }

  lemma {:induction false} LinkedDegrees(x: Forest, y: Forest)
    ensures DegreesOf(Linked(x, y)) == Degrees.Link(DegreesOf(x), DegreesOf(y))
  {
    if x.Cons? && y.Cons? {
      if x.degree <= y.degree { LinkedDegrees(x.rest, y); } else { LinkedDegrees(x, y.rest); }
    }
  }

  lemma {:induction false} DegreesCons(f: Forest)
    requires f.Cons?
    ensures DegreesOf(f) == [f.degree] + DegreesOf(f.rest)
  {
  }

  lemma {:induction false} CombinedDegrees(f: Forest)
    requires f.Cons? && f.rest.Cons? && f.degree == f.rest.degree
    ensures var s := DegreesOf(f); |s| >= 2 && s[0] == s[1] == f.degree && DegreesOf(Combined(f)) == [s[0] + 1] + s[2..]
    ensures DegreesOf(Combined(f).rest) == DegreesOf(f)[2..] && Combined(f).degree == f.degree + 1
  {
    hide DegreesOf;
    DegreesCons(f);
    DegreesCons(f.rest);
    DegreesCons(Combined(f));
    assert Combined(f).rest == f.rest.rest;
    assert DegreesOf(f) == [f.degree, f.rest.degree] + DegreesOf(f.rest.rest);
  }

  lemma {:induction false} MergedHeadDegrees(f: Forest)
    ensures DegreesOf(MergedHead(f)) == Degrees.MergeHead(DegreesOf(f))
    decreases Length(f)
  {
    hide Combined;
    DegreesFirst(f);
    if f.Cons? && f.rest.Cons? && f.degree == f.rest.degree {
      CombinedDegrees(f);
      MergedHeadDegrees(Combined(f));
    }
  }

  lemma {:induction false} DegreesFirst(f: Forest)
    ensures f.Cons? ==> DegreesOf(f)[0] == f.degree && DegreesOf(f)[1..] == DegreesOf(f.rest)
    ensures f.Cons? ==> (f.rest.Cons? <==> |DegreesOf(f)| > 1) && (f.rest.Cons? ==> DegreesOf(f)[1] == f.rest.degree)
    ensures f.Cons? && f.rest.Cons? ==> (f.rest.rest.Cons? <==> |DegreesOf(f)| > 2)
    ensures f.Cons? && f.rest.Cons? && f.rest.rest.Cons? ==> DegreesOf(f)[2] == f.rest.rest.degree
  {
  }

  lemma {:induction false} MergedTailDegrees(f: Forest)
    ensures DegreesOf(MergedTail(f)) == Degrees.MergeTail(DegreesOf(f))
  {
    hide Combined;
    DegreesFirst(f);
    if f.Cons? && f.rest.Cons? {
      if f.degree == f.rest.degree && !(f.rest.rest.Cons? && f.rest.degree == f.rest.rest.degree) {
        CombinedDegrees(f);
        assert Combined(f).rest == f.rest.rest by { CombinedRest(f); }
        MergedTailDegrees(Combined(f).rest);
      } else {
        MergedTailDegrees(f.rest);
      }
    }
  }

  lemma {:induction false} CombinedRest(f: Forest)
    requires f.Cons? && f.rest.Cons?
    ensures Combined(f).rest == f.rest.rest
  {
  }

  lemma {:induction false} MergedDegrees(f: Forest)
    ensures DegreesOf(Merged(f)) == Degrees.Merge(DegreesOf(f))
  {
    MergedHeadDegrees(f);
    if MergedHead(f).Cons? { MergedTailDegrees(MergedHead(f).rest); }
  }
}
