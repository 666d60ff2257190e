/** The mergeable priority queue of the container library: a forest of binomial trees under links. */
module PriorityQueue {
  import opened Binomial
  import opened BinomialHeap
  import Degrees

  /** What asking for the greatest key gives: the error of an empty queue, or the key. */
  datatype Answer = ContainerIsEmpty | Key(key: int)

  /** A bound on the roots `f` that are left and on `t` is a bound on all roots. */
  ghost predicate Reduced(f: Forest, all: Forest, t: int) {
    forall k :: t <= k && AtMost(f, k) ==> AtMost(all, k)
  }

  lemma {:induction false} ReducedStep(f: Forest, all: Forest, t: int)
    requires Reduced(f, all, t) && f.Cons?
    ensures Reduced(f.rest, all, if t < f.n.key then f.n.key else t)
  {
  }

  lemma {:induction false} ReducedEnd(all: Forest, t: int)
    requires Reduced(Nil, all, t)
    ensures AtMost(all, t)
  {
    assert AtMost(Nil, t);
  }

  class Queue {
    var root: Node?
    var length: nat
    /** The greatest root if it is known. */
    var prior: Node?
    ghost var nodes: set<Node>
    ghost var forest: Forest

    /** The links in memory show the heap-ordered forest, and `prior`, if it is set and there are keys, is a greatest node. */
    ghost predicate Valid()
      reads this, nodes
    {
      && Shown(Snap(nodes), root, Head, forest) && Heap(forest) && length == |Keys(forest)|
      && (prior != null && length > 0 ==> IsGreatest(prior.key, Keys(forest)))
    }

    constructor ()
      ensures Valid() && Keys(forest) == multiset{} && nodes == {} && DegreesOf(forest) == []
    {
      root, length, prior := null, 0, null;
      nodes, forest := {}, Nil;
    }

    /** `kid` becomes the first child of `n`. */
    method Adopt(n: Node, kid: Node, ghost s: set<Node>)
      requires n in s && kid in s && n != kid
      modifies s
      ensures Snap(s) == old(Snap(s)[kid := Snap(s)[kid].(next := n.child)][n := Cell(n.degree + 1, kid, n.next)])
    {
      kid.next := n.child;
      n.child := kid;
      n.degree := n.degree + 1;
    }

    /** Links the first node of the list `xs` next: behind `current`, or as the root. */
    method Lead(rootM: Node?, current: Node?, n: Node, ghost ctx: Ctx, ghost xs: Forest, ghost ys: Forest, ghost s: set<Node>)
        returns (r: Node?)
      requires Open(Snap(s), rootM, ctx, xs, ys) && Ptr(xs) == n
      requires ctx.After? ==> rootM != null && current == ctx.n
      modifies s
      ensures Open(Snap(s), r, After(xs.n, xs.degree, xs.kids, ctx), xs.rest, ys) && r != null && n.next == Ptr(xs.rest)
      ensures n.degree == old(n.degree)
    {
      hide Open;
      ghost var h := Snap(s);
      OpenEither(h, rootM, ctx, xs, ys);
      TakeHead(h, rootM, ctx, xs, ys);
      r := rootM;
      if rootM == null { r := n; } else { current.next := n; }
      assert Snap(s) == Led(h, ctx, n);
    }

    /** Links two lists into one, always taking the head of smaller degree. */
    method Link(rootX: Node?, rootY: Node?, ghost x0: Forest, ghost y0: Forest, ghost s: set<Node>) returns (rootM: Node?)
      requires Shown(Snap(s), rootX, Head, x0) && Shown(Snap(s), rootY, Head, y0) && BinomialHeap.Nodes(x0) !! BinomialHeap.Nodes(y0)
      modifies s
      ensures Shown(Snap(s), rootM, Head, Linked(x0, y0))
    {
      hide Shown, Open, Linked, BinomialHeap.Nodes, Snap;
      Look(Snap(s), rootX, Head, x0);
      Look(Snap(s), rootY, Head, y0);
      LinkedNil(x0);
      LinkedNil(y0);
      if rootX == null { return rootY; }
      if rootY == null { return rootX; }
      var x, y, current := rootX, rootY, null;
      rootM := null;
      ghost var ctx, xs, ys := Head, x0, y0;
      OpenBoth(Snap(s), x0, y0);
      while x != null && y != null
        invariant x == Ptr(xs) && y == Ptr(ys) && Open(Snap(s), rootM, ctx, xs, ys)
        invariant ctx.After? ==> rootM != null && current == ctx.n
        invariant Plug(ctx, Linked(xs, ys)) == Linked(x0, y0)
        decreases Length(xs) + Length(ys)
      {
        OpenEither(Snap(s), rootM, ctx, xs, ys);
        OpenEither(Snap(s), rootM, ctx, ys, xs);
        LinkedStep(xs, ys);
        SnapAt(s);
        if x.degree <= y.degree {
          rootM := Lead(rootM, current, x, ctx, xs, ys, s);
          current := x;
          x := x.next;
          ctx, xs := After(xs.n, xs.degree, xs.kids, ctx), xs.rest;
        } else {
          rootM := Lead(rootM, current, y, ctx, ys, xs, s);
          OpenEither(Snap(s), rootM, After(ys.n, ys.degree, ys.kids, ctx), ys.rest, xs);
          current := y;
          y := y.next;
          ctx, ys := After(ys.n, ys.degree, ys.kids, ctx), ys.rest;
        }
      }
      while x != null
        invariant x == Ptr(xs) && y == Ptr(ys) && Open(Snap(s), rootM, ctx, xs, ys) && (x == null || y == null)
        invariant ctx.After? ==> rootM != null && current == ctx.n
        invariant Plug(ctx, Linked(xs, ys)) == Linked(x0, y0)
        decreases Length(xs)
      {
        LinkedStep(xs, ys);
        rootM := Lead(rootM, current, x, ctx, xs, ys, s);
        current := x;
        x := x.next;
        ctx, xs := After(xs.n, xs.degree, xs.kids, ctx), xs.rest;
      }
      while y != null
        invariant x == null == Ptr(xs) && y == Ptr(ys) && Open(Snap(s), rootM, ctx, xs, ys)
        invariant ctx.After? ==> rootM != null && current == ctx.n
        invariant Plug(ctx, Linked(xs, ys)) == Linked(x0, y0)
        decreases Length(ys)
      {
        LinkedStep(xs, ys);
        OpenEither(Snap(s), rootM, ctx, xs, ys);
        rootM := Lead(rootM, current, y, ctx, ys, xs, s);
        OpenEither(Snap(s), rootM, After(ys.n, ys.degree, ys.kids, ctx), ys.rest, xs);
        current := y;
        y := y.next;
        ctx, ys := After(ys.n, ys.degree, ys.kids, ctx), ys.rest;
      }
      LinkedNil(ys);
      Closed(Snap(s), rootM, ctx);
      PlugShown(Snap(s), rootM, ctx, Nil);
    }

    /** `first` takes the tree after it as its first child. */
    method KeepFirst(first: Node, ghost s: set<Node>)
      requires first in s && first.next != null && first.next in s && first.next != first
      modifies s
      ensures Snap(s) == KeptFirst(old(Snap(s)), first, old(first.next))
    {
      var second := first.next;
      first.next := second.next;
      Adopt(first, second, s);
    }

    /** The first two trees become one. */
    method CombineHead()
      requires Shown(Snap(nodes), root, Head, forest) && forest.Cons? && forest.rest.Cons?
      modifies this`root, this`forest, nodes
      ensures Shown(Snap(nodes), root, Head, forest) && forest == Combined(old(forest))
    {
      hide Shown, Rep, Sep, BinomialHeap.Nodes;
      ghost var h := Snap(nodes);
      Look(h, root, Head, forest);
      var current := root;
      if root.key < root.next.key {
        SecondKept(h, root, Head, forest);
        root := root.next;
        Adopt(root, current, nodes);
        assert Snap(nodes) == KeptSecond(h, null, forest.n, forest.rest.n);
      } else {
        FirstKept(h, root, Head, forest);
        KeepFirst(root, nodes);
      }
      forest := Combined(forest);
    }

    /** The two trees behind the context become one; `n` is its root. */
    method CombineBehind(prev: Node, current: Node, ghost ctx: Ctx, ghost f: Forest) returns (n: Node)
      requires Shown(Snap(nodes), root, ctx, f) && f.Cons? && f.rest.Cons? && f.n == current && ctx.After? && ctx.n == prev
      modifies nodes
      ensures Shown(Snap(nodes), root, ctx, Combined(f)) && n == Combined(f).n && n.next == Ptr(Combined(f).rest)
    {
      hide Shown, Rep, Sep, BinomialHeap.Nodes, CtxNodes;
      ghost var h := Snap(nodes);
      Look(h, root, ctx, f);
      LookBehind(h, root, ctx, f);
      if current.key < current.next.key {
        SecondKept(h, root, ctx, f);
        n := current.next;
        prev.next := n;
        Adopt(n, current, nodes);
        assert Snap(nodes) == KeptSecond(h, prev, current, n);
      } else {
        FirstKept(h, root, ctx, f);
        n := current;
        KeepFirst(n, nodes);
      }
    }

    /** Combines the head with its neighbour while they have one degree. */
    method MergeHead()
      requires Shown(Snap(nodes), root, Head, forest) && root != null
      modifies this`root, this`forest, nodes
      ensures Shown(Snap(nodes), root, Head, forest) && forest == MergedHead(old(forest)) && root != null
      ensures nodes == old(nodes)
    {
      hide Shown, Rep, Sep, BinomialHeap.Nodes, CtxNodes, MergedHead, Snap;
      Look(Snap(nodes), root, Head, forest);
      SnapAt(nodes);
      while root.next != null && root.degree == root.next.degree
        invariant Shown(Snap(nodes), root, Head, forest) && MergedHead(forest) == MergedHead(old(forest))
        invariant forest.Cons? && root == forest.n && root.degree == forest.degree && root.next == Ptr(forest.rest)
        invariant forest.rest.Cons? ==> root.next.degree == forest.rest.degree
        decreases Length(forest)
      {
        MergedHeadStep(forest);
        CombineHead();
        Look(Snap(nodes), root, Head, forest);
        SnapAt(nodes);
      }
      MergedHeadStep(forest);
    }

    /** Behind the head combines neighbours of one degree, but of three in a row the last two. */
    method MergeTail()
      requires Shown(Snap(nodes), root, Head, forest) && root != null
      modifies this`forest, nodes
      ensures Shown(Snap(nodes), root, Head, forest) && nodes == old(nodes)
      ensures old(forest).Cons? && forest == old(forest).(rest := MergedTail(old(forest).rest))
    {
      hide Shown, Rep, Sep, BinomialHeap.Nodes, CtxNodes, MergedTail, Snap;
      Look(Snap(nodes), root, Head, forest);
      SnapAt(nodes);
      var prev, current := root, root.next;
      ghost var all := forest.(rest := MergedTail(forest.rest));
      ghost var ctx, f := After(forest.n, forest.degree, forest.kids, Head), forest.rest;
      Zip(Snap(nodes), root, forest.n, forest.degree, forest.kids, Head, f);
      while current != null && current.next != null
        invariant Shown(Snap(nodes), root, ctx, f) && ctx.After? && ctx.n == prev && current == Ptr(f)
        invariant Plug(ctx, MergedTail(f)) == all && root != null
        invariant current != null ==> current.next == Ptr(f.rest)
        decreases Length(f)
      {
        Look(Snap(nodes), root, ctx, f);
        SnapAt(nodes);
        MergedTailStep(f);
        if current.degree == current.next.degree && !(current.next.next != null && current.next.degree == current.next.next.degree) {
          prev := CombineBehind(prev, current, ctx, f);
          f := Combined(f);
        } else {
          prev := prev.next;
        }
        current := prev.next;
        Zip(Snap(nodes), root, f.n, f.degree, f.kids, ctx, f.rest);
        ctx, f := After(f.n, f.degree, f.kids, ctx), f.rest;
        Look(Snap(nodes), root, ctx, f);
        SnapAt(nodes);
      }
      MergedEnd(f);
      PlugShown(Snap(nodes), root, ctx, f);
      forest := Plug(ctx, f);
    }

    /** Combines neighbours of one degree. */
    method Merge()
      requires Shown(Snap(nodes), root, Head, forest)
      modifies this`root, this`forest, nodes
      ensures Shown(Snap(nodes), root, Head, forest) && forest == Merged(old(forest)) && nodes == old(nodes)
    {
      hide Shown, Rep, Sep, BinomialHeap.Nodes, CtxNodes, MergedHead, MergedTail, Snap;
      SnapAt(nodes);
      Look(Snap(nodes), root, Head, forest);
      MergedEnd(forest);
      if root == null || root.next == null { return; }
      MergeHead();
      SnapAt(nodes);
      Look(Snap(nodes), root, Head, forest);
      MergedEnd(forest.rest);
      if root.next == null { return; }
      MergeTail();
    }

    /** Links another list into this one and merges. */
    method LinkIn(p: Node?, ghost f: Forest, ghost own: set<Node>)
      requires Shown(Snap(nodes), root, Head, forest) && Shown(Snap(own), p, Head, f) && own !! nodes
      modifies this`root, this`forest, this`nodes, nodes, own
      ensures Shown(Snap(nodes), root, Head, forest) && nodes == old(nodes) + own
      ensures forest == Merged(Linked(old(forest), f))
    {
      hide Shown, BinomialHeap.Nodes, Merged, Linked, Snap;
      ghost var s := nodes + own;
      NodesWithin(nodes, root, forest);
      NodesWithin(own, p, f);
      Wider(nodes, s, root, forest);
      Wider(own, s, p, f);
      root := Link(root, p, forest, f, s);
      forest, nodes := Linked(forest, f), s;
      Merge();
    }

    /** Walks over the roots for a greatest key; `prior` becomes its node if it is not the first. */
    method Scan() returns (t: int)
      requires Shown(Snap(nodes), root, Head, forest) && root != null && prior == null
      modifies this`prior
      ensures AtMost(forest, t) && t in Keys(forest) && (prior != null ==> t == prior.key)
    {
      hide Shown, Keys, Snap, BinomialHeap.Nodes, CtxNodes, Rep, RepCtx, Sep, SepCtx;
      Look(Snap(nodes), root, Head, forest);
      KeysCons(forest);
      t := root.key;
      var p := root;
      ghost var ctx, f := Head, forest;
      while p != null
        invariant Shown(Snap(nodes), root, ctx, f) && p == Ptr(f) && Plug(ctx, f) == forest
        invariant Reduced(f, forest, t) && t in Keys(forest) && (prior != null ==> t == prior.key)
        decreases f
      {
        Look(Snap(nodes), root, ctx, f);
        SnapAt(nodes);
        KeysCons(f);
        KeyOf(ctx, f);
        ReducedStep(f, forest, t);
        if t < p.key { t, prior := p.key, p; }
        Zip(Snap(nodes), root, f.n, f.degree, f.kids, ctx, f.rest);
        ctx, f := After(f.n, f.degree, f.kids, ctx), f.rest;
        p := p.next;
      }
      ReducedEnd(forest, t);
    }

    /** A greatest key, or the error of the empty queue; the place of a greatest node is kept for the next time. */
    method Top() returns (r: Answer)
      requires Valid()
      modifies this`prior
      ensures Valid()
      ensures if Keys(forest) == multiset{} then r == ContainerIsEmpty else r.Key? && IsGreatest(r.key, Keys(forest))
    {
      hide Shown, Heap, Keys, Snap, IsGreatest, AtMost;
      if length == 0 { return ContainerIsEmpty; }
      if prior != null { return Key(prior.key); }
      SomeRoot(forest);
      Look(Snap(nodes), root, Head, forest);
      var t := Scan();
      GreatestRoot(forest, t);
      r := Key(t);
    }

    /** Adds a key. */
    method Push(e: int)
      requires Valid()
      modifies this, nodes
      ensures Valid() && Keys(forest) == old(Keys(forest)) + multiset{e} && fresh(nodes - old(nodes))
      ensures DegreesOf(forest) == Degrees.Merge(Degrees.Link(old(DegreesOf(forest)), [0]))
    {
      hide Shown, Heap, Keys, Snap, Merged, Linked, BinomialHeap.Nodes;
      var n := new Node(e);
      ghost var one := Cons(n, 0, Nil, Nil);
      OneNode({n}, n);
      LinkedKeeps(forest, one);
      MergedKeeps(Linked(forest, one));
      LinkedDegrees(forest, one);
      MergedDegrees(Linked(forest, one));
      assert DegreesOf(one) == [0];
      LinkIn(n, one, {n});
      length, prior := length + 1, null;
    }

    /** The node before a greatest one behind the root, if there is any behind it. */
    method FindBefore() returns (prev: Node, ghost ctx: Ctx, ghost f: Forest)
      requires Shown(Snap(nodes), root, Head, forest) && root != null
      ensures Shown(Snap(nodes), root, ctx, f) && Plug(ctx, f) == forest && Ptr(f) == prev
      ensures forest.Cons? && (forest.rest.Cons? <==> f.rest.Cons?)
      ensures f.rest.Cons? ==> AtMost(forest.rest, f.rest.n.key)
    {
      hide Shown, Snap, BinomialHeap.Nodes, CtxNodes, Rep, RepCtx;
      var p: Node := root;
      prev, ctx, f := root, Head, forest;
      ghost var at, g := Head, forest;
      Look(Snap(nodes), root, at, g);
      SnapAt(nodes);
      while p.next != null
        invariant Shown(Snap(nodes), root, ctx, f) && Plug(ctx, f) == forest && Ptr(f) == prev
        invariant prev.next == Ptr(f.rest) && (forest.rest.Cons? <==> f.rest.Cons?)
        invariant Shown(Snap(nodes), root, at, g) && Ptr(g) == p && p.next == Ptr(g.rest) && Plug(at, g) == forest
        invariant if at.Head? then g == forest else forest.rest.Cons?
        invariant forest.rest.Cons? ==> forall k :: f.rest.n.key <= k && AtMost(g.rest, k) ==> AtMost(forest.rest, k)
        decreases g
      {
        if prev.next.key < p.next.key { prev, ctx, f := p, at, g; }
        Zip(Snap(nodes), root, g.n, g.degree, g.kids, at, g.rest);
        at, g := After(g.n, g.degree, g.kids, at), g.rest;
        p := p.next;
        Look(Snap(nodes), root, at, g);
        SnapAt(nodes);
      }
    }

    /** Takes the tree behind `prev` out of the list. */
    method CutBehind(prev: Node, ghost ctx: Ctx, ghost f: Forest) returns (current: Node)
      requires Shown(Snap(nodes), root, ctx, f) && Ptr(f) == prev && f.rest.Cons?
      modifies this`forest, nodes
      ensures Out(Snap(nodes), root, f.rest, forest) && current == f.rest.n && current.child == Ptr(f.rest.kids)
      ensures forest == Plug(ctx, f.(rest := f.rest.rest)) && nodes == old(nodes)
    {
      hide Shown, BinomialHeap.Nodes, CtxNodes, Rep, RepCtx, Out;
      ghost var h := Snap(nodes);
      Look(h, root, ctx, f);
      TakeOut(h, root, ctx, f);
      current := prev.next;
      prev.next := current.next;
      forest := Plug(ctx, f.(rest := f.rest.rest));
      assert Snap(nodes) == h[prev := h[prev].(next := current.next)];
    }

    /** Takes a greatest root out of the list; its children `kids` are shown in the nodes `rest`. */
    method Unlink() returns (current: Node, ghost kids: Forest, ghost rest: set<Node>)
      requires Shown(Snap(nodes), root, Head, forest) && Heap(forest) && root != null
      modifies this`root, this`forest, this`nodes, nodes
      ensures Shown(Snap(nodes), root, Head, forest) && Shown(Snap(rest), current.child, Head, kids) && current.child == Ptr(kids)
      ensures nodes !! rest && nodes + rest <= old(nodes) - {current}
      ensures IsGreatest(current.key, old(Keys(forest)))
      ensures old(Keys(forest)) == Keys(forest) + Keys(kids) + multiset{current.key} && Heap(forest) && Heap(kids)
    {
      hide Shown, Heap, Keys, BinomialHeap.Nodes, CtxNodes, Rep, RepCtx, Out, AtMost, IsGreatest, Snap;
      var prev;
      ghost var ctx, f, b;
      prev, ctx, f := FindBefore();
      Look(Snap(nodes), root, ctx, f);
      Look(Snap(nodes), root, Head, forest);
      SnapAt(nodes);
      if prev.next != null && root.key < prev.next.key {
        b := f.rest;
        BestBehind(forest, After(f.n, f.degree, f.kids, ctx), b);
        current := CutBehind(prev, ctx, f);
      } else {
        current, b := root, forest;
        BestFirst(forest, if forest.rest.Cons? then f.rest.n.key else 0);
        TakeFirst(Snap(nodes), root, forest);
        root := root.next;
        forest := forest.rest;
      }
      kids := b.kids;
      OutWithin(nodes, root, b, forest);
      nodes, rest := BinomialHeap.Nodes(forest), BinomialHeap.Nodes(kids);
    }

    /** Cuts the first of the children `ks`, shown in the nodes `rest`, off the next child `q`. */
    method CutChild(p: Node, ghost ks: Forest, ghost rest: set<Node>) returns (q: Node?, ghost own: set<Node>, ghost rest': set<Node>)
      requires Shown(Snap(rest), p, Head, ks)
      modifies rest
      ensures ks.Cons? && Shown(Snap(own), p, Head, ks.(rest := Nil)) && Shown(Snap(rest'), q, Head, ks.rest) && q == Ptr(ks.rest)
      ensures own !! rest' && own + rest' <= rest && BinomialHeap.Nodes(ks.(rest := Nil)) <= own
    {
      hide Shown, BinomialHeap.Nodes, Rep, Sep, CtxNodes, RepCtx;
      ghost var h := Snap(rest);
      Look(h, p, Head, ks);
      Detach(h, ks);
      NodesWithin(rest, p, ks);
      own, rest' := BinomialHeap.Nodes(ks.(rest := Nil)), BinomialHeap.Nodes(ks.rest);
      q := p.next;
      p.next := null;
      assert Snap(rest) == h[p := h[p].(next := null)];
      Wider(rest, own, p, ks.(rest := Nil));
      Wider(rest, rest', q, ks.rest);
    }

    /** Puts the first of the children `ks`, shown in the nodes `rest`, into the list; `q` is the next child. */
    method AbsorbOne(p: Node, ghost ks: Forest, ghost rest: set<Node>) returns (q: Node?, ghost rest': set<Node>)
      requires Shown(Snap(nodes), root, Head, forest) && Shown(Snap(rest), p, Head, ks) && rest !! nodes
      modifies this`root, this`forest, this`nodes, nodes, rest
      ensures ks.Cons? && Shown(Snap(nodes), root, Head, forest) && forest == Merged(Linked(old(forest), ks.(rest := Nil)))
      ensures Shown(Snap(rest'), q, Head, ks.rest) && q == Ptr(ks.rest)
      ensures rest' !! nodes && nodes + rest' <= old(nodes) + rest
    {
      hide Shown, BinomialHeap.Nodes, Merged, Linked, Rep, Sep, CtxNodes, RepCtx;
      ghost var own;
      q, own, rest' := CutChild(p, ks, rest);
      LinkIn(p, ks.(rest := Nil), own);
    }

    /** Removes a greatest key, or reports the empty queue. */
    method Pop() returns (ok: bool)
      requires Valid()
      modifies this, nodes
      ensures Valid() && nodes <= old(nodes) && ok == (old(Keys(forest)) != multiset{})
      ensures !ok ==> Keys(forest) == old(Keys(forest))
      ensures ok ==> exists m :: IsGreatest(m, old(Keys(forest))) && Keys(forest) == old(Keys(forest)) - multiset{m}
    {
      hide Shown, BinomialHeap.Nodes, Heap, Keys, Snap, IsGreatest, Absorbed, Merged, Linked;
      SomeRoot(forest);
      if length == 0 { return false; }
      ok := true;
      Look(Snap(nodes), root, Head, forest);
      prior := null;
      ghost var keys := Keys(forest);
      ghost var all := nodes;
      var current;
      ghost var kids, rest;
      current, kids, rest := Unlink();
      var p := current.child;
      ghost var ks, left := kids, forest;
      while p != null
        invariant Shown(Snap(nodes), root, Head, forest) && Shown(Snap(rest), p, Head, ks) && p == Ptr(ks)
        invariant rest !! nodes && rest + nodes <= all && length == |keys| && prior == null
        invariant Absorbed(forest, ks) == Absorbed(left, kids)
        decreases ks
      {
        AbsorbedStep(forest, ks);
        p, rest := AbsorbOne(p, ks, rest);
        ks := ks.rest;
        Look(Snap(rest), p, Head, ks);
      }
      AbsorbedStep(forest, ks);
      AbsorbedKeeps(left, kids);
      length := length - 1;
    }

    /** Takes over all keys of another queue, which becomes empty. */
    method MergeWith(other: Queue)
      requires Valid() && other.Valid() && other != this && nodes !! other.nodes
      modifies this, other, nodes, other.nodes
      ensures Valid() && Keys(forest) == old(Keys(forest)) + old(Keys(other.forest)) && nodes == old(nodes) + old(other.nodes)
      ensures other.Valid() && Keys(other.forest) == multiset{} && other.nodes == {}
      ensures DegreesOf(forest) == Degrees.Merge(Degrees.Link(old(DegreesOf(forest)), old(DegreesOf(other.forest))))
    {
      hide Shown, BinomialHeap.Nodes, Heap, Keys, Snap, IsGreatest, Merged, Linked;
      LinkedKeeps(forest, other.forest);
      MergedKeeps(Linked(forest, other.forest));
      LinkedDegrees(forest, other.forest);
      MergedDegrees(Linked(forest, other.forest));
      LinkIn(other.root, other.forest, other.nodes);
      length, prior := length + other.length, null;
      other.length, other.root := 0, null;
      other.nodes, other.forest := {}, Nil;
      EmptyQueue(other.nodes);
    }

    /** The number of keys, which is the sum of two to the degree of every root. */
    method Size() returns (n: nat)
      requires Valid()
      ensures n == |Keys(forest)| == RootSizes(forest)
    {
      RootSizesAdd(forest);
      n := length;
    }
  }

  // ----- whole runs

  /** A request to the queue with an index; a merge takes over another queue. */
  datatype Request = Push(at: nat, key: int) | Pop(at: nat) | Top(at: nat) | Merge(at: nat, other: nat)
  datatype Reply = Pushed | Popped(ok: bool) | Topped(answer: Answer) | MergedIn

  lemma {:induction false} SomeKey(keys: multiset<int>)
    ensures keys == multiset{} || exists x :: x in keys
  {
    if forall x :: x !in keys { assert keys == multiset{}; }
  }

  lemma {:induction false} OneMore(rest: multiset<int>, x: int)
    requires rest == multiset{} || exists m :: IsGreatest(m, rest)
    ensures exists m :: IsGreatest(m, rest + multiset{x})
  {
    if rest == multiset{} {
      assert IsGreatest(x, rest + multiset{x});
    } else {
      var m :| IsGreatest(m, rest);
      assert IsGreatest(if m < x then x else m, rest + multiset{x});
    }
  }

  lemma {:induction false} SomeGreatest(keys: multiset<int>)
    requires keys != multiset{}
    ensures exists m :: IsGreatest(m, keys)
    decreases |keys|
  {
    hide IsGreatest;
    SomeKey(keys);
    var x :| x in keys;
    var rest := keys - multiset{x};
    assert keys == rest + multiset{x};
    if rest != multiset{} { SomeGreatest(rest); }
    OneMore(rest, x);
  }

  ghost function Greatest(keys: multiset<int>): (m: int)
    requires keys != multiset{}
    ensures IsGreatest(m, keys)
  {
    SomeGreatest(keys);
    var m :| IsGreatest(m, keys);
    m
  }

  predicate Proper(request: Request, n: nat) {
    request.at < n && (request.Merge? ==> request.other < n && request.other != request.at)
  }

  ghost function ServeAlone(keys: multiset<int>, request: Request): (multiset<int>, Reply)
    requires !request.Merge?
  {
    match request
    case Push(_, key) => (keys + multiset{key}, Pushed)
    case Pop(_) => if keys == multiset{} then (keys, Popped(false)) else (keys - multiset{Greatest(keys)}, Popped(true))
    case Top(_) => (keys, Topped(if keys == multiset{} then ContainerIsEmpty else Key(Greatest(keys))))
  }

  /** What a request does to the multisets of keys, and the reply. */
  ghost function Serve(state: seq<multiset<int>>, request: Request): (r: (seq<multiset<int>>, Reply))
    requires Proper(request, |state|)
    ensures |r.0| == |state|
  {
    var i := request.at;
    var keys := state[i];
    if request.Merge? then (state[i := keys + state[request.other]][request.other := multiset{}], MergedIn)
    else (state[i := ServeAlone(keys, request).0], ServeAlone(keys, request).1)
  }

  ghost function ServeAll(n: nat, requests: seq<Request>): (r: (seq<multiset<int>>, seq<Reply>))
    requires forall k :: 0 <= k < |requests| ==> Proper(requests[k], n)
    ensures |r.0| == n
  {
    if requests == [] then (seq(n, _ => multiset{}), [])
    else
      var (state, replies) := ServeAll(n, requests[..|requests| - 1]);
      var (state', reply) := Serve(state, requests[|requests| - 1]);
      (state', replies + [reply])
  }

  ghost function AllNodes(queues: seq<Queue>): set<Node>
    reads queues
  {
    set i: nat, n | i < |queues| && n in queues[i].nodes :: n
  }

  /** The queues share nothing. */
  ghost predicate Apart(queues: seq<Queue>)
    reads queues
  {
    forall i, j :: 0 <= i < j < |queues| ==> queues[i] != queues[j] && queues[i].nodes !! queues[j].nodes
  }

  /** The queues hold the multisets. */
  ghost predicate Hold(queues: seq<Queue>, state: seq<multiset<int>>)
    reads queues, AllNodes(queues)
  {
    |state| == |queues| && forall i :: 0 <= i < |queues| ==> queues[i].Valid() && Keys(queues[i].forest) == state[i]
  }

  /** One queue with its own nodes answers a request that concerns it alone. */
  method AnsweredAlone(queue: Queue, request: Request, ghost keys: multiset<int>) returns (reply: Reply)
    requires queue.Valid() && Keys(queue.forest) == keys && !request.Merge?
    modifies queue, queue.nodes
    ensures queue.Valid() && fresh(queue.nodes - old(queue.nodes))
    ensures (Keys(queue.forest), reply) == ServeAlone(keys, request)
  {
    hide Keys, Queue.Valid, Heap;
    match request {
      case Push(_, key) =>
        queue.Push(key);
        reply := Pushed;
      case Pop(_) =>
        var ok := queue.Pop();
        reply := Popped(ok);
      case Top(_) =>
        var answer := queue.Top();
        reply := Topped(answer);
    }
  }

  /** A request to one of the queues leaves the others alone. */
  method AnsweredOne(queues: seq<Queue>, request: Request, ghost state: seq<multiset<int>>) returns (reply: Reply)
    requires Proper(request, |queues|) && !request.Merge? && Apart(queues) && Hold(queues, state)
    modifies queues[request.at], queues[request.at].nodes
    ensures Apart(queues) && Hold(queues, Serve(state, request).0) && reply == Serve(state, request).1
    ensures forall i :: 0 <= i < |queues| ==> fresh(queues[i].nodes - old(queues[i].nodes))
  {
    hide Keys, Queue.Valid, ServeAlone;
    ghost var at := request.at;
    reply := AnsweredAlone(queues[request.at], request, state[at]);
    ghost var after := Serve(state, request).0;
    forall i | 0 <= i < |queues|
      ensures queues[i].Valid() && Keys(queues[i].forest) == after[i]
    {
      assert i != at ==> queues[i] != queues[at] && queues[i].nodes == old(queues[i].nodes);
    }
  }

  /** A merge leaves the other queues alone. */
  method AnsweredMerge(queues: seq<Queue>, request: Request, ghost state: seq<multiset<int>>) returns (reply: Reply)
    requires Proper(request, |queues|) && request.Merge? && Apart(queues) && Hold(queues, state)
    modifies queues[request.at], queues[request.at].nodes, queues[request.other], queues[request.other].nodes
    ensures Apart(queues) && Hold(queues, Serve(state, request).0) && reply == MergedIn
    ensures forall i :: 0 <= i < |queues| ==> queues[i].nodes <= old(queues[i].nodes + queues[request.other].nodes)
  {
    hide Keys, Queue.Valid, ServeAlone;
    ghost var at, other := request.at, request.other;
    queues[request.at].MergeWith(queues[request.other]);
    ghost var after := Serve(state, request).0;
    forall i | 0 <= i < |queues|
      ensures queues[i].Valid() && Keys(queues[i].forest) == after[i]
    {
      assert i != at && i != other ==> queues[i] != queues[at] && queues[i] != queues[other] && queues[i].nodes == old(queues[i].nodes);
    }
    reply := MergedIn;
  }

  method Answered(queues: seq<Queue>, request: Request, ghost state: seq<multiset<int>>) returns (reply: Reply)
    requires Proper(request, |queues|) && Apart(queues) && Hold(queues, state)
    modifies queues, AllNodes(queues)
    ensures Apart(queues) && Hold(queues, Serve(state, request).0) && reply == Serve(state, request).1
    ensures forall n :: n in AllNodes(queues) ==> n in old(AllNodes(queues)) || fresh(n)
  {
    hide Hold, Apart, ServeAlone;
    if request.Merge? {
      reply := AnsweredMerge(queues, request, state);
    } else {
      reply := AnsweredOne(queues, request, state);
    }
  }

  /** Some queues without keys. */
  method Empties(n: nat) returns (queues: seq<Queue>)
    ensures |queues| == n && Apart(queues) && Hold(queues, seq(n, _ => multiset{}))
    ensures fresh(queues) && fresh(AllNodes(queues))
  {
    hide Keys, Queue.Valid;
    queues := [];
    while |queues| < n
      invariant |queues| <= n && Apart(queues) && forall i :: 0 <= i < |queues| ==> fresh(queues[i]) && fresh(queues[i].nodes)
      invariant forall i :: 0 <= i < |queues| ==> queues[i].Valid() && Keys(queues[i].forest) == multiset{}
    {
      var queue := new Queue();
      queues := queues + [queue];
    }
  }

  lemma {:induction false} ServedMore(n: nat, requests: seq<Request>, k: nat)
    requires k < |requests| && forall l :: 0 <= l < |requests| ==> Proper(requests[l], n)
    ensures var (state, replies) := ServeAll(n, requests[..k]);
      ServeAll(n, requests[..k + 1]) == (Serve(state, requests[k]).0, replies + [Serve(state, requests[k]).1])
  {
    hide Serve;
    assert requests[..k + 1][..k] == requests[..k];
  }

  /** Every run of requests to `n` queues is answered as by multisets that give out their greatest keys. */
  method Run(n: nat, requests: seq<Request>) returns (replies: seq<Reply>)
    requires forall k :: 0 <= k < |requests| ==> Proper(requests[k], n)
    ensures replies == ServeAll(n, requests).1
  {
    hide Apart, Hold, Serve, ServeAll, AllNodes;
    NothingServed(n);
    var queues := Empties(n);
    replies := [];
    while |replies| < |requests|
      invariant |replies| <= |requests| && |queues| == n && Apart(queues) && fresh(queues) && fresh(AllNodes(queues))
      invariant Hold(queues, ServeAll(n, requests[..|replies|]).0) && replies == ServeAll(n, requests[..|replies|]).1
    {
      ServedMore(n, requests, |replies|);
      var reply := Answered(queues, requests[|replies|], ServeAll(n, requests[..|replies|]).0);
      replies := replies + [reply];
    }
    assert requests[..|requests|] == requests;
  }

  lemma {:induction false} NothingServed(n: nat)
    ensures ServeAll(n, []) == (seq(n, _ => multiset{}), [])
  {
  }

  // ----- what a run of requests comes to

  /** What a request does to every key of every queue, and what the reply to it says. */
  ghost predicate Served(state: seq<multiset<int>>, state': seq<multiset<int>>, request: Request, reply: Reply)
    requires Proper(request, |state|)
  {
    |state'| == |state| &&
    match request
    case Push(i, key) =>
      reply == Pushed && forall j: nat, x :: j < |state| ==> state'[j][x] == state[j][x] + if j == i && x == key then 1 else 0
    case Pop(i) =>
      && (reply == Popped(false) ==> state[i] == multiset{} && state' == state)
      && (reply != Popped(false) ==> reply == Popped(true) && exists m :: IsGreatest(m, state[i]) && LosesOne(state, state', i, m))
    case Top(i) =>
      && state' == state && reply.Topped? && (reply.answer == ContainerIsEmpty <==> state[i] == multiset{})
      && (reply.answer.Key? ==> IsGreatest(reply.answer.key, state[i]))
    case Merge(i, other) =>
      reply == MergedIn && forall j: nat, x :: j < |state| ==>
        state'[j][x] == if j == i then state[i][x] + state[other][x] else if j == other then 0 else state[j][x]
  }

  /** Queue `i` has lost one `m`. */
  ghost predicate LosesOne(state: seq<multiset<int>>, state': seq<multiset<int>>, i: nat, m: int)
    requires |state'| == |state|
  {
    forall j: nat, x :: j < |state| ==> state'[j][x] + (if j == i && x == m then 1 else 0) == state[j][x]
  }

  lemma {:induction false} ServedIs(state: seq<multiset<int>>, request: Request)
    requires Proper(request, |state|)
    ensures Served(state, Serve(state, request).0, request, Serve(state, request).1)
  {
    var i, state' := request.at, Serve(state, request).0;
    match request
    case Push(_, _) =>
    case Pop(_) => if state[i] != multiset{} { PopLoses(state, request); }
    case Top(_) => assert state[i := state[i]] == state;
    case Merge(_, _) =>
  }

  lemma {:induction false} PopLoses(state: seq<multiset<int>>, request: Request)
    requires Proper(request, |state|) && request.Pop? && state[request.at] != multiset{}
    ensures LosesOne(state, Serve(state, request).0, request.at, Greatest(state[request.at]))
  {
    var i := request.at;
    var m := Greatest(state[i]);
    assert m in state[i];
    assert Serve(state, request).0 == state[i := state[i] - multiset{m}];
  }

  lemma {:induction false} ServeAllNext(n: nat, requests: seq<Request>, request: Request)
    requires (forall k :: 0 <= k < |requests| ==> Proper(requests[k], n)) && Proper(request, n)
    ensures forall k :: 0 <= k <= |requests| ==> Proper((requests + [request])[k], n)
    ensures var (state, replies) := ServeAll(n, requests); var (state', reply) := Serve(state, request);
      ServeAll(n, requests + [request]) == (state', replies + [reply])
  {
    hide Serve;
    assert (requests + [request])[..|requests|] == requests;
  }

  /** How many of a key there are in all queues. */
  ghost function InAll(state: seq<multiset<int>>, x: int): nat {
    if state == [] then 0 else InAll(state[..|state| - 1], x) + state[|state| - 1][x]
  }

  lemma {:induction false} InAllUpdate(state: seq<multiset<int>>, i: nat, keys: multiset<int>, x: int)
    requires i < |state|
    ensures InAll(state[i := keys], x) + state[i][x] == InAll(state, x) + keys[x]
  {
    var last := |state| - 1;
    if i == last {
      assert state[i := keys][..last] == state[..last];
    } else {
      InAllUpdate(state[..last], i, keys, x);
      assert state[i := keys][..last] == state[..last][i := keys];
    }
  }

  function TimesPushed(requests: seq<Request>, x: int): nat {
    if requests == [] then 0
    else TimesPushed(requests[..|requests| - 1], x) + var r := requests[|requests| - 1]; if r.Push? && r.key == x then 1 else 0
  }

  /** How many times `x` was the greatest key of a queue that was popped. */
  ghost function TimesPopped(n: nat, requests: seq<Request>, x: int): nat
    requires forall k :: 0 <= k < |requests| ==> Proper(requests[k], n)
  {
    if requests == [] then 0
    else
      var before, r := requests[..|requests| - 1], requests[|requests| - 1];
      assert Proper(r, n);
      TimesPopped(n, before, x) + if r.Pop? && IsGreatest(x, ServeAll(n, before).0[r.at]) then 1 else 0
  }

  lemma {:induction false} OneGreatest(x: int, y: int, keys: multiset<int>)
    requires IsGreatest(x, keys) && IsGreatest(y, keys)
    ensures x == y
  {
  }

  lemma {:induction false} InAllNext(state: seq<multiset<int>>, request: Request, x: int)
    requires Proper(request, |state|)
    ensures InAll(Serve(state, request).0, x) + (if request.Pop? && IsGreatest(x, state[request.at]) then 1 else 0)
         == InAll(state, x) + (if request.Push? && request.key == x then 1 else 0)
  {
    hide IsGreatest, InAll;
    var i, state' := request.at, Serve(state, request).0;
    InAllUpdate(state, i, state'[i], x);
    if request.Merge? {
      InAllUpdate(state[i := state'[i]], request.other, multiset{}, x);
    } else if request.Pop? && state[i] != multiset{} {
      if IsGreatest(x, state[i]) { OneGreatest(x, Greatest(state[i]), state[i]); }
      GreatestIn(state[i], Greatest(state[i]));
    } else {
      EmptyHasNone(x);
    }
  }

  lemma {:induction false} GreatestIn(keys: multiset<int>, m: int)
    requires IsGreatest(m, keys)
    ensures keys[m] > 0
  {
  }

  lemma {:induction false} EmptyHasNone(x: int)
    ensures !IsGreatest(x, multiset{})
  {
  }

  /** In any run of requests to any number of queues no key is lost or made up: those pushed are those still in some
      queue and those popped, which were the greatest of their queue. */
  lemma {:induction false} NoKeyLost(n: nat, requests: seq<Request>, x: int)
    requires forall k :: 0 <= k < |requests| ==> Proper(requests[k], n)
    ensures TimesPushed(requests, x) == InAll(ServeAll(n, requests).0, x) + TimesPopped(n, requests, x)
  {
    hide Serve, IsGreatest, InAll;
    if requests == [] {
      NothingServed(n);
      NothingIn(n, x);
    } else {
      var before, request := requests[..|requests| - 1], requests[|requests| - 1];
      NoKeyLost(n, before, x);
      InAllNext(ServeAll(n, before).0, request, x);
    }
  }

  lemma {:induction false} NothingIn(n: nat, x: int)
    ensures InAll(seq(n, _ => multiset{}), x) == 0
  {
    if n > 0 {
      NothingIn(n - 1, x);
      var none: multiset<int> := multiset{};
      assert seq(n, _ => none)[..n - 1] == seq(n - 1, _ => none);
    }
  }

  // ----- sorting by pushing and popping

  /** Pushes all keys, then looks at the top and pops it `k` times. */
  function Draining(keys: seq<int>, k: nat): (requests: seq<Request>)
    ensures |requests| == |keys| + 2 * k && forall i :: 0 <= i < |requests| ==> Proper(requests[i], 1)
  {
    if k == 0 then seq(|keys|, i requires 0 <= i < |keys| => Push(0, keys[i]))
    else Draining(keys, k - 1) + [Top(0)] + [Pop(0)]
  }

  lemma {:induction false} AllPushed(keys: seq<int>)
    ensures ServeAll(1, Draining(keys, 0)).0 == [multiset(keys)] && |ServeAll(1, Draining(keys, 0)).1| == |keys|
  {
    if keys == [] {
      NothingServed(1);
      assert Draining(keys, 0) == [];
    } else {
      var last := |keys| - 1;
      AllPushed(keys[..last]);
      assert Draining(keys, 0) == Draining(keys[..last], 0) + [Push(0, keys[last])];
      ServeAllNext(1, Draining(keys[..last], 0), Push(0, keys[last]));
      assert keys == keys[..last] + [keys[last]];
    }
  }

  ghost predicate Descending(s: seq<int>) {
    forall i, j :: 0 <= i < j < |s| ==> s[i] >= s[j]
  }

  /** `tops` are greatest keys in descending order, and `rest` are the others. */
  ghost predicate Split(keys: seq<int>, tops: seq<int>, rest: multiset<int>) {
    && Descending(tops) && multiset(tops) + rest == multiset(keys) && |tops| <= |keys| && |rest| == |keys| - |tops|
    && forall i, x :: 0 <= i < |tops| && x in rest ==> tops[i] >= x
  }

  /** The replies show `tops`, one a round. */
  ghost predicate Shows(replies: seq<Reply>, n: nat, tops: seq<int>) {
    && |replies| == n + 2 * |tops|
    && forall i :: 0 <= i < |tops| ==> replies[n + 2 * i] == Topped(Key(tops[i])) && replies[n + 2 * i + 1] == Popped(true)
  }

  lemma {:induction false} SplitNext(keys: seq<int>, tops: seq<int>, rest: multiset<int>, m: int)
    requires Split(keys, tops, rest) && IsGreatest(m, rest)
    ensures Split(keys, tops + [m], rest - multiset{m})
  {
    var less := rest - multiset{m};
    assert less + multiset{m} == rest;
    assert multiset(tops + [m]) == multiset(tops) + multiset{m};
    assert multiset(tops) + multiset{m} + less == multiset(tops) + (less + multiset{m});
    assert |multiset(keys)| == |keys|;
  }

  lemma {:induction false} ShowsNext(replies: seq<Reply>, n: nat, tops: seq<int>, m: int)
    requires Shows(replies, n, tops)
    ensures Shows(replies + [Topped(Key(m))] + [Popped(true)], n, tops + [m])
  {
  }

  /** After `k` rounds the keys seen on top are the `k` greatest, in descending order. */
  lemma {:induction false} Drained(keys: seq<int>, k: nat) returns (tops: seq<int>, rest: multiset<int>)
    requires k <= |keys|
    ensures |tops| == k && Split(keys, tops, rest)
    ensures ServeAll(1, Draining(keys, k)).0 == [rest] && Shows(ServeAll(1, Draining(keys, k)).1, |keys|, tops)
  {
    hide ServeAll, Split, Shows;
    if k == 0 {
      AllPushed(keys);
      tops, rest := [], multiset(keys);
      NothingDrained(keys, ServeAll(1, Draining(keys, 0)).1);
    } else {
      var before, more := Drained(keys, k - 1);
      SplitLeft(keys, before, more);
      var m := Greatest(more);
      DrainRound(keys, k - 1, more);
      SplitNext(keys, before, more, m);
      ShowsNext(ServeAll(1, Draining(keys, k - 1)).1, |keys|, before, m);
      tops, rest := before + [m], more - multiset{m};
    }
  }

  lemma {:induction false} NothingDrained(keys: seq<int>, replies: seq<Reply>)
    requires |replies| == |keys|
    ensures Split(keys, [], multiset(keys)) && Shows(replies, |keys|, [])
  {
    assert multiset([]) + multiset(keys) == multiset(keys);
  }

  lemma {:induction false} SplitLeft(keys: seq<int>, tops: seq<int>, rest: multiset<int>)
    requires Split(keys, tops, rest) && |tops| < |keys|
    ensures rest != multiset{}
  {
  }

  /** One round of a look at the top and a pop. */
  lemma {:induction false} DrainRound(keys: seq<int>, k: nat, more: multiset<int>)
    requires more != multiset{} && ServeAll(1, Draining(keys, k)).0 == [more]
    ensures ServeAll(1, Draining(keys, k + 1)) ==
            ([more - multiset{Greatest(more)}], ServeAll(1, Draining(keys, k)).1 + [Topped(Key(Greatest(more)))] + [Popped(true)])
  {
    hide ServeAll, Greatest, IsGreatest;
    var requests := Draining(keys, k);
    ServeAllNext(1, requests, Top(0));
    ServeAllNext(1, requests + [Top(0)], Pop(0));
    assert [more][0 := more] == [more] && [more][0 := more - multiset{Greatest(more)}] == [more - multiset{Greatest(more)}];
  }

  /** Pushing any keys and popping them all shows them in descending order. */
  lemma {:induction false} SortsByPopping(keys: seq<int>)
    ensures exists tops :: Descending(tops) && multiset(tops) == multiset(keys) && Shows(ServeAll(1, Draining(keys, |keys|)).1, |keys|, tops)
  {
    hide ServeAll, Shows;
    var tops, rest := Drained(keys, |keys|);
    assert rest == multiset{};
    assert multiset(tops) == multiset(tops) + multiset{} == multiset(keys);
  }
}
