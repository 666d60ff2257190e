/** The nodes of a tree in order: sortedness, search, neighbours, and what exchanging or removing a node
    does to the listing. */
module RbOrder {
  import opened Seqs
  import opened RbTree
  import opened RbHeap
  import opened RbSwap

  ghost predicate Sorted(s: seq<Node>) {
    forall i, j :: 0 <= i < j < |s| ==> s[i].key < s[j].key
  }

  /** `s` without its element `i`. */
  ghost function Dropped(s: seq<Node>, i: nat): seq<Node>
    requires i < |s|
  {
    s[..i] + s[i + 1..]
  }

  // ----- listings and node sets

  lemma {:induction false} InorderNodes(t: Tree, n: Node)
    ensures n in Inorder(t) <==> n in Nodes(t)
  {
    if t.T? {
      InorderNodes(t.l, n);
      InorderNodes(t.r, n);
    }
  }

  lemma {:induction false} Root(h: Heap, head: Node, t: Tree)
    requires Shown(h, head, Top, t)
    ensures head in h && h[head].left == Ptr(t) && h[head].right == null
  {
  }

  lemma {:induction false} OwnerShown(h: Heap, head: Node, ctx: Ctx, t: Tree)
    requires Shown(h, head, ctx, t)
    ensures Owner(head, ctx) in h
  {
    OwnerIn(head, ctx);
  }

  /** The sentinel is not a node of the tree. */
  lemma {:induction false} HeadOut(h: Heap, head: Node, t: Tree)
    requires Shown(h, head, Top, t)
    ensures head !in Inorder(t) && forall n :: n in Inorder(t) ==> n in h
  {
    InorderNodes(t, head);
    forall n | n in Inorder(t)
      ensures n in h
    {
      InorderNodes(t, n);
    }
  }

  lemma {:induction false} InorderDistinct(t: Tree)
    requires Sep(t)
    ensures Distinct(Inorder(t))
  {
    if t.T? {
      InorderDistinct(t.l);
      InorderDistinct(t.r);
      InorderNodes(t.l, t.n);
      InorderNodes(t.r, t.n);
      forall y | y in Inorder(t.l)
        ensures y !in Inorder(t.r)
      {
        InorderNodes(t.l, y);
        InorderNodes(t.r, y);
      }
      DistinctJoin(Inorder(t.l), t.n, Inorder(t.r));
    }
  }

  lemma {:induction false} DistinctJoin(a: seq<Node>, x: Node, b: seq<Node>)
    requires Distinct(a) && Distinct(b) && x !in a && x !in b && forall y :: y in a ==> y !in b
    ensures Distinct(a + [x] + b)
  {
    var s := a + [x] + b;
    forall i, j | 0 <= i < j < |s|
      ensures s[i] != s[j]
    {
      assert i < |a| ==> s[i] == a[i] && a[i] in a;
      assert i > |a| ==> s[i] == b[i - |a| - 1] && b[i - |a| - 1] in b;
      assert j < |a| ==> s[j] == a[j] && a[j] in a;
      assert j > |a| ==> s[j] == b[j - |a| - 1] && b[j - |a| - 1] in b;
    }
  }

  /** The place of a node of the tree. */
  lemma {:induction false} Locate(up: Ctx, t: Tree, n: Node) returns (ctx: Ctx, at: Tree)
    requires n in Nodes(t)
    ensures at.T? && at.n == n && Plug(ctx, at) == Plug(up, t)
    decreases t
  {
    if n == t.n {
      ctx, at := up, t;
    } else if n in Nodes(t.l) {
      ctx, at := Locate(InLeft(t.n, t.c, t.r, up), t.l, n);
    } else {
      ctx, at := Locate(InRight(t.l, t.n, t.c, up), t.r, n);
    }
  }

  /** The index of the root of a subtree in the listing of the whole tree. */
  ghost function Index(ctx: Ctx, t: Tree): nat
    requires t.T?
  {
    |Before(ctx)| + |Inorder(t.l)|
  }

  lemma {:induction false} IndexAt(ctx: Ctx, t: Tree)
    requires t.T?
    ensures var s := Inorder(Plug(ctx, t)); Index(ctx, t) < |s| && s[Index(ctx, t)] == t.n
    ensures var s := Inorder(Plug(ctx, t));
      Dropped(s, Index(ctx, t)) == Before(ctx) + Inorder(t.l) + (Inorder(t.r) + After(ctx))
  {
    hide Before, After, Plug;
    PlugInorder(ctx, t);
    Around(Before(ctx), Inorder(t.l), t.n, Inorder(t.r), After(ctx));
  }

  lemma {:induction false} Around(a: seq<Node>, b: seq<Node>, x: Node, c: seq<Node>, d: seq<Node>)
    ensures (a + (b + [x] + c) + d)[|a| + |b|] == x
    ensures Dropped(a + (b + [x] + c) + d, |a| + |b|) == a + b + (c + d)
  {
    var s := a + (b + [x] + c) + d;
    assert s[..|a| + |b|] == a + b;
    assert s[|a| + |b| + 1..] == c + d;
  }

  // ----- search

  /** All nodes before the hole have smaller keys than `key`, all nodes after it greater ones. */
  ghost predicate Bounds(ctx: Ctx, key: int) {
    (forall n :: n in Before(ctx) ==> n.key < key) && (forall n :: n in After(ctx) ==> key < n.key)
  }

  lemma {:induction false} BoundsTop(key: int)
    ensures Bounds(Top, key)
  {
  }

  lemma {:induction false} SearchLeft(ctx: Ctx, t: Tree, key: int)
    requires t.T? && Sorted(Inorder(Plug(ctx, t))) && Bounds(ctx, key) && key < t.n.key
    ensures Bounds(InLeft(t.n, t.c, t.r, ctx), key)
  {
    hide Inorder, Plug, Sorted;
    PlugInorder(ctx, t);
    assert Inorder(t) == Inorder(t.l) + [t.n] + Inorder(t.r) by { InorderOf(t); }
    SortedAround(Before(ctx), Inorder(t.l), t.n, Inorder(t.r), After(ctx));
  }

  lemma {:induction false} SearchRight(ctx: Ctx, t: Tree, key: int)
    requires t.T? && Sorted(Inorder(Plug(ctx, t))) && Bounds(ctx, key) && t.n.key < key
    ensures Bounds(InRight(t.l, t.n, t.c, ctx), key)
  {
    hide Inorder, Plug, Sorted;
    PlugInorder(ctx, t);
    assert Inorder(t) == Inorder(t.l) + [t.n] + Inorder(t.r) by { InorderOf(t); }
    SortedAround(Before(ctx), Inorder(t.l), t.n, Inorder(t.r), After(ctx));
  }

  lemma {:induction false} InorderOf(t: Tree)
    requires t.T?
    ensures Inorder(t) == Inorder(t.l) + [t.n] + Inorder(t.r)
  {
  }

  lemma {:induction false} SortedAround(a: seq<Node>, b: seq<Node>, x: Node, c: seq<Node>, d: seq<Node>)
    requires Sorted(a + (b + [x] + c) + d)
    ensures forall n :: n in b ==> n.key < x.key
    ensures forall n :: n in c ==> x.key < n.key
  {
    var s := a + (b + [x] + c) + d;
    assert s[|a| + |b|] == x;
    assert forall j :: 0 <= j < |b| ==> s[|a| + j] == b[j];
    assert forall j :: 0 <= j < |c| ==> s[|a| + |b| + 1 + j] == c[j];
  }

  /** A search that ends at an empty subtree has seen that the key is missing. */
  lemma {:induction false} SearchMisses(ctx: Ctx, key: int)
    requires Sorted(Inorder(Plug(ctx, Leaf))) && Bounds(ctx, key)
    ensures Inorder(Plug(ctx, Leaf)) == Before(ctx) + After(ctx)
    ensures forall n :: n in Inorder(Plug(ctx, Leaf)) ==> n.key != key
  {
    PlugInorder(ctx, Leaf);
  }

  /** It ends where the key belongs. */
  lemma {:induction false} SearchPlaces(ctx: Ctx, n: Node)
    requires Sorted(Inorder(Plug(ctx, Leaf))) && Bounds(ctx, n.key)
    ensures Sorted(Before(ctx) + [n] + After(ctx))
  {
    SearchMisses(ctx, n.key);
    SortedJoin(Before(ctx), n, After(ctx));
  }

  lemma {:induction false} SortedJoin(a: seq<Node>, n: Node, b: seq<Node>)
    requires Sorted(a + b) && (forall x :: x in a ==> x.key < n.key) && (forall x :: x in b ==> n.key < x.key)
    ensures Sorted(a + [n] + b)
  {
    var s, was := a + [n] + b, a + b;
    forall i, j | 0 <= i < j < |s|
      ensures s[i].key < s[j].key
    {
      assert i < |a| ==> s[i] == a[i] == was[i] && a[i] in a;
      assert i > |a| ==> s[i] == b[i - |a| - 1] == was[i - 1];
      assert j < |a| ==> s[j] == a[j] == was[j];
      assert j > |a| ==> s[j] == b[j - |a| - 1] == was[j - 1] && b[j - |a| - 1] in b;
    }
  }

  /** A key has one node. */
  lemma {:induction false} Unique(s: seq<Node>, n: Node)
    requires Sorted(s) && n in s
    ensures forall m :: m in s && m.key == n.key ==> m == n
  {
    var i :| 0 <= i < |s| && s[i] == n;
    forall m | m in s && m.key == n.key
      ensures m == n
    {
      var j :| 0 <= j < |s| && s[j] == m;
    }
  }

  lemma {:induction false} EmptyTree(t: Tree)
    requires |Inorder(t)| == 0
    ensures t == Leaf && Inorder(t) == []
  {
  }

  lemma {:induction false} EmptyListing()
    ensures |Inorder(Leaf)| == 0
  {
  }

  lemma {:induction false} SingleTree(n: Node)
    ensures Inorder(T(Leaf, n, Black, Leaf)) == [n] && Sorted([n])
    ensures RedBlack(T(Leaf, n, Black, Leaf))
  {
  }

  lemma {:induction false} InsertAt(a: seq<Node>, n: Node, b: seq<Node>, t: Tree)
    requires t == T(Leaf, n, Red, Leaf)
    ensures Inorder(t) == [n] && Height(t) == 0 && Even(t) && NoRedRed(t)
    ensures (a + b)[..|a|] + [n] + (a + b)[|a|..] == a + [n] + b && |a + [n] + b| == |a + b| + 1
  {
  }

  // ----- exchanging neighbours

  /** Removing `x` after it has changed places with its neighbour is removing it from where it was. */
  lemma {:induction false} SwapThenRemove(s: seq<Node>, i: nat, j: nat, x: Node, y: Node)
    requires Distinct(s) && i < |s| && j < |s| && (j == i + 1 || i == j + 1) && s[i] == x && s[j] == y
    ensures RenameAll(s, x, y)[j] == x && Dropped(RenameAll(s, x, y), j) == Dropped(s, i)
    ensures forall k :: 0 <= k < |s| && RenameAll(s, x, y)[k] == x ==> k == j
  {
  }

  /** A listing from which some element is taken out to leave `rest`. */
  ghost predicate Leaves(s: seq<Node>, i: nat, x: Node, rest: seq<Node>) {
    i < |s| && s[i] == x && Dropped(s, i) == rest
  }

  /** One exchange on the way down keeps what will remain. */
  lemma {:induction false} SwapKeepsRest(ctx: Ctx, t: Tree, at: Ctx, below: Tree, rest: seq<Node>)
    requires t.T? && below.T? && Plug(at, below) == Plug(ctx, t) && Sep(Plug(ctx, t))
    requires Index(at, below) == Index(ctx, t) + 1 || Index(ctx, t) == Index(at, below) + 1
    requires Leaves(Inorder(Plug(ctx, t)), Index(ctx, t), t.n, rest)
    ensures t.n != below.n
    ensures var cur := Rename(Plug(ctx, t), t.n, below.n);
      var at', below' := RenameCtx(at, t.n, below.n), Rename(below, t.n, below.n);
      && cur == Plug(at', below') && below'.n == t.n && Size(below') == Size(below)
      && Leaves(Inorder(cur), Index(at', below'), t.n, rest)
  {
    hide Inorder, Plug, Sep, Before;
    var s, x, y := Inorder(Plug(ctx, t)), t.n, below.n;
    var at', below' := RenameCtx(at, x, y), Rename(below, x, y);
    InorderDistinct(Plug(ctx, t));
    IndexAt(ctx, t);
    IndexAt(at, below);
    RenamePlug(at, below, x, y);
    RenameInorder(Plug(at, below), x, y);
    RenameSize(below, x, y);
    SwapThenRemove(s, Index(ctx, t), Index(at, below), x, y);
    IndexAt(at', below');
  }

  ghost function Size(t: Tree): nat {
    if t.Leaf? then 0 else Size(t.l) + 1 + Size(t.r)
  }

  lemma {:induction false} RenameSize(t: Tree, a: Node, b: Node)
    ensures Size(Rename(t, a, b)) == Size(t)
  {
    if t.T? {
      RenameSize(t.l, a, b);
      RenameSize(t.r, a, b);
    }
  }

  /** In a red-black tree an only child is a red leaf. */
  lemma {:induction false} OnlyChild(t: Tree)
    requires t.T? && Even(t) && NoRedRed(t)
    ensures t.l == Leaf && t.r.T? ==> t.r == T(Leaf, t.r.n, Red, Leaf)
    ensures t.r == Leaf && t.l.T? ==> t.l == T(Leaf, t.l.n, Red, Leaf)
  {
    Opened(t);
    if t.l.T? { Opened(t.l); }
    if t.r.T? { Opened(t.r); }
  }

  lemma {:induction false} NotAbove(h: Heap, head: Node, ctx: Ctx, t: Tree, n: Node)
    requires Shown(h, head, ctx, t) && n in Nodes(t)
    ensures n != Owner(head, ctx) && n in h
  {
    OwnerIn(head, ctx);
  }

  lemma {:induction false} PlugHas(ctx: Ctx, t: Tree)
    requires t.T?
    ensures t.n in Nodes(Plug(ctx, t))
  {
    IndexAt(ctx, t);
    InorderNodes(Plug(ctx, t), t.n);
  }

  /** The node just before the root of `t` is the last one of its left subtree. */
  lemma {:induction false} LastBefore(ctx: Ctx, t: Tree, at: Ctx, below: Tree)
    requires t.T? && below.T? && below.r == Leaf && |Before(at)| + |Inorder(below)| == Index(ctx, t)
    ensures Index(ctx, t) == Index(at, below) + 1
  {
  }

  lemma {:induction false} OnlyNeighbour(ctx: Ctx, t: Tree)
    requires t.T? && RedBlack(Plug(ctx, t))
    ensures t.l == Leaf && t.r.T? ==> Index(InRight(Leaf, t.n, t.c, ctx), t.r) == Index(ctx, t) + 1 && Size(t.r) < Size(t)
    ensures t.r == Leaf && t.l.T? ==> Index(InLeft(t.n, t.c, Leaf, ctx), t.l) + 1 == Index(ctx, t) && Size(t.l) < Size(t)
  {
    UnplugRedBlack(ctx, t);
    OnlyChild(t);
  }

  lemma {:induction false} IndexOfRoot(ctx: Ctx, t: Tree)
    requires t.T?
    ensures |Before(InLeft(t.n, t.c, t.r, ctx))| + |Inorder(t.l)| == Index(ctx, t)
  {
  }

  lemma {:induction false} GoRight(at: Ctx, below: Tree)
    requires below.T?
    ensures |Before(InRight(below.l, below.n, below.c, at))| + |Inorder(below.r)| == |Before(at)| + |Inorder(below)|
    ensures Size(below.r) <= Size(below)
  {
  }

  lemma {:induction false} LocateIndex(t: Tree, i: nat, h: Heap, head: Node) returns (ctx: Ctx, at: Tree)
    requires i < |Inorder(t)| && Shown(h, head, Top, t)
    ensures at.T? && at.n == Inorder(t)[i] && Plug(ctx, at) == t && Index(ctx, at) == i
    ensures Leaves(Inorder(Plug(ctx, at)), Index(ctx, at), Inorder(t)[i], Dropped(Inorder(t), i))
  {
    var n := Inorder(t)[i];
    InorderNodes(t, n);
    InorderDistinct(t);
    ctx, at := Locate(Top, t, n);
    IndexAt(ctx, at);
  }

  lemma {:induction false} SepOf(h: Heap, head: Node, t: Tree)
    requires Shown(h, head, Top, t)
    ensures Sep(t)
  {
  }

  lemma {:induction false} RenameKeepsRedBlack(t: Tree, a: Node, b: Node)
    requires RedBlack(t)
    ensures RedBlack(Rename(t, a, b))
  {
    RenameRedBlack(t, a, b);
  }

  lemma {:induction false} LeafRest(ctx: Ctx, t: Tree, rest: seq<Node>)
    requires t.T? && t.l == Leaf && t.r == Leaf && Leaves(Inorder(Plug(ctx, t)), Index(ctx, t), t.n, rest)
    ensures Before(ctx) + After(ctx) == rest
  {
    IndexAt(ctx, t);
  }

  /** Taking a leaf away leaves a red-black tree: around a red leaf as it is, around a black one after the repair. */
  lemma {:induction false} LeafGone(ctx: Ctx, n: Node, c: Color)
    requires RedBlack(Plug(ctx, T(Leaf, n, c, Leaf)))
    ensures c == Black ==> EvenCtx(ctx, 1) && CalmCtx(ctx, false)
    ensures var left := if c == Black then FixErase(ctx) else ctx;
      RedBlack(Plug(left, Leaf)) && Inorder(Plug(left, Leaf)) == Before(ctx) + After(ctx)
  {
    hide EvenCtx, CalmCtx, RedBlack, Inorder, Before, After, FixErase;
    var t := T(Leaf, n, c, Leaf);
    UnplugRedBlack(ctx, t);
    CalmBlack(ctx, IsRed(t));
    LeafHeights(n, c);
    if c == Black {
      FixEraseGood(ctx, 1);
      FixEraseInorder(ctx);
      PlugRedBlack(FixErase(ctx), Leaf);
      PlugInorder(FixErase(ctx), Leaf);
    } else {
      PlugRedBlack(ctx, Leaf);
      PlugInorder(ctx, Leaf);
    }
  }

  lemma {:induction false} LeafHeights(n: Node, c: Color)
    ensures Height(T(Leaf, n, c, Leaf)) == Rank(c) && Height(Leaf) == 0 && Even(Leaf) && NoRedRed(Leaf)
    ensures Inorder(Leaf) == []
  {
  }

  lemma {:induction false} DroppedSorted(s: seq<Node>, i: nat)
    requires Sorted(s) && i < |s|
    ensures Sorted(Dropped(s, i)) && |Dropped(s, i)| == |s| - 1
  {
  }

  // ----- walking

  /** The number of nodes before the end of a subtree. */
  ghost function End(ctx: Ctx, t: Tree): nat {
    |Before(ctx)| + |Inorder(t)|
  }

  lemma {:induction false} StepDown(ctx: Ctx, t: Tree)
    requires t.T?
    ensures var at := InLeft(t.n, t.c, t.r, ctx);
      |Before(at)| == |Before(ctx)| && End(at, t.l) == Index(ctx, t) && Plug(at, t.l) == Plug(ctx, t)
    ensures var at := InRight(t.l, t.n, t.c, ctx);
      |Before(at)| == Index(ctx, t) + 1 && End(at, t.r) == End(ctx, t) && Plug(at, t.r) == Plug(ctx, t)
  {
  }

  lemma {:induction false} StepUp(ctx: Ctx, t: Tree)
    requires ctx != Top
    ensures ctx.InLeft? ==> |Before(ctx.up)| == |Before(ctx)| && Index(ctx.up, Grow(ctx, t)) == End(ctx, t)
    ensures ctx.InRight? ==> End(ctx.up, Grow(ctx, t)) == End(ctx, t) && Index(ctx.up, Grow(ctx, t)) + 1 == |Before(ctx)|
  {
  }

  lemma {:induction false} AtTop(t: Tree)
    ensures |Before(Top)| == 0 && End(Top, t) == |Inorder(t)| && |Inorder(Leaf)| == 0
  {
  }

  /** The positions of a walk are different nodes. */
  lemma {:induction false} FirstItem(h: Heap, head: Node, t: Tree, i: nat)
    requires Shown(h, head, Top, t) && i <= |Inorder(t)|
    ensures var s := Inorder(t);
      (if i < |s| then s[i] else head) == (if 0 < |s| then s[0] else head) <==> i == 0
    ensures i < |Inorder(t)| <==> (if i < |Inorder(t)| then Inorder(t)[i] else head) != head
  {
    InorderDistinct(t);
    HeadOut(h, head, t);
  }
}
