/** Two nodes of a tree exchange their places: every link to one becomes a link to the other, and the
    colours stay where they were. */
module RbSwap {
  import opened RbTree
  import opened RbHeap

  /** The node at the place of `n` after `a` and `b` have exchanged theirs. */
  function Other(n: Node, a: Node, b: Node): Node {
    if n == a then b else if n == b then a else n
  }

  function OtherLink(p: Node?, a: Node, b: Node): Node? {
    if p == a then b else if p == b then a else p
  }

  function Rename(t: Tree, a: Node, b: Node): Tree {
    if t.Leaf? then Leaf else T(Rename(t.l, a, b), Other(t.n, a, b), t.c, Rename(t.r, a, b))
  }

  function RenameCtx(ctx: Ctx, a: Node, b: Node): Ctx {
    match ctx
    case Top => Top
    case InLeft(n, c, r, up) => InLeft(Other(n, a, b), c, Rename(r, a, b), RenameCtx(up, a, b))
    case InRight(l, n, c, up) => InRight(Rename(l, a, b), Other(n, a, b), c, RenameCtx(up, a, b))
  }

  /** What the exchange does to the cell of `n`, which comes to lie at the place `m`. The sentinel has
      no parent link to speak of. */
  ghost predicate Moved(h: Heap, h': Heap, head: Node, a: Node, b: Node, n: Node)
    requires n in h
  {
    var m := Other(n, a, b);
    && m in h' && h'[m].color == h[n].color
    && h'[m].left == OtherLink(h[n].left, a, b) && h'[m].right == OtherLink(h[n].right, a, b)
    && (n != head ==> h'[m].parent == OtherLink(h[n].parent, a, b))
  }

  /** The heap after the exchange. */
  ghost predicate Exchanged(h: Heap, h': Heap, head: Node, a: Node, b: Node) {
    h'.Keys == h.Keys && forall n {:trigger Moved(h, h', head, a, b, n)} :: n in h ==> Moved(h, h', head, a, b, n)
  }

  /** Links go both ways: a child knows its parent, and a node is one child of its parent. */
  ghost predicate LinkedAt(h: Heap, head: Node, n: Node)
    requires n in h
  {
    && (h[n].left != null ==> h[n].left in h && h[n].left != head && h[h[n].left].parent == n && h[n].left != h[n].right)
    && (h[n].right != null ==> h[n].right in h && h[n].right != head && h[h[n].right].parent == n)
    && (n != head ==> h[n].parent != null && h[n].parent in h && h[n].parent != n)
    && (n != head ==> h[h[n].parent].left == n || h[h[n].parent].right == n)
  }

  ghost predicate Linked(h: Heap, head: Node) {
    forall n {:trigger LinkedAt(h, head, n)} :: n in h ==> LinkedAt(h, head, n)
  }

  /** Two nodes that can be exchanged: `b` is not the parent of `a`. */
  ghost predicate Pair(h: Heap, head: Node, a: Node, b: Node) {
    a in h && b in h && a != head && b != head && a != b && LinkedAt(h, head, a) && LinkedAt(h, head, b) && h[a].parent != b
  }

  lemma {:induction false} LinkedBelow(h: Heap, p: Node, t: Tree, n: Node)
    requires Rep(h, p, t) && Sep(t) && n in Nodes(t)
    ensures n in h
    ensures h[n].left != null ==> h[n].left in Nodes(t) && h[n].left in h && h[h[n].left].parent == n && h[n].left != h[n].right
    ensures h[n].right != null ==> h[n].right in Nodes(t) && h[n].right in h && h[h[n].right].parent == n
    ensures n == t.n ==> h[n].parent == p
    ensures n != t.n ==> h[n].parent != null && h[n].parent in Nodes(t) && h[n].parent in h && h[n].parent != n
    ensures n != t.n ==> h[h[n].parent].left == n || h[h[n].parent].right == n
  {
    RootIn(t.l);
    RootIn(t.r);
    if n in Nodes(t.l) {
      LinkedBelow(h, t.n, t.l, n);
    } else if n in Nodes(t.r) {
      LinkedBelow(h, t.n, t.r, n);
    }
  }

  /** A shown tree is linked both ways. */
  lemma {:induction false} ShownLinked(h: Heap, head: Node, t: Tree)
    requires Shown(h, head, Top, t)
    ensures Linked(h, head)
  {
    hide Rep, Sep;
    RootIn(t);
    if t.T? { LinkedBelow(h, head, t, t.n); }
    forall n | n in h
      ensures LinkedAt(h, head, n)
    {
      if n != head { LinkedBelow(h, head, t, n); }
    }
  }

  // ----- the exchange on trees

  lemma {:induction false} RenameNodes(t: Tree, a: Node, b: Node, n: Node)
    ensures n in Nodes(Rename(t, a, b)) <==> Other(n, a, b) in Nodes(t)
  {
    if t.T? {
      RenameNodes(t.l, a, b, n);
      RenameNodes(t.r, a, b, n);
    }
  }

  lemma {:induction false} RenameSep(t: Tree, a: Node, b: Node)
    requires Sep(t)
    ensures Sep(Rename(t, a, b))
  {
    if t.T? {
      forall n | n in Nodes(Rename(t.l, a, b))
        ensures n !in Nodes(Rename(t.r, a, b))
      {
        RenameNodes(t.l, a, b, n);
        RenameNodes(t.r, a, b, n);
      }
      assert Nodes(Rename(t.l, a, b)) !! Nodes(Rename(t.r, a, b));
      RenameSep(t.l, a, b);
      RenameSep(t.r, a, b);
      RenameNodes(t.l, a, b, Other(t.n, a, b));
      RenameNodes(t.r, a, b, Other(t.n, a, b));
    }
  }

  lemma {:induction false} RenameRep(h: Heap, h': Heap, head: Node, p: Node, t: Tree, a: Node, b: Node)
    requires Rep(h, p, t) && head !in Nodes(t) && Exchanged(h, h', head, a, b)
    ensures Rep(h', Other(p, a, b), Rename(t, a, b))
  {
    if t.T? {
      assert Moved(h, h', head, a, b, t.n);
      RenameRep(h, h', head, t.n, t.l, a, b);
      RenameRep(h, h', head, t.n, t.r, a, b);
    }
  }

  /** After the exchange the heap shows the tree with the two nodes exchanged. */
  lemma {:induction false} RenameShown(h: Heap, h': Heap, head: Node, t: Tree, a: Node, b: Node)
    requires Shown(h, head, Top, t) && Exchanged(h, h', head, a, b) && a in Nodes(t) && b in Nodes(t)
    ensures Shown(h', head, Top, Rename(t, a, b))
  {
    hide Rep, Sep, Nodes;
    assert Moved(h, h', head, a, b, head);
    RenameRep(h, h', head, head, t, a, b);
    RenameSep(t, a, b);
    forall n | n in Nodes(t)
      ensures n in Nodes(Rename(t, a, b))
    {
      RenameNodes(t, a, b, n);
    }
    forall n | n in Nodes(Rename(t, a, b))
      ensures n in Nodes(t)
    {
      RenameNodes(t, a, b, n);
    }
    assert Nodes(Rename(t, a, b)) == Nodes(t);
  }

  lemma {:induction false} RenamePlug(ctx: Ctx, t: Tree, a: Node, b: Node)
    ensures Rename(Plug(ctx, t), a, b) == Plug(RenameCtx(ctx, a, b), Rename(t, a, b))
  {
    if ctx != Top { RenamePlug(ctx.up, Grow(ctx, t), a, b); }
  }

  /** Shape and colours do not change. */
  lemma {:induction false} RenameRedBlack(t: Tree, a: Node, b: Node)
    ensures Even(t) ==> Even(Rename(t, a, b)) && Height(Rename(t, a, b)) == Height(t)
    ensures NoRedRed(t) ==> NoRedRed(Rename(t, a, b))
    ensures IsRed(Rename(t, a, b)) == IsRed(t)
  {
    if t.T? {
      RenameRedBlack(t.l, a, b);
      RenameRedBlack(t.r, a, b);
    }
  }

  function RenameAll(s: seq<Node>, a: Node, b: Node): seq<Node> {
    seq(|s|, i requires 0 <= i < |s| => Other(s[i], a, b))
  }

  lemma {:induction false} RenameInorder(t: Tree, a: Node, b: Node)
    ensures Inorder(Rename(t, a, b)) == RenameAll(Inorder(t), a, b)
  {
    if t.T? {
      RenameInorder(t.l, a, b);
      RenameInorder(t.r, a, b);
    }
  }

  // ----- the exchange, assignment by assignment

  function Link(c: Cell, left: bool): Node? { if left then c.left else c.right }

  function WithLink(c: Cell, left: bool, x: Node?): Cell { if left then c.(left := x) else c.(right := x) }

  /** Gives a child another parent. */
  ghost function Foster(h: Heap, x: Node?, p: Node): Heap
    requires x != null ==> x in h
  {
    if x == null then h else h[x := h[x].(parent := p)]
  }

  lemma {:induction false} FosterLinks(h: Heap, x: Node?, p: Node, n: Node)
    requires n in h && (x != null ==> x in h)
    ensures Foster(h, x, p).Keys == h.Keys
    ensures Foster(h, x, p)[n].left == h[n].left && Foster(h, x, p)[n].right == h[n].right
  {
  }

  lemma {:induction false} FosterCell(h: Heap, x: Node?, p: Node, n: Node)
    requires n in h && (x != null ==> x in h) && n != x
    ensures Foster(h, x, p).Keys == h.Keys && Foster(h, x, p)[n] == h[n]
  {
  }

  /** The link of `p` to `a` goes to `b`. */
  ghost function Redirect(h: Heap, p: Node, a: Node, b: Node): Heap
    requires p in h
  {
    h[p := WithLink(h[p], h[p].left == a, b)]
  }

  ghost function SwapColors(h: Heap, a: Node, b: Node): Heap
    requires a in h && b in h
  {
    h[a := h[a].(color := h[b].color)][b := h[b].(color := h[a].color)]
  }

  ghost function SwapParents(h: Heap, a: Node, b: Node): (r: Heap)
    requires a in h && b in h
    ensures r.Keys == h.Keys
  {
    h[a := h[a].(parent := h[b].parent)][b := h[b].(parent := h[a].parent)]
  }

  ghost function SwapLinks(h: Heap, a: Node, b: Node, left: bool): Heap
    requires a in h && b in h
  {
    h[a := WithLink(h[a], left, Link(h[b], left))][b := WithLink(h[b], left, Link(h[a], left))]
  }

  /** The colours exchanged and the link to `a` redirected. */
  ghost function Stage1(h: Heap, head: Node, a: Node, b: Node): Heap
    requires Pair(h, head, a, b)
  {
    Redirect(SwapColors(h, a, b), h[a].parent, a, b)
  }

  function Cell1(h: Heap, a: Node, b: Node, n: Node): Cell
    requires a in h && b in h && n in h
  {
    Cell(if n == a then h[b].color else if n == b then h[a].color else h[n].color, h[n].parent,
         if h[n].left == a then b else h[n].left, if h[n].right == a then b else h[n].right)
  }

  lemma {:induction false} Stage1Cells(h: Heap, head: Node, a: Node, b: Node, n: Node)
    requires Pair(h, head, a, b) && n in h && LinkedAt(h, head, n)
    ensures Stage1(h, head, a, b).Keys == h.Keys
    ensures Stage1(h, head, a, b)[n] == Cell1(h, a, b, n)
  {
  }

  /** The children of `b`, and the child of `a` on the other side of `b`, have new parents. */
  ghost function Stage2(h: Heap, h1: Heap, a: Node, b: Node, left: bool): Heap
    requires h1.Keys == h.Keys && a in h && b in h
    requires (h[b].left != null ==> h[b].left in h) && (h[b].right != null ==> h[b].right in h)
    requires Link(h[a], !left) != null ==> Link(h[a], !left) in h
  {
    Foster(Foster(Foster(h1, h[b].left, a), h[b].right, a), Link(h[a], !left), b)
  }

  function Parent2(h: Heap, a: Node, b: Node, left: bool, n: Node): Node?
    requires a in h && b in h && n in h
  {
    if n == h[b].left || n == h[b].right then a else if n == Link(h[a], !left) then b else h[n].parent
  }

  lemma {:induction false} Stage2Cells(h: Heap, head: Node, h1: Heap, a: Node, b: Node, left: bool, n: Node)
    requires Pair(h, head, a, b) && n in h && LinkedAt(h, head, n)
    requires h1.Keys == h.Keys && h1[n].parent == h[n].parent
    ensures Stage2(h, h1, a, b, left).Keys == h.Keys
    ensures Stage2(h, h1, a, b, left)[n] == h1[n].(parent := Parent2(h, a, b, left, n))
  {
  }

  /** The first half: also the links away from `b` are exchanged. */
  ghost function Front(h: Heap, head: Node, a: Node, b: Node, left: bool): Heap
    requires Pair(h, head, a, b)
  {
    Stage1Cells(h, head, a, b, a);
    SwapLinks(Stage2(h, Stage1(h, head, a, b), a, b, left), a, b, !left)
  }

  /** The cell of `n` after the first half. */
  ghost function FrontCell(h: Heap, a: Node, b: Node, left: bool, n: Node): Cell
    requires a in h && b in h && n in h
  {
    var c := Cell1(h, a, b, n).(parent := Parent2(h, a, b, left, n));
    if n == a then WithLink(c, !left, Link(h[b], !left))
    else if n == b then WithLink(c, !left, Link(h[a], !left))
    else c
  }

  lemma {:induction false} FrontCells(h: Heap, head: Node, a: Node, b: Node, left: bool, n: Node)
    requires Pair(h, head, a, b) && n in h && LinkedAt(h, head, n)
    requires Link(h[h[b].parent], left) == b
    ensures Front(h, head, a, b, left).Keys == h.Keys
    ensures Front(h, head, a, b, left)[n] == FrontCell(h, a, b, left, n)
  {
    hide Stage1, Stage2;
    var h1 := Stage1(h, head, a, b);
    Stage1Cells(h, head, a, b, n);
    Stage1Cells(h, head, a, b, a);
    Stage1Cells(h, head, a, b, b);
    Stage2Cells(h, head, h1, a, b, left, n);
    Stage2Cells(h, head, h1, a, b, left, a);
    Stage2Cells(h, head, h1, a, b, left, b);
  }

  /** The second half when `b` is a child of `a`. */
  ghost function Near(h: Heap, a: Node, b: Node, left: bool): Heap
    requires a in h && b in h
  {
    var h1 := h[a := WithLink(h[a], left, Link(h[b], left))];
    var h2 := h1[b := WithLink(h1[b], left, a).(parent := h1[a].parent)];
    h2[a := h2[a].(parent := b)]
  }

  /** The second half when `b` is further away: the child of `a` and the parent of `b` first. */
  ghost function FarLinks(h: Heap, a: Node, b: Node, left: bool): Heap
    requires a in h && b in h && h[b].parent != null && h[b].parent in h
    requires Link(h[a], left) != null ==> Link(h[a], left) in h
  {
    var h1 := Foster(h, Link(h[a], left), b);
    var p := h[b].parent;
    h1[p := WithLink(h1[p], left, a)]
  }

  lemma {:induction false} FarLinksCells(h: Heap, a: Node, b: Node, left: bool, n: Node)
    requires a in h && b in h && h[b].parent != null && h[b].parent in h && n in h
    requires Link(h[a], left) != null ==> Link(h[a], left) in h
    ensures FarLinks(h, a, b, left).Keys == h.Keys
    ensures FarLinks(h, a, b, left)[n] ==
      var c := if n == h[b].parent then WithLink(h[n], left, a) else h[n];
      if n == Link(h[a], left) then c.(parent := b) else c
  {
  }

  ghost function Far(h: Heap, a: Node, b: Node, left: bool): Heap
    requires a in h && b in h && h[b].parent != null && h[b].parent in h
    requires Link(h[a], left) != null ==> Link(h[a], left) in h
  {
    FarLinksCells(h, a, b, left, a);
    SwapLinks(SwapParents(FarLinks(h, a, b, left), a, b), a, b, left)
  }

  lemma {:induction false} NearMoves(h: Heap, head: Node, a: Node, b: Node, left: bool, n: Node)
    requires Pair(h, head, a, b) && n in h && LinkedAt(h, head, n)
    requires h[b].parent == a && Link(h[a], left) == b
    requires Front(h, head, a, b, left).Keys == h.Keys
    ensures Near(Front(h, head, a, b, left), a, b, left).Keys == h.Keys
    ensures Moved(h, Near(Front(h, head, a, b, left), a, b, left), head, a, b, n)
  {
    hide Front;
    FrontCells(h, head, a, b, left, n);
    FrontCells(h, head, a, b, left, a);
    FrontCells(h, head, a, b, left, b);
  }

  lemma {:induction false} FarFits(h: Heap, head: Node, a: Node, b: Node, left: bool)
    requires Pair(h, head, a, b)
    requires h[b].parent != a && Link(h[h[b].parent], left) == b
    ensures var h' := Front(h, head, a, b, left);
      && h'.Keys == h.Keys && h'[b].parent == h[b].parent && h'[a].parent == h[a].parent
      && Link(h'[a], left) == Link(h[a], left) && (Link(h[a], left) != null ==> Link(h[a], left) in h)
  {
    hide Front;
    FrontCells(h, head, a, b, left, a);
    FrontCells(h, head, a, b, left, b);
  }

  lemma {:induction false} FarMovesEnds(h: Heap, head: Node, a: Node, b: Node, left: bool, n: Node)
    requires Pair(h, head, a, b) && n in h && LinkedAt(h, head, n)
    requires h[b].parent != a && Link(h[h[b].parent], left) == b
    requires n == a || n == b
    requires var h' := Front(h, head, a, b, left);
      && h'.Keys == h.Keys && h'[b].parent == h[b].parent && Link(h'[a], left) == Link(h[a], left)
      && (Link(h[a], left) != null ==> Link(h[a], left) in h)
    ensures Far(Front(h, head, a, b, left), a, b, left).Keys == h.Keys
    ensures Moved(h, Far(Front(h, head, a, b, left), a, b, left), head, a, b, n)
  {
    hide Front, FarLinks;
    var h1 := Front(h, head, a, b, left);
    FarLinksCells(h1, a, b, left, a);
    FarLinksCells(h1, a, b, left, b);
    FrontCells(h, head, a, b, left, a);
    FrontCells(h, head, a, b, left, b);
  }

  lemma {:induction false} FarMovesRest(h: Heap, head: Node, a: Node, b: Node, left: bool, n: Node)
    requires Pair(h, head, a, b) && n in h && LinkedAt(h, head, n)
    requires h[b].parent != a && Link(h[h[b].parent], left) == b
    requires n != a && n != b
    requires var h' := Front(h, head, a, b, left);
      && h'.Keys == h.Keys && h'[b].parent == h[b].parent && Link(h'[a], left) == Link(h[a], left)
      && (Link(h[a], left) != null ==> Link(h[a], left) in h)
    ensures Far(Front(h, head, a, b, left), a, b, left).Keys == h.Keys
    ensures Moved(h, Far(Front(h, head, a, b, left), a, b, left), head, a, b, n)
  {
    hide Front, FarLinks;
    var h1 := Front(h, head, a, b, left);
    FarLinksCells(h1, a, b, left, n);
    FrontCells(h, head, a, b, left, n);
  }

  lemma {:induction false} NearExchanges(h: Heap, head: Node, a: Node, b: Node, left: bool)
    requires Linked(h, head) && Pair(h, head, a, b) && h[b].parent == a && Link(h[a], left) == b
    ensures Front(h, head, a, b, left).Keys == h.Keys
    ensures Exchanged(h, Near(Front(h, head, a, b, left), a, b, left), head, a, b)
  {
    hide Front, Near, Moved;
    FrontCells(h, head, a, b, left, a);
    forall n | n in h
      ensures Near(Front(h, head, a, b, left), a, b, left).Keys == h.Keys
      ensures Moved(h, Near(Front(h, head, a, b, left), a, b, left), head, a, b, n)
    {
      assert LinkedAt(h, head, n);
      NearMoves(h, head, a, b, left, n);
    }
  }

  lemma {:induction false} FarExchanges(h: Heap, head: Node, a: Node, b: Node, left: bool)
    requires Linked(h, head) && Pair(h, head, a, b) && h[b].parent != a && Link(h[h[b].parent], left) == b
    ensures var h' := Front(h, head, a, b, left);
      && h'.Keys == h.Keys && h'[b].parent == h[b].parent && Link(h'[a], left) == Link(h[a], left)
      && (Link(h[a], left) != null ==> Link(h[a], left) in h)
    ensures Exchanged(h, Far(Front(h, head, a, b, left), a, b, left), head, a, b)
  {
    hide Front, Far, Moved;
    FarFits(h, head, a, b, left);
    forall n | n in h
      ensures Far(Front(h, head, a, b, left), a, b, left).Keys == h.Keys
      ensures Moved(h, Far(Front(h, head, a, b, left), a, b, left), head, a, b, n)
    {
      assert LinkedAt(h, head, n);
      if n == a || n == b { FarMovesEnds(h, head, a, b, left, n); } else { FarMovesRest(h, head, a, b, left, n); }
    }
  }
}
