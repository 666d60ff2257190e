/** Red-black trees in memory: when the links and colours of a set of nodes show a tree with a context
    around it, and the rotations and recolourings of the map on what is shown. */
module RbHeap {
  import opened RbTree

  /** The fields of a node that change. */
  datatype Cell = Cell(color: Color, parent: Node?, left: Node?, right: Node?)
  type Heap = map<Node, Cell>

  ghost function Snap(nodes: set<Node>): Heap
    reads nodes
  {
    map n | n in nodes :: Cell(n.color, n.parent, n.left, n.right)
  }

  // ----- what a heap shows

  function Ptr(t: Tree): Node? { if t.Leaf? then null else t.n }

  /** The node right above a hole: the sentinel is above the root. */
  function Owner(head: Node, ctx: Ctx): Node {
    if ctx.Top? then head else ctx.n
  }

  /** The subtree `t` hangs below the node `p`. */
  ghost predicate Rep(h: Heap, p: Node, t: Tree) {
    t.T? ==> t.n in h && h[t.n] == Cell(t.c, p, Ptr(t.l), Ptr(t.r)) && Rep(h, t.n, t.l) && Rep(h, t.n, t.r)
  }

  /** Around the link `hole` lies the context; the root is the left child of the sentinel. */
  ghost predicate RepCtx(h: Heap, head: Node, ctx: Ctx, hole: Node?) {
    match ctx
    case Top => head in h && h[head].left == hole && h[head].right == null
    case InLeft(n, c, r, up) =>
      n in h && h[n] == Cell(c, Owner(head, up), hole, Ptr(r)) && Rep(h, n, r) && RepCtx(h, head, up, n)
    case InRight(l, n, c, up) =>
      n in h && h[n] == Cell(c, Owner(head, up), Ptr(l), hole) && Rep(h, n, l) && RepCtx(h, head, up, n)
  }

  ghost function Nodes(t: Tree): set<Node> {
    if t.Leaf? then {} else Nodes(t.l) + {t.n} + Nodes(t.r)
  }

  ghost function CtxNodes(head: Node, ctx: Ctx): set<Node> {
    match ctx
    case Top => {head}
    case InLeft(n, c, r, up) => {n} + Nodes(r) + CtxNodes(head, up)
    case InRight(l, n, c, up) => {n} + Nodes(l) + CtxNodes(head, up)
  }

  /** No node occurs twice. */
  ghost predicate Sep(t: Tree) {
    t.T? ==> t.n !in Nodes(t.l) && t.n !in Nodes(t.r) && Nodes(t.l) !! Nodes(t.r) && Sep(t.l) && Sep(t.r)
  }

  ghost predicate SepCtx(head: Node, ctx: Ctx) {
    match ctx
    case Top => true
    case InLeft(n, c, r, up) =>
      n !in Nodes(r) && n !in CtxNodes(head, up) && Nodes(r) !! CtxNodes(head, up) && Sep(r) && SepCtx(head, up)
    case InRight(l, n, c, up) =>
      n !in Nodes(l) && n !in CtxNodes(head, up) && Nodes(l) !! CtxNodes(head, up) && Sep(l) && SepCtx(head, up)
  }

  /** The heap is exactly the tree `t` in the context `ctx` under the sentinel. */
  ghost predicate Shown(h: Heap, head: Node, ctx: Ctx, t: Tree) {
    && Rep(h, Owner(head, ctx), t) && RepCtx(h, head, ctx, Ptr(t))
    && Sep(t) && SepCtx(head, ctx) && Nodes(t) !! CtxNodes(head, ctx)
    && h.Keys == Nodes(t) + CtxNodes(head, ctx)
  }

  lemma {:induction false} ZipLeft(h: Heap, head: Node, t: Tree, n: Node, c: Color, r: Tree, up: Ctx)
    ensures Shown(h, head, InLeft(n, c, r, up), t) <==> Shown(h, head, up, T(t, n, c, r))
  {
    assert Nodes(t) + ({n} + Nodes(r) + CtxNodes(head, up)) == (Nodes(t) + {n} + Nodes(r)) + CtxNodes(head, up);
  }

  lemma {:induction false} ZipRight(h: Heap, head: Node, l: Tree, n: Node, c: Color, t: Tree, up: Ctx)
    ensures Shown(h, head, InRight(l, n, c, up), t) <==> Shown(h, head, up, T(l, n, c, t))
  {
    assert Nodes(t) + ({n} + Nodes(l) + CtxNodes(head, up)) == (Nodes(l) + {n} + Nodes(t)) + CtxNodes(head, up);
  }

  lemma {:induction false} ZipUp(h: Heap, head: Node, ctx: Ctx, t: Tree)
    requires ctx != Top
    ensures Shown(h, head, ctx, t) <==> Shown(h, head, ctx.up, Grow(ctx, t))
  {
    if ctx.InLeft? { ZipLeft(h, head, t, ctx.n, ctx.c, ctx.r, ctx.up); } else { ZipRight(h, head, ctx.l, ctx.n, ctx.c, t, ctx.up); }
  }

  /** Looking at a subtree changes nothing: the whole tree is shown either way. */
  lemma {:induction false} PlugShown(h: Heap, head: Node, ctx: Ctx, t: Tree)
    ensures Shown(h, head, ctx, t) <==> Shown(h, head, Top, Plug(ctx, t))
  {
    hide Shown;
    match ctx
    case Top =>
    case InLeft(n, c, r, up) =>
      ZipLeft(h, head, t, n, c, r, up);
      PlugShown(h, head, up, T(t, n, c, r));
    case InRight(l, n, c, up) =>
      ZipRight(h, head, l, n, c, t, up);
      PlugShown(h, head, up, T(l, n, c, t));
  }

  lemma {:induction false} PlugRoot(head: Node, ctx: Ctx, t: Tree)
    requires ctx != Top
    ensures Plug(ctx, t).T? && Plug(ctx, t).n in CtxNodes(head, ctx)
  {
    if ctx.up != Top { PlugRoot(head, ctx.up, Grow(ctx, t)); }
  }

  /** The root, and no other node, is the left child of the sentinel. */
  lemma {:induction false} TopLeft(h: Heap, head: Node, ctx: Ctx, t: Tree)
    requires Shown(h, head, ctx, t) && t.T?
    ensures head in h && (h[head].left == t.n <==> ctx == Top)
  {
    PlugShown(h, head, ctx, t);
    if ctx != Top { PlugRoot(head, ctx, t); }
  }

  // ----- frames

  /** The two heaps agree on a set of nodes. */
  ghost predicate Same(h: Heap, h': Heap, s: set<Node>) {
    forall n :: n in s ==> n in h && n in h' && h'[n] == h[n]
  }

  lemma {:induction false} Frame(h: Heap, h': Heap, p: Node, t: Tree)
    requires Rep(h, p, t) && Same(h, h', Nodes(t))
    ensures Rep(h', p, t)
  {
    if t.T? {
      Frame(h, h', t.n, t.l);
      Frame(h, h', t.n, t.r);
    }
  }

  /** A subtree under a new parent. */
  lemma {:induction false} Adopt(h: Heap, h': Heap, p: Node, p': Node, t: Tree)
    requires Rep(h, p, t) && Sep(t)
    requires t.T? ==> t.n in h' && t.n in h && h'[t.n] == h[t.n].(parent := p') && Same(h, h', Nodes(t) - {t.n})
    ensures Rep(h', p', t)
  {
    if t.T? {
      Frame(h, h', t.n, t.l);
      Frame(h, h', t.n, t.r);
    }
  }

  /** The cell of the node above a hole when another subtree is hung into it. */
  function Hang(ctx: Ctx, cell: Cell, hole: Node?): Cell {
    if ctx.InRight? then cell.(right := hole) else cell.(left := hole)
  }

  /** The context keeps its nodes, but the link into the hole. */
  ghost predicate Hung(h: Heap, h': Heap, head: Node, ctx: Ctx, hole: Node?) {
    && Owner(head, ctx) in h && Owner(head, ctx) in h'
    && h'[Owner(head, ctx)] == Hang(ctx, h[Owner(head, ctx)], hole)
    && Same(h, h', CtxNodes(head, ctx) - {Owner(head, ctx)})
  }

  lemma {:induction false} FrameCtx(h: Heap, h': Heap, head: Node, ctx: Ctx, hole: Node?)
    requires RepCtx(h, head, ctx, hole) && Same(h, h', CtxNodes(head, ctx))
    ensures RepCtx(h', head, ctx, hole)
  {
    match ctx
    case Top =>
    case InLeft(n, c, r, up) =>
      Frame(h, h', n, r);
      FrameCtx(h, h', head, up, n);
    case InRight(l, n, c, up) =>
      Frame(h, h', n, l);
      FrameCtx(h, h', head, up, n);
  }

  /** Another subtree in the hole. */
  lemma {:induction false} Rehang(h: Heap, h': Heap, head: Node, ctx: Ctx, t: Tree, t': Tree)
    requires Shown(h, head, ctx, t) && Hung(h, h', head, ctx, Ptr(t'))
    requires Rep(h', Owner(head, ctx), t') && Sep(t') && Nodes(t') !! CtxNodes(head, ctx)
    requires h'.Keys == Nodes(t') + CtxNodes(head, ctx)
    ensures Shown(h', head, ctx, t')
  {
    match ctx
    case Top =>
    case InLeft(n, c, r, up) =>
      Frame(h, h', n, r);
      FrameCtx(h, h', head, up, n);
    case InRight(l, n, c, up) =>
      Frame(h, h', n, l);
      FrameCtx(h, h', head, up, n);
  }

  // ----- rotations and colours

  /** The heap before and after a right rotation about `g`, whose left child is `p`. */
  ghost predicate TurnedRight(h: Heap, h': Heap, head: Node, up: Ctx, p: Node, b: Tree, g: Node)
    requires p in h && g in h && Owner(head, up) in h && (b.T? ==> b.n in h)
  {
    && h'.Keys == h.Keys
    && h'[g] == h[g].(parent := p, left := Ptr(b))
    && h'[p] == h[p].(parent := Owner(head, up), right := g)
    && (b.T? ==> h'[b.n] == h[b.n].(parent := g))
    && h'[Owner(head, up)] == Hang(up, h[Owner(head, up)], p)
    && (forall n :: n in h && n !in {p, g, Owner(head, up)} && (b.T? ==> n != b.n) ==> h'[n] == h[n])
  }

  /** The heap after `p` is hung below the owner of the context. */
  ghost function Placed(h: Heap, head: Node, up: Ctx, p: Node): Heap
    requires Owner(head, up) in h && p in h
  {
    h[Owner(head, up) := Hang(up, h[Owner(head, up)], p)][p := h[p].(parent := Owner(head, up))]
  }

  /** The heap after `p` becomes the parent of `g` and hands over its right child `b`. */
  ghost function CrossedRight(h: Heap, g: Node, p: Node, b: Node?): Heap
    requires g in h && p in h && (b != null ==> b in h)
  {
    var h1 := h[g := h[g].(parent := p, left := b)][p := h[p].(right := g)];
    if b == null then h1 else h1[b := h1[b].(parent := g)]
  }

  ghost function CrossedLeft(h: Heap, g: Node, p: Node, b: Node?): Heap
    requires g in h && p in h && (b != null ==> b in h)
  {
    var h1 := h[g := h[g].(parent := p, right := b)][p := h[p].(left := g)];
    if b == null then h1 else h1[b := h1[b].(parent := g)]
  }

  lemma {:induction false} OwnerIn(head: Node, up: Ctx)
    ensures Owner(head, up) in CtxNodes(head, up)
  {
  }

  lemma {:induction false} RootIn(t: Tree)
    ensures t.T? ==> t.n in Nodes(t) && Nodes(t.l) <= Nodes(t) && Nodes(t.r) <= Nodes(t)
  {
  }

  /** A rotation keeps the set of nodes, each once. */
  lemma {:induction false} SepTurn(a: Tree, p: Node, b: Tree, g: Node, d: Tree, c1: Color, c2: Color, c3: Color, c4: Color)
    ensures Nodes(T(T(a, p, c1, b), g, c2, d)) == Nodes(T(a, p, c3, T(b, g, c4, d)))
    ensures Nodes(T(T(a, p, c1, b), g, c2, d)) == Nodes(a) + {p} + Nodes(b) + {g} + Nodes(d)
    ensures Sep(T(T(a, p, c1, b), g, c2, d)) <==> Sep(T(a, p, c3, T(b, g, c4, d)))
    ensures Sep(T(T(a, p, c1, b), g, c2, d)) <==>
      && p != g && p !in Nodes(a) && p !in Nodes(b) && p !in Nodes(d) && g !in Nodes(a) && g !in Nodes(b) && g !in Nodes(d)
      && Nodes(a) !! Nodes(b) && Nodes(a) !! Nodes(d) && Nodes(b) !! Nodes(d) && Sep(a) && Sep(b) && Sep(d)
  {
    var l, r := T(a, p, c1, b), T(b, g, c4, d);
    assert Nodes(l) == Nodes(a) + {p} + Nodes(b);
    assert Nodes(r) == Nodes(b) + {g} + Nodes(d);
    assert Sep(l) <==> p !in Nodes(a) && p !in Nodes(b) && Nodes(a) !! Nodes(b) && Sep(a) && Sep(b);
    assert Sep(r) <==> g !in Nodes(b) && g !in Nodes(d) && Nodes(b) !! Nodes(d) && Sep(b) && Sep(d);
  }

  lemma {:induction false} TurnRight(h: Heap, head: Node, up: Ctx,
                                     a: Tree, p: Node, c1: Color, b: Tree, g: Node, c2: Color, d: Tree)
    requires Owner(head, up) in h && p in h && g in h && (b.T? ==> b.n in h)
    requires Shown(h, head, up, T(T(a, p, c1, b), g, c2, d))
    ensures Shown(CrossedRight(Placed(h, head, up, p), g, p, Ptr(b)), head, up, T(a, p, c1, T(b, g, c2, d)))
  {
    hide Shown, Sep, SepCtx, Nodes, CtxNodes, Rep, RepCtx;
    ghost var h' := CrossedRight(Placed(h, head, up, p), g, p, Ptr(b));
    Look(h, head, up, T(a, p, c1, b), g, c2, d);
    Apart(h, head, up, a, p, c1, b, g, c2, d);
    TurnRightBy(h, h', head, up, a, p, c1, b, g, c2, d);
  }

  lemma {:induction false} TurnRightBy(h: Heap, h': Heap, head: Node, up: Ctx,
                                       a: Tree, p: Node, c1: Color, b: Tree, g: Node, c2: Color, d: Tree)
    requires Owner(head, up) in h && p in h && g in h && (b.T? ==> b.n in h)
    requires TurnedRight(h, h', head, up, p, b, g)
    requires Shown(h, head, up, T(T(a, p, c1, b), g, c2, d))
    ensures Shown(h', head, up, T(a, p, c1, T(b, g, c2, d)))
  {
    hide Sep, Nodes;
    SepTurn(a, p, b, g, d, c1, c2, c1, c2);
    OwnerIn(head, up);
    RootIn(b);
    assert Rep(h, g, T(a, p, c1, b));
    Frame(h, h', p, a);
    Frame(h, h', g, d);
    Adopt(h, h', p, g, b);
    assert Rep(h', p, T(b, g, c2, d));
    Rehang(h, h', head, up, T(T(a, p, c1, b), g, c2, d), T(a, p, c1, T(b, g, c2, d)));
  }

  ghost predicate TurnedLeft(h: Heap, h': Heap, head: Node, up: Ctx, g: Node, b: Tree, p: Node)
    requires p in h && g in h && Owner(head, up) in h && (b.T? ==> b.n in h)
  {
    && h'.Keys == h.Keys
    && h'[g] == h[g].(parent := p, right := Ptr(b))
    && h'[p] == h[p].(parent := Owner(head, up), left := g)
    && (b.T? ==> h'[b.n] == h[b.n].(parent := g))
    && h'[Owner(head, up)] == Hang(up, h[Owner(head, up)], p)
    && (forall n :: n in h && n !in {p, g, Owner(head, up)} && (b.T? ==> n != b.n) ==> h'[n] == h[n])
  }

  lemma {:induction false} TurnLeft(h: Heap, head: Node, up: Ctx,
                                    a: Tree, g: Node, c2: Color, b: Tree, p: Node, c1: Color, d: Tree)
    requires Owner(head, up) in h && p in h && g in h && (b.T? ==> b.n in h)
    requires Shown(h, head, up, T(a, g, c2, T(b, p, c1, d)))
    ensures Shown(CrossedLeft(Placed(h, head, up, p), g, p, Ptr(b)), head, up, T(T(a, g, c2, b), p, c1, d))
  {
    hide Shown, Sep, SepCtx, Nodes, CtxNodes, Rep, RepCtx;
    ghost var h' := CrossedLeft(Placed(h, head, up, p), g, p, Ptr(b));
    Look(h, head, up, a, g, c2, T(b, p, c1, d));
    Apart(h, head, up, a, g, c2, b, p, c1, d);
    TurnLeftBy(h, h', head, up, a, g, c2, b, p, c1, d);
  }

  lemma {:induction false} TurnLeftBy(h: Heap, h': Heap, head: Node, up: Ctx,
                                      a: Tree, g: Node, c2: Color, b: Tree, p: Node, c1: Color, d: Tree)
    requires Owner(head, up) in h && p in h && g in h && (b.T? ==> b.n in h)
    requires TurnedLeft(h, h', head, up, g, b, p)
    requires Shown(h, head, up, T(a, g, c2, T(b, p, c1, d)))
    ensures Shown(h', head, up, T(T(a, g, c2, b), p, c1, d))
  {
    hide Sep, Nodes;
    SepTurn(a, g, b, p, d, c2, c1, c2, c1);
    OwnerIn(head, up);
    RootIn(b);
    assert Rep(h, g, T(b, p, c1, d));
    Frame(h, h', g, a);
    Frame(h, h', p, d);
    Adopt(h, h', p, g, b);
    assert Rep(h', p, T(a, g, c2, b));
    Rehang(h, h', head, up, T(a, g, c2, T(b, p, c1, d)), T(T(a, g, c2, b), p, c1, d));
  }

  /** Reading the cells around a node and its parent. */
  lemma {:induction false} Look(h: Heap, head: Node, ctx: Ctx, l: Tree, n: Node, c: Color, r: Tree)
    requires Shown(h, head, ctx, T(l, n, c, r))
    ensures n in h && h[n] == Cell(c, Owner(head, ctx), Ptr(l), Ptr(r)) && n != head
    ensures Owner(head, ctx) in h && Owner(head, ctx) != n
    ensures ctx.InRight? <==> h[Owner(head, ctx)].left != n
    ensures ctx.InRight? <==> h[Owner(head, ctx)].right == n
    ensures Owner(head, ctx) == head <==> ctx == Top
    ensures l.T? ==> l.n in h && l.n !in {n, Owner(head, ctx)} && h[l.n] == Cell(l.c, n, Ptr(l.l), Ptr(l.r))
    ensures r.T? ==> r.n in h && r.n !in {n, Owner(head, ctx)} && h[r.n] == Cell(r.c, n, Ptr(r.l), Ptr(r.r))
    ensures l.T? && r.T? ==> l.n != r.n
  {
    assert Rep(h, n, l) && Rep(h, n, r);
    OwnerIn(head, ctx);
    RootIn(l);
    RootIn(r);
    if ctx.InRight? { RootIn(ctx.l); HeadIn(head, ctx.up); }
    if ctx.InLeft? { RootIn(ctx.r); HeadIn(head, ctx.up); }
    HeadIn(head, ctx);
  }

  lemma {:induction false} Apart(h: Heap, head: Node, up: Ctx, a: Tree, p: Node, c1: Color, b: Tree, g: Node, c2: Color, d: Tree)
    requires Shown(h, head, up, T(T(a, p, c1, b), g, c2, d)) || Shown(h, head, up, T(a, p, c1, T(b, g, c2, d)))
    ensures b.T? ==> b.n !in {p, g, Owner(head, up)}
  {
    SepTurn(a, p, b, g, d, c1, c2, c1, c2);
    OwnerIn(head, up);
    RootIn(b);
  }

  lemma {:induction false} HeadIn(head: Node, ctx: Ctx)
    ensures head in CtxNodes(head, ctx)
  {
    if !ctx.Top? { HeadIn(head, ctx.up); }
  }

  lemma {:induction false} Recolour(h: Heap, head: Node, ctx: Ctx, l: Tree, n: Node, c: Color, r: Tree, c': Color)
    requires Shown(h, head, ctx, T(l, n, c, r)) && n in h
    ensures Shown(h[n := h[n].(color := c')], head, ctx, T(l, n, c', r))
  {
    var h' := h[n := h[n].(color := c')];
    OwnerIn(head, ctx);
    Frame(h, h', n, l);
    Frame(h, h', n, r);
    Rehang(h, h', head, ctx, T(l, n, c, r), T(l, n, c', r));
  }

  // ----- a node more, a node less

  /** Hanging a new node without children into an empty hole. */
  lemma {:induction false} Plant(h: Heap, head: Node, ctx: Ctx, n: Node, c: Color)
    requires Shown(h, head, ctx, Leaf) && n !in h && Owner(head, ctx) in h
    ensures Shown(h[Owner(head, ctx) := Hang(ctx, h[Owner(head, ctx)], n)][n := Cell(c, Owner(head, ctx), null, null)],
                  head, ctx, T(Leaf, n, c, Leaf))
  {
    OwnerIn(head, ctx);
    var h' := h[Owner(head, ctx) := Hang(ctx, h[Owner(head, ctx)], n)][n := Cell(c, Owner(head, ctx), null, null)];
    Rehang(h, h', head, ctx, Leaf, T(Leaf, n, c, Leaf));
  }

  /** Cutting off a node without children. */
  lemma {:induction false} Prune(h: Heap, h': Heap, head: Node, ctx: Ctx, n: Node, c: Color)
    requires Shown(h, head, ctx, T(Leaf, n, c, Leaf)) && h'.Keys == h.Keys - {n}
    requires Owner(head, ctx) in h && Owner(head, ctx) in h'
    requires h'[Owner(head, ctx)] == Hang(ctx, h[Owner(head, ctx)], null)
    requires forall x :: x in h && x != n && x != Owner(head, ctx) ==> h'[x] == h[x]
    ensures Shown(h', head, ctx, Leaf)
  {
    Rehang(h, h', head, ctx, T(Leaf, n, c, Leaf), Leaf);
  }
}
