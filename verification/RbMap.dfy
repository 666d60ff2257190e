/** The ordered map of the container library: a red-black tree with parent links under a sentinel. */
module RbMap {
  import opened RbTree
  import opened RbHeap
  import opened RbOrder
  import opened RbSwap

  class Map {
    /** The sentinel: its left child is the root, and it is the end of every walk. */
    const head: Node
    var numOfElements: nat
    ghost var nodes: set<Node>
    ghost var tree: Tree

    constructor ()
      ensures Valid() && Listing() == [] && nodes == {head} && fresh(head)
    {
      head := new Node(0, 0, Black, null);
      numOfElements := 0;
      nodes, tree := {head}, Leaf;
    }

    // ----- rotations

    /** `child` takes the place of `root` below the parent of `root`. */
    method TakePlace(root: Node, child: Node, ghost up: Ctx)
      requires root in nodes && child in nodes && root.parent == Owner(head, up) && Owner(head, up) in nodes
      requires child != Owner(head, up) && root != Owner(head, up)
      requires up.InRight? <==> Owner(head, up).left != root
      modifies nodes
      ensures Snap(nodes) == Placed(old(Snap(nodes)), head, up, child)
    {
      if root == root.parent.left { root.parent.left := child; } else { root.parent.right := child; }
      child.parent := root.parent;
    }

    /** `L1` becomes the parent of `root` and hands over its right subtree. */
    method CrossRight(root: Node, L1: Node)
      requires root in nodes && L1 in nodes && root != L1
      requires L1.right != null ==> L1.right in nodes && L1.right != root && L1.right != L1
      modifies nodes
      ensures Snap(nodes) == CrossedRight(old(Snap(nodes)), root, L1, old(L1.right))
    {
      root.parent := L1;
      root.left := L1.right;
      L1.right := root;
      if root.left != null { root.left.parent := root; }
    }

    /** Turns right about `root`, whose left child `L1` comes up. */
    method LLRotate(root: Node, L1: Node,
                    ghost up: Ctx, ghost a: Tree, ghost c1: Color, ghost b: Tree, ghost c2: Color, ghost d: Tree)
      requires Shown(Snap(nodes), head, up, T(T(a, L1, c1, b), root, c2, d))
      modifies nodes
      ensures Shown(Snap(nodes), head, up, T(a, L1, c1, T(b, root, c2, d)))
    {
      hide Shown, CtxNodes, Nodes, Sep, Rep, CrossedRight;
      ghost var h := Snap(nodes);
      ZipLeft(h, head, T(a, L1, c1, b), root, c2, d, up);
      Look(h, head, up, T(a, L1, c1, b), root, c2, d);
      Look(h, head, InLeft(root, c2, d, up), a, L1, c1, b);
      Apart(h, head, up, a, L1, c1, b, root, c2, d);
      assert h[Owner(head, up)].left == Owner(head, up).left;
      TakePlace(root, L1, up);
      assert Snap(nodes)[L1].right == h[L1].right;
      CrossRight(root, L1);
      TurnRight(h, head, up, a, L1, c1, b, root, c2, d);
    }

    /** `R1` becomes the parent of `root` and hands over its left subtree. */
    method CrossLeft(root: Node, R1: Node)
      requires root in nodes && R1 in nodes && root != R1
      requires R1.left != null ==> R1.left in nodes && R1.left != root && R1.left != R1
      modifies nodes
      ensures Snap(nodes) == CrossedLeft(old(Snap(nodes)), root, R1, old(R1.left))
    {
      root.parent := R1;
      root.right := R1.left;
      R1.left := root;
      if root.right != null { root.right.parent := root; }
    }

    /** Turns left about `root`, whose right child `R1` comes up. */
    method RRRotate(root: Node, R1: Node,
                    ghost up: Ctx, ghost a: Tree, ghost c2: Color, ghost b: Tree, ghost c1: Color, ghost d: Tree)
      requires Shown(Snap(nodes), head, up, T(a, root, c2, T(b, R1, c1, d)))
      modifies nodes
      ensures Shown(Snap(nodes), head, up, T(T(a, root, c2, b), R1, c1, d))
    {
      hide Shown, CtxNodes, Nodes, Sep, Rep, CrossedLeft;
      ghost var h := Snap(nodes);
      ZipRight(h, head, a, root, c2, T(b, R1, c1, d), up);
      Look(h, head, up, a, root, c2, T(b, R1, c1, d));
      Look(h, head, InRight(a, root, c2, up), b, R1, c1, d);
      Apart(h, head, up, a, root, c2, b, R1, c1, d);
      assert h[Owner(head, up)].left == Owner(head, up).left;
      TakePlace(root, R1, up);
      assert Snap(nodes)[R1].left == h[R1].left;
      CrossLeft(root, R1);
      TurnLeft(h, head, up, a, root, c2, b, R1, c1, d);
    }

    /** `R`, the right child of the left child `L`, comes up to the place of `root`. */
    method LRRotate(root: Node, L: Node, R: Node, ghost up: Ctx, ghost a: Tree, ghost c1: Color,
                    ghost b: Tree, ghost c2: Color, ghost d: Tree, ghost c3: Color, ghost e: Tree)
      requires Shown(Snap(nodes), head, up, T(T(a, L, c1, T(b, R, c2, d)), root, c3, e))
      modifies nodes
      ensures Shown(Snap(nodes), head, up, T(T(a, L, c1, b), R, c2, T(d, root, c3, e)))
    {
      hide Shown, CtxNodes, Nodes, Sep, Rep, CrossedLeft;
      ghost var h := Snap(nodes);
      ghost var at := InLeft(root, c3, e, up);
      ZipLeft(h, head, T(a, L, c1, T(b, R, c2, d)), root, c3, e, up);
      ZipRight(h, head, a, L, c1, T(b, R, c2, d), at);
      Look(h, head, at, a, L, c1, T(b, R, c2, d));
      Look(h, head, InRight(a, L, c1, at), b, R, c2, d);
      Apart(h, head, at, a, L, c1, b, R, c2, d);
      R.parent := root;
      root.left := R;
      assert Snap(nodes) == Placed(h, head, at, R);
      assert Snap(nodes)[R].left == h[R].left;
      CrossLeft(L, R);
      TurnLeft(h, head, at, a, L, c1, b, R, c2, d);
      ZipLeft(Snap(nodes), head, T(T(a, L, c1, b), R, c2, d), root, c3, e, up);
      LLRotate(root, R, up, T(a, L, c1, b), c2, d, c3, e);
    }

    /** `L`, the left child of the right child `R`, comes up to the place of `root`. */
    method RLRotate(root: Node, R: Node, L: Node, ghost up: Ctx, ghost a: Tree, ghost c3: Color,
                    ghost b: Tree, ghost c2: Color, ghost d: Tree, ghost c1: Color, ghost e: Tree)
      requires Shown(Snap(nodes), head, up, T(a, root, c3, T(T(b, L, c2, d), R, c1, e)))
      modifies nodes
      ensures Shown(Snap(nodes), head, up, T(T(a, root, c3, b), L, c2, T(d, R, c1, e)))
    {
      hide Shown, CtxNodes, Nodes, Sep, Rep, CrossedRight;
      ghost var h := Snap(nodes);
      ghost var at := InRight(a, root, c3, up);
      ZipRight(h, head, a, root, c3, T(T(b, L, c2, d), R, c1, e), up);
      ZipLeft(h, head, T(b, L, c2, d), R, c1, e, at);
      Look(h, head, at, T(b, L, c2, d), R, c1, e);
      Look(h, head, InLeft(R, c1, e, at), b, L, c2, d);
      Apart(h, head, at, b, L, c2, d, R, c1, e);
      L.parent := root;
      root.right := L;
      assert Snap(nodes) == Placed(h, head, at, L);
      assert Snap(nodes)[L].right == h[L].right;
      CrossRight(R, L);
      TurnRight(h, head, at, b, L, c2, d, R, c1, e);
      ZipRight(Snap(nodes), head, a, root, c3, T(b, L, c2, T(d, R, c1, e)), up);
      RRRotate(root, L, up, a, c3, b, c2, T(d, R, c1, e));
    }

    method Paint(n: Node, c: Color, ghost ctx: Ctx, ghost t: Tree)
      requires t.T? && t.n == n && Shown(Snap(nodes), head, ctx, t)
      modifies nodes
      ensures Shown(Snap(nodes), head, ctx, t.(c := c))
    {
      ghost var h := Snap(nodes);
      Look(h, head, ctx, t.l, n, t.c, t.r);
      n.color := c;
      assert Snap(nodes) == h[n := h[n].(color := c)];
      Recolour(h, head, ctx, t.l, n, t.c, t.r, c);
    }

    // ----- repair after an insertion

    /** The left child of a left child: one turn to the right. */
    method TurnRightAt(target: Node, parent: Node, root: Node, ghost ctx: Ctx, ghost t: Tree)
      requires IsRed(t) && t.n == target && ctx != Top && ctx.c == Red && ctx.n == parent && ctx.up != Top && ctx.up.n == root
      requires !IsRed(if ctx.up.InLeft? then ctx.up.r else ctx.up.l)
      requires Shown(Snap(nodes), head, ctx, t)
      requires ctx.InLeft? && ctx.up.InLeft?
      modifies nodes
      ensures Shown(Snap(nodes), head, Top, FixInsert(ctx, t)) && root in nodes && parent != root.left && parent != root.right
    {
      hide Shown, CtxNodes, Nodes, Sep, Rep;
      ghost var up := ctx.up.up;
      ZipUp(Snap(nodes), head, ctx, t);
      ZipUp(Snap(nodes), head, ctx.up, Grow(ctx, t));
      Look(Snap(nodes), head, ctx, t.l, target, Red, t.r);
      ghost var s, u := ctx.r, ctx.up.r;
      LLRotate(root, parent, up, t, Red, s, ctx.up.c, u);
      Paint(parent, Black, up, T(t, parent, Red, T(s, root, ctx.up.c, u)));
      ZipRight(Snap(nodes), head, t, parent, Black, T(s, root, ctx.up.c, u), up);
      Paint(root, Red, InRight(t, parent, Black, up), T(s, root, ctx.up.c, u));
      ZipRight(Snap(nodes), head, t, parent, Black, T(s, root, Red, u), up);
      Look(Snap(nodes), head, InRight(t, parent, Black, up), s, root, Red, u);
      PlugShown(Snap(nodes), head, up, T(t, parent, Black, T(s, root, Red, u)));
    }

    /** The right child of a right child: one turn to the left. */
    method TurnLeftAt(target: Node, parent: Node, root: Node, ghost ctx: Ctx, ghost t: Tree)
      requires IsRed(t) && t.n == target && ctx != Top && ctx.c == Red && ctx.n == parent && ctx.up != Top && ctx.up.n == root
      requires !IsRed(if ctx.up.InLeft? then ctx.up.r else ctx.up.l)
      requires Shown(Snap(nodes), head, ctx, t)
      requires ctx.InRight? && ctx.up.InRight?
      modifies nodes
      ensures Shown(Snap(nodes), head, Top, FixInsert(ctx, t)) && root in nodes && parent != root.left && parent != root.right
    {
      hide Shown, CtxNodes, Nodes, Sep, Rep;
      ghost var up := ctx.up.up;
      ZipUp(Snap(nodes), head, ctx, t);
      ZipUp(Snap(nodes), head, ctx.up, Grow(ctx, t));
      Look(Snap(nodes), head, ctx, t.l, target, Red, t.r);
      ghost var s, u := ctx.l, ctx.up.l;
      RRRotate(root, parent, up, u, ctx.up.c, s, Red, t);
      Paint(parent, Black, up, T(T(u, root, ctx.up.c, s), parent, Red, t));
      ZipLeft(Snap(nodes), head, T(u, root, ctx.up.c, s), parent, Black, t, up);
      Paint(root, Red, InLeft(parent, Black, t, up), T(u, root, ctx.up.c, s));
      ZipLeft(Snap(nodes), head, T(u, root, Red, s), parent, Black, t, up);
      Look(Snap(nodes), head, InLeft(parent, Black, t, up), u, root, Red, s);
      PlugShown(Snap(nodes), head, up, T(T(u, root, Red, s), parent, Black, t));
    }

    /** The right child of a left child comes up over both. */
    method TurnBothRight(target: Node, parent: Node, root: Node, ghost ctx: Ctx, ghost t: Tree)
      requires IsRed(t) && t.n == target && ctx != Top && ctx.c == Red && ctx.n == parent && ctx.up != Top && ctx.up.n == root
      requires !IsRed(if ctx.up.InLeft? then ctx.up.r else ctx.up.l)
      requires Shown(Snap(nodes), head, ctx, t)
      requires ctx.InRight? && ctx.up.InLeft?
      modifies nodes
      ensures Shown(Snap(nodes), head, Top, FixInsert(ctx, t)) && root in nodes && parent != root.left && parent != root.right
    {
      hide Shown, CtxNodes, Nodes, Sep, Rep;
      ghost var up := ctx.up.up;
      ZipUp(Snap(nodes), head, ctx, t);
      ZipUp(Snap(nodes), head, ctx.up, Grow(ctx, t));
      Look(Snap(nodes), head, ctx, t.l, target, Red, t.r);
      ghost var s, u := ctx.l, ctx.up.r;
      LRRotate(root, parent, target, up, s, Red, t.l, Red, t.r, ctx.up.c, u);
      Paint(target, Black, up, T(T(s, parent, Red, t.l), target, Red, T(t.r, root, ctx.up.c, u)));
      ZipRight(Snap(nodes), head, T(s, parent, Red, t.l), target, Black, T(t.r, root, ctx.up.c, u), up);
      Paint(root, Red, InRight(T(s, parent, Red, t.l), target, Black, up), T(t.r, root, ctx.up.c, u));
      ZipRight(Snap(nodes), head, T(s, parent, Red, t.l), target, Black, T(t.r, root, Red, u), up);
      Look(Snap(nodes), head, InRight(T(s, parent, Red, t.l), target, Black, up), t.r, root, Red, u);
      ZipRight(Snap(nodes), head, T(s, parent, Red, t.l), target, Black, T(t.r, root, Red, u), up);
      ZipLeft(Snap(nodes), head, T(s, parent, Red, t.l), target, Black, T(t.r, root, Red, u), up);
      Look(Snap(nodes), head, InLeft(target, Black, T(t.r, root, Red, u), up), s, parent, Red, t.l);
      PlugShown(Snap(nodes), head, up, T(T(s, parent, Red, t.l), target, Black, T(t.r, root, Red, u)));
    }

    /** The left child of a right child comes up over both. */
    method TurnBothLeft(target: Node, parent: Node, root: Node, ghost ctx: Ctx, ghost t: Tree)
      requires IsRed(t) && t.n == target && ctx != Top && ctx.c == Red && ctx.n == parent && ctx.up != Top && ctx.up.n == root
      requires !IsRed(if ctx.up.InLeft? then ctx.up.r else ctx.up.l)
      requires Shown(Snap(nodes), head, ctx, t)
      requires ctx.InLeft? && ctx.up.InRight?
      modifies nodes
      ensures Shown(Snap(nodes), head, Top, FixInsert(ctx, t)) && root in nodes && parent != root.left && parent != root.right
    {
      hide Shown, CtxNodes, Nodes, Sep, Rep;
      ghost var up := ctx.up.up;
      ZipUp(Snap(nodes), head, ctx, t);
      ZipUp(Snap(nodes), head, ctx.up, Grow(ctx, t));
      Look(Snap(nodes), head, ctx, t.l, target, Red, t.r);
      ghost var s, u := ctx.r, ctx.up.l;
      RLRotate(root, parent, target, up, u, ctx.up.c, t.l, Red, t.r, Red, s);
      Paint(target, Black, up, T(T(u, root, ctx.up.c, t.l), target, Red, T(t.r, parent, Red, s)));
      ZipLeft(Snap(nodes), head, T(u, root, ctx.up.c, t.l), target, Black, T(t.r, parent, Red, s), up);
      Paint(root, Red, InLeft(target, Black, T(t.r, parent, Red, s), up), T(u, root, ctx.up.c, t.l));
      ZipLeft(Snap(nodes), head, T(u, root, Red, t.l), target, Black, T(t.r, parent, Red, s), up);
      Look(Snap(nodes), head, InLeft(target, Black, T(t.r, parent, Red, s), up), u, root, Red, t.l);
      ZipRight(Snap(nodes), head, T(u, root, Red, t.l), target, Black, T(t.r, parent, Red, s), up);
      Look(Snap(nodes), head, InRight(T(u, root, Red, t.l), target, Black, up), t.r, parent, Red, s);
      PlugShown(Snap(nodes), head, up, T(T(u, root, Red, t.l), target, Black, T(t.r, parent, Red, s)));
    }

    /** The uncle is black: one or two rotations end the repair. After one of the four cases the parent is no
        child of `root` any more, so that no other case applies. */
    method TurnInsert(target: Node, parent: Node, root: Node, ghost ctx: Ctx, ghost t: Tree)
      requires IsRed(t) && t.n == target && ctx != Top && ctx.c == Red && ctx.n == parent && ctx.up != Top && ctx.up.n == root
      requires !IsRed(if ctx.up.InLeft? then ctx.up.r else ctx.up.l)
      requires Shown(Snap(nodes), head, ctx, t)
      modifies nodes
      ensures Shown(Snap(nodes), head, Top, FixInsert(ctx, t))
    {
      hide Shown, CtxNodes, Nodes, Sep, Rep, FixInsert;
      ghost var h := Snap(nodes);
      ZipUp(h, head, ctx, t);
      Look(h, head, ctx, t.l, target, Red, t.r);
      Look(h, head, ctx.up, Grow(ctx, t).l, parent, Red, Grow(ctx, t).r);
      assert h[parent].left == parent.left && h[root].left == root.left;
      assert h[parent].right == parent.right && h[root].right == root.right;
      if parent == root.left && target == parent.left { TurnRightAt(target, parent, root, ctx, t); }
      if parent == root.right && target == parent.right { TurnLeftAt(target, parent, root, ctx, t); }
      if parent == root.left && target == parent.right { TurnBothRight(target, parent, root, ctx, t); }
      if parent == root.right && target == parent.left { TurnBothLeft(target, parent, root, ctx, t); }
    }

    /** The uncle is red: the red moves up by two, and the repair goes on there if it must. */
    method PassUp(target: Node, parent: Node, root: Node, other: Node, ghost ctx: Ctx, ghost t: Tree) returns (ghost g: Tree)
      requires IsRed(t) && t.n == target && ctx != Top && ctx.c == Red && ctx.n == parent && ctx.up != Top && ctx.up.n == root
      requires var u := if ctx.up.InLeft? then ctx.up.r else ctx.up.l; IsRed(u) && u.n == other
      requires Shown(Snap(nodes), head, ctx, t)
      modifies nodes
      ensures IsRed(g) && g.n == root && Shown(Snap(nodes), head, ctx.up.up, g)
      ensures FixInsert(ctx, t) == RecolourUp(ctx.up.up, g)
    {
      hide Shown, CtxNodes, Nodes, Sep, Rep;
      ghost var up := ctx.up.up;
      ghost var p := Grow(ctx, t);
      g := Grow(ctx.up, p);
      ZipUp(Snap(nodes), head, ctx, t);
      ZipUp(Snap(nodes), head, ctx.up, p);
      Paint(root, Red, up, g);
      ZipUp(Snap(nodes), head, ctx.up.(c := Red), p);
      Paint(parent, Black, ctx.up.(c := Red), p);
      p := p.(c := Black);
      ZipUp(Snap(nodes), head, ctx.up.(c := Red), p);
      ghost var u := if ctx.up.InLeft? then ctx.up.r else ctx.up.l;
      ghost var side := if ctx.up.InLeft? then InRight(p, root, Red, up) else InLeft(root, Red, p, up);
      ZipUp(Snap(nodes), head, side, u);
      Paint(other, Black, side, u);
      g := Grow(side, u.(c := Black));
      ZipUp(Snap(nodes), head, side, u.(c := Black));
    }

    /** Repairs the tree from the new red node `target` upwards. */
    method AdjustInsert(target: Node, ghost ctx: Ctx, ghost t: Tree)
      requires IsRed(t) && t.n == target && ctx != Top && CalmCtx(ctx, false)
      requires Shown(Snap(nodes), head, ctx, t)
      modifies nodes
      ensures Shown(Snap(nodes), head, Top, FixInsert(ctx, t))
      decreases ctx, 0
    {
      hide Shown, CtxNodes, Nodes, Sep, Rep, FixInsert, CalmCtx;
      ghost var h := Snap(nodes);
      CalmUp(ctx, t);
      ZipUp(h, head, ctx, t);
      Look(h, head, ctx, t.l, target, Red, t.r);
      ghost var p := Grow(ctx, t);
      Look(h, head, ctx.up, p.l, ctx.n, ctx.c, p.r);
      var parent := target.parent;
      assert parent == h[target].parent && parent.color == h[parent].color;
      if parent.color == Black {
        PlugShown(h, head, ctx, t);
        return;
      }
      ZipUp(h, head, ctx.up, p);
      ghost var g := Grow(ctx.up, p);
      Look(h, head, ctx.up.up, g.l, ctx.up.n, ctx.up.c, g.r);
      var root := parent.parent;
      assert root == h[parent].parent && root.left == h[root].left && root.right == h[root].right;
      var other := if parent == root.left then root.right else root.left;
      assert other == Ptr(if ctx.up.InLeft? then ctx.up.r else ctx.up.l);
      assert other != null ==> other.color == h[other].color;
      if other == null || other.color == Black {
        TurnInsert(target, parent, root, ctx, t);
      } else {
        g := PassUp(target, parent, root, other, ctx, t);
        GoOn(root, ctx.up.up, g);
      }
    }

    /** The repair after it has passed the red up to `root`. */
    method GoOn(root: Node, ghost up: Ctx, ghost g: Tree)
      requires IsRed(g) && g.n == root && (up != Top ==> CalmCtx(up, false))
      requires Shown(Snap(nodes), head, up, g)
      modifies nodes
      ensures Shown(Snap(nodes), head, Top, RecolourUp(up, g))
      decreases up, 1
    {
      hide Shown, CtxNodes, Nodes, Sep, Rep, FixInsert, CalmCtx;
      ghost var h := Snap(nodes);
      Look(h, head, up, g.l, root, Red, g.r);
      assert root.parent == h[root].parent;
      if up != Top {
        ZipUp(h, head, up, g);
        Look(h, head, up.up, Grow(up, g).l, up.n, up.c, Grow(up, g).r);
        CalmUp(up, g);
        PlugShown(h, head, up, g);
      }
      assert root.parent != head ==> root.parent.color == h[root.parent].color;
      if root.parent == head {
        Paint(root, Black, up, g);
      } else if root.parent.color == Red {
        AdjustInsert(root, up, g);
      }
    }

    // ----- repair before a black leaf goes

    /** The sibling is red: it is turned up over the parent. */
    method TurnSibling(target: Node, parent: Node, other: Node, ghost ctx: Ctx, ghost t: Tree)
      requires t.T? && t.n == target && ctx != Top && ctx.n == parent && IsRed(Sibling(ctx)) && Sibling(ctx).n == other
      requires Shown(Snap(nodes), head, ctx, t)
      modifies nodes
      ensures Shown(Snap(nodes), head, SiblingUp(ctx), t)
    {
      hide Shown, CtxNodes, Nodes, Sep, Rep;
      ghost var up, c, s := ctx.up, ctx.c, Sibling(ctx);
      ghost var side := if ctx.InLeft? then InRight(t, parent, c, up) else InLeft(parent, c, t, up);
      ZipUp(Snap(nodes), head, ctx, t);
      ZipUp(Snap(nodes), head, side, s);
      Paint(other, Black, side, s);
      s := s.(c := Black);
      ZipUp(Snap(nodes), head, side, s);
      Paint(parent, Red, up, Grow(side, s));
      ghost var g := Grow(side, s).(c := Red);
      Look(Snap(nodes), head, up, g.l, parent, Red, g.r);
      assert parent.left == Snap(nodes)[parent].left;
      if other == parent.left {
        LLRotate(parent, other, up, s.l, Black, s.r, Red, t);
      } else {
        RRRotate(parent, other, up, t, Red, s.l, Black, s.r);
      }
      ZipUp(Snap(nodes), head, SiblingUp(ctx), t);
      ZipUp(Snap(nodes), head, SiblingUp(ctx).up, Grow(SiblingUp(ctx), t));
    }

    /** The black sibling has a red left child, which makes up for the missing black. */
    method BorrowLeft(target: Node, parent: Node, other: Node, ghost ctx: Ctx, ghost t: Tree)
      requires t.T? && t.n == target && ctx != Top && ctx.n == parent && Sibling(ctx).T? && Sibling(ctx).n == other
      requires !IsRed(Sibling(ctx)) && IsRed(Sibling(ctx).l)
      requires Shown(Snap(nodes), head, ctx, t)
      modifies nodes
      ensures Shown(Snap(nodes), head, Top, Plug(FixErase(ctx), t))
    {
      hide Shown, CtxNodes, Nodes, Sep, Rep;
      ghost var up, c, s := ctx.up, ctx.c, Sibling(ctx);
      ghost var x, g := s.l, Grow(ctx, t);
      ZipUp(Snap(nodes), head, ctx, t);
      Look(Snap(nodes), head, up, g.l, parent, c, g.r);
      var parentColor := parent.color;
      assert parentColor == Snap(nodes)[parent].color;
      Paint(parent, Black, up, g);
      g := g.(c := Black);
      Look(Snap(nodes), head, up, g.l, parent, Black, g.r);
      ghost var side := if ctx.InLeft? then InRight(t, parent, Black, up) else InLeft(parent, Black, t, up);
      ZipUp(Snap(nodes), head, side, s);
      Look(Snap(nodes), head, side, x, other, s.c, s.r);
      assert parent.left == Snap(nodes)[parent].left && other.left == Snap(nodes)[other].left;
      if parent.left == target {
        RLRotate(parent, other, other.left, up, t, Black, x.l, Red, x.r, s.c, s.r);
        g := T(T(t, parent, Black, x.l), x.n, Red, T(x.r, other, s.c, s.r));
      } else {
        ZipLeft(Snap(nodes), head, x, other, s.c, s.r, side);
        Paint(other.left, Black, InLeft(other, s.c, s.r, side), x);
        x := x.(c := Black);
        ZipLeft(Snap(nodes), head, x, other, s.c, s.r, side);
        ZipUp(Snap(nodes), head, side, T(x, other, s.c, s.r));
        LLRotate(parent, other, up, x, s.c, s.r, Black, t);
        g := T(x, other, s.c, T(s.r, parent, Black, t));
      }
      CrownParent(parent, parentColor, up, g);
      PlugShown(Snap(nodes), head, up, g.(c := c));
    }

    /** The node now above `parent` gets the colour `parent` had. */
    method CrownParent(parent: Node, parentColor: Color, ghost up: Ctx, ghost g: Tree)
      requires g.T? && ((g.l.T? && g.l.n == parent) || (g.r.T? && g.r.n == parent)) && Shown(Snap(nodes), head, up, g)
      modifies nodes
      ensures Shown(Snap(nodes), head, up, g.(c := parentColor))
    {
      hide Shown, CtxNodes, Nodes, Sep, Rep;
      Look(Snap(nodes), head, up, g.l, g.n, g.c, g.r);
      assert parent.parent == Snap(nodes)[parent].parent;
      Paint(parent.parent, parentColor, up, g);
    }

    /** The black sibling has a red right child, but no red left one. */
    method BorrowRight(target: Node, parent: Node, other: Node, ghost ctx: Ctx, ghost t: Tree)
      requires t.T? && t.n == target && ctx != Top && ctx.n == parent && Sibling(ctx).T? && Sibling(ctx).n == other
      requires !IsRed(Sibling(ctx)) && !IsRed(Sibling(ctx).l) && IsRed(Sibling(ctx).r)
      requires Shown(Snap(nodes), head, ctx, t)
      modifies nodes
      ensures Shown(Snap(nodes), head, Top, Plug(FixErase(ctx), t))
    {
      hide Shown, CtxNodes, Nodes, Sep, Rep;
      ghost var up, c, s := ctx.up, ctx.c, Sibling(ctx);
      ghost var x, g := s.r, Grow(ctx, t);
      ZipUp(Snap(nodes), head, ctx, t);
      Look(Snap(nodes), head, up, g.l, parent, c, g.r);
      var parentColor := parent.color;
      assert parentColor == Snap(nodes)[parent].color;
      Paint(parent, Black, up, g);
      g := g.(c := Black);
      Look(Snap(nodes), head, up, g.l, parent, Black, g.r);
      ghost var side := if ctx.InLeft? then InRight(t, parent, Black, up) else InLeft(parent, Black, t, up);
      ZipUp(Snap(nodes), head, side, s);
      Look(Snap(nodes), head, side, s.l, other, s.c, x);
      assert parent.left == Snap(nodes)[parent].left && other.right == Snap(nodes)[other].right;
      if parent.left == target {
        ZipRight(Snap(nodes), head, s.l, other, s.c, x, side);
        Paint(other.right, Black, InRight(s.l, other, s.c, side), x);
        x := x.(c := Black);
        ZipRight(Snap(nodes), head, s.l, other, s.c, x, side);
        ZipUp(Snap(nodes), head, side, T(s.l, other, s.c, x));
        RRRotate(parent, other, up, t, Black, s.l, s.c, x);
        g := T(T(t, parent, Black, s.l), other, s.c, x);
      } else {
        LRRotate(parent, other, other.right, up, s.l, s.c, x.l, Red, x.r, Black, t);
        g := T(T(s.l, other, s.c, x.l), x.n, Red, T(x.r, parent, Black, t));
      }
      CrownParent(parent, parentColor, up, g);
      PlugShown(Snap(nodes), head, up, g.(c := c));
    }

    /** Both children of the black sibling are black: it turns red, and so does not count any more. */
    method PassBlack(target: Node, parent: Node, other: Node, ghost ctx: Ctx, ghost t: Tree, ghost k: nat)
        returns (done: bool, ghost g: Tree)
      requires t.T? && t.n == target && ctx != Top && ctx.n == parent && Sibling(ctx).T? && Sibling(ctx).n == other
      requires !IsRed(Sibling(ctx)) && !IsRed(Sibling(ctx).l) && !IsRed(Sibling(ctx).r)
      requires k > 0 && EvenCtx(ctx, k) && CalmCtx(ctx, false) && Shown(Snap(nodes), head, ctx, t)
      modifies nodes
      ensures done <==> ctx.c == Red
      ensures done ==> Shown(Snap(nodes), head, Top, Plug(FixErase(ctx), t))
      ensures !done ==> g.T? && g.n == parent && Shown(Snap(nodes), head, ctx.up, g)
      ensures !done ==> Plug(FixErase(ctx.up), g) == Plug(FixErase(ctx), t)
    {
      hide Shown, CtxNodes, Nodes, Sep, Rep, EvenCtx, CalmCtx, FixErase;
      BlackSibling(ctx, t, k);
      ghost var up, c, s := ctx.up, ctx.c, Sibling(ctx);
      ghost var side := if ctx.InLeft? then InRight(t, parent, c, up) else InLeft(parent, c, t, up);
      ZipUp(Snap(nodes), head, ctx, t);
      Look(Snap(nodes), head, up, Grow(ctx, t).l, parent, c, Grow(ctx, t).r);
      assert parent.color == Snap(nodes)[parent].color;
      ZipUp(Snap(nodes), head, side, s);
      if parent.color == Red {
        Paint(parent, Black, up, Grow(ctx, t));
        side := side.(c := Black);
        ZipUp(Snap(nodes), head, side, s);
        Paint(other, Red, side, s);
        ZipUp(Snap(nodes), head, side, s.(c := Red));
        PlugShown(Snap(nodes), head, up, Grow(side, s.(c := Red)));
        return true, t;
      } else {
        Paint(other, Red, side, s);
        ZipUp(Snap(nodes), head, side, s.(c := Red));
        return false, Grow(side, s.(c := Red));
      }
    }

    /** The sibling is black: either the repair ends here, or it goes on at the parent. */
    method Settle(target: Node, parent: Node, other: Node, ghost ctx: Ctx, ghost t: Tree, ghost k: nat)
        returns (done: bool, ghost g: Tree)
      requires t.T? && t.n == target && ctx != Top && ctx.n == parent
      requires !IsRed(Sibling(ctx)) && Ptr(Sibling(ctx)) == other
      requires k > 0 && EvenCtx(ctx, k) && CalmCtx(ctx, false) && Shown(Snap(nodes), head, ctx, t)
      modifies nodes
      ensures ctx.c == Red ==> done
      ensures done ==> Shown(Snap(nodes), head, Top, Plug(FixErase(ctx), t))
      ensures !done ==> g.T? && g.n == parent && Shown(Snap(nodes), head, ctx.up, g)
      ensures !done ==> Plug(FixErase(ctx.up), g) == Plug(FixErase(ctx), t)
    {
      hide Shown, CtxNodes, Nodes, Sep, Rep, EvenCtx, CalmCtx, FixErase;
      ghost var h, s := Snap(nodes), Sibling(ctx);
      BlackSibling(ctx, t, k);
      ghost var side := if ctx.InLeft? then InRight(t, parent, ctx.c, ctx.up) else InLeft(parent, ctx.c, t, ctx.up);
      ZipUp(h, head, ctx, t);
      ZipUp(h, head, side, s);
      Look(h, head, side, s.l, other, s.c, s.r);
      assert other.left == h[other].left && other.right == h[other].right;
      assert other.left != null ==> other.left.color == h[other.left].color;
      assert other.right != null ==> other.right.color == h[other.right].color;
      if other.left != null && other.left.color == Red {
        BorrowLeft(target, parent, other, ctx, t);
        return true, t;
      } else if other.right != null && other.right.color == Red {
        BorrowRight(target, parent, other, ctx, t);
        return true, t;
      }
      done, g := PassBlack(target, parent, other, ctx, t, k);
    }

    /** One round of the repair before a black leaf goes. */
    method EraseStep(target: Node, parent: Node, ghost ctx: Ctx, ghost t: Tree, ghost k: nat)
        returns (done: bool, ghost g: Tree)
      requires t.T? && t.n == target && ctx != Top && ctx.n == parent
      requires k > 0 && EvenCtx(ctx, k) && CalmCtx(ctx, false) && Shown(Snap(nodes), head, ctx, t)
      modifies nodes
      ensures done ==> Shown(Snap(nodes), head, Top, Plug(FixErase(ctx), t))
      ensures !done ==> g.T? && g.n == parent && Shown(Snap(nodes), head, ctx.up, g)
      ensures !done ==> Plug(FixErase(ctx.up), g) == Plug(FixErase(ctx), t) && EvenCtx(ctx.up, k + 1) && CalmCtx(ctx.up, false)
    {
      hide Shown, CtxNodes, Nodes, Sep, Rep, EvenCtx, CalmCtx, FixErase;
      ghost var h, turned := Snap(nodes), ctx;
      ZipUp(h, head, ctx, t);
      Look(h, head, ctx.up, Grow(ctx, t).l, parent, ctx.c, Grow(ctx, t).r);
      assert parent.left == h[parent].left && parent.right == h[parent].right;
      var other := if target == parent.left then parent.right else parent.left;
      if !IsRed(Sibling(ctx)) { BlackSibling(ctx, t, k); }
      assert other == Ptr(Sibling(ctx)) && other.color == h[other].color;
      if other.color == Red {
        SiblingUpGood(ctx, k);
        TurnSibling(target, parent, other, ctx, t);
        turned := SiblingUp(ctx);
        other := SiblingOf(target, parent, turned, t, k);
      }
      done, g := Settle(target, parent, other, turned, t, k);
    }

    /** Repairs the tree so that the black leaf `start` can go. */
    method AdjustErase(start: Node, ghost startCtx: Ctx, ghost startTree: Tree, ghost height: nat)
      requires startTree.T? && startTree.n == start && height > 0 && EvenCtx(startCtx, height) && CalmCtx(startCtx, false)
      requires Shown(Snap(nodes), head, startCtx, startTree)
      modifies nodes
      ensures Shown(Snap(nodes), head, Top, Plug(FixErase(startCtx), startTree))
    {
      hide Shown, CtxNodes, Nodes, Sep, Rep, EvenCtx, CalmCtx;
      var target := start;
      ghost var ctx, t, k := startCtx, startTree, height;
      TopLeft(Snap(nodes), head, ctx, t);
      assert head.left == Snap(nodes)[head].left;
      while target != head.left
        invariant t.T? && t.n == target && k > 0 && EvenCtx(ctx, k) && CalmCtx(ctx, false)
        invariant Shown(Snap(nodes), head, ctx, t)
        invariant target == head.left <==> ctx == Top
        invariant Plug(FixErase(ctx), t) == Plug(FixErase(startCtx), startTree)
        decreases ctx
      {
        Look(Snap(nodes), head, ctx, t.l, target, t.c, t.r);
        assert target.parent == Snap(nodes)[target].parent;
        var parent := target.parent;
        var done: bool;
        ghost var g: Tree;
        done, g := EraseStep(target, parent, ctx, t, k);
        if done { return; }
        target := parent;
        ctx, t, k := ctx.up, g, k + 1;
        TopLeft(Snap(nodes), head, ctx, t);
        assert head.left == Snap(nodes)[head].left;
      }
    }

    method SiblingOf(target: Node, parent: Node, ghost ctx: Ctx, ghost t: Tree, ghost k: nat) returns (other: Node)
      requires t.T? && t.n == target && ctx != Top && ctx.n == parent && !IsRed(Sibling(ctx))
      requires k > 0 && EvenCtx(ctx, k) && CalmCtx(ctx, false) && Shown(Snap(nodes), head, ctx, t)
      ensures Ptr(Sibling(ctx)) == other
    {
      hide Shown, CtxNodes, Nodes, Sep, Rep, EvenCtx, CalmCtx;
      BlackSibling(ctx, t, k);
      ZipUp(Snap(nodes), head, ctx, t);
      Look(Snap(nodes), head, ctx.up, Grow(ctx, t).l, parent, ctx.c, Grow(ctx, t).r);
      assert parent.left == Snap(nodes)[parent].left && parent.right == Snap(nodes)[parent].right;
      other := if target == parent.left then parent.right else parent.left;
    }

    // ----- exchanging two nodes

    /** The link of `p` to `a` goes to `b`. */
    method SetChild(p: Node, a: Node, b: Node)
      requires p in nodes
      modifies nodes
      ensures Snap(nodes) == Redirect(old(Snap(nodes)), p, a, b)
    {
      if a == p.left { p.left := b; } else { p.right := b; }
    }

    method SetParent(x: Node?, p: Node)
      requires x != null ==> x in nodes
      modifies nodes
      ensures Snap(nodes) == Foster(old(Snap(nodes)), x, p)
    {
      if x != null { x.parent := p; }
    }

    method SwapColor(target: Node, replace: Node)
      requires target in nodes && replace in nodes && target != replace
      modifies nodes
      ensures Snap(nodes) == SwapColors(old(Snap(nodes)), target, replace)
    {
      target.color, replace.color := replace.color, target.color;
    }

    method SwapLink(target: Node, replace: Node, left: bool)
      requires target in nodes && replace in nodes && target != replace
      modifies nodes
      ensures Snap(nodes) == SwapLinks(old(Snap(nodes)), target, replace, left)
    {
      if left {
        target.left, replace.left := replace.left, target.left;
      } else {
        target.right, replace.right := replace.right, target.right;
      }
    }

    /** The first half of an exchange: everything but the links between the two nodes. */
    method SwapFront(target: Node, replace: Node, replaceLeft: bool)
      requires Pair(Snap(nodes), head, target, replace)
      modifies nodes
      ensures Snap(nodes) == Front(old(Snap(nodes)), head, target, replace, replaceLeft)
    {
      hide Foster, Redirect, RbSwap.SwapLinks;
      ghost var h := Snap(nodes);
      SwapColor(target, replace);
      assert target.parent == Snap(nodes)[target].parent;
      SetChild(target.parent, target, replace);
      ghost var h1 := Snap(nodes);
      assert h1 == Stage1(h, head, target, replace);
      Stage1Cells(h, head, target, replace, target);
      Stage1Cells(h, head, target, replace, replace);
      assert replace.left == h1[replace].left;
      SetParent(replace.left, target);
      ghost var h2 := Snap(nodes);
      FosterLinks(h1, h[replace].left, target, replace);
      FosterLinks(h1, h[replace].left, target, target);
      assert replace.right == h2[replace].right;
      SetParent(replace.right, target);
      ghost var h3 := Snap(nodes);
      FosterLinks(h2, h[replace].right, target, target);
      assert target.left == h3[target].left && target.right == h3[target].right;
      SetParent(if replaceLeft then target.right else target.left, replace);
      SwapLink(target, replace, !replaceLeft);
    }

    /** The second half when `replace` is a child of `target`. */
    method SwapNear(target: Node, replace: Node, replaceLeft: bool)
      requires target in nodes && replace in nodes && target != replace
      modifies nodes
      ensures Snap(nodes) == Near(old(Snap(nodes)), target, replace, replaceLeft)
    {
      if replaceLeft {
        target.left := replace.left;
        replace.left := target;
      } else {
        target.right := replace.right;
        replace.right := target;
      }
      replace.parent := target.parent;
      target.parent := replace;
    }

    method SetSide(p: Node, left: bool, x: Node)
      requires p in nodes
      modifies nodes
      ensures Snap(nodes) == var h := old(Snap(nodes)); h[p := WithLink(h[p], left, x)]
    {
      if left { p.left := x; } else { p.right := x; }
    }

    method SwapParent(target: Node, replace: Node)
      requires target in nodes && replace in nodes && target != replace
      modifies nodes
      ensures Snap(nodes) == SwapParents(old(Snap(nodes)), target, replace)
    {
      target.parent, replace.parent := replace.parent, target.parent;
    }

    method SwapFarLinks(target: Node, replace: Node, replaceLeft: bool)
      requires target in nodes && replace in nodes && target != replace
      requires replace.parent != null && replace.parent in nodes
      requires target.left != null ==> target.left in nodes && target.left != replace
      requires target.right != null ==> target.right in nodes && target.right != replace
      modifies nodes
      ensures Snap(nodes) == FarLinks(old(Snap(nodes)), target, replace, replaceLeft)
    {
      hide Foster;
      ghost var h := Snap(nodes);
      ghost var x := if replaceLeft then target.left else target.right;
      SetParent(if replaceLeft then target.left else target.right, replace);
      FosterCell(h, x, replace, replace);
      assert replace.parent == Snap(nodes)[replace].parent;
      SetSide(replace.parent, replaceLeft, target);
    }

    /** The second half when `replace` is further away. */
    method SwapFar(target: Node, replace: Node, replaceLeft: bool)
      requires target in nodes && replace in nodes && target != replace
      requires replace.parent != null && replace.parent in nodes
      requires target.left != null ==> target.left in nodes && target.left != replace
      requires target.right != null ==> target.right in nodes && target.right != replace
      modifies nodes
      ensures Snap(nodes) == Far(old(Snap(nodes)), target, replace, replaceLeft)
    {
      hide Foster, RbSwap.SwapLinks, FarLinks, SwapParents;
      SwapFarLinks(target, replace, replaceLeft);
      SwapParent(target, replace);
      SwapLink(target, replace, replaceLeft);
    }

    /** Exchanges the places of two nodes; the colours stay where they were. */
    method Swap(target: Node, replace: Node, ghost t: Tree)
      requires Shown(Snap(nodes), head, Top, t) && target in Nodes(t) && replace in Nodes(t)
      requires target != replace && target.parent != replace
      modifies nodes
      ensures Shown(Snap(nodes), head, Top, Rename(t, target, replace))
    {
      hide Rep, Sep, Nodes, Front, Near, Far;
      ghost var h := Snap(nodes);
      ShownLinked(h, head, t);
      assert LinkedAt(h, head, target) && LinkedAt(h, head, replace);
      assert Pair(h, head, target, replace);
      assert replace.parent == h[replace].parent;
      assert replace.parent.left == h[replace.parent].left;
      var replaceLeft := replace == replace.parent.left;
      SwapFront(target, replace, replaceLeft);
      FrontCells(h, head, target, replace, replaceLeft, target);
      FrontCells(h, head, target, replace, replaceLeft, replace);
      assert replace.parent == Snap(nodes)[replace].parent;
      assert target.left == Snap(nodes)[target].left && target.right == Snap(nodes)[target].right;
      if replace.parent == target {
        NearExchanges(h, head, target, replace, replaceLeft);
        SwapNear(target, replace, replaceLeft);
      } else {
        FarExchanges(h, head, target, replace, replaceLeft);
        SwapFar(target, replace, replaceLeft);
      }
      RenameShown(h, Snap(nodes), head, t, target, replace);
    }

    // ----- the operations of the map

    ghost predicate Valid()
      reads this, nodes
    {
      && Shown(Snap(nodes), head, Top, tree) && RedBlack(tree)
      && Sorted(Inorder(tree)) && numOfElements == |Inorder(tree)|
    }

    /** The nodes of the map in the order of their keys. */
    ghost function Listing(): seq<Node>
      reads this
    {
      Inorder(tree)
    }

    lemma {:induction false} SortedListing()
      requires Valid()
      ensures Sorted(Listing())
    {
    }

    /** The node with the key, or the sentinel. */
    method Find(key: int) returns (target: Node)
      requires Valid()
      ensures target == head <==> forall n :: n in Listing() ==> n.key != key
      ensures target != head ==> target in Listing() && target.key == key
    {
      hide Shown, CtxNodes, Nodes, Sep, Rep, Sorted, Before, After, Inorder;
      ghost var h := Snap(nodes);
      ghost var ctx, t := Top, tree;
      BoundsTop(key);
      Root(h, head, tree);
      assert head.left == h[head].left;
      var at := head.left;
      while at != null
        invariant at == Ptr(t) && Plug(ctx, t) == tree && Shown(h, head, ctx, t) && Bounds(ctx, key)
        decreases t
      {
        Look(h, head, ctx, t.l, at, t.c, t.r);
        assert at.left == h[at].left && at.right == h[at].right;
        if key < at.key {
          SearchLeft(ctx, t, key);
          ctx, t := InLeft(t.n, t.c, t.r, ctx), t.l;
          ZipUp(h, head, ctx, t);
          at := at.left;
        } else if at.key < key {
          SearchRight(ctx, t, key);
          ctx, t := InRight(t.l, t.n, t.c, ctx), t.r;
          ZipUp(h, head, ctx, t);
          at := at.right;
        } else {
          IndexAt(ctx, t);
          HeadOut(h, head, tree);
          return at;
        }
      }
      SearchMisses(ctx, key);
      return head;
    }

    /** The value at a key; the source throws `index_out_of_bound` where there is none. */
    method At(key: int) returns (found: bool, value: int)
      requires Valid()
      ensures found <==> exists n :: n in Listing() && n.key == key
      ensures found ==> forall n :: n in Listing() && n.key == key ==> value == n.value
    {
      var target := Find(key);
      if target == head { return false, 0; }
      Unique(Listing(), target);
      return true, target.value;
    }

    /** A new node hung below `prev`, on the side its key belongs to. */
    method HangNew(key: int, value: int, color: Color, prev: Node, left: bool, ghost ctx: Ctx) returns (n: Node)
      requires prev == Owner(head, ctx) && (left <==> !ctx.InRight?)
      requires Shown(Snap(nodes), head, ctx, Leaf)
      modifies prev, this`nodes
      ensures fresh(n) && n.key == key && n.value == value && nodes == old(nodes) + {n} && n !in old(nodes)
      ensures Shown(Snap(nodes), head, ctx, T(Leaf, n, color, Leaf))
    {
      hide CtxNodes, Nodes, Sep, Rep, Shown, Inorder;
      ghost var h := Snap(nodes);
      OwnerShown(h, head, ctx, Leaf);
      n := new Node(key, value, color, prev);
      if left { prev.left := n; } else { prev.right := n; }
      nodes := nodes + {n};
      Plant(h, head, ctx, n, color);
      ghost var cell: Cell := Cell(color, prev, null, null);
      ghost var h1: Heap := h[prev := Hang(ctx, h[prev], n)];
      assert Snap(nodes) == h1[n := cell];
    }

    /** The place below which a key belongs, or the node that has it. */
    method SearchPlace(key: int) returns (target: Node?, prev: Node, ghost ctx: Ctx, ghost t: Tree)
      requires Valid()
      ensures Shown(Snap(nodes), head, ctx, t) && Plug(ctx, t) == tree && Bounds(ctx, key)
      ensures target == Ptr(t) && prev == Owner(head, ctx)
      ensures target != null ==> target.key == key
      ensures ctx.InLeft? ==> key < prev.key
      ensures ctx.InRight? ==> prev.key < key
    {
      hide CtxNodes, Nodes, Sep, Rep, Sorted, Before, After, Inorder, Shown;
      ghost var h := Snap(nodes);
      ctx, t := Top, tree;
      BoundsTop(key);
      Root(h, head, tree);
      assert head.left == h[head].left;
      target, prev := head.left, head;
      while target != null
        invariant target == Ptr(t) && prev == Owner(head, ctx)
        invariant Plug(ctx, t) == tree && Shown(h, head, ctx, t) && Bounds(ctx, key)
        invariant ctx.InLeft? ==> key < prev.key
        invariant ctx.InRight? ==> prev.key < key
        decreases t
      {
        Look(h, head, ctx, t.l, target, t.c, t.r);
        assert target.left == h[target].left && target.right == h[target].right;
        if key < target.key {
          SearchLeft(ctx, t, key);
          ctx, t := InLeft(t.n, t.c, t.r, ctx), t.l;
          ZipUp(h, head, ctx, t);
          prev, target := target, target.left;
        } else if target.key < key {
          SearchRight(ctx, t, key);
          ctx, t := InRight(t.l, t.n, t.c, ctx), t.r;
          ZipUp(h, head, ctx, t);
          prev, target := target, target.right;
        } else {
          return;
        }
      }
    }

    /** The first node of an empty map. */
    method InsertFirst(key: int, value: int) returns (pos: Node)
      requires Valid() && numOfElements == 0
      modifies this, nodes
      ensures Valid() && nodes == old(nodes) + {pos} && fresh(pos) && pos.key == key && pos.value == value
      ensures old(Listing()) == [] && Listing() == [pos]
    {
      hide CtxNodes, Nodes, Sep, Rep, Sorted, Before, After, Inorder, Shown;
      EmptyTree(tree);
      Root(Snap(nodes), head, tree);
      EmptyListing();
      pos := HangNew(key, value, Black, head, true, Top);
      numOfElements := numOfElements + 1;
      tree := T(Leaf, pos, Black, Leaf);
      SingleTree(pos);
    }

    /** A new red node at its place, and the repair from there. */
    method InsertBelow(key: int, value: int, prev: Node, ghost ctx: Ctx) returns (pos: Node)
      requires Valid() && Shown(Snap(nodes), head, ctx, Leaf) && Plug(ctx, Leaf) == tree && ctx != Top && Bounds(ctx, key)
      requires prev == Owner(head, ctx) && (ctx.InLeft? ==> key < prev.key) && (ctx.InRight? ==> prev.key < key)
      modifies this, nodes
      ensures Valid() && nodes == old(nodes) + {pos} && fresh(pos) && pos.key == key && pos.value == value
      ensures var i := |Before(ctx)|;
        i <= |old(Listing())| && Listing() == old(Listing())[..i] + [pos] + old(Listing())[i..]
    {
      hide CtxNodes, Nodes, Sep, Rep, Sorted, Before, After, Inorder, Shown;
      SearchMisses(ctx, key);
      UnplugRedBlack(ctx, Leaf);
      OwnerShown(Snap(nodes), head, ctx, Leaf);
      pos := HangNew(key, value, Red, prev, key < prev.key, ctx);
      ghost var t := T(Leaf, pos, Red, Leaf);
      AdjustInsert(pos, ctx, t);
      InsertAt(Before(ctx), pos, After(ctx), t);
      SearchPlaces(ctx, pos);
      FixInsertRedBlack(ctx, t);
      FixInsertInorder(ctx, t);
      PlugInorder(ctx, t);
      numOfElements := numOfElements + 1;
      tree := FixInsert(ctx, t);
    }

    /** Adds a key with its value, unless the key is there already. */
    method Insert(key: int, value: int) returns (pos: Node, inserted: bool, ghost i: nat)
      requires Valid()
      modifies this, nodes
      ensures Valid() && fresh(nodes - old(nodes))
      ensures inserted <==> forall n :: n in old(Listing()) ==> n.key != key
      ensures !inserted ==> Listing() == old(Listing()) && pos in Listing() && pos.key == key
      ensures inserted ==> fresh(pos) && pos.key == key && pos.value == value
      ensures inserted ==> i <= |old(Listing())| && Listing() == old(Listing())[..i] + [pos] + old(Listing())[i..]
    {
      hide CtxNodes, Nodes, Sep, Rep, Sorted, Before, After, Inorder, Shown, RedBlack, Bounds;
      if numOfElements == 0 {
        pos := InsertFirst(key, value);
        return pos, true, 0;
      }
      var target, prev;
      ghost var ctx, t;
      target, prev, ctx, t := SearchPlace(key);
      if target != null {
        IndexAt(ctx, t);
        return target, false, 0;
      }
      assert ctx != Top by { if ctx == Top { EmptyListing(); } }
      SearchMisses(ctx, key);
      i := |Before(ctx)|;
      pos := InsertBelow(key, value, prev, ctx);
      inserted := true;
    }

    /** The node `target` changes places with on its way down: its neighbour in the order. */
    method Replacement(target: Node, ghost ctx: Ctx, ghost t: Tree) returns (replace: Node, ghost at: Ctx, ghost below: Tree)
      requires t.T? && t.n == target && (t.l.T? || t.r.T?) && RedBlack(Plug(ctx, t))
      requires Shown(Snap(nodes), head, ctx, t)
      ensures below.T? && below.n == replace && Plug(at, below) == Plug(ctx, t) && Size(below) < Size(t)
      ensures Index(at, below) == Index(ctx, t) + 1 || Index(ctx, t) == Index(at, below) + 1
      ensures replace != Owner(head, ctx)
    {
      hide CtxNodes, Nodes, Sep, Rep, Before, After, Inorder, Shown, RedBlack;
      ghost var h := Snap(nodes);
      Look(h, head, ctx, t.l, target, t.c, t.r);
      RootIn(t);
      RootIn(t.l);
      RootIn(t.r);
      assert target.left == h[target].left && target.right == h[target].right;
      if target.left == null {
        replace := target.right;
        at, below := InRight(Leaf, target, t.c, ctx), t.r;
        OnlyNeighbour(ctx, t);
      } else if target.right == null {
        replace := target.left;
        at, below := InLeft(target, t.c, Leaf, ctx), t.l;
        OnlyNeighbour(ctx, t);
      } else {
        replace := target.left;
        at, below := InLeft(target, t.c, t.r, ctx), t.l;
        ZipUp(h, head, at, below);
        Look(h, head, at, below.l, replace, below.c, below.r);
        IndexOfRoot(ctx, t);
        assert replace.right == h[replace].right;
        while replace.right != null
          invariant below.T? && below.n == replace && replace.right == Ptr(below.r)
          invariant Shown(h, head, at, below) && Plug(at, below) == Plug(ctx, t)
          invariant Size(below) <= Size(t.l) && Nodes(below) <= Nodes(t)
          invariant |Before(at)| + |Inorder(below)| == Index(ctx, t)
          decreases below
        {
          GoRight(at, below);
          RootIn(below);
          at, below := InRight(below.l, below.n, below.c, at), below.r;
          ZipUp(h, head, at, below);
          replace := replace.right;
          Look(h, head, at, below.l, replace, below.c, below.r);
          assert replace.right == h[replace].right;
        }
        RootIn(below);
        LastBefore(ctx, t, at, below);
      }
      NotAbove(h, head, ctx, t, replace);
    }

    /** Brings `target` to the bottom of the tree. */
    method SinkDown(target: Node, ghost start: Tree, ghost i: nat) returns (ghost ctx: Ctx, ghost c: Color)
      requires i < |Inorder(start)| && Inorder(start)[i] == target && RedBlack(start)
      requires Shown(Snap(nodes), head, Top, start)
      modifies nodes
      ensures Shown(Snap(nodes), head, ctx, T(Leaf, target, c, Leaf)) && RedBlack(Plug(ctx, T(Leaf, target, c, Leaf)))
      ensures Before(ctx) + After(ctx) == Dropped(Inorder(start), i)
    {
      hide CtxNodes, Nodes, Sep, Rep, Before, After, Inorder, Shown, RedBlack, Index, Dropped;
      ghost var rest := Dropped(Inorder(start), i);
      ghost var t;
      ctx, t := LocateIndex(start, i, Snap(nodes), head);
      PlugShown(Snap(nodes), head, ctx, t);
      Look(Snap(nodes), head, ctx, t.l, target, t.c, t.r);
      assert target.left == Snap(nodes)[target].left && target.right == Snap(nodes)[target].right;
      while target.left != null || target.right != null
        invariant t.T? && t.n == target && target.left == Ptr(t.l) && target.right == Ptr(t.r)
        invariant Shown(Snap(nodes), head, ctx, t) && RedBlack(Plug(ctx, t))
        invariant Leaves(Inorder(Plug(ctx, t)), Index(ctx, t), target, rest)
        decreases Size(t)
      {
        var replace;
        ghost var at, below;
        replace, at, below := Replacement(target, ctx, t);
        Look(Snap(nodes), head, ctx, t.l, target, t.c, t.r);
        assert target.parent == Snap(nodes)[target].parent;
        PlugShown(Snap(nodes), head, ctx, t);
        ghost var cur := Plug(ctx, t);
        SepOf(Snap(nodes), head, cur);
        SwapKeepsRest(ctx, t, at, below, rest);
        PlugHas(ctx, t);
        PlugHas(at, below);
        RenameKeepsRedBlack(cur, target, replace);
        Swap(target, replace, cur);
        ctx, t := RenameCtx(at, target, replace), Rename(below, target, replace);
        PlugShown(Snap(nodes), head, ctx, t);
        Look(Snap(nodes), head, ctx, t.l, target, t.c, t.r);
        assert target.left == Snap(nodes)[target].left && target.right == Snap(nodes)[target].right;
      }
      c := t.c;
      LeafRest(ctx, t, rest);
    }

    /** Cuts off the leaf `target`. */
    method CutOff(target: Node, ghost ctx: Ctx, ghost c: Color)
      requires Shown(Snap(nodes), head, ctx, T(Leaf, target, c, Leaf))
      modifies nodes, this`nodes
      ensures nodes == old(nodes) - {target}
      ensures Shown(Snap(nodes), head, ctx, Leaf)
    {
      hide CtxNodes, Nodes, Sep, Rep, Shown;
      ghost var h := Snap(nodes);
      Look(h, head, ctx, Leaf, target, c, Leaf);
      TopLeft(h, head, ctx, T(Leaf, target, c, Leaf));
      assert head.left == h[head].left && target.parent == h[target].parent;
      assert target.parent.left == h[target.parent].left;
      if target == head.left {
        head.left := null;
      } else if target.parent.left == target {
        target.parent.left := null;
      } else {
        target.parent.right := null;
      }
      nodes := nodes - {target};
      Prune(h, Snap(nodes), head, ctx, target, c);
    }

    /** Removes the node at an iterator, given by its node and its map; at the end, and for an iterator of another
        map, the source throws `index_out_of_bound`. */
    method Erase(pos: Node?, container: Map?, ghost i: nat) returns (ok: bool)
      requires Valid()
      requires container == this ==> pos == head || (i < |Listing()| && Listing()[i] == pos)
      modifies this, nodes
      ensures Valid()
      ensures ok <==> container == this && pos != head
      ensures !ok ==> Listing() == old(Listing()) && nodes == old(nodes)
      ensures ok ==> Listing() == old(Listing())[..i] + old(Listing())[i + 1..] && nodes == old(nodes) - {pos}
    {
      hide CtxNodes, Nodes, Sep, Rep, Before, After, Inorder, Shown, RedBlack, Sorted;
      if container != this || pos == head { return false; }
      numOfElements := numOfElements - 1;
      var target: Node := pos;
      ghost var s := Listing();
      ghost var ctx, c;
      ctx, c := SinkDown(target, tree, i);
      ghost var t := T(Leaf, target, c, Leaf);
      Look(Snap(nodes), head, ctx, Leaf, target, c, Leaf);
      assert target.color == Snap(nodes)[target].color;
      LeafGone(ctx, target, c);
      if target.color == Black {
        AdjustErase(target, ctx, t, 1);
        ctx := FixErase(ctx);
        PlugShown(Snap(nodes), head, ctx, t);
      }
      CutOff(target, ctx, c);
      tree := Plug(ctx, Leaf);
      PlugShown(Snap(nodes), head, ctx, Leaf);
      DroppedSorted(s, i);
      return true;
    }

    // ----- iterators

    /** The position `i` of a walk through the map: the sentinel comes after the last node. */
    ghost function Item(i: nat): Node
      reads this
    {
      if i < |Listing()| then Listing()[i] else head
    }

    method Begin() returns (target: Node)
      requires Valid()
      ensures target == Item(0)
    {
      hide CtxNodes, Nodes, Sep, Rep, Before, After, Inorder, Shown, RedBlack, Sorted;
      ghost var h := Snap(nodes);
      ghost var ctx, t := Top, tree;
      Root(h, head, tree);
      AtTop(tree);
      target := head;
      assert target.left == h[target].left;
      while target.left != null
        invariant Shown(h, head, ctx, t) && Plug(ctx, t) == tree && |Before(ctx)| == 0
        invariant target.left == Ptr(t) && target == Owner(head, ctx)
        invariant ctx != Top ==> ctx.InLeft? && target != head
        decreases t
      {
        Look(h, head, ctx, t.l, t.n, t.c, t.r);
        StepDown(ctx, t);
        ctx, t := InLeft(t.n, t.c, t.r, ctx), t.l;
        ZipUp(h, head, ctx, t);
        target := target.left;
        assert target.left == h[target].left;
      }
      AtTop(Leaf);
      if target != head {
        StepUp(ctx, t);
        IndexAt(ctx.up, Grow(ctx, t));
      }
    }

    /** The leftmost node of a subtree. */
    method FirstOf(start: Node, ghost startCtx: Ctx, ghost startTree: Tree) returns (target: Node)
      requires Valid()
      requires startTree.T? && startTree.n == start && Plug(startCtx, startTree) == tree
      ensures |Before(startCtx)| < |Listing()| && target == Listing()[|Before(startCtx)|]
    {
      hide CtxNodes, Nodes, Sep, Rep, Before, After, Inorder, Shown, RedBlack, Sorted;
      ghost var h := Snap(nodes);
      ghost var ctx, t := startCtx, startTree;
      target := start;
      PlugShown(h, head, ctx, t);
      Look(h, head, ctx, t.l, t.n, t.c, t.r);
      assert target.left == h[target].left;
      while target.left != null
        invariant Shown(h, head, ctx, t) && Plug(ctx, t) == tree && |Before(ctx)| == |Before(startCtx)|
        invariant t.T? && t.n == target && target.left == Ptr(t.l)
        decreases t
      {
        StepDown(ctx, t);
        ctx, t := InLeft(t.n, t.c, t.r, ctx), t.l;
        ZipUp(h, head, ctx, t);
        target := target.left;
        Look(h, head, ctx, t.l, t.n, t.c, t.r);
        assert target.left == h[target].left;
      }
      AtTop(Leaf);
      IndexAt(ctx, t);
    }

    /** The rightmost node of a subtree. */
    method LastOf(start: Node, ghost startCtx: Ctx, ghost startTree: Tree) returns (target: Node)
      requires Valid()
      requires startTree.T? && startTree.n == start && Plug(startCtx, startTree) == tree
      ensures 0 < End(startCtx, startTree) <= |Listing()| && target == Listing()[End(startCtx, startTree) - 1]
    {
      hide CtxNodes, Nodes, Sep, Rep, Before, After, Inorder, Shown, RedBlack, Sorted;
      ghost var h := Snap(nodes);
      ghost var ctx, t := startCtx, startTree;
      target := start;
      PlugShown(h, head, ctx, t);
      Look(h, head, ctx, t.l, t.n, t.c, t.r);
      assert target.right == h[target].right;
      while target.right != null
        invariant Shown(h, head, ctx, t) && Plug(ctx, t) == tree && End(ctx, t) == End(startCtx, startTree)
        invariant t.T? && t.n == target && target.right == Ptr(t.r)
        decreases t
      {
        StepDown(ctx, t);
        ctx, t := InRight(t.l, t.n, t.c, ctx), t.r;
        ZipUp(h, head, ctx, t);
        target := target.right;
        Look(h, head, ctx, t.l, t.n, t.c, t.r);
        assert target.right == h[target].right;
      }
      StepDown(ctx, t);
      AtTop(Leaf);
      IndexAt(ctx, t);
    }

    /** Up while the node is a right child, and once more. */
    method ClimbFromRight(start: Node, ghost startCtx: Ctx, ghost startTree: Tree) returns (target: Node)
      requires Valid()
      requires startTree.T? && startTree.n == start && Plug(startCtx, startTree) == tree
      ensures target == Item(End(startCtx, startTree))
    {
      hide CtxNodes, Nodes, Sep, Rep, Before, After, Inorder, Shown, RedBlack, Sorted;
      ghost var h := Snap(nodes);
      ghost var ctx, t := startCtx, startTree;
      target := start;
      PlugShown(h, head, ctx, t);
      Look(h, head, ctx, t.l, t.n, t.c, t.r);
      assert target.parent == h[target].parent && target.parent.right == h[target.parent].right;
      while target == target.parent.right
        invariant Shown(h, head, ctx, t) && Plug(ctx, t) == tree && End(ctx, t) == End(startCtx, startTree)
        invariant t.T? && t.n == target && target.parent == Owner(head, ctx)
        invariant target == target.parent.right <==> ctx.InRight?
        decreases ctx
      {
        StepUp(ctx, t);
        ZipUp(h, head, ctx, t);
        ctx, t := ctx.up, Grow(ctx, t);
        target := target.parent;
        Look(h, head, ctx, t.l, t.n, t.c, t.r);
        assert target.parent == h[target].parent && target.parent.right == h[target.parent].right;
      }
      target := target.parent;
      if ctx == Top {
        AtTop(t);
      } else {
        StepUp(ctx, t);
        IndexAt(ctx.up, Grow(ctx, t));
      }
    }

    /** Up while the node is a left child, and once more. */
    method ClimbFromLeft(start: Node, ghost startCtx: Ctx, ghost startTree: Tree) returns (target: Node)
      requires Valid()
      requires startTree.T? && startTree.n == start && Plug(startCtx, startTree) == tree && |Before(startCtx)| > 0
      ensures |Before(startCtx)| <= |Listing()| && target == Item(|Before(startCtx)| - 1)
    {
      hide CtxNodes, Nodes, Sep, Rep, Before, After, Inorder, Shown, RedBlack, Sorted;
      ghost var h := Snap(nodes);
      ghost var ctx, t := startCtx, startTree;
      target := start;
      PlugShown(h, head, ctx, t);
      Look(h, head, ctx, t.l, t.n, t.c, t.r);
      AtTop(t);
      assert target.parent == h[target].parent && target.parent.left == h[target.parent].left;
      while target == target.parent.left
        invariant Shown(h, head, ctx, t) && Plug(ctx, t) == tree && |Before(ctx)| == |Before(startCtx)|
        invariant t.T? && t.n == target && target.parent == Owner(head, ctx)
        invariant target == target.parent.left <==> !ctx.InRight?
        decreases ctx
      {
        StepUp(ctx, t);
        ZipUp(h, head, ctx, t);
        ctx, t := ctx.up, Grow(ctx, t);
        target := target.parent;
        Look(h, head, ctx, t.l, t.n, t.c, t.r);
        assert target.parent == h[target].parent && target.parent.left == h[target.parent].left;
      }
      target := target.parent;
      StepUp(ctx, t);
      IndexAt(ctx.up, Grow(ctx, t));
    }

    /** One step of `++`. The source throws `invalid_iterator` without a node and at the end. */
    method Next(start: Node?, ghost i: nat) returns (ok: bool, target: Node)
      requires Valid()
      requires start == null || start == Item(i)
      ensures ok <==> start != null && start != head
      ensures ok ==> i < |Listing()| && target == Item(i + 1)
    {
      hide CtxNodes, Nodes, Sep, Rep, Before, After, Inorder, Shown, RedBlack, Sorted;
      if start == null || start == head { return false, head; }
      ghost var h := Snap(nodes);
      ghost var ctx, t := LocateIndex(tree, i, h, head);
      PlugShown(h, head, ctx, t);
      Look(h, head, ctx, t.l, t.n, t.c, t.r);
      StepDown(ctx, t);
      assert start.right == h[start].right && start.parent == h[start].parent && start.parent.left == h[start.parent].left;
      if start.right != null {
        target := FirstOf(start.right, InRight(t.l, t.n, t.c, ctx), t.r);
      } else if start == start.parent.left {
        target := start.parent;
        AtTop(Leaf);
        if ctx == Top {
          AtTop(t);
        } else {
          StepUp(ctx, t);
          IndexAt(ctx.up, Grow(ctx, t));
        }
      } else {
        AtTop(Leaf);
        target := ClimbFromRight(start, ctx, t);
      }
      return true, target;
    }

    /** One step of `--`. The source throws `invalid_iterator` without a node and at the beginning. */
    method Previous(start: Node?, ghost i: nat) returns (ok: bool, target: Node)
      requires Valid()
      requires start == null || (i <= |Listing()| && start == Item(i))
      ensures ok <==> start != null && i > 0
      ensures ok ==> target == Item(i - 1)
    {
      hide CtxNodes, Nodes, Sep, Rep, Before, After, Inorder, Shown, RedBlack, Sorted;
      if start == null { return false, head; }
      var first := Begin();
      ghost var h := Snap(nodes);
      FirstItem(h, head, tree, i);
      if start == first { return false, head; }
      if start == head {
        Root(h, head, tree);
        AtTop(tree);
        assert start.left == h[start].left;
        target := LastOf(start.left, Top, tree);
        return true, target;
      }
      ghost var ctx, t := LocateIndex(tree, i, h, head);
      PlugShown(h, head, ctx, t);
      Look(h, head, ctx, t.l, t.n, t.c, t.r);
      StepDown(ctx, t);
      assert start.left == h[start].left && start.parent == h[start].parent && start.parent.right == h[start.parent].right;
      if start.left != null {
        target := LastOf(start.left, InLeft(t.n, t.c, t.r, ctx), t.l);
      } else if start == start.parent.right {
        target := start.parent;
        AtTop(Leaf);
        StepUp(ctx, t);
        IndexAt(ctx.up, Grow(ctx, t));
      } else {
        AtTop(Leaf);
        target := ClimbFromLeft(start, ctx, t);
      }
      return true, target;
    }

    /** A walk from the beginning to the end meets every node once, in the order of the keys. */
    method Walk() returns (seen: seq<Node>)
      requires Valid()
      ensures seen == Listing() && Sorted(seen)
    {
      hide CtxNodes, Nodes, Sep, Rep, Before, After, Inorder, Shown, RedBlack, Sorted;
      seen := [];
      var at := Begin();
      FirstItem(Snap(nodes), head, tree, 0);
      while at != head
        invariant |seen| <= |Listing()| && seen == Listing()[..|seen|] && at == Item(|seen|)
        invariant at == head <==> |seen| == |Listing()|
        decreases |Listing()| - |seen|
      {
        seen := seen + [at];
        var ok;
        ok, at := Next(at, |seen| - 1);
        FirstItem(Snap(nodes), head, tree, |seen|);
      }
    }
  }
}
