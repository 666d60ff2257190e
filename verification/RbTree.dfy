/** Red-black trees as values: trees, the context around a subtree, and what insertion and erasure do
    to them. A tree holds the map's node objects, which never exchange their keys. */
module RbTree {

  datatype Color = Red | Black

  /** A node of the map: the key stays with the node, the links and the colour change. */
  class Node {
    const key: int
    const value: int
    var color: Color
    var parent: Node?
    var left: Node?
    var right: Node?

    constructor (key: int, value: int, color: Color, parent: Node?)
      ensures this.key == key && this.value == value
      ensures this.color == color && this.parent == parent && left == null && right == null
    {
      this.key, this.value, this.color, this.parent, left, right := key, value, color, parent, null, null;
    }
  }

  datatype Tree = Leaf | T(l: Tree, n: Node, c: Color, r: Tree)

  /** What surrounds a subtree: it is the left or the right child of a node, and so on up to the top. */
  datatype Ctx = Top | InLeft(n: Node, c: Color, r: Tree, up: Ctx) | InRight(l: Tree, n: Node, c: Color, up: Ctx)

  ghost function Plug(ctx: Ctx, t: Tree): Tree {
    match ctx
    case Top => t
    case InLeft(n, c, r, up) => Plug(up, T(t, n, c, r))
    case InRight(l, n, c, up) => Plug(up, T(l, n, c, t))
  }

  /** One level up: the subtree together with the node above it. */
  ghost function Grow(ctx: Ctx, t: Tree): (r: Tree)
    requires ctx != Top
    ensures r.T? && r.n == ctx.n && r.c == ctx.c && Plug(ctx.up, r) == Plug(ctx, t)
  {
    if ctx.InLeft? then T(t, ctx.n, ctx.c, ctx.r) else T(ctx.l, ctx.n, ctx.c, t)
  }

  // ----- order

  ghost function Inorder(t: Tree): seq<Node> {
    match t
    case Leaf => []
    case T(l, n, _, r) => Inorder(l) + [n] + Inorder(r)
  }

  /** The nodes before and after the hole of a context. */
  ghost function Before(ctx: Ctx): seq<Node> {
    match ctx
    case Top => []
    case InLeft(n, c, r, up) => Before(up)
    case InRight(l, n, c, up) => Before(up) + Inorder(l) + [n]
  }

  ghost function After(ctx: Ctx): seq<Node> {
    match ctx
    case Top => []
    case InLeft(n, c, r, up) => [n] + Inorder(r) + After(up)
    case InRight(l, n, c, up) => After(up)
  }

  lemma {:induction false} Assoc(a: seq<Node>, b: seq<Node>, c: seq<Node>, d: seq<Node>, e: seq<Node>)
    ensures (a + b + c) + d + e == a + b + (c + d + e)
    ensures a + (b + c + d) + e == a + b + (c + d + e)
    ensures a + (b + c + d) + e == (a + b + c) + d + e
  {
  }

  lemma {:induction false} PlugInorder(ctx: Ctx, t: Tree)
    ensures Inorder(Plug(ctx, t)) == Before(ctx) + Inorder(t) + After(ctx)
  {
    match ctx
    case Top =>
    case InLeft(n, c, r, up) =>
      PlugInorder(up, T(t, n, c, r));
      Assoc(Before(up), Inorder(t), [n], Inorder(r), After(up));
    case InRight(l, n, c, up) =>
      PlugInorder(up, T(l, n, c, t));
      Assoc(Before(up), Inorder(l), [n], Inorder(t), After(up));
  }

  /** A rotation keeps the order, and colours do not matter to it. */
  lemma {:induction false} RotateInorder(a: Tree, p: Node, b: Tree, g: Node, d: Tree, c1: Color, c2: Color, c3: Color, c4: Color)
    ensures Inorder(T(T(a, p, c1, b), g, c2, d)) == Inorder(T(a, p, c3, T(b, g, c4, d)))
  {
    Assoc(Inorder(a), [p], Inorder(b), [g], Inorder(d));
  }

  // ----- colours

  predicate IsRed(t: Tree) { t.T? && t.c == Red }

  function Rank(c: Color): nat { if c == Black then 1 else 0 }

  /** Every path from the root down has the same number of black nodes. */
  ghost predicate Even(t: Tree) {
    t.T? ==> Even(t.l) && Even(t.r) && Height(t.l) == Height(t.r)
  }

  ghost function Height(t: Tree): nat {
    match t
    case Leaf => 0
    case T(l, _, c, _) => Height(l) + Rank(c)
  }

  /** No red node has a red child. */
  ghost predicate NoRedRed(t: Tree) {
    t.T? ==> NoRedRed(t.l) && NoRedRed(t.r) && (t.c == Red ==> !IsRed(t.l) && !IsRed(t.r))
  }

  ghost predicate RedBlack(t: Tree) { Even(t) && NoRedRed(t) && !IsRed(t) }

  /** The context is even around any even tree of height `k`. */
  ghost predicate EvenCtx(ctx: Ctx, k: nat) {
    match ctx
    case Top => true
    case InLeft(_, c, r, up) => Even(r) && Height(r) == k && EvenCtx(up, k + Rank(c))
    case InRight(l, _, c, up) => Even(l) && Height(l) == k && EvenCtx(up, k + Rank(c))
  }

  /** The context has no red node with a red child, around a root that is red or not, and a black top. */
  ghost predicate CalmCtx(ctx: Ctx, red: bool) {
    match ctx
    case Top => !red
    case InLeft(_, c, r, up) => NoRedRed(r) && (c == Red ==> !red && !IsRed(r)) && CalmCtx(up, c == Red)
    case InRight(l, _, c, up) => NoRedRed(l) && (c == Red ==> !red && !IsRed(l)) && CalmCtx(up, c == Red)
  }

  lemma {:induction false} PlugRedBlack(ctx: Ctx, t: Tree)
    requires Even(t) && NoRedRed(t) && EvenCtx(ctx, Height(t)) && CalmCtx(ctx, IsRed(t))
    ensures RedBlack(Plug(ctx, t))
  {
    match ctx
    case Top =>
    case InLeft(n, c, r, up) => PlugRedBlack(up, T(t, n, c, r));
    case InRight(l, n, c, up) => PlugRedBlack(up, T(l, n, c, t));
  }

  /** Taking a red-black tree apart at any place. */
  lemma {:induction false} UnplugRedBlack(ctx: Ctx, t: Tree)
    requires RedBlack(Plug(ctx, t))
    ensures Even(t) && NoRedRed(t) && EvenCtx(ctx, Height(t)) && CalmCtx(ctx, IsRed(t))
  {
    match ctx
    case Top =>
    case InLeft(n, c, r, up) => UnplugRedBlack(up, T(t, n, c, r));
    case InRight(l, n, c, up) => UnplugRedBlack(up, T(l, n, c, t));
  }

  /** A context that is calm around a red root is calm around a black one, unless it is the top alone. */
  lemma {:induction false} CalmBlack(ctx: Ctx, red: bool)
    requires CalmCtx(ctx, red)
    ensures CalmCtx(ctx, false)
  {
  }

  // ----- insertion

  /** The tree after the repair that starts at the red root of `t` in context `ctx`. */
  ghost function FixInsert(ctx: Ctx, t: Tree): Tree
    requires IsRed(t)
    decreases ctx, 0
  {
    match ctx
    case InLeft(p, Red, s, InLeft(g, gc, u, up)) =>
      if IsRed(u) then RecolourUp(up, T(T(t, p, Black, s), g, Red, u.(c := Black)))
      else Plug(up, T(t, p, Black, T(s, g, Red, u)))
    case InRight(s, p, Red, InRight(u, g, gc, up)) =>
      if IsRed(u) then RecolourUp(up, T(u.(c := Black), g, Red, T(s, p, Black, t)))
      else Plug(up, T(T(u, g, Red, s), p, Black, t))
    case InRight(s, p, Red, InLeft(g, gc, u, up)) =>
      if IsRed(u) then RecolourUp(up, T(T(s, p, Black, t), g, Red, u.(c := Black)))
      else Plug(up, T(T(s, p, Red, t.l), t.n, Black, T(t.r, g, Red, u)))
    case InLeft(p, Red, s, InRight(u, g, gc, up)) =>
      if IsRed(u) then RecolourUp(up, T(u.(c := Black), g, Red, T(t, p, Black, s)))
      else Plug(up, T(T(u, g, Red, t.l), t.n, Black, T(t.r, p, Red, s)))
    case _ => Plug(ctx, t)
  }

  /** A red root under a red node has a black grandparent; under a black node nothing is to be done. */
  lemma {:induction false} CalmUp(ctx: Ctx, t: Tree)
    requires IsRed(t) && ctx != Top && CalmCtx(ctx, false)
    ensures ctx.c == Red ==> ctx.up != Top && ctx.up.c == Black && CalmCtx(ctx.up.up, false)
    ensures ctx.c == Black ==> FixInsert(ctx, t) == Plug(ctx, t)
  {
    if ctx.c == Red { CalmBlack(ctx.up.up, false); }
  }

  /** The red uncle case passes the red root `t` on, or blackens it at the top. */
  ghost function RecolourUp(up: Ctx, t: Tree): Tree
    requires IsRed(t)
    decreases up, 1
  {
    if up == Top then t.(c := Black) else FixInsert(up, t)
  }

  /** The repair ends in a red-black tree. */
  lemma {:induction false} FixInsertRedBlack(ctx: Ctx, t: Tree)
    requires IsRed(t) && Even(t) && NoRedRed(t) && ctx != Top
    requires EvenCtx(ctx, Height(t)) && CalmCtx(ctx, false)
    ensures RedBlack(FixInsert(ctx, t))
    decreases ctx, 0
  {
    match ctx
    case InLeft(p, Red, s, InLeft(g, gc, u, up)) =>
      if IsRed(u) { RecolourRedBlack(up, T(T(t, p, Black, s), g, Red, u.(c := Black))); }
      else { PlugRedBlack(up, T(t, p, Black, T(s, g, Red, u))); }
    case InRight(s, p, Red, InRight(u, g, gc, up)) =>
      if IsRed(u) { RecolourRedBlack(up, T(u.(c := Black), g, Red, T(s, p, Black, t))); }
      else { PlugRedBlack(up, T(T(u, g, Red, s), p, Black, t)); }
    case InRight(s, p, Red, InLeft(g, gc, u, up)) =>
      if IsRed(u) { RecolourRedBlack(up, T(T(s, p, Black, t), g, Red, u.(c := Black))); }
      else { PlugRedBlack(up, T(T(s, p, Red, t.l), t.n, Black, T(t.r, g, Red, u))); }
    case InLeft(p, Red, s, InRight(u, g, gc, up)) =>
      if IsRed(u) { RecolourRedBlack(up, T(u.(c := Black), g, Red, T(t, p, Black, s))); }
      else { PlugRedBlack(up, T(T(u, g, Red, t.l), t.n, Black, T(t.r, p, Red, s))); }
    case _ => PlugRedBlack(ctx, t);
  }

  lemma {:induction false} RecolourRedBlack(up: Ctx, t: Tree)
    requires IsRed(t) && Even(t) && NoRedRed(t) && EvenCtx(up, Height(t)) && CalmCtx(up, false)
    ensures RedBlack(RecolourUp(up, t))
    decreases up, 1
  {
    if up != Top { FixInsertRedBlack(up, t); }
  }

  /** The repair keeps the order of the nodes. */
  lemma {:induction false} FixInsertInorder(ctx: Ctx, t: Tree)
    requires IsRed(t)
    ensures Inorder(FixInsert(ctx, t)) == Inorder(Plug(ctx, t))
    decreases ctx, 0
  {
    hide Inorder;
    match ctx
    case InLeft(p, Red, s, InLeft(g, gc, u, up)) =>
      var was := T(T(t, p, Red, s), g, gc, u);
      RotateInorder(t, p, s, g, u, Red, gc, Black, Red);
      if IsRed(u) { SameColoured(T(t, p, Red, s), g, gc, u); RecolourInorder(up, T(T(t, p, Black, s), g, Red, u.(c := Black)), was); }
      else { SameInorder(up, T(t, p, Black, T(s, g, Red, u)), was); }
    case InRight(s, p, Red, InRight(u, g, gc, up)) =>
      var was := T(u, g, gc, T(s, p, Red, t));
      RotateInorder(u, g, s, p, t, Red, Black, gc, Red);
      if IsRed(u) { SameColoured(u, g, gc, T(s, p, Red, t)); RecolourInorder(up, T(u.(c := Black), g, Red, T(s, p, Black, t)), was); }
      else { SameInorder(up, T(T(u, g, Red, s), p, Black, t), was); }
    case InRight(s, p, Red, InLeft(g, gc, u, up)) =>
      var was := T(T(s, p, Red, t), g, gc, u);
      if IsRed(u) { SameColoured(T(s, p, Red, t), g, gc, u); RecolourInorder(up, T(T(s, p, Black, t), g, Red, u.(c := Black)), was); }
      else {
        RotateInorder(s, p, t.l, t.n, t.r, Red, t.c, Red, t.c);
        SameChildren(T(s, p, Red, t), T(T(s, p, Red, t.l), t.n, t.c, t.r), g, gc, u);
        RotateInorder(T(s, p, Red, t.l), t.n, t.r, g, u, t.c, gc, Black, Red);
        SameInorder(up, T(T(s, p, Red, t.l), t.n, Black, T(t.r, g, Red, u)), was);
      }
    case InLeft(p, Red, s, InRight(u, g, gc, up)) =>
      var was := T(u, g, gc, T(t, p, Red, s));
      if IsRed(u) { SameColoured(u, g, gc, T(t, p, Red, s)); RecolourInorder(up, T(u.(c := Black), g, Red, T(t, p, Black, s)), was); }
      else {
        RotateInorder(t.l, t.n, t.r, p, s, t.c, Red, t.c, Red);
        SameRight(u, g, gc, T(t, p, Red, s), T(t.l, t.n, t.c, T(t.r, p, Red, s)));
        RotateInorder(u, g, t.l, t.n, T(t.r, p, Red, s), Red, Black, gc, t.c);
        SameInorder(up, T(T(u, g, Red, t.l), t.n, Black, T(t.r, p, Red, s)), was);
      }
    case _ =>
  }

  /** Recolouring a node and its two children keeps the order. */
  lemma {:induction false} SameColoured(l: Tree, n: Node, c: Color, r: Tree)
    requires l.T? && r.T?
    ensures Inorder(T(l.(c := Black), n, Red, r.(c := Black))) == Inorder(T(l, n, c, r))
  {
  }

  lemma {:induction false} SameChildren(l: Tree, l': Tree, n: Node, c: Color, r: Tree)
    requires Inorder(l) == Inorder(l')
    ensures Inorder(T(l, n, c, r)) == Inorder(T(l', n, c, r))
  {
  }

  lemma {:induction false} SameRight(l: Tree, n: Node, c: Color, r: Tree, r': Tree)
    requires Inorder(r) == Inorder(r')
    ensures Inorder(T(l, n, c, r)) == Inorder(T(l, n, c, r'))
  {
  }

  lemma {:induction false} RecolourInorder(up: Ctx, t: Tree, was: Tree)
    requires IsRed(t) && Inorder(t) == Inorder(was)
    ensures Inorder(RecolourUp(up, t)) == Inorder(Plug(up, was))
    decreases up, 1
  {
    SameInorder(up, t, was);
    if up != Top { FixInsertInorder(up, t); }
  }

  lemma {:induction false} SameInorder(up: Ctx, t: Tree, was: Tree)
    requires Inorder(t) == Inorder(was)
    ensures Inorder(Plug(up, t)) == Inorder(Plug(up, was))
  {
    PlugInorder(up, t);
    PlugInorder(up, was);
  }

  // ----- erasure

  /** The context after the repair that makes its hole one black node shallower. */
  ghost function FixErase(ctx: Ctx): Ctx {
    match ctx
    case Top => Top
    case InLeft(p, c, s, up) =>
      if IsRed(s) then FixBlackLeft(p, Red, s.l, InLeft(s.n, Black, s.r, up), Top)
      else FixBlackLeft(p, c, s, up, FixErase(up))
    case InRight(s, p, c, up) =>
      if IsRed(s) then FixBlackRight(s.r, p, Red, InRight(s.l, s.n, Black, up), Top)
      else FixBlackRight(s, p, c, up, FixErase(up))
  }

  /** The cases of a hole left of `p` whose sibling `s` is black; `fixed` is `up` repaired. */
  ghost function FixBlackLeft(p: Node, c: Color, s: Tree, up: Ctx, fixed: Ctx): Ctx {
    if s.Leaf? then InLeft(p, c, s, up)
    else if IsRed(s.l) then InLeft(p, Black, s.l.l, InLeft(s.l.n, c, T(s.l.r, s.n, s.c, s.r), up))
    else if IsRed(s.r) then InLeft(p, Black, s.l, InLeft(s.n, c, s.r.(c := Black), up))
    else InLeft(p, Black, s.(c := Red), if c == Red then up else fixed)
  }

  ghost function FixBlackRight(s: Tree, p: Node, c: Color, up: Ctx, fixed: Ctx): Ctx {
    if s.Leaf? then InRight(s, p, c, up)
    else if IsRed(s.l) then InRight(s.r, p, Black, InRight(s.l.(c := Black), s.n, c, up))
    else if IsRed(s.r) then InRight(s.r.r, p, Black, InRight(T(s.l, s.n, s.c, s.r.l), s.r.n, c, up))
    else InRight(s.(c := Red), p, Black, if c == Red then up else fixed)
  }

  lemma {:induction false} Opened(t: Tree)
    requires (t.T? || Height(t) > 0) && Even(t) && NoRedRed(t)
    ensures t.T? && Even(t.l) && Even(t.r) && Height(t.l) == Height(t.r) && Height(t) == Height(t.l) + Rank(t.c)
    ensures NoRedRed(t.l) && NoRedRed(t.r) && (t.c == Red ==> !IsRed(t.l) && !IsRed(t.r))
  {
  }

  lemma {:induction false} Joined(l: Tree, n: Node, c: Color, r: Tree)
    requires Even(l) && Even(r) && Height(l) == Height(r) && NoRedRed(l) && NoRedRed(r)
    requires c == Red ==> !IsRed(l) && !IsRed(r)
    ensures Even(T(l, n, c, r)) && NoRedRed(T(l, n, c, r)) && Height(T(l, n, c, r)) == Height(l) + Rank(c)
  {
  }

  lemma {:induction false} GoodLeft(n: Node, c: Color, r: Tree, up: Ctx, k: nat)
    requires Even(r) && NoRedRed(r) && Height(r) == k && (c == Red ==> !IsRed(r))
    requires EvenCtx(up, k + Rank(c)) && CalmCtx(up, c == Red)
    ensures EvenCtx(InLeft(n, c, r, up), k) && CalmCtx(InLeft(n, c, r, up), false)
    ensures c == Black ==> CalmCtx(InLeft(n, c, r, up), true)
  {
  }

  lemma {:induction false} GoodRight(l: Tree, n: Node, c: Color, up: Ctx, k: nat)
    requires Even(l) && NoRedRed(l) && Height(l) == k && (c == Red ==> !IsRed(l))
    requires EvenCtx(up, k + Rank(c)) && CalmCtx(up, c == Red)
    ensures EvenCtx(InRight(l, n, c, up), k) && CalmCtx(InRight(l, n, c, up), false)
    ensures c == Black ==> CalmCtx(InRight(l, n, c, up), true)
  {
  }

  lemma {:induction false} FixBlackLeftGood(p: Node, c: Color, s: Tree, up: Ctx, fixed: Ctx, k: nat)
    requires k > 0 && Even(s) && NoRedRed(s) && !IsRed(s) && Height(s) == k
    requires EvenCtx(up, k + Rank(c)) && CalmCtx(up, c == Red)
    requires c == Black ==> EvenCtx(fixed, k) && CalmCtx(fixed, false)
    ensures EvenCtx(FixBlackLeft(p, c, s, up, fixed), k - 1) && CalmCtx(FixBlackLeft(p, c, s, up, fixed), false)
  {
    hide Even, NoRedRed, EvenCtx, CalmCtx, Height;
    CalmBlack(up, c == Red);
    Opened(s);
    if IsRed(s.l) {
      Opened(s.l);
      Joined(s.l.r, s.n, s.c, s.r);
      GoodLeft(s.l.n, c, T(s.l.r, s.n, s.c, s.r), up, k);
      GoodLeft(p, Black, s.l.l, InLeft(s.l.n, c, T(s.l.r, s.n, s.c, s.r), up), k - 1);
    } else if IsRed(s.r) {
      Opened(s.r);
      Joined(s.r.l, s.r.n, Black, s.r.r);
      GoodLeft(s.n, c, s.r.(c := Black), up, k);
      GoodLeft(p, Black, s.l, InLeft(s.n, c, s.r.(c := Black), up), k - 1);
    } else {
      Joined(s.l, s.n, Red, s.r);
      GoodLeft(p, Black, s.(c := Red), if c == Red then up else fixed, k - 1);
    }
  }

  lemma {:induction false} FixBlackRightGood(s: Tree, p: Node, c: Color, up: Ctx, fixed: Ctx, k: nat)
    requires k > 0 && Even(s) && NoRedRed(s) && !IsRed(s) && Height(s) == k
    requires EvenCtx(up, k + Rank(c)) && CalmCtx(up, c == Red)
    requires c == Black ==> EvenCtx(fixed, k) && CalmCtx(fixed, false)
    ensures EvenCtx(FixBlackRight(s, p, c, up, fixed), k - 1) && CalmCtx(FixBlackRight(s, p, c, up, fixed), false)
  {
    hide Even, NoRedRed, EvenCtx, CalmCtx, Height;
    CalmBlack(up, c == Red);
    Opened(s);
    if IsRed(s.l) {
      Opened(s.l);
      Joined(s.l.l, s.l.n, Black, s.l.r);
      GoodRight(s.l.(c := Black), s.n, c, up, k);
      GoodRight(s.r, p, Black, InRight(s.l.(c := Black), s.n, c, up), k - 1);
    } else if IsRed(s.r) {
      Opened(s.r);
      Joined(s.l, s.n, s.c, s.r.l);
      GoodRight(T(s.l, s.n, s.c, s.r.l), s.r.n, c, up, k);
      GoodRight(s.r.r, p, Black, InRight(T(s.l, s.n, s.c, s.r.l), s.r.n, c, up), k - 1);
    } else {
      Joined(s.l, s.n, Red, s.r);
      GoodRight(s.(c := Red), p, Black, if c == Red then up else fixed, k - 1);
    }
  }

  /** The repaired context is even and calm around a tree one black node shallower. */
  lemma {:induction false} FixEraseGood(ctx: Ctx, k: nat)
    requires k > 0 && EvenCtx(ctx, k) && CalmCtx(ctx, false)
    ensures EvenCtx(FixErase(ctx), k - 1) && CalmCtx(FixErase(ctx), false)
  {
    match ctx
    case Top =>
    case InLeft(p, c, s, up) =>
      if IsRed(s) {
        FixBlackLeftGood(p, Red, s.l, InLeft(s.n, Black, s.r, up), Top, k);
      } else {
        if c == Black { FixEraseGood(up, k + 1); }
        FixBlackLeftGood(p, c, s, up, FixErase(up), k);
      }
    case InRight(s, p, c, up) =>
      if IsRed(s) {
        FixBlackRightGood(s.r, p, Red, InRight(s.l, s.n, Black, up), Top, k);
      } else {
        if c == Black { FixEraseGood(up, k + 1); }
        FixBlackRightGood(s, p, c, up, FixErase(up), k);
      }
  }

  /** The subtree beside the hole. */
  ghost function Sibling(ctx: Ctx): Tree
    requires ctx != Top
  {
    if ctx.InLeft? then ctx.r else ctx.l
  }

  /** The context after a red sibling has been turned up over the parent. */
  ghost function SiblingUp(ctx: Ctx): Ctx
    requires ctx != Top && IsRed(Sibling(ctx))
  {
    var s := Sibling(ctx);
    if ctx.InLeft? then InLeft(ctx.n, Red, s.l, InLeft(s.n, Black, s.r, ctx.up))
    else InRight(s.r, ctx.n, Red, InRight(s.l, s.n, Black, ctx.up))
  }

  /** It has a black sibling, and leads to the same repair. */
  lemma {:induction false} SiblingUpGood(ctx: Ctx, k: nat)
    requires k > 0 && ctx != Top && IsRed(Sibling(ctx)) && EvenCtx(ctx, k) && CalmCtx(ctx, false)
    ensures EvenCtx(SiblingUp(ctx), k) && CalmCtx(SiblingUp(ctx), false)
    ensures !IsRed(Sibling(SiblingUp(ctx))) && FixErase(SiblingUp(ctx)) == FixErase(ctx)
  {
    var s := Sibling(ctx);
    Opened(s);
    if ctx.InLeft? {
      GoodLeft(s.n, Black, s.r, ctx.up, k);
      GoodLeft(ctx.n, Red, s.l, InLeft(s.n, Black, s.r, ctx.up), k);
    } else {
      GoodRight(s.l, s.n, Black, ctx.up, k);
      GoodRight(s.r, ctx.n, Red, InRight(s.l, s.n, Black, ctx.up), k);
    }
  }

  /** What the black sibling looks like, and the step that passes the missing black up. */
  lemma {:induction false} BlackSibling(ctx: Ctx, t: Tree, k: nat)
    requires k > 0 && ctx != Top && !IsRed(Sibling(ctx)) && EvenCtx(ctx, k) && CalmCtx(ctx, false)
    ensures Sibling(ctx).T? && Sibling(ctx).c == Black
    ensures var s := Sibling(ctx);
      !IsRed(s.l) && !IsRed(s.r) ==>
        var up := if ctx.c == Red then ctx.up else FixErase(ctx.up);
        FixErase(ctx) == if ctx.InLeft? then InLeft(ctx.n, Black, s.(c := Red), up) else InRight(s.(c := Red), ctx.n, Black, up)
    ensures EvenCtx(ctx.up, k + Rank(ctx.c)) && CalmCtx(ctx.up, false)
  {
    CalmBlack(ctx.up, ctx.c == Red);
  }

  lemma {:induction false} FixBlackLeftInorder(p: Node, c: Color, s: Tree, up: Ctx, fixed: Ctx)
    requires c == Black ==> Before(fixed) == Before(up) && After(fixed) == After(up)
    ensures Before(FixBlackLeft(p, c, s, up, fixed)) == Before(InLeft(p, c, s, up))
    ensures After(FixBlackLeft(p, c, s, up, fixed)) == After(InLeft(p, c, s, up))
  {
    if s.T? && IsRed(s.l) {
      RotateInorder(s.l.l, s.l.n, s.l.r, s.n, s.r, s.l.c, s.c, s.c, s.c);
      AfterSplit(p, s.l.l, s.l.n, T(s.l.r, s.n, s.c, s.r), up);
    } else if s.T? {
      AfterSplit(p, s.l, s.n, s.r, up);
    }
  }

  lemma {:induction false} AfterSplit(p: Node, l: Tree, n: Node, r: Tree, up: Ctx)
    ensures [p] + (Inorder(l) + [n] + Inorder(r)) + After(up) == [p] + Inorder(l) + ([n] + Inorder(r) + After(up))
  {
  }

  lemma {:induction false} FixBlackRightInorder(s: Tree, p: Node, c: Color, up: Ctx, fixed: Ctx)
    requires c == Black ==> Before(fixed) == Before(up) && After(fixed) == After(up)
    ensures Before(FixBlackRight(s, p, c, up, fixed)) == Before(InRight(s, p, c, up))
    ensures After(FixBlackRight(s, p, c, up, fixed)) == After(InRight(s, p, c, up))
  {
    if s.T? && !IsRed(s.l) && IsRed(s.r) {
      RotateInorder(s.l, s.n, s.r.l, s.r.n, s.r.r, s.c, s.r.c, s.c, s.r.c);
      BeforeSplit(up, T(s.l, s.n, s.c, s.r.l), s.r.n, s.r.r, p);
    } else if s.T? {
      BeforeSplit(up, s.l, s.n, s.r, p);
    }
  }

  lemma {:induction false} BeforeSplit(up: Ctx, l: Tree, n: Node, r: Tree, p: Node)
    ensures Before(up) + (Inorder(l) + [n] + Inorder(r)) + [p] == (Before(up) + Inorder(l) + [n]) + Inorder(r) + [p]
  {
  }

  /** The repair moves no node past the hole. */
  lemma {:induction false} FixEraseInorder(ctx: Ctx)
    ensures Before(FixErase(ctx)) == Before(ctx) && After(FixErase(ctx)) == After(ctx)
  {
    match ctx
    case Top =>
    case InLeft(p, c, s, up) =>
      FixEraseInorder(up);
      if IsRed(s) {
        FixBlackLeftInorder(p, Red, s.l, InLeft(s.n, Black, s.r, up), Top);
        AfterSplit(p, s.l, s.n, s.r, up);
      } else {
        FixBlackLeftInorder(p, c, s, up, FixErase(up));
      }
    case InRight(s, p, c, up) =>
      FixEraseInorder(up);
      if IsRed(s) {
        FixBlackRightInorder(s.r, p, Red, InRight(s.l, s.n, Black, up), Top);
        BeforeSplit(up, s.l, s.n, s.r, p);
      } else {
        FixBlackRightInorder(s, p, c, up, FixErase(up));
      }
  }
}
