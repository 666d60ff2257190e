/** Binomial forests in memory: when the links of a set of nodes show a list of trees, and the relinkings
    of the priority queue on what is shown. */
module BinomialHeap {
  import opened Binomial

  datatype Cell = Cell(degree: nat, child: Node?, next: Node?)
  type Memory = map<Node, Cell>

  ghost function Snap(nodes: set<Node>): Memory
    reads nodes
  {
    map n | n in nodes :: Cell(n.degree, n.child, n.next)
  }

  function Ptr(f: Forest): Node? { if f.Nil? then null else f.n }

  ghost predicate Rep(h: Memory, f: Forest) {
    f.Cons? ==> f.n in h && h[f.n] == Cell(f.degree, Ptr(f.kids), Ptr(f.rest)) && Rep(h, f.kids) && Rep(h, f.rest)
  }

  ghost function Nodes(f: Forest): set<Node> {
    if f.Nil? then {} else {f.n} + Nodes(f.kids) + Nodes(f.rest)
  }

  ghost predicate Sep(f: Forest) {
    f.Cons? ==> f.n !in Nodes(f.kids) && f.n !in Nodes(f.rest) && Nodes(f.kids) !! Nodes(f.rest) && Sep(f.kids) && Sep(f.rest)
  }

  /** The trees before a place in the list, the nearest first. */
  datatype Ctx = Head | After(n: Node, degree: nat, kids: Forest, up: Ctx)

  ghost function Plug(ctx: Ctx, f: Forest): Forest {
    match ctx
    case Head => f
    case After(n, degree, kids, up) => Plug(up, Cons(n, degree, kids, f))
  }

  /** From `root` the list leads over the context to the link `hole`. */
  ghost predicate RepCtx(h: Memory, root: Node?, ctx: Ctx, hole: Node?) {
    match ctx
    case Head => root == hole
    case After(n, degree, kids, up) => n in h && h[n] == Cell(degree, Ptr(kids), hole) && Rep(h, kids) && RepCtx(h, root, up, n)
  }

  ghost function CtxNodes(ctx: Ctx): set<Node> {
    match ctx
    case Head => {}
    case After(n, _, kids, up) => {n} + Nodes(kids) + CtxNodes(up)
  }

  ghost predicate SepCtx(ctx: Ctx) {
    match ctx
    case Head => true
    case After(n, _, kids, up) => n !in Nodes(kids) && n !in CtxNodes(up) && Nodes(kids) !! CtxNodes(up) && Sep(kids) && SepCtx(up)
  }

  ghost predicate Shown(h: Memory, root: Node?, ctx: Ctx, f: Forest) {
    Rep(h, f) && RepCtx(h, root, ctx, Ptr(f)) && Sep(f) && SepCtx(ctx) && Nodes(f) !! CtxNodes(ctx)
  }

  lemma {:induction false} Zip(h: Memory, root: Node?, n: Node, degree: nat, kids: Forest, up: Ctx, f: Forest)
    ensures Shown(h, root, After(n, degree, kids, up), f) <==> Shown(h, root, up, Cons(n, degree, kids, f))
  {
  }

  lemma {:induction false} PlugShown(h: Memory, root: Node?, ctx: Ctx, f: Forest)
    ensures Shown(h, root, ctx, f) <==> Shown(h, root, Head, Plug(ctx, f))
  {
    hide Shown;
    if ctx.After? {
      Zip(h, root, ctx.n, ctx.degree, ctx.kids, ctx.up, f);
      PlugShown(h, root, ctx.up, Cons(ctx.n, ctx.degree, ctx.kids, f));
    }
  }

  lemma {:induction false} Look(h: Memory, root: Node?, ctx: Ctx, f: Forest)
    requires Shown(h, root, ctx, f)
    ensures ctx == Head ==> root == Ptr(f)
    ensures ctx.After? ==> ctx.n in h && h[ctx.n] == Cell(ctx.degree, Ptr(ctx.kids), Ptr(f)) && ctx.n !in Nodes(f)
    ensures f.Cons? ==> f.n in h && h[f.n] == Cell(f.degree, Ptr(f.kids), Ptr(f.rest)) && f.n !in CtxNodes(ctx)
    ensures f.Cons? && f.rest.Cons? ==> f.rest.n in h && f.rest.n != f.n && f.rest.n !in CtxNodes(ctx)
                                        && h[f.rest.n] == Cell(f.rest.degree, Ptr(f.rest.kids), Ptr(f.rest.rest))
    ensures f.Cons? && f.rest.Cons? && f.rest.rest.Cons? ==>
              f.rest.rest.n in h && h[f.rest.rest.n] == Cell(f.rest.rest.degree, Ptr(f.rest.rest.kids), Ptr(f.rest.rest.rest))
  {
    if f.Cons? && f.rest.Cons? {
      assert Rep(h, f.rest) && Rep(h, f.rest.rest);
      assert f.rest.n in Nodes(f.rest);
    }
  }

  // ----- frames

  ghost predicate Same(h: Memory, h': Memory, s: set<Node>) {
    forall n :: n in s ==> n in h && n in h' && h'[n] == h[n]
  }

  lemma {:induction false} Frame(h: Memory, h': Memory, f: Forest)
    requires Rep(h, f) && Same(h, h', Nodes(f))
    ensures Rep(h', f)
  {
    if f.Cons? {
      Frame(h, h', f.kids);
      Frame(h, h', f.rest);
    }
  }

  lemma {:induction false} FrameCtx(h: Memory, h': Memory, root: Node?, ctx: Ctx, hole: Node?)
    requires RepCtx(h, root, ctx, hole) && Same(h, h', CtxNodes(ctx))
    ensures RepCtx(h', root, ctx, hole)
  {
    if ctx.After? {
      Frame(h, h', ctx.kids);
      FrameCtx(h, h', root, ctx.up, ctx.n);
    }
  }

  /** Another list behind the context: the last node before it, or the root, leads there. */
  lemma {:induction false} Rehang(h: Memory, h': Memory, root: Node?, ctx: Ctx, hole: Node?, f: Forest)
    requires RepCtx(h, root, ctx, hole) && SepCtx(ctx) && Rep(h', f) && Sep(f) && Nodes(f) !! CtxNodes(ctx)
    requires ctx.After? ==> ctx.n in h && ctx.n in h' && h'[ctx.n] == h[ctx.n].(next := Ptr(f)) && Same(h, h', CtxNodes(ctx) - {ctx.n})
    ensures Shown(h', if ctx.Head? then Ptr(f) else root, ctx, f)
  {
    if ctx.After? {
      Frame(h, h', ctx.kids);
      FrameCtx(h, h', root, ctx.up, ctx.n);
    }
  }

  // ----- combining two neighbours

  /** The memory after the first tree has taken the second as its first child. */
  ghost function KeptFirst(h: Memory, a: Node, b: Node): Memory
    requires a in h && b in h
  {
    h[a := Cell(h[a].degree + 1, b, h[b].next)][b := Cell(h[b].degree, h[b].child, h[a].child)]
  }

  /** The memory after the second tree has taken the first as its first child. */
  ghost function KeptSecond(h: Memory, prev: Node?, a: Node, b: Node): Memory
    requires a in h && b in h && (prev != null ==> prev in h)
  {
    var h1 := h[b := Cell(h[b].degree + 1, a, h[b].next)][a := Cell(h[a].degree, h[a].child, h[b].child)];
    if prev == null then h1 else h1[prev := h1[prev].(next := b)]
  }

  lemma {:induction false} SepCombined(f: Forest)
    requires f.Cons? && f.rest.Cons? && Sep(f)
    ensures Sep(Combined(f)) && Nodes(Combined(f)) == Nodes(f)
    ensures var b := f.rest;
      && f.n != b.n && f.n !in Nodes(f.kids) && f.n !in Nodes(b.kids) && f.n !in Nodes(b.rest)
      && b.n !in Nodes(f.kids) && b.n !in Nodes(b.kids) && b.n !in Nodes(b.rest)
  {
    var b := f.rest;
    assert Nodes(b) == {b.n} + Nodes(b.kids) + Nodes(b.rest);
    var a1 := Cons(f.n, f.degree, f.kids, b.kids);
    var b1 := Cons(b.n, b.degree, b.kids, f.kids);
    assert Nodes(a1) == {f.n} + Nodes(f.kids) + Nodes(b.kids) && Nodes(b1) == {b.n} + Nodes(b.kids) + Nodes(f.kids);
  }

  lemma {:induction false} FirstKept(h: Memory, root: Node?, ctx: Ctx, f: Forest)
    requires f.Cons? && f.rest.Cons? && Shown(h, root, ctx, f) && f.n.key >= f.rest.n.key && f.n in h && f.rest.n in h
    ensures Shown(KeptFirst(h, f.n, f.rest.n), root, ctx, Combined(f))
  {
    hide Sep, Nodes;
    var h', b := KeptFirst(h, f.n, f.rest.n), f.rest;
    SepCombined(f);
    Look(h, root, ctx, f);
    assert Rep(h, b);
    ShownParts(h, root, ctx, f);
    Frame(h, h', f.kids);
    Frame(h, h', b.kids);
    Frame(h, h', b.rest);
    assert Rep(h', Cons(b.n, b.degree, b.kids, f.kids));
    Rehang(h, h', root, ctx, f.n, Combined(f));
  }

  lemma {:induction false} SecondKept(h: Memory, root: Node?, ctx: Ctx, f: Forest)
    requires f.Cons? && f.rest.Cons? && Shown(h, root, ctx, f) && f.n.key < f.rest.n.key && f.n in h && f.rest.n in h
    requires ctx.After? ==> ctx.n in h
    ensures Shown(KeptSecond(h, if ctx.Head? then null else ctx.n, f.n, f.rest.n), if ctx.Head? then f.rest.n else root, ctx, Combined(f))
  {
    hide Sep, Nodes;
    var h', b := KeptSecond(h, if ctx.Head? then null else ctx.n, f.n, f.rest.n), f.rest;
    SepCombined(f);
    Look(h, root, ctx, f);
    assert Rep(h, b);
    ShownParts(h, root, ctx, f);
    Frame(h, h', f.kids);
    Frame(h, h', b.kids);
    Frame(h, h', b.rest);
    assert Rep(h', Cons(f.n, f.degree, f.kids, b.kids));
    Rehang(h, h', root, ctx, f.n, Combined(f));
  }

  /** The pieces of a list of two trees and the context are in different places. */
  lemma {:induction false} ShownParts(h: Memory, root: Node?, ctx: Ctx, f: Forest)
    requires f.Cons? && f.rest.Cons? && Shown(h, root, ctx, f)
    ensures Nodes(f.kids) <= Nodes(f) && Nodes(f.rest.kids) <= Nodes(f) && Nodes(f.rest.rest) <= Nodes(f)
    ensures f.n in Nodes(f) && f.rest.n in Nodes(f)
    ensures ctx.After? ==> ctx.n in CtxNodes(ctx)
    ensures forall n :: n in CtxNodes(ctx) ==> n in h
    ensures forall n :: n in Nodes(f) ==> n in h
  {
    assert f.rest.n in Nodes(f.rest);
    NodesIn(h, f);
    CtxIn(h, root, ctx, Ptr(f));
  }

  lemma {:induction false} NodesIn(h: Memory, f: Forest)
    requires Rep(h, f)
    ensures Nodes(f) <= h.Keys
  {
    if f.Cons? {
      NodesIn(h, f.kids);
      NodesIn(h, f.rest);
    }
  }

  lemma {:induction false} CtxIn(h: Memory, root: Node?, ctx: Ctx, hole: Node?)
    requires RepCtx(h, root, ctx, hole)
    ensures CtxNodes(ctx) <= h.Keys
  {
    if ctx.After? {
      NodesIn(h, ctx.kids);
      CtxIn(h, root, ctx.up, ctx.n);
    }
  }

  /** What is shown is shown in every memory that agrees on its nodes. */
  lemma {:induction false} Elsewhere(h: Memory, h': Memory, root: Node?, f: Forest)
    requires Shown(h, root, Head, f) && Same(h, h', Nodes(f))
    ensures Shown(h', root, Head, f)
  {
    Frame(h, h', f);
  }

  // ----- linking two lists

  /** The linked part ends at the context; what is left of both lists follows, and the last link of the
      linked part still leads to one of them. */
  ghost predicate Open(h: Memory, root: Node?, ctx: Ctx, x: Forest, y: Forest) {
    && Rep(h, x) && Rep(h, y) && Sep(x) && Sep(y) && SepCtx(ctx)
    && Nodes(x) !! Nodes(y) && Nodes(x) !! CtxNodes(ctx) && Nodes(y) !! CtxNodes(ctx)
    && (ctx.Head? ==> root == null)
    && (ctx.After? ==> ctx.n in h && RepCtx(h, root, ctx, h[ctx.n].next) && (h[ctx.n].next == Ptr(x) || h[ctx.n].next == Ptr(y)))
  }

  lemma {:induction false} OpenEither(h: Memory, root: Node?, ctx: Ctx, x: Forest, y: Forest)
    requires Open(h, root, ctx, x, y)
    ensures Open(h, root, ctx, y, x)
    ensures x.Cons? ==> x.n in h && h[x.n] == Cell(x.degree, Ptr(x.kids), Ptr(x.rest)) && x.n !in CtxNodes(ctx)
    ensures ctx.After? ==> ctx.n in h && ctx.n in CtxNodes(ctx)
    ensures ctx.Head? ==> root == null
  {
  }

  /** The memory after the last linked node, if there is one, was made to lead to `n`. */
  ghost function Led(h: Memory, ctx: Ctx, n: Node): Memory
    requires ctx.After? ==> ctx.n in h
  {
    if ctx.Head? then h else h[ctx.n := h[ctx.n].(next := n)]
  }

  /** The head of a list is linked next. */
  lemma {:induction false} TakeHead(h: Memory, root: Node?, ctx: Ctx, x: Forest, y: Forest)
    requires Open(h, root, ctx, x, y) && x.Cons? && (ctx.After? ==> ctx.n in h)
    ensures Open(Led(h, ctx, x.n), if ctx.Head? then x.n else root, After(x.n, x.degree, x.kids, ctx), x.rest, y)
  {
    hide Sep, SepCtx;
    var h' := Led(h, ctx, x.n);
    TakeApart(ctx, x, y);
    NodesIn(h, x);
    NodesIn(h, y);
    Frame(h, h', x.kids);
    Frame(h, h', x.rest);
    Frame(h, h', y);
    var next := After(x.n, x.degree, x.kids, ctx);
    if ctx.After? {
      CtxIn(h, root, ctx, h[ctx.n].next);
      TakeCtx(h, root, ctx, h[ctx.n].next, x.n);
    }
    assert RepCtx(h', if ctx.Head? then x.n else root, next, Ptr(x.rest));
  }

  lemma {:induction false} TakeCtx(h: Memory, root: Node?, ctx: Ctx, hole: Node?, n: Node)
    requires ctx.After? && RepCtx(h, root, ctx, hole) && SepCtx(ctx) && ctx.n in h
    ensures RepCtx(Led(h, ctx, n), root, ctx, n)
  {
    var h' := Led(h, ctx, n);
    CtxIn(h, root, ctx, hole);
    Frame(h, h', ctx.kids);
    FrameCtx(h, h', root, ctx.up, ctx.n);
  }

  lemma {:induction false} TakeApart(ctx: Ctx, x: Forest, y: Forest)
    requires x.Cons? && Sep(x) && Sep(y) && SepCtx(ctx)
    requires Nodes(x) !! Nodes(y) && Nodes(x) !! CtxNodes(ctx) && Nodes(y) !! CtxNodes(ctx)
    ensures var next := After(x.n, x.degree, x.kids, ctx);
      && Sep(x.rest) && SepCtx(next) && Nodes(x.rest) !! Nodes(y) && Nodes(x.rest) !! CtxNodes(next) && Nodes(y) !! CtxNodes(next)
      && CtxNodes(next) == {x.n} + Nodes(x.kids) + CtxNodes(ctx)
    ensures Nodes(x.kids) <= Nodes(x) && Nodes(x.rest) <= Nodes(x) && x.n in Nodes(x)
    ensures ctx.After? ==> ctx.n in CtxNodes(ctx)
  {
  }

  /** Two lists in different nodes are open for linking. */
  lemma {:induction false} OpenBoth(h: Memory, x: Forest, y: Forest)
    requires Shown(h, Ptr(x), Head, x) && Shown(h, Ptr(y), Head, y) && Nodes(x) !! Nodes(y)
    ensures Open(h, null, Head, x, y)
  {
  }

  lemma {:induction false} Closed(h: Memory, root: Node?, ctx: Ctx)
    requires Open(h, root, ctx, Nil, Nil)
    ensures Shown(h, root, ctx, Nil)
  {
  }

  lemma {:induction false} LinkedStep(x: Forest, y: Forest)
    ensures x.Cons? && (y.Nil? || x.degree <= y.degree) ==> Linked(x, y) == Cons(x.n, x.degree, x.kids, Linked(x.rest, y))
    ensures y.Cons? && (x.Nil? || x.degree > y.degree) ==> Linked(x, y) == Cons(y.n, y.degree, y.kids, Linked(x, y.rest))
  {
    LinkedNil(if x.Cons? then x.rest else Nil);
    LinkedNil(if y.Cons? then y.rest else Nil);
  }

  lemma {:induction false} LinkedNil(x: Forest)
    ensures Linked(x, Nil) == x && Linked(Nil, x) == x
  {
  }

  lemma {:induction false} SnapAt(s: set<Node>)
    ensures forall n :: n in Snap(s) ==> n in s && Snap(s)[n] == Cell(n.degree, n.child, n.next)
  {
  }

  // ----- merging

  lemma {:induction false} LookBehind(h: Memory, root: Node?, ctx: Ctx, f: Forest)
    requires Shown(h, root, ctx, f) && ctx.After? && f.Cons?
    ensures f.n != ctx.n && (f.rest.Cons? ==> f.rest.n != ctx.n)
  {
  }

  lemma {:induction false} MergedEnd(f: Forest)
    ensures f.Nil? || f.rest.Nil? ==> MergedHead(f) == MergedTail(f) == Merged(f) == f
  {
  }

  lemma {:induction false} MergedHeadStep(f: Forest)
    ensures f.Cons? && f.rest.Cons? && f.degree == f.rest.degree ==> MergedHead(Combined(f)) == MergedHead(f)
    ensures f.Cons? && (f.rest.Nil? || f.degree != f.rest.degree) ==> MergedHead(f) == f
  {
  }

  lemma {:induction false} MergedTailStep(f: Forest)
    requires f.Cons? && f.rest.Cons?
    ensures var joins := f.degree == f.rest.degree && !(f.rest.rest.Cons? && f.rest.degree == f.rest.rest.degree);
      var g := if joins then Combined(f) else f;
      MergedTail(f) == Cons(g.n, g.degree, g.kids, MergedTail(g.rest))
  {
  }

  // ----- whole queues

  lemma {:induction false} NodesWithin(s: set<Node>, root: Node?, f: Forest)
    requires Shown(Snap(s), root, Head, f)
    ensures Nodes(f) <= s
  {
    NodesIn(Snap(s), f);
  }

  lemma {:induction false} Wider(s: set<Node>, t: set<Node>, root: Node?, f: Forest)
    requires Shown(Snap(s), root, Head, f) && Nodes(f) <= t
    ensures Shown(Snap(t), root, Head, f)
  {
    NodesIn(Snap(s), f);
    Elsewhere(Snap(s), Snap(t), root, f);
  }

  lemma {:induction false} OneNode(s: set<Node>, n: Node)
    requires n in s && n.degree == 0 && n.child == null && n.next == null
    ensures var one := Cons(n, 0, Nil, Nil);
      Shown(Snap(s), n, Head, one) && Heap(one) && Keys(one) == multiset{n.key} && Nodes(one) == {n}
  {
    var one := Cons(n, 0, Nil, Nil);
    assert Keys(one) == multiset{n.key} + Keys(Nil) + Keys(Nil);
  }

  lemma {:induction false} KeyOf(ctx: Ctx, f: Forest)
    ensures Keys(f) <= Keys(Plug(ctx, f))
  {
    hide Keys;
    if ctx.After? {
      var g := Cons(ctx.n, ctx.degree, ctx.kids, f);
      KeysCons(g);
      KeyOf(ctx.up, g);
    }
  }

  lemma {:induction false} KeysCons(f: Forest)
    requires f.Cons?
    ensures Keys(f) == multiset{f.n.key} + Keys(f.kids) + Keys(f.rest)
    ensures f.n.key in Keys(f)
  {
  }

  lemma {:induction false} PlugKeys(ctx: Ctx, f: Forest)
    ensures Keys(Plug(ctx, f)) == Keys(Plug(ctx, Nil)) + Keys(f)
  {
    hide Keys;
    if ctx.After? {
      var g, e := Cons(ctx.n, ctx.degree, ctx.kids, f), Cons(ctx.n, ctx.degree, ctx.kids, Nil);
      KeysCons(g);
      KeysCons(e);
      NoKeys();
      PlugKeys(ctx.up, g);
      PlugKeys(ctx.up, e);
    } else {
      NoKeys();
    }
  }

  lemma {:induction false} PlugHeap(ctx: Ctx, f: Forest)
    ensures Heap(Plug(ctx, f)) <==> Heap(Plug(ctx, Nil)) && Heap(f)
  {
    hide Exact, AtMost;
    if ctx.After? {
      PlugHeap(ctx.up, Cons(ctx.n, ctx.degree, ctx.kids, f));
      PlugHeap(ctx.up, Cons(ctx.n, ctx.degree, ctx.kids, Nil));
    }
  }

  lemma {:induction false} PlugNodes(ctx: Ctx, f: Forest)
    ensures Nodes(Plug(ctx, f)) == CtxNodes(ctx) + Nodes(f)
  {
    if ctx.After? {
      PlugNodes(ctx.up, Cons(ctx.n, ctx.degree, ctx.kids, f));
    }
  }

  // ----- taking a root out

  /** The tree `b` is out of the list: the trees left, and its children, are shown apart from each other. */
  ghost predicate Out(h: Memory, root: Node?, b: Forest, left: Forest) {
    && b.Cons? && Shown(h, root, Head, left) && Shown(h, Ptr(b.kids), Head, b.kids)
    && Nodes(left) !! Nodes(b.kids) && b.n !in Nodes(left) && b.n !in Nodes(b.kids)
  }

  /** The tree behind a node is taken out by leading over it. */
  lemma {:induction false} TakeOut(h: Memory, root: Node?, ctx: Ctx, f: Forest)
    requires f.Cons? && f.rest.Cons? && Shown(h, root, ctx, f) && f.n in h
    ensures Out(h[f.n := h[f.n].(next := Ptr(f.rest.rest))], root, f.rest, Plug(ctx, f.(rest := f.rest.rest)))
  {
    hide Sep, SepCtx, CtxNodes, RepCtx;
    var h', b := h[f.n := h[f.n].(next := Ptr(f.rest.rest))], f.rest;
    var behind := After(f.n, f.degree, f.kids, ctx);
    Zip(h, root, f.n, f.degree, f.kids, ctx, b);
    TreeParts(h, root, behind, b);
    Frame(h, h', b.kids);
    Frame(h, h', b.rest);
    Rehang(h, h', root, behind, b.n, b.rest);
    PlugShown(h', root, behind, b.rest);
    PlugNodes(behind, b.rest);
    AtHead(h', b.kids);
  }

  lemma {:induction false} AtHead(h: Memory, f: Forest)
    requires Rep(h, f) && Sep(f)
    ensures Shown(h, Ptr(f), Head, f)
  {
  }

  lemma {:induction false} TreeParts(h: Memory, root: Node?, ctx: Ctx, b: Forest)
    requires b.Cons? && ctx.After? && Shown(h, root, ctx, b)
    ensures ctx.n in h && RepCtx(h, root, ctx, b.n) && SepCtx(ctx) && Rep(h, b.kids) && Rep(h, b.rest)
    ensures Sep(b.kids) && Sep(b.rest) && Nodes(b.rest) !! CtxNodes(ctx) && Nodes(b.kids) !! CtxNodes(ctx)
    ensures b.n !in CtxNodes(ctx) && b.n !in Nodes(b.rest) && b.n !in Nodes(b.kids) && Nodes(b.kids) !! Nodes(b.rest)
    ensures ctx.n in CtxNodes(ctx) && CtxNodes(ctx) <= h.Keys && Nodes(b.kids) <= h.Keys && Nodes(b.rest) <= h.Keys
  {
    NodesIn(h, b);
    CtxIn(h, root, ctx, b.n);
  }

  lemma {:induction false} TakeFirst(h: Memory, root: Node?, f: Forest)
    requires f.Cons? && Shown(h, root, Head, f)
    ensures Out(h, Ptr(f.rest), f, f.rest)
  {
  }

  /** What is left without a root: all other keys, in heaps. */
  lemma {:induction false} OutKeeps(ctx: Ctx, b: Forest)
    requires b.Cons?
    ensures Keys(Plug(ctx, b)) == Keys(Plug(ctx, b.rest)) + Keys(b.kids) + multiset{b.n.key}
    ensures Heap(Plug(ctx, b)) ==> Heap(Plug(ctx, b.rest)) && Heap(b.kids)
  {
    hide Keys;
    PlugKeys(ctx, b);
    PlugKeys(ctx, b.rest);
    KeysCons(b);
    PlugHeap(ctx, b);
    PlugHeap(ctx, b.rest);
  }

  /** A root behind the first that no root exceeds is greatest of all. */
  lemma {:induction false} BestBehind(all: Forest, ctx: Ctx, b: Forest)
    requires all == Plug(ctx, b) && Heap(all) && b.Cons? && all.Cons? && all.n.key < b.n.key && AtMost(all.rest, b.n.key)
    ensures IsGreatest(b.n.key, Keys(all))
    ensures Keys(all) == Keys(Plug(ctx, b.rest)) + Keys(b.kids) + multiset{b.n.key}
    ensures Heap(Plug(ctx, b.rest)) && Heap(b.kids)
  {
    hide Keys, Heap;
    KeysCons(b);
    KeyOf(ctx, b);
    GreatestRoot(all, b.n.key);
    OutKeeps(ctx, b);
  }

  lemma {:induction false} BestFirst(all: Forest, k: int)
    requires all.Cons? && Heap(all) && (all.rest.Cons? ==> AtMost(all.rest, k) && k <= all.n.key)
    ensures IsGreatest(all.n.key, Keys(all))
    ensures Keys(all) == Keys(all.rest) + Keys(all.kids) + multiset{all.n.key}
    ensures Heap(all.rest) && Heap(all.kids)
  {
    hide Keys, Heap;
    if all.rest.Cons? { AtMostTrans(all.rest, k, all.n.key); }
    KeysCons(all);
    GreatestRoot(all, all.n.key);
    OutKeeps(Head, all);
  }

  lemma {:induction false} OutWithin(s: set<Node>, root: Node?, b: Forest, left: Forest)
    requires Out(Snap(s), root, b, left)
    ensures Shown(Snap(Nodes(left)), root, Head, left) && Shown(Snap(Nodes(b.kids)), Ptr(b.kids), Head, b.kids)
    ensures Nodes(left) !! Nodes(b.kids) && Nodes(left) + Nodes(b.kids) <= s - {b.n}
  {
    hide Shown, Nodes;
    NodesWithin(s, root, left);
    NodesWithin(s, Ptr(b.kids), b.kids);
    Wider(s, Nodes(left), root, left);
    Wider(s, Nodes(b.kids), Ptr(b.kids), b.kids);
  }

  lemma {:induction false} EmptyQueue(s: set<Node>)
    ensures Shown(Snap(s), null, Head, Nil) && Heap(Nil) && Keys(Nil) == multiset{}
  {
  }

  /** The first of the children becomes a tree of its own, the others stay as they are. */
  lemma {:induction false} Detach(h: Memory, f: Forest)
    requires f.Cons? && Shown(h, f.n, Head, f) && f.n in h
    ensures var h' := h[f.n := h[f.n].(next := null)];
      Shown(h', f.n, Head, f.(rest := Nil)) && Shown(h', Ptr(f.rest), Head, f.rest)
    ensures Nodes(f.(rest := Nil)) !! Nodes(f.rest)
    ensures Nodes(f.(rest := Nil)) <= Nodes(f) && Nodes(f.rest) <= Nodes(f)
  {
    var h' := h[f.n := h[f.n].(next := null)];
    NodesIn(h, f);
    Frame(h, h', f.kids);
    Frame(h, h', f.rest);
  }
}
