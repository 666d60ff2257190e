/** A segment tree over numbers modulo `mod` with range additions, range multiplications and range sums.
    A node's pending tag is the affine map x * lazyMult + lazyAdd for everything below it. */
module AffineTree {
  import opened Arithmetic
  import opened HeapTree

  datatype Node = Node(flower: int, lazyAdd: int, lazyMult: int)

  const BLANK := Node(0, 0, 1)

  /** The affine map on every element. */
  function Map(s: seq<int>, mul: int, add: int): (r: seq<int>)
    ensures |r| == |s|
  {
    seq(|s|, i requires 0 <= i < |s| => s[i] * mul + add)
  }

  ghost predicate SameMod(s: seq<int>, r: seq<int>, m: int)
    requires m > 0
  {
    |s| == |r| && forall i :: 0 <= i < |s| ==> Cong(s[i], r[i], m)
  }

  /** The numbers a node stands for, its own pending tag included. */
  ghost function Content(t: seq<Node>, n: nat, l: int, r: int): (s: seq<int>)
    requires Fits(|t|, n, l, r)
    ensures |s| == r - l + 1
    decreases r - l
  {
    if l == r then [t[n].flower]
    else Map(Content(t, 2 * n, l, Mid(l, r)) + Content(t, 2 * n + 1, Mid(l, r) + 1, r), t[n].lazyMult, t[n].lazyAdd)
  }

  /** The remainder of a division that rounds towards zero: it has the sign of `a`. */
  function Rem(a: int, m: int): int
    requires m > 0
  {
    if a >= 0 then a % m else -((-a) % m)
  }

  lemma {:induction false} CongRem(a: int, m: int)
    requires m > 0
    ensures Cong(Rem(a, m), a, m) && -m < Rem(a, m) < m && (a >= 0 ==> Rem(a, m) >= 0)
  {
    if a >= 0 {
      CongMod(a, m);
    } else {
      CongMod(-a, m);
      var k := CongQuotient((-a) % m, -a, m);
      assert Rem(a, m) - a == m * (-k);
      CongBy(Rem(a, m), a, m, -k);
    }
  }

  /** No node has a negative part. */
  ghost predicate Nonnegative(node: Node) { node.flower >= 0 && node.lazyAdd >= 0 && node.lazyMult >= 0 }

  ghost predicate Plain(t: seq<Node>) {
    forall i :: 0 <= i < |t| ==> Nonnegative(t[i])
  }

  /** Every node's sum is that of its numbers, up to multiples of `m`. */
  ghost predicate Good(t: seq<Node>, m: int, n: nat, l: int, r: int)
    requires Fits(|t|, n, l, r) && m > 0
    decreases r - l
  {
    && -m < t[n].flower < m && Cong(t[n].flower, Sum(Content(t, n, l, r)), m)
    && (l < r ==> Good(t, m, 2 * n, l, Mid(l, r)) && Good(t, m, 2 * n + 1, Mid(l, r) + 1, r))
  }

  /** Node `n` stands for the plain numbers `s`, up to multiples of `m`. */
  ghost predicate Stands(t: seq<Node>, m: int, n: nat, l: int, r: int, s: seq<int>) {
    m > 0 && Fits(|t|, n, l, r) && Good(t, m, n, l, r) && SameMod(Content(t, n, l, r), s, m)
  }

  lemma {:induction false} Frame(t: seq<Node>, t': seq<Node>, m: int, n: nat, l: int, r: int)
    requires Fits(|t|, n, l, r) && SameBelow(t, t', n) && m > 0
    ensures Content(t', n, l, r) == Content(t, n, l, r) && (Good(t, m, n, l, r) <==> Good(t', m, n, l, r))
    decreases r - l
  {
    hide Content, Good, SameBelow, Below;
    SameHere(t, t', n);
    if l < r {
      SameBelowChildren(t, t', n);
      Frame(t, t', m, 2 * n, l, Mid(l, r));
      Frame(t, t', m, 2 * n + 1, Mid(l, r) + 1, r);
    }
    FrameStep(t, t', m, n, l, r);
  }

  lemma {:induction false} SameHere(t: seq<Node>, t': seq<Node>, n: nat)
    requires SameBelow(t, t', n) && n < |t|
    ensures |t'| == |t| && t'[n] == t[n]
  {
    assert Below(n, n);
  }

  lemma {:induction false} FrameStep(t: seq<Node>, t': seq<Node>, m: int, n: nat, l: int, r: int)
    requires |t'| == |t| && Fits(|t|, n, l, r) && t'[n] == t[n] && m > 0
    requires l < r ==> Content(t', 2 * n, l, Mid(l, r)) == Content(t, 2 * n, l, Mid(l, r))
    requires l < r ==> Content(t', 2 * n + 1, Mid(l, r) + 1, r) == Content(t, 2 * n + 1, Mid(l, r) + 1, r)
    requires l < r ==> (Good(t, m, 2 * n, l, Mid(l, r)) <==> Good(t', m, 2 * n, l, Mid(l, r)))
    requires l < r ==> (Good(t, m, 2 * n + 1, Mid(l, r) + 1, r) <==> Good(t', m, 2 * n + 1, Mid(l, r) + 1, r))
    ensures Content(t', n, l, r) == Content(t, n, l, r) && (Good(t, m, n, l, r) <==> Good(t', m, n, l, r))
  {
    hide Cong, Sum, Map;
  }

  lemma {:induction false} StandsFrame(t: seq<Node>, t': seq<Node>, m: int, n: nat, l: int, r: int, s: seq<int>)
    requires Stands(t, m, n, l, r, s) && SameBelow(t, t', n)
    ensures Stands(t', m, n, l, r, s)
  {
    hide Content, Good;
    Frame(t, t', m, n, l, r);
  }

  // ----- affine maps and sums modulo m

  lemma {:induction false} AffineCong(a: int, b: int, m: int, mul: int, add: int)
    requires m > 0 && Cong(a, b, m)
    ensures Cong(a * mul + add, b * mul + add, m)
  {
    CongMul(a, b, mul, m);
    CongBy(add, add, m, 0);
    CongAdd(a * mul, b * mul, add, add, m);
  }

  lemma {:induction false} MapSame(s: seq<int>, r: seq<int>, m: int, mul: int, add: int)
    requires m > 0 && SameMod(s, r, m)
    ensures SameMod(Map(s, mul, add), Map(r, mul, add), m)
  {
    hide Cong;
    forall i | 0 <= i < |s|
      ensures Cong(Map(s, mul, add)[i], Map(r, mul, add)[i], m)
    {
      AffineCong(s[i], r[i], m, mul, add);
    }
  }

  lemma {:induction false} SameTrans(s: seq<int>, r: seq<int>, q: seq<int>, m: int)
    requires m > 0 && SameMod(s, r, m) && SameMod(r, q, m)
    ensures SameMod(s, q, m)
  {
    hide Cong;
    forall i | 0 <= i < |s|
      ensures Cong(s[i], q[i], m)
    {
      CongTrans(s[i], r[i], q[i], m);
    }
  }

  lemma {:induction false} SumSame(s: seq<int>, r: seq<int>, m: int)
    requires m > 0 && SameMod(s, r, m)
    ensures Cong(Sum(s), Sum(r), m)
  {
    hide Cong;
    if s == [] {
      CongBy(0, 0, m, 0);
    } else {
      var k := |s| - 1;
      SumSame(s[..k], r[..k], m);
      CongAdd(Sum(s[..k]), Sum(r[..k]), s[k], r[k], m);
    }
  }

  lemma {:induction false} SumMap(s: seq<int>, mul: int, add: int)
    ensures Sum(Map(s, mul, add)) == Sum(s) * mul + add * |s|
  {
    if s != [] {
      var k := |s| - 1;
      SumMap(s[..k], mul, add);
      assert Map(s, mul, add)[..k] == Map(s[..k], mul, add);
      assert Sum(s) * mul == Sum(s[..k]) * mul + s[k] * mul;
      assert add * |s| == add * k + add;
    }
  }

  // ----- tags

  /** The node `x` is `node` after the affine map has reached the `len` numbers below it. */
  ghost predicate Tagged(node: Node, x: Node, len: int, mul: int, add: int, m: int)
    requires m > 0
  {
    && -m < x.flower < m
    && Cong(x.flower, node.flower * mul + add * len, m)
    && Cong(x.lazyAdd, node.lazyAdd * mul + add, m) && Cong(x.lazyMult, node.lazyMult * mul, m)
  }

  /** Two affine maps compose: a tag put on a node maps every number below it. */
  lemma {:induction false} ComposedTag(c: int, node: Node, x: Node, mul: int, add: int, m: int)
    requires m > 0 && Cong(x.lazyAdd, node.lazyAdd * mul + add, m) && Cong(x.lazyMult, node.lazyMult * mul, m)
    ensures Cong(c * x.lazyMult + x.lazyAdd, (c * node.lazyMult + node.lazyAdd) * mul + add, m)
  {
    CongMul(x.lazyMult, node.lazyMult * mul, c, m);
    CongAdd(c * x.lazyMult, c * (node.lazyMult * mul), x.lazyAdd, node.lazyAdd * mul + add, m);
    assert c * (node.lazyMult * mul) + (node.lazyAdd * mul + add) == (c * node.lazyMult + node.lazyAdd) * mul + add;
  }

  lemma {:induction false} ComposedMap(c: seq<int>, node: Node, x: Node, mul: int, add: int, m: int)
    requires m > 0 && Cong(x.lazyAdd, node.lazyAdd * mul + add, m) && Cong(x.lazyMult, node.lazyMult * mul, m)
    ensures SameMod(Map(c, x.lazyMult, x.lazyAdd), Map(Map(c, node.lazyMult, node.lazyAdd), mul, add), m)
  {
    hide Cong;
    forall i | 0 <= i < |c|
      ensures Cong(Map(c, x.lazyMult, x.lazyAdd)[i], Map(Map(c, node.lazyMult, node.lazyAdd), mul, add)[i], m)
    {
      ComposedTag(c[i], node, x, mul, add, m);
    }
  }

  lemma {:induction false} TagContent(t: seq<Node>, t': seq<Node>, m: int, n: nat, l: int, r: int, mul: int, add: int)
    requires m > 0 && Fits(|t|, n, l, r) && |t'| == |t| && t' == t[n := t'[n]] && Tagged(t[n], t'[n], r - l + 1, mul, add, m)
    ensures SameMod(Content(t', n, l, r), Map(Content(t, n, l, r), mul, add), m)
  {
    hide Cong, Map;
    if l < r {
      NodeChange(t, t', n);
      Frame(t, t', m, 2 * n, l, Mid(l, r));
      Frame(t, t', m, 2 * n + 1, Mid(l, r) + 1, r);
      ComposedMap(Content(t, 2 * n, l, Mid(l, r)) + Content(t, 2 * n + 1, Mid(l, r) + 1, r), t[n], t'[n], mul, add, m);
    } else {
      LeafTag(t[n].flower, t'[n].flower, mul, add, m);
    }
  }

  lemma {:induction false} LeafTag(a: int, b: int, mul: int, add: int, m: int)
    requires m > 0 && Cong(b, a * mul + add * 1, m)
    ensures SameMod([b], Map([a], mul, add), m)
  {
  }

  lemma {:induction false} TagGood(t: seq<Node>, t': seq<Node>, m: int, n: nat, l: int, r: int)
    requires m > 0 && Fits(|t|, n, l, r) && l < r && Good(t, m, n, l, r) && |t'| == |t| && t' == t[n := t'[n]]
    ensures Good(t', m, 2 * n, l, Mid(l, r)) && Good(t', m, 2 * n + 1, Mid(l, r) + 1, r)
  {
    hide Cong, Sum, Content;
    NodeChange(t, t', n);
    Frame(t, t', m, 2 * n, l, Mid(l, r));
    Frame(t, t', m, 2 * n + 1, Mid(l, r) + 1, r);
  }

  /** A tag on a node maps the numbers it stands for. */
  lemma {:induction false} TagStands(t: seq<Node>, t': seq<Node>, m: int, n: nat, l: int, r: int, s: seq<int>, mul: int, add: int)
    requires m > 0 && Stands(t, m, n, l, r, s) && |t'| == |t| && t' == t[n := t'[n]] && Tagged(t[n], t'[n], r - l + 1, mul, add, m)
    ensures Stands(t', m, n, l, r, Map(s, mul, add))
  {
    hide Cong, Sum, Content, SameMod, Map;
    var c, c' := Content(t, n, l, r), Content(t', n, l, r);
    TagContent(t, t', m, n, l, r, mul, add);
    if l < r { TagGood(t, t', m, n, l, r); }
    MapSame(c, s, m, mul, add);
    SameTrans(c', Map(c, mul, add), Map(s, mul, add), m);
    var f := t[n].flower * mul + add * (r - l + 1);
    AffineCong(t[n].flower, Sum(c), m, mul, add * (r - l + 1));
    SumMap(c, mul, add);
    SumSame(c', Map(c, mul, add), m);
    CongSym(Sum(c'), Sum(Map(c, mul, add)), m);
    CongTrans(t'[n].flower, f, Sum(Map(c, mul, add)), m);
    CongTrans(t'[n].flower, Sum(Map(c, mul, add)), Sum(c'), m);
  }

  /** The two children's numbers under a neutral tag, with the sum brought up. */
  lemma {:induction false} JoinStands(t: seq<Node>, m: int, n: nat, l: int, r: int, a: seq<int>, b: seq<int>)
    requires m > 0 && l < r && Fits(|t|, n, l, r) && t[n].lazyAdd == 0 && t[n].lazyMult == 1
    requires Stands(t, m, 2 * n, l, Mid(l, r), a) && Stands(t, m, 2 * n + 1, Mid(l, r) + 1, r, b)
    requires -m < t[n].flower < m && Cong(t[n].flower, t[2 * n].flower + t[2 * n + 1].flower, m)
    ensures Stands(t, m, n, l, r, a + b)
  {
    hide Cong, Sum;
    var c, d := Content(t, 2 * n, l, Mid(l, r)), Content(t, 2 * n + 1, Mid(l, r) + 1, r);
    assert Content(t, n, l, r) == c + d;
    SumConcat(c, d);
    CongAdd(t[2 * n].flower, Sum(c), t[2 * n + 1].flower, Sum(d), m);
    CongTrans(t[n].flower, t[2 * n].flower + t[2 * n + 1].flower, Sum(c + d), m);
    SameJoin(c, a, d, b, m);
  }

  lemma {:induction false} SameJoin(c: seq<int>, a: seq<int>, d: seq<int>, b: seq<int>, m: int)
    requires m > 0 && SameMod(c, a, m) && SameMod(d, b, m)
    ensures SameMod(c + d, a + b, m)
  {
  }

  /** Pushing down leaves the node's numbers as they are and hands each child its part of them. */
  lemma {:induction false} PushdownStands(t: seq<Node>, t': seq<Node>, m: int, n: nat, l: int, r: int, s: seq<int>)
    requires m > 0 && l < r && Stands(t, m, n, l, r, s) && 2 * n + 1 < |t| == |t'|
    requires Tagged(t[2 * n], t'[2 * n], Mid(l, r) - l + 1, t[n].lazyMult, t[n].lazyAdd, m)
    requires Tagged(t[2 * n + 1], t'[2 * n + 1], r - Mid(l, r), t[n].lazyMult, t[n].lazyAdd, m)
    requires t' == t[2 * n := t'[2 * n]][2 * n + 1 := t'[2 * n + 1]][n := Node(t[n].flower, 0, 1)]
    ensures |s| == r - l + 1 && Stands(t', m, n, l, r, s) && OnlyBelow(t, t', n)
    ensures var k := Mid(l, r) - l + 1;
      Stands(t', m, 2 * n, l, Mid(l, r), s[..k]) && Stands(t', m, 2 * n + 1, Mid(l, r) + 1, r, s[k..])
  {
    hide Cong, Sum, SameMod, Map, Stands, Content, Tagged, OnlyBelow, SameBelow;
    var c, d := ChildrenContent(t, m, n, l, r, s);
    var mul, add, k := t[n].lazyMult, t[n].lazyAdd, Mid(l, r) - l + 1;
    var t2 := t[2 * n := t'[2 * n]][2 * n + 1 := t'[2 * n + 1]];
    TagChildren(t, t2, m, n, l, r, c, d, mul, add);
    ClearTag(t2, t', m, n, l, r, Map(c, mul, add), Map(d, mul, add), s[..k], s[k..]);
    OnlyBelowTwice(t, t2, t', n);
    assert s == s[..k] + s[k..];
  }

  /** The parent's tag on both children maps what they stand for. */
  lemma {:induction false} TagChildren(t: seq<Node>, t2: seq<Node>, m: int, n: nat, l: int, r: int, c: seq<int>, d: seq<int>, mul: int, add: int)
    requires m > 0 && l < r && 0 < n && 2 * n + 1 < |t| == |t2|
    requires Stands(t, m, 2 * n, l, Mid(l, r), c) && Stands(t, m, 2 * n + 1, Mid(l, r) + 1, r, d)
    requires Tagged(t[2 * n], t2[2 * n], Mid(l, r) - l + 1, mul, add, m) && Tagged(t[2 * n + 1], t2[2 * n + 1], r - Mid(l, r), mul, add, m)
    requires t2 == t[2 * n := t2[2 * n]][2 * n + 1 := t2[2 * n + 1]]
    ensures Stands(t2, m, 2 * n, l, Mid(l, r), Map(c, mul, add)) && Stands(t2, m, 2 * n + 1, Mid(l, r) + 1, r, Map(d, mul, add))
    ensures OnlyBelow(t, t2, n) && t2[n] == t[n]
  {
    hide Cong, Sum, SameMod, Map, Stands, Content, Tagged, OnlyBelow, SameBelow;
    var t1 := t[2 * n := t2[2 * n]];
    NodeLeaves(t, t1, n, true);
    TagStands(t, t1, m, 2 * n, l, Mid(l, r), c, mul, add);
    StandsFrame(t, t1, m, 2 * n + 1, Mid(l, r) + 1, r, d);
    NodeLeaves(t1, t2, n, false);
    TagStands(t1, t2, m, 2 * n + 1, Mid(l, r) + 1, r, d, mul, add);
    StandsFrame(t1, t2, m, 2 * n, l, Mid(l, r), Map(c, mul, add));
    OnlyBelowTwice(t, t1, t2, n);
  }

  /** Once the children have the tag, the node without it stands for the same numbers. */
  lemma {:induction false} ClearTag(t2: seq<Node>, t': seq<Node>, m: int, n: nat, l: int, r: int, c: seq<int>, d: seq<int>, a: seq<int>, b: seq<int>)
    requires m > 0 && l < r && 0 < n && 2 * n + 1 < |t2| == |t'| && t' == t2[n := Node(t2[n].flower, 0, 1)]
    requires Fits(|t2|, n, l, r) && -m < t2[n].flower < m && Cong(t2[n].flower, Sum(c) + Sum(d), m)
    requires Stands(t2, m, 2 * n, l, Mid(l, r), c) && Stands(t2, m, 2 * n + 1, Mid(l, r) + 1, r, d)
    requires SameMod(c, a, m) && SameMod(d, b, m)
    ensures Stands(t', m, n, l, r, a + b) && OnlyBelow(t2, t', n)
    ensures Stands(t', m, 2 * n, l, Mid(l, r), a) && Stands(t', m, 2 * n + 1, Mid(l, r) + 1, r, b)
  {
    hide Cong, Sum, SameMod, Stands, Content, OnlyBelow, SameBelow;
    NodeChange(t2, t', n);
    NodeBelow(t2, t', n);
    StandsFrame(t2, t', m, 2 * n, l, Mid(l, r), c);
    StandsFrame(t2, t', m, 2 * n + 1, Mid(l, r) + 1, r, d);
    Restand(t', m, 2 * n, l, Mid(l, r), c, a);
    Restand(t', m, 2 * n + 1, Mid(l, r) + 1, r, d, b);
    FlowerSplit(t2, t', m, n, l, r, a + b, c, d);
    JoinStands(t', m, n, l, r, a, b);
  }

  /** What a node stands for, from its children's numbers. */
  lemma {:induction false} ChildrenContent(t: seq<Node>, m: int, n: nat, l: int, r: int, s: seq<int>) returns (c: seq<int>, d: seq<int>)
    requires m > 0 && l < r && Stands(t, m, n, l, r, s)
    ensures |s| == r - l + 1 && Fits(|t|, n, l, r) && -m < t[n].flower < m
    ensures Stands(t, m, 2 * n, l, Mid(l, r), c) && Stands(t, m, 2 * n + 1, Mid(l, r) + 1, r, d)
    ensures var k, mul, add := Mid(l, r) - l + 1, t[n].lazyMult, t[n].lazyAdd;
      && SameMod(Map(c, mul, add), s[..k], m) && SameMod(Map(d, mul, add), s[k..], m)
      && Cong(t[n].flower, Sum(Map(c, mul, add)) + Sum(Map(d, mul, add)), m)
  {
    hide Cong, Sum, Content, Good, SameMod, Map;
    c, d := Content(t, 2 * n, l, Mid(l, r)), Content(t, 2 * n + 1, Mid(l, r) + 1, r);
    var mul, add := t[n].lazyMult, t[n].lazyAdd;
    Reflexive(c, m);
    Reflexive(d, m);
    ContentParts(t, n, l, r);
    GoodParts(t, m, n, l, r);
    SumConcat(Map(c, mul, add), Map(d, mul, add));
    SameParts(Map(c, mul, add), Map(d, mul, add), s, m);
  }

  /** A node stands for its children's numbers under its tag. */
  lemma {:induction false} ContentParts(t: seq<Node>, n: nat, l: int, r: int)
    requires Fits(|t|, n, l, r) && l < r
    ensures var mul, add := t[n].lazyMult, t[n].lazyAdd;
      Content(t, n, l, r) == Map(Content(t, 2 * n, l, Mid(l, r)), mul, add) + Map(Content(t, 2 * n + 1, Mid(l, r) + 1, r), mul, add)
  {
    MapConcat(Content(t, 2 * n, l, Mid(l, r)), Content(t, 2 * n + 1, Mid(l, r) + 1, r), t[n].lazyMult, t[n].lazyAdd);
  }

  lemma {:induction false} MapConcat(a: seq<int>, b: seq<int>, mul: int, add: int)
    ensures Map(a + b, mul, add) == Map(a, mul, add) + Map(b, mul, add)
  {
  }

  lemma {:induction false} GoodParts(t: seq<Node>, m: int, n: nat, l: int, r: int)
    requires m > 0 && Fits(|t|, n, l, r) && l < r && Good(t, m, n, l, r)
    ensures -m < t[n].flower < m && Cong(t[n].flower, Sum(Content(t, n, l, r)), m)
    ensures Good(t, m, 2 * n, l, Mid(l, r)) && Good(t, m, 2 * n + 1, Mid(l, r) + 1, r)
  {
    hide Cong, Sum, Content;
  }

  lemma {:induction false} Reflexive(s: seq<int>, m: int)
    requires m > 0
    ensures SameMod(s, s, m)
  {
    forall i | 0 <= i < |s|
      ensures Cong(s[i], s[i], m)
    {
      CongBy(s[i], s[i], m, 0);
    }
  }

  lemma {:induction false} SameParts(a: seq<int>, b: seq<int>, s: seq<int>, m: int)
    requires m > 0 && SameMod(a + b, s, m)
    ensures |s| == |a| + |b| && SameMod(a, s[..|a|], m) && SameMod(b, s[|a|..], m)
  {
    hide Cong;
    forall i | 0 <= i < |a|
      ensures Cong(a[i], s[i], m)
    {
      assert (a + b)[i] == a[i];
    }
    forall i | 0 <= i < |b|
      ensures Cong(b[i], s[|a| + i], m)
    {
      assert (a + b)[|a| + i] == b[i];
    }
  }

  lemma {:induction false} Restand(t: seq<Node>, m: int, n: nat, l: int, r: int, a: seq<int>, b: seq<int>)
    requires m > 0 && Stands(t, m, n, l, r, a) && SameMod(a, b, m)
    ensures Stands(t, m, n, l, r, b)
  {
    SameTrans(Content(t, n, l, r), a, b, m);
  }

  /** The sum of a node is that of its children after the push. */
  lemma {:induction false} FlowerSplit(t: seq<Node>, t': seq<Node>, m: int, n: nat, l: int, r: int, s: seq<int>, a: seq<int>, b: seq<int>)
    requires m > 0 && l < r && n < |t| && 2 * n + 1 < |t'| && Cong(t[n].flower, Sum(a) + Sum(b), m)
    requires Stands(t', m, 2 * n, l, Mid(l, r), a) && Stands(t', m, 2 * n + 1, Mid(l, r) + 1, r, b)
    ensures Cong(t[n].flower, t'[2 * n].flower + t'[2 * n + 1].flower, m)
  {
    hide Cong, Sum;
    StandsSum(t', m, 2 * n, l, Mid(l, r), a);
    StandsSum(t', m, 2 * n + 1, Mid(l, r) + 1, r, b);
    CongAdd(Sum(a), t'[2 * n].flower, Sum(b), t'[2 * n + 1].flower, m);
    CongTrans(t[n].flower, Sum(a) + Sum(b), t'[2 * n].flower + t'[2 * n + 1].flower, m);
  }

  /** A node's sum is the sum of the numbers it stands for. */
  lemma {:induction false} StandsSum(t: seq<Node>, m: int, n: nat, l: int, r: int, s: seq<int>)
    requires Stands(t, m, n, l, r, s)
    ensures n < |t| && |s| == r - l + 1 && -m < t[n].flower < m && Cong(Sum(s), t[n].flower, m) && Cong(t[n].flower, Sum(s), m)
  {
    hide Cong, Sum;
    var c := Content(t, n, l, r);
    SumSame(c, s, m);
    CongTrans(t[n].flower, Sum(c), Sum(s), m);
    CongSym(t[n].flower, Sum(s), m);
  }

  /** Changing one child alone leaves the other child alone. */
  lemma {:induction false} NodeLeaves(t: seq<Node>, t': seq<Node>, n: nat, left: bool)
    requires n > 0 && 2 * n + 1 < |t| == |t'| && var c := if left then 2 * n else 2 * n + 1; t' == t[c := t'[c]]
    ensures SameBelow(t, t', if left then 2 * n + 1 else 2 * n) && OnlyBelow(t, t', n) && t'[n] == t[n]
  {
    var c := if left then 2 * n else 2 * n + 1;
    NodeChange(t, t', c);
    ChildChange(t, t', n, left);
  }

  // ----- ranges of the plain array

  /** The numbers from position `l` on, those in [from, to] mapped. */
  function Affected(s: seq<int>, l: int, from: int, to: int, mul: int, add: int): seq<int> {
    seq(|s|, i requires 0 <= i < |s| => if from <= l + i <= to then s[i] * mul + add else s[i])
  }

  /** The numbers in [from, to], and 0 in the other places. */
  function Within(s: seq<int>, l: int, from: int, to: int): seq<int> {
    seq(|s|, i requires 0 <= i < |s| => if from <= l + i <= to then s[i] else 0)
  }

  lemma {:induction false} AffectedSplit(s: seq<int>, k: nat, l: int, from: int, to: int, mul: int, add: int)
    requires k <= |s|
    ensures Affected(s, l, from, to, mul, add) == Affected(s[..k], l, from, to, mul, add) + Affected(s[k..], l + k, from, to, mul, add)
    ensures from > l + k - 1 ==> Affected(s[..k], l, from, to, mul, add) == s[..k]
    ensures to < l + k ==> Affected(s[k..], l + k, from, to, mul, add) == s[k..]
  {
  }

  lemma {:induction false} AffectedAll(s: seq<int>, l: int, from: int, to: int, mul: int, add: int)
    ensures from <= l && l + |s| - 1 <= to ==> Affected(s, l, from, to, mul, add) == Map(s, mul, add)
  {
  }

  lemma {:induction false} WithinSplit(s: seq<int>, k: nat, l: int, from: int, to: int)
    requires k <= |s|
    ensures Sum(Within(s, l, from, to)) == Sum(Within(s[..k], l, from, to)) + Sum(Within(s[k..], l + k, from, to))
    ensures from > l + k - 1 ==> Sum(Within(s[..k], l, from, to)) == 0
    ensures to < l + k ==> Sum(Within(s[k..], l + k, from, to)) == 0
  {
    var a, b := Within(s[..k], l, from, to), Within(s[k..], l + k, from, to);
    assert Within(s, l, from, to) == a + b;
    SumConcat(a, b);
    if from > l + k - 1 { ZeroSum(a); }
    if to < l + k { ZeroSum(b); }
  }

  /** A node after an addition to all its numbers. */
  function Added(node: Node, len: int, val: int, m: int): Node
    requires m > 0
  {
    Node(Rem(node.flower + len * val, m), Rem(node.lazyAdd + val, m), node.lazyMult)
  }

  function Multiplied(node: Node, val: int, m: int): Node
    requires m > 0
  {
    Node(Rem(node.flower * val, m), Rem(node.lazyAdd * val, m), Rem(node.lazyMult * val, m))
  }

  /** A child after its parent's tag has reached it. */
  function Pushed(node: Node, len: int, mul: int, add: int, m: int): Node
    requires m > 0
  {
    Node(Rem(node.flower * mul + add * len, m), Rem(node.lazyAdd * mul + add, m), Rem(node.lazyMult * mul, m))
  }

  lemma {:induction false} ProductSign(a: int, b: int)
    ensures a >= 0 && b >= 0 ==> a * b >= 0
  {
  }

  lemma {:induction false} AddTag(node: Node, len: int, val: int, m: int)
    requires m > 0
    ensures Tagged(node, Added(node, len, val, m), len, 1, val, m)
    ensures Nonnegative(node) && len >= 0 && val >= 0 ==> Nonnegative(Added(node, len, val, m))
  {
    hide Cong, Rem;
    CongRem(node.flower + len * val, m);
    CongRem(node.lazyAdd + val, m);
    CongBy(node.lazyMult, node.lazyMult * 1, m, 0);
    ProductSign(len, val);
    assert node.flower * 1 + val * len == node.flower + len * val && node.lazyAdd * 1 + val == node.lazyAdd + val;
  }

  lemma {:induction false} MultTag(node: Node, len: int, val: int, m: int)
    requires m > 0
    ensures Tagged(node, Multiplied(node, val, m), len, val, 0, m)
    ensures Nonnegative(node) && val >= 0 ==> Nonnegative(Multiplied(node, val, m))
  {
    hide Cong, Rem;
    CongRem(node.flower * val, m);
    CongRem(node.lazyAdd * val, m);
    CongRem(node.lazyMult * val, m);
    ProductSign(node.flower, val);
    ProductSign(node.lazyAdd, val);
    ProductSign(node.lazyMult, val);
    assert node.flower * val + 0 * len == node.flower * val && node.lazyAdd * val + 0 == node.lazyAdd * val;
  }

  lemma {:induction false} PushTag(node: Node, len: int, mul: int, add: int, m: int)
    requires m > 0
    ensures Tagged(node, Pushed(node, len, mul, add, m), len, mul, add, m)
    ensures Nonnegative(node) && len >= 0 && mul >= 0 && add >= 0 ==> Nonnegative(Pushed(node, len, mul, add, m))
  {
    hide Cong, Rem;
    CongRem(node.flower * mul + add * len, m);
    CongRem(node.lazyAdd * mul + add, m);
    CongRem(node.lazyMult * mul, m);
    ProductSign(node.flower, mul);
    ProductSign(add, len);
    ProductSign(node.lazyAdd, mul);
    ProductSign(node.lazyMult, mul);
  }

  lemma {:induction false} NodeBelow(t: seq<Node>, t': seq<Node>, n: nat)
    requires n < |t| == |t'| && t' == t[n := t'[n]]
    ensures OnlyBelow(t, t', n)
  {
    assert Below(n, n);
  }

  /** What is known of a node and its children without looking at their numbers. */
  lemma {:induction false} NodeFacts(t: seq<Node>, m: int, n: nat, l: int, r: int, s: seq<int>)
    requires Stands(t, m, n, l, r, s)
    ensures l <= r && 0 < n < |t| && m > 0 && |s| == r - l + 1
    ensures -m < t[n].flower < m && (l < r ==> 2 * n + 1 < |t|)
  {
    hide Cong, Sum, Content;
    if l < r {
      assert Fits(|t|, 2 * n, l, Mid(l, r)) && Fits(|t|, 2 * n + 1, Mid(l, r) + 1, r);
      assert Good(t, m, 2 * n, l, Mid(l, r)) && Good(t, m, 2 * n + 1, Mid(l, r) + 1, r);
    }
  }

  /** A change below one child leaves the other child's numbers and the node alone. */
  lemma {:induction false} ChildDone(t: seq<Node>, t': seq<Node>, m: int, n: nat, l: int, r: int, a: seq<int>, b: seq<int>, left: bool)
    requires 0 < n < |t| && OnlyBelow(t, t', if left then 2 * n else 2 * n + 1)
    requires left ==> Stands(t', m, 2 * n, l, Mid(l, r), a) && Stands(t, m, 2 * n + 1, Mid(l, r) + 1, r, b)
    requires !left ==> Stands(t, m, 2 * n, l, Mid(l, r), a) && Stands(t', m, 2 * n + 1, Mid(l, r) + 1, r, b)
    ensures |t'| == |t| && t'[n] == t[n] && OnlyBelow(t, t', n)
    ensures Stands(t', m, 2 * n, l, Mid(l, r), a) && Stands(t', m, 2 * n + 1, Mid(l, r) + 1, r, b)
  {
    hide Content, Good;
    ChildChange(t, t', n, left);
    if left {
      StandsFrame(t, t', m, 2 * n + 1, Mid(l, r) + 1, r, b);
    } else {
      StandsFrame(t, t', m, 2 * n, l, Mid(l, r), a);
    }
  }

  class Tree {
    const mod: int
    const tree: array<Node>

    constructor (N: nat, mod: int)
      requires N > 0 && mod > 0
      ensures this.mod == mod && fresh(tree) && Stands(tree[..], mod, 1, 1, N, seq(N, _ => 0)) && Plain(tree[..])
    {
      hide Cong, Sum, Content, Good, SameMod, Stands;
      this.mod := mod;
      tree := new Node[4 * N](_ => BLANK);
      new;
      FourfoldFits(N);
      BlankStands(tree[..], mod, 1, 1, N);
    }

    /** Hands the pending tag of a node to its children. */
    method Pushdown(n: nat, left: int, right: int, ghost s: seq<int>)
      requires Stands(tree[..], mod, n, left, right, s)
      modifies tree
      ensures Stands(tree[..], mod, n, left, right, s) && OnlyBelow(old(tree[..]), tree[..], n)
      ensures left < right ==> n < tree.Length && tree[n].lazyAdd == 0 && tree[n].lazyMult == 1
      ensures Plain(old(tree[..])) ==> Plain(tree[..])
      ensures left < right ==> |s| == right - left + 1 && var k := Mid(left, right) - left + 1;
        Stands(tree[..], mod, 2 * n, left, Mid(left, right), s[..k]) && Stands(tree[..], mod, 2 * n + 1, Mid(left, right) + 1, right, s[k..])
    {
      hide Cong, Sum, Content, Good, SameMod, Stands, OnlyBelow, SameBelow, Tagged, Plain, Nonnegative, Pushed;
      ghost var t := tree[..];
      OnlyBelowSelf(t, n);
      NodeFacts(t, mod, n, left, right, s);
      if left == right { return; }
      var mid := (left + right) / 2;
      var node := tree[n];
      tree[2 * n] := Pushed(tree[2 * n], mid - left + 1, node.lazyMult, node.lazyAdd, mod);
      tree[2 * n + 1] := Pushed(tree[2 * n + 1], right - mid, node.lazyMult, node.lazyAdd, mod);
      tree[n] := tree[n].(lazyAdd := 0, lazyMult := 1);
      PushTag(t[2 * n], mid - left + 1, node.lazyMult, node.lazyAdd, mod);
      PushTag(t[2 * n + 1], right - mid, node.lazyMult, node.lazyAdd, mod);
      PlainPushed(t, n, tree[2 * n], tree[2 * n + 1]);
      assert tree[..] == t[2 * n := tree[2 * n]][2 * n + 1 := tree[2 * n + 1]][n := Node(t[n].flower, 0, 1)];
      PushdownStands(t, tree[..], mod, n, left, right, s);
    }

    /** Brings the sum of a node with a neutral tag up from its children. */
    method SumUp(n: nat, left: int, right: int, ghost a: seq<int>, ghost b: seq<int>)
      requires left < right && 0 < n < tree.Length && Fits(tree.Length, n, left, right) && tree[n].lazyAdd == 0 && tree[n].lazyMult == 1
      requires Stands(tree[..], mod, 2 * n, left, Mid(left, right), a) && Stands(tree[..], mod, 2 * n + 1, Mid(left, right) + 1, right, b)
      modifies tree
      ensures Stands(tree[..], mod, n, left, right, a + b) && OnlyBelow(old(tree[..]), tree[..], n)
      ensures Plain(old(tree[..])) ==> Plain(tree[..])
    {
      hide Cong, Sum, Content, Good, SameMod, Stands, OnlyBelow, SameBelow, Plain, Rem;
      ghost var t := tree[..];
      NodeFacts(t, mod, 2 * n, left, Mid(left, right), a);
      NodeFacts(t, mod, 2 * n + 1, Mid(left, right) + 1, right, b);
      CongRem(tree[2 * n].flower + tree[2 * n + 1].flower, mod);
      tree[n] := tree[n].(flower := Rem(tree[2 * n].flower + tree[2 * n + 1].flower, mod));
      PlainSum(t, n, tree[n]);
      NodeChange(t, tree[..], n);
      StandsFrame(t, tree[..], mod, 2 * n, left, Mid(left, right), a);
      StandsFrame(t, tree[..], mod, 2 * n + 1, Mid(left, right) + 1, right, b);
      JoinStands(tree[..], mod, n, left, right, a, b);
    }

    method AddWhole(n: nat, left: int, right: int, val: int, ghost s: seq<int>)
      requires Stands(tree[..], mod, n, left, right, s)
      modifies tree
      ensures Stands(tree[..], mod, n, left, right, Map(s, 1, val)) && OnlyBelow(old(tree[..]), tree[..], n)
      ensures Plain(old(tree[..])) && val >= 0 ==> Plain(tree[..])
    {
      hide Cong, Sum, Content, Good, SameMod, Stands, Map, OnlyBelow, SameBelow, Plain, Added, Multiplied, Nonnegative;
      ghost var t := tree[..];
      NodeFacts(t, mod, n, left, right, s);
      tree[n] := Added(tree[n], right - left + 1, val, mod);
      AddTag(t[n], right - left + 1, val, mod);
      if val >= 0 { PlainNode(t, n, tree[n]); }
      TagStands(t, tree[..], mod, n, left, right, s, 1, val);
      NodeBelow(t, tree[..], n);
    }

    /** Adds `val` to every number in [from, to]. */
    method Add(n: nat, left: int, right: int, from: int, to: int, val: int, ghost s: seq<int>)
      requires Stands(tree[..], mod, n, left, right, s) && from <= to && from <= right && left <= to
      modifies tree
      ensures Stands(tree[..], mod, n, left, right, Affected(s, left, from, to, 1, val)) && OnlyBelow(old(tree[..]), tree[..], n)
      ensures Plain(old(tree[..])) && val >= 0 ==> Plain(tree[..])
      decreases right - left
    {
      hide Cong, Sum, Content, Good, SameMod, Stands, Map, Affected, OnlyBelow, SameBelow, Plain, Added, Multiplied, Nonnegative;
      ghost var t := tree[..];
      Pushdown(n, left, right, s);
      ghost var t1 := tree[..];
      NodeFacts(t1, mod, n, left, right, s);
      FitsOf(t1, mod, n, left, right, s);
      AffectedAll(s, left, from, to, 1, val);
      if from <= left && right <= to {
        AddWhole(n, left, right, val, s);
        OnlyBelowTwice(t, t1, tree[..], n);
        return;
      }
      var mid := (left + right) / 2;
      ghost var k := mid - left + 1;
      ghost var a, b := Affected(s[..k], left, from, to, 1, val), Affected(s[k..], mid + 1, from, to, 1, val);
      AffectedSplit(s, k, left, from, to, 1, val);
      if from <= mid {
        Add(2 * n, left, mid, from, to, val, s[..k]);
      }
      ghost var t2 := tree[..];
      if from <= mid { ChildDone(t1, t2, mod, n, left, right, a, s[k..], true); } else { OnlyBelowSelf(t1, n); }
      if to > mid {
        Add(2 * n + 1, mid + 1, right, from, to, val, s[k..]);
      }
      ghost var t3 := tree[..];
      if to > mid { ChildDone(t2, t3, mod, n, left, right, a, b, false); } else { OnlyBelowSelf(t2, n); }
      SumUp(n, left, right, a, b);
      OnlyBelowTwice(t1, t2, t3, n);
      OnlyBelowTwice(t1, t3, tree[..], n);
      OnlyBelowTwice(t, t1, tree[..], n);
    }

    method MultWhole(n: nat, left: int, right: int, val: int, ghost s: seq<int>)
      requires Stands(tree[..], mod, n, left, right, s)
      modifies tree
      ensures Stands(tree[..], mod, n, left, right, Map(s, val, 0)) && OnlyBelow(old(tree[..]), tree[..], n)
      ensures Plain(old(tree[..])) && val >= 0 ==> Plain(tree[..])
    {
      hide Cong, Sum, Content, Good, SameMod, Stands, Map, OnlyBelow, SameBelow, Plain, Added, Multiplied, Nonnegative;
      ghost var t := tree[..];
      NodeFacts(t, mod, n, left, right, s);
      tree[n] := Multiplied(tree[n], val, mod);
      MultTag(t[n], right - left + 1, val, mod);
      if val >= 0 { PlainNode(t, n, tree[n]); }
      TagStands(t, tree[..], mod, n, left, right, s, val, 0);
      NodeBelow(t, tree[..], n);
    }

    /** Multiplies every number in [from, to] by `val`. */
    method Mult(n: nat, left: int, right: int, from: int, to: int, val: int, ghost s: seq<int>)
      requires Stands(tree[..], mod, n, left, right, s) && from <= to && from <= right && left <= to
      modifies tree
      ensures Stands(tree[..], mod, n, left, right, Affected(s, left, from, to, val, 0)) && OnlyBelow(old(tree[..]), tree[..], n)
      ensures Plain(old(tree[..])) && val >= 0 ==> Plain(tree[..])
      decreases right - left
    {
      hide Cong, Sum, Content, Good, SameMod, Stands, Map, Affected, OnlyBelow, SameBelow, Plain, Added, Multiplied, Nonnegative;
      ghost var t := tree[..];
      Pushdown(n, left, right, s);
      ghost var t1 := tree[..];
      NodeFacts(t1, mod, n, left, right, s);
      FitsOf(t1, mod, n, left, right, s);
      AffectedAll(s, left, from, to, val, 0);
      if from <= left && right <= to {
        MultWhole(n, left, right, val, s);
        OnlyBelowTwice(t, t1, tree[..], n);
        return;
      }
      var mid := (left + right) / 2;
      ghost var k := mid - left + 1;
      ghost var a, b := Affected(s[..k], left, from, to, val, 0), Affected(s[k..], mid + 1, from, to, val, 0);
      AffectedSplit(s, k, left, from, to, val, 0);
      if from <= mid {
        Mult(2 * n, left, mid, from, to, val, s[..k]);
      }
      ghost var t2 := tree[..];
      if from <= mid { ChildDone(t1, t2, mod, n, left, right, a, s[k..], true); } else { OnlyBelowSelf(t1, n); }
      if to > mid {
        Mult(2 * n + 1, mid + 1, right, from, to, val, s[k..]);
      }
      ghost var t3 := tree[..];
      if to > mid { ChildDone(t2, t3, mod, n, left, right, a, b, false); } else { OnlyBelowSelf(t2, n); }
      SumUp(n, left, right, a, b);
      OnlyBelowTwice(t1, t2, t3, n);
      OnlyBelowTwice(t1, t3, tree[..], n);
      OnlyBelowTwice(t, t1, tree[..], n);
    }

    /** The sum of the numbers in [from, to], modulo `mod`. */
    method QuerySum(n: nat, left: int, right: int, from: int, to: int, ghost s: seq<int>) returns (sum: int)
      requires Stands(tree[..], mod, n, left, right, s) && from <= to && from <= right && left <= to
      modifies tree
      ensures Stands(tree[..], mod, n, left, right, s) && OnlyBelow(old(tree[..]), tree[..], n)
      ensures mod > 0 && Cong(sum, Sum(Within(s, left, from, to)), mod) && -mod < sum < mod
      ensures Plain(old(tree[..])) ==> Plain(tree[..]) && sum >= 0
      decreases right - left
    {
      hide Cong, Sum, Content, Good, SameMod, Stands, Within, OnlyBelow, SameBelow, Plain, Rem;
      ghost var t := tree[..];
      Pushdown(n, left, right, s);
      ghost var t1 := tree[..];
      NodeFacts(t1, mod, n, left, right, s);
      FitsOf(t1, mod, n, left, right, s);
      if from <= left && right <= to {
        StandsSum(t1, mod, n, left, right, s);
        WithinAll(s, left, from, to);
        PlainFlower(t1, n);
        return tree[n].flower;
      }
      var mid := (left + right) / 2;
      ghost var k := mid - left + 1;
      WithinSplit(s, k, left, from, to);
      assert s[..k] + s[k..] == s;
      if to <= mid {
        sum := QuerySum(2 * n, left, mid, from, to, s[..k]);
        Asked(t1, tree[..], mod, n, left, right, s[..k], s[k..], true);
      } else if from > mid {
        sum := QuerySum(2 * n + 1, mid + 1, right, from, to, s[k..]);
        Asked(t1, tree[..], mod, n, left, right, s[..k], s[k..], false);
      } else {
        var a := QuerySum(2 * n, left, mid, from, to, s[..k]);
        Asked(t1, tree[..], mod, n, left, right, s[..k], s[k..], true);
        ghost var t2 := tree[..];
        var b := QuerySum(2 * n + 1, mid + 1, right, from, to, s[k..]);
        Asked(t2, tree[..], mod, n, left, right, s[..k], s[k..], false);
        OnlyBelowTwice(t1, t2, tree[..], n);
        CongRem(a + b, mod);
        CongAdd(a, Sum(Within(s[..k], left, from, to)), b, Sum(Within(s[k..], mid + 1, from, to)), mod);
        CongTrans(Rem(a + b, mod), a + b, Sum(Within(s, left, from, to)), mod);
        sum := Rem(a + b, mod);
      }
      OnlyBelowTwice(t, t1, tree[..], n);
    }
  }

  lemma {:induction false} PlainNode(t: seq<Node>, n: nat, x: Node)
    requires n < |t| && (Nonnegative(t[n]) ==> Nonnegative(x))
    ensures Plain(t) ==> Plain(t[n := x])
  {
  }

  lemma {:induction false} PlainFlower(t: seq<Node>, n: nat)
    requires n < |t|
    ensures Plain(t) ==> t[n].flower >= 0
  {
  }

  lemma {:induction false} PlainSum(t: seq<Node>, n: nat, x: Node)
    requires n < |t| && 2 * n + 1 < |t| && x == t[n].(flower := x.flower)
    requires t[2 * n].flower + t[2 * n + 1].flower >= 0 ==> x.flower >= 0
    ensures Plain(t) ==> Plain(t[n := x])
  {
  }

  lemma {:induction false} PlainPushed(t: seq<Node>, n: nat, x: Node, y: Node)
    requires n > 0 && 2 * n + 1 < |t|
    requires Nonnegative(t[2 * n]) && t[n].lazyMult >= 0 && t[n].lazyAdd >= 0 ==> Nonnegative(x)
    requires Nonnegative(t[2 * n + 1]) && t[n].lazyMult >= 0 && t[n].lazyAdd >= 0 ==> Nonnegative(y)
    ensures Plain(t) ==> Plain(t[2 * n := x][2 * n + 1 := y][n := Node(t[n].flower, 0, 1)])
  {
  }

  lemma {:induction false} WithinAll(s: seq<int>, l: int, from: int, to: int)
    requires from <= l && l + |s| - 1 <= to
    ensures Within(s, l, from, to) == s
  {
  }

  lemma {:induction false} CongIsMod(a: int, x: int, m: int)
    requires 0 <= a < m && Cong(a, x, m)
    ensures a == x % m
  {
    CongMod(x, m);
    CongSym(x % m, x, m);
    CongTrans(a, x, x % m, m);
    CongUnique(a, x % m, m);
  }

  /** A question below one child changes nothing the node stands for: the node's own sum is still right. */
  lemma {:induction false} Asked(t: seq<Node>, t': seq<Node>, m: int, n: nat, l: int, r: int, a: seq<int>, b: seq<int>, left: bool)
    requires l < r && Stands(t, m, n, l, r, a + b) && n < |t| && t[n].lazyAdd == 0 && t[n].lazyMult == 1
    requires OnlyBelow(t, t', if left then 2 * n else 2 * n + 1)
    requires Stands(t, m, 2 * n, l, Mid(l, r), a) && Stands(t, m, 2 * n + 1, Mid(l, r) + 1, r, b)
    requires if left then Stands(t', m, 2 * n, l, Mid(l, r), a) else Stands(t', m, 2 * n + 1, Mid(l, r) + 1, r, b)
    ensures Stands(t', m, n, l, r, a + b) && OnlyBelow(t, t', n) && |t'| == |t| && t'[n] == t[n]
    ensures Stands(t', m, 2 * n, l, Mid(l, r), a) && Stands(t', m, 2 * n + 1, Mid(l, r) + 1, r, b)
  {
    hide Cong, Sum, Content, Good, SameMod;
    FitsOf(t, m, n, l, r, a + b);
    ChildDone(t, t', m, n, l, r, a, b, left);
    StandsSum(t, m, n, l, r, a + b);
    StandsSum(t', m, 2 * n, l, Mid(l, r), a);
    StandsSum(t', m, 2 * n + 1, Mid(l, r) + 1, r, b);
    SumConcat(a, b);
    CongAdd(Sum(a), t'[2 * n].flower, Sum(b), t'[2 * n + 1].flower, m);
    CongTrans(t'[n].flower, Sum(a + b), t'[2 * n].flower + t'[2 * n + 1].flower, m);
    JoinStands(t', m, n, l, r, a, b);
  }

  // ----- whole runs

  datatype Operation = Multiply(left: int, right: int, val: int) | Increase(left: int, right: int, val: int) | Ask(left: int, right: int)

  ghost predicate Proper(op: Operation, N: int) {
    1 <= op.left <= op.right <= N
  }

  /** The same operations on a plain array of unbounded numbers, and the sums asked for. */
  ghost function Naive(s: seq<int>, ops: seq<Operation>): (seq<int>, seq<int>) {
    if ops == [] then (s, [])
    else
      var (s, sums) := Naive(s, ops[..|ops| - 1]);
      match ops[|ops| - 1]
      case Multiply(left, right, val) => (Affected(s, 1, left, right, val, 0), sums)
      case Increase(left, right, val) => (Affected(s, 1, left, right, 1, val), sums)
      case Ask(left, right) => (s, sums + [Sum(Within(s, 1, left, right))])
  }

  predicate Covers(op: Operation, x: int) { op.left <= x <= op.right }

  /** `b` and `sums'` are `a` and `sums` after one more operation, position by position. */
  ghost predicate Operated(a: seq<int>, sums: seq<int>, b: seq<int>, sums': seq<int>, op: Operation)
    requires 1 <= op.left <= op.right <= |a|
  {
    && |b| == |a|
    && (forall i :: 0 <= i < |a| && (op.Ask? || !Covers(op, i + 1)) ==> b[i] == a[i])
    && (op.Multiply? ==> forall i :: 0 <= i < |a| && Covers(op, i + 1) ==> b[i] == a[i] * op.val)
    && (op.Increase? ==> forall i :: 0 <= i < |a| && Covers(op, i + 1) ==> b[i] == a[i] + op.val)
    && sums' == if op.Ask? then sums + [Sum(a[op.left - 1..op.right])] else sums
  }

  lemma {:induction false} ZerosAround(s: seq<int>, left: int, right: int)
    requires 1 <= left <= right <= |s|
    ensures Sum(Within(s, 1, left, right)) == Sum(s[left - 1..right])
  {
    hide Sum;
    var a, b, c := s[..left - 1], s[left - 1..right], s[right..];
    var zerosA, zerosC := Within(a, 1, left, right), Within(c, right + 1, left, right);
    assert Within(s, 1, left, right) == zerosA + (b + zerosC);
    SumConcat(zerosA, b + zerosC);
    SumConcat(b, zerosC);
    ZeroSum(zerosA);
    ZeroSum(zerosC);
  }

  /** What one more operation does to the plain array: exactly the covered positions are multiplied or increased, and a
      question adds up exactly the covered positions. */
  lemma {:induction false} NaiveNext(s: seq<int>, ops: seq<Operation>, op: Operation)
    requires 1 <= op.left <= op.right <= |s|
    ensures |Naive(s, ops).0| == |s|
    ensures var (a, sums) := Naive(s, ops); var (b, sums') := Naive(s, ops + [op]); Operated(a, sums, b, sums', op)
  {
    hide Sum;
    assert (ops + [op])[..|ops|] == ops;
    NaiveLength(s, ops);
    if op.Ask? { ZerosAround(Naive(s, ops).0, op.left, op.right); }
  }

  lemma {:induction false} NaiveLength(s: seq<int>, ops: seq<Operation>)
    ensures |Naive(s, ops).0| == |s|
  {
    if ops != [] { NaiveLength(s, ops[..|ops| - 1]); }
  }

  /** What the operations multiply position `x` by, in all. */
  function Factor(ops: seq<Operation>, x: int): int {
    if ops == [] then 1
    else (if ops[0].Multiply? && Covers(ops[0], x) then ops[0].val else 1) * Factor(ops[1..], x)
  }

  /** What the operations add to position `x`: every addend times all later multipliers. */
  function Gains(ops: seq<Operation>, x: int): int {
    if ops == [] then 0
    else (if ops[0].Increase? && Covers(ops[0], x) then ops[0].val * Factor(ops[1..], x) else 0) + Gains(ops[1..], x)
  }

  lemma {:induction false} FactorMore(ops: seq<Operation>, op: Operation, x: int)
    ensures var f := if op.Multiply? && Covers(op, x) then op.val else 1;
      Factor(ops + [op], x) == Factor(ops, x) * f
  {
    if ops == [] {
      assert ([op])[1..] == [];
    } else {
      assert (ops + [op])[1..] == ops[1..] + [op];
      FactorMore(ops[1..], op, x);
      var f := if op.Multiply? && Covers(op, x) then op.val else 1;
      var g := if ops[0].Multiply? && Covers(ops[0], x) then ops[0].val else 1;
      assert g * (Factor(ops[1..], x) * f) == g * Factor(ops[1..], x) * f;
    }
  }

  lemma {:induction false} GainsMore(ops: seq<Operation>, op: Operation, x: int)
    ensures var f := if op.Multiply? && Covers(op, x) then op.val else 1;
      var g := if op.Increase? && Covers(op, x) then op.val else 0;
      Gains(ops + [op], x) == Gains(ops, x) * f + g
  {
    var f := if op.Multiply? && Covers(op, x) then op.val else 1;
    if ops == [] {
      assert ([op])[1..] == [] && Factor([], x) == 1;
    } else {
      assert (ops + [op])[1..] == ops[1..] + [op];
      GainsMore(ops[1..], op, x);
      FactorMore(ops[1..], op, x);
      var first := if ops[0].Increase? && Covers(ops[0], x) then ops[0].val else 0;
      Distribute(first, Factor(ops[1..], x), Gains(ops[1..], x), f);
    }
  }

  lemma {:induction false} Distribute(a: int, b: int, c: int, f: int)
    ensures (a * b + c) * f == a * (b * f) + c * f
  {
  }

  /** The number at a position in closed form: the initial one times all multipliers that cover it, and every addend
      that covers it times the multipliers after it. */
  lemma {:induction false} ValueIs(s: seq<int>, ops: seq<Operation>, x: int)
    requires 1 <= x <= |s| && forall k :: 0 <= k < |ops| ==> Proper(ops[k], |s|)
    ensures |Naive(s, ops).0| == |s| && Naive(s, ops).0[x - 1] == s[x - 1] * Factor(ops, x) + Gains(ops, x)
  {
    hide Naive, Factor, Gains;
    if ops == [] {
      NothingDone(s, x);
    } else {
      var before, op := ops[..|ops| - 1], ops[|ops| - 1];
      assert ops == before + [op] && Proper(op, |s|);
      ValueIs(s, before, x);
      NaiveNext(s, before, op);
      NaiveLength(s, ops);
      FactorMore(before, op, x);
      GainsMore(before, op, x);
      var f := if op.Multiply? && Covers(op, x) then op.val else 1;
      Distribute(s[x - 1], Factor(before, x), Gains(before, x), f);
    }
  }

  lemma {:induction false} NothingDone(s: seq<int>, x: int)
    ensures Naive(s, []) == (s, []) && Factor([], x) == 1 && Gains([], x) == 0
  {
  }

  function Asks(ops: seq<Operation>): nat {
    if ops == [] then 0 else Asks(ops[..|ops| - 1]) + if ops[|ops| - 1].Ask? then 1 else 0
  }

  lemma {:induction false} SumsKept(s: seq<int>, ops: seq<Operation>, n: nat)
    requires n <= |ops|
    ensures Asks(ops[..n]) <= Asks(ops) == |Naive(s, ops).1| && Naive(s, ops[..n]).1 == Naive(s, ops).1[..Asks(ops[..n])]
    decreases |ops|
  {
    hide Sum, Within, Affected;
    if n == |ops| {
      assert ops[..n] == ops;
      if n > 0 { SumsKept(s, ops[..n - 1], n - 1); }
    } else {
      var before := ops[..|ops| - 1];
      SumsKept(s, before, n);
      assert before[..n] == ops[..n];
    }
  }

  /** Every question is answered with the sum of the covered positions as they are just before it. */
  lemma {:induction false} SumsAsked(s: seq<int>, ops: seq<Operation>, k: nat)
    requires k < |ops| && ops[k].Ask? && Proper(ops[k], |s|)
    ensures |Naive(s, ops).1| == Asks(ops) > Asks(ops[..k]) && |Naive(s, ops[..k]).0| == |s|
    ensures Naive(s, ops).1[Asks(ops[..k])] == Sum(Naive(s, ops[..k]).0[ops[k].left - 1..ops[k].right])
  {
    hide Sum, Naive;
    SumsKept(s, ops, k + 1);
    SumsKept(s, ops[..k + 1], k);
    assert ops[..k + 1][..k] == ops[..k] && ops[..k + 1] == ops[..k] + [ops[k]];
    NaiveNext(s, ops[..k], ops[k]);
  }

  /** The numbers printed are the sums up to multiples of `m`, of smaller absolute value than `m`, and if `plain`
      the remainders themselves. */
  ghost predicate Answers(printed: seq<int>, sums: seq<int>, m: int, plain: bool)
    requires m > 0
  {
    |printed| == |sums| && forall i :: 0 <= i < |sums| ==>
      Cong(printed[i], sums[i], m) && -m < printed[i] < m && (plain ==> printed[i] == sums[i] % m)
  }

  ghost predicate NoneNegative(ops: seq<Operation>) {
    forall k :: 0 <= k < |ops| && !ops[k].Ask? ==> ops[k].val >= 0
  }

  lemma {:induction false} AnswersMore(printed: seq<int>, sums: seq<int>, m: int, plain: bool, sum: int, x: int)
    requires m > 0 && Answers(printed, sums, m, plain) && Cong(sum, x, m) && -m < sum < m && (plain ==> sum >= 0)
    ensures Answers(printed + [sum], sums + [x], m, plain)
  {
    hide Cong;
    if plain { CongIsMod(sum, x, m); }
  }

  /** For any run of operations the tree prints the plain array's sums, up to multiples of `mod`; without negative
      values the remainders themselves. */
  method Run(N: nat, mod: int, ops: seq<Operation>) returns (printed: seq<int>)
    requires N > 0 && mod > 0 && forall k :: 0 <= k < |ops| ==> Proper(ops[k], N)
    ensures Answers(printed, Naive(seq(N, _ => 0), ops).1, mod, NoneNegative(ops))
  {
    hide Cong, Sum, Content, Good, SameMod, Stands, Map, Affected, Within, Plain, Answers;
    var flowers := new Tree(N, mod);
    printed := [];
    ghost var s, sums := seq(N, _ => 0), [];
    ghost var plain := NoneNegative(ops);
    NothingAsked(mod, plain);
    var k := 0;
    while k < |ops|
      invariant 0 <= k <= |ops| && fresh(flowers.tree) && flowers.mod == mod && Stands(flowers.tree[..], mod, 1, 1, N, s)
      invariant (s, sums) == Naive(seq(N, _ => 0), ops[..k]) && Answers(printed, sums, mod, plain)
      invariant plain ==> Plain(flowers.tree[..])
    {
      assert ops[..k + 1][..k] == ops[..k];
      assert Proper(ops[k], N);
      match ops[k] {
        case Multiply(left, right, val) =>
          flowers.Mult(1, 1, N, left, right, val, s);
          s := Affected(s, 1, left, right, val, 0);
        case Increase(left, right, val) =>
          flowers.Add(1, 1, N, left, right, val, s);
          s := Affected(s, 1, left, right, 1, val);
        case Ask(left, right) =>
          var sum := flowers.QuerySum(1, 1, N, left, right, s);
          AnswersMore(printed, sums, mod, plain, sum, Sum(Within(s, 1, left, right)));
          printed, sums := printed + [sum], sums + [Sum(Within(s, 1, left, right))];
      }
      k := k + 1;
    }
    assert ops[..|ops|] == ops;
  }

  lemma {:induction false} NothingAsked(m: int, plain: bool)
    requires m > 0
    ensures Answers([], [], m, plain)
  {
  }

  lemma {:induction false} FitsOf(t: seq<Node>, m: int, n: nat, l: int, r: int, s: seq<int>)
    requires Stands(t, m, n, l, r, s)
    ensures Fits(|t|, n, l, r)
  {
  }

  lemma {:induction false} BlankStands(t: seq<Node>, m: int, n: nat, l: int, r: int)
    requires m > 0 && Fits(|t|, n, l, r) && forall i :: 0 <= i < |t| ==> t[i] == BLANK
    ensures Stands(t, m, n, l, r, seq(r - l + 1, _ => 0))
    decreases r - l
  {
    hide Cong, Sum;
    CongBy(0, 0, m, 0);
    if l < r {
      var a, b := seq(Mid(l, r) - l + 1, _ => 0), seq(r - Mid(l, r), _ => 0);
      BlankStands(t, m, 2 * n, l, Mid(l, r));
      BlankStands(t, m, 2 * n + 1, Mid(l, r) + 1, r);
      JoinStands(t, m, n, l, r, a, b);
      assert a + b == seq(r - l + 1, _ => 0);
    } else {
      ZeroSum([0]);
    }
  }
}
