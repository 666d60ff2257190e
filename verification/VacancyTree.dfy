/** A segment tree over positions 1..N that finds the leftmost run of vacant positions. Its lazy tags
    (1 all vacant, 0 all taken, 2 look at the children) are pushed down but never cleared. */
module VacancyTree {
  import opened Arithmetic

  datatype Node = Node(leftVacant: int, rightVacant: int, maxVacant: int, left: int, right: int, lazy: int)

  const BLANK := Node(0, 0, 0, 0, 0, 1)

  // ----- runs of vacant positions in a plain array

  /** `len` vacant positions start at index `i`. */
  ghost predicate VacantAt(s: seq<bool>, i: int, len: int) {
    0 <= i && i + len <= |s| && forall k :: i <= k < i + len ==> s[k]
  }

  ghost predicate NoRun(s: seq<bool>, len: int) {
    forall i :: !VacantAt(s, i, len)
  }

  /** The lengths of the vacant prefix, of the vacant suffix and of a longest vacant run. */
  ghost predicate Summary(s: seq<bool>, prefix: int, suffix: int, longest: int) {
    && 0 <= prefix && VacantAt(s, 0, prefix) && (prefix < |s| ==> !s[prefix])
    && 0 <= suffix && VacantAt(s, |s| - suffix, suffix) && (suffix < |s| ==> !s[|s| - 1 - suffix])
    && 0 <= longest && (exists i :: VacantAt(s, i, longest)) && NoRun(s, longest + 1)
  }

  lemma {:induction false} Shorten(s: seq<bool>, i: int, len: int, m: int)
    requires VacantAt(s, i, len) && m <= len
    ensures VacantAt(s, i, m)
  {
  }

  lemma {:induction false} CrossingRun(a: seq<bool>, b: seq<bool>, pa: int, sa: int, ma: int, pb: int, sb: int, mb: int, i: int, len: int)
    requires Summary(a, pa, sa, ma) && Summary(b, pb, sb, mb) && VacantAt(a + b, i, len) && len > 0
    ensures (i + len <= |a| && VacantAt(a, i, len) && len <= ma) || (i >= |a| && VacantAt(b, i - |a|, len) && len <= mb)
            || (|a| - sa <= i < |a| < i + len && len <= sa + pb)
  {
    var s := a + b;
    if i + len <= |a| {
      assert forall k :: i <= k < i + len ==> s[k] == a[k];
      if len > ma { Shorten(a, i, len, ma + 1); }
    } else if i >= |a| {
      assert forall k :: i - |a| <= k < i - |a| + len ==> s[k + |a|] == b[k];
      assert VacantAt(b, i - |a|, len);
      if len > mb { Shorten(b, i - |a|, len, mb + 1); }
    } else {
      assert sa < |a| ==> !s[|a| - 1 - sa];
      assert pb < |b| ==> !s[|a| + pb];
    }
  }

  /** No run of a concatenation is longer than the longest of a half or the one across the seam. */
  lemma {:induction false} NoLongerRun(a: seq<bool>, b: seq<bool>, pa: int, sa: int, ma: int, pb: int, sb: int, mb: int, len: int)
    requires Summary(a, pa, sa, ma) && Summary(b, pb, sb, mb) && len > ma && len > mb && len > pb + sa
    ensures NoRun(a + b, len)
  {
    hide Summary;
    forall i ensures !VacantAt(a + b, i, len) {
      if VacantAt(a + b, i, len) {
        if len <= 0 { Lengths(a, pa, sa, ma); }
        CrossingRun(a, b, pa, sa, ma, pb, sb, mb, i, len);
      }
    }
  }

  lemma {:induction false} Lengths(s: seq<bool>, prefix: int, suffix: int, longest: int)
    requires Summary(s, prefix, suffix, longest)
    ensures 0 <= prefix <= |s| && 0 <= suffix <= |s| && 0 <= longest
  {
  }

  /** A longest run of a concatenation lies in a half or across the seam. */
  lemma {:induction false} SomeRun(a: seq<bool>, b: seq<bool>, pa: int, sa: int, ma: int, pb: int, sb: int, mb: int)
    requires Summary(a, pa, sa, ma) && Summary(b, pb, sb, mb)
    ensures exists i :: VacantAt(a + b, i, ma)
    ensures exists i :: VacantAt(a + b, i, mb)
    ensures VacantAt(a + b, |a| - sa, sa + pb)
  {
    var i :| VacantAt(a, i, ma);
    assert VacantAt(a + b, i, ma);
    var j :| VacantAt(b, j, mb);
    assert VacantAt(a + b, |a| + j, mb);
  }

  lemma {:induction false} EndsConcat(a: seq<bool>, b: seq<bool>, pa: int, sa: int, ma: int, pb: int, sb: int, mb: int)
    requires Summary(a, pa, sa, ma) && Summary(b, pb, sb, mb)
    ensures var s, p := a + b, if pa == |a| then pa + pb else pa;
      0 <= p && VacantAt(s, 0, p) && (p < |s| ==> !s[p])
    ensures var s, q := a + b, if sb == |b| then sb + sa else sb;
      0 <= q && VacantAt(s, |s| - q, q) && (q < |s| ==> !s[|s| - 1 - q])
  {
  }

  /** The summary of a concatenation from the summaries of the halves. */
  lemma {:induction false} SummaryConcat(a: seq<bool>, b: seq<bool>, pa: int, sa: int, ma: int, pb: int, sb: int, mb: int)
    requires Summary(a, pa, sa, ma) && Summary(b, pb, sb, mb)
    ensures Summary(a + b, if pa == |a| then pa + pb else pa, if sb == |b| then sb + sa else sb,
                    var m := if ma < mb then mb else ma; if m < pb + sa then pb + sa else m)
  {
    hide VacantAt, NoRun;
    var m := if ma < mb then mb else ma;
    var longest := if m < pb + sa then pb + sa else m;
    EndsConcat(a, b, pa, sa, ma, pb, sb, mb);
    SomeRun(a, b, pa, sa, ma, pb, sb, mb);
    assert exists i :: VacantAt(a + b, i, longest);
    NoLongerRun(a, b, pa, sa, ma, pb, sb, mb, longest + 1);
  }

  function Uniform(len: nat, vacant: bool): seq<bool> {
    seq(len, _ => vacant)
  }

  lemma {:induction false} SummaryUniform(len: nat, vacant: bool)
    ensures var v := if vacant then len else 0; Summary(Uniform(len, vacant), v, v, v)
  {
    var v := if vacant then len else 0;
    var u := Uniform(len, vacant);
    assert VacantAt(u, 0, v);
    assert forall i :: VacantAt(u, i, 1) ==> u[i];
  }

  /** `s`, holding the positions from `left` on, with the positions in [from, to] set to `op`. */
  function Assign(s: seq<bool>, left: int, from: int, to: int, op: bool): seq<bool> {
    seq(|s|, i requires 0 <= i < |s| => if from <= left + i <= to then op else s[i])
  }

  /** `i` is the smallest index at which `len` vacant positions start, or -1 and there is none. */
  ghost predicate Leftmost(s: seq<bool>, len: int, i: int) {
    if i == -1 then NoRun(s, len)
    else VacantAt(s, i, len) && forall j :: 0 <= j < i ==> !VacantAt(s, j, len)
  }

  lemma {:induction false} LeftmostInLeft(a: seq<bool>, c: seq<bool>, len: int, i: int)
    requires len > 0 && i >= 0 && Leftmost(a, len, i)
    ensures Leftmost(a + c, len, i)
  {
    forall j | 0 <= j < i ensures !VacantAt(a + c, j, len) {
      assert VacantAt(a + c, j, len) ==> forall k :: j <= k < j + len ==> (a + c)[k] == a[k];
      assert !VacantAt(a, j, len);
    }
  }

  /** No run fits in `a`, but its vacant suffix and the vacant prefix of `c` are long enough together. */
  lemma {:induction false} LeftmostAcross(a: seq<bool>, c: seq<bool>, pa: int, sa: int, ma: int, pc: int, sc: int, mc: int, len: int)
    requires Summary(a, pa, sa, ma) && Summary(c, pc, sc, mc) && NoRun(a, len) && 0 < len <= sa + pc
    ensures sa <= |a| && Leftmost(a + c, len, |a| - sa)
  {
    forall j | 0 <= j < |a| - sa ensures !VacantAt(a + c, j, len) {
      if VacantAt(a + c, j, len) {
        CrossingRun(a, c, pa, sa, ma, pc, sc, mc, j, len);
      }
    }
  }

  lemma {:induction false} LeftmostInRight(a: seq<bool>, c: seq<bool>, pa: int, sa: int, ma: int, pc: int, sc: int, mc: int, len: int, i: int)
    requires Summary(a, pa, sa, ma) && Summary(c, pc, sc, mc) && NoRun(a, len) && len > sa + pc && len > 0
    requires Leftmost(c, len, i)
    ensures Leftmost(a + c, len, if i == -1 then -1 else |a| + i)
  {
    forall j | i == -1 || j < |a| + i ensures !VacantAt(a + c, j, len) {
      if VacantAt(a + c, j, len) {
        CrossingRun(a, c, pa, sa, ma, pc, sc, mc, j, len);
      }
    }
    assert i != -1 ==> VacantAt(a + c, |a| + i, len);
  }

  /** A summary answers the question at once when the longest run is too short or the prefix long enough. */
  lemma {:induction false} LeftmostAtOnce(s: seq<bool>, prefix: int, suffix: int, longest: int, len: int)
    requires Summary(s, prefix, suffix, longest)
    ensures prefix >= 0 && (longest < len ==> Leftmost(s, len, -1))
    ensures prefix >= len ==> Leftmost(s, len, 0)
    ensures |s| == 1 ==> longest < len || prefix >= len
  {
    if longest < len {
      forall i ensures !VacantAt(s, i, len) {
        if VacantAt(s, i, len) { Shorten(s, i, len, longest + 1); }
      }
    }
    if |s| == 1 {
      var i :| VacantAt(s, i, longest);
      assert s[0] ==> VacantAt(s, 0, 1);
    }
  }

  // ----- the tree as a sequence of nodes; node n over [l, r] has its descendants at b, b + 1, ..., b + 2 * (r - l) - 1

  function RightBase(b: int, l: int, r: int): int { b + 2 + 2 * (Mid(l, r) - l) }

  /** The links that build leaves: children side by side, the left subtree's descendants first. */
  ghost predicate Layout(t: seq<Node>, n: int, b: int, l: int, r: int)
    decreases r - l
  {
    && l <= r && 0 < n < b && b + 2 * (r - l) <= |t|
    && if l == r then t[n].left == 0 && t[n].right == 0
       else t[n].left == b && t[n].right == b + 1
            && Layout(t, b, b + 2, l, Mid(l, r)) && Layout(t, b + 1, RightBase(b, l, r), Mid(l, r) + 1, r)
  }

  /** The plain array a node stands for. */
  ghost function Content(t: seq<Node>, n: int, b: int, l: int, r: int): (s: seq<bool>)
    requires Layout(t, n, b, l, r)
    ensures |s| == r - l + 1
    decreases r - l
  {
    if t[n].lazy == 1 then Uniform(r - l + 1, true)
    else if t[n].lazy == 0 || l == r then Uniform(r - l + 1, false)
    else Content(t, b, b + 2, l, Mid(l, r)) + Content(t, b + 1, RightBase(b, l, r), Mid(l, r) + 1, r)
  }

  /** Every node that is not below a uniform one summarises its array; below it anything may be stale. */
  ghost predicate Good(t: seq<Node>, n: int, b: int, l: int, r: int)
    requires Layout(t, n, b, l, r)
    decreases r - l
  {
    && 0 <= t[n].lazy <= 2 && (l == r ==> t[n].lazy != 2)
    && Summary(Content(t, n, b, l, r), t[n].leftVacant, t[n].rightVacant, t[n].maxVacant)
    && (t[n].lazy == 2 ==> Good(t, b, b + 2, l, Mid(l, r)) && Good(t, b + 1, RightBase(b, l, r), Mid(l, r) + 1, r))
  }

  ghost predicate SameAt(t: seq<Node>, t': seq<Node>, n: int, b: int, l: int, r: int) {
    && |t| == |t'| && 0 <= n < |t| && 0 <= b <= b + 2 * (r - l) <= |t|
    && t[n] == t'[n] && forall i :: b <= i < b + 2 * (r - l) ==> t[i] == t'[i]
  }

  /** A subtree only depends on its own nodes. */
  lemma {:induction false} Frame(t: seq<Node>, t': seq<Node>, n: int, b: int, l: int, r: int)
    requires Layout(t, n, b, l, r) && SameAt(t, t', n, b, l, r)
    ensures Layout(t', n, b, l, r) && Content(t', n, b, l, r) == Content(t, n, b, l, r)
    ensures Good(t, n, b, l, r) <==> Good(t', n, b, l, r)
    decreases r - l
  {
    hide Summary, SameAt, Mid, RightBase, Uniform;
    SameNode(t, t', n, b, l, r);
    if l < r {
      SameHalves(t, t', n, b, l, r);
      Frame(t, t', b, b + 2, l, Mid(l, r));
      Frame(t, t', b + 1, RightBase(b, l, r), Mid(l, r) + 1, r);
    }
  }

  lemma {:induction false} SameNode(t: seq<Node>, t': seq<Node>, n: int, b: int, l: int, r: int)
    requires SameAt(t, t', n, b, l, r)
    ensures |t| == |t'| && 0 <= n < |t| && t[n] == t'[n]
  {
  }

  lemma {:induction false} SameHalves(t: seq<Node>, t': seq<Node>, n: int, b: int, l: int, r: int)
    requires l < r && SameAt(t, t', n, b, l, r)
    ensures l <= Mid(l, r) < r
    ensures SameAt(t, t', b, b + 2, l, Mid(l, r)) && SameAt(t, t', b + 1, RightBase(b, l, r), Mid(l, r) + 1, r)
  {
  }

  ghost predicate SameLinks(t: seq<Node>, t': seq<Node>) {
    |t'| == |t| && forall i :: 0 < i < |t| ==> t'[i].left == t[i].left && t'[i].right == t[i].right
  }

  /** Links alone decide the layout. */
  lemma {:induction false} FrameLayout(t: seq<Node>, t': seq<Node>, n: int, b: int, l: int, r: int)
    requires Layout(t, n, b, l, r)
    requires SameLinks(t, t')
    ensures Layout(t', n, b, l, r)
    decreases r - l
  {
    if l < r {
      FrameLayout(t, t', b, b + 2, l, Mid(l, r));
      FrameLayout(t, t', b + 1, RightBase(b, l, r), Mid(l, r) + 1, r);
    }
  }

  ghost function LeftContent(t: seq<Node>, b: int, l: int, r: int): seq<bool>
    requires l < r && Layout(t, b, b + 2, l, Mid(l, r))
  {
    Content(t, b, b + 2, l, Mid(l, r))
  }

  ghost function RightContent(t: seq<Node>, b: int, l: int, r: int): seq<bool>
    requires l < r && Layout(t, b + 1, RightBase(b, l, r), Mid(l, r) + 1, r)
  {
    Content(t, b + 1, RightBase(b, l, r), Mid(l, r) + 1, r)
  }

  ghost predicate ChildrenGood(t: seq<Node>, n: int, b: int, l: int, r: int)
    requires l < r && Layout(t, n, b, l, r)
  {
    Good(t, b, b + 2, l, Mid(l, r)) && Good(t, b + 1, RightBase(b, l, r), Mid(l, r) + 1, r)
  }

  /** `t'` only differs from `t` inside the subtree of `n` and in the scratch node 0. */
  ghost predicate OnlyBelow(t: seq<Node>, t': seq<Node>, n: int, b: int, l: int, r: int) {
    |t'| == |t| && forall i :: 0 < i < |t| && i != n && !(b <= i < b + 2 * (r - l)) ==> t'[i] == t[i]
  }

  /** The node that pushup computes from the two children. */
  function PushedUp(node: Node, lc: Node, rc: Node, left: int, right: int): Node {
    var mid := Mid(left, right);
    var m := if lc.maxVacant < rc.maxVacant then rc.maxVacant else lc.maxVacant;
    node.(leftVacant := if lc.leftVacant == mid - left + 1 then lc.leftVacant + rc.leftVacant else lc.leftVacant,
          rightVacant := if rc.rightVacant == right - mid then rc.rightVacant + lc.rightVacant else rc.rightVacant,
          maxVacant := if m < rc.leftVacant + lc.rightVacant then rc.leftVacant + lc.rightVacant else m,
          lazy := if (lc.lazy == 2 && rc.lazy == 2) || lc.lazy != rc.lazy then 2 else node.lazy)
  }

  /** Once its children agree on a uniform tag, a node that kept a tag 0 or 1 has the same tag: one
      position of that value is enough to know. */
  lemma {:induction false} UniformNode(t: seq<Node>, n: int, b: int, l: int, r: int, position: int)
    requires l < r && Layout(t, n, b, l, r) && ChildrenGood(t, n, b, l, r)
    requires t[b].lazy == t[b + 1].lazy != 2 && 0 <= t[n].lazy <= 1
    requires 0 <= position <= r - l
    requires (LeftContent(t, b, l, r) + RightContent(t, b, l, r))[position] == (t[n].lazy == 1)
    ensures Content(t, n, b, l, r) == LeftContent(t, b, l, r) + RightContent(t, b, l, r)
  {
  }

  /** A node whose children are good and whose own numbers summarise both is good. */
  lemma {:induction false} MixedGood(t: seq<Node>, n: int, b: int, l: int, r: int)
    requires l < r && Layout(t, n, b, l, r) && ChildrenGood(t, n, b, l, r) && t[n].lazy == 2
    requires Summary(LeftContent(t, b, l, r) + RightContent(t, b, l, r), t[n].leftVacant, t[n].rightVacant, t[n].maxVacant)
    ensures Good(t, n, b, l, r) && Content(t, n, b, l, r) == LeftContent(t, b, l, r) + RightContent(t, b, l, r)
  {
  }

  /** Pushup makes the node stand for its children's arrays, provided a tag 0 or 1 it may keep is
      the value of some position. */
  lemma {:induction false} PushupGood(t: seq<Node>, n: int, b: int, l: int, r: int, position: int)
    requires l < r && Layout(t, n, b, l, r) && ChildrenGood(t, n, b, l, r)
    requires 0 <= t[n].lazy <= 2 && 0 <= position <= r - l
    requires t[n].lazy != 2 ==> (LeftContent(t, b, l, r) + RightContent(t, b, l, r))[position] == (t[n].lazy == 1)
    ensures var t' := t[n := PushedUp(t[n], t[b], t[b + 1], l, r)];
            && Layout(t', n, b, l, r) && Good(t', n, b, l, r)
            && Content(t', n, b, l, r) == LeftContent(t, b, l, r) + RightContent(t, b, l, r)
  {
    hide Summary, Content;
    var t' := t[n := PushedUp(t[n], t[b], t[b + 1], l, r)];
    Frame(t, t', b, b + 2, l, Mid(l, r));
    Frame(t, t', b + 1, RightBase(b, l, r), Mid(l, r) + 1, r);
    SummaryConcat(LeftContent(t, b, l, r), RightContent(t, b, l, r), t[b].leftVacant, t[b].rightVacant, t[b].maxVacant,
                  t[b + 1].leftVacant, t[b + 1].rightVacant, t[b + 1].maxVacant);
    assert LeftContent(t', b, l, r) == LeftContent(t, b, l, r) && RightContent(t', b, l, r) == RightContent(t, b, l, r);
    if t'[n].lazy != 2 {
      UniformNode(t', n, b, l, r, position);
    } else {
      MixedGood(t', n, b, l, r);
    }
  }

  function Filled(node: Node, len: int, lazy: int): Node {
    node.(leftVacant := len, rightVacant := len, maxVacant := len, lazy := lazy)
  }

  /** Pushdown: a uniform node overwrites both children (node 0 in place of a leaf's children). */
  function PushedDown(t: seq<Node>, n: int, l: int, r: int): seq<Node>
    requires 0 <= n < |t| && 0 <= t[n].left < |t| && 0 <= t[n].right < |t|
  {
    var mid, lc, rc := Mid(l, r), t[n].left, t[n].right;
    if t[n].lazy == 1 then
      var t1 := t[lc := Filled(t[lc], mid - l + 1, 1)];
      t1[rc := Filled(t1[rc], r - mid, 1)]
    else if t[n].lazy == 0 then
      var t1 := t[lc := Filled(t[lc], 0, 0)];
      t1[rc := Filled(t1[rc], 0, 0)]
    else t
  }

  lemma {:induction false} FilledGood(t: seq<Node>, n: int, b: int, l: int, r: int)
    requires Layout(t, n, b, l, r) && 0 <= t[n].lazy <= 1
    requires var v := if t[n].lazy == 1 then r - l + 1 else 0; t[n].leftVacant == t[n].rightVacant == t[n].maxVacant == v
    ensures Good(t, n, b, l, r) && Content(t, n, b, l, r) == Uniform(r - l + 1, t[n].lazy == 1)
  {
    SummaryUniform(r - l + 1, t[n].lazy == 1);
  }

  /** Pushing down changes nothing but the children of a uniform node. */
  lemma {:induction false} PushedFrame(t: seq<Node>, n: int, b: int, l: int, r: int)
    requires l < r && Layout(t, n, b, l, r)
    ensures t[n].left == b && t[n].right == b + 1
    ensures var t' := PushedDown(t, n, l, r); t'[n] == t[n] && SameLinks(t, t') && OnlyBelow(t, t', n, b, l, r)
  {
    hide Layout;
    Links(t, n, b, l, r);
    RoomBelow(t, n, b, l, r);
  }

  lemma {:induction false} RoomBelow(t: seq<Node>, n: int, b: int, l: int, r: int)
    requires Layout(t, n, b, l, r)
    ensures b + 2 * (r - l) <= |t|
  {
  }

  lemma {:induction false} MixedParts(t: seq<Node>, n: int, b: int, l: int, r: int)
    requires l < r && Layout(t, n, b, l, r) && Good(t, n, b, l, r) && t[n].lazy == 2
    ensures ChildrenGood(t, n, b, l, r) && LeftContent(t, b, l, r) + RightContent(t, b, l, r) == Content(t, n, b, l, r)
  {
    hide Summary;
  }

  lemma {:induction false} UniformParts(t: seq<Node>, t': seq<Node>, n: int, b: int, l: int, r: int)
    requires l < r && Layout(t, n, b, l, r) && Layout(t', n, b, l, r) && 0 <= t[n].lazy <= 1 && t' == PushedDown(t, n, l, r)
    ensures ChildrenGood(t', n, b, l, r) && LeftContent(t', b, l, r) + RightContent(t', b, l, r) == Content(t, n, b, l, r)
  {
    hide Layout, Good, Summary;
    Links(t, n, b, l, r);
    Links(t', n, b, l, r);
    FilledGood(t', b, b + 2, l, Mid(l, r));
    FilledGood(t', b + 1, RightBase(b, l, r), Mid(l, r) + 1, r);
  }

  /** Pushdown makes the children stand for the two halves of the node's array and changes no array. */
  lemma {:induction false} PushdownGood(t: seq<Node>, n: int, b: int, l: int, r: int)
    requires l < r && Layout(t, n, b, l, r) && Good(t, n, b, l, r)
    ensures var t' := PushedDown(t, n, l, r);
            && t'[n] == t[n] && SameLinks(t, t') && OnlyBelow(t, t', n, b, l, r)
            && Layout(t', n, b, l, r) && ChildrenGood(t', n, b, l, r)
            && LeftContent(t', b, l, r) + RightContent(t', b, l, r) == Content(t, n, b, l, r)
  {
    hide Summary, Good, Content, Layout, SameLinks, OnlyBelow, ChildrenGood, LeftContent, RightContent;
    Links(t, n, b, l, r);
    PushedFrame(t, n, b, l, r);
    var t' := PushedDown(t, n, l, r);
    FrameLayout(t, t', n, b, l, r);
    GoodTag(t, n, b, l, r);
    if t[n].lazy == 2 {
      MixedParts(t, n, b, l, r);
    } else {
      UniformParts(t, t', n, b, l, r);
    }
  }

  lemma {:induction false} AssignConcat(a: seq<bool>, c: seq<bool>, left: int, from: int, to: int, op: bool)
    ensures Assign(a + c, left, from, to, op) == Assign(a, left, from, to, op) + Assign(c, left + |a|, from, to, op)
  {
  }

  /** The position that tells a partial change from a full one keeps its value. */
  lemma {:induction false} KeptPosition(s: seq<bool>, left: int, from: int, to: int, op: bool) returns (position: int)
    requires |s| > 0 && !(from <= left && left + |s| - 1 <= to)
    ensures 0 <= position < |s| && Assign(s, left, from, to, op)[position] == s[position]
  {
    position := if left < from then 0 else |s| - 1;
  }

  /** From `t` to `t'`, node `n` went from its old array to the one with [from, to] set to `op`, and
      nothing outside the subtree but node 0 changed. */
  ghost predicate Changed(t: seq<Node>, t': seq<Node>, n: int, b: int, l: int, r: int, from: int, to: int, op: bool) {
    && Layout(t, n, b, l, r) && Layout(t', n, b, l, r) && Good(t', n, b, l, r)
    && SameLinks(t, t') && OnlyBelow(t, t', n, b, l, r)
    && Content(t', n, b, l, r) == Assign(Content(t, n, b, l, r), l, from, to, op)
  }

  /** After both recursive changes the children hold the two halves of the changed array. */
  lemma {:induction false} HalvesChanged(t: seq<Node>, t1: seq<Node>, t2: seq<Node>, t3: seq<Node>, n: int, b: int, l: int, r: int,
                                         from: int, to: int, op: bool)
    requires l < r && Layout(t, n, b, l, r) && Good(t, n, b, l, r) && t1 == PushedDown(t, n, l, r)
    requires Changed(t1, t2, b, b + 2, l, Mid(l, r), from, to, op)
    requires Changed(t2, t3, b + 1, RightBase(b, l, r), Mid(l, r) + 1, r, from, to, op)
    ensures Layout(t3, n, b, l, r) && t3[n] == t[n] && SameLinks(t, t3) && OnlyBelow(t, t3, n, b, l, r)
    ensures ChildrenGood(t3, n, b, l, r)
    ensures LeftContent(t3, b, l, r) + RightContent(t3, b, l, r) == Assign(Content(t, n, b, l, r), l, from, to, op)
  {
    hide Summary, Good, Content, Assign, SameLinks, OnlyBelow, PushedDown, SameAt;
    PushdownGood(t, n, b, l, r);
    HalvesFrame(t, t1, t2, t3, n, b, l, r);
    Frame(t1, t2, b + 1, RightBase(b, l, r), Mid(l, r) + 1, r);
    Frame(t2, t3, b, b + 2, l, Mid(l, r));
    AssignConcat(LeftContent(t1, b, l, r), RightContent(t1, b, l, r), l, from, to, op);
  }

  /** Each half's change leaves the other half and the node alone. */
  lemma {:induction false} HalvesFrame(t: seq<Node>, t1: seq<Node>, t2: seq<Node>, t3: seq<Node>, n: int, b: int, l: int, r: int)
    requires l < r && Layout(t, n, b, l, r)
    requires SameLinks(t, t1) && OnlyBelow(t, t1, n, b, l, r) && t1[n] == t[n]
    requires SameLinks(t1, t2) && OnlyBelow(t1, t2, b, b + 2, l, Mid(l, r))
    requires SameLinks(t2, t3) && OnlyBelow(t2, t3, b + 1, RightBase(b, l, r), Mid(l, r) + 1, r)
    ensures SameAt(t1, t2, b + 1, RightBase(b, l, r), Mid(l, r) + 1, r) && SameAt(t2, t3, b, b + 2, l, Mid(l, r))
    ensures Layout(t3, n, b, l, r) && t3[n] == t[n] && SameLinks(t, t3) && OnlyBelow(t, t3, n, b, l, r)
  {
    FrameLayout(t, t3, n, b, l, r);
  }

  /** Pushing down, changing both halves and pushing up changes the node's whole array. */
  lemma {:induction false} ChangeGood(t: seq<Node>, t1: seq<Node>, t2: seq<Node>, t3: seq<Node>, n: int, b: int, l: int, r: int,
                                      from: int, to: int, op: bool)
    requires l < r && Layout(t, n, b, l, r) && Good(t, n, b, l, r) && !(from <= l && r <= to)
    requires t1 == PushedDown(t, n, l, r)
    requires Changed(t1, t2, b, b + 2, l, Mid(l, r), from, to, op)
    requires Changed(t2, t3, b + 1, RightBase(b, l, r), Mid(l, r) + 1, r, from, to, op)
    ensures Layout(t3, n, b, l, r)
    ensures Changed(t, t3[n := PushedUp(t3[n], t3[b], t3[b + 1], l, r)], n, b, l, r, from, to, op)
  {
    hide Summary, Good, Content;
    HalvesChanged(t, t1, t2, t3, n, b, l, r, from, to, op);
    GoodTag(t, n, b, l, r);
    var position := KeptPosition(Content(t, n, b, l, r), l, from, to, op);
    if t[n].lazy != 2 {
      UniformContent(t, n, b, l, r);
    }
    PushupGood(t3, n, b, l, r, position);
  }

  lemma {:induction false} UniformContent(t: seq<Node>, n: int, b: int, l: int, r: int)
    requires Layout(t, n, b, l, r) && 0 <= t[n].lazy <= 1
    ensures Content(t, n, b, l, r) == Uniform(r - l + 1, t[n].lazy == 1)
  {
  }

  lemma {:induction false} GoodTag(t: seq<Node>, n: int, b: int, l: int, r: int)
    requires Layout(t, n, b, l, r) && Good(t, n, b, l, r)
    ensures 0 <= t[n].lazy <= 2 && (l == r ==> t[n].lazy != 2)
    ensures Summary(Content(t, n, b, l, r), t[n].leftVacant, t[n].rightVacant, t[n].maxVacant)
  {
  }

  lemma {:induction false} LeafGood(t: seq<Node>, n: int, b: int, l: int)
    requires 0 < n < b <= |t| && t[n] == BLANK.(leftVacant := 1, rightVacant := 1, maxVacant := 1)
    ensures Layout(t, n, b, l, l) && Good(t, n, b, l, l) && Content(t, n, b, l, l) == Uniform(1, true)
  {
    FilledGood(t, n, b, l, l);
  }

  lemma {:induction false} SameHalf(t: seq<Node>, t': seq<Node>, b: int, l: int, r: int)
    requires l < r && 0 < b && b + 2 * (r - l) <= |t| == |t'| && t[b] == t'[b]
    requires forall i :: b + 2 <= i < RightBase(b, l, r) ==> t'[i] == t[i]
    ensures SameAt(t, t', b, b + 2, l, Mid(l, r))
  {
  }

  /** Pushing up after both halves have been built. */
  lemma {:induction false} BuiltGood(t2: seq<Node>, t: seq<Node>, n: int, b: int, l: int, r: int)
    requires l < r && 0 < n < b && b + 2 * (r - l) <= |t| == |t2|
    requires t[n] == BLANK.(left := b, right := b + 1) && SameAt(t2, t, b, b + 2, l, Mid(l, r))
    requires Layout(t2, b, b + 2, l, Mid(l, r)) && Good(t2, b, b + 2, l, Mid(l, r))
    requires Content(t2, b, b + 2, l, Mid(l, r)) == Uniform(Mid(l, r) - l + 1, true)
    requires Layout(t, b + 1, RightBase(b, l, r), Mid(l, r) + 1, r) && Good(t, b + 1, RightBase(b, l, r), Mid(l, r) + 1, r)
    requires Content(t, b + 1, RightBase(b, l, r), Mid(l, r) + 1, r) == Uniform(r - Mid(l, r), true)
    ensures var t' := t[n := PushedUp(t[n], t[b], t[b + 1], l, r)];
      Layout(t', n, b, l, r) && Good(t', n, b, l, r) && Content(t', n, b, l, r) == Uniform(r - l + 1, true)
  {
    hide Summary, Good, Content;
    Frame(t2, t, b, b + 2, l, Mid(l, r));
    assert Uniform(Mid(l, r) - l + 1, true) + Uniform(r - Mid(l, r), true) == Uniform(r - l + 1, true);
    PushupGood(t, n, b, l, r, 0);
  }

  class Tree {
    const tree: array<Node>
    var buildCnt: int

    ghost predicate Holds(n: int, b: int, l: int, r: int)
      reads tree
    {
      Layout(tree[..], n, b, l, r) && Good(tree[..], n, b, l, r)
    }

    method Pushup(n: int, left: int, right: int)
      requires 0 <= n < tree.Length && 0 <= tree[n].left < tree.Length && 0 <= tree[n].right < tree.Length
      modifies tree
      ensures tree[..] == old(tree[..])[n := PushedUp(old(tree[n]), old(tree[tree[n].left]), old(tree[tree[n].right]), left, right)]
    {
      var mid := Mid(left, right);
      var lc, rc := tree[tree[n].left], tree[tree[n].right];
      tree[n] := tree[n].(
        leftVacant := if lc.leftVacant == mid - left + 1 then lc.leftVacant + rc.leftVacant else lc.leftVacant,
        rightVacant := if rc.rightVacant == right - mid then rc.rightVacant + lc.rightVacant else rc.rightVacant,
        maxVacant := var m := if lc.maxVacant < rc.maxVacant then rc.maxVacant else lc.maxVacant;
                     if m < rc.leftVacant + lc.rightVacant then rc.leftVacant + lc.rightVacant else m);
      if (lc.lazy == 2 && rc.lazy == 2) || lc.lazy != rc.lazy {
        tree[n] := tree[n].(lazy := 2);
      }
    }

    method Pushdown(n: int, left: int, right: int)
      requires 0 < n < tree.Length && 0 <= tree[n].left < tree.Length && 0 <= tree[n].right < tree.Length
      requires tree[n].left != n && tree[n].right != n
      modifies tree
      ensures tree[..] == PushedDown(old(tree[..]), n, left, right)
    {
      var mid := Mid(left, right);
      if tree[n].lazy == 1 {
        tree[tree[n].left] := Filled(tree[tree[n].left], mid - left + 1, 1);
        tree[tree[n].right] := Filled(tree[tree[n].right], right - mid, 1);
      }
      if tree[n].lazy == 0 {
        tree[tree[n].left] := Filled(tree[tree[n].left], 0, 0);
        tree[tree[n].right] := Filled(tree[tree[n].right], 0, 0);
      }
    }

    /** Sets the positions in [changeLeft, changeRight] of the array below `n` to `op`. */
    method Change(n: int, left: int, right: int, changeLeft: int, changeRight: int, op: bool, ghost b: int)
      requires Holds(n, b, left, right)
      modifies tree
      ensures Changed(old(tree[..]), tree[..], n, b, left, right, changeLeft, changeRight, op)
      decreases right - left
    {
      hide Summary, Good, Content, Changed, SameLinks, OnlyBelow, Layout, PushedDown, Filled, PushedUp;
      ghost var t := tree[..];
      Links(t, n, b, left, right);
      Pushdown(n, left, right);
      ghost var t1 := tree[..];
      if changeLeft <= left && right <= changeRight {
        PushdownKeeps(t, n, b, left, right);
        FullChange(t, t1, n, b, left, right, changeLeft, changeRight, op);
        tree[n] := Filled(tree[n], if op then right - left + 1 else 0, if op then 1 else 0);
        return;
      }
      if left > changeRight || right < changeLeft {
        OutOfRange(t, n, b, left, right, changeLeft, changeRight, op);
        return;
      }
      var mid := Mid(left, right);
      PushdownGood(t, n, b, left, right);
      Links(t1, n, b, left, right);
      Change(tree[n].left, left, mid, changeLeft, changeRight, op, b + 2);
      ghost var t2 := tree[..];
      RightUntouched(t1, t2, n, b, left, right, changeLeft, changeRight, op);
      Links(t2, n, b, left, right);
      Change(tree[n].right, mid + 1, right, changeLeft, changeRight, op, RightBase(b, left, right));
      ChangeGood(t, t1, t2, tree[..], n, b, left, right, changeLeft, changeRight, op);
      Links(tree[..], n, b, left, right);
      Pushup(n, left, right);
    }

    /** The smallest position below `n` where `len` vacant positions start, or -1 if there is none. */
    method Query(n: int, left: int, right: int, len: int, ghost b: int) returns (position: int)
      requires Holds(n, b, left, right) && left > 0
      modifies tree
      ensures Kept(old(tree[..]), tree[..], n, b, left, right)
      ensures Leftmost(old(Content(tree[..], n, b, left, right)), len, if position == -1 then -1 else position - left)
      ensures position == -1 || left <= position
      decreases right - left
    {
      hide Summary, Good, Content, Layout, Kept, Leftmost, PushedDown;
      ghost var t := tree[..];
      GoodTag(t, n, b, left, right);
      PushdownKeeps(t, n, b, left, right);
      Links(t, n, b, left, right);
      Pushdown(n, left, right);
      ghost var t1 := tree[..];
      PushdownKept(t, n, b, left, right);
      LeftmostAtOnce(Content(t, n, b, left, right), t[n].leftVacant, t[n].rightVacant, t[n].maxVacant, len);
      if tree[n].maxVacant < len {
        return -1;
      }
      if tree[n].leftVacant >= len {
        return left;
      }
      var mid := Mid(left, right);
      PushdownGood(t, n, b, left, right);
      Links(t1, n, b, left, right);
      position := Query(tree[n].left, left, mid, len, b + 2);
      ghost var t2 := tree[..];
      AfterLeft(t, t1, t2, n, b, left, right);
      HalvesSums(t1, t2, n, b, left, right);
      ghost var a, c := LeftContent(t1, b, left, right), RightContent(t1, b, left, right);
      if position != -1 {
        LeftmostInLeft(a, c, len, position - left);
        return position;
      }
      NoneLeft(a, len);
      if len <= tree[tree[n].left].rightVacant + tree[tree[n].right].leftVacant {
        LeftmostAcross(a, c, t2[b].leftVacant, t2[b].rightVacant, t2[b].maxVacant,
                       t2[b + 1].leftVacant, t2[b + 1].rightVacant, t2[b + 1].maxVacant, len);
        return mid - tree[tree[n].left].rightVacant + 1;
      }
      position := Query(tree[n].right, mid + 1, right, len, RightBase(b, left, right));
      LeftmostInRight(a, c, t2[b].leftVacant, t2[b].rightVacant, t2[b].maxVacant,
                      t2[b + 1].leftVacant, t2[b + 1].rightVacant, t2[b + 1].maxVacant, len,
                      if position == -1 then -1 else position - mid - 1);
      AfterRight(t, t1, t2, tree[..], n, b, left, right);
    }

    /** Numbers and links the nodes below `n` and leaves every position vacant. */
    method Build(n: int, left: int, right: int)
      requires left <= right && 0 < n <= buildCnt && buildCnt + 2 * (right - left) < tree.Length
      requires tree[n] == BLANK && forall i :: buildCnt < i <= buildCnt + 2 * (right - left) ==> tree[i] == BLANK
      modifies this`buildCnt, tree
      ensures buildCnt == old(buildCnt) + 2 * (right - left)
      ensures Holds(n, old(buildCnt) + 1, left, right)
      ensures Content(tree[..], n, old(buildCnt) + 1, left, right) == Uniform(right - left + 1, true)
      ensures forall i :: 0 <= i < tree.Length && i != n && !(old(buildCnt) < i <= buildCnt) ==> tree[i] == old(tree[i])
      decreases right - left
    {
      hide Summary, Good, Content, Layout, PushedUp, SameAt, Uniform;
      if left == right {
        tree[n] := tree[n].(leftVacant := 1, rightVacant := 1, maxVacant := 1);
        LeafGood(tree[..], n, buildCnt + 1, left);
        return;
      }
      ghost var b := buildCnt + 1;
      var mid := Mid(left, right);
      tree[n] := tree[n].(left := buildCnt + 1, right := buildCnt + 2);
      buildCnt := buildCnt + 2;
      Build(tree[n].left, left, mid);
      ghost var t2 := tree[..];
      Build(tree[n].right, mid + 1, right);
      SameHalf(t2, tree[..], b, left, right);
      BuiltGood(t2, tree[..], n, b, left, right);
      Pushup(n, left, right);
    }

    constructor (N: int)
      requires N > 0
      ensures fresh(tree) && Holds(1, 2, 1, N) && Content(tree[..], 1, 2, 1, N) == Uniform(N, true)
    {
      tree := new Node[2 * N + 1](_ => BLANK);
      buildCnt := 1;
      new;
      Build(1, 1, N);
    }
  }

  /** Changing the left half leaves the right child ready for its own change. */
  lemma {:induction false} RightUntouched(t1: seq<Node>, t2: seq<Node>, n: int, b: int, l: int, r: int, from: int, to: int, op: bool)
    requires l < r && Layout(t1, n, b, l, r) && ChildrenGood(t1, n, b, l, r)
    requires Changed(t1, t2, b, b + 2, l, Mid(l, r), from, to, op)
    ensures |t2| == |t1| && t2[n] == t1[n] && Layout(t2, n, b, l, r)
    ensures Good(t2, b + 1, RightBase(b, l, r), Mid(l, r) + 1, r)
  {
    hide Summary, Good, Content;
    FrameLayout(t1, t2, n, b, l, r);
    Frame(t1, t2, b + 1, RightBase(b, l, r), Mid(l, r) + 1, r);
  }

  /** Pushing a node down leaves its own array alone. */
  lemma {:induction false} PushdownKeeps(t: seq<Node>, n: int, b: int, l: int, r: int)
    requires Layout(t, n, b, l, r) && Good(t, n, b, l, r)
    ensures var t' := PushedDown(t, n, l, r);
            && SameLinks(t, t') && OnlyBelow(t, t', n, b, l, r) && t'[n] == t[n]
            && Layout(t', n, b, l, r) && Good(t', n, b, l, r) && Content(t', n, b, l, r) == Content(t, n, b, l, r)
  {
    hide Summary;
    var t' := PushedDown(t, n, l, r);
    FrameLayout(t, t', n, b, l, r);
    if l < r { PushdownGood(t, n, b, l, r); }
  }

  lemma {:induction false} OutOfRange(t: seq<Node>, n: int, b: int, l: int, r: int, from: int, to: int, op: bool)
    requires Layout(t, n, b, l, r) && Good(t, n, b, l, r) && (l > to || r < from)
    ensures Changed(t, PushedDown(t, n, l, r), n, b, l, r, from, to, op)
  {
    hide Summary, Good, Content;
    PushdownKeeps(t, n, b, l, r);
  }

  lemma {:induction false} FullChange(t: seq<Node>, t1: seq<Node>, n: int, b: int, l: int, r: int, from: int, to: int, op: bool)
    requires Layout(t, n, b, l, r) && Layout(t1, n, b, l, r) && SameLinks(t, t1) && OnlyBelow(t, t1, n, b, l, r)
    requires from <= l && r <= to
    ensures Changed(t, t1[n := Filled(t1[n], if op then r - l + 1 else 0, if op then 1 else 0)], n, b, l, r, from, to, op)
  {
    hide Summary, Good, Content;
    var t' := t1[n := Filled(t1[n], if op then r - l + 1 else 0, if op then 1 else 0)];
    FrameLayout(t1, t', n, b, l, r);
    FilledGood(t', n, b, l, r);
  }

  /** From `t` to `t'`, node `n` still stands for the same array, and nothing outside its subtree but
      node 0 changed. */
  ghost predicate Kept(t: seq<Node>, t': seq<Node>, n: int, b: int, l: int, r: int) {
    && Layout(t, n, b, l, r) && Layout(t', n, b, l, r) && Good(t', n, b, l, r)
    && SameLinks(t, t') && OnlyBelow(t, t', n, b, l, r)
    && Content(t', n, b, l, r) == Content(t, n, b, l, r)
  }

  /** Both children still stand for the same halves, and the node itself is untouched. */
  ghost predicate HalvesKept(t1: seq<Node>, t': seq<Node>, n: int, b: int, l: int, r: int)
    requires l < r && Layout(t1, n, b, l, r)
  {
    && SameLinks(t1, t') && OnlyBelow(t1, t', n, b, l, r) && t'[n] == t1[n]
    && Layout(t', n, b, l, r) && ChildrenGood(t', n, b, l, r)
    && LeftContent(t', b, l, r) == LeftContent(t1, b, l, r) && RightContent(t', b, l, r) == RightContent(t1, b, l, r)
  }

  lemma {:induction false} LeftKept(t1: seq<Node>, t2: seq<Node>, n: int, b: int, l: int, r: int)
    requires l < r && Layout(t1, n, b, l, r) && ChildrenGood(t1, n, b, l, r)
    requires Kept(t1, t2, b, b + 2, l, Mid(l, r))
    ensures HalvesKept(t1, t2, n, b, l, r)
  {
    hide Summary, Good, Content;
    FrameLayout(t1, t2, n, b, l, r);
    Frame(t1, t2, b + 1, RightBase(b, l, r), Mid(l, r) + 1, r);
  }

  lemma {:induction false} RightKept(t1: seq<Node>, t2: seq<Node>, t3: seq<Node>, n: int, b: int, l: int, r: int)
    requires l < r && Layout(t1, n, b, l, r) && HalvesKept(t1, t2, n, b, l, r)
    requires Kept(t2, t3, b + 1, RightBase(b, l, r), Mid(l, r) + 1, r)
    ensures HalvesKept(t1, t3, n, b, l, r)
  {
    hide Summary, Good, Content;
    FrameLayout(t2, t3, n, b, l, r);
    Frame(t2, t3, b, b + 2, l, Mid(l, r));
  }

  /** Queries below a pushed-down node keep the node's own array, whether its tag is uniform or not. */
  lemma {:induction false} NodeKept(t: seq<Node>, t': seq<Node>, n: int, b: int, l: int, r: int)
    requires l < r && Layout(t, n, b, l, r) && Good(t, n, b, l, r)
    requires Layout(PushedDown(t, n, l, r), n, b, l, r) && HalvesKept(PushedDown(t, n, l, r), t', n, b, l, r)
    ensures Kept(t, t', n, b, l, r)
  {
    hide Summary;
    PushdownGood(t, n, b, l, r);
  }

  lemma {:induction false} Links(t: seq<Node>, n: int, b: int, l: int, r: int)
    requires Layout(t, n, b, l, r)
    ensures l <= r && 0 < n < |t| && t[n].left != n && t[n].right != n
    ensures l == r ==> t[n].left == 0 && t[n].right == 0
    ensures l < r ==> 0 < n < b < b + 1 < |t| && t[n].left == b && t[n].right == b + 1
    ensures l < r ==> Layout(t, b, b + 2, l, Mid(l, r)) && Layout(t, b + 1, RightBase(b, l, r), Mid(l, r) + 1, r)
  {
  }

  lemma {:induction false} PushdownKept(t: seq<Node>, n: int, b: int, l: int, r: int)
    requires Layout(t, n, b, l, r) && Good(t, n, b, l, r)
    ensures 0 <= t[n].left < |t| && 0 <= t[n].right < |t| && PushedDown(t, n, l, r)[n] == t[n]
    ensures Kept(t, PushedDown(t, n, l, r), n, b, l, r)
  {
    PushdownKeeps(t, n, b, l, r);
  }

  /** The state after the query of the left half. */
  lemma {:induction false} AfterLeft(t: seq<Node>, t1: seq<Node>, t2: seq<Node>, n: int, b: int, l: int, r: int)
    requires l < r && Layout(t, n, b, l, r) && Good(t, n, b, l, r) && t1 == PushedDown(t, n, l, r)
    requires Layout(t1, n, b, l, r) && ChildrenGood(t1, n, b, l, r) && Kept(t1, t2, b, b + 2, l, Mid(l, r))
    ensures Kept(t, t2, n, b, l, r) && HalvesKept(t1, t2, n, b, l, r)
  {
    hide Summary, Good, Content, PushedDown;
    LeftKept(t1, t2, n, b, l, r);
    NodeKept(t, t2, n, b, l, r);
  }

  /** The node and its children while the halves are kept. */
  lemma {:induction false} HalvesSums(t1: seq<Node>, t2: seq<Node>, n: int, b: int, l: int, r: int)
    requires l < r && Layout(t1, n, b, l, r) && HalvesKept(t1, t2, n, b, l, r)
    ensures 0 < n < b < b + 1 < |t2| && t2[n] == t1[n] && t2[n].left == b && t2[n].right == b + 1
    ensures Layout(t2, b + 1, RightBase(b, l, r), Mid(l, r) + 1, r) && Good(t2, b + 1, RightBase(b, l, r), Mid(l, r) + 1, r)
    ensures Content(t2, b + 1, RightBase(b, l, r), Mid(l, r) + 1, r) == RightContent(t1, b, l, r)
    ensures Summary(LeftContent(t1, b, l, r), t2[b].leftVacant, t2[b].rightVacant, t2[b].maxVacant)
    ensures Summary(RightContent(t1, b, l, r), t2[b + 1].leftVacant, t2[b + 1].rightVacant, t2[b + 1].maxVacant)
  {
    hide Summary, Good, Content;
    GoodTag(t2, b, b + 2, l, Mid(l, r));
    GoodTag(t2, b + 1, RightBase(b, l, r), Mid(l, r) + 1, r);
  }

  /** The state after the queries of both halves. */
  lemma {:induction false} AfterRight(t: seq<Node>, t1: seq<Node>, t2: seq<Node>, t3: seq<Node>, n: int, b: int, l: int, r: int)
    requires l < r && Layout(t, n, b, l, r) && Good(t, n, b, l, r) && t1 == PushedDown(t, n, l, r)
    requires Layout(t1, n, b, l, r) && HalvesKept(t1, t2, n, b, l, r)
    requires Kept(t2, t3, b + 1, RightBase(b, l, r), Mid(l, r) + 1, r)
    ensures Kept(t, t3, n, b, l, r)
  {
    hide Summary, Good, Content, PushedDown, HalvesKept, Kept;
    RightKept(t1, t2, t3, n, b, l, r);
    NodeKept(t, t3, n, b, l, r);
  }

  lemma {:induction false} NoneLeft(s: seq<bool>, len: int)
    requires Leftmost(s, len, -1)
    ensures NoRun(s, len)
  {
  }

  // ----- whole runs

  datatype Request = Reserve(len: int) | Vacate(start: int, len: int)

  ghost function FirstFrom(s: seq<bool>, len: int, i: int): int
    decreases |s| - i
  {
    if i + len > |s| || i >= |s| then -1
    else if VacantAt(s, i, len) then i
    else FirstFrom(s, len, i + 1)
  }

  lemma {:induction false} LeftmostIsFirst(s: seq<bool>, len: int, i: int, from: int)
    requires s != [] && Leftmost(s, len, i) && 0 <= from && (i == -1 || from <= i)
    ensures FirstFrom(s, len, from) == i
    decreases |s| - from
  {
    assert len <= 0 ==> VacantAt(s, 0, len);
    if from + len <= |s| && !VacantAt(s, from, len) {
      LeftmostIsFirst(s, len, i, from + 1);
    }
  }

  /** What the requests do to a plain array of positions 1..|s|, and the numbers printed. */
  ghost function Serve(s: seq<bool>, requests: seq<Request>): (seq<bool>, seq<int>) {
    if requests == [] then (s, [])
    else
      var (s, printed) := Serve(s, requests[..|requests| - 1]);
      match requests[|requests| - 1]
      case Reserve(len) =>
        var i := FirstFrom(s, len, 0);
        if i == -1 then (s, printed + [0]) else (Assign(s, 1, i + 1, i + len, false), printed + [i + 1])
      case Vacate(start, len) => (Assign(s, 1, start, start + len - 1, true), printed)
  }

  lemma {:induction false} FirstIs(s: seq<bool>, len: int, from: nat)
    requires from < |s| && (len > 0 || from == 0)
    ensures var i := FirstFrom(s, len, from);
      if i == -1 then forall j :: j >= from ==> !VacantAt(s, j, len)
      else from <= i < |s| && VacantAt(s, i, len) && forall j :: from <= j < i ==> !VacantAt(s, j, len)
    decreases |s| - from
  {
    if from + len <= |s| && !VacantAt(s, from, len) && from + 1 < |s| { FirstIs(s, len, from + 1); }
  }

  /** Whether the range of `len` positions from `start` on covers position `x`. */
  predicate Covers(start: int, len: int, x: int) { start <= x <= start + len - 1 }

  /** `b` is `a` after a reservation of `len` positions was answered with `p`: 0 if there is no such run, and else the
      first of the leftmost vacant ones, which are now taken. */
  ghost predicate Reserved(a: seq<bool>, b: seq<bool>, len: int, p: int) {
    && |b| == |a| && 0 <= p <= |a|
    && (p == 0 ==> NoRun(a, len) && b == a)
    && (p > 0 ==> VacantAt(a, p - 1, len) && forall j :: 0 <= j < p - 1 ==> !VacantAt(a, j, len))
    && (p > 0 ==> forall k :: 0 <= k < |a| ==> b[k] == (a[k] && !Covers(p, len, k + 1)))
  }

  /** `b` is `a` with the positions of a range vacant. */
  ghost predicate Vacated(a: seq<bool>, b: seq<bool>, start: int, len: int) {
    |b| == |a| && forall k :: 0 <= k < |a| ==> b[k] == (a[k] || Covers(start, len, k + 1))
  }

  ghost predicate Served(a: seq<bool>, printed: seq<int>, b: seq<bool>, printed': seq<int>, request: Request) {
    match request
    case Reserve(len) => |printed'| == |printed| + 1 && printed'[..|printed|] == printed && Reserved(a, b, len, printed'[|printed|])
    case Vacate(start, len) => printed' == printed && Vacated(a, b, start, len)
  }

  /** What one more request does to the positions and to what is printed. */
  lemma {:induction false} ServedNext(s: seq<bool>, requests: seq<Request>, request: Request)
    requires s != []
    ensures var (a, printed) := Serve(s, requests); var (b, printed') := Serve(s, requests + [request]);
      |a| == |s| && Served(a, printed, b, printed', request)
    decreases |requests|
  {
    assert (requests + [request])[..|requests|] == requests;
    SameLength(s, requests);
    var (a, printed) := Serve(s, requests);
    if request.Reserve? { FirstIs(a, request.len, 0); }
  }

  lemma {:induction false} SameLength(s: seq<bool>, requests: seq<Request>)
    ensures |Serve(s, requests).0| == |s|
  {
    if requests != [] { SameLength(s, requests[..|requests| - 1]); }
  }

  function Reserves(requests: seq<Request>): nat {
    if requests == [] then 0 else Reserves(requests[..|requests| - 1]) + if requests[|requests| - 1].Reserve? then 1 else 0
  }

  lemma {:induction false} PrintedCount(s: seq<bool>, requests: seq<Request>)
    requires s != []
    ensures |Serve(s, requests).1| == Reserves(requests)
  {
    if requests != [] {
      var before, request := requests[..|requests| - 1], requests[|requests| - 1];
      assert requests == before + [request];
      PrintedCount(s, before);
      ServedNext(s, before, request);
    }
  }

  /** The number printed for request `i`, a reservation. */
  ghost function AnswerTo(s: seq<bool>, requests: seq<Request>, i: nat): int
    requires i <= |requests|
  {
    var k, printed := Reserves(requests[..i]), Serve(s, requests).1;
    if k < |printed| then printed[k] else 0
  }

  lemma {:induction false} ReservesMore(requests: seq<Request>, i: nat)
    requires i < |requests| && requests[i].Reserve?
    ensures Reserves(requests[..i]) < Reserves(requests)
  {
    var before := requests[..|requests| - 1];
    if i < |before| {
      ReservesMore(before, i);
      assert before[..i] == requests[..i];
    }
  }

  lemma {:induction false} AnswerNext(s: seq<bool>, requests: seq<Request>, request: Request, i: nat)
    requires s != [] && i <= |requests| && (requests + [request])[i].Reserve?
    ensures var (b, printed') := Serve(s, requests + [request]);
      AnswerTo(s, requests + [request], i) == if i == |requests| then printed'[|printed'| - 1] else AnswerTo(s, requests, i)
  {
    hide Serve, Reserves, Reserved, Vacated;
    PrintedCount(s, requests);
    PrintedCount(s, requests + [request]);
    ServedNext(s, requests, request);
    assert (requests + [request])[..i] == requests[..i];
    if i < |requests| { ReservesMore(requests, i); } else { assert requests[..i] == requests; }
  }

  /** The reservation `i` was granted a range that covers position `x`. */
  ghost predicate Granted(s: seq<bool>, requests: seq<Request>, i: int, x: int) {
    0 <= i < |requests| && requests[i].Reserve? && AnswerTo(s, requests, i) > 0 && Covers(AnswerTo(s, requests, i), requests[i].len, x)
  }

  predicate Vacates(request: Request, x: int) { request.Vacate? && Covers(request.start, request.len, x) }

  ghost predicate VacatedSince(requests: seq<Request>, i: int, x: int) {
    exists k :: 0 <= i < k < |requests| && Vacates(requests[k], x)
  }

  lemma {:induction false} GrantedNext(s: seq<bool>, requests: seq<Request>, request: Request, i: nat, x: int)
    requires s != [] && i < |requests|
    ensures Granted(s, requests + [request], i, x) <==> Granted(s, requests, i, x)
    ensures VacatedSince(requests + [request], i, x) <==> VacatedSince(requests, i, x) || Vacates(request, x)
  {
    hide AnswerTo;
    var more := requests + [request];
    if requests[i].Reserve? { AnswerNext(s, requests, request, i); }
    if VacatedSince(requests, i, x) {
      var k :| i < k < |requests| && Vacates(requests[k], x);
      assert Vacates(more[k], x);
    }
    if Vacates(request, x) { assert Vacates(more[|requests|], x); }
  }

  lemma {:induction false} GrantedLast(s: seq<bool>, requests: seq<Request>, request: Request, x: int)
    requires s != [] && 1 <= x <= |s|
    ensures var (a, printed) := Serve(s, requests); var (b, printed') := Serve(s, requests + [request]);
      |a| == |b| == |s| &&
      if Granted(s, requests + [request], |requests|, x) then a[x - 1] && !b[x - 1]
      else b[x - 1] == (a[x - 1] || Vacates(request, x))
  {
    hide Serve, AnswerTo;
    ServedNext(s, requests, request);
    assert (requests + [request])[|requests|] == request;
    if request.Reserve? { AnswerNext(s, requests, request, |requests|); }
  }

  /** At any time a position is taken exactly when some granted reservation covers it and no range that covers it has
      been vacated since. */
  lemma {:induction false} TakenIff(N: nat, requests: seq<Request>, x: int)
    requires 1 <= x <= N
    ensures |Serve(Uniform(N, true), requests).0| == N
    ensures var s := Uniform(N, true);
      (!Serve(s, requests).0[x - 1] <==> exists i :: Granted(s, requests, i, x) && !VacatedSince(requests, i, x))
  {
    hide Serve, Granted, VacatedSince;
    var s := Uniform(N, true);
    SameLength(s, requests);
    if requests == [] {
      NothingGranted(s, x);
    } else {
      var before, request := requests[..|requests| - 1], requests[|requests| - 1];
      assert requests == before + [request];
      TakenIff(N, before, x);
      GrantedLast(s, before, request, x);
      TakenNext(s, before, request, x);
    }
  }

  lemma {:induction false} NothingGranted(s: seq<bool>, x: int)
    ensures Serve(s, []).0 == s && forall i :: !Granted(s, [], i, x)
  {
  }

  lemma {:induction false} TakenNext(s: seq<bool>, requests: seq<Request>, request: Request, x: int)
    requires s != []
    ensures var more := requests + [request];
      (exists i :: Granted(s, more, i, x) && !VacatedSince(more, i, x)) <==>
      Granted(s, more, |requests|, x) || (!Vacates(request, x) && exists i :: Granted(s, requests, i, x) && !VacatedSince(requests, i, x))
  {
    hide AnswerTo;
    var more := requests + [request];
    forall i: nat | i < |requests|
      ensures Granted(s, more, i, x) <==> Granted(s, requests, i, x)
      ensures VacatedSince(more, i, x) <==> VacatedSince(requests, i, x) || Vacates(request, x)
    {
      GrantedNext(s, requests, request, i, x);
    }
    assert !VacatedSince(more, |requests|, x);
  }

  lemma {:induction false} AnswerPrefix(s: seq<bool>, requests: seq<Request>, n: nat, i: nat)
    requires s != [] && i < n <= |requests| && requests[i].Reserve?
    ensures AnswerTo(s, requests[..n], i) == AnswerTo(s, requests, i)
    decreases |requests|
  {
    hide AnswerTo;
    if n == |requests| {
      assert requests[..n] == requests;
    } else {
      var before, request := requests[..|requests| - 1], requests[|requests| - 1];
      assert requests == before + [request] && before[..n] == requests[..n];
      AnswerPrefix(s, before, n, i);
      AnswerNext(s, before, request, i);
    }
  }

  /** Two granted reservations share a position only if a range that covers it was vacated between them. */
  lemma {:induction false} NoDoubleBooking(N: nat, requests: seq<Request>, i: nat, j: nat, x: int)
    requires N > 0 && i < j && Granted(Uniform(N, true), requests, i, x) && Granted(Uniform(N, true), requests, j, x)
    ensures exists k :: i < k < j && Vacates(requests[k], x)
  {
    hide Serve, AnswerTo;
    var s, before := Uniform(N, true), requests[..j];
    AnswerPrefix(s, requests, j, i);
    AnswerPrefix(s, requests, j + 1, j);
    assert requests[..j + 1] == before + [requests[j]];
    ServedNext(s, before, requests[j]);
    AnswerNext(s, before, requests[j], j);
    TakenIff(N, before, x);
    assert Granted(s, before, i, x) && VacatedSince(before, i, x);
    var k :| i < k < j && Vacates(before[k], x);
    assert Vacates(requests[k], x);
  }

  /** One request: what is printed for it and the array after it are those of the plain array. */
  method Answer(vacancy: Tree, N: int, request: Request, ghost requests: seq<Request>, printed: seq<int>) returns (now: seq<int>)
    requires N > 0 && vacancy.Holds(1, 2, 1, N)
    requires (Content(vacancy.tree[..], 1, 2, 1, N), printed) == Serve(Uniform(N, true), requests)
    modifies vacancy.tree
    ensures vacancy.Holds(1, 2, 1, N)
    ensures (Content(vacancy.tree[..], 1, 2, 1, N), now) == Serve(Uniform(N, true), requests + [request])
  {
    hide Summary, Good, Content, Changed, Leftmost, Layout, Assign, Uniform, FirstFrom;
    assert (requests + [request])[..|requests|] == requests;
    ghost var s := Content(vacancy.tree[..], 1, 2, 1, N);
    match request {
      case Reserve(len) =>
        var res := vacancy.Query(1, 1, N, len, 2);
        LeftmostIsFirst(s, len, if res == -1 then -1 else res - 1, 0);
        if res != -1 {
          now := printed + [res];
          ghost var t := vacancy.tree[..];
          vacancy.Change(1, 1, N, res, res + len - 1, false, 2);
          ChangedContent(t, vacancy.tree[..], N, res, res + len - 1, false);
        } else {
          now := printed + [0];
        }
      case Vacate(start, len) =>
        now := printed;
        ghost var t := vacancy.tree[..];
        vacancy.Change(1, 1, N, start, start + len - 1, true, 2);
        ChangedContent(t, vacancy.tree[..], N, start, start + len - 1, true);
    }
  }

  /** The tree prints for any run of requests what the plain array prints. */
  method Run(N: int, requests: seq<Request>) returns (printed: seq<int>)
    requires N > 0
    ensures printed == Serve(Uniform(N, true), requests).1
  {
    hide Summary, Good, Content, Layout;
    var vacancy := new Tree(N);
    printed := [];
    var k := 0;
    while k < |requests|
      invariant 0 <= k <= |requests| && vacancy.Holds(1, 2, 1, N) && fresh(vacancy.tree)
      invariant (Content(vacancy.tree[..], 1, 2, 1, N), printed) == Serve(Uniform(N, true), requests[..k])
    {
      assert requests[..k + 1] == requests[..k] + [requests[k]];
      printed := Answer(vacancy, N, requests[k], requests[..k], printed);
      k := k + 1;
    }
    assert requests[..|requests|] == requests;
  }

  lemma {:induction false} ChangedContent(t: seq<Node>, t': seq<Node>, N: int, from: int, to: int, op: bool)
    requires Changed(t, t', 1, 2, 1, N, from, to, op)
    ensures Layout(t, 1, 2, 1, N) && Layout(t', 1, 2, 1, N) && Good(t', 1, 2, 1, N)
    ensures Content(t', 1, 2, 1, N) == Assign(Content(t, 1, 2, 1, N), 1, from, to, op)
  {
  }
}
