/** A segment tree over the letters of a string (0..25) that answers "sort this substring" by counting
    letters; a lazy node stands for its letters in sorted order. */
module SortingTree {
  import opened Arithmetic
  import opened HeapTree

  const LETTERS := 26

  type Tally = seq<int>

  /** A count, never negative, for each letter. */
  ghost predicate IsTally(t: Tally) {
    |t| == LETTERS && forall c :: 0 <= c < LETTERS ==> t[c] >= 0
  }

  // ----- strings and letter counts

  function Repeat(n: int, c: int): seq<int> { if n <= 0 then [] else seq(n, _ => c) }

  /** The letter at rank `k` of an order: 1 ascending, anything else descending. */
  function Letter(order: int, k: nat): nat
    requires k < LETTERS
    ensures Letter(order, k) < LETTERS
  {
    if order == 1 then k else LETTERS - 1 - k
  }

  /** The counted letters of ranks [lo, hi), in order. */
  function Emit(t: Tally, order: int, lo: nat, hi: nat): seq<int>
    requires hi <= LETTERS == |t|
    decreases hi
  {
    if lo >= hi then [] else Emit(t, order, lo, hi - 1) + Repeat(t[Letter(order, hi - 1)], Letter(order, hi - 1))
  }

  function Spelled(t: Tally, order: int): seq<int>
    requires |t| == LETTERS
  {
    Emit(t, order, 0, |t|)
  }

  ghost predicate SortedAs(s: seq<int>, order: int) {
    forall i, j :: 0 <= i < j < |s| ==> if order == 1 then s[i] <= s[j] else s[i] >= s[j]
  }

  ghost predicate LettersOnly(s: seq<int>) {
    forall i :: 0 <= i < |s| ==> 0 <= s[i] < LETTERS
  }

  ghost function TallyOf(s: seq<int>): Tally {
    seq(LETTERS, c requires 0 <= c < LETTERS => multiset(s)[c])
  }

  /** `t` counts the letters of `s`. */
  ghost predicate Counts(t: Tally, s: seq<int>) {
    LettersOnly(s) && t == TallyOf(s)
  }

  lemma {:induction false} CountsConcat(t: Tally, u: Tally, v: Tally, s: seq<int>, r: seq<int>)
    requires Counts(t, s) && Counts(u, r) && |v| == LETTERS && forall c :: 0 <= c < LETTERS ==> v[c] == t[c] + u[c]
    ensures Counts(v, s + r)
  {
    assert forall c :: 0 <= c < LETTERS ==> TallyOf(s + r)[c] == v[c];
  }

  lemma {:induction false} CountsSame(t: Tally, s: seq<int>, r: seq<int>)
    requires Counts(t, s) && Counts(t, r)
    ensures multiset(s) == multiset(r) && |s| == |r|
  {
    forall c ensures multiset(s)[c] == multiset(r)[c] {
      if 0 <= c < LETTERS {
        assert multiset(s)[c] == TallyOf(s)[c] && multiset(r)[c] == TallyOf(r)[c];
      } else {
        assert c !in s && c !in r;
      }
    }
    assert |multiset(s)| == |s| && |multiset(r)| == |r|;
  }

  /** The letters of ranks [lo, hi) only. */
  ghost predicate RankedIn(s: seq<int>, order: int, lo: nat, hi: nat) {
    forall i :: 0 <= i < |s| ==> if order == 1 then lo <= s[i] < hi else LETTERS - hi <= s[i] < LETTERS - lo
  }

  lemma {:induction false} EmitSorted(t: Tally, order: int, lo: nat, hi: nat)
    requires lo <= hi <= LETTERS && IsTally(t)
    ensures RankedIn(Emit(t, order, lo, hi), order, lo, hi) && SortedAs(Emit(t, order, lo, hi), order)
    decreases hi
  {
    hide SortedAs, RankedIn;
    if lo < hi {
      EmitSorted(t, order, lo, hi - 1);
      RankJoins(Emit(t, order, lo, hi - 1), order, lo, hi, t[Letter(order, hi - 1)]);
    } else {
      NothingSorted(order, lo, hi);
    }
  }

  lemma {:induction false} NothingSorted(order: int, lo: nat, hi: nat)
    ensures RankedIn([], order, lo, hi) && SortedAs([], order)
  {
  }

  /** Letters of the next rank go to the end. */
  lemma {:induction false} RankJoins(s: seq<int>, order: int, lo: nat, hi: nat, n: int)
    requires lo < hi <= LETTERS && n >= 0 && RankedIn(s, order, lo, hi - 1) && SortedAs(s, order)
    ensures RankedIn(s + Repeat(n, Letter(order, hi - 1)), order, lo, hi)
    ensures SortedAs(s + Repeat(n, Letter(order, hi - 1)), order)
  {
  }

  lemma {:induction false} RepeatCount(n: int, c: int, d: int)
    requires n >= 0
    ensures multiset(Repeat(n, c))[d] == if c == d then n else 0
    decreases n
  {
    if n > 0 {
      RepeatCount(n - 1, c, d);
      assert Repeat(n, c) == Repeat(n - 1, c) + [c];
    } else {
      assert Repeat(n, c) == [];
    }
  }

  lemma {:induction false} EmitCount(t: Tally, order: int, hi: nat, c: nat)
    requires hi <= LETTERS && c < LETTERS && IsTally(t)
    ensures multiset(Emit(t, order, 0, hi))[Letter(order, c)] == if c < hi then t[Letter(order, c)] else 0
    decreases hi
  {
    hide Emit;
    if hi > 0 {
      EmitCount(t, order, hi - 1, c);
      RepeatCount(t[Letter(order, hi - 1)], Letter(order, hi - 1), Letter(order, c));
      EmitStep(t, order, hi, Letter(order, c));
    } else {
      EmitEmpty(t, order);
    }
  }

  lemma {:induction false} EmitStep(t: Tally, order: int, hi: nat, x: int)
    requires 0 < hi <= LETTERS == |t|
    ensures var c := Letter(order, hi - 1);
      multiset(Emit(t, order, 0, hi))[x] == multiset(Emit(t, order, 0, hi - 1))[x] + multiset(Repeat(t[c], c))[x]
  {
  }

  lemma {:induction false} EmitEmpty(t: Tally, order: int)
    requires |t| == LETTERS
    ensures Emit(t, order, 0, 0) == []
  {
  }

  /** Spelling out counts gives a sorted string with exactly those counts. */
  lemma {:induction false} SpelledCounts(t: Tally, order: int)
    requires IsTally(t)
    ensures Counts(t, Spelled(t, order)) && SortedAs(Spelled(t, order), order)
  {
    hide Emit, SortedAs;
    var s := Spelled(t, order);
    EmitSorted(t, order, 0, |t|);
    forall c | 0 <= c < LETTERS ensures multiset(s)[c] == t[c] {
      EmitCount(t, order, |t|, Letter(order, c));
      assert Letter(order, Letter(order, c)) == c;
    }
    assert TallyOf(s) == t;
  }

  lemma {:induction false} SameFirst(s: seq<int>, r: seq<int>, order: int)
    requires SortedAs(s, order) && SortedAs(r, order) && multiset(s) == multiset(r) && s != []
    ensures |s| == |r| && s[0] == r[0] && multiset(s[1..]) == multiset(r[1..])
  {
    assert |multiset(r)| == |r| && |multiset(s)| == |s|;
    assert s[0] == r[0] by {
      assert s[0] in multiset(r) && r[0] in multiset(s);
      var i :| 0 <= i < |r| && r[i] == s[0];
      var j :| 0 <= j < |s| && s[j] == r[0];
    }
    TailLetters(s);
    TailLetters(r);
  }

  lemma {:induction false} TailLetters(s: seq<int>)
    requires s != []
    ensures multiset(s[1..]) == multiset(s) - multiset{s[0]}
  {
    assert s == [s[0]] + s[1..];
  }

  /** Two sorted strings with the same letters are the same string. */
  lemma {:induction false} SortedUnique(s: seq<int>, r: seq<int>, order: int)
    requires SortedAs(s, order) && SortedAs(r, order) && multiset(s) == multiset(r)
    ensures s == r
  {
    if s == [] {
      assert |multiset(r)| == |multiset(s)|;
    } else {
      SameFirst(s, r, order);
      assert SortedAs(s[1..], order) && SortedAs(r[1..], order);
      SortedUnique(s[1..], r[1..], order);
      assert s == [s[0]] + s[1..] && r == [r[0]] + r[1..];
    }
  }

  // ----- cutting the first letters off a tally

  lemma {:induction false} EmitSplit(t: Tally, order: int, lo: nat, mid: nat, hi: nat)
    requires lo <= mid <= hi <= LETTERS == |t|
    ensures Emit(t, order, lo, hi) == Emit(t, order, lo, mid) + Emit(t, order, mid, hi)
    decreases hi
  {
    if mid < hi {
      EmitSplit(t, order, lo, mid, hi - 1);
    }
  }

  lemma {:induction false} EmitSame(t: Tally, u: Tally, order: int, lo: nat, hi: nat)
    requires lo <= hi <= LETTERS == |t| == |u| && forall k :: lo <= k < hi ==> t[Letter(order, k)] == u[Letter(order, k)]
    ensures Emit(t, order, lo, hi) == Emit(u, order, lo, hi)
    decreases hi
  {
    hide Repeat;
    if lo < hi {
      EmitSame(t, u, order, lo, hi - 1);
      assert t[Letter(order, hi - 1)] == u[Letter(order, hi - 1)];
    }
  }

  lemma {:induction false} EmitNone(t: Tally, order: int, lo: nat, hi: nat)
    requires lo <= hi <= LETTERS == |t| && forall k :: lo <= k < hi ==> t[Letter(order, k)] == 0
    ensures Emit(t, order, lo, hi) == []
    decreases hi
  {
    if lo < hi { EmitNone(t, order, lo, hi - 1); }
  }

  /** `taken` and `rest` divide `t` at rank `i`: all letters before it, part of letter `i`. */
  ghost predicate CutAt(t: Tally, taken: Tally, rest: Tally, order: int, i: nat)
    requires i < LETTERS
  {
    && IsTally(t) && IsTally(taken) && IsTally(rest)
    && (forall k :: 0 <= k < i ==> taken[Letter(order, k)] == t[Letter(order, k)] && rest[Letter(order, k)] == 0)
    && taken[Letter(order, i)] + rest[Letter(order, i)] == t[Letter(order, i)]
    && forall k :: i < k < LETTERS ==> taken[Letter(order, k)] == 0 && rest[Letter(order, k)] == t[Letter(order, k)]
  }

  lemma {:induction false} SpelledAround(t: Tally, order: int, i: nat)
    requires i < LETTERS == |t|
    ensures Spelled(t, order) == Emit(t, order, 0, i) + Repeat(t[Letter(order, i)], Letter(order, i)) + Emit(t, order, i + 1, |t|)
  {
    EmitSplit(t, order, 0, i + 1, |t|);
  }

  /** Cutting a tally cuts the spelled string. */
  lemma {:induction false} CutSpells(t: Tally, taken: Tally, rest: Tally, order: int, i: nat)
    requires i < LETTERS && CutAt(t, taken, rest, order, i)
    ensures Spelled(t, order) == Spelled(taken, order) + Spelled(rest, order)
    ensures |Spelled(taken, order)| == |Emit(t, order, 0, i)| + taken[Letter(order, i)]
  {
    hide Emit, Spelled;
    var c := Letter(order, i);
    SpelledAround(t, order, i);
    SpelledAround(taken, order, i);
    SpelledAround(rest, order, i);
    EmitSame(t, taken, order, 0, i);
    EmitNone(taken, order, i + 1, |t|);
    EmitNone(rest, order, 0, i);
    EmitSame(rest, t, order, i + 1, |t|);
    assert Repeat(t[c], c) == Repeat(taken[c], c) + Repeat(rest[c], c);
  }

  // ----- the tree

  datatype Node = Node(sum: Tally, order: int, lazy: bool)

  const BLANK := Node(seq(LETTERS, _ => 0), 0, false)

  /** The string a node stands for: its letters in order if it is lazy, else what its children stand for. */
  ghost function Content(t: seq<Node>, n: nat, l: int, r: int): seq<int>
    requires Fits(|t|, n, l, r)
    decreases r - l
  {
    if |t[n].sum| != LETTERS then []
    else if t[n].lazy || l == r then Spelled(t[n].sum, t[n].order)
    else Content(t, 2 * n, l, Mid(l, r)) + Content(t, 2 * n + 1, Mid(l, r) + 1, r)
  }

  /** Counts are right at every node that is not below a lazy one, and leaves are lazy. */
  ghost predicate Good(t: seq<Node>, n: nat, l: int, r: int)
    requires Fits(|t|, n, l, r)
    decreases r - l
  {
    && |t[n].sum| == LETTERS && (l == r ==> t[n].lazy)
    && (!t[n].lazy ==> l < r && Good(t, 2 * n + 1, Mid(l, r) + 1, r) && Good(t, 2 * n, l, Mid(l, r)))
    && Counts(t[n].sum, Content(t, n, l, r)) && |Content(t, n, l, r)| == r - l + 1
  }

  ghost predicate Stands(t: seq<Node>, n: nat, l: int, r: int, s: seq<int>) {
    Fits(|t|, n, l, r) && Good(t, n, l, r) && Content(t, n, l, r) == s
  }

  /** No lazy node on the way down to the pieces of [from, to]. */
  ghost predicate PathClear(t: seq<Node>, n: nat, l: int, r: int, from: int, to: int)
    requires Fits(|t|, n, l, r)
    decreases r - l
  {
    (from <= l && r <= to) ||
    (l < r && !t[n].lazy
     && (from <= Mid(l, r) ==> PathClear(t, 2 * n, l, Mid(l, r), from, to))
     && (to > Mid(l, r) ==> PathClear(t, 2 * n + 1, Mid(l, r) + 1, r, from, to)))
  }

  lemma {:induction false} PartlyClear(t: seq<Node>, n: nat, l: int, r: int, from: int, to: int)
    requires Fits(|t|, n, l, r) && PathClear(t, n, l, r, from, to) && !(from <= l && r <= to)
    ensures l < r && !t[n].lazy
  {
  }

  lemma {:induction false} Frame(t: seq<Node>, t': seq<Node>, n: nat, l: int, r: int)
    requires Fits(|t|, n, l, r) && SameBelow(t, t', n)
    ensures Content(t', n, l, r) == Content(t, n, l, r) && (Good(t, n, l, r) <==> Good(t', n, l, r))
    decreases r - l
  {
    hide Counts, Spelled;
    assert Below(n, n);
    if l < r {
      SameBelowChildren(t, t', n);
      Frame(t, t', 2 * n, l, Mid(l, r));
      Frame(t, t', 2 * n + 1, Mid(l, r) + 1, r);
    }
  }

  lemma {:induction false} FramePath(t: seq<Node>, t': seq<Node>, n: nat, l: int, r: int, from: int, to: int)
    requires Fits(|t|, n, l, r) && SameBelow(t, t', n)
    ensures PathClear(t, n, l, r, from, to) <==> PathClear(t', n, l, r, from, to)
    decreases r - l
  {
    assert Below(n, n);
    if l < r {
      SameBelowChildren(t, t', n);
      FramePath(t, t', 2 * n, l, Mid(l, r), from, to);
      FramePath(t, t', 2 * n + 1, Mid(l, r) + 1, r, from, to);
    }
  }

  lemma {:induction false} StandsFrame(t: seq<Node>, t': seq<Node>, n: nat, l: int, r: int, s: seq<int>)
    requires Stands(t, n, l, r, s) && SameBelow(t, t', n)
    ensures Stands(t', n, l, r, s)
  {
    hide Content, Good;
    Frame(t, t', n, l, r);
  }

  /** A lazy node stands for its own letters. */
  lemma {:induction false} LazyStands(t: seq<Node>, n: nat, l: int, r: int)
    requires Fits(|t|, n, l, r) && t[n].lazy && IsTally(t[n].sum) && |Spelled(t[n].sum, t[n].order)| == r - l + 1
    ensures Stands(t, n, l, r, Spelled(t[n].sum, t[n].order))
  {
    SpelledCounts(t[n].sum, t[n].order);
  }

  /** A node that is not lazy stands for what its children stand for, if it adds up their counts. */
  lemma {:induction false} JoinStands(t: seq<Node>, n: nat, l: int, r: int, a: seq<int>, b: seq<int>)
    requires l < r && Fits(|t|, n, l, r) && !t[n].lazy && 2 * n + 1 < |t|
    requires |t[n].sum| == |t[2 * n].sum| == |t[2 * n + 1].sum| == LETTERS
    requires Stands(t, 2 * n, l, Mid(l, r), a) && Stands(t, 2 * n + 1, Mid(l, r) + 1, r, b)
    requires forall c :: 0 <= c < LETTERS ==> t[n].sum[c] == t[2 * n].sum[c] + t[2 * n + 1].sum[c]
    ensures Stands(t, n, l, r, a + b)
  {
    CountsConcat(t[2 * n].sum, t[2 * n + 1].sum, t[n].sum, a, b);
  }

  /** The two halves of what a node that is not lazy stands for. */
  lemma {:induction false} SplitStands(t: seq<Node>, n: nat, l: int, r: int, s: seq<int>)
    requires l < r && Stands(t, n, l, r, s) && !t[n].lazy
    ensures |s| == r - l + 1 && Counts(t[n].sum, s)
    ensures Stands(t, 2 * n, l, Mid(l, r), s[..Mid(l, r) - l + 1]) && Stands(t, 2 * n + 1, Mid(l, r) + 1, r, s[Mid(l, r) - l + 1..])
  {
    hide Counts, Spelled;
    assert Good(t, 2 * n, l, Mid(l, r)) && Good(t, 2 * n + 1, Mid(l, r) + 1, r);
    var a, b := Content(t, 2 * n, l, Mid(l, r)), Content(t, 2 * n + 1, Mid(l, r) + 1, r);
    assert s == a + b && |a| == Mid(l, r) - l + 1;
    assert s[..Mid(l, r) - l + 1] == a && s[Mid(l, r) - l + 1..] == b;
  }

  lemma {:induction false} StandsFacts(t: seq<Node>, n: nat, l: int, r: int, s: seq<int>)
    requires Stands(t, n, l, r, s)
    ensures |s| == r - l + 1 && |t[n].sum| == LETTERS && Counts(t[n].sum, s) && (l == r ==> t[n].lazy) && (l < r ==> 2 * n + 1 < |t|)
    ensures Fits(|t|, n, l, r) && l <= r
    ensures t[n].lazy ==> s == Spelled(t[n].sum, t[n].order)
  {
    if l < r { assert Fits(|t|, 2 * n + 1, Mid(l, r) + 1, r); }
  }

  /** The letters of two spelled strings add up to those of the whole. */
  lemma {:induction false} TallyAdds(sum: Tally, a: Tally, b: Tally, s: seq<int>, order: int)
    requires Counts(sum, s) && IsTally(a) && IsTally(b) && s == Spelled(a, order) + Spelled(b, order)
    ensures forall c :: 0 <= c < LETTERS ==> sum[c] == a[c] + b[c]
  {
    hide Spelled;
    SpelledCounts(a, order);
    SpelledCounts(b, order);
    var x, y := Spelled(a, order), Spelled(b, order);
    assert multiset(x + y) == multiset(x) + multiset(y);
  }

  /** Giving the children of a lazy node the two parts of its letters changes nothing. */
  lemma {:induction false} PushdownStands(t: seq<Node>, t': seq<Node>, n: nat, l: int, r: int, s: seq<int>, a: Tally, b: Tally)
    requires l < r && 0 < n && 2 * n + 1 < |t| && t[n].lazy && |t[n].sum| == LETTERS && IsTally(a) && IsTally(b)
    requires Stands(t, n, l, r, s)
    requires t' == t[2 * n := Node(a, t[n].order, true)][2 * n + 1 := Node(b, t[n].order, true)][n := t[n].(lazy := false)]
    requires Spelled(t[n].sum, t[n].order) == Spelled(a, t[n].order) + Spelled(b, t[n].order)
    requires |Spelled(a, t[n].order)| == Mid(l, r) - l + 1
    ensures Stands(t', n, l, r, s) && OnlyBelow(t, t', n) && !t'[n].lazy
  {
    hide Good, Content, Spelled, Counts;
    var order := t[n].order;
    StandsFacts(t, n, l, r, s);
    ChildrenBelow(n);
    LazyStands(t', 2 * n, l, Mid(l, r));
    LazyStands(t', 2 * n + 1, Mid(l, r) + 1, r);
    TallyAdds(t[n].sum, a, b, s, order);
    JoinStands(t', n, l, r, Spelled(a, order), Spelled(b, order));
  }

  /** `taken` is the first `len` letters of `t` in order, `rest` the others. */
  ghost predicate CutOff(t: Tally, taken: Tally, rest: Tally, order: int, len: int) {
    && IsTally(t) && IsTally(taken) && IsTally(rest)
    && Spelled(t, order) == Spelled(taken, order) + Spelled(rest, order) && |Spelled(taken, order)| == len
  }

  /** The state of the counting loop before rank `k`: everything earlier has been moved. */
  ghost predicate Moving(t: Tally, sum: Tally, source: Tally, order: int, k: int, total: int) {
    && 0 <= k <= LETTERS && IsTally(t) && |sum| == |source| == LETTERS
    && total == |Emit(t, order, 0, k)|
    && (forall j :: 0 <= j < k ==> sum[Letter(order, j)] == t[Letter(order, j)] && source[Letter(order, j)] == 0)
    && forall j :: k <= j < LETTERS ==> sum[Letter(order, j)] == 0 && source[Letter(order, j)] == t[Letter(order, j)]
  }

  lemma {:induction false} LetterOfRank(order: int, c: nat)
    requires c < LETTERS
    ensures Letter(order, Letter(order, c)) == c
  {
  }

  lemma {:induction false} MoveOne(t: Tally, sum: Tally, source: Tally, order: int, k: int, total: int)
    requires Moving(t, sum, source, order, k, total) && k < LETTERS
    ensures var c := Letter(order, k);
            && source[c] == t[c] && sum[c] == 0
            && Moving(t, sum[c := source[c]], source[c := 0], order, k + 1, total + source[c])
  {
  }

  /** Enough letters have been moved: what is over goes back. */
  lemma {:induction false} MoveBack(t: Tally, sum: Tally, source: Tally, order: int, k: int, total: int, len: int)
    requires Moving(t, sum, source, order, k, total) && k < LETTERS && total < len <= total + t[Letter(order, k)]
    ensures var c := Letter(order, k);
            var over := total + t[c] - len;
            CutOff(t, sum[c := t[c] - over], source[c := over], order, len)
  {
    hide Emit, Spelled;
    var c := Letter(order, k);
    var over := total + t[c] - len;
    var taken, rest := sum[c := t[c] - over], source[c := over];
    forall d | 0 <= d < LETTERS ensures taken[d] >= 0 && rest[d] >= 0 {
      LetterOfRank(order, d);
      var j := Letter(order, d);
      assert Letter(order, j) == d;
    }
    CutSpells(t, taken, rest, order, k);
  }

  /** The part of `s`, which starts at position `l`, that lies in [from, to]. */
  function Piece(s: seq<int>, l: int, from: int, to: int): seq<int> {
    var lo, hi := if from > l then from - l else 0, if to < l + |s| - 1 then to - l + 1 else |s|;
    if 0 <= lo <= hi <= |s| then s[lo..hi] else []
  }

  lemma {:induction false} PieceSplit(found: seq<int>, s: seq<int>, k: int, l: int, from: int, to: int)
    requires 0 <= k <= |s| && from <= to
    ensures found + Piece(s, l, from, to) == found + Piece(s[..k], l, from, to) + Piece(s[k..], l + k, from, to)
    ensures from > l + k - 1 ==> found + Piece(s[..k], l, from, to) == found
    ensures to < l + k ==> found + Piece(s, l, from, to) == found + Piece(s[..k], l, from, to)
    ensures from <= l && l + |s| - 1 <= to ==> Piece(s, l, from, to) == s
  {
    PieceHalves(s, k, l, from, to);
    assert from > l + k - 1 ==> Piece(s[..k], l, from, to) == [];
  }

  lemma {:induction false} PieceHalves(s: seq<int>, k: int, l: int, from: int, to: int)
    requires 0 <= k <= |s| && from <= to
    ensures Piece(s, l, from, to) == Piece(s[..k], l, from, to) + Piece(s[k..], l + k, from, to)
  {
    hide Piece;
    var lo, hi := if from > l then from - l else 0, if to < l + |s| - 1 then to - l + 1 else |s|;
    PieceIs(s, l, from, to);
    PieceIs(s[..k], l, from, to);
    PieceIs(s[k..], l + k, from, to);
    if 0 <= lo <= hi { SliceSplit(s, k, lo, hi); }
  }

  lemma {:induction false} PieceIs(s: seq<int>, l: int, from: int, to: int)
    requires from <= to
    ensures s == [] || from - l >= |s| || to < l ==> Piece(s, l, from, to) == []
    ensures !(s == [] || from - l >= |s| || to < l) ==>
      var lo, hi := if from > l then from - l else 0, if to < l + |s| - 1 then to - l + 1 else |s|;
      0 <= lo < hi <= |s| && Piece(s, l, from, to) == s[lo..hi]
  {
  }

  lemma {:induction false} SliceSplit(s: seq<int>, k: int, lo: int, hi: int)
    requires 0 <= lo <= hi <= |s| && 0 <= k <= |s|
    ensures k <= lo ==> s[lo..hi] == s[k..][lo - k..hi - k]
    ensures hi <= k ==> s[lo..hi] == s[..k][lo..hi]
    ensures lo <= k <= hi ==> s[lo..hi] == s[..k][lo..] + s[k..][..hi - k]
  {
  }

  /** `s` with its positions in [from, to] overwritten by the first letters of `e`. */
  function Overwrite(s: seq<int>, l: int, from: int, to: int, e: seq<int>): seq<int>
    requires |e| >= |Piece(s, l, from, to)|
  {
    seq(|s|, i requires 0 <= i < |s| =>
      var k := l + i - if from > l then from else l;
      if from <= l + i <= to && 0 <= k < |e| then e[k] else s[i])
  }

  lemma {:induction false} PieceLength(s: seq<int>, l: int, from: int, to: int)
    requires from <= to
    ensures var lo, hi := if from > l then from else l, if to < l + |s| - 1 then to else l + |s| - 1;
            |Piece(s, l, from, to)| == if lo <= hi then hi - lo + 1 else 0
  {
  }

  lemma {:induction false} OverwriteSplit(s: seq<int>, k: int, l: int, from: int, to: int, e: seq<int>)
    requires 0 <= k <= |s| && from <= to && |e| >= |Piece(s, l, from, to)|
    ensures var k1 := |Piece(s[..k], l, from, to)|;
            && k1 <= |e| && |e| - k1 >= |Piece(s[k..], l + k, from, to)|
            && Overwrite(s, l, from, to, e) == Overwrite(s[..k], l, from, to, e) + Overwrite(s[k..], l + k, from, to, e[k1..])
            && |Piece(s, l, from, to)| == k1 + |Piece(s[k..], l + k, from, to)|
  {
    hide Piece, Overwrite;
    PieceLengths(s, k, l, from, to);
    OverwriteLeft(s, k, l, from, to, e);
    OverwriteRight(s, k, l, from, to, e);
    var whole := Overwrite(s, l, from, to, e);
    assert whole == whole[..k] + whole[k..];
  }

  lemma {:induction false} PieceLengths(s: seq<int>, k: int, l: int, from: int, to: int)
    requires 0 <= k <= |s| && from <= to
    ensures |Piece(s, l, from, to)| == |Piece(s[..k], l, from, to)| + |Piece(s[k..], l + k, from, to)|
  {
    PieceHalves(s, k, l, from, to);
  }

  lemma {:induction false} OverwriteLeft(s: seq<int>, k: int, l: int, from: int, to: int, e: seq<int>)
    requires 0 <= k <= |s| && from <= to && |e| >= |Piece(s, l, from, to)|
    ensures |e| >= |Piece(s[..k], l, from, to)|
    ensures |Overwrite(s, l, from, to, e)| == |s| && Overwrite(s, l, from, to, e)[..k] == Overwrite(s[..k], l, from, to, e)
  {
    PieceLengths(s, k, l, from, to);
    hide Piece;
  }

  lemma {:induction false} OverwriteRight(s: seq<int>, k: int, l: int, from: int, to: int, e: seq<int>)
    requires 0 <= k <= |s| && from <= to && |e| >= |Piece(s, l, from, to)|
    ensures var k1 := |Piece(s[..k], l, from, to)|;
      && k1 <= |e| && |e| - k1 >= |Piece(s[k..], l + k, from, to)| && |Overwrite(s, l, from, to, e)| == |s|
      && Overwrite(s, l, from, to, e)[k..] == Overwrite(s[k..], l + k, from, to, e[k1..])
  {
    hide Piece;
    PieceLengths(s, k, l, from, to);
    PieceLength(s, l, from, to);
    PieceLength(s[..k], l, from, to);
    PieceLength(s[k..], l + k, from, to);
    var k1 := |Piece(s[..k], l, from, to)|;
    var whole, b := Overwrite(s, l, from, to, e), Overwrite(s[k..], l + k, from, to, e[k1..]);
    forall i | k <= i < |s|
      ensures whole[i] == b[i - k]
    {
      if from <= l + i <= to {
        assert k1 == if from > l + k then 0 else l + k - (if from > l then from else l);
      }
    }
  }

  lemma {:induction false} OverwriteEnds(s: seq<int>, l: int, from: int, to: int, e: seq<int>)
    requires |e| >= |Piece(s, l, from, to)| && from <= to
    ensures from <= l && l + |s| - 1 <= to ==> Piece(s, l, from, to) == s && Overwrite(s, l, from, to, e) == e[..|s|]
    ensures (from > l + |s| - 1 || to < l) ==> Piece(s, l, from, to) == [] && Overwrite(s, l, from, to, e) == s
  {
  }

  /** Cutting off all but `len` letters and then the rest leaves nothing over. */
  lemma {:induction false} CutOffRest(t: Tally, a: Tally, rest: Tally, b: Tally, rest': Tally, order: int, len: int)
    requires IsTally(t) && 0 <= len <= |Spelled(t, order)|
    requires CutOff(t, a, rest, order, len) && CutOff(rest, b, rest', order, |Spelled(t, order)| - len)
    ensures IsTally(a) && IsTally(b) && Spelled(t, order) == Spelled(a, order) + Spelled(b, order)
  {
    hide Emit;
    assert |Spelled(rest, order)| == |Spelled(b, order)|;
    assert Spelled(rest, order) == Spelled(b, order);
  }

  /** The length of what a tally spells does not depend on the order. */
  lemma {:induction false} SpelledLength(t: Tally, order: int, s: seq<int>)
    requires Counts(t, s)
    ensures IsTally(t) && |Spelled(t, order)| == |s| && multiset(Spelled(t, order)) == multiset(s) && SortedAs(Spelled(t, order), order)
  {
    hide Emit, Spelled;
    assert forall c :: 0 <= c < LETTERS ==> TallyOf(s)[c] >= 0;
    SpelledCounts(t, order);
    CountsSame(t, Spelled(t, order), s);
  }

  class Tree {
    const tree: array<Node>
    const res: array<int>
    var Left: int
    var Right: int

    /** Moves the letters `c` from `source` to `sum`; once there are `len` of them, those over go back. */
    method MoveLetter(source: array<int>, sum: seq<int>, total: int, len: int, c: nat, ghost t: Tally, ghost order: int, ghost k: nat)
        returns (sum': seq<int>, total': int)
      requires source.Length == |sum| == |t| == LETTERS && k < LETTERS && c == Letter(order, k) && total < len <= |Spelled(t, order)|
      requires Moving(t, sum, source[..], order, k, total)
      modifies source
      ensures |sum'| == LETTERS
      ensures total' >= len ==> CutOff(t, sum', source[..], order, len)
      ensures total' < len ==> k + 1 < LETTERS && Moving(t, sum', source[..], order, k + 1, total')
    {
      hide Emit, IsTally, CutOff, Moving, Spelled;
      MoveOne(t, sum, source[..], order, k, total);
      ghost var source0 := source[..];
      sum' := sum[c := source[c]];
      total' := total + sum'[c];
      source[c] := 0;
      assert source[..] == source0[c := 0];
      if total' >= len {
        MoveBack(t, sum, source0, order, k, total, len);
        source[c] := total' - len;
        sum' := sum'[c := sum'[c] - source[c]];
        assert source[..] == source0[c := total' - len] && sum' == sum[c := t[c] - (total' - len)];
      } else {
        MoveEnough(t, sum', source[..], order, k + 1, total', len);
      }
    }

    /** Gives node `n` the first `len` letters of `source`, which keeps the others. */
    method ChangeNode(n: nat, source: array<int>, len: int, sortOrder: int)
      requires n < tree.Length && source.Length == LETTERS && IsTally(source[..])
      requires 1 <= len <= |Spelled(source[..], sortOrder)|
      modifies tree, source
      ensures tree[..] == old(tree[..])[n := Node(tree[n].sum, sortOrder, true)]
      ensures CutOff(old(source[..]), tree[n].sum, source[..], sortOrder, len)
    {
      hide Emit, IsTally, CutOff, Moving, Spelled;
      ghost var t := source[..];
      var sum := seq(LETTERS, _ => 0);
      MoveStart(t, sum, sortOrder);
      if sortOrder == 1 {
        var i, total := 0, 0;
        while i < LETTERS && total < len
          invariant tree[..] == old(tree[..]) && |sum| == LETTERS
          invariant if total < len then 0 <= i < LETTERS && Moving(t, sum, source[..], sortOrder, i, total)
                                   else CutOff(t, sum, source[..], sortOrder, len)
        {
          sum, total := MoveLetter(source, sum, total, len, i, t, sortOrder, i);
          i := i + 1;
        }
      } else {
        var i, total := LETTERS - 1, 0;
        while i >= 0 && total < len
          invariant tree[..] == old(tree[..]) && |sum| == LETTERS
          invariant if total < len then 0 <= i < LETTERS && Moving(t, sum, source[..], sortOrder, LETTERS - 1 - i, total)
                                   else CutOff(t, sum, source[..], sortOrder, len)
        {
          sum, total := MoveLetter(source, sum, total, len, i, t, sortOrder, LETTERS - 1 - i);
          i := i - 1;
        }
      }
      tree[n] := Node(sum, sortOrder, true);
    }

    /** Hands the letters of a lazy node down to its children. */
    method Pushdown(n: nat, left: int, right: int, ghost s: seq<int>)
      requires left < right && Stands(tree[..], n, left, right, s) && tree[n].lazy
      modifies tree
      ensures Stands(tree[..], n, left, right, s) && OnlyBelow(old(tree[..]), tree[..], n) && !tree[n].lazy
    {
      hide Emit, Spelled, Counts, Content, Good, CutOff, OnlyBelow;
      ghost var t := tree[..];
      StandsFacts(t, n, left, right, s);
      SpelledLength(t[n].sum, t[n].order, s);
      ChildrenBelow(n);
      var order := tree[n].order;
      var sum := tree[n].sum;
      var tmp := new int[LETTERS];
      var i := 0;
      while i < LETTERS
        invariant 0 <= i <= LETTERS && tree[..] == t && tmp[..i] == sum[..i]
      {
        tmp[i] := tree[n].sum[i];
        i := i + 1;
      }
      assert tmp[..] == sum;
      var mid := Mid(left, right);
      ChangeNode(2 * n, tmp, mid - left + 1, order);
      ghost var a, rest := tree[2 * n].sum, tmp[..];
      CutOffLength(sum, a, rest, order, mid - left + 1);
      ChangeNode(2 * n + 1, tmp, right - mid, order);
      CutOffRest(sum, a, rest, tree[2 * n + 1].sum, tmp[..], order, mid - left + 1);
      tree[n] := tree[n].(lazy := false);
      CutOffLength(sum, a, rest, order, mid - left + 1);
      PushdownStands(t, tree[..], n, left, right, s, a, tree[2 * n + 1].sum);
    }

    /** Adds the letter counts of positions [Left, Right] below `n` to `res`, and leaves no lazy node
        on the way to them. */
    method Query(n: nat, left: int, right: int, ghost s: seq<int>, ghost found: seq<int>)
      requires Stands(tree[..], n, left, right, s) && Left <= Right && Left <= right && left <= Right
      requires res.Length == LETTERS && Counts(res[..], found)
      modifies tree, res
      ensures Stands(tree[..], n, left, right, s) && OnlyBelow(old(tree[..]), tree[..], n)
      ensures PathClear(tree[..], n, left, right, Left, Right)
      ensures s != [] && |s| == right - left + 1 && Counts(res[..], found + Piece(s, left, Left, Right))
      decreases right - left
    {
      hide Emit, Spelled, Counts, Content, Good, OnlyBelow, SameBelow, Piece;
      ghost var t := tree[..];
      StandsFacts(t, n, left, right, s);
      if Left <= left && right <= Right {
        ghost var r0 := res[..];
        var i := 0;
        while i < LETTERS
          invariant 0 <= i <= LETTERS && tree[..] == t
          invariant forall c :: 0 <= c < LETTERS ==> res[c] == r0[c] + if c < i then tree[n].sum[c] else 0
        {
          res[i] := res[i] + tree[n].sum[i];
          i := i + 1;
        }
        CountsConcat(r0, tree[n].sum, res[..], found, s);
        PieceSplit(found, s, 0, left, Left, Right);
        OnlyBelowSelf(t, n);
        return;
      }
      var mid := Mid(left, right);
      if tree[n].lazy {
        Pushdown(n, left, right, s);
      } else {
        OnlyBelowSelf(t, n);
      }
      ghost var t1 := tree[..];
      SplitStands(t1, n, left, right, s);
      ghost var k := mid - left + 1;
      PieceSplit(found, s, k, left, Left, Right);
      ghost var found1 := found + Piece(s[..k], left, Left, Right);
      if Left <= mid {
        Query(2 * n, left, mid, s[..k], found);
        ChildAsked(t1, tree[..], n, left, right, s, true);
        OnlyBelowTwice(t, t1, tree[..], n);
      }
      ghost var t2 := tree[..];
      if Right > mid {
        Query(2 * n + 1, mid + 1, right, s[k..], found1);
        ChildAsked(t2, tree[..], n, left, right, s, false);
        OnlyBelowTwice(t, t2, tree[..], n);
        if Left <= mid { FramePath(t2, tree[..], 2 * n, left, mid, Left, Right); }
      }
    }

    method Pushup(n: nat)
      requires 2 * n + 1 < tree.Length
      requires |tree[n].sum| == |tree[2 * n].sum| == |tree[2 * n + 1].sum| == LETTERS
      modifies tree
      ensures |tree[n].sum| == LETTERS && tree[..] == old(tree[..])[n := old(tree[n]).(sum := tree[n].sum)]
      ensures forall c :: 0 <= c < LETTERS ==> tree[n].sum[c] == old(tree[2 * n].sum[c] + tree[2 * n + 1].sum[c])
    {
      var sum := tree[n].sum;
      var i := 0;
      while i < LETTERS
        invariant 0 <= i <= LETTERS == |sum|
        invariant forall c :: 0 <= c < i ==> sum[c] == tree[2 * n].sum[c] + tree[2 * n + 1].sum[c]
      {
        sum := sum[i := tree[2 * n].sum[i] + tree[2 * n + 1].sum[i]];
        i := i + 1;
      }
      tree[n] := tree[n].(sum := sum);
    }

    /** A node inside the range takes its letters from those that are left. */
    method Deal(n: nat, left: int, right: int, order: int, ghost s: seq<int>)
      requires Stands(tree[..], n, left, right, s) && Left <= left && right <= Right
      requires res.Length == LETTERS && IsTally(res[..])
      requires |Spelled(res[..], order)| >= |Piece(s, left, Left, Right)|
      modifies tree, res
      ensures Stands(tree[..], n, left, right, Overwrite(s, left, Left, Right, old(Spelled(res[..], order))))
      ensures OnlyBelow(old(tree[..]), tree[..], n) && IsTally(res[..])
      ensures Spelled(res[..], order) == old(Spelled(res[..], order))[|Piece(s, left, Left, Right)|..]
    {
      hide Emit, Spelled, Counts, Content, Good, OnlyBelow, SameBelow, Piece, Overwrite, CutOff, Stands;
      ghost var t, r0 := tree[..], res[..];
      StandsFacts(t, n, left, right, s);
      OverwriteEnds(s, left, Left, Right, Spelled(r0, order));
      ChangeNode(n, res, right - left + 1, order);
      NodeDealt(t, tree[..], n, left, right, r0, res[..], order);
    }

    /** Deals the letters of `res`, in order, to the positions [Left, Right] below `n`. Nothing is pushed
        down: the query of the same range has cleared the way. */
    method Update(n: nat, left: int, right: int, order: int, ghost s: seq<int>)
      requires Stands(tree[..], n, left, right, s) && Left <= Right && Left <= right && left <= Right
      requires PathClear(tree[..], n, left, right, Left, Right)
      requires res.Length == LETTERS && IsTally(res[..])
      requires |Spelled(res[..], order)| >= |Piece(s, left, Left, Right)|
      modifies tree, res
      ensures Stands(tree[..], n, left, right, Overwrite(s, left, Left, Right, old(Spelled(res[..], order))))
      ensures OnlyBelow(old(tree[..]), tree[..], n) && IsTally(res[..])
      ensures Spelled(res[..], order) == old(Spelled(res[..], order))[|Piece(s, left, Left, Right)|..]
      decreases right - left, 1
    {
      hide Emit, Spelled, Counts, Content, Good, OnlyBelow, SameBelow, Piece, Overwrite, CutOff, PathClear, Stands, IsTally;
      ghost var t, r0 := tree[..], res[..];
      ghost var e := Spelled(r0, order);
      StandsFacts(t, n, left, right, s);
      if Left <= left && right <= Right {
        Deal(n, left, right, order, s);
        return;
      }
      ghost var k := Mid(left, right) - left + 1;
      PartlyClear(t, n, left, right, Left, Right);
      SplitStands(t, n, left, right, s);
      OverwriteSplit(s, k, left, Left, Right, e);
      ghost var k1, k2 := |Piece(s[..k], left, Left, Right)|, |Piece(s[k..], Mid(left, right) + 1, Left, Right)|;
      ghost var a' := Overwrite(s[..k], left, Left, Right, e);
      ghost var b' := Overwrite(s[k..], Mid(left, right) + 1, Left, Right, e[k1..]);
      UpdateChildren(n, left, right, order, s[..k], s[k..], e, k1, k2, a', b');
      ghost var t3 := tree[..];
      StandsFacts(t3, 2 * n, left, Mid(left, right), a');
      StandsFacts(t3, 2 * n + 1, Mid(left, right) + 1, right, b');
      Pushup(n);
      BothDealt(t, t3, tree[..], n, left, right, a', b');
    }

    /** Deals to the left child first, then to the right one. */
    method UpdateChildren(n: nat, left: int, right: int, order: int, ghost a: seq<int>, ghost b: seq<int>,
                          ghost e: seq<int>, ghost k1: nat, ghost k2: nat, ghost a': seq<int>, ghost b': seq<int>)
      requires k1 == |Piece(a, left, Left, Right)| && k2 == |Piece(b, Mid(left, right) + 1, Left, Right)| && |e| >= k1 + k2
      requires a' == Overwrite(a, left, Left, Right, e) && b' == Overwrite(b, Mid(left, right) + 1, Left, Right, e[k1..])
      requires res.Length == LETTERS && IsTally(res[..]) && e == Spelled(res[..], order)
      requires left < right && Fits(tree.Length, n, left, right) && Left <= Right && Left <= right && left <= Right
      requires PathClear(tree[..], n, left, right, Left, Right) && !(Left <= left && right <= Right)
      requires Stands(tree[..], 2 * n, left, Mid(left, right), a) && Stands(tree[..], 2 * n + 1, Mid(left, right) + 1, right, b)
      modifies tree, res
      ensures IsTally(res[..]) && Spelled(res[..], order) == e[k1 + k2..]
      ensures Stands(tree[..], 2 * n, left, Mid(left, right), a') && Stands(tree[..], 2 * n + 1, Mid(left, right) + 1, right, b')
      ensures tree[n] == old(tree[n]) && OnlyBelow(old(tree[..]), tree[..], n)
      decreases right - left, 0
    {
      hide Emit, Spelled, Counts, Content, Good, OnlyBelow, SameBelow, Piece, Overwrite, Stands;
      var mid := Mid(left, right);
      ghost var t := tree[..];
      StandsLength(t, 2 * n, left, mid, a);
      StandsLength(t, 2 * n + 1, mid + 1, right, b);
      OverwriteEnds(a, left, Left, Right, e);
      OverwriteEnds(b, mid + 1, Left, Right, e[k1..]);
      if Left <= mid {
        Update(2 * n, left, mid, order, a);
        ChildDealt(t, tree[..], n, left, right, a', b, true);
        FramePath(t, tree[..], 2 * n + 1, mid + 1, right, Left, Right);
      } else {
        OnlyBelowSelf(t, n);
      }
      ghost var t2 := tree[..];
      if Right > mid {
        Update(2 * n + 1, mid + 1, right, order, b);
        ChildDealt(t2, tree[..], n, left, right, a', b', false);
        OnlyBelowTwice(t, t2, tree[..], n);
      }
    }

    /** Sorts positions [L, R] of the string the tree stands for. */
    method Sort(N: int, L: int, R: int, order: int, ghost s: seq<int>)
      requires Stands(tree[..], 1, 1, N, s) && 1 <= L <= R <= N && res.Length == LETTERS
      modifies this, tree, res
      ensures |s| == N && Stands(tree[..], 1, 1, N, SortRange(s, L, R, order))
    {
      hide Emit, Spelled, Content, Good, OnlyBelow, Overwrite, PathClear;
      Left, Right := L, R;
      var i := 0;
      while i < LETTERS
        invariant 0 <= i <= LETTERS && tree[..] == old(tree[..]) && Left == L && Right == R
        invariant forall c :: 0 <= c < i ==> res[c] == 0
      {
        res[i] := 0;
        i := i + 1;
      }
      assert Counts(res[..], []);
      Query(1, 1, N, s, []);
      StandsFacts(tree[..], 1, 1, N, s);
      SortedPiece(s, L, R, order, res[..]);
      Update(1, 1, N, order, s);
    }

    /** The string below `n`, letter by letter. */
    method Print(n: nat, left: int, right: int, ghost s: seq<int>) returns (out: seq<int>)
      requires Stands(tree[..], n, left, right, s)
      ensures out == s
      decreases right - left
    {
      hide Counts, Good, Content, Spelled;
      StandsFacts(tree[..], n, left, right, s);
      if tree[n].lazy {
        SpelledLength(tree[n].sum, tree[n].order, s);
        out := Spell(tree[n].sum, tree[n].order);
        return;
      }
      var mid := Mid(left, right);
      SplitStands(tree[..], n, left, right, s);
      var a := Print(2 * n, left, mid, s[..mid - left + 1]);
      var b := Print(2 * n + 1, mid + 1, right, s[mid - left + 1..]);
      out := a + b;
    }

    /** The tree below `n` of the letters in `str`, whose first letter is at position 1. */
    method Build(n: nat, left: int, right: int, str: seq<int>)
      requires Fits(tree.Length, n, left, right) && 1 <= left && right <= |str| && LettersOnly(str)
      requires forall m :: 0 <= m < tree.Length && Below(m, n) ==> tree[m] == BLANK
      modifies tree
      ensures Stands(tree[..], n, left, right, str[left - 1..right]) && OnlyBelow(old(tree[..]), tree[..], n)
      decreases right - left
    {
      hide Emit, Spelled, Counts, Content, Good;
      ghost var t := tree[..];
      assert Below(n, n);
      if left == right {
        tree[n] := tree[n].(sum := tree[n].sum[str[left - 1] := 1], lazy := true);
        LeafStands(tree[..], n, left, str[left - 1]);
        assert str[left - 1..right] == [str[left - 1]];
        return;
      }
      var mid := Mid(left, right);
      ChildrenBelow(n);
      forall m: nat | Below(m, 2 * n) || Below(m, 2 * n + 1) ensures Below(m, n) { BelowChild(m, n); }
      Build(2 * n, left, mid, str);
      ghost var t2 := tree[..];
      ChildChange(t, t2, n, true);
      Build(2 * n + 1, mid + 1, right, str);
      ghost var a, b := str[left - 1..mid], str[mid..right];
      ChildDealt(t2, tree[..], n, left, right, a, b, false);
      OnlyBelowTwice(t, t2, tree[..], n);
      ghost var t3 := tree[..];
      StandsFacts(t3, 2 * n, left, mid, a);
      StandsFacts(t3, 2 * n + 1, mid + 1, right, b);
      Pushup(n);
      BothDealt(t, t3, tree[..], n, left, right, a, b);
      assert a + b == str[left - 1..right];
    }

    constructor (str: seq<int>)
      requires str != [] && LettersOnly(str)
      ensures fresh(tree) && fresh(res) && res.Length == LETTERS && Stands(tree[..], 1, 1, |str|, str)
    {
      tree := new Node[4 * |str|](_ => BLANK);
      res := new int[LETTERS](_ => 0);
      Left, Right := 1, 1;
      new;
      FourfoldFits(|str|);
      Build(1, 1, |str|, str);
      assert str[1 - 1..|str|] == str;
    }
  }

  lemma {:induction false} StandsLength(t: seq<Node>, n: nat, l: int, r: int, s: seq<int>)
    requires Stands(t, n, l, r, s)
    ensures |s| == r - l + 1
  {
  }

  lemma {:induction false} MoveStart(t: Tally, sum: Tally, order: int)
    requires IsTally(t) && sum == seq(LETTERS, _ => 0)
    ensures Moving(t, sum, t, order, 0, 0)
  {
  }

  /** The loop cannot run out of letters before it has enough. */
  lemma {:induction false} MoveEnough(t: Tally, sum: Tally, source: Tally, order: int, k: int, total: int, len: int)
    requires Moving(t, sum, source, order, k, total) && total < len <= |Spelled(t, order)|
    ensures k < LETTERS
  {
    hide Emit;
  }

  lemma {:induction false} CutOffLength(t: Tally, taken: Tally, rest: Tally, order: int, len: int)
    requires CutOff(t, taken, rest, order, len)
    ensures IsTally(t) && IsTally(taken) && IsTally(rest)
    ensures |Spelled(taken, order)| == len && |Spelled(rest, order)| == |Spelled(t, order)| - len
  {
    hide Emit, Spelled;
  }

  lemma {:induction false} Rejoin(t: seq<Node>, n: nat, l: int, r: int, k: int, s: seq<int>)
    requires l < r && Fits(|t|, n, l, r) && !t[n].lazy && Counts(t[n].sum, s) && k == Mid(l, r) - l + 1 && 0 <= k <= |s|
    requires Stands(t, 2 * n, l, Mid(l, r), s[..k]) && Stands(t, 2 * n + 1, Mid(l, r) + 1, r, s[k..])
    ensures Stands(t, n, l, r, s)
  {
    hide Good, Content;
    assert Fits(|t|, 2 * n + 1, Mid(l, r) + 1, r);
    StandsFacts(t, 2 * n, l, Mid(l, r), s[..k]);
    StandsFacts(t, 2 * n + 1, Mid(l, r) + 1, r, s[k..]);
    assert s == s[..k] + s[k..];
    forall c | 0 <= c < LETTERS ensures t[n].sum[c] == t[2 * n].sum[c] + t[2 * n + 1].sum[c] {
      assert TallyOf(s)[c] == TallyOf(s[..k])[c] + TallyOf(s[k..])[c];
    }
    JoinStands(t, n, l, r, s[..k], s[k..]);
  }

  /** A query of one child leaves the node and both children standing for what they did. */
  lemma {:induction false} ChildAsked(t: seq<Node>, t': seq<Node>, n: nat, l: int, r: int, s: seq<int>, left: bool)
    requires l < r && Stands(t, n, l, r, s) && !t[n].lazy && |s| == r - l + 1
    requires OnlyBelow(t, t', if left then 2 * n else 2 * n + 1)
    requires left ==> Stands(t', 2 * n, l, Mid(l, r), s[..Mid(l, r) - l + 1])
    requires !left ==> Stands(t', 2 * n + 1, Mid(l, r) + 1, r, s[Mid(l, r) - l + 1..])
    ensures Stands(t', n, l, r, s) && t'[n] == t[n] && OnlyBelow(t, t', n)
    ensures Stands(t', 2 * n, l, Mid(l, r), s[..Mid(l, r) - l + 1]) && Stands(t', 2 * n + 1, Mid(l, r) + 1, r, s[Mid(l, r) - l + 1..])
    ensures SameBelow(t, t', if left then 2 * n + 1 else 2 * n)
  {
    hide Good, Content, Counts, OnlyBelow, SameBelow;
    var k := Mid(l, r) - l + 1;
    ChildChange(t, t', n, left);
    SplitStands(t, n, l, r, s);
    if left {
      StandsFrame(t, t', 2 * n + 1, Mid(l, r) + 1, r, s[k..]);
    } else {
      StandsFrame(t, t', 2 * n, l, Mid(l, r), s[..k]);
    }
    Rejoin(t', n, l, r, k, s);
  }

  lemma {:induction false} NodeDealt(t: seq<Node>, t': seq<Node>, n: nat, l: int, r: int, res: Tally, res': Tally, order: int)
    requires Fits(|t|, n, l, r) && |t'| == |t| && t' == t[n := Node(t'[n].sum, order, true)]
    requires CutOff(res, t'[n].sum, res', order, r - l + 1)
    ensures IsTally(res) && IsTally(res') && r - l + 1 <= |Spelled(res, order)|
    ensures Stands(t', n, l, r, Spelled(res, order)[..r - l + 1]) && OnlyBelow(t, t', n)
    ensures Spelled(res', order) == Spelled(res, order)[r - l + 1..]
  {
    hide Emit, Spelled, Good, Content;
    LazyStands(t', n, l, r);
    assert Below(n, n);
  }

  /** Dealing letters to one child leaves the other one, and the node itself, alone. */
  lemma {:induction false} ChildDealt(t: seq<Node>, t': seq<Node>, n: nat, l: int, r: int, a: seq<int>, b: seq<int>, left: bool)
    requires l < r && Fits(|t|, n, l, r)
    requires OnlyBelow(t, t', if left then 2 * n else 2 * n + 1)
    requires left ==> Stands(t', 2 * n, l, Mid(l, r), a) && Stands(t, 2 * n + 1, Mid(l, r) + 1, r, b)
    requires !left ==> Stands(t, 2 * n, l, Mid(l, r), a) && Stands(t', 2 * n + 1, Mid(l, r) + 1, r, b)
    ensures |t'| == |t| && t'[n] == t[n] && OnlyBelow(t, t', n) && SameBelow(t, t', if left then 2 * n + 1 else 2 * n)
    ensures Stands(t', 2 * n, l, Mid(l, r), a) && Stands(t', 2 * n + 1, Mid(l, r) + 1, r, b)
  {
    hide Good, Content, Counts;
    ChildChange(t, t', n, left);
    if left {
      StandsFrame(t, t', 2 * n + 1, Mid(l, r) + 1, r, b);
    } else {
      StandsFrame(t, t', 2 * n, l, Mid(l, r), a);
    }
  }

  /** Adding the children's counts up makes the node stand for both halves. */
  lemma {:induction false} BothDealt(t: seq<Node>, t3: seq<Node>, t': seq<Node>, n: nat, l: int, r: int, a: seq<int>, b: seq<int>)
    requires l < r && Fits(|t|, n, l, r) && OnlyBelow(t, t3, n) && !t3[n].lazy && 2 * n + 1 < |t|
    requires |t'| == |t3| && t' == t3[n := t3[n].(sum := t'[n].sum)] && |t'[n].sum| == |t3[2 * n].sum| == |t3[2 * n + 1].sum| == LETTERS
    requires Stands(t3, 2 * n, l, Mid(l, r), a) && Stands(t3, 2 * n + 1, Mid(l, r) + 1, r, b)
    requires forall c :: 0 <= c < LETTERS ==> t'[n].sum[c] == t3[2 * n].sum[c] + t3[2 * n + 1].sum[c]
    ensures Stands(t', n, l, r, a + b) && OnlyBelow(t, t', n)
  {
    hide Good, Content, Counts;
    assert t' == t3[n := t'[n]];
    NodeChange(t3, t', n);
    OnlyBelowTwice(t, t3, t', n);
    StandsFrame(t3, t', 2 * n, l, Mid(l, r), a);
    StandsFrame(t3, t', 2 * n + 1, Mid(l, r) + 1, r, b);
    JoinStands(t', n, l, r, a, b);
  }

  lemma {:induction false} LeafStands(t: seq<Node>, n: nat, l: int, c: int)
    requires Fits(|t|, n, l, l) && 0 <= c < LETTERS && t[n] == BLANK.(sum := BLANK.sum[c := 1], lazy := true)
    ensures Stands(t, n, l, l, [c])
  {
    hide Emit, Spelled, Good, Content, Counts;
    var sum := t[n].sum;
    var k := Letter(t[n].order, c);
    LetterOfRank(t[n].order, c);
    SpelledAround(sum, t[n].order, k);
    forall j | 0 <= j < LETTERS && j != k ensures sum[Letter(t[n].order, j)] == 0 {
    }
    EmitNone(sum, t[n].order, 0, k);
    EmitNone(sum, t[n].order, k + 1, |sum|);
    assert Repeat(sum[c], c) == [c];
    LazyStands(t, n, l, l);
  }

  lemma {:induction false} EmitNext(t: Tally, order: int, k: nat)
    requires k < LETTERS == |t|
    ensures Emit(t, order, 0, k + 1) == Emit(t, order, 0, k) + Repeat(t[Letter(order, k)], Letter(order, k))
  {
  }

  lemma {:induction false} EmitStart(t: Tally, order: int)
    requires |t| == LETTERS
    ensures Emit(t, order, 0, 0) == [] && Emit(t, order, 0, |t|) == Spelled(t, order)
  {
  }

  /** All counted letters of a tally in order, as the print loops write them. */
  method Spell(sum: Tally, order: int) returns (out: seq<int>)
    requires IsTally(sum)
    ensures out == Spelled(sum, order)
  {
    hide Emit, Spelled, Repeat;
    EmitStart(sum, order);
    out := [];
    if order == 1 {
      for i := 0 to |sum|
        invariant out == Emit(sum, order, 0, i)
      {
        EmitNext(sum, order, i);
        out := SpellLetter(out, sum[i], i);
      }
    } else {
      var i := |sum| - 1;
      while i >= 0
        invariant -1 <= i < |sum| && out == Emit(sum, order, 0, |sum| - 1 - i)
      {
        EmitNext(sum, order, |sum| - 1 - i);
        out := SpellLetter(out, sum[i], i);
        i := i - 1;
      }
    }
  }

  method SpellLetter(before: seq<int>, count: int, c: nat) returns (out: seq<int>)
    ensures out == before + Repeat(count, c)
  {
    out := before;
    var j := 0;
    while j < count
      invariant 0 <= j && (j <= count || j == 0) && out == before + Repeat(j, c)
    {
      out := out + [c];
      j := j + 1;
      assert Repeat(j, c) == Repeat(j - 1, c) + [c];
    }
  }

  // ----- whole runs

  /** The letters of `s` sorted. */
  ghost function NaiveSort(s: seq<int>, order: int): seq<int> { Spelled(TallyOf(s), order) }

  /** `NaiveSort` is the one sorted permutation of a string of letters. */
  lemma {:induction false} NaiveSortIsSort(s: seq<int>, order: int, r: seq<int>)
    requires LettersOnly(s)
    ensures r == NaiveSort(s, order) <==> SortedAs(r, order) && multiset(r) == multiset(s)
  {
    hide Emit, Spelled;
    SpelledLength(TallyOf(s), order, s);
    if SortedAs(r, order) && multiset(r) == multiset(s) {
      SortedUnique(r, NaiveSort(s, order), order);
    }
  }

  /** `s` with positions L..R (from 1) sorted. */
  ghost function SortRange(s: seq<int>, L: int, R: int, order: int): seq<int>
    requires 1 <= L <= R <= |s|
  {
    s[..L - 1] + NaiveSort(s[L - 1..R], order) + s[R..]
  }

  /** Dealing out the counted letters of a range is sorting it. */
  lemma {:induction false} SortedPiece(s: seq<int>, L: int, R: int, order: int, res: Tally)
    requires 1 <= L <= R <= |s| && Counts(res, [] + Piece(s, 1, L, R))
    ensures IsTally(res) && |Spelled(res, order)| >= |Piece(s, 1, L, R)|
    ensures Overwrite(s, 1, L, R, Spelled(res, order)) == SortRange(s, L, R, order)
  {
    hide Emit, Spelled, Piece, Overwrite;
    PieceWhole(s, L, R);
    SpelledLength(res, order, s[L - 1..R]);
    OverwritePiece(s, L, R, Spelled(res, order));
  }

  lemma {:induction false} PieceWhole(s: seq<int>, L: int, R: int)
    requires 1 <= L <= R <= |s|
    ensures [] + Piece(s, 1, L, R) == Piece(s, 1, L, R) == s[L - 1..R]
  {
  }

  lemma {:induction false} OverwritePiece(s: seq<int>, L: int, R: int, e: seq<int>)
    requires 1 <= L <= R <= |s| && |e| == R - L + 1
    ensures Overwrite(s, 1, L, R, e) == s[..L - 1] + e + s[R..]
  {
    PieceWhole(s, L, R);
  }

  datatype Operation = Operation(L: int, R: int, order: int)

  ghost predicate InRange(ops: seq<Operation>, n: int) {
    forall i :: 0 <= i < |ops| ==> 1 <= ops[i].L <= ops[i].R <= n
  }

  lemma {:induction false} SortRangeLetters(s: seq<int>, L: int, R: int, order: int)
    requires 1 <= L <= R <= |s| && LettersOnly(s)
    ensures |SortRange(s, L, R, order)| == |s| && LettersOnly(SortRange(s, L, R, order))
  {
    hide Emit, Spelled;
    var x := s[L - 1..R];
    var y := NaiveSort(x, order);
    NaiveSortIsSort(x, order, y);
    assert |multiset(y)| == |multiset(x)|;
    forall i | 0 <= i < |y| ensures 0 <= y[i] < LETTERS {
      assert y[i] in multiset(y);
      assert y[i] in x;
    }
  }

  /** `s` with the substrings sorted one after the other. */
  ghost function SortAll(s: seq<int>, ops: seq<Operation>): (r: seq<int>)
    requires LettersOnly(s) && InRange(ops, |s|)
    ensures |r| == |s| && LettersOnly(r)
  {
    if ops == [] then s
    else
      var r, op := SortAll(s, ops[..|ops| - 1]), ops[|ops| - 1];
      SortRangeLetters(r, op.L, op.R, op.order);
      SortRange(r, op.L, op.R, op.order)
  }

  /** `b` is `a` with the letters at L..R (from 1) in the order and all other letters in their places. */
  ghost predicate SortedIn(a: seq<int>, b: seq<int>, op: Operation)
    requires 1 <= op.L <= op.R <= |a|
  {
    && |b| == |a| && (forall i :: 0 <= i < op.L - 1 || op.R <= i < |a| ==> b[i] == a[i])
    && SortedAs(b[op.L - 1..op.R], op.order) && multiset(b[op.L - 1..op.R]) == multiset(a[op.L - 1..op.R])
  }

  /** One more operation sorts exactly its substring. */
  lemma {:induction false} SortAllNext(s: seq<int>, ops: seq<Operation>, op: Operation)
    requires LettersOnly(s) && InRange(ops + [op], |s|)
    ensures InRange(ops, |s|) && 1 <= op.L <= op.R <= |s| && SortedIn(SortAll(s, ops), SortAll(s, ops + [op]), op)
  {
    hide Spelled, SortedAs;
    InRangeParts(ops, op, |s|);
    var r := SortAll(s, ops);
    assert (ops + [op])[..|ops|] == ops && (ops + [op])[|ops|] == op;
    var x := r[op.L - 1..op.R];
    NaiveSortIsSort(x, op.order, NaiveSort(x, op.order));
    assert |multiset(NaiveSort(x, op.order))| == |multiset(x)|;
    assert SortRange(r, op.L, op.R, op.order)[op.L - 1..op.R] == NaiveSort(x, op.order);
  }

  lemma {:induction false} InRangeParts(ops: seq<Operation>, op: Operation, n: int)
    requires InRange(ops + [op], n)
    ensures InRange(ops, n) && 1 <= op.L <= op.R <= n
  {
    forall i | 0 <= i < |ops|
      ensures 1 <= ops[i].L <= ops[i].R <= n
    {
      assert (ops + [op])[i] == ops[i];
    }
    assert (ops + [op])[|ops|] == op;
  }

  /** No letter is lost or made up in any run. */
  lemma {:induction false} SameLetters(s: seq<int>, ops: seq<Operation>)
    requires LettersOnly(s) && InRange(ops, |s|)
    ensures multiset(SortAll(s, ops)) == multiset(s)
  {
    hide SortedIn;
    if ops != [] {
      var before, op := ops[..|ops| - 1], ops[|ops| - 1];
      assert ops == before + [op];
      SortAllNext(s, before, op);
      SameLetters(s, before);
      SortedInLetters(SortAll(s, before), SortAll(s, ops), op);
    }
  }

  lemma {:induction false} SortedInLetters(a: seq<int>, b: seq<int>, op: Operation)
    requires 1 <= op.L <= op.R <= |a| && SortedIn(a, b, op)
    ensures multiset(b) == multiset(a)
  {
    hide SortedAs;
    var before, after := a[..op.L - 1], a[op.R..];
    var x, y := a[op.L - 1..op.R], b[op.L - 1..op.R];
    assert a == before + x + after;
    assert b == before + y + after;
    assert multiset(a) == multiset(before) + multiset(x) + multiset(after);
    assert multiset(b) == multiset(before) + multiset(y) + multiset(after);
  }

  /** Sorting the whole string forgets everything before it. */
  lemma {:induction false} WholeSorted(s: seq<int>, ops: seq<Operation>, order: int)
    requires LettersOnly(s) && s != [] && InRange(ops + [Operation(1, |s|, order)], |s|)
    ensures SortAll(s, ops + [Operation(1, |s|, order)]) == NaiveSort(s, order)
  {
    hide SortedAs, NaiveSort, SortAll;
    var op := Operation(1, |s|, order);
    SortAllNext(s, ops, op);
    SameLetters(s, ops);
    var a, b := SortAll(s, ops), SortAll(s, ops + [op]);
    assert a[0..|s|] == a && b[0..|s|] == b;
    NaiveSortIsSort(s, order, b);
  }

  /** The tree prints the string that sorting each substring in turn gives. */
  method Run(str: seq<int>, ops: seq<Operation>) returns (out: seq<int>)
    requires str != [] && LettersOnly(str) && InRange(ops, |str|)
    ensures out == SortAll(str, ops)
  {
    hide Stands, SortRange;
    var n := |str|;
    var sorting := new Tree(str);
    var k := 0;
    while k < |ops|
      invariant 0 <= k <= |ops| && fresh(sorting) && fresh(sorting.tree) && fresh(sorting.res) && sorting.res.Length == LETTERS
      invariant Stands(sorting.tree[..], 1, 1, n, SortAll(str, ops[..k]))
    {
      assert ops[..k + 1][..k] == ops[..k];
      sorting.Sort(n, ops[k].L, ops[k].R, ops[k].order, SortAll(str, ops[..k]));
      k := k + 1;
    }
    assert ops[..|ops|] == ops;
    out := sorting.Print(1, 1, n, SortAll(str, ops));
  }
}
