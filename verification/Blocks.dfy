/** Lists of free blocks by address: which bytes they cover, and what allocating, freeing and merging do. */
module Blocks {

  datatype Block = Block(address: int, size: int)

  predicate In(b: Block, x: int) { b.address <= x < b.address + b.size }

  ghost predicate Covers(f: seq<Block>, x: int) {
    exists b :: b in f && In(b, x)
  }

  /** Blocks inside [lo, hi). */
  ghost predicate Within(f: seq<Block>, lo: int, hi: int) {
    forall k :: 0 <= k < |f| ==> f[k].size > 0 && lo <= f[k].address && f[k].address + f[k].size <= hi
  }

  /** Ascending blocks with a byte between any two of them, except that block `i` may touch its neighbours. */
  ghost predicate Loose(f: seq<Block>, i: int) {
    forall k, l :: 0 <= k < l < |f| ==>
      if l == k + 1 && (k == i || l == i) then f[k].address + f[k].size <= f[l].address
      else f[k].address + f[k].size < f[l].address
  }

  ghost predicate Canonical(f: seq<Block>, lo: int, hi: int) {
    Within(f, lo, hi) && Loose(f, -1)
  }

  lemma {:induction false} CoversJoin(a: seq<Block>, b: seq<Block>, x: int)
    ensures Covers(a + b, x) <==> Covers(a, x) || Covers(b, x)
  {
    if Covers(a, x) {
      var c :| c in a && In(c, x);
      assert c in a + b;
    }
    if Covers(b, x) {
      var c :| c in b && In(c, x);
      assert c in a + b;
    }
  }

  lemma {:induction false} CoversAround(a: seq<Block>, b: Block, c: seq<Block>, x: int)
    ensures Covers(a + [b] + c, x) <==> Covers(a, x) || In(b, x) || Covers(c, x)
  {
    CoversJoin(a + [b], c, x);
    CoversJoin(a, [b], x);
    if In(b, x) { assert b in [b]; }
  }

  // ----- the list is determined by the free bytes

  lemma {:induction false} CoversIndex(f: seq<Block>, x: int) returns (i: nat)
    requires Covers(f, x)
    ensures i < |f| && In(f[i], x)
  {
    var b :| b in f && In(b, x);
    i :| 0 <= i < |f| && f[i] == b;
  }

  lemma {:induction false} BlockCovers(f: seq<Block>, i: nat, x: int)
    requires i < |f| && In(f[i], x)
    ensures Covers(f, x)
  {
  }

  lemma {:induction false} FirstCovered(f: seq<Block>, lo: int, hi: int, g: seq<Block>)
    requires Canonical(f, lo, hi) && g != [] && Canonical(g, lo, hi) && forall x :: Covers(g, x) ==> Covers(f, x)
    ensures f != [] && f[0].address <= g[0].address
  {
    BlockCovers(g, 0, g[0].address);
    var i := CoversIndex(f, g[0].address);
  }

  /** The byte right behind a block is not free. */
  lemma {:induction false} BehindBlock(f: seq<Block>, lo: int, hi: int, i: nat)
    requires i < |f| && Canonical(f, lo, hi)
    ensures !Covers(f, f[i].address + f[i].size)
  {
  }

  lemma {:induction false} SameFirst(f: seq<Block>, g: seq<Block>, lo: int, hi: int)
    requires Canonical(f, lo, hi) && Canonical(g, lo, hi) && f != [] && g != [] && f[0].address == g[0].address
    requires forall x :: Covers(f, x) <==> Covers(g, x)
    ensures f[0] == g[0]
  {
    BehindBlock(f, lo, hi, 0);
    BehindBlock(g, lo, hi, 0);
    if f[0].size < g[0].size { BlockCovers(g, 0, f[0].address + f[0].size); }
    if f[0].size > g[0].size { BlockCovers(f, 0, g[0].address + g[0].size); }
  }

  lemma {:induction false} TailCovers(f: seq<Block>, lo: int, hi: int, x: int)
    requires Canonical(f, lo, hi) && f != []
    ensures Canonical(f[1..], lo, hi)
    ensures Covers(f[1..], x) <==> Covers(f, x) && !In(f[0], x)
  {
    assert f == [] + [f[0]] + f[1..];
    CoversAround([], f[0], f[1..], x);
    if Covers(f[1..], x) { var i := CoversIndex(f[1..], x); }
  }

  /** Two canonical lists that cover the same bytes are equal. */
  lemma {:induction false} CanonicalUnique(f: seq<Block>, g: seq<Block>, lo: int, hi: int)
    requires Canonical(f, lo, hi) && Canonical(g, lo, hi)
    requires forall x :: Covers(f, x) <==> Covers(g, x)
    ensures f == g
    decreases |f|
  {
    hide Covers;
    if f == [] {
      if g != [] { FirstCovered(f, lo, hi, g); }
    } else {
      BlockCovers(f, 0, f[0].address);
      FirstCovered(g, lo, hi, f);
      FirstCovered(f, lo, hi, g);
      SameFirst(f, g, lo, hi);
      TailCovers(f, lo, hi, 0);
      TailCovers(g, lo, hi, 0);
      forall x
        ensures Covers(f[1..], x) <==> Covers(g[1..], x)
      {
        TailCovers(f, lo, hi, x);
        TailCovers(g, lo, hi, x);
      }
      CanonicalUnique(f[1..], g[1..], lo, hi);
      assert f == [f[0]] + f[1..] && g == [g[0]] + g[1..];
    }
  }

  /** `size` consecutive free bytes start at `x`. */
  ghost predicate Run(f: seq<Block>, x: int, size: int) {
    forall y :: x <= y < x + size ==> Covers(f, y)
  }

  /** Free bytes in a row lie in one block. */
  lemma {:induction false} RunInBlock(f: seq<Block>, lo: int, hi: int, x: int, size: int) returns (i: nat)
    requires Canonical(f, lo, hi) && size > 0 && Run(f, x, size)
    ensures i < |f| && f[i].address <= x && x + size <= f[i].address + f[i].size
  {
    i := CoversIndex(f, x);
    BehindBlock(f, lo, hi, i);
  }

  lemma {:induction false} BlockIsRun(f: seq<Block>, i: nat, size: int)
    requires i < |f| && size <= f[i].size
    ensures Run(f, f[i].address, size)
  {
    forall y | f[i].address <= y < f[i].address + size
      ensures Covers(f, y)
    {
      BlockCovers(f, i, y);
    }
  }

  // ----- operations

  /** Taking `size` bytes off the front of block `i`. */
  function Taken(f: seq<Block>, i: nat, size: int): seq<Block>
    requires i < |f|
  {
    if f[i].size > size then f[..i] + [Block(f[i].address + size, f[i].size - size)] + f[i + 1..] else f[..i] + f[i + 1..]
  }

  lemma {:induction false} Apart(f: seq<Block>, i: nat, x: int)
    requires i < |f| && Loose(f, -1) && In(f[i], x)
    ensures !Covers(f[..i], x) && !Covers(f[i + 1..], x)
  {
  }

  lemma {:induction false} TakenCovers(f: seq<Block>, i: nat, size: int, x: int)
    requires Loose(f, -1) && i < |f| && 0 < size <= f[i].size
    ensures Covers(Taken(f, i, size), x) <==> Covers(f, x) && !(f[i].address <= x < f[i].address + size)
  {
    hide Covers, Loose;
    assert f == f[..i] + [f[i]] + f[i + 1..];
    CoversAround(f[..i], f[i], f[i + 1..], x);
    if In(f[i], x) { Apart(f, i, x); }
    CoversAround(f[..i], Block(f[i].address + size, f[i].size - size), f[i + 1..], x);
    CoversJoin(f[..i], f[i + 1..], x);
  }

  lemma {:induction false} TakenCanonical(f: seq<Block>, lo: int, hi: int, i: nat, size: int)
    requires Canonical(f, lo, hi) && i < |f| && 0 < size <= f[i].size
    ensures Canonical(Taken(f, i, size), lo, hi)
  {
    var g := Taken(f, i, size);
    if f[i].size > size {
      assert g == f[i := Block(f[i].address + size, f[i].size - size)];
      ShrunkLoose(f, i, size);
    } else {
      DroppedLoose(f, i);
    }
  }

  lemma {:induction false} ShrunkLoose(f: seq<Block>, i: nat, size: int)
    requires Loose(f, -1) && i < |f| && 0 < size <= f[i].size
    ensures Loose(f[i := Block(f[i].address + size, f[i].size - size)], -1)
  {
  }

  lemma {:induction false} DroppedLoose(f: seq<Block>, i: nat)
    requires Loose(f, -1) && i < |f|
    ensures Loose(f[..i] + f[i + 1..], -1)
  {
    var g := f[..i] + f[i + 1..];
    forall k, l | 0 <= k < l < |g|
      ensures g[k].address + g[k].size < g[l].address
    {
      assert g[k] == f[if k < i then k else k + 1] && g[l] == f[if l < i then l else l + 1];
    }
  }

  function Inserted(f: seq<Block>, k: nat, b: Block): seq<Block>
    requires k <= |f|
  {
    f[..k] + [b] + f[k..]
  }

  /** A block that overlaps no free byte goes to its place. */
  lemma {:induction false} InsertedLoose(f: seq<Block>, lo: int, hi: int, k: nat, b: Block)
    requires Canonical(f, lo, hi) && k <= |f| && b.size > 0 && lo <= b.address && b.address + b.size <= hi
    requires forall x :: In(b, x) ==> !Covers(f, x)
    requires (forall l :: 0 <= l < k ==> f[l].address < b.address) && forall l :: k <= l < |f| ==> f[l].address >= b.address
    ensures Within(Inserted(f, k, b), lo, hi) && Loose(Inserted(f, k, b), k)
  {
    var g := Inserted(f, k, b);
    forall l | 0 <= l < |f|
      ensures l < k ==> f[l].address + f[l].size <= b.address
      ensures l >= k ==> b.address + b.size <= f[l].address
    {
      if l < k && In(f[l], b.address) { BlockCovers(f, l, b.address); }
      if l >= k && In(b, f[l].address) { BlockCovers(f, l, f[l].address); }
    }
    NeighboursOnly(f, k, b);
  }

  lemma {:induction false} NeighboursOnly(f: seq<Block>, k: nat, b: Block)
    requires Loose(f, -1) && k <= |f| && forall l :: 0 <= l < |f| ==> f[l].size > 0
    requires forall l :: 0 <= l < k ==> f[l].address + f[l].size <= b.address
    requires forall l :: k <= l < |f| ==> b.address + b.size <= f[l].address
    ensures Loose(Inserted(f, k, b), k)
  {
    var g := Inserted(f, k, b);
    forall l, m | 0 <= l < m < |g|
      ensures if m == l + 1 && (l == k || m == k) then g[l].address + g[l].size <= g[m].address
              else g[l].address + g[l].size < g[m].address
    {
      if m == k && l + 1 < k {
        assert f[l].address + f[l].size < f[k - 1].address;
      } else if l == k && m > k + 1 {
        assert f[k].address + f[k].size < f[m - 1].address;
      }
    }
  }

  /** Block `i` and the next one become one. */
  function Merged(f: seq<Block>, i: nat): seq<Block>
    requires i + 1 < |f|
  {
    f[..i] + [Block(f[i].address, f[i].size + f[i + 1].size)] + f[i + 2..]
  }

  lemma {:induction false} MergedCovers(f: seq<Block>, i: nat, x: int)
    requires i + 1 < |f| && f[i].size > 0 && f[i + 1].size > 0 && f[i].address + f[i].size == f[i + 1].address
    ensures Covers(Merged(f, i), x) <==> Covers(f, x)
  {
    hide Covers;
    assert f == f[..i] + [f[i]] + f[i + 1..];
    assert f[i + 1..] == [] + [f[i + 1]] + f[i + 2..];
    CoversAround(f[..i], f[i], f[i + 1..], x);
    CoversAround([], f[i + 1], f[i + 2..], x);
    CoversNone(x);
    CoversAround(f[..i], Block(f[i].address, f[i].size + f[i + 1].size), f[i + 2..], x);
  }

  lemma {:induction false} CoversNone(x: int)
    ensures !Covers([], x)
  {
  }

  lemma {:induction false} MergedLoose(f: seq<Block>, lo: int, hi: int, i: nat, at: nat)
    requires i + 1 < |f| && (at == i || at == i + 1) && Within(f, lo, hi) && Loose(f, at) && f[i].address + f[i].size == f[i + 1].address
    ensures Within(Merged(f, i), lo, hi) && Loose(Merged(f, i), i)
  {
    var g := Merged(f, i);
    assert forall l :: 0 <= l < |g| ==> g[l] == if l < i then f[l] else if l == i then Block(f[i].address, f[i].size + f[i + 1].size) else f[l + 1];
  }

  /** Once block `i` touches neither neighbour, the list is canonical. */
  lemma {:induction false} LooseCanonical(f: seq<Block>, lo: int, hi: int, i: nat)
    requires i < |f| && Within(f, lo, hi) && Loose(f, i)
    requires i > 0 ==> f[i - 1].address + f[i - 1].size != f[i].address
    requires i + 1 < |f| ==> f[i].address + f[i].size != f[i + 1].address
    ensures Canonical(f, lo, hi)
  {
  }
}
