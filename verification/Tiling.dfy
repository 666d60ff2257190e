/** Live and free blocks tile the memory: what allocating and freeing do to the tiling, and how sizes are
    rounded up to whole pages. */
module Tiling {
  import opened Seqs
  import opened Blocks
  import opened AllocList
  import opened Arithmetic

  // ----- rounding

  /** The bits of `x` that are not set in `mask`. */
  function ClearBits(x: nat, mask: nat): nat {
    if x == 0 then 0
    else (if x % 2 == 1 && mask % 2 == 0 then 1 else 0) + 2 * ClearBits(x / 2, mask / 2)
  }

  ghost predicate PowerOfTwo(p: int) {
    p == 1 || (p > 1 && p % 2 == 0 && PowerOfTwo(p / 2))
  }

  function RoundUp(size: nat, page: nat): nat
    requires page > 0
  {
    ClearBits(size + page - 1, page - 1)
  }

  lemma {:induction false} ClearNothing(x: nat)
    ensures ClearBits(x, 0) == x
  {
    if x > 0 { ClearNothing(x / 2); }
  }

  lemma {:induction false} ClearStep(x: nat, q: nat)
    requires q > 0
    ensures ClearBits(x, 2 * q - 1) == 2 * ClearBits(x / 2, q - 1)
  {
    assert (2 * q - 1) % 2 == 1 && (2 * q - 1) / 2 == q - 1;
  }

  /** Clearing the bits below a power of two leaves the multiple of it below the number. */
  lemma {:induction false} ClearLowBits(x: nat, p: nat) returns (a: nat, r: nat)
    requires PowerOfTwo(p)
    ensures x == p * a + r && r < p && ClearBits(x, p - 1) == p * a
  {
    hide ClearBits;
    if p == 1 {
      ClearNothing(x);
      a, r := x, 0;
    } else {
      var q := p / 2;
      a, r := ClearLowBits(x / 2, q);
      ClearStep(x, q);
      Doubled(p, q, a);
      r := 2 * r + x % 2;
    }
  }

  lemma {:induction false} Doubled(p: nat, q: nat, a: nat)
    requires p == 2 * q
    ensures p * a == 2 * (q * a)
  {
  }

  /** The rounded size is the least multiple of the page size that is large enough. */
  lemma {:induction false} RoundsUp(size: nat, page: nat)
    requires PowerOfTwo(page)
    ensures page > 0 && var r := RoundUp(size, page); r % page == 0 && size <= r < size + page
  {
    var a, r := ClearLowBits(size + page - 1, page);
    Remainder(page * a, page, a, 0);
  }

  // ----- tiling

  ghost predicate Live(live: seq<Info>, x: int) {
    exists k :: 0 <= k < |live| && In(live[k].block, x)
  }

  /** Whole pages in ascending order that do not overlap. */
  ghost predicate Stacked(live: seq<Info>, size: int, page: int) {
    && page > 0
    && (forall k :: 0 <= k < |live| ==> var b := live[k].block;
          b.size > 0 && 0 <= b.address && b.address + b.size <= size && b.address % page == 0 && b.size % page == 0)
    && forall k, l :: 0 <= k < l < |live| ==> live[k].block.address + live[k].block.size <= live[l].block.address
  }

  /** Every byte is live or free, and none is both; no two free blocks touch. */
  ghost predicate Tiled(live: seq<Info>, free: seq<Block>, size: int, page: int) {
    Stacked(live, size, page) && Canonical(free, 0, size) && forall x :: 0 <= x < size ==> (Covers(free, x) <==> !Live(live, x))
  }

  lemma {:induction false} TiledEmpty(size: nat, page: nat)
    requires size > 0 && page > 0
    ensures Tiled([], [Block(0, size)], size, page)
  {
    forall x | 0 <= x < size
      ensures Covers([Block(0, size)], x) && !Live([], x)
    {
      BlockCovers([Block(0, size)], 0, x);
    }
  }

  /** The free list is determined by which bytes are live: freeing what was allocated restores it, and the
      order of frees does not matter. */
  lemma {:induction false} FreeDetermined(live: seq<Info>, free: seq<Block>, live': seq<Info>, free': seq<Block>, size: int, page: int)
    requires Tiled(live, free, size, page) && Tiled(live', free', size, page)
    requires forall x :: 0 <= x < size ==> (Live(live, x) <==> Live(live', x))
    ensures free == free'
  {
    forall x
      ensures Covers(free, x) <==> Covers(free', x)
    {
      if Covers(free, x) { var i := CoversIndex(free, x); }
      if Covers(free', x) { var i := CoversIndex(free', x); }
    }
    CanonicalUnique(free, free', 0, size);
  }

  /** Free blocks start at page boundaries. */
  lemma {:induction false} FreeAligned(live: seq<Info>, free: seq<Block>, size: int, page: int, i: nat)
    requires Tiled(live, free, size, page) && i < |free|
    ensures free[i].address % page == 0
  {
    var a := free[i].address;
    BlockCovers(free, i, a);
    if a > 0 {
      if Covers(free, a - 1) {
        var k := CoversIndex(free, a - 1);
      }
      var k :| 0 <= k < |live| && In(live[k].block, a - 1);
      MultiplesAdd(live[k].block.address, live[k].block.size, page);
    }
  }

  /** `size` bytes from `x` on lie in the memory and are not allocated. */
  ghost predicate Room(live: seq<Info>, total: int, x: int, size: int) {
    0 <= x && x + size <= total && forall y :: x <= y < x + size ==> !Live(live, y)
  }

  /** There is room exactly when some free block is large enough. */
  lemma {:induction false} RoomIsBlock(live: seq<Info>, free: seq<Block>, total: int, page: int, size: int)
    requires Tiled(live, free, total, page) && size > 0
    ensures (exists x :: Room(live, total, x, size)) <==> exists i :: 0 <= i < |free| && free[i].size >= size
  {
    if exists x :: Room(live, total, x, size) {
      var x :| Room(live, total, x, size);
      var i := RunInBlock(free, 0, total, x, size);
    }
    if i :| 0 <= i < |free| && free[i].size >= size {
      BlockIsRun(free, i, size);
      assert Room(live, total, free[i].address, size);
    }
  }

  lemma {:induction false} LiveInsert(live: seq<Info>, k: nat, info: Info, x: int)
    requires k <= |live|
    ensures Live(live[..k] + [info] + live[k..], x) <==> Live(live, x) || In(info.block, x)
  {
    var more := live[..k] + [info] + live[k..];
    assert forall l :: 0 <= l < |more| ==> more[l] == if l < k then live[l] else if l == k then info else live[l - 1];
    if Live(live, x) {
      var l :| 0 <= l < |live| && In(live[l].block, x);
      assert more[if l < k then l else l + 1] == live[l];
    }
    if In(info.block, x) { assert more[k] == info; }
  }

  /** Allocating the front of a large enough free block. */
  lemma {:induction false} TiledAlloc(live: seq<Info>, free: seq<Block>, total: int, page: int, i: nat, size: int, k: nat, name: string)
    requires Tiled(live, free, total, page) && i < |free| && 0 < size <= free[i].size && size % page == 0 && k <= |live|
    requires forall l :: 0 <= l < k ==> live[l].block.address <= free[i].address
    requires k < |live| ==> live[k].block.address >= free[i].address
    ensures Tiled(live[..k] + [Info(name, Block(free[i].address, size))] + live[k..], Taken(free, i, size), total, page)
  {
    var info := Info(name, Block(free[i].address, size));
    var more := live[..k] + [info] + live[k..];
    FreeAligned(live, free, total, page, i);
    TakenCanonical(free, 0, total, i, size);
    BlockIsRun(free, i, size);
    StackInsert(live, total, page, k, info);
    forall x | 0 <= x < total
      ensures Covers(Taken(free, i, size), x) <==> !Live(more, x)
    {
      TakenCovers(free, i, size, x);
      LiveInsert(live, k, info, x);
    }
  }

  /** A block with no live byte goes between its neighbours. */
  lemma {:induction false} StackInsert(live: seq<Info>, total: int, page: int, k: nat, info: Info)
    requires Stacked(live, total, page) && k <= |live| && var b := info.block;
      b.size > 0 && 0 <= b.address && b.address + b.size <= total && b.address % page == 0 && b.size % page == 0
    requires forall x :: In(info.block, x) ==> !Live(live, x)
    requires forall l :: 0 <= l < k ==> live[l].block.address <= info.block.address
    requires k < |live| ==> live[k].block.address >= info.block.address
    ensures Stacked(live[..k] + [info] + live[k..], total, page)
  {
    hide Live, In;
    var more := live[..k] + [info] + live[k..];
    forall l | 0 <= l < |more|
      ensures more[l] == if l < k then live[l] else if l == k then info else live[l - 1]
    {
      InsertedAt(live, k, info, l);
    }
    StackApart(live, total, page, k, info);
  }

  lemma {:induction false} StackApart(live: seq<Info>, total: int, page: int, k: nat, info: Info)
    requires Stacked(live, total, page) && k <= |live| && info.block.size > 0
    requires forall x :: In(info.block, x) ==> !Live(live, x)
    requires forall l :: 0 <= l < k ==> live[l].block.address <= info.block.address
    requires k < |live| ==> live[k].block.address >= info.block.address
    ensures forall l :: 0 <= l < k ==> live[l].block.address + live[l].block.size <= info.block.address
    ensures forall l :: k <= l < |live| ==> info.block.address + info.block.size <= live[l].block.address
  {
    var b := info.block;
    forall l | 0 <= l < |live|
      ensures l < k ==> live[l].block.address + live[l].block.size <= b.address
      ensures l >= k ==> b.address + b.size <= live[l].block.address
    {
      assert In(b, b.address) && !Live(live, b.address);
      if l >= k && In(b, live[l].block.address) {
        assert In(live[l].block, live[l].block.address);
      }
    }
  }

  /** Removing a live block whose bytes have become free. */
  lemma {:induction false} TiledFree(live: seq<Info>, free: seq<Block>, free': seq<Block>, total: int, page: int, k: nat)
    requires Tiled(live, free, total, page) && k < |live| && Canonical(free', 0, total)
    requires forall x :: Covers(free', x) <==> Covers(free, x) || In(live[k].block, x)
    ensures Tiled(live[..k] + live[k + 1..], free', total, page)
  {
    StackRemove(live, total, page, k);
    forall x | 0 <= x < total
      ensures Covers(free', x) <==> !Live(live[..k] + live[k + 1..], x)
    {
      LiveRemove(live, total, page, k, x);
    }
  }

  lemma {:induction false} StackRemove(live: seq<Info>, total: int, page: int, k: nat)
    requires Stacked(live, total, page) && k < |live|
    ensures Stacked(live[..k] + live[k + 1..], total, page)
  {
    var less := live[..k] + live[k + 1..];
    assert forall l :: 0 <= l < |less| ==> less[l] == if l < k then live[l] else live[l + 1];
  }

  lemma {:induction false} LiveRemove(live: seq<Info>, total: int, page: int, k: nat, x: int)
    requires Stacked(live, total, page) && k < |live|
    ensures Live(live[..k] + live[k + 1..], x) <==> Live(live, x) && !In(live[k].block, x)
  {
    hide In;
    var less := live[..k] + live[k + 1..];
    if Live(live, x) && !In(live[k].block, x) {
      var l :| 0 <= l < |live| && In(live[l].block, x);
      RemovedAt(live, k, if l < k then l else l - 1);
    }
    if Live(less, x) {
      var l :| 0 <= l < |less| && In(less[l].block, x);
      RemovedAt(live, k, l);
      var m := if l < k then l else l + 1;
      assert In(live[m].block, x);
      OneBlock(live, total, page, k, m, x);
    }
  }

  /** A byte lies in one live block at most. */
  lemma {:induction false} OneBlock(live: seq<Info>, total: int, page: int, k: nat, m: nat, x: int)
    requires Stacked(live, total, page) && k < |live| && m < |live| && k != m && In(live[m].block, x)
    ensures !In(live[k].block, x)
  {
    if k < m {
      assert live[k].block.address + live[k].block.size <= live[m].block.address;
    } else {
      assert live[m].block.address + live[m].block.size <= live[k].block.address;
    }
  }
}
