/** The list of free blocks: every node is on a ring by address and on a ring by size, around one base node. */
module FreeList {
  import opened Seqs
  import opened Blocks

  class Node {
    var address: int
    var size: int
    var prev: Node
    var next: Node
    var smaller: Node?
    var larger: Node?

    constructor (address: int, size: int)
      ensures this.address == address && this.size == size && smaller == null && larger == null
    {
      this.address, this.size, prev, next, smaller, larger := address, size, this, this, null, null;
    }
  }

  /** Both address links of every node agree with the ring. */
  ghost predicate AddressRing(ring: seq<Node>)
    reads ring`prev, ring`next
  {
    && |ring| > 0 && Distinct<Node>(ring)
    && (forall i :: 0 <= i < |ring| - 1 ==> ring[i].next == ring[i + 1] && ring[i + 1].prev == ring[i])
    && ring[|ring| - 1].next == ring[0] && ring[0].prev == ring[|ring| - 1]
  }

  /** Both size links of every node agree with the ring. */
  ghost predicate SizeRing(ring: seq<Node>)
    reads ring`smaller, ring`larger
  {
    && |ring| > 0 && Distinct<Node>(ring)
    && (forall i :: 0 <= i < |ring| - 1 ==> ring[i].larger == ring[i + 1] && ring[i + 1].smaller == ring[i])
    && ring[|ring| - 1].larger == ring[0] && ring[0].smaller == ring[|ring| - 1]
  }

  /** The element at `i`, counted around the ring. */
  ghost function Round(ring: seq<Node>, i: int): Node
    requires ring != [] && -1 <= i <= |ring|
  {
    ring[if i == |ring| then 0 else if i == -1 then |ring| - 1 else i]
  }

  lemma {:induction false} RoundInserted(ring: seq<Node>, k: nat, x: Node, i: nat)
    requires k < |ring| && i <= |ring|
    ensures var more := ring[..k + 1] + [x] + ring[k + 1..];
      && more[i] == (if i == k + 1 then x else ring[if i <= k then i else i - 1])
      && Round(more, i + 1) == if i == k then x else Round(ring, if i <= k then i + 1 else i)
  {
    InsertedAt<Node>(ring, k + 1, x, i);
    if i < |ring| { InsertedAt<Node>(ring, k + 1, x, i + 1); } else { InsertedAt<Node>(ring, k + 1, x, 0); }
  }

  /** A ring by its links around. */
  lemma {:induction false} AddressLinks(ring: seq<Node>)
    requires ring != [] && Distinct<Node>(ring)
    requires forall i :: 0 <= i < |ring| ==> ring[i].next == Round(ring, i + 1) && ring[i].next.prev == ring[i]
    ensures AddressRing(ring)
  {
    forall i | 0 <= i < |ring| - 1
      ensures ring[i].next == ring[i + 1] && ring[i + 1].prev == ring[i]
    {
      assert ring[i].next == Round(ring, i + 1);
    }
    assert ring[|ring| - 1].next == Round(ring, |ring|);
  }

  /** A ring with `x` linked in behind position `k`. */
  lemma {:induction false} AddressLinked(ring: seq<Node>, k: nat, x: Node)
    requires k < |ring| && Distinct<Node>(ring) && x !in ring && x.next == Round(ring, k + 1) && x.next.prev == x
    requires forall i :: 0 <= i < |ring| ==> ring[i].next == (if i == k then x else Round(ring, i + 1)) && ring[i].next.prev == ring[i]
    ensures AddressRing(ring[..k + 1] + [x] + ring[k + 1..])
  {
    hide Round, Distinct, AddressRing;
    var more := ring[..k + 1] + [x] + ring[k + 1..];
    InsertedDistinct<Node>(ring, k + 1, x);
    forall i | 0 <= i < |more|
      ensures more[i].next == Round(more, i + 1) && more[i].next.prev == more[i]
    {
      RoundInserted(ring, k, x, i);
    }
    AddressLinks(more);
  }

  method Insert(node: Node, newNode: Node, ghost ring: seq<Node>, ghost k: nat)
    requires AddressRing(ring) && k < |ring| && node == ring[k] && newNode !in ring
    modifies ring`prev, ring`next, newNode`prev, newNode`next
    ensures AddressRing(ring[..k + 1] + [newNode] + ring[k + 1..])
  {
    assert node.next == Round(ring, k + 1);
    newNode.prev := node;
    newNode.next := node.next;
    node.next.prev := newNode;
    node.next := newNode;
    forall i | 0 <= i < |ring|
      ensures ring[i].next == (if i == k then newNode else Round(ring, i + 1)) && ring[i].next.prev == ring[i]
    {
    }
    AddressLinked(ring, k, newNode);
  }

  method UnlinkAddress(node: Node, ghost ring: seq<Node>, ghost k: nat)
    requires AddressRing(ring) && 0 < k < |ring| && node == ring[k]
    modifies ring`prev, ring`next
    ensures AddressRing(ring[..k] + ring[k + 1..]) && node.next == old(node.next)
  {
    ghost var less := ring[..k] + ring[k + 1..];
    assert node.prev == ring[k - 1];
    assert node.next == ring[if k + 1 == |ring| then 0 else k + 1];
    node.prev.next := node.next;
    node.next.prev := node.prev;
    RemovedDistinct<Node>(ring, k);
    forall i | 0 <= i < |less| - 1
      ensures less[i].next == less[i + 1] && less[i + 1].prev == less[i]
    {
      RemovedAt<Node>(ring, k, i);
      RemovedAt<Node>(ring, k, i + 1);
    }
    RemovedAt<Node>(ring, k, |less| - 1);
    RemovedAt<Node>(ring, k, 0);
  }

  method UnlinkSize(node: Node, ghost ring: seq<Node>, ghost k: nat)
    requires SizeRing(ring) && 0 < k < |ring| && node == ring[k]
    modifies ring`smaller, ring`larger
    ensures SizeRing(ring[..k] + ring[k + 1..])
  {
    ghost var less := ring[..k] + ring[k + 1..];
    assert node.smaller == ring[k - 1];
    assert node.larger == ring[if k + 1 == |ring| then 0 else k + 1];
    node.smaller.larger := node.larger;
    node.larger.smaller := node.smaller;
    RemovedDistinct<Node>(ring, k);
    forall i | 0 <= i < |less| - 1
      ensures less[i].larger == less[i + 1] && less[i + 1].smaller == less[i]
    {
      RemovedAt<Node>(ring, k, i);
      RemovedAt<Node>(ring, k, i + 1);
    }
    RemovedAt<Node>(ring, k, |less| - 1);
    RemovedAt<Node>(ring, k, 0);
  }

  lemma {:induction false} SizeLinks(ring: seq<Node>)
    requires ring != [] && Distinct<Node>(ring)
    requires forall i :: 0 <= i < |ring| ==>
      ring[i].larger == Round(ring, i + 1) && ring[i].larger.smaller == ring[i]
    ensures SizeRing(ring)
  {
    forall i | 0 <= i < |ring| - 1
      ensures ring[i].larger == ring[i + 1] && ring[i + 1].smaller == ring[i]
    {
      assert ring[i].larger == Round(ring, i + 1);
    }
    assert ring[|ring| - 1].larger == Round(ring, |ring|);
  }

  lemma {:induction false} SizeLinked(ring: seq<Node>, k: nat, x: Node)
    requires k < |ring| && Distinct<Node>(ring) && x !in ring
    requires x.larger == Round(ring, k + 1) && x.larger.smaller == x
    requires forall i :: 0 <= i < |ring| ==>
      ring[i].larger == (if i == k then x else Round(ring, i + 1)) && ring[i].larger.smaller == ring[i]
    ensures SizeRing(ring[..k + 1] + [x] + ring[k + 1..])
  {
    hide Round, Distinct, SizeRing;
    var more := ring[..k + 1] + [x] + ring[k + 1..];
    InsertedDistinct<Node>(ring, k + 1, x);
    forall i | 0 <= i < |more|
      ensures more[i].larger == Round(more, i + 1) && more[i].larger.smaller == more[i]
    {
      RoundInserted(ring, k, x, i);
    }
    SizeLinks(more);
  }

  method LinkSize(current: Node, node: Node, ghost ring: seq<Node>, ghost k: nat)
    requires SizeRing(ring) && k < |ring| && current == ring[k] && node !in ring
    modifies ring`smaller, ring`larger, node`smaller, node`larger
    ensures SizeRing(ring[..k + 1] + [node] + ring[k + 1..])
  {
    assert current.larger == Round(ring, k + 1);
    node.larger := current.larger;
    node.smaller := current;
    current.larger.smaller := node;
    current.larger := node;
    forall i | 0 <= i < |ring|
      ensures ring[i].larger == (if i == k then node else Round(ring, i + 1)) && ring[i].larger.smaller == ring[i]
    {
      assert i != k ==> ring[i].larger == Round(ring, i + 1);
    }
    SizeLinked(ring, k, node);
  }

  /** The nodes behind the base describe these blocks. */
  ghost predicate Describes(ring: seq<Node>, f: seq<Block>)
    reads ring`address, ring`size
  {
    |ring| == |f| + 1 && forall i :: 0 <= i < |f| ==> f[i] == Block(ring[i + 1].address, ring[i + 1].size)
  }

  /** Ascending sizes behind the base, when `x` and `y` are passed over. */
  ghost predicate AscendingBut(ring: seq<Node>, x: Node?, y: Node?)
    reads ring`size
  {
    forall i, j :: 0 < i < j < |ring| && ring[i] != x && ring[j] != x && ring[i] != y && ring[j] != y ==>
      ring[i].size <= ring[j].size
  }

  /** Every node but the one at `i` has its place by size. */
  ghost predicate Placed(a: seq<Node>, s: seq<Node>, i: int) {
    forall k :: 0 <= k < |a| && k != i ==> a[k] in s
  }

  ghost predicate Inside(a: seq<Node>, b: seq<Node>) {
    forall i :: 0 <= i < |a| ==> a[i] in b
  }

  lemma {:induction false} InsideWithout(a: seq<Node>, b: seq<Node>, x: Node)
    requires Inside(a, b) && Distinct<Node>(a)
    ensures Inside(Without<Node>(a, x), Without<Node>(b, x))
  {
    WithoutIndices<Node>(a, x);
    WithoutIndices<Node>(b, x);
    var less := Without<Node>(a, x);
    forall i | 0 <= i < |less|
      ensures less[i] in Without<Node>(b, x)
    {
      var k :| 0 <= k < |a| && a[k] == less[i];
      var l :| 0 <= l < |b| && b[l] == less[i];
    }
  }

  /** A base and one node make both rings. */
  lemma {:induction false} PairRings(base: Node, memory: Node)
    requires base != memory
    requires base.prev == base.next == memory && memory.prev == memory.next == base
    requires base.smaller == base.larger == memory && memory.smaller == memory.larger == base
    ensures AddressRing([base, memory]) && SizeRing([base, memory])
  {
  }

  lemma {:induction false} PairInOrder(base: Node, memory: Node)
    requires memory.size > 0
    ensures var ring, free := [base, memory], [Block(memory.address, memory.size)];
      && Inside(ring, ring) && Describes(ring, free) && Placed(ring, ring, -1) && AscendingBut(ring, null, null)
      && Canonical(free, memory.address, memory.address + memory.size)
  {
  }

  class List {
    const node: Node
    const address: int
    const size: int
    ghost var byAddress: seq<Node>
    ghost var bySize: seq<Node>
    ghost var free: seq<Block>  // the free blocks in the order of their addresses

    ghost predicate Rings()
      reads this, byAddress, bySize
    {
      && AddressRing(byAddress) && SizeRing(bySize) && byAddress[0] == node && bySize[0] == node && node.size == 0
      && Inside(bySize, byAddress) && Describes(byAddress, free)
    }

    ghost predicate Valid()
      reads this, byAddress, bySize
    {
      && Rings() && Placed(byAddress, bySize, -1)
      && AscendingBut(bySize, null, null) && Canonical(free, address, address + size)
    }

    /** Valid but for the node at `i`: it may touch its neighbours, and its place by size is not right yet. */
    ghost predicate Half(i: nat)
      reads this, byAddress, bySize
    {
      && Rings() && 0 < i < |byAddress| && Placed(byAddress, bySize, i)
      && (byAddress[i] !in bySize ==> byAddress[i].smaller == null) && AscendingBut(bySize, byAddress[i], null)
      && Within(free, address, address + size) && Loose(free, i - 1)
    }

    constructor (address: int, size: int)
      requires size > 0
      ensures Valid() && this.address == address && this.size == size
      ensures free == [Block(address, size)] && fresh(byAddress)
    {
      hide AddressRing, SizeRing, Inside, Describes, Placed, AscendingBut, Canonical, Within;
      this.address, this.size := address, size;
      var base := new Node(0, 0);
      var memory := new Node(address, size);
      base.prev, base.next, base.smaller, base.larger := memory, memory, memory, memory;
      memory.prev, memory.next, memory.smaller, memory.larger := base, base, base, base;
      node := base;
      byAddress, bySize, free := [base, memory], [base, memory], [Block(address, size)];
      new;
      PairRings(base, memory);
      PairInOrder(base, memory);
    }

    /** Takes a node off the ring by size, if it is on it. */
    method Detach(x: Node)
      requires SizeRing(bySize) && bySize[0] == node && x != node && (x !in bySize ==> x.smaller == null)
      modifies this`bySize, bySize`smaller, bySize`larger
      ensures SizeRing(bySize) && bySize[0] == node && bySize == Without<Node>(old(bySize), x)
    {
      hide SizeRing;
      SizeFacts(bySize, x);
      if x.smaller != null && x.larger != null {
        ghost var j := IndexOf(bySize, x);
        DropAt(bySize, j);
        UnlinkSize(x, bySize, j);
        bySize := bySize[..j] + bySize[j + 1..];
      } else {
        WithoutAbsent<Node>(bySize, x);
      }
    }

    /** Takes a node off both rings, if it is on both. */
    method Remove(x: Node, ghost i: nat)
      requires Rings() && 0 < i < |byAddress| && x == byAddress[i] && (x !in bySize ==> x.smaller == null)
      modifies this`byAddress, this`bySize, this`free, byAddress`prev, byAddress`next, bySize`smaller, bySize`larger
      ensures Rings() && byAddress == old(byAddress)[..i] + old(byAddress)[i + 1..]
      ensures free == old(free)[..i - 1] + old(free)[i..]
      ensures bySize == Without<Node>(old(bySize), x) && x.next == old(x.next)
    {
      hide AddressRing, SizeRing, Describes, Inside, Without, Distinct;
      RingFacts(byAddress);
      SizeFacts(bySize, x);
      InsideDrop(bySize, byAddress, i);
      DescribesDrop(byAddress, free, i);
      UnlinkAddress(x, byAddress, i);
      Detach(x);
      byAddress, free := byAddress[..i] + byAddress[i + 1..], free[..i - 1] + free[i..];
    }

    /** Puts `x` at its place by size, taking it from its old place first if it had one. */
    method Sort(x: Node)
      requires Rings() && x in byAddress && x != node && AscendingBut(bySize, x, null) && (x !in bySize ==> x.smaller == null)
      modifies this`bySize, bySize`smaller, bySize`larger, x`smaller, x`larger
      ensures Rings() && AscendingBut(bySize, null, null)
      ensures Inside(old(bySize) + [x], bySize)
    {
      hide AddressRing, SizeRing, Describes, Inside, AscendingBut, Without;
      SizeFacts(bySize, x);
      AscendingWithout(bySize, x, null);
      WithoutIndices<Node>(bySize, x);
      Detach(x);
      ghost var k := Place(x);
      PlacedInside(old(bySize), x, k, byAddress);
    }

    /** Moves and resizes the block of `x`, whose place by size may then be wrong. */
    method Resize(x: Node, address: int, size: int, ghost i: nat, ghost y: Node?)
      requires Rings() && 0 < i < |byAddress| && x == byAddress[i] && AscendingBut(bySize, y, null)
      modifies x`address, x`size, this`free
      ensures Rings() && free == old(free)[i - 1 := Block(address, size)]
      ensures AscendingBut(bySize, y, x)
    {
      hide AddressRing, SizeRing, Inside;
      RingFacts(byAddress);
      x.address := address;
      x.size := size;
      free := free[i - 1 := Block(address, size)];
    }

    /** A free block loses its first `size` bytes. */
    method Shrink(x: Node, size: int, ghost i: nat)
      requires Valid() && 0 < i < |byAddress| && x == byAddress[i] && 0 < size < x.size
      modifies this`bySize, this`free, x`address, x`size, x`smaller, x`larger, bySize`smaller, bySize`larger
      ensures Valid() && free == Taken(old(free), i - 1, size)
    {
      hide AddressRing, SizeRing, Inside, Without, Canonical, Placed, Taken, AscendingBut, Describes;
      ghost var s := bySize;
      DescribesAt(byAddress, free, i);
      TakenUpdate(free, i - 1, size);
      TakenCanonical(free, this.address, this.address + this.size, i - 1, size);
      RingFacts(byAddress);
      Resize(x, x.address + size, x.size - size, i, null);
      AscendingSwap(s, null, x, x);
      AscendingSame(s, x);
      PlacedSome(byAddress, s, x);
      Sort(x);
      PlacedAll(byAddress, s, bySize, x);
    }

    /** Takes `size` bytes off the front of a free block. */
    method Alloc(x: Node, size: int, ghost i: nat)
      requires Valid() && 0 < i < |byAddress| && x == byAddress[i] && 0 < size <= x.size
      modifies this`byAddress, this`bySize, this`free, byAddress
      ensures Valid() && free == Taken(old(free), i - 1, size) && Inside(byAddress, old(byAddress))
    {
      hide AddressRing, SizeRing, Without, Loose, AscendingBut, Placed, Taken, Distinct, Canonical, Within, Covers;
      ghost var a, s := byAddress, bySize;
      TakenUpdate(free, i - 1, size);
      TakenCanonical(free, this.address, this.address + this.size, i - 1, size);
      RingFacts(a);
      InsideSelf(a, i);
      if x.size > size {
        Shrink(x, size, i);
      } else {
        SizeFacts(s, x);
        DropAt(a, i);
        PlacedDrop(a, s, -1, i);
        PlacedSome(a, s, x);
        AscendingSwap(s, null, null, x);
        Remove(x, i);
        AscendingWithout(s, x, null);
      }
    }

    /** `second` touches `first` and becomes part of it. */
    method Absorb(first: Node, second: Node, ghost i: nat, ghost at: nat)
      requires (at == i || at == i + 1) && Half(at) && 0 < i && i + 1 < |byAddress|
      requires first == byAddress[i] && second == byAddress[i + 1] && first.address + first.size == second.address
      modifies this`byAddress, this`bySize, this`free, first`address, first`size
      modifies byAddress`prev, byAddress`next, bySize`smaller, bySize`larger
      ensures Half(i) && byAddress == old(byAddress)[..i + 1] + old(byAddress)[i + 2..]
      ensures free == Merged(old(free), i - 1) && bySize == Without<Node>(old(bySize), second)
      ensures forall x :: Covers(free, x) <==> Covers(old(free), x)
    {
      hide AddressRing, SizeRing, Inside, Without, Loose, Within, Covers, Merged, AscendingBut, Placed, Describes;
      ghost var a, s, f := byAddress, bySize, free;
      DescribesAt(a, f, i);
      DescribesAt(a, f, i + 1);
      PositiveSizes(f, this.address, this.address + this.size, i);
      MergedUpdate(f, i);
      OthersPlaced(a, s, at, if at == i then i + 1 else i);
      NotRemoved(s, second, first);
      RingFacts(a);
      SizeFacts(s, second);
      DropAt(a, i + 1);
      PlacedDrop(a, s, at, i + 1);
      MergedLoose(f, this.address, this.address + this.size, i - 1, at - 1);
      MergedSame(f, i - 1);
      Resize(first, first.address, first.size + second.size, i, a[at]);
      AscendingSwap(s, a[at], first, second);
      Remove(second, i + 1);
      AscendingWithout(s, second, first);
    }

    /** The first half of merging: while a block ends where the node's begins, it takes the node in. */
    method MergeBack(start: Node, ghost i: nat) returns (cur: Node, ghost k: nat)
      requires Half(i) && start == byAddress[i]
      modifies this`byAddress, this`bySize, this`free, byAddress
      ensures Half(k) && cur == byAddress[k]
      ensures k > 1 ==> free[k - 2].address + free[k - 2].size != free[k - 1].address
      ensures Inside(byAddress, old(byAddress))
      ensures forall x :: Covers(free, x) <==> Covers(old(free), x)
    {
      hide AddressRing, SizeRing, Without, Loose, Within, Covers, AscendingBut, Placed;
      InsideSelf(byAddress, i);
      cur, k := start, i;
      Around(byAddress, k);
      var prev := cur.prev;
      while prev != node && prev.address + prev.size == cur.address
        invariant Half(k) && cur == byAddress[k] && prev == byAddress[k - 1] && (prev == node <==> k == 1)
        invariant Inside(byAddress, old(byAddress))
        invariant forall x :: Covers(free, x) <==> Covers(old(free), x)
        decreases |byAddress|
      {
        Absorb(prev, cur, k - 1, k);
        cur, prev, k := prev, prev.prev, k - 1;
        Around(byAddress, k);
      }
    }

    /** Takes the next block in, whose link is read before it goes. */
    method AbsorbNext(cur: Node, next: Node, ghost k: nat) returns (after: Node)
      requires Half(k) && cur == byAddress[k] && k + 1 < |byAddress| && next == byAddress[k + 1]
      requires cur.address + cur.size == next.address
      modifies this`byAddress, this`bySize, this`free, byAddress
      ensures Half(k) && cur == byAddress[k] && after == byAddress[if k + 1 == |byAddress| then 0 else k + 1]
      ensures byAddress == old(byAddress)[..k + 1] + old(byAddress)[k + 2..]
      ensures forall l :: 0 <= l < k - 1 ==> l < |free| && l < |old(free)| && free[l] == old(free)[l]
      ensures k - 1 < |free| && k - 1 < |old(free)| && free[k - 1].address == old(free)[k - 1].address
      ensures forall x :: Covers(free, x) <==> Covers(old(free), x)
    {
      hide AddressRing, SizeRing, Without, Loose, Within, Covers, AscendingBut, Placed;
      Around(byAddress, k + 1);
      after := next.next;
      Absorb(cur, next, k, k);
    }

    /** Merges the node at `i` with the blocks it touches, first those before it, then those behind. */
    method Merge(start: Node, ghost i: nat)
      requires Half(i) && start == byAddress[i]
      modifies this`byAddress, this`bySize, this`free, byAddress
      ensures Valid() && Inside(byAddress, old(byAddress))
      ensures forall x :: Covers(free, x) <==> Covers(old(free), x)
    {
      hide AddressRing, SizeRing, Without, Loose, Within, Covers, AscendingBut, Placed;
      InsideSelf(byAddress, i);
      var cur;
      ghost var k;
      cur, k := MergeBack(start, i);
      Around(byAddress, k);
      var next := cur.next;
      while next != node && cur.address + cur.size == next.address
        invariant Half(k) && cur == byAddress[k] && next == byAddress[if k + 1 == |byAddress| then 0 else k + 1]
        invariant k > 1 ==> free[k - 2].address + free[k - 2].size != free[k - 1].address
        invariant Inside(byAddress, old(byAddress))
        invariant forall x :: Covers(free, x) <==> Covers(old(free), x)
        decreases |byAddress|
      {
        Around(byAddress, k);
        ghost var a := byAddress;
        next := AbsorbNext(cur, next, k);
        InsideDropped(a, k + 1, old(byAddress));
      }
      Around(byAddress, k);
      Finish(cur, k);
    }

    /** The node at `i` touches no neighbour any more and goes to its place by size. */
    method Finish(cur: Node, ghost i: nat)
      requires Half(i) && cur == byAddress[i]
      requires i > 1 ==> free[i - 2].address + free[i - 2].size != free[i - 1].address
      requires i < |free| ==> free[i - 1].address + free[i - 1].size != free[i].address
      modifies this`bySize, cur`smaller, cur`larger, bySize`smaller, bySize`larger
      ensures Valid()
    {
      hide AddressRing, SizeRing, Inside, Without, Loose, Within, AscendingBut, Placed;
      RingFacts(byAddress);
      ghost var s := bySize;
      LooseCanonical(free, address, address + size, i - 1);
      Sort(cur);
      PlacedAll(byAddress, s, bySize, cur);
    }

    /** The last node before `address`, or the base. */
    method FindBefore(address: int) returns (at: Node, ghost k: nat)
      requires Rings()
      ensures k < |byAddress| && at == byAddress[k] && k <= |free|
      ensures forall l :: 0 <= l < k ==> free[l].address < address
      ensures k < |free| ==> free[k].address >= address
    {
      hide AddressRing, SizeRing, Inside;
      at, k := node, 0;
      Onward(byAddress, k);
      while at.next != node && at.next.address < address
        invariant k < |byAddress| && at == byAddress[k] && at.next == byAddress[if k + 1 == |byAddress| then 0 else k + 1]
        invariant at.next == node <==> k + 1 == |byAddress|
        invariant forall l :: 0 <= l < k ==> free[l].address < address
        decreases |byAddress| - k
      {
        at, k := at.next, k + 1;
        Onward(byAddress, k);
      }
    }

    /** Hangs a new node behind the one at `k`. */
    method Hang(at: Node, newNode: Node, ghost k: nat)
      requires Valid() && k < |byAddress| && at == byAddress[k] && newNode !in byAddress && newNode.smaller == null
      requires Within(Inserted(free, k, Block(newNode.address, newNode.size)), address, address + size)
      requires Loose(Inserted(free, k, Block(newNode.address, newNode.size)), k)
      modifies this`byAddress, this`free, byAddress`prev, byAddress`next, newNode`prev, newNode`next
      ensures Half(k + 1) && byAddress == old(byAddress)[..k + 1] + [newNode] + old(byAddress)[k + 1..]
      ensures free == Inserted(old(free), k, Block(newNode.address, newNode.size))
    {
      hide AddressRing, SizeRing, Within, Loose, AscendingBut;
      ghost var a, s := byAddress, bySize;
      ghost var b := Block(newNode.address, newNode.size);
      AscendingSwap(s, null, null, newNode);
      Insert(at, newNode, byAddress, k);
      byAddress, free := byAddress[..k + 1] + [newNode] + byAddress[k + 1..], free[..k] + [b] + free[k..];
      HungFacts(a, s, old(free), newNode, k);
    }

    /** Returns a block that overlaps no free byte: afterwards exactly its bytes are free besides those that were. */
    method Free(address: int, size: int)
      requires Valid() && size > 0 && this.address <= address && address + size <= this.address + this.size
      requires forall x :: address <= x < address + size ==> !Covers(free, x)
      modifies this`byAddress, this`bySize, this`free, byAddress
      ensures Valid() && forall i :: 0 <= i < |byAddress| ==> byAddress[i] in old(byAddress) || fresh(byAddress[i])
      ensures forall x :: Covers(free, x) <==> Covers(old(free), x) || address <= x < address + size
    {
      hide AddressRing, SizeRing, Without, Within, Loose, Covers, AscendingBut, Placed, Distinct, Describes, Inserted;
      var newNode := new Node(address, size);
      var at;
      ghost var k;
      at, k := FindBefore(address);
      ghost var f, b := free, Block(address, size);
      BehindToo(f, this.address, this.address + this.size, k, address);
      InsertedLoose(f, this.address, this.address + this.size, k, b);
      InsertedSame(f, k, b);
      Hang(at, newNode, k);
      Merge(newNode, k + 1);
    }

    /** The last node of the ring that is smaller than `x`, or the base. */
    method FindPlace(x: Node) returns (current: Node, ghost k: nat)
      requires SizeRing(bySize) && bySize[0] == node
      ensures k < |bySize| && current == bySize[k] && forall i :: 0 < i <= k ==> bySize[i].size < x.size
      ensures k + 1 < |bySize| ==> bySize[k + 1].size >= x.size
    {
      hide SizeRing;
      SizeFacts(bySize, node);
      current, k := node, 0;
      SizeNext(bySize, k);
      while current.larger != node && current.larger.size < x.size
        invariant k < |bySize| && current == bySize[k] && current.larger == bySize[if k + 1 == |bySize| then 0 else k + 1]
        invariant forall i :: 0 < i <= k ==> bySize[i].size < x.size
        decreases |bySize| - k
      {
        current, k := current.larger, k + 1;
        SizeNext(bySize, k);
      }
    }

    /** Links `x` into the ring by size, behind all smaller nodes. */
    method Place(x: Node) returns (ghost k: nat)
      requires SizeRing(bySize) && bySize[0] == node && x !in bySize && AscendingBut(bySize, null, null)
      modifies this`bySize, bySize`smaller, bySize`larger, x`smaller, x`larger
      ensures SizeRing(bySize) && bySize[0] == node && AscendingBut(bySize, null, null)
      ensures k < |old(bySize)| && bySize == old(bySize)[..k + 1] + [x] + old(bySize)[k + 1..]
    {
      hide SizeRing, AscendingBut;
      var current;
      current, k := FindPlace(x);
      PlaceFits(bySize, k, x);
      LinkSize(current, x, bySize, k);
      bySize := bySize[..k + 1] + [x] + bySize[k + 1..];
    }
  }

  lemma {:induction false} AscendingWithout(ring: seq<Node>, x: Node, y: Node?)
    requires Distinct<Node>(ring) && AscendingBut(ring, x, y) && ring != [] && ring[0] != x
    ensures AscendingBut(Without<Node>(ring, x), y, null)
  {
    if x in ring {
      var j := IndexOf(ring, x);
      WithoutAt<Node>(ring, j);
      AscendingDrop(ring, j, y);
    } else {
      WithoutAbsent<Node>(ring, x);
    }
  }

  lemma {:induction false} AscendingDrop(ring: seq<Node>, j: nat, y: Node?)
    requires Distinct<Node>(ring) && 0 < j < |ring| && AscendingBut(ring, ring[j], y)
    ensures AscendingBut(ring[..j] + ring[j + 1..], y, null)
  {
    var less := ring[..j] + ring[j + 1..];
    forall k, l | 0 < k < l < |less| && less[k] != y && less[l] != y
      ensures less[k].size <= less[l].size
    {
      var m, n := if k < j then k else k + 1, if l < j then l else l + 1;
      assert less[k] == ring[m] && less[l] == ring[n] && ring[m] != ring[j] && ring[n] != ring[j];
    }
  }

  lemma {:induction false} PlacedInside(s: seq<Node>, x: Node, k: nat, a: seq<Node>)
    requires Inside(s, a) && x in a && k < |Without<Node>(s, x)|
    ensures var w := Without<Node>(s, x);
      var more := w[..k + 1] + [x] + w[k + 1..]; Inside(more, a) && Inside(s + [x], more)
  {
    WithoutIndices<Node>(s, x);
    var w := Without<Node>(s, x);
    var more := w[..k + 1] + [x] + w[k + 1..];
    assert more[k + 1] == x;
    forall i | 0 <= i < |more|
      ensures more[i] in a
    {
      if i != k + 1 {
        var l := if i <= k then i else i - 1;
        assert more[i] == w[l];
        var m :| 0 <= m < |s| && s[m] == w[l];
      }
    }
    forall i | 0 <= i < |s + [x]|
      ensures (s + [x])[i] in more
    {
      if i < |s| && s[i] != x {
        var l :| 0 <= l < |w| && w[l] == s[i];
        assert more[if l <= k then l else l + 1] == s[i];
      }
    }
  }

  /** The next larger node, around the ring. */
  lemma {:induction false} SizeNext(ring: seq<Node>, k: nat)
    requires SizeRing(ring) && k < |ring|
    ensures ring[k].larger == ring[if k + 1 == |ring| then 0 else k + 1] && Distinct<Node>(ring)
  {
  }

  lemma {:induction false} InsideDrop(s: seq<Node>, a: seq<Node>, i: nat)
    requires Distinct<Node>(a) && Distinct<Node>(s) && 0 < i < |a| && Inside(s, a)
    ensures var less := a[..i] + a[i + 1..]; less[0] == a[0] && Inside(Without<Node>(s, a[i]), less)
  {
    hide Distinct, Without, Inside;
    DropAt(a, i);
    InsideWithout(s, a, a[i]);
  }

  lemma {:induction false} DescribesDrop(ring: seq<Node>, f: seq<Block>, i: nat)
    requires Describes(ring, f) && 0 < i < |ring|
    ensures |ring| == |f| + 1 && Describes(ring[..i] + ring[i + 1..], f[..i - 1] + f[i..])
  {
  }

  lemma {:induction false} PlaceFits(ring: seq<Node>, k: nat, x: Node)
    requires k < |ring| && AscendingBut(ring, null, null) && forall i :: 0 < i <= k ==> ring[i].size < x.size
    requires k + 1 < |ring| ==> ring[k + 1].size >= x.size
    ensures AscendingBut(ring[..k + 1] + [x] + ring[k + 1..], null, null)
  {
    var more := ring[..k + 1] + [x] + ring[k + 1..];
    assert forall i :: 0 <= i < |more| ==> more[i] == if i <= k then ring[i] else if i == k + 1 then x else ring[i - 1];
  }

  lemma {:induction false} RingFacts(ring: seq<Node>)
    requires AddressRing(ring)
    ensures |ring| > 0 && Distinct<Node>(ring)
  {
  }

  lemma {:induction false} SizeFacts(ring: seq<Node>, x: Node)
    requires SizeRing(ring)
    ensures |ring| > 0 && Distinct<Node>(ring)
    ensures x in ring ==> x.smaller != null && x.larger != null
  {
    if x in ring {
      var j :| 0 <= j < |ring| && ring[j] == x;
      if j > 0 { SizeLink(ring, j - 1); }
      if j + 1 < |ring| { SizeLink(ring, j); }
    }
  }

  /** Without the node at `j`, the others keep their places. */
  lemma {:induction false} PlacedDrop(a: seq<Node>, s: seq<Node>, at: int, j: nat)
    requires Distinct<Node>(a) && j < |a| && at <= j && Placed(a, s, at)
    ensures Placed(a[..j] + a[j + 1..], Without<Node>(s, a[j]), if at < j then at else j - 1)
    ensures at == j ==> Placed(a[..j] + a[j + 1..], Without<Node>(s, a[j]), -1)
  {
    WithoutIndices<Node>(s, a[j]);
    var less, w := a[..j] + a[j + 1..], Without<Node>(s, a[j]);
    forall k | 0 <= k < |less| && (if k < j then k else k + 1) != at
      ensures less[k] in w
    {
      var l := if k < j then k else k + 1;
      assert less[k] == a[l] && a[l] in s;
      var m :| 0 <= m < |s| && s[m] == a[l];
    }
  }

  lemma {:induction false} PlacedAll(a: seq<Node>, s: seq<Node>, s': seq<Node>, x: Node)
    requires (exists i :: 0 <= i < |a| && a[i] == x && Placed(a, s, i)) || Placed(a, s, -1)
    requires Inside(s + [x], s')
    ensures Placed(a, s', -1)
  {
    assert (s + [x])[|s|] == x;
    forall k | 0 <= k < |a|
      ensures a[k] in s'
    {
      if a[k] != x {
        var m :| 0 <= m < |s| && s[m] == a[k];
        assert (s + [x])[m] == a[k];
      }
    }
  }

  lemma {:induction false} InsideSelf(a: seq<Node>, i: nat)
    requires i < |a|
    ensures Inside(a, a) && Inside(a[..i] + a[i + 1..], a)
  {
  }

  lemma {:induction false} Onward(ring: seq<Node>, k: nat)
    requires AddressRing(ring) && k < |ring|
    ensures ring[k].next == ring[if k + 1 == |ring| then 0 else k + 1]
    ensures ring[k].next == ring[0] <==> k + 1 == |ring|
  {
  }

  lemma {:induction false} BehindToo(f: seq<Block>, lo: int, hi: int, k: nat, address: int)
    requires Canonical(f, lo, hi) && k <= |f| && (k < |f| ==> f[k].address >= address)
    ensures forall l :: k <= l < |f| ==> f[l].address >= address
  {
  }

  lemma {:induction false} InsertedSame(f: seq<Block>, k: nat, b: Block)
    requires k <= |f|
    ensures forall x :: Covers(Inserted(f, k, b), x) <==> Covers(f, x) || In(b, x)
  {
    assert f == f[..k] + f[k..];
    forall x
      ensures Covers(Inserted(f, k, b), x) <==> Covers(f, x) || In(b, x)
    {
      CoversAround(f[..k], b, f[k..], x);
      CoversJoin(f[..k], f[k..], x);
    }
  }

  /** The rings after a new node has been hung behind the one at `k`, before it has a place by size. */
  lemma {:induction false} HungFacts(a: seq<Node>, s: seq<Node>, f: seq<Block>, x: Node, k: nat)
    requires k < |a| && x !in a && Inside(s, a) && Placed(a, s, -1) && Describes(a, f)
    ensures var more := a[..k + 1] + [x] + a[k + 1..];
      && Inside(s, more) && Placed(more, s, k + 1) && x !in s
      && Describes(more, f[..k] + [Block(x.address, x.size)] + f[k..])
  {
    var more := a[..k + 1] + [x] + a[k + 1..];
    forall i | 0 <= i < |s|
      ensures s[i] in more && s[i] != x
    {
      var l :| 0 <= l < |a| && a[l] == s[i];
      assert more[if l <= k then l else l + 1] == a[l];
    }
  }

  lemma {:induction false} InsideDropped(a: seq<Node>, k: nat, b: seq<Node>)
    requires Inside(a, b) && k < |a|
    ensures Inside(a[..k] + a[k + 1..], b)
  {
    var less := a[..k] + a[k + 1..];
    forall i | 0 <= i < |less|
      ensures less[i] in b
    {
      RemovedAt<Node>(a, k, i);
    }
  }

  /** The neighbours of a node, around the ring. */
  lemma {:induction false} Around(ring: seq<Node>, k: nat)
    requires AddressRing(ring) && 0 < k < |ring|
    ensures ring[k].prev == ring[k - 1] && (ring[k - 1] == ring[0] <==> k == 1)
    ensures ring[k].next == ring[if k + 1 == |ring| then 0 else k + 1]
    ensures ring[k].next == ring[0] <==> k + 1 == |ring|
  {
    assert ring[k - 1 + 1].prev == ring[k - 1];
  }

  lemma {:induction false} AscendingSame(s: seq<Node>, x: Node)
    requires AscendingBut(s, x, x)
    ensures AscendingBut(s, x, null)
  {
  }

  lemma {:induction false} MergedSame(f: seq<Block>, i: nat)
    requires i + 1 < |f| && f[i].size > 0 && f[i + 1].size > 0 && f[i].address + f[i].size == f[i + 1].address
    ensures forall x :: Covers(Merged(f, i), x) <==> Covers(f, x)
  {
    forall x
      ensures Covers(Merged(f, i), x) <==> Covers(f, x)
    {
      MergedCovers(f, i, x);
    }
  }

  lemma {:induction false} PositiveSizes(f: seq<Block>, lo: int, hi: int, i: nat)
    requires Within(f, lo, hi) && 0 < i < |f|
    ensures f[i - 1].size > 0 && f[i].size > 0
  {
  }

  lemma {:induction false} DescribesAt(ring: seq<Node>, f: seq<Block>, i: nat)
    requires Describes(ring, f) && 0 < i < |ring|
    ensures i - 1 < |f| && f[i - 1] == Block(ring[i].address, ring[i].size)
  {
  }

  lemma {:induction false} TakenUpdate(f: seq<Block>, i: nat, size: int)
    requires i < |f| && size <= f[i].size
    ensures f[i].size > size ==> f[i := Block(f[i].address + size, f[i].size - size)] == Taken(f, i, size)
    ensures f[i].size == size ==> f[..i] + f[i + 1..] == Taken(f, i, size)
  {
  }

  lemma {:induction false} MergedUpdate(f: seq<Block>, i: nat)
    requires 0 < i < |f|
    ensures var g := f[i - 1 := Block(f[i - 1].address, f[i - 1].size + f[i].size)];
      g[..i] + g[i + 1..] == Merged(f, i - 1)
  {
  }

  lemma {:induction false} OthersPlaced(a: seq<Node>, s: seq<Node>, at: int, i: nat)
    requires i < |a| && at != i && Placed(a, s, at)
    ensures a[i] in s
  {
  }

  lemma {:induction false} NotRemoved(s: seq<Node>, x: Node, y: Node)
    requires x != y
    ensures y in s <==> y in Without<Node>(s, x)
  {
    WithoutIndices<Node>(s, x);
    if y in s {
      var k :| 0 <= k < |s| && s[k] == y;
    }
    if y in Without<Node>(s, x) {
      var k :| 0 <= k < |Without<Node>(s, x)| && Without<Node>(s, x)[k] == y;
    }
  }

  lemma {:induction false} PlacedSome(a: seq<Node>, s: seq<Node>, x: Node)
    requires Placed(a, s, -1) && x in a
    ensures x in s
  {
    var k :| 0 <= k < |a| && a[k] == x;
    assert a[k] in s;
  }

  /** Passing over more nodes is easier. */
  lemma {:induction false} AscendingSwap(s: seq<Node>, x: Node?, first: Node?, second: Node?)
    requires (x == first || x == second || x == null) && (AscendingBut(s, x, first) || AscendingBut(s, x, null))
    ensures AscendingBut(s, second, first)
  {
  }

  lemma {:induction false} SizeLink(ring: seq<Node>, i: nat)
    requires SizeRing(ring) && i + 1 < |ring|
    ensures ring[i].larger == ring[i + 1] && ring[i + 1].smaller == ring[i]
  {
  }

  lemma {:induction false} IndexOf(s: seq<Node>, x: Node) returns (j: nat)
    requires x in s
    ensures j < |s| && s[j] == x
  {
    j :| 0 <= j < |s| && s[j] == x;
  }

  lemma {:induction false} DropAt(s: seq<Node>, k: nat)
    requires Distinct<Node>(s) && k < |s|
    ensures s[..k] + s[k + 1..] == Without<Node>(s, s[k]) && Distinct<Node>(Without<Node>(s, s[k]))
    ensures forall n :: n in Without<Node>(s, s[k]) <==> n in s && n != s[k]
  {
    WithoutAt<Node>(s, k);
    WithoutDistinct<Node>(s, s[k]);
  }
}
