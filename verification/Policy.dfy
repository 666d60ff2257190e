/** First, best and worst fit on the list of free blocks. */
module Policy {
  import opened Seqs
  import opened Blocks
  import opened FreeList

  /** What a policy may do with a request for `size` bytes: fail, with every block too small, or take the
      front of a block that is large enough. */
  ghost predicate Served(f: seq<Block>, f': seq<Block>, size: int, address: int, i: int) {
    if address == -1 then f' == f && forall k :: 0 <= k < |f| ==> f[k].size < size
    else 0 <= i < |f| && f[i].size >= size && address == f[i].address && f' == Taken(f, i, size)
  }

  ghost predicate NoneFits(f: seq<Block>, size: int) {
    forall k :: 0 <= k < |f| ==> f[k].size < size
  }

  /** `x` is the node of free block `i`. */
  ghost predicate Is(list: List, x: Node, i: int)
    reads list, list.byAddress
  {
    0 <= i < |list.free| && i + 1 < |list.byAddress| && list.byAddress[i + 1] == x && list.free[i] == Block(x.address, x.size)
  }

  /** The lowest node that is large enough, or the base. */
  method FirstLarge(list: List, size: int) returns (node: Node, ghost i: int)
    requires list.Valid()
    ensures node == list.node ==> NoneFits(list.free, size)
    ensures node != list.node ==> Is(list, node, i) && node.size >= size && forall l :: 0 <= l < i ==> list.free[l].size < size
  {
    hide AddressRing, SizeRing, Placed, AscendingBut, Loose, Within;
    Onward(list.byAddress, 0);
    node, i := list.node.next, 0;
    while node != list.node
      invariant 0 <= i <= |list.free|
      invariant node == list.byAddress[if i == |list.free| then 0 else i + 1] && (node == list.node <==> i == |list.free|)
      invariant forall l :: 0 <= l < i ==> list.free[l].size < size
      decreases |list.free| - i
    {
      DescribesAt(list.byAddress, list.free, i + 1);
      if node.size >= size { return; }
      Onward(list.byAddress, i + 1);
      node, i := node.next, i + 1;
    }
  }

  /** Where a node of the ring by size is on the ring by address. */
  lemma {:induction false} PlaceOf(list: List, j: nat) returns (i: nat)
    requires list.Valid() && 0 < j < |list.bySize|
    ensures Is(list, list.bySize[j], i)
  {
    hide AddressRing, Loose, Within, AscendingBut;
    SizeFacts(list.bySize, list.node);
    assert list.bySize[j] in list.byAddress;
    var at :| 0 <= at < |list.byAddress| && list.byAddress[at] == list.bySize[j];
    i := at - 1;
  }

  /** Every free block is some node of the ring by size. */
  lemma {:induction false} EveryBlock(list: List, i: nat) returns (j: nat)
    requires list.Valid() && i < |list.free|
    ensures 0 < j < |list.bySize| && list.free[i].size == list.bySize[j].size
  {
    hide Loose, Within, AscendingBut;
    RingFacts(list.byAddress);
    SizeFacts(list.bySize, list.node);
    assert list.byAddress[i + 1] in list.bySize;
    j :| 0 <= j < |list.bySize| && list.bySize[j] == list.byAddress[i + 1];
  }

  /** A smallest node that is large enough, or the base. */
  method SmallestLarge(list: List, size: int) returns (node: Node, ghost i: int)
    requires list.Valid()
    ensures node == list.node ==> NoneFits(list.free, size)
    ensures node != list.node ==> Is(list, node, i) && node.size >= size
    ensures node != list.node ==> forall k :: 0 <= k < |list.free| && list.free[k].size >= size ==> node.size <= list.free[k].size
  {
    hide AddressRing, SizeRing, Placed, Loose, Within;
    SizeFacts(list.bySize, list.node);
    SizeNext(list.bySize, 0);
    node := list.node.larger;
    ghost var j := 1;
    while node != list.node
      invariant 1 <= j <= |list.bySize|
      invariant node == list.bySize[if j == |list.bySize| then 0 else j] && (node == list.node <==> j == |list.bySize|)
      invariant forall l :: 1 <= l < j ==> list.bySize[l].size < size
      decreases |list.bySize| - j
    {
      if node.size >= size {
        i := PlaceOf(list, j);
        forall k | 0 <= k < |list.free| && list.free[k].size >= size
          ensures node.size <= list.free[k].size
        {
          var l := EveryBlock(list, k);
        }
        return;
      }
      SizeNext(list.bySize, j);
      node, j := node.larger, j + 1;
    }
    forall k | 0 <= k < |list.free|
      ensures list.free[k].size < size
    {
      var l := EveryBlock(list, k);
    }
    i := 0;
  }

  /** A largest node, or the base of an empty list. */
  method Largest(list: List) returns (node: Node, ghost i: int)
    requires list.Valid()
    ensures node == list.node ==> list.free == [] && node.size == 0
    ensures node != list.node ==> Is(list, node, i)
    ensures forall k :: 0 <= k < |list.free| ==> list.free[k].size <= node.size
  {
    hide AddressRing, Placed, Loose, Within;
    node := list.node.smaller;
    ghost var last := |list.bySize| - 1;
    assert node == list.bySize[last];
    SizeFacts(list.bySize, node);
    if list.free != [] { var l := EveryBlock(list, 0); }
    forall k | 0 <= k < |list.free|
      ensures list.free[k].size <= node.size
    {
      var l := EveryBlock(list, k);
    }
    i := 0;
    if last > 0 { i := PlaceOf(list, last); }
  }

  /** The lowest block that is large enough. */
  method FirstFit(list: List, size: int) returns (address: int, ghost i: int)
    requires list.Valid() && list.address >= 0 && size > 0
    modifies list`byAddress, list`bySize, list`free, list.byAddress
    ensures list.Valid() && Served(old(list.free), list.free, size, address, i) && Inside(list.byAddress, old(list.byAddress))
    ensures address != -1 ==> forall k :: 0 <= k < i ==> old(list.free)[k].size < size
  {
    hide AddressRing, SizeRing, Placed, AscendingBut, Loose, Taken;
    var node;
    node, i := FirstLarge(list, size);
    InsideSelf(list.byAddress, 0);
    if node == list.node { return -1, i; }
    address := node.address;
    list.Alloc(node, size, i + 1);
  }

  /** A smallest block that is large enough. */
  method BestFit(list: List, size: int) returns (address: int, ghost i: int)
    requires list.Valid() && list.address >= 0 && size > 0
    modifies list`byAddress, list`bySize, list`free, list.byAddress
    ensures list.Valid() && Served(old(list.free), list.free, size, address, i) && Inside(list.byAddress, old(list.byAddress))
    ensures address != -1 ==> forall k :: 0 <= k < |old(list.free)| && old(list.free)[k].size >= size ==>
      old(list.free)[i].size <= old(list.free)[k].size
  {
    hide AddressRing, SizeRing, Placed, AscendingBut, Loose, Taken;
    var node;
    node, i := SmallestLarge(list, size);
    InsideSelf(list.byAddress, 0);
    if node == list.node { return -1, i; }
    address := node.address;
    list.Alloc(node, size, i + 1);
  }

  /** A largest block. */
  method WorstFit(list: List, size: int) returns (address: int, ghost i: int)
    requires list.Valid() && list.address >= 0 && size > 0
    modifies list`byAddress, list`bySize, list`free, list.byAddress
    ensures list.Valid() && Served(old(list.free), list.free, size, address, i) && Inside(list.byAddress, old(list.byAddress))
    ensures address != -1 ==> forall k :: 0 <= k < |old(list.free)| ==> old(list.free)[k].size <= old(list.free)[i].size
  {
    hide AddressRing, SizeRing, Placed, AscendingBut, Loose, Taken;
    var node;
    node, i := Largest(list);
    InsideSelf(list.byAddress, 0);
    if node.size >= size {
      address := node.address;
      list.Alloc(node, size, i + 1);
      return;
    }
    return -1, i;
  }
}
