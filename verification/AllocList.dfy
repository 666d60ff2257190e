/** The singly linked list of live allocations in the order of their addresses. */
module AllocList {
  import opened Blocks
  import opened LinkedList

  datatype Info = Info(name: string, block: Block)

  class List {
    var head: Node?<Info>
    ghost var nodes: seq<Node<Info>>
    ghost var live: seq<Info>

    ghost predicate Valid()
      reads this, nodes
    {
      Chain(head, nodes) && Carries(nodes, live)
    }

    constructor ()
      ensures Valid() && live == [] && nodes == []
    {
      head, nodes, live := null, [], [];
    }

    /** The node behind which an allocation belongs that does not go to the front. */
    method FindPlace(address: int) returns (prev: Node<Info>, ghost k: nat)
      requires Valid() && nodes != [] && live[0].block.address <= address
      ensures 0 < k <= |nodes| && prev == nodes[k - 1]
      ensures forall l :: 0 < l < k ==> live[l].block.address < address
      ensures k < |live| ==> live[k].block.address >= address
    {
      prev, k := head, 1;
      var curr := head.next;
      while curr != null && curr.data.block.address < address
        invariant 0 < k <= |nodes| && prev == nodes[k - 1] && curr == Nth(nodes, k)
        invariant forall l :: 0 < l < k ==> live[l].block.address < address
        decreases |nodes| - k
      {
        prev, curr, k := curr, curr.next, k + 1;
      }
    }

    /** Links a new node behind `prev`, or at the front. */
    method Link(prev: Node?<Info>, node: Node<Info>, ghost k: nat)
      requires Chain(head, nodes) && k <= |nodes| && prev == Nth(nodes, k - 1) && node !in nodes
      modifies this`head, node`next, nodes`next
      ensures Chain(head, nodes[..k] + [node] + nodes[k..])
    {
      if prev == null {
        node.next := head;
        head := node;
      } else {
        node.next := prev.next;
        prev.next := node;
      }
      ChainInsert(nodes, nodes[..k] + [node] + nodes[k..], k, node);
    }

    /** Adds an allocation in front of the first one that does not lie below it. */
    method Alloc(info: Info) returns (ghost k: nat)
      requires Valid()
      modifies this, nodes
      ensures Valid() && forall i :: 0 <= i < |nodes| ==> nodes[i] in old(nodes) || fresh(nodes[i])
      ensures k <= |old(live)| && live == old(live)[..k] + [info] + old(live)[k..]
      ensures k == 0 || (old(live)[0].block.address <= info.block.address && forall l :: 0 < l < k ==> old(live)[l].block.address < info.block.address)
      ensures k < |old(live)| ==> old(live)[k].block.address >= info.block.address
    {
      hide Carries, Chain;
      CarriesLength(nodes, live);
      First(head, nodes, live);
      var node := new Node<Info>(info);
      var prev: Node?<Info> := null;
      if head == null || head.data.block.address > info.block.address {
        k := 0;
      } else {
        prev, k := FindPlace(info.block.address);
      }
      CarriesInsert(nodes, live, k, node);
      Link(prev, node, k);
      nodes, live := nodes[..k] + [node] + nodes[k..], live[..k] + [info] + live[k..];
    }

    /** The first node with this name, and the one before it. */
    method FindName(name: string) returns (node: Node?<Info>, prev: Node?<Info>, ghost k: nat)
      requires Valid()
      ensures k <= |nodes| == |live| && node == Nth(nodes, k) && prev == Nth(nodes, k - 1)
      ensures forall l :: 0 <= l < k ==> live[l].name != name
      ensures k < |nodes| ==> live[k].name == name
    {
      node, prev, k := head, null, 0;
      while node != null && node.data.name != name
        invariant k <= |nodes| && node == Nth(nodes, k) && prev == Nth(nodes, k - 1)
        invariant forall l :: 0 <= l < k ==> live[l].name != name
        decreases |nodes| - k
      {
        prev, node, k := node, node.next, k + 1;
      }
    }

    /** Links past the node at `k`. */
    method Unlink(prev: Node?<Info>, node: Node<Info>, ghost k: nat)
      requires Chain(head, nodes) && k < |nodes| && node == nodes[k] && prev == Nth(nodes, k - 1)
      modifies this`head, nodes`next
      ensures Chain(head, nodes[..k] + nodes[k + 1..])
    {
      if prev == null { head := node.next; } else { prev.next := node.next; }
      ChainRemove(nodes, nodes[..k] + nodes[k + 1..], k);
    }

    /** Removes the first allocation with this name; the address -1 says there was none. */
    method Free(name: string) returns (info: Info, ghost k: nat)
      requires Valid()
      modifies this, nodes
      ensures Valid() && k <= |old(live)| && forall l :: 0 <= l < k ==> old(live)[l].name != name
      ensures k == |old(live)| ==> info.block.address == -1 && live == old(live) && nodes == old(nodes)
      ensures k < |old(live)| ==> info == old(live)[k] && info.name == name && live == old(live)[..k] + old(live)[k + 1..]
      ensures forall i :: 0 <= i < |nodes| ==> nodes[i] in old(nodes)
    {
      hide Carries, Chain;
      var node, prev;
      node, prev, k := FindName(name);
      if node == null { return Info("", Block(-1, 0)), k; }
      DataAt(nodes, live, k);
      CarriesRemove(nodes, live, k);
      Unlink(prev, node, k);
      nodes, live := nodes[..k] + nodes[k + 1..], live[..k] + live[k + 1..];
      return node.data, k;
    }

    /** Where the first allocation with this name lies, or -1. */
    method Address(name: string) returns (address: int)
      requires Valid()
      ensures (exists k :: 0 <= k < |live| && live[k].name == name && live[k].block.address == address
                           && forall l :: 0 <= l < k ==> live[l].name != name)
              || (address == -1 && forall k :: 0 <= k < |live| ==> live[k].name != name)
    {
      var node := head;
      ghost var k := 0;
      while node != null
        invariant k <= |nodes| && node == Nth(nodes, k) && forall l :: 0 <= l < k ==> live[l].name != name
        decreases |nodes| - k
      {
        if node.data.name == name { return node.data.block.address; }
        node, k := node.next, k + 1;
      }
      return -1;
    }
  }
}
