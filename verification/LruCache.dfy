/** The LRU list shared by the page cache and the TLB: a circular doubly linked list around a head
    node, from the least to the most recently used entry. A node's data pointer always points into
    one table, so it is modelled by the index it points at. */
module LruCache {
  import opened Seqs

  const NONE := -1

  /** A page-table or TLB entry; the two have the same fields and are compared by page number. */
  datatype Entry = Entry(pageNumber: int, frameNumber: int, valid: bool)

  class Node {
    var data: int
    var prev: Node
    var next: Node

    constructor (data: int)
      ensures this.data == data && prev == this && next == this
    {
      this.data, prev, next := data, this, this;
    }
  }

  /** `ring` lists the head first and then the nodes in order: both links agree with the list. */
  ghost predicate Linked(ring: seq<Node>)
    reads ring
  {
    && |ring| > 0 && Distinct(ring)
    && (forall i :: 0 <= i < |ring| - 1 ==> ring[i].next == ring[i + 1] && ring[i + 1].prev == ring[i])
    && ring[|ring| - 1].next == ring[0] && ring[0].prev == ring[|ring| - 1]
  }

  /** Takes the `k`-th node out of the ring by relinking its neighbours. */
  method Unlink(node: Node, ghost ring: seq<Node>, ghost k: nat)
    requires Linked(ring) && 0 < k < |ring| && node == ring[k]
    modifies ring`prev, ring`next
    ensures Linked(ring[..k] + ring[k + 1..])
  {
    assert node.prev == ring[k - 1];
    assert node.next == ring[if k + 1 == |ring| then 0 else k + 1];
    node.prev.next := node.next;
    node.next.prev := node.prev;
  }

  /** Links `node` in front of the head, the most recently used position. */
  method Append(head: Node, node: Node, ghost ring: seq<Node>)
    requires Linked(ring) && head == ring[0] && node !in ring
    modifies ring`prev, ring`next, node`prev, node`next
    ensures Linked(ring + [node])
  {
    assert head.prev == ring[|ring| - 1];
    node.prev := head.prev;
    node.next := head;
    head.prev.next := node;
    head.prev := node;
  }

  ghost predicate Inside(slots: seq<int>, table: seq<Entry>) {
    forall i :: 0 <= i < |slots| ==> 0 <= slots[i] < |table|
  }

  /** The page numbers of the listed entries. */
  ghost function PagesOf(slots: seq<int>, table: seq<Entry>): seq<int>
    requires Inside(slots, table)
  {
    seq(|slots|, i requires 0 <= i < |slots| => table[slots[i]].pageNumber)
  }

  /** The first listed entry with this page number leaves the list together with its page number. */
  lemma {:induction false} PagesWithout(slots: seq<int>, table: seq<Entry>, slot: int)
    requires Inside(slots, table) && slot in slots && Distinct(PagesOf(slots, table))
    ensures Distinct(slots) && Inside(Without(slots, slot), table)
    ensures PagesOf(Without(slots, slot), table) == Without(PagesOf(slots, table), table[slot].pageNumber)
  {
    hide Without;
    var pages := PagesOf(slots, table);
    var k :| 0 <= k < |slots| && slots[k] == slot;
    forall i, j | 0 <= i < j < |slots| ensures slots[i] != slots[j] {
      assert pages[i] != pages[j];
    }
    WithoutAt(slots, k);
    WithoutAt(pages, k);
    PagesCut(slots, table, k);
  }

  lemma {:induction false} PagesCut(slots: seq<int>, table: seq<Entry>, k: nat)
    requires Inside(slots, table) && k < |slots|
    ensures Inside(slots[..k] + slots[k + 1..], table)
    ensures PagesOf(slots[..k] + slots[k + 1..], table) == PagesOf(slots, table)[..k] + PagesOf(slots, table)[k + 1..]
  {
    var less := slots[..k] + slots[k + 1..];
    forall i | 0 <= i < |less|
      ensures less[i] == slots[if i < k then i else i + 1]
    {
      RemovedAt(slots, k, i);
    }
  }

  lemma {:induction false} RingApart(ring: seq<Node>, k: nat)
    requires Linked(ring) && 0 < k < |ring|
    ensures ring[k] !in ring[..k] + ring[k + 1..]
  {
  }

  lemma {:induction false} DistinctTail(s: seq<int>)
    requires Distinct(s) && s != []
    ensures Distinct(s[1..]) && s[..0] + s[0 + 1..] == s[1..]
  {
  }

  class Cache {
    var head: Node
    var size: nat
    const capacity: nat
    ghost var ring: seq<Node>
    ghost var slots: seq<int>  // the entries listed, least recently used first
    ghost var Repr: set<Node>

    /** The links and the ghost lists agree; `size` may be out of step. */
    ghost predicate Ringed()
      reads this, Repr
    {
      && (forall n :: n in ring ==> n in Repr)
      && Linked(ring) && ring[0] == head && |ring| == |slots| + 1
      && forall i :: 0 <= i < |slots| ==> ring[i + 1].data == slots[i]
    }

    ghost predicate Valid()
      reads this, Repr
      ensures Valid() ==> Distinct(slots) && size == |slots| <= capacity
    {
      Ringed() && Distinct(slots) && size == |slots| <= capacity
    }

    constructor (capacity: nat)
      ensures Valid() && fresh(Repr) && slots == [] && this.capacity == capacity
    {
      var h := new Node(NONE);
      head, size, this.capacity := h, 0, capacity;
      ring, slots, Repr := [h], [], {h};
    }

    predicate Full()
      reads this
    {
      size == capacity
    }

    /** The first node whose entry has this page number, at position `k` of the list, or the head. */
    method Search(page: int, table: array<Entry>) returns (node: Node, ghost k: nat)
      requires Valid() && Inside(slots, table[..])
      ensures k <= |slots| && (node == head <==> k == |slots|)
      ensures k < |slots| ==> node == ring[k + 1] && node.data == slots[k] && table[slots[k]].pageNumber == page
      ensures forall i :: 0 <= i < k ==> table[slots[i]].pageNumber != page
    {
      node, k := head.next, 0;
      while node != head
        invariant k <= |slots| && node == ring[if k == |slots| then 0 else k + 1]
        invariant forall i :: 0 <= i < k ==> table[slots[i]].pageNumber != page
        decreases |slots| - k
      {
        assert node.data == slots[k];
        if table[node.data].pageNumber == page {
          return;
        }
        node, k := node.next, k + 1;
      }
    }

    method Detach(node: Node, ghost k: nat)
      requires Ringed() && k < |slots| && node == ring[k + 1]
      modifies this`ring, this`slots, Repr`prev, Repr`next
      ensures Ringed() && node !in ring && slots == old(slots)[..k] + old(slots)[k + 1..]
    {
      hide Linked;
      RingApart(ring, k + 1);
      Unlink(node, ring, k + 1);
      ring, slots := ring[..k + 1] + ring[k + 2..], slots[..k] + slots[k + 1..];
    }

    method Attach(node: Node)
      requires Ringed() && node !in ring
      modifies this`ring, this`slots, this`Repr, Repr`prev, Repr`next, node`prev, node`next
      ensures Ringed() && Repr == old(Repr) + {node} && slots == old(slots) + [node.data]
    {
      Append(head, node, ring);
      ring, slots, Repr := ring + [node], slots + [node.data], Repr + {node};
    }

    /** Moves the first entry with page number `page` to the most recently used end. */
    method Query(page: int, table: array<Entry>) returns (slot: int)
      requires Valid() && Inside(slots, table[..])
      modifies this, Repr
      ensures Valid() && Repr == old(Repr)
      ensures slot == NONE ==> page !in PagesOf(old(slots), table[..]) && slots == old(slots)
      ensures slot != NONE ==> slot in old(slots) && table[slot].pageNumber == page
      ensures slot != NONE ==> slots == Without(old(slots), slot) + [slot]
    {
      ghost var k;
      var node;
      node, k := Search(page, table);
      if node == head {
        assert forall i :: 0 <= i < |slots| ==> PagesOf(slots, table[..])[i] != page;
        return NONE;
      }
      slot := node.data;
      WithoutAt(slots, k);
      WithoutDistinctAppend(slots, slot);
      Detach(node, k);
      Attach(node);
    }

    /** Drops the first entry with page number `page` from the list and returns it. */
    method Remove(page: int, table: array<Entry>) returns (slot: int)
      requires Valid() && Inside(slots, table[..])
      modifies this, Repr
      ensures Valid() && Repr == old(Repr)
      ensures slot == NONE ==> page !in PagesOf(old(slots), table[..]) && slots == old(slots)
      ensures slot != NONE ==> slot in old(slots) && table[slot].pageNumber == page
      ensures slot != NONE ==> slots == Without(old(slots), slot)
    {
      ghost var k;
      var node;
      node, k := Search(page, table);
      if node == head {
        assert forall i :: 0 <= i < |slots| ==> PagesOf(slots, table[..])[i] != page;
        return NONE;
      }
      slot := node.data;
      WithoutAt(slots, k);
      WithoutDistinct(slots, slot);
      Detach(node, k);
      size := size - 1;
    }

    /** Drops the least recently used entry. */
    method DropOldest() returns (slot: int)
      requires Valid() && size > 0
      modifies this, Repr
      ensures Valid() && Repr == old(Repr)
      ensures slot == old(slots)[0] && slots == old(slots)[1..]
    {
      hide Linked, Distinct;
      OldestFirst();
      DistinctTail(slots);
      var node := head.next;
      slot := node.data;
      Detach(node, 0);
      size := size - 1;
    }

    lemma {:induction false} OldestFirst()
      requires Ringed() && |slots| > 0
      ensures |ring| == |slots| + 1 && head.next == ring[1] && head.next.data == slots[0]
    {
    }

    /** Allocates a node for an entry that is not listed. */
    method PushNewest(slot: int)
      requires Valid() && size < capacity && slot !in slots
      modifies this, Repr
      ensures Valid() && fresh(Repr - old(Repr)) && slots == old(slots) + [slot]
    {
      var node := new Node(slot);
      Attach(node);
      size := size + 1;
    }

    /** Lists `slot` as most recently used. An entry with the same page is only moved; a full list
        drops and returns its least recently used entry. */
    method Insert(slot: int, table: array<Entry>) returns (removed: int)
      requires Valid() && capacity > 0 && Inside(slots, table[..]) && 0 <= slot < table.Length
      modifies this, Repr
      ensures Valid() && fresh(Repr - old(Repr))
      ensures table[slot].pageNumber in PagesOf(old(slots), table[..]) ==>
                removed == NONE && exists s :: s in old(slots) && table[s].pageNumber == table[slot].pageNumber
                                               && slots == Without(old(slots), s) + [s]
      ensures table[slot].pageNumber !in PagesOf(old(slots), table[..]) && |old(slots)| == capacity ==>
                removed == old(slots)[0] && slots == old(slots)[1..] + [slot]
      ensures table[slot].pageNumber !in PagesOf(old(slots), table[..]) && |old(slots)| < capacity ==>
                removed == NONE && slots == old(slots) + [slot]
    {
      var queried := Query(table[slot].pageNumber, table);
      if queried != NONE {
        ghost var k :| 0 <= k < |old(slots)| && old(slots)[k] == queried;
        assert PagesOf(old(slots), table[..])[k] == table[slot].pageNumber;
      }
      removed := NONE;
      if queried == NONE {
        assert forall i :: 0 <= i < |slots| ==> PagesOf(slots, table[..])[i] == table[slots[i]].pageNumber;
        if Full() {
          removed := DropOldest();
        }
        PushNewest(slot);
      }
    }

    /** The least recently used entry, or -1 when the list is empty. */
    method LeastRecentlyUsed() returns (slot: int)
      requires Valid()
      ensures slot == if slots == [] then NONE else slots[0]
    {
      if size == 0 { return NONE; }
      assert head.next == ring[1];
      return head.next.data;
    }
  }
}
