/** Singly linked lists: when following the links visits a sequence of nodes. */
module LinkedList {
  import opened Seqs

  class Node<T> {
    const data: T
    var next: Node?<T>

    constructor (data: T)
      ensures this.data == data && next == null
    {
      this.data, next := data, null;
    }
  }

  /** The node at position `i` of a list, null behind its end. */
  ghost function Nth<T>(nodes: seq<Node<T>>, i: int): Node?<T> {
    if 0 <= i < |nodes| then nodes[i] else null
  }

  /** Following the links from `head` visits `nodes`. */
  ghost predicate Chain<T>(head: Node?<T>, nodes: seq<Node<T>>)
    reads nodes`next
  {
    && head == Nth(nodes, 0)
    && (forall i {:trigger nodes[i]} :: 0 <= i < |nodes| ==> nodes[i].next == Nth(nodes, i + 1))
    && forall i, j :: 0 <= i < j < |nodes| ==> nodes[i] != nodes[j]
  }

  /** The link that leads to position `k` goes to a new node instead, and on from there. */
  lemma {:induction false} ChainInsert<T>(nodes: seq<Node<T>>, more: seq<Node<T>>, k: nat, node: Node<T>)
    requires k <= |nodes| && node !in nodes && more == nodes[..k] + [node] + nodes[k..]
    requires forall i, j :: 0 <= i < j < |nodes| ==> nodes[i] != nodes[j]
    requires node.next == Nth(nodes, k)
    requires forall i :: 0 <= i < |nodes| ==> nodes[i].next == if i + 1 == k then node else Nth(nodes, i + 1)
    ensures Chain(if k == 0 then node else Nth(nodes, 0), more)
  {
    hide Nth;
    forall i | 0 <= i <= |more|
      ensures Nth(more, i) == if i == k then node else Nth(nodes, if i < k then i else i - 1)
    {
      NthInserted(nodes, k, node, i);
    }
    forall i | 0 <= i < |more|
      ensures more[i].next == Nth(more, i + 1)
    {
      InsertedAt<Node<T>>(nodes, k, node, i);
    }
    forall i, j | 0 <= i < j < |more|
      ensures more[i] != more[j]
    {
      InsertedAt<Node<T>>(nodes, k, node, i);
      InsertedAt<Node<T>>(nodes, k, node, j);
    }
  }

  lemma {:induction false} NthInserted<T>(nodes: seq<Node<T>>, k: nat, node: Node<T>, i: nat)
    requires k <= |nodes| && i <= |nodes| + 1
    ensures Nth(nodes[..k] + [node] + nodes[k..], i) == if i == k then node else Nth(nodes, if i < k then i else i - 1)
  {
    if i <= |nodes| { InsertedAt<Node<T>>(nodes, k, node, i); }
  }

  /** The link that leads to position `k` skips it. */
  lemma {:induction false} ChainRemove<T>(nodes: seq<Node<T>>, less: seq<Node<T>>, k: nat)
    requires k < |nodes| && less == nodes[..k] + nodes[k + 1..]
    requires forall i, j :: 0 <= i < j < |nodes| ==> nodes[i] != nodes[j]
    requires forall i :: 0 <= i < |nodes| ==> nodes[i].next == Nth(nodes, if i + 1 == k then k + 1 else i + 1)
    ensures Chain(Nth(nodes, if k == 0 then 1 else 0), less)
  {
    hide Nth;
    forall i | 0 <= i <= |less|
      ensures Nth(less, i) == Nth(nodes, if i < k then i else i + 1)
    {
      NthRemoved(nodes, k, i);
    }
    forall i | 0 <= i < |less|
      ensures less[i].next == Nth(less, i + 1)
    {
      RemovedAt<Node<T>>(nodes, k, i);
    }
    forall i, j | 0 <= i < j < |less|
      ensures less[i] != less[j]
    {
      RemovedAt<Node<T>>(nodes, k, i);
      RemovedAt<Node<T>>(nodes, k, j);
    }
  }

  lemma {:induction false} NthRemoved<T>(nodes: seq<Node<T>>, k: nat, i: nat)
    requires k < |nodes| && i < |nodes|
    ensures Nth(nodes[..k] + nodes[k + 1..], i) == Nth(nodes, if i < k then i else i + 1)
  {
    if i < |nodes| - 1 { RemovedAt<Node<T>>(nodes, k, i); }
  }

  /** The nodes carry these values. */
  ghost predicate Carries<T>(nodes: seq<Node<T>>, live: seq<T>) {
    |live| == |nodes| && forall i :: 0 <= i < |nodes| ==> nodes[i].data == live[i]
  }

  lemma {:induction false} CarriesLength<T>(nodes: seq<Node<T>>, live: seq<T>)
    requires Carries(nodes, live)
    ensures |nodes| == |live|
  {
  }

  lemma {:induction false} First<T>(head: Node?<T>, nodes: seq<Node<T>>, live: seq<T>)
    requires Chain(head, nodes) && Carries(nodes, live)
    ensures head == Nth(nodes, 0) && (head != null ==> nodes != [] && live != [] && live[0] == head.data)
    ensures head == null <==> live == []
  {
  }

  lemma {:induction false} DataAt<T>(nodes: seq<Node<T>>, live: seq<T>, k: nat)
    requires Carries(nodes, live) && k < |nodes|
    ensures k < |live| && live[k] == nodes[k].data
  {
  }

  lemma {:induction false} CarriesInsert<T>(nodes: seq<Node<T>>, live: seq<T>, k: nat, node: Node<T>)
    requires Carries(nodes, live) && k <= |nodes|
    ensures |live| == |nodes| && Carries(nodes[..k] + [node] + nodes[k..], live[..k] + [node.data] + live[k..])
  {
  }

  lemma {:induction false} CarriesRemove<T>(nodes: seq<Node<T>>, live: seq<T>, k: nat)
    requires Carries(nodes, live) && k < |nodes|
    ensures |live| == |nodes| && Carries(nodes[..k] + nodes[k + 1..], live[..k] + live[k + 1..])
  {
  }
}
