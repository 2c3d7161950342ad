/** The two linked lists of the queues: a head-only stack, and a list with a tail. */
module Lists {
  class Node {
    const value: nat
    var next: Node?

    constructor (value: nat)
      ensures this.value == value && next == null
    {
      this.value := value;
      next := null;
    }
  }

  /** The values on a chain of nodes, in order. */
  ghost function Values(nodes: seq<Node>): (values: seq<nat>) {
    seq(|nodes|, i requires 0 <= i < |nodes| => nodes[i].value)
  }

  /** Each node points to the next one, the last to nothing, and no node comes twice. */
  ghost predicate Chained(nodes: seq<Node>)
    reads nodes
  {
    && (forall i, j :: 0 <= i < j < |nodes| ==> nodes[i] != nodes[j])
    && (forall i {:trigger nodes[i]} :: 0 <= i < |nodes| ==>
        nodes[i].next == if i + 1 < |nodes| then nodes[i + 1] else null)
  }

  /** `head` alone: condlock.c, and the two producer and consumer programs. */
  class Stack {
    var head: Node?
    ghost var nodes: seq<Node>

    ghost predicate Valid()
      reads this, nodes
    {
      Chained(nodes) && head == if nodes == [] then null else nodes[0]
    }

    constructor ()
      ensures Valid() && nodes == []
    {
      head := null;
      nodes := [];
    }

    method Push(node: Node)
      requires Valid() && node !in nodes
      modifies this, node
      ensures Valid() && nodes == [node] + old(nodes)
      ensures Values(nodes) == [node.value] + Values(old(nodes))
    {
      node.next := head;
      head := node;
      nodes := [node] + nodes;
      assert Values(nodes) == [node.value] + Values(nodes[1..]);
    }

    method Pop() returns (node: Node)
      requires Valid() && nodes != []
      modifies this
      ensures Valid() && [node] + nodes == old(nodes)
      ensures [node.value] + Values(nodes) == Values(old(nodes))
    {
      node := head;
      head := node.next;
      nodes := nodes[1..];
      assert Values(old(nodes)) == [node.value] + Values(nodes);
    }
  }

  /** `queue_head` and `queue_tail` of phread_pool1.0.c. */
  class Fifo {
    var head: Node?
    var tail: Node?
    ghost var nodes: seq<Node>

    ghost predicate Valid()
      reads this, nodes
    {
      && Chained(nodes)
      && head == (if nodes == [] then null else nodes[0])
      && tail == (if nodes == [] then null else nodes[|nodes| - 1])
    }

    constructor ()
      ensures Valid() && nodes == []
    {
      head, tail := null, null;
      nodes := [];
    }

    method Enqueue(value: nat)
      requires Valid()
      modifies this, nodes
      ensures Valid() && (head == null <==> tail == null)
      ensures Values(nodes) == Values(old(nodes)) + [value]
      ensures |nodes| == |old(nodes)| + 1 && nodes[..|old(nodes)|] == old(nodes) && fresh(nodes[|old(nodes)|])
    {
      var node := new Node(value);
      if tail == null {
        head := node;
        tail := node;
      } else {
        tail.next := node;
        tail := node;
      }
      assert Values(nodes + [node]) == Values(nodes) + [value];
      nodes := nodes + [node];
    }

    method Dequeue() returns (node: Node)
      requires Valid() && nodes != []
      modifies this
      ensures Valid() && (head == null <==> tail == null)
      ensures [node] + nodes == old(nodes) && [node.value] + Values(nodes) == Values(old(nodes))
    {
      node := head;
      head := node.next;
      if head == null {
        tail := null;
      }
      nodes := nodes[1..];
      assert Values(old(nodes)) == [node.value] + Values(nodes);
    }
  }
}
