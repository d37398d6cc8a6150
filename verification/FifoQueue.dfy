/** The kernel's linked queue in FIFO mode. `tail` is left as it is when the queue becomes empty. */
module FifoQueue {

  class QueueNode {
    const data: nat
    var next: QueueNode?
    var prev: QueueNode?

    constructor (data: nat)
      ensures this.data == data && next == null && prev == null
    {
      this.data, next, prev := data, null, null;
    }
  }

  class Queue {
    var head: QueueNode?
    var tail: QueueNode?
    var nodeCount: nat
    ghost var nodes: seq<QueueNode>
    ghost var repr: set<QueueNode>   // the nodes, and those that were freed
    ghost var items: seq<nat>        // what is in the queue, first to last

    ghost predicate Valid()
      reads this, repr
    {
      && (forall i | 0 <= i < |nodes| :: nodes[i] in repr)
      && |nodes| == |items| == nodeCount
      && head == (if nodes == [] then null else nodes[0])
      && (nodes != [] ==> tail == nodes[|nodes| - 1])
      && (forall i, j | 0 <= i < j < |nodes| :: nodes[i] != nodes[j])
      && (forall i {:trigger nodes[i].next} | 0 <= i < |nodes| ::
           nodes[i].next == if i + 1 < |nodes| then nodes[i + 1] else null)
      && (forall i {:trigger nodes[i].prev} | 0 < i < |nodes| :: nodes[i].prev == nodes[i - 1])
      && (forall i | 0 <= i < |nodes| :: nodes[i].data == items[i])
    }

    constructor ()
      ensures Valid() && items == [] && repr == {}
    {
      head, tail, nodeCount, nodes, repr, items := null, null, 0, [], {}, [];
    }

    /** `enqueue_fifo`, with the three cases of the original. */
    method Enqueue(data: nat)
      requires Valid()
      modifies this, repr
      ensures Valid() && items == old(items) + [data] && fresh(repr - old(repr))
    {
      var node := new QueueNode(data);
      if nodeCount == 0 {
        head := node;
      } else if nodeCount == 1 {
        head.next := node;
        node.prev := head;
      } else {
        tail.next := node;
        node.prev := tail;
      }
      tail := node;
      nodeCount := nodeCount + 1;
      nodes, repr, items := nodes + [node], repr + {node}, items + [data];
    }

    /** `dequeue_fifo`. */
    method Dequeue()
      requires Valid()
      modifies this, repr
      ensures Valid() && repr == old(repr)
      ensures items == if old(items) == [] then [] else old(items)[1..]
    {
      if head == null {
        return;
      }
      assert nodes[0].next == if 1 < |nodes| then nodes[1] else null;
      head := head.next;
      nodes, items := nodes[1..], items[1..];
      if head == null {
        nodeCount := nodeCount - 1;
        return;
      }
      head.prev := null;
      nodeCount := nodeCount - 1;
      if nodeCount == 1 {
        tail := head;
      }
    }
  }
}
