/** The first-in-first-out container (Queue.java): a singly linked chain of
    nodes from `front` to `rear`, with a size counter. */
module Queues {

  import opened Nodes

  class Queue<T> {
    var front: Node?<T>
    var rear: Node?<T>
    var size: int

    /** The elements, front of the queue first. */
    ghost var Contents: seq<T>
    /** The nodes of the chain, front first. */
    ghost var nodes: seq<Node<T>>
    ghost var Repr: set<object>

    ghost predicate Valid()
      reads this, Repr
    {
      && this in Repr
      && |nodes| == |Contents| == size
      && (forall i :: 0 <= i < |nodes| ==> nodes[i] in Repr)
      && (forall i, j :: 0 <= i < j < |nodes| ==> nodes[i] != nodes[j])
      && (forall i {:trigger nodes[i].data} :: 0 <= i < |nodes| ==> nodes[i].data == Contents[i])
      && (forall i, j :: 0 <= i < |nodes| && j == i + 1 < |nodes| ==> nodes[i].next == nodes[j])
      && (size == 0 ==> front == null && rear == null)
      && (size > 0 ==> front == nodes[0] && rear == nodes[size - 1] && rear.next == null)
    }

    /** A new queue is empty. */
    constructor ()
      ensures Valid() && fresh(Repr) && Contents == []
    {
      front, rear := null, null;
      size := 0;
      Contents, nodes, Repr := [], [], {this};
    }

    /** enqueue: the element joins at the rear. On an empty queue the new
        node becomes both front and rear. */
    method Enqueue(data: T)
      requires Valid()
      modifies Repr
      ensures Valid() && fresh(Repr - old(Repr))
      ensures Contents == old(Contents) + [data]
    {
      var newNode := new Node(data);
      if size == 0 {
        front := newNode;
      } else {
        rear.next := newNode;
      }
      rear := newNode;
      size := size + 1;
      Contents, nodes, Repr := Contents + [data], nodes + [newNode], Repr + {newNode};
    }

    /** dequeue: the front node on a non-empty queue, which leaves the queue;
        null and no change on an empty queue. */
    method Dequeue() returns (n: Node?<T>)
      requires Valid()
      modifies Repr
      ensures Valid() && Repr <= old(Repr)
      ensures old(Contents) == [] ==> n == null && Contents == []
      ensures old(Contents) != [] ==> n != null && n.data == old(Contents)[0] && n !in Repr && Contents == old(Contents)[1..]
    {
      if size == 0 {
        return null;
      }
      var temp := front;
      if size == 1 {
        front := null;
        rear := null;
      }
      front := temp.next;
      size := size - 1;
      Contents, nodes, Repr := Contents[1..], nodes[1..], Repr - {temp};
      n := temp;
    }

    /** peek: the front element. The Java code dereferences `front` without
        a check, so the queue must not be empty. */
    method Peek() returns (x: T)
      requires Valid() && Contents != []
      ensures x == Contents[0]
    {
      x := front.data;
    }

    method IsEmpty() returns (b: bool)
      requires Valid()
      ensures b <==> Contents == []
    {
      b := size == 0;
    }

    method GetSize() returns (n: int)
      requires Valid()
      ensures n == |Contents|
    {
      n := size;
    }
  }

  /** After the only element is dequeued the queue is empty, and the next
      enqueue makes the new element the whole queue. */
  method DrainThenRefill<T>(q: Queue<T>, x: T, y: T) returns (n: Node?<T>, drained: bool, front: T)
    requires q.Valid() && q.Contents == [x]
    modifies q.Repr
    ensures n != null && n.data == x
    ensures drained
    ensures front == y
    ensures q.Valid() && q.Contents == [y]
  {
    n := q.Dequeue();
    drained := q.IsEmpty();
    q.Enqueue(y);
    front := q.Peek();
  }
}
