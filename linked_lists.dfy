/** The doubly linked list (LinkedList.java): nodes linked by `next` and
    `prev` from `head` to `tail`, with a size counter. The Java code never
    clears the `prev` of a new head or the `next` of a new tail after a
    removal, so the invariant below says nothing about those two links. */
module LinkedLists {

  import opened Nodes

  /** Where the elements of a sequence end up once `x` is inserted at `k`. */
  lemma InsertedAt<U>(s: seq<U>, k: nat, x: U)
    requires k <= |s|
    ensures var t := s[..k] + [x] + s[k..];
      && |t| == |s| + 1 && t[k] == x
      && (forall i :: 0 <= i < k ==> t[i] == s[i])
      && (forall i :: k < i < |t| ==> t[i] == s[i - 1])
  {
  }

  /** Where the elements of a sequence end up once position `k` is dropped. */
  lemma RemovedAt<U>(s: seq<U>, k: nat)
    requires k < |s|
    ensures var t := s[..k] + s[k + 1..];
      && |t| == |s| - 1
      && (forall i :: 0 <= i < k ==> t[i] == s[i])
      && (forall i :: k <= i < |t| ==> t[i] == s[i + 1])
  {
  }

  class LinkedList<T(==)> {
    var size: int
    var head: Node?<T>
    var tail: Node?<T>

    /** The elements, head first. */
    ghost var Contents: seq<T>
    /** The nodes of the chain, head first. */
    ghost var nodes: seq<Node<T>>
    ghost var Repr: set<object>

    ghost predicate Valid()
      reads this, Repr
    {
      && this in Repr
      && |nodes| == |Contents| == size
      && (forall i :: 0 <= i < |nodes| ==> nodes[i] in Repr)
      && (forall i, j :: 0 <= i < j < |nodes| ==> nodes[i] != nodes[j])
      && (forall i {:trigger nodes[i].data} :: 0 <= i < |nodes| ==> nodes[i].data == Contents[i])
      && (forall i {:trigger nodes[i].next} :: 0 <= i < |nodes| - 1 ==> nodes[i].next == nodes[i + 1])
      && (forall i {:trigger nodes[i].prev} :: 0 < i < |nodes| ==> nodes[i].prev == nodes[i - 1])
      && (size > 0 ==> head == nodes[0] && tail == nodes[size - 1])
    }

    /** A new list is empty. */
    constructor ()
      ensures Valid() && fresh(Repr) && Contents == []
    {
      size := 0;
      head, tail := null, null;
      Contents, nodes, Repr := [], [], {this};
    }

    /** add: the element is appended at the end. */
    method Add(data: T)
      requires Valid()
      modifies Repr
      ensures Valid() && fresh(Repr - old(Repr))
      ensures Contents == old(Contents) + [data]
    {
      var newNode := new Node(data);
      if size == 0 {
        head := newNode;
        tail := newNode;
      } else {
        tail.next := newNode;
        newNode.prev := tail;
        tail := newNode;
      }
      size := size + 1;
      Contents, nodes, Repr := Contents + [data], nodes + [newNode], Repr + {newNode};
    }

    /** The walk shared by get, insert and remove: follow `index` links
        from the head. */
    method NodeAt(index: int) returns (currentNode: Node<T>)
      requires Valid() && 0 <= index < |Contents|
      ensures currentNode == nodes[index]
    {
      currentNode := head;
      var i := 1;
      while i <= index
        invariant 1 <= i <= index + 1
        invariant currentNode == nodes[i - 1]
      {
        assert nodes[i - 1].next == nodes[i];
        currentNode := currentNode.next;
        i := i + 1;
      }
    }

    /** get: the element `index` links from the head. */
    method Get(index: int) returns (x: T)
      requires Valid() && 0 <= index < |Contents|
      ensures x == Contents[index]
    {
      var currentNode := NodeAt(index);
      x := currentNode.data;
    }

    /** insert: walks to the node at `index` and links the new node in
        before it. The node at index 0 may have no predecessor and index
        `size` has no node, and the Java code dereferences both, so only
        indices strictly inside the list are accepted. */
    method Insert(index: int, data: T)
      requires Valid() && 1 <= index < |Contents|
      modifies Repr
      ensures Valid() && fresh(Repr - old(Repr))
      ensures Contents == old(Contents)[..index] + [data] + old(Contents)[index..]
    {
      var nodeToInsert := new Node(data);
      var currentNode := NodeAt(index);
      assert nodes[index].prev == nodes[index - 1];
      var nodeBefore := currentNode.prev;
      var nodeAfter := currentNode;
      LinkIn(index, nodeBefore, nodeToInsert, nodeAfter);
    }

    /** The link updates of insert: `nodeToInsert` goes between the nodes
        at `index - 1` and `index`, and the size grows by one. */
    method LinkIn(index: int, nodeBefore: Node<T>, nodeToInsert: Node<T>, nodeAfter: Node<T>)
      requires Valid() && 1 <= index < |Contents|
      requires nodeBefore == nodes[index - 1] && nodeAfter == nodes[index]
      requires nodeToInsert !in Repr
      modifies Repr, nodeToInsert
      ensures Valid() && Repr == old(Repr) + {nodeToInsert}
      ensures Contents == old(Contents)[..index] + [old(nodeToInsert.data)] + old(Contents)[index..]
    {
      ghost var oldNodes := nodes;
      nodeBefore.next := nodeToInsert;
      nodeToInsert.prev := nodeBefore;
      nodeToInsert.next := nodeAfter;
      nodeAfter.prev := nodeToInsert;
      size := size + 1;
      Contents := Contents[..index] + [nodeToInsert.data] + Contents[index..];
      nodes := oldNodes[..index] + [nodeToInsert] + oldNodes[index..];
      Repr := Repr + {nodeToInsert};
      InsertedAt(old(Contents), index, nodeToInsert.data);
      InsertedAt(oldNodes, index, nodeToInsert);
    }

    /** remove: unlinks the node at `index`; the first and the last node are
        handled by moving `head` or `tail`. */
    method Remove(index: int)
      requires Valid() && 0 <= index < |Contents|
      modifies Repr
      ensures Valid() && Repr == old(Repr)
      ensures Contents == old(Contents)[..index] + old(Contents)[index + 1..]
    {
      if index == 0 {
        head := head.next;
        size := size - 1;
        Contents, nodes := Contents[1..], nodes[1..];
        return;
      }
      if index == size - 1 {
        tail := tail.prev;
        size := size - 1;
        Contents, nodes := Contents[..index], nodes[..index];
        return;
      }
      var nodeToRemove := NodeAt(index);
      var nodeBefore := nodeToRemove.prev;
      var nodeAfter := nodeToRemove.next;
      nodeBefore.next := nodeAfter;
      nodeAfter.prev := nodeBefore;
      size := size - 1;
      RemovedAt(Contents, index);
      RemovedAt(nodes, index);
      Contents := Contents[..index] + Contents[index + 1..];
      nodes := nodes[..index] + nodes[index + 1..];
    }

    method Size() returns (n: int)
      requires Valid()
      ensures n == |Contents|
    {
      n := size;
    }

    method IsEmpty() returns (b: bool)
      requires Valid()
      ensures b <==> Contents == []
    {
      b := size == 0;
    }

    /** indexOf: the position of the first element equal to `data`, or -1
        when the list is empty or holds no such element. */
    method IndexOf(data: T) returns (r: int)
      requires Valid()
      ensures -1 <= r < |Contents|
      ensures r == -1 <==> data !in Contents
      ensures r >= 0 ==> Contents[r] == data && data !in Contents[..r]
    {
      if size == 0 {
        return -1;
      }
      var currentNode := head;
      for i := 0 to size
        invariant data !in Contents[..i]
        invariant i < size ==> currentNode == nodes[i]
      {
        if currentNode.data == data {
          return i;
        }
        currentNode := currentNode.next;
      }
      return -1;
    }
  }
}
