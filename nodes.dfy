/** The mutable cell that the queue, the stack and the linked list are
    built from (Node.java): a value and links to the next and previous
    nodes. Its getters and setters are plain field reads and writes. */
module Nodes {

  class Node<T> {
    var data: T
    var next: Node?<T>
    var prev: Node?<T>

    constructor (data: T)
      ensures this.data == data && next == null && prev == null
    {
      this.data := data;
      next := null;
      prev := null;
    }
  }
}
