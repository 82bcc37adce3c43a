/** The last-in-first-out container (Stack.java): a singly linked chain of
    nodes from `top` downwards, with a size counter. */
module Stacks {

  import opened Wrappers
  import opened Nodes

  /** The sequence backwards. */
  function Reverse<T>(s: seq<T>): (r: seq<T>)
    ensures |r| == |s|
  {
    if s == [] then [] else [s[|s| - 1]] + Reverse(s[..|s| - 1])
  }

  /** Reversing a sequence extended at the end puts the new element first. */
  lemma ReverseSnoc<T>(s: seq<T>, x: T)
    ensures Reverse(s + [x]) == [x] + Reverse(s)
  {
    assert (s + [x])[..|s|] == s;
  }

  /** Reversing a sequence extended at the front puts the new element last. */
  lemma {:induction false} ReverseCons<T>(x: T, s: seq<T>)
    ensures Reverse([x] + s) == Reverse(s) + [x]
  {
    if s != [] {
      var init := s[..|s| - 1];
      assert ([x] + s)[..|s|] == [x] + init;
      ReverseCons(x, init);
    }
  }

  /** Reversing twice gives the sequence back. */
  lemma {:induction false} ReverseReverse<T>(s: seq<T>)
    ensures Reverse(Reverse(s)) == s
  {
    if s != [] {
      var init := s[..|s| - 1];
      ReverseReverse(init);
      ReverseCons(s[|s| - 1], Reverse(init));
    }
  }

  /** One step of unloading: moving element i of `unloaded` to the top of
      the receiver extends the reversed prefix by one. */
  lemma UnloadStep<T>(unloaded: seq<T>, received: seq<T>, i: nat)
    requires i < |unloaded|
    ensures unloaded[i..][0] == unloaded[i] && unloaded[i..][1..] == unloaded[i + 1..]
    ensures [unloaded[i]] + (Reverse(unloaded[..i]) + received) == Reverse(unloaded[..i + 1]) + received
  {
    assert unloaded[..i + 1] == unloaded[..i] + [unloaded[i]];
    ReverseSnoc(unloaded[..i], unloaded[i]);
  }

  class Stack<T> {
    var top: Node?<T>
    var size: int

    /** The elements, top of the stack first. */
    ghost var Contents: seq<T>
    /** The nodes of the chain, top first. */
    ghost var nodes: seq<Node<T>>
    ghost var Repr: set<Node<T>>

    ghost predicate Valid()
      reads this, Repr
    {
      && |nodes| == |Contents| == size
      && (forall i :: 0 <= i < |nodes| ==> nodes[i] in Repr)
      && (forall i {:trigger nodes[i]} :: 0 <= i < |nodes| ==> nodes[i].data == Contents[i])
      && (forall i, j :: 0 <= i < |nodes| && j == i + 1 < |nodes| ==> nodes[i].next == nodes[j])
      && (size == 0 ==> top == null)
      && (size > 0 ==> top == nodes[0] && nodes[size - 1].next == null)
    }

    /** A new stack is empty. */
    constructor ()
      ensures Valid() && Contents == [] && fresh(Repr)
    {
      top := null;
      size := 0;
      Contents, nodes, Repr := [], [], {};
    }

    /** push: the element goes on top. */
    method Push(data: T)
      requires Valid()
      modifies this
      ensures Valid() && fresh(Repr - old(Repr))
      ensures Contents == [data] + old(Contents)
    {
      var newNode := new Node(data);
      newNode.next := top;
      top := newNode;
      size := size + 1;
      Contents, nodes, Repr := [data] + Contents, [newNode] + nodes, Repr + {newNode};
    }

    /** pop: the top element and the stack beneath it, or None (the Java
        null) and no change when the stack is empty. */
    method Pop() returns (r: Option<T>)
      requires Valid()
      modifies this
      ensures Valid() && Repr == old(Repr)
      ensures old(Contents) == [] ==> r == None && Contents == []
      ensures old(Contents) != [] ==> r == Some(old(Contents)[0]) && Contents == old(Contents)[1..]
    {
      if size == 0 {
        return None;
      }
      var temp := top;
      top := top.next;
      size := size - 1;
      Contents, nodes := Contents[1..], nodes[1..];
      r := Some(temp.data);
    }

    /** peek: the top element without removing it, or None when empty. */
    method Peek() returns (r: Option<T>)
      requires Valid()
      ensures Contents == [] ==> r == None
      ensures Contents != [] ==> r == Some(Contents[0])
    {
      if size == 0 {
        return None;
      }
      r := Some(top.data);
    }

    method Size() returns (n: int)
      requires Valid()
      ensures n == |Contents|
    {
      n := size;
    }

    method IsEmpty() returns (b: bool)
      requires Valid()
      ensures b <==> Contents == []
    {
      b := size == 0;
    }

    /** unloadStackOnto: pops every element of this stack and pushes it onto
        the receiver, so the receiver gains this stack's elements in reverse
        order on top of what it held. Unloading a stack onto itself pops the top
        element and pushes it back, size times, leaving the contents
        unchanged. */
    method UnloadStackOnto(receiver: Stack<T>)
      requires Valid() && receiver.Valid()
      requires receiver != this
      modifies this, receiver
      ensures Valid() && receiver.Valid()
      ensures Contents == [] && receiver.Contents == Reverse(old(Contents)) + old(receiver.Contents)
    {
      ghost var unloaded, received := Contents, receiver.Contents;
      var sizeOfStackToUnload := size;
      for i := 0 to sizeOfStackToUnload
        invariant Valid() && receiver.Valid()
        invariant Contents == unloaded[i..]
        invariant receiver.Contents == Reverse(unloaded[..i]) + received
      {
        var x := Pop();
        receiver.Push(x.value);
        UnloadStep(unloaded, received, i);
      }
      assert unloaded[..sizeOfStackToUnload] == unloaded;
    }
  }

  /** pop right after push returns the pushed element and restores the
      previous contents. */
  method PushThenPop<T>(s: Stack<T>, x: T) returns (r: Option<T>)
    requires s.Valid()
    modifies s
    ensures s.Valid() && r == Some(x) && s.Contents == old(s.Contents)
  {
    s.Push(x);
    r := s.Pop();
  }
}
