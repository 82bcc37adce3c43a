/** A directed edge between two vertices (Edge.java). Java's Edge is an
    immutable pair whose equals compares both endpoints; a Dafny datatype
    has exactly that structural equality, which is what the graph's
    edge-set membership tests rely on. */
module Edges {

  datatype Edge<T> = Edge(source: T, destination: T) {

    /** getSource */
    function Source(): (s: T)
      ensures this == Edge(s, destination)
    {
      source
    }

    /** getDestination */
    function Destination(): (d: T)
      ensures this == Edge(source, d)
    {
      destination
    }

    /** The edge with its endpoints swapped, as built by the symmetry and
        antisymmetry checks. Swapping back gives the edge again, and only a
        self-loop is its own reverse. */
    function Reversed(): (r: Edge<T>)
      ensures Edge(r.destination, r.source) == this
      ensures r == this <==> source == destination
    {
      Edge(destination, source)
    }
  }

  /** equals: the identity shortcut (this == obj) followed by the
      componentwise test; together they decide value equality. */
  predicate Equals<T(==)>(e: Edge<T>, other: Edge<T>): (b: bool)
    ensures b <==> e == other
  {
    e == other || (e.source == other.source && e.destination == other.destination)
  }

  /** Reversing twice is the identity. */
  lemma ReversedInvolution<T>(e: Edge<T>)
    ensures e.Reversed().Reversed() == e
  {
  }

  /** The constructor keeps exactly its two arguments. */
  lemma ConstructorAccessors<T>(s: T, d: T)
    ensures Edge(s, d).Source() == s && Edge(s, d).Destination() == d
  {
  }

  /** equals holds iff both endpoints agree, i.e. iff the two values are equal. */
  lemma EqualsIsComponentwise<T>(e1: Edge<T>, e2: Edge<T>)
    ensures Equals(e1, e2) <==> e1.source == e2.source && e1.destination == e2.destination
    ensures Equals(e1, e2) <==> e1 == e2
  {
  }

  /** An edge equals itself. */
  lemma EqualsReflexive<T>(e: Edge<T>)
    ensures Equals(e, e)
  {
  }

  /** equals is symmetric. */
  lemma EqualsSymmetric<T>(e1: Edge<T>, e2: Edge<T>)
    ensures Equals(e1, e2) <==> Equals(e2, e1)
  {
  }
}
