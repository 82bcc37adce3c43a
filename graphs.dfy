/** The relation graph (Graph.java): a vertex set and an edge set fixed at
    construction, the relation properties of the edge set, equivalence
    classes, roots and the ordered successors of a vertex. Each Java query
    is a loop method over the sets, proved equal to a quantified predicate
    or a set-valued function; HashSet iteration order is an arbitrary `:|`
    choice. */
module Graphs {

  import opened Edges
  import opened Collections
  import opened Ordering

  /** Vertex labels. The Java labels are numeric strings; they are modelled
      by the numbers they spell. */
  type Vertex = int

  datatype Graph = Graph(vertices: set<Vertex>, edges: set<Edge<Vertex>>)

  /** Every edge joins two vertices of the graph. The constructor does not
      check this; the properties that need it say so. */
  predicate WellFormed(g: Graph)
  {
    forall e :: e in g.edges ==> e.source in g.vertices && e.destination in g.vertices
  }

  // ---------------------------------------------------------------------
  // The relation properties

  /** Every vertex has a self-loop. */
  predicate Reflexive(g: Graph)
  {
    forall v :: v in g.vertices ==> Edge(v, v) in g.edges
  }

  /** Every edge has its reverse. */
  predicate Symmetric(g: Graph)
  {
    forall e :: e in g.edges ==> e.Reversed() in g.edges
  }

  /** For every edge (a, b) and every vertex c, (b, c) implies (a, c). */
  predicate Transitive(g: Graph)
  {
    forall e, c :: e in g.edges && c in g.vertices && Edge(e.destination, c) in g.edges ==> Edge(e.source, c) in g.edges
  }

  /** The usual definition: edges both ways only between a vertex and itself. */
  predicate AntiSymmetric(g: Graph)
  {
    forall e :: e in g.edges && e.Reversed() in g.edges ==> e.source == e.destination
  }

  /** What isAntiSymmetric computes: no edge has its reverse in the set,
      so a single self-loop already makes it false. */
  predicate AntiSymmetricAsWritten(g: Graph)
  {
    forall e :: e in g.edges ==> e.Reversed() !in g.edges
  }

  predicate Equivalence(g: Graph)
  {
    Reflexive(g) && Symmetric(g) && Transitive(g)
  }

  /** isReflexive: for each vertex, scan all edges for its self-loop; stop
      at the first vertex without one. */
  method IsReflexive(g: Graph) returns (b: bool)
    ensures b == Reflexive(g)
  {
    var pending := g.vertices;
    while pending != {}
      invariant pending <= g.vertices
      invariant forall v :: v in g.vertices && v !in pending ==> Edge(v, v) in g.edges
      decreases |pending|
    {
      ghost var next := Pick(pending);
      var vertex :| vertex in pending;
      var hasSelfLoop := false;
      var unseen := g.edges;
      while unseen != {}
        invariant unseen <= g.edges
        invariant hasSelfLoop <==> Edge(vertex, vertex) in g.edges && Edge(vertex, vertex) !in unseen
        decreases |unseen|
      {
        ghost var nextEdge := Pick(unseen);
        var edge :| edge in unseen;
        if edge.source == edge.destination && edge.source == vertex {
          hasSelfLoop := true;
        }
        unseen := unseen - {edge};
      }
      if !hasSelfLoop {
        return false;
      }
      pending := pending - {vertex};
    }
    return true;
  }

  /** isSymmetric: every edge's opposite must be in the edge set. */
  method IsSymmetric(g: Graph) returns (b: bool)
    ensures b == Symmetric(g)
  {
    var unseen := g.edges;
    while unseen != {}
      invariant unseen <= g.edges
      invariant forall e :: e in g.edges && e !in unseen ==> e.Reversed() in g.edges
      decreases |unseen|
    {
      ghost var next := Pick(unseen);
      var edge :| edge in unseen;
      var opposite := edge.Reversed();
      if opposite !in g.edges {
        return false;
      }
      unseen := unseen - {edge};
    }
    return true;
  }

  /** isTransitive: for every edge (a, b) and every vertex c, finding (b, c)
      without (a, c) refutes transitivity. */
  method IsTransitive(g: Graph) returns (b: bool)
    ensures b == Transitive(g)
  {
    var unseen := g.edges;
    while unseen != {}
      invariant unseen <= g.edges
      invariant forall e, c :: e in g.edges && e !in unseen && c in g.vertices && Edge(e.destination, c) in g.edges ==> Edge(e.source, c) in g.edges
      decreases |unseen|
    {
      ghost var next := Pick(unseen);
      var edge :| edge in unseen;
      var pending := g.vertices;
      while pending != {}
        invariant pending <= g.vertices
        invariant forall c :: c in g.vertices && c !in pending && Edge(edge.destination, c) in g.edges ==> Edge(edge.source, c) in g.edges
        decreases |pending|
      {
        ghost var nextVertex := Pick(pending);
        var vertex :| vertex in pending;
        var edgeB := Edge(edge.destination, vertex);
        var edgeC := Edge(edge.source, vertex);
        if edgeB in g.edges && edgeC !in g.edges {
          return false;
        }
        pending := pending - {vertex};
      }
      unseen := unseen - {edge};
    }
    return true;
  }

  /** isAntiSymmetric as written: the Java test `edge != edgeB` compares
      references against a freshly built edge and so always holds, which
      leaves only the membership test. */
  method IsAntiSymmetric(g: Graph) returns (b: bool)
    ensures b == AntiSymmetricAsWritten(g)
  {
    var unseen := g.edges;
    while unseen != {}
      invariant unseen <= g.edges
      invariant forall e :: e in g.edges && e !in unseen ==> e.Reversed() !in g.edges
      decreases |unseen|
    {
      ghost var next := Pick(unseen);
      var edge :| edge in unseen;
      var edgeB := edge.Reversed();
      if edgeB in g.edges {
        return false;
      }
      unseen := unseen - {edge};
    }
    return true;
  }

  /** isAntiSymmetric with the comparison by value it evidently intends. */
  method IsAntiSymmetricByValue(g: Graph) returns (b: bool)
    ensures b == AntiSymmetric(g)
  {
    var unseen := g.edges;
    while unseen != {}
      invariant unseen <= g.edges
      invariant forall e :: e in g.edges && e !in unseen && e.Reversed() in g.edges ==> e.source == e.destination
      decreases |unseen|
    {
      ghost var next := Pick(unseen);
      var edge :| edge in unseen;
      var edgeB := edge.Reversed();
      if edgeB in g.edges && edge != edgeB {
        return false;
      }
      unseen := unseen - {edge};
    }
    return true;
  }

  /** The graph with one vertex and its self-loop is antisymmetric, yet
      isAntiSymmetric as written rejects it. */
  lemma SelfLoopRejected()
    ensures var g := Graph({1}, {Edge(1, 1)});
      AntiSymmetric(g) && !AntiSymmetricAsWritten(g)
  {
    var g := Graph({1}, {Edge(1, 1)});
    assert Edge(1, 1) in g.edges;
    assert Edge(1, 1).Reversed() == Edge(1, 1);
  }

  /** What the check as written really decides: antisymmetry together with
      the absence of self-loops. */
  lemma AntiSymmetricAsWrittenMeaning(g: Graph)
    ensures AntiSymmetricAsWritten(g) <==> AntiSymmetric(g) && forall e :: e in g.edges ==> e.source != e.destination
  {
    if AntiSymmetricAsWritten(g) {
      forall e | e in g.edges ensures e.source != e.destination {
        assert e.Reversed() !in g.edges;
      }
    }
  }

  /** isEquivalence: reflexive, then symmetric, then transitive, each
      checked only when the previous one held. */
  method IsEquivalence(g: Graph) returns (b: bool)
    ensures b == Equivalence(g)
  {
    b := false;
    var reflexive := IsReflexive(g);
    if reflexive {
      var symmetric := IsSymmetric(g);
      if symmetric {
        b := IsTransitive(g);
      }
    }
  }

  /** Under well-formedness the vertex-quantified transitivity check is the
      usual composition law: (a, b) and (b, c) give (a, c). */
  lemma TransitiveIffComposition(g: Graph)
    requires WellFormed(g)
    ensures Transitive(g) <==> forall a, b, c :: Edge(a, b) in g.edges && Edge(b, c) in g.edges ==> Edge(a, c) in g.edges
  {
    if Transitive(g) {
      forall a, b, c | Edge(a, b) in g.edges && Edge(b, c) in g.edges ensures Edge(a, c) in g.edges {
        var e := Edge(a, b);
        assert e in g.edges && c in g.vertices && Edge(e.destination, c) in g.edges;
      }
    }
    if forall a, b, c :: Edge(a, b) in g.edges && Edge(b, c) in g.edges ==> Edge(a, c) in g.edges {
      forall e, c | e in g.edges && c in g.vertices && Edge(e.destination, c) in g.edges ensures Edge(e.source, c) in g.edges {
        assert Edge(e.source, e.destination) == e;
      }
    }
  }

  // ---------------------------------------------------------------------
  // Equivalence classes

  /** isSameEquivalenceClass: the relation is an equivalence and the two
      vertices are related both ways. */
  predicate SameClass(g: Graph, u: Vertex, v: Vertex)
  {
    Equivalence(g) && Edge(u, v) in g.edges && Edge(v, u) in g.edges
  }

  /** The equivalence class of v: empty unless the relation is an
      equivalence. */
  function Class(g: Graph, v: Vertex): set<Vertex>
  {
    set u | u in g.vertices && SameClass(g, u, v)
  }

  method IsSameEquivalenceClass(g: Graph, currentVertex: Vertex, vertex: Vertex) returns (b: bool)
    ensures b == SameClass(g, currentVertex, vertex)
  {
    var equivalence := IsEquivalence(g);
    if !equivalence {
      return false;
    }
    var edgeA := Edge(currentVertex, vertex);
    var edgeB := Edge(vertex, currentVertex);
    if edgeA !in g.edges || edgeB !in g.edges {
      return false;
    }
    return true;
  }

  /** getEquivalenceClass: start from all vertices and drop each one not in
      the same class as `vertex`. */
  method GetEquivalenceClass(g: Graph, vertex: Vertex) returns (equivalenceClass: set<Vertex>)
    ensures equivalenceClass == Class(g, vertex)
  {
    equivalenceClass := g.vertices;
    var pending := g.vertices;
    while pending != {}
      invariant pending <= g.vertices
      invariant forall u :: u in equivalenceClass <==> u in g.vertices && (u in pending || SameClass(g, u, vertex))
      decreases |pending|
    {
      ghost var next := Pick(pending);
      var currentVertex :| currentVertex in pending;
      var same := IsSameEquivalenceClass(g, currentVertex, vertex);
      if !same {
        equivalenceClass := equivalenceClass - {currentVertex};
      }
      pending := pending - {currentVertex};
    }
    assert forall u :: u in equivalenceClass <==> u in Class(g, vertex);
  }

  /** Without an equivalence every class is empty. */
  lemma ClassEmptyUnlessEquivalence(g: Graph, v: Vertex)
    requires !Equivalence(g)
    ensures Class(g, v) == {}
  {
    assert forall u :: u in Class(g, v) <==> u in {};
  }

  /** Under an equivalence a vertex belongs to its own class. */
  lemma ClassContains(g: Graph, v: Vertex)
    requires Equivalence(g) && v in g.vertices
    ensures v in Class(g, v)
  {
  }

  /** Under an equivalence every member of a class has that same class. */
  lemma ClassOfMember(g: Graph, u: Vertex, v: Vertex)
    requires v in g.vertices && u in Class(g, v)
    ensures Class(g, u) == Class(g, v)
  {
    forall w ensures w in Class(g, u) <==> w in Class(g, v) {
      if w in Class(g, u) {
        assert Edge(w, u) in g.edges && Edge(u, v) in g.edges;
        assert Edge(w, v) in g.edges;
        assert Edge(v, u) in g.edges && Edge(u, w) in g.edges;
        assert Edge(v, w) in g.edges;
      }
      if w in Class(g, v) {
        assert Edge(w, v) in g.edges && Edge(v, u) in g.edges;
        assert Edge(w, u) in g.edges;
        assert Edge(u, v) in g.edges && Edge(v, w) in g.edges;
        assert Edge(u, w) in g.edges;
      }
    }
  }

  /** Under an equivalence two classes are equal or disjoint. */
  lemma ClassesEqualOrDisjoint(g: Graph, u: Vertex, v: Vertex)
    requires u in g.vertices && v in g.vertices
    ensures Class(g, u) == Class(g, v) || Class(g, u) * Class(g, v) == {}
  {
    if w :| w in Class(g, u) && w in Class(g, v) {
      ClassOfMember(g, w, u);
      ClassOfMember(g, w, v);
    } else {
      assert forall w :: w in Class(g, u) * Class(g, v) <==> w in {};
    }
  }

  // ---------------------------------------------------------------------
  // Roots

  /** The vertices with in-degree 0. */
  function Sources(g: Graph): set<Vertex>
  {
    set v | v in g.vertices && forall e :: e in g.edges ==> e.destination != v
  }

  /** The least vertex of the class of v (getMinimum of the class). */
  ghost function ClassMin(g: Graph, v: Vertex): Vertex
    requires Equivalence(g) && v in g.vertices
  {
    ClassContains(g, v);
    Min(Class(g, v))
  }

  /** getRoots as a set: the in-degree-0 vertices, plus the least vertex of
      every class when the relation is an equivalence. */
  ghost function RootSet(g: Graph): set<Vertex>
  {
    Sources(g) + (if Equivalence(g) then set v | v in g.vertices :: ClassMin(g, v) else {})
  }

  /** getRoots: remove every edge destination from a copy of the vertex
      set, add the class minima under an equivalence, and list the result in
      ascending order (the TreeSet with the numeric comparator). */
  method GetRoots(g: Graph) returns (sortedRoots: seq<Vertex>)
    ensures sortedRoots == Sorted(RootSet(g))
  {
    var roots := RemoveDestinations(g);
    var equivalence := IsEquivalence(g);
    if equivalence {
      roots := AddClassMinima(g, roots);
    }
    assert forall v :: v in roots <==> v in RootSet(g);
    assert roots == RootSet(g);
    sortedRoots := SortedElements(roots);
  }

  /** The first loop of getRoots: every edge destination leaves the copy of
      the vertex set, so the in-degree-0 vertices remain. */
  method RemoveDestinations(g: Graph) returns (roots: set<Vertex>)
    ensures roots == Sources(g)
  {
    roots := g.vertices;
    var unseen := g.edges;
    while unseen != {}
      invariant unseen <= g.edges
      invariant forall v :: v in roots <==> v in g.vertices && forall e :: e in g.edges && e !in unseen ==> e.destination != v
      decreases |unseen|
    {
      ghost var next := Pick(unseen);
      var edge :| edge in unseen;
      roots := roots - {edge.destination};
      unseen := unseen - {edge};
    }
    assert forall v :: v in roots <==> v in Sources(g);
  }

  /** The class minima of the vertices in `done`. */
  ghost function ClassMinima(g: Graph, done: set<Vertex>): set<Vertex>
    requires Equivalence(g) && done <= g.vertices
  {
    set u | u in done :: ClassMin(g, u)
  }

  /** One more vertex contributes the least vertex of its class. */
  lemma ClassMinimaStep(g: Graph, done: set<Vertex>, v: Vertex)
    requires Equivalence(g) && done <= g.vertices && v in g.vertices
    ensures ClassMinima(g, done + {v}) == ClassMinima(g, done) + {ClassMin(g, v)}
  {
  }

  /** The second loop of getRoots: under an equivalence the least vertex of
      each class joins the roots. */
  method AddClassMinima(g: Graph, sources: set<Vertex>) returns (roots: set<Vertex>)
    requires Equivalence(g)
    ensures roots == sources + set v | v in g.vertices :: ClassMin(g, v)
  {
    roots := sources;
    var pending := g.vertices;
    while pending != {}
      invariant pending <= g.vertices
      invariant roots == sources + ClassMinima(g, g.vertices - pending)
      decreases |pending|
    {
      ghost var next := Pick(pending);
      var vertex :| vertex in pending;
      var currentEquivalenceClass := GetEquivalenceClass(g, vertex);
      ClassContains(g, vertex);
      var currentMinNumber := GetMinimum(currentEquivalenceClass);
      ClassMinimaStep(g, g.vertices - pending, vertex);
      assert (g.vertices - pending) + {vertex} == g.vertices - (pending - {vertex});
      roots := roots + {currentMinNumber.value};
      pending := pending - {vertex};
    }
    assert g.vertices - pending == g.vertices;
  }

  /** A vertex is a root exactly when nothing points at it, or the relation
      is an equivalence and the vertex is the least of its class. */
  lemma RootsCharacterised(g: Graph, v: Vertex)
    ensures v in RootSet(g) <==>
      v in g.vertices && ((forall e :: e in g.edges ==> e.destination != v) || (Equivalence(g) && v == ClassMin(g, v)))
  {
    if v in RootSet(g) && v !in Sources(g) {
      var u :| u in g.vertices && v == ClassMin(g, u);
      ClassOfMember(g, v, u);
    }
  }

  /** Two different roots are never joined by an edge. This is what keeps
      breadth-first search from recording a root twice. */
  lemma RootsUnlinked(g: Graph, r1: Vertex, r2: Vertex)
    requires r1 in RootSet(g) && r2 in RootSet(g) && r1 != r2
    ensures Edge(r1, r2) !in g.edges
  {
    RootsCharacterised(g, r1);
    RootsCharacterised(g, r2);
    if Edge(r1, r2) in g.edges {
      assert Equivalence(g) && r2 == ClassMin(g, r2);
      assert Edge(r1, r1) in g.edges;
      assert r1 == ClassMin(g, r1);
      assert Edge(r1, r2).Reversed() == Edge(r2, r1);
      assert Edge(r2, r1) in g.edges;
      assert r1 in Class(g, r2);
      ClassOfMember(g, r1, r2);
      assert false;
    }
  }

  // ---------------------------------------------------------------------
  // Successors

  /** The destinations of the edges leaving v. */
  function Destinations(g: Graph, v: Vertex): set<Vertex>
  {
    set e | e in g.edges && e.source == v :: e.destination
  }

  /** findAllDestinations as the traversals iterate it: the destinations of
      the edges leaving v, ascending. */
  ghost function Successors(g: Graph, v: Vertex): seq<Vertex>
  {
    Sorted(Destinations(g, v))
  }

  /** The successors of v are exactly the ends of v's edges, in strictly
      ascending order. */
  lemma SuccessorsAreEdges(g: Graph, v: Vertex)
    ensures forall d :: d in Successors(g, v) <==> Edge(v, d) in g.edges
    ensures StrictlyAscending(Successors(g, v)) && NoDuplicates(Successors(g, v))
  {
    forall d ensures d in Destinations(g, v) <==> Edge(v, d) in g.edges {
      if Edge(v, d) in g.edges {
        var e := Edge(v, d);
        assert e in g.edges && e.source == v;
      }
    }
  }

  /** findAllDestinations: collect the destination of every edge whose
      source is the vertex into a TreeSet. */
  method FindAllDestinations(g: Graph, vertex: Vertex) returns (destinations: seq<Vertex>)
    ensures destinations == Successors(g, vertex)
  {
    var found: set<Vertex> := {};
    var unseen := g.edges;
    while unseen != {}
      invariant unseen <= g.edges
      invariant forall d :: d in found <==> Edge(vertex, d) in g.edges && Edge(vertex, d) !in unseen
      decreases |unseen|
    {
      ghost var next := Pick(unseen);
      var edge :| edge in unseen;
      if vertex == edge.source {
        found := found + {edge.destination};
      }
      unseen := unseen - {edge};
    }
    assert forall d :: d in found <==> d in Destinations(g, vertex);
    assert found == Destinations(g, vertex);
    destinations := SortedElements(found);
  }
}
