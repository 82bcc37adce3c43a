/** The four traversals of Graph.java. Each visit order is first defined as
    a ghost function that follows the Java loop step by step (one dequeue or
    pop per step); the methods run the same steps on the Queue and Stack
    classes and are proved to return exactly that order. */
module Traversals {

  import opened Edges
  import opened Collections
  import opened Ordering
  import opened Graphs

  /** Every vertex a traversal can record: the vertices and every edge
      destination. */
  function Candidates(g: Graph): set<Vertex>
  {
    g.vertices + set e | e in g.edges :: e.destination
  }

  /** No edge leaves the set. */
  ghost predicate Closed(g: Graph, s: set<Vertex>)
  {
    forall u, d :: u in s && Edge(u, d) in g.edges ==> d in s
  }

  /** The elements of `ds` that are not in `visited`, in their order. */
  function Unvisited(ds: seq<Vertex>, visited: seq<Vertex>): (r: seq<Vertex>)
    ensures forall x :: x in r <==> x in ds && x !in visited
    ensures |r| <= |ds|
  {
    if ds == [] then []
    else
      var last := ds[|ds| - 1];
      Unvisited(ds[..|ds| - 1], visited) + (if last in visited then [] else [last])
  }

  lemma UnvisitedStep(ds: seq<Vertex>, k: nat, visited: seq<Vertex>)
    requires k < |ds|
    ensures Unvisited(ds[..k + 1], visited) == Unvisited(ds[..k], visited) + (if ds[k] in visited then [] else [ds[k]])
  {
    assert ds[..k + 1][..k] == ds[..k];
  }

  lemma {:induction false} UnvisitedNoDuplicates(ds: seq<Vertex>, visited: seq<Vertex>)
    requires NoDuplicates(ds)
    ensures NoDuplicates(Unvisited(ds, visited))
  {
    if ds != [] {
      var init := ds[..|ds| - 1];
      UnvisitedNoDuplicates(init, visited);
      var last := ds[|ds| - 1];
      assert last !in init;
      NoDuplicatesAppend(Unvisited(init, visited), if last in visited then [] else [last]);
    }
  }

  lemma {:induction false} UnvisitedNone(ds: seq<Vertex>, visited: seq<Vertex>)
    requires forall x :: x in ds ==> x in visited
    ensures Unvisited(ds, visited) == []
  {
    if ds != [] {
      UnvisitedNone(ds[..|ds| - 1], visited);
    }
  }

  /** The successors of a vertex are candidates. */
  lemma SuccessorsAreCandidates(g: Graph, v: Vertex)
    ensures forall d :: d in Successors(g, v) ==> d in Candidates(g)
  {
    SuccessorsAreEdges(g, v);
    forall d | d in Successors(g, v) ensures d in Candidates(g) {
      var e := Edge(v, d);
      assert e in g.edges;
    }
  }

  /** The termination measure: recording new candidates shrinks the set of
      unrecorded ones; recording nothing leaves the list as it was. */
  lemma Progress(g: Graph, visited: seq<Vertex>, added: seq<Vertex>)
    requires forall x :: x in added ==> x in Candidates(g) && x !in visited
    ensures added != [] ==> |Candidates(g) - Elements(visited + added)| < |Candidates(g) - Elements(visited)|
    ensures added == [] ==> visited + added == visited
  {
    if added != [] {
      var a := added[0];
      var before := Candidates(g) - Elements(visited);
      var after := Candidates(g) - Elements(visited + added);
      assert a in visited + added;
      assert after <= before - {a};
      SubsetSize(after, before - {a});
    }
  }

  // ---------------------------------------------------------------------
  // Breadth-first search

  /** Drain the queue: dequeue the front vertex and enqueue, and record,
      each successor not yet recorded, in ascending order. */
  ghost function BfsDrain(g: Graph, queue: seq<Vertex>, visited: seq<Vertex>): seq<Vertex>
    decreases |Candidates(g) - Elements(visited)|, |queue|
  {
    if queue == [] then visited
    else
      var added := Unvisited(Successors(g, queue[0]), visited);
      SuccessorsAreCandidates(g, queue[0]);
      Progress(g, visited, added);
      BfsDrain(g, queue[1..] + added, visited + added)
  }

  /** Process the roots in order: each is enqueued and recorded, without
      checking whether it was recorded already, and the queue is drained. */
  ghost function BfsFrom(g: Graph, roots: seq<Vertex>, visited: seq<Vertex>): seq<Vertex>
  {
    if roots == [] then visited
    else
      var root := roots[|roots| - 1];
      BfsDrain(g, [root], BfsFrom(g, roots[..|roots| - 1], visited) + [root])
  }

  /** The breadth-first order of both BFS methods: roots ascending. */
  ghost function Bfs(g: Graph): seq<Vertex>
  {
    BfsFrom(g, Sorted(RootSet(g)), [])
  }

  // ---------------------------------------------------------------------
  // Depth-first search

  /** What keeps depth-first search finite although a popped vertex that is
      already recorded is still expanded: the stack holds candidates; every
      successor of a recorded vertex is recorded or on the stack; and the
      successors of a recorded vertex at stack position p are recorded or
      above p. */
  ghost predicate DfsInv(g: Graph, stack: seq<Vertex>, visited: seq<Vertex>)
  {
    && (forall i :: 0 <= i < |stack| ==> stack[i] in Candidates(g))
    && SuccessorsPending(g, stack, visited)
    && SuccessorsAbove(g, stack, visited)
  }

  ghost predicate SuccessorsPending(g: Graph, stack: seq<Vertex>, visited: seq<Vertex>)
  {
    forall u, d :: u in visited && Edge(u, d) in g.edges ==> d in visited || d in stack
  }

  ghost predicate SuccessorsAbove(g: Graph, stack: seq<Vertex>, visited: seq<Vertex>)
  {
    forall p, d :: 0 <= p < |stack| && stack[p] in visited && Edge(stack[p], d) in g.edges ==> d in visited || d in stack[..p]
  }

  /** One pop: the vertex on top is recorded if new. */
  function Record(visited: seq<Vertex>, x: Vertex): seq<Vertex>
  {
    if x in visited then visited else visited + [x]
  }

  lemma StepKeepsPending(g: Graph, stack: seq<Vertex>, visited: seq<Vertex>, pushed: seq<Vertex>)
    requires stack != [] && SuccessorsPending(g, stack, visited)
    requires forall d :: d in pushed <==> Edge(stack[0], d) in g.edges && d !in Record(visited, stack[0])
    ensures SuccessorsPending(g, pushed + stack[1..], Record(visited, stack[0]))
  {
    var x, visited', stack' := stack[0], Record(visited, stack[0]), pushed + stack[1..];
    forall u, d | u in visited' && Edge(u, d) in g.edges ensures d in visited' || d in stack' {
      if u != x && d !in visited' {
        assert d in stack;
        var k :| 0 <= k < |stack| && stack[k] == d;
        assert stack'[k - 1 + |pushed|] == d;
      }
    }
  }

  lemma StepKeepsAbove(g: Graph, stack: seq<Vertex>, visited: seq<Vertex>, pushed: seq<Vertex>)
    requires stack != [] && SuccessorsAbove(g, stack, visited)
    requires forall d :: d in pushed <==> Edge(stack[0], d) in g.edges && d !in Record(visited, stack[0])
    ensures SuccessorsAbove(g, pushed + stack[1..], Record(visited, stack[0]))
  {
    var x, visited', stack' := stack[0], Record(visited, stack[0]), pushed + stack[1..];
    forall p | 0 <= p < |pushed| ensures stack'[p] !in visited' {
      assert stack'[p] == pushed[p] && pushed[p] in pushed;
    }
    forall p, d | 0 <= p < |stack'| && stack'[p] in visited' && Edge(stack'[p], d) in g.edges
      ensures d in visited' || d in stack'[..p]
    {
      if d !in visited' {
        var q := p - |pushed| + 1;
        assert stack'[p] == stack[q];
        if stack[q] == x {
          var k :| 0 <= k < |pushed| && pushed[k] == d;
          assert stack'[..p][k] == d;
        } else {
          assert d in stack[..q];
          var k :| 0 <= k < q && stack[k] == d;
          assert stack'[..p][k - 1 + |pushed|] == d;
        }
      }
    }
  }

  /** The pushed successors are candidates, so the new stack holds
      candidates only. */
  lemma StepKeepsCandidates(g: Graph, stack: seq<Vertex>, pushed: seq<Vertex>)
    requires stack != [] && forall i :: 0 <= i < |stack| ==> stack[i] in Candidates(g)
    requires forall d :: d in pushed ==> d in Candidates(g)
    ensures forall i :: 0 <= i < |pushed + stack[1..]| ==> (pushed + stack[1..])[i] in Candidates(g)
  {
    var stack' := pushed + stack[1..];
    forall i | 0 <= i < |stack'| ensures stack'[i] in Candidates(g) {
      if i >= |pushed| {
        assert stack'[i] == stack[i - |pushed| + 1];
      } else {
        assert stack'[i] == pushed[i] && pushed[i] in pushed;
      }
    }
  }

  /** Popping a recorded vertex pushes nothing; popping a new one shrinks
      the set of unrecorded candidates. */
  lemma StepPushesOrProgresses(g: Graph, stack: seq<Vertex>, visited: seq<Vertex>)
    requires stack != [] && stack[0] in Candidates(g) && SuccessorsAbove(g, stack, visited)
    ensures var x := stack[0];
      && (x in visited ==> Unvisited(Successors(g, x), visited) == [])
      && (x !in visited ==> |Candidates(g) - Elements(visited + [x])| < |Candidates(g) - Elements(visited)|)
  {
    var x := stack[0];
    if x in visited {
      SuccessorsAreEdges(g, x);
      forall d | d in Successors(g, x) ensures d in visited {
        assert stack[..0] == [];
      }
      UnvisitedNone(Successors(g, x), visited);
    } else {
      Progress(g, visited, [x]);
    }
  }

  /** One step of depth-first search keeps the invariant, and either records
      a new vertex or pushes nothing. */
  lemma DfsStep(g: Graph, stack: seq<Vertex>, visited: seq<Vertex>)
    requires stack != [] && DfsInv(g, stack, visited)
    ensures var x := stack[0];
      var pushed := Unvisited(Successors(g, x), Record(visited, x));
      && DfsInv(g, pushed + stack[1..], Record(visited, x))
      && (x in visited ==> pushed == [])
      && (x !in visited ==> |Candidates(g) - Elements(Record(visited, x))| < |Candidates(g) - Elements(visited)|)
  {
    var x := stack[0];
    var pushed := Unvisited(Successors(g, x), Record(visited, x));
    SuccessorsAreEdges(g, x);
    SuccessorsAreCandidates(g, x);
    StepPushesOrProgresses(g, stack, visited);
    StepKeepsCandidates(g, stack, pushed);
    StepKeepsPending(g, stack, visited, pushed);
    StepKeepsAbove(g, stack, visited, pushed);
  }

  /** A root pushed onto the empty stack above a closed record satisfies the
      invariant. */
  lemma DfsStart(g: Graph, root: Vertex, visited: seq<Vertex>)
    requires Closed(g, Elements(visited)) && root in Candidates(g)
    ensures DfsInv(g, [root], visited)
  {
    assert [root][..0] == [];
    forall u, d | u in visited && Edge(u, d) in g.edges ensures d in visited {
      assert u in Elements(visited);
    }
  }

  /** Drain the stack: pop the top vertex, record it if new, and push its
      unrecorded successors so that the smallest is on top (the holding
      stack reverses the ascending order twice). */
  ghost function DfsDrain(g: Graph, stack: seq<Vertex>, visited: seq<Vertex>): (r: seq<Vertex>)
    requires DfsInv(g, stack, visited)
    ensures Closed(g, Elements(r))
    decreases |Candidates(g) - Elements(visited)|, |stack|
  {
    if stack == [] then visited
    else
      var x := stack[0];
      DfsStep(g, stack, visited);
      DfsDrain(g, Unvisited(Successors(g, x), Record(visited, x)) + stack[1..], Record(visited, x))
  }

  /** Process the roots in the given order: push each and drain the stack. */
  ghost function DfsFrom(g: Graph, roots: seq<Vertex>, visited: seq<Vertex>): (r: seq<Vertex>)
    requires Closed(g, Elements(visited))
    requires forall i :: 0 <= i < |roots| ==> roots[i] in Candidates(g)
    ensures Closed(g, Elements(r))
  {
    if roots == [] then visited
    else
      var before := DfsFrom(g, roots[..|roots| - 1], visited);
      DfsStart(g, roots[|roots| - 1], before);
      DfsDrain(g, [roots[|roots| - 1]], before)
  }

  /** The roots are vertices, hence candidates. */
  lemma RootsAreCandidates(g: Graph)
    ensures forall v :: v in RootSet(g) ==> v in Candidates(g)
  {
    forall v | v in RootSet(g) ensures v in Candidates(g) {
      RootsCharacterised(g, v);
    }
  }

  /** The depth-first order of recursiveDepthFirstSearch: roots ascending. */
  ghost function Dfs(g: Graph): (r: seq<Vertex>)
    ensures Closed(g, Elements(r))
  {
    RootsAreCandidates(g);
    assert forall u :: u !in Elements<Vertex>([]);
    DfsFrom(g, Sorted(RootSet(g)), [])
  }

  /** `order` lists every element of `s` exactly once. */
  ghost predicate Enumerates(order: seq<Vertex>, s: set<Vertex>)
  {
    NoDuplicates(order) && forall v :: v in order <==> v in s
  }

  /** An enumeration of the roots lists candidates only, and the empty
      record is closed. */
  lemma RootOrderStarts(g: Graph, order: seq<Vertex>)
    requires Enumerates(order, RootSet(g))
    ensures forall i :: 0 <= i < |order| ==> order[i] in Candidates(g)
    ensures Closed(g, Elements<Vertex>([]))
  {
    RootsAreCandidates(g);
    assert forall v :: v in order <==> v in RootSet(g);
    forall i | 0 <= i < |order| ensures order[i] in Candidates(g) {
      assert order[i] in order;
      assert order[i] in RootSet(g);
    }
    assert forall u :: u !in Elements<Vertex>([]);
  }

  /** `visited` is the depth-first record when the roots are processed in
      `order`, which must enumerate the root set. */
  ghost predicate DfsInOrder(g: Graph, order: seq<Vertex>, visited: seq<Vertex>)
  {
    Enumerates(order, RootSet(g)) && (RootOrderStarts(g, order); visited == DfsFrom(g, order, []))
  }
}
