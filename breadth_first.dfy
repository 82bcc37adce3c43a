/** The two breadth-first searches of Graph.java over the Queue class, each
    proved to return the order defined by Traversals.Bfs. The `visited`
    ArrayList is a sequence value: the Java code only appends to it and asks
    whether it contains a vertex. */
module BreadthFirst {

  import opened Collections
  import opened Ordering
  import opened Graphs
  import opened Queues
  import opened Traversals

  /** One dequeue of breadth-first search, on the specification side: the
      front vertex's unrecorded successors are recorded and enqueued, and
      the termination measure goes down. */
  lemma BfsDrainStep(g: Graph, queue: seq<Vertex>, visited: seq<Vertex>, ds: seq<Vertex>)
    requires queue != [] && ds == Successors(g, queue[0])
    ensures NoDuplicates(ds)
    ensures var added := Unvisited(ds, visited);
      && BfsDrain(g, queue, visited) == BfsDrain(g, queue[1..] + added, visited + added)
      && (added != [] ==> |Candidates(g) - Elements(visited + added)| < |Candidates(g) - Elements(visited)|)
      && (added == [] ==> visited + added == visited)
  {
    SuccessorsAreEdges(g, queue[0]);
    SuccessorsAreCandidates(g, queue[0]);
    Progress(g, visited, Unvisited(ds, visited));
  }

  /** The last root of a prefix, on the specification side. */
  lemma BfsFromStep(g: Graph, roots: seq<Vertex>, i: nat)
    requires i < |roots|
    ensures BfsFrom(g, roots[..i + 1], []) == BfsDrain(g, [roots[i]], BfsFrom(g, roots[..i], []) + [roots[i]])
  {
    assert roots[..i + 1][..i] == roots[..i];
  }

  /** The body shared by both breadth-first searches: for each destination
      in ascending order, record and enqueue it unless already recorded. */
  lemma EnqueueStep(ds: seq<Vertex>, k: nat, before: seq<Vertex>, visited: seq<Vertex>)
    requires k < |ds| && NoDuplicates(ds)
    requires visited == before + Unvisited(ds[..k], before)
    ensures ds[k] in visited <==> ds[k] in before
    ensures Unvisited(ds[..k + 1], before) == Unvisited(ds[..k], before) + (if ds[k] in before then [] else [ds[k]])
  {
    UnvisitedStep(ds, k, before);
    assert ds[k] !in ds[..k];
  }

  /** The loop over a vertex's destinations in both breadth-first searches:
      each destination not yet recorded is recorded and enqueued. */
  method EnqueueUnvisited(queue: Queue<Vertex>, visited: seq<Vertex>, currentDestinations: seq<Vertex>)
    returns (result: seq<Vertex>)
    requires queue.Valid() && NoDuplicates(currentDestinations)
    modifies queue.Repr
    ensures queue.Valid() && fresh(queue.Repr - old(queue.Repr))
    ensures result == visited + Unvisited(currentDestinations, visited)
    ensures queue.Contents == old(queue.Contents) + Unvisited(currentDestinations, visited)
  {
    result := visited;
    ghost var added: seq<Vertex> := [];
    for k := 0 to |currentDestinations|
      invariant queue.Valid() && fresh(queue.Repr - old(queue.Repr))
      invariant added == Unvisited(currentDestinations[..k], visited)
      invariant result == visited + added
      invariant queue.Contents == old(queue.Contents) + added
    {
      var destination := currentDestinations[k];
      if destination !in result {
        result := result + [destination];
        queue.Enqueue(destination);
        AppendAssociative(visited, added, [destination]);
        AppendAssociative(old(queue.Contents), added, [destination]);
        EnqueueStep(currentDestinations, k, visited, visited + added);
        added := added + [destination];
      } else {
        EnqueueStep(currentDestinations, k, visited, result);
      }
    }
    assert currentDestinations[..|currentDestinations|] == currentDestinations;
  }

  /** One dequeue of both breadth-first searches: dequeue the front vertex,
      then record and enqueue each of its unrecorded destinations in
      ascending order. */
  method VisitFront(g: Graph, queue: Queue<Vertex>, visited: seq<Vertex>) returns (result: seq<Vertex>)
    requires queue.Valid() && queue.Contents != []
    modifies queue.Repr
    ensures queue.Valid() && fresh(queue.Repr - old(queue.Repr))
    ensures var added := Unvisited(Successors(g, old(queue.Contents)[0]), visited);
      && result == visited + added
      && queue.Contents == old(queue.Contents)[1..] + added
  {
    var currentNode := queue.Dequeue();
    var currentDestinations := FindAllDestinations(g, currentNode.data);
    SuccessorsAreEdges(g, currentNode.data);
    result := EnqueueUnvisited(queue, visited, currentDestinations);
  }

  /** The inner loop of iterativeBreadthFirstSearch: while the queue is not
      empty, dequeue its front vertex, then record and enqueue each of that
      vertex's unrecorded destinations in ascending order. */
  method DrainQueue(g: Graph, queue: Queue<Vertex>, visited: seq<Vertex>) returns (result: seq<Vertex>)
    requires queue.Valid()
    modifies queue.Repr
    ensures queue.Valid() && fresh(queue.Repr - old(queue.Repr)) && queue.Contents == []
    ensures result == BfsDrain(g, old(queue.Contents), visited)
  {
    result := visited;
    var empty := queue.IsEmpty();
    while !empty
      invariant queue.Valid() && fresh(queue.Repr - old(queue.Repr))
      invariant empty <==> queue.Contents == []
      invariant BfsDrain(g, queue.Contents, result) == BfsDrain(g, old(queue.Contents), visited)
      decreases |Candidates(g) - Elements(result)|, |queue.Contents|
    {
      BfsDrainStep(g, queue.Contents, result, Successors(g, queue.Contents[0]));
      result := VisitFront(g, queue, result);
      empty := queue.IsEmpty();
    }
  }

  /** iterativeBreadthFirstSearch: roots ascending; each root is enqueued and
      recorded, then the queue is drained, recording and enqueueing every
      unrecorded successor. */
  method IterativeBreadthFirstSearch(g: Graph) returns (visited: seq<Vertex>)
    ensures visited == Bfs(g)
  {
    var roots := GetRoots(g);
    var queue := new Queue<Vertex>();
    visited := IterativeBfsRoots(g, roots, queue);
  }

  /** The loop of iterativeBreadthFirstSearch over the roots, with one queue
      shared by all of them. */
  method IterativeBfsRoots(g: Graph, roots: seq<Vertex>, queue: Queue<Vertex>) returns (visited: seq<Vertex>)
    requires queue.Valid() && queue.Contents == []
    modifies queue.Repr
    ensures visited == BfsFrom(g, roots, [])
  {
    visited := [];
    for i := 0 to |roots|
      invariant queue.Valid() && fresh(queue.Repr - old(queue.Repr)) && queue.Contents == []
      invariant visited == BfsFrom(g, roots[..i], [])
    {
      var currentRoot := roots[i];
      BfsFromStep(g, roots, i);
      queue.Enqueue(currentRoot);
      visited := visited + [currentRoot];
      visited := DrainQueue(g, queue, visited);
    }
    assert roots[..|roots|] == roots;
  }

  /** recursiveBfsCall: on a non-empty queue, dequeue the front vertex,
      record and enqueue its unrecorded destinations in ascending order, and
      recurse; on an empty queue return the record unchanged. */
  method RecursiveBfsCall(g: Graph, queue: Queue<Vertex>, visited: seq<Vertex>) returns (result: seq<Vertex>)
    requires queue.Valid()
    modifies queue.Repr
    ensures queue.Valid() && fresh(queue.Repr - old(queue.Repr)) && queue.Contents == []
    ensures result == BfsDrain(g, old(queue.Contents), visited)
    decreases |Candidates(g) - Elements(visited)|, |queue.Contents|
  {
    result := visited;
    var empty := queue.IsEmpty();
    if !empty {
      result := VisitFront(g, queue, visited);
      BfsDrainStep(g, old(queue.Contents), visited, Successors(g, old(queue.Contents)[0]));
      result := RecursiveBfsCall(g, queue, result);
    }
  }

  /** recursiveBreadthFirstSearch: roots ascending; each root is enqueued and
      recorded, and recursiveBfsCall drains the queue. */
  method RecursiveBreadthFirstSearch(g: Graph) returns (visited: seq<Vertex>)
    ensures visited == Bfs(g)
  {
    var roots := GetRoots(g);
    var queue := new Queue<Vertex>();
    visited := RecursiveBfsRoots(g, roots, queue);
  }

  /** The loop of recursiveBreadthFirstSearch over the roots, with one queue
      shared by all of them. */
  method RecursiveBfsRoots(g: Graph, roots: seq<Vertex>, queue: Queue<Vertex>) returns (visited: seq<Vertex>)
    requires queue.Valid() && queue.Contents == []
    modifies queue.Repr
    ensures visited == BfsFrom(g, roots, [])
  {
    visited := [];
    for i := 0 to |roots|
      invariant queue.Valid() && fresh(queue.Repr - old(queue.Repr)) && queue.Contents == []
      invariant visited == BfsFrom(g, roots[..i], [])
    {
      var currentRoot := roots[i];
      BfsFromStep(g, roots, i);
      queue.Enqueue(currentRoot);
      visited := visited + [currentRoot];
      visited := RecursiveBfsCall(g, queue, visited);
    }
    assert roots[..|roots|] == roots;
  }
}
