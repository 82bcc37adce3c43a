/** The two depth-first searches of Graph.java over the Stack class, each
    proved to return the order defined by Traversals.DfsFrom. A holding
    stack reverses the ascending destinations so that the least is popped
    first. */
module DepthFirst {

  import opened Collections
  import opened Ordering
  import opened Graphs
  import opened Stacks
  import opened Traversals
  import opened TraversalProperties

  /** One pop of depth-first search, on the specification side: the popped
      vertex is recorded, its unrecorded successors go on top of the stack,
      the invariant is kept and the termination measure goes down. */
  lemma DfsDrainStep(g: Graph, stack: seq<Vertex>, visited: seq<Vertex>, ds: seq<Vertex>)
    requires stack != [] && DfsInv(g, stack, visited) && ds == Successors(g, stack[0])
    ensures var recorded := Record(visited, stack[0]);
      var pushed := Unvisited(ds, recorded);
      && DfsInv(g, pushed + stack[1..], recorded)
      && DfsDrain(g, stack, visited) == DfsDrain(g, pushed + stack[1..], recorded)
      && (stack[0] in visited ==> pushed == [] && recorded == visited)
      && (stack[0] !in visited ==> |Candidates(g) - Elements(recorded)| < |Candidates(g) - Elements(visited)|)
  {
    DfsStep(g, stack, visited);
  }

  /** The last root of an order, on the specification side. */
  lemma DfsFromSnoc(g: Graph, order: seq<Vertex>, root: Vertex)
    requires Closed(g, Elements<Vertex>([]))
    requires forall i :: 0 <= i < |order| ==> order[i] in Candidates(g)
    requires root in Candidates(g)
    ensures DfsInv(g, [root], DfsFrom(g, order, []))
    ensures DfsFrom(g, order + [root], []) == DfsDrain(g, [root], DfsFrom(g, order, []))
  {
    DfsStart(g, root, DfsFrom(g, order, []));
    assert (order + [root])[..|order|] == order;
  }

  /** The loop over a vertex's destinations in both depth-first searches:
      each destination not yet recorded is pushed onto the holding stack, so
      the greatest ends on top. */
  method PushUnvisited(holdingStack: Stack<Vertex>, visited: seq<Vertex>, currentDestinations: seq<Vertex>)
    requires holdingStack.Valid()
    modifies holdingStack
    ensures holdingStack.Valid()
    ensures holdingStack.Contents == Reverse(Unvisited(currentDestinations, visited)) + old(holdingStack.Contents)
  {
    ghost var pushed: seq<Vertex> := [];
    for k := 0 to |currentDestinations|
      invariant holdingStack.Valid()
      invariant pushed == Unvisited(currentDestinations[..k], visited)
      invariant holdingStack.Contents == Reverse(pushed) + old(holdingStack.Contents)
    {
      var destination := currentDestinations[k];
      UnvisitedStep(currentDestinations, k, visited);
      if destination !in visited {
        ReverseSnoc(pushed, destination);
        AppendAssociative([destination], Reverse(pushed), old(holdingStack.Contents));
        holdingStack.Push(destination);
        pushed := pushed + [destination];
      }
    }
    assert currentDestinations[..|currentDestinations|] == currentDestinations;
  }

  /** One pop of both depth-first searches: pop the top vertex, record it if
      new, push its unrecorded destinations onto the holding stack and unload
      that onto the stack. */
  method Expand(g: Graph, stack: Stack<Vertex>, holdingStack: Stack<Vertex>, visited: seq<Vertex>)
    returns (result: seq<Vertex>)
    requires stack.Valid() && holdingStack.Valid() && stack != holdingStack
    requires stack.Contents != [] && holdingStack.Contents == []
    modifies stack, holdingStack
    ensures stack.Valid() && holdingStack.Valid() && holdingStack.Contents == []
    ensures var x := old(stack.Contents)[0];
      && result == Record(visited, x)
      && stack.Contents == Unvisited(Successors(g, x), result) + old(stack.Contents)[1..]
  {
    var popped := stack.Pop();
    var currentNode := popped.value;
    result := visited;
    if currentNode !in result {
      result := result + [currentNode];
    }
    var currentDestinations := FindAllDestinations(g, currentNode);
    ghost var pushed, below := Unvisited(currentDestinations, result), stack.Contents;
    PushUnvisited(holdingStack, result, currentDestinations);
    assert holdingStack.Contents == Reverse(pushed) by {
      assert Reverse(pushed) + [] == Reverse(pushed);
    }
    ReverseReverse(pushed);
    holdingStack.UnloadStackOnto(stack);
    assert stack.Contents == pushed + below;
  }

  /** The inner loop of iterativeDepthFirstSearch: pop and expand until the
      stack is empty. */
  method DrainStack(g: Graph, stack: Stack<Vertex>, holdingStack: Stack<Vertex>, visited: seq<Vertex>)
    returns (result: seq<Vertex>)
    requires stack.Valid() && holdingStack.Valid() && stack != holdingStack && holdingStack.Contents == []
    requires DfsInv(g, stack.Contents, visited)
    modifies stack, holdingStack
    ensures stack.Valid() && holdingStack.Valid() && stack.Contents == [] && holdingStack.Contents == []
    ensures result == DfsDrain(g, old(stack.Contents), visited)
  {
    result := visited;
    var empty := stack.IsEmpty();
    while !empty
      invariant stack.Valid() && holdingStack.Valid() && holdingStack.Contents == []
      invariant empty <==> stack.Contents == []
      invariant DfsInv(g, stack.Contents, result)
      invariant DfsDrain(g, stack.Contents, result) == DfsDrain(g, old(stack.Contents), visited)
      decreases |Candidates(g) - Elements(result)|, |stack.Contents|
    {
      DfsDrainStep(g, stack.Contents, result, Successors(g, stack.Contents[0]));
      result := Expand(g, stack, holdingStack, result);
      empty := stack.IsEmpty();
    }
  }

  /** iterativeDepthFirstSearch: the roots are taken from a HashSet, in an
      order the model leaves open; each is pushed and the stack drained. One
      stack and one holding stack serve every root. Whatever that order,
      no vertex is recorded twice and the recorded vertices are those of
      the other traversals. */
  method IterativeDepthFirstSearch(g: Graph) returns (visited: seq<Vertex>)
    ensures exists order :: DfsInOrder(g, order, visited)
    ensures NoDuplicates(visited)
    ensures Elements(visited) == Elements(Dfs(g)) == Elements(Bfs(g))
  {
    var sortedRoots := GetRoots(g);
    ghost var order;
    visited, order := IterativeDfsRoots(g, Elements(sortedRoots));
    DfsNoDuplicates(g, order, visited);
    TraversalsAgree(g, order, visited);
  }

  /** Taking one more pending root keeps the root loop's bookkeeping: the
      order lists, once each, exactly the roots no longer pending, all of
      them candidates. */
  lemma RootOrderStep(c: set<Vertex>, roots: set<Vertex>, pending: set<Vertex>, order: seq<Vertex>, root: Vertex)
    requires pending <= roots && root in pending && root in c
    requires NoDuplicates(order) && forall v :: v in order <==> v in roots && v !in pending
    requires forall i :: 0 <= i < |order| ==> order[i] in c
    ensures NoDuplicates(order + [root])
    ensures forall v :: v in order + [root] <==> v in roots && v !in pending - {root}
    ensures forall i :: 0 <= i < |order + [root]| ==> (order + [root])[i] in c
  {
    NoDuplicatesAppend(order, [root]);
  }

  /** The loop of iterativeDepthFirstSearch over the roots. */
  method IterativeDfsRoots(g: Graph, roots: set<Vertex>) returns (visited: seq<Vertex>, ghost order: seq<Vertex>)
    requires forall v :: v in roots <==> v in RootSet(g)
    ensures DfsInOrder(g, order, visited)
  {
    RootsAreCandidates(g);
    assert forall u :: u !in Elements<Vertex>([]);
    var stack := new Stack<Vertex>();
    var holdingStack := new Stack<Vertex>();
    visited, order := [], [];
    var pending := roots;
    while pending != {}
      invariant pending <= roots
      invariant NoDuplicates(order) && forall v :: v in order <==> v in roots && v !in pending
      invariant forall i :: 0 <= i < |order| ==> order[i] in Candidates(g)
      invariant visited == DfsFrom(g, order, [])
      invariant stack.Valid() && holdingStack.Valid() && stack != holdingStack
      invariant stack.Contents == [] && holdingStack.Contents == []
      decreases |pending|
    {
      ghost var next := Pick(pending);
      var currentRoot :| currentRoot in pending;
      visited := DrainFromRoot(g, stack, holdingStack, order, currentRoot, visited);
      RootOrderStep(Candidates(g), roots, pending, order, currentRoot);
      order := order + [currentRoot];
      pending := pending - {currentRoot};
    }
    assert forall v :: v in order <==> v in RootSet(g);
  }

  /** One pass of the root loop of iterativeDepthFirstSearch: push the root
      onto the empty stack and drain it, extending the record by that root. */
  method DrainFromRoot(g: Graph, stack: Stack<Vertex>, holdingStack: Stack<Vertex>, ghost order: seq<Vertex>, root: Vertex, visited: seq<Vertex>)
    returns (result: seq<Vertex>)
    requires stack.Valid() && holdingStack.Valid() && stack != holdingStack
    requires stack.Contents == [] && holdingStack.Contents == []
    requires Closed(g, Elements<Vertex>([]))
    requires forall i :: 0 <= i < |order| ==> order[i] in Candidates(g)
    requires root in Candidates(g) && visited == DfsFrom(g, order, [])
    modifies stack, holdingStack
    ensures stack.Valid() && holdingStack.Valid() && stack.Contents == [] && holdingStack.Contents == []
    ensures result == DfsFrom(g, order + [root], [])
  {
    stack.Push(root);
    DfsFromSnoc(g, order, root);
    result := DrainStack(g, stack, holdingStack, visited);
  }

  /** One pass of the root loop of recursiveDepthFirstSearch: push the root
      onto the empty stack and let recursiveDfsCall drain it. */
  method DrainFromRootRecursively(g: Graph, stack: Stack<Vertex>, ghost order: seq<Vertex>, root: Vertex, visited: seq<Vertex>)
    returns (result: seq<Vertex>)
    requires stack.Valid() && stack.Contents == []
    requires Closed(g, Elements<Vertex>([]))
    requires forall i :: 0 <= i < |order| ==> order[i] in Candidates(g)
    requires root in Candidates(g) && visited == DfsFrom(g, order, [])
    modifies stack
    ensures stack.Valid() && stack.Contents == []
    ensures result == DfsFrom(g, order + [root], [])
  {
    stack.Push(root);
    DfsFromSnoc(g, order, root);
    result := RecursiveDfsCall(g, stack, visited);
  }

  /** recursiveDfsCall: on a non-empty stack, pop and expand the top vertex
      with a new holding stack, and recurse; on an empty stack return the
      record unchanged. */
  method RecursiveDfsCall(g: Graph, stack: Stack<Vertex>, visited: seq<Vertex>) returns (result: seq<Vertex>)
    requires stack.Valid() && DfsInv(g, stack.Contents, visited)
    modifies stack
    ensures stack.Valid() && stack.Contents == []
    ensures result == DfsDrain(g, old(stack.Contents), visited)
    decreases |Candidates(g) - Elements(visited)|, |stack.Contents|
  {
    result := visited;
    var empty := stack.IsEmpty();
    if !empty {
      var holdingStack := new Stack<Vertex>();
      DfsDrainStep(g, stack.Contents, result, Successors(g, stack.Contents[0]));
      result := Expand(g, stack, holdingStack, result);
      result := RecursiveDfsCall(g, stack, result);
    }
  }

  /** recursiveDepthFirstSearch: roots ascending; each is pushed and
      recursiveDfsCall drains the stack. */
  method RecursiveDepthFirstSearch(g: Graph) returns (visited: seq<Vertex>)
    ensures visited == Dfs(g)
  {
    var roots := GetRoots(g);
    RootsAreCandidates(g);
    visited := RecursiveDfsRoots(g, roots);
  }

  /** The loop of recursiveDepthFirstSearch over the roots, with one stack
      shared by all of them. */
  method RecursiveDfsRoots(g: Graph, roots: seq<Vertex>) returns (visited: seq<Vertex>)
    requires forall i :: 0 <= i < |roots| ==> roots[i] in Candidates(g)
    ensures Closed(g, Elements<Vertex>([])) && visited == DfsFrom(g, roots, [])
  {
    assert forall u :: u !in Elements<Vertex>([]);
    var stack := new Stack<Vertex>();
    visited := [];
    for i := 0 to |roots|
      invariant stack.Valid() && stack.Contents == []
      invariant visited == DfsFrom(g, roots[..i], [])
    {
      var currentRoot := roots[i];
      visited := DrainFromRootRecursively(g, stack, roots[..i], currentRoot, visited);
      PrefixSnoc(roots, i);
    }
    assert roots[..|roots|] == roots;
  }
}
