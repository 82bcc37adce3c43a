# graph-calculator: a verified model of the relation graph and its containers

The repository implements a directed graph over numeric vertex labels. The
graph is built once from a vertex set and an edge set. It then answers
questions about the edge relation: is it reflexive, symmetric, transitive,
antisymmetric, an equivalence? It computes equivalence classes and roots,
and produces four traversal orders: breadth-first and depth-first, each
iterative and recursive. The traversals run on three hand-written linked
containers: a queue, a stack and a doubly linked list.

This Dafny project models that core, one module per concern:

- `Edges` (`edges.dfy`): the edge value, its accessors and its equality.
- `Ordering` (`ordering.dfy`): the least element of a set (`getMinimum`)
  and a set listed in ascending order (the iteration order of a `TreeSet`).
- `Graphs` (`graphs.dfy`): the graph value and the relation checks.
  - Each check is a loop method over the sets, proved equal to a quantified
    predicate.
  - The module also holds equivalence classes, `getRoots` and
    `findAllDestinations`.
- `Nodes`, `Queues`, `Stacks`, `LinkedLists`: the containers.
  - Each is a class over real `Node` objects, whose links the methods
    rewire in place.
  - A ghost sequence `Contents` tracks the elements, and a ghost sequence
    of nodes tracks the chain.
  - A `Valid()` invariant ties both to the fields.
- `Traversals` (`traversals.dfy`): each visit order is defined as a ghost
  function that takes the same steps as the Java loop, one dequeue or pop
  at a time.
  - The depth-first definition carries the invariant that makes it
    terminate. A popped vertex that is already recorded is still expanded,
    so termination needs an argument.
- `BreadthFirst`, `DepthFirst`: the four traversal methods on the
  container classes. Each is proved to return exactly the order its
  definition gives.
  - Both breadth-first methods return `Bfs(g)`.
  - The recursive depth-first method returns `Dfs(g)`.
  - The iterative depth-first method returns `DfsFrom(g, order, [])` for
    some enumeration `order` of the root set, because its roots come out of
    a `HashSet`.
  - So the iterative and recursive versions agree whenever they process the
    roots in the same order.
- `TraversalProperties` (`traversal_properties.dfy`): what the traversals
  promise beyond their definitions.
  - No vertex is recorded twice. This holds even though breadth-first
    search records each root without checking it.
  - Every traversal, in every root order, records the same set: the least
    set that holds the roots and that no edge leaves.

Vertices are `int`. HashSet iteration is an arbitrary choice (`:|`), so
every proof holds for every iteration order. Where the source depends on an
order (TreeSet iteration, a minimum), the model uses ascending integer
order.

Where the code and its design description differ, the model follows the
code:

- `isAntiSymmetric` rejects self-loops. See "Findings".
- Both breadth-first methods enqueue and record every root without a
  visited check (Graph.java:165-167, 226-228). `BfsNoDuplicates` shows that
  no root is recorded twice anyway. Two distinct roots are never joined by
  an edge (`RootsUnlinked`), and a later root is never reachable from an
  earlier one.
- The depth-first searches push the unrecorded successors onto a holding
  stack in ascending order and unload it onto the stack. This puts the
  smallest successor on top.
- A popped vertex that is already recorded is still expanded. `DfsStep`
  shows that such an expansion pushes nothing.

## Model

| member | source | states |
|---|---|---|
| Edges.Edge.Source | src/main/java/nz/ac/auckland/se281/datastructures/Edge.java:32-34 | getSource returns the first constructor argument: the edge is rebuilt from it and its destination |
| Edges.Edge.Destination | src/main/java/nz/ac/auckland/se281/datastructures/Edge.java:41-43 | getDestination returns the second constructor argument |
| Edges.Edge.Reversed | src/main/java/nz/ac/auckland/se281/datastructures/Graph.java:99 | the opposite edge (built here and again at line 126) swaps the endpoints back to the edge, and equals the edge exactly when the edge is a self-loop (the fact behind the isAntiSymmetric finding) |
| Edges.ReversedInvolution | src/main/java/nz/ac/auckland/se281/datastructures/Graph.java:99 | reversing an edge twice gives the edge back |
| Edges.Equals | src/main/java/nz/ac/auckland/se281/datastructures/Edge.java:66-82 | equals, the identity shortcut followed by the componentwise test, holds exactly when the two edges are equal values |
| Edges.ConstructorAccessors | src/main/java/nz/ac/auckland/se281/datastructures/Edge.java:22-42 | the accessors return exactly the constructor arguments |
| Edges.EqualsIsComponentwise | src/main/java/nz/ac/auckland/se281/datastructures/Edge.java:66-82 | equals holds iff sources and destinations are equal, i.e. iff the two edge values are equal (what set membership of edges relies on) |
| Edges.EqualsReflexive | src/main/java/nz/ac/auckland/se281/datastructures/Edge.java:68-70 | an edge equals itself |
| Edges.EqualsSymmetric | src/main/java/nz/ac/auckland/se281/datastructures/Edge.java:78-81 | e1 equals e2 iff e2 equals e1 |
| Ordering.Min | src/main/java/nz/ac/auckland/se281/datastructures/Graph.java:300-308 | a non-empty set has a member that is at most every member |
| Ordering.GetMinimum | src/main/java/nz/ac/auckland/se281/datastructures/Graph.java:300-308 | getMinimum returns None (null) exactly for the empty set, and otherwise a member that is at most every member |
| Ordering.Sorted | src/main/java/nz/ac/auckland/se281/datastructures/Graph.java:58-71 | the ascending listing has exactly the set's elements and is strictly ascending |
| Ordering.SortedUnique | src/main/java/nz/ac/auckland/se281/datastructures/Graph.java:58-71 | any strictly ascending sequence with the set's elements is that listing |
| Ordering.SortedElements | src/main/java/nz/ac/auckland/se281/datastructures/Graph.java:69 | copying a set into a TreeSet and iterating it yields the ascending listing |
| Graphs.IsReflexive | src/main/java/nz/ac/auckland/se281/datastructures/Graph.java:74-92 | isReflexive is true iff every vertex has its self-loop (so true with no vertices) |
| Graphs.IsSymmetric | src/main/java/nz/ac/auckland/se281/datastructures/Graph.java:94-107 | isSymmetric is true iff every edge's reverse is an edge |
| Graphs.IsTransitive | src/main/java/nz/ac/auckland/se281/datastructures/Graph.java:109-121 | isTransitive is true iff for every edge (a,b) and vertex c, (b,c) implies (a,c) |
| Graphs.TransitiveIffComposition | src/main/java/nz/ac/auckland/se281/datastructures/Graph.java:109-121 | when edge endpoints are vertices, the check is the usual composition law |
| Graphs.IsAntiSymmetric | src/main/java/nz/ac/auckland/se281/datastructures/Graph.java:123-134 | as written: true iff no edge has its reverse in the set, self-loops included |
| Graphs.SelfLoopRejected | src/main/java/nz/ac/auckland/se281/datastructures/Graph.java:128 | one vertex with its self-loop is antisymmetric, yet the check as written rejects it |
| Graphs.AntiSymmetricAsWrittenMeaning | src/main/java/nz/ac/auckland/se281/datastructures/Graph.java:123-134 | the check as written decides antisymmetry together with the absence of self-loops |
| Graphs.IsAntiSymmetricByValue | src/main/java/nz/ac/auckland/se281/datastructures/Graph.java:123-134 | with `!=` by value the check is the usual antisymmetry |
| Graphs.IsEquivalence | src/main/java/nz/ac/auckland/se281/datastructures/Graph.java:136-141 | isEquivalence is reflexive and symmetric and transitive |
| Graphs.IsSameEquivalenceClass | src/main/java/nz/ac/auckland/se281/datastructures/Graph.java:285-298 | true iff the relation is an equivalence and the two vertices are related both ways |
| Graphs.GetEquivalenceClass | src/main/java/nz/ac/auckland/se281/datastructures/Graph.java:143-152 | the class is the set of vertices related both ways to the given vertex |
| Graphs.ClassEmptyUnlessEquivalence | src/main/java/nz/ac/auckland/se281/datastructures/Graph.java:288-290 | without an equivalence every class is empty |
| Graphs.ClassContains | src/main/java/nz/ac/auckland/se281/datastructures/Graph.java:143-152 | under an equivalence a vertex is in its own class |
| Graphs.ClassOfMember | src/main/java/nz/ac/auckland/se281/datastructures/Graph.java:143-152 | every member of a class has that same class |
| Graphs.ClassesEqualOrDisjoint | src/main/java/nz/ac/auckland/se281/datastructures/Graph.java:143-152 | two classes are equal or disjoint |
| Graphs.RemoveDestinations | src/main/java/nz/ac/auckland/se281/datastructures/Graph.java:41-48 | removing every edge destination from the vertex set leaves the in-degree-0 vertices |
| Graphs.AddClassMinima | src/main/java/nz/ac/auckland/se281/datastructures/Graph.java:50-56 | under an equivalence the least vertex of every class is added |
| Graphs.GetRoots | src/main/java/nz/ac/auckland/se281/datastructures/Graph.java:40-72 | getRoots lists the root set in ascending order |
| Graphs.RootsCharacterised | src/main/java/nz/ac/auckland/se281/datastructures/Graph.java:40-72 | a vertex is a root iff it has no incoming edge, or the relation is an equivalence and it is the least of its class |
| Graphs.RootsUnlinked | src/main/java/nz/ac/auckland/se281/datastructures/Graph.java:40-56 | no edge joins two different roots |
| Graphs.SuccessorsAreEdges | src/main/java/nz/ac/auckland/se281/datastructures/Graph.java:327-338 | the successors of v are exactly the d with (v,d) an edge, strictly ascending |
| Graphs.FindAllDestinations | src/main/java/nz/ac/auckland/se281/datastructures/Graph.java:327-338 | findAllDestinations yields the successors of the vertex in ascending order |
| Queues.Queue.constructor | src/main/java/nz/ac/auckland/se281/datastructures/Queue.java:14-16 | a new queue is empty |
| Queues.Queue.Enqueue | src/main/java/nz/ac/auckland/se281/datastructures/Queue.java:23-37 | the element joins at the rear, the rest unchanged |
| Queues.Queue.Dequeue | src/main/java/nz/ac/auckland/se281/datastructures/Queue.java:44-59 | on a non-empty queue the front node is returned and removed; on an empty one null is returned and nothing changes |
| Queues.Queue.Peek | src/main/java/nz/ac/auckland/se281/datastructures/Queue.java:66-68 | peek returns the front element of a non-empty queue without changing it |
| Queues.Queue.IsEmpty | src/main/java/nz/ac/auckland/se281/datastructures/Queue.java:75-77 | isEmpty iff there are no elements |
| Queues.Queue.GetSize | src/main/java/nz/ac/auckland/se281/datastructures/Queue.java:84-86 | getSize is the number of elements |
| Queues.DrainThenRefill | src/main/java/nz/ac/auckland/se281/datastructures/Queue.java:27-56 | dequeuing the only element returns its node and leaves the queue empty, and the next enqueue makes the new element the whole queue and its front |
| Stacks.ReverseReverse | src/main/java/nz/ac/auckland/se281/datastructures/Graph.java:205-211 | reversing twice restores the order, which is why the holding stack leaves the smallest successor on top |
| Stacks.Stack.constructor | src/main/java/nz/ac/auckland/se281/datastructures/Stack.java:13-15 | a new stack is empty |
| Stacks.Stack.Push | src/main/java/nz/ac/auckland/se281/datastructures/Stack.java:22-31 | the element goes on top of the old contents |
| Stacks.Stack.Pop | src/main/java/nz/ac/auckland/se281/datastructures/Stack.java:38-48 | on a non-empty stack the top element is returned and removed; on an empty one None (null) and no change |
| Stacks.Stack.Peek | src/main/java/nz/ac/auckland/se281/datastructures/Stack.java:55-61 | the top element, or None on an empty stack; nothing changes |
| Stacks.Stack.Size | src/main/java/nz/ac/auckland/se281/datastructures/Stack.java:68-70 | size is the number of elements |
| Stacks.Stack.IsEmpty | src/main/java/nz/ac/auckland/se281/datastructures/Stack.java:77-79 | isEmpty iff there are no elements |
| Stacks.Stack.UnloadStackOnto | src/main/java/nz/ac/auckland/se281/datastructures/Stack.java:86-91 | this stack ends empty and its elements lie reversed on top of the receiver's unchanged old contents |
| Stacks.PushThenPop | src/main/java/nz/ac/auckland/se281/datastructures/Stack.java:22-48 | pop right after push returns the pushed element and restores the previous contents |
| LinkedLists.LinkedList.constructor | src/main/java/nz/ac/auckland/se281/datastructures/LinkedList.java:17-19 | a new list is empty |
| LinkedLists.LinkedList.Add | src/main/java/nz/ac/auckland/se281/datastructures/LinkedList.java:26-41 | the element is appended at the end |
| LinkedLists.LinkedList.NodeAt | src/main/java/nz/ac/auckland/se281/datastructures/LinkedList.java:50-53 | following `index` links from the head reaches the node at that position |
| LinkedLists.LinkedList.Get | src/main/java/nz/ac/auckland/se281/datastructures/LinkedList.java:49-56 | get(i) is the i-th element |
| LinkedLists.LinkedList.Insert | src/main/java/nz/ac/auckland/se281/datastructures/LinkedList.java:64-81 | insert(i, x) for 1 <= i < size puts x at position i and shifts the later elements right |
| LinkedLists.LinkedList.LinkIn | src/main/java/nz/ac/auckland/se281/datastructures/LinkedList.java:72-80 | the four link updates splice the new node between positions i-1 and i and keep the chain valid |
| LinkedLists.LinkedList.Remove | src/main/java/nz/ac/auckland/se281/datastructures/LinkedList.java:88-114 | remove(i) deletes the i-th element and keeps the order of the rest |
| LinkedLists.LinkedList.Size | src/main/java/nz/ac/auckland/se281/datastructures/LinkedList.java:121-123 | size is the number of elements |
| LinkedLists.LinkedList.IsEmpty | src/main/java/nz/ac/auckland/se281/datastructures/LinkedList.java:130-132 | isEmpty iff there are no elements |
| LinkedLists.LinkedList.IndexOf | src/main/java/nz/ac/auckland/se281/datastructures/LinkedList.java:140-155 | the position of the first equal element, or -1 exactly when none is equal (including the empty list) |
| Traversals.Unvisited | src/main/java/nz/ac/auckland/se281/datastructures/Graph.java:173-178 | the destinations kept are exactly those not yet recorded |
| Traversals.UnvisitedNoDuplicates | src/main/java/nz/ac/auckland/se281/datastructures/Graph.java:173-178 | filtering duplicate-free successors leaves them duplicate-free |
| Traversals.BfsDrain | src/main/java/nz/ac/auckland/se281/datastructures/Graph.java:169-179 | reference definition of the inner queue loop: dequeue the front, record and enqueue each unrecorded successor in ascending order; it terminates, and its properties are proved in TraversalProperties.BfsDrainGuarded, BfsDrainClosed and BfsDrainWithin |
| Traversals.BfsFrom | src/main/java/nz/ac/auckland/se281/datastructures/Graph.java:165-180 | reference definition of the root loop: each root is recorded unchecked, enqueued and the queue drained; TraversalProperties.BfsFromGuarded and BfsFromLeast state what it records |
| Traversals.Bfs | src/main/java/nz/ac/auckland/se281/datastructures/Graph.java:157-183 | the breadth-first order of both searches, roots ascending; TraversalProperties.BfsNoDuplicates and BfsFromLeast show it records each vertex reachable from a root exactly once |
| Traversals.DfsStep | src/main/java/nz/ac/auckland/se281/datastructures/Graph.java:197-212 | one pop keeps the termination invariant; popping a recorded vertex pushes nothing, and popping a new one shrinks the unrecorded set |
| Traversals.DfsDrain | src/main/java/nz/ac/auckland/se281/datastructures/Graph.java:197-212 | draining the stack terminates and leaves a record that no edge leaves |
| Traversals.DfsFrom | src/main/java/nz/ac/auckland/se281/datastructures/Graph.java:194-213 | processing the roots leaves a record that no edge leaves |
| Traversals.Dfs | src/main/java/nz/ac/auckland/se281/datastructures/Graph.java:250-261 | the depth-first order of recursiveDepthFirstSearch, roots ascending, leaves a record that no edge leaves; TraversalProperties.DfsNoDuplicates and DfsFromLeast add that it records each vertex reachable from a root exactly once |
| BreadthFirst.EnqueueUnvisited | src/main/java/nz/ac/auckland/se281/datastructures/Graph.java:173-178 | every unrecorded destination, in ascending order, is both recorded and enqueued |
| BreadthFirst.VisitFront | src/main/java/nz/ac/auckland/se281/datastructures/Graph.java:170-178 | one dequeue: the front leaves the queue and its unrecorded successors are recorded and enqueued |
| BreadthFirst.DrainQueue | src/main/java/nz/ac/auckland/se281/datastructures/Graph.java:169-179 | the inner loop empties the queue and returns the breadth-first drain |
| BreadthFirst.IterativeBfsRoots | src/main/java/nz/ac/auckland/se281/datastructures/Graph.java:165-180 | processing the roots in order yields the breadth-first order from them |
| BreadthFirst.IterativeBreadthFirstSearch | src/main/java/nz/ac/auckland/se281/datastructures/Graph.java:157-183 | iterativeBreadthFirstSearch returns the breadth-first order Bfs(g) |
| BreadthFirst.RecursiveBfsCall | src/main/java/nz/ac/auckland/se281/datastructures/Graph.java:234-248 | the recursion empties the queue and returns the same drain as the loop |
| BreadthFirst.RecursiveBfsRoots | src/main/java/nz/ac/auckland/se281/datastructures/Graph.java:226-230 | processing the roots in order yields the breadth-first order from them |
| BreadthFirst.RecursiveBreadthFirstSearch | src/main/java/nz/ac/auckland/se281/datastructures/Graph.java:218-232 | recursiveBreadthFirstSearch returns Bfs(g), so it agrees with the iterative version |
| DepthFirst.PushUnvisited | src/main/java/nz/ac/auckland/se281/datastructures/Graph.java:205-209 | the unrecorded destinations are pushed in ascending order, so the greatest ends on top |
| DepthFirst.Expand | src/main/java/nz/ac/auckland/se281/datastructures/Graph.java:198-211 | one pop records the vertex if new and leaves its unrecorded successors on the stack, smallest on top |
| DepthFirst.DrainStack | src/main/java/nz/ac/auckland/se281/datastructures/Graph.java:197-212 | the inner loop empties the stack and returns the depth-first drain |
| DepthFirst.DrainFromRoot | src/main/java/nz/ac/auckland/se281/datastructures/Graph.java:195-212 | one pass of the root loop: pushing the root and draining the stack extends the record to the depth-first order of the roots so far plus this one, and leaves both stacks empty |
| DepthFirst.RootOrderStep | src/main/java/nz/ac/auckland/se281/datastructures/Graph.java:194 | taking one more root from the HashSet keeps the order duplicate-free and listing exactly the roots already taken |
| DepthFirst.IterativeDfsRoots | src/main/java/nz/ac/auckland/se281/datastructures/Graph.java:194-213 | whatever order the HashSet of roots yields, the result is the depth-first order for that enumeration of the roots |
| DepthFirst.IterativeDepthFirstSearch | src/main/java/nz/ac/auckland/se281/datastructures/Graph.java:185-216 | iterativeDepthFirstSearch returns the depth-first order for some enumeration of the root set; it records no vertex twice, and records exactly the vertices the recursive depth-first and the breadth-first searches record |
| DepthFirst.RecursiveDfsCall | src/main/java/nz/ac/auckland/se281/datastructures/Graph.java:263-283 | the recursion empties the stack and returns the same drain as the loop |
| DepthFirst.DrainFromRootRecursively | src/main/java/nz/ac/auckland/se281/datastructures/Graph.java:257-258 | one pass of the recursive root loop: pushing the root and letting recursiveDfsCall drain the stack extends the record by that root's depth-first drain |
| DepthFirst.RecursiveDfsRoots | src/main/java/nz/ac/auckland/se281/datastructures/Graph.java:256-259 | processing the roots in order yields the depth-first order from them |
| DepthFirst.RecursiveDepthFirstSearch | src/main/java/nz/ac/auckland/se281/datastructures/Graph.java:250-261 | recursiveDepthFirstSearch returns Dfs(g), the depth-first order with the roots ascending |
| TraversalProperties.BfsDrainGuarded | src/main/java/nz/ac/auckland/se281/datastructures/Graph.java:169-179 | draining the queue records nothing twice and never reaches a root still to come |
| TraversalProperties.BfsFromGuarded | src/main/java/nz/ac/auckland/se281/datastructures/Graph.java:165-180 | processing distinct roots, each recorded unchecked, records nothing twice |
| TraversalProperties.BfsNoDuplicates | src/main/java/nz/ac/auckland/se281/datastructures/Graph.java:157-183 | breadth-first search records no vertex twice |
| TraversalProperties.DfsDrainNoDuplicates | src/main/java/nz/ac/auckland/se281/datastructures/Graph.java:197-212 | draining the stack records no vertex twice |
| TraversalProperties.DfsFromNoDuplicates | src/main/java/nz/ac/auckland/se281/datastructures/Graph.java:194-213 | depth-first search in any root order records no vertex twice |
| TraversalProperties.DfsNoDuplicates | src/main/java/nz/ac/auckland/se281/datastructures/Graph.java:185-283 | both depth-first searches record no vertex twice |
| TraversalProperties.BfsDrainClosed | src/main/java/nz/ac/auckland/se281/datastructures/Graph.java:169-179 | a drained queue leaves a record that no edge leaves, containing the old record |
| TraversalProperties.BfsDrainWithin | src/main/java/nz/ac/auckland/se281/datastructures/Graph.java:169-179 | draining the queue stays within every closed set holding the queue and the record |
| TraversalProperties.BfsFromLeast | src/main/java/nz/ac/auckland/se281/datastructures/Graph.java:165-180 | breadth-first search records exactly the least closed set holding the roots |
| TraversalProperties.DfsDrainWithin | src/main/java/nz/ac/auckland/se281/datastructures/Graph.java:197-212 | draining the stack stays within every closed set holding the stack and the record |
| TraversalProperties.DfsDrainKeeps | src/main/java/nz/ac/auckland/se281/datastructures/Graph.java:197-212 | draining the stack keeps the record and records the vertex on top |
| TraversalProperties.DfsFromLeast | src/main/java/nz/ac/auckland/se281/datastructures/Graph.java:194-213 | depth-first search in any root order records exactly the least closed set holding the roots |
| TraversalProperties.TraversalsAgree | src/main/java/nz/ac/auckland/se281/datastructures/Graph.java:157-283 | all four traversals record the same vertices, whatever the iterative depth-first root order |

## Left out

- `toString` of the list and the queue: building strings from arbitrary element `toString`s is not modelled.
- The diagnostic `System.out.println` calls in `dequeue`, `pop`, `peek` and `indexOf` are I/O. Only the return values are modelled.
- `Edge.hashCode` is 32-bit arithmetic over foreign hash codes and serves only Java's hash sets. Dafny sets need no hash.
- The `adjacencyMap` that the `Graph` constructor builds is never read afterwards, so it is not modelled. `Graph` is the plain value of its vertex and edge sets.
- The constructor does not check that edge endpoints are vertices. The model accepts such graphs too. Only `Graphs.TransitiveIffComposition` requires well-formedness (`WellFormed`).
- `Node`'s getters and setters are plain field reads and writes on `Nodes.Node`.
- Labels are numeric strings in the source. The model uses the integers they spell, with one total order.
  - `getRoots` sorts by `Integer.parseInt`, but `getMinimum`, the `TreeSet` copies of the roots and `findAllDestinations` use `String.compareTo`, which is lexicographic.
  - So the model is faithful only when every label is an unsigned string of decimal digits (no minus sign) and all labels have the same length. A sign breaks the agreement: for the labels "-1" and "-2", `String.compareTo` puts "-1" first, while the model puts -2 first.
  - Parse errors of `Integer.parseInt` are out of scope.
- Strings are compared with `==` in `isReflexive` and `findAllDestinations`, which is reference identity in Java. The model compares labels by value.
- HashSet iteration order is an arbitrary choice in the model. The proofs hold for every order. `iterativeDepthFirstSearch` is specified only up to its root order, which comes from a HashSet.
- The depth of recursion (stack overflow) in the recursive traversals is not modelled.
- Integer overflow of the `size` counters is not modelled.
- Queues.Queue.Peek: the Java `peek` dereferences `front` on an empty queue and throws. The model requires a non-empty queue instead of modelling the exception.
- LinkedLists.LinkedList.Get: the Java code has no bounds check. A negative index skips the walk: on a non-empty list it returns the head's element, and on an empty list it dereferences the head, which is null unless a stale link left by removing the head or tail put a removed node there (after `add(a)`, `add(b)`, `remove(1)`, `remove(0)` the empty list's head is `b`, and `get(0)` returns `b`). An index of `size` or more walks past the tail: that dereferences null, or, after the tail was removed, follows the stale `next` link and returns a removed element. The model requires `0 <= index < size`.
- LinkedLists.LinkedList.Insert: the Java code has no bounds check. At index 0 (or a negative index) it uses the head's `prev` link. At index `size` it uses the node after the tail. On a list whose head or tail was never removed, these are null and the call throws NullPointerException. After `remove(0)`, or after the tail was removed, they are stale links, and the call splices the new node next to a removed node without updating `head` or `tail` while still incrementing `size`, so the list is corrupted. The model requires `1 <= index < size`.
- LinkedLists.LinkedList.Remove: the Java code has no bounds check. On an empty list, index 0 dereferences the head, which is null unless a stale link left by removing the head or tail put a removed node there; in that case it moves `head` on and sets `size` to -1 without an exception. Index -1 on an empty list counts as the last position: it dereferences a null tail or, if the list held elements before, moves the stale `tail` back and sets `size` to -1. Any other negative index takes the head as the node to remove and relinks around it through the head's `prev` link, without updating `head`. An index past the end walks beyond the tail. Each of these dereferences null or follows the stale links described in the next line, corrupting the list. The model requires `0 <= index < size`.
- LinkedLists.LinkedList.Remove: after removing the head or the tail, the Java code leaves the stale `prev` of the new head and `next` of the new tail in place. The list invariant constrains neither link.
- Stacks.Stack.UnloadStackOnto requires `receiver != this`. Unloading a stack onto itself is not covered by the contract, although it pops the top element and pushes it back, `size` times, leaving the contents unchanged.
- Stacks.Stack.UnloadStackOnto does not promise that the receiver's nodes are fresh. These nodes matter for aliasing only.
- The inner loops of the traversals and the two loops of `getRoots` are separate helper methods in the model: `VisitFront`, `DrainQueue`, `IterativeBfsRoots`, `Expand`, `DrainStack`, `DrainFromRoot`, `DrainFromRootRecursively`, `RemoveDestinations`, `AddClassMinima` and others. Their steps are those of the Java loops.

## Findings

| source | as written | input that shows it | evidently intended | confidence | as-written member | corrected member |
|---|---|---|---|---|---|---|
| src/main/java/nz/ac/auckland/se281/datastructures/Graph.java:128 | `edge != edgeB` compares the edge with a freshly built reverse by reference, so it always holds and any edge whose reverse is present makes `isAntiSymmetric` false, self-loops included | vertices {1}, edges {(1,1)}: antisymmetric, but the check returns false | the comparison by value, so that a self-loop is not its own violation | not executed | Graphs.IsAntiSymmetric (with Graphs.SelfLoopRejected) | Graphs.IsAntiSymmetricByValue (with Graphs.AntiSymmetricAsWrittenMeaning) |
