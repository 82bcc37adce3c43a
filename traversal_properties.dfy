/** What the four traversals promise beyond their step-by-step definition:
    no vertex is recorded twice, and breadth-first and depth-first search,
    whatever the root order, record the same vertices: the smallest set that
    holds the roots and that no edge leaves. */
module TraversalProperties {

  import opened Edges
  import opened Collections
  import opened Ordering
  import opened Graphs
  import opened Traversals

  // ---------------------------------------------------------------------
  // No vertex twice

  /** A later root cannot be reached: either nothing points at it, or the
      relation is transitive and it is a vertex, so a path to it would
      shorten to one edge. */
  ghost predicate Shielded(g: Graph, r: Vertex)
  {
    (forall e :: e in g.edges ==> e.destination != r) || (Transitive(g) && r in g.vertices)
  }

  /** No element of `s` is a vertex of `later`, or has an edge to one. */
  ghost predicate Guards(g: Graph, s: seq<Vertex>, later: set<Vertex>)
  {
    forall u, r :: u in s && r in later ==> u != r && Edge(u, r) !in g.edges
  }

  /** Every root is shielded. */
  lemma RootsShielded(g: Graph, later: set<Vertex>)
    requires later <= RootSet(g)
    ensures forall r :: r in later ==> Shielded(g, r)
  {
    forall r | r in later ensures Shielded(g, r) {
      RootsCharacterised(g, r);
    }
  }

  /** Recording the unrecorded elements of a duplicate-free sequence keeps
      the record duplicate-free. */
  lemma AddedNoDuplicates(ds: seq<Vertex>, visited: seq<Vertex>)
    requires NoDuplicates(ds) && NoDuplicates(visited)
    ensures NoDuplicates(visited + Unvisited(ds, visited))
  {
    UnvisitedNoDuplicates(ds, visited);
    NoDuplicatesAppend(visited, Unvisited(ds, visited));
  }

  /** A successor of a vertex with no edge to a shielded root is not that
      root and has no edge to it either. */
  lemma SuccessorShielded(g: Graph, x: Vertex, u: Vertex, r: Vertex)
    requires Edge(x, u) in g.edges && Edge(x, r) !in g.edges && Shielded(g, r)
    ensures u != r && Edge(u, r) !in g.edges
  {
    if !(forall e :: e in g.edges ==> e.destination != r) {
      var e := Edge(x, u);
      assert e in g.edges && e.destination == u && r in g.vertices;
    }
  }

  /** The successors of a guarded vertex are guarded too and are not
      recorded twice. */
  lemma SuccessorsGuarded(g: Graph, x: Vertex, visited: seq<Vertex>, later: set<Vertex>)
    requires x in visited && NoDuplicates(visited) && Guards(g, visited, later)
    requires forall r :: r in later ==> Shielded(g, r)
    ensures var added := Unvisited(Successors(g, x), visited);
      NoDuplicates(visited + added) && Guards(g, visited + added, later)
  {
    var added := Unvisited(Successors(g, x), visited);
    SuccessorsAreEdges(g, x);
    AddedNoDuplicates(Successors(g, x), visited);
    forall u, r | u in added && r in later ensures u != r && Edge(u, r) !in g.edges {
      SuccessorShielded(g, x, u, r);
    }
    GuardsAppend(g, visited, added, later);
  }

  lemma GuardsAppend(g: Graph, s: seq<Vertex>, t: seq<Vertex>, later: set<Vertex>)
    requires Guards(g, s, later) && Guards(g, t, later)
    ensures Guards(g, s + t, later)
  {
  }

  /** Draining the queue records no vertex twice and keeps the later roots
      out of reach. */
  lemma {:induction false} BfsDrainGuarded(g: Graph, queue: seq<Vertex>, visited: seq<Vertex>, later: set<Vertex>)
    requires NoDuplicates(visited) && Guards(g, visited, later)
    requires forall i :: 0 <= i < |queue| ==> queue[i] in visited
    requires forall r :: r in later ==> Shielded(g, r)
    ensures NoDuplicates(BfsDrain(g, queue, visited)) && Guards(g, BfsDrain(g, queue, visited), later)
    decreases |Candidates(g) - Elements(visited)|, |queue|
  {
    if queue != [] {
      var x := queue[0];
      var added := Unvisited(Successors(g, x), visited);
      SuccessorsAreCandidates(g, x);
      Progress(g, visited, added);
      SuccessorsGuarded(g, x, visited, later);
      var queue' := queue[1..] + added;
      forall i | 0 <= i < |queue'| ensures queue'[i] in visited + added {
        if i < |queue| - 1 {
          assert queue'[i] == queue[i + 1];
        } else {
          assert queue'[i] in added;
        }
      }
      BfsDrainGuarded(g, queue', visited + added, later);
    }
  }

  /** Recording a root keeps the record free of duplicates and keeps the
      roots still to come out of reach. */
  lemma RootGuarded(g: Graph, before: seq<Vertex>, root: Vertex, later: set<Vertex>)
    requires NoDuplicates(before) && Guards(g, before, later + {root})
    requires root in RootSet(g) && root !in later && later <= RootSet(g)
    ensures NoDuplicates(before + [root]) && Guards(g, before + [root], later)
    ensures forall r :: r in later ==> Shielded(g, r)
  {
    NoDuplicatesAppend(before, [root]);
    forall r | r in later ensures root != r && Edge(root, r) !in g.edges {
      RootsUnlinked(g, root, r);
    }
    RootsShielded(g, later);
  }

  /** Processing distinct roots records no vertex twice and keeps the roots
      still to come out of reach. */
  lemma {:induction false} BfsFromGuarded(g: Graph, roots: seq<Vertex>, later: set<Vertex>)
    requires NoDuplicates(roots)
    requires forall i :: 0 <= i < |roots| ==> roots[i] in RootSet(g) && roots[i] !in later
    requires later <= RootSet(g)
    ensures NoDuplicates(BfsFrom(g, roots, [])) && Guards(g, BfsFrom(g, roots, []), later)
  {
    if roots != [] {
      var init, root := roots[..|roots| - 1], roots[|roots| - 1];
      forall i | 0 <= i < |init| ensures init[i] in RootSet(g) && init[i] !in later + {root} {
        assert init[i] == roots[i];
      }
      BfsFromGuarded(g, init, later + {root});
      var before := BfsFrom(g, init, []);
      RootGuarded(g, before, root, later);
      BfsDrainGuarded(g, [root], before + [root], later);
    }
  }

  /** Breadth-first search records no vertex twice, although each root is
      recorded without a check. */
  lemma BfsNoDuplicates(g: Graph)
    ensures NoDuplicates(Bfs(g))
  {
    AscendingNoDuplicates(Sorted(RootSet(g)));
    BfsFromGuarded(g, Sorted(RootSet(g)), {});
  }

  /** Draining the stack records a vertex only when it is new. */
  lemma {:induction false} DfsDrainNoDuplicates(g: Graph, stack: seq<Vertex>, visited: seq<Vertex>)
    requires DfsInv(g, stack, visited) && NoDuplicates(visited)
    ensures NoDuplicates(DfsDrain(g, stack, visited))
    decreases |Candidates(g) - Elements(visited)|, |stack|
  {
    if stack != [] {
      var x := stack[0];
      DfsStep(g, stack, visited);
      if x !in visited {
        NoDuplicatesAppend(visited, [x]);
      }
      DfsDrainNoDuplicates(g, Unvisited(Successors(g, x), Record(visited, x)) + stack[1..], Record(visited, x));
    }
  }

  /** Depth-first search, in any root order, records no vertex twice. */
  lemma {:induction false} DfsFromNoDuplicates(g: Graph, roots: seq<Vertex>)
    requires forall i :: 0 <= i < |roots| ==> roots[i] in Candidates(g)
    ensures Closed(g, Elements<Vertex>([])) && NoDuplicates(DfsFrom(g, roots, []))
  {
    assert forall u :: u !in Elements<Vertex>([]);
    if roots != [] {
      var init := roots[..|roots| - 1];
      DfsFromNoDuplicates(g, init);
      DfsStart(g, roots[|roots| - 1], DfsFrom(g, init, []));
      DfsDrainNoDuplicates(g, [roots[|roots| - 1]], DfsFrom(g, init, []));
    }
  }

  /** The recursive depth-first order, and the iterative one for any
      enumeration of the roots, record no vertex twice. */
  lemma DfsNoDuplicates(g: Graph, order: seq<Vertex>, visited: seq<Vertex>)
    requires DfsInOrder(g, order, visited)
    ensures NoDuplicates(Dfs(g)) && NoDuplicates(visited)
  {
    RootsAreCandidates(g);
    DfsFromNoDuplicates(g, Sorted(RootSet(g)));
    RootOrderStarts(g, order);
    DfsFromNoDuplicates(g, order);
  }

  // ---------------------------------------------------------------------
  // The same vertices in every traversal

  /** The smallest set holding the roots that no edge leaves is contained
      in every such set: `s` holds the roots, no edge leaves it, and it lies
      within every other set of that kind. */
  ghost predicate LeastClosed(g: Graph, s: set<Vertex>, roots: set<Vertex>)
  {
    && roots <= s && Closed(g, s)
    && forall c :: roots <= c && Closed(g, c) ==> s <= c
  }

  /** Two least closed sets over the same roots are equal. */
  lemma LeastClosedUnique(g: Graph, s: set<Vertex>, t: set<Vertex>, roots: set<Vertex>)
    requires LeastClosed(g, s, roots) && LeastClosed(g, t, roots)
    ensures s == t
  {
    assert s <= t && t <= s;
  }

  /** Draining the queue never leaves a closed set that holds the queue and
      the record. */
  lemma {:induction false} BfsDrainWithin(g: Graph, queue: seq<Vertex>, visited: seq<Vertex>, c: set<Vertex>)
    requires Closed(g, c) && Elements(visited) <= c
    requires forall i :: 0 <= i < |queue| ==> queue[i] in c
    ensures Elements(BfsDrain(g, queue, visited)) <= c
    decreases |Candidates(g) - Elements(visited)|, |queue|
  {
    if queue != [] {
      var x := queue[0];
      var added := Unvisited(Successors(g, x), visited);
      SuccessorsAreCandidates(g, x);
      SuccessorsAreEdges(g, x);
      Progress(g, visited, added);
      var queue' := queue[1..] + added;
      assert forall d :: d in added ==> Edge(x, d) in g.edges;
      forall i | 0 <= i < |queue'| ensures queue'[i] in c {
        if i < |queue| - 1 {
          assert queue'[i] == queue[i + 1];
        } else {
          assert queue'[i] in added;
        }
      }
      forall u | u in Elements(visited + added) ensures u in c {
        if u !in visited {
          assert u in added;
        } else {
          assert u in Elements(visited);
        }
      }
      BfsDrainWithin(g, queue', visited + added, c);
    }
  }

  /** While the queue drains, every recorded vertex that has left the queue
      has all its successors recorded; the queue holds recorded vertices. */
  ghost predicate Expanded(g: Graph, queue: seq<Vertex>, visited: seq<Vertex>)
  {
    && (forall i :: 0 <= i < |queue| ==> queue[i] in visited)
    && forall u, d :: u in visited && u !in queue && Edge(u, d) in g.edges ==> d in visited
  }

  /** One dequeue keeps the queue recorded and the vertices that have left
      it expanded. */
  lemma ExpandedStep(g: Graph, queue: seq<Vertex>, visited: seq<Vertex>)
    requires queue != [] && Expanded(g, queue, visited)
    ensures var added := Unvisited(Successors(g, queue[0]), visited);
      Expanded(g, queue[1..] + added, visited + added)
  {
    var x := queue[0];
    var added := Unvisited(Successors(g, x), visited);
    SuccessorsAreEdges(g, x);
    var queue', visited' := queue[1..] + added, visited + added;
    forall i | 0 <= i < |queue'| ensures queue'[i] in visited' {
      if i < |queue| - 1 {
        assert queue'[i] == queue[i + 1];
      } else {
        assert queue'[i] in added;
      }
    }
    assert queue == [x] + queue[1..];
    forall u, d | u in visited' && u !in queue' && Edge(u, d) in g.edges ensures d in visited' {
      if u == x {
        assert d in Successors(g, x);
      } else {
        assert u in visited && u !in queue;
      }
    }
  }

  /** A drained queue leaves a record that no edge leaves. */
  lemma {:induction false} BfsDrainClosed(g: Graph, queue: seq<Vertex>, visited: seq<Vertex>)
    requires Expanded(g, queue, visited)
    ensures Closed(g, Elements(BfsDrain(g, queue, visited)))
    ensures Elements(visited) <= Elements(BfsDrain(g, queue, visited))
    decreases |Candidates(g) - Elements(visited)|, |queue|
  {
    if queue == [] {
      forall u, d | u in Elements(visited) && Edge(u, d) in g.edges ensures d in Elements(visited) {
        assert u in visited;
      }
    } else {
      var x := queue[0];
      var added := Unvisited(Successors(g, x), visited);
      SuccessorsAreCandidates(g, x);
      Progress(g, visited, added);
      ExpandedStep(g, queue, visited);
      BfsDrainClosed(g, queue[1..] + added, visited + added);
    }
  }

  /** Breadth-first search over `roots` records every root, and no edge
      leaves the record. */
  lemma {:induction false} BfsFromClosed(g: Graph, roots: seq<Vertex>)
    ensures Elements(roots) <= Elements(BfsFrom(g, roots, []))
    ensures Closed(g, Elements(BfsFrom(g, roots, [])))
  {
    var r := BfsFrom(g, roots, []);
    if roots == [] {
      assert forall u :: u !in Elements(r);
    } else {
      var init, root := roots[..|roots| - 1], roots[|roots| - 1];
      BfsFromClosed(g, init);
      var before := BfsFrom(g, init, []);
      StartExpanded(g, before, root);
      BfsDrainClosed(g, [root], before + [root]);
      SnocWithin(init, root, before, r);
    }
  }

  /** A root recorded above a closed record leaves only the root to expand. */
  lemma StartExpanded(g: Graph, before: seq<Vertex>, root: Vertex)
    requires Closed(g, Elements(before))
    ensures Expanded(g, [root], before + [root])
  {
    forall u, d | u in before + [root] && u !in [root] && Edge(u, d) in g.edges ensures d in before + [root] {
      assert u in Elements(before);
    }
  }

  /** The roots so far and the new root are all in a record that extends
      the record of the roots so far by the new root. */
  lemma SnocWithin(init: seq<Vertex>, root: Vertex, before: seq<Vertex>, r: seq<Vertex>)
    requires Elements(init) <= Elements(before) && Elements(before + [root]) <= Elements(r)
    ensures Elements(init + [root]) <= Elements(r)
  {
    forall u | u in Elements(init + [root]) ensures u in Elements(r) {
      assert u in before + [root] by {
        if u != root {
          assert u in Elements(init);
        }
      }
    }
  }

  /** Breadth-first search over `roots` stays within every closed set that
      holds them. */
  lemma {:induction false} BfsFromWithin(g: Graph, roots: seq<Vertex>, c: set<Vertex>)
    requires Elements(roots) <= c && Closed(g, c)
    ensures Elements(BfsFrom(g, roots, [])) <= c
  {
    if roots == [] {
      assert forall u :: u !in Elements(BfsFrom(g, roots, []));
    } else {
      var init, root := roots[..|roots| - 1], roots[|roots| - 1];
      assert roots == init + [root];
      assert Elements(init) <= c && root in c;
      BfsFromWithin(g, init, c);
      var before := BfsFrom(g, init, []);
      assert Elements(before + [root]) <= c by {
        forall u | u in Elements(before + [root]) ensures u in c {
          if u != root {
            assert u in Elements(before);
          }
        }
      }
      BfsDrainWithin(g, [root], before + [root], c);
    }
  }

  /** Breadth-first search over `roots` records exactly the least closed
      set holding them. */
  lemma BfsFromLeast(g: Graph, roots: seq<Vertex>)
    ensures LeastClosed(g, Elements(BfsFrom(g, roots, [])), Elements(roots))
  {
    BfsFromClosed(g, roots);
    forall c | Elements(roots) <= c && Closed(g, c) ensures Elements(BfsFrom(g, roots, [])) <= c {
      BfsFromWithin(g, roots, c);
    }
  }

  /** One pop stays within a closed set that holds the stack and the
      record. */
  lemma DfsStepWithin(g: Graph, stack: seq<Vertex>, visited: seq<Vertex>, c: set<Vertex>)
    requires stack != [] && Closed(g, c) && Elements(visited) <= c
    requires forall i :: 0 <= i < |stack| ==> stack[i] in c
    ensures var x := stack[0];
      var pushed := Unvisited(Successors(g, x), Record(visited, x));
      && (forall i :: 0 <= i < |pushed + stack[1..]| ==> (pushed + stack[1..])[i] in c)
      && Elements(Record(visited, x)) <= c
  {
    var x := stack[0];
    SuccessorsAreEdges(g, x);
    var pushed := Unvisited(Successors(g, x), Record(visited, x));
    var stack' := pushed + stack[1..];
    forall i | 0 <= i < |stack'| ensures stack'[i] in c {
      if i < |pushed| {
        assert stack'[i] in pushed;
      } else {
        assert stack'[i] == stack[i - |pushed| + 1];
      }
    }
    forall u | u in Elements(Record(visited, x)) ensures u in c {
      if u != x {
        assert u in Elements(visited);
      }
    }
  }

  /** Draining the stack never leaves a closed set that holds the stack and
      the record. */
  lemma {:induction false} DfsDrainWithin(g: Graph, stack: seq<Vertex>, visited: seq<Vertex>, c: set<Vertex>)
    requires DfsInv(g, stack, visited)
    requires Closed(g, c) && Elements(visited) <= c
    requires forall i :: 0 <= i < |stack| ==> stack[i] in c
    ensures Elements(DfsDrain(g, stack, visited)) <= c
    decreases |Candidates(g) - Elements(visited)|, |stack|
  {
    if stack != [] {
      var x := stack[0];
      DfsStep(g, stack, visited);
      DfsStepWithin(g, stack, visited, c);
      DfsDrainWithin(g, Unvisited(Successors(g, x), Record(visited, x)) + stack[1..], Record(visited, x), c);
    }
  }

  /** Draining the stack keeps the record and records the vertex on top. */
  lemma {:induction false} DfsDrainKeeps(g: Graph, stack: seq<Vertex>, visited: seq<Vertex>)
    requires DfsInv(g, stack, visited)
    ensures forall u :: u in visited ==> u in DfsDrain(g, stack, visited)
    ensures stack != [] ==> stack[0] in DfsDrain(g, stack, visited)
    decreases |Candidates(g) - Elements(visited)|, |stack|
  {
    if stack != [] {
      var x := stack[0];
      DfsStep(g, stack, visited);
      DfsDrainKeeps(g, Unvisited(Successors(g, x), Record(visited, x)) + stack[1..], Record(visited, x));
    }
  }

  /** Depth-first search over `roots` records every root. */
  lemma {:induction false} DfsFromHolds(g: Graph, roots: seq<Vertex>)
    requires forall i :: 0 <= i < |roots| ==> roots[i] in Candidates(g)
    ensures Closed(g, Elements<Vertex>([]))
    ensures Elements(roots) <= Elements(DfsFrom(g, roots, []))
  {
    assert forall u :: u !in Elements<Vertex>([]);
    if roots != [] {
      var init, root := roots[..|roots| - 1], roots[|roots| - 1];
      DfsFromHolds(g, init);
      var before := DfsFrom(g, init, []);
      DfsStart(g, root, before);
      DfsDrainKeeps(g, [root], before);
      var r := DfsFrom(g, roots, []);
      assert Elements(before + [root]) <= Elements(r) by {
        forall u | u in Elements(before + [root]) ensures u in Elements(r) {
          assert u in before + [root];
        }
      }
      SnocWithin(init, root, before, r);
    }
  }

  /** Depth-first search over `roots` stays within every closed set that
      holds them. */
  lemma {:induction false} DfsFromWithin(g: Graph, roots: seq<Vertex>, c: set<Vertex>)
    requires forall i :: 0 <= i < |roots| ==> roots[i] in Candidates(g)
    requires Elements(roots) <= c && Closed(g, c)
    ensures Closed(g, Elements<Vertex>([]))
    ensures Elements(DfsFrom(g, roots, [])) <= c
  {
    assert forall u :: u !in Elements<Vertex>([]);
    if roots != [] {
      var init, root := roots[..|roots| - 1], roots[|roots| - 1];
      assert roots == init + [root];
      assert Elements(init) <= c && root in c;
      DfsFromWithin(g, init, c);
      var before := DfsFrom(g, init, []);
      DfsStart(g, root, before);
      DfsDrainWithin(g, [root], before, c);
    }
  }

  /** Depth-first search over `roots` records exactly the least closed set
      holding them. */
  lemma DfsFromLeast(g: Graph, roots: seq<Vertex>)
    requires forall i :: 0 <= i < |roots| ==> roots[i] in Candidates(g)
    ensures Closed(g, Elements<Vertex>([]))
    ensures LeastClosed(g, Elements(DfsFrom(g, roots, [])), Elements(roots))
  {
    DfsFromHolds(g, roots);
    forall c | Elements(roots) <= c && Closed(g, c) ensures Elements(DfsFrom(g, roots, [])) <= c {
      DfsFromWithin(g, roots, c);
    }
  }

  /** Breadth-first search, recursive depth-first search and iterative
      depth-first search in any root order all record the same vertices:
      the least set that holds the roots and that no edge leaves. */
  lemma TraversalsAgree(g: Graph, order: seq<Vertex>, visited: seq<Vertex>)
    requires DfsInOrder(g, order, visited)
    ensures LeastClosed(g, Elements(Bfs(g)), RootSet(g))
    ensures Elements(Bfs(g)) == Elements(Dfs(g)) == Elements(visited)
  {
    var sorted := Sorted(RootSet(g));
    assert forall v :: v in Elements(sorted) <==> v in RootSet(g);
    assert Elements(sorted) == RootSet(g);
    assert forall v :: v in Elements(order) <==> v in RootSet(g);
    assert Elements(order) == RootSet(g);
    RootsAreCandidates(g);
    BfsFromLeast(g, sorted);
    DfsFromLeast(g, sorted);
    RootOrderStarts(g, order);
    DfsFromLeast(g, order);
    LeastClosedUnique(g, Elements(Bfs(g)), Elements(Dfs(g)), RootSet(g));
    LeastClosedUnique(g, Elements(Bfs(g)), Elements(visited), RootSet(g));
  }
}
