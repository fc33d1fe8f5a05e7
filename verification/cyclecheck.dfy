/** The deadlock count of the thread graph: `validate_dependency_graph` and
    its depth-first search `contains_cycle` (src/analyzer.rs:562-617). The
    hash maps and sets the source iterates are given here as sequences in
    their iteration order, and the results hold for every such order. */
module CycleCheck {
  import opened Common
  import opened ThreadGraph

  // Paths and cycles.

  /** A walk along edges, possibly of a single node. */
  predicate IsPath(graph: Graph, p: seq<i64>) {
    |p| >= 1 && forall i :: 0 <= i < |p| - 1 ==> HasEdge(graph, p[i], p[i + 1])
  }

  /** A walk of at least one edge that ends where it starts. */
  predicate IsCycle(graph: Graph, p: seq<i64>) {
    IsPath(graph, p) && |p| >= 2 && p[0] == p[|p| - 1]
  }

  ghost predicate Cyclic(graph: Graph) {
    exists p :: IsCycle(graph, p)
  }

  ghost predicate Reaches(graph: Graph, a: i64, b: i64) {
    exists p :: IsPath(graph, p) && p[0] == a && p[|p| - 1] == b
  }

  /** Every node: those with successors and the successors themselves. */
  function Nodes(graph: Graph): set<i64> {
    graph.Keys + set n, c | n in graph && c in graph[n] :: c
  }

  /** `order` yields, for every node with successors, exactly those successors. */
  predicate Lists(order: map<i64, seq<i64>>, graph: Graph) {
    && order.Keys == graph.Keys
    && (forall n, c :: n in order && c in order[n] ==> c in graph[n])
    && (forall n, c :: n in graph && c in graph[n] ==> c in order[n])
  }

  /** `roots` yields every node with successors exactly once. */
  predicate Enumerates(roots: seq<i64>, graph: Graph) {
    Distinct(roots) && (set n | n in roots) == graph.Keys
  }

  /** Enumerated roots are as many as the nodes with successors. */
  lemma RootCount(roots: seq<i64>, graph: Graph)
    requires Enumerates(roots, graph)
    ensures |roots| == |graph.Keys|
  {
    DistinctCardinality(roots);
    assert (set x: i64 | x in roots) == graph.Keys;
  }

  // The search.

  lemma ChildInNodes(graph: Graph, node: i64, child: i64)
    requires node in graph && child in graph[node]
    ensures child in Nodes(graph)
  {
  }

  /** The search state after a call: whether a cycle was reported, the
      visited nodes, and the nodes whose recursion-stack flag is set. */
  datatype Search = Search(found: bool, visited: set<i64>, stack: set<i64>)

  lemma ShrinkingRest(all: set<i64>, small: set<i64>, large: set<i64>)
    requires small <= large
    ensures |all - large| <= |all - small|
  {
    assert all - large <= all - small;
    SubsetCardinality(all - large, all - small);
  }

  lemma SubsetCardinality(a: set<i64>, b: set<i64>)
    requires a <= b
    ensures |a| <= |b|
  {
    assert b == a + (b - a);
  }

  /** `contains_cycle`: mark the node visited and on the stack, search its
      successors, and on the way back clear its stack flag. A cycle found
      below returns at once and leaves the flags of the nodes on the way set. */
  function ContainsCycle(graph: Graph, order: map<i64, seq<i64>>, node: i64, visited: set<i64>, stack: set<i64>): (r: Search)
    requires Lists(order, graph)
    requires node in Nodes(graph) && node !in visited && visited <= Nodes(graph)
    ensures visited + {node} <= r.visited <= Nodes(graph)
    ensures stack <= visited ==> r.stack <= r.visited
    ensures stack <= visited && !r.found ==> r.stack == stack
    decreases |Nodes(graph) - visited|, 0
  {
    var v := visited + {node};
    var s := stack + {node};
    assert Nodes(graph) - v < Nodes(graph) - visited by {
      assert node in Nodes(graph) - visited;
    }
    if node in graph then
      var r := SearchChildren(graph, order, node, order[node], v, s);
      if r.found then r else Search(false, r.visited, r.stack - {node})
    else
      Search(false, v, s - {node})
  }

  /** The loop over the successors of `node`: an unvisited successor is
      searched; a successor whose stack flag is set closes a cycle. */
  function SearchChildren(graph: Graph, order: map<i64, seq<i64>>, node: i64, children: seq<i64>,
                          visited: set<i64>, stack: set<i64>): (r: Search)
    requires Lists(order, graph)
    requires node in graph && forall c :: c in children ==> c in graph[node]
    requires visited <= Nodes(graph)
    ensures visited <= r.visited <= Nodes(graph)
    ensures stack <= visited ==> r.stack <= r.visited
    ensures stack <= visited && !r.found ==> r.stack == stack
    decreases |Nodes(graph) - visited|, |children|
  {
    if |children| == 0 then Search(false, visited, stack)
    else
      var child := children[0];
      ChildInNodes(graph, node, child);
      if child !in visited then
        var sub := ContainsCycle(graph, order, child, visited, stack);
        if sub.found then sub
        else if child in sub.stack then Search(true, sub.visited, sub.stack)
        else
          ShrinkingRest(Nodes(graph), visited, sub.visited);
          SearchChildren(graph, order, node, children[1..], sub.visited, sub.stack)
      else if child in stack then Search(true, visited, stack)
      else SearchChildren(graph, order, node, children[1..], visited, stack)
  }

  /** The loop of `validate_dependency_graph` over the remaining roots: a
      root not yet visited is searched, and a reported cycle is counted. */
  function CountCycles(graph: Graph, order: map<i64, seq<i64>>, roots: seq<i64>,
                       visited: set<i64>, stack: set<i64>, count: nat): (r: nat)
    requires Lists(order, graph)
    requires forall n :: n in roots ==> n in graph
    requires visited <= Nodes(graph)
    ensures count <= r <= count + |roots|
    decreases |roots|
  {
    if |roots| == 0 then count
    else if roots[0] !in visited then
      var sub := ContainsCycle(graph, order, roots[0], visited, stack);
      CountCycles(graph, order, roots[1..], sub.visited, sub.stack, if sub.found then count + 1 else count)
    else CountCycles(graph, order, roots[1..], visited, stack, count)
  }

  /** `validate_dependency_graph`: the number of searches that reported a
      cycle. It is zero exactly when the graph has no cycle, whatever order
      the maps and sets are iterated in, and at most the number of nodes
      with successors. */
  function ValidateDependencyGraph(graph: Graph, order: map<i64, seq<i64>>, roots: seq<i64>): (count: nat)
    requires Lists(order, graph)
    requires Enumerates(roots, graph)
    ensures count <= |graph.Keys|
    ensures count == 0 <==> !Cyclic(graph)
  {
    RootCount(roots, graph);
    Sound(graph, order, roots);
    Complete(graph, order, roots);
    var count := CountCycles(graph, order, roots, {}, {}, 0);
    assert count <= |roots| == |graph.Keys|;
    count
  }

  // Soundness: a reported cycle exists.

  lemma PathToCycle(graph: Graph, c: i64, node: i64)
    requires Reaches(graph, c, node)
    requires HasEdge(graph, node, c)
    ensures Cyclic(graph)
  {
    var p :| IsPath(graph, p) && p[0] == c && p[|p| - 1] == node;
    assert IsCycle(graph, p + [c]);
  }

  lemma ExtendReach(graph: Graph, a: i64, node: i64, c: i64)
    requires Reaches(graph, a, node)
    requires HasEdge(graph, node, c)
    ensures Reaches(graph, a, c)
  {
    var p :| IsPath(graph, p) && p[0] == a && p[|p| - 1] == node;
    assert IsPath(graph, p + [c]);
  }

  lemma ReachSelf(graph: Graph, a: i64)
    ensures Reaches(graph, a, a)
  {
    assert IsPath(graph, [a]);
  }

  /** A search reports a cycle only when there is one, provided every node
      flagged on the stack reaches the searched node. */
  lemma {:induction false} ContainsCycleSound(graph: Graph, order: map<i64, seq<i64>>, node: i64, visited: set<i64>, stack: set<i64>)
    requires Lists(order, graph)
    requires node in Nodes(graph) && node !in visited && visited <= Nodes(graph)
    requires stack <= visited && forall x :: x in stack ==> Reaches(graph, x, node)
    ensures ContainsCycle(graph, order, node, visited, stack).found ==> Cyclic(graph)
    decreases |Nodes(graph) - visited|, 0
  {
    var v := visited + {node};
    var s := stack + {node};
    assert Nodes(graph) - v < Nodes(graph) - visited by {
      assert node in Nodes(graph) - visited;
    }
    if node in graph {
      ReachSelf(graph, node);
      SearchChildrenSound(graph, order, node, order[node], v, s);
    }
  }

  lemma {:induction false} SearchChildrenSound(graph: Graph, order: map<i64, seq<i64>>, node: i64, children: seq<i64>,
                                               visited: set<i64>, stack: set<i64>)
    requires Lists(order, graph)
    requires node in graph && forall c :: c in children ==> c in graph[node]
    requires visited <= Nodes(graph)
    requires stack <= visited && forall x :: x in stack ==> Reaches(graph, x, node)
    ensures SearchChildren(graph, order, node, children, visited, stack).found ==> Cyclic(graph)
    decreases |Nodes(graph) - visited|, |children|
  {
    if |children| > 0 {
      var child := children[0];
      assert HasEdge(graph, node, child);
      ChildInNodes(graph, node, child);
      if child !in visited {
        forall x | x in stack ensures Reaches(graph, x, child) {
          ExtendReach(graph, x, node, child);
        }
        ContainsCycleSound(graph, order, child, visited, stack);
        var sub := ContainsCycle(graph, order, child, visited, stack);
        if !sub.found {
          if child in sub.stack {
            PathToCycle(graph, child, node);
          } else {
            ShrinkingRest(Nodes(graph), visited, sub.visited);
            SearchChildrenSound(graph, order, node, children[1..], sub.visited, sub.stack);
          }
        }
      } else if child in stack {
        PathToCycle(graph, child, node);
      } else {
        SearchChildrenSound(graph, order, node, children[1..], visited, stack);
      }
    }
  }

  /** While nothing has been counted the stack is empty, so the first
      search that reports a cycle is sound. */
  lemma {:induction false} CountSound(graph: Graph, order: map<i64, seq<i64>>, roots: seq<i64>,
                                      visited: set<i64>, stack: set<i64>, count: nat)
    requires Lists(order, graph)
    requires forall n :: n in roots ==> n in graph
    requires visited <= Nodes(graph)
    requires count == 0 ==> stack == {}
    ensures CountCycles(graph, order, roots, visited, stack, count) > 0 ==> count > 0 || Cyclic(graph)
    decreases |roots|
  {
    if |roots| > 0 {
      if roots[0] !in visited {
        if count == 0 {
          ContainsCycleSound(graph, order, roots[0], visited, stack);
        }
        var sub := ContainsCycle(graph, order, roots[0], visited, stack);
        CountSound(graph, order, roots[1..], sub.visited, sub.stack, if sub.found then count + 1 else count);
      } else {
        CountSound(graph, order, roots[1..], visited, stack, count);
      }
    }
  }

  lemma Sound(graph: Graph, order: map<i64, seq<i64>>, roots: seq<i64>)
    requires Lists(order, graph)
    requires Enumerates(roots, graph)
    ensures CountCycles(graph, order, roots, {}, {}, 0) > 0 ==> Cyclic(graph)
  {
    CountSound(graph, order, roots, {}, {}, 0);
  }

  // Completeness: a cycle is reported.

  /** Finished nodes (visited, flag cleared) have only finished successors. */
  predicate Closed(graph: Graph, done: set<i64>) {
    forall x, y :: x in done && HasEdge(graph, x, y) ==> y in done
  }

  /** No cycle passes through a finished node. */
  ghost predicate NoCycleThrough(graph: Graph, done: set<i64>) {
    forall p, i :: IsCycle(graph, p) && 0 <= i < |p| ==> p[i] !in done
  }

  /** A walk that enters a closed set stays in it. */
  lemma {:induction false} StaysInside(graph: Graph, done: set<i64>, p: seq<i64>, k: nat, j: nat)
    requires Closed(graph, done) && IsPath(graph, p)
    requires k <= j < |p| && p[k] in done
    ensures p[j] in done
    decreases j - k
  {
    if k < j {
      assert HasEdge(graph, p[k], p[k + 1]);
      StaysInside(graph, done, p, k + 1, j);
    }
  }

  /** A cycle through a node whose successors are all in a closed set
      comes back to the node from inside the set. */
  lemma CycleReturns(graph: Graph, done: set<i64>, node: i64, p: seq<i64>, i: nat)
    requires Closed(graph, done)
    requires forall y :: HasEdge(graph, node, y) ==> y in done
    requires IsCycle(graph, p) && i < |p|
    ensures p[i] == node ==> node in done
  {
    if p[i] == node {
      var k := if i == |p| - 1 then 0 else i;
      assert HasEdge(graph, p[k], p[k + 1]);
      StaysInside(graph, done, p, k + 1, |p| - 1);
      StaysInside(graph, done, p, 0, k);
    }
  }

  /** Finishing a node whose successors are all finished keeps the finished
      nodes closed and off every cycle. */
  lemma Finish(graph: Graph, done: set<i64>, node: i64)
    requires Closed(graph, done) && NoCycleThrough(graph, done)
    requires node !in done
    requires forall y :: HasEdge(graph, node, y) ==> y in done
    ensures Closed(graph, done + {node}) && NoCycleThrough(graph, done + {node})
  {
    forall p, i | IsCycle(graph, p) && 0 <= i < |p| ensures p[i] !in done + {node} {
      CycleReturns(graph, done, node, p, i);
    }
  }

  /** A search that reports nothing finishes the node and everything it
      visits, keeping the finished nodes closed and off every cycle. */
  lemma {:induction false} ContainsCycleComplete(graph: Graph, order: map<i64, seq<i64>>, node: i64, visited: set<i64>, stack: set<i64>)
    requires Lists(order, graph)
    requires node in Nodes(graph) && node !in visited && visited <= Nodes(graph)
    requires stack <= visited
    requires Closed(graph, visited - stack) && NoCycleThrough(graph, visited - stack)
    ensures var r := ContainsCycle(graph, order, node, visited, stack);
      !r.found ==>
        && node in r.visited - r.stack
        && Closed(graph, r.visited - r.stack) && NoCycleThrough(graph, r.visited - r.stack)
    decreases |Nodes(graph) - visited|, 0
  {
    var v := visited + {node};
    var s := stack + {node};
    assert Nodes(graph) - v < Nodes(graph) - visited by {
      assert node in Nodes(graph) - visited;
    }
    assert v - s == visited - stack;
    if node in graph {
      SearchChildrenComplete(graph, order, node, order[node], v, s);
      var loop := SearchChildren(graph, order, node, order[node], v, s);
      if !loop.found {
        assert forall y :: HasEdge(graph, node, y) ==> y in order[node];
        FinishAfterLoop(graph, node, loop.visited, s);
      }
    } else {
      Finish(graph, visited - stack, node);
      assert v - (s - {node}) == (visited - stack) + {node};
    }
  }

  /** Clearing the stack flag of a node whose successors are all finished
      finishes it. */
  lemma FinishAfterLoop(graph: Graph, node: i64, visited: set<i64>, stack: set<i64>)
    requires node in stack
    requires Closed(graph, visited - stack) && NoCycleThrough(graph, visited - stack)
    requires forall y :: HasEdge(graph, node, y) ==> y in visited - stack
    requires node in visited
    ensures node in visited - (stack - {node})
    ensures Closed(graph, visited - (stack - {node})) && NoCycleThrough(graph, visited - (stack - {node}))
  {
    Finish(graph, visited - stack, node);
    assert (visited - stack) + {node} == visited - (stack - {node});
  }

  lemma {:induction false} SearchChildrenComplete(graph: Graph, order: map<i64, seq<i64>>, node: i64, children: seq<i64>,
                                                  visited: set<i64>, stack: set<i64>)
    requires Lists(order, graph)
    requires node in graph && forall c :: c in children ==> c in graph[node]
    requires visited <= Nodes(graph)
    requires stack <= visited
    requires Closed(graph, visited - stack) && NoCycleThrough(graph, visited - stack)
    ensures var r := SearchChildren(graph, order, node, children, visited, stack);
      !r.found ==>
        && visited - stack <= r.visited - r.stack
        && (forall c :: c in children ==> c in r.visited - r.stack)
        && Closed(graph, r.visited - r.stack) && NoCycleThrough(graph, r.visited - r.stack)
    decreases |Nodes(graph) - visited|, |children|
  {
    if |children| > 0 {
      var child := children[0];
      ChildInNodes(graph, node, child);
      assert forall c :: c in children ==> c == child || c in children[1..];
      if child !in visited {
        ContainsCycleComplete(graph, order, child, visited, stack);
        var sub := ContainsCycle(graph, order, child, visited, stack);
        if !sub.found && child !in sub.stack {
          ShrinkingRest(Nodes(graph), visited, sub.visited);
          SearchChildrenComplete(graph, order, node, children[1..], sub.visited, sub.stack);
        }
      } else if child !in stack {
        SearchChildrenComplete(graph, order, node, children[1..], visited, stack);
      }
    }
  }

  /** While nothing has been counted, every searched root is finished and
      the finished nodes stay closed and off every cycle. */
  lemma {:induction false} CountComplete(graph: Graph, order: map<i64, seq<i64>>, roots: seq<i64>,
                                         visited: set<i64>, stack: set<i64>, count: nat)
    returns (done: set<i64>)
    requires Lists(order, graph)
    requires forall n :: n in roots ==> n in graph
    requires visited <= Nodes(graph)
    requires stack == {}
    requires Closed(graph, visited) && NoCycleThrough(graph, visited)
    ensures CountCycles(graph, order, roots, visited, stack, count) == count ==>
      (forall n :: n in roots ==> n in done) && visited <= done && NoCycleThrough(graph, done)
    decreases |roots|
  {
    if |roots| == 0 {
      done := visited;
    } else if roots[0] !in visited {
      ContainsCycleComplete(graph, order, roots[0], visited, stack);
      var sub := ContainsCycle(graph, order, roots[0], visited, stack);
      done := visited;
      if !sub.found {
        assert sub.visited - sub.stack == sub.visited;
        done := CountComplete(graph, order, roots[1..], sub.visited, sub.stack, count);
        assert forall n :: n in roots ==> n == roots[0] || n in roots[1..];
      }
    } else {
      done := CountComplete(graph, order, roots[1..], visited, stack, count);
      assert forall n :: n in roots ==> n == roots[0] || n in roots[1..];
    }
  }

  /** A cycle leaves its first node, so that node has successors. */
  lemma CycleStart(graph: Graph, p: seq<i64>)
    ensures IsCycle(graph, p) ==> p[0] in graph
  {
    if IsCycle(graph, p) {
      assert HasEdge(graph, p[0], p[1]);
    }
  }

  lemma Complete(graph: Graph, order: map<i64, seq<i64>>, roots: seq<i64>)
    requires Lists(order, graph)
    requires Enumerates(roots, graph)
    ensures CountCycles(graph, order, roots, {}, {}, 0) == 0 ==> !Cyclic(graph)
  {
    assert forall n :: n in roots ==> n in graph by {
      forall n | n in roots ensures n in graph {
        assert n in (set m | m in roots);
      }
    }
    var done := CountComplete(graph, order, roots, {}, {}, 0);
    if CountCycles(graph, order, roots, {}, {}, 0) == 0 {
      forall n | n in graph ensures n in done {
        assert n in (set m | m in roots);
      }
      forall p ensures !IsCycle(graph, p) {
        CycleStart(graph, p);
      }
    }
  }
}
