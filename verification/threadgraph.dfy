/** The thread graph `analyze_trace` derives from the lock dependencies
    (src/analyzer.rs:129-146) and `add_edge` (src/analyzer.rs:191-193). */
module ThreadGraph {
  import opened Common
  import Analyzer

  /** `Graph`: the successor set of every node that has one. */
  type Graph = map<i64, set<i64>>

  predicate HasEdge(graph: Graph, from: i64, to: i64) {
    from in graph && to in graph[from]
  }

  /** Two graphs with the same nodes and the same edges are the same graph. */
  lemma SameEdges(g: Graph, h: Graph)
    requires g.Keys == h.Keys
    requires forall x, y :: HasEdge(g, x, y) <==> HasEdge(h, x, y)
    ensures g == h
  {
    forall x | x in g ensures g[x] == h[x] {
      assert forall y :: y in g[x] <==> HasEdge(g, x, y);
    }
  }

  /** `add_edge`: the successor set of `from` is created empty when missing. */
  function AddEdge(graph: Graph, from: i64, to: i64): (r: Graph)
    ensures r.Keys == graph.Keys + {from}
    ensures forall x, y :: HasEdge(r, x, y) <==> HasEdge(graph, x, y) || (x == from && y == to)
  {
    graph[from := (if from in graph then graph[from] else {}) + {to}]
  }

  /** `add_edge` for each child, in the order the child set yields them. */
  function AddEdges(graph: Graph, from: i64, children: seq<i64>): (r: Graph)
    ensures r.Keys == graph.Keys + (if |children| == 0 then {} else {from})
    ensures forall x, y :: HasEdge(r, x, y) <==> HasEdge(graph, x, y) || (x == from && y in children)
    decreases |children|
  {
    if |children| == 0 then graph
    else
      var r := AddEdges(AddEdge(graph, from, children[0]), from, children[1..]);
      assert forall y :: y in children <==> y == children[0] || y in children[1..];
      r
  }

  /** All children of one dependency at once. */
  function AddChildren(graph: Graph, from: i64, children: set<i64>): Graph {
    if children == {} then graph
    else graph[from := (if from in graph then graph[from] else {}) + children]
  }

  /** The order in which the child set is iterated does not matter: adding
      the children one edge at a time, in any order, adds them all at once. */
  lemma ChildrenInAnyOrder(graph: Graph, from: i64, children: seq<i64>)
    ensures AddEdges(graph, from, children) == AddChildren(graph, from, set c | c in children)
  {
    var r := AddEdges(graph, from, children);
    var s := AddChildren(graph, from, set c | c in children);
    if |children| == 0 {
      assert (set c | c in children) == {};
    } else {
      assert children[0] in (set c | c in children);
    }
    SameEdges(r, s);
  }

  /** The filter of the thread-graph block: `other` is a different thread
      whose held set shares no lock with the entry's (no guard lock) and
      contains the lock the entry acquired. */
  predicate DependsOn(entry: Analyzer.LockDependency, other: Analyzer.LockDependency) {
    && other.threadId != entry.threadId
    && other.acquiredLocks * entry.acquiredLocks == {}
    && entry.lockId in other.acquiredLocks
  }

  /** The child threads of one entry. */
  function Children(all: seq<Analyzer.LockDependency>, entry: Analyzer.LockDependency): set<i64> {
    set other | other in all && DependsOn(entry, other) :: other.threadId
  }

  /** The loop over the entries, adding each entry's children. */
  function Build(entries: seq<Analyzer.LockDependency>, all: seq<Analyzer.LockDependency>, graph: Graph): (r: Graph)
    decreases |entries|
  {
    if |entries| == 0 then graph
    else Build(entries[1..], all, AddChildren(graph, entries[0].threadId, Children(all, entries[0])))
  }

  /** The thread graph of a trace's lock dependencies. */
  function ThreadGraphOf(dependencies: seq<Analyzer.LockDependency>): Graph {
    Build(dependencies, dependencies, map[])
  }

  /** An edge a -> b appears exactly when some entry of a and some entry of b
      pass the filter. */
  lemma {:induction false} BuildEdges(entries: seq<Analyzer.LockDependency>, all: seq<Analyzer.LockDependency>, graph: Graph, a: i64, b: i64)
    ensures HasEdge(Build(entries, all, graph), a, b) <==>
      HasEdge(graph, a, b)
      || exists e, o :: e in entries && o in all && e.threadId == a && o.threadId == b && DependsOn(e, o)
    decreases |entries|
  {
    if |entries| > 0 {
      var next := AddChildren(graph, entries[0].threadId, Children(all, entries[0]));
      BuildEdges(entries[1..], all, next, a, b);
      assert HasEdge(next, a, b) <==>
        HasEdge(graph, a, b) || (a == entries[0].threadId && b in Children(all, entries[0]));
      assert forall e :: e in entries <==> e == entries[0] || e in entries[1..];
    }
  }

  /** The edges of the thread graph. */
  lemma ThreadGraphEdges(dependencies: seq<Analyzer.LockDependency>, a: i64, b: i64)
    ensures HasEdge(ThreadGraphOf(dependencies), a, b) <==>
      exists e, o :: e in dependencies && o in dependencies && e.threadId == a && o.threadId == b && DependsOn(e, o)
  {
    BuildEdges(dependencies, dependencies, map[], a, b);
  }

  /** No thread waits for itself: the filter drops the entries of the same
      thread. */
  lemma NoSelfLoops(dependencies: seq<Analyzer.LockDependency>, a: i64)
    ensures !HasEdge(ThreadGraphOf(dependencies), a, a)
  {
    ThreadGraphEdges(dependencies, a, a);
  }
}
