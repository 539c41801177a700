/** The directed graph the pipeline builds and transforms (a networkx
    `DiGraph` used with unique-edge semantics): string nodes and a set of
    ordered pairs. */
module Graphs {

  type Node = string
  type Edge = (Node, Node)

  /** Every node that is the source or the target of some edge. */
  function Endpoints(edges: set<Edge>): set<Node>
  {
    (set e | e in edges :: e.0) + (set e | e in edges :: e.1)
  }

  /** A node is an endpoint exactly when some edge starts or ends at it. */
  lemma EndpointsSpec(edges: set<Edge>, n: Node)
    ensures n in Endpoints(edges) <==> exists e :: e in edges && (e.0 == n || e.1 == n)
  {
    if exists e :: e in edges && (e.0 == n || e.1 == n) {
      var e :| e in edges && (e.0 == n || e.1 == n);
      assert e.0 in (set e | e in edges :: e.0);
      assert e.1 in (set e | e in edges :: e.1);
    }
  }

  lemma EndpointsAdd(edges: set<Edge>, u: Node, v: Node)
    ensures Endpoints(edges + {(u, v)}) == Endpoints(edges) + {u, v}
  {
  }

  lemma EndpointsUnion(a: set<Edge>, b: set<Edge>)
    ensures Endpoints(a + b) == Endpoints(a) + Endpoints(b)
  {
  }

  /** Edges leaving `n`. */
  function OutEdges(edges: set<Edge>, n: Node): set<Edge>
  {
    set e | e in edges && e.0 == n
  }

  /** Edges entering `n`. */
  function InEdges(edges: set<Edge>, n: Node): set<Edge>
  {
    set e | e in edges && e.1 == n
  }

  /** `DiGraph.degree(n)`: in-degree plus out-degree, so a self-loop counts twice. */
  function Degree(edges: set<Edge>, n: Node): nat
  {
    |OutEdges(edges, n)| + |InEdges(edges, n)|
  }

  /** A node has degree zero exactly when no edge touches it. */
  lemma DegreeZeroIffIsolated(edges: set<Edge>, n: Node)
    ensures Degree(edges, n) == 0 <==> n !in Endpoints(edges)
  {
    if n in Endpoints(edges) {
      var e :| e in edges && (e.0 == n || e.1 == n);
      assert e in OutEdges(edges, n) || e in InEdges(edges, n);
    } else {
      assert OutEdges(edges, n) == {} && InEdges(edges, n) == {};
    }
  }

  /** `order` is an iteration order of `s`, as a node or edge view of a
      graph gives one: every element of `s` appears, nothing else does, and
      no position repeats another. */
  ghost predicate Enumerates<T(!new)>(order: seq<T>, s: set<T>)
  {
    (forall x :: x in s <==> x in order) &&
    (forall i, j :: 0 <= i < j < |order| ==> order[i] != order[j])
  }

  /** An iteration order has exactly one position per element. */
  lemma {:induction false} EnumerationLength<T(!new)>(order: seq<T>, s: set<T>)
    requires Enumerates(order, s)
    ensures |order| == |s|
    decreases |order|
  {
    if order != [] {
      var last := order[|order| - 1];
      var init := order[..|order| - 1];
      assert order == init + [last];
      assert last !in init by {
        forall i | 0 <= i < |init|
          ensures init[i] != last
        {
          assert init[i] == order[i];
        }
      }
      assert Enumerates(init, s - {last}) by {
        forall x
          ensures x in s - {last} <==> x in init
        {
          assert x in order <==> x in init || x == last;
        }
      }
      EnumerationLength(init, s - {last});
    }
  }

  /** A mutable directed graph. Adding an edge creates both endpoints;
      the edge set never holds the same pair twice. */
  class DiGraph {
    var nodes: set<Node>
    var edges: set<Edge>

    /** Every edge's endpoints are nodes. */
    ghost predicate Valid()
      reads this
    {
      Endpoints(edges) <= nodes
    }

    /** `nx.DiGraph()` */
    constructor ()
      ensures Valid() && nodes == {} && edges == {}
    {
      nodes := {};
      edges := {};
    }

    /** `add_edge(u, v)`: idempotent, and creates the endpoints it needs. */
    method AddEdge(u: Node, v: Node)
      requires Valid()
      modifies this
      ensures Valid()
      ensures edges == old(edges) + {(u, v)}
      ensures nodes == old(nodes) + {u, v}
      ensures (u, v) in old(edges) ==> edges == old(edges) && nodes == old(nodes)
    {
      edges := edges + {(u, v)};
      nodes := nodes + {u, v};
    }
  }
}
