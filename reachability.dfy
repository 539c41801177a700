/** The "entry file and its descendants" step: `nx.descendants` as a
    worklist closure over the edge set, and the subgraph induced by the
    entry plus its descendants. */
module Reachability {
  import opened Wrappers
  import opened Graphs

  /** `p` is a non-empty walk along forward edges. */
  ghost predicate IsPath(edges: set<Edge>, p: seq<Node>)
  {
    |p| >= 1 && forall i :: 0 <= i < |p| - 1 ==> (p[i], p[i + 1]) in edges
  }

  /** `b` can be reached from `a` by following zero or more edges. */
  ghost predicate Reachable(edges: set<Edge>, a: Node, b: Node)
  {
    exists p :: IsPath(edges, p) && p[0] == a && p[|p| - 1] == b
  }

  /** The entry together with every node reachable from it. */
  ghost function ReachSet(edges: set<Edge>, entry: Node): set<Node>
  {
    set n | n in Endpoints(edges) + {entry} && Reachable(edges, entry, n)
  }

  lemma ReachableRefl(edges: set<Edge>, a: Node)
    ensures Reachable(edges, a, a)
  {
    assert IsPath(edges, [a]);
  }

  /** One more edge extends a walk. */
  lemma ReachableStep(edges: set<Edge>, a: Node, b: Node, c: Node)
    requires Reachable(edges, a, b) && (b, c) in edges
    ensures Reachable(edges, a, c)
  {
    var p :| IsPath(edges, p) && p[0] == a && p[|p| - 1] == b;
    var q := p + [c];
    assert forall i :: 0 <= i < |q| - 1 ==> q[i] == p[i];
    assert IsPath(edges, q);
  }

  /** A node set closed under forward edges holds every node reachable from
      one of its members. */
  lemma ClosedContainsReachable(edges: set<Edge>, s: set<Node>, a: Node, b: Node)
    requires a in s
    requires forall e :: e in edges && e.0 in s ==> e.1 in s
    requires Reachable(edges, a, b)
    ensures b in s
  {
    var p :| IsPath(edges, p) && p[0] == a && p[|p| - 1] == b;
    PathStaysInClosed(edges, s, p);
  }

  lemma {:induction false} PathStaysInClosed(edges: set<Edge>, s: set<Node>, p: seq<Node>)
    requires IsPath(edges, p) && p[0] in s
    requires forall e :: e in edges && e.0 in s ==> e.1 in s
    ensures p[|p| - 1] in s
    decreases |p|
  {
    if |p| > 1 {
      var init := p[..|p| - 1];
      assert forall i :: 0 <= i < |init| ==> init[i] == p[i];
      assert IsPath(edges, init);
      PathStaysInClosed(edges, s, init);
      assert (p[|p| - 2], p[|p| - 1]) in edges;
    }
  }

  /** The reach set is exactly the nodes reachable from the entry: the
      bound by the endpoints loses nothing. */
  lemma ReachSetSpec(edges: set<Edge>, entry: Node, n: Node)
    ensures n in ReachSet(edges, entry) <==> Reachable(edges, entry, n)
  {
    if Reachable(edges, entry, n) {
      var p :| IsPath(edges, p) && p[0] == entry && p[|p| - 1] == n;
      if |p| > 1 {
        assert (p[|p| - 2], p[|p| - 1]) in edges;
      }
    }
  }

  /** The reach set holds the entry, is closed under forward edges, and is
      the least such set. */
  lemma ReachSetIsLeastClosed(edges: set<Edge>, entry: Node, s: set<Node>)
    ensures entry in ReachSet(edges, entry)
    ensures forall e :: e in edges && e.0 in ReachSet(edges, entry) ==> e.1 in ReachSet(edges, entry)
    ensures entry in s && (forall e :: e in edges && e.0 in s ==> e.1 in s) ==> ReachSet(edges, entry) <= s
  {
    ReachableRefl(edges, entry);
    forall e | e in edges && e.0 in ReachSet(edges, entry)
      ensures e.1 in ReachSet(edges, entry)
    {
      ReachableStep(edges, entry, e.0, e.1);
    }
    if entry in s && (forall e :: e in edges && e.0 in s ==> e.1 in s) {
      forall n | n in ReachSet(edges, entry)
        ensures n in s
      {
        ClosedContainsReachable(edges, s, entry, n);
      }
    }
  }

  datatype GraphError = MissingEntry(node: Node)

  /** The successors of `n`. */
  function Successors(edges: set<Edge>, n: Node): (r: set<Node>)
    ensures forall m :: m in r <==> (n, m) in edges
  {
    set e | e in edges && e.0 == n :: e.1
  }

  /** `nx.descendants(graph, entry)`: every node reachable from the entry,
      the entry itself excluded; an entry that is not a node is an error.
      The worklist terminates on cyclic graphs because a node enters it
      only once. */
  method Descendants(g: DiGraph, entry: Node) returns (r: Result<set<Node>, GraphError>)
    requires g.Valid()
    ensures r.Failure? <==> entry !in g.nodes
    ensures r.Failure? ==> r.error == MissingEntry(entry)
    ensures r.Success? ==> r.value == ReachSet(g.edges, entry) - {entry}
  {
    if entry !in g.nodes {
      return Failure(MissingEntry(entry));
    }
    var edges := g.edges;
    ghost var bound := Endpoints(edges) + {entry};
    var visited := {entry};
    var work := {entry};
    ReachableRefl(edges, entry);
    while work != {}
      invariant work <= visited <= bound
      invariant entry in visited
      invariant forall n :: n in visited ==> Reachable(edges, entry, n)
      invariant forall e :: e in edges && e.0 in visited && e.0 !in work ==> e.1 in visited
      decreases bound - visited, work
    {
      var n :| n in work;
      var found := Successors(edges, n) - visited;
      forall m | m in found
        ensures Reachable(edges, entry, m)
      {
        ReachableStep(edges, entry, n, m);
      }
      visited := visited + found;
      work := (work - {n}) + found;
    }
    ReachSetIsLeastClosed(edges, entry, visited);
    forall n | n in visited
      ensures n in ReachSet(edges, entry)
    {
      ReachSetSpec(edges, entry, n);
    }
    return Success(visited - {entry});
  }

  /** The edges of the subgraph induced by `keep`. */
  function InducedEdges(edges: set<Edge>, keep: set<Node>): (r: set<Edge>)
    ensures forall e :: e in r <==> e in edges && e.0 in keep && e.1 in keep
  {
    set e | e in edges && e.0 in keep && e.1 in keep
  }

  /** `graph.subgraph(keep)`: the nodes of `keep` that are in the graph, and
      every edge between two of them. */
  method Subgraph(g: DiGraph, keep: set<Node>) returns (h: DiGraph)
    requires g.Valid()
    ensures fresh(h) && h.Valid()
    ensures h.nodes == g.nodes * keep
    ensures h.edges == InducedEdges(g.edges, keep)
  {
    h := new DiGraph();
    h.nodes := g.nodes * keep;
    h.edges := InducedEdges(g.edges, keep);
  }

  /** `graph.subgraph(chain([entry], nx.descendants(graph, entry)))`: the
      entry, everything reachable from it, and every edge among those. */
  method ExtractReachable(g: DiGraph, entry: Node) returns (r: Result<DiGraph, GraphError>)
    requires g.Valid()
    ensures r.Failure? <==> entry !in g.nodes
    ensures r.Failure? ==> r.error == MissingEntry(entry)
    ensures r.Success? ==> fresh(r.value) && r.value.Valid()
    ensures r.Success? ==> r.value.nodes == ReachSet(g.edges, entry)
    ensures r.Success? ==> r.value.edges == InducedEdges(g.edges, ReachSet(g.edges, entry))
  {
    var desc := Descendants(g, entry);
    if desc.Failure? {
      return Failure(desc.error);
    }
    var keep := {entry} + desc.value;
    ReachSetIsLeastClosed(g.edges, entry, keep);
    assert keep == ReachSet(g.edges, entry);
    var h := Subgraph(g, keep);
    assert g.nodes * keep == keep;
    return Success(h);
  }

  /** Every node of the extracted part can be reached from the entry inside
      the extracted part itself. */
  lemma ExtractedIsRooted(edges: set<Edge>, entry: Node, n: Node)
    requires n in ReachSet(edges, entry)
    ensures Reachable(InducedEdges(edges, ReachSet(edges, entry)), entry, n)
  {
    var keep := ReachSet(edges, entry);
    ReachSetSpec(edges, entry, n);
    var p :| IsPath(edges, p) && p[0] == entry && p[|p| - 1] == n;
    forall i | 0 <= i < |p|
      ensures p[i] in keep
    {
      PathPrefixReachable(edges, entry, p, i);
      ReachSetSpec(edges, entry, p[i]);
    }
    assert IsPath(InducedEdges(edges, keep), p);
  }

  lemma PathPrefixReachable(edges: set<Edge>, entry: Node, p: seq<Node>, i: nat)
    requires IsPath(edges, p) && p[0] == entry && i < |p|
    ensures Reachable(edges, entry, p[i])
  {
    var q := p[..i + 1];
    assert forall k :: 0 <= k < |q| ==> q[k] == p[k];
    assert IsPath(edges, q);
  }

  /** m.cpp includes x.h, which includes y.h; z.h including w.h is not
      reachable and is cut off. */
  lemma ExtractExample()
    ensures ReachSet({("m.cpp", "x.h"), ("x.h", "y.h"), ("z.h", "w.h")}, "m.cpp") == {"m.cpp", "x.h", "y.h"}
  {
    var edges := {("m.cpp", "x.h"), ("x.h", "y.h"), ("z.h", "w.h")};
    var s := {"m.cpp", "x.h", "y.h"};
    assert forall e :: e in edges && e.0 in s ==> e.1 in s;
    ReachSetIsLeastClosed(edges, "m.cpp", s);
    ReachableRefl(edges, "m.cpp");
    ReachableStep(edges, "m.cpp", "m.cpp", "x.h");
    ReachableStep(edges, "m.cpp", "x.h", "y.h");
    ReachSetSpec(edges, "m.cpp", "m.cpp");
    ReachSetSpec(edges, "m.cpp", "x.h");
    ReachSetSpec(edges, "m.cpp", "y.h");
  }

  /** The edges kept for that example are the two on the include chain. */
  lemma ExtractExampleEdges()
    ensures InducedEdges({("m.cpp", "x.h"), ("x.h", "y.h"), ("z.h", "w.h")}, {"m.cpp", "x.h", "y.h"})
            == {("m.cpp", "x.h"), ("x.h", "y.h")}
  {
    assert ("z.h", "w.h") !in InducedEdges({("m.cpp", "x.h"), ("x.h", "y.h"), ("z.h", "w.h")}, {"m.cpp", "x.h", "y.h"});
  }

  /** On a cycle back to the entry the closure still stops, and the entry is
      not its own descendant. */
  lemma CycleExample()
    ensures ReachSet({("a", "b"), ("b", "a")}, "a") - {"a"} == {"b"}
  {
    var edges := {("a", "b"), ("b", "a")};
    ReachSetIsLeastClosed(edges, "a", {"a", "b"});
    ReachableRefl(edges, "a");
    ReachableStep(edges, "a", "a", "b");
    ReachSetSpec(edges, "a", "b");
  }
}
