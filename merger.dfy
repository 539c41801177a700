/** Header/source merger (`merge_header`): nodes that share a stem with
    another node are replaced, on every edge, by one synthetic
    `[merged]<stem>` node. */
module Merger {
  import opened Strings
  import opened Stems
  import opened Graphs

  const MergedMarker := "[merged]"

  /** The synthetic node standing for every node whose stem is `stem`. */
  function MergedId(stem: string): (r: Node)
    ensures StartsWith(r, MergedMarker) && r[|MergedMarker|..] == stem
  {
    MergedMarker + stem
  }

  /** The stems of a node set: the keys of the `can_merge` dictionary. */
  function StemsOf(nodes: set<Node>): set<string>
  {
    set n | n in nodes :: Stem(n)
  }

  /** The nodes whose stem is `p`. */
  function StemClass(nodes: set<Node>, p: string): set<Node>
  {
    set n | n in nodes && Stem(n) == p
  }

  /** A stem is eligible for merging when at least two distinct nodes have it. */
  predicate Mergeable(nodes: set<Node>, p: string)
  {
    |StemClass(nodes, p)| >= 2
  }

  /** Eligibility read as "two different nodes share the stem". */
  lemma MergeableIffTwoDistinct(nodes: set<Node>, p: string)
    ensures Mergeable(nodes, p) <==>
              exists a, b :: a in nodes && b in nodes && a != b && Stem(a) == p && Stem(b) == p
  {
    var c := StemClass(nodes, p);
    if |c| >= 2 {
      var a :| a in c;
      assert |c - {a}| == |c| - 1;
      var b :| b in c - {a};
    }
    if exists a, b :: a in nodes && b in nodes && a != b && Stem(a) == p && Stem(b) == p {
      var a, b :| a in nodes && b in nodes && a != b && Stem(a) == p && Stem(b) == p;
      assert {a, b} <= c;
      assert |{a, b}| == 2;
      SubsetCardinality({a, b}, c);
    }
  }

  lemma {:induction false} SubsetCardinality<T>(a: set<T>, b: set<T>)
    requires a <= b
    ensures |a| <= |b|
    decreases |a|
  {
    if a != {} {
      var x :| x in a;
      SubsetCardinality(a - {x}, b - {x});
    }
  }

  lemma StemsOfAdd(visited: set<Node>, n: Node)
    ensures StemsOf(visited + {n}) == StemsOf(visited) + {Stem(n)}
  {
  }

  /** Visiting one more node `n` makes its stem eligible exactly when some
      node already visited has that stem. */
  lemma MergeableAddSame(visited: set<Node>, n: Node)
    requires n !in visited
    ensures Mergeable(visited + {n}, Stem(n)) <==> Stem(n) in StemsOf(visited)
  {
    var p := Stem(n);
    var before := StemClass(visited, p);
    assert StemClass(visited + {n}, p) == before + {n};
    if p in StemsOf(visited) {
      var m :| m in visited && Stem(m) == p;
      assert m in before;
    } else {
      assert before == {};
    }
  }

  /** Visiting one more node leaves the eligibility of other stems alone. */
  lemma MergeableAddOther(visited: set<Node>, n: Node, p: string)
    requires p != Stem(n)
    ensures Mergeable(visited + {n}, p) <==> Mergeable(visited, p)
  {
    assert StemClass(visited + {n}, p) == StemClass(visited, p);
  }

  /** The `can_merge` dictionary of a node set: one entry per stem, `true`
      exactly for the eligible stems. */
  function Eligibility(nodes: set<Node>): map<string, bool>
  {
    map p | p in StemsOf(nodes) :: Mergeable(nodes, p)
  }

  /** The first loop of `merge_header`: a stem seen a second time is marked
      eligible, a stem seen for the first time is entered as not eligible. */
  method MergeEligibility(g: DiGraph) returns (canMerge: map<string, bool>)
    ensures canMerge == Eligibility(g.nodes)
  {
    canMerge := map[];
    var remaining := g.nodes;
    while remaining != {}
      invariant remaining <= g.nodes
      invariant canMerge.Keys == StemsOf(g.nodes - remaining)
      invariant forall p :: p in canMerge ==> (canMerge[p] <==> Mergeable(g.nodes - remaining, p))
      decreases remaining
    {
      var node :| node in remaining;
      ghost var visited := g.nodes - remaining;
      var prefix := Stem(node);
      if prefix in canMerge {
        canMerge := canMerge[prefix := true];
      } else {
        canMerge := canMerge[prefix := false];
      }
      remaining := remaining - {node};
      assert g.nodes - remaining == visited + {node};
      StemsOfAdd(visited, node);
      MergeableAddSame(visited, node);
      forall p | p in canMerge && p != prefix
        ensures canMerge[p] <==> Mergeable(visited + {node}, p)
      {
        MergeableAddOther(visited, node, p);
      }
    }
    assert g.nodes - remaining == g.nodes;
  }

  /** A node's image under a `can_merge` dictionary: the synthetic node of
      its stem when the stem is marked eligible, the node itself otherwise. */
  function RenameBy(n: Node, canMerge: map<string, bool>): Node
  {
    var prefix := Stem(n);
    if prefix in canMerge && canMerge[prefix] then MergedId(prefix) else n
  }

  /** The images of edges, each endpoint renamed on its own. */
  function ImageEdges(edges: set<Edge>, canMerge: map<string, bool>): set<Edge>
  {
    set e | e in edges :: (RenameBy(e.0, canMerge), RenameBy(e.1, canMerge))
  }

  /** A node's image in the merge of a graph with node set `nodes`. */
  function Rename(n: Node, nodes: set<Node>): Node
  {
    RenameBy(n, Eligibility(nodes))
  }

  /** The edges `merge_header` produces from a graph. */
  function MergedEdges(edges: set<Edge>, nodes: set<Node>): set<Edge>
  {
    ImageEdges(edges, Eligibility(nodes))
  }

  /** A node is replaced by the synthetic node of its stem exactly when that
      stem is eligible; otherwise it is kept as it is. */
  lemma RenameSpec(n: Node, nodes: set<Node>)
    ensures Mergeable(nodes, Stem(n)) ==> Rename(n, nodes) == MergedId(Stem(n))
    ensures !Mergeable(nodes, Stem(n)) ==> Rename(n, nodes) == n
  {
    if Stem(n) !in StemsOf(nodes) {
      assert StemClass(nodes, Stem(n)) == {};
    }
  }

  lemma ImageEdgesAdd(done: set<Edge>, e: Edge, canMerge: map<string, bool>)
    ensures ImageEdges(done + {e}, canMerge) ==
            ImageEdges(done, canMerge) + {(RenameBy(e.0, canMerge), RenameBy(e.1, canMerge))}
  {
  }

  /** `merge_header`: a fresh graph holding the image of every edge. Nodes
      without edges are not carried over. */
  method MergeHeader(g: DiGraph) returns (result: DiGraph)
    requires g.Valid()
    ensures fresh(result) && result.Valid()
    ensures result.edges == MergedEdges(g.edges, g.nodes)
    ensures result.nodes == Endpoints(result.edges)
  {
    var canMerge := MergeEligibility(g);
    var edges := g.edges;
    result := new DiGraph();
    var remaining := edges;
    while remaining != {}
      invariant remaining <= edges
      invariant fresh(result) && result.Valid()
      invariant result.edges == ImageEdges(edges - remaining, canMerge)
      invariant result.nodes == Endpoints(result.edges)
      decreases remaining
    {
      var edge :| edge in remaining;
      ghost var done := edges - remaining;
      remaining := remaining - {edge};
      assert edges - remaining == done + {edge};
      var prefix0 := Stem(edge.0);
      var prefix1 := Stem(edge.1);
      assert prefix0 in canMerge && prefix1 in canMerge by {
        assert edge.0 in g.nodes && edge.1 in g.nodes;
      }
      var source, target := edge.0, edge.1;
      if canMerge[prefix0] {
        source := MergedId(prefix0);
      }
      if canMerge[prefix1] {
        target := MergedId(prefix1);
      }
      assert source == RenameBy(edge.0, canMerge) && target == RenameBy(edge.1, canMerge);
      ImageEdgesAdd(done, edge, canMerge);
      ghost var prior := result.edges;
      result.AddEdge(source, target);
      EndpointsAdd(prior, source, target);
    }
    assert edges - remaining == edges;
  }

  // ---------------------------------------------------------------------
  // Properties of the merge
  // ---------------------------------------------------------------------

  /** With no eligible stem the merge gives back the same edges (and so,
      for a graph whose nodes all touch an edge, the same graph). */
  lemma NoMergeableIsIdentity(edges: set<Edge>, nodes: set<Node>)
    requires Endpoints(edges) <= nodes
    requires forall n :: n in nodes ==> !Mergeable(nodes, Stem(n))
    ensures MergedEdges(edges, nodes) == edges
  {
    forall e | e in edges
      ensures Rename(e.0, nodes) == e.0 && Rename(e.1, nodes) == e.1
    {
      assert e.0 in nodes && e.1 in nodes;
    }
  }

  /** Images that coincide collapse: the merge never has more edges than
      its input. */
  lemma {:induction false} MergedEdgesNoLarger(edges: set<Edge>, nodes: set<Node>)
    ensures |MergedEdges(edges, nodes)| <= |edges|
    decreases |edges|
  {
    if edges != {} {
      var e :| e in edges;
      var rest := edges - {e};
      MergedEdgesNoLarger(rest, nodes);
      ImageEdgesAdd(rest, e, Eligibility(nodes));
      assert rest + {e} == edges;
    }
  }

  /** An edge whose endpoints are both ineligible is copied verbatim; an
      edge with an eligible endpoint reaches the result only through the
      synthetic node of that endpoint's stem. */
  lemma MergedEdgeOf(edges: set<Edge>, nodes: set<Node>, e: Edge)
    requires e in edges
    ensures !Mergeable(nodes, Stem(e.0)) && !Mergeable(nodes, Stem(e.1)) ==> e in MergedEdges(edges, nodes)
    ensures Mergeable(nodes, Stem(e.0)) ==> (MergedId(Stem(e.0)), Rename(e.1, nodes)) in MergedEdges(edges, nodes)
    ensures Mergeable(nodes, Stem(e.1)) ==> (Rename(e.0, nodes), MergedId(Stem(e.1))) in MergedEdges(edges, nodes)
  {
    assert (Rename(e.0, nodes), Rename(e.1, nodes)) in MergedEdges(edges, nodes);
  }

  /** A bare include name without suffix shares its stem with a header of
      the same name, so the two are merged. */
  lemma BareNameMergesWithHeader()
    ensures Mergeable({"vector", "vector.h"}, "vector")
  {
    StemOfHeader("vector");
    assert Stem("vector") == "vector";
    MergeableIffTwoDistinct({"vector", "vector.h"}, "vector");
  }

  /** In the node set `a.cpp`, `a.h`, `b.h` the stem `a` is eligible and
      the stem `b` is not. */
  lemma MergeExampleEligibility()
    ensures Stem("a.cpp") == "a" && Stem("b.h") == "b"
    ensures Mergeable({"a.cpp", "a.h", "b.h"}, "a")
    ensures !Mergeable({"a.cpp", "a.h", "b.h"}, "b")
  {
    var nodes := {"a.cpp", "a.h", "b.h"};
    StemOfSource("a");
    StemOfHeader("a");
    StemOfHeader("b");
    assert Stem("a.cpp") == "a" && Stem("a.h") == "a" && Stem("b.h") == "b";
    assert StemClass(nodes, "a") == {"a.cpp", "a.h"};
    assert StemClass(nodes, "b") == {"b.h"};
  }

  /** `a.cpp` and `a.h` collapse into `[merged]a`; `b.h` has no partner and
      stays; the isolated `a.h` is not carried over. */
  lemma MergeExample()
    ensures MergedEdges({("a.cpp", "b.h")}, {"a.cpp", "a.h", "b.h"}) == {("[merged]a", "b.h")}
    ensures Endpoints({("[merged]a", "b.h")}) == {"[merged]a", "b.h"}
  {
    var nodes := {"a.cpp", "a.h", "b.h"};
    MergeExampleEligibility();
    RenameSpec("a.cpp", nodes);
    RenameSpec("b.h", nodes);
    assert MergedId("a") == "[merged]a";
    ImageEdgesAdd({}, ("a.cpp", "b.h"), Eligibility(nodes));
    assert {} + {("a.cpp", "b.h")} == {("a.cpp", "b.h")};
  }
}
