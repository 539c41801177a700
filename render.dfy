/** What `draw_graph` hands to the chart: one record per node (label,
    category, degree), one link per edge, and the fixed category list. */
module Render {
  import opened Strings
  import opened Stems
  import opened Graphs
  import opened Merger

  /** The legend entries; a category index points into this list. */
  const CategoryList: seq<string> := ["cpp", "h", "\"module\"", "other"]

  /** `determ_category` as written: the suffix tests use the bare letters
      `cpp` and `h`, so any identity ending in the letter `h` (a merged
      node such as `[merged]graph` included) lands in the header category. */
  function Category(node: Node): (c: nat)
    ensures c < |CategoryList|
  {
    if EndsWith(node, "cpp") then 0
    else if EndsWith(node, "h") then 1
    else if StartsWith(node, MergedMarker) then 2
    else 3
  }

  /** The merged identity of the stem `graph` is classed as a header by
      `Category`, not as a module. */
  lemma MergedStemEndingInHIsHeader()
    ensures MergedId("graph") == "[merged]graph"
    ensures Category(MergedId("graph")) == 1
  {
    var n := MergedId("graph");
    assert n[|n| - 1..] == "h";
  }

  /** `Category` on real files: a `.cpp` file is a source and a `.h` file a
      header, checked in that order. */
  lemma CategoryOfFiles(s: string)
    ensures Category(s + SourceSuffix) == 0
    ensures Category(s + HeaderSuffix) == 1
  {
    var t := s + SourceSuffix;
    assert t[|t| - 3..] == "cpp";
    var u := s + HeaderSuffix;
    assert u[|u| - 1..] == "h";
    assert !EndsWith(u, "cpp") by {
      assert u[|u| - 1] == 'h';
      assert forall w: string :: EndsWith(w, "cpp") ==> w[|w| - 3..][2] == w[|w| - 1] == 'p';
    }
  }

  /** The categoriser the legend describes, with the priority order kept:
      a `.cpp` file is a source, a `.h` file a header, a synthetic merged
      node a module, anything else other. */
  function IntendedCategory(node: Node): (c: nat)
    ensures c < |CategoryList|
  {
    if IsSourceName(node) then 0
    else if IsHeaderName(node) then 1
    else if StartsWith(node, MergedMarker) then 2
    else 3
  }

  /** A merged node is a module whatever letter its stem ends with, as long
      as the stem itself carries no file suffix. */
  lemma MergedIsModule(stem: string)
    requires !EndsWith(stem, SourceSuffix) && !EndsWith(stem, HeaderSuffix)
    ensures IntendedCategory(MergedId(stem)) == 2
  {
    var n := MergedId(stem);
    SuffixTests(stem);
    SuffixTests(n);
    if |stem| >= 2 {
      assert n[|n| - 2..] == stem[|stem| - 2..];
    }
    if |stem| >= 4 {
      assert n[|n| - 4..] == stem[|stem| - 4..];
    }
  }

  /** A real file gets the category of its suffix, and a name with neither
      suffix nor marker is other. */
  lemma IntendedCategoryOfFiles(s: string)
    ensures IntendedCategory(s + SourceSuffix) == 0
    ensures IntendedCategory(s + HeaderSuffix) == 1
    ensures !EndsWith(s, SourceSuffix) && !EndsWith(s, HeaderSuffix) && !StartsWith(s, MergedMarker) ==>
              IntendedCategory(s) == 3
  {
    var t := s + SourceSuffix;
    assert t[|t| - 4] == '.' && t[|t| - 3] == 'c' && t[|t| - 2] == 'p' && t[|t| - 1] == 'p';
    var u := s + HeaderSuffix;
    assert u[|u| - 2] == '.' && u[|u| - 1] == 'h';
    SuffixTests(s);
  }

  /** `get_node_name`: the full identity when suffixes are shown, its stem
      otherwise. */
  function NodeName(node: Node, showSuffix: bool): string
  {
    if showSuffix then node else Stem(node)
  }

  /** Shown suffixes leave a label as the identity; hidden suffixes drop a
      `.h` or `.cpp` and leave other identities alone. */
  lemma NodeNameSpec(s: string)
    ensures NodeName(s, true) == s
    ensures NodeName(s + HeaderSuffix, false) == s
    ensures NodeName(s + SourceSuffix, false) == s
    ensures !EndsWith(s, HeaderSuffix) && !EndsWith(s, SourceSuffix) ==> NodeName(s, false) == s
  {
    StemOfHeader(s);
    StemOfSource(s);
    if !EndsWith(s, HeaderSuffix) && !EndsWith(s, SourceSuffix) {
      StemOfOther(s);
    }
  }

  /** With hidden suffixes a header and its source carry the same label. */
  lemma PairSharesLabel(s: string)
    ensures NodeName(s + HeaderSuffix, false) == NodeName(s + SourceSuffix, false)
  {
    NodeNameSpec(s);
  }

  datatype NodeRecord = NodeRecord(name: string, category: nat, degree: nat)
  datatype Link = Link(source: string, target: string)

  /** The record `draw_graph` gives a node: its label, `determ_category` as
      written, and the degree its symbol size is computed from. */
  function RecordOf(edges: set<Edge>, n: Node, showSuffix: bool): (r: NodeRecord)
    ensures r.category < |CategoryList|
    ensures r.name == NodeName(n, showSuffix)
  {
    NodeRecord(NodeName(n, showSuffix), Category(n), Degree(edges, n))
  }

  /** The node list of `draw_graph`, one record per position of the graph's
      node iteration order `order`; the symbol size is a function of
      `degree`. */
  function NodeRecords(order: seq<Node>, edges: set<Edge>, showSuffix: bool): (r: seq<NodeRecord>)
    ensures |r| == |order|
    ensures forall i :: 0 <= i < |r| ==> r[i].category < |CategoryList|
  {
    seq(|order|, i requires 0 <= i < |order| => RecordOf(edges, order[i], showSuffix))
  }

  /** When `order` is an iteration order of the node set, the chart gets
      exactly one record per node: as many records as nodes, each node's own
      record (with the as-written category) at its position, and no record
      for anything that is not a node. */
  lemma NodeRecordsPerNode(order: seq<Node>, nodes: set<Node>, edges: set<Edge>, showSuffix: bool)
    requires Enumerates(order, nodes)
    ensures |NodeRecords(order, edges, showSuffix)| == |nodes|
    ensures forall n :: n in nodes ==>
              exists i :: 0 <= i < |order| && order[i] == n &&
                NodeRecords(order, edges, showSuffix)[i] == NodeRecord(NodeName(n, showSuffix), Category(n), Degree(edges, n))
    ensures forall i :: 0 <= i < |order| ==> order[i] in nodes
  {
    EnumerationLength(order, nodes);
    forall n | n in nodes
      ensures exists i :: 0 <= i < |order| && order[i] == n &&
                NodeRecords(order, edges, showSuffix)[i] == NodeRecord(NodeName(n, showSuffix), Category(n), Degree(edges, n))
    {
      var i :| 0 <= i < |order| && order[i] == n;
      assert NodeRecords(order, edges, showSuffix)[i] == RecordOf(edges, n, showSuffix);
    }
  }

  /** In a graph whose every node touches an edge (a merged graph, or a built
      one) every record has a positive degree. */
  lemma RecordDegreesPositive(order: seq<Node>, edges: set<Edge>, showSuffix: bool)
    requires forall i :: 0 <= i < |order| ==> order[i] in Endpoints(edges)
    ensures forall i :: 0 <= i < |order| ==> NodeRecords(order, edges, showSuffix)[i].degree >= 1
  {
    forall i | 0 <= i < |order|
      ensures NodeRecords(order, edges, showSuffix)[i].degree >= 1
    {
      DegreeZeroIffIsolated(edges, order[i]);
    }
  }

  /** The edge list of `draw_graph`: each edge's endpoints under their labels,
      one link per position of the graph's edge iteration order `order`. */
  function EdgeRecords(order: seq<Edge>, showSuffix: bool): (r: seq<Link>)
    ensures |r| == |order|
  {
    seq(|order|, i requires 0 <= i < |order| =>
      Link(NodeName(order[i].0, showSuffix), NodeName(order[i].1, showSuffix)))
  }

  /** When `order` is an iteration order of the edge set, the chart gets
      exactly one link per edge, joining the labels of its two endpoints, and
      no link that is not an edge. */
  lemma EdgeRecordsPerEdge(order: seq<Edge>, edges: set<Edge>, showSuffix: bool)
    requires Enumerates(order, edges)
    ensures |EdgeRecords(order, showSuffix)| == |edges|
    ensures forall e :: e in edges ==>
              exists i :: 0 <= i < |order| && order[i] == e &&
                EdgeRecords(order, showSuffix)[i] == Link(NodeName(e.0, showSuffix), NodeName(e.1, showSuffix))
    ensures forall i :: 0 <= i < |order| ==> order[i] in edges
  {
    EnumerationLength(order, edges);
    forall e | e in edges
      ensures exists i :: 0 <= i < |order| && order[i] == e &&
                EdgeRecords(order, showSuffix)[i] == Link(NodeName(e.0, showSuffix), NodeName(e.1, showSuffix))
    {
      var i :| 0 <= i < |order| && order[i] == e;
      assert EdgeRecords(order, showSuffix)[i] == Link(NodeName(e.0, showSuffix), NodeName(e.1, showSuffix));
    }
  }

  /** With shown suffixes the links are the edges themselves. */
  lemma EdgeRecordsShowSuffix(order: seq<Edge>)
    ensures forall i :: 0 <= i < |order| ==>
              EdgeRecords(order, true)[i] == Link(order[i].0, order[i].1)
  {
  }
}
