# C++ include graph: a Dafny model of the graph pipeline

`include_graph.py` scans a C++ source tree and builds a directed graph.

- Every `.cpp` and `.h` file contributes one edge per include directive: (its path relative to the root, the text inside the directive's delimiters).
- A header and a source file that share a stem can be merged into one synthetic `[merged]<stem>` "module" node.
- The graph can be cut down to an entry file and everything reachable from it.
- Every node gets a label, a category index into the legend `cpp`, `h`, `"module"`, `other`, and a size derived from its degree.

This project models that pipeline in Dafny and proves what each step promises. The modules are:

- `Strings` covers Python's whitespace class (`str.isspace`, the set `\s` and `strip()` use), `lstrip`/`rstrip`/`strip`, and `startswith`/`endswith`.
- `Stems` models `get_prefix`.
- `Graphs` models the networkx `DiGraph`, as a class holding a node set and an edge set that `add_edge` updates in place. It also defines endpoints and degree.
- `Scanner` covers the directive test `#\s*(include|INCLUDE)`, the name search `[<"](.+)[">]` (leftmost opener, then greedy to the last closer before a line break), `process_line` and `build_graph`.
- `Merger` models `merge_header`: the `can_merge` loop and the edge-copying loop.
- `Reachability` models `nx.descendants` as a worklist closure, plus `subgraph` and the "entry plus descendants" extraction.
- `Render` covers `determ_category`, `get_node_name`, and the node, edge and category record lists of `draw_graph`.

The scanned tree is an input: a sequence of `SourceFile(path, lines)`. Each holds the root-relative path and the lines read before the end of the file or the first decoding failure. Each loop over a Python set or dict picks elements with `:|`, so each result is proved for every iteration order.

Behaviour of the code that is easy to misread:

- Bare include names do merge. `get_prefix` (include_graph.py:16-20) returns a name with neither suffix unchanged, so `get_prefix("vector")` is `vector`, the same stem as `vector.h`. A bare `<vector>` and a scanned `vector.h` are therefore merged (`Merger.BareNameMergesWithHeader`).
- The "empty name" rejection in `process_line` (include_graph.py:37-38) can never fire: `.+` always captures at least one character. `Scanner.IncludedName` keeps the test and proves that its result is never empty.
- The categoriser tests the bare letters `cpp` and `h`, not the suffixes `.cpp` and `.h`. See "## Findings".
- Only the `.cpp` and `.h` globs exist in the code. The file walk is not part of this model, but merging and stems are modelled with exactly these two suffixes.

## Model

| member | source | states |
|---|---|---|
| Strings.TrimLeftSpec | include_graph.py:47 | `lstrip` removes exactly the leading whitespace run: the result is a suffix of the line, everything before it is whitespace, and it does not start with whitespace |
| Strings.TrimRightSpec | include_graph.py:47 | `rstrip` removes exactly the trailing whitespace run: the result is a prefix of the line, everything after it is whitespace, and it does not end with whitespace |
| Strings.StripSpec | include_graph.py:47 | `line.strip()` is a contiguous slice of the line with only whitespace outside it, and it neither starts nor ends with whitespace |
| Strings.TrimLeftSkipsSpace | include_graph.py:29 | leading whitespace is invisible to `lstrip`; this is what lets `\s*` be read as an `lstrip` |
| Stems.LastDot | include_graph.py:18 | the index `rsplit('.', 1)` cuts at is a `.` with no `.` after it; when there is none, the text holds no `.` at all |
| Stems.SuffixTests | include_graph.py:17 | the character tests used for `.h`/`.cpp` agree with `endswith` |
| Stems.StemIsTextBeforeLastDot | include_graph.py:16-18 | for a name ending in `.h` or `.cpp`, the stem is the text before the last `.`, as `rsplit` gives it |
| Stems.StemOfHeader | include_graph.py:16-18 | `get_prefix(s + ".h") == s` |
| Stems.StemOfSource | include_graph.py:16-18 | `get_prefix(s + ".cpp") == s` |
| Stems.StemOfOther | include_graph.py:16-20 | a name ending in neither suffix is returned unchanged |
| Graphs.EndpointsSpec | include_graph.py:40 | a node is an endpoint exactly when some edge starts or ends at it |
| Graphs.EndpointsAdd | include_graph.py:40 | adding edge (u, v) adds exactly u and v to the endpoints |
| Graphs.EndpointsUnion | include_graph.py:40 | the endpoints of a union of edge sets are the union of their endpoints |
| Graphs.DegreeZeroIffIsolated | include_graph.py:82 | `degree` (in-degree plus out-degree) is zero exactly when no edge touches the node |
| Graphs.DiGraph.constructor | include_graph.py:42 | a new graph is empty and valid |
| Graphs.DiGraph.AddEdge | include_graph.py:40 | `add_edge` adds the edge and both endpoints, keeps every edge's endpoints among the nodes, and leaves the graph unchanged when the edge is already there |
| Scanner.DirectiveShape | include_graph.py:29-30 | a stripped line passes the directive test exactly when it is `#`, then a whitespace run (possibly empty), then `include` or `INCLUDE` |
| Scanner.NoKeywordNoName | include_graph.py:29-30 | a `#` followed directly by a word other than `include`/`INCLUDE` yields nothing |
| Scanner.CommentedOutExample | include_graph.py:29-30 | `// #include <x>` yields nothing |
| Scanner.MixedCaseExample | include_graph.py:29-30 | the keyword is case-sensitive: `#Include <x>` yields nothing |
| Scanner.NoDelimiterExample | include_graph.py:32-34 | a bare `#include` yields nothing |
| Scanner.EmptyDelimitersExample | include_graph.py:32-38 | `#include <>` yields nothing, because `.+` needs a character |
| Scanner.LineEnd | include_graph.py:32 | the first line break at or after a position (or the end): the span `.` can cover |
| Scanner.LastCloser | include_graph.py:32 | the last `>`/`"` in a range, with no closer after it, or none in the range at all |
| Scanner.MatchAt | include_graph.py:32 | from an opener, the greedy match ends at the last closer before the line break that leaves at least one character inside; none when there is no such closer |
| Scanner.SearchFrom | include_graph.py:32 | `re.search` finds the leftmost position where the pattern matches, with the greedy end there |
| Scanner.IncludedName | include_graph.py:32-38 | the name a line yields is never empty, and every directive in which the pattern matches yields a name, so the emptiness rejection is dead |
| Scanner.IncludedNameSpec | include_graph.py:29-38 | a line yields a name exactly when it is a directive and the pattern matches somewhere; the name is the text strictly inside the leftmost, longest match |
| Scanner.SearchToLastCloser | include_graph.py:32 | on a line without line breaks that ends with a closer, the search reports the first opener and the final closer |
| Scanner.NameToLastCloser | include_graph.py:29-38 | such a line starting with `#include` yields the text between the first opener and the final closer |
| Scanner.AngleExample | include_graph.py:32-36 | `#include <x>` yields `x` |
| Scanner.QuotedUpperCaseExample | include_graph.py:29-36 | `#  INCLUDE "x"` (two blanks) yields `x` |
| Scanner.MixedDelimiterExample | include_graph.py:32-36 | delimiters need not match: `#include <x"` yields `x` |
| Scanner.GreedyExample | include_graph.py:32-36 | the match runs to the last closer: `#include <a> <b>` yields `a> <b` |
| Scanner.FileEdgesMembers | include_graph.py:46-47 | a file contributes exactly the edges (its path, a name one of its stripped lines yields) |
| Scanner.ScanEdgesMembers | include_graph.py:43-47 | the scan's edges are exactly the pairs (file path, name) for which some line of that file yields that name |
| Scanner.ProcessLine | include_graph.py:27-40 | a line that yields no name leaves the graph unchanged; otherwise exactly the edge (path, name) and its two endpoints are added |
| Scanner.ScanFile | include_graph.py:44-47 | scanning one file adds exactly that file's edges and their endpoints to the graph |
| Scanner.BuildGraph | include_graph.py:23-52 | the built graph's edges are exactly the scan's edges, and its nodes are exactly their endpoints |
| Merger.MergedId | include_graph.py:142 | the synthetic node is the marker `[merged]` followed by the stem |
| Merger.MergeableIffTwoDistinct | include_graph.py:128-134 | a stem is eligible exactly when two distinct nodes have it |
| Merger.MergeableAddSame | include_graph.py:130-134 | visiting a new node makes its stem eligible exactly when the stem was already a key (the `prefix in can_merge` branch) |
| Merger.MergeableAddOther | include_graph.py:129-134 | visiting a node leaves every other stem's eligibility unchanged |
| Merger.MergeEligibility | include_graph.py:128-134 | the `can_merge` map has one key per node stem, and a key maps to true exactly when the stem is eligible |
| Merger.RenameSpec | include_graph.py:138-144 | an endpoint becomes `[merged]` + stem exactly when its stem is eligible, and stays as it is otherwise |
| Merger.MergeHeader | include_graph.py:124-146 | the result's edges are exactly the images of the input edges, each endpoint renamed on its own; its nodes are exactly their endpoints, so isolated nodes are dropped |
| Merger.MergedEdgeOf | include_graph.py:136-145 | an edge with no eligible endpoint is copied verbatim; an eligible endpoint appears only as its synthetic node |
| Merger.MergedEdgesNoLarger | include_graph.py:136-145 | images that coincide collapse, so the merge never has more edges than its input |
| Merger.NoMergeableIsIdentity | include_graph.py:124-146 | with no eligible stem, the merge returns the same edge set |
| Merger.BareNameMergesWithHeader | include_graph.py:128-134 | the bare name `vector` and `vector.h` share a stem and are merged |
| Merger.MergeExampleEligibility | include_graph.py:128-134 | among `a.cpp`, `a.h`, `b.h` the stem `a` is eligible and `b` is not |
| Merger.MergeExample | include_graph.py:124-146 | nodes `a.cpp`, `a.h`, `b.h` with edge `a.cpp -> b.h` merge to the single edge `[merged]a -> b.h`, with nodes `[merged]a` and `b.h` |
| Reachability.ReachableStep | include_graph.py:185 | a node reachable from the entry extends reachability along every edge leaving it |
| Reachability.ClosedContainsReachable | include_graph.py:185 | a node set closed under forward edges contains everything reachable from its members |
| Reachability.ReachSetSpec | include_graph.py:183-185 | the reach set holds exactly the nodes reachable from the entry by zero or more edges |
| Reachability.ReachSetIsLeastClosed | include_graph.py:183-185 | the reach set contains the entry, is closed under forward edges, and lies inside every such set |
| Reachability.Successors | include_graph.py:185 | the successors of a node are exactly the targets of its outgoing edges |
| Reachability.Descendants | include_graph.py:185 | a missing entry is the `MissingEntry` error and not an empty result; otherwise the worklist terminates, cycles included, with exactly the nodes reachable from the entry, the entry itself excluded |
| Reachability.InducedEdges | include_graph.py:183 | the induced edges are the input edges with both ends kept |
| Reachability.Subgraph | include_graph.py:183 | `subgraph(keep)` keeps the graph's nodes that are in `keep` and exactly the edges among them |
| Reachability.ExtractReachable | include_graph.py:183-185 | the extracted graph's nodes are the entry plus everything reachable from it, and its edges are exactly the input edges among those; a missing entry is an error |
| Reachability.ExtractedIsRooted | include_graph.py:183-185 | every extracted node is reachable from the entry inside the extracted graph |
| Reachability.ExtractExample | include_graph.py:183-185 | from `m.cpp` with `m.cpp -> x.h -> y.h` and `z.h -> w.h`, exactly `m.cpp`, `x.h`, `y.h` are kept |
| Reachability.ExtractExampleEdges | include_graph.py:183-185 | in that example only `m.cpp -> x.h` and `x.h -> y.h` remain |
| Reachability.CycleExample | include_graph.py:185 | on the cycle `a -> b -> a` the descendants of `a` are just `b` |
| Render.Category | include_graph.py:63-73 | `determ_category` as written always gives an index into the four-entry category list |
| Render.CategoryOfFiles | include_graph.py:67-70 | as written, `s.cpp` is category 0 and `s.h` is category 1 |
| Render.MergedStemEndingInHIsHeader | include_graph.py:67-73 | as written, the merged node `[merged]graph` is category 1 (header), not 2 (module) |
| Render.IntendedCategory | include_graph.py:61-73 | the corrected categoriser also always gives an index into the category list |
| Render.MergedIsModule | include_graph.py:67-72 | corrected: a merged node whose stem has no file suffix is a module, whatever letter it ends with |
| Render.IntendedCategoryOfFiles | include_graph.py:67-73 | corrected: `s.cpp` is 0 and `s.h` is 1; a name with no suffix and no marker is 3 |
| Render.NodeNameSpec | include_graph.py:84-88 | with suffixes shown, the label is the identity; with them hidden, `.h`/`.cpp` are dropped and other identities are unchanged |
| Render.PairSharesLabel | include_graph.py:84-88 | with suffixes hidden, `s.h` and `s.cpp` get the same label |
| Graphs.EnumerationLength | include_graph.py:90-100 | an iteration order of a node or edge view has exactly one position per element |
| Render.RecordOf | include_graph.py:90-93 | a node's record carries its label and an index into the category list |
| Render.NodeRecords | include_graph.py:90-95 | one record per position of the iteration order, each with a valid category index |
| Render.NodeRecordsPerNode | include_graph.py:90-95 | over an iteration order of the node set, there are as many records as nodes, each node has its record (label, as-written category, degree) at its position, and no record belongs to a non-node |
| Render.RecordDegreesPositive | include_graph.py:90-95 | when every node touches an edge (a built or merged graph), every record's degree is at least 1 |
| Render.EdgeRecords | include_graph.py:96-100 | one link per position of the edge iteration order |
| Render.EdgeRecordsPerEdge | include_graph.py:96-100 | over an iteration order of the edge set, there are as many links as edges, each edge has the link between its endpoints' labels at its position, and no link belongs to a non-edge |
| Render.EdgeRecordsShowSuffix | include_graph.py:96-100 | with suffixes shown, each link is its edge's endpoints verbatim |

## Findings

| source | as written | input that shows it | evidently intended | confidence | as-written member | corrected member |
|---|---|---|---|---|---|---|
| include_graph.py:67-73 | `determ_category` tests `endswith('cpp')` and `endswith('h')` before the `[merged]` marker | the merged node `[merged]graph` (stem `graph`) is classed 1, header | merged nodes fall into the `"module"` category, and files are recognised by `.cpp`/`.h`; the correction also moves other names ending in the letter `h` (`bench`, `foo.hh`) from 1 to 3 | medium; not executed | Render.MergedStemEndingInHIsHeader | Render.MergedIsModule |

`Render.NodeRecords` keeps the categories the code computes (`Render.Category`); `Render.IntendedCategory` is the corrected categoriser.

## Left out

- Command-line parsing and defaults (include_graph.py:149-177) are plumbing. So is the choice between the whole graph and the extraction, and between merging and not merging.
- The filesystem walk is not modelled. That covers `rglob`, opening files, the root-relative path computation and the `UnicodeDecodeError` skip. A scanned tree is given as `SourceFile` values instead, whose lines stop where decoding failed.
- Chart construction and HTML rendering (include_graph.py:105-121) are a foreign library and an output sink.
- The symbol size `floor(3 * log1p(degree)) + 1` (include_graph.py:82) is floating point. Records carry the degree it is computed from.
- Iteration order of networkx node and edge views is not modelled. Loops pick arbitrary elements, and the record functions take the order as a parameter; `Render.NodeRecordsPerNode` and `Render.EdgeRecordsPerEdge` hold for every order that lists the node or edge set once.
- networkx internals are replaced by set semantics. Subgraph views are copies here, and `descendants` is a worklist.
- Python's regular-expression engine is not modelled. The two patterns are specified directly as string predicates.
