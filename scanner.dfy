/** Directive scanner and graph builder (`build_graph` / `process_line`):
    every scanned line that is an include directive adds the edge
    (relative path of the file, included name). */
module Scanner {
  import opened Wrappers
  import opened Strings
  import opened Graphs

  /** A scanned file: its path relative to the scan root and the lines read
      from it before the end of the file or the first decoding failure. */
  datatype SourceFile = SourceFile(path: Node, lines: seq<string>)

  // ---------------------------------------------------------------------
  // The directive test: re.match(r'#\s*(include|INCLUDE)', line)
  // ---------------------------------------------------------------------

  predicate StartsWithKeyword(s: string)
  {
    StartsWith(s, "include") || StartsWith(s, "INCLUDE")
  }

  /** The line begins with '#', then whitespace (possibly none), then
      `include` or `INCLUDE`. Nothing is required after the keyword. */
  predicate IsDirective(line: string)
  {
    |line| >= 1 && line[0] == '#' && StartsWithKeyword(TrimLeft(line[1..]))
  }

  /** The directive test read as the regular expression: some split of the
      line into '#', an all-whitespace run and a text starting with the keyword. */
  lemma DirectiveShape(line: string)
    ensures IsDirective(line) <==>
              |line| >= 1 && line[0] == '#' &&
              exists k :: 1 <= k <= |line| && AllSpace(line[1..k]) && StartsWithKeyword(line[k..])
  {
    if IsDirective(line) {
      var s := line[1..];
      var r := TrimLeft(s);
      TrimLeftSpec(s);
      var k := 1 + |s| - |r|;
      assert line[1..k] == s[..|s| - |r|];
      assert line[k..] == r;
    }
    if |line| >= 1 && line[0] == '#' &&
       exists k :: 1 <= k <= |line| && AllSpace(line[1..k]) && StartsWithKeyword(line[k..])
    {
      var k :| 1 <= k <= |line| && AllSpace(line[1..k]) && StartsWithKeyword(line[k..]);
      var rest := line[k..];
      assert line[1..] == line[1..k] + rest;
      TrimLeftSkipsSpace(line[1..k], rest);
      KeywordIsNotSpace(rest);
    }
  }

  /** The keyword starts with a letter, which `lstrip` leaves in place. */
  lemma KeywordIsNotSpace(rest: string)
    requires StartsWithKeyword(rest)
    ensures TrimLeft(rest) == rest
  {
    assert rest[0] == 'i' || rest[0] == 'I';
  }

  // ---------------------------------------------------------------------
  // The name extraction: re.search('[<"](?P<include>.+)[">]', line)
  // ---------------------------------------------------------------------

  predicate IsOpener(c: char)
  {
    c == '<' || c == '"'
  }

  predicate IsCloser(c: char)
  {
    c == '"' || c == '>'
  }

  /** The pattern matches `line[p..q + 1]`: an opener at `p`, a closer at `q`,
      and at least one character between them, none of them a newline
      (the regex `.` does not match a newline). */
  ghost predicate MatchesSpan(line: string, p: int, q: int)
  {
    0 <= p && p + 2 <= q < |line| && IsOpener(line[p]) && IsCloser(line[q]) &&
    forall k :: p < k < q ==> line[k] != '\n'
  }

  /** The span `re.search` reports: the leftmost start, and for it the
      longest match (the greedy `.+`). */
  ghost predicate IsSearchResult(line: string, p: int, q: int)
  {
    MatchesSpan(line, p, q) &&
    forall p', q' :: MatchesSpan(line, p', q') ==> p < p' || (p == p' && q' <= q)
  }

  /** Index of the first newline at or after `i`, or the length of `s`. */
  function LineEnd(s: string, i: nat): (e: nat)
    requires i <= |s|
    ensures i <= e <= |s|
    ensures forall k :: i <= k < e ==> s[k] != '\n'
    ensures e < |s| ==> s[e] == '\n'
    decreases |s| - i
  {
    if i == |s| || s[i] == '\n' then i else LineEnd(s, i + 1)
  }

  /** The greatest `q` with `lo <= q < hi` and a closer at `s[q]`. */
  function LastCloser(s: string, lo: nat, hi: nat): (r: Option<nat>)
    requires hi <= |s|
    ensures r.Some? ==> lo <= r.value < hi && IsCloser(s[r.value]) &&
                        forall k :: r.value < k < hi ==> !IsCloser(s[k])
    ensures r.None? ==> forall k :: lo <= k < hi ==> !IsCloser(s[k])
    decreases hi
  {
    if hi <= lo then None
    else if IsCloser(s[hi - 1]) then Some(hi - 1)
    else LastCloser(s, lo, hi - 1)
  }

  /** The pattern anchored at `p`: `.+` runs to the end of the line and
      backs off to the last closer at least two places after `p`. */
  function MatchAt(s: string, p: nat): (r: Option<nat>)
    requires p < |s|
    ensures r.Some? ==> MatchesSpan(s, p, r.value)
    ensures forall q :: MatchesSpan(s, p, q) ==> r.Some? && q <= r.value
  {
    if IsOpener(s[p]) then
      var e := LineEnd(s, p + 1);
      var r := LastCloser(s, p + 2, e);
      assert forall q :: MatchesSpan(s, p, q) ==> q < e;
      r
    else
      None
  }

  /** `re.search` from position `p` on: the first start that matches. */
  function SearchFrom(s: string, p: nat): (r: Option<(nat, nat)>)
    requires p <= |s|
    ensures r.Some? ==> p <= r.value.0 && MatchesSpan(s, r.value.0, r.value.1)
    ensures forall p', q' :: p <= p' && MatchesSpan(s, p', q') ==>
              r.Some? && (r.value.0 < p' || (r.value.0 == p' && q' <= r.value.1))
    decreases |s| - p
  {
    if p == |s| then None
    else
      match MatchAt(s, p)
      case Some(q) => Some((p, q))
      case None => SearchFrom(s, p + 1)
  }

  /** `process_line`'s decision: the included name a stripped line yields,
      if any. The name is never empty, so the source's emptiness test never
      fires. */
  function IncludedName(line: string): (r: Option<Node>)
    ensures r.Some? ==> r.value != []
    ensures IsDirective(line) && SearchFrom(line, 0).Some? ==> r.Some?
  {
    if !IsDirective(line) then None
    else
      match SearchFrom(line, 0)
      case None => None
      case Some(m) =>
        var name := line[m.0 + 1..m.1];
        if name == [] then None else Some(name)
  }

  /** A stripped line yields a name exactly when it is a directive and the
      pattern matches somewhere in it; the name is the text strictly inside
      the span `re.search` reports. */
  lemma IncludedNameSpec(line: string)
    ensures IncludedName(line).Some? <==> IsDirective(line) && exists p, q :: MatchesSpan(line, p, q)
    ensures IncludedName(line).Some? ==>
              exists p, q :: IsSearchResult(line, p, q) && IncludedName(line).value == line[p + 1..q]
  {
    if IsDirective(line) {
      var m := SearchFrom(line, 0);
      if m.Some? {
        assert IsSearchResult(line, m.value.0, m.value.1);
      }
    }
  }

  /** Positions that hold no opener are skipped by the search. */
  lemma {:induction false} SearchSkipsNonOpeners(s: string, p: nat, k: nat)
    requires p <= k <= |s|
    requires forall i :: p <= i < k ==> !IsOpener(s[i])
    ensures SearchFrom(s, p) == SearchFrom(s, k)
    decreases k - p
  {
    if p < k {
      SearchSkipsNonOpeners(s, p + 1, k);
    }
  }

  /** On a line without newlines `.+` can run to the end. */
  lemma {:induction false} LineEndWithoutNewline(s: string, i: nat)
    requires i <= |s|
    requires forall k :: i <= k < |s| ==> s[k] != '\n'
    ensures LineEnd(s, i) == |s|
    decreases |s| - i
  {
    if i < |s| {
      LineEndWithoutNewline(s, i + 1);
    }
  }

  /** On a line without newlines that ends with a closer, the search
      reports the first opener and the final closer, provided at least one
      character lies between them. */
  lemma SearchToLastCloser(s: string, p: nat)
    requires p + 2 < |s|
    requires forall i :: 0 <= i < p ==> !IsOpener(s[i])
    requires IsOpener(s[p]) && IsCloser(s[|s| - 1])
    requires forall k :: p < k < |s| ==> s[k] != '\n'
    ensures SearchFrom(s, 0) == Some((p, |s| - 1))
  {
    SearchSkipsNonOpeners(s, 0, p);
    LineEndWithoutNewline(s, p + 1);
  }

  /** A directive spelled `#include` followed by that kind of line yields
      the text from after the first opener up to the final closer. */
  lemma NameToLastCloser(s: string, p: nat)
    requires StartsWith(s, "#include")
    requires p + 2 < |s|
    requires forall i :: 0 <= i < p ==> !IsOpener(s[i])
    requires IsOpener(s[p]) && IsCloser(s[|s| - 1])
    requires forall k :: p < k < |s| ==> s[k] != '\n'
    ensures IncludedName(s) == Some(s[p + 1..|s| - 1])
  {
    assert s[1..][..7] == "include";
    KeywordIsNotSpace(s[1..]);
    SearchToLastCloser(s, p);
  }

  /** The usual angle-bracket directive. */
  lemma AngleExample()
    ensures IncludedName("#include <x>") == Some("x")
  {
    var a := "#include <x>";
    assert a[10..11] == "x";
    assert a[..8] == "#include";
    NameToLastCloser(a, 9);
  }

  /** The delimiters need not pair up. */
  lemma MixedDelimiterExample()
    ensures IncludedName("#include <x\"") == Some("x")
  {
    var c := "#include <x\"";
    assert c[10..11] == "x";
    assert c[..8] == "#include";
    NameToLastCloser(c, 9);
  }

  /** The match runs from the leftmost opener to the last closer. */
  lemma GreedyExample()
    ensures IncludedName("#include <a> <b>") == Some("a> <b")
  {
    var s := "#include <a> <b>";
    assert s[10..15] == "a> <b";
    assert s[..8] == "#include";
    NameToLastCloser(s, 9);
  }

  /** The upper-case keyword after two blanks, with quotes. */
  lemma QuotedUpperCaseExample()
    ensures IncludedName("#  INCLUDE \"x\"") == Some("x")
  {
    var b := "#  INCLUDE \"x\"";
    assert b[12..13] == "x";
    assert b[1..][1..][1..] == b[3..];
    KeywordIsNotSpace(b[3..]);
    SearchToLastCloser(b, 11);
  }

  /** A commented-out directive is not a directive. */
  lemma CommentedOutExample()
    ensures IncludedName("// #include <x>") == None
  {
  }

  /** A '#' directly followed by a word other than the keyword is not a
      directive. */
  lemma NoKeywordNoName(s: string)
    requires |s| >= 2 && s[0] == '#' && !IsSpace(s[1])
    requires !StartsWithKeyword(s[1..])
    ensures IncludedName(s) == None
  {
  }

  /** The keyword is matched case-sensitively: `Include` is neither spelling. */
  lemma MixedCaseExample()
    ensures IncludedName("#Include <x>") == None
  {
    var m := "#Include <x>";
    var w := m[1..];
    assert w[0] == 'I' && w[1] == 'n';
    assert !StartsWithKeyword(w) by {
      assert w[..7][0] == 'I' && w[..7][1] == 'n';
    }
    NoKeywordNoName(m);
  }

  /** A directive without delimiters yields nothing. */
  lemma NoDelimiterExample()
    ensures IncludedName("#include") == None
  {
    var e := "#include";
    SearchSkipsNonOpeners(e, 0, |e|);
  }

  /** An empty pair of delimiters yields nothing: `.+` needs a character. */
  lemma EmptyDelimitersExample()
    ensures IncludedName("#include <>") == None
  {
    var d := "#include <>";
    SearchSkipsNonOpeners(d, 0, 9);
    assert LineEnd(d, 10) == 11;
    assert SearchFrom(d, 10) == None;
  }

  // ---------------------------------------------------------------------
  // The edge set a scan produces
  // ---------------------------------------------------------------------

  /** The name a raw line of a file yields: `process_line` on `line.strip()`. */
  function LineName(rawLine: string): Option<Node>
  {
    IncludedName(Strip(rawLine))
  }

  /** The edge a line naming `name` adds to the file at `path`, if any. */
  function NameEdges(path: Node, name: Option<Node>): set<Edge>
  {
    match name
    case None => {}
    case Some(n) => {(path, n)}
  }

  /** Edges contributed by one raw line of the file at `path`. */
  function LineEdges(path: Node, rawLine: string): set<Edge>
  {
    NameEdges(path, LineName(rawLine))
  }

  /** Edges contributed by the lines of one file. */
  function FileEdges(path: Node, lines: seq<string>): set<Edge>
  {
    if lines == [] then {}
    else FileEdges(path, lines[..|lines| - 1]) + LineEdges(path, lines[|lines| - 1])
  }

  /** Edges contributed by a sequence of scanned files. */
  function ScanEdges(files: seq<SourceFile>): set<Edge>
  {
    if files == [] then {}
    else ScanEdges(files[..|files| - 1]) + FileEdges(files[|files| - 1].path, files[|files| - 1].lines)
  }

  /** One file's edges are the pairs (its path, a name one of its lines yields). */
  lemma {:induction false} FileEdgesMembers(path: Node, lines: seq<string>, u: Node, v: Node)
    ensures (u, v) in FileEdges(path, lines) <==>
              u == path && exists j :: 0 <= j < |lines| && LineName(lines[j]) == Some(v)
  {
    if lines != [] {
      var init := lines[..|lines| - 1];
      FileEdgesMembers(path, init, u, v);
      assert forall j :: 0 <= j < |init| ==> init[j] == lines[j];
    }
  }

  /** The scan's edges are exactly the pairs (file path, name) for which some
      line of that file yields that name. */
  lemma {:induction false} ScanEdgesMembers(files: seq<SourceFile>, u: Node, v: Node)
    ensures (u, v) in ScanEdges(files) <==>
              exists i, j :: 0 <= i < |files| && files[i].path == u &&
                             0 <= j < |files[i].lines| && LineName(files[i].lines[j]) == Some(v)
  {
    if files != [] {
      var init := files[..|files| - 1];
      var last := files[|files| - 1];
      ScanEdgesMembers(init, u, v);
      FileEdgesMembers(last.path, last.lines, u, v);
      assert forall i :: 0 <= i < |init| ==> init[i] == files[i];
    }
  }

  // ---------------------------------------------------------------------
  // The builder
  // ---------------------------------------------------------------------

  /** `process_line`: add the edge (path, name) when the stripped line is a
      directive naming something; leave the graph alone otherwise. */
  method ProcessLine(g: DiGraph, strippedLine: string, path: Node)
    requires g.Valid()
    modifies g
    ensures g.Valid()
    ensures g.edges == old(g.edges) + NameEdges(path, IncludedName(strippedLine))
    ensures g.nodes == old(g.nodes) + Endpoints(NameEdges(path, IncludedName(strippedLine)))
  {
    if !IsDirective(strippedLine) {
      return;
    }
    var m := SearchFrom(strippedLine, 0);
    if m.None? {
      return;
    }
    var name := strippedLine[m.value.0 + 1..m.value.1];
    if name == [] {
      return;
    }
    g.AddEdge(path, name);
  }

  /** The body of `build_graph`'s file loop: every line of one file, in
      order, stripped and handed to `process_line`. */
  method ScanFile(g: DiGraph, file: SourceFile)
    requires g.Valid()
    modifies g
    ensures g.Valid()
    ensures g.edges == old(g.edges) + FileEdges(file.path, file.lines)
    ensures g.nodes == old(g.nodes) + Endpoints(FileEdges(file.path, file.lines))
  {
    for j := 0 to |file.lines|
      invariant g.Valid()
      invariant g.edges == old(g.edges) + FileEdges(file.path, file.lines[..j])
      invariant g.nodes == old(g.nodes) + Endpoints(FileEdges(file.path, file.lines[..j]))
    {
      ghost var done := FileEdges(file.path, file.lines[..j]);
      ghost var step := LineEdges(file.path, file.lines[j]);
      ProcessLine(g, Strip(file.lines[j]), file.path);
      assert FileEdges(file.path, file.lines[..j + 1]) == done + step by {
        assert file.lines[..j + 1][..j] == file.lines[..j];
      }
      assert Endpoints(done + step) == Endpoints(done) + Endpoints(step) by {
        EndpointsUnion(done, step);
      }
    }
    assert file.lines[..|file.lines|] == file.lines;
  }

  /** `build_graph`: fold every line of every file into a fresh graph.
      Its nodes are exactly the endpoints of its edges. */
  method BuildGraph(files: seq<SourceFile>) returns (g: DiGraph)
    ensures fresh(g) && g.Valid()
    ensures g.edges == ScanEdges(files)
    ensures g.nodes == Endpoints(g.edges)
  {
    g := new DiGraph();
    for i := 0 to |files|
      invariant fresh(g) && g.Valid()
      invariant g.edges == ScanEdges(files[..i])
      invariant g.nodes == Endpoints(g.edges)
    {
      ghost var before := g.edges;
      ScanFile(g, files[i]);
      assert files[..i + 1][..i] == files[..i];
      EndpointsUnion(before, FileEdges(files[i].path, files[i].lines));
    }
    assert files[..|files|] == files;
  }
}
