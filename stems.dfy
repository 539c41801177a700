/** The stem of a node identity (`get_prefix`): the identity with a trailing
    `.h` or `.cpp` removed. Header/source pairs are detected by equal stems. */
module Stems {
  import opened Wrappers
  import opened Strings

  const HeaderSuffix := ".h"
  const SourceSuffix := ".cpp"

  /** Index of the last '.' in `s`, as `str.rsplit('.', maxsplit=1)` finds it. */
  function LastDot(s: string): (r: Option<nat>)
    ensures r.Some? ==> r.value < |s| && s[r.value] == '.'
                        && forall k :: r.value < k < |s| ==> s[k] != '.'
    ensures r.None? ==> forall k :: 0 <= k < |s| ==> s[k] != '.'
  {
    if s == [] then None
    else if s[|s| - 1] == '.' then Some(|s| - 1)
    else LastDot(s[..|s| - 1])
  }

  /** A suffix whose only '.' is its first character is found by `LastDot`. */
  lemma {:induction false} LastDotOfSuffix(s: string, suffix: string)
    requires suffix != [] && suffix[0] == '.'
    requires forall k :: 0 < k < |suffix| ==> suffix[k] != '.'
    ensures LastDot(s + suffix) == Some(|s|)
  {
    var t := s + suffix;
    if |suffix| > 1 {
      var shorter := suffix[..|suffix| - 1];
      assert t[..|t| - 1] == s + shorter;
      LastDotOfSuffix(s, shorter);
    }
  }

  /** `node.endswith('.h')`, spelled out character by character. */
  predicate IsHeaderName(node: string)
  {
    |node| >= 2 && node[|node| - 2] == '.' && node[|node| - 1] == 'h'
  }

  /** `node.endswith('.cpp')`, spelled out character by character. */
  predicate IsSourceName(node: string)
  {
    |node| >= 4 && node[|node| - 4] == '.' && node[|node| - 3] == 'c' &&
    node[|node| - 2] == 'p' && node[|node| - 1] == 'p'
  }

  lemma SuffixTests(node: string)
    ensures IsHeaderName(node) <==> EndsWith(node, HeaderSuffix)
    ensures IsSourceName(node) <==> EndsWith(node, SourceSuffix)
  {
    if EndsWith(node, HeaderSuffix) {
      assert node[|node| - 2..][0] == '.' && node[|node| - 2..][1] == 'h';
    }
    if EndsWith(node, SourceSuffix) {
      var t := node[|node| - 4..];
      assert t[0] == '.' && t[1] == 'c' && t[2] == 'p' && t[3] == 'p';
    }
  }

  /** `get_prefix`: a node ending in `.h` or `.cpp` loses that suffix; any
      other node is its own stem. */
  function Stem(node: string): string
  {
    if IsHeaderName(node) then node[..|node| - 2]
    else if IsSourceName(node) then node[..|node| - 4]
    else node
  }

  /** The source cuts at the last '.' (`rsplit('.', maxsplit=1)[0]`); for
      both suffixes that '.' is the suffix's own, so the cut removes exactly
      the suffix. */
  lemma StemIsTextBeforeLastDot(node: string)
    requires EndsWith(node, HeaderSuffix) || EndsWith(node, SourceSuffix)
    ensures LastDot(node).Some? && Stem(node) == node[..LastDot(node).value]
  {
    SuffixTests(node);
    var suffix := if EndsWith(node, HeaderSuffix) then HeaderSuffix else SourceSuffix;
    var base := node[..|node| - |suffix|];
    assert node == base + suffix;
    LastDotOfSuffix(base, suffix);
  }

  lemma StemOfHeader(s: string)
    ensures Stem(s + HeaderSuffix) == s
  {
    var t := s + HeaderSuffix;
    assert t[|t| - 2] == '.' && t[|t| - 1] == 'h';
    assert t[..|t| - 2] == s;
  }

  lemma StemOfSource(s: string)
    ensures Stem(s + SourceSuffix) == s
  {
    var t := s + SourceSuffix;
    assert t[|t| - 4] == '.' && t[|t| - 3] == 'c' && t[|t| - 2] == 'p' && t[|t| - 1] == 'p';
    assert t[..|t| - 4] == s;
  }

  /** A node with neither suffix is its own stem. */
  lemma StemOfOther(node: string)
    requires !EndsWith(node, HeaderSuffix) && !EndsWith(node, SourceSuffix)
    ensures Stem(node) == node
  {
    SuffixTests(node);
  }
}
