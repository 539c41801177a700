/** Character classes, affix tests and whitespace trimming on Python text. */
module Strings {

  /** The characters Python's `str.isspace()` accepts; the regex class `\s`
      and the argument-less `str.strip()` both use this set. */
  predicate IsSpace(c: char)
  {
    || c == ' ' || c == '\t' || c == '\n' || c == '\r' || c == '\U{B}' || c == '\U{C}'
    || ('\U{1C}' <= c <= '\U{1F}')
    || c == '\U{85}' || c == '\U{A0}' || c == '\U{1680}'
    || ('\U{2000}' <= c <= '\U{200A}')
    || c == '\U{2028}' || c == '\U{2029}' || c == '\U{202F}' || c == '\U{205F}' || c == '\U{3000}'
  }

  predicate AllSpace(s: string)
  {
    forall i :: 0 <= i < |s| ==> IsSpace(s[i])
  }

  /** `s.startswith(prefix)` */
  predicate StartsWith(s: string, prefix: string)
  {
    |prefix| <= |s| && s[..|prefix|] == prefix
  }

  /** `s.endswith(suffix)` */
  predicate EndsWith(s: string, suffix: string)
  {
    |suffix| <= |s| && s[|s| - |suffix|..] == suffix
  }

  /** `s.lstrip()` */
  function TrimLeft(s: string): string
  {
    if s != [] && IsSpace(s[0]) then TrimLeft(s[1..]) else s
  }

  /** `s.rstrip()` */
  function TrimRight(s: string): string
  {
    if s != [] && IsSpace(s[|s| - 1]) then TrimRight(s[..|s| - 1]) else s
  }

  /** `s.strip()` */
  function Strip(s: string): string
  {
    TrimRight(TrimLeft(s))
  }

  /** `lstrip` removes exactly the leading run of whitespace: what is left is
      a suffix of `s` that does not start with whitespace. */
  lemma {:induction false} TrimLeftSpec(s: string)
    ensures |TrimLeft(s)| <= |s| && TrimLeft(s) == s[|s| - |TrimLeft(s)|..]
    ensures AllSpace(s[..|s| - |TrimLeft(s)|])
    ensures TrimLeft(s) != [] ==> !IsSpace(TrimLeft(s)[0])
  {
    if s != [] && IsSpace(s[0]) {
      var tail := s[1..];
      TrimLeftSpec(tail);
      var r := TrimLeft(tail);
      assert TrimLeft(s) == r;
      var cut := |tail| - |r|;
      assert tail[cut..] == s[cut + 1..];
      assert forall i :: 0 <= i < cut ==> IsSpace(tail[i]);
      assert forall i :: 0 < i <= cut ==> s[i] == tail[i - 1];
    }
  }

  /** `rstrip` removes exactly the trailing run of whitespace: what is left
      is a prefix of `s` that does not end with whitespace. */
  lemma {:induction false} TrimRightSpec(s: string)
    ensures |TrimRight(s)| <= |s| && TrimRight(s) == s[..|TrimRight(s)|]
    ensures AllSpace(s[|TrimRight(s)|..])
    ensures TrimRight(s) != [] ==> !IsSpace(TrimRight(s)[|TrimRight(s)| - 1])
  {
    if s != [] && IsSpace(s[|s| - 1]) {
      var init := s[..|s| - 1];
      TrimRightSpec(init);
      var r := TrimRight(init);
      assert TrimRight(s) == r;
      assert s[..|r|] == init[..|r|];
      assert s[|r|..] == init[|r|..] + [s[|s| - 1]];
    }
  }

  /** `strip` keeps a contiguous slice of `s` with whitespace only outside
      it, and the slice neither starts nor ends with whitespace. */
  lemma StripSpec(s: string)
    ensures exists i :: 0 <= i <= |s| - |Strip(s)| && Strip(s) == s[i..i + |Strip(s)|]
                        && AllSpace(s[..i]) && AllSpace(s[i + |Strip(s)|..])
    ensures Strip(s) != [] ==> !IsSpace(Strip(s)[0]) && !IsSpace(Strip(s)[|Strip(s)| - 1])
  {
    var t := TrimLeft(s);
    var r := TrimRight(t);
    TrimLeftSpec(s);
    TrimRightSpec(t);
    var i := |s| - |t|;
    assert r == s[i..i + |r|];
    assert s[i + |r|..] == t[|r|..];
  }

  /** Leading whitespace is invisible to `lstrip`. */
  lemma {:induction false} TrimLeftSkipsSpace(w: string, rest: string)
    requires AllSpace(w)
    ensures TrimLeft(w + rest) == TrimLeft(rest)
  {
    if w != [] {
      var s := w + rest;
      assert s[0] == w[0] && IsSpace(s[0]);
      assert s[1..] == w[1..] + rest;
      TrimLeftSkipsSpace(w[1..], rest);
      assert TrimLeft(s) == TrimLeft(s[1..]);
    } else {
      assert w + rest == rest;
    }
  }
}
