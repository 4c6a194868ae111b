/** The pieces of JavaScript string behaviour the boundary resolver relies on:
    `String.prototype.trimEnd`, `trimStart`, and indexing the first or last character. */
module JsString {
  import opened Outcomes

  /** The characters `trimEnd` and `trimStart` remove: the WhiteSpace and LineTerminator
      productions of ECMAScript (section 12.2 and 12.3 of ECMA-262), where WhiteSpace includes
      every character of Unicode general category Zs. */
  predicate IsWs(c: char) {
    || c == '\t' || c == '\U{000B}' || c == '\U{000C}' || c == ' ' || c == '\U{00A0}' || c == '\U{FEFF}'
    || c == '\U{1680}' || ('\U{2000}' <= c <= '\U{200A}') || c == '\U{202F}' || c == '\U{205F}' || c == '\U{3000}'
    || c == '\n' || c == '\r' || c == '\U{2028}' || c == '\U{2029}'
  }

  /** `s.trimEnd()`: the longest prefix of `s` that does not end in whitespace. */
  function TrimEnd(s: string): (r: string)
    ensures r <= s
    ensures |r| == 0 || !IsWs(r[|r| - 1])
    ensures forall i :: |r| <= i < |s| ==> IsWs(s[i])
    decreases |s|
  {
    if |s| > 0 && IsWs(s[|s| - 1]) then TrimEnd(s[..|s| - 1]) else s
  }

  /** `s.trimStart()`: the longest suffix of `s` that does not start with whitespace. */
  function TrimStart(s: string): (r: string)
    ensures |r| <= |s| && r == s[|s| - |r|..]
    ensures |r| == 0 || !IsWs(r[0])
    ensures forall i :: 0 <= i < |s| - |r| ==> IsWs(s[i])
    decreases |s|
  {
    if |s| > 0 && IsWs(s[0]) then TrimStart(s[1..]) else s
  }

  /** `s[s.length - 1]`, which is `undefined` for the empty string. */
  function LastChar(s: string): (r: Option<char>)
    ensures r.Some? <==> |s| > 0
    ensures r.Some? ==> r.value == s[|s| - 1]
  {
    if |s| == 0 then None else Some(s[|s| - 1])
  }

  /** `s[0]`, which is `undefined` for the empty string. */
  function FirstChar(s: string): (r: Option<char>)
    ensures r.Some? <==> |s| > 0
    ensures r.Some? ==> r.value == s[0]
  {
    if |s| == 0 then None else Some(s[0])
  }

  /** The three properties of TrimEnd determine it: any prefix that has them is TrimEnd's result. */
  lemma TrimEndUnique(s: string, p: string)
    requires p <= s
    requires |p| == 0 || !IsWs(p[|p| - 1])
    requires forall i :: |p| <= i < |s| ==> IsWs(s[i])
    ensures TrimEnd(s) == p
  {
  }

  /** The three properties of TrimStart determine it. */
  lemma TrimStartUnique(s: string, p: string)
    requires |p| <= |s| && p == s[|s| - |p|..]
    requires |p| == 0 || !IsWs(p[0])
    requires forall i :: 0 <= i < |s| - |p| ==> IsWs(s[i])
    ensures TrimStart(s) == p
  {
  }

  /** Trimming is idempotent, and appending one space to a trimmed string is undone by trimming. */
  lemma TrimEndAppendSpace(s: string)
    ensures TrimEnd(TrimEnd(s)) == TrimEnd(s)
    ensures TrimEnd(TrimEnd(s) + " ") == TrimEnd(s)
  {
    var t := TrimEnd(s);
    TrimEndUnique(t, t);
    TrimEndUnique(t + " ", t);
  }

  /** Trimming is idempotent, and prepending one space to a trimmed string is undone by trimming. */
  lemma TrimStartPrependSpace(s: string)
    ensures TrimStart(TrimStart(s)) == TrimStart(s)
    ensures TrimStart(" " + TrimStart(s)) == TrimStart(s)
  {
    var t := TrimStart(s);
    assert t[|t| - |t|..] == t;
    TrimStartUnique(t, t);
    var u := " " + t;
    assert u[1..] == t;
    assert TrimStart(u) == TrimStart(u[1..]);
  }
}
