/** The boundary resolver: what one iteration of the inline-container loop does with the leaves
    that touch the boundary between two siblings. */
module Boundary {
  import opened Outcomes
  import opened JsString
  import opened Mdast
  import opened Locate

  /** What `concatToken(left, right, lastAddSpace)` returns. */
  datatype Concat = Concat(left: string, right: string, addSpace: bool, addSpaceNext: bool)

  /** The collaborators whose bodies live outside the walker: `formatText`, `formatMath` and
      `concatToken` of helper.js and `shouldAddSpace` of rule.js. They are taken as parameters,
      so every property holds for every choice of them; being Dafny functions, they are total,
      deterministic and cannot throw. */
  datatype Env = Env(
    formatText: string -> string,
    formatMath: string -> string,
    concatToken: (string, string, bool) -> Concat,
    shouldAddSpace: (Option<char>, Option<char>, bool) -> bool)

  /** The character that stands for an inline-math or inline-code token when asking
      `shouldAddSpace` about a text/token boundary. */
  const TokenSentinel: char := 'A'

  /** The left text leaf's new value at a Text -> inlineMath/inlineCode boundary: trailing
      whitespace removed, then one space put back when `shouldAddSpace` asks for it. */
  function SpaceBeforeToken(env: Env, v: string): (r: string)
    ensures TrimEnd(r) == TrimEnd(v)
    ensures |r| <= |TrimEnd(r)| + 1
    ensures |r| > |TrimEnd(r)| <==> env.shouldAddSpace(LastChar(TrimEnd(v)), Some(TokenSentinel), TrimEnd(v) != v)
    ensures |r| > |TrimEnd(r)| ==> r[|r| - 1] == ' '
  {
    TrimEndAppendSpace(v);
    var s := TrimEnd(v);
    if env.shouldAddSpace(LastChar(s), Some(TokenSentinel), s != v) then s + " " else s
  }

  /** The right text leaf's new value at an inlineMath/inlineCode -> Text boundary: leading
      whitespace removed, then one space put back when `shouldAddSpace` asks for it. */
  function SpaceAfterToken(env: Env, v: string): (r: string)
    ensures TrimStart(r) == TrimStart(v)
    ensures |r| <= |TrimStart(r)| + 1
    ensures |r| > |TrimStart(r)| <==> env.shouldAddSpace(Some(TokenSentinel), FirstChar(TrimStart(v)), TrimStart(v) != v)
    ensures |r| > |TrimStart(r)| ==> r[0] == ' '
  {
    TrimStartPrependSpace(v);
    var s := TrimStart(v);
    if env.shouldAddSpace(Some(TokenSentinel), FirstChar(s), s != v) then " " + s else s
  }

  /** The two siblings after the boundary step, whether a lone-space node goes between them,
      and the next value of `lastAddSpace`. */
  datatype Joint = Joint(left: Node, right: Node, addSpace: bool, addSpaceNext: bool)

  /** Text <-> Text: `concatToken` rewrites both values and decides the splice and the flag. */
  function JoinTexts(env: Env, prev: Node, next: Node, lastAddSpace: bool): (j: Joint)
    requires HasLastLeaf(prev) && LastLeaf(prev).leafType == Text
    requires HasFirstLeaf(next) && FirstLeaf(next).leafType == Text
    ensures OnlyLastLeafChanged(prev, j.left) && OnlyFirstLeafChanged(next, j.right)
    ensures
      var c := env.concatToken(LastLeaf(prev).value, FirstLeaf(next).value, lastAddSpace);
      && LastLeaf(j.left) == Leaf(Text, c.left)
      && FirstLeaf(j.right) == Leaf(Text, c.right)
      && j.addSpace == c.addSpace
      && j.addSpaceNext == c.addSpaceNext
  {
    var c := env.concatToken(LastLeaf(prev).value, FirstLeaf(next).value, lastAddSpace);
    Joint(SetLastLeafValue(prev, c.left), SetFirstLeafValue(next, c.right), c.addSpace, c.addSpaceNext)
  }

  /** Text -> token: only the text before the token is rewritten; the flag is kept. */
  function JoinTextToken(env: Env, prev: Node, next: Node, lastAddSpace: bool): (j: Joint)
    requires HasLastLeaf(prev) && LastLeaf(prev).leafType == Text
    requires HasFirstLeaf(next)
    ensures OnlyLastLeafChanged(prev, j.left) && j.right == next
    ensures LastLeaf(j.left) == Leaf(Text, SpaceBeforeToken(env, LastLeaf(prev).value))
    ensures !j.addSpace && j.addSpaceNext == lastAddSpace
  {
    Joint(SetLastLeafValue(prev, SpaceBeforeToken(env, LastLeaf(prev).value)), next, false, lastAddSpace)
  }

  /** Token -> text: only the text after the token is rewritten; the flag is kept. */
  function JoinTokenText(env: Env, prev: Node, next: Node, lastAddSpace: bool): (j: Joint)
    requires HasLastLeaf(prev)
    requires HasFirstLeaf(next) && FirstLeaf(next).leafType == Text
    ensures j.left == prev && OnlyFirstLeafChanged(next, j.right)
    ensures FirstLeaf(j.right) == Leaf(Text, SpaceAfterToken(env, FirstLeaf(next).value))
    ensures !j.addSpace && j.addSpaceNext == lastAddSpace
  {
    Joint(prev, SetFirstLeafValue(next, SpaceAfterToken(env, FirstLeaf(next).value)), false, lastAddSpace)
  }

  /** One boundary step between the (already formatted) siblings `prev` and `next`. The rules
      for each pair of leaf kinds are stated by the lemmas below. */
  function Resolve(env: Env, prev: Node, next: Node, lastAddSpace: bool): (r: Outcome<Joint>)
    // the locator throws on an empty container, and only then
    ensures r.Ok? <==> HasLastLeaf(prev) && HasFirstLeaf(next)
    // at most the boundary leaf of each sibling changes: no node added, removed or re-typed
    ensures r.Ok? ==> OnlyLastLeafChanged(prev, r.value.left) && OnlyFirstLeafChanged(next, r.value.right)
    // only text leaves are written, and a lone space is spliced only between two text leaves
    ensures r.Ok? && r.value.left != prev ==> LastLeaf(prev).leafType == Text
    ensures r.Ok? && r.value.right != next ==> FirstLeaf(next).leafType == Text
    ensures r.Ok? && r.value.addSpace ==> LastLeaf(prev).leafType == Text && FirstLeaf(next).leafType == Text
  {
    if !HasLastLeaf(prev) || !HasFirstLeaf(next) then Fail(EmptyContainer)
    else
      var last := LastLeaf(prev);
      var first := FirstLeaf(next);
      if last.leafType == Text then
        if first.leafType == Text then Ok(JoinTexts(env, prev, next, lastAddSpace))
        else if IsToken(first.leafType) then Ok(JoinTextToken(env, prev, next, lastAddSpace))
        else Ok(Joint(prev, next, false, lastAddSpace))
      else if IsToken(last.leafType) then
        if first.leafType == Text then Ok(JoinTokenText(env, prev, next, lastAddSpace))
        else Ok(Joint(prev, next, false, lastAddSpace))
      else
        Ok(Joint(prev, next, false, false))
  }

  /** Text <-> Text: `concatToken` decides both boundary values, the splice and the carried flag. */
  lemma ResolveTextText(env: Env, prev: Node, next: Node, lastAddSpace: bool)
    requires HasLastLeaf(prev) && LastLeaf(prev).leafType == Text
    requires HasFirstLeaf(next) && FirstLeaf(next).leafType == Text
    ensures Resolve(env, prev, next, lastAddSpace).Ok?
    ensures
      var j := Resolve(env, prev, next, lastAddSpace).value;
      var c := env.concatToken(LastLeaf(prev).value, FirstLeaf(next).value, lastAddSpace);
      && LastLeaf(j.left) == Leaf(Text, c.left)
      && FirstLeaf(j.right) == Leaf(Text, c.right)
      && j.addSpace == c.addSpace
      && j.addSpaceNext == c.addSpaceNext
  {
  }

  /** Text -> inlineMath/inlineCode: the text is trimmed at the end and given back at most one
      space; the token and the flag are untouched, and nothing is spliced. */
  lemma ResolveTextToken(env: Env, prev: Node, next: Node, lastAddSpace: bool)
    requires HasLastLeaf(prev) && LastLeaf(prev).leafType == Text
    requires HasFirstLeaf(next) && IsToken(FirstLeaf(next).leafType)
    ensures Resolve(env, prev, next, lastAddSpace).Ok?
    ensures
      var j := Resolve(env, prev, next, lastAddSpace).value;
      && LastLeaf(j.left) == Leaf(Text, SpaceBeforeToken(env, LastLeaf(prev).value))
      && j.right == next && !j.addSpace && j.addSpaceNext == lastAddSpace
  {
  }

  /** inlineMath/inlineCode -> Text: the text is trimmed at the start and given back at most one
      space; the token and the flag are untouched, and nothing is spliced. */
  lemma ResolveTokenText(env: Env, prev: Node, next: Node, lastAddSpace: bool)
    requires HasLastLeaf(prev) && IsToken(LastLeaf(prev).leafType)
    requires HasFirstLeaf(next) && FirstLeaf(next).leafType == Text
    ensures Resolve(env, prev, next, lastAddSpace).Ok?
    ensures
      var j := Resolve(env, prev, next, lastAddSpace).value;
      && FirstLeaf(j.right) == Leaf(Text, SpaceAfterToken(env, FirstLeaf(next).value))
      && j.left == prev && !j.addSpace && j.addSpaceNext == lastAddSpace
  {
  }

  /** The carried flag: set only at Text <-> Text, reset exactly when the left boundary leaf is
      neither text nor a token, kept in every other case. */
  lemma ResolveFlag(env: Env, prev: Node, next: Node, lastAddSpace: bool)
    requires HasLastLeaf(prev) && HasFirstLeaf(next)
    ensures
      var j := Resolve(env, prev, next, lastAddSpace).value;
      var l, f := LastLeaf(prev).leafType, FirstLeaf(next).leafType;
      && (l == Text && f == Text ==>
            j.addSpaceNext == env.concatToken(LastLeaf(prev).value, FirstLeaf(next).value, lastAddSpace).addSpaceNext)
      && (!(l == Text || IsToken(l)) ==> !j.addSpaceNext)
      && ((l == Text || IsToken(l)) && !(l == Text && f == Text) ==> j.addSpaceNext == lastAddSpace)
  {
  }

  /** Any pair other than Text <-> Text, Text -> token and token -> Text leaves both siblings
      alone. */
  lemma ResolveOtherPairs(env: Env, prev: Node, next: Node, lastAddSpace: bool)
    requires HasLastLeaf(prev) && HasFirstLeaf(next)
    requires !(LastLeaf(prev).leafType == Text && (FirstLeaf(next).leafType == Text || IsToken(FirstLeaf(next).leafType)))
    requires !(IsToken(LastLeaf(prev).leafType) && FirstLeaf(next).leafType == Text)
    ensures
      var j := Resolve(env, prev, next, lastAddSpace).value;
      j.left == prev && j.right == next && !j.addSpace
  {
  }
}
