/** Further promises of the walker: each child is formatted exactly once, before it is read as a
    boundary operand; short and structural containers never run a boundary step; untouched node
    kinds stay untouched; and worked scenarios. */
module Properties {
  import opened Outcomes
  import opened JsString
  import opened Mdast
  import opened Locate
  import opened Boundary
  import opened Walker
  import opened Conformance

  /** The boundary loop run over children that are all formatted already. It never calls
      `Format`, so it is the reference for "format every child once, then resolve". */
  function Stitch(env: Env, done: seq<Node>, prev: Node, fs: seq<Node>, lastAddSpace: bool): Outcome<seq<Node>>
    decreases fs
  {
    if |fs| == 0 then Ok(done + [prev])
    else
      var j :- Resolve(env, prev, fs[0], lastAddSpace);
      Stitch(env, done + [j.left] + (if j.addSpace then [Space] else []), j.right, fs[1..], j.addSpaceNext)
  }

  /** The interleaved loop equals formatting every remaining child exactly once and then running
      the boundary loop over the results: no child is formatted twice, none is read before it is
      formatted, and the spliced spaces are never formatted. */
  lemma {:induction false} PassFormatsEachChildOnce(env: Env, done: seq<Node>, prev: Node, rest: seq<Node>, flag: bool)
    ensures FormatEach(env, rest).Fail? ==> Pass(env, done, prev, rest, flag).Fail?
    ensures FormatEach(env, rest).Ok? ==> Pass(env, done, prev, rest, flag) == Stitch(env, done, prev, FormatEach(env, rest).value, flag)
    decreases rest
  {
    if |rest| > 0 && Format(env, rest[0]).Ok? {
      var f := Format(env, rest[0]).value;
      var rj := Resolve(env, prev, f, flag);
      if rj.Ok? {
        var j := rj.value;
        var done' := done + [j.left] + (if j.addSpace then [Space] else []);
        PassFormatsEachChildOnce(env, done', j.right, rest[1..], j.addSpaceNext);
        if FormatEach(env, rest).Ok? {
          var fs := FormatEach(env, rest).value;
          assert fs[0] == f;
          assert fs[1..] == FormatEach(env, rest[1..]).value;
        }
      }
    }
  }

  /** An inline-bearing container formats each child exactly once, then resolves the boundaries
      left to right with `lastAddSpace` starting false. */
  lemma InlineFormatsEachChildOnce(env: Env, cs: seq<Node>)
    ensures FormatEach(env, cs).Fail? ==> InlineChildren(env, cs).Fail?
    ensures FormatEach(env, cs).Ok? && |cs| > 0 ==>
      InlineChildren(env, cs) == Stitch(env, [], FormatEach(env, cs).value[0], FormatEach(env, cs).value[1..], false)
  {
    if |cs| > 0 && Format(env, cs[0]).Ok? {
      var f := Format(env, cs[0]).value;
      PassFormatsEachChildOnce(env, [], f, cs[1..], false);
      if FormatEach(env, cs).Ok? {
        assert FormatEach(env, cs).value[1..] == FormatEach(env, cs[1..]).value;
      }
    }
  }

  /** An inline-bearing container with zero or one child runs no boundary step: it behaves
      exactly like a structural container. */
  lemma ShortInlineContainer(env: Env, t: ParentType, cs: seq<Node>)
    requires IsInline(t) && |cs| <= 1
    ensures Format(env, Parent(t, cs)).Ok? <==> FormatEach(env, cs).Ok?
    ensures Format(env, Parent(t, cs)).Ok? ==> Format(env, Parent(t, cs)).value == Parent(t, FormatEach(env, cs).value)
  {
    if |cs| == 1 {
      assert cs[1..] == [];
      if Format(env, cs[0]).Ok? {
        var f := Format(env, cs[0]).value;
        assert [] + [f] == [f];
        assert Pass(env, [], f, [], false) == Ok([f]);
        assert InlineChildren(env, cs) == Ok([f]);
        assert [f] + [] == [f];
        assert FormatEach(env, cs) == Ok([f]);
      }
    }
  }

  /** Structural containers only recurse: same number of children, each the formatted original. */
  lemma StructuralOnlyRecurses(env: Env, t: ParentType, cs: seq<Node>)
    requires IsStructural(t)
    ensures Format(env, Parent(t, cs)).Ok? <==> forall k :: 0 <= k < |cs| ==> Format(env, cs[k]).Ok?
    ensures Format(env, Parent(t, cs)).Ok? ==>
      var m := Format(env, Parent(t, cs)).value;
      && m.Parent? && m.parentType == t && |m.children| == |cs|
      && forall k :: 0 <= k < |cs| ==> Format(env, cs[k]) == Ok(m.children[k])
  {
  }

  /** `footnoteDefinition`, unknown containers, and leaves other than text and math come back
      unchanged, descendants included. */
  lemma InertNodesUntouched(env: Env, n: Node)
    requires n.Parent? ==> !IsStructural(n.parentType) && !IsInline(n.parentType)
    requires n.Leaf? ==> !IsRewritable(n.leafType)
    ensures Format(env, n) == Ok(n)
  {
  }

  /** The root loop: every top-level node formatted once, no boundary between them; the whole
      transform completes exactly on well-formed documents, and its result conforms. */
  lemma TransformConforms(env: Env, tree: Root)
    ensures Transform(env, tree).Ok? <==> AllWellFormed(tree.children)
    ensures Transform(env, tree).Ok? ==>
      var r := Transform(env, tree).value;
      && |r.children| == |tree.children|
      && forall k :: 0 <= k < |tree.children| ==> Conforms(tree.children[k], r.children[k])
  {
    forall k | 0 <= k < |tree.children|
      ensures Format(env, tree.children[k]).Ok? <==> WellFormed(tree.children[k])
      ensures Format(env, tree.children[k]).Ok? ==> Conforms(tree.children[k], Format(env, tree.children[k]).value)
    {
      FormatSucceedsIff(env, tree.children[k]);
      FormatConforms(env, tree.children[k]);
    }
  }

  /** The boundary between two text leaves, as `concatToken` decides it. */
  lemma ResolveTexts(env: Env, a: string, b: string, flag: bool)
    ensures
      var c := env.concatToken(a, b, flag);
      Resolve(env, Leaf(Text, a), Leaf(Text, b), flag) == Ok(Joint(Leaf(Text, c.left), Leaf(Text, c.right), c.addSpace, c.addSpaceNext))
  {
  }

  /** Two text siblings: `concatToken` sees both formatted values with `lastAddSpace` false, and
      a requested space becomes a sibling of its own between them. */
  lemma TwoTextSiblings(env: Env, t: ParentType, a: string, b: string)
    requires IsInline(t)
    ensures
      var c := env.concatToken(env.formatText(a), env.formatText(b), false);
      Format(env, Parent(t, [Leaf(Text, a), Leaf(Text, b)]))
        == Ok(Parent(t, [Leaf(Text, c.left)] + (if c.addSpace then [Space] else []) + [Leaf(Text, c.right)]))
  {
    var fa, fb := env.formatText(a), env.formatText(b);
    var c := env.concatToken(fa, fb, false);
    var cs := [Leaf(Text, a), Leaf(Text, b)];
    assert cs[1..] == [Leaf(Text, b)];
    ResolveTexts(env, fa, fb, false);
    var sp := if c.addSpace then [Space] else [];
    var out := [Leaf(Text, c.left)] + sp + [Leaf(Text, c.right)];
    assert [Leaf(Text, c.left)] + sp + [Leaf(Text, c.right)] == out;
    assert [] + [Leaf(Text, c.left)] + sp == [Leaf(Text, c.left)] + sp;
    assert Pass(env, [Leaf(Text, c.left)] + sp, Leaf(Text, c.right), [], c.addSpaceNext) == Ok(out);
    assert Pass(env, [], Leaf(Text, fa), [Leaf(Text, b)], false) == Ok(out);
    assert InlineChildren(env, cs) == Ok(out);
  }

  /** Three text siblings: the value written to the middle leaf by the first boundary is what the
      second boundary reads, and the flag the first boundary returns is passed to the second. */
  lemma ThreeTextSiblings(env: Env, t: ParentType, a: string, b: string, c: string)
    requires IsInline(t)
    ensures
      var c1 := env.concatToken(env.formatText(a), env.formatText(b), false);
      var c2 := env.concatToken(c1.right, env.formatText(c), c1.addSpaceNext);
      Format(env, Parent(t, [Leaf(Text, a), Leaf(Text, b), Leaf(Text, c)]))
        == Ok(Parent(t, [Leaf(Text, c1.left)] + (if c1.addSpace then [Space] else [])
                      + [Leaf(Text, c2.left)] + (if c2.addSpace then [Space] else [])
                      + [Leaf(Text, c2.right)]))
  {
    var fa, fb, fc := env.formatText(a), env.formatText(b), env.formatText(c);
    var c1 := env.concatToken(fa, fb, false);
    var c2 := env.concatToken(c1.right, fc, c1.addSpaceNext);
    var cs := [Leaf(Text, a), Leaf(Text, b), Leaf(Text, c)];
    assert cs[1..] == [Leaf(Text, b), Leaf(Text, c)];
    assert cs[1..][1..] == [Leaf(Text, c)];
    ResolveTexts(env, fa, fb, false);
    ResolveTexts(env, c1.right, fc, c1.addSpaceNext);
    var sp1 := if c1.addSpace then [Space] else [];
    var sp2 := if c2.addSpace then [Space] else [];
    var d1 := [Leaf(Text, c1.left)] + sp1;
    assert [] + [Leaf(Text, c1.left)] + sp1 == d1;
    var d2 := d1 + [Leaf(Text, c2.left)] + sp2;
    var out := d2 + [Leaf(Text, c2.right)];
    assert Pass(env, d2, Leaf(Text, c2.right), [], c2.addSpaceNext) == Ok(out);
    assert Pass(env, d1, Leaf(Text, c1.right), [Leaf(Text, c)], c1.addSpaceNext) == Ok(out);
    assert Pass(env, [], Leaf(Text, fa), [Leaf(Text, b), Leaf(Text, c)], false) == Ok(out);
    assert InlineChildren(env, cs) == Ok(out);
  }

  /** A text run before inline code gets exactly one trailing space when `shouldAddSpace` asks for
      one ("你好" then `x` becomes "你好 " then `x`); the code is left alone. */
  lemma TextBeforeInlineCode(env: Env)
    requires env.formatText("你好") == "你好"
    requires env.shouldAddSpace(Some('好'), Some(TokenSentinel), false)
    ensures Format(env, Parent(Paragraph, [Leaf(Text, "你好"), Leaf(InlineCode, "x")]))
      == Ok(Parent(Paragraph, [Leaf(Text, "你好 "), Leaf(InlineCode, "x")]))
  {
    var cs := [Leaf(Text, "你好"), Leaf(InlineCode, "x")];
    assert cs[1..] == [Leaf(InlineCode, "x")];
    assert !IsWs('好');
    assert TrimEnd("你好") == "你好";
    assert SpaceBeforeToken(env, "你好") == "你好 ";
    var out := [Leaf(Text, "你好 "), Leaf(InlineCode, "x")];
    assert Resolve(env, Leaf(Text, "你好"), Leaf(InlineCode, "x"), false)
      == Ok(Joint(Leaf(Text, "你好 "), Leaf(InlineCode, "x"), false, false));
    assert [] + [Leaf(Text, "你好 ")] + [] == [Leaf(Text, "你好 ")];
    assert [Leaf(Text, "你好 ")] + [Leaf(InlineCode, "x")] == out;
    assert Pass(env, [Leaf(Text, "你好 ")], Leaf(InlineCode, "x"), [], false) == Ok(out);
    assert Pass(env, [], Leaf(Text, "你好"), [Leaf(InlineCode, "x")], false) == Ok(out);
    assert InlineChildren(env, cs) == Ok(out);
  }

  /** A text run after inline math gets exactly one leading space when `shouldAddSpace` asks for
      one; the math is formatted but not otherwise touched. */
  lemma TextAfterInlineMath(env: Env)
    requires env.formatMath("x") == "x"
    requires env.formatText("你好") == "你好"
    requires env.shouldAddSpace(Some(TokenSentinel), Some('你'), false)
    ensures Format(env, Parent(Paragraph, [Leaf(InlineMath, "x"), Leaf(Text, "你好")]))
      == Ok(Parent(Paragraph, [Leaf(InlineMath, "x"), Leaf(Text, " 你好")]))
  {
    var cs := [Leaf(InlineMath, "x"), Leaf(Text, "你好")];
    assert cs[1..] == [Leaf(Text, "你好")];
    assert !IsWs('你');
    assert TrimStart("你好") == "你好";
    assert SpaceAfterToken(env, "你好") == " 你好";
    var out := [Leaf(InlineMath, "x"), Leaf(Text, " 你好")];
    assert Resolve(env, Leaf(InlineMath, "x"), Leaf(Text, "你好"), false)
      == Ok(Joint(Leaf(InlineMath, "x"), Leaf(Text, " 你好"), false, false));
    assert [] + [Leaf(InlineMath, "x")] + [] == [Leaf(InlineMath, "x")];
    assert [Leaf(InlineMath, "x")] + [Leaf(Text, " 你好")] == out;
    assert Pass(env, [Leaf(InlineMath, "x")], Leaf(Text, " 你好"), [], false) == Ok(out);
    assert Pass(env, [], Leaf(InlineMath, "x"), [Leaf(Text, "你好")], false) == Ok(out);
    assert InlineChildren(env, cs) == Ok(out);
  }

  /** A boundary that runs through markup: the text inside `strong` and the text after it are the
      two operands, and a requested space is spliced as its own sibling outside the `strong`. */
  lemma SpaceOutsideMarkup(env: Env, a: string, b: string)
    ensures
      var c := env.concatToken(env.formatText(a), env.formatText(b), false);
      Format(env, Parent(Paragraph, [Parent(Strong, [Leaf(Text, a)]), Leaf(Text, b)]))
        == Ok(Parent(Paragraph, [Parent(Strong, [Leaf(Text, c.left)])]
                               + (if c.addSpace then [Space] else []) + [Leaf(Text, c.right)]))
  {
    var fa, fb := env.formatText(a), env.formatText(b);
    var c := env.concatToken(fa, fb, false);
    var inner := [Leaf(Text, a)];
    assert inner[1..] == [];
    assert [] + [Leaf(Text, fa)] == [Leaf(Text, fa)];
    assert Pass(env, [], Leaf(Text, fa), [], false) == Ok([Leaf(Text, fa)]);
    assert InlineChildren(env, inner) == Ok([Leaf(Text, fa)]);
    var s := Parent(Strong, [Leaf(Text, fa)]);
    assert Format(env, Parent(Strong, inner)) == Ok(s);
    var cs := [Parent(Strong, inner), Leaf(Text, b)];
    assert cs[1..] == [Leaf(Text, b)];
    var s' := Parent(Strong, [Leaf(Text, c.left)]);
    assert [Leaf(Text, fa)][0 := Leaf(Text, c.left)] == [Leaf(Text, c.left)];
    assert SetLastLeafValue(s, c.left) == s';
    assert Resolve(env, s, Leaf(Text, fb), false) == Ok(Joint(s', Leaf(Text, c.right), c.addSpace, c.addSpaceNext));
    var sp := if c.addSpace then [Space] else [];
    var out := [s'] + sp + [Leaf(Text, c.right)];
    assert [] + [s'] + sp == [s'] + sp;
    assert Pass(env, [s'] + sp, Leaf(Text, c.right), [], c.addSpaceNext) == Ok(out);
    assert Pass(env, [], s, [Leaf(Text, b)], false) == Ok(out);
    assert InlineChildren(env, cs) == Ok(out);
  }

  /** Two opaque leaves side by side: nothing changes. */
  lemma OpaqueNeighbours(env: Env)
    ensures Format(env, Parent(Paragraph, [Leaf(Image, ""), Leaf(Break, "")]))
      == Ok(Parent(Paragraph, [Leaf(Image, ""), Leaf(Break, "")]))
  {
    var cs := [Leaf(Image, ""), Leaf(Break, "")];
    assert cs[1..] == [Leaf(Break, "")];
    assert Resolve(env, cs[0], cs[1], false) == Ok(Joint(cs[0], cs[1], false, false));
    assert [] + [cs[0]] + [] == [cs[0]];
    assert [cs[0]] + [cs[1]] == cs;
    assert Pass(env, [cs[0]], cs[1], [], false) == Ok(cs);
    assert Pass(env, [], cs[0], [cs[1]], false) == Ok(cs);
    assert InlineChildren(env, cs) == Ok(cs);
  }

  /** List items are formatted independently: no boundary is resolved between them, even when
      both end and start with text. */
  lemma ListItemsIndependent(env: Env, a: string, b: string)
    ensures Format(env, Parent(List, [Parent(ListItem, [Leaf(Text, a)]), Parent(ListItem, [Leaf(Text, b)])]))
      == Ok(Parent(List, [Parent(ListItem, [Leaf(Text, env.formatText(a))]), Parent(ListItem, [Leaf(Text, env.formatText(b))])]))
  {
    ShortInlineContainer(env, ListItem, [Leaf(Text, a)]);
    ShortInlineContainer(env, ListItem, [Leaf(Text, b)]);
    var ia := [Leaf(Text, a)];
    var ib := [Leaf(Text, b)];
    assert ia[1..] == [] && ib[1..] == [];
    assert [Leaf(Text, env.formatText(a))] + [] == [Leaf(Text, env.formatText(a))];
    assert [Leaf(Text, env.formatText(b))] + [] == [Leaf(Text, env.formatText(b))];
    assert FormatEach(env, ia) == Ok([Leaf(Text, env.formatText(a))]);
    assert FormatEach(env, ib) == Ok([Leaf(Text, env.formatText(b))]);
    var la := Parent(ListItem, [Leaf(Text, env.formatText(a))]);
    var lb := Parent(ListItem, [Leaf(Text, env.formatText(b))]);
    var cs := [Parent(ListItem, ia), Parent(ListItem, ib)];
    assert cs[1..] == [Parent(ListItem, ib)];
    assert cs[1..][1..] == [];
    assert [lb] + [] == [lb];
    assert [la] + [lb] == [la, lb];
    assert FormatEach(env, cs[1..]) == Ok([lb]);
    assert FormatEach(env, cs) == Ok([la, lb]);
  }

  /** A link with no text (`[](url)`) after a text run: the locator reaches the link's empty
      `children`, so the whole format call throws. */
  lemma EmptyLinkAfterTextFails(env: Env, a: string)
    ensures Format(env, Parent(Paragraph, [Leaf(Text, a), Parent(Link, [])])).Fail?
  {
    var cs := [Leaf(Text, a), Parent(Link, [])];
    FormatSucceedsIff(env, Parent(Paragraph, cs));
    assert !HasFirstLeaf(cs[1]);
    assert !EdgesLocatable(cs);
  }

  /** Below a `footnoteDefinition` the walker never splices: a paragraph there that gained a
      space between its two texts does not conform to the original. */
  lemma NoSpliceBelowFootnote(a: string, b: string)
    ensures
      var before := Parent(FootnoteDefinition, [Parent(Paragraph, [Leaf(Text, a), Leaf(Text, b)])]);
      var after := Parent(FootnoteDefinition, [Parent(Paragraph, [Leaf(Text, a), Space, Leaf(Text, b)])]);
      !Conforms(before, after)
  {
    var p := Parent(Paragraph, [Leaf(Text, a), Leaf(Text, b)]);
    var p' := Parent(Paragraph, [Leaf(Text, a), Space, Leaf(Text, b)]);
    assert !Retouched(p, p');
    assert [p][0] == p && [p'][0] == p';
    assert !Retouched(Parent(FootnoteDefinition, [p]), Parent(FootnoteDefinition, [p']));
  }
}
