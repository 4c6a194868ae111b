/** The tree walker `format` and the transformer's root loop. The JavaScript mutates the tree in
    place; here every call returns the rewritten subtree, or the error thrown part-way. */
module Walker {
  import opened Outcomes
  import opened Mdast
  import opened Boundary

  /** What `format` does to a leaf's value: `text` through `formatText`, `inlineMath` and
      `math` through `formatMath`, every other leaf kept as it is. */
  function FormatLeafValue(env: Env, t: LeafType, v: string): (r: string)
    ensures !IsRewritable(t) ==> r == v
  {
    match t
    case Text => env.formatText(v)
    case InlineMath => env.formatMath(v)
    case Math => env.formatMath(v)
    case _ => v
  }

  /** `format(node)`. */
  function Format(env: Env, n: Node): (r: Outcome<Node>)
    ensures r.Ok? ==> r.value.Leaf? == n.Leaf?
    ensures r.Ok? && n.Leaf? ==> r.value.leafType == n.leafType
    ensures r.Ok? && n.Parent? ==> r.value.parentType == n.parentType
    decreases n
  {
    match n
    case Leaf(t, v) => Ok(Leaf(t, FormatLeafValue(env, t, v)))
    case Parent(t, cs) =>
      if IsStructural(t) then
        var fs :- FormatEach(env, cs);
        Ok(Parent(t, fs))
      else if IsInline(t) then
        var out :- InlineChildren(env, cs);
        Ok(Parent(t, out))
      else
        Ok(n)
  }

  /** `children.forEach((child) => format(child))`: the first child that throws aborts the rest. */
  function FormatEach(env: Env, cs: seq<Node>): (r: Outcome<seq<Node>>)
    ensures r.Ok? <==> forall k :: 0 <= k < |cs| ==> Format(env, cs[k]).Ok?
    ensures r.Ok? ==> |r.value| == |cs| && forall k :: 0 <= k < |cs| ==> Format(env, cs[k]) == Ok(r.value[k])
    decreases cs
  {
    if |cs| == 0 then Ok([])
    else
      var f :- Format(env, cs[0]);
      var fs :- FormatEach(env, cs[1..]);
      Ok([f] + fs)
  }

  /** The loop over an inline-bearing container's children, with `lastAddSpace` starting false. */
  function InlineChildren(env: Env, cs: seq<Node>): (r: Outcome<seq<Node>>)
    // every original child is kept, and at most one space is spliced between neighbours
    ensures r.Ok? ==> |cs| <= |r.value| && (|cs| > 0 ==> |r.value| <= 2 * |cs| - 1)
    decreases cs
  {
    if |cs| == 0 then Ok([])
    else
      var f :- Format(env, cs[0]);
      Pass(env, [], f, cs[1..], false)
  }

  /** The remaining iterations of that loop. `done` holds the children already final, `prev` the
      child just before the current index (formatted, and possibly rewritten as the right side of
      the previous boundary), `rest` the original children not yet visited. Each iteration formats
      the next child, resolves its boundary with `prev`, and splices `Space` in front of it when
      asked to; the spliced node goes straight into `done`, so it is neither formatted nor read
      as a boundary operand (the `i++` after the splice). */
  function Pass(env: Env, done: seq<Node>, prev: Node, rest: seq<Node>, lastAddSpace: bool): (r: Outcome<seq<Node>>)
    // the finished prefix is never revisited
    ensures r.Ok? ==> done <= r.value
    // `prev` and every remaining child produce one node each, plus at most one space apiece
    ensures r.Ok? ==> |done| + 1 + |rest| <= |r.value| <= |done| + 1 + 2 * |rest|
    decreases rest
  {
    if |rest| == 0 then Ok(done + [prev])
    else
      var f :- Format(env, rest[0]);
      var j :- Resolve(env, prev, f, lastAddSpace);
      var done' := done + [j.left] + (if j.addSpace then [Space] else []);
      Pass(env, done', j.right, rest[1..], j.addSpaceNext)
  }

  /** The transformer: `tree.children.forEach((node) => format(node))`. */
  function Transform(env: Env, tree: Root): (r: Outcome<Root>)
    ensures r.Ok? <==> forall k :: 0 <= k < |tree.children| ==> Format(env, tree.children[k]).Ok?
    ensures r.Ok? ==>
      && |r.value.children| == |tree.children|
      && forall k :: 0 <= k < |tree.children| ==> Format(env, tree.children[k]) == Ok(r.value.children[k])
  {
    var cs :- FormatEach(env, tree.children);
    Ok(Root(cs))
  }

  /** One iteration of the loop, when the current child formats and its boundary resolves. */
  lemma PassStep(env: Env, done: seq<Node>, prev: Node, rest: seq<Node>, flag: bool, f: Node, j: Joint)
    requires |rest| > 0 && Format(env, rest[0]) == Ok(f) && Resolve(env, prev, f, flag) == Ok(j)
    ensures Pass(env, done, prev, rest, flag)
      == Pass(env, done + [j.left] + (if j.addSpace then [Space] else []), j.right, rest[1..], j.addSpaceNext)
  {
  }
}
