/** The descendant locator: `findFirstDescendant` / `findLastDescendant`, and the in-place write
    `leaf.value = v` on the leaf they return, as pure functions. */
module Locate {
  import opened Mdast

  /** `findFirstDescendant(n)` returns without throwing: every container on the path of first
      children is non-empty (an empty one yields `children[0] === undefined`, and the next
      `"children" in undefined` throws). */
  predicate HasFirstLeaf(n: Node)
    decreases n
  {
    match n
    case Leaf(_, _) => true
    case Parent(_, cs) => |cs| > 0 && HasFirstLeaf(cs[0])
  }

  /** `findLastDescendant(n)` returns without throwing. */
  predicate HasLastLeaf(n: Node)
    decreases n
  {
    match n
    case Leaf(_, _) => true
    case Parent(_, cs) => |cs| > 0 && HasLastLeaf(cs[|cs| - 1])
  }

  /** `b` is `a` with at most its first leaf's value changed. */
  predicate OnlyFirstLeafChanged(a: Node, b: Node) {
    && HasFirstLeaf(a) && HasFirstLeaf(b)
    && Shape(b) == Shape(a)
    && |Leaves(b)| == |Leaves(a)|
    && forall i :: 0 < i < |Leaves(a)| ==> Leaves(b)[i] == Leaves(a)[i]
  }

  /** `b` is `a` with at most its last leaf's value changed. */
  predicate OnlyLastLeafChanged(a: Node, b: Node) {
    && HasLastLeaf(a) && HasLastLeaf(b)
    && Shape(b) == Shape(a)
    && |Leaves(b)| == |Leaves(a)|
    && forall i :: 0 <= i < |Leaves(a)| - 1 ==> Leaves(b)[i] == Leaves(a)[i]
  }

  /** `findFirstDescendant`: follow the first child until a node without children. */
  function FirstLeaf(n: Node): (r: Node)
    requires HasFirstLeaf(n)
    ensures r.Leaf?
    ensures |Leaves(n)| > 0 && r == Leaves(n)[0]
    decreases n
  {
    match n
    case Leaf(_, _) => n
    case Parent(_, cs) => FirstLeaf(cs[0])
  }

  /** `findLastDescendant`: follow the last child until a node without children. */
  function LastLeaf(n: Node): (r: Node)
    requires HasLastLeaf(n)
    ensures r.Leaf?
    ensures |Leaves(n)| > 0 && r == Leaves(n)[|Leaves(n)| - 1]
    decreases n
  {
    match n
    case Leaf(_, _) => n
    case Parent(_, cs) =>
      var last := cs[|cs| - 1];
      assert cs == cs[..|cs| - 1] + [last];
      LeavesOfAppend(cs[..|cs| - 1], [last]);
      assert LeavesOf([last]) == Leaves(last);
      LastLeaf(last)
  }

  /** `findFirstDescendant(n).value = v`: the tree with only its first leaf's value replaced. */
  function SetFirstLeafValue(n: Node, v: string): (r: Node)
    requires HasFirstLeaf(n)
    ensures Shape(r) == Shape(n)
    ensures HasFirstLeaf(r) && FirstLeaf(r) == Leaf(FirstLeaf(n).leafType, v)
    ensures HasLastLeaf(r) == HasLastLeaf(n)
    ensures Leaves(r) == Leaves(n)[0 := FirstLeaf(r)]
    ensures OnlyFirstLeafChanged(n, r)
    decreases n
  {
    match n
    case Leaf(t, _) => Leaf(t, v)
    case Parent(t, cs) =>
      var c := SetFirstLeafValue(cs[0], v);
      var cs' := cs[0 := c];
      assert cs'[1..] == cs[1..];
      assert Shape(Parent(t, cs')) == Shape(n) by {
        assert forall k :: 0 <= k < |cs| ==> Shape(cs'[k]) == Shape(cs[k]);
      }
      Parent(t, cs')
  }

  /** `findLastDescendant(n).value = v`: the tree with only its last leaf's value replaced. */
  function SetLastLeafValue(n: Node, v: string): (r: Node)
    requires HasLastLeaf(n)
    ensures Shape(r) == Shape(n)
    ensures HasLastLeaf(r) && LastLeaf(r) == Leaf(LastLeaf(n).leafType, v)
    ensures HasFirstLeaf(r) == HasFirstLeaf(n)
    ensures |Leaves(r)| == |Leaves(n)| && Leaves(r) == Leaves(n)[|Leaves(n)| - 1 := LastLeaf(r)]
    ensures OnlyLastLeafChanged(n, r)
    decreases n
  {
    match n
    case Leaf(t, _) => Leaf(t, v)
    case Parent(t, cs) =>
      var i := |cs| - 1;
      var c := SetLastLeafValue(cs[i], v);
      var cs' := cs[i := c];
      assert cs'[..i] == cs[..i];
      assert cs == cs[..i] + [cs[i]] && cs' == cs[..i] + [c];
      LeavesOfAppend(cs[..i], [cs[i]]);
      LeavesOfAppend(cs[..i], [c]);
      assert LeavesOf([cs[i]]) == Leaves(cs[i]) && LeavesOf([c]) == Leaves(c);
      assert Shape(Parent(t, cs')) == Shape(n) by {
        assert forall k :: 0 <= k < |cs| ==> Shape(cs'[k]) == Shape(cs[k]);
      }
      Parent(t, cs')
  }

  /** Writing back the value just read changes nothing. */
  lemma {:induction false} SetFirstLeafValueOwn(n: Node)
    requires HasFirstLeaf(n)
    ensures SetFirstLeafValue(n, FirstLeaf(n).value) == n
    decreases n
  {
    match n
    case Leaf(_, _) =>
    case Parent(t, cs) =>
      SetFirstLeafValueOwn(cs[0]);
      assert cs[0 := cs[0]] == cs;
  }

  /** Writing back the value just read changes nothing. */
  lemma {:induction false} SetLastLeafValueOwn(n: Node)
    requires HasLastLeaf(n)
    ensures SetLastLeafValue(n, LastLeaf(n).value) == n
    decreases n
  {
    match n
    case Leaf(_, _) =>
    case Parent(t, cs) =>
      SetLastLeafValueOwn(cs[|cs| - 1]);
      assert cs[|cs| - 1 := cs[|cs| - 1]] == cs;
  }
}
