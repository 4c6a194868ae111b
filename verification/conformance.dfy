/** What a formatted tree looks like next to the tree it came from, and when formatting
    fails. `Conforms(n, m)` is stated without reference to the walker: it is the independent
    description that the walker's result is proved to meet. */
module Conformance {
  import opened Outcomes
  import opened Mdast
  import opened Locate
  import opened Boundary
  import opened Walker

  /** A leaf keeps its `type`, and its value changes only in `text`, `inlineMath` and `math`. */
  predicate LeafRewrite(t: LeafType, v: string, m: Node) {
    m.Leaf? && m.leafType == t && (m.value != v ==> IsRewritable(t))
  }

  /** `m` is `n` with (1) the same variant and `type` at every node, (2) values changed only in
      `text`, `inlineMath` and `math` leaves, and (3) inside inline-bearing containers, lone-space
      text nodes inserted between original siblings; nothing removed, nothing reordered. Below a
      container the walker does not enter, only values may change (`Retouched`). */
  predicate Conforms(n: Node, m: Node)
    decreases n, 1
  {
    match n
    case Leaf(t, v) => LeafRewrite(t, v, m)
    case Parent(t, cs) =>
      if IsInline(t) then m.Parent? && m.parentType == t && Woven(cs, m.children)
      else if IsStructural(t) then
        && m.Parent?
        && m.parentType == t
        && |m.children| == |cs|
        && forall k :: 0 <= k < |cs| ==> Conforms(cs[k], m.children[k])
      else Retouched(n, m)
  }

  /** `m` is `n` with at most some `text`, `inlineMath` and `math` values changed: the same tree
      in every other respect. This is all a boundary write can do below a `footnoteDefinition`
      or an unknown container. */
  predicate Retouched(n: Node, m: Node)
    decreases n, 0
  {
    match n
    case Leaf(t, v) => LeafRewrite(t, v, m)
    case Parent(t, cs) =>
      && m.Parent?
      && m.parentType == t
      && |m.children| == |cs|
      && forall k :: 0 <= k < |cs| ==> Retouched(cs[k], m.children[k])
  }

  /** `out` is `cs`, each child conforming, with at most one `Space` node inserted in front of
      each child but the first. */
  predicate Woven(cs: seq<Node>, out: seq<Node>)
    decreases cs
  {
    if |cs| == 0 then out == []
    else if |cs| == 1 then |out| == 1 && Conforms(cs[0], out[0])
    else
      && |out| >= 2
      && Conforms(cs[|cs| - 1], out[|out| - 1])
      && (|| Woven(cs[..|cs| - 1], out[..|out| - 1])
          || (out[|out| - 2] == Space && Woven(cs[..|cs| - 1], out[..|out| - 2])))
  }

  /** The walker throws exactly when this fails: some inline-bearing container it visits has a
      child whose boundary leaf the locator cannot reach. */
  predicate WellFormed(n: Node)
    decreases n
  {
    match n
    case Leaf(_, _) => true
    case Parent(t, cs) =>
      if IsStructural(t) then AllWellFormed(cs)
      else if IsInline(t) then AllWellFormed(cs) && EdgesLocatable(cs)
      else true
  }

  predicate AllWellFormed(cs: seq<Node>)
    decreases cs
  {
    forall k :: 0 <= k < |cs| ==> WellFormed(cs[k])
  }

  /** Every child but the last has a reachable last leaf, every child but the first a reachable
      first leaf. */
  predicate EdgesLocatable(cs: seq<Node>) {
    && (forall k :: 0 <= k < |cs| - 1 ==> HasLastLeaf(cs[k]))
    && (forall k :: 0 < k < |cs| ==> HasFirstLeaf(cs[k]))
  }

  /** Inserting spaces at most between children: |cs| <= |out| <= 2|cs| - 1. */
  lemma {:induction false} WovenBounds(cs: seq<Node>, out: seq<Node>)
    requires Woven(cs, out)
    ensures |cs| <= |out|
    ensures |cs| > 0 ==> |out| <= 2 * |cs| - 1
    decreases |cs|
  {
    if |cs| >= 2 {
      if Woven(cs[..|cs| - 1], out[..|out| - 1]) {
        WovenBounds(cs[..|cs| - 1], out[..|out| - 1]);
      } else {
        WovenBounds(cs[..|cs| - 1], out[..|out| - 2]);
      }
    }
  }

  /** The first node of a woven sequence is the first original child, never a space. */
  lemma {:induction false} WovenFirst(cs: seq<Node>, out: seq<Node>)
    requires Woven(cs, out) && |cs| > 0
    ensures |out| > 0 && Conforms(cs[0], out[0])
    decreases |cs|
  {
    if |cs| >= 2 {
      if Woven(cs[..|cs| - 1], out[..|out| - 1]) {
        WovenFirst(cs[..|cs| - 1], out[..|out| - 1]);
      } else {
        WovenFirst(cs[..|cs| - 1], out[..|out| - 2]);
      }
    }
  }

  /** The last node of a woven sequence is the last original child, never a space. */
  lemma WovenLast(cs: seq<Node>, out: seq<Node>)
    requires Woven(cs, out) && |cs| > 0
    ensures |out| > 0 && Conforms(cs[|cs| - 1], out[|out| - 1])
  {
  }

  lemma {:induction false} WovenReplaceFirst(cs: seq<Node>, out: seq<Node>, x: Node)
    requires Woven(cs, out) && |cs| > 0 && Conforms(cs[0], x)
    ensures |out| > 0 && Woven(cs, out[0 := x])
    decreases |cs|
  {
    WovenFirst(cs, out);
    var out' := out[0 := x];
    if |cs| >= 2 {
      var init := cs[..|cs| - 1];
      assert init[0] == cs[0];
      if Woven(init, out[..|out| - 1]) {
        WovenReplaceFirst(init, out[..|out| - 1], x);
        assert out'[..|out| - 1] == out[..|out| - 1][0 := x];
      } else {
        WovenBounds(init, out[..|out| - 2]);
        WovenReplaceFirst(init, out[..|out| - 2], x);
        assert out'[..|out| - 2] == out[..|out| - 2][0 := x];
      }
    }
  }

  lemma WovenReplaceLast(cs: seq<Node>, out: seq<Node>, x: Node)
    requires Woven(cs, out) && |cs| > 0 && Conforms(cs[|cs| - 1], x)
    ensures |out| > 0 && Woven(cs, out[|out| - 1 := x])
  {
    var out' := out[|out| - 1 := x];
    if |cs| >= 2 {
      assert out'[..|out| - 1] == out[..|out| - 1];
      assert out'[..|out| - 2] == out[..|out| - 2];
    }
  }

  /** One more child, optionally preceded by a spliced space. */
  lemma WovenSnoc(cs: seq<Node>, out: seq<Node>, c: Node, x: Node, spaced: bool)
    requires Woven(cs, out) && |cs| > 0 && Conforms(c, x)
    ensures Woven(cs + [c], out + (if spaced then [Space] else []) + [x])
  {
    var cs' := cs + [c];
    var out' := out + (if spaced then [Space] else []) + [x];
    assert cs'[..|cs'| - 1] == cs;
    if spaced {
      assert out'[..|out'| - 2] == out;
    } else {
      assert out'[..|out'| - 1] == out;
    }
  }

  lemma {:induction false} ConformsReflexive(n: Node)
    ensures Conforms(n, n)
    decreases n, 1
  {
    match n
    case Leaf(_, _) =>
    case Parent(t, cs) =>
      if IsInline(t) {
        WovenReflexive(cs);
      } else if IsStructural(t) {
        forall k | 0 <= k < |cs| ensures Conforms(cs[k], cs[k]) {
          ConformsReflexive(cs[k]);
        }
      } else {
        RetouchedReflexive(n);
      }
  }

  lemma {:induction false} WovenReflexive(cs: seq<Node>)
    ensures Woven(cs, cs)
    decreases cs, 0
  {
    if |cs| > 0 {
      ConformsReflexive(cs[|cs| - 1]);
      if |cs| >= 2 {
        WovenReflexive(cs[..|cs| - 1]);
      }
    }
  }

  /** Conformance fixes whether, and to which kind of leaf, the locator descends. */
  lemma {:induction false} ConformsKeepsEdges(n: Node, m: Node)
    requires Conforms(n, m)
    ensures HasFirstLeaf(m) == HasFirstLeaf(n)
    ensures HasLastLeaf(m) == HasLastLeaf(n)
    ensures HasFirstLeaf(n) ==> FirstLeaf(m).leafType == FirstLeaf(n).leafType
    ensures HasLastLeaf(n) ==> LastLeaf(m).leafType == LastLeaf(n).leafType
    decreases n
  {
    match n
    case Leaf(_, _) =>
    case Parent(t, cs) =>
      var ms := m.children;
      if IsInline(t) {
        WovenBounds(cs, ms);
        if |cs| > 0 {
          WovenFirst(cs, ms);
          WovenLast(cs, ms);
          ConformsKeepsEdges(cs[0], ms[0]);
          ConformsKeepsEdges(cs[|cs| - 1], ms[|ms| - 1]);
        }
      } else if !IsStructural(t) {
        RetouchedKeepsEdges(n, m);
      } else if |cs| > 0 {
        ConformsKeepsEdges(cs[0], ms[0]);
        ConformsKeepsEdges(cs[|cs| - 1], ms[|ms| - 1]);
      }
  }

  /** Writing a text leaf at the start of a conforming tree keeps it conforming. */
  lemma {:induction false} ConformsSetFirst(n: Node, m: Node, v: string)
    requires Conforms(n, m) && HasFirstLeaf(m) && FirstLeaf(m).leafType == Text
    ensures Conforms(n, SetFirstLeafValue(m, v))
    decreases n
  {
    match n
    case Leaf(_, _) =>
    case Parent(t, cs) =>
      var ms := m.children;
      var c := SetFirstLeafValue(ms[0], v);
      assert SetFirstLeafValue(m, v) == Parent(t, ms[0 := c]);
      if IsInline(t) {
        WovenBounds(cs, ms);
        WovenFirst(cs, ms);
        ConformsSetFirst(cs[0], ms[0], v);
        WovenReplaceFirst(cs, ms, c);
      } else if IsStructural(t) {
        ConformsSetFirst(cs[0], ms[0], v);
      } else {
        RetouchedSetFirst(n, m, v);
      }
  }

  /** Writing a text leaf at the end of a conforming tree keeps it conforming. */
  lemma {:induction false} ConformsSetLast(n: Node, m: Node, v: string)
    requires Conforms(n, m) && HasLastLeaf(m) && LastLeaf(m).leafType == Text
    ensures Conforms(n, SetLastLeafValue(m, v))
    decreases n
  {
    match n
    case Leaf(_, _) =>
    case Parent(t, cs) =>
      var ms := m.children;
      var c := SetLastLeafValue(ms[|ms| - 1], v);
      assert SetLastLeafValue(m, v) == Parent(t, ms[|ms| - 1 := c]);
      if IsInline(t) {
        WovenBounds(cs, ms);
        WovenLast(cs, ms);
        ConformsSetLast(cs[|cs| - 1], ms[|ms| - 1], v);
        WovenReplaceLast(cs, ms, c);
      } else if IsStructural(t) {
        ConformsSetLast(cs[|cs| - 1], ms[|ms| - 1], v);
      } else {
        RetouchedSetLast(n, m, v);
      }
  }

  lemma {:induction false} RetouchedReflexive(n: Node)
    ensures Retouched(n, n)
    decreases n
  {
    match n
    case Leaf(_, _) =>
    case Parent(_, cs) =>
      forall k | 0 <= k < |cs| ensures Retouched(cs[k], cs[k]) {
        RetouchedReflexive(cs[k]);
      }
  }

  /** Changing values only fixes whether, and to which kind of leaf, the locator descends. */
  lemma {:induction false} RetouchedKeepsEdges(n: Node, m: Node)
    requires Retouched(n, m)
    ensures HasFirstLeaf(m) == HasFirstLeaf(n)
    ensures HasLastLeaf(m) == HasLastLeaf(n)
    ensures HasFirstLeaf(n) ==> FirstLeaf(m).leafType == FirstLeaf(n).leafType
    ensures HasLastLeaf(n) ==> LastLeaf(m).leafType == LastLeaf(n).leafType
    decreases n
  {
    match n
    case Leaf(_, _) =>
    case Parent(_, cs) =>
      if |cs| > 0 {
        RetouchedKeepsEdges(cs[0], m.children[0]);
        RetouchedKeepsEdges(cs[|cs| - 1], m.children[|cs| - 1]);
      }
  }

  /** Writing a text leaf at the start keeps a retouched tree retouched. */
  lemma {:induction false} RetouchedSetFirst(n: Node, m: Node, v: string)
    requires Retouched(n, m) && HasFirstLeaf(m) && FirstLeaf(m).leafType == Text
    ensures Retouched(n, SetFirstLeafValue(m, v))
    decreases n
  {
    match n
    case Leaf(_, _) =>
    case Parent(t, cs) =>
      var ms := m.children;
      var c := SetFirstLeafValue(ms[0], v);
      assert SetFirstLeafValue(m, v) == Parent(t, ms[0 := c]);
      RetouchedSetFirst(cs[0], ms[0], v);
  }

  /** Writing a text leaf at the end keeps a retouched tree retouched. */
  lemma {:induction false} RetouchedSetLast(n: Node, m: Node, v: string)
    requires Retouched(n, m) && HasLastLeaf(m) && LastLeaf(m).leafType == Text
    ensures Retouched(n, SetLastLeafValue(m, v))
    decreases n
  {
    match n
    case Leaf(_, _) =>
    case Parent(t, cs) =>
      var ms := m.children;
      var c := SetLastLeafValue(ms[|ms| - 1], v);
      assert SetLastLeafValue(m, v) == Parent(t, ms[|ms| - 1 := c]);
      RetouchedSetLast(cs[|cs| - 1], ms[|ms| - 1], v);
  }

  /** A boundary step keeps both siblings conforming to the originals they came from. */
  lemma ResolveConforms(env: Env, prev: Node, next: Node, flag: bool, a: Node, b: Node)
    requires Conforms(a, prev) && Conforms(b, next)
    requires Resolve(env, prev, next, flag).Ok?
    ensures Conforms(a, Resolve(env, prev, next, flag).value.left)
    ensures Conforms(b, Resolve(env, prev, next, flag).value.right)
  {
    var last := LastLeaf(prev);
    var first := FirstLeaf(next);
    if last.leafType == Text {
      if first.leafType == Text {
        var c := env.concatToken(last.value, first.value, flag);
        ConformsSetLast(a, prev, c.left);
        ConformsSetFirst(b, next, c.right);
      } else if IsToken(first.leafType) {
        ConformsSetLast(a, prev, SpaceBeforeToken(env, last.value));
      }
    } else if IsToken(last.leafType) && first.leafType == Text {
      ConformsSetFirst(b, next, SpaceAfterToken(env, first.value));
    }
  }

  /** Main structural theorem: whatever `format` returns conforms to its input. */
  lemma {:induction false} FormatConforms(env: Env, n: Node)
    ensures Format(env, n).Ok? ==> Conforms(n, Format(env, n).value)
    decreases n
  {
    match n
    case Leaf(_, _) =>
    case Parent(t, cs) =>
      if IsStructural(t) {
        if Format(env, n).Ok? {
          var fs := FormatEach(env, cs).value;
          forall k | 0 <= k < |cs| ensures Conforms(cs[k], fs[k]) {
            FormatConforms(env, cs[k]);
          }
        }
      } else if IsInline(t) {
        InlineConforms(env, cs);
      } else {
        ConformsReflexive(n);
      }
  }

  lemma {:induction false} InlineConforms(env: Env, cs: seq<Node>)
    ensures InlineChildren(env, cs).Ok? ==> Woven(cs, InlineChildren(env, cs).value)
    decreases cs
  {
    if |cs| > 0 && Format(env, cs[0]).Ok? {
      var f := Format(env, cs[0]).value;
      FormatConforms(env, cs[0]);
      assert [f][..0] == [];
      PassConforms(env, [], f, cs[1..], false, [cs[0]]);
      assert [cs[0]] + cs[1..] == cs;
    }
  }

  /** One loop iteration, as seen from the woven prefix: replace the previous sibling by its
      rewritten form, then append the optional space and the rewritten current sibling. */
  lemma WovenStep(seen: seq<Node>, done: seq<Node>, prev: Node, j: Joint, c: Node)
    requires |seen| > 0 && Woven(seen, done + [prev])
    requires Conforms(seen[|seen| - 1], j.left) && Conforms(c, j.right)
    ensures Woven(seen + [c], done + [j.left] + (if j.addSpace then [Space] else []) + [j.right])
  {
    WovenReplaceLast(seen, done + [prev], j.left);
    assert (done + [prev])[|done| := j.left] == done + [j.left];
    WovenSnoc(seen, done + [j.left], c, j.right, j.addSpace);
  }

  /** The woven prefix grows by one original sibling once its formatted form conforms and the
      boundary in front of it resolves. */
  lemma FormattedStepWoven(env: Env, done: seq<Node>, prev: Node, flag: bool, seen: seq<Node>, c: Node, f: Node, j: Joint)
    requires |seen| > 0 && Woven(seen, done + [prev])
    requires Conforms(c, f) && Resolve(env, prev, f, flag) == Ok(j)
    ensures Woven(seen + [c], done + [j.left] + (if j.addSpace then [Space] else []) + [j.right])
  {
    WovenLast(seen, done + [prev]);
    ResolveConforms(env, prev, f, flag, seen[|seen| - 1], c);
    WovenStep(seen, done, prev, j, c);
  }

  lemma {:induction false} PassConforms(env: Env, done: seq<Node>, prev: Node, rest: seq<Node>, flag: bool, seen: seq<Node>)
    requires |seen| > 0 && Woven(seen, done + [prev])
    ensures Pass(env, done, prev, rest, flag).Ok? ==> Woven(seen + rest, Pass(env, done, prev, rest, flag).value)
    decreases rest
  {
    if |rest| == 0 {
      assert seen + rest == seen;
    } else if Format(env, rest[0]).Ok? {
      var f := Format(env, rest[0]).value;
      var rj := Resolve(env, prev, f, flag);
      if rj.Ok? {
        PassConformsStep(env, done, prev, rest, flag, seen, f, rj.value);
      }
    }
  }

  lemma {:induction false} PassConformsStep(env: Env, done: seq<Node>, prev: Node, rest: seq<Node>, flag: bool, seen: seq<Node>, f: Node, j: Joint)
    requires |seen| > 0 && Woven(seen, done + [prev])
    requires |rest| > 0 && Format(env, rest[0]) == Ok(f) && Resolve(env, prev, f, flag) == Ok(j)
    ensures Pass(env, done, prev, rest, flag).Ok? ==> Woven(seen + rest, Pass(env, done, prev, rest, flag).value)
    decreases rest, 0
  {
    var done' := done + [j.left] + (if j.addSpace then [Space] else []);
    PassStep(env, done, prev, rest, flag, f, j);
    FormatConforms(env, rest[0]);
    FormattedStepWoven(env, done, prev, flag, seen, rest[0], f, j);
    PassConforms(env, done', j.right, rest[1..], j.addSpaceNext, seen + [rest[0]]);
    assert seen + [rest[0]] + rest[1..] == seen + rest;
  }

  lemma EdgesLocatableCons(c: Node, rest: seq<Node>)
    requires |rest| > 0
    ensures EdgesLocatable([c] + rest) <==> HasLastLeaf(c) && HasFirstLeaf(rest[0]) && EdgesLocatable(rest)
  {
    var cs := [c] + rest;
    assert forall k :: 0 <= k < |rest| ==> cs[k + 1] == rest[k];
    if HasLastLeaf(c) && HasFirstLeaf(rest[0]) && EdgesLocatable(rest) {
      forall k | 0 <= k < |cs| - 1 ensures HasLastLeaf(cs[k]) {
        if k > 0 {
          assert cs[k] == rest[k - 1];
        }
      }
      forall k | 0 < k < |cs| ensures HasFirstLeaf(cs[k]) {
        assert cs[k] == rest[k - 1];
      }
    }
    if EdgesLocatable(cs) {
      assert cs[0] == c && cs[1] == rest[0];
      forall k | 0 <= k < |rest| - 1 ensures HasLastLeaf(rest[k]) {
        assert cs[k + 1] == rest[k];
      }
      forall k | 0 < k < |rest| ensures HasFirstLeaf(rest[k]) {
        assert cs[k + 1] == rest[k];
      }
    }
  }

  lemma AllWellFormedCons(cs: seq<Node>)
    requires |cs| > 0
    ensures AllWellFormed(cs) <==> WellFormed(cs[0]) && AllWellFormed(cs[1..])
  {
    assert forall k :: 0 <= k < |cs| - 1 ==> cs[1..][k] == cs[k + 1];
    if WellFormed(cs[0]) && AllWellFormed(cs[1..]) {
      forall k | 0 < k < |cs| ensures WellFormed(cs[k]) {
        assert cs[k] == cs[1..][k - 1];
      }
    }
  }

  /** The walker throws (the locator meets an empty container) exactly on trees that are not
      well-formed; on every other tree it completes. */
  lemma {:induction false} FormatSucceedsIff(env: Env, n: Node)
    ensures Format(env, n).Ok? <==> WellFormed(n)
    decreases n
  {
    match n
    case Leaf(_, _) =>
    case Parent(t, cs) =>
      if IsStructural(t) {
        forall k | 0 <= k < |cs| ensures Format(env, cs[k]).Ok? <==> WellFormed(cs[k]) {
          FormatSucceedsIff(env, cs[k]);
        }
      } else if IsInline(t) {
        InlineSucceedsIff(env, cs);
      }
  }

  lemma {:induction false} InlineSucceedsIff(env: Env, cs: seq<Node>)
    ensures InlineChildren(env, cs).Ok? <==> AllWellFormed(cs) && EdgesLocatable(cs)
    decreases cs
  {
    if |cs| > 0 {
      FormatSucceedsIff(env, cs[0]);
      AllWellFormedCons(cs);
      if Format(env, cs[0]).Ok? {
        var f := Format(env, cs[0]).value;
        FormatConforms(env, cs[0]);
        PassSucceedsIff(env, [], f, cs[1..], false, cs[0]);
        assert [cs[0]] + cs[1..] == cs;
      }
    }
  }

  lemma {:induction false} PassSucceedsIff(env: Env, done: seq<Node>, prev: Node, rest: seq<Node>, flag: bool, c: Node)
    requires Conforms(c, prev)
    ensures Pass(env, done, prev, rest, flag).Ok? <==> AllWellFormed(rest) && EdgesLocatable([c] + rest)
    decreases rest
  {
    if |rest| > 0 {
      FormatSucceedsIff(env, rest[0]);
      AllWellFormedCons(rest);
      EdgesLocatableCons(c, rest);
      if Format(env, rest[0]).Ok? {
        var f := Format(env, rest[0]).value;
        FormatConforms(env, rest[0]);
        ConformsKeepsEdges(c, prev);
        ConformsKeepsEdges(rest[0], f);
        var rj := Resolve(env, prev, f, flag);
        if rj.Ok? {
          PassStepSucceedsIff(env, done, prev, rest, flag, c, f, rj.value);
        }
      }
    }
  }

  lemma {:induction false} PassStepSucceedsIff(env: Env, done: seq<Node>, prev: Node, rest: seq<Node>, flag: bool, c: Node, f: Node, j: Joint)
    requires |rest| > 0 && Conforms(c, prev)
    requires Format(env, rest[0]) == Ok(f) && Conforms(rest[0], f)
    requires Resolve(env, prev, f, flag) == Ok(j)
    ensures Pass(env, done, prev, rest, flag).Ok? <==> AllWellFormed(rest[1..]) && EdgesLocatable(rest)
    decreases rest, 0
  {
    var done' := done + [j.left] + (if j.addSpace then [Space] else []);
    PassStep(env, done, prev, rest, flag, f, j);
    ResolveConforms(env, prev, f, flag, c, rest[0]);
    PassSucceedsIff(env, done', j.right, rest[1..], j.addSpaceNext, rest[0]);
    assert [rest[0]] + rest[1..] == rest;
  }

  lemma LeavesOfSnoc(cs: seq<Node>, x: Node)
    ensures LeavesOf(cs + [x]) == LeavesOf(cs) + Leaves(x)
  {
    LeavesOfAppend(cs, [x]);
    assert [x][1..] == [];
  }

  /** Formatting never loses a leaf: a conforming tree has at least as many leaves. */
  lemma {:induction false} ConformsLeafCount(n: Node, m: Node)
    requires Conforms(n, m)
    ensures |Leaves(n)| <= |Leaves(m)|
    decreases n, 2
  {
    match n
    case Leaf(_, _) =>
    case Parent(t, cs) =>
      if IsInline(t) {
        WovenLeafCount(cs, m.children);
      } else if IsStructural(t) {
        PointwiseLeafCount(cs, m.children);
      } else {
        RetouchedLeafCount(n, m);
      }
  }

  lemma {:induction false} PointwiseLeafCount(cs: seq<Node>, ms: seq<Node>)
    requires |ms| == |cs| && forall k :: 0 <= k < |cs| ==> Conforms(cs[k], ms[k])
    ensures |LeavesOf(cs)| <= |LeavesOf(ms)|
    decreases cs, 1
  {
    if |cs| > 0 {
      ConformsLeafCount(cs[0], ms[0]);
      assert forall k :: 0 <= k < |cs| - 1 ==> cs[1..][k] == cs[k + 1] && ms[1..][k] == ms[k + 1];
      PointwiseLeafCount(cs[1..], ms[1..]);
    }
  }

  lemma {:induction false} WovenLeafCount(cs: seq<Node>, out: seq<Node>)
    requires Woven(cs, out)
    ensures |LeavesOf(cs)| <= |LeavesOf(out)|
    decreases cs, 0
  {
    if |cs| > 0 {
      var i := |cs| - 1;
      assert cs == cs[..i] + [cs[i]];
      LeavesOfSnoc(cs[..i], cs[i]);
      ConformsLeafCount(cs[i], out[|out| - 1]);
      if |cs| == 1 {
        assert out == out[..0] + [out[0]];
        LeavesOfSnoc(out[..0], out[0]);
      } else if Woven(cs[..i], out[..|out| - 1]) {
        WovenLeafCount(cs[..i], out[..|out| - 1]);
        assert out == out[..|out| - 1] + [out[|out| - 1]];
        LeavesOfSnoc(out[..|out| - 1], out[|out| - 1]);
      } else {
        var pre := out[..|out| - 2];
        WovenLeafCount(cs[..i], pre);
        SpacedLeafCount(pre, out);
      }
    }
  }

  lemma SpacedLeafCount(pre: seq<Node>, out: seq<Node>)
    requires |out| >= 2 && out[|out| - 2] == Space && pre == out[..|out| - 2]
    ensures LeavesOf(out) == LeavesOf(pre) + [Space] + Leaves(out[|out| - 1])
  {
    assert out == pre + [Space] + [out[|out| - 1]];
    LeavesOfSnoc(pre, Space);
    LeavesOfSnoc(pre + [Space], out[|out| - 1]);
  }

  /** Changing values never adds or removes a leaf. */
  lemma {:induction false} RetouchedLeafCount(n: Node, m: Node)
    requires Retouched(n, m)
    ensures |Leaves(n)| == |Leaves(m)|
    decreases n, 1
  {
    match n
    case Leaf(_, _) =>
    case Parent(_, cs) =>
      RetouchedLeafCountEach(cs, m.children);
  }

  lemma {:induction false} RetouchedLeafCountEach(cs: seq<Node>, ms: seq<Node>)
    requires |ms| == |cs| && forall k :: 0 <= k < |cs| ==> Retouched(cs[k], ms[k])
    ensures |LeavesOf(cs)| == |LeavesOf(ms)|
    decreases cs, 0
  {
    if |cs| > 0 {
      RetouchedLeafCount(cs[0], ms[0]);
      assert forall k :: 0 <= k < |cs| - 1 ==> cs[1..][k] == cs[k + 1] && ms[1..][k] == ms[k + 1];
      RetouchedLeafCountEach(cs[1..], ms[1..]);
    }
  }
}
