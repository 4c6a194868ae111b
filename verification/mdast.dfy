/** The part of the mdast syntax tree the formatter looks at: every node is either a parent
    (it has a `children` array) or a leaf; the `type` tag is split accordingly. */
module Mdast {

  /** The `type` of a node that has `children`. */
  datatype ParentType =
    // block containers the walker only recurses into
    | Blockquote | List | Table | TableRow
    // containers whose children are inline runs with boundaries between them
    | Delete | Emphasis | Heading | Link | LinkReference | ListItem | Paragraph | Strong | TableCell
    // containers the walker does not enter
    | FootnoteDefinition | OtherParent

  /** The `type` of a node without `children`. */
  datatype LeafType =
    | Text | InlineMath | Math | InlineCode
    | Code | Html | Yaml | Break | ThematicBreak | Image | ImageReference | Definition | FootnoteReference
    | OtherLeaf

  /** A node; `value` is the string payload of literal leaves and is empty (and never read) for
      the leaves mdast gives no `value`, such as `break` or `image`. */
  datatype Node =
    | Parent(parentType: ParentType, children: seq<Node>)
    | Leaf(leafType: LeafType, value: string)

  /** The document root; the transformer formats each of its children. */
  datatype Root = Root(children: seq<Node>)

  /** The lone-space text node spliced between two inline siblings. */
  const Space: Node := Leaf(Text, " ")

  predicate IsStructural(t: ParentType) {
    t.Blockquote? || t.List? || t.Table? || t.TableRow?
  }

  predicate IsInline(t: ParentType) {
    || t.Delete? || t.Emphasis? || t.Heading? || t.Link? || t.LinkReference?
    || t.ListItem? || t.Paragraph? || t.Strong? || t.TableCell?
  }

  /** Leaves that take part in a boundary as one opaque token. */
  predicate IsToken(t: LeafType) {
    t.InlineMath? || t.InlineCode?
  }

  /** Leaves whose value the walker itself rewrites through a normalisation collaborator. */
  predicate IsRewritable(t: LeafType) {
    t.Text? || t.InlineMath? || t.Math?
  }

  /** The tree with every leaf value erased: two nodes have the same shape when they differ
      at most in leaf values. */
  function Shape(n: Node): Node
    decreases n
  {
    match n
    case Leaf(t, _) => Leaf(t, "")
    case Parent(t, cs) => Parent(t, seq(|cs|, k requires 0 <= k < |cs| => Shape(cs[k])))
  }

  /** The leaves of a node in document order. */
  function Leaves(n: Node): (r: seq<Node>)
    decreases n
  {
    match n
    case Leaf(_, _) => [n]
    case Parent(_, cs) => LeavesOf(cs)
  }

  /** The leaves of a sequence of siblings in document order. */
  function LeavesOf(cs: seq<Node>): seq<Node>
    decreases cs
  {
    if |cs| == 0 then [] else Leaves(cs[0]) + LeavesOf(cs[1..])
  }

  lemma {:induction false} LeavesOfAppend(a: seq<Node>, b: seq<Node>)
    ensures LeavesOf(a + b) == LeavesOf(a) + LeavesOf(b)
    decreases |a|
  {
    if |a| == 0 {
      assert a + b == b;
    } else {
      assert (a + b)[1..] == a[1..] + b;
      LeavesOfAppend(a[1..], b);
    }
  }
}
