# remark-lfm-fmt spacing pass, modelled in Dafny

`remark-lfm-fmt` is a remark plugin that normalises the spacing of Markdown whose text mixes CJK
with Latin letters, digits, inline math and inline code. Its walker (`format` in
`packages/remark-lfm-fmt/src/lib/fmt.js`) visits a parsed mdast tree depth first:

- block containers (`blockquote`, `list`, `table`, `tableRow`) and the root only recurse;
- inline-bearing containers (`delete`, `emphasis`, `heading`, `link`, `linkReference`,
  `listItem`, `paragraph`, `strong`, `tableCell`) format each child left to right and, from the
  second child on, resolve the boundary with the previous child. The boundary operands are found
  by the descendant locator (`findLastDescendant` / `findFirstDescendant`): the leaf reached by
  following last (first) children;
- `text` leaves go through `formatText`, `inlineMath` and `math` leaves through `formatMath`;
- everything else, `footnoteDefinition` included, is left alone.

At a text/text boundary, `concatToken` rewrites both values and may ask for a lone `" "` text
node, spliced between the two siblings; it also threads the `lastAddSpace` flag. At a text/token
boundary (token = `inlineMath` or `inlineCode`) the text side is trimmed and one space is put back
when `shouldAddSpace` asks for one, using `"A"` to stand for the token.

The model is functional: the tree is the `Mdast.Node` datatype. Each call returns the rewritten
subtree, where the JavaScript mutates in place. The in-place writes `leaf.value = v` become
`SetFirstLeafValue` / `SetLastLeafValue`. The splice and the `i++` after it become a loop (`Pass`)
that builds the new child sequence: the spliced node goes straight into the finished prefix.
The collaborators `formatText`, `formatMath`, `concatToken` (helper.js) and `shouldAddSpace`
(rule.js) are fields of an `Env` parameter. helper.js and rule.js are not part of this model.
Every property holds for every choice of these functions, but as Dafny functions they are total,
deterministic, free of side effects and cannot throw; that much is assumed. JavaScript's `trimEnd`/`trimStart` are modelled exactly,
with the WhiteSpace and LineTerminator sets of ECMA-262 (sections 12.2 and 12.3).

When the locator steps into an empty `children` array, it reads `undefined` and the next step
throws a `TypeError`. A text-less link `[](url)` next to other inline content is enough to cause
this. The model returns `Fail(EmptyContainer)` there. `Conformance.FormatSucceedsIff` states exactly
which trees reach it, and `Properties.EmptyLinkAfterTextFails` gives an instance.

Files: `outcomes.dfy` (Option, Outcome), `js_string.dfy` (trim and index), `mdast.dfy` (nodes,
shape, leaves), `locate.dfy` (locator and leaf writes), `boundary.dfy` (collaborators, boundary
step), `walker.dfy` (`format`, the loop, the root), `conformance.dfy` (what a formatted tree looks
like, when formatting fails), `properties.dfy` (exactly-once formatting and the scenarios).

## Model

| member | source | states |
|---|---|---|
| `JsString.TrimEnd` | packages/remark-lfm-fmt/src/lib/fmt.js:89 | `trimEnd` returns a prefix of its input. The prefix is empty or ends in a non-whitespace character, and only whitespace was removed. |
| `JsString.TrimStart` | packages/remark-lfm-fmt/src/lib/fmt.js:107 | `trimStart` returns a suffix of its input. The suffix is empty or starts with a non-whitespace character, and only whitespace was removed. |
| `JsString.LastChar` | packages/remark-lfm-fmt/src/lib/fmt.js:92 | `lastStr[lastStr.length - 1]` is the last character, or undefined exactly when the string is empty |
| `JsString.FirstChar` | packages/remark-lfm-fmt/src/lib/fmt.js:108 | `thisStr[0]` is the first character, or undefined exactly when the string is empty |
| `Locate.FirstLeaf` | packages/remark-lfm-fmt/src/lib/fmt.js:14-20 | Defined only when every container on the first-child path is non-empty (otherwise the source throws). It returns a node without children, namely the first leaf of the subtree in document order. |
| `Locate.LastLeaf` | packages/remark-lfm-fmt/src/lib/fmt.js:23-29 | Defined only when every container on the last-child path is non-empty. It returns a node without children, namely the last leaf of the subtree in document order. |
| `Locate.SetFirstLeafValue` | packages/remark-lfm-fmt/src/lib/fmt.js:64-74 | Writing the located first leaf changes only that leaf's value. The shape and every other leaf are unchanged, and reading the first leaf back gives the written value. |
| `Locate.SetLastLeafValue` | packages/remark-lfm-fmt/src/lib/fmt.js:63-73 | Writing the located last leaf changes only that leaf's value. The shape and every other leaf are unchanged, and reading the last leaf back gives the written value. |
| `Locate.SetFirstLeafValueOwn` | packages/remark-lfm-fmt/src/lib/fmt.js:14-20 | Writing back the value just read from the first leaf leaves the tree unchanged |
| `Locate.SetLastLeafValueOwn` | packages/remark-lfm-fmt/src/lib/fmt.js:23-29 | Writing back the value just read from the last leaf leaves the tree unchanged |
| `Boundary.SpaceBeforeToken` | packages/remark-lfm-fmt/src/lib/fmt.js:85-100 | The new text before a token has the same `trimEnd` as the old text and ends in at most one whitespace character. That character is a space, and it is present exactly when `shouldAddSpace(lastChar, "A", trimmedSomething)` holds. |
| `Boundary.SpaceAfterToken` | packages/remark-lfm-fmt/src/lib/fmt.js:102-113 | The new text after a token has the same `trimStart` as the old text and starts with at most one whitespace character. That character is a space, and it is present exactly when `shouldAddSpace("A", firstChar, trimmedSomething)` holds. |
| `Boundary.JoinTexts` | packages/remark-lfm-fmt/src/lib/fmt.js:67-84 | At text/text, only the two boundary leaves change. They take the values `concatToken` returns, and the splice request and next flag are the ones it returns. |
| `Boundary.JoinTextToken` | packages/remark-lfm-fmt/src/lib/fmt.js:85-100 | Before a token, only the last text leaf of the left sibling changes, to the trimmed-and-spaced value. The token side, the splice and the flag are untouched. |
| `Boundary.JoinTokenText` | packages/remark-lfm-fmt/src/lib/fmt.js:102-113 | After a token, only the first text leaf of the right sibling changes, to the trimmed-and-spaced value. The token side, the splice and the flag are untouched. |
| `Boundary.Resolve` | packages/remark-lfm-fmt/src/lib/fmt.js:63-116 | The step fails exactly when a locator fails. On success, neither sibling changes shape and only the boundary leaves can change. Only text leaves are written, and a splice happens only between two text leaves. |
| `Boundary.ResolveTextText` | packages/remark-lfm-fmt/src/lib/fmt.js:66-84 | Between two text leaves, `concatToken` decides both new values, the splice and the next flag |
| `Boundary.ResolveTextToken` | packages/remark-lfm-fmt/src/lib/fmt.js:85-101 | Text followed by `inlineMath` or `inlineCode`: the text is trimmed at the end and gets at most one space back. The token and the flag are untouched, and nothing is spliced. |
| `Boundary.ResolveTokenText` | packages/remark-lfm-fmt/src/lib/fmt.js:102-113 | `inlineMath` or `inlineCode` followed by text: the text is trimmed at the start and gets at most one space back. The token and the flag are untouched, and nothing is spliced. |
| `Boundary.ResolveFlag` | packages/remark-lfm-fmt/src/lib/fmt.js:75-116 | `lastAddSpace` comes from `concatToken` at text/text. It resets exactly when the left leaf is neither text nor a token, and is kept in every other case. |
| `Boundary.ResolveOtherPairs` | packages/remark-lfm-fmt/src/lib/fmt.js:66-116 | Any pair other than text/text, text/token and token/text leaves both siblings as they are and splices nothing |
| `Walker.FormatLeafValue` | packages/remark-lfm-fmt/src/lib/fmt.js:122-145 | Only `text`, `inlineMath` and `math` values are rewritten |
| `Walker.Format` | packages/remark-lfm-fmt/src/lib/fmt.js:36-147 | A formatted node keeps its variant and its `type` |
| `Walker.FormatEach` | packages/remark-lfm-fmt/src/lib/fmt.js:43 | `forEach(format)` succeeds exactly when every child formats. Its result has one entry per child: that child formatted. |
| `Walker.InlineChildren` | packages/remark-lfm-fmt/src/lib/fmt.js:56-117 | The inline loop with `lastAddSpace` starting false keeps every original child and splices at most one space between neighbours: n children give between n and 2n - 1 nodes. Its full behaviour is stated by `Properties.InlineFormatsEachChildOnce` (format each child once, then resolve), `Conformance.InlineConforms` (output woven from the originals) and `Conformance.InlineSucceedsIff` (when it throws). |
| `Walker.Pass` | packages/remark-lfm-fmt/src/lib/fmt.js:58-117 | The loop from index i on, splice and `i++` included. Children before i are never revisited, and each remaining child yields one node plus at most one spliced space. Its full behaviour is stated by `Properties.PassFormatsEachChildOnce`, `Conformance.PassConforms` and `Conformance.PassSucceedsIff`. |
| `Walker.Transform` | packages/remark-lfm-fmt/src/lib/fmt.js:159-161 | The root keeps its number of children, and each child is formatted on its own, with no boundary step between them |
| `Conformance.FormatConforms` | packages/remark-lfm-fmt/src/lib/fmt.js:36-147 | The output conforms to the input. Every node keeps its variant and `type`. Only `text`/`inlineMath`/`math` values change. Inside inline containers, lone-space text nodes are inserted between original siblings, and nothing is removed or reordered. |
| `Conformance.InlineConforms` | packages/remark-lfm-fmt/src/lib/fmt.js:56-61 | The children of an inline container come out as the original children, each conforming, with at most one `" "` node between consecutive ones |
| `Conformance.PassConforms` | packages/remark-lfm-fmt/src/lib/fmt.js:58-117 | Each loop iteration, splice included, keeps the output woven from the original children |
| `Conformance.ResolveConforms` | packages/remark-lfm-fmt/src/lib/fmt.js:63-113 | A boundary step's writes keep both siblings conforming to the originals |
| `Conformance.ConformsKeepsEdges` | packages/remark-lfm-fmt/src/lib/fmt.js:14-29 | Formatting does not change whether the locator can descend, nor the kind of leaf it reaches |
| `Conformance.FormatSucceedsIff` | packages/remark-lfm-fmt/src/lib/fmt.js:58-64 | `format` throws exactly when some visited inline container has a child whose boundary leaf sits below an empty container. On every other tree it completes. |
| `Conformance.InlineSucceedsIff` | packages/remark-lfm-fmt/src/lib/fmt.js:58-64 | The inline loop completes exactly when all children are well formed and every needed boundary leaf is reachable |
| `Conformance.PassSucceedsIff` | packages/remark-lfm-fmt/src/lib/fmt.js:58-64 | The remaining iterations complete exactly when the remaining children are well formed and the locator can reach every boundary leaf they meet, the left operand's included |
| `Conformance.RetouchedKeepsEdges` | packages/remark-lfm-fmt/src/lib/fmt.js:14-29 | Below a node the walker does not enter, value writes do not change whether the locator can descend, nor the kind of leaf it reaches |
| `Conformance.RetouchedLeafCount` | packages/remark-lfm-fmt/src/lib/fmt.js:133-145 | Below a node the walker does not enter, no leaf is added or removed |
| `Properties.NoSpliceBelowFootnote` | packages/remark-lfm-fmt/src/lib/fmt.js:133-145 | A `footnoteDefinition` whose paragraph gained a spliced space does not conform to the original: the splice happens only in containers the walker enters |
| `Conformance.ConformsLeafCount` | packages/remark-lfm-fmt/src/lib/fmt.js:76-83 | Formatting never decreases the number of leaves |
| `Conformance.WovenBounds` | packages/remark-lfm-fmt/src/lib/fmt.js:76-83 | An inline container with n > 0 children ends up with between n and 2n - 1 children |
| `Properties.PassFormatsEachChildOnce` | packages/remark-lfm-fmt/src/lib/fmt.js:58-83 | The interleaved loop equals "format every child once, then resolve the boundaries left to right". So each original child is formatted exactly once before it is read, and a spliced space is never formatted. |
| `Properties.InlineFormatsEachChildOnce` | packages/remark-lfm-fmt/src/lib/fmt.js:56-61 | The same for a whole inline container, with `lastAddSpace` starting false |
| `Properties.ShortInlineContainer` | packages/remark-lfm-fmt/src/lib/fmt.js:58-61 | An inline container with zero or one child runs no boundary step |
| `Properties.StructuralOnlyRecurses` | packages/remark-lfm-fmt/src/lib/fmt.js:39-45 | A block container keeps its number of children. Each child is formatted on its own, with no boundary step. |
| `Properties.InertNodesUntouched` | packages/remark-lfm-fmt/src/lib/fmt.js:133-145 | `format` returns `footnoteDefinition`, unknown containers and non-text, non-math leaves unchanged |
| `Properties.TransformConforms` | packages/remark-lfm-fmt/src/lib/fmt.js:159-161 | The transform completes exactly on documents whose top-level nodes are well formed. Its result conforms child by child. |
| `Properties.ResolveTexts` | packages/remark-lfm-fmt/src/lib/fmt.js:66-84 | For two bare text siblings, the boundary step returns exactly two text leaves holding `concatToken`'s values, with its splice request and its flag |
| `Properties.TwoTextSiblings` | packages/remark-lfm-fmt/src/lib/fmt.js:56-84 | Two text siblings: `concatToken` sees both formatted values with the flag false. A requested space becomes its own sibling. |
| `Properties.ThreeTextSiblings` | packages/remark-lfm-fmt/src/lib/fmt.js:68-75 | The second boundary reads the value the first one wrote and receives the flag the first one returned |
| `Properties.TextBeforeInlineCode` | packages/remark-lfm-fmt/src/lib/fmt.js:85-100 | "你好" followed by inline code becomes "你好 " when `shouldAddSpace` asks for it. The code node is untouched. |
| `Properties.TextAfterInlineMath` | packages/remark-lfm-fmt/src/lib/fmt.js:102-113 | Inline math followed by "你好" gives " 你好" when `shouldAddSpace` asks for it |
| `Properties.SpaceOutsideMarkup` | packages/remark-lfm-fmt/src/lib/fmt.js:76-83 | For `strong` text followed by text, the inner and outer text leaves are the operands. A requested space is spliced outside the `strong`. |
| `Properties.OpaqueNeighbours` | packages/remark-lfm-fmt/src/lib/fmt.js:114-116 | An image next to a break: nothing changes |
| `Properties.ListItemsIndependent` | packages/remark-lfm-fmt/src/lib/fmt.js:39-45 | The items of a list are formatted independently, with no boundary between them |
| `Properties.EmptyLinkAfterTextFails` | packages/remark-lfm-fmt/src/lib/fmt.js:14-20 | Text followed by a link with no children makes `format` throw |

## Left out

- The bodies of `formatText`, `formatMath`, `concatToken` (helper.js) and `shouldAddSpace` (rule.js). helper.js and rule.js are not part of this model, so their CJK and punctuation tables are unknown. They are `Env` parameters, and every property holds for all of them. Idempotence of the whole pass depends only on them and is not claimed.
- The collaborators are assumed total, pure and non-throwing. `shouldAddSpace` receives `undefined` (`None`) whenever the trimmed string is empty (fmt.js:92, fmt.js:108). If it, `concatToken`, `formatText` or `formatMath` threw or had side effects, `format` could throw on a tree that `Conformance.FormatSucceedsIff` says completes. That theorem holds only under this assumption.
- The plugin factory `remarkLfmFmt`, the unused `VFile` argument, and parsing and serialising Markdown. These are framework plumbing. Only the root loop of the transformer is modelled.
- In-place mutation and object identity. The model returns new values, and no two positions of a tree share a node. When `format` throws part-way, the tree is left partly rewritten. The model returns only the error.
- JavaScript strings are UTF-16. `lastStr[lastStr.length - 1]` can be half of a surrogate pair, but the model's characters are whole code points.
- The JSDoc type annotations and the `@ts-expect-error` on the splice. They do not affect behaviour.
- Conformance.Conforms: below a `footnoteDefinition` or an unknown container it requires `Retouched`: no node added, removed or re-typed, but text and math values may change at any leaf. The walker itself returns such nodes unchanged (`Properties.InertNodesUntouched`). But the locator descends into any node with children. So when such a node is a child of an inline container, the boundary step can still write its first or last text leaf. `Retouched` admits any rewritable leaf there, not only the two edge leaves.
- Conformance.ConformsLeafCount: states that formatting never loses leaves. It does not state that the increase equals the number of spliced spaces. An exact count needs a measure of the splices defined apart from the walker. `Conforms` does not fix which output node each original child became: an original lone-space text sibling and a spliced one can trade places. So no such measure follows from the relation alone, and counting the walker's own splices would only repeat `Walker.Pass`. Below nodes the walker does not enter, the count is exact (`Conformance.RetouchedLeafCount`).

## Notes on the boundary rules

Three consequences of the branch structure of fmt.js:66-116 that are easy to misread:
- At a text/token or token/text boundary, `lastAddSpace` is kept, not reset.
- The flag resets only when the left leaf is neither text nor a token. Between a token on the left and a non-text leaf on the right, it is kept.
- Block `math` is formatted (fmt.js:127-131) but is not a boundary token.
