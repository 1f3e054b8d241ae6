# pretty-html, modelled in Dafny

`pretty-html` renders a DOM tree as one line per node, in two forms. Both
walk the tree in pre-order.

- `text()` gives plain text for a console. Each line is indented by two
  spaces per level of depth. A text node's value is shown between quotes,
  with its whitespace replaced by visible glyphs (`·`, `¬`, `‣`). An element
  is shown as `[ name | key = 'value', … ]`.
- `html()` gives a nest of `<div class="line">` rows, each starting with a
  depth span. If a selection range is given, its start and end boundaries
  are overlaid as empty `<span class="range …">` markers:
  - inside text nodes, at the character offsets;
  - before a node or after an element, at the child offsets in the parent.

The model has seven modules, one file each:

- `Wrappers` (`wrappers.dfy`): the `Option` type, for an absent range and
  for the unset offset cache.
- `Strings` (`strings.dfy`): the JavaScript string and array operations
  the module relies on, written out over `seq<char>`: `join`, `slice`,
  global `replace` of one character, `toLowerCase`, the `repeat` helper,
  and number-to-string.
- `Attributes` (`attributes.dfy`):
  - `attributes(attrs)` and `empty(obj)`;
  - the ` | k = 'v', …` segment that both renderers build the same way.

  A plain object is a `Mapping`: its own keys in insertion order plus a
  map from key to value.
- `Dom` (`dom.dfy`):
  - the node tree: elements, text nodes, and other nodes with children;
  - the selection range;
  - `Preorder`, the sequence of calls that `walk` makes on its callback.

  A visit records the node, its depth and its `Place`: either the root, or
  child number `index` of a given parent. `parentNode`, `previousSibling`
  and `nextSibling` are read off the place. Nodes are compared by an id, as
  the source compares them by reference. The predicate `UniqueIds` states
  that no two nodes of the rendered tree share an id.
- `Whitespace` (`whitespace.dfy`): `spaces`, and the whitespace wrapping at
  the end of `htmltext`. Each is proved equal to a character-by-character
  reference definition.
- `Boundary` (`boundary.dfy`): `htmlbeforenode`, `htmlafternode` (each
  with its `calculateOffset`) and `htmltext`.
- `Pretty` (`pretty.dfy`): the `Pretty` object. It is a class with the
  `dom` and `range` fields and the methods `Walk`, `Text` and `Html`.
  `Text` and `Html` are proved equal to the functions `TextOutput` and
  `HtmlOutput`, which state the output line by line.

Two behaviours of the code are easy to misread:

- Degenerate text range. When both containers are the same text node and
  the end offset is not after the start offset, `htmltext` keeps
  `str.slice(0, start)` and `str.slice(end)`. The characters between the
  two offsets therefore appear twice (`Boundary.MarkedDegenerate`); none of
  them are dropped.
- Before-marker. `html()` calls `htmlbeforenode` for every visited node,
  including nodes that are neither elements nor text. Such a node gets a
  line made of the depth span and possibly a before-marker.

Because `htmlafternode` is called for elements only (index.js:61) and
`htmlbeforenode` shows an end boundary only for a collapsed range
(index.js:242), some child-offset boundaries are shown on no line of
`html()`. `Pretty.StartBesideWhere` and `Pretty.EndBesideWhere` state
exactly where each boundary is shown beside a line. Three consequences are stated as
lemmas of their own:

- A boundary inside an element or other node with no children is not shown
  (`Pretty.ChildlessContainerShowsNoBoundary`).
- A boundary at the child count of a container whose last child is not an
  element is not shown: the start, and the end of a collapsed range
  (`Pretty.BoundaryAfterNonElementHidden`).
- The end of a range that is not collapsed is not shown when the child
  just before it is not an element (`Pretty.OpenEndAfterNonElementHidden`).

## Model

| member | source | states |
|---|---|---|
| `Pretty.Pretty.constructor` | index.js:19-23 | The object keeps the given tree and range. |
| `Pretty.Pretty.Walk` | index.js:107-115 | The calls made on the callback are exactly `Preorder(node, depth, place)`: the node first, then each child's walk at depth + 1 in `childNodes` order. |
| `Dom.PreorderVisitsEachNodeOnce` | index.js:107-115 | Counted with multiplicity, the visited nodes are the nodes of the tree. So every node is visited exactly once, and there are as many visits as nodes. |
| `Dom.PreorderShape` | index.js:107-115 | The first visit is the node itself at the given depth. Every later visit is deeper, sits where its place says among its parent's children, and comes after a visit of its parent exactly one level up. The order of siblings' subtrees comes from the definition of `Preorder` (the `Walk` row). |
| `Dom.VisitedNodesInTree` | index.js:107-115 | Every visited node is a node of the tree. |
| `Pretty.Pretty.TextVisit` | index.js:81-98 | The line built for one node is `TextLine`: the indentation, then the quoted glyph text, the bracketed element with its segment, or nothing. |
| `Pretty.Pretty.Text` | index.js:77-101 | `text()` is `TextOutput(dom)`: the visit lines in walk order, joined with line feeds. |
| `Pretty.TextOutputLines` | index.js:77-101 | If no element name or attribute holds a line feed, splitting `text()` at line feeds gives back exactly the visit lines, one per node of the tree. |
| `Pretty.TextLineIndent` | index.js:82 | A line starts with exactly two spaces per level of depth, and the next character is not a space. The line of a node that is neither element nor text is only that indentation. |
| `Pretty.TextLineOfText` | index.js:83-84 | After the indentation, a text node's line is its value between single quotes, with each character replaced by its glyph. |
| `Pretty.Pretty.HtmlVisit` | index.js:39-65 | The line built for one node is `HtmlLine`: the depth span, the before-marker (for every node), the node's own span, and the after-marker, which only an element gets. |
| `Pretty.Pretty.Html` | index.js:32-68 | `html()` is `HtmlOutput(dom, range)`: the prefix, the visit lines joined by the line separator, and the suffix. |
| `Attributes.FromItems` | index.js:127-133 | The mapping the loop builds from a collection, one `out[name] = value` per item in order. Each item adds at most one key. |
| `Attributes.Attributes` | index.js:124-134 | An object is returned as it is. A collection is copied, in collection order, into a new mapping (`FromItems`). |
| `Attributes.FromItemsKeys` | index.js:129-131 | The keys of the copied mapping are exactly the attribute names. |
| `Attributes.FromItemsLastWins` | index.js:129-131 | Last duplicate wins: the value under a name is the value of the last attribute with that name. |
| `Attributes.FromItemsValues` | index.js:129-131 | Every value under a key is the value of some attribute with that name. |
| `Attributes.FromItemsKeyOrder` | index.js:129-131 | The keys are enumerated in the order in which each name first occurs in the collection. |
| `Attributes.ExtractItemsOf` | index.js:124-134 | Listing a mapping's entries as a collection and extracting it gives the same mapping back. |
| `Attributes.Empty` | index.js:155-160 | `empty(obj)` is true exactly when the object has no own keys. |
| `Attributes.SegmentOmittedIffEmpty` | index.js:52-57 | The attribute segment is empty exactly when there are no attributes. Otherwise it starts with a space, a vertical bar and a space. |
| `Attributes.AttributeSegment` | index.js:88-93 | The shared segment code (extract, test for emptiness, one `k = 'v'` text per key, joined with `, `) yields `Segment` of the extracted mapping. |
| `Strings.Repeat` | index.js:144-146 | Joining `n + 1` holes with `str` gives `n` copies of `str`, whose length is `n` times the length of `str`. |
| `Strings.Slice` | index.js:193 | `s.slice(from, to)` with both offsets clamped to the length. Its length is the distance between the clamped offsets, or zero when `to` is not after `from`; when the clamped `from` is not after the clamped `to`, the part before the clamped `from`, the result and the part from the clamped `to` give `s` back. |
| `Strings.SliceSplice` | index.js:193 | For cut points `a <= b`, the slice up to `a`, the slice from `a` to `b` and the rest from `b` put back together give the whole string, so the three-piece splice loses no character. |
| `Strings.SliceFrom` | index.js:198 | `s.slice(from)` with the offset clamped to the length. The result is what follows the first `from` characters, so the two pieces put back together give `s`. |
| `Strings.SplitJoin` | index.js:100 | Joining parts with one character and splitting on it gives the parts back, as long as no part holds that character. |
| `Whitespace.Spaces` | index.js:170-176 | The four replaces act per character. A space becomes `·`, CR and LF become `¬`, a tab becomes `‣`, and all other characters stay. The length is kept and no whitespace is left. |
| `Whitespace.WrapWhitespace` | index.js:208-212 | The four wrapping replaces, in the source's order. A string with none of `·`, CR, tab and LF passes through unchanged. |
| `Whitespace.WrapWhitespaceIsPerChar` | index.js:208-212 | The four wrapping replaces equal the per-character reference `WrapChars`: `·`, CR/LF and tab each become their own span. |
| `Boundary.Combine` | index.js:247-257 | Start and end together give the point marker. Either alone gives its own marker. Neither gives none. |
| `Boundary.BeforeMarker` | index.js:229-259 | No range, no marker. The start boundary is shown iff the start container is the parent and the start offset is the node's index. The end boundary is shown iff the same holds for the end and the range is collapsed. |
| `Boundary.AfterMarker` | index.js:276-306 | No range, no marker. The start boundary is shown iff the start container is the parent, the start offset is index + 1, and there is no next sibling. The end boundary is shown iff the end container is the parent, the end offset is index + 1, and there is no next sibling or the range is not collapsed. |
| `Boundary.CalculateOffset` | index.js:217-227 | The offset is the node's index among its parent's children, either counted by walking back over previous siblings until there is none or taken from the cache. |
| `Boundary.HtmlBeforeNode` | index.js:215-260 | `htmlbeforenode` returns the markup of `BeforeMarker`. |
| `Boundary.HtmlAfterNode` | index.js:262-307 | `htmlafternode` returns the markup of `AfterMarker`. |
| `Boundary.CollapsedRangeAmongChildren` | index.js:240-245 | A collapsed range in `p` at offset `k` makes `BeforeMarker` of child `k` the point marker, and `AfterMarker` of the last child the point marker when `k` is the child count. No other child gets a marker on either side. What `html()` shows of the after-marker is stated by `Pretty.BoundaryAfterNonElementHidden`. |
| `Boundary.SpanningRangeAmongChildren` | index.js:287-292 | A non-collapsed range in `p` gives child `ks` a `BeforeMarker` with the start (or the last child an `AfterMarker` with the start when `ks` is the child count), and child `ke - 1` an `AfterMarker` with the end. What `html()` shows of after-markers is stated by `Pretty.BoundaryAfterNonElementHidden` and `Pretty.OpenEndAfterNonElementHidden`. |
| `Boundary.Dots` | index.js:188 | The first replace turns every space into `·` and changes nothing else, so the length is kept and text offsets count the characters of the node's value. |
| `Boundary.Marked` | index.js:189-207 | The marker splice. With no range, or when the node is neither container, the text is kept. Otherwise a marker is inserted and the result is longer than the text. |
| `Boundary.MarkedStartOnly` | index.js:197-199 | Start container only: the start marker is inserted at the start offset, clamped to the length. |
| `Boundary.MarkedEndOnly` | index.js:201-202 | End container only: the end marker is inserted at the end offset, clamped to the length. |
| `Boundary.MarkedSpan` | index.js:192-193 | Both containers, end after start: a start marker at the start offset and an end marker at the end offset, with the text between them kept whole. |
| `Boundary.MarkedDegenerate` | index.js:194-196 | Both containers, end not after start: the text up to the start, the point marker, then the text from the end. The characters between the two offsets appear twice. Equal offsets give a plain insertion. |
| `Boundary.WrapAroundMarker` | index.js:208-212 | Whitespace wrapping leaves an inserted marker whole and wraps the text on either side of it separately. |
| `Boundary.HtmlText` | index.js:186-213 | `htmltext`: the replace, the splice and the wrapping. With no boundary in the node, each space, CR, LF and tab (and each literal `·`) becomes its span, and every other character passes through. |
| `Boundary.HtmlTextStartOnly` | index.js:197-199 | Start container only: the wrapped text before the offset, the start marker, then the wrapped text after it. |
| `Boundary.HtmlTextEndOnly` | index.js:201-202 | End container only: the wrapped text before the offset, the end marker, then the wrapped text after it. |
| `Boundary.HtmlTextSpan` | index.js:192-193 | Both containers, end after start: three pieces of wrapped text separated by the start and end markers. |
| `Boundary.HtmlTextDegenerate` | index.js:194-196 | Both containers, end not after start: the wrapped text up to the start offset, the point marker, then the wrapped text from the end offset. |
| `Boundary.HtmlTextDotLikeSpace` | index.js:188 | A literal `·` in a text node renders exactly as a space does, wherever the range falls. |
| `Pretty.ContainerIsVisitedParent` | index.js:233 | When ids are unique, a visit whose parent has the id of the node of an earlier visit `m` is one of that node's children, at the index its place gives. So a range container is matched only by that node's own children. |
| `Pretty.StartBesideWhere` | index.js:44-61 | In `html()`, the start of a range whose container is a visited node is shown beside exactly these lines: the line of child number `startOffset` (before it), and the line of the last child, when that child is an element and the offset is the child count (after it). |
| `Pretty.EndBesideWhere` | index.js:44-61 | In `html()`, the end of a range is shown beside exactly these lines: before child number `endOffset` if the range is collapsed; after child `endOffset - 1` if it is an element and either it is the last child or the range is not collapsed. |
| `Pretty.ChildlessContainerShowsNoBoundary` | index.js:44-61 | A boundary whose container has no children is shown beside no line. |
| `Pretty.BoundaryAfterNonElementHidden` | index.js:61 | A start boundary at the child count of a container whose last child is not an element is shown beside no line. So is the end of a collapsed range there. |
| `Pretty.OpenEndAfterNonElementHidden` | index.js:240-245 | The end of a range that is not collapsed is shown beside no line when the child just before it is not an element, or when there is no such child. |

## Left out

- The constructor's `instanceof` guard is not modelled: Dafny allocates a
  `Pretty` with `new`, so calling it without `new` has no counterpart.
- `slice.call(attrs)` is not modelled as a separate step. It is taken to
  give the collection's items in order.
- The shape test in `attributes` (`item`/`length` present) is modelled as
  the choice between the `NamedNodeMap` and `PlainObject` constructors.
  Objects that only look array-like are not modelled.
- `for … in` enumerates a plain object's own keys in insertion order. The
  engine's rule that integer-like keys come first, in numeric order, is not
  modelled. Inherited enumerable keys are not modelled either.
- Attribute names that collide with `Object.prototype` are not modelled.
  A `__proto__` attribute is written to the inherited setter, so it adds no
  key; the model adds it like any other name. An own key `hasOwnProperty`
  hides the method, so `empty` throws and `text()` and `html()` do not
  finish; the model still returns a line.
- `toLowerCase` is modelled on ASCII letters only; Unicode case mapping is left out.
- Strings are sequences of characters, so UTF-16 surrogate pairs are not
  modelled. Offsets count characters.
- Range offsets and depths are natural numbers, so negative `slice`
  arguments are not modelled.
- The callback of `walk` is modelled as the sequence of calls it receives.
  `Text` and `Html` replay their visitors over that sequence rather than
  passing a closure.
- DOM node identity is an id per node:
  - a range container is compared with a node by id;
  - `nodeType` values other than 1 and 3 are one `Other` case.
- Ids are not required to be unique by the rendering functions. Two
  distinct nodes that share a container's id would both be matched, where
  the source compares references. The lemmas about where boundaries are
  shown require `UniqueIds`.
- The rendered root has no parent in the model (`Place.Root`). In the
  source, `this.dom` may sit inside a larger document. A range boundary in
  that parent would then put a before-marker on the root's line, and an
  after-marker too if the root is an element. The model never shows either:
  range containers are taken to lie inside the rendered tree.
- No HTML escaping happens in the source, and none is modelled.
- Printing and the DOM itself (its live `NodeList`s and mutation) are outside the model.
