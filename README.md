# merge-translated-html, modelled in Dafny

`MergeHtml` merges a translated HTML page (the *target*) with its original
(the *source*) so that the result shows both languages. Both pages are parsed
with jsoup. The merger then walks the two element trees in parallel, pairing
the i-th element child of each source element with the i-th element child of
the target element. It descends into structural elements (`div`, `table`, `tr`
and so on) and applies a leaf policy to everything else:

- paragraph: append a line break and the source markup;
- text: append ` - ` and the source markup;
- heading: add an `h(n+2)` copy of the source heading after the target's siblings;
- contents: append ` -` and the table-of-contents label of the source text;
- title paragraph: apply the text policy to the first `b` of each side;
- image: rewrite an `alt` attribute.

There are two revisions of the merger:

- the latest revision, `src/main/java/com/githang/java/MergeHtml.java`;
- the legacy revision, `src/com/githang/java/MergeHtml.java`.

They differ in the structural tag set (`td`), in the leaf table (`dt`,
`span`) and in the paragraph policy. The model covers both revisions through
a `Revision` parameter.

Layout:

- `wrappers.dfy` (`Wrappers`): `Option` and `Result`.
- `java_string.dfy` (`JavaString`):
  - `String.trim()` and `equalsIgnoreCase` on ASCII letters;
  - decimal digits, and `"h" + (level + 2)`.
- `dom.dfy` (`Dom`):
  - the jsoup tree as a value datatype `Node`, holding element, text and opaque markup nodes;
  - the readers `attr`, `html()`, `text()`, `children()`, `child(0)` and `select("b").get(0)`;
  - paths into a tree;
  - `class Document`, whose `root` the merger changes in place, with the jsoup mutators as methods.
- `content_pattern.dfy` (`ContentPattern`): the pattern `(\d+\.)+(.*+)` with
  `find()` and `group(2)`, as a scanner. It is proved to find the leftmost start
  and the longest numbering.
- `merge_policy.dfy` (`MergePolicy`): the merge as functions of the two trees:
  - the dispatch table of each revision;
  - each leaf policy, as an `Effect` made of the new source element, the new
    target element and the nodes appended after the target;
  - the walker `MergeKids` / `MergeNode`.
- `merge_properties.dfy` (`MergeProperties`): what the policies and the walker
  promise, proved about those functions.
- `merge_html.dfy` (`MergeHtml`): the methods of `MergeHtml.java` as
  imperative code on two `Document`s. The walk `merge(Elements, Elements)` is a
  `while` loop. The attribute copy of `mergeHeading` is a loop over the
  attributes. Each method is proved to leave the trees in the state that the
  `MergePolicy` functions describe.
- `merge_examples.dfy` (`MergeExamples`): worked examples proved about the
  model, and the behaviour on identical inputs.

A jsoup `IndexOutOfBoundsException` is modelled as a `Fail` result (the
methods return `ok == false`). It occurs in these cases:

- `target.get(i)` when the target has fewer element children than the source;
- `childNode(0)` of a paragraph without children;
- `child(0)` in `mergeContents` when the target has no element child;
- `select("b").get(0)` when no `b` element exists.

In each case the Java run stops.

Where the code's behaviour may be unexpected, the model follows the code:

- The latest revision drops `td` from the structural set but keeps its
  `td` → paragraph branch (line 110). A leaf `td` is therefore merged as a
  paragraph there, not dropped.
- `mergeParagraph` calls `mergeImage(target.child(0), source.child(0))`. The
  `alt` that is rewritten is therefore the source document's image, which gets
  `sourceAlt - targetAlt`.
- The text policy does not compare source and target. An element merged with
  an identical copy of itself is therefore still changed when it has visible
  text. The paragraph and contents policies leave it unchanged
  (`MergeWithItself`).
- `append(html)` with an empty string appends nothing (`Markup`).

## Model


| member | source | states |
|---|---|---|
| JavaString.EqualsIgnoreCase | src/main/java/com/githang/java/MergeHtml.java:156 | `equalsIgnoreCase`: equal length and letters equal up to ASCII case. `EqualsIgnoreCaseIsEquivalence` proves it an equivalence. |
| JavaString.TrimStart | src/main/java/com/githang/java/MergeHtml.java:173 | The leading part of `trim()`: a suffix of the input, and every character dropped is at or below U+0020. Its own contract states this; `Trim` builds on it. |
| JavaString.TrimEnd | src/main/java/com/githang/java/MergeHtml.java:173 | The trailing part of `trim()`: a prefix of the input, and every character dropped is at or below U+0020. Its own contract states this; `Trim` builds on it. |
| JavaString.DecimalString | src/main/java/com/githang/java/MergeHtml.java:133 | The decimal digits of `level + 2` in the concatenation `"h" + (level + 2)`: non-empty digits without a leading zero. `DecimalRoundTrip` reads them back. |
| Dom.NodeName | src/main/java/com/githang/java/MergeHtml.java:157-158 | `childNode(0).nodeName()`: the tag of an element, `#text` for a text node. Its use in the paragraph policy is stated by `ParagraphMergeOutcome` and `ParagraphMergeAppends`. |
| Dom.PutAttr | src/main/java/com/githang/java/MergeHtml.java:137 | `attr(key, value)` on the attribute list. `PutAttrReads` and `PutAttrPlacement` state what it reads back and where it puts the key. |
| Dom.CopyAttrs | src/main/java/com/githang/java/MergeHtml.java:134-138 | The attribute list built by the iterator loop of `mergeHeading`. `CopyAttrsIdentity` proves it reproduces distinct-keyed attributes, and `MergeHtml.CopyAttributes` proves the loop builds it. |
| Dom.InnerHtml | src/main/java/com/githang/java/MergeHtml.java:139 | `html()`: the markup of the children. `Markup`, `KidsHtmlAppend` and `AppendMarkupHtml` state how appending changes it. |
| Dom.TextOf | src/main/java/com/githang/java/MergeHtml.java:173 | `text()`: the text of the node and its descendants. `TextMergeAppends`, `VisibleIffTrimmed` and `ParagraphMergeLegacyAppends` state the decisions made on it. |
| ContentPattern.DigitRunEnd | src/main/java/com/githang/java/MergeHtml.java:23 | The end of the `\d+` run at a position. Its own contract states that it stops at the first non-digit. |
| ContentPattern.GroupAt | src/main/java/com/githang/java/MergeHtml.java:23 | One `\d+\.` group at a position, with its end. `GroupIsNumbering` proves a group is a numbering. |
| ContentPattern.ChainEnd | src/main/java/com/githang/java/MergeHtml.java:23 | The end of `(\d+\.)+` from a position: no further group follows. `ChainIsLongestNumbering` proves it the longest numbering. |
| ContentPattern.LineEnd | src/main/java/com/githang/java/MergeHtml.java:23 | The end of `(.*+)`: the first line terminator or the end of the input. Its own contract states this. |
| ContentPattern.Find | src/main/java/com/githang/java/MergeHtml.java:148-149 | `matcher.find()`. `FindIsLeftmostLongest` states when it succeeds and what it matches. |
| ContentPattern.Label | src/main/java/com/githang/java/MergeHtml.java:150 | `matcher.group(2)`. `LabelFollowsNumbering` and `LabelExample` state what it holds. |
| MergePolicy.NeedMergeChild | src/main/java/com/githang/java/MergeHtml.java:190-192 | `needMergeChild` (legacy lines 153-155): membership of the revision's structural set, case-sensitive. `StructuralTags` and `DescendIffStructural` state it. |
| MergePolicy.IsHeading | src/main/java/com/githang/java/MergeHtml.java:186-188 | `isHeading`: the name matches `h\d`. `HeadingLevel`, `HeadingPromotion` and `LatestLeafTable` state it. |
| MergePolicy.PromotedTag | src/main/java/com/githang/java/MergeHtml.java:133 | The tag `"h" + (level + 2)`. `HeadingPromotion` and `DecimalRoundTrip` state it. |
| MergePolicy.LeafPolicy | src/main/java/com/githang/java/MergeHtml.java:104-127 | The leaf branch of `merge(Element, Element)`. `LatestLeafTable` and `LegacyLeafTable` (legacy lines 101-117) state it branch by branch. |
| MergePolicy.Dispatch | src/main/java/com/githang/java/MergeHtml.java:100-103 | Descend or a leaf policy. `DescendIffStructural` states when it descends. |
| MergePolicy.MergeNode | src/main/java/com/githang/java/MergeHtml.java:99-129 | `merge(Element, Element)` as a function. `MergeNodeFrame` states what it leaves alone, and `MergeHtml.MergeElement` proves the in-place code computes it. |
| MergePolicy.MergeKids | src/main/java/com/githang/java/MergeHtml.java:92-97 | `merge(Elements, Elements)` as a function. `MergeKidsFrame` and `MergeKidsFailsOnShortTarget` state its frame and its failure, and `MergeHtml.MergeElements` proves the loop computes it. |
| MergePolicy.MergeDocuments | src/main/java/com/githang/java/MergeHtml.java:87 | The merge of the two documents' root children. `MergeHtml.MergeDocuments` proves the in-place code computes it. |
| MergePolicy.NewHeading | src/main/java/com/githang/java/MergeHtml.java:131-140 | The new heading of `mergeHeading`. `NewHeadingCopiesSource` and `HeadingLeafExample` state it. |
| MergePolicy.TextMerge | src/main/java/com/githang/java/MergeHtml.java:172-176 | `mergeText`. `TextMergeAppends`, `TitleOfTexts` and `EmptyTextExample` state it. |
| MergePolicy.ImageMerge | src/main/java/com/githang/java/MergeHtml.java:178-184 | `mergeImage`. `ParagraphMergeRewritesSourceImage` states what it does to the alt text. |
| MergePolicy.ParagraphMerge | src/main/java/com/githang/java/MergeHtml.java:155-170 | The latest `mergeParagraph`. `ParagraphMergeOutcome`, `ParagraphMergeAppends` and `ParagraphMergeRewritesSourceImage` state it. |
| MergePolicy.ParagraphMergeLegacy | src/com/githang/java/MergeHtml.java:136-141 | The legacy `mergeParagraph`. `ParagraphMergeLegacyAppends` states it. |
| MergePolicy.ContentsMerge | src/main/java/com/githang/java/MergeHtml.java:145-153 | `mergeContents`. `ContentsMergeOutcome` and `ContentsExample` state it. |
| MergePolicy.TitleMerge | src/main/java/com/githang/java/MergeHtml.java:105-106 | `mergeText` on the first `b` of each side. `TitleMergeOutcome` states it. |
| MergeProperties.WalkSiblings | src/main/java/com/githang/java/MergeHtml.java:92-97 | The nodes a walk appends beside the target, pair by pair. `MergeKidsFrame` states that the walk appends exactly these. |
| JavaString.Trim | src/main/java/com/githang/java/MergeHtml.java:173 | `trim()` is the slice of its input that starts after the leading characters at or below U+0020 and ends before the trailing ones. It is non-empty exactly when some character is above U+0020, and then it starts and ends with such a character. |
| JavaString.EqualsIgnoreCaseIsEquivalence | src/main/java/com/githang/java/MergeHtml.java:156 | `equalsIgnoreCase`, the comparison the paragraph, contents and image policies make, is reflexive, symmetric and transitive. |
| JavaString.DecimalRoundTrip | src/main/java/com/githang/java/MergeHtml.java:132-133 | Reading back the decimal digits of `level + 2` gives `level + 2`, so `Integer.valueOf` and the string concatenation agree. |
| Dom.AttrValue | src/main/java/com/githang/java/MergeHtml.java:179-180 | `attr(key)` is the empty string when no attribute has that key; otherwise it is the value of an attribute stored under that key. |
| Dom.PutAttrReads | src/main/java/com/githang/java/MergeHtml.java:182 | After `attr(key, value)`, `attr(key)` reads `value` and every other key reads what it read before. |
| Dom.PutAttrPlacement | src/main/java/com/githang/java/MergeHtml.java:137 | `attr(key, value)` adds a new key at the end of the attribute list. It overwrites an existing key in place: the length and the key at every position stay the same. Every attribute under another key is unchanged. |
| Dom.CopyAttrsIdentity | src/main/java/com/githang/java/MergeHtml.java:134-138 | Copying attributes one at a time onto an element without attributes reproduces them exactly, in order, when their keys are distinct. |
| Dom.Markup | src/main/java/com/githang/java/MergeHtml.java:168 | What `append(html)` adds serialises back to exactly `html`. |
| Dom.KidsHtmlAppend | src/main/java/com/githang/java/MergeHtml.java:174 | Appending child nodes appends their markup to `html()`. |
| Dom.AppendMarkupHtml | src/main/java/com/githang/java/MergeHtml.java:166-168 | Appending a separator and then markup keeps the old children first. `html()` becomes the old markup, then the separator's, then the appended markup. |
| Dom.ElementIndices | src/main/java/com/githang/java/MergeHtml.java:93-95 | `children()` lists the positions of all element children and nothing else, in increasing document order. |
| Dom.FirstElementIndex | src/main/java/com/githang/java/MergeHtml.java:150 | `child(0)` exists exactly when the node has an element child. It is then the first one: no element child comes before it. |
| Dom.SelectFirst | src/main/java/com/githang/java/MergeHtml.java:106 | `select("b").get(0)`, when it succeeds, names an element of the tree whose tag is `b` ignoring case. `SelectFirstIsFirst` states that it fails only when there is none and finds the first. |
| Dom.SelectFirstIsFirst | src/main/java/com/githang/java/MergeHtml.java:106 | `select("b")` is empty exactly when no element of the tree, the node itself included, is tagged `b`. `get(0)` is the first such element in document order: no element before it is tagged `b`. |
| Dom.SelectFirstAmongIsFirst | src/main/java/com/githang/java/MergeHtml.java:106 | The same over the children from position `i` on: the search fails only when none of their subtrees holds a `b`, and finds the first one in document order. |
| Dom.Document.AppendChild | src/main/java/com/githang/java/MergeHtml.java:150 | `appendText` and `append` add one last child to the element at the path, and the rest of the document is unchanged. |
| Dom.Document.AppendElement | src/main/java/com/githang/java/MergeHtml.java:133 | `appendElement(tag)` adds an empty last child element with that tag and returns its path. |
| Dom.Document.AppendHtml | src/main/java/com/githang/java/MergeHtml.java:139 | `append(html)` adds the markup as the element's last child. Empty markup adds nothing. |
| Dom.Document.SetAttr | src/main/java/com/githang/java/MergeHtml.java:137 | `attr(key, value)` changes only the attribute list of the element at the path. |
| ContentPattern.FindFrom | src/main/java/com/githang/java/MergeHtml.java:149 | The scan of `find()` stops at the first position where one `\d+\.` group starts, and no earlier position has one. When it finds none, no position has one. |
| ContentPattern.FindIsLeftmostLongest | src/main/java/com/githang/java/MergeHtml.java:23 | `find()` fails exactly when no digit is followed by a dot. On success, group 1 is the longest numbering at the leftmost position where any numbering starts, and group 2 runs from its end to the first line terminator. |
| ContentPattern.LabelFollowsNumbering | src/main/java/com/githang/java/MergeHtml.java:150 | `group(2)` exists exactly when `find()` succeeds. It contains no line terminator, and the numbering followed by `group(2)` is the whole match. |
| MergePolicy.HeadingLevel | src/main/java/com/githang/java/MergeHtml.java:132 | For a name matching `h\d`, the level is its digit: the name is `h` followed by the digit of the level, and the level is below 10. |
| MergePolicy.Graft | src/main/java/com/githang/java/MergeHtml.java:133 | After merging child `k` of a parent, child `k` is the merged element and the other children are as before. The appended siblings follow the parent's old children. |
| MergeProperties.StructuralTags | src/com/githang/java/MergeHtml.java:21-38 | The legacy structural set is the latest one plus `td`, and membership is case-sensitive. |
| MergeProperties.DescendIffStructural | src/main/java/com/githang/java/MergeHtml.java:101 | The walker descends into an element exactly when its tag is structural and it has an element child. |
| MergeProperties.LatestLeafTable | src/main/java/com/githang/java/MergeHtml.java:104-127 | The latest leaf table, branch by branch: `p`, `td`, headings, `title`, `dt`, `li` and `span` with its class, all compared ignoring case. Exactly the other tags are left alone. |
| MergeProperties.LegacyLeafTable | src/com/githang/java/MergeHtml.java:101-117 | The legacy table takes the text policy for `dt` and leaves `span` alone. Otherwise it is the latest table with the legacy paragraph policy. It never uses the markup-comparing paragraph policy or the contents policy. |
| MergeProperties.HeadingPromotion | src/main/java/com/githang/java/MergeHtml.java:132-133 | The new tag is `h` followed by the decimal value of `level + 2`. It matches `h\d` again exactly when the level is at most 7. |
| MergeProperties.NewHeadingCopiesSource | src/main/java/com/githang/java/MergeHtml.java:131-140 | The new heading has the promoted tag, the source's attributes in order, and the source's `html()` as its markup. |
| MergeProperties.TextMergeAppends | src/main/java/com/githang/java/MergeHtml.java:172-176 | `mergeText` changes the target exactly when its text has a character above U+0020. It then keeps the children and makes `html()` the old markup, then ` - `, then the source markup. |
| MergeProperties.VisibleIffTrimmed | src/main/java/com/githang/java/MergeHtml.java:173 | `text().trim().length() > 0` holds exactly when the text has a character above U+0020. |
| MergeProperties.ParagraphMergeOutcome | src/main/java/com/githang/java/MergeHtml.java:155-158 | The latest `mergeParagraph` throws exactly when the markup differs ignoring case and one side has no child node. Equal markup changes nothing, and no siblings are ever added. |
| MergeProperties.ParagraphMergeAppends | src/main/java/com/githang/java/MergeHtml.java:165-168 | When the first children are not both images, the target keeps its children. Its `html()` becomes the old markup, then `<br></br>`, then the source markup. The line break is left out when both first child nodes are named exactly `p`. The source is unchanged. |
| MergeProperties.ParagraphMergeRewritesSourceImage | src/main/java/com/githang/java/MergeHtml.java:160-163 | When both first children are images, the target is unchanged. The source's first image gets `alt` = its own alt, ` - `, then the target image's alt, unless the two are equal ignoring case. Every other attribute and child of the source is unchanged. |
| MergeProperties.ParagraphMergeLegacyAppends | src/com/githang/java/MergeHtml.java:136-141 | The legacy `mergeParagraph` changes the target exactly when the texts differ ignoring case. It then appends `<br></br>` and the source markup after the old children. |
| MergeProperties.TitleMergeOutcome | src/main/java/com/githang/java/MergeHtml.java:105-106 | The title-paragraph policy fails exactly when the source or the target has no element tagged `b`. Otherwise the first `b` of the target, in document order, is replaced by `mergeText` of it with the first `b` of the source. |
| MergeProperties.ContentsMergeOutcome | src/main/java/com/githang/java/MergeHtml.java:145-153 | `mergeContents` throws exactly when the markup differs, the source text has a numbering and the target has no element child. Otherwise it either changes nothing, or appends the text ` -` and `group(2)` to the first element child and changes nothing else. |
| MergeProperties.MergeKidsFailsOnShortTarget | src/main/java/com/githang/java/MergeHtml.java:92-97 | The walk fails when the target has fewer element children than the source, because `target.get(i)` throws. |
| MergeProperties.LeafFrame | src/main/java/com/githang/java/MergeHtml.java:104-127 | Every leaf policy keeps the tag and attributes of the target and the source element. The target keeps at least its children and the source keeps its child count. Only promoted headings are added beside the target. |
| MergeProperties.MergeNodeFrame | src/main/java/com/githang/java/MergeHtml.java:99-129 | The same frame holds for `merge(Element, Element)`, structural recursion included. |
| MergeProperties.MergeKidsFrame | src/main/java/com/githang/java/MergeHtml.java:92-97 | A successful walk needs at least as many target element children as source ones. It leaves unvisited children of both sides unchanged. After the target's children it adds exactly the siblings of the merged pairs, pair by pair in walk order (`WalkSiblings`), and these are promoted headings. |
| MergeHtml.MergeDocuments | src/main/java/com/githang/java/MergeHtml.java:87 | Merging the children of the two document roots succeeds exactly when `MergeDocuments` does, and then leaves both trees as it computes. |
| MergeHtml.MergeElements | src/main/java/com/githang/java/MergeHtml.java:92-97 | The loop over `i < size` leaves both documents as `MergeKids` computes from the old trees, and fails exactly when it does. |
| MergeHtml.MergeNext | src/main/java/com/githang/java/MergeHtml.java:95 | One iteration merges pair `i`. It succeeds exactly when `MergeNode` does on that pair, and keeps the walk's invariant for `i + 1`. |
| MergeHtml.MergePair | src/main/java/com/githang/java/MergeHtml.java:95 | `merge(source.get(i), target.get(i))` on child `j` of the source and child `k` of the target. The source child becomes the merged source, and the target parent becomes the `Graft` of the merged pair. |
| MergeHtml.MergeElement | src/main/java/com/githang/java/MergeHtml.java:99-129 | `merge(Element, Element)` leaves both documents as `MergeNode` computes, with the target's parent receiving the graft, and fails exactly when it does. |
| MergeHtml.MergeLeaf | src/main/java/com/githang/java/MergeHtml.java:103-128 | Each leaf policy leaves the documents as `ApplyLeaf` computes. |
| MergeHtml.MergeInPlace | src/main/java/com/githang/java/MergeHtml.java:104-127 | The policies that change the element itself replace the target element by the policy's new target and the source element by its new source (changed only by the image rewrite). They add no siblings and fail exactly when the policy does. |
| MergeHtml.MergeTotal | src/com/githang/java/MergeHtml.java:107-116 | The legacy paragraph, text and skip policies cannot fail, and replace the target element by the policy's result. |
| MergeHtml.MergeTitle | src/main/java/com/githang/java/MergeHtml.java:105-106 | A `p` of class `title` runs `mergeText` on the first `b` of each side, leaving the target as `TitleMerge` computes. It fails exactly when either side has no `b` element. |
| MergeHtml.MergeHeading | src/main/java/com/githang/java/MergeHtml.java:131-140 | `mergeHeading` adds `NewHeading` as the last child of the target's parent and changes nothing else. |
| MergeHtml.CopyAttributes | src/main/java/com/githang/java/MergeHtml.java:134-138 | The iterator loop leaves the new element with `CopyAttrs` of the source attributes. |
| MergeHtml.MergeText | src/main/java/com/githang/java/MergeHtml.java:172-176 | `mergeText` replaces the target element by `TextMerge`. |
| MergeHtml.MergeParagraph | src/main/java/com/githang/java/MergeHtml.java:155-170 | The latest `mergeParagraph` leaves both documents as `ParagraphMerge` computes, the image rewrite included, and fails exactly when it does. |
| MergeHtml.MergeImage | src/main/java/com/githang/java/MergeHtml.java:178-184 | `mergeImage(source, target)` replaces the `target` image by `ImageMerge`. |
| MergeHtml.MergeParagraphLegacy | src/com/githang/java/MergeHtml.java:136-141 | The legacy `mergeParagraph` replaces the target element by `ParagraphMergeLegacy`. |
| MergeHtml.MergeContents | src/main/java/com/githang/java/MergeHtml.java:145-153 | `mergeContents` leaves the target as `ContentsMerge` computes, and fails exactly when it does. |
| MergeExamples.ParagraphAppendExample | src/main/java/com/githang/java/MergeHtml.java:165-168 | `<p>Hola</p>` merged with `<p>Hello</p>` gets a line break and `Hello` appended. |
| MergeExamples.LineBreakHtml | src/main/java/com/githang/java/MergeHtml.java:166 | The appended line break serialises as `<br></br>`. |
| MergeExamples.ParagraphAppendHtml | src/main/java/com/githang/java/MergeHtml.java:166-168 | The merged paragraph's markup is `Hola<br></br>Hello`. |
| MergeExamples.ParagraphMergeIsNotIdempotent | src/main/java/com/githang/java/MergeHtml.java:156 | Merging the merged paragraph again with the same source appends `Hello` a second time. |
| MergeExamples.TextConcatenationExample | src/main/java/com/githang/java/MergeHtml.java:172-176 | `<title>Título</title>` merged with `<title>Title</title>` gets ` - ` and `Title` appended. |
| MergeExamples.TitleOfTexts | src/main/java/com/githang/java/MergeHtml.java:172-176 | Two single-text titles, the target starting with a visible character: the result is the target text, ` - `, then the source markup. |
| MergeExamples.EmptyTextExample | src/main/java/com/githang/java/MergeHtml.java:173 | A title of only white space is left as it is. |
| MergeExamples.HeadingLeafExample | src/main/java/com/githang/java/MergeHtml.java:131-140 | `<h1 id="x">` merged with its source gives an `<h3 id="x">` with the source markup, to be appended beside it. |
| MergeExamples.HeadingPromotionExample | src/main/java/com/githang/java/MergeHtml.java:101-113 | The same pair inside a `div`: the walker descends, and the target `div` gains the `h3` after its children. |
| MergeExamples.SinglePairWalk | src/main/java/com/githang/java/MergeHtml.java:92-97 | A walk over one pair whose merge changes neither child appends that pair's siblings to the target. |
| MergeExamples.LabelExample | src/main/java/com/githang/java/MergeHtml.java:23 | `group(2)` of `2.1. Setup` is ` Setup`: both numbering groups are consumed. |
| MergeExamples.ContentsExample | src/main/java/com/githang/java/MergeHtml.java:145-153 | A `span` whose source text is `2.1. Setup`: its first element child gains the text ` - Setup`. |
| MergeExamples.MergeWithItself | src/main/java/com/githang/java/MergeHtml.java:145-176 | An element merged with an identical copy of itself is unchanged by both paragraph policies and by the contents policy. The text policy still appends exactly when the element has visible text. |

## Left out

- `main` in both revisions is not modelled: argument handling, directory listing, the `.html` filter, printing and writing the output files are file-system I/O. This includes the legacy check at line 52, which is inverted and refuses to run when the target folder exists.
- `mergeFileContent` is not modelled beyond its call to `merge`. Parsing the files with jsoup is I/O and a foreign library; the parsed trees are inputs to the model.
- `mergeNav` (legacy lines 121-123) has an empty body and is never called, so it is not modelled.
- jsoup's serialisation is reduced to tag, attribute and child markup:
  - escaping of text and attribute values is not modelled;
  - the whitespace normalisation of `text()` is not modelled;
  - void elements: `<br/>` serialises as `<br></br>`;
  - markup passed to `append(html)` is kept as one opaque `Html` node, not parsed into elements;
  - `text()` of such a node strips `<...>` tags only.
- Regular expressions are modelled only for the two patterns the code uses:
  - `h\d`: ASCII digits only;
  - `(\d+\.)+(.*+)`: ASCII digits, and the line terminators `.` does not match.
- `equalsIgnoreCase` folds ASCII letters only. Unicode case folding is not modelled.
- Attribute keys are compared exactly. jsoup lower-cases keys when parsing, so the parsed trees are assumed to hold lower-case keys.
- MergeProperties.NewHeadingCopiesSource: requires distinct attribute keys, which a parsed element always has. With duplicate keys, `CopyAttrs` still describes what the loop builds.
- MergeHtml.MergeDocuments: after a failure (a jsoup exception in Java) the state of both documents is left unspecified, because the Java run stops and writes nothing.
- MergeHtml.MergeElements: after a failure the state is unspecified, as for `MergeDocuments`.
- MergeHtml.MergeElement: after a failure the state is unspecified, as for `MergeDocuments`.
- MergeHtml.MergeParagraph: after a failure the state is unspecified, as for `MergeDocuments`.
- MergeHtml.MergeContents: after a failure the state is unspecified, as for `MergeDocuments`.
- MergeHtml.MergeTitle: after a failure the state is unspecified, as for `MergeDocuments`.
- Java integers do not overflow here, because the heading level is one digit, so the model uses unbounded integers.
