/**
 * What one merge pass does, as functions of the source and target trees.
 *
 * Both revisions of `MergeHtml` are covered: `Latest` is
 * src/main/java/com/githang/java/MergeHtml.java and `Legacy` is
 * src/com/githang/java/MergeHtml.java. They share the walker, the heading
 * policy and the text policy, and differ in the structural tag set, in the
 * leaf dispatch table and in the paragraph policy; the dispatch table is
 * `LeafPolicy` below.
 *
 * Each policy yields an `Effect`: the new source element (only the image
 * policy changes it), the new target element, and the nodes to append to the
 * target's parent (only the heading policy has any). `Fail` is an index out of
 * bounds in jsoup's child lists, which aborts the run.
 */
module MergePolicy {
  import opened Wrappers
  import opened JavaString
  import opened Dom
  import ContentPattern

  datatype Revision = Latest | Legacy

  /** `MERGE_NODE_NAME` of the latest revision. */
  const LatestMergeNodeNames: set<string> :=
    {"html", "div", "head", "body", "table", "thead", "tbody", "tr", "title", "a", "dl", "dt", "dd", "ul"}

  /** `MERGE_NODE_NAME` of the legacy revision: the same names and `td`. */
  const LegacyMergeNodeNames: set<string> := LatestMergeNodeNames + {"td"}

  /** `needMergeChild(name)`: exact, case-sensitive membership. */
  predicate NeedMergeChild(rev: Revision, name: string) {
    match rev
    case Latest => name in LatestMergeNodeNames
    case Legacy => name in LegacyMergeNodeNames
  }

  /** `isHeading(name)`, that is `name.matches("h\\d")`. */
  predicate IsHeading(name: string) {
    |name| == 2 && name[0] == 'h' && IsDigit(name[1])
  }

  /** `Integer.valueOf(name.substring(1, 2))` for a heading name. */
  function HeadingLevel(name: string): (level: nat)
    requires IsHeading(name)
    ensures level < 10 && name == "h" + [DigitChar(level)]
  {
    DigitValue(name[1])
  }

  /** `"h" + (level + 2)`: the tag of the heading that carries the source text. */
  function PromotedTag(level: nat): string {
    "h" + DecimalString(level + 2)
  }

  /** The leaf policies, and `Descend` for structural recursion. */
  datatype Policy =
    | Descend
    | ParagraphByHtml
    | ParagraphByText
    | TitleText
    | Heading(level: nat)
    | TextPolicy
    | Contents
    | Skip

  /** The chain of tag tests in `merge(Element, Element)` once structural recursion is ruled out. */
  function LeafPolicy(rev: Revision, name: string, cls: string): Policy {
    var paragraph := if rev == Latest then ParagraphByHtml else ParagraphByText;
    if EqualsIgnoreCase("p", name) then
      (if "title" == cls then TitleText else paragraph)
    else if EqualsIgnoreCase("td", name) then paragraph
    else if IsHeading(name) then Heading(HeadingLevel(name))
    else if EqualsIgnoreCase("title", name) then TextPolicy
    else if EqualsIgnoreCase("dt", name) then (if rev == Latest then paragraph else TextPolicy)
    else if EqualsIgnoreCase("li", name) then paragraph
    else if rev == Latest && EqualsIgnoreCase("span", name) then
      (if EqualsIgnoreCase("chapter", cls) || EqualsIgnoreCase("section", cls) then Contents else paragraph)
    else Skip
  }

  /** `merge(Element source, Element target)`: what is done with the target element `t`. */
  function Dispatch(rev: Revision, t: Node): Policy
    requires t.Element?
  {
    if NeedMergeChild(rev, t.tag) && HasElementChild(t) then Descend
    else LeafPolicy(rev, t.tag, AttrValue(t.attrs, "class"))
  }

  datatype Effect = Effect(source: Node, target: Node, siblings: seq<Node>)

  /** What `append("<br/>")` adds. */
  const LineBreak: Node := Element("br", [], [])

  // ------------------------------------------------------------------ policies

  /** `mergeHeading`: the new element appended to the target's parent. */
  function NewHeading(s: Node, level: nat): Node
    requires s.Element?
  {
    Element(PromotedTag(level), CopyAttrs(s.attrs), Markup(InnerHtml(s)))
  }

  /** `mergeText`: ` - ` and the source markup, when the target has visible text. */
  function TextMerge(s: Node, t: Node): Node
    requires t.Element?
  {
    if |Trim(TextOf(t))| > 0 then t.(kids := t.kids + [Text(" - ")] + Markup(InnerHtml(s))) else t
  }

  /**
   * `mergeImage(source, target)`: when the two `alt` values differ ignoring
   * case, the `target` image gets `targetAlt + " - " + sourceAlt`.
   */
  function ImageMerge(source: Node, target: Node): Node
    requires source.Element? && target.Element?
  {
    var targetAlt := AttrValue(target.attrs, "alt");
    var sourceAlt := AttrValue(source.attrs, "alt");
    if !EqualsIgnoreCase(targetAlt, sourceAlt) then
      target.(attrs := PutAttr(target.attrs, "alt", targetAlt + " - " + sourceAlt))
    else target
  }

  /**
   * `mergeParagraph` of the latest revision. The image case calls
   * `mergeImage(target.child(0), source.child(0))`, so the rewritten image is
   * the source's.
   */
  function ParagraphMerge(s: Node, t: Node): Result<Effect>
    requires s.Element? && t.Element?
  {
    if EqualsIgnoreCase(InnerHtml(t), InnerHtml(s)) then Ok(Effect(s, t, []))
    else if |t.kids| == 0 || |s.kids| == 0 then Fail
    else
      var targetChildName := NodeName(t.kids[0]);
      var sourceChildName := NodeName(s.kids[0]);
      if EqualsIgnoreCase("img", targetChildName) && EqualsIgnoreCase("img", sourceChildName) then
        assert t.kids[0].Element? && s.kids[0].Element?;
        Ok(Effect(s.(kids := s.kids[0 := ImageMerge(t.kids[0], s.kids[0])]), t, []))
      else
        var br := if "p" == targetChildName && "p" == sourceChildName then [] else [LineBreak];
        Ok(Effect(s, t.(kids := t.kids + br + Markup(InnerHtml(s))), []))
  }

  /** `mergeParagraph` of the legacy revision: compares the texts, always separates with a line break. */
  function ParagraphMergeLegacy(s: Node, t: Node): Node
    requires t.Element?
  {
    if EqualsIgnoreCase(TextOf(t), TextOf(s)) then t
    else t.(kids := t.kids + [LineBreak] + Markup(InnerHtml(s)))
  }

  /** `mergeContents`: ` -` and `group(2)` of the source text, appended as text to the target's first element child. */
  function ContentsMerge(s: Node, t: Node): Result<Node>
    requires t.Element?
  {
    if EqualsIgnoreCase(InnerHtml(t), InnerHtml(s)) then Ok(t)
    else match ContentPattern.Label(TextOf(s))
      case None => Ok(t)
      case Some(heading) =>
        match FirstElementIndex(t)
        case None => Fail
        case Some(k) => Ok(t.(kids := t.kids[k := AppendKid(t.kids[k], Text(" -" + heading))]))
  }

  /** A `p` with class `title`: `mergeText` on the first `b` of each side. */
  function TitleMerge(s: Node, t: Node): Result<Node>
    requires t.Element?
  {
    match (SelectFirst(s, "b"), SelectFirst(t, "b"))
    case (Some(sb), Some(tb)) => Ok(Replace(t, tb, TextMerge(At(s, sb), At(t, tb))))
    case _ => Fail
  }

  // -------------------------------------------------------------------- walker

  /** Child `k` of `parent` after the merge of that child, with the appended siblings at the end. */
  function Graft(parent: Node, k: nat, e: Effect): (r: Node)
    requires parent.Element? && k < |parent.kids|
    ensures r.Element? && r.tag == parent.tag && r.attrs == parent.attrs
    ensures |r.kids| == |parent.kids| + |e.siblings| && r.kids[k] == e.target
    ensures forall i :: 0 <= i < |parent.kids| && i != k ==> r.kids[i] == parent.kids[i]
    ensures r.kids[|parent.kids|..] == e.siblings
  {
    parent.(kids := parent.kids[k := e.target] + e.siblings)
  }

  /** The pairs `source.children().get(i)`, `target.children().get(i)` are walked in order. */
  predicate WalkIndices(kids: seq<Node>, idx: seq<nat>) {
    && (forall j :: 0 <= j < |idx| ==> idx[j] < |kids| && kids[idx[j]].Element?)
    && (forall j, k :: 0 <= j < k < |idx| ==> idx[j] < idx[k])
  }

  /** The leaf policy `p` applied to the pair. */
  function ApplyLeaf(s: Node, t: Node, p: Policy): Result<Effect>
    requires s.Element? && t.Element? && !p.Descend?
  {
    match p
    case ParagraphByHtml => ParagraphMerge(s, t)
    case ParagraphByText => Ok(Effect(s, ParagraphMergeLegacy(s, t), []))
    case TitleText =>
      var t' :- TitleMerge(s, t);
      Ok(Effect(s, t', []))
    case Heading(level) => Ok(Effect(s, t, [NewHeading(s, level)]))
    case TextPolicy => Ok(Effect(s, TextMerge(s, t), []))
    case Contents =>
      var t' :- ContentsMerge(s, t);
      Ok(Effect(s, t', []))
    case Skip => Ok(Effect(s, t, []))
  }

  /** `merge(Element source, Element target)`. */
  function MergeNode(rev: Revision, s: Node, t: Node): Result<Effect>
    requires s.Element? && t.Element?
    decreases s, 1, 0
  {
    var p := Dispatch(rev, t);
    if p.Descend? then
      var r :- MergeKids(rev, s, ElementIndices(s.kids), ElementIndices(t.kids), 0, s, t);
      Ok(Effect(r.0, r.1, []))
    else ApplyLeaf(s, t, p)
  }

  /**
   * `merge(Elements source, Elements target)` from pair `i` on. The element
   * children of `s` at `sIdx` are paired with those of the target at `tIdx`;
   * `sNew` and `tNew` are the source and target after the pairs before `i`.
   */
  function MergeKids(rev: Revision, s: Node, sIdx: seq<nat>, tIdx: seq<nat>, i: nat, sNew: Node, tNew: Node)
    : Result<(Node, Node)>
    requires s.Element? && sNew.Element? && tNew.Element? && |sNew.kids| == |s.kids|
    requires WalkIndices(s.kids, sIdx) && i <= |sIdx|
    requires forall j :: i <= j < |tIdx| ==> tIdx[j] < |tNew.kids| && tNew.kids[tIdx[j]].Element?
    requires forall j, k :: 0 <= j < k < |tIdx| ==> tIdx[j] < tIdx[k]
    decreases s, 0, |sIdx| - i
  {
    if i == |sIdx| then Ok((sNew, tNew))
    else if i >= |tIdx| then Fail
    else
      var e :- MergeNode(rev, s.kids[sIdx[i]], tNew.kids[tIdx[i]]);
      MergeKids(rev, s, sIdx, tIdx, i + 1, sNew.(kids := sNew.kids[sIdx[i] := e.source]), Graft(tNew, tIdx[i], e))
  }

  /** `merge(sourceRoot.children(), targetRoot.children())` on two whole documents. */
  function MergeDocuments(rev: Revision, s: Node, t: Node): Result<(Node, Node)>
    requires s.Element? && t.Element?
  {
    MergeKids(rev, s, ElementIndices(s.kids), ElementIndices(t.kids), 0, s, t)
  }
}
