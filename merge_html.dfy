/**
 * The merge routines of `MergeHtml`, changing the two documents in place as
 * the Java code does, each proved to leave the documents exactly as the
 * corresponding function of `MergePolicy` describes.
 *
 * Elements are reached by their paths from the document roots: `sp` in the
 * source document, `tp` in the target document. The two documents are
 * distinct objects (each file is parsed on its own). A routine that can throw
 * in Java returns `ok`; `ok == false` is the exception, after which the run
 * stops and what the documents hold is of no further interest.
 */
module MergeHtml {
  import opened Wrappers
  import opened JavaString
  import opened Dom
  import ContentPattern
  import opened MergePolicy
  import MergeProperties

  /** `merge(sourceRoot.children(), targetRoot.children())` in `mergeFileContent`. */
  method MergeDocuments(rev: Revision, src: Document, tgt: Document) returns (ok: bool)
    requires src != tgt && src.root.Element? && tgt.root.Element?
    modifies src, tgt
    ensures var r := MergePolicy.MergeDocuments(rev, old(src.root), old(tgt.root));
      ok == r.Ok? && (ok ==> src.root == r.value.0 && tgt.root == r.value.1)
  {
    ok := MergeElements(rev, src, tgt, [], []);
  }

  /** `merge(Elements source, Elements target)` on the children of the elements at `sp` and `tp`. */
  method MergeElements(rev: Revision, src: Document, tgt: Document, sp: Path, tp: Path) returns (ok: bool)
    requires src != tgt
    requires ValidPath(src.root, sp) && At(src.root, sp).Element?
    requires ValidPath(tgt.root, tp) && At(tgt.root, tp).Element?
    modifies src, tgt
    ensures var s := At(old(src.root), sp);
      var t := At(old(tgt.root), tp);
      var r := MergeKids(rev, s, ElementIndices(s.kids), ElementIndices(t.kids), 0, s, t);
      && ok == r.Ok?
      && (ok ==> src.root == Replace(old(src.root), sp, r.value.0) && tgt.root == Replace(old(tgt.root), tp, r.value.1))
    decreases At(src.root, sp), 1
  {
    var s0 := At(src.root, sp);
    var t0 := At(tgt.root, tp);
    ghost var src0 := src.root;
    ghost var tgt0 := tgt.root;
    var source := ElementIndices(s0.kids);
    var target := ElementIndices(t0.kids);
    var size := |source|;
    ReplaceAt(src0, sp);
    ReplaceAt(tgt0, tp);
    ghost var sCur := s0;
    ghost var tCur := t0;
    WalkStarts(rev, s0, t0);
    var i := 0;
    while i < size
      invariant i <= size && Walking(rev, s0, t0, source, target, i, sCur, tCur)
      invariant src.root == Replace(src0, sp, sCur) && tgt.root == Replace(tgt0, tp, tCur)
      decreases size - i
    {
      if i >= |target| {
        // `target.get(i)` throws.
        return false;
      }
      var merged;
      merged, sCur, tCur := MergeNext(rev, src, tgt, sp, tp, s0, t0, source, target, i, src0, tgt0, sCur, tCur);
      if !merged {
        return false;
      }
      i := i + 1;
    }
    WalkEnds(rev, s0, t0, source, target, sCur, tCur);
    ok := true;
  }

  lemma WalkStarts(rev: Revision, s0: Node, t0: Node)
    requires s0.Element? && t0.Element?
    ensures Walking(rev, s0, t0, ElementIndices(s0.kids), ElementIndices(t0.kids), 0, s0, t0)
  {
  }

  lemma WalkEnds(rev: Revision, s0: Node, t0: Node, source: seq<nat>, target: seq<nat>, sCur: Node, tCur: Node)
    requires Walking(rev, s0, t0, source, target, |source|, sCur, tCur)
    ensures MergeKids(rev, s0, source, target, 0, s0, t0) == Ok((sCur, tCur))
  {
  }

  /**
   * The walk of `merge(Elements, Elements)` after `i` pairs: the source's
   * element children not yet visited are untouched, the target's are still in
   * place, and merging the rest gives the same as merging everything.
   */
  ghost predicate Walking(rev: Revision, s0: Node, t0: Node, source: seq<nat>, target: seq<nat>, i: nat, sCur: Node, tCur: Node)
  {
    && s0.Element? && t0.Element? && sCur.Element? && tCur.Element? && |sCur.kids| == |s0.kids|
    && WalkIndices(s0.kids, source) && i <= |source|
    && (forall j :: i <= j < |target| ==> target[j] < |tCur.kids| && tCur.kids[target[j]].Element?)
    && (forall j, k :: 0 <= j < k < |target| ==> target[j] < target[k])
    && (forall j :: i <= j < |source| ==> sCur.kids[source[j]] == s0.kids[source[j]])
    && (forall j :: 0 <= j < |target| ==> target[j] < |t0.kids| && t0.kids[target[j]].Element?)
    && MergeKids(rev, s0, source, target, i, sCur, tCur) == MergeKids(rev, s0, source, target, 0, s0, t0)
  }

  /** The body of the walk: `merge(source.get(i), target.get(i))`, and the walk moves on by one pair. */
  method MergeNext(rev: Revision, src: Document, tgt: Document, sp: Path, tp: Path,
                   s0: Node, t0: Node, source: seq<nat>, target: seq<nat>, i: nat,
                   ghost src0: Node, ghost tgt0: Node, ghost sCur: Node, ghost tCur: Node)
    returns (ok: bool, ghost sNext: Node, ghost tNext: Node)
    requires src != tgt && i < |source| && i < |target|
    requires Walking(rev, s0, t0, source, target, i, sCur, tCur)
    requires ValidPath(src0, sp) && At(src0, sp) == s0 && src.root == Replace(src0, sp, sCur)
    requires ValidPath(tgt0, tp) && tgt.root == Replace(tgt0, tp, tCur)
    modifies src, tgt
    ensures ok == MergeNode(rev, s0.kids[source[i]], tCur.kids[target[i]]).Ok?
    ensures ok ==> && Walking(rev, s0, t0, source, target, i + 1, sNext, tNext)
                   && src.root == Replace(src0, sp, sNext) && tgt.root == Replace(tgt0, tp, tNext)
    decreases s0, 0
  {
    sNext, tNext := sCur, tCur;
    assert s0.kids[source[i]] < s0;
    ok := MergePair(rev, src, tgt, sp, tp, source[i], target[i]);
    if !ok {
      return;
    }
    WalkStep(rev, s0, source, target, i, sCur, tCur);
    var e := MergeNode(rev, s0.kids[source[i]], tCur.kids[target[i]]).value;
    sNext := sCur.(kids := sCur.kids[source[i] := e.source]);
    tNext := Graft(tCur, target[i], e);
    ReplaceTwice(src0, sp, sCur, sNext);
    ReplaceTwice(tgt0, tp, tCur, tNext);
  }

  /** `merge(source.get(i), target.get(i))`: child `j` of the source element at `sp` with child `k` of the target element at `tp`. */
  method MergePair(rev: Revision, src: Document, tgt: Document, sp: Path, tp: Path, j: nat, k: nat) returns (ok: bool)
    requires src != tgt
    requires ValidPath(src.root, sp) && At(src.root, sp).Element?
    requires j < |At(src.root, sp).kids| && At(src.root, sp).kids[j].Element?
    requires ValidPath(tgt.root, tp) && At(tgt.root, tp).Element?
    requires k < |At(tgt.root, tp).kids| && At(tgt.root, tp).kids[k].Element?
    modifies src, tgt
    ensures var s := At(old(src.root), sp);
      var t := At(old(tgt.root), tp);
      var r := MergeNode(rev, s.kids[j], t.kids[k]);
      && ok == r.Ok?
      && (ok ==> && src.root == Replace(old(src.root), sp, s.(kids := s.kids[j := r.value.source]))
                 && tgt.root == Replace(old(tgt.root), tp, Graft(t, k, r.value)))
    decreases At(src.root, sp).kids[j], 3
  {
    var s := At(src.root, sp);
    ghost var src0 := src.root;
    ReplaceChild(src.root, sp, j, s.kids[j]);
    ReplaceChild(tgt.root, tp, k, At(tgt.root, tp).kids[k]);
    assert Parent(tp + [k]) == tp;
    ok := MergeElement(rev, src, tgt, sp + [j], tp + [k]);
    if ok {
      ReplaceChild(src0, sp, j, MergeNode(rev, s.kids[j], At(old(tgt.root), tp).kids[k]).value.source);
    }
  }

  /** One pair of the walk, as `MergeKids` takes it: the state after it still satisfies the walk's requirements. */
  lemma WalkStep(rev: Revision, s0: Node, source: seq<nat>, target: seq<nat>, i: nat, sCur: Node, tCur: Node)
    requires s0.Element? && sCur.Element? && tCur.Element? && |sCur.kids| == |s0.kids|
    requires WalkIndices(s0.kids, source) && i < |source| && i < |target|
    requires forall j :: i <= j < |target| ==> target[j] < |tCur.kids| && tCur.kids[target[j]].Element?
    requires forall j, k :: 0 <= j < k < |target| ==> target[j] < target[k]
    requires forall j :: i <= j < |source| ==> sCur.kids[source[j]] == s0.kids[source[j]]
    requires MergeNode(rev, s0.kids[source[i]], tCur.kids[target[i]]).Ok?
    ensures var e := MergeNode(rev, s0.kids[source[i]], tCur.kids[target[i]]).value;
      var sNext := sCur.(kids := sCur.kids[source[i] := e.source]);
      var tNext := Graft(tCur, target[i], e);
      && |sNext.kids| == |s0.kids|
      && (forall j :: i + 1 <= j < |source| ==> sNext.kids[source[j]] == s0.kids[source[j]])
      && (forall j :: i + 1 <= j < |target| ==> target[j] < |tNext.kids| && tNext.kids[target[j]].Element?)
      && MergeKids(rev, s0, source, target, i, sCur, tCur) == MergeKids(rev, s0, source, target, i + 1, sNext, tNext)
  {
  }

  /** An update of the child at `tp` seen from its parent, as `Graft` describes it. */
  lemma ReplaceIsGraft(n: Node, tp: Path, e: Effect)
    requires ValidPath(n, tp) && |tp| > 0
    ensures ValidPath(n, Parent(tp)) && At(n, Parent(tp)).Element? && tp[|tp| - 1] < |At(n, Parent(tp)).kids|
    ensures var parent := At(n, Parent(tp));
      e.siblings == [] ==> Replace(n, tp, e.target) == Replace(n, Parent(tp), Graft(parent, tp[|tp| - 1], e))
    ensures var parent := At(n, Parent(tp));
      e.target == At(n, tp) ==>
        Replace(n, Parent(tp), parent.(kids := parent.kids + e.siblings)) == Replace(n, Parent(tp), Graft(parent, tp[|tp| - 1], e))
  {
    ParentPath(n, tp);
    var parent := At(n, Parent(tp));
    var k := tp[|tp| - 1];
    ReplaceChild(n, Parent(tp), k, e.target);
    assert parent.kids[k := e.target] + [] == parent.kids[k := e.target];
    if e.target == At(n, tp) {
      assert parent.kids[k := e.target] == parent.kids;
    }
  }

  /** `merge(Element source, Element target)` on the elements at `sp` and `tp`; the target has a parent. */
  method MergeElement(rev: Revision, src: Document, tgt: Document, sp: Path, tp: Path) returns (ok: bool)
    requires src != tgt && |tp| > 0
    requires ValidPath(src.root, sp) && At(src.root, sp).Element?
    requires ValidPath(tgt.root, tp) && At(tgt.root, tp).Element?
    modifies src, tgt
    ensures ValidPath(old(tgt.root), Parent(tp)) && At(old(tgt.root), Parent(tp)).Element?
    ensures tp[|tp| - 1] < |At(old(tgt.root), Parent(tp)).kids|
    ensures var r := MergeNode(rev, At(old(src.root), sp), At(old(tgt.root), tp));
      && ok == r.Ok?
      && (ok ==> && src.root == Replace(old(src.root), sp, r.value.source)
                 && tgt.root == Replace(old(tgt.root), Parent(tp),
                      Graft(At(old(tgt.root), Parent(tp)), tp[|tp| - 1], r.value)))
    decreases At(src.root, sp), 2
  {
    var t := At(tgt.root, tp);
    var policy := Dispatch(rev, t);
    if policy.Descend? {
      ok := MergeElements(rev, src, tgt, sp, tp);
      if ok {
        ReplaceIsGraft(old(tgt.root), tp, MergeNode(rev, At(old(src.root), sp), t).value);
      } else {
        ParentPath(old(tgt.root), tp);
      }
    } else {
      ok := MergeLeaf(src, tgt, sp, tp, policy);
    }
  }

  /**
   * The leaf policies reached from `merge(Element source, Element target)`.
   * Every policy but the heading one changes only the target element; the
   * heading policy appends to the target's parent.
   */
  method MergeLeaf(src: Document, tgt: Document, sp: Path, tp: Path, policy: Policy) returns (ok: bool)
    requires src != tgt && |tp| > 0 && !policy.Descend?
    requires ValidPath(src.root, sp) && At(src.root, sp).Element?
    requires ValidPath(tgt.root, tp) && At(tgt.root, tp).Element?
    requires policy.Heading? ==> IsHeading(At(tgt.root, tp).tag) && policy.level == HeadingLevel(At(tgt.root, tp).tag)
    modifies src, tgt
    ensures ValidPath(old(tgt.root), Parent(tp)) && At(old(tgt.root), Parent(tp)).Element?
    ensures tp[|tp| - 1] < |At(old(tgt.root), Parent(tp)).kids|
    ensures var r := ApplyLeaf(At(old(src.root), sp), At(old(tgt.root), tp), policy);
      && ok == r.Ok?
      && (ok ==> && src.root == Replace(old(src.root), sp, r.value.source)
                 && tgt.root == Replace(old(tgt.root), Parent(tp),
                      Graft(At(old(tgt.root), Parent(tp)), tp[|tp| - 1], r.value)))
  {
    ParentPath(tgt.root, tp);
    var s := At(src.root, sp);
    var t := At(tgt.root, tp);
    ghost var tgt0 := tgt.root;
    if policy.Heading? {
      ReplaceAt(src.root, sp);
      MergeHeading(src, tgt, sp, tp, t.tag);
      ok := true;
    } else {
      ok := MergeInPlace(src, tgt, sp, tp, policy);
    }
    if ok {
      ReplaceIsGraft(tgt0, tp, ApplyLeaf(s, t, policy).value);
    }
  }

  /** The leaf policies that change the target element itself (and, for images, the source's). */
  method MergeInPlace(src: Document, tgt: Document, sp: Path, tp: Path, policy: Policy) returns (ok: bool)
    requires src != tgt && !policy.Descend? && !policy.Heading?
    requires ValidPath(src.root, sp) && At(src.root, sp).Element?
    requires ValidPath(tgt.root, tp) && At(tgt.root, tp).Element?
    modifies src, tgt
    ensures var r := ApplyLeaf(At(old(src.root), sp), At(old(tgt.root), tp), policy);
      && ok == r.Ok?
      && (ok ==> && r.value.siblings == []
                 && src.root == Replace(old(src.root), sp, r.value.source)
                 && tgt.root == Replace(old(tgt.root), tp, r.value.target))
  {
    match policy {
    case ParagraphByHtml =>
      ok := MergeParagraph(src, tgt, sp, tp);
    case TitleText =>
      ReplaceAt(src.root, sp);
      ok := MergeTitle(src, tgt, sp, tp);
    case Contents =>
      ReplaceAt(src.root, sp);
      ok := MergeContents(src, tgt, sp, tp);
    case ParagraphByText | TextPolicy | Skip =>
      ReplaceAt(src.root, sp);
      MergeTotal(src, tgt, sp, tp, policy);
      ok := true;
    }
  }

  /** The leaf policies that cannot throw: both paragraph texts compared, a title or a `dt`, and a skipped element. */
  method MergeTotal(src: Document, tgt: Document, sp: Path, tp: Path, policy: Policy)
    requires src != tgt && (policy.ParagraphByText? || policy.TextPolicy? || policy.Skip?)
    requires ValidPath(src.root, sp) && At(src.root, sp).Element?
    requires ValidPath(tgt.root, tp) && At(tgt.root, tp).Element?
    modifies tgt
    ensures var r := ApplyLeaf(At(src.root, sp), At(old(tgt.root), tp), policy);
      && r.Ok? && r.value.source == At(src.root, sp) && r.value.siblings == []
      && tgt.root == Replace(old(tgt.root), tp, r.value.target)
  {
    match policy {
    case ParagraphByText =>
      MergeParagraphLegacy(src, tgt, sp, tp);
    case TextPolicy =>
      MergeText(src, tgt, sp, tp);
    case Skip =>
      ReplaceAt(tgt.root, tp);
    }
  }

  /** `mergeText(source.select("b").get(0), target.select("b").get(0))` for a `p` of class `title`. */
  method MergeTitle(src: Document, tgt: Document, sp: Path, tp: Path) returns (ok: bool)
    requires src != tgt
    requires ValidPath(src.root, sp) && ValidPath(tgt.root, tp) && At(tgt.root, tp).Element?
    modifies tgt
    ensures var r := TitleMerge(At(src.root, sp), At(old(tgt.root), tp));
      ok == r.Ok? && (ok ==> tgt.root == Replace(old(tgt.root), tp, r.value))
    ensures ok <==> HasElementNamed(At(src.root, sp), "b") && HasElementNamed(At(old(tgt.root), tp), "b")
  {
    var s := At(src.root, sp);
    var t := At(tgt.root, tp);
    MergeProperties.TitleMergeOutcome(s, t);
    var sb := SelectFirst(s, "b");
    var tb := SelectFirst(t, "b");
    if sb.None? || tb.None? {
      // `get(0)` throws.
      return false;
    }
    AtConcat(src.root, sp, sb.value);
    AtConcat(tgt.root, tp, tb.value);
    ReplaceConcat(tgt.root, tp, tb.value, TextMerge(At(s, sb.value), At(t, tb.value)));
    MergeText(src, tgt, sp + sb.value, tp + tb.value);
    ok := true;
  }

  /** `mergeHeading`: a new `h(level + 2)` after the target's siblings, with the source's attributes and markup. */
  method MergeHeading(src: Document, tgt: Document, sp: Path, tp: Path, nodeName: string)
    requires src != tgt && |tp| > 0 && IsHeading(nodeName)
    requires ValidPath(src.root, sp) && At(src.root, sp).Element?
    requires ValidPath(tgt.root, tp)
    modifies tgt
    ensures ValidPath(old(tgt.root), Parent(tp)) && At(old(tgt.root), Parent(tp)).Element?
    ensures tgt.root == Replace(old(tgt.root), Parent(tp),
      AppendKid(At(old(tgt.root), Parent(tp)), NewHeading(At(src.root, sp), HeadingLevel(nodeName))))
  {
    ParentPath(tgt.root, tp);
    var s := At(src.root, sp);
    var level := HeadingLevel(nodeName);
    var parentPath := Parent(tp);
    var parent := At(tgt.root, parentPath);
    var tag := PromotedTag(level);
    ghost var tgt0 := tgt.root;
    var q := tgt.AppendElement(parentPath, tag);
    CopyAttributes(tgt, q, s.attrs);
    ghost var copied := Element(tag, CopyAttrs(s.attrs), []);
    ReplaceLastChild(tgt0, parentPath, parent, Element(tag, [], []), copied);
    var h := InnerHtml(s);
    tgt.AppendHtml(q, h);
    assert copied.(kids := copied.kids + Markup(h)) == NewHeading(s, level);
    ReplaceLastChild(tgt0, parentPath, parent, copied, NewHeading(s, level));
  }

  /** The `while (iterator.hasNext())` loop of `mergeHeading`: `attr(key, value)` for each source attribute in order. */
  method CopyAttributes(doc: Document, q: Path, attrs: seq<Attribute>)
    requires ValidPath(doc.root, q) && At(doc.root, q).Element? && At(doc.root, q).attrs == []
    modifies doc
    ensures doc.root == Replace(old(doc.root), q, At(old(doc.root), q).(attrs := CopyAttrs(attrs)))
  {
    ghost var root0 := doc.root;
    ghost var e := At(doc.root, q);
    ghost var copied: seq<Attribute> := [];
    assert attrs[..0] == [];
    assert e.(attrs := copied) == e;
    ReplaceAt(doc.root, q);
    var i := 0;
    while i < |attrs|
      invariant 0 <= i <= |attrs| && copied == CopyAttrs(attrs[..i])
      invariant ValidPath(root0, q) && doc.root == Replace(root0, q, e.(attrs := copied))
    {
      CopyAttrStep(root0, q, e, attrs, i, copied);
      doc.SetAttr(q, attrs[i].key, attrs[i].value);
      copied := PutAttr(copied, attrs[i].key, attrs[i].value);
      i := i + 1;
    }
    assert attrs[..|attrs|] == attrs;
  }

  /** One `attr(key, value)` of `CopyAttributes`, on the tree. */
  lemma CopyAttrStep(root0: Node, q: Path, e: Node, attrs: seq<Attribute>, i: nat, copied: seq<Attribute>)
    requires ValidPath(root0, q) && e.Element? && i < |attrs| && copied == CopyAttrs(attrs[..i])
    ensures var n := Replace(root0, q, e.(attrs := copied));
      && ValidPath(n, q) && At(n, q) == e.(attrs := copied)
      && PutAttr(copied, attrs[i].key, attrs[i].value) == CopyAttrs(attrs[..i + 1])
      && Replace(n, q, At(n, q).(attrs := PutAttr(At(n, q).attrs, attrs[i].key, attrs[i].value)))
         == Replace(root0, q, e.(attrs := PutAttr(copied, attrs[i].key, attrs[i].value)))
  {
    CopyAttrsSnoc(attrs, i);
    ReplaceTwice(root0, q, e.(attrs := copied), e.(attrs := PutAttr(copied, attrs[i].key, attrs[i].value)));
  }

  /** Copying one more attribute is one more `PutAttr`. */
  lemma CopyAttrsSnoc(attrs: seq<Attribute>, i: nat)
    requires i < |attrs|
    ensures CopyAttrs(attrs[..i + 1]) == PutAttr(CopyAttrs(attrs[..i]), attrs[i].key, attrs[i].value)
  {
    assert attrs[..i + 1][..i] == attrs[..i];
  }

  /** `mergeText`: ` - ` and the source's markup, when the target's trimmed text is not empty. */
  method MergeText(src: Document, tgt: Document, sp: Path, tp: Path)
    requires src != tgt
    requires ValidPath(src.root, sp) && ValidPath(tgt.root, tp) && At(tgt.root, tp).Element?
    modifies tgt
    ensures tgt.root == Replace(old(tgt.root), tp, TextMerge(At(src.root, sp), At(old(tgt.root), tp)))
  {
    var t := At(tgt.root, tp);
    if |Trim(TextOf(t))| > 0 {
      ghost var tgt0 := tgt.root;
      var h := InnerHtml(At(src.root, sp));
      tgt.AppendChild(tp, Text(" - "));
      ghost var t1 := AppendKid(t, Text(" - "));
      tgt.AppendHtml(tp, h);
      ReplaceTwice(tgt0, tp, t1, t1.(kids := t1.kids + Markup(h)));
    } else {
      ReplaceAt(tgt.root, tp);
    }
  }

  /**
   * `mergeParagraph` of the latest revision. The image case passes the target's
   * first image as `mergeImage`'s source and the source's as its target, so the
   * `alt` rewrite lands in the source document.
   */
  method MergeParagraph(src: Document, tgt: Document, sp: Path, tp: Path) returns (ok: bool)
    requires src != tgt
    requires ValidPath(src.root, sp) && At(src.root, sp).Element?
    requires ValidPath(tgt.root, tp) && At(tgt.root, tp).Element?
    modifies src, tgt
    ensures var r := ParagraphMerge(At(old(src.root), sp), At(old(tgt.root), tp));
      && ok == r.Ok?
      && (ok ==> src.root == Replace(old(src.root), sp, r.value.source) && tgt.root == Replace(old(tgt.root), tp, r.value.target))
  {
    var s := At(src.root, sp);
    var t := At(tgt.root, tp);
    ReplaceAt(src.root, sp);
    ReplaceAt(tgt.root, tp);
    if EqualsIgnoreCase(InnerHtml(t), InnerHtml(s)) {
      return true;
    }
    if |t.kids| == 0 || |s.kids| == 0 {
      // `childNode(0)` throws.
      return false;
    }
    var targetChildName := NodeName(t.kids[0]);
    var sourceChildName := NodeName(s.kids[0]);
    if EqualsIgnoreCase("img", targetChildName) && EqualsIgnoreCase("img", sourceChildName) {
      // `child(0)` is `childNode(0)` on both sides, as that node is an element.
      assert t.kids[0].Element? && s.kids[0].Element?;
      ReplaceChild(src.root, sp, 0, ImageMerge(t.kids[0], s.kids[0]));
      ReplaceChild(tgt.root, tp, 0, t.kids[0]);
      MergeImage(tgt, tp + [0], src, sp + [0]);
      return true;
    }
    ghost var tgt0 := tgt.root;
    var h := InnerHtml(s);
    if !("p" == targetChildName) || !("p" == sourceChildName) {
      tgt.AppendChild(tp, LineBreak);
      ghost var t1 := AppendKid(t, LineBreak);
      tgt.AppendHtml(tp, h);
      ReplaceTwice(tgt0, tp, t1, t1.(kids := t1.kids + Markup(h)));
    } else {
      tgt.AppendHtml(tp, h);
      assert t.kids + [] + Markup(h) == t.kids + Markup(h);
    }
    ok := true;
  }

  /** `mergeImage(source, target)`: the `target` image's `alt` becomes both `alt` values when they differ ignoring case. */
  method MergeImage(source: Document, sp: Path, target: Document, tp: Path)
    requires ValidPath(source.root, sp) && At(source.root, sp).Element?
    requires ValidPath(target.root, tp) && At(target.root, tp).Element?
    modifies target
    ensures target.root == Replace(old(target.root), tp, ImageMerge(old(At(source.root, sp)), At(old(target.root), tp)))
  {
    var targetAlt := AttrValue(At(target.root, tp).attrs, "alt");
    var sourceAlt := AttrValue(At(source.root, sp).attrs, "alt");
    if !EqualsIgnoreCase(targetAlt, sourceAlt) {
      target.SetAttr(tp, "alt", targetAlt + " - " + sourceAlt);
    } else {
      ReplaceAt(target.root, tp);
    }
  }

  /** `mergeParagraph` of the legacy revision. */
  method MergeParagraphLegacy(src: Document, tgt: Document, sp: Path, tp: Path)
    requires src != tgt
    requires ValidPath(src.root, sp) && ValidPath(tgt.root, tp) && At(tgt.root, tp).Element?
    modifies tgt
    ensures tgt.root == Replace(old(tgt.root), tp, ParagraphMergeLegacy(At(src.root, sp), At(old(tgt.root), tp)))
  {
    var s := At(src.root, sp);
    var t := At(tgt.root, tp);
    if !EqualsIgnoreCase(TextOf(t), TextOf(s)) {
      ghost var tgt0 := tgt.root;
      var h := InnerHtml(s);
      tgt.AppendChild(tp, LineBreak);
      ghost var t1 := AppendKid(t, LineBreak);
      tgt.AppendHtml(tp, h);
      ReplaceTwice(tgt0, tp, t1, t1.(kids := t1.kids + Markup(h)));
    } else {
      ReplaceAt(tgt.root, tp);
    }
  }

  /** `mergeContents`: ` -` and `group(2)` of the source text, as text, on the target's first element child. */
  method MergeContents(src: Document, tgt: Document, sp: Path, tp: Path) returns (ok: bool)
    requires src != tgt
    requires ValidPath(src.root, sp) && ValidPath(tgt.root, tp) && At(tgt.root, tp).Element?
    modifies tgt
    ensures var r := ContentsMerge(At(src.root, sp), At(old(tgt.root), tp));
      ok == r.Ok? && (ok ==> tgt.root == Replace(old(tgt.root), tp, r.value))
  {
    var s := At(src.root, sp);
    var sourceText := TextOf(s);
    var t := At(tgt.root, tp);
    ReplaceAt(tgt.root, tp);
    ok := true;
    if !EqualsIgnoreCase(InnerHtml(t), InnerHtml(s)) {
      // `matcher.find()` and `matcher.group(2)`
      var group := ContentPattern.Label(sourceText);
      if group.Some? {
        // `target.child(0)`
        var first := FirstElementIndex(t);
        if first.None? {
          return false;
        }
        var k := first.value;
        ReplaceChild(tgt.root, tp, k, AppendKid(t.kids[k], Text(" -" + group.value)));
        tgt.AppendChild(tp + [k], Text(" -" + group.value));
      }
    }
  }
}
