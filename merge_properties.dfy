/**
 * What the merge policies promise, proved about the functions of
 * `MergePolicy`: the dispatch table of each revision, the heading promotion,
 * what each leaf policy appends and when, and what the walker leaves alone.
 */
module MergeProperties {
  import opened Wrappers
  import opened JavaString
  import opened Dom
  import ContentPattern
  import opened MergePolicy

  // ------------------------------------------------------------------ dispatch

  /** The structural sets differ in `td` only, and membership is case-sensitive. */
  lemma StructuralTags(name: string)
    ensures NeedMergeChild(Legacy, name) <==> NeedMergeChild(Latest, name) || name == "td"
    ensures NeedMergeChild(Legacy, "td") && !NeedMergeChild(Latest, "td")
    ensures !NeedMergeChild(Latest, "DIV") && !NeedMergeChild(Legacy, "DIV")
  {
  }

  /** An element is descended into exactly when its tag is structural and it has an element child. */
  lemma DescendIffStructural(rev: Revision, t: Node)
    requires t.Element?
    ensures Dispatch(rev, t) == Descend <==> NeedMergeChild(rev, t.tag) && HasElementChild(t)
  {
  }

  /** The latest revision's leaf table. */
  lemma LatestLeafTable(name: string, cls: string)
    ensures EqualsIgnoreCase("p", name) ==>
      LeafPolicy(Latest, name, cls) == (if cls == "title" then TitleText else ParagraphByHtml)
    ensures EqualsIgnoreCase("td", name) || EqualsIgnoreCase("dt", name) || EqualsIgnoreCase("li", name) ==>
      LeafPolicy(Latest, name, cls) == ParagraphByHtml
    ensures IsHeading(name) ==> LeafPolicy(Latest, name, cls) == Heading(HeadingLevel(name))
    ensures EqualsIgnoreCase("title", name) ==> LeafPolicy(Latest, name, cls) == TextPolicy
    ensures EqualsIgnoreCase("span", name) ==>
      LeafPolicy(Latest, name, cls)
        == (if EqualsIgnoreCase("chapter", cls) || EqualsIgnoreCase("section", cls) then Contents else ParagraphByHtml)
    ensures LeafPolicy(Latest, name, cls) == Skip <==>
      !(|| EqualsIgnoreCase("p", name) || EqualsIgnoreCase("td", name) || IsHeading(name)
        || EqualsIgnoreCase("title", name) || EqualsIgnoreCase("dt", name) || EqualsIgnoreCase("li", name)
        || EqualsIgnoreCase("span", name))
  {
  }

  /**
   * The legacy table differs from the latest one in three places only: a leaf
   * `dt` takes the text policy, a `span` is left alone, and the paragraph
   * policy is the legacy one.
   */
  lemma LegacyLeafTable(name: string, cls: string)
    ensures EqualsIgnoreCase("dt", name) ==> LeafPolicy(Legacy, name, cls) == TextPolicy
    ensures EqualsIgnoreCase("span", name) ==> LeafPolicy(Legacy, name, cls) == Skip
    ensures !EqualsIgnoreCase("dt", name) && !EqualsIgnoreCase("span", name) ==>
      LeafPolicy(Legacy, name, cls) == ToLegacy(LeafPolicy(Latest, name, cls))
    ensures LeafPolicy(Legacy, name, cls) != ParagraphByHtml && LeafPolicy(Legacy, name, cls) != Contents
  {
    if EqualsIgnoreCase("dt", name) {
      assert CharEqualsIgnoreCase('d', name[0]) && CharEqualsIgnoreCase('t', name[1]);
      assert !CharEqualsIgnoreCase('t', name[0]) && !CharEqualsIgnoreCase('p', name[0]);
      assert !IsDigit(name[1]);
    }
  }

  /** The latest policy that the legacy revision applies in its place. */
  function ToLegacy(p: Policy): Policy {
    if p == ParagraphByHtml then ParagraphByText else p
  }

  // ------------------------------------------------------------------- heading

  /**
   * The promoted tag is `h` followed by the decimal level plus two; it is a
   * heading name again exactly for levels up to 7 (an `h8` or `h9` becomes
   * `h10` or `h11`).
   */
  lemma HeadingPromotion(name: string)
    requires IsHeading(name)
    ensures var tag := PromotedTag(HeadingLevel(name));
      && 2 <= |tag| <= 3 && tag[0] == 'h'
      && (forall i :: 1 <= i < |tag| ==> IsDigit(tag[i]))
      && DecimalValue(tag[1..]) == HeadingLevel(name) + 2
    ensures IsHeading(PromotedTag(HeadingLevel(name))) <==> HeadingLevel(name) <= 7
  {
    var level := HeadingLevel(name);
    var tag := PromotedTag(level);
    DecimalRoundTrip(level + 2);
    assert tag[1..] == DecimalString(level + 2);
    if level + 2 >= 10 {
      assert DecimalString(level + 2) == DecimalString((level + 2) / 10) + [DigitChar((level + 2) % 10)];
    }
  }

  /**
   * The new heading carries the source's attributes, in order, and the
   * source's inner HTML; a parser never gives an element two attributes with
   * the same key.
   */
  lemma NewHeadingCopiesSource(s: Node, level: nat)
    requires s.Element? && DistinctKeys(s.attrs)
    ensures var h := NewHeading(s, level);
      h.Element? && h.tag == PromotedTag(level) && h.attrs == s.attrs && InnerHtml(h) == InnerHtml(s)
  {
    CopyAttrsIdentity(s.attrs);
  }

  // --------------------------------------------------------------------- text

  /** A string has some character above U+0020 exactly when its trimmed form is non-empty. */
  predicate HasVisibleChar(s: string) {
    exists i :: 0 <= i < |s| && !IsTrimmed(s[i])
  }

  /**
   * The text policy changes the target exactly when the target's text has a
   * character above U+0020, and then appends ` - ` and the source's markup
   * after the existing children.
   */
  lemma TextMergeAppends(s: Node, t: Node)
    requires t.Element?
    ensures TextMerge(s, t) != t <==> HasVisibleChar(TextOf(t))
    ensures var r := TextMerge(s, t);
      && r.Element? && r.tag == t.tag && r.attrs == t.attrs && |r.kids| >= |t.kids| && r.kids[..|t.kids|] == t.kids
      && (HasVisibleChar(TextOf(t)) ==> InnerHtml(r) == InnerHtml(t) + " - " + InnerHtml(s))
  {
    VisibleIffTrimmed(TextOf(t));
    if HasVisibleChar(TextOf(t)) {
      AppendMarkupHtml(t.kids, [Text(" - ")], InnerHtml(s));
      SingleKidHtml(Text(" - "));
    }
  }

  lemma VisibleIffTrimmed(s: string)
    ensures HasVisibleChar(s) <==> |Trim(s)| > 0
  {
  }

  // ---------------------------------------------------------------- paragraph

  /** The latest paragraph policy fails exactly when the markup differs and one side has no child node. */
  lemma ParagraphMergeOutcome(s: Node, t: Node)
    requires s.Element? && t.Element?
    ensures ParagraphMerge(s, t).Fail? <==>
      !EqualsIgnoreCase(InnerHtml(t), InnerHtml(s)) && (|t.kids| == 0 || |s.kids| == 0)
    ensures EqualsIgnoreCase(InnerHtml(t), InnerHtml(s)) ==> ParagraphMerge(s, t) == Ok(Effect(s, t, []))
    ensures ParagraphMerge(s, t).Ok? ==> ParagraphMerge(s, t).value.siblings == []
  {
  }

  /** Both first child nodes are images: the paragraph policy rewrites an `alt` and appends nothing. */
  predicate BothImages(s: Node, t: Node)
    requires s.Element? && t.Element?
  {
    |t.kids| > 0 && |s.kids| > 0 && EqualsIgnoreCase("img", NodeName(t.kids[0])) && EqualsIgnoreCase("img", NodeName(s.kids[0]))
  }

  /**
   * When the markup differs and the first children are not both images, the
   * target keeps its children and gains a line break (left out when both first
   * child nodes are named exactly `p`) and the source's markup; the source is
   * unchanged.
   */
  lemma ParagraphMergeAppends(s: Node, t: Node)
    requires s.Element? && t.Element? && |t.kids| > 0 && |s.kids| > 0
    requires !EqualsIgnoreCase(InnerHtml(t), InnerHtml(s)) && !BothImages(s, t)
    ensures ParagraphMerge(s, t).Ok?
    ensures var e := ParagraphMerge(s, t).value;
      var br := if NodeName(t.kids[0]) == "p" && NodeName(s.kids[0]) == "p" then "" else OuterHtml(LineBreak);
      && e.source == s && e.siblings == []
      && e.target.Element? && e.target.tag == t.tag && e.target.attrs == t.attrs
      && |e.target.kids| >= |t.kids| && e.target.kids[..|t.kids|] == t.kids
      && InnerHtml(e.target) == InnerHtml(t) + br + InnerHtml(s)
  {
    var br: seq<Node> := if NodeName(t.kids[0]) == "p" && NodeName(s.kids[0]) == "p" then [] else [LineBreak];
    AppendMarkupHtml(t.kids, br, InnerHtml(s));
    SingleKidHtml(LineBreak);
  }

  /**
   * When the first children are both images, the target is unchanged and the
   * source's first image gets its own `alt`, ` - ` and the target image's
   * `alt`, unless the two are equal ignoring case; nothing else of the source
   * changes.
   */
  lemma ParagraphMergeRewritesSourceImage(s: Node, t: Node)
    requires s.Element? && t.Element? && !EqualsIgnoreCase(InnerHtml(t), InnerHtml(s)) && BothImages(s, t)
    ensures s.kids[0].Element? && t.kids[0].Element? && ParagraphMerge(s, t).Ok?
    ensures var e := ParagraphMerge(s, t).value;
      var img := s.kids[0];
      var alt := AttrValue(img.attrs, "alt");
      var other := AttrValue(t.kids[0].attrs, "alt");
      && e.target == t && e.siblings == []
      && e.source.Element? && e.source.tag == s.tag && e.source.attrs == s.attrs
      && |e.source.kids| == |s.kids| && e.source.kids[1..] == s.kids[1..]
      && e.source.kids[0].Element? && e.source.kids[0].tag == img.tag && e.source.kids[0].kids == img.kids
      && AttrValue(e.source.kids[0].attrs, "alt") == (if EqualsIgnoreCase(alt, other) then alt else alt + " - " + other)
      && (forall k :: k != "alt" ==> AttrValue(e.source.kids[0].attrs, k) == AttrValue(img.attrs, k))
  {
    var img := s.kids[0];
    var alt := AttrValue(img.attrs, "alt");
    var other := AttrValue(t.kids[0].attrs, "alt");
    PutAttrReads(img.attrs, "alt", alt + " - " + other);
  }

  /**
   * The legacy paragraph policy changes the target exactly when the texts
   * differ ignoring case, and then appends a line break and the source's markup.
   */
  lemma ParagraphMergeLegacyAppends(s: Node, t: Node)
    requires t.Element?
    ensures ParagraphMergeLegacy(s, t) == t <==> EqualsIgnoreCase(TextOf(t), TextOf(s))
    ensures var r := ParagraphMergeLegacy(s, t);
      && r.Element? && r.tag == t.tag && r.attrs == t.attrs && r.kids[..|t.kids|] == t.kids
      && (!EqualsIgnoreCase(TextOf(t), TextOf(s)) ==> InnerHtml(r) == InnerHtml(t) + OuterHtml(LineBreak) + InnerHtml(s))
  {
    if !EqualsIgnoreCase(TextOf(t), TextOf(s)) {
      AppendMarkupHtml(t.kids, [LineBreak], InnerHtml(s));
      SingleKidHtml(LineBreak);
    }
  }

  // -------------------------------------------------------------------- title

  /**
   * A title paragraph merges exactly when both sides hold a `b` element. The
   * merge then applies the text policy to the first `b` of the target, in
   * document order, with the first `b` of the source.
   */
  lemma TitleMergeOutcome(s: Node, t: Node)
    requires t.Element?
    ensures TitleMerge(s, t).Fail? <==> !HasElementNamed(s, "b") || !HasElementNamed(t, "b")
    ensures TitleMerge(s, t).Ok? ==>
      var sb, tb := SelectFirst(s, "b").value, SelectFirst(t, "b").value;
      && NamedAt(s, sb, "b") && (forall p :: PreorderBefore(p, sb) ==> !NamedAt(s, p, "b"))
      && NamedAt(t, tb, "b") && (forall p :: PreorderBefore(p, tb) ==> !NamedAt(t, p, "b"))
      && ValidPath(TitleMerge(s, t).value, tb)
      && At(TitleMerge(s, t).value, tb) == TextMerge(At(s, sb), At(t, tb))
  {
    SelectFirstIsFirst(s, "b");
    SelectFirstIsFirst(t, "b");
    if SelectFirst(s, "b").Some? {
      assert NamedAt(s, SelectFirst(s, "b").value, "b");
    }
    if SelectFirst(t, "b").Some? {
      assert NamedAt(t, SelectFirst(t, "b").value, "b");
    }
  }

  // ----------------------------------------------------------------- contents

  /**
   * The contents policy fails exactly when the markup differs, the source text
   * has a numbering and the target has no element child. When it succeeds with
   * a change, the target's first element child gains the text ` -` and
   * `group(2)`, and nothing else changes.
   */
  lemma ContentsMergeOutcome(s: Node, t: Node)
    requires t.Element?
    ensures ContentsMerge(s, t).Fail? <==>
      !EqualsIgnoreCase(InnerHtml(t), InnerHtml(s)) && ContentPattern.HasNumberedDot(TextOf(s)) && !HasElementChild(t)
    ensures EqualsIgnoreCase(InnerHtml(t), InnerHtml(s)) || !ContentPattern.HasNumberedDot(TextOf(s)) ==>
      ContentsMerge(s, t) == Ok(t)
    ensures !EqualsIgnoreCase(InnerHtml(t), InnerHtml(s)) && ContentPattern.HasNumberedDot(TextOf(s)) && HasElementChild(t) ==>
      && FirstElementIndex(t).Some? && ContentPattern.Label(TextOf(s)).Some? && ContentsMerge(s, t).Ok?
      && var k := FirstElementIndex(t).value;
         var r := ContentsMerge(s, t).value;
         var heading := ContentPattern.Label(TextOf(s)).value;
         && r.tag == t.tag && r.attrs == t.attrs && |r.kids| == |t.kids|
         && (forall j :: 0 <= j < |t.kids| && j != k ==> r.kids[j] == t.kids[j])
         && r.kids[k] == AppendKid(t.kids[k], Text(" -" + heading))
         && TextOf(r.kids[k]) == TextOf(t.kids[k]) + " -" + heading
  {
    ContentPattern.LabelFollowsNumbering(TextOf(s));
    var idx := ElementIndices(t.kids);
    if |idx| > 0 {
      assert t.kids[idx[0]].Element?;
    }
    if FirstElementIndex(t).Some? && ContentPattern.Label(TextOf(s)).Some? {
      var g := t.kids[FirstElementIndex(t).value];
      var x := Text(" -" + ContentPattern.Label(TextOf(s)).value);
      assert (g.kids + [x])[..|g.kids|] == g.kids;
      assert KidsText(g.kids + [x]) == KidsText(g.kids) + TextOf(x);
    }
  }

  // ------------------------------------------------------------------ walker

  /** Pair `i` of the walk fails when the target has fewer element children than the source: `target.get(i)` throws. */
  lemma {:induction false} MergeKidsFailsOnShortTarget(
    rev: Revision, s: Node, sIdx: seq<nat>, tIdx: seq<nat>, i: nat, sNew: Node, tNew: Node)
    requires s.Element? && sNew.Element? && tNew.Element? && |sNew.kids| == |s.kids|
    requires WalkIndices(s.kids, sIdx) && i <= |sIdx|
    requires forall j :: i <= j < |tIdx| ==> tIdx[j] < |tNew.kids| && tNew.kids[tIdx[j]].Element?
    requires forall j, k :: 0 <= j < k < |tIdx| ==> tIdx[j] < tIdx[k]
    requires i <= |tIdx| < |sIdx|
    ensures MergeKids(rev, s, sIdx, tIdx, i, sNew, tNew).Fail?
    decreases |sIdx| - i
  {
    if i < |tIdx| {
      var r := MergeNode(rev, s.kids[sIdx[i]], tNew.kids[tIdx[i]]);
      if r.Ok? {
        var e := r.value;
        MergeKidsFailsOnShortTarget(rev, s, sIdx, tIdx, i + 1,
          sNew.(kids := sNew.kids[sIdx[i] := e.source]), Graft(tNew, tIdx[i], e));
      }
    }
  }

  /** A promoted heading element: the only kind of node a merge adds next to an element. */
  predicate IsPromotedHeading(n: Node) {
    n.Element? && exists level: nat :: level < 10 && n.tag == PromotedTag(level)
  }

  /**
   * What a merge of one pair leaves alone: the target element keeps its tag,
   * its attributes and its child count or more, the source element keeps its
   * tag, attributes and child count, and what is appended beside the target is
   * only promoted headings.
   */
  lemma {:induction false} MergeNodeFrame(rev: Revision, s: Node, t: Node)
    requires s.Element? && t.Element?
    ensures MergeNode(rev, s, t).Ok? ==> PairFrame(s, t, MergeNode(rev, s, t).value)
    decreases s, 1, 0
  {
    var p := Dispatch(rev, t);
    if p.Descend? {
      MergeKidsFrame(rev, s, ElementIndices(s.kids), ElementIndices(t.kids), 0, s, t);
    } else {
      LeafFrame(s, t, p);
    }
  }

  /** The frame of one merged pair, as `MergeNodeFrame` states it. */
  predicate PairFrame(s: Node, t: Node, e: Effect) {
    && e.target.Element? && t.Element? && e.target.tag == t.tag && e.target.attrs == t.attrs && |e.target.kids| >= |t.kids|
    && e.source.Element? && s.Element? && e.source.tag == s.tag && e.source.attrs == s.attrs && |e.source.kids| == |s.kids|
    && (forall x :: x in e.siblings ==> IsPromotedHeading(x))
  }

  lemma LeafFrame(s: Node, t: Node, p: Policy)
    requires s.Element? && t.Element? && !p.Descend?
    requires p.Heading? ==> p.level < 10
    ensures ApplyLeaf(s, t, p).Ok? ==> PairFrame(s, t, ApplyLeaf(s, t, p).value)
  {
    match p
    case ParagraphByHtml =>
      if !EqualsIgnoreCase(InnerHtml(t), InnerHtml(s)) && |t.kids| > 0 && |s.kids| > 0 {
        if BothImages(s, t) {
          ParagraphMergeRewritesSourceImage(s, t);
        } else {
          ParagraphMergeAppends(s, t);
        }
      }
    case ParagraphByText =>
      ParagraphMergeLegacyAppends(s, t);
    case TitleText =>
      if SelectFirst(s, "b").Some? && SelectFirst(t, "b").Some? {
        var sb := SelectFirst(s, "b").value;
        var tb := SelectFirst(t, "b").value;
        TextMergeAppends(At(s, sb), At(t, tb));
      }
    case Heading(level) =>
      assert IsPromotedHeading(NewHeading(s, level));
    case TextPolicy =>
      TextMergeAppends(s, t);
    case Contents =>
      ContentsMergeOutcome(s, t);
    case Skip =>
  }

  /**
   * What the walk from pair `i` leaves alone: target children outside the
   * walked pairs (in particular every child after the last paired one and
   * every heading appended during the walk) are unchanged, and so are source
   * children outside the walked indices; what the walk appends after the
   * target's children is the siblings of the merged pairs, in walk order.
   */
  lemma {:induction false} MergeKidsFrame(
    rev: Revision, s: Node, sIdx: seq<nat>, tIdx: seq<nat>, i: nat, sNew: Node, tNew: Node)
    requires s.Element? && sNew.Element? && tNew.Element? && |sNew.kids| == |s.kids|
    requires WalkIndices(s.kids, sIdx) && i <= |sIdx|
    requires forall j :: i <= j < |tIdx| ==> tIdx[j] < |tNew.kids| && tNew.kids[tIdx[j]].Element?
    requires forall j, k :: 0 <= j < k < |tIdx| ==> tIdx[j] < tIdx[k]
    requires i <= |tIdx|
    ensures MergeKids(rev, s, sIdx, tIdx, i, sNew, tNew).Ok? ==>
      && |sIdx| <= |tIdx|
      && KidsFrame(sIdx, tIdx, i, sNew, tNew, MergeKids(rev, s, sIdx, tIdx, i, sNew, tNew).value,
        WalkSiblings(rev, s, sIdx, tIdx, i, sNew, tNew))
    decreases s, 0, |sIdx| - i
  {
    if i < |sIdx| && i < |tIdx| && MergeNode(rev, s.kids[sIdx[i]], tNew.kids[tIdx[i]]).Ok? {
      var e := MergeNode(rev, s.kids[sIdx[i]], tNew.kids[tIdx[i]]).value;
      assert s.kids[sIdx[i]] < s;
      MergeNodeFrame(rev, s.kids[sIdx[i]], tNew.kids[tIdx[i]]);
      MergeKidsStep(rev, s, sIdx, tIdx, i, sNew, tNew);
      MergeKidsFrame(rev, s, sIdx, tIdx, i + 1, sNew.(kids := sNew.kids[sIdx[i] := e.source]), Graft(tNew, tIdx[i], e));
      MergeKidsFrameStep(rev, s, sIdx, tIdx, i, sNew, tNew);
    } else {
      MergeKidsFrameBase(rev, s, sIdx, tIdx, i, sNew, tNew);
    }
  }

  /** The cases of `MergeKidsFrame` without a successful pair at `i`: the walk is over, or it fails. */
  lemma MergeKidsFrameBase(rev: Revision, s: Node, sIdx: seq<nat>, tIdx: seq<nat>, i: nat, sNew: Node, tNew: Node)
    requires s.Element? && sNew.Element? && tNew.Element? && |sNew.kids| == |s.kids|
    requires WalkIndices(s.kids, sIdx) && i <= |sIdx|
    requires forall j :: i <= j < |tIdx| ==> tIdx[j] < |tNew.kids| && tNew.kids[tIdx[j]].Element?
    requires forall j, k :: 0 <= j < k < |tIdx| ==> tIdx[j] < tIdx[k]
    requires i <= |tIdx|
    requires !(i < |sIdx| && i < |tIdx| && MergeNode(rev, s.kids[sIdx[i]], tNew.kids[tIdx[i]]).Ok?)
    ensures MergeKids(rev, s, sIdx, tIdx, i, sNew, tNew).Ok? ==>
      && i == |sIdx| <= |tIdx|
      && KidsFrame(sIdx, tIdx, i, sNew, tNew, MergeKids(rev, s, sIdx, tIdx, i, sNew, tNew).value,
        WalkSiblings(rev, s, sIdx, tIdx, i, sNew, tNew))
  {
    if i == |sIdx| {
      assert sIdx[i..] == [] && tIdx[i..|sIdx|] == [];
    }
  }

  /** The inductive step of `MergeKidsFrame`, with the frame of the rest of the walk as hypothesis. */
  lemma MergeKidsFrameStep(rev: Revision, s: Node, sIdx: seq<nat>, tIdx: seq<nat>, i: nat, sNew: Node, tNew: Node)
    requires s.Element? && sNew.Element? && tNew.Element? && |sNew.kids| == |s.kids|
    requires WalkIndices(s.kids, sIdx) && i < |sIdx| && i < |tIdx|
    requires forall j :: i <= j < |tIdx| ==> tIdx[j] < |tNew.kids| && tNew.kids[tIdx[j]].Element?
    requires forall j, k :: 0 <= j < k < |tIdx| ==> tIdx[j] < tIdx[k]
    requires MergeNode(rev, s.kids[sIdx[i]], tNew.kids[tIdx[i]]).Ok?
    requires PairFrame(s.kids[sIdx[i]], tNew.kids[tIdx[i]], MergeNode(rev, s.kids[sIdx[i]], tNew.kids[tIdx[i]]).value)
    requires var e := MergeNode(rev, s.kids[sIdx[i]], tNew.kids[tIdx[i]]).value;
      var sNext := sNew.(kids := sNew.kids[sIdx[i] := e.source]);
      var tNext := Graft(tNew, tIdx[i], e);
      && (forall j :: i + 1 <= j < |tIdx| ==> tIdx[j] < |tNext.kids| && tNext.kids[tIdx[j]].Element?)
      && MergeKids(rev, s, sIdx, tIdx, i, sNew, tNew) == MergeKids(rev, s, sIdx, tIdx, i + 1, sNext, tNext)
      && WalkSiblings(rev, s, sIdx, tIdx, i, sNew, tNew) == e.siblings + WalkSiblings(rev, s, sIdx, tIdx, i + 1, sNext, tNext)
      && (MergeKids(rev, s, sIdx, tIdx, i + 1, sNext, tNext).Ok? ==>
        && |sIdx| <= |tIdx|
        && KidsFrame(sIdx, tIdx, i + 1, sNext, tNext, MergeKids(rev, s, sIdx, tIdx, i + 1, sNext, tNext).value,
          WalkSiblings(rev, s, sIdx, tIdx, i + 1, sNext, tNext)))
    ensures MergeKids(rev, s, sIdx, tIdx, i, sNew, tNew).Ok? ==>
      && |sIdx| <= |tIdx|
      && KidsFrame(sIdx, tIdx, i, sNew, tNew, MergeKids(rev, s, sIdx, tIdx, i, sNew, tNew).value,
        WalkSiblings(rev, s, sIdx, tIdx, i, sNew, tNew))
  {
    var e := MergeNode(rev, s.kids[sIdx[i]], tNew.kids[tIdx[i]]).value;
    var sNext := sNew.(kids := sNew.kids[sIdx[i] := e.source]);
    var tNext := Graft(tNew, tIdx[i], e);
    var rest := MergeKids(rev, s, sIdx, tIdx, i + 1, sNext, tNext);
    if rest.Ok? {
      KidsFrameStep(sIdx, tIdx, i, sNew, tNew, s.kids[sIdx[i]], e, rest.value,
        WalkSiblings(rev, s, sIdx, tIdx, i + 1, sNext, tNext));
    }
  }

  /** One successful pair of the walk: the rest of the walk starts from the grafted target. */
  lemma MergeKidsStep(rev: Revision, s: Node, sIdx: seq<nat>, tIdx: seq<nat>, i: nat, sNew: Node, tNew: Node)
    requires s.Element? && sNew.Element? && tNew.Element? && |sNew.kids| == |s.kids|
    requires WalkIndices(s.kids, sIdx) && i < |sIdx| && i < |tIdx|
    requires forall j :: i <= j < |tIdx| ==> tIdx[j] < |tNew.kids| && tNew.kids[tIdx[j]].Element?
    requires forall j, k :: 0 <= j < k < |tIdx| ==> tIdx[j] < tIdx[k]
    requires MergeNode(rev, s.kids[sIdx[i]], tNew.kids[tIdx[i]]).Ok?
    ensures var e := MergeNode(rev, s.kids[sIdx[i]], tNew.kids[tIdx[i]]).value;
      var sNext := sNew.(kids := sNew.kids[sIdx[i] := e.source]);
      var tNext := Graft(tNew, tIdx[i], e);
      && (forall j :: i + 1 <= j < |tIdx| ==> tIdx[j] < |tNext.kids| && tNext.kids[tIdx[j]].Element?)
      && MergeKids(rev, s, sIdx, tIdx, i, sNew, tNew) == MergeKids(rev, s, sIdx, tIdx, i + 1, sNext, tNext)
      && WalkSiblings(rev, s, sIdx, tIdx, i, sNew, tNew) == e.siblings + WalkSiblings(rev, s, sIdx, tIdx, i + 1, sNext, tNext)
  {
  }

  /**
   * What a walk from pair `i` appends to the target, pair by pair in walk
   * order: the siblings each merged pair adds after the target's children.
   */
  function WalkSiblings(rev: Revision, s: Node, sIdx: seq<nat>, tIdx: seq<nat>, i: nat, sNew: Node, tNew: Node)
    : seq<Node>
    requires s.Element? && sNew.Element? && tNew.Element? && |sNew.kids| == |s.kids|
    requires WalkIndices(s.kids, sIdx) && i <= |sIdx|
    requires forall j :: i <= j < |tIdx| ==> tIdx[j] < |tNew.kids| && tNew.kids[tIdx[j]].Element?
    requires forall j, k :: 0 <= j < k < |tIdx| ==> tIdx[j] < tIdx[k]
    decreases |sIdx| - i
  {
    if i == |sIdx| || i >= |tIdx| then []
    else match MergeNode(rev, s.kids[sIdx[i]], tNew.kids[tIdx[i]])
      case Fail => []
      case Ok(e) =>
        e.siblings + WalkSiblings(rev, s, sIdx, tIdx, i + 1, sNew.(kids := sNew.kids[sIdx[i] := e.source]), Graft(tNew, tIdx[i], e))
  }

  /**
   * The source and target children that a walk from pair `i` leaves as they
   * were, and what it appends after the target's children: `siblings`.
   */
  predicate KidsFrame(sIdx: seq<nat>, tIdx: seq<nat>, i: nat, sNew: Node, tNew: Node, r: (Node, Node), siblings: seq<Node>)
    requires i <= |sIdx| <= |tIdx|
  {
    && r.0.Element? && sNew.Element? && r.0.tag == sNew.tag && r.0.attrs == sNew.attrs && |r.0.kids| == |sNew.kids|
    && (forall k :: 0 <= k < |sNew.kids| && k !in sIdx[i..] ==> r.0.kids[k] == sNew.kids[k])
    && r.1.Element? && tNew.Element? && r.1.tag == tNew.tag && r.1.attrs == tNew.attrs && |r.1.kids| >= |tNew.kids|
    && (forall k :: 0 <= k < |tNew.kids| && k !in tIdx[i..|sIdx|] ==> r.1.kids[k] == tNew.kids[k])
    && r.1.kids[|tNew.kids|..] == siblings
    && (forall k :: |tNew.kids| <= k < |r.1.kids| ==> IsPromotedHeading(r.1.kids[k]))
  }

  /** The frame of pair `i` and the frame of the rest of the walk make the frame of the walk from `i`. */
  lemma KidsFrameStep(
    sIdx: seq<nat>, tIdx: seq<nat>, i: nat, sNew: Node, tNew: Node, sPair: Node, e: Effect, r: (Node, Node), rest: seq<Node>)
    requires i < |sIdx| <= |tIdx| && sNew.Element? && tNew.Element? && sIdx[i] < |sNew.kids|
    requires forall j :: i <= j < |tIdx| ==> tIdx[j] < |tNew.kids|
    requires PairFrame(sPair, tNew.kids[tIdx[i]], e)
    requires KidsFrame(sIdx, tIdx, i + 1, sNew.(kids := sNew.kids[sIdx[i] := e.source]), Graft(tNew, tIdx[i], e), r, rest)
    ensures KidsFrame(sIdx, tIdx, i, sNew, tNew, r, e.siblings + rest)
  {
    var s', t' := r.0, r.1;
    var tNext := Graft(tNew, tIdx[i], e);
    forall k | 0 <= k < |sNew.kids| && k !in sIdx[i..] ensures s'.kids[k] == sNew.kids[k] {
      assert sIdx[i..] == [sIdx[i]] + sIdx[i + 1..];
    }
    forall k | 0 <= k < |tNew.kids| && k !in tIdx[i..|sIdx|] ensures t'.kids[k] == tNew.kids[k] {
      assert tIdx[i..|sIdx|] == [tIdx[i]] + tIdx[i + 1..|sIdx|];
    }
    forall k | |tNew.kids| <= k < |t'.kids| ensures IsPromotedHeading(t'.kids[k]) {
      if k < |tNext.kids| {
        assert k !in tIdx[i + 1..|sIdx|];
        assert tNext.kids[k] == e.siblings[k - |tNew.kids|];
        assert e.siblings[k - |tNew.kids|] in e.siblings;
      }
    }
    forall k | |tNew.kids| <= k < |tNext.kids| ensures t'.kids[k] == e.siblings[k - |tNew.kids|] {
      assert k !in tIdx[i + 1..|sIdx|];
      assert tNext.kids[k] == e.siblings[k - |tNew.kids|];
    }
    assert t'.kids[|tNew.kids|..] == e.siblings + t'.kids[|tNext.kids|..];
  }
}
