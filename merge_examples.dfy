/**
 * Worked examples of the merger, proved about the model, and the
 * behaviour of the leaf policies on an element merged with itself.
 */
module MergeExamples {
  import opened Wrappers
  import opened JavaString
  import opened Dom
  import ContentPattern
  import opened MergePolicy
  import opened MergeProperties

  /** One child: its markup and its text are the child's own. */
  lemma OneKid(n: Node)
    ensures KidsHtml([n]) == OuterHtml(n) && KidsText([n]) == TextOf(n)
    ensures n.Element? ==> ElementIndices([n]) == [0]
  {
    assert [n][..0] == [];
  }

  /** `<p>Hola</p>` merged with `<p>Hello</p>`: a line break and the source text are appended. */
  lemma ParagraphAppendExample()
    ensures var s := Element("p", [], [Text("Hello")]);
      var t := Element("p", [], [Text("Hola")]);
      ParagraphMerge(s, t) == Ok(Effect(s, Element("p", [], [Text("Hola"), LineBreak, Html("Hello")]), []))
  {
    var s := Element("p", [], [Text("Hello")]);
    var t := Element("p", [], [Text("Hola")]);
    OneKid(Text("Hello"));
    OneKid(Text("Hola"));
    assert |InnerHtml(t)| != |InnerHtml(s)|;
    assert NodeName(t.kids[0]) == "#text";
    assert !EqualsIgnoreCase("img", "#text");
    assert Markup("Hello") == [Html("Hello")];
    assert t.kids + [LineBreak] + [Html("Hello")] == [Text("Hola"), LineBreak, Html("Hello")];
  }

  /** A line break serialises as `<br></br>`. */
  lemma LineBreakHtml()
    ensures OuterHtml(LineBreak) == "<br></br>"
  {
    assert AttrsHtml([]) == "" && KidsHtml([]) == "";
    var r := OuterHtml(LineBreak);
    assert r == "<" + "br" + "" + ">" + "" + "</" + "br" + ">";
    assert |r| == 9;
    assert r[0] == '<' && r[1] == 'b' && r[2] == 'r' && r[3] == '>' && r[4] == '<';
    assert r[5] == '/' && r[6] == 'b' && r[7] == 'r' && r[8] == '>';
  }

  /** The paragraph merged above serialises as `Hola<br></br>Hello`. */
  lemma ParagraphAppendHtml()
    ensures KidsHtml([Text("Hola"), LineBreak, Html("Hello")]) == "Hola" + "<br></br>" + "Hello"
  {
    assert [Text("Hola"), LineBreak, Html("Hello")] == [Text("Hola")] + [LineBreak] + [Html("Hello")];
    KidsHtmlAppend([Text("Hola")] + [LineBreak], [Html("Hello")]);
    KidsHtmlAppend([Text("Hola")], [LineBreak]);
    OneKid(Text("Hola"));
    OneKid(LineBreak);
    OneKid(Html("Hello"));
    LineBreakHtml();
  }

  /** Merging the merged paragraph with the same source appends the source text a second time. */
  lemma ParagraphMergeIsNotIdempotent()
    ensures var s := Element("p", [], [Text("Hello")]);
      var once := Element("p", [], [Text("Hola"), LineBreak, Html("Hello")]);
      ParagraphMerge(s, once)
        == Ok(Effect(s, Element("p", [], [Text("Hola"), LineBreak, Html("Hello"), LineBreak, Html("Hello")]), []))
  {
    var s := Element("p", [], [Text("Hello")]);
    var once := Element("p", [], [Text("Hola"), LineBreak, Html("Hello")]);
    ParagraphAppendHtml();
    OneKid(Text("Hello"));
    assert |InnerHtml(once)| != |InnerHtml(s)|;
    assert NodeName(once.kids[0]) == "#text";
    assert !EqualsIgnoreCase("img", "#text");
    assert Markup("Hello") == [Html("Hello")];
    assert once.kids + [LineBreak] + [Html("Hello")]
        == [Text("Hola"), LineBreak, Html("Hello"), LineBreak, Html("Hello")];
  }

  /** `<title>Título</title>` merged with `<title>Title</title>`: ` - ` and the source text are appended. */
  lemma TextConcatenationExample()
    ensures TextMerge(Element("title", [], [Text("Title")]), Element("title", [], [Text("Título")]))
         == Element("title", [], [Text("Título"), Text(" - "), Html("Title")])
  {
    TitleOfTexts("Title", "Título");
  }

  /** Two titles of one text node each, the target's starting with a visible character. */
  lemma TitleOfTexts(source: string, target: string)
    requires source != "" && target != "" && !IsTrimmed(target[0])
    ensures TextMerge(Element("title", [], [Text(source)]), Element("title", [], [Text(target)]))
         == Element("title", [], [Text(target), Text(" - "), Html(source)])
  {
    OneKid(Text(target));
    OneKid(Text(source));
    VisibleIffTrimmed(target);
  }

  /** A title whose text is only white space is left as it is. */
  lemma EmptyTextExample()
    ensures var t := Element("title", [], [Text("  ")]);
      TextMerge(Element("title", [], [Text("Title")]), t) == t
  {
    OneKid(Text("  "));
  }

  /** `<h1 id="x">Título</h1>` merged with `<h1 id="x">Title</h1>`: `<h3 id="x">Title</h3>` is to follow it. */
  lemma HeadingLeafExample()
    ensures var sh := Element("h1", [Attribute("id", "x")], [Text("Title")]);
      var th := Element("h1", [Attribute("id", "x")], [Text("Título")]);
      MergeNode(Latest, sh, th) == Ok(Effect(sh, th, [Element("h3", [Attribute("id", "x")], [Html("Title")])]))
  {
    var sh := Element("h1", [Attribute("id", "x")], [Text("Title")]);
    var th := Element("h1", [Attribute("id", "x")], [Text("Título")]);
    assert !NeedMergeChild(Latest, "h1");
    assert HeadingLevel("h1") == 1;
    assert Dispatch(Latest, th) == Heading(1);
    assert DecimalString(3) == "3";
    assert CopyAttrs(sh.attrs) == sh.attrs by {
      assert sh.attrs[..0] == [];
    }
    OneKid(Text("Title"));
    assert Markup("Title") == [Html("Title")];
    assert PromotedTag(1) == "h3";
    var h := Element("h3", [Attribute("id", "x")], [Html("Title")]);
    assert NewHeading(sh, 1) == h;
    assert ApplyLeaf(sh, th, Heading(1)) == Ok(Effect(sh, th, [h]));
  }

  /**
   * The same pair inside a `div`: the walker descends, and the `div` gains
   * `<h3 id="x">Title</h3>` after its children.
   */
  lemma HeadingPromotionExample()
    ensures var s := Element("div", [], [Element("h1", [Attribute("id", "x")], [Text("Title")])]);
      var t := Element("div", [], [Element("h1", [Attribute("id", "x")], [Text("Título")])]);
      MergeNode(Latest, s, t) == Ok(Effect(s, Element("div", [], t.kids + [Element("h3", [Attribute("id", "x")], [Html("Title")])]), []))
  {
    var sh := Element("h1", [Attribute("id", "x")], [Text("Title")]);
    var th := Element("h1", [Attribute("id", "x")], [Text("Título")]);
    var s := Element("div", [], [sh]);
    var t := Element("div", [], [th]);
    OneKid(sh);
    OneKid(th);
    assert Dispatch(Latest, t) == Descend;
    HeadingLeafExample();
    SinglePairWalk(Latest, s, t, Effect(sh, th, [Element("h3", [Attribute("id", "x")], [Html("Title")])]));
  }

  /** The walk over one pair of element children whose merge changes neither child: the siblings are appended. */
  lemma SinglePairWalk(rev: Revision, s: Node, t: Node, e: Effect)
    requires s.Element? && t.Element? && |s.kids| == 1 && |t.kids| == 1 && s.kids[0].Element? && t.kids[0].Element?
    requires MergeNode(rev, s.kids[0], t.kids[0]) == Ok(e) && e.source == s.kids[0] && e.target == t.kids[0]
    ensures MergeKids(rev, s, [0], [0], 0, s, t) == Ok((s, t.(kids := t.kids + e.siblings)))
  {
    assert s.(kids := s.kids[0 := e.source]) == s;
    var t' := Graft(t, 0, e);
    assert t' == t.(kids := t.kids + e.siblings);
    assert MergeKids(rev, s, [0], [0], 1, s, t') == Ok((s, t'));
  }

  /** `group(2)` of `2.1. Setup` is ` Setup`: both numbering groups are consumed. */
  lemma LabelExample()
    ensures ContentPattern.Label("2.1. Setup") == Some(" Setup")
  {
    var text := "2.1. Setup";
    assert text[0] == '2' && text[1] == '.' && text[2] == '1' && text[3] == '.' && text[4] == ' ';
    assert ContentPattern.DigitRunEnd(text, 1) == 1;
    assert ContentPattern.DigitRunEnd(text, 0) == 1;
    assert ContentPattern.DigitRunEnd(text, 3) == 3;
    assert ContentPattern.DigitRunEnd(text, 2) == 3;
    assert ContentPattern.GroupAt(text, 0) == Some(2);
    assert ContentPattern.GroupAt(text, 2) == Some(4);
    assert ContentPattern.GroupAt(text, 4) == None;
    assert ContentPattern.ChainEnd(text, 4) == 4;
    assert ContentPattern.ChainEnd(text, 2) == 4;
    assert ContentPattern.FindFrom(text, 0) == Some(0);
    assert forall i :: 4 <= i < |text| ==> !ContentPattern.IsLineTerminator(text[i]);
    assert ContentPattern.LineEnd(text, 4) == |text|;
    assert ContentPattern.Find(text) == Some(ContentPattern.Match(0, 4, |text|));
    assert text[4..|text|] == " Setup";
  }

  /** The markup of an element whose only child is an element starts with `<`. */
  lemma MarkupOfElementChild(t: Node)
    requires t.Element? && |t.kids| == 1 && t.kids[0].Element?
    ensures |InnerHtml(t)| > 0 && InnerHtml(t)[0] == '<'
  {
    OneKid(t.kids[0]);
  }

  /** Source markup starting with a digit differs from target markup starting with `<`. */
  lemma DifferentMarkup(s: Node, t: Node)
    requires s.Element? && s.kids == [Text("2.1. Setup")]
    requires t.Element? && |t.kids| == 1 && t.kids[0].Element?
    ensures !EqualsIgnoreCase(InnerHtml(t), InnerHtml(s))
  {
    MarkupOfElementChild(t);
    OneKid(s.kids[0]);
    assert InnerHtml(s)[0] == '2';
    assert !CharEqualsIgnoreCase('<', '2');
  }

  /** The step of `mergeContents` that appends to the first element child. */
  lemma ContentsAppendStep(s: Node, t: Node, heading: string, k: nat)
    requires t.Element? && !EqualsIgnoreCase(InnerHtml(t), InnerHtml(s))
    requires ContentPattern.Label(TextOf(s)) == Some(heading) && FirstElementIndex(t) == Some(k)
    ensures k < |t.kids| && ContentsMerge(s, t) == Ok(t.(kids := t.kids[k := AppendKid(t.kids[k], Text(" -" + heading))]))
  {
  }

  /**
   * A `span` of class `section` whose source text is `2.1. Setup`: its first
   * element child gains ` -` followed by `group(2)`, that is ` - Setup`.
   */
  lemma ContentsExample(s: Node, t: Node)
    requires s == Element("span", [Attribute("class", "section")], [Text("2.1. Setup")])
    requires t == Element("span", [Attribute("class", "section")], [Element("a", [], [Text("2.1. Inicio")])])
    ensures ContentsMerge(s, t) == Ok(t.(kids := t.kids[0 := AppendKid(t.kids[0], Text(" -" + " Setup"))]))
  {
    ContentsExampleSides(s, t);
    ContentsAppendStep(s, t, " Setup", 0);
  }

  /** What `mergeContents` tests on the pair of `ContentsExample`. */
  lemma ContentsExampleSides(s: Node, t: Node)
    requires s == Element("span", [Attribute("class", "section")], [Text("2.1. Setup")])
    requires t == Element("span", [Attribute("class", "section")], [Element("a", [], [Text("2.1. Inicio")])])
    ensures !EqualsIgnoreCase(InnerHtml(t), InnerHtml(s))
    ensures ContentPattern.Label(TextOf(s)) == Some(" Setup")
    ensures FirstElementIndex(t) == Some(0)
  {
    DifferentMarkup(s, t);
    OneKid(s.kids[0]);
    LabelExample();
    OneKid(t.kids[0]);
  }

  // ------------------------------------------------------------------ identity

  /**
   * An element merged with an identical copy of itself: the paragraph and
   * contents policies leave it unchanged, but the text policy still appends
   * when the element has visible text, since it compares nothing.
   */
  lemma MergeWithItself(t: Node)
    requires t.Element?
    ensures ParagraphMerge(t, t) == Ok(Effect(t, t, []))
    ensures ParagraphMergeLegacy(t, t) == t
    ensures ContentsMerge(t, t) == Ok(t)
    ensures TextMerge(t, t) != t <==> HasVisibleChar(TextOf(t))
  {
    EqualsIgnoreCaseIsEquivalence(InnerHtml(t), InnerHtml(t), InnerHtml(t));
    EqualsIgnoreCaseIsEquivalence(TextOf(t), TextOf(t), TextOf(t));
    TextMergeAppends(t, t);
  }
}
