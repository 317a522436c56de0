/**
 * The part of the jsoup document model that the merger uses: element trees
 * with ordered child nodes and ordered attributes, the element-only child list
 * (`children()`, `child(0)`), `childNode(0).nodeName()`, `attr`, `html()`,
 * `text()`, `select("b").get(0)`, and a document object whose tree is changed
 * in place by `append`, `appendText`, `appendElement` and `attr(key, value)`.
 *
 * Elements are addressed by paths of child-node indices from the document
 * root. Every mutation the merger performs appends at the end of a child list
 * or sets an attribute, so a path taken before a mutation still leads to the
 * same element afterwards.
 */
module Dom {
  import opened Wrappers
  import opened JavaString

  datatype Attribute = Attribute(key: string, value: string)

  /**
   * A node of a parsed document. `Html` is markup handed to `append(String)`
   * (the inner HTML of a source element); it is kept as an opaque string
   * rather than re-parsed.
   */
  datatype Node =
    | Element(tag: string, attrs: seq<Attribute>, kids: seq<Node>)
    | Text(text: string)
    | Html(html: string)

  type Path = seq<nat>

  const TextNodeName: string := "#text"
  const HtmlNodeName: string := "#html"

  /** `Node.nodeName()`: the tag of an element, a fixed `#` name otherwise. */
  function NodeName(n: Node): string {
    match n
    case Element(tag, _, _) => tag
    case Text(_) => TextNodeName
    case Html(_) => HtmlNodeName
  }

  // ---------------------------------------------------------------- attributes

  predicate HasKey(attrs: seq<Attribute>, key: string) {
    exists i :: 0 <= i < |attrs| && attrs[i].key == key
  }

  predicate DistinctKeys(attrs: seq<Attribute>) {
    forall i, j :: 0 <= i < j < |attrs| ==> attrs[i].key != attrs[j].key
  }

  /** `attr(key)`: the value stored under `key`, or the empty string when there is none. */
  function AttrValue(attrs: seq<Attribute>, key: string): (v: string)
    ensures !HasKey(attrs, key) ==> v == ""
    ensures HasKey(attrs, key) ==> exists i :: 0 <= i < |attrs| && attrs[i] == Attribute(key, v)
  {
    if |attrs| == 0 then ""
    else if attrs[0].key == key then attrs[0].value
    else
      var v := AttrValue(attrs[1..], key);
      assert HasKey(attrs[1..], key) ==> exists i :: 0 <= i < |attrs| && attrs[i] == Attribute(key, v) by {
        if HasKey(attrs[1..], key) {
          var i :| 0 <= i < |attrs[1..]| && attrs[1..][i] == Attribute(key, v);
          assert attrs[i + 1] == Attribute(key, v);
        }
      }
      v
  }

  /**
   * `attr(key, value)`: overwrites the value of an existing `key` in place,
   * otherwise adds the attribute at the end.
   */
  function PutAttr(attrs: seq<Attribute>, key: string, value: string): seq<Attribute> {
    if |attrs| == 0 then [Attribute(key, value)]
    else if attrs[0].key == key then [Attribute(key, value)] + attrs[1..]
    else [attrs[0]] + PutAttr(attrs[1..], key, value)
  }

  /** After `attr(key, value)`, `attr(key)` reads `value` and every other key reads what it read before. */
  lemma {:induction false} PutAttrReads(attrs: seq<Attribute>, key: string, value: string)
    ensures AttrValue(PutAttr(attrs, key, value), key) == value
    ensures forall k :: k != key ==> AttrValue(PutAttr(attrs, key, value), k) == AttrValue(attrs, k)
  {
    if |attrs| > 0 && attrs[0].key != key {
      PutAttrReads(attrs[1..], key, value);
      assert PutAttr(attrs, key, value)[1..] == PutAttr(attrs[1..], key, value);
    }
  }

  /**
   * A new key goes at the end. An existing key keeps its place: every index
   * holds the same key as before, and every attribute under another key is
   * unchanged.
   */
  lemma {:induction false} PutAttrPlacement(attrs: seq<Attribute>, key: string, value: string)
    ensures !HasKey(attrs, key) ==> PutAttr(attrs, key, value) == attrs + [Attribute(key, value)]
    ensures HasKey(attrs, key) ==> |PutAttr(attrs, key, value)| == |attrs|
    ensures |PutAttr(attrs, key, value)| >= |attrs|
    ensures HasKey(attrs, key) ==> forall i :: 0 <= i < |attrs| ==> PutAttr(attrs, key, value)[i].key == attrs[i].key
    ensures forall i :: 0 <= i < |attrs| && attrs[i].key != key ==> PutAttr(attrs, key, value)[i] == attrs[i]
  {
    if |attrs| > 0 && attrs[0].key != key {
      PutAttrPlacement(attrs[1..], key, value);
      HasKeyTail(attrs, key);
      PlacedStep(attrs, key, value, PutAttr(attrs[1..], key, value));
    }
  }

  /** `r` is where `PutAttr(attrs, key, value)` puts the attributes, as `PutAttrPlacement` states it. */
  predicate Placed(attrs: seq<Attribute>, key: string, value: string, r: seq<Attribute>) {
    && (!HasKey(attrs, key) ==> r == attrs + [Attribute(key, value)])
    && |r| >= |attrs|
    && (HasKey(attrs, key) ==> |r| == |attrs| && forall i :: 0 <= i < |attrs| ==> r[i].key == attrs[i].key)
    && (forall i :: 0 <= i < |attrs| && attrs[i].key != key ==> r[i] == attrs[i])
  }

  lemma HasKeyTail(attrs: seq<Attribute>, key: string)
    requires |attrs| > 0 && attrs[0].key != key
    ensures HasKey(attrs, key) <==> HasKey(attrs[1..], key)
  {
    if HasKey(attrs, key) {
      var i :| 0 <= i < |attrs| && attrs[i].key == key;
      assert attrs[1..][i - 1].key == key;
    }
    if HasKey(attrs[1..], key) {
      var i :| 0 <= i < |attrs[1..]| && attrs[1..][i].key == key;
      assert attrs[i + 1].key == key;
    }
  }

  /** Keeping the first attribute in front of a placement into the rest is a placement into the whole. */
  lemma PlacedStep(attrs: seq<Attribute>, key: string, value: string, rest: seq<Attribute>)
    requires |attrs| > 0 && attrs[0].key != key
    requires HasKey(attrs, key) <==> HasKey(attrs[1..], key)
    requires Placed(attrs[1..], key, value, rest)
    ensures Placed(attrs, key, value, [attrs[0]] + rest)
  {
    var r := [attrs[0]] + rest;
    if !HasKey(attrs, key) {
      assert attrs == [attrs[0]] + attrs[1..];
    }
    forall i | 0 < i < |attrs| ensures r[i] == rest[i - 1] && attrs[i] == attrs[1..][i - 1] {
    }
  }

  /** The attribute list built by calling `attr(key, value)` for each attribute in turn, on an element with none. */
  function CopyAttrs(attrs: seq<Attribute>): seq<Attribute> {
    if |attrs| == 0 then []
    else
      var last := attrs[|attrs| - 1];
      PutAttr(CopyAttrs(attrs[..|attrs| - 1]), last.key, last.value)
  }

  /** Copying attributes one by one onto an empty list reproduces them exactly when their keys are distinct. */
  lemma {:induction false} CopyAttrsIdentity(attrs: seq<Attribute>)
    requires DistinctKeys(attrs)
    ensures CopyAttrs(attrs) == attrs
  {
    if |attrs| > 0 {
      var init := attrs[..|attrs| - 1];
      var last := attrs[|attrs| - 1];
      CopyAttrsIdentity(init);
      assert !HasKey(init, last.key);
      PutAttrPlacement(init, last.key, last.value);
      assert init + [last] == attrs;
    }
  }

  // ------------------------------------------------------- html() and text()

  /** `outerHtml()`, without pretty-printing, entity escaping or void-element rules. */
  function OuterHtml(n: Node): string
    decreases n
  {
    match n
    case Element(tag, attrs, kids) =>
      "<" + tag + AttrsHtml(attrs) + ">" + KidsHtml(kids) + "</" + tag + ">"
    case Text(s) => s
    case Html(h) => h
  }

  function AttrsHtml(attrs: seq<Attribute>): string {
    if |attrs| == 0 then ""
    else AttrsHtml(attrs[..|attrs| - 1]) + " " + attrs[|attrs| - 1].key + "=\"" + attrs[|attrs| - 1].value + "\""
  }

  function KidsHtml(kids: seq<Node>): string
    decreases kids
  {
    if |kids| == 0 then "" else KidsHtml(kids[..|kids| - 1]) + OuterHtml(kids[|kids| - 1])
  }

  /** `html()`: the concatenated markup of the element's child nodes. */
  function InnerHtml(n: Node): string {
    if n.Element? then KidsHtml(n.kids) else OuterHtml(n)
  }

  /** What `append(html)` adds: nothing for empty markup, otherwise the markup as one opaque node. */
  function Markup(h: string): (r: seq<Node>)
    ensures KidsHtml(r) == h
  {
    if h == "" then [] else [Html(h)]
  }

  /** Appending child nodes appends their markup to the inner HTML. */
  lemma {:induction false} KidsHtmlAppend(kids: seq<Node>, more: seq<Node>)
    ensures KidsHtml(kids + more) == KidsHtml(kids) + KidsHtml(more)
    decreases |more|
  {
    if |more| > 0 {
      var init := more[..|more| - 1];
      assert (kids + more)[..|kids + more| - 1] == kids + init;
      assert (kids + more)[|kids + more| - 1] == more[|more| - 1];
      KidsHtmlAppend(kids, init);
    } else {
      assert kids + more == kids;
    }
  }

  /** Appending a separator and `append(h)`: the old children stay first, and the markup grows by the separator's and `h`. */
  lemma AppendMarkupHtml(kids: seq<Node>, sep: seq<Node>, h: string)
    ensures |kids + sep + Markup(h)| >= |kids| && (kids + sep + Markup(h))[..|kids|] == kids
    ensures KidsHtml(kids + sep + Markup(h)) == KidsHtml(kids) + KidsHtml(sep) + h
  {
    assert kids + sep + Markup(h) == kids + (sep + Markup(h));
    KidsHtmlAppend(kids, sep + Markup(h));
    KidsHtmlAppend(sep, Markup(h));
  }

  /** One child node: the markup is the child's own. */
  lemma SingleKidHtml(n: Node)
    ensures KidsHtml([n]) == OuterHtml(n)
  {
    assert [n][..0] == [];
  }

  /** The characters of markup outside `<...>` tags. */
  function StripTags(h: string, inTag: bool): string {
    if |h| == 0 then ""
    else if inTag then StripTags(h[1..], h[0] != '>')
    else if h[0] == '<' then StripTags(h[1..], true)
    else [h[0]] + StripTags(h[1..], false)
  }

  /** `text()`: the concatenated text of all descendant text nodes, without whitespace normalisation. */
  function TextOf(n: Node): string
    decreases n
  {
    match n
    case Element(_, _, kids) => KidsText(kids)
    case Text(s) => s
    case Html(h) => StripTags(h, false)
  }

  function KidsText(kids: seq<Node>): string
    decreases kids
  {
    if |kids| == 0 then "" else KidsText(kids[..|kids| - 1]) + TextOf(kids[|kids| - 1])
  }

  // ------------------------------------------------------ element-only children

  /**
   * `children()`: the indices, among all child nodes, of the element children,
   * in document order.
   */
  function ElementIndices(kids: seq<Node>): (r: seq<nat>)
    ensures forall j :: 0 <= j < |r| ==> r[j] < |kids| && kids[r[j]].Element?
    ensures forall j, k :: 0 <= j < k < |r| ==> r[j] < r[k]
    ensures forall i :: 0 <= i < |kids| && kids[i].Element? ==> i in r
  {
    if |kids| == 0 then []
    else
      var r := ElementIndices(kids[..|kids| - 1]);
      if kids[|kids| - 1].Element? then r + [|kids| - 1] else r
  }

  /** `children().size() > 0`. */
  predicate HasElementChild(n: Node) {
    n.Element? && |ElementIndices(n.kids)| > 0
  }

  /** `child(0)`: the index of the first element child, or `None` where jsoup throws. */
  function FirstElementIndex(n: Node): (r: Option<nat>)
    requires n.Element?
    ensures r.Some? <==> exists i :: 0 <= i < |n.kids| && n.kids[i].Element?
    ensures r.Some? ==> r.value < |n.kids| && n.kids[r.value].Element?
    ensures r.Some? ==> forall i :: 0 <= i < r.value ==> !n.kids[i].Element?
  {
    var idx := ElementIndices(n.kids);
    if |idx| == 0 then None
    else
      Some(idx[0])
  }

  // ---------------------------------------------------------------------- paths

  predicate ValidPath(n: Node, p: Path)
    decreases p
  {
    |p| == 0 || (n.Element? && p[0] < |n.kids| && ValidPath(n.kids[p[0]], p[1..]))
  }

  /** The node that `p` leads to. */
  function At(n: Node, p: Path): Node
    requires ValidPath(n, p)
    decreases p
  {
    if |p| == 0 then n else At(n.kids[p[0]], p[1..])
  }

  /** `n` with the node at `p` replaced by `x`; everything off the path is kept. */
  function Replace(n: Node, p: Path, x: Node): (r: Node)
    requires ValidPath(n, p)
    ensures ValidPath(r, p) && At(r, p) == x
    ensures |p| > 0 ==> r.Element? && r.tag == n.tag && r.attrs == n.attrs && |r.kids| == |n.kids|
    ensures |p| > 0 ==> forall i :: 0 <= i < |n.kids| && i != p[0] ==> r.kids[i] == n.kids[i]
    decreases p
  {
    if |p| == 0 then x
    else n.(kids := n.kids[p[0] := Replace(n.kids[p[0]], p[1..], x)])
  }

  function AppendKid(e: Node, child: Node): (r: Node)
    requires e.Element?
    ensures r.Element? && r.tag == e.tag && r.attrs == e.attrs && r.kids == e.kids + [child]
  {
    e.(kids := e.kids + [child])
  }

  /** A path into a subtree, prefixed by the path to that subtree, is a path into the whole tree. */
  lemma {:induction false} AtConcat(n: Node, p: Path, q: Path)
    requires ValidPath(n, p)
    ensures ValidPath(n, p + q) <==> ValidPath(At(n, p), q)
    ensures ValidPath(n, p + q) ==> At(n, p + q) == At(At(n, p), q)
    decreases p
  {
    if |p| > 0 {
      assert (p + q)[1..] == p[1..] + q;
      AtConcat(n.kids[p[0]], p[1..], q);
    } else {
      assert p + q == q;
    }
  }

  /** Replacing deep inside a subtree is replacing that subtree by its updated copy. */
  lemma {:induction false} ReplaceConcat(n: Node, p: Path, q: Path, x: Node)
    requires ValidPath(n, p) && ValidPath(At(n, p), q)
    ensures ValidPath(n, p + q)
    ensures Replace(n, p + q, x) == Replace(n, p, Replace(At(n, p), q, x))
    decreases p
  {
    AtConcat(n, p, q);
    if |p| > 0 {
      assert (p + q)[1..] == p[1..] + q;
      assert (p + q)[0] == p[0];
      ReplaceConcat(n.kids[p[0]], p[1..], q, x);
    } else {
      assert p + q == q;
    }
  }

  /** Replacing the child `k` of the node at `p` is replacing the node at `p` by a copy with that child changed. */
  lemma ReplaceChild(n: Node, p: Path, k: nat, x: Node)
    requires ValidPath(n, p) && At(n, p).Element? && k < |At(n, p).kids|
    ensures ValidPath(n, p + [k]) && At(n, p + [k]) == At(n, p).kids[k]
    ensures Replace(n, p + [k], x) == Replace(n, p, At(n, p).(kids := At(n, p).kids[k := x]))
  {
    var e := At(n, p);
    assert ValidPath(e, [k]) by {
      assert [k][1..] == [];
    }
    AtConcat(n, p, [k]);
    ReplaceConcat(n, p, [k], x);
    assert [k][1..] == [];
  }

  /** The path to the parent of the node at a non-empty path `p`. */
  function Parent(p: Path): Path
    requires |p| > 0
  {
    p[..|p| - 1]
  }

  /** The node at a non-empty path is a child of the element at its parent path. */
  lemma ParentPath(n: Node, p: Path)
    requires ValidPath(n, p) && |p| > 0
    ensures ValidPath(n, Parent(p)) && At(n, Parent(p)).Element?
    ensures p[|p| - 1] < |At(n, Parent(p)).kids| && At(n, p) == At(n, Parent(p)).kids[p[|p| - 1]]
    ensures p == Parent(p) + [p[|p| - 1]]
  {
    var q := Parent(p);
    assert p == q + [p[|p| - 1]];
    ValidPrefix(n, q, [p[|p| - 1]]);
    ReplaceChildAt(n, q, p[|p| - 1]);
  }

  lemma {:induction false} ValidPrefix(n: Node, p: Path, q: Path)
    requires ValidPath(n, p + q)
    ensures ValidPath(n, p)
    decreases p
  {
    if |p| > 0 {
      assert (p + q)[1..] == p[1..] + q;
      ValidPrefix(n.kids[p[0]], p[1..], q);
    }
  }

  lemma ReplaceChildAt(n: Node, p: Path, k: nat)
    requires ValidPath(n, p) && ValidPath(n, p + [k])
    ensures At(n, p).Element? && k < |At(n, p).kids| && At(n, p + [k]) == At(n, p).kids[k]
  {
    AtConcat(n, p, [k]);
  }

  /** Replacing a child of a node that was just replaced is replacing that node by a copy with the child changed. */
  lemma ReplaceInReplaced(n: Node, p: Path, x: Node, k: nat, y: Node)
    requires ValidPath(n, p) && x.Element? && k < |x.kids|
    ensures ValidPath(Replace(n, p, x), p + [k])
    ensures Replace(Replace(n, p, x), p + [k], y) == Replace(n, p, x.(kids := x.kids[k := y]))
  {
    var r := Replace(n, p, x);
    ReplaceChild(r, p, k, y);
    ReplaceTwice(n, p, x, x.(kids := x.kids[k := y]));
  }

  /** Replacing the last child of a node that was just replaced by a copy with one more child. */
  lemma ReplaceLastChild(n: Node, p: Path, parent: Node, x: Node, y: Node)
    requires ValidPath(n, p) && parent.Element?
    ensures ValidPath(Replace(n, p, AppendKid(parent, x)), p + [|parent.kids|])
    ensures Replace(Replace(n, p, AppendKid(parent, x)), p + [|parent.kids|], y) == Replace(n, p, AppendKid(parent, y))
    ensures ValidPath(Replace(n, p, AppendKid(parent, y)), p + [|parent.kids|])
    ensures At(Replace(n, p, AppendKid(parent, y)), p + [|parent.kids|]) == y
  {
    var k := |parent.kids|;
    ReplaceInReplaced(n, p, AppendKid(parent, x), k, y);
    assert AppendKid(parent, x).kids[k := y] == parent.kids + [y];
    ReplaceChild(Replace(n, p, AppendKid(parent, y)), p, k, y);
  }

  /** Putting back the node found at a path changes nothing. */
  lemma {:induction false} ReplaceAt(n: Node, p: Path)
    requires ValidPath(n, p)
    ensures Replace(n, p, At(n, p)) == n
    decreases p
  {
    if |p| > 0 {
      ReplaceAt(n.kids[p[0]], p[1..]);
    }
  }

  /** A second replacement at the same path overrides the first. */
  lemma {:induction false} ReplaceTwice(n: Node, p: Path, x: Node, y: Node)
    requires ValidPath(n, p)
    ensures Replace(Replace(n, p, x), p, y) == Replace(n, p, y)
    decreases p
  {
    if |p| > 0 {
      ReplaceTwice(n.kids[p[0]], p[1..], x, y);
    }
  }

  // ------------------------------------------------------------ select("b")

  /**
   * `select(name).get(0)`: the path to the first element, in document order
   * and starting with `n` itself, whose tag is `name` ignoring case; `None`
   * where jsoup's `get(0)` throws.
   */
  function SelectFirst(n: Node, name: string): (r: Option<Path>)
    ensures r.Some? ==> ValidPath(n, r.value) && At(n, r.value).Element?
    ensures r.Some? ==> EqualsIgnoreCase(At(n, r.value).tag, name)
    decreases n, 1, 0
  {
    if !n.Element? then None
    else if EqualsIgnoreCase(n.tag, name) then Some([])
    else SelectFirstAmong(n, 0, name)
  }

  function SelectFirstAmong(e: Node, i: nat, name: string): (r: Option<Path>)
    requires e.Element? && i <= |e.kids|
    ensures r.Some? ==> ValidPath(e, r.value) && At(e, r.value).Element?
    ensures r.Some? ==> EqualsIgnoreCase(At(e, r.value).tag, name)
    decreases e, 0, |e.kids| - i
  {
    if i == |e.kids| then None
    else match SelectFirst(e.kids[i], name)
      case Some(q) =>
        assert ([i] + q)[1..] == q;
        Some([i] + q)
      case None => SelectFirstAmong(e, i + 1, name)
  }

  /** The path `p` leads to an element of `n` whose tag is `name` ignoring case. */
  predicate NamedAt(n: Node, p: Path, name: string) {
    ValidPath(n, p) && At(n, p).Element? && EqualsIgnoreCase(At(n, p).tag, name)
  }

  /** Some element at or below `n` has the tag `name`, ignoring case. */
  ghost predicate HasElementNamed(n: Node, name: string) {
    exists p :: NamedAt(n, p, name)
  }

  /**
   * `p` comes strictly before `q` in document order: `p` is a proper prefix
   * of `q`, or `p` turns to an earlier child where the two paths part.
   */
  predicate PreorderBefore(p: Path, q: Path)
    decreases |p|
  {
    |q| > 0 && (|p| == 0 || p[0] < q[0] || (p[0] == q[0] && PreorderBefore(p[1..], q[1..])))
  }

  /** A path below an element names a node of the child it starts with. */
  lemma NamedAtChild(e: Node, p: Path, name: string)
    requires e.Element? && |p| > 0
    ensures NamedAt(e, p, name) <==> p[0] < |e.kids| && NamedAt(e.kids[p[0]], p[1..], name)
  {
  }

  /**
   * `SelectFirst` fails only when no element of the tree has the tag, and
   * no element before the one it finds, in document order, has the tag.
   */
  lemma {:induction false} SelectFirstIsFirst(n: Node, name: string)
    ensures SelectFirst(n, name).None? ==> forall p :: !NamedAt(n, p, name)
    ensures SelectFirst(n, name).Some? ==>
      forall p :: PreorderBefore(p, SelectFirst(n, name).value) ==> !NamedAt(n, p, name)
    decreases n, 1, 0
  {
    if n.Element? && !EqualsIgnoreCase(n.tag, name) {
      SelectFirstAmongIsFirst(n, 0, name);
    }
  }

  /** `SelectFirstAmong(e, i, name)` is `SelectFirst` over the children from `i` on. */
  lemma {:induction false} SelectFirstAmongIsFirst(e: Node, i: nat, name: string)
    requires e.Element? && i <= |e.kids|
    ensures SelectFirstAmong(e, i, name).None? ==>
      forall p :: |p| > 0 && p[0] >= i ==> !NamedAt(e, p, name)
    ensures SelectFirstAmong(e, i, name).Some? ==>
      |SelectFirstAmong(e, i, name).value| > 0 && SelectFirstAmong(e, i, name).value[0] >= i
    ensures SelectFirstAmong(e, i, name).Some? ==>
      forall p :: |p| > 0 && p[0] >= i && PreorderBefore(p, SelectFirstAmong(e, i, name).value) ==> !NamedAt(e, p, name)
    decreases e, 0, |e.kids| - i
  {
    if i == |e.kids| {
      forall p: Path | |p| > 0 && p[0] >= i ensures !NamedAt(e, p, name) {
        NamedAtChild(e, p, name);
      }
    } else {
      var kid := e.kids[i];
      SelectFirstIsFirst(kid, name);
      match SelectFirst(kid, name)
      case Some(q) =>
        assert SelectFirstAmong(e, i, name) == Some([i] + q);
        assert ([i] + q)[1..] == q;
        forall p: Path | |p| > 0 && p[0] >= i && PreorderBefore(p, [i] + q) ensures !NamedAt(e, p, name) {
          NamedAtChild(e, p, name);
        }
      case None =>
        SelectFirstAmongIsFirst(e, i + 1, name);
        forall p: Path | |p| > 0 && p[0] == i ensures !NamedAt(e, p, name) {
          NamedAtChild(e, p, name);
        }
    }
  }

  // ------------------------------------------------------------------ documents

  /** A parsed document whose tree the merger changes in place. */
  class Document {
    var root: Node

    constructor (root: Node)
      ensures this.root == root
    {
      this.root := root;
    }

    /** `append(..)` / `appendText(..)` on the element at `p`: a new last child node. */
    method AppendChild(p: Path, child: Node)
      requires ValidPath(root, p) && At(root, p).Element?
      modifies this
      ensures root == Replace(old(root), p, AppendKid(At(old(root), p), child))
    {
      root := Replace(root, p, AppendKid(At(root, p), child));
    }

    /** `appendElement(tag)` on the element at `p`: a new, empty last child element, whose path is returned. */
    method AppendElement(p: Path, tag: string) returns (q: Path)
      requires ValidPath(root, p) && At(root, p).Element?
      modifies this
      ensures root == Replace(old(root), p, AppendKid(At(old(root), p), Element(tag, [], [])))
      ensures q == p + [|At(old(root), p).kids|]
      ensures ValidPath(root, q) && At(root, q) == Element(tag, [], [])
    {
      var e := At(root, p);
      root := Replace(root, p, AppendKid(e, Element(tag, [], [])));
      q := p + [|e.kids|];
      ReplaceChild(root, p, |e.kids|, Element(tag, [], []));
    }

    /** `append(html)` on the element at `p`: the markup, if any, as a new last child. */
    method AppendHtml(p: Path, h: string)
      requires ValidPath(root, p) && At(root, p).Element?
      modifies this
      ensures root == Replace(old(root), p, At(old(root), p).(kids := At(old(root), p).kids + Markup(h)))
    {
      if h != "" {
        AppendChild(p, Html(h));
      } else {
        ReplaceAt(root, p);
        assert At(root, p).kids + [] == At(root, p).kids;
      }
    }

    /** `attr(key, value)` on the element at `p`. */
    method SetAttr(p: Path, key: string, value: string)
      requires ValidPath(root, p) && At(root, p).Element?
      modifies this
      ensures root == Replace(old(root), p, At(old(root), p).(attrs := PutAttr(At(old(root), p).attrs, key, value)))
    {
      root := Replace(root, p, At(root, p).(attrs := PutAttr(At(root, p).attrs, key, value)));
    }
  }
}
