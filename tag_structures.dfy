/**
 * The element suite's tests on small trees: manual rendering of a nested
 * structure with `openOn`, wrapping a structure and opening through the
 * wrapper, replacing a child in place, and wrapping a child. Each tree is
 * described node by node (the state the test's constructor calls produce),
 * and the lemmas state what the test expects of it.
 */
module TagStructures {
  import opened Wrappers
  import opened Strings
  import opened OrderedMap
  import opened Attributes
  import opened Tree
  import opened TreeEdits
  import opened Markup
  import opened Fragments
  import opened TagScenarios

  // ---------------------------------------------------------------- renders of the pieces

  /** The opening tag of a non-void element whose only attribute is its class. */
  lemma ClassOpenTag(n: Node, c: string, d: Doctype)
    requires n.tag != "" && !IsVoid(n.tag) && n.attributes == [(ClassName, Str(c))]
    ensures OpenTag(n, d) == "<" + n.tag + " class=\"" + c + "\"" + ">"
  {
    assert RenderAttributes([(ClassName, Str(c))]) == RenderAttribute(ClassName, Str(c));
    ClassAttribute(c);
  }

  /** The opening tag of a non-void element without attributes. */
  lemma PlainOpenTag(n: Node, d: Doctype)
    requires n.tag != "" && !IsVoid(n.tag) && n.attributes == []
    ensures OpenTag(n, d) == "<" + n.tag + ">"
  {
    assert RenderAttributes([]) == "";
  }

  /** A childless non-void element renders as its opening tag, its text and its closing tag. */
  lemma LeafPieces(h: Heap, i: Id, d: Doctype, fuel: nat)
    requires i < |h| && fuel > 0 && h[i].tag != "" && !IsVoid(h[i].tag) && h[i].children == []
    ensures Render(h, i, d, fuel) == OpenTag(h[i], d) + h[i].value.GetOr("") + CloseTag(h[i])
  {
    RenderChildless(h, i, d, fuel);
  }

  /**
   * The render with `x` spliced in at a middle child `k2` of three: the
   * first child in full, the second's tags around `x`, the third in full.
   */
  lemma SplicedMiddle(h: Heap, id: Id, k1: string, c1: Id, k2: string, c2: Id, k3: string, c3: Id, x: string, d: Doctype, fuel: nat)
    requires id < |h| && c2 < |h| && fuel > 1 && k1 != k2
    requires h[id].children == [(k1, c1), (k2, c2), (k3, c3)]
    ensures Spliced(h, id, [k2], x, d, fuel) ==
      OpenTag(h[id], d) + h[id].value.GetOr("") +
      (Render(h, c1, d, fuel - 1) + (OpenTag(h[c2], d) + x + CloseTag(h[c2]) + Render(h, c3, d, fuel - 1))) +
      CloseTag(h[id])
  {
    var cs := h[id].children;
    var f := fuel - 1;
    assert cs[1..] == [(k2, c2), (k3, c3)] && cs[1..][1..] == [(k3, c3)];
    assert [k2][1..] == [];
    assert Spliced(h, c2, [], x, d, f) == OpenTag(h[c2], d) + x + CloseTag(h[c2]);
    RenderListOne(h, k3, c3, d, f);
    assert SplicedList(h, cs[1..], [k2], x, d, f) == Spliced(h, c2, [], x, d, f) + RenderList(h, cs[1..][1..], d, f);
    assert SplicedList(h, cs, [k2], x, d, f) == Render(h, c1, d, f) + SplicedList(h, cs[1..], [k2], x, d, f);
  }

  // ---------------------------------------------------------------- openOn on a structure

  /**
   * `div(['title' => div('foo')->class('title'), 'body' => div()->class('body'),
   * 'footer' => div('footer')])`: node 0 and its three children.
   */
  predicate Complex(h: Heap) {
    && |h| == 4
    && h[0] == Element("div", None).(children := [("title", 1), ("body", 2), ("footer", 3)])
    && h[1] == Element("div", Some("foo")).(attributes := [(ClassName, Str("title"))], parent := Some(0))
    && h[2] == Element("div", None).(attributes := [(ClassName, Str("body"))], parent := Some(0))
    && h[3] == Element("div", Some("footer")).(parent := Some(0))
  }

  lemma ComplexShape(h: Heap)
    requires Complex(h)
    ensures NoneOpen(h)
    ensures Opened(h, 0, ["body"]) == {0, 2}
    ensures Isolated(h, 0, ["body"], {0, 2})
  {
    assert Unique(h[0].children) by {
      assert Keys(h[0].children) == ["title", "body", "footer"];
    }
    assert NodeOk(h[2], 4);
    assert Child(h, 0, "body") == Some(2);
    var cs := h[0].children;
    assert cs[1..] == [("body", 2), ("footer", 3)] && cs[1..][1..] == [("footer", 3)];
    assert IsolatedList(h, cs[1..], ["body"], {0, 2});
  }

  lemma BodyPath()
    ensures Split("body", '.') == ["body"]
  {
    assert FirstIndex("body", '.') == None;
  }

  /** `div` is not void, and its tags spelled out. */
  lemma DivTags()
    ensures !IsVoid("div")
    ensures "<" + "div" + ">" == "<div>" && "</" + "div" + ">" == "</div>"
  {
  }

  lemma TitleOpen()
    ensures "<" + "div" + " class=\"" + "title" + "\"" + ">" == "<div class=\"title\">"
  {
  }

  lemma BodyOpen()
    ensures "<" + "div" + " class=\"" + "body" + "\"" + ">" == "<div class=\"body\">"
  {
  }

  /** A plain `div`'s opening and closing tags. */
  lemma PlainDivTags(n: Node, d: Doctype)
    requires n.tag == "div" && n.attributes == []
    ensures OpenTag(n, d) == "<div>" && CloseTag(n) == "</div>"
  {
    DivTags();
    PlainOpenTag(n, d);
  }

  /** A childless `div` with text `v` and a fixed opening tag. */
  lemma DivLeaf(h: Heap, i: Id, open: string, v: string, fuel: nat)
    requires i < |h| && fuel > 0 && h[i].tag == "div" && h[i].children == [] && h[i].value == Some(v)
    requires OpenTag(h[i], Html5) == open
    ensures Render(h, i, Html5, fuel) == open + v + "</div>"
  {
    DivTags();
    LeafPieces(h, i, Html5, fuel);
  }

  lemma TitleTag(n: Node, d: Doctype)
    requires n.tag == "div" && n.attributes == [(ClassName, Str("title"))]
    ensures OpenTag(n, d) == "<div class=\"title\">"
  {
    DivTags();
    ClassOpenTag(n, "title", d);
    TitleOpen();
  }

  lemma BodyTags(n: Node, d: Doctype)
    requires n.tag == "div" && n.attributes == [(ClassName, Str("body"))]
    ensures OpenTag(n, d) == "<div class=\"body\">" && CloseTag(n) == "</div>"
  {
    DivTags();
    ClassOpenTag(n, "body", d);
    BodyOpen();
  }

  lemma SpliceRegroup(a: string, b: string, c: string, x: string, e: string, f: string, g: string)
    ensures a + "" + (b + (c + x + e + f)) + g == a + b + c + x + e + f + g
  {
    assert a + "" == a;
  }

  /**
   * `openOn('body') . x . close()` on that structure (`CONTENT` in the suite):
   * the whole structure with `x` as the body's content; and `close()` clears
   * every flag `openOn` set.
   */
  lemma OpenComplexScenario(h: Heap, x: string)
    requires Complex(h)
    ensures var segs := Split("body", '.');
            var h2 := MarkOpened(h, Opened(h, 0, segs));
            && OpenOn(h2, 0, segs, Html5, |h2|) + x + Close(h2, 0, Html5, |h2|) ==
               "<div>" + ("<div class=\"title\">" + "foo" + "</div>") +
               "<div class=\"body\">" + x + "</div>" + ("<div>" + "footer" + "</div>") + "</div>"
            && MarkClosed(h2, Closed(h2, 0, |h2|)) == h
  {
    BodyPath();
    ComplexShape(h);
    var s: set<Id> := {0, 2};
    OpenOnSession(h, 0, ["body"], x, Html5, 4);
    var h2 := MarkOpened(h, s);
    assert h2[0].children == [("title", 1), ("body", 2), ("footer", 3)];
    SplicedMiddle(h2, 0, "title", 1, "body", 2, "footer", 3, x, Html5, 4);
    PlainDivTags(h2[0], Html5);
    TitleTag(h2[1], Html5);
    DivLeaf(h2, 1, "<div class=\"title\">", "foo", 3);
    BodyTags(h2[2], Html5);
    PlainDivTags(h2[3], Html5);
    DivLeaf(h2, 3, "<div>", "footer", 3);
    SpliceRegroup("<div>", "<div class=\"title\">" + "foo" + "</div>", "<div class=\"body\">", x, "</div>",
      "<div>" + "footer" + "</div>", "</div>");
  }

  // ---------------------------------------------------------------- openOn through a wrapper

  /**
   * `div(['title' => div('foo')->class('title'), 'body' => div()->class('body')])`
   * as nodes 0 to 2, and the link `Link::create('#', '')` as node 3: an `a`
   * with `href="#"` and empty text.
   */
  predicate Titled(h: Heap) {
    && |h| == 4
    && h[0] == Element("div", None).(children := [("title", 1), ("body", 2)])
    && h[1] == Element("div", Some("foo")).(attributes := [(ClassName, Str("title"))], parent := Some(0))
    && h[2] == Element("div", None).(attributes := [(ClassName, Str("body"))], parent := Some(0))
    && h[3] == Element("a", Some("")).(attributes := [("href", Str("#"))])
  }

  lemma TitledWellFormed(h: Heap)
    requires Titled(h)
    ensures WellFormed(h)
  {
    assert Unique(h[0].children) by {
      assert Keys(h[0].children) == ["title", "body"];
    }
    assert NodeOk(h[0], 4) && NodeOk(h[1], 4) && NodeOk(h[2], 4) && NodeOk(h[3], 4);
  }

  /** After `wrapWith($wrapper, 'complex')`: the link holds the detached structure under `complex`. */
  predicate Linked(g: Heap) {
    && |g| == 4
    && g[0] == Element("div", None).(children := [("title", 1), ("body", 2)], parent := Some(3))
    && g[1] == Element("div", Some("foo")).(attributes := [(ClassName, Str("title"))], parent := Some(0))
    && g[2] == Element("div", None).(attributes := [(ClassName, Str("body"))], parent := Some(0))
    && g[3] == Element("a", Some("")).(attributes := [("href", Str("#"))], children := [("complex", 0)])
  }

  lemma WrapComplex(h: Heap)
    requires Titled(h) && WellFormed(h)
    ensures Linked(WrapWith(h, 0, 3, Some("complex")))
  {
    PutIntoEmpty("complex", 0);
  }

  lemma LinkedWellFormed(g: Heap)
    requires Linked(g)
    ensures WellFormed(g) && NoneOpen(g)
  {
    assert Unique(g[0].children) by {
      assert Keys(g[0].children) == ["title", "body"];
    }
    assert NodeOk(g[0], 4) && NodeOk(g[1], 4) && NodeOk(g[2], 4) && NodeOk(g[3], 4);
  }

  /** `openOn('complex.body')` opens the link, the structure and its body. */
  lemma LinkedOpened(g: Heap)
    requires Linked(g) && WellFormed(g)
    ensures Opened(g, 3, ["complex", "body"]) == {3, 0, 2}
  {
    var segs := ["complex", "body"];
    assert segs[1..] == ["body"] && segs[1..][1..] == [];
    assert Child(g, 3, "complex") == Some(0);
    assert Child(g, 0, "body") == Some(2) by {
      assert g[0].children[1].0 == "body";
      UniqueIndex(g[0].children, 1);
    }
  }

  /** No other child of a node on the path is opened. */
  lemma LinkedIsolated(g: Heap)
    requires Linked(g) && WellFormed(g)
    ensures Isolated(g, 3, ["complex", "body"], {3, 0, 2})
  {
    var cs := g[0].children;
    assert cs[1..] == [("body", 2)];
    assert IsolatedList(g, cs[1..], ["body"], {3, 0, 2});
    assert Isolated(g, 0, ["body"], {3, 0, 2});
    assert ["complex", "body"][1..] == ["body"];
  }

  /** Splicing into the only child, along a path that starts with its key. */
  lemma SplicedOnly(h: Heap, id: Id, k: string, c: Id, segs: seq<string>, x: string, d: Doctype, fuel: nat)
    requires id < |h| && fuel > 0 && segs != [] && segs[0] == k && h[id].children == [(k, c)]
    ensures Spliced(h, id, segs, x, d, fuel) ==
      OpenTag(h[id], d) + h[id].value.GetOr("") + (Spliced(h, c, segs[1..], x, d, fuel - 1) + "") + CloseTag(h[id])
  {
    assert |h[id].children[1..]| == 0;
  }

  /** Splicing into the second of two children. */
  lemma SplicedSecond(h: Heap, id: Id, k1: string, c1: Id, k2: string, c2: Id, x: string, d: Doctype, fuel: nat)
    requires id < |h| && c2 < |h| && fuel > 1 && k1 != k2 && h[id].children == [(k1, c1), (k2, c2)]
    ensures Spliced(h, id, [k2], x, d, fuel) ==
      OpenTag(h[id], d) + h[id].value.GetOr("") +
      (Render(h, c1, d, fuel - 1) + (OpenTag(h[c2], d) + x + CloseTag(h[c2]) + "")) + CloseTag(h[id])
  {
    var cs := h[id].children;
    var f := fuel - 1;
    assert cs[1..] == [(k2, c2)] && cs[1..][1..] == cs[2..] == [];
    assert [k2][1..] == [];
    assert Spliced(h, c2, [], x, d, f) == OpenTag(h[c2], d) + x + CloseTag(h[c2]);
    assert SplicedList(h, cs[1..], [k2], x, d, f) == Spliced(h, c2, [], x, d, f) + RenderList(h, cs[1..][1..], d, f);
    assert SplicedList(h, cs, [k2], x, d, f) == Render(h, c1, d, f) + SplicedList(h, cs[1..], [k2], x, d, f);
  }

  lemma HrefOpenTag(n: Node, d: Doctype)
    requires n.tag == "a" && n.attributes == [("href", Str("#"))]
    ensures OpenTag(n, d) == "<a href=\"#\">" && CloseTag(n) == "</a>"
  {
    TagA();
    assert !IsDataName("href");
    assert RenderAttributes(n.attributes) == RenderAttribute("href", Str("#"));
    assert "<" + "a" + " href=\"" + "#" + "\"" + ">" == "<a href=\"#\">";
  }

  lemma InnerRegroup(b: string, c: string, e: string, x: string, f: string, g: string)
    ensures b + "" + (c + (e + x + f + "")) + g == b + c + e + x + f + g
  {
    assert b + "" == b;
  }

  lemma OuterRegroup(a: string, y: string, k: string)
    ensures a + "" + (y + "") + k == a + y + k
  {
    assert a + "" == a;
  }

  /** The structure inside the link, opened on `body`, with `x` spliced in. */
  lemma TitledSpliced(g2: Heap, x: string)
    requires |g2| == 4
    requires g2[0].tag == "div" && g2[0].attributes == [] && g2[0].value == None && g2[0].children == [("title", 1), ("body", 2)]
    requires g2[1].tag == "div" && g2[1].attributes == [(ClassName, Str("title"))] && g2[1].value == Some("foo") && g2[1].children == []
    requires g2[2].tag == "div" && g2[2].attributes == [(ClassName, Str("body"))]
    ensures Spliced(g2, 0, ["body"], x, Html5, 3) ==
      "<div>" + ("<div class=\"title\">" + "foo" + "</div>") + "<div class=\"body\">" + x + "</div>" + "</div>"
  {
    var s := Spliced(g2, 0, ["body"], x, Html5, 3);
    var open, title, body := OpenTag(g2[0], Html5), Render(g2, 1, Html5, 2), OpenTag(g2[2], Html5);
    SplicedSecond(g2, 0, "title", 1, "body", 2, x, Html5, 3);
    PlainDivTags(g2[0], Html5);
    TitleTag(g2[1], Html5);
    DivLeaf(g2, 1, "<div class=\"title\">", "foo", 2);
    BodyTags(g2[2], Html5);
    SplicedPieces(s, open, title, body, x, CloseTag(g2[2]), CloseTag(g2[0]),
      "<div>", "<div class=\"title\">" + "foo" + "</div>", "<div class=\"body\">", "</div>");
  }

  /** Substitutes the rendered pieces into a spliced render and regroups it. */
  lemma SplicedPieces(s: string, open: string, first: string, inner: string, x: string, innerClose: string, close: string,
                      open': string, first': string, inner': string, close': string)
    requires s == open + "" + (first + (inner + x + innerClose + "")) + close
    requires open == open' && first == first' && inner == inner' && innerClose == close' && close == close'
    ensures s == open' + first' + inner' + x + close' + close'
  {
    InnerRegroup(open, first, inner, x, innerClose, close);
  }

  /** The opened link's render with `x` spliced in at `complex.body`. */
  lemma LinkedSpliced(g2: Heap, x: string)
    requires |g2| == 4
    requires g2[3].tag == "a" && g2[3].attributes == [("href", Str("#"))] && g2[3].value == Some("") && g2[3].children == [("complex", 0)]
    requires Spliced(g2, 0, ["body"], x, Html5, 3) ==
      "<div>" + ("<div class=\"title\">" + "foo" + "</div>") + "<div class=\"body\">" + x + "</div>" + "</div>"
    ensures Spliced(g2, 3, ["complex", "body"], x, Html5, 4) ==
      "<a href=\"#\">" + ("<div>" + ("<div class=\"title\">" + "foo" + "</div>") + "<div class=\"body\">" + x + "</div>" + "</div>") + "</a>"
  {
    var segs := ["complex", "body"];
    SplicedOnly(g2, 3, "complex", 0, segs, x, Html5, 4);
    assert segs[1..] == ["body"];
    HrefOpenTag(g2[3], Html5);
    OuterRegroup("<a href=\"#\">", "<div>" + ("<div class=\"title\">" + "foo" + "</div>") + "<div class=\"body\">" + x + "</div>" + "</div>", "</a>");
  }

  /** The session on the wrapped structure, with the path already split. */
  lemma LinkedSession(g: Heap, x: string)
    requires Linked(g)
    ensures var g2 := MarkOpened(g, Opened(g, 3, ["complex", "body"]));
            && OpenOn(g2, 3, ["complex", "body"], Html5, 4) + x + Close(g2, 3, Html5, 4) ==
               "<a href=\"#\">" + ("<div>" + ("<div class=\"title\">" + "foo" + "</div>") +
               "<div class=\"body\">" + x + "</div>" + "</div>") + "</a>"
            && MarkClosed(g2, Closed(g2, 3, 4)) == g
  {
    LinkedWellFormed(g);
    LinkedOpened(g);
    LinkedIsolated(g);
    OpenOnSession(g, 3, ["complex", "body"], x, Html5, 4);
    var g2 := MarkOpened(g, {3, 0, 2});
    TitledSpliced(g2, x);
    LinkedSpliced(g2, x);
  }

  /**
   * `$object->wrapWith($wrapper, 'complex')` on the detached structure, then
   * `getParent()->openOn('complex.body') . x . getParent()->close()`
   * (`foo` in the suite): the link around the structure with `x` as the
   * body's content, and `close()` clears every flag `openOn` set.
   */
  lemma ManipulateComplexScenario(h: Heap, x: string)
    requires Titled(h)
    ensures WellFormed(h)
    ensures var g := WrapWith(h, 0, 3, Some("complex"));
            && GetParent(g, 0, 0) == Some(3)
            && var segs := Split("complex" + "." + "body", '.');
               var g2 := MarkOpened(g, Opened(g, 3, segs));
               && OpenOn(g2, 3, segs, Html5, |g2|) + x + Close(g2, 3, Html5, |g2|) ==
                  "<a href=\"#\">" + ("<div>" + ("<div class=\"title\">" + "foo" + "</div>") +
                  "<div class=\"body\">" + x + "</div>" + "</div>") + "</a>"
               && MarkClosed(g2, Closed(g2, 3, |g2|)) == g
  {
    TitledWellFormed(h);
    WrapComplex(h);
    var g := WrapWith(h, 0, 3, Some("complex"));
    SplitTwo("complex", "body");
    LinkedSession(g, x);
  }

  // ---------------------------------------------------------------- plain elements

  // The short tags of the remaining tests are not void.

  lemma TagDiv()
    ensures !IsVoid("div")
  {
  }

  lemma TagI()
    ensures !IsVoid("i")
  {
  }

  lemma TagA()
    ensures !IsVoid("a")
  {
  }

  lemma TagB()
    ensures !IsVoid("b")
  {
  }

  lemma TagU()
    ensures !IsVoid("u")
  {
  }

  /** An empty element without attributes renders as its two tags. */
  lemma EmptyLeaf(h: Heap, i: Id, d: Doctype, fuel: nat)
    requires i < |h| && fuel > 0 && h[i].tag != "" && !IsVoid(h[i].tag)
    requires h[i].children == [] && h[i].attributes == [] && h[i].value == None
    ensures Render(h, i, d, fuel) == "<" + h[i].tag + ">" + "</" + h[i].tag + ">"
  {
    LeafPieces(h, i, d, fuel);
    PlainOpenTag(h[i], d);
    assert "<" + h[i].tag + ">" + "" == "<" + h[i].tag + ">";
  }

  /** Two children render one after the other. */
  lemma RenderListTwo(h: Heap, k1: string, c1: Id, k2: string, c2: Id, d: Doctype, fuel: nat)
    ensures RenderList(h, [(k1, c1), (k2, c2)], d, fuel) == Render(h, c1, d, fuel) + Render(h, c2, d, fuel)
  {
    assert [(k1, c1), (k2, c2)][1..] == [(k2, c2)];
    RenderListOne(h, k2, c2, d, fuel);
  }

  /** An element without attributes or text renders as its tags around its children. */
  lemma PlainParent(h: Heap, id: Id, d: Doctype, fuel: nat)
    requires id < |h| && fuel > 0 && h[id].tag != "" && !IsVoid(h[id].tag)
    requires h[id].attributes == [] && h[id].value == None
    ensures Render(h, id, d, fuel) == "<" + h[id].tag + ">" + RenderList(h, h[id].children, d, fuel - 1) + "</" + h[id].tag + ">"
  {
    RenderElement(h, id, d, fuel);
    assert RenderAttributes([]) == "";
    var t := h[id].tag;
    assert "<" + t + "" + ">" + "" == "<" + t + ">";
  }

  /** The same with one child. */
  lemma PlainParentOne(h: Heap, id: Id, k: string, c: Id, d: Doctype, fuel: nat)
    requires id < |h| && fuel > 0 && h[id].tag != "" && !IsVoid(h[id].tag)
    requires h[id].attributes == [] && h[id].value == None && h[id].children == [(k, c)]
    ensures Render(h, id, d, fuel) == "<" + h[id].tag + ">" + Render(h, c, d, fuel - 1) + "</" + h[id].tag + ">"
  {
    PlainParent(h, id, d, fuel);
    RenderListOne(h, k, c, d, fuel - 1);
  }

  /** The same with two children. */
  lemma PlainParentTwo(h: Heap, id: Id, k1: string, c1: Id, k2: string, c2: Id, d: Doctype, fuel: nat)
    requires id < |h| && fuel > 0 && h[id].tag != "" && !IsVoid(h[id].tag)
    requires h[id].attributes == [] && h[id].value == None && h[id].children == [(k1, c1), (k2, c2)]
    ensures Render(h, id, d, fuel) ==
      "<" + h[id].tag + ">" + (Render(h, c1, d, fuel - 1) + Render(h, c2, d, fuel - 1)) + "</" + h[id].tag + ">"
  {
    PlainParent(h, id, d, fuel);
    RenderListTwo(h, k1, c1, k2, c2, d, fuel - 1);
  }

  /** An element without attributes or text holding one empty element. */
  lemma PlainOneLeaf(h: Heap, id: Id, k: string, c: Id, d: Doctype, fuel: nat)
    requires id < |h| && c < |h| && fuel >= 2 && h[id].tag != "" && !IsVoid(h[id].tag)
    requires h[id].attributes == [] && h[id].value == None && h[id].children == [(k, c)]
    requires h[c].tag != "" && !IsVoid(h[c].tag) && h[c].children == [] && h[c].attributes == [] && h[c].value == None
    ensures Render(h, id, d, fuel) ==
      "<" + h[id].tag + ">" + ("<" + h[c].tag + ">" + "</" + h[c].tag + ">") + "</" + h[id].tag + ">"
  {
    PlainParentOne(h, id, k, c, d, fuel);
    EmptyLeaf(h, c, d, fuel - 1);
  }

  // ---------------------------------------------------------------- replacing a child

  /** `div(['alpha' => i(), 'beta' => b()])` as nodes 0 to 2, and a detached `a()` as node 3. */
  predicate Pair(h: Heap) {
    && |h| == 4
    && h[0] == Element("div", None).(children := [("alpha", 1), ("beta", 2)])
    && h[1] == Element("i", None).(parent := Some(0))
    && h[2] == Element("b", None).(parent := Some(0))
    && h[3] == Element("a", None)
  }

  lemma PairWellFormed(h: Heap)
    requires Pair(h)
    ensures WellFormed(h)
  {
    assert Unique(h[0].children) by {
      assert Keys(h[0].children) == ["alpha", "beta"];
    }
    assert NodeOk(h[0], 4) && NodeOk(h[1], 4) && NodeOk(h[2], 4) && NodeOk(h[3], 4);
  }

  /** `nest(['beta' => a()])` stores the new node under the existing key `beta`. */
  lemma ReplaceStep(h: Heap)
    requires Pair(h) && WellFormed(h)
    ensures NestChildren(h, 0, Keyed([("beta", Existing(3))])) == Adopt(h, 0, "beta", 3)
  {
    var es := [("beta", Existing(3))];
    assert es[..0] == [];
    assert Has(h[0].children, "beta") by {
      assert h[0].children[1].0 == "beta";
    }
    assert Target(h, 0, "beta") == (0, "beta");
  }

  /** ... in the slot of the old `beta` child, after `alpha`. */
  lemma ReplaceShape(h: Heap)
    requires Pair(h) && WellFormed(h)
    ensures var r := Adopt(h, 0, "beta", 3);
            && r[0] == h[0].(children := [("alpha", 1), ("beta", 3)])
            && r[1] == h[1] && r[3] == h[3].(parent := Some(0))
  {
    assert h[0].children[1].0 == "beta";
    assert IndexOf(h[0].children, "beta") == Some(1) by {
      UniqueIndex(h[0].children, 1);
    }
    AdoptInPlace(h, 0, "beta", 3);
  }

  /** Two empty plain elements side by side in a plain element. */
  lemma ReplaceRendered(r: Heap, k1: string, k2: string)
    requires |r| == 4 && Plain(r, 0, [(k1, 1), (k2, 3)]) && Plain(r, 1, []) && Plain(r, 3, [])
    ensures Html(r, 0, Html5) ==
      "<" + r[0].tag + ">" + (("<" + r[1].tag + ">" + "</" + r[1].tag + ">") + ("<" + r[3].tag + ">" + "</" + r[3].tag + ">")) + "</" + r[0].tag + ">"
  {
    PlainParentTwo(r, 0, k1, 1, k2, 3, Html5, 4);
    EmptyLeaf(r, 1, Html5, 3);
    EmptyLeaf(r, 3, Html5, 3);
  }

  lemma ReplaceMarkup()
    ensures "<" + "div" + ">" + (("<" + "i" + ">" + "</" + "i" + ">") + ("<" + "a" + ">" + "</" + "a" + ">")) + "</" + "div" + ">" ==
            "<div><i></i><a></a></div>"
  {
    assert "<" + "div" + ">" + (("<" + "i" + ">" + "</" + "i" + ">") + ("<" + "a" + ">" + "</" + "a" + ">")) + "</" + "div" + ">" ==
           "<div><i></i>" + ("<" + "a" + ">" + "</" + "a" + ">") + "</div>" by {
      ItalicFirst("<" + "a" + ">" + "</" + "a" + ">");
    }
  }

  lemma ReplacePlain(r: Heap)
    requires |r| == 4
    requires r[0] == Element("div", None).(children := [("alpha", 1), ("beta", 3)])
    requires r[1] == Element("i", None).(parent := Some(0)) && r[3] == Element("a", None).(parent := Some(0))
    ensures Plain(r, 0, [("alpha", 1), ("beta", 3)]) && Plain(r, 1, []) && Plain(r, 3, [])
  {
    TagDiv();
    TagI();
    TagA();
  }

  /**
   * `nest(['beta' => a()])` on `div(['alpha' => i(), 'beta' => b()])`: the
   * `a` replaces the `b` under `beta`, in its place, and the whole renders as
   * `<div><i></i><a></a></div>`.
   */
  lemma ReplaceChildrenScenario(h: Heap)
    requires Pair(h)
    ensures WellFormed(h)
    ensures var r := NestChildren(h, 0, Keyed([("beta", Existing(3))]));
            && r[0].children == [("alpha", 1), ("beta", 3)]
            && r[3].parent == Some(0)
            && Html(r, 0, Html5) == "<div><i></i><a></a></div>"
  {
    PairWellFormed(h);
    ReplaceStep(h);
    ReplaceShape(h);
    ReplacePlain(Adopt(h, 0, "beta", 3));
    ReplaceRendered(Adopt(h, 0, "beta", 3), "alpha", "beta");
    ReplaceMarkup();
  }

  // ---------------------------------------------------------------- wrapping a child

  /** After `getChild('beta')->wrapWith($gamma, 'gamma')`: `div > {alpha: i, gamma: a > {beta: b}}`. */
  predicate GammaWrapped(g: Heap) {
    && |g| == 4
    && g[0] == Element("div", None).(children := [("alpha", 1), ("gamma", 3)])
    && g[1] == Element("i", None).(parent := Some(0))
    && g[2] == Element("b", None).(parent := Some(3))
    && g[3] == Element("a", None).(children := [("beta", 2)], parent := Some(0))
  }

  /** After `gamma->wrapWith('u', 'underline')`: a new `u`, node 4, in gamma's slot under `underline`. */
  predicate UnderlineWrapped(g: Heap) {
    && |g| == 5
    && g[0] == Element("div", None).(children := [("alpha", 1), ("underline", 4)])
    && g[1] == Element("i", None).(parent := Some(0))
    && g[2] == Element("b", None).(parent := Some(3))
    && g[3] == Element("a", None).(children := [("beta", 2)], parent := Some(4))
    && g[4] == Element("u", None).(children := [("gamma", 3)], parent := Some(0))
  }

  /** Replacing the second of two entries by a key new to the map. */
  lemma ReplaceSecond(k1: string, c1: Id, k2: string, c2: Id, k: string, c: Id)
    requires k != k1
    ensures ReplaceAt([(k1, c1), (k2, c2)], 1, k, c) == [(k1, c1), (k, c)]
  {
    var m := [(k1, c1), (k2, c2)];
    assert m[..1] == [(k1, c1)] && m[2..] == [];
    assert !Has(m[..1], k) by {
      assert m[..1][0].0 != k;
    }
    assert Remove<Id>([], k) == [];
  }

  lemma PutIntoEmpty(k: string, c: Id)
    ensures Put<Id>([], k, c) == [(k, c)]
  {
  }

  /**
   * Wrapping the second of two children of `p` in a childless `w` under the
   * new key `g`: `w` takes its slot, holds it under its old key, and hangs
   * under `p`; nothing else changes.
   */
  lemma WrapSecond(h: Heap, p: Id, k1: string, c1: Id, k2: string, id: Id, w: Id, g: string)
    requires WellFormed(h) && p < |h| && id < |h| && w < |h| && w != id && w != p && id != p && c1 != id
    requires h[p].children == [(k1, c1), (k2, id)] && h[id].parent == Some(p) && h[w].children == [] && g != k1
    ensures var r := WrapWith(h, id, w, Some(g));
            && r[p] == h[p].(children := [(k1, c1), (g, w)])
            && r[w] == h[w].(children := [(k2, id)], parent := Some(p))
            && r[id] == h[id].(parent := Some(w))
            && (forall i :: 0 <= i < |h| && i != p && i != w && i != id ==> r[i] == h[i])
  {
    var cs := h[p].children;
    assert SlotOf(cs, id) == Some(1) by {
      assert cs[0].1 != id && cs[1..] == [(k2, id)];
    }
    WrapWithNodes(h, id, w, Some(g));
    ReplaceSecond(k1, c1, k2, id, g, w);
    PutIntoEmpty(k2, id);
  }

  lemma WrapGamma(h: Heap)
    requires Pair(h) && WellFormed(h)
    ensures GammaWrapped(WrapWith(h, 2, 3, Some("gamma")))
  {
    WrapSecond(h, 0, "alpha", 1, "beta", 2, 3, "gamma");
  }

  lemma WrapUnderline(g: Heap)
    requires GammaWrapped(g) && WellFormed(g)
    ensures UnderlineWrapped(WrapWithTag(g, 3, "u", Some("underline")))
  {
    var n := Element("u", None);
    assert NodeOk(n, 5);
    var gg := Grow(g, n);
    assert gg[0] == g[0] && gg[3] == g[3] && gg[4] == n;
    WrapSecond(gg, 0, "alpha", 1, "gamma", 3, 4, "underline");
  }

  /** Two accessor words joined by an upper-case letter, then a third. */
  lemma DecamelThree(a: string, c1: char, b1: string, c2: char, b2: string)
    requires NoUpper(a) && NoUpper(b1) && NoUpper(b2) && IsUpper(c1) && IsUpper(c2)
    ensures Decamel(a + [c1] + b1 + [c2] + b2, '.') == a + ['.', ToLower(c1)] + b1 + ['.', ToLower(c2)] + b2
  {
    var front := a + [c1] + b1;
    var back := [c2] + b2;
    assert front + [c2] + b2 == front + back;
    DecamelConcat(front, back, '.');
    DecamelPair(a, c1, b1, '.');
    assert Decamel(back, '.') == ['.', ToLower(c2)] + Decamel(b2, '.') by {
      assert back[0] == c2 && back[1..] == b2;
    }
    DecamelPlain(b2, '.');
    var lf := a + ['.', ToLower(c1)] + b1;
    assert lf + (['.', ToLower(c2)] + b2) == lf + ['.', ToLower(c2)] + b2;
  }

  lemma GammaBetaPath()
    ensures Decamel("gamma" + "Beta", '.') == "gamma" + "." + "beta"
  {
    assert "gamma" + "Beta" == "gamma" + ['B'] + "eta";
    DecamelPair("gamma", 'B', "eta", '.');
    assert "gamma" + ['.', ToLower('B')] + "eta" == "gamma" + "." + "beta";
  }

  lemma GammaPath()
    ensures Decamel("gamma", '.') == "gamma"
  {
    assert NoUpper("gamma");
    DecamelPlain("gamma", '.');
  }

  lemma UnderlineGammaBetaPath()
    ensures Decamel("underline" + "Gamma" + "Beta", '.') == "underline" + "." + "gamma" + "." + "beta"
  {
    assert "underline" + "Gamma" + "Beta" == "underline" + ['G'] + "amma" + ['B'] + "eta";
    DecamelThree("underline", 'G', "amma", 'B', "eta");
    assert "underline" + ['.', ToLower('G')] + "amma" + ['.', ToLower('B')] + "eta" ==
           "underline" + "." + "gamma" + "." + "beta";
  }

  /** `a.b.c` splits into its three segments. */
  lemma SplitThree(a: string, b: string, c: string)
    requires '.' !in a && '.' !in b && '.' !in c
    ensures Split(a + "." + b + "." + c, '.') == [a, b, c]
  {
    SplitTwo(b, c);
    assert a + "." + b + "." + c == a + ['.'] + (b + "." + c);
    SplitAfterPiece(a, b + "." + c, '.');
  }

  /** The wrapped tree's reads: `gamma`, `gamma.beta` and its accessor form `gammaBeta`. */
  lemma GammaReads(g: Heap)
    requires GammaWrapped(g) && WellFormed(g)
    ensures Child(g, 0, "gamma") == Some(3)
    ensures GetDynamic(g, 0, "gamma") == ChildNode(3)
    ensures Lookup(g, 0, "gamma" + "." + "beta") == Some(2)
    ensures GetDynamic(g, 0, "gamma" + "Beta") == ChildNode(2)
  {
    assert g[0].children[1].0 == "gamma";
    GammaPath();
    var path := "gamma" + "." + "beta";
    assert |path| == 10;
    assert Child(g, 0, path).None?;
    LookupTwo(g, 0, "gamma", "beta");
    assert Walk(g, 3, ["beta"]) == Walk(g, 2, []);
    GammaBetaPath();
  }

  /** The tree after the second wrap: `underline.gamma.beta` and its accessor form. */
  lemma UnderlineReads(g: Heap)
    requires UnderlineWrapped(g) && WellFormed(g)
    ensures Lookup(g, 0, "underline" + "." + "gamma" + "." + "beta") == Some(2)
    ensures GetDynamic(g, 0, "underline" + "Gamma" + "Beta") == ChildNode(2)
  {
    var path := "underline" + "." + "gamma" + "." + "beta";
    assert |path| == 20;
    assert Child(g, 0, path).None?;
    SplitThree("underline", "gamma", "beta");
    var segs := ["underline", "gamma", "beta"];
    assert segs[1..] == ["gamma", "beta"] && segs[1..][1..] == ["beta"] && segs[1..][1..][1..] == [];
    assert Child(g, 0, "underline") == Some(4) by {
      assert g[0].children[1].0 == "underline";
    }
    assert Walk(g, 0, segs) == Walk(g, 4, segs[1..]) == Walk(g, 3, segs[1..][1..]) == Walk(g, 2, []);
    UnderlineGammaBetaPath();
  }

  /** An element with a tag that is not void, without attributes or text, holding exactly `cs`. */
  predicate Plain(h: Heap, i: Id, cs: Entries<Id>) {
    i < |h| && h[i].tag != "" && !IsVoid(h[i].tag) && h[i].attributes == [] && h[i].value == None && h[i].children == cs
  }

  /** The tree `0 > {1, 3 > {2}}` of plain elements, 1 and 2 empty. */
  lemma GammaRendered(g: Heap, k1: string, k2: string, k3: string)
    requires |g| == 4 && Plain(g, 0, [(k1, 1), (k2, 3)]) && Plain(g, 1, []) && Plain(g, 2, []) && Plain(g, 3, [(k3, 2)])
    ensures Html(g, 0, Html5) ==
      "<" + g[0].tag + ">" + (("<" + g[1].tag + ">" + "</" + g[1].tag + ">") + ("<" + g[3].tag + ">" + ("<" + g[2].tag + ">" + "</" + g[2].tag + ">") + "</" + g[3].tag + ">")) + "</" + g[0].tag + ">"
  {
    PlainParentTwo(g, 0, k1, 1, k2, 3, Html5, 4);
    EmptyLeaf(g, 1, Html5, 3);
    PlainOneLeaf(g, 3, k3, 2, Html5, 3);
  }

  /** The tree `0 > {1, 4 > {3 > {2}}}` of plain elements, 1 and 2 empty. */
  lemma UnderlineRendered(g: Heap, k1: string, k2: string, k3: string, k4: string)
    requires |g| == 5 && Plain(g, 0, [(k1, 1), (k2, 4)]) && Plain(g, 1, []) && Plain(g, 2, [])
    requires Plain(g, 3, [(k3, 2)]) && Plain(g, 4, [(k4, 3)])
    ensures Html(g, 0, Html5) ==
      "<" + g[0].tag + ">" + (("<" + g[1].tag + ">" + "</" + g[1].tag + ">") +
      ("<" + g[4].tag + ">" + ("<" + g[3].tag + ">" + ("<" + g[2].tag + ">" + "</" + g[2].tag + ">") + "</" + g[3].tag + ">") + "</" + g[4].tag + ">")) + "</" + g[0].tag + ">"
  {
    PlainParentTwo(g, 0, k1, 1, k2, 4, Html5, 5);
    EmptyLeaf(g, 1, Html5, 4);
    PlainParentOne(g, 4, k4, 3, Html5, 4);
    PlainOneLeaf(g, 3, k3, 2, Html5, 3);
  }

  // The expected markup, assembled from short literal pieces.

  lemma LinkMarkup()
    ensures "<" + "a" + ">" + ("<" + "b" + ">" + "</" + "b" + ">") + "</" + "a" + ">" == "<a><b></b></a>"
  {
  }

  lemma UnderlineLinkMarkup()
    ensures "<" + "u" + ">" + ("<" + "a" + ">" + ("<" + "b" + ">" + "</" + "b" + ">") + "</" + "a" + ">") + "</" + "u" + ">" == "<u><a><b></b></a></u>"
  {
  }

  lemma ItalicFirst(x: string)
    ensures "<" + "div" + ">" + (("<" + "i" + ">" + "</" + "i" + ">") + x) + "</" + "div" + ">" == "<div><i></i>" + x + "</div>"
  {
  }

  lemma GammaWhole()
    ensures "<div><i></i>" + "<a><b></b></a>" + "</div>" == "<div><i></i><a><b></b></a></div>"
  {
  }

  lemma UnderlineWhole()
    ensures "<div><i></i>" + "<u><a><b></b></a></u>" + "</div>" == "<div><i></i><u><a><b></b></a></u></div>"
  {
  }

  lemma GammaMarkup()
    ensures "<" + "div" + ">" + (("<" + "i" + ">" + "</" + "i" + ">") + ("<" + "a" + ">" + ("<" + "b" + ">" + "</" + "b" + ">") + "</" + "a" + ">")) + "</" + "div" + ">" ==
            "<div><i></i><a><b></b></a></div>"
  {
    LinkMarkup();
    ItalicFirst("<a><b></b></a>");
    GammaWhole();
  }

  lemma UnderlineMarkup()
    ensures "<" + "div" + ">" + (("<" + "i" + ">" + "</" + "i" + ">") +
      ("<" + "u" + ">" + ("<" + "a" + ">" + ("<" + "b" + ">" + "</" + "b" + ">") + "</" + "a" + ">") + "</" + "u" + ">")) + "</" + "div" + ">" ==
            "<div><i></i><u><a><b></b></a></u></div>"
  {
    UnderlineLinkMarkup();
    ItalicFirst("<u><a><b></b></a></u>");
    UnderlineWhole();
  }

  lemma GammaPlain(g: Heap)
    requires GammaWrapped(g)
    ensures Plain(g, 0, [("alpha", 1), ("gamma", 3)]) && Plain(g, 1, []) && Plain(g, 2, []) && Plain(g, 3, [("beta", 2)])
  {
    TagDiv();
    TagI();
    TagA();
    TagB();
  }

  lemma UnderlinePlain(g: Heap)
    requires UnderlineWrapped(g)
    ensures Plain(g, 0, [("alpha", 1), ("underline", 4)]) && Plain(g, 1, []) && Plain(g, 2, [])
    ensures Plain(g, 3, [("beta", 2)]) && Plain(g, 4, [("gamma", 3)])
  {
    TagDiv();
    TagI();
    TagA();
    TagB();
    TagU();
  }

  /**
   * `getChild('beta')->wrapWith($gamma, 'gamma')` on
   * `div(['alpha' => i(), 'beta' => b()])`: `gamma` takes beta's place under
   * the key `gamma` and holds beta under `beta`, so `gamma`, `gamma.beta` and
   * `->gammaBeta` find them, and the tree renders as
   * `<div><i></i><a><b></b></a></div>`. Wrapping gamma again, in a new
   * `<u>` under `underline`, puts beta at `underline.gamma.beta`.
   */
  lemma WrapChildrenScenario(h: Heap)
    requires Pair(h)
    ensures WellFormed(h)
    ensures var g := WrapWith(h, 2, 3, Some("gamma"));
            && Child(g, 0, "gamma") == Some(3)
            && GetDynamic(g, 0, "gamma") == ChildNode(3)
            && Lookup(g, 0, "gamma" + "." + "beta") == Some(2)
            && GetDynamic(g, 0, "gamma" + "Beta") == ChildNode(2)
            && Html(g, 0, Html5) == "<div><i></i><a><b></b></a></div>"
            && var g2 := WrapWithTag(g, 3, "u", Some("underline"));
               && GetDynamic(g2, 0, "underline" + "Gamma" + "Beta") == ChildNode(2)
               && Lookup(g2, 0, "underline" + "." + "gamma" + "." + "beta") == Some(2)
               && Html(g2, 0, Html5) == "<div><i></i><u><a><b></b></a></u></div>"
  {
    PairWellFormed(h);
    WrapGamma(h);
    var g := WrapWith(h, 2, 3, Some("gamma"));
    GammaReads(g);
    GammaPlain(g);
    GammaRendered(g, "alpha", "gamma", "beta");
    GammaMarkup();
    WrapUnderline(g);
    var g2 := WrapWithTag(g, 3, "u", Some("underline"));
    UnderlineReads(g2);
    UnderlinePlain(g2);
    UnderlineRendered(g2, "alpha", "underline", "beta", "gamma");
    UnderlineMarkup();
  }
}
