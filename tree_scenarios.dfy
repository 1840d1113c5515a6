/**
 * The behaviour the tree suite pins down, each test as a lemma over the
 * model: the fixture `new Element('p', 'foo')`, the nodes the test creates
 * as further heap cells, the calls it makes as the functions the
 * `Document` methods are specified by, and the markup, keys or links the
 * test expects.
 */
module TreeScenarios {
  import opened Wrappers
  import opened Strings
  import opened OrderedMap
  import opened Attributes
  import opened Tree
  import opened TreeEdits
  import opened Markup
  import TagScenarios
  import TagStructures

  // ---------------------------------------------------------------- rendering

  /** A node with a non-void tag and no attributes holding the children `cs`; any value. */
  predicate Bare(h: Heap, i: Id, cs: Entries<Id>) {
    i < |h| && h[i].tag != "" && !IsVoid(h[i].tag) && h[i].attributes == [] && h[i].children == cs
  }

  /** `<t>inner</t>`. */
  function Elem(t: string, inner: string): string {
    "<" + t + ">" + inner + "</" + t + ">"
  }

  /** A bare node renders as its tags around its value and children. */
  lemma BareRendered(h: Heap, i: Id, d: Doctype, fuel: nat)
    requires i < |h| && Bare(h, i, h[i].children) && fuel > 0
    ensures Render(h, i, d, fuel) == Elem(h[i].tag, h[i].value.GetOr("") + RenderList(h, h[i].children, d, fuel - 1))
  {
    RenderElement(h, i, d, fuel);
    assert RenderAttributes([]) == "";
    var t, v, l := h[i].tag, h[i].value.GetOr(""), RenderList(h, h[i].children, d, fuel - 1);
    assert "<" + t + "" + ">" + v + l + "</" + t + ">" == "<" + t + ">" + (v + l) + "</" + t + ">";
  }

  /** A childless bare node: `<t>value</t>`. */
  lemma BareLeaf(h: Heap, i: Id, d: Doctype, fuel: nat)
    requires Bare(h, i, []) && fuel > 0
    ensures Render(h, i, d, fuel) == Elem(h[i].tag, h[i].value.GetOr(""))
  {
    BareRendered(h, i, d, fuel);
    assert RenderList(h, [], d, fuel - 1) == "";
    assert h[i].value.GetOr("") + "" == h[i].value.GetOr("");
  }

  /** A bare node with one child: `<t>value child</t>`. */
  lemma BareOne(h: Heap, i: Id, k: string, c: Id, d: Doctype, fuel: nat)
    requires Bare(h, i, [(k, c)]) && fuel > 0
    ensures Render(h, i, d, fuel) == Elem(h[i].tag, h[i].value.GetOr("") + Render(h, c, d, fuel - 1))
  {
    BareRendered(h, i, d, fuel);
    RenderListOne(h, k, c, d, fuel - 1);
  }

  /** A bare node with two children: `<t>value first second</t>`. */
  lemma BareTwo(h: Heap, i: Id, k1: string, c1: Id, k2: string, c2: Id, d: Doctype, fuel: nat)
    requires Bare(h, i, [(k1, c1), (k2, c2)]) && fuel > 0
    ensures Render(h, i, d, fuel) ==
      Elem(h[i].tag, h[i].value.GetOr("") + (Render(h, c1, d, fuel - 1) + Render(h, c2, d, fuel - 1)))
  {
    BareRendered(h, i, d, fuel);
    TagStructures.RenderListTwo(h, k1, c1, k2, c2, d, fuel - 1);
    var v := h[i].value.GetOr("");
    assert RenderList(h, h[i].children, d, fuel - 1) == Render(h, c1, d, fuel - 1) + Render(h, c2, d, fuel - 1);
  }

  /** A childless text node renders as its text. */
  lemma TextLeaf(h: Heap, i: Id, d: Doctype, fuel: nat)
    requires i < |h| && fuel > 0 && h[i].tag == "" && h[i].children == []
    ensures Render(h, i, d, fuel) == h[i].value.GetOr("")
  {
    RenderShadow(h, i, d, fuel);
    assert RenderList(h, [], d, fuel - 1) == "";
    assert h[i].value.GetOr("") + "" == h[i].value.GetOr("");
  }

  /** The fixture's frame around the markup of its children. */
  lemma FixtureFrame(x: string)
    ensures Elem("p", "foo" + x) == "<p>foo" + x + "</p>"
  {
  }

  lemma FixtureWellFormed(h: Heap)
    requires |h| == 1 && h[0] == TagScenarios.P()
    ensures WellFormed(h)
  {
    assert NodeOk(h[0], 1);
  }

  /** The fixture holding one child renders that child between its value and its closing tag. */
  lemma FixtureOne(r: Heap, k: string, c: Id)
    requires |r| >= 2 && r[0].tag == "p" && r[0].value == Some("foo") && r[0].attributes == [] && r[0].children == [(k, c)]
    ensures Html(r, 0, Html5) == "<p>foo" + Render(r, c, Html5, |r| - 1) + "</p>"
  {
    TagScenarios.ParagraphNotVoid();
    BareOne(r, 0, k, c, Html5, |r|);
    FixtureFrame(Render(r, c, Html5, |r| - 1));
  }

  lemma StrongKnown()
    ensures IsKnownTag("strong") && !IsVoid("strong") && !IsVoid("p")
  {
  }

  lemma StrongFoo()
    ensures Elem("strong", "foo") == "<strong>foo</strong>"
  {
  }

  // ---------------------------------------------------------------- nesting

  /**
   * `nest('strong', 'foo')` on the fixture: a known tag with a text becomes
   * the element `<strong>foo</strong>`, appended under key 0.
   */
  lemma NestTagScenario(h: Heap)
    requires |h| == 1 && h[0] == TagScenarios.P()
    ensures WellFormed(h)
    ensures var r := NestString(h, 0, "strong", Some("foo"));
            && r[0].children == [("0", 1)]
            && r[1] == Element("strong", Some("foo")).(parent := Some(0))
            && Html(r, 0, Html5) == "<p>foo" + "<strong>foo</strong>" + "</p>"
  {
    FixtureWellFormed(h);
    StrongKnown();
    NestStringTag(h, 0, "strong", "foo");
    NextIndexEmpty<Id>();
    StrongInFixture(NestString(h, 0, "strong", Some("foo")));
  }

  /** The fixture holding `<strong>foo</strong>` under key 0. */
  lemma StrongInFixture(r: Heap)
    requires |r| == 2 && r[0] == TagScenarios.P().(children := [("0", 1)])
    requires r[1] == Element("strong", Some("foo")).(parent := Some(0))
    ensures Html(r, 0, Html5) == "<p>foo" + "<strong>foo</strong>" + "</p>"
  {
    StrongKnown();
    FixtureOne(r, "0", 1);
    BareLeaf(r, 1, Html5, 1);
    StrongFoo();
    assert Render(r, 1, Html5, |r| - 1) == "<strong>foo</strong>";
  }

  /**
   * `nest($s)` on the fixture for any string: `s` is raw markup, appended
   * as a text child under key 0 and rendered verbatim after the value.
   */
  lemma NestStringsScenario(h: Heap, s: string)
    requires |h| == 1 && h[0] == TagScenarios.P()
    ensures WellFormed(h)
    ensures var r := NestString(h, 0, s, None);
            && r[0].children == [("0", 1)]
            && r[1] == Text(s).(parent := Some(0))
            && Html(r, 0, Html5) == "<p>foo" + s + "</p>"
  {
    FixtureWellFormed(h);
    NestStringAlone(h, 0, s);
    NextIndexEmpty<Id>();
    TextInFixture(NestString(h, 0, s, None), s);
  }

  lemma TextInFixture(r: Heap, s: string)
    requires |r| == 2 && r[0] == TagScenarios.P().(children := [("0", 1)]) && r[1] == Text(s).(parent := Some(0))
    ensures Html(r, 0, Html5) == "<p>foo" + s + "</p>"
  {
    FixtureOne(r, "0", 1);
    TextLeaf(r, 1, Html5, 1);
    assert Render(r, 1, Html5, |r| - 1) == s;
  }

  /** `nest($strong)` with an element node: it goes under key 0 and renders inside the fixture. */
  lemma NestObjectScenario(h: Heap)
    requires |h| == 2 && h[0] == TagScenarios.P() && h[1] == Element("strong", Some("foo"))
    ensures WellFormed(h)
    ensures var r := NestNode(h, 0, 1, None);
            && r[0].children == [("0", 1)] && r[1].parent == Some(0)
            && Html(r, 0, Html5) == "<p>foo" + "<strong>foo</strong>" + "</p>"
  {
    assert NodeOk(h[0], 2) && NodeOk(h[1], 2);
    NextIndexEmpty<Id>();
    TagStructures.PutIntoEmpty("0", 1);
    var r := NestNode(h, 0, 1, None);
    assert r[0] == TagScenarios.P().(children := [("0", 1)]);
    assert r[1] == h[1].(parent := Some(0));
    StrongInFixture(r);
  }

  // ---------------------------------------------------------------- nesting along paths

  /** The heap of `testCanNestObjectsInChildren` after both calls: `p > body: strong > link: a`. */
  predicate LinkInStrong(r: Heap) {
    && |r| == 3
    && r[0] == TagScenarios.P().(children := [("body", 1)])
    && r[1] == Element("strong", Some("foo")).(children := [("link", 2)], parent := Some(0))
    && r[2] == Element("a", Some("foo")).(parent := Some(1))
  }

  lemma StrongLinkKnown()
    ensures !IsVoid("strong") && !IsVoid("a")
    ensures '.' !in "body" && '.' !in "link"
  {
  }

  /**
   * `nest($strong, 'body')` then `nest($link, 'body.link')`: the first path
   * has no dot and is a key of the fixture; the second resolves its prefix
   * `body` to the strong element and stores the link there under `link`.
   */
  lemma NestInChildrenShape(h: Heap)
    requires |h| == 3 && h[0] == TagScenarios.P()
    requires h[1] == Element("strong", Some("foo")) && h[2] == Element("a", Some("foo"))
    ensures WellFormed(h)
    ensures var r1 := NestNode(h, 0, 1, Some("body"));
            LinkInStrong(NestNode(r1, 0, 2, Some("body" + "." + "link")))
  {
    assert NodeOk(h[0], 3) && NodeOk(h[1], 3) && NodeOk(h[2], 3);
    StrongLinkKnown();
    var r1 := NestNode(h, 0, 1, Some("body"));
    TagStructures.PutIntoEmpty("body", 1);
    assert Target(h, 0, "body") == (0, "body");
    assert r1 == Adopt(h, 0, "body", 1);
    assert r1[0] == TagScenarios.P().(children := [("body", 1)]);
    assert r1[1] == h[1].(parent := Some(0)) && r1[2] == h[2];
    var path := "body" + "." + "link";
    SplitTwo("body", "link");
    assert '.' in path by { assert path[4] == '.'; }
    assert !Has(r1[0].children, path) by { assert Keys(r1[0].children) == ["body"]; KeysHas(r1[0].children, path); }
    assert Lookup(r1, 0, "body") == Some(1);
    assert Target(r1, 0, path) == (1, "link");
    TagStructures.PutIntoEmpty("link", 2);
    var r := Adopt(r1, 1, "link", 2);
    assert NestNode(r1, 0, 2, Some(path)) == r;
    assert r[0] == r1[0] && r[1] == r1[1].(children := [("link", 2)]) && r[2] == r1[2].(parent := Some(1));
  }

  lemma StrongAroundLink()
    ensures Elem("strong", "foo" + Elem("a", "foo")) == "<strong>foo" + "<a>foo</a>" + "</strong>"
  {
  }

  lemma LinkInStrongRendered(r: Heap)
    requires LinkInStrong(r)
    ensures Html(r, 0, Html5) == "<p>foo" + ("<strong>foo" + "<a>foo</a>" + "</strong>") + "</p>"
  {
    StrongLinkKnown();
    FixtureOne(r, "body", 1);
    BareOne(r, 1, "link", 2, Html5, 2);
    BareLeaf(r, 2, Html5, 1);
    StrongAroundLink();
    assert Render(r, 1, Html5, |r| - 1) == "<strong>foo" + "<a>foo</a>" + "</strong>";
  }

  /** `testCanNestObjectsInChildren`: the link renders inside the strong element, found at `body.link`. */
  lemma NestInChildrenScenario(h: Heap)
    requires |h| == 3 && h[0] == TagScenarios.P()
    requires h[1] == Element("strong", Some("foo")) && h[2] == Element("a", Some("foo"))
    ensures WellFormed(h)
    ensures var r1 := NestNode(h, 0, 1, Some("body"));
            var r := NestNode(r1, 0, 2, Some("body" + "." + "link"));
            && Lookup(r, 0, "body" + "." + "link") == Some(2)
            && Html(r, 0, Html5) == "<p>foo" + ("<strong>foo" + "<a>foo</a>" + "</strong>") + "</p>"
  {
    NestInChildrenShape(h);
    var r1 := NestNode(h, 0, 1, Some("body"));
    var r := NestNode(r1, 0, 2, Some("body" + "." + "link"));
    LinkInStrongRendered(r);
    StrongLinkKnown();
    LookupTwo(r, 0, "body", "link");
    assert Child(r, 0, "body" + "." + "link") == None by {
      assert Keys(r[0].children) == ["body"];
      KeysHas(r[0].children, "body" + "." + "link");
    }
    assert Walk(r, 2, []) == Some(2);
  }

  /** A node whose only key is a name, not an integer, takes its next child under key 0. */
  lemma NamedKeyNext(k: string, c: Id)
    requires |k| >= 1 && !IsDigit(k[0])
    ensures NextIndex([(k, c)]) == "0"
  {
    assert ParseIndex(k).None?;
    assert [(k, c)][1..] == [];
    assert MaxIndex([(k, c)]) == -1;
    assert Decimal(0) == "0";
  }

  /**
   * The heap of `testCanNestStringsInChildren` before the string goes in:
   * `p > body: div > title: h1 'bar' > strong: strong 'title'`.
   */
  predicate TitleInBody(g: Heap) {
    && |g| == 4
    && g[0] == TagScenarios.P().(children := [("body", 3)])
    && g[1] == Element("strong", Some("title")).(parent := Some(2))
    && g[2] == Element("h1", Some("bar")).(children := [("strong", 1)], parent := Some(3))
    && g[3] == Element("div", None).(children := [("title", 2)], parent := Some(0))
  }

  /** The same heap once `nest($s, 'body.title')` has appended the text `s` to the heading. */
  predicate TextInTitle(r: Heap, s: string) {
    && |r| == 5
    && r[0] == TagScenarios.P().(children := [("body", 3)])
    && r[1] == Element("strong", Some("title")).(parent := Some(2))
    && r[2] == Element("h1", Some("bar")).(children := [("strong", 1), ("0", 4)], parent := Some(3))
    && r[3] == Element("div", None).(children := [("title", 2)], parent := Some(0))
    && r[4] == Text(s).(parent := Some(2))
  }

  lemma TitleKeys()
    ensures '.' !in "strong" && '.' !in "title" && '.' !in "body"
    ensures !IsVoid("div") && !IsVoid("h1") && !IsVoid("strong")
  {
  }

  /** A plain key without a dot is stored as it is. */
  lemma NestAtKey(h: Heap, id: Id, c: Id, k: string)
    requires WellFormed(h) && id < |h| && c < |h| && '.' !in k
    ensures NestNode(h, id, c, Some(k)) == Adopt(h, id, k, c)
  {
  }

  /** `$title = h1('bar')->nest($strong, 'strong')`, `$object = div()->nest($title, 'title')`, `nest($object, 'body')`. */
  lemma TitleBuilt(h: Heap)
    requires |h| == 4 && h[0] == TagScenarios.P() && h[1] == Element("strong", Some("title"))
    requires h[2] == Element("h1", Some("bar")) && h[3] == Element("div", None)
    ensures WellFormed(h)
    ensures var g1 := NestNode(h, 2, 1, Some("strong"));
            var g2 := NestNode(g1, 3, 2, Some("title"));
            TitleInBody(NestNode(g2, 0, 3, Some("body")))
  {
    assert NodeOk(h[0], 4) && NodeOk(h[1], 4) && NodeOk(h[2], 4) && NodeOk(h[3], 4);
    TitleKeys();
    TagStructures.PutIntoEmpty("strong", 1);
    TagStructures.PutIntoEmpty("title", 2);
    TagStructures.PutIntoEmpty("body", 3);
    NestAtKey(h, 2, 1, "strong");
    var g1 := Adopt(h, 2, "strong", 1);
    NestAtKey(g1, 3, 2, "title");
    var g2 := Adopt(g1, 3, "title", 2);
    NestAtKey(g2, 0, 3, "body");
  }

  /** The path `body.title` resolves to the heading. */
  lemma TitlePath(g: Heap)
    requires TitleInBody(g)
    ensures WellFormed(g) && Lookup(g, 0, "body" + "." + "title") == Some(2)
  {
    assert NodeOk(g[0], 4) && NodeOk(g[1], 4) && NodeOk(g[2], 4) && NodeOk(g[3], 4);
    TitleKeys();
    assert Child(g, 0, "body" + "." + "title") == None by {
      assert Keys(g[0].children) == ["body"];
      KeysHas(g[0].children, "body" + "." + "title");
    }
    LookupTwo(g, 0, "body", "title");
    assert Child(g, 0, "body") == Some(3) && Child(g, 3, "title") == Some(2);
    assert Walk(g, 2, []) == Some(2);
  }

  /** A raw string nested at `body.title` goes last into the heading, under key 0. */
  lemma TextIntoTitle(g: Heap, s: string)
    requires TitleInBody(g) && !IsKnownTag(s)
    ensures WellFormed(g) && TextInTitle(NestString(g, 0, s, Some("body" + "." + "title")), s)
  {
    TitlePath(g);
    NestStringInto(g, 0, s, "body" + "." + "title");
    NamedKeyNext("strong", 1);
    assert [("strong", 1)] + [("0", 4)] == [("strong", 1), ("0", 4)];
  }

  lemma HeadingPieces(s: string)
    ensures Elem("strong", "title") == "<strong>title</strong>"
    ensures Elem("h1", "bar" + ("<strong>title</strong>" + s)) == "<h1>bar" + ("<strong>title</strong>" + s) + "</h1>"
  {
  }

  lemma DivPiece(y: string)
    ensures Elem("div", "" + y) == "<div>" + y + "</div>"
  {
  }

  lemma TextInTitleRendered(r: Heap, s: string)
    requires TextInTitle(r, s)
    ensures Html(r, 0, Html5) == "<p>foo" + ("<div>" + ("<h1>bar" + ("<strong>title</strong>" + s) + "</h1>") + "</div>") + "</p>"
  {
    TitleKeys();
    FixtureOne(r, "body", 3);
    BareOne(r, 3, "title", 2, Html5, 4);
    BareTwo(r, 2, "strong", 1, "0", 4, Html5, 3);
    BareLeaf(r, 1, Html5, 2);
    TextLeaf(r, 4, Html5, 2);
    HeadingPieces(s);
    var heading := "<h1>bar" + ("<strong>title</strong>" + s) + "</h1>";
    assert Render(r, 2, Html5, 3) == heading;
    DivPiece(heading);
    assert Render(r, 3, Html5, |r| - 1) == "<div>" + heading + "</div>";
  }

  /**
   * `testCanNestStringsInChildren`, for any raw string `s` that is not a tag
   * name: nested at `body.title`, it renders after the heading's strong child.
   */
  lemma NestStringsInChildrenScenario(h: Heap, s: string)
    requires |h| == 4 && h[0] == TagScenarios.P() && h[1] == Element("strong", Some("title"))
    requires h[2] == Element("h1", Some("bar")) && h[3] == Element("div", None)
    requires !IsKnownTag(s)
    ensures WellFormed(h)
    ensures var g1 := NestNode(h, 2, 1, Some("strong"));
            var g2 := NestNode(g1, 3, 2, Some("title"));
            var g := NestNode(g2, 0, 3, Some("body"));
            var r := NestString(g, 0, s, Some("body" + "." + "title"));
            Html(r, 0, Html5) == "<p>foo" + ("<div>" + ("<h1>bar" + ("<strong>title</strong>" + s) + "</h1>") + "</div>") + "</p>"
  {
    TitleBuilt(h);
    var g1 := NestNode(h, 2, 1, Some("strong"));
    var g2 := NestNode(g1, 3, 2, Some("title"));
    var g := NestNode(g2, 0, 3, Some("body"));
    TextIntoTitle(g, s);
    TextInTitleRendered(NestString(g, 0, s, Some("body" + "." + "title")), s);
  }

  /** The suite's string is raw markup, not a tag name. */
  lemma SomeoneUnknown()
    ensures !IsKnownTag("by <a>someone</a>")
  {
  }

  /** `testCanNestStringsInChildren` with the suite's own string. */
  lemma NestStringsInChildrenExample(h: Heap)
    requires |h| == 4 && h[0] == TagScenarios.P() && h[1] == Element("strong", Some("title"))
    requires h[2] == Element("h1", Some("bar")) && h[3] == Element("div", None)
    ensures WellFormed(h)
    ensures var g1 := NestNode(h, 2, 1, Some("strong"));
            var g2 := NestNode(g1, 3, 2, Some("title"));
            var g := NestNode(g2, 0, 3, Some("body"));
            var r := NestString(g, 0, "by <a>someone</a>", Some("body" + "." + "title"));
            Html(r, 0, Html5) ==
              "<p>foo" + ("<div>" + ("<h1>bar" + ("<strong>title</strong>" + "by <a>someone</a>") + "</h1>") + "</div>") + "</p>"
  {
    SomeoneUnknown();
    NestStringsInChildrenScenario(h, "by <a>someone</a>");
  }

  // ---------------------------------------------------------------- literal keys

  /** `nest($strong, 'foo')`, then `getChild('foo')` is that element. */
  lemma GetNestedScenario(h: Heap)
    requires |h| == 2 && h[0] == TagScenarios.P() && h[1] == Element("strong", Some("foo"))
    ensures WellFormed(h)
    ensures GetChild(NestNode(h, 0, 1, Some("foo")), 0, "foo") == Ok(1)
  {
    assert NodeOk(h[0], 2) && NodeOk(h[1], 2);
    assert '.' !in "foo";
    AttachLiteral(h, 0, "foo", 1);
  }

  /**
   * `setChild($p, '11:30 a.m.')`: a key with dots, stored as it is, is found
   * again by `getChild` with the same string, before any splitting.
   */
  lemma DottedKeyScenario(h: Heap)
    requires |h| == 2 && h[0] == TagScenarios.P() && h[1] == TagScenarios.P()
    ensures WellFormed(h)
    ensures var r := Adopt(h, 0, "11:30 a" + "." + "m" + ".", 1);
            && r[0].children == [("11:30 a" + "." + "m" + ".", 1)]
            && GetChild(r, 0, "11:30 a" + "." + "m" + ".") == Ok(1)
  {
    assert NodeOk(h[0], 2) && NodeOk(h[1], 2);
    var k := "11:30 a" + "." + "m" + ".";
    TagStructures.PutIntoEmpty(k, 1);
    var r := Adopt(h, 0, k, 1);
    assert Child(r, 0, k) == Some(1);
  }

  // ---------------------------------------------------------------- append / prepend

  /** `Element::create('p', 'foo')` and three `Element::strong('foo')`, all unlinked. */
  predicate FourElements(h: Heap) {
    && |h| == 4 && h[0] == TagScenarios.P()
    && h[1] == Element("strong", Some("foo")) && h[2] == h[1] && h[3] == h[1]
  }

  /** `nest(['foo' => $strong, 'baz' => $strong])`. */
  function FooBaz(): Collection {
    Keyed([("foo", Existing(1)), ("baz", Existing(2))])
  }

  /** A paragraph, node 0 of four, whose children are keyed `foo` then `baz`. */
  predicate FooBazParagraph(g: Heap) {
    WellFormed(g) && |g| == 4 && Keys(g[0].children) == ["foo", "baz"]
  }

  /** After nesting the keyed pair, the paragraph's keys are `foo` then `baz`. */
  lemma FooBazNested(h: Heap)
    requires FourElements(h)
    ensures WellFormed(h) && FooBazParagraph(NestChildren(h, 0, FooBaz()))
  {
    assert NodeOk(h[0], 4) && NodeOk(h[1], 4);
    var es := FooBaz().entries;
    assert '.' !in "foo" && '.' !in "baz";
    assert FreshKeys(h, 0, es);
    NestEntriesKeys(h, 0, es);
    assert EntryKeys(es) == ["foo", "baz"];
  }

  /** Where the keys `foo` and `baz` sit, and that the new keys are new. */
  lemma FooBazSlots(cs: Entries<Id>)
    requires Keys(cs) == ["foo", "baz"]
    ensures IndexOf(cs, "foo") == Some(0) && IndexOf(cs, "baz") == Some(1)
    ensures !Has(cs, "append") && !Has(cs, "prepend")
  {
    KeysHas(cs, "prepend");
    KeysHas(cs, "append");
    assert cs[0].0 == "foo" && cs[1].0 == "baz";
  }

  lemma BetweenFooBaz(ks: seq<string>, k: string)
    requires ks == ["foo", "baz"]
    ensures ks[..1] + [k] + ks[1..] == ["foo", k, "baz"]
  {
  }

  /** `appendChild($strong, 'append')` on that paragraph: keys `foo, baz, append`. */
  lemma AppendToAllScenario(g: Heap)
    requires FooBazParagraph(g)
    ensures Keys(AppendChild(g, 0, 3, Some("append"), None)[0].children) == ["foo", "baz", "append"]
  {
    FooBazSlots(g[0].children);
    AppendChildKeys(g, 0, 3, "append", None);
  }

  /** `prependChild($strong, 'prepend')`: keys `prepend, foo, baz`. */
  lemma PrependToAllScenario(g: Heap)
    requires FooBazParagraph(g)
    ensures Keys(PrependChild(g, 0, 3, Some("prepend"), None)[0].children) == ["prepend", "foo", "baz"]
  {
    FooBazSlots(g[0].children);
    PrependChildKeys(g, 0, 3, "prepend", None);
  }

  /** `prependChild($strong, 'prepend', 'baz')`: keys `foo, prepend, baz`. */
  lemma PrependToChildScenario(g: Heap)
    requires FooBazParagraph(g)
    ensures Keys(PrependChild(g, 0, 3, Some("prepend"), Some("baz"))[0].children) == ["foo", "prepend", "baz"]
  {
    FooBazSlots(g[0].children);
    PrependChildKeys(g, 0, 3, "prepend", Some("baz"));
    BetweenFooBaz(Keys(g[0].children), "prepend");
  }

  /** `appendChild($strong, 'append', 'foo')`: keys `foo, append, baz`. */
  lemma AppendToChildScenario(g: Heap)
    requires FooBazParagraph(g)
    ensures Keys(AppendChild(g, 0, 3, Some("append"), Some("foo"))[0].children) == ["foo", "append", "baz"]
  {
    FooBazSlots(g[0].children);
    AppendChildKeys(g, 0, 3, "append", Some("foo"));
    BetweenFooBaz(Keys(g[0].children), "append");
  }

  // ---------------------------------------------------------------- nestChildren

  /** Two entries are nested one after the other. */
  lemma NestTwo(h: Heap, id: Id, a: (string, Content), b: (string, Content))
    requires WellFormed(h) && id < |h| && EntriesOk([a, b], |h|)
    ensures (a.1.Existing? ==> a.1.node < |h|) && (b.1.Existing? ==> b.1.node < |h|)
    ensures NestChildren(h, id, Keyed([a, b])) == NestEntry(NestEntry(h, id, a.0, a.1), id, b.0, b.1)
  {
    var es := [a, b];
    assert es[0] == a && es[1] == b;
    assert a.1.Existing? ==> a.1.node < |h|;
    assert b.1.Existing? ==> b.1.node < |h|;
    assert es[..1] == [a] && [a][..0] == [];
    var h1 := NestEntry(h, id, a.0, a.1);
    assert NestEntries(h, id, [a]) == h1;
    assert NestEntries(h, id, es) == NestEntry(h1, id, b.0, b.1);
  }

  /** The fixture with two string entries nested under two distinct dot-free keys. */
  lemma TwoMarkupShape(h: Heap, k1: string, s1: string, k2: string, s2: string)
    requires |h| == 1 && h[0] == TagScenarios.P() && '.' !in k1 && '.' !in k2 && k1 != k2
    ensures WellFormed(h)
    ensures NestChildren(h, 0, Keyed([(k1, Markup(s1)), (k2, Markup(s2))])) ==
      [TagScenarios.P().(children := [(k1, 1), (k2, 2)]),
       MarkupNode(k1, s1).(parent := Some(0)), MarkupNode(k2, s2).(parent := Some(0))]
  {
    FixtureWellFormed(h);
    NestTwo(h, 0, (k1, Markup(s1)), (k2, Markup(s2)));
    var p := TagScenarios.P();
    NestMarkupEntry(h, 0, k1, s1);
    TagStructures.PutIntoEmpty(k1, 1);
    var h1 := NestEntry(h, 0, k1, Markup(s1));
    assert h1 == [p.(children := [(k1, 1)]), MarkupNode(k1, s1).(parent := Some(0))];
    NestMarkupEntry(h1, 0, k2, s2);
    assert !Has([(k1, 1)], k2);
    PutNew([(k1, 1)], k2, 2);
    assert [(k1, 1)] + [(k2, 2)] == [(k1, 1), (k2, 2)];
    var h2 := NestEntry(h1, 0, k2, Markup(s2));
    assert h2 == h1[0 := p.(children := [(k1, 1), (k2, 2)])] + [MarkupNode(k2, s2).(parent := Some(0))];
  }

  /** The fixture holding two children renders them in order between its value and its closing tag. */
  lemma FixtureTwo(r: Heap, k1: string, c1: Id, k2: string, c2: Id)
    requires |r| >= 3 && r[0].tag == "p" && r[0].value == Some("foo") && r[0].attributes == []
    requires r[0].children == [(k1, c1), (k2, c2)]
    ensures Html(r, 0, Html5) == "<p>foo" + (Render(r, c1, Html5, |r| - 1) + Render(r, c2, Html5, |r| - 1)) + "</p>"
  {
    TagScenarios.ParagraphNotVoid();
    BareTwo(r, 0, k1, c1, k2, c2, Html5, |r|);
    FixtureFrame(Render(r, c1, Html5, |r| - 1) + Render(r, c2, Html5, |r| - 1));
  }

  lemma StrongEmKnown()
    ensures IsKnownTag("strong") && IsKnownTag("em") && !IsKnownTag("foobar")
    ensures !IsVoid("strong") && !IsVoid("em")
    ensures '.' !in "strong" && '.' !in "em" && '.' !in "foobar"
    ensures Elem("strong", "foo") == "<strong>foo</strong>" && Elem("em", "bar") == "<em>bar</em>"
  {
    StrongEmNames();
    StrongEmDotFree();
    StrongEmElems();
  }

  lemma StrongEmNames()
    ensures IsKnownTag("strong") && IsKnownTag("em") && !IsKnownTag("foobar")
    ensures !IsVoid("strong") && !IsVoid("em")
  {
  }

  lemma StrongEmDotFree()
    ensures '.' !in "strong" && '.' !in "em" && '.' !in "foobar"
  {
  }

  lemma StrongEmElems()
    ensures Elem("strong", "foo") == "<strong>foo</strong>" && Elem("em", "bar") == "<em>bar</em>"
  {
  }

  /** The fixture holding `<strong>foo</strong>` and `<em>bar</em>`, in that order. */
  lemma StrongEmRendered(r: Heap, k1: string, k2: string)
    requires |r| == 3 && r[0] == TagScenarios.P().(children := [(k1, 1), (k2, 2)])
    requires r[1] == Element("strong", Some("foo")).(parent := Some(0))
    requires r[2] == Element("em", Some("bar")).(parent := Some(0))
    ensures Html(r, 0, Html5) == "<p>foo" + ("<strong>foo</strong>" + "<em>bar</em>") + "</p>"
  {
    StrongEmKnown();
    FixtureTwo(r, k1, 1, k2, 2);
    BareLeaf(r, 1, Html5, 2);
    BareLeaf(r, 2, Html5, 2);
    assert Render(r, 1, Html5, |r| - 1) == "<strong>foo</strong>";
    assert Render(r, 2, Html5, |r| - 1) == "<em>bar</em>";
  }

  /**
   * `nestChildren(['strong' => 'foo', 'em' => 'bar'])` (and `nest` of the
   * same array): each key is a tag name, so each string becomes that element.
   */
  lemma NestMultipleValuesScenario(h: Heap)
    requires |h| == 1 && h[0] == TagScenarios.P()
    ensures WellFormed(h)
    ensures Html(NestChildren(h, 0, Keyed([("strong", Markup("foo")), ("em", Markup("bar"))])), 0, Html5) ==
      "<p>foo" + ("<strong>foo</strong>" + "<em>bar</em>") + "</p>"
  {
    StrongEmKnown();
    TwoMarkupShape(h, "strong", "foo", "em", "bar");
    StrongEmRendered(NestChildren(h, 0, Keyed([("strong", Markup("foo")), ("em", Markup("bar"))])), "strong", "em");
  }

  /** The fixture holding `<strong>foo</strong>` and the raw text `bar`. */
  lemma StrongTextRendered(r: Heap, k1: string, k2: string)
    requires |r| == 3 && r[0] == TagScenarios.P().(children := [(k1, 1), (k2, 2)])
    requires r[1] == Element("strong", Some("foo")).(parent := Some(0))
    requires r[2] == Text("bar").(parent := Some(0))
    ensures Html(r, 0, Html5) == "<p>foo" + ("<strong>foo</strong>" + "bar") + "</p>"
  {
    StrongEmKnown();
    FixtureTwo(r, k1, 1, k2, 2);
    BareLeaf(r, 1, Html5, 2);
    TextLeaf(r, 2, Html5, 2);
    assert Render(r, 1, Html5, |r| - 1) == "<strong>foo</strong>";
    assert Render(r, 2, Html5, |r| - 1) == "bar";
  }

  /** `nest(['strong' => 'foo', 'foobar' => 'bar'])`: `foobar` is no tag, so `bar` is nested as raw text. */
  lemma UnknownTagScenario(h: Heap)
    requires |h| == 1 && h[0] == TagScenarios.P()
    ensures WellFormed(h)
    ensures Html(NestChildren(h, 0, Keyed([("strong", Markup("foo")), ("foobar", Markup("bar"))])), 0, Html5) ==
      "<p>foo" + ("<strong>foo</strong>" + "bar") + "</p>"
  {
    StrongEmKnown();
    TwoMarkupShape(h, "strong", "foo", "foobar", "bar");
    StrongTextRendered(NestChildren(h, 0, Keyed([("strong", Markup("foo")), ("foobar", Markup("bar"))])), "strong", "foobar");
  }

  // ---------------------------------------------------------------- several objects

  /** A paragraph, a `<strong>foo` and a `<p>bar`, none nested yet. */
  predicate StrongAndParagraph(h: Heap) {
    && |h| == 3 && h[0] == TagScenarios.P()
    && h[1] == Element("strong", Some("foo")) && h[2] == Element("p", Some("bar"))
  }

  /** `nestChildren(['foo' => $strong, 'bar' => $p])`: each object is the child under its own key. */
  lemma NestMultipleElementsScenario(h: Heap)
    requires StrongAndParagraph(h)
    ensures WellFormed(h)
    ensures var r := NestChildren(h, 0, Keyed([("foo", Existing(1)), ("bar", Existing(2))]));
            GetChild(r, 0, "foo") == Ok(1) && GetChild(r, 0, "bar") == Ok(2)
  {
    assert NodeOk(h[0], 3) && NodeOk(h[1], 3) && NodeOk(h[2], 3);
    var es := [("foo", Existing(1)), ("bar", Existing(2))];
    assert '.' !in "foo" && '.' !in "bar";
    assert FreshKeys(h, 0, es);
    NestEntriesChildren(h, 0, es);
    assert es[0].0 == "foo" && es[1].0 == "bar";
  }

  /** A paragraph, a `<strong>foo` and an `<em>bar`, none nested yet. */
  predicate StrongAndEm(h: Heap) {
    && |h| == 3 && h[0] == TagScenarios.P()
    && h[1] == Element("strong", Some("foo")) && h[2] == Element("em", Some("bar"))
  }

  lemma StrongAndEmWellFormed(h: Heap)
    requires StrongAndEm(h)
    ensures WellFormed(h)
  {
    assert NodeOk(h[0], 3) && NodeOk(h[1], 3) && NodeOk(h[2], 3);
  }

  /** A PHP list of two items is keyed `0` and `1`. */
  lemma ListedTwo(a: Content, b: Content)
    ensures Listed([a, b]) == [("0", a), ("1", b)]
  {
    var es := Listed([a, b]);
    assert Decimal(0) == "0" && Decimal(1) == "1";
    assert es[0] == ("0", a) && es[1] == ("1", b);
  }

  /** Both objects nested under two distinct dot-free keys, in that order. */
  lemma TwoObjectsShape(h: Heap, k1: string, k2: string)
    requires WellFormed(h) && |h| == 3 && h[0] == TagScenarios.P() && '.' !in k1 && '.' !in k2 && k1 != k2
    ensures var r := NestChildren(h, 0, Keyed([(k1, Existing(1)), (k2, Existing(2))]));
            && |r| == 3 && r[0] == TagScenarios.P().(children := [(k1, 1), (k2, 2)])
            && r[1] == h[1].(parent := Some(0)) && r[2] == h[2].(parent := Some(0))
  {
    NestTwo(h, 0, (k1, Existing(1)), (k2, Existing(2)));
    AttachPlain(h, 0, k1, 1);
    TagStructures.PutIntoEmpty(k1, 1);
    var h1 := Adopt(h, 0, k1, 1);
    assert h1[0] == TagScenarios.P().(children := [(k1, 1)]);
    AttachPlain(h1, 0, k2, 2);
    assert !Has([(k1, 1)], k2);
    PutNew([(k1, 1)], k2, 2);
    assert [(k1, 1)] + [(k2, 2)] == [(k1, 1), (k2, 2)];
  }

  /** `nestChildren([$strong, $em])`: a list is keyed `0`, `1` and renders in list order. */
  lemma NestMultipleObjectsScenario(h: Heap)
    requires StrongAndEm(h)
    ensures WellFormed(h)
    ensures var r := NestChildren(h, 0, Keyed(Listed([Existing(1), Existing(2)])));
            && Keys(r[0].children) == ["0", "1"]
            && Html(r, 0, Html5) == "<p>foo" + ("<strong>foo</strong>" + "<em>bar</em>") + "</p>"
  {
    ListedTwo(Existing(1), Existing(2));
    var col := Keyed(Listed([Existing(1), Existing(2)]));
    assert col == Keyed([("0", Existing(1)), ("1", Existing(2))]);
    StrongAndEmWellFormed(h);
    TwoObjectsShape(h, "0", "1");
    var r := NestChildren(h, 0, col);
    assert Keys(r[0].children) == ["0", "1"];
    StrongEmRendered(r, "0", "1");
  }

  // ---------------------------------------------------------------- walking the tree

  /** `nest($strong)`, then `getChild(0)->getParent()`: the child's parent is the fixture. */
  lemma WalkTreeScenario(h: Heap)
    requires |h| == 2 && h[0] == TagScenarios.P() && h[1] == Element("strong", Some("foo"))
    ensures WellFormed(h)
    ensures var r := NestNode(h, 0, 1, None);
            GetChild(r, 0, "0") == Ok(1) && GetParent(r, 1, 0) == Some(0)
  {
    assert NodeOk(h[0], 2) && NodeOk(h[1], 2);
    NextIndexEmpty<Id>();
    NestNodeAppends(h, 0, 1);
  }

  /** The strong element under key 0 of the fixture, with the attributes `a`. */
  predicate StyledChild(r: Heap, a: Attrs) {
    && |r| == 2 && r[0] == TagScenarios.P().(children := [("0", 1)])
    && r[1] == Element("strong", Some("foo")).(attributes := a, parent := Some(0))
  }

  lemma StyledChildRendered(r: Heap, a: Attrs)
    requires StyledChild(r, a)
    ensures Html(r, 0, Html5) == "<p>foo" + ("<strong" + RenderAttributes(a) + ">foo</strong>") + "</p>"
  {
    StrongKnown();
    FixtureOne(r, "0", 1);
    RenderChildless(r, 1, Html5, 1);
    StrongRegroup(RenderAttributes(a));
    assert Render(r, 1, Html5, |r| - 1) == "<strong" + RenderAttributes(a) + ">foo</strong>";
  }

  lemma StrongRegroup(x: string)
    ensures "<" + "strong" + x + ">" + "foo" + "</" + "strong" + ">" == "<strong" + x + ">foo</strong>"
  {
  }

  /** `addClass('foo')` on an element without attributes renders as ` class="foo"`. */
  lemma FooClass()
    ensures RenderAttributes(AddClass([], "foo")) == " class=\"foo\""
  {
    assert IsToken("foo") && Join(["foo"], ' ') == "foo";
    TagScenarios.AddFirstClass("foo");
    TagScenarios.ClassAttribute("foo");
    assert RenderAttributes(TagScenarios.ClassOf(["foo"])) == RenderAttribute(ClassName, Str("foo"));
  }

  /**
   * `nest($strong)`, then `getChild(0)->addClass('foo')`: the class shows on
   * the nested element, so the child is the object itself, not a copy.
   */
  lemma ModifyChildrenScenario(h: Heap)
    requires |h| == 2 && h[0] == TagScenarios.P() && h[1] == Element("strong", Some("foo"))
    ensures WellFormed(h)
    ensures var r := NestNode(h, 0, 1, None);
            && GetChild(r, 0, "0") == Ok(1)
            && var r2 := r[1 := r[1].(attributes := AddClass(r[1].attributes, "foo"))];
               Html(r2, 0, Html5) == "<p>foo" + "<strong class=\"foo\">foo</strong>" + "</p>"
  {
    WalkTreeScenario(h);
    var r := NestNode(h, 0, 1, None);
    var a := AddClass(r[1].attributes, "foo");
    StyledChildShape(h, a);
    FooClass();
    assert RenderAttributes(a) == " class=\"foo\"";
    StyledChildRendered(r[1 := r[1].(attributes := a)], a);
    ClassedStrong();
  }

  lemma ClassedStrong()
    ensures "<strong" + " class=\"foo\"" + ">foo</strong>" == "<strong class=\"foo\">foo</strong>"
  {
  }

  /** After `nest($strong)`, giving the child the attributes `a` leaves the heap of `StyledChild`. */
  lemma StyledChildShape(h: Heap, a: Attrs)
    requires |h| == 2 && h[0] == TagScenarios.P() && h[1] == Element("strong", Some("foo"))
    ensures WellFormed(h)
    ensures var r := NestNode(h, 0, 1, None);
            r[1].attributes == [] && StyledChild(r[1 := r[1].(attributes := a)], a)
  {
    assert NodeOk(h[0], 2) && NodeOk(h[1], 2);
    NextIndexEmpty<Id>();
    TagStructures.PutIntoEmpty("0", 1);
    var r := NestNode(h, 0, 1, None);
    assert r[0] == TagScenarios.P().(children := [("0", 1)]);
    assert r[1] == h[1].(parent := Some(0));
  }

  /**
   * `nest('<strong>foo</strong>')`, then `getChild(0)->addClass('foo')`: the
   * child is a text node, whose attributes never render, so the markup is
   * unchanged.
   */
  lemma CrawlToTextScenario(h: Heap, s: string, classes: string)
    requires |h| == 1 && h[0] == TagScenarios.P()
    ensures WellFormed(h)
    ensures var r := NestString(h, 0, s, None);
            && GetChild(r, 0, "0") == Ok(1)
            && var r2 := r[1 := r[1].(attributes := AddClass(r[1].attributes, classes))];
               Html(r2, 0, Html5) == "<p>foo" + s + "</p>"
  {
    NestStringsScenario(h, s);
    var r := NestString(h, 0, s, None);
    var r2 := r[1 := r[1].(attributes := AddClass(r[1].attributes, classes))];
    FixtureOne(r2, "0", 1);
    TextLeaf(r2, 1, Html5, 1);
    assert Render(r2, 1, Html5, |r2| - 1) == s;
  }

  // ---------------------------------------------------------------- several layers

  /** `p > k1: strong 'foo' > k2: em 'bar'`. */
  predicate Chain(r: Heap, k1: string, k2: string) {
    && |r| == 3
    && r[0] == TagScenarios.P().(children := [(k1, 1)])
    && r[1] == Element("strong", Some("foo")).(children := [(k2, 2)], parent := Some(0))
    && r[2] == Element("em", Some("bar")).(parent := Some(1))
  }

  /** The strong element stored in the fixture under `k1`, then the em element in it under `k2`. */
  lemma ChainShape(h: Heap, k1: string, k2: string)
    requires StrongAndEm(h)
    ensures WellFormed(h)
    ensures var r1 := Adopt(h, 0, k1, 1);
            && Child(r1, 0, k1) == Some(1)
            && Chain(Adopt(r1, 1, k2, 2), k1, k2)
  {
    StrongAndEmWellFormed(h);
    TagStructures.PutIntoEmpty(k1, 1);
    TagStructures.PutIntoEmpty(k2, 2);
    var r1 := Adopt(h, 0, k1, 1);
    assert r1[0] == TagScenarios.P().(children := [(k1, 1)]);
    assert r1[1] == h[1].(parent := Some(0)) && r1[2] == h[2];
    var r := Adopt(r1, 1, k2, 2);
    assert r[0] == r1[0] && r[1] == r1[1].(children := [(k2, 2)]) && r[2] == r1[2].(parent := Some(1));
  }

  lemma StrongAroundEm()
    ensures !IsVoid("strong") && !IsVoid("em")
    ensures Elem("strong", "foo" + Elem("em", "bar")) == "<strong>foo" + "<em>bar</em>" + "</strong>"
  {
    assert Elem("em", "bar") == "<em>bar</em>";
    EmInStrong("<em>bar</em>");
  }

  lemma EmInStrong(x: string)
    ensures Elem("strong", "foo" + x) == "<strong>foo" + x + "</strong>"
  {
  }

  lemma ChainRendered(r: Heap, k1: string, k2: string)
    requires Chain(r, k1, k2)
    ensures Html(r, 0, Html5) == "<p>foo" + ("<strong>foo" + "<em>bar</em>" + "</strong>") + "</p>"
  {
    StrongAroundEm();
    FixtureOne(r, k1, 1);
    BareOne(r, 1, k2, 2, Html5, 2);
    BareLeaf(r, 2, Html5, 1);
    assert Render(r, 1, Html5, |r| - 1) == "<strong>foo" + "<em>bar</em>" + "</strong>";
  }

  /** In the chain, `k1.k2` leads to the em element, and climbing from it reaches the strong element, then the fixture. */
  lemma ChainWalked(r: Heap, k1: string, k2: string)
    requires Chain(r, k1, k2) && '.' !in k1 && '.' !in k2
    ensures WellFormed(r)
    ensures GetChild(r, 0, k1 + "." + k2) == Ok(2)
    ensures GetParent(r, 2, 0) == Some(1) && GetParent(r, 1, 0) == Some(0) && GetParent(r, 2, 1) == Some(0)
  {
    assert NodeOk(r[0], 3) && NodeOk(r[1], 3) && NodeOk(r[2], 3);
    LookupTwo(r, 0, k1, k2);
    assert Child(r, 0, k1 + "." + k2) == None by {
      assert Keys(r[0].children) == [k1];
      KeysHas(r[0].children, k1 + "." + k2);
      assert k1 + "." + k2 != k1 by { assert |k1 + "." + k2| > |k1|; }
    }
    assert Child(r, 0, k1) == Some(1) && Child(r, 1, k2) == Some(2);
    assert Walk(r, 2, []) == Some(2);
    GetParentStep(r, 2, 0);
  }

  /**
   * `nest($strong, 'strong')->getChild('strong')->nest($em, 'em')`: the em
   * element renders inside the strong one and is found at `strong.em`.
   */
  lemma CrawlSeveralLayersScenario(h: Heap)
    requires StrongAndEm(h)
    ensures WellFormed(h)
    ensures var r1 := NestNode(h, 0, 1, Some("strong"));
            && GetChild(r1, 0, "strong") == Ok(1)
            && var r := NestNode(r1, 1, 2, Some("em"));
               && Html(r, 0, Html5) == "<p>foo" + ("<strong>foo" + "<em>bar</em>" + "</strong>") + "</p>"
               && GetChild(r, 0, "strong" + "." + "em") == Ok(2)
  {
    StrongAndEmWellFormed(h);
    assert '.' !in "strong" && '.' !in "em";
    ChainShape(h, "strong", "em");
    AttachPlain(h, 0, "strong", 1);
    var r1 := Adopt(h, 0, "strong", 1);
    AttachPlain(r1, 1, "em", 2);
    var r := Adopt(r1, 1, "em", 2);
    ChainRendered(r, "strong", "em");
    ChainWalked(r, "strong", "em");
  }

  /**
   * `nest($strong)->getChild(0)->nest($em)`: both go under the automatic
   * key 0, so the em element is found at `0.0`.
   */
  lemma CrawlAnonymousLayersScenario(h: Heap)
    requires StrongAndEm(h)
    ensures WellFormed(h)
    ensures var r1 := NestNode(h, 0, 1, None);
            && GetChild(r1, 0, "0") == Ok(1)
            && var r := NestNode(r1, 1, 2, None);
               && Html(r, 0, Html5) == "<p>foo" + ("<strong>foo" + "<em>bar</em>" + "</strong>") + "</p>"
               && GetChild(r, 0, "0" + "." + "0") == Ok(2)
  {
    StrongAndEmWellFormed(h);
    NextIndexEmpty<Id>();
    ChainShape(h, "0", "0");
    var r1 := Adopt(h, 0, "0", 1);
    assert r1[1].children == [];
    var r := Adopt(r1, 1, "0", 2);
    ChainRendered(r, "0", "0");
    ChainWalked(r, "0", "0");
  }

  /**
   * `testCanGoBackUpSeveralLevels`: from the em element at `strong.em`,
   * the parent's parent is the fixture, and so is `getParent(1)`.
   */
  lemma UpSeveralLevelsScenario(h: Heap)
    requires StrongAndEm(h)
    ensures WellFormed(h)
    ensures var r := NestNode(NestNode(h, 0, 1, Some("strong")), 1, 2, Some("em"));
            && GetChild(r, 0, "strong" + "." + "em") == Ok(2)
            && GetParent(r, 2, 0) == Some(1) && GetParent(r, 1, 0) == Some(0)
            && GetParent(r, 2, 1) == Some(0)
  {
    StrongAndEmWellFormed(h);
    assert '.' !in "strong" && '.' !in "em";
    ChainShape(h, "strong", "em");
    AttachPlain(h, 0, "strong", 1);
    var r1 := Adopt(h, 0, "strong", 1);
    AttachPlain(r1, 1, "em", 2);
    var r := Adopt(r1, 1, "em", 2);
    assert NestNode(NestNode(h, 0, 1, Some("strong")), 1, 2, Some("em")) == r;
    ChainWalked(r, "strong", "em");
  }

  // ---------------------------------------------------------------- parents and children

  /** `setParent(div())`: afterwards the fixture has a parent; before, it had none. */
  lemma HasParentScenario(h: Heap)
    requires |h| == 2 && h[0] == TagScenarios.P() && h[1] == Element("div", None)
    ensures !HasParent(h, 0)
    ensures HasParent(h[0 := h[0].(parent := Some(1))], 0)
  {
  }

  /** The fixture has no children until `nest(div())`. */
  lemma HasChildrenScenario(h: Heap)
    requires |h| == 2 && h[0] == TagScenarios.P() && h[1] == Element("div", None)
    ensures WellFormed(h)
    ensures !HasChildren(h, 0)
    ensures HasChildren(NestNode(h, 0, 1, None), 0)
  {
    assert NodeOk(h[0], 2) && NodeOk(h[1], 2);
    NestNodeAppends(h, 0, 1);
    var r := NestNode(h, 0, 1, None);
    assert |Keys(r[0].children)| == 1;
  }

  /** `Input::create('text')`: a text input, void, with only its type set. */
  function TextInput(): Node {
    Element("input", None).(attributes := [("type", Str("text"))])
  }

  lemma InputPieces()
    ensures IsVoid("input") && !IsVoid("div") && '.' !in "foo"
    ensures RenderAttributes(TextInput().attributes) == " type=\"text\""
    ensures Elem("div", "foo" + ("<input" + " type=\"text\"" + ">")) == "<div>foo<input type=\"text\"></div>"
  {
    TypeText();
    InputInDivText();
  }

  lemma TypeText()
    ensures RenderAttributes(TextInput().attributes) == " type=\"text\""
  {
    assert !IsDataName("type") by { assert "type"[0] != "data-"[0]; }
    assert RenderAttributes(TextInput().attributes) == RenderAttribute("type", Str("text"));
  }

  lemma InputInDivText()
    ensures Elem("div", "foo" + ("<input" + " type=\"text\"" + ">")) == "<div>foo<input type=\"text\"></div>"
  {
  }

  /** A div holding the text input under `foo`. */
  predicate InputInDiv(r: Heap) {
    && |r| == 2
    && r[0] == Element("div", Some("foo")).(children := [("foo", 1)])
    && r[1] == TextInput().(parent := Some(0))
  }

  lemma InputInDivRendered(r: Heap)
    requires InputInDiv(r)
    ensures Html(r, 0, Html5) == "<div>foo<input type=\"text\"></div>"
  {
    InputPieces();
    BareOne(r, 0, "foo", 1, Html5, 2);
    RenderVoid(r, 1, Html5, 1);
    assert Render(r, 1, Html5, 1) == "<input" + " type=\"text\"" + ">";
  }

  /**
   * `div('foo')->nest(['foo' => Input::create('text')])`: a void child
   * renders as its opening tag alone, with no closing tag.
   */
  lemma SelfClosingChildScenario(h: Heap)
    requires |h| == 2 && h[0] == Element("div", Some("foo")) && h[1] == TextInput()
    ensures WellFormed(h)
    ensures Html(NestChildren(h, 0, Keyed([("foo", Existing(1))])), 0, Html5) == "<div>foo<input type=\"text\"></div>"
  {
    assert NodeOk(h[0], 2) && NodeOk(h[1], 2);
    InputPieces();
    var es := [("foo", Existing(1))];
    assert es[..0] == [];
    AttachPlain(h, 0, "foo", 1);
    assert NestChildren(h, 0, Keyed(es)) == Adopt(h, 0, "foo", 1);
    TagStructures.PutIntoEmpty("foo", 1);
    var r := Adopt(h, 0, "foo", 1);
    assert r[0] == h[0].(children := [("foo", 1)]);
    InputInDivRendered(r);
  }

  // ---------------------------------------------------------------- siblings

  /** A paragraph and two empty divs, none nested yet. */
  predicate ParagraphAndDivs(h: Heap) {
    |h| == 3 && h[0] == TagScenarios.P() && h[1] == Element("div", None) && h[2] == Element("div", None)
  }

  lemma FirstLastNames()
    ensures '.' !in "first" && '.' !in "last" && "first" != "last"
    ensures Decamel("first", '.') == "first" && Decamel("last", '.') == "last"
  {
    PlainPath("first");
    PlainPath("last");
  }

  /** A lower-case name reads as one key. */
  lemma PlainPath(s: string)
    requires forall i :: 0 <= i < |s| ==> 'a' <= s[i] <= 'z'
    ensures Decamel(s, '.') == s
  {
    DecamelPlain(s, '.');
  }

  /**
   * `nestChildren(['first' => div(), 'last' => div()])`, then `$el->first`
   * and `$el->last`: `last` is after `first` and not the other way round.
   */
  lemma IsAfterSiblingScenario(h: Heap)
    requires ParagraphAndDivs(h)
    ensures WellFormed(h)
    ensures var r := NestChildren(h, 0, Keyed([("first", Existing(1)), ("last", Existing(2))]));
            && GetDynamic(r, 0, "first") == ChildNode(1) && GetDynamic(r, 0, "last") == ChildNode(2)
            && IsAfter(r, 2, "first") && !IsAfter(r, 1, "last")
  {
    assert NodeOk(h[0], 3) && NodeOk(h[1], 3) && NodeOk(h[2], 3);
    var r := NestChildren(h, 0, Keyed([("first", Existing(1)), ("last", Existing(2))]));
    FirstLastShape(h);
    SiblingsRead(r);
    SiblingsOrdered(r);
  }

  lemma FirstLastShape(h: Heap)
    requires ParagraphAndDivs(h)
    ensures WellFormed(h)
    ensures FirstAndLast(NestChildren(h, 0, Keyed([("first", Existing(1)), ("last", Existing(2))])))
  {
    assert NodeOk(h[0], 3) && NodeOk(h[1], 3) && NodeOk(h[2], 3);
    var r := NestChildren(h, 0, Keyed([("first", Existing(1)), ("last", Existing(2))]));
    FirstLastNames();
    TwoObjectsShape(h, "first", "last");
  }

  /** The paragraph with the two divs under `first` and `last`. */
  predicate FirstAndLast(r: Heap) {
    && |r| == 3 && r[0] == TagScenarios.P().(children := [("first", 1), ("last", 2)])
    && r[1] == Element("div", None).(parent := Some(0)) && r[2] == r[1]
  }

  lemma FirstAndLastWellFormed(r: Heap)
    requires FirstAndLast(r)
    ensures WellFormed(r)
  {
    assert NodeOk(r[0], 3) && NodeOk(r[1], 3) && NodeOk(r[2], 3);
  }

  /** `$el->first` and `$el->last` read the children under those keys. */
  lemma SiblingsRead(r: Heap)
    requires FirstAndLast(r)
    ensures WellFormed(r)
    ensures GetDynamic(r, 0, "first") == ChildNode(1) && GetDynamic(r, 0, "last") == ChildNode(2)
  {
    FirstAndLastWellFormed(r);
    FirstLastNames();
    FirstLastSlots(r[0].children);
  }

  /** Where the two keys and the two children sit. */
  lemma FirstLastSlots(cs: Entries<Id>)
    requires cs == [("first", 1), ("last", 2)]
    ensures Get(cs, "first") == Some(1) && Get(cs, "last") == Some(2)
    ensures SlotOf(cs, 1) == Some(0) && SlotOf(cs, 2) == Some(1)
    ensures cs[0] == ("first", 1) && cs[1] == ("last", 2)
  {
    assert SlotOf(cs, 2) == Some(1) by { assert cs[1..][0].1 == 2; }
  }

  /** `last` comes after `first`, and `first` not after `last`. */
  lemma SiblingsOrdered(r: Heap)
    requires FirstAndLast(r)
    ensures IsAfter(r, 2, "first") && !IsAfter(r, 1, "last")
  {
    FirstAndLastWellFormed(r);
    FirstLastSlots(r[0].children);
    IsAfterOrder(r, 0, 1, "first", 0, 2, "last", 1);
  }

  /** `nest(div('foo'), 'body')`: `hasChild('body')` holds and `hasChild('title')` does not. */
  lemma HasChildScenario(h: Heap)
    requires |h| == 2 && h[0] == TagScenarios.P() && h[1] == Element("div", Some("foo"))
    ensures WellFormed(h)
    ensures var r := NestNode(h, 0, 1, Some("body"));
            HasChild(r, 0, "body") && !HasChild(r, 0, "title")
  {
    assert NodeOk(h[0], 2) && NodeOk(h[1], 2);
    assert '.' !in "body" && '.' !in "title";
    AttachPlain(h, 0, "body", 1);
    TagStructures.PutIntoEmpty("body", 1);
    var r := Adopt(h, 0, "body", 1);
    assert r[0].children == [("body", 1)];
    assert !Has(r[0].children, "title");
    assert Split("title", '.') == ["title"];
    assert Walk(r, 0, ["title"]) == None;
  }
}
