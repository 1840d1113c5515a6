/**
 * The behaviour the element suite pins down, each test as a lemma over the
 * model: the element `new Element('p', 'foo')` the suite starts from, the
 * calls it makes as the functions the `Document` methods are specified by,
 * and the string or state the test expects.
 */
module TagScenarios {
  import opened Wrappers
  import opened Strings
  import opened OrderedMap
  import opened Attributes
  import opened Tree
  import opened TreeEdits
  import opened Markup
  import opened Fragments

  /** The suite's fixture, `new Element('p', 'foo')`. */
  function P(): Node {
    Element("p", Some("foo"))
  }

  /** A lone childless element renders as `<tag attrs>value</tag>`. */
  lemma RenderAlone(n: Node, d: Doctype)
    requires n.tag != "" && !IsVoid(n.tag) && n.children == []
    ensures Html([n], 0, d) == "<" + n.tag + RenderAttributes(n.attributes) + ">" + n.value.GetOr("") + "</" + n.tag + ">"
  {
    RenderLeaf([n], 0, d);
  }

  lemma ParagraphNotVoid()
    ensures !IsVoid("p")
  {
  }

  lemma FixtureAlone(a: Attrs)
    requires !IsVoid("p")
    ensures Html([Element("p", Some("foo")).(attributes := a)], 0, Html5) ==
      "<" + "p" + RenderAttributes(a) + ">" + "foo" + "</" + "p" + ">"
  {
    RenderAlone(Element("p", Some("foo")).(attributes := a), Html5);
  }

  lemma FixtureRegroup(x: string)
    ensures "<" + "p" + x + ">" + "foo" + "</" + "p" + ">" == "<p" + x + ">foo</p>"
  {
  }

  /** The fixture, whatever its attributes, renders as `<p attrs>foo</p>`. */
  lemma FixtureRendered(a: Attrs)
    ensures Html([P().(attributes := a)], 0, Html5) == "<p" + RenderAttributes(a) + ">foo</p>"
  {
    ParagraphNotVoid();
    FixtureAlone(a);
    FixtureRegroup(RenderAttributes(a));
  }

  // ---------------------------------------------------------------- attributes

  /** `setAttribute('data-foo', 'bar')`, then `getAttributes()` and `getAttribute('data-foo')`. */
  lemma SetAttributeScenario()
    ensures var a := Put(P().attributes, "data-foo", Str("bar"));
            a == [("data-foo", Str("bar"))] && Get(a, "data-foo") == Some(Str("bar"))
  {
  }

  function Json1(): string { "{\"foo\":\"bar\",\"baz\":\"qux\"}" }

  function Json2(): string { "[\"foo\", \"bar\", \"baz\"]" }

  /** The two values the suite stores, a JSON object and a JSON array. */
  lemma SuiteJsonShaped()
    ensures IsJsonShaped(Json1()) && IsJsonShaped(Json2())
  {
    assert Json1()[0] == '{' && Json2()[0] == '[';
  }

  /**
   * `dataTags($json)`, twice: `dataTags` names `data-tags`, a JSON-shaped value
   * renders single-quoted, and the second call overwrites the first.
   */
  lemma JsonScenario(first: string, second: string)
    requires IsJsonShaped(first) && IsJsonShaped(second)
    ensures SetDynamic([], "data" + "Tags", Some(Str(first))) == [("data-tags", Str(first))]
    ensures SetDynamic([("data-tags", Str(first))], "data" + "Tags", Some(Str(second))) == [("data-tags", Str(second))]
    ensures Html([P().(attributes := [("data-tags", Str(first))])], 0, Html5) == "<p data-tags='" + first + "'>foo</p>"
    ensures Html([P().(attributes := [("data-tags", Str(second))])], 0, Html5) == "<p data-tags='" + second + "'>foo</p>"
  {
    DataTags();
    PutNew<Value>([], "data-tags", Str(first));
    assert IndexOf([("data-tags", Str(first))], "data-tags") == Some(0);
    PutOver([("data-tags", Str(first))], "data-tags", Str(second));
    JsonRendered(first);
    JsonRendered(second);
  }

  /** `dataTags` is the accessor of `data-tags`. */
  lemma DataTags()
    ensures AttributeName("data" + "Tags") == "data-tags"
    ensures IsDataName("data-tags")
  {
    assert "data" + "Tags" == "data" + ['T'] + "ags";
    CamelName("data", 'T', "ags");
    assert "data" + ['-', ToLower('T')] + "ags" == "data-tags";
    assert "data-tags"[..5] == "data-";
  }

  /** The fixture with one attribute renders it between its tag and its value. */
  lemma OneAttributeRendered(name: string, v: Value)
    ensures Html([P().(attributes := [(name, v)])], 0, Html5) == "<p" + RenderAttribute(name, v) + ">foo</p>"
  {
    FixtureRendered([(name, v)]);
    assert RenderAttributes([(name, v)]) == RenderAttribute(name, v);
  }

  /** A JSON-shaped value of a data attribute renders single-quoted. */
  lemma JsonAttribute(name: string, json: string)
    requires IsDataName(name) && IsJsonShaped(json)
    ensures RenderAttribute(name, Str(json)) == " " + name + "='" + json + "'"
  {
  }

  lemma JsonRegroup(json: string)
    ensures "<p" + (" " + "data-tags" + "='" + json + "'") + ">foo</p>" == "<p data-tags='" + json + "'>foo</p>"
  {
  }

  lemma JsonRendered(json: string)
    requires IsJsonShaped(json)
    ensures Html([P().(attributes := [("data-tags", Str(json))])], 0, Html5) == "<p data-tags='" + json + "'>foo</p>"
  {
    DataTags();
    OneAttributeRendered("data-tags", Str(json));
    JsonAttribute("data-tags", json);
    JsonRegroup(json);
  }

  /** `data_foo('bar')` or `dataFoo('bar')`, then `foo = 'bar'`: both spellings store under `data-foo`. */
  lemma DynamicSetScenario()
    ensures SetDynamic([], "data" + "_" + "foo", Some(Str("bar"))) == [("data-foo", Str("bar"))]
    ensures SetDynamic([], "data" + "Foo", Some(Str("bar"))) == [("data-foo", Str("bar"))]
    ensures SetDynamic([("data-foo", Str("bar"))], "foo", Some(Str("bar"))) == [("data-foo", Str("bar")), ("foo", Str("bar"))]
  {
    SnakeSet();
    CamelSet();
    PlainSet();
  }

  lemma SnakeSet()
    ensures SetDynamic([], "data" + "_" + "foo", Some(Str("bar"))) == [("data-foo", Str("bar"))]
  {
    SnakeName("data", "foo");
    assert "data" + "-" + "foo" == "data-foo";
    PutNew<Value>([], "data-foo", Str("bar"));
  }

  lemma CamelSet()
    ensures SetDynamic([], "data" + "Foo", Some(Str("bar"))) == [("data-foo", Str("bar"))]
  {
    assert "data" + "Foo" == "data" + ['F'] + "oo";
    CamelName("data", 'F', "oo");
    assert "data" + ['-', ToLower('F')] + "oo" == "data-foo";
    PutNew<Value>([], "data-foo", Str("bar"));
  }

  lemma PlainSet()
    ensures SetDynamic([("data-foo", Str("bar"))], "foo", Some(Str("bar"))) == [("data-foo", Str("bar")), ("foo", Str("bar"))]
  {
    PlainName("foo");
  }

  /** `required()` with no argument: a boolean attribute, rendered as its bare name. */
  lemma BooleanScenario()
    ensures SetDynamic(P().attributes, "required", None) == [("required", Flag(true))]
    ensures Html([P().(attributes := [("required", Flag(true))])], 0, Html5) == "<p required>foo</p>"
  {
    BooleanStored();
    BooleanRendered();
  }

  lemma BooleanStored()
    ensures SetDynamic(P().attributes, "required", None) == [("required", Flag(true))]
  {
    PlainName("required");
  }

  lemma BooleanRendered()
    ensures Html([P().(attributes := [("required", Flag(true))])], 0, Html5) == "<p required>foo</p>"
  {
    OneAttributeRendered("required", Flag(true));
  }

  /** `foo('bar')`, then reading `->foo`: without such a child, the property is the attribute. */
  lemma FetchAttributeScenario()
    ensures SetDynamic(P().attributes, "foo", Some(Str("bar"))) == [("foo", Str("bar"))]
    ensures GetDynamic([P().(attributes := [("foo", Str("bar"))])], 0, "foo") == AttributeValue(Str("bar"))
  {
    FetchStored();
    FetchRead();
  }

  lemma FetchStored()
    ensures SetDynamic(P().attributes, "foo", Some(Str("bar"))) == [("foo", Str("bar"))]
  {
    PlainName("foo");
  }

  lemma FetchRead()
    ensures GetDynamic([P().(attributes := [("foo", Str("bar"))])], 0, "foo") == AttributeValue(Str("bar"))
  {
    PlainName("foo");
    DecamelPlain("foo", '.');
    assert Split("foo", '.') == ["foo"];
  }

  /** `setAttribute('data-foo', 'bar')` then `replaceAttributes(['foo' => 'bar'])`: only the new entry is left. */
  lemma ReplaceAttributesScenario()
    ensures Put(P().attributes, "data-foo", Str("bar")) == [("data-foo", Str("bar"))]
    ensures Replace([("foo", Str("bar"))]) == [("foo", Str("bar"))]
  {
  }

  /** `setAttribute('data-foo', 'bar')` then `setAttributes(['foo' => 'bar'])`: both entries, in that order. */
  lemma MergeAttributesScenario()
    ensures Merge([("data-foo", Str("bar"))], [("foo", Str("bar"))]) == [("data-foo", Str("bar")), ("foo", Str("bar"))]
  {
    assert [("foo", Str("bar"))][..0] == [];
  }

  // ---------------------------------------------------------------- element and value

  /** An element without attributes or children renders as `<tag>value</tag>`. */
  lemma BareRendered(t: string, v: string)
    requires t != "" && !IsVoid(t)
    ensures Html([Element(t, Some(v))], 0, Html5) == "<" + t + ">" + v + "</" + t + ">"
  {
    RenderAlone(Element(t, Some(v)), Html5);
  }

  /** `setElement('strong')`: the fixture renders as `<strong>foo</strong>`. */
  lemma ChangeElementScenario()
    ensures P().(tag := "strong") == Element("strong", Some("foo"))
    ensures Html([Element("strong", Some("foo"))], 0, Html5) == "<strong>foo</strong>"
  {
    assert !IsVoid("strong");
    BareRendered("strong", "foo");
  }

  /** `setValue('bar')`: the fixture renders as `<p>bar</p>`; `getValue()` on the fixture reads `foo`. */
  lemma ChangeValueScenario()
    ensures P().(value := Some("bar")) == Element("p", Some("bar"))
    ensures Html([Element("p", Some("bar"))], 0, Html5) == "<p>bar</p>"
    ensures P().value == Some("foo")
  {
    ParagraphNotVoid();
    BareRendered("p", "bar");
  }

  // ---------------------------------------------------------------- manual rendering

  /** `open() . 'foobar' . close()` on the fixture: `<p>foobar</p>`; the fixture is then opened. */
  lemma OpenCloseScenario()
    ensures OpenTag(P(), Html5) == "<p>"
    ensures Close([P().(isOpen := true)], 0, Html5, 1) == "</p>"
    ensures OpenTag(P(), Html5) + "foobar" + Close([P().(isOpen := true)], 0, Html5, 1) == "<p>foobar</p>"
  {
    var h := [P().(isOpen := true)];
    ParagraphTags();
    OpenClose(h, 0, "foobar", Html5, 1);
    FoobarJoined();
  }

  /** The fixture's tags. */
  lemma ParagraphTags()
    ensures OpenTag(P(), Html5) == "<p>" && CloseTag(P().(isOpen := true)) == "</p>"
  {
    ParagraphNotVoid();
    assert RenderAttributes([]) == "";
  }

  lemma FoobarJoined()
    ensures "<p>" + "foobar" + "</p>" == "<p>foobar</p>"
  {
  }

  // ---------------------------------------------------------------- wrapping

  /** A non-void element holding one childless non-void element renders the child inside its tags. */
  lemma ParentRendered(h: Heap, id: Id, k: string, c: Id, d: Doctype)
    requires id < |h| && c < |h| && |h| >= 2
    requires h[id].tag != "" && !IsVoid(h[id].tag) && h[id].children == [(k, c)]
    requires h[c].tag != "" && !IsVoid(h[c].tag) && h[c].children == []
    ensures Html(h, id, d) ==
      "<" + h[id].tag + RenderAttributes(h[id].attributes) + ">" + h[id].value.GetOr("") +
      ("<" + h[c].tag + RenderAttributes(h[c].attributes) + ">" + h[c].value.GetOr("") + "</" + h[c].tag + ">") +
      "</" + h[id].tag + ">"
  {
    RenderElement(h, id, d, |h|);
    RenderListOne(h, k, c, d, |h| - 1);
    RenderChildless(h, c, d, |h| - 1);
  }

  lemma PairString(t: string, u: string, v: string)
    ensures "<" + t + "" + ">" + "" + ("<" + u + "" + ">" + v + "</" + u + ">") + "</" + t + ">" ==
            "<" + t + "><" + u + ">" + v + "</" + u + "></" + t + ">"
  {
  }

  /**
   * An element without attributes or text holding one plain childless element
   * renders as `<t><u>v</u></t>`.
   */
  lemma PairRendered(h: Heap, id: Id, k: string, c: Id)
    requires id < |h| && c < |h| && |h| >= 2
    requires h[id].tag != "" && !IsVoid(h[id].tag) && h[id].children == [(k, c)]
    requires h[id].attributes == [] && h[id].value == None
    requires h[c].tag != "" && !IsVoid(h[c].tag) && h[c].children == []
    requires h[c].attributes == [] && h[c].value.Some?
    ensures Html(h, id, Html5) == "<" + h[id].tag + "><" + h[c].tag + ">" + h[c].value.value + "</" + h[c].tag + "></" + h[id].tag + ">"
  {
    ParentRendered(h, id, k, c, Html5);
    assert RenderAttributes([]) == "";
    PairString(h[id].tag, h[c].tag, h[c].value.value);
  }

  lemma StrongInParagraph()
    ensures "<" + "p" + "><" + "strong" + ">" + "foo" + "</" + "strong" + "></" + "p" + ">" == "<p><strong>foo</strong></p>"
  {
  }

  /**
   * `wrapValue('strong')` on the fixture: its text moves into a new
   * `<strong>` child under key 0, and it renders as `<p><strong>foo</strong></p>`.
   */
  lemma WrapValueScenario(h: Heap)
    requires |h| == 1 && h[0] == P()
    ensures var r := WrapValue(h, 0, "strong");
            && r[0] == Element("p", None).(children := [("0", 1)])
            && r[1] == Element("strong", Some("foo")).(parent := Some(0))
            && Html(r, 0, Html5) == "<p><strong>foo</strong></p>"
  {
    var r := WrapValue(h, 0, "strong");
    WrapValueShape(h, 0, "strong");
    NextIndexEmpty<Id>();
    ParagraphNotVoid();
    assert !IsVoid("strong");
    PairRendered(r, 0, "0", 1);
    StrongInParagraph();
  }

  lemma ParagraphInDiv()
    ensures "<" + "div" + "><" + "p" + ">" + "foo" + "</" + "p" + "></" + "div" + ">" == "<div><p>foo</p></div>"
  {
  }

  /**
   * `wrapWith('div')` on the fixture: a new `<div>` (node 1) holds it under
   * key 0, its parent is that div, and the parent renders as `<div><p>foo</p></div>`.
   */
  lemma WrapItselfScenario(h: Heap)
    requires |h| == 1 && h[0] == P()
    ensures var r := WrapWithTag(h, 0, "div", None);
            && r[0] == P().(parent := Some(1))
            && r[1] == Element("div", None).(children := [("0", 0)])
            && Html(r, 1, Html5) == "<div><p>foo</p></div>"
  {
    var g := Grow(h, Element("div", None));
    var r := WrapWithTag(h, 0, "div", None);
    NextIndexEmpty<Id>();
    assert r == Adopt(g, 1, "0", 0);
    assert Put<Id>([], "0", 0) == [("0", 0)];
    ParagraphNotVoid();
    assert !IsVoid("div");
    PairRendered(r, 1, "0", 0);
    ParagraphInDiv();
  }

  // ---------------------------------------------------------------- other renders

  /**
   * `div('foo')->foo('bar')->element('')`: the dynamic setter stores `foo`,
   * `element('')` empties the tag (as `setElement` does), and then only the
   * text renders, not the attribute.
   */
  lemma ShadowDomScenario(h: Heap)
    requires |h| == 1 && h[0] == Element("div", Some("foo"))
    ensures var styled := h[0 := h[0].(attributes := SetDynamic(h[0].attributes, "foo", Some(Str("bar"))))];
            var shadow := styled[0 := styled[0].(tag := "")];
            && shadow[0].attributes == [("foo", Str("bar"))]
            && Html(shadow, 0, Html5) == "foo"
  {
    PlainName("foo");
    var styled := h[0 := h[0].(attributes := SetDynamic(h[0].attributes, "foo", Some(Str("bar"))))];
    var shadow := styled[0 := styled[0].(tag := "")];
    RenderShadow(shadow, 0, Html5, 1);
    assert RenderList(shadow, [], Html5, 0) == "";
  }

  /** `nestChildren('foo')` with a string rather than an array: the element is left as it was. */
  lemma ReturnItselfScenario(h: Heap, id: Id)
    requires WellFormed(h) && id < |h|
    ensures NestChildren(h, id, Scalar("foo")) == h
  {
  }

  /** Under the XHTML doctype a void element such as the hidden `<input>` ends in ` />`. */
  lemma XhtmlScenario(h: Heap)
    requires |h| == 1 && h[0].tag == "input"
    ensures var r := Html(h, 0, Xhtml); |r| >= 3 && r[|r| - 3..] == " />"
  {
    assert IsVoid("input");
    RenderVoid(h, 0, Xhtml, 1);
  }

  lemma OneTwoPath()
    ensures Decamel("one" + "Two", '.') == "one.two"
  {
    assert "one" + "Two" == "one" + ['T'] + "wo";
    DecamelPair("one", 'T', "wo", '.');
    assert "one" + ['.', ToLower('T')] + "wo" == "one.two";
  }

  /** The three nodes of the `oneTwo` test, before any `setChild`. */
  predicate ChainStart(h: Heap) {
    |h| == 3 && h[0] == P() && h[1] == Element("div", None) && h[2] == Element("div", None)
  }

  lemma ChainStartWellFormed(h: Heap)
    requires ChainStart(h)
    ensures WellFormed(h)
  {
    assert NodeOk(h[0], 3) && NodeOk(h[1], 3) && NodeOk(h[2], 3);
  }

  /** `setChild($two, 'two')` on node 1, then `setChild($one, 'one')` on node 2. */
  lemma ChainBuilt(h: Heap)
    requires ChainStart(h) && WellFormed(h)
    ensures var h2 := Attach(Attach(h, 1, "two", 0), 2, "one", 1);
            h2[2].children == [("one", 1)] && h2[1].children == [("two", 0)] && h2[0].value == Some("foo")
  {
    var h1 := Attach(h, 1, "two", 0);
    assert '.' !in "two" && '.' !in "one";
    assert Target(h, 1, "two") == (1, "two");
    assert h1 == Adopt(h, 1, "two", 0);
    assert Target(h1, 2, "one") == (2, "one");
    assert Attach(h1, 2, "one", 1) == Adopt(h1, 2, "one", 1);
  }

  lemma ChainLookup(g: Heap)
    requires WellFormed(g) && |g| == 3 && g[2].children == [("one", 1)] && g[1].children == [("two", 0)]
    ensures Lookup(g, 2, "one" + "." + "two") == Some(0)
  {
    assert "one" + "." + "two" != "one";
    LookupTwo(g, 2, "one", "two");
    assert Walk(g, 1, ["two"]) == Walk(g, 0, []);
  }

  /** In any tree where node 2 holds node 1 under `one` and node 1 holds node 0 under `two`, `->oneTwo` of node 2 is node 0. */
  lemma ChainRead(g: Heap)
    requires WellFormed(g) && |g| == 3 && g[2].children == [("one", 1)] && g[1].children == [("two", 0)]
    ensures GetDynamic(g, 2, "one" + "Two") == ChildNode(0)
  {
    OneTwoPath();
    ChainLookup(g);
    assert "one" + "." + "two" == "one.two";
  }

  /**
   * `$one = div()->setChild($two, 'two')`, `$zero = div()->setChild($one, 'one')`:
   * `$zero->oneTwo` is `$two`, whose value is `foo`.
   */
  lemma DynamicChildScenario(h: Heap)
    requires ChainStart(h)
    ensures WellFormed(h)
    ensures var h2 := Attach(Attach(h, 1, "two", 0), 2, "one", 1);
            GetDynamic(h2, 2, "one" + "Two") == ChildNode(0) && h2[0].value == Some("foo")
  {
    ChainStartWellFormed(h);
    ChainBuilt(h);
    ChainRead(Attach(Attach(h, 1, "two", 0), 2, "one", 1));
  }

  // ---------------------------------------------------------------- classes

  /** The attributes of an element whose only attribute is the class list `ts`. */
  function ClassOf(ts: seq<string>): Attrs {
    [(ClassName, Str(Join(ts, ' ')))]
  }

  predicate AllTokens(ts: seq<string>) {
    forall i :: 0 <= i < |ts| ==> IsToken(ts[i])
  }

  lemma ClassListOf(ts: seq<string>)
    requires AllTokens(ts)
    ensures ClassList(ClassOf(ts)) == ts
  {
    TokensJoin(ts);
  }

  lemma TokensOne(t: string)
    requires IsToken(t)
    ensures Tokens(t) == [t]
  {
    TokensJoin([t]);
  }

  /** `addClass(t)` on an element without attributes sets the class to `t`. */
  lemma AddFirstClass(t: string)
    requires IsToken(t)
    ensures AddClass([], t) == ClassOf([t])
  {
    TokensOne(t);
    assert [t][..0] == [];
    assert AddTokens([], [t]) == [t];
  }

  /** `addClass(t)` for a token the list lacks appends it. */
  lemma AddNewClass(ts: seq<string>, t: string)
    requires AllTokens(ts) && IsToken(t) && t !in ts
    ensures AddClass(ClassOf(ts), t) == ClassOf(ts + [t])
  {
    ClassListOf(ts);
    TokensOne(t);
    assert [t][..0] == [];
    assert AddTokens(ts, [t]) == ts + [t];
    assert IndexOf(ClassOf(ts), ClassName) == Some(0);
    PutOver(ClassOf(ts), ClassName, Str(Join(ts + [t], ' ')));
  }

  /** `addClass(t)` for a token the list holds changes nothing. */
  lemma AddPresentClass(ts: seq<string>, t: string)
    requires AllTokens(ts) && IsToken(t) && t in ts
    ensures AddClass(ClassOf(ts), t) == ClassOf(ts)
  {
    ClassListOf(ts);
    TokensOne(t);
    assert [t][..0] == [];
    assert AddTokens(ts, [t]) == ts;
    assert IndexOf(ClassOf(ts), ClassName) == Some(0);
    PutOver(ClassOf(ts), ClassName, Str(Join(ts, ' ')));
  }

  /** `removeClass` on a class list drops the named tokens. */
  lemma RemoveFromClass(ts: seq<string>, arg: ClassArg)
    requires AllTokens(ts)
    ensures RemoveClass(ClassOf(ts), arg) == ClassOf(RemoveTokens(ts, ClassNames(arg)))
  {
    ClassListOf(ts);
    assert IndexOf(ClassOf(ts), ClassName) == Some(0);
    PutOver(ClassOf(ts), ClassName, Str(Join(RemoveTokens(ts, ClassNames(arg)), ' ')));
  }

  /** A single token names itself. */
  lemma OneWord(t: string)
    requires IsToken(t)
    ensures ClassNames(Words(t)) == [t]
  {
    WordsOf([t]);
  }

  lemma JoinTwo(s: string, t: string)
    ensures Join([s, t], ' ') == s + " " + t
  {
    assert [s, t][1..] == [t];
  }

  lemma TwoTokens(s: string, t: string)
    requires IsToken(s) && IsToken(t)
    ensures AllTokens([s]) && AllTokens([s, t]) && AllTokens([t])
  {
  }

  /** A space-separated string of tokens names exactly those tokens. */
  lemma WordsOf(ts: seq<string>)
    requires |ts| >= 1 && AllTokens(ts)
    ensures ClassNames(Words(Join(ts, ' '))) == ts
  {
    SplitJoin(ts, ' ');
  }

  /** `class` is not a data attribute: its value always renders double-quoted. */
  lemma ClassAttribute(v: string)
    ensures RenderAttribute(ClassName, Str(v)) == " class=\"" + v + "\""
  {
    assert ClassName[..5][0] == 'c';
  }

  lemma ClassRegroup(v: string)
    ensures "<p" + (" class=\"" + v + "\"") + ">foo</p>" == "<p class=\"" + v + "\">foo</p>"
  {
  }

  /** The fixture with only a class attribute renders it double-quoted. */
  lemma ClassRendered(ts: seq<string>)
    ensures Html([P().(attributes := ClassOf(ts))], 0, Html5) == "<p class=\"" + Join(ts, ' ') + "\">foo</p>"
  {
    OneAttributeRendered(ClassName, Str(Join(ts, ' ')));
    ClassAttribute(Join(ts, ' '));
    ClassRegroup(Join(ts, ' '));
  }

  /**
   * `setAttribute('class', s)`, `addClass(s)`, `addClass(t)` with distinct
   * tokens (`foo`, `bar` in the suite): the class reads `s t`.
   */
  lemma AppendClassScenario(s: string, t: string)
    requires IsToken(s) && IsToken(t) && s != t
    ensures Put(P().attributes, ClassName, Str(s)) == ClassOf([s])
    ensures AddClass(ClassOf([s]), s) == ClassOf([s])
    ensures AddClass(ClassOf([s]), t) == ClassOf([s, t])
    ensures Join([s, t], ' ') == s + " " + t
  {
    TwoTokens(s, t);
    AddPresentClass([s], s);
    AddNewClass([s], t);
    assert [s] + [t] == [s, t];
    JoinTwo(s, t);
  }

  /**
   * `addClass(s)`, `addClass(t)` on the fixture: `t` is added even where it
   * is a prefix of `s` (`alert-success`, then `alert`, in the suite).
   */
  lemma SimilarClassesScenario(s: string, t: string)
    requires IsToken(s) && IsToken(t) && s != t
    ensures AddClass(P().attributes, s) == ClassOf([s])
    ensures AddClass(ClassOf([s]), t) == ClassOf([s, t])
    ensures Html([P().(attributes := ClassOf([s, t]))], 0, Html5) == "<p class=\"" + s + " " + t + "\">foo</p>"
  {
    TwoClassesRendered(s, t);
    TwoTokens(s, t);
    AddFirstClass(s);
    AddNewClass([s], t);
    assert [s] + [t] == [s, t];
  }

  /** The fixture with class list `s t` renders as `<p class="s t">foo</p>`. */
  lemma TwoClassesRendered(s: string, t: string)
    ensures Html([P().(attributes := ClassOf([s, t]))], 0, Html5) == "<p class=\"" + s + " " + t + "\">foo</p>"
  {
    ClassRendered([s, t]);
    JoinTwo(s, t);
  }

  lemma RemoveFirstOfTwo(s: string, t: string)
    requires s != t
    ensures RemoveTokens([s, t], [s]) == [t]
  {
    assert [s, t][1..] == [t];
    assert RemoveTokens([t], [s]) == [t];
  }

  /** `addClass(s)`, `addClass(t)`, `removeClass(s)`: only `t` is left. */
  lemma RemoveClassScenario(s: string, t: string)
    requires IsToken(s) && IsToken(t) && s != t
    ensures RemoveClass(ClassOf([s, t]), Words(s)) == ClassOf([t])
    ensures Html([P().(attributes := ClassOf([t]))], 0, Html5) == "<p class=\"" + t + "\">foo</p>"
  {
    TwoTokens(s, t);
    OneWord(s);
    RemoveFromClass([s, t], Words(s));
    RemoveFirstOfTwo(s, t);
    ClassRendered([t]);
  }

  lemma RemoveNoneOfTwo(s: string, t: string, u: string)
    requires u != s && u != t
    ensures RemoveTokens([s, t], [u]) == [s, t]
  {
    RemoveAbsentTokens([s, t], [u]);
  }

  /** `removeClass(u)` for a token the list lacks (`unknow` in the suite) keeps `s t`. */
  lemma WrongRemoveScenario(s: string, t: string, u: string)
    requires IsToken(s) && IsToken(t) && IsToken(u) && s != t && u != s && u != t
    ensures RemoveClass(ClassOf([s, t]), Words(u)) == ClassOf([s, t])
    ensures Html([P().(attributes := ClassOf([s, t]))], 0, Html5) == "<p class=\"" + s + " " + t + "\">foo</p>"
  {
    TwoClassesRendered(s, t);
    WrongRemoveKeeps(s, t, u);
  }

  lemma WrongRemoveKeeps(s: string, t: string, u: string)
    requires IsToken(s) && IsToken(t) && IsToken(u) && u != s && u != t
    ensures RemoveClass(ClassOf([s, t]), Words(u)) == ClassOf([s, t])
  {
    TwoTokens(s, t);
    OneWord(u);
    RemoveFromClass([s, t], Words(u));
    RemoveNoneOfTwo(s, t, u);
  }

  /** `removeClass` on an element without a class changes nothing; `->class` then reads nothing. */
  lemma RemoveAbsentScenario(arg: ClassArg)
    ensures RemoveClass([], arg) == []
    ensures GetDynamic([Element("div", Some("foo"))], 0, "class") == Nothing
  {
    PlainName("class");
  }

  lemma RemoveFirstOfThree(a: string, b: string, c: string, x: string)
    requires a != b && a != c && b != c && x != b && x != c
    ensures RemoveTokens([a, b, c], [a, x]) == [b, c]
  {
    assert [a, b, c][1..] == [b, c] && [b, c][1..] == [c];
    assert RemoveTokens([c], [a, x]) == [c];
  }

  lemma ThreeTokens(a: string, b: string, c: string)
    requires IsToken(a) && IsToken(b) && IsToken(c)
    ensures AllTokens([a, b, c]) && AllTokens([a, b])
  {
  }

  /** `class(s)` stores `s` as the class attribute. */
  lemma SetClass(s: string)
    ensures SetDynamic([], "class", Some(Str(s))) == [(ClassName, Str(s))]
  {
    PlainName("class");
  }

  /**
   * `class('a b c')`, then `removeClass([a, x])` with `x` absent (`btn`,
   * `foobar` in the suite): `b c` is left.
   */
  lemma RemoveListScenario(a: string, b: string, c: string, x: string)
    requires IsToken(a) && IsToken(b) && IsToken(c) && a != b && a != c && b != c && x != b && x != c
    ensures SetDynamic([], "class", Some(Str(Join([a, b, c], ' ')))) == ClassOf([a, b, c])
    ensures RemoveClass(ClassOf([a, b, c]), List([a, x])) == ClassOf([b, c])
  {
    SetClass(Join([a, b, c], ' '));
    ThreeTokens(a, b, c);
    RemoveFromClass([a, b, c], List([a, x]));
    RemoveFirstOfThree(a, b, c, x);
  }

  lemma RemoveFirstTwo(a: string, b: string, c: string)
    requires a != c && b != c
    ensures RemoveTokens([a, b, c], [a, b]) == [c]
  {
    assert [a, b, c][1..] == [b, c] && [b, c][1..] == [c];
    assert RemoveTokens([c], [a, b]) == [c];
  }

  /** `class('a b c')`, then `removeClass('a b')`: `c` is left. */
  lemma RemoveWordsScenario(a: string, b: string, c: string)
    requires IsToken(a) && IsToken(b) && IsToken(c) && a != c && b != c
    ensures SetDynamic([], "class", Some(Str(Join([a, b, c], ' ')))) == ClassOf([a, b, c])
    ensures RemoveClass(ClassOf([a, b, c]), Words(Join([a, b], ' '))) == ClassOf([c])
  {
    SetClass(Join([a, b, c], ' '));
    ThreeTokens(a, b, c);
    WordsOf([a, b]);
    RemoveFromClass([a, b, c], Words(Join([a, b], ' ')));
    RemoveFirstTwo(a, b, c);
  }
}
