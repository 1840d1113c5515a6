# html-object: the element tree, modelled in Dafny

This project models the core of the html-object PHP library: a mutable
tree of HTML elements. It states and proves the contract that the
library's PHPUnit suites `tests/TagTest.php` and `tests/TreeObjectTest.php`
pin down. No implementation file of the library is part of this model.
Where a behaviour is fixed only by the tests, the model follows the tests.

Each element has a tag, an optional text value, an attribute store, an
ordered keyed map of children, a parent link and an "opened" flag.

- **Ordered maps** (`ordered_map.dfy`) model PHP arrays. A map is a sequence
  of `(key, value)` pairs. Assigning to an existing key keeps its position,
  and assigning to a new key appends it. An integer key is its canonical
  decimal spelling, so `getChild(0)` and `getChild('0')` agree. `$a[] = $v`
  uses one more than the largest integer key.
- **Attributes** (`attributes.dfy`) covers the following.
  - `setAttribute`, `setAttributes` (merge) and `replaceAttributes`.
  - The class attribute as an ordered list of distinct tokens
    (`addClass`, `removeClass`).
  - The rewrite of dynamic accessor names: `dataFoo` and `data_foo` both
    name `data-foo`.
  - Serialisation of attributes inside an opening tag. A boolean `true`
    renders as a bare name. A JSON-shaped `data-` value renders
    single-quoted. Every other value renders double-quoted.
- **Tree** (`tree.dfy`) holds the nodes in a heap: a sequence indexed by
  node id. An id stands for a PHP object reference. So "the same object",
  parent links and a node reachable from two places are all id equality.
  The module defines path lookup (`getChild`, where a key that holds dots
  is tried whole before the path is split on `.`), `hasChild`,
  `hasChildren`, `hasParent`, `getParent($levels)`, `isAfter` and the
  dynamic property read (`$el->oneTwo` reads the child at `one.two`).
- **Tree edits** (`tree_edits.dfy`) gives each edit as a function from the
  old heap to the new heap. The edits are `setChild` and `nest` with their
  path forms, `nestChildren`, `appendChild`/`prependChild`, `wrapWith` and
  `wrapValue`.
- **Render** (`render.dfy`): an element renders as its opening tag, its
  value, its children in key order and its closing tag. A void element
  renders only its opening tag: ` />` under XHTML, `>` otherwise. An
  element with an empty tag renders only its content. The doctype is a
  parameter of the render.
- **Fragments** (`fragments.dfy`) covers `open()`, `openOn($path)` and
  `close()`. The main theorem: `openOn(path) . s . close()` equals the
  render with `s` in place of the content of the node at `path`.
- **Elements** (`document.dfy`) is the `Document` class. Its field `nodes`
  is the heap, and its methods are the library's chained calls. Each method
  updates the heap in place. It is specified by the tree function that
  computes the new heap, and it keeps the heap well formed.
- **Scenarios** (`tag_scenarios.dfy`, `tag_structures.dfy`,
  `tree_scenarios.dfy`): one lemma per test. Each starts from the test's
  objects, applies the test's calls and proves the exact string, key order
  or identity that the test asserts.

## Model

| member | source | states |
|---|---|---|
| OrderedMap.Put | tests/TagTest.php:67-74 | after assigning `k`, `k` reads the new value and every other key reads as before |
| OrderedMap.PutKeys | tests/TagTest.php:284-292 | assigning an existing key keeps the key order; assigning a new key appends it last |
| OrderedMap.PutSame | tests/TagTest.php:173-183 | assigning the value a key already has changes nothing |
| OrderedMap.InsertBesideFacts | tests/TreeObjectTest.php:80-122 | insertion next to a sibling keeps keys unique, stores the new entry, leaves other lookups alone and puts the key at the computed position among the others in their old order |
| OrderedMap.NextIndex | tests/TreeObjectTest.php:158-173 | the automatic key is an integer key not yet in the map |
| OrderedMap.ReplaceAtUnique | tests/TagTest.php:294-321 | putting a new entry in a slot keeps keys unique, stores the entry, and drops the slot's old key when it differs |
| Strings.ParseDecimal | tests/TreeObjectTest.php:202-210 | every automatic integer key reads back as the number it spells |
| Strings.DecimalParse | tests/TreeObjectTest.php:167-173 | every canonical integer key is the decimal spelling of its number |
| Strings.JoinSplit | tests/TreeObjectTest.php:43-62 | joining the segments of a split path with `.` gives the path back |
| Strings.SplitJoin | tests/TreeObjectTest.php:192-200 | splitting a join of dot-free segments gives the segments back |
| Strings.TokensJoin | tests/TagTest.php:351-363 | a list of tokens joined by spaces tokenises back to the same list |
| Attributes.MergeGet | tests/TagTest.php:161-171 | after `setAttributes` a name has its last merged value, or its earlier value when the merge did not name it |
| Attributes.ReplaceGet | tests/TagTest.php:150-159 | after `replaceAttributes` only the new entries are visible |
| Attributes.AddTokensFacts | tests/TagTest.php:211-217 | adding class tokens keeps the existing ones first and in order, yields exactly the union, and adds no duplicate |
| Attributes.AddClassList | tests/TagTest.php:173-183 | the class list after `addClass` is the old list with the new tokens added |
| Attributes.AddClassIdempotent | tests/TagTest.php:173-183 | adding the same classes twice equals adding them once |
| Attributes.RemoveTokens | tests/TagTest.php:219-235 | a token survives exactly when it was present and not named |
| Attributes.RemoveClassList | tests/TagTest.php:351-363 | the class list after `removeClass` (token, space-separated string or list) is the old list without the named tokens, order kept |
| Attributes.RemoveClassRemoves | tests/TagTest.php:219-226 | no named token survives `removeClass`, and every other token does |
| Attributes.RemoveAbsentClass | tests/TagTest.php:228-235 | removing tokens the list does not hold leaves the list unchanged |
| Attributes.PlainName | tests/TagTest.php:185-190 | a lower-case accessor without underscores names the attribute of the same name |
| Attributes.CamelName | tests/TagTest.php:121-131 | `dataFoo` names `data-foo`: an upper-case letter becomes a dash and its lower-case form |
| Attributes.SnakeName | tests/TagTest.php:109-119 | `data_foo` names `data-foo`: an underscore becomes a dash |
| Attributes.AccessorRoundTrip | tests/TagTest.php:121-131 | a camelCase accessor is recovered from the attribute name it stands for |
| Attributes.AttributeRoundTrip | tests/TagTest.php:121-131 | every dash-separated lower-case attribute name is reached from its camelCase accessor |
| Attributes.RenderPut | tests/TagTest.php:161-171 | setting an attribute renders it where the name already was, or after all the others when the name is new |
| Tree.GetDynamic | tests/TagTest.php:141-148 | `$el->oneTwo` is the child at path `one.two` when there is one, otherwise the attribute of the rewritten name, otherwise nothing |
| Tree.GetChild | tests/TreeObjectTest.php:64-78 | `getChild` returns the node the path resolves to, and a not-found error naming the path otherwise |
| Tree.GetParentStep | tests/TreeObjectTest.php:212-221 | `getParent(k + 1)` is the parent of `getParent(k)` |
| Tree.AncestorSplit | tests/TreeObjectTest.php:212-221 | climbing `m + n` parent links is climbing `m`, then `n` more |
| Tree.IsAfterOrder | tests/TreeObjectTest.php:247-258 | of two children of one parent, each is after the other exactly when its position is greater |
| Markup.RenderElement | tests/TreeObjectTest.php:21-41 | a non-void element renders as `<tag attrs>`, its value, its children in order and `</tag>` |
| Markup.RenderVoid | tests/TagTest.php:56-65 | a void element renders as its opening tag alone, ending in ` />` under XHTML and in `>` under HTML |
| Markup.RenderShadow | tests/TagTest.php:330-335 | an element with an empty tag renders only its value and children |
| Markup.RenderListConcat | tests/TagTest.php:284-292 | children render one after another in key order |
| Markup.RenderFrame | tests/TagTest.php:251-256 | rendering reads neither parent links nor open flags, and nodes added later do not change an old node's render |
| Fragments.OpenOnClose | tests/TagTest.php:258-282 | with exactly the path's nodes opened, `openOn(path) . s . close()` is the render with `s` as the content of the node at the path |
| Fragments.SplicedOwnContent | tests/TagTest.php:258-268 | splicing the end node's own content back in gives the plain render |
| Fragments.OpenOnRender | tests/TagTest.php:258-268 | `openOn(path)`, the end node's own content and `close()` join up to `render()` |
| Fragments.ClosedOpened | tests/TagTest.php:258-282 | `close()` after `openOn(path)` clears exactly the flags `openOn` set |
| Fragments.OpenClose | tests/TagTest.php:237-242 | with no child opened, `open() . s . close()` wraps `s` in the element's own tags |
| Fragments.OpenOnSession | tests/TagTest.php:258-282 | from a heap with no open flags, `openOn` then `close` yields the spliced render and leaves the heap as it was |
| TreeEdits.Adopt | tests/TreeObjectTest.php:72-78 | `setChild` stores the child under the key, replacing any child there, and sets its parent; no other node changes |
| TreeEdits.AdoptLinks | tests/TreeObjectTest.php:167-173 | the edge `setChild` makes is consistent both ways: the parent holds the child under the key and the child's `getParent()` is that parent |
| TreeEdits.AttachLiteral | tests/TreeObjectTest.php:72-78 | a key stored literally, dots and all, is found again by `getChild` with the same string |
| TreeEdits.AttachNested | tests/TreeObjectTest.php:43-62 | `nest(c, 'a.b')` with a resolvable prefix stores `c` under `b` inside the node at `a`, and that node becomes its parent |
| TreeEdits.AttachTwoLevels | tests/TreeObjectTest.php:43-51 | after `nest(c, 'a.b')` into an existing child `a`, `getChild('a.b')` is `c` |
| TreeEdits.AttachLinks | tests/TreeObjectTest.php:43-70 | `nest(c, path)` links `c` both ways to the node and key the path resolves to |
| TreeEdits.AdoptInPlace | tests/TagTest.php:284-292 | storing under an existing key replaces that child in its own position and keeps the key order |
| TreeEdits.NestNodeAppends | tests/TreeObjectTest.php:35-41 | `nest(c)` puts `c` last under a fresh integer key, keeps the other keys and their order, and sets its parent |
| TreeEdits.NestStringAlone | tests/TreeObjectTest.php:28-33 | `nest(s)` appends `s` as a raw text child under a fresh integer key; nothing else changes |
| TreeEdits.NestStringTag | tests/TreeObjectTest.php:21-26 | `nest('strong', 'foo')` appends a new `<strong>foo</strong>` element under a fresh integer key |
| TreeEdits.NestStringInto | tests/TreeObjectTest.php:53-62 | `nest(s, path)` for non-tag markup appends a text child inside the node at the path |
| TreeEdits.NestChildren | tests/TagTest.php:337-342 | `nestChildren` of a scalar leaves the tree unchanged |
| TreeEdits.Listed | tests/TreeObjectTest.php:158-165 | a PHP list is keyed `0, 1, 2, …` in order |
| TreeEdits.NestMarkupEntry | tests/TreeObjectTest.php:124-143 | a `key => string` entry becomes an element of that tag when the key is a tag name, raw text otherwise, stored under the key |
| TreeEdits.NestEntriesKeys | tests/TreeObjectTest.php:124-143 | nesting entries with new, distinct, dot-free keys adds them after the existing children, in map order |
| TreeEdits.NestEntriesChildren | tests/TreeObjectTest.php:145-156 | after nesting such entries, each node entry is the child under its key |
| TreeEdits.InsertChild | tests/TreeObjectTest.php:80-122 | `appendChild`/`prependChild` place the child next to the target or at the end/front, set its parent and change no other node |
| TreeEdits.InsertChildLinks | tests/TreeObjectTest.php:80-122 | `appendChild`/`prependChild` link the child both ways under its key |
| TreeEdits.AppendChildKeys | tests/TreeObjectTest.php:113-122 | `appendChild` with a new key puts it last, or immediately after the target; the other keys keep their order |
| TreeEdits.PrependChildKeys | tests/TreeObjectTest.php:91-111 | `prependChild` with a new key puts it first, or immediately before the target; the other keys keep their order |
| TreeEdits.WrapWith | tests/TagTest.php:294-321 | after `wrapWith` the node's parent is the wrapper |
| TreeEdits.WrapWithLinks | tests/TagTest.php:294-321 | after any `wrapWith` the wrapper holds the node, under its old key when it sat in a parent and under the given or next integer key otherwise, and the node's parent is the wrapper |
| TreeEdits.WrapWithInSlot | tests/TagTest.php:294-314 | wrapping a node in a parent replaces its slot there with the wrapper and hangs the wrapper under that parent |
| TreeEdits.WrapWithKeepsKey | tests/TagTest.php:304-311 | wrapping a node in a parent stores it in the wrapper under its old key |
| TreeEdits.WrapWithParentLinks | tests/TagTest.php:304-311 | the wrapper is linked both ways to the old parent, under the given key or the node's old key |
| TreeEdits.WrapWithInParent | tests/TagTest.php:294-314 | the wrapper takes the node's slot under the new key, every other key keeps its place, the node hangs under the wrapper by its old key, and the wrapper's parent is the old parent |
| TreeEdits.WrapWithNodes | tests/TagTest.php:294-321 | wrapping a child changes exactly three nodes: the old parent, the wrapper and the node |
| TreeEdits.WrapWithPath | tests/TagTest.php:304-311 | after wrapping under key `g`, the node is found at `g.k`, where `k` is its old key |
| TreeEdits.WrapWithDetached | tests/TagTest.php:270-282 | a node without a parent is nested in the wrapper under the given key |
| TreeEdits.WrapWithTag | tests/TagTest.php:251-256 | `wrapWith('div')` appends a new element with that tag, no text and no attributes, and it becomes the node's parent |
| TreeEdits.WrapWithTagLinks | tests/TagTest.php:251-256 | the new element holds the node; in a parent it takes the node's slot under the given or old key and hangs under that parent, otherwise it holds the node under the given key or `0` and has no parent |
| TreeEdits.WrapValueShape | tests/TagTest.php:244-249 | `wrapValue(tag)` moves the text into a new first child of that tag and leaves the node without a value |
| Elements.Document.constructor | tests/TagTest.php:30-37 | a new document holds no elements |
| Elements.Document.Create | tests/TagTest.php:30-37 | `new Element(tag, value)` adds one detached element at a fresh id |
| Elements.Document.SetElement | tests/TagTest.php:192-197 | `setElement` changes only that element's tag |
| Elements.Document.SetValue | tests/TagTest.php:199-204 | `setValue` changes only that element's value |
| Elements.Document.SetAttribute | tests/TagTest.php:67-74 | `setAttribute` overwrites or appends one entry, and the name then reads the value |
| Elements.Document.SetAttributes | tests/TagTest.php:161-171 | `setAttributes` merges the entries in turn, proved against the merge function by a loop invariant |
| Elements.Document.ReplaceAttributes | tests/TagTest.php:150-159 | `replaceAttributes` discards every earlier attribute |
| Elements.Document.AddClass | tests/TagTest.php:173-183 | after `addClass` the class list is the old list with the new tokens added |
| Elements.Document.RemoveClass | tests/TagTest.php:219-235 | after `removeClass` the class list is the old list without the named tokens |
| Elements.Document.SetDynamic | tests/TagTest.php:109-139 | a dynamic setter stores under the rewritten name; with no argument it stores boolean true |
| Elements.Document.SetChild | tests/TreeObjectTest.php:72-78 | `setChild` updates the heap as `Adopt` does |
| Elements.Document.SetParent | tests/TreeObjectTest.php:223-228 | `setParent` changes only that element's parent link |
| Elements.Document.NestNode | tests/TreeObjectTest.php:35-62 | `nest($node, $path)` updates the heap as the tree function does |
| Elements.Document.NestString | tests/TreeObjectTest.php:21-33 | `nest($string, $second)` updates the heap as the tree function does |
| Elements.Document.NestChildren | tests/TreeObjectTest.php:124-165 | `nestChildren` nests every entry in turn, proved against the function by a loop invariant |
| Elements.Document.AppendChild | tests/TreeObjectTest.php:80-89 | `appendChild` updates the heap as the tree function does |
| Elements.Document.PrependChild | tests/TreeObjectTest.php:91-111 | `prependChild` updates the heap as the tree function does |
| Elements.Document.WrapWith | tests/TagTest.php:294-321 | `wrapWith($node, $key)` returns the node itself, now under the wrapper |
| Elements.Document.WrapWithTag | tests/TagTest.php:251-256 | `wrapWith('tag')` returns the node itself, now under a new element |
| Elements.Document.WrapValue | tests/TagTest.php:244-249 | `wrapValue` updates the heap as the tree function does |
| Elements.Document.Open | tests/TagTest.php:323-328 | `open()` returns the opening tag and marks the element opened |
| Elements.Document.OpenOn | tests/TagTest.php:258-282 | `openOn(path)` marks the path's nodes opened and returns the opening fragment |
| Elements.Document.Close | tests/TagTest.php:237-242 | `close()` returns the closing fragment and clears the flags it passes |
| TagScenarios.SetAttributeScenario | tests/TagTest.php:95-107 | `setAttribute('data-foo', 'bar')`: `getAttributes()` is exactly that entry and `getAttribute('data-foo')` is `bar` |
| TagScenarios.JsonScenario | tests/TagTest.php:76-93 | `dataTags($json)` twice stores under `data-tags`, overwrites, and renders `<p data-tags='…'>foo</p>` with the inner double quotes as they are |
| TagScenarios.DynamicSetScenario | tests/TagTest.php:109-131 | `data_foo('bar')` and `dataFoo('bar')` both store `data-foo`; `foo = 'bar'` then appends `foo` |
| TagScenarios.BooleanScenario | tests/TagTest.php:133-139 | `required()` stores boolean true and renders `<p required>foo</p>` |
| TagScenarios.FetchAttributeScenario | tests/TagTest.php:185-190 | `foo('bar')`, then `->foo` reads `bar` |
| TagScenarios.ReplaceAttributesScenario | tests/TagTest.php:150-159 | after `replaceAttributes(['foo' => 'bar'])` only `foo` is left |
| TagScenarios.MergeAttributesScenario | tests/TagTest.php:161-171 | after `setAttributes(['foo' => 'bar'])` both `data-foo` and `foo` are present, in that order |
| TagScenarios.ChangeElementScenario | tests/TagTest.php:192-197 | `setElement('strong')` renders `<strong>foo</strong>` |
| TagScenarios.ChangeValueScenario | tests/TagTest.php:199-209 | `setValue('bar')` renders `<p>bar</p>`; `getValue()` of the fixture is `foo` |
| TagScenarios.OpenCloseScenario | tests/TagTest.php:237-242 | `open() . 'foobar' . close()` is `<p>foobar</p>` |
| TagScenarios.WrapValueScenario | tests/TagTest.php:244-249 | `wrapValue('strong')` renders `<p><strong>foo</strong></p>` |
| TagScenarios.WrapItselfScenario | tests/TagTest.php:251-256 | `wrapWith('div')`: the parent renders `<div><p>foo</p></div>` |
| TagScenarios.ShadowDomScenario | tests/TagTest.php:330-335 | `div('foo')->foo('bar')` stores `foo="bar"`, and after `element('')` empties the tag only `foo` renders, not the attribute |
| TagScenarios.ReturnItselfScenario | tests/TagTest.php:337-342 | `nestChildren('foo')` leaves the element as it was |
| TagScenarios.XhtmlScenario | tests/TagTest.php:56-65 | under XHTML a hidden input's render ends in ` />` |
| TagScenarios.DynamicChildScenario | tests/TagTest.php:141-148 | after two `setChild` calls, `$zero->oneTwo` is `$two`, whose value is `foo` |
| TagScenarios.AppendClassScenario | tests/TagTest.php:173-183 | `class = foo`, `addClass('foo')`, `addClass('bar')` gives the class `foo bar` |
| TagScenarios.SimilarClassesScenario | tests/TagTest.php:211-217 | `alert-success` then `alert` keeps both and renders `<p class="alert-success alert">foo</p>` |
| TagScenarios.RemoveClassScenario | tests/TagTest.php:219-226 | `foo bar` minus `foo` renders `<p class="bar">foo</p>` |
| TagScenarios.WrongRemoveScenario | tests/TagTest.php:228-235 | removing an absent token keeps `foo bar` |
| TagScenarios.RemoveAbsentScenario | tests/TagTest.php:344-349 | `removeClass` on an element without a class changes nothing, and `->class` then reads nothing |
| TagScenarios.RemoveListScenario | tests/TagTest.php:351-356 | `removeClass(['btn', 'foobar'])` on `btn btn-primary btn-large` leaves `btn-primary btn-large` |
| TagScenarios.RemoveWordsScenario | tests/TagTest.php:358-363 | `removeClass('btn btn-primary')` on the same list leaves `btn-large` |
| TagStructures.OpenComplexScenario | tests/TagTest.php:258-268 | `openOn('body') . 'CONTENT' . close()` renders the whole structure with `CONTENT` as the body's content |
| TagStructures.ManipulateComplexScenario | tests/TagTest.php:270-282 | after wrapping in a link under `complex`, `openOn('complex.body') . 'foo' . close()` renders the link around the structure |
| TagStructures.ReplaceChildrenScenario | tests/TagTest.php:284-292 | `nest(['beta' => a()])` replaces the `b` in place: `<div><i></i><a></a></div>` |
| TagStructures.WrapChildrenScenario | tests/TagTest.php:294-321 | the `gamma` and `underline` wraps keep identity, path lookups and `<div><i></i><u><a><b></b></a></u></div>` |
| TreeScenarios.NestTagScenario | tests/TreeObjectTest.php:21-26 | `nest('strong', 'foo')` renders `<p>foo<strong>foo</strong></p>` |
| TreeScenarios.NestStringsScenario | tests/TreeObjectTest.php:28-33 | `nest(s)` renders `s` verbatim after the value |
| TreeScenarios.NestObjectScenario | tests/TreeObjectTest.php:35-41 | `nest($strong)` renders `<p>foo<strong>foo</strong></p>` |
| TreeScenarios.NestInChildrenScenario | tests/TreeObjectTest.php:43-51 | `nest($link, 'body.link')` renders the link inside the strong element |
| TreeScenarios.NestStringsInChildrenScenario | tests/TreeObjectTest.php:53-62 | raw markup nested at `body.title` renders after the heading's strong child |
| TreeScenarios.NestStringsInChildrenExample | tests/TreeObjectTest.php:53-62 | the same, with the test's own string and expected markup |
| TreeScenarios.GetNestedScenario | tests/TreeObjectTest.php:64-70 | `nest($strong, 'foo')`, then `getChild('foo')` is `$strong` |
| TreeScenarios.DottedKeyScenario | tests/TreeObjectTest.php:72-78 | the key `11:30 a.m.` is found by `getChild` with the same string |
| TreeScenarios.AppendToAllScenario | tests/TreeObjectTest.php:80-89 | the keys are `foo, baz, append` |
| TreeScenarios.PrependToAllScenario | tests/TreeObjectTest.php:91-100 | the keys are `prepend, foo, baz` |
| TreeScenarios.PrependToChildScenario | tests/TreeObjectTest.php:102-111 | the keys are `foo, prepend, baz` |
| TreeScenarios.AppendToChildScenario | tests/TreeObjectTest.php:113-122 | the keys are `foo, append, baz` |
| TreeScenarios.NestMultipleValuesScenario | tests/TreeObjectTest.php:124-143 | `['strong' => 'foo', 'em' => 'bar']` renders `<p>foo<strong>foo</strong><em>bar</em></p>` |
| TreeScenarios.UnknownTagScenario | tests/TreeObjectTest.php:131-136 | `foobar => bar` nests `bar` as raw text: `<p>foo<strong>foo</strong>bar</p>` |
| TreeScenarios.NestMultipleElementsScenario | tests/TreeObjectTest.php:145-156 | each nested object is the child under its own key |
| TreeScenarios.NestMultipleObjectsScenario | tests/TreeObjectTest.php:158-165 | a list is keyed `0, 1` and renders in list order |
| TreeScenarios.WalkTreeScenario | tests/TreeObjectTest.php:167-173 | `getChild(0)->getParent()` is the fixture |
| TreeScenarios.ModifyChildrenScenario | tests/TreeObjectTest.php:175-182 | `getChild(0)->addClass('foo')` shows on the nested element's render |
| TreeScenarios.CrawlToTextScenario | tests/TreeObjectTest.php:184-190 | `addClass` on a text child leaves the render unchanged |
| TreeScenarios.CrawlSeveralLayersScenario | tests/TreeObjectTest.php:192-200 | the em renders inside the strong element and is found at `strong.em` |
| TreeScenarios.CrawlAnonymousLayersScenario | tests/TreeObjectTest.php:202-210 | with automatic keys the em is found at `0.0` |
| TreeScenarios.UpSeveralLevelsScenario | tests/TreeObjectTest.php:212-221 | the parent's parent of `strong.em` is the fixture, and so is `getParent(1)` |
| TreeScenarios.HasParentScenario | tests/TreeObjectTest.php:223-228 | the fixture has no parent until `setParent` |
| TreeScenarios.HasChildrenScenario | tests/TreeObjectTest.php:230-236 | the fixture has no children until `nest(div())` |
| TreeScenarios.SelfClosingChildScenario | tests/TreeObjectTest.php:238-245 | a void child renders without a closing tag: `<div>foo<input type="text"></div>` |
| TreeScenarios.IsAfterSiblingScenario | tests/TreeObjectTest.php:247-258 | `last->isAfter('first')` holds and `first->isAfter('last')` does not |
| TreeScenarios.HasChildScenario | tests/TreeObjectTest.php:260-267 | `hasChild('body')` holds and `hasChild('title')` does not |

## Left out

- The library's implementation classes are not part of this model. The
  contract comes from the two test suites.
- The `Icon` subclass and its `injectProperties` hook (tests/TagTest.php:8-23,
  39-44) are PHP inheritance plumbing and are not modelled.
- `testCanCreateHtmlObject` and `testCanCreateDefaultElement`
  (tests/TagTest.php:46-54) compare through the `assertHTML` matcher, whose
  code is not part of this model. The tag that `Element::create()` picks by
  default is unknown.
- PHP magic dispatch (`__call`, `__get`, `__set`) is replaced by explicit
  functions: `SetDynamic` for setters and `GetDynamic` for reads.
- The static factories (`Element::p`, `Input::hidden`, `Input::create`,
  `Link::create`) are replaced by one generic constructor plus the
  attributes the tests show. For example, `Input::create('text')` is an
  `input` element with `type="text"`, and `Link::create('#', '')` is an `a`
  element with `href="#"`.
- The global `Tag::$config['doctype']` is a `Doctype` parameter of the
  render, not ambient state.
- HTML escaping of values and attributes is not modelled. The tests assert
  none.
- Only canonical decimal strings are integer keys. PHP's other array-key
  conversions (booleans, floats, null) are not modelled.
- `setChild`'s `overwrite` flag is not modelled. A key collision always
  replaces the child in its place.
- Nesting at a path whose prefix does not resolve stores the node under the
  whole path as a literal key. Intermediate container nodes are not created,
  because no test shows them.
- Tree.IsAfter: when the node has no parent, or when either key is missing,
  it is false rather than an error. The tests only require that the
  predicate answers.
- Markup.Render: the render takes a depth bound (the heap size). A heap with
  a cycle, which the library would recurse into forever, renders truncated.
- Elements.Document: each element is a node of one heap, addressed by id,
  rather than its own Dafny object. Aliasing through PHP references is
  captured by id equality, not by separate objects.
- Tree.WellFormed: it requires unique keys and child and parent ids inside
  the heap, but not that every parent link points to a node that holds the
  node. `setParent` (tests/TreeObjectTest.php:223-228) sets a parent link
  without adding a child. A child that a later `setChild` or `nest`
  replaces under the same key keeps its old parent link. A node moved to a
  new parent stays among its old parent's children. The library's own code
  for these cases is not part of this model. What is proved instead is that
  every edit links the node it moves both ways (`AdoptLinks`, `AttachLinks`,
  `InsertChildLinks`, `WrapWithLinks`, `WrapWithTagLinks`). `WrapWith` on a
  node whose parent does not hold it takes the branch for a node without a
  parent.
- Attributes.AddClass: only the string form of `addClass` is modelled. The
  array form is not, because the tests only pass strings.
- The tests write `element('')` for the tag change. It is modelled as
  `setElement('')`: the tag is replaced, and nothing else changes.
- TagScenarios.RemoveAbsentScenario: `->class` on an element without a class
  reads nothing (PHP `null`). The test compares it with `''`, which is equal
  under PHP's loose comparison.
