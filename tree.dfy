/**
 * The element tree. Nodes live in a heap (a sequence indexed by node id);
 * an id stands for a PHP object reference, so a node nested in two places,
 * parent links and "the same object" comparisons are all id equality.
 * Each node has a tag, an optional text value, its attribute store, an
 * ordered keyed map of child ids, an optional parent id, and the flag that
 * `open()` sets.
 */
module Tree {
  import opened Wrappers
  import opened Strings
  import opened OrderedMap
  import opened Attributes

  type Id = nat

  datatype Node = Node(
    tag: string,
    value: Option<string>,
    attributes: Attrs,
    children: Entries<Id>,
    parent: Option<Id>,
    isOpen: bool)

  type Heap = seq<Node>

  /** The generic constructor: a tag and an optional value, nothing else. */
  function Element(tag: string, value: Option<string>): Node {
    Node(tag, value, [], [], None, false)
  }

  /** A raw markup child: a node with an empty tag, which renders only its text. */
  function Text(s: string): Node {
    Element("", Some(s))
  }

  /** Keys are unique and every id a node holds names a node of the heap. */
  predicate NodeOk(n: Node, size: nat) {
    && Unique(n.attributes)
    && Unique(n.children)
    && (forall j :: 0 <= j < |n.children| ==> n.children[j].1 < size)
    && (n.parent.Some? ==> n.parent.value < size)
  }

  predicate WellFormed(h: Heap) {
    forall i :: 0 <= i < |h| ==> NodeOk(h[i], |h|)
  }

  /** Appending a well-formed node keeps the heap well formed. */
  lemma GrowWellFormed(h: Heap, n: Node)
    requires WellFormed(h) && NodeOk(n, |h| + 1)
    ensures WellFormed(h + [n])
  {
    var h' := h + [n];
    forall i | 0 <= i < |h'| ensures NodeOk(h'[i], |h'|) {
      if i < |h| {
        assert h'[i] == h[i] && NodeOk(h[i], |h|);
      }
    }
  }

  /**
   * The tags `nest(tag, text)` and `nestChildren([tag => text])` turn into
   * elements, grouped by length (the list has no name longer than ten).
   */
  function KnownTagsOfLength(n: nat): set<string> {
    if n == 1 then {"a", "b", "i", "p", "q", "s", "u"}
    else if n == 2 then {"br", "dd", "dl", "dt", "em", "h1", "h2", "h3", "h4", "h5", "h6", "hr", "li", "ol", "rp", "rt", "td", "th", "tr", "ul"}
    else if n == 3 then {"bdi", "bdo", "col", "del", "dfn", "div", "img", "ins", "kbd", "map", "nav", "pre", "sub", "sup", "var", "wbr"}
    else if n == 4 then {"abbr", "area", "base", "body", "cite", "code", "data", "form", "head", "html", "link", "main", "mark", "meta", "ruby", "samp", "span", "time"}
    else if n == 5 then {"aside", "audio", "embed", "input", "label", "meter", "param", "small", "style", "table", "tbody", "tfoot", "thead", "title", "track", "video"}
    else if n == 6 then {"button", "canvas", "dialog", "figure", "footer", "header", "iframe", "legend", "object", "option", "output", "script", "select", "source", "strong"}
    else if n == 7 then {"address", "article", "caption", "details", "picture", "section", "summary"}
    else if n == 8 then {"colgroup", "datalist", "fieldset", "noscript", "optgroup", "progress", "template", "textarea"}
    else if n == 10 then {"blockquote", "figcaption"}
    else {}
  }

  predicate IsKnownTag(s: string) {
    s in KnownTagsOfLength(|s|)
  }

  // ---------------------------------------------------------------- lookup

  /** The child of `id` stored under exactly `key`. */
  function Child(h: Heap, id: Id, key: string): (r: Option<Id>)
    ensures r.Some? ==> id < |h| && Has(h[id].children, key)
  {
    if id < |h| then Get(h[id].children, key) else None
  }

  /** Follow `segs` key by key from `id`. */
  function Walk(h: Heap, id: Id, segs: seq<string>): (r: Option<Id>)
    requires WellFormed(h)
    ensures r.Some? ==> r.value < |h|
    decreases |segs|
  {
    if segs == [] then (if id < |h| then Some(id) else None)
    else
      match Child(h, id, segs[0])
      case None => None
      case Some(c) =>
        assert NodeOk(h[id], |h|) && h[id].children[IndexOf(h[id].children, segs[0]).value].1 == c;
        Walk(h, c, segs[1..])
  }

  /**
   * Path lookup: a key equal to the whole path wins outright (so a key
   * holding dots is found as itself); otherwise the path is split on `.`
   * and walked.
   */
  function Lookup(h: Heap, id: Id, path: string): (r: Option<Id>)
    requires WellFormed(h)
    ensures r.Some? ==> r.value < |h|
  {
    match Child(h, id, path)
    case Some(c) =>
      assert NodeOk(h[id], |h|) && h[id].children[IndexOf(h[id].children, path).value].1 == c;
      Some(c)
    case None => Walk(h, id, Split(path, '.'))
  }

  /** `getChild($path)`: the node, or a not-found error naming the path. */
  function GetChild(h: Heap, id: Id, path: string): (r: Result<Id>)
    requires WellFormed(h)
    ensures r.Ok? <==> Lookup(h, id, path).Some?
    ensures r.Ok? ==> r.value == Lookup(h, id, path).value
    ensures r.Failure? ==> r.error == NotFound(path)
  {
    match Lookup(h, id, path)
    case Some(c) => Ok(c)
    case None => Failure(NotFound(path))
  }

  /** `hasChild($path)`: a lookup that answers instead of failing. */
  predicate HasChild(h: Heap, id: Id, path: string)
    requires WellFormed(h)
  {
    Lookup(h, id, path).Some?
  }

  predicate HasChildren(h: Heap, id: Id) {
    id < |h| && |h[id].children| > 0
  }

  predicate HasParent(h: Heap, id: Id) {
    id < |h| && h[id].parent.Some?
  }

  /**
   * The two directions of one tree edge agree: `p` holds `c` under `key`
   * and `c`'s parent link points back to `p`.
   */
  predicate Linked(h: Heap, p: Id, key: string, c: Id) {
    c < |h| && Child(h, p, key) == Some(c) && h[c].parent == Some(p)
  }

  /** The node `n` parent links up from `id`. */
  function Ancestor(h: Heap, id: Id, n: nat): Option<Id>
    decreases n
  {
    if n == 0 then Some(id)
    else if id < |h| && h[id].parent.Some? then Ancestor(h, h[id].parent.value, n - 1)
    else None
  }

  /** `getParent($levels)`: `levels` = 0 is the parent, 1 the grandparent, and so on. */
  function GetParent(h: Heap, id: Id, levels: nat): Option<Id>
  {
    Ancestor(h, id, levels + 1)
  }

  /** Climbing `m + n` levels is climbing `m` levels, then `n` more. */
  lemma {:induction false} AncestorSplit(h: Heap, id: Id, m: nat, n: nat)
    ensures Ancestor(h, id, m + n) ==
      match Ancestor(h, id, m) case Some(a) => Ancestor(h, a, n) case None => None
    decreases m
  {
    if m > 0 && id < |h| && h[id].parent.Some? {
      AncestorSplit(h, h[id].parent.value, m - 1, n);
    }
  }

  /** `getParent(k + 1)` is the parent of `getParent(k)`. */
  lemma GetParentStep(h: Heap, id: Id, k: nat)
    ensures GetParent(h, id, k + 1) ==
      match GetParent(h, id, k) case Some(a) => GetParent(h, a, 0) case None => None
  {
    AncestorSplit(h, id, k + 1, 1);
  }

  /** The first position in `cs` that holds `id`. */
  function SlotOf(cs: Entries<Id>, id: Id): (r: Option<nat>)
    ensures r.Some? ==> r.value < |cs| && cs[r.value].1 == id
    ensures r.Some? ==> forall j :: 0 <= j < r.value ==> cs[j].1 != id
    ensures r.None? ==> forall j :: 0 <= j < |cs| ==> cs[j].1 != id
  {
    if cs == [] then None
    else if cs[0].1 == id then Some(0)
    else match SlotOf(cs[1..], id)
      case None => None
      case Some(j) => Some(j + 1)
  }

  /**
   * `isAfter($sibling)`: this node comes later than `sibling` among its
   * parent's children; false, never a failure, when there is no parent or
   * either is not among them.
   */
  predicate IsAfter(h: Heap, id: Id, sibling: string)
  {
    && id < |h| && h[id].parent.Some? && h[id].parent.value < |h|
    && var cs := h[h[id].parent.value].children;
       SlotOf(cs, id).Some? && Has(cs, sibling) && SlotOf(cs, id).value > IndexOf(cs, sibling).value
  }

  /**
   * Two children `x` (key `kx`, position `i`) and `y` (key `ky`, position
   * `j`) of one parent: each is after the other exactly when its position
   * is the greater one, so at most one of them is after the other.
   */
  lemma IsAfterOrder(h: Heap, p: Id, x: Id, kx: string, i: nat, y: Id, ky: string, j: nat)
    requires WellFormed(h) && p < |h| && x < |h| && y < |h|
    requires h[x].parent == Some(p) && h[y].parent == Some(p)
    requires i < |h[p].children| && h[p].children[i] == (kx, x) && SlotOf(h[p].children, x) == Some(i)
    requires j < |h[p].children| && h[p].children[j] == (ky, y) && SlotOf(h[p].children, y) == Some(j)
    ensures IsAfter(h, y, kx) <==> i < j
    ensures IsAfter(h, x, ky) <==> j < i
  {
    var cs := h[p].children;
    assert NodeOk(h[p], |h|);
    UniqueIndex(cs, i);
    UniqueIndex(cs, j);
  }

  /** In a map with unique keys, the key at position `i` is found at `i`. */
  lemma UniqueIndex<V>(m: Entries<V>, i: nat)
    requires Unique(m) && i < |m|
    ensures IndexOf(m, m[i].0) == Some(i)
  {
    var r := IndexOf(m, m[i].0);
    assert !(r.value < i) && !(i < r.value);
  }

  // ---------------------------------------------------------------- dynamic access

  /** What a dynamic property read `$el->name` yields. */
  datatype Property = ChildNode(node: Id) | AttributeValue(value: Value) | Nothing

  /**
   * `$el->oneTwo` reads the child at path `one.two` when there is one, and
   * otherwise the attribute of the rewritten name (`$el->dataFoo` reads
   * `data-foo`); with neither, nothing (PHP `null`).
   */
  function GetDynamic(h: Heap, id: Id, accessor: string): (r: Property)
    requires WellFormed(h)
    ensures r.ChildNode? <==> Lookup(h, id, Decamel(accessor, '.')).Some?
    ensures r.ChildNode? ==> r.node == Lookup(h, id, Decamel(accessor, '.')).value
    ensures r.AttributeValue? ==> id < |h| && Get(h[id].attributes, AttributeName(accessor)) == Some(r.value)
    ensures r.Nothing? ==> id >= |h| || !Has(h[id].attributes, AttributeName(accessor))
  {
    match Lookup(h, id, Decamel(accessor, '.'))
    case Some(c) => ChildNode(c)
    case None =>
      if id < |h| && Has(h[id].attributes, AttributeName(accessor))
      then AttributeValue(Get(h[id].attributes, AttributeName(accessor)).value)
      else Nothing
  }
}
