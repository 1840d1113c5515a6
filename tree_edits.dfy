/**
 * The operations that change the tree: `setChild` and `nest` with their
 * path forms, `nestChildren`, `appendChild` / `prependChild`, `wrapWith`
 * and `wrapValue`, each as a function from the old heap to the new one.
 */
module TreeEdits {
  import opened Wrappers
  import opened Strings
  import opened OrderedMap
  import opened Attributes
  import opened Tree

  // ---------------------------------------------------------------- child ids stay in the heap

  predicate Below(cs: Entries<Id>, n: nat) {
    forall j :: 0 <= j < |cs| ==> cs[j].1 < n
  }

  lemma PutBelow(cs: Entries<Id>, k: string, c: Id, n: nat)
    requires Below(cs, n) && c < n
    ensures Below(Put(cs, k, c), n)
  {
    PutKeys(cs, k, c);
  }

  lemma RemoveBelow(cs: Entries<Id>, k: string, n: nat)
    requires Below(cs, n)
    ensures Below(Remove(cs, k), n)
  {
    var r: Entries<Id> := Remove<Id>(cs, k);
    RemoveIn<Id>(cs, k);
    forall j | 0 <= j < |r| ensures r[j].1 < n {
      assert r[j] in cs;
    }
  }

  lemma InsertBesideBelow(cs: Entries<Id>, target: Option<string>, after: bool, k: string, c: Id, n: nat)
    requires Below(cs, n) && c < n
    ensures Below(InsertBeside(cs, target, after, k, c), n)
  {
    RemoveBelow(cs, k, n);
  }

  lemma ReplaceAtBelow(cs: Entries<Id>, i: nat, k: string, c: Id, n: nat)
    requires i < |cs| && Below(cs, n) && c < n
    ensures Below(ReplaceAt(cs, i, k, c), n)
  {
    var r: Entries<Id> := ReplaceAt(cs, i, k, c);
    ReplaceAtParts(cs, i, k, c);
    forall j | 0 <= j < |r| ensures r[j].1 < n {
      assert r[j] in r;
    }
  }

  /** A node whose children or parent changed within bounds keeps the heap well formed. */
  lemma UpdateWellFormed(h: Heap, i: Id, n: Node)
    requires WellFormed(h) && i < |h| && NodeOk(n, |h|)
    ensures WellFormed(h[i := n])
  {
  }

  // ---------------------------------------------------------------- setChild / nest

  /**
   * `setChild($c, $key)` at a literal key: `c` stored under `key` in `p`
   * (an existing child under that key is replaced in its place), and `p`
   * becomes the parent of `c`. Nothing else changes.
   */
  function Adopt(h: Heap, p: Id, key: string, c: Id): (r: Heap)
    requires WellFormed(h) && p < |h| && c < |h|
    ensures WellFormed(r) && |r| == |h|
    ensures r[p].children == Put(h[p].children, key, c)
    ensures r[c].parent == Some(p)
    ensures r[p] == h[p].(children := r[p].children, parent := r[p].parent)
    ensures c != p ==> r[p].parent == h[p].parent && r[c] == h[c].(parent := Some(p))
    ensures forall i :: 0 <= i < |h| && i != p && i != c ==> r[i] == h[i]
  {
    assert NodeOk(h[p], |h|);
    PutBelow(h[p].children, key, c, |h|);
    PutUnique(h[p].children, key, c);
    var h1 := h[p := h[p].(children := Put(h[p].children, key, c))];
    UpdateWellFormed(h, p, h1[p]);
    assert NodeOk(h1[c], |h1|);
    UpdateWellFormed(h1, c, h1[c].(parent := Some(p)));
    h1[c := h1[c].(parent := Some(p))]
  }

  /** Everything before the last `.` of a path. */
  function Prefix(path: string): string {
    var segs := Split(path, '.');
    Join(segs[..|segs| - 1], '.')
  }

  /** The part after the last `.` of a path. */
  function LastSegment(path: string): string {
    var segs := Split(path, '.');
    segs[|segs| - 1]
  }

  /**
   * Where `setChild($c, $path)` stores `c`: under the last segment inside
   * the node the rest of the path names, when the path has a dot, is not
   * itself a key, and the rest resolves; under the literal path otherwise.
   */
  function Target(h: Heap, id: Id, path: string): (t: (Id, string))
    requires WellFormed(h) && id < |h|
    ensures t.0 < |h|
    ensures t.0 != id ==> '.' in path && !Has(h[id].children, path)
  {
    if Has(h[id].children, path) || '.' !in path then (id, path)
    else
      match Lookup(h, id, Prefix(path))
      case Some(t) => (t, LastSegment(path))
      case None => (id, path)
  }

  /** `setChild($c, $path)` and `nest($c, $path)`. */
  function Attach(h: Heap, id: Id, path: string, c: Id): (r: Heap)
    requires WellFormed(h) && id < |h| && c < |h|
    ensures WellFormed(r) && |r| == |h|
  {
    var t := Target(h, id, path);
    Adopt(h, t.0, t.1, c)
  }

  /** The edge `setChild` or `nest` makes is consistent both ways, at the node the path resolves to. */
  lemma AttachLinks(h: Heap, id: Id, path: string, c: Id)
    requires WellFormed(h) && id < |h| && c < |h|
    ensures var t := Target(h, id, path);
            Linked(Attach(h, id, path, c), t.0, t.1, c)
  {
    var t := Target(h, id, path);
    AdoptLinks(h, t.0, t.1, c);
  }

  /**
   * A path stored literally (no dot, already a key, or a prefix that does
   * not resolve) is found again by exactly that string, dots and all.
   */
  lemma AttachLiteral(h: Heap, id: Id, path: string, c: Id)
    requires WellFormed(h) && id < |h| && c < |h|
    requires '.' !in path || Has(h[id].children, path) || Lookup(h, id, Prefix(path)).None?
    ensures Lookup(Attach(h, id, path, c), id, path) == Some(c)
    ensures GetChild(Attach(h, id, path, c), id, path) == Ok(c)
  {
  }

  /** With a dotted path whose prefix resolves, `c` goes under the last segment inside that node. */
  lemma AttachNested(h: Heap, id: Id, path: string, c: Id)
    requires WellFormed(h) && id < |h| && c < |h|
    requires '.' in path && !Has(h[id].children, path) && Lookup(h, id, Prefix(path)).Some?
    ensures var t := Lookup(h, id, Prefix(path)).value;
            var r := Attach(h, id, path, c);
            Child(r, t, LastSegment(path)) == Some(c) && r[c].parent == Some(t)
  {
  }

  /** A dot-free path names a key of the node itself. */
  lemma AttachPlain(h: Heap, id: Id, k: string, c: Id)
    requires WellFormed(h) && id < |h| && c < |h| && '.' !in k
    ensures Attach(h, id, k, c) == Adopt(h, id, k, c)
  {
    assert Target(h, id, k) == (id, k);
  }

  /** `a.b` splits into `a` and `b` when neither holds a dot. */
  lemma SplitTwo(a: string, b: string)
    requires '.' !in a && '.' !in b
    ensures Split(a + "." + b, '.') == [a, b]
    ensures Prefix(a + "." + b) == a && LastSegment(a + "." + b) == b
  {
    SplitAfterPiece(a, b, '.');
    assert a + "." + b == a + ['.'] + b;
  }

  /** A two-segment path that is not itself a key is walked segment by segment. */
  lemma LookupTwo(h: Heap, id: Id, a: string, b: string)
    requires WellFormed(h) && '.' !in a && '.' !in b && Child(h, id, a + "." + b).None?
    ensures Lookup(h, id, a + "." + b) ==
      match Child(h, id, a) case Some(t) => Walk(h, t, [b]) case None => None
  {
    SplitTwo(a, b);
    assert [a, b][1..] == [b];
  }

  /** The children of the nodes `Adopt` does not touch, and the others' lookups. */
  /** The edge `Adopt` makes is consistent both ways: `p` holds `c` under `key` and `c`'s parent is `p`. */
  lemma AdoptLinks(h: Heap, p: Id, key: string, c: Id)
    requires WellFormed(h) && p < |h| && c < |h|
    ensures Linked(Adopt(h, p, key, c), p, key, c)
  {
    AdoptChild(h, p, key, c, p, key);
  }

  lemma AdoptChild(h: Heap, p: Id, key: string, c: Id, q: Id, k: string)
    requires WellFormed(h) && p < |h| && c < |h|
    ensures Child(Adopt(h, p, key, c), q, k) ==
      if q == p then (if k == key then Some(c) else Get(h[p].children, k)) else Child(h, q, k)
  {
  }

  /**
   * `nest($c, 'a.b')` into an existing child `a` (not the node itself):
   * afterwards `getChild('a.b')` is `c`.
   */
  lemma AttachTwoLevels(h: Heap, id: Id, a: string, b: string, c: Id)
    requires WellFormed(h) && id < |h| && c < |h|
    requires '.' !in a && '.' !in b && !Has(h[id].children, a + "." + b)
    requires Child(h, id, a).Some? && Child(h, id, a).value != id
    ensures Lookup(Attach(h, id, a + "." + b, c), id, a + "." + b) == Some(c)
  {
    var path := a + "." + b;
    SplitTwo(a, b);
    assert '.' in path by { assert path[|a|] == '.'; }
    var t := Child(h, id, a).value;
    assert Lookup(h, id, a) == Some(t);
    assert Target(h, id, path) == (t, b);
    var r := Adopt(h, t, b, c);
    assert r == Attach(h, id, path, c);
    AdoptChild(h, t, b, c, id, path);
    AdoptChild(h, t, b, c, id, a);
    AdoptChild(h, t, b, c, t, b);
    LookupTwo(r, id, a, b);
    assert Walk(r, t, [b]) == Walk(r, c, []);
  }

  /** Storing under a key the node already has replaces that child in its own position. */
  lemma AdoptInPlace(h: Heap, p: Id, key: string, c: Id)
    requires WellFormed(h) && p < |h| && c < |h| && Has(h[p].children, key)
    ensures Adopt(h, p, key, c)[p].children == h[p].children[IndexOf(h[p].children, key).value := (key, c)]
    ensures Keys(Adopt(h, p, key, c)[p].children) == Keys(h[p].children)
  {
    PutKeys(h[p].children, key, c);
  }

  /** `nest($c)` / `nest($c, $path)` for a node `c`. */
  function NestNode(h: Heap, id: Id, c: Id, path: Option<string>): (r: Heap)
    requires WellFormed(h) && id < |h| && c < |h|
    ensures WellFormed(r) && |r| == |h|
  {
    match path
    case None => Adopt(h, id, NextIndex(h[id].children), c)
    case Some(p) => Attach(h, id, p, c)
  }

  /** Without a path the node goes last, under a fresh integer key, and the others keep their keys and order. */
  lemma NestNodeAppends(h: Heap, id: Id, c: Id)
    requires WellFormed(h) && id < |h| && c < |h|
    ensures var k := NextIndex(h[id].children);
            var r := NestNode(h, id, c, None);
            && ParseIndex(k).Some?
            && !Has(h[id].children, k)
            && Keys(r[id].children) == Keys(h[id].children) + [k]
            && Child(r, id, k) == Some(c)
            && r[c].parent == Some(id)
  {
  }

  /** The heap with one new node, well formed. */
  function Grow(h: Heap, n: Node): (r: Heap)
    requires WellFormed(h) && NodeOk(n, |h| + 1)
    ensures WellFormed(r) && r == h + [n]
  {
    GrowWellFormed(h, n);
    h + [n]
  }

  /**
   * `nest($s)` and `nest($s, $second)` for a string `s`: alone it is raw
   * markup appended as a text child; `nest('strong', 'foo')` with a known
   * tag appends the element `<strong>foo</strong>`; otherwise `s` is raw
   * markup appended inside the child that `second` names, or, when that
   * path names no child, stored under `second` itself.
   */
  function NestString(h: Heap, id: Id, s: string, second: Option<string>): (r: Heap)
    requires WellFormed(h) && id < |h|
    ensures WellFormed(r) && |r| == |h| + 1
  {
    match second
    case None => NestNode(Grow(h, Text(s)), id, |h|, None)
    case Some(x) =>
      if IsKnownTag(s) then NestNode(Grow(h, Element(s, Some(x))), id, |h|, None)
      else
        match Lookup(h, id, x)
        case Some(t) => NestNode(Grow(h, Text(s)), t, |h|, None)
        case None => NestNode(Grow(h, Text(s)), id, |h|, Some(x))
  }

  /** `nest($s)`: a text child holding `s`, last, under a fresh integer key; nothing else changes. */
  lemma NestStringAlone(h: Heap, id: Id, s: string)
    requires WellFormed(h) && id < |h|
    ensures var n: Id := |h|;
            var cs := h[id].children + [(NextIndex(h[id].children), n)];
            NestString(h, id, s, None) == h[id := h[id].(children := cs)] + [Text(s).(parent := Some(id))]
  {
    AppendLeaf(h, id, Text(s));
  }

  /** `nest('strong', 'foo')`: a new `<strong>foo</strong>` child, last, under a fresh integer key. */
  lemma NestStringTag(h: Heap, id: Id, s: string, x: string)
    requires WellFormed(h) && id < |h| && IsKnownTag(s)
    ensures var n: Id := |h|;
            var cs := h[id].children + [(NextIndex(h[id].children), n)];
            NestString(h, id, s, Some(x)) == h[id := h[id].(children := cs)] + [Element(s, Some(x)).(parent := Some(id))]
  {
    AppendLeaf(h, id, Element(s, Some(x)));
  }

  /** `nest('by <a>someone</a>', 'body.title')`: a text child, last, inside the child the path names. */
  lemma NestStringInto(h: Heap, id: Id, s: string, x: string)
    requires WellFormed(h) && id < |h| && !IsKnownTag(s) && Lookup(h, id, x).Some?
    ensures var t := Lookup(h, id, x).value;
            var n: Id := |h|;
            var cs := h[t].children + [(NextIndex(h[t].children), n)];
            NestString(h, id, s, Some(x)) == h[t := h[t].(children := cs)] + [Text(s).(parent := Some(t))]
  {
    AppendLeaf(h, Lookup(h, id, x).value, Text(s));
  }

  /** A new childless node, nested last in `id` under a fresh integer key: the whole new heap. */
  lemma AppendLeaf(h: Heap, id: Id, e: Node)
    requires WellFormed(h) && id < |h| && e.children == [] && Unique(e.attributes)
    ensures var n: Id := |h|;
            var g := Grow(h, e.(parent := None));
            var cs := h[id].children + [(NextIndex(h[id].children), n)];
            NestNode(g, id, n, None) == h[id := h[id].(children := cs)] + [e.(parent := Some(id))]
  {
    var n: Id := |h|;
    var k := NextIndex(h[id].children);
    var g := Grow(h, e.(parent := None));
    assert g[id] == h[id];
    assert NestNode(g, id, n, None) == Adopt(g, id, k, n);
    AdoptAppended(h, id, k, e.(parent := None));
    PutNew(h[id].children, k, n);
  }

  // ---------------------------------------------------------------- nestChildren

  /** One entry of a collection: an existing node, or a string. */
  datatype Content = Existing(node: Id) | Markup(text: string)

  /** What `nestChildren` receives: a keyed array, or anything else (a scalar). */
  datatype Collection = Keyed(entries: seq<(string, Content)>) | Scalar(text: string)

  /** A PHP list: the items under the keys 0, 1, 2, … */
  function Listed(items: seq<Content>): (es: seq<(string, Content)>)
    ensures |es| == |items|
    ensures forall i :: 0 <= i < |items| ==> es[i] == (Decimal(i), items[i])
  {
    seq(|items|, i requires 0 <= i < |items| => (Decimal(i), items[i]))
  }

  predicate EntriesOk(es: seq<(string, Content)>, size: nat) {
    forall i :: 0 <= i < |es| && es[i].1.Existing? ==> es[i].1.node < size
  }

  /** The node a string entry becomes: an element when its key is a known tag, raw text otherwise. */
  function MarkupNode(key: string, s: string): Node {
    if IsKnownTag(key) then Element(key, Some(s)) else Text(s)
  }

  function NestEntry(h: Heap, id: Id, key: string, e: Content): (r: Heap)
    requires WellFormed(h) && id < |h| && (e.Existing? ==> e.node < |h|)
    ensures WellFormed(r) && |r| >= |h|
  {
    match e
    case Existing(c) => Attach(h, id, key, c)
    case Markup(s) => Attach(Grow(h, MarkupNode(key, s)), id, key, |h|)
  }

  /** Every entry nested in turn, in map order. */
  function NestEntries(h: Heap, id: Id, es: seq<(string, Content)>): (r: Heap)
    requires WellFormed(h) && id < |h| && EntriesOk(es, |h|)
    ensures WellFormed(r) && |r| >= |h|
    decreases |es|
  {
    if es == [] then h
    else
      var h1 := NestEntries(h, id, es[..|es| - 1]);
      NestEntry(h1, id, es[|es| - 1].0, es[|es| - 1].1)
  }

  /** `nestChildren($collection)`: a scalar leaves the node as it was. */
  function NestChildren(h: Heap, id: Id, col: Collection): (r: Heap)
    requires WellFormed(h) && id < |h| && (col.Keyed? ==> EntriesOk(col.entries, |h|))
    ensures WellFormed(r) && |r| >= |h|
    ensures col.Scalar? ==> r == h
  {
    match col
    case Keyed(es) => NestEntries(h, id, es)
    case Scalar(_) => h
  }

  function EntryKeys(es: seq<(string, Content)>): (ks: seq<string>)
    ensures |ks| == |es| && forall i :: 0 <= i < |es| ==> ks[i] == es[i].0
    decreases |es|
  {
    if es == [] then [] else EntryKeys(es[..|es| - 1]) + [es[|es| - 1].0]
  }

  /** One entry under a dot-free key is assigned to that key of the node itself. */
  lemma NestEntryFresh(h: Heap, id: Id, k: string, e: Content)
    requires WellFormed(h) && id < |h| && (e.Existing? ==> e.node < |h|)
    requires '.' !in k
    ensures var n: Id := if e.Existing? then e.node else |h|;
            NestEntry(h, id, k, e)[id].children == Put(h[id].children, k, n)
  {
    var n: Id := if e.Existing? then e.node else |h|;
    var g := if e.Existing? then h else Grow(h, MarkupNode(k, e.text));
    assert g[id] == h[id];
    assert Target(g, id, k) == (id, k);
    assert NestEntry(h, id, k, e) == Adopt(g, id, k, n);
  }

  /**
   * A string entry under a dot-free key becomes a new node at the end of
   * the heap (an element when the key is a tag name, text otherwise),
   * stored under that key; nothing else changes.
   */
  lemma NestMarkupEntry(h: Heap, id: Id, k: string, s: string)
    requires WellFormed(h) && id < |h| && '.' !in k
    ensures NestEntry(h, id, k, Markup(s)) ==
      h[id := h[id].(children := Put(h[id].children, k, |h|))] + [MarkupNode(k, s).(parent := Some(id))]
  {
    var g := Grow(h, MarkupNode(k, s));
    assert Target(g, id, k) == (id, k);
    assert NestEntry(h, id, k, Markup(s)) == Adopt(g, id, k, |h|);
    AdoptAppended(h, id, k, MarkupNode(k, s));
  }

  /** Adopting a node just appended to the heap: the parent's new entry and the node's parent link. */
  lemma AdoptAppended(h: Heap, id: Id, k: string, n: Node)
    requires WellFormed(h) && id < |h| && NodeOk(n, |h| + 1)
    ensures Adopt(Grow(h, n), id, k, |h|) ==
      h[id := h[id].(children := Put(h[id].children, k, |h|))] + [n.(parent := Some(id))]
  {
    var g := Grow(h, n);
    var r := Adopt(g, id, k, |h|);
    var e := h[id := h[id].(children := Put(h[id].children, k, |h|))] + [n.(parent := Some(id))];
    assert |r| == |e|;
    forall i | 0 <= i < |r| ensures r[i] == e[i] {
      if i < |h| && i != id {
        assert r[i] == g[i] == h[i];
      }
    }
  }

  /** Entries that `NestEntriesKeys` accepts: keys new to the node, distinct and dot-free. */
  predicate FreshKeys(h: Heap, id: Id, es: seq<(string, Content)>)
    requires id < |h|
  {
    && (forall i :: 0 <= i < |es| ==> '.' !in es[i].0 && !Has(h[id].children, es[i].0))
    && (forall i, j :: 0 <= i < j < |es| ==> es[i].0 != es[j].0)
  }

  lemma FreshKeysInit(h: Heap, id: Id, es: seq<(string, Content)>)
    requires id < |h| && es != [] && FreshKeys(h, id, es)
    ensures FreshKeys(h, id, es[..|es| - 1])
    ensures es[|es| - 1].0 !in EntryKeys(es[..|es| - 1])
    ensures es[|es| - 1].0 !in Keys(h[id].children)
  {
    var init := es[..|es| - 1];
    assert forall i :: 0 <= i < |init| ==> init[i] == es[i];
    KeysHas(h[id].children, es[|es| - 1].0);
  }

  lemma EntriesOkInit(es: seq<(string, Content)>, size: nat)
    requires es != [] && EntriesOk(es, size)
    ensures EntriesOk(es[..|es| - 1], size)
  {
    var init := es[..|es| - 1];
    assert forall i :: 0 <= i < |init| ==> init[i] == es[i];
  }

  /** Every prefix of a list of entries within bounds is within bounds. */
  lemma EntriesOkPrefix(es: seq<(string, Content)>, n: nat, size: nat)
    requires n <= |es| && EntriesOk(es, size)
    ensures EntriesOk(es[..n], size)
  {
    assert forall i :: 0 <= i < n ==> es[..n][i] == es[i];
  }

  /** The last entry, under a dot-free key, is assigned to that key of the node. */
  lemma NestEntriesLast(h: Heap, id: Id, es: seq<(string, Content)>)
    requires WellFormed(h) && id < |h| && es != [] && EntriesOk(es, |h|)
    requires EntriesOk(es[..|es| - 1], |h|) && '.' !in es[|es| - 1].0
    ensures var h1 := NestEntries(h, id, es[..|es| - 1]);
            var e := es[|es| - 1].1;
            var n: Id := if e.Existing? then e.node else |h1|;
            NestEntries(h, id, es)[id].children == Put(h1[id].children, es[|es| - 1].0, n)
  {
    var h1 := NestEntries(h, id, es[..|es| - 1]);
    NestEntryFresh(h1, id, es[|es| - 1].0, es[|es| - 1].1);
  }

  /**
   * Nesting entries whose keys are new, distinct and dot-free adds them
   * after the existing children, in map order.
   */
  lemma {:induction false} NestEntriesKeys(h: Heap, id: Id, es: seq<(string, Content)>)
    requires WellFormed(h) && id < |h| && EntriesOk(es, |h|) && FreshKeys(h, id, es)
    ensures Keys(NestEntries(h, id, es)[id].children) == Keys(h[id].children) + EntryKeys(es)
    decreases |es|
  {
    if es != [] {
      var init := es[..|es| - 1];
      var k := es[|es| - 1].0;
      var e := es[|es| - 1].1;
      FreshKeysInit(h, id, es);
      EntriesOkInit(es, |h|);
      NestEntriesKeys(h, id, init);
      NestEntriesLast(h, id, es);
      var h1 := NestEntries(h, id, init);
      var n: Id := if e.Existing? then e.node else |h1|;
      PutNewKeys(h1[id].children, Keys(h[id].children), EntryKeys(init), k, n);
    }
  }

  /** Assigning a key found in neither part of the keys adds it at the end. */
  lemma PutNewKeys(cs: Entries<Id>, ks: seq<string>, more: seq<string>, k: string, n: Id)
    requires Keys(cs) == ks + more && k !in ks && k !in more
    ensures Keys(Put(cs, k, n)) == ks + (more + [k])
  {
    KeysHas(cs, k);
    PutKeys(cs, k, n);
    assert (ks + more) + [k] == ks + (more + [k]);
  }

  /** After nesting such entries, every node entry is the child under its key. */
  lemma {:induction false} NestEntriesChildren(h: Heap, id: Id, es: seq<(string, Content)>)
    requires WellFormed(h) && id < |h| && EntriesOk(es, |h|) && FreshKeys(h, id, es)
    ensures forall i :: 0 <= i < |es| && es[i].1.Existing? ==>
      Child(NestEntries(h, id, es), id, es[i].0) == Some(es[i].1.node)
    decreases |es|
  {
    if es != [] {
      var init := es[..|es| - 1];
      var k := es[|es| - 1].0;
      FreshKeysInit(h, id, es);
      EntriesOkInit(es, |h|);
      NestEntriesChildren(h, id, init);
      NestEntriesLast(h, id, es);
      forall i | 0 <= i < |es| - 1 ensures init[i] == es[i] && es[i].0 != k {
      }
    }
  }

  /** A key is present exactly when it is among the keys. */
  lemma {:induction false} KeysHas<V>(m: Entries<V>, k: string)
    ensures Has(m, k) <==> k in Keys(m)
  {
    if Has(m, k) {
      assert Keys(m)[IndexOf(m, k).value] == k;
    }
  }

  // ---------------------------------------------------------------- appendChild / prependChild

  /**
   * `appendChild` (after) and `prependChild` (before): `c` under `key`
   * (or a fresh integer key), next to the sibling `target` when there is one
   * such key, at the end or the front otherwise; the parent of `c` becomes
   * the node.
   */
  function InsertChild(h: Heap, id: Id, c: Id, key: Option<string>, target: Option<string>, after: bool): (r: Heap)
    requires WellFormed(h) && id < |h| && c < |h|
    ensures WellFormed(r) && |r| == |h|
    ensures r[id].children == InsertBeside(h[id].children, target, after, key.GetOr(NextIndex(h[id].children)), c)
    ensures r[c].parent == Some(id)
    ensures forall i :: 0 <= i < |h| && i != id && i != c ==> r[i] == h[i]
  {
    var cs := h[id].children;
    var k := key.GetOr(NextIndex(cs));
    assert NodeOk(h[id], |h|);
    InsertBesideBelow(cs, target, after, k, c, |h|);
    InsertBesideFacts(cs, target, after, k, c);
    var h1 := h[id := h[id].(children := InsertBeside(cs, target, after, k, c))];
    UpdateWellFormed(h, id, h1[id]);
    assert NodeOk(h1[c], |h1|);
    UpdateWellFormed(h1, c, h1[c].(parent := Some(id)));
    h1[c := h1[c].(parent := Some(id))]
  }

  /** The edge `appendChild` or `prependChild` makes is consistent both ways. */
  lemma InsertChildLinks(h: Heap, id: Id, c: Id, key: Option<string>, target: Option<string>, after: bool)
    requires WellFormed(h) && id < |h| && c < |h|
    ensures Linked(InsertChild(h, id, c, key, target, after), id, key.GetOr(NextIndex(h[id].children)), c)
  {
    assert NodeOk(h[id], |h|);
    InsertBesideFacts(h[id].children, target, after, key.GetOr(NextIndex(h[id].children)), c);
  }

  function AppendChild(h: Heap, id: Id, c: Id, key: Option<string>, target: Option<string>): (r: Heap)
    requires WellFormed(h) && id < |h| && c < |h|
    ensures WellFormed(r) && |r| == |h|
  {
    InsertChild(h, id, c, key, target, true)
  }

  function PrependChild(h: Heap, id: Id, c: Id, key: Option<string>, target: Option<string>): (r: Heap)
    requires WellFormed(h) && id < |h| && c < |h|
    ensures WellFormed(r) && |r| == |h|
  {
    InsertChild(h, id, c, key, target, false)
  }

  /**
   * The keys after `appendChild` with a new key: at the end without a
   * target (or with one that is not a key), immediately after the target
   * otherwise; the existing keys keep their relative order.
   */
  lemma AppendChildKeys(h: Heap, id: Id, c: Id, k: string, target: Option<string>)
    requires WellFormed(h) && id < |h| && c < |h| && !Has(h[id].children, k)
    ensures var ks := Keys(h[id].children);
            var r := AppendChild(h, id, c, Some(k), target);
            && Child(r, id, k) == Some(c)
            && ((target.None? || !Has(h[id].children, target.value)) ==> Keys(r[id].children) == ks + [k])
            && (target.Some? && Has(h[id].children, target.value) ==>
                  var j := IndexOf(h[id].children, target.value).value;
                  Keys(r[id].children) == ks[..j + 1] + [k] + ks[j + 1..])
  {
    assert NodeOk(h[id], |h|);
    InsertBesideFacts(h[id].children, target, true, k, c);
    assert Keys(h[id].children)[..|h[id].children|] == Keys(h[id].children);
  }

  /** The keys after `prependChild` with a new key: at the front, or immediately before the target. */
  lemma PrependChildKeys(h: Heap, id: Id, c: Id, k: string, target: Option<string>)
    requires WellFormed(h) && id < |h| && c < |h| && !Has(h[id].children, k)
    ensures var ks := Keys(h[id].children);
            var r := PrependChild(h, id, c, Some(k), target);
            && Child(r, id, k) == Some(c)
            && ((target.None? || !Has(h[id].children, target.value)) ==> Keys(r[id].children) == [k] + ks)
            && (target.Some? && Has(h[id].children, target.value) ==>
                  var j := IndexOf(h[id].children, target.value).value;
                  Keys(r[id].children) == ks[..j] + [k] + ks[j..])
  {
    assert NodeOk(h[id], |h|);
    InsertBesideFacts(h[id].children, target, false, k, c);
    assert Keys(h[id].children)[0..] == Keys(h[id].children);
  }

  // ---------------------------------------------------------------- wrapWith / wrapValue

  /**
   * `wrapWith($w, $key)`. When the node sits in a parent, `w` takes its
   * slot, under `key` or the node's own key, and the node moves into `w`
   * under its old key. Without a parent, the node is nested in `w` under
   * `key`, or a fresh integer key. Either way the node's parent becomes `w`.
   */
  function WrapWith(h: Heap, id: Id, w: Id, key: Option<string>): (r: Heap)
    requires WellFormed(h) && id < |h| && w < |h|
    ensures WellFormed(r) && |r| == |h|
    ensures r[id].parent == Some(w)
    ensures r[w] == h[w].(children := r[w].children, parent := r[w].parent)
  {
    assert NodeOk(h[id], |h|);
    if InParentSlot(h, id) then
      var cs := h[h[id].parent.value].children;
      Adopt(Vacated(h, id, w, key), w, cs[SlotOf(cs, id).value].0, id)
    else
      Adopt(h, w, key.GetOr(NextIndex(h[w].children)), id)
  }

  /**
   * Wrapping a child: `w` is the child of the old parent under the new key,
   * in the node's old position with every other key there in its order;
   * the node is the child of `w` under its old key; `w`'s parent is the old
   * parent.
   */
  lemma WrapWithInParent(h: Heap, id: Id, w: Id, key: Option<string>)
    requires WellFormed(h) && id < |h| && w < |h|
    requires h[id].parent.Some? && SlotOf(h[h[id].parent.value].children, id).Some?
    requires var p := h[id].parent.value; w != id && w != p && id != p
    requires var cs := h[h[id].parent.value].children;
             var k := cs[SlotOf(cs, id).value].0;
             !Has(cs, key.GetOr(k)) || key.GetOr(k) == k
    ensures var p := h[id].parent.value;
            var cs := h[p].children;
            var j := SlotOf(cs, id).value;
            var k := cs[j].0;
            var r := WrapWith(h, id, w, key);
            && Child(r, p, key.GetOr(k)) == Some(w)
            && Keys(r[p].children) == Keys(cs)[j := key.GetOr(k)]
            && Child(r, w, k) == Some(id)
            && r[id].parent == Some(w)
            && r[w].parent == Some(p)
            && (forall i :: 0 <= i < |h| && i != p && i != w && i != id ==> r[i] == h[i])
  {
    var p := h[id].parent.value;
    var cs := h[p].children;
    var j := SlotOf(cs, id).value;
    var k := cs[j].0;
    var r := WrapWith(h, id, w, key);
    WrapWithNodes(h, id, w, key);
    assert NodeOk(h[p], |h|);
    ReplaceAtUnique(cs, j, key.GetOr(k), w);
    ReplaceAtKeys(cs, j, key.GetOr(k), w);
    assert r[p].children == ReplaceAt(cs, j, key.GetOr(k), w);
    assert r[w].children == Put(h[w].children, k, id);
  }

  /**
   * The three nodes a child's wrap touches: the old parent holds `w` in the
   * child's slot, `w` holds the child under its old key and hangs under the
   * old parent, and the child hangs under `w`.
   */
  lemma WrapWithNodes(h: Heap, id: Id, w: Id, key: Option<string>)
    requires WellFormed(h) && id < |h| && w < |h|
    requires h[id].parent.Some? && SlotOf(h[h[id].parent.value].children, id).Some?
    requires var p := h[id].parent.value; w != id && w != p && id != p
    ensures var p := h[id].parent.value;
            var cs := h[p].children;
            var j := SlotOf(cs, id).value;
            var k := cs[j].0;
            var r := WrapWith(h, id, w, key);
            && r[p] == h[p].(children := ReplaceAt(cs, j, key.GetOr(k), w))
            && r[w] == h[w].(children := Put(h[w].children, k, id), parent := Some(p))
            && r[id] == h[id].(parent := Some(w))
            && (forall i :: 0 <= i < |h| && i != p && i != w && i != id ==> r[i] == h[i])
  {
  }

  /**
   * After wrapping a child under a new dot-free key `g`, the node is found at
   * the path `g.k`, `k` being its old key.
   */
  lemma WrapWithPath(h: Heap, id: Id, w: Id, g: string)
    requires WellFormed(h) && id < |h| && w < |h|
    requires h[id].parent.Some? && SlotOf(h[h[id].parent.value].children, id).Some?
    requires var p := h[id].parent.value; w != id && w != p && id != p
    requires var cs := h[h[id].parent.value].children;
             var k := cs[SlotOf(cs, id).value].0;
             '.' !in g && '.' !in k && (!Has(cs, g) || g == k) && !Has(cs, g + "." + k)
    ensures var p := h[id].parent.value;
            var cs := h[p].children;
            var k := cs[SlotOf(cs, id).value].0;
            Lookup(WrapWith(h, id, w, Some(g)), p, g + "." + k) == Some(id)
  {
    var p := h[id].parent.value;
    var cs: Entries<Id> := h[p].children;
    var k := cs[SlotOf(cs, id).value].0;
    var r := WrapWith(h, id, w, Some(g));
    WrapWithInParent(h, id, w, Some(g));
    WrapWithNoDottedKey(h, id, w, g);
    LookupTwo(r, p, g, k);
    assert Walk(r, w, [k]) == Walk(r, id, []);
  }

  /** The joined path is not itself a key after the wrap. */
  lemma WrapWithNoDottedKey(h: Heap, id: Id, w: Id, g: string)
    requires WellFormed(h) && id < |h| && w < |h|
    requires h[id].parent.Some? && SlotOf(h[h[id].parent.value].children, id).Some?
    requires var p := h[id].parent.value; w != id && w != p && id != p
    requires var cs := h[h[id].parent.value].children;
             var k := cs[SlotOf(cs, id).value].0;
             !Has(cs, g + "." + k)
    ensures var p := h[id].parent.value;
            var cs := h[p].children;
            var k := cs[SlotOf(cs, id).value].0;
            Child(WrapWith(h, id, w, Some(g)), p, g + "." + k).None?
  {
    var p := h[id].parent.value;
    var cs: Entries<Id> := h[p].children;
    var j := SlotOf(cs, id).value;
    var k := cs[j].0;
    var path := g + "." + k;
    assert NodeOk(h[p], |h|);
    assert path != g && path != k by { assert |path| == |g| + |k| + 1; }
    ReplaceAtGet<Id>(cs, j, g, w, path);
    assert WrapWith(h, id, w, Some(g))[p].children == ReplaceAt<Id>(cs, j, g, w);
  }

  /** Wrapping a node without a parent: it becomes the child of `w` under the key. */
  lemma WrapWithDetached(h: Heap, id: Id, w: Id, key: string)
    requires WellFormed(h) && id < |h| && w < |h| && h[id].parent.None?
    ensures Child(WrapWith(h, id, w, Some(key)), w, key) == Some(id)
  {
  }

  /** Whether the node sits in the children of its parent, which is where `WrapWith` puts the wrapper. */
  predicate InParentSlot(h: Heap, id: Id)
    requires id < |h|
  {
    h[id].parent.Some? && h[id].parent.value < |h| && SlotOf(h[h[id].parent.value].children, id).Some?
  }

  /**
   * The key under which `WrapWith` stores the node in the wrapper: its old
   * key when it sits in a parent, otherwise `key` or the wrapper's next
   * integer key.
   */
  function WrapKey(h: Heap, id: Id, w: Id, key: Option<string>): string
    requires id < |h| && w < |h|
  {
    if InParentSlot(h, id) then
      var cs := h[h[id].parent.value].children;
      cs[SlotOf(cs, id).value].0
    else key.GetOr(NextIndex(h[w].children))
  }

  /** After any wrap the node and the wrapper are linked both ways, under `WrapKey`. */
  lemma WrapWithLinks(h: Heap, id: Id, w: Id, key: Option<string>)
    requires WellFormed(h) && id < |h| && w < |h|
    ensures Linked(WrapWith(h, id, w, key), w, WrapKey(h, id, w, key), id)
  {
    if InParentSlot(h, id) {
      WrapWithKeepsKey(h, id, w, key);
    }
  }

  /**
   * Wrapping a node that sits in a parent, spelled out: the parent's slot is
   * replaced by the wrapper and the wrapper hangs under the parent.
   */
  lemma WrapWithInSlot(h: Heap, id: Id, w: Id, key: Option<string>)
    requires WellFormed(h) && id < |h| && w < |h| && InParentSlot(h, id)
    requires w != h[id].parent.value
    ensures var p := h[id].parent.value;
            var cs := h[p].children;
            var j := SlotOf(cs, id).value;
            var r := WrapWith(h, id, w, key);
            && r[p].children == ReplaceAt(cs, j, key.GetOr(cs[j].0), w)
            && (w != id ==> r[w].parent == Some(p))
  {
    var p := h[id].parent.value;
    var cs := h[p].children;
    var j := SlotOf(cs, id).value;
    var k := cs[j].0;
    assert WrapWith(h, id, w, key) == Adopt(Vacated(h, id, w, key), w, k, id);
  }

  /** Wrapping a node that sits in a parent stores it in the wrapper under its old key. */
  lemma WrapWithKeepsKey(h: Heap, id: Id, w: Id, key: Option<string>)
    requires WellFormed(h) && id < |h| && w < |h| && InParentSlot(h, id)
    ensures var cs := h[h[id].parent.value].children;
            Child(WrapWith(h, id, w, key), w, cs[SlotOf(cs, id).value].0) == Some(id)
  {
    var p := h[id].parent.value;
    var cs := h[p].children;
    var k := cs[SlotOf(cs, id).value].0;
    var r := Adopt(Vacated(h, id, w, key), w, k, id);
    assert WrapWith(h, id, w, key) == r;
    assert Get(r[w].children, k) == Some(id);
  }

  /** The heap `WrapWith` hands to `Adopt` when the node sits in a parent: the slot already holds the wrapper. */
  function Vacated(h: Heap, id: Id, w: Id, key: Option<string>): (r: Heap)
    requires WellFormed(h) && id < |h| && w < |h| && InParentSlot(h, id)
    ensures WellFormed(r) && |r| == |h|
  {
    var p := h[id].parent.value;
    var cs := h[p].children;
    var j := SlotOf(cs, id).value;
    var k := cs[j].0;
    assert NodeOk(h[p], |h|);
    ReplaceAtBelow(cs, j, key.GetOr(k), w, |h|);
    ReplaceAtUnique(cs, j, key.GetOr(k), w);
    var h1 := h[p := h[p].(children := ReplaceAt(cs, j, key.GetOr(k), w))];
    UpdateWellFormed(h, p, h1[p]);
    assert NodeOk(h1[w], |h1|);
    UpdateWellFormed(h1, w, h1[w].(parent := Some(p)));
    h1[w := h1[w].(parent := Some(p))]
  }

  /**
   * When the node sat in a parent other than the wrapper, the wrapper is
   * linked to that parent under `key` or the node's old key, and the
   * parent's children are the old ones with the node's slot replaced.
   */
  lemma WrapWithParentLinks(h: Heap, id: Id, w: Id, key: Option<string>)
    requires WellFormed(h) && id < |h| && w < |h| && w != id
    requires InParentSlot(h, id) && w != h[id].parent.value
    ensures var p := h[id].parent.value;
            var cs := h[p].children;
            var j := SlotOf(cs, id).value;
            var r := WrapWith(h, id, w, key);
            && r[p].children == ReplaceAt(cs, j, key.GetOr(cs[j].0), w)
            && Linked(r, p, key.GetOr(cs[j].0), w)
  {
    var p := h[id].parent.value;
    var cs := h[p].children;
    var j := SlotOf(cs, id).value;
    assert NodeOk(h[p], |h|);
    ReplaceAtUnique(cs, j, key.GetOr(cs[j].0), w);
    WrapWithInSlot(h, id, w, key);
  }

  /** `wrapWith('tag', $key)`: the wrapper is a new element of that tag, with no text. */
  function WrapWithTag(h: Heap, id: Id, tag: string, key: Option<string>): (r: Heap)
    requires WellFormed(h) && id < |h|
    ensures WellFormed(r) && |r| == |h| + 1
    ensures r[id].parent == Some(|h|)
    ensures r[|h|].tag == tag && r[|h|].value == None && r[|h|].attributes == []
  {
    WrapWith(Grow(h, Element(tag, None)), id, |h|, key)
  }

  /**
   * After `wrapWith('tag', $key)` the new element holds the node: under its
   * old key when it sat in a parent, and then the new element takes the
   * node's slot there under `key` or that old key; otherwise under `key`,
   * or `0` when no key is given, and the new element has no parent.
   */
  lemma WrapWithTagLinks(h: Heap, id: Id, tag: string, key: Option<string>)
    requires WellFormed(h) && id < |h|
    ensures var r := WrapWithTag(h, id, tag, key);
            var n: Id := |h|;
            if InParentSlot(h, id) then
              var p := h[id].parent.value;
              var cs := h[p].children;
              var j := SlotOf(cs, id).value;
              && Linked(r, n, cs[j].0, id)
              && Linked(r, p, key.GetOr(cs[j].0), n)
              && r[p].children == ReplaceAt(cs, j, key.GetOr(cs[j].0), n)
            else
              && Linked(r, n, key.GetOr("0"), id)
              && r[n].parent == None
  {
    var n: Id := |h|;
    var g := Grow(h, Element(tag, None));
    assert g[id] == h[id];
    assert forall i :: 0 <= i < |h| ==> g[i] == h[i];
    WrapWithLinks(g, id, n, key);
    if InParentSlot(h, id) {
      WrapWithParentLinks(g, id, n, key);
    } else {
      NextIndexEmpty<Id>();
    }
  }

  /**
   * `wrapValue($tag)`: the node's text moves into a new element of that tag,
   * placed first among its children under a fresh integer key.
   */
  function WrapValue(h: Heap, id: Id, tag: string): (r: Heap)
    requires WellFormed(h) && id < |h|
    ensures WellFormed(r) && |r| == |h| + 1
  {
    var g := Grow(h, Element(tag, h[id].value));
    var r := InsertChild(g, id, |h|, None, None, false);
    assert NodeOk(r[id], |r|);
    UpdateWellFormed(r, id, r[id].(value := None));
    r[id := r[id].(value := None)]
  }

  /** After `wrapValue`: no value of its own, a new first child holding the old value, the other children as before. */
  lemma WrapValueShape(h: Heap, id: Id, tag: string)
    requires WellFormed(h) && id < |h|
    ensures var r := WrapValue(h, id, tag);
            var k := NextIndex(h[id].children);
            var n: Id := |h|;
            && r[id] == h[id].(value := None, children := [(k, n)] + h[id].children)
            && r[n] == Element(tag, h[id].value).(parent := Some(id))
            && !Has(h[id].children, k)
  {
    var n: Id := |h|;
    var cs := h[id].children;
    var k := NextIndex(cs);
    var g := Grow(h, Element(tag, h[id].value));
    assert g[id] == h[id];
    assert InsertBeside(cs, None, false, k, n) == [(k, n)] + cs;
  }
}
