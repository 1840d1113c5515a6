/**
 * The mutable object graph. A `Document` holds every element object as a
 * node of its heap; an `Id` stands for a PHP object reference, so every
 * chained call on an element (`$el->addClass('x')`, `$el->nest($c)`) is a
 * method here taking that element's id, which updates the heap in place.
 * Each method is specified by the pure function of the tree modules that
 * computes its new heap, and keeps the heap well formed. The queries
 * (`getChild`, `getAttribute`, `hasParent`, `render`, ...) change nothing and
 * are the pure functions of those modules applied to `nodes`.
 */
module Elements {
  import opened Wrappers
  import opened Strings
  import opened OrderedMap
  import opened Attributes
  import opened Tree
  import opened TreeEdits
  import opened Markup
  import opened Fragments

  /** Changing one node's tag, value, attributes or flag keeps the heap well formed. */
  lemma RestyleWellFormed(h: Heap, id: Id, n: Node)
    requires WellFormed(h) && id < |h| && Unique(n.attributes)
    requires n.children == h[id].children && n.parent == h[id].parent
    ensures WellFormed(h[id := n])
  {
    assert NodeOk(h[id], |h|);
    UpdateWellFormed(h, id, n);
  }

  /** Setting or clearing open flags keeps the heap well formed. */
  lemma FlagsWellFormed(h: Heap, h2: Heap)
    requires WellFormed(h) && |h2| == |h|
    requires forall i :: 0 <= i < |h| ==> h2[i] == h[i].(isOpen := h2[i].isOpen)
    ensures WellFormed(h2)
  {
    forall i | 0 <= i < |h2| ensures NodeOk(h2[i], |h2|) {
      assert NodeOk(h[i], |h|);
    }
  }

  class Document {
    var nodes: Heap

    predicate Valid()
      reads this
    {
      WellFormed(nodes)
    }

    constructor ()
      ensures Valid() && nodes == []
    {
      nodes := [];
    }

    // ------------------------------------------------------------ elements

    /** `new Element($tag, $value)` (and `Element::create`): a detached element. */
    method Create(tag: string, value: Option<string>) returns (id: Id)
      requires Valid()
      modifies this
      ensures Valid() && id == |old(nodes)| && nodes == old(nodes) + [Element(tag, value)]
    {
      id := |nodes|;
      nodes := Grow(nodes, Element(tag, value));
    }

    /** `setElement($tag)`. */
    method SetElement(id: Id, tag: string)
      requires Valid() && id < |nodes|
      modifies this
      ensures Valid() && nodes == old(nodes)[id := old(nodes)[id].(tag := tag)]
    {
      RestyleWellFormed(nodes, id, nodes[id].(tag := tag));
      nodes := nodes[id := nodes[id].(tag := tag)];
    }

    /** `setValue($value)`. */
    method SetValue(id: Id, value: Option<string>)
      requires Valid() && id < |nodes|
      modifies this
      ensures Valid() && nodes == old(nodes)[id := old(nodes)[id].(value := value)]
    {
      RestyleWellFormed(nodes, id, nodes[id].(value := value));
      nodes := nodes[id := nodes[id].(value := value)];
    }

    // ------------------------------------------------------------ attributes

    method SetAttributesOf(id: Id, a: Attrs)
      requires Valid() && id < |nodes| && Unique(a)
      modifies this
      ensures Valid() && nodes == old(nodes)[id := old(nodes)[id].(attributes := a)]
    {
      RestyleWellFormed(nodes, id, nodes[id].(attributes := a));
      nodes := nodes[id := nodes[id].(attributes := a)];
    }

    /** `setAttribute($name, $value)`: the entry is overwritten in place or added last. */
    method SetAttribute(id: Id, name: string, v: Value)
      requires Valid() && id < |nodes|
      modifies this
      ensures Valid()
      ensures nodes == old(nodes)[id := old(nodes)[id].(attributes := Put(old(nodes)[id].attributes, name, v))]
      ensures Get(nodes[id].attributes, name) == Some(v)
    {
      assert NodeOk(nodes[id], |nodes|);
      PutUnique(nodes[id].attributes, name, v);
      SetAttributesOf(id, Put(nodes[id].attributes, name, v));
    }

    /** `setAttributes($es)`: each entry assigned in turn; earlier attributes not named stay. */
    method SetAttributes(id: Id, es: Attrs)
      requires Valid() && id < |nodes|
      modifies this
      ensures Valid()
      ensures nodes == old(nodes)[id := old(nodes)[id].(attributes := Merge(old(nodes)[id].attributes, es))]
    {
      ghost var before := nodes;
      ghost var a := nodes[id].attributes;
      var i := 0;
      while i < |es|
        invariant 0 <= i <= |es|
        invariant Valid() && |nodes| == |before|
        invariant nodes == before[id := before[id].(attributes := Merge(a, es[..i]))]
      {
        MergeStep(a, es, i);
        SetAttribute(id, es[i].0, es[i].1);
        i := i + 1;
      }
      assert es[..|es|] == es;
    }

    /** `replaceAttributes($es)`: every earlier attribute discarded first. */
    method ReplaceAttributes(id: Id, es: Attrs)
      requires Valid() && id < |nodes|
      modifies this
      ensures Valid() && nodes == old(nodes)[id := old(nodes)[id].(attributes := Replace(es))]
    {
      SetAttributesOf(id, Replace(es));
    }

    /** `addClass($classes)`. */
    method AddClass(id: Id, classes: string)
      requires Valid() && id < |nodes|
      modifies this
      ensures Valid()
      ensures nodes == old(nodes)[id := old(nodes)[id].(attributes := Attributes.AddClass(old(nodes)[id].attributes, classes))]
      ensures ClassList(nodes[id].attributes) == AddTokens(ClassList(old(nodes)[id].attributes), Tokens(classes))
    {
      AddClassList(nodes[id].attributes, classes);
      assert NodeOk(nodes[id], |nodes|);
      PutUnique(nodes[id].attributes, ClassName, Str(Join(AddTokens(ClassList(nodes[id].attributes), Tokens(classes)), ' ')));
      SetAttributesOf(id, Attributes.AddClass(nodes[id].attributes, classes));
    }

    /** `removeClass($classes)`: a token, a space-separated string, or a list. */
    method RemoveClass(id: Id, arg: ClassArg)
      requires Valid() && id < |nodes|
      modifies this
      ensures Valid()
      ensures nodes == old(nodes)[id := old(nodes)[id].(attributes := Attributes.RemoveClass(old(nodes)[id].attributes, arg))]
      ensures ClassList(nodes[id].attributes) == RemoveTokens(ClassList(old(nodes)[id].attributes), ClassNames(arg))
    {
      RemoveClassList(nodes[id].attributes, arg);
      assert NodeOk(nodes[id], |nodes|);
      var a := nodes[id].attributes;
      if Has(a, ClassName) {
        PutUnique(a, ClassName, Str(Join(RemoveTokens(ClassList(a), ClassNames(arg)), ' ')));
      }
      SetAttributesOf(id, Attributes.RemoveClass(a, arg));
    }

    /** A dynamic setter `$el->dataFoo($v)`, `$el->data_foo($v)`, `$el->required()`. */
    method SetDynamic(id: Id, accessor: string, arg: Option<Value>)
      requires Valid() && id < |nodes|
      modifies this
      ensures Valid()
      ensures nodes == old(nodes)[id := old(nodes)[id].(attributes := Attributes.SetDynamic(old(nodes)[id].attributes, accessor, arg))]
    {
      assert NodeOk(nodes[id], |nodes|);
      PutUnique(nodes[id].attributes, AttributeName(accessor), arg.GetOr(Flag(true)));
      SetAttributesOf(id, Attributes.SetDynamic(nodes[id].attributes, accessor, arg));
    }

    // ------------------------------------------------------------ children

    /** `setChild($c, $key)`: stored under the literal key, replacing any child there. */
    method SetChild(id: Id, c: Id, key: string)
      requires Valid() && id < |nodes| && c < |nodes|
      modifies this
      ensures Valid() && nodes == Adopt(old(nodes), id, key, c)
    {
      nodes := Adopt(nodes, id, key, c);
    }

    /** `setParent($p)`. */
    method SetParent(id: Id, p: Id)
      requires Valid() && id < |nodes| && p < |nodes|
      modifies this
      ensures Valid() && nodes == old(nodes)[id := old(nodes)[id].(parent := Some(p))]
    {
      assert NodeOk(nodes[id], |nodes|);
      UpdateWellFormed(nodes, id, nodes[id].(parent := Some(p)));
      nodes := nodes[id := nodes[id].(parent := Some(p))];
    }

    /** `nest($c)` / `nest($c, $path)` for an element `c`. */
    method NestNode(id: Id, c: Id, path: Option<string>)
      requires Valid() && id < |nodes| && c < |nodes|
      modifies this
      ensures Valid() && nodes == TreeEdits.NestNode(old(nodes), id, c, path)
    {
      nodes := TreeEdits.NestNode(nodes, id, c, path);
    }

    /** `nest($s)` / `nest($s, $second)` for a string `s`. */
    method NestString(id: Id, s: string, second: Option<string>)
      requires Valid() && id < |nodes|
      modifies this
      ensures Valid() && nodes == TreeEdits.NestString(old(nodes), id, s, second)
    {
      nodes := TreeEdits.NestString(nodes, id, s, second);
    }

    /** `nestChildren($collection)` (and `nest($array)`): every entry in turn; a scalar changes nothing. */
    method NestChildren(id: Id, col: Collection)
      requires Valid() && id < |nodes| && (col.Keyed? ==> EntriesOk(col.entries, |nodes|))
      modifies this
      ensures Valid() && nodes == TreeEdits.NestChildren(old(nodes), id, col)
    {
      if col.Keyed? {
        var es := col.entries;
        var i := 0;
        while i < |es|
          invariant 0 <= i <= |es|
          invariant EntriesOk(es[..i], |old(nodes)|)
          invariant Valid() && |nodes| >= |old(nodes)|
          invariant nodes == NestEntries(old(nodes), id, es[..i])
        {
          assert es[..i + 1][..i] == es[..i];
          EntriesOkPrefix(es, i + 1, |old(nodes)|);
          nodes := NestEntry(nodes, id, es[i].0, es[i].1);
          i := i + 1;
        }
        assert es[..|es|] == es;
      }
    }

    /** `appendChild($c, $key, $after)`. */
    method AppendChild(id: Id, c: Id, key: Option<string>, target: Option<string>)
      requires Valid() && id < |nodes| && c < |nodes|
      modifies this
      ensures Valid() && nodes == TreeEdits.AppendChild(old(nodes), id, c, key, target)
    {
      nodes := TreeEdits.AppendChild(nodes, id, c, key, target);
    }

    /** `prependChild($c, $key, $before)`. */
    method PrependChild(id: Id, c: Id, key: Option<string>, target: Option<string>)
      requires Valid() && id < |nodes| && c < |nodes|
      modifies this
      ensures Valid() && nodes == TreeEdits.PrependChild(old(nodes), id, c, key, target)
    {
      nodes := TreeEdits.PrependChild(nodes, id, c, key, target);
    }

    // ------------------------------------------------------------ wrapping

    /** `wrapWith($w, $key)`: returns the wrapped element itself. */
    method WrapWith(id: Id, w: Id, key: Option<string>) returns (r: Id)
      requires Valid() && id < |nodes| && w < |nodes|
      modifies this
      ensures Valid() && nodes == TreeEdits.WrapWith(old(nodes), id, w, key)
      ensures r == id && nodes[r].parent == Some(w)
    {
      nodes := TreeEdits.WrapWith(nodes, id, w, key);
      r := id;
    }

    /** `wrapWith('tag', $key)`. */
    method WrapWithTag(id: Id, tag: string, key: Option<string>) returns (r: Id)
      requires Valid() && id < |nodes|
      modifies this
      ensures Valid() && nodes == TreeEdits.WrapWithTag(old(nodes), id, tag, key)
      ensures r == id && nodes[r].parent == Some(|old(nodes)|)
    {
      nodes := TreeEdits.WrapWithTag(nodes, id, tag, key);
      r := id;
    }

    /** `wrapValue($tag)`. */
    method WrapValue(id: Id, tag: string)
      requires Valid() && id < |nodes|
      modifies this
      ensures Valid() && nodes == TreeEdits.WrapValue(old(nodes), id, tag)
    {
      nodes := TreeEdits.WrapValue(nodes, id, tag);
    }

    // ------------------------------------------------------------ rendering

    /** `open()`: the opening tag; the element is marked opened. */
    method Open(id: Id, d: Doctype) returns (s: string)
      requires Valid() && id < |nodes|
      modifies this
      ensures Valid() && nodes == old(nodes)[id := old(nodes)[id].(isOpen := true)]
      ensures s == OpenTag(old(nodes)[id], d) && nodes[id].isOpen
    {
      s := OpenTag(nodes[id], d);
      RestyleWellFormed(nodes, id, nodes[id].(isOpen := true));
      nodes := nodes[id := nodes[id].(isOpen := true)];
    }

    /** `openOn($path)`: every node on the path marked opened, then the opening fragment. */
    method OpenOn(id: Id, path: string, d: Doctype) returns (s: string)
      requires Valid()
      modifies this
      ensures var segs := Split(path, '.');
              && Valid() && nodes == MarkOpened(old(nodes), Opened(old(nodes), id, segs))
              && s == Fragments.OpenOn(nodes, id, segs, d, |nodes|)
    {
      var segs := Split(path, '.');
      var h := MarkOpened(nodes, Opened(nodes, id, segs));
      FlagsWellFormed(nodes, h);
      nodes := h;
      s := Fragments.OpenOn(nodes, id, segs, d, |nodes|);
    }

    /** `close()`: the closing fragment; every node it passes is marked closed again. */
    method Close(id: Id, d: Doctype) returns (s: string)
      requires Valid()
      modifies this
      ensures Valid() && nodes == MarkClosed(old(nodes), Closed(old(nodes), id, |old(nodes)|))
      ensures s == Fragments.Close(old(nodes), id, d, |old(nodes)|)
    {
      s := Fragments.Close(nodes, id, d, |nodes|);
      var h := MarkClosed(nodes, Closed(nodes, id, |nodes|));
      FlagsWellFormed(nodes, h);
      nodes := h;
    }
  }
}
