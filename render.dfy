/**
 * Serialisation of an element tree. An element renders as its opening tag
 * (tag name, then its attributes in insertion order), its value, its
 * children in key order and its closing tag. A void element renders only
 * its opening tag, which ends in ` />` under the XHTML doctype and in `>`
 * otherwise. An element with an empty tag renders only its content.
 *
 * The heap may hold cycles (a node nested inside itself), so rendering
 * takes a depth bound `fuel`: a node reached with no fuel left renders as
 * nothing. `Html` below is the render with the heap size as bound, which
 * is deeper than any acyclic tree in that heap.
 */
module Markup {
  import opened Wrappers
  import opened OrderedMap
  import opened Attributes
  import opened Tree

  /** The doctype the renderer reads, passed in rather than kept globally. */
  datatype Doctype = Html5 | Xhtml

  /** Elements that never have content or a closing tag. */
  function VoidTags(): set<string> {
    {"area", "base", "br", "col", "command", "embed", "hr", "img", "input", "keygen", "link",
     "meta", "param", "source", "track", "wbr"}
  }

  predicate IsVoid(tag: string) {
    tag in VoidTags()
  }

  /** The opening tag; nothing for an element without a tag. */
  function OpenTag(n: Node, d: Doctype): string {
    if n.tag == "" then ""
    else "<" + n.tag + RenderAttributes(n.attributes) + (if IsVoid(n.tag) && d == Xhtml then " />" else ">")
  }

  /** The closing tag; nothing for a void element or one without a tag. */
  function CloseTag(n: Node): string {
    if n.tag == "" || IsVoid(n.tag) then "" else "</" + n.tag + ">"
  }

  /** `render()`: open tag, content and close tag, or only the open tag of a void element. */
  function Render(h: Heap, id: Id, d: Doctype, fuel: nat): string
    decreases fuel, 0, 0
  {
    if fuel == 0 || id >= |h| then ""
    else if IsVoid(h[id].tag) then OpenTag(h[id], d)
    else OpenTag(h[id], d) + Content(h, id, d, fuel - 1) + CloseTag(h[id])
  }

  /** The inner content: the value, then every child in key order. */
  function Content(h: Heap, id: Id, d: Doctype, fuel: nat): string
    decreases fuel, 1, 0
  {
    if id >= |h| then "" else h[id].value.GetOr("") + RenderList(h, h[id].children, d, fuel)
  }

  function RenderList(h: Heap, cs: Entries<Id>, d: Doctype, fuel: nat): string
    decreases fuel, 0, |cs|
  {
    if cs == [] then "" else Render(h, cs[0].1, d, fuel) + RenderList(h, cs[1..], d, fuel)
  }

  /** The render of a node with the heap size as depth bound. */
  function Html(h: Heap, id: Id, d: Doctype): string {
    Render(h, id, d, |h|)
  }

  // ---------------------------------------------------------------- format

  /**
   * A non-void element with a tag renders as `<tag attrs>`, its value, its
   * children and `</tag>`.
   */
  lemma RenderElement(h: Heap, id: Id, d: Doctype, fuel: nat)
    requires id < |h| && fuel > 0 && h[id].tag != "" && !IsVoid(h[id].tag)
    ensures Render(h, id, d, fuel) ==
      "<" + h[id].tag + RenderAttributes(h[id].attributes) + ">" +
      h[id].value.GetOr("") + RenderList(h, h[id].children, d, fuel - 1) +
      "</" + h[id].tag + ">"
  {
  }

  /** A childless non-void element renders as `<tag attrs>value</tag>` at any positive depth. */
  lemma RenderChildless(h: Heap, id: Id, d: Doctype, fuel: nat)
    requires id < |h| && fuel > 0 && h[id].tag != "" && !IsVoid(h[id].tag) && h[id].children == []
    ensures Render(h, id, d, fuel) ==
      "<" + h[id].tag + RenderAttributes(h[id].attributes) + ">" + h[id].value.GetOr("") + "</" + h[id].tag + ">"
  {
    RenderElement(h, id, d, fuel);
    var front := "<" + h[id].tag + RenderAttributes(h[id].attributes) + ">" + h[id].value.GetOr("");
    assert RenderList(h, [], d, fuel - 1) == "";
    assert front + "" == front;
  }

  /** The same at the heap's depth bound. */
  lemma RenderLeaf(h: Heap, id: Id, d: Doctype)
    requires id < |h| && h[id].tag != "" && !IsVoid(h[id].tag) && h[id].children == []
    ensures Html(h, id, d) ==
      "<" + h[id].tag + RenderAttributes(h[id].attributes) + ">" + h[id].value.GetOr("") + "</" + h[id].tag + ">"
  {
    RenderChildless(h, id, d, |h|);
  }

  /** A single child renders as that child. */
  lemma RenderListOne(h: Heap, k: string, c: Id, d: Doctype, fuel: nat)
    ensures RenderList(h, [(k, c)], d, fuel) == Render(h, c, d, fuel)
  {
    assert [(k, c)][1..] == [];
    assert Render(h, c, d, fuel) + "" == Render(h, c, d, fuel);
  }

  /**
   * A void element renders as its opening tag alone, whatever its value and
   * children: ending in ` />` under XHTML and in a bare `>` otherwise.
   */
  lemma RenderVoid(h: Heap, id: Id, d: Doctype, fuel: nat)
    requires id < |h| && fuel > 0 && IsVoid(h[id].tag)
    ensures var r := Render(h, id, d, fuel);
            var open := "<" + h[id].tag + RenderAttributes(h[id].attributes);
            && (d == Xhtml ==> r == open + " />" && r[|r| - 3..] == " />")
            && (d == Html5 ==> r == open + ">")
  {
    assert "" !in VoidTags();
  }

  /** An element with an empty tag (a "shadow" element) renders only its content. */
  lemma RenderShadow(h: Heap, id: Id, d: Doctype, fuel: nat)
    requires id < |h| && fuel > 0 && h[id].tag == ""
    ensures Render(h, id, d, fuel) == h[id].value.GetOr("") + RenderList(h, h[id].children, d, fuel - 1)
  {
    assert !IsVoid("");
  }

  /** Children render one after another: the render of a split list is the join of the renders. */
  lemma {:induction false} RenderListConcat(h: Heap, a: Entries<Id>, b: Entries<Id>, d: Doctype, fuel: nat)
    ensures RenderList(h, a + b, d, fuel) == RenderList(h, a, d, fuel) + RenderList(h, b, d, fuel)
  {
    if a == [] {
      assert a + b == b;
    } else {
      assert (a + b)[0] == a[0];
      assert (a + b)[1..] == a[1..] + b;
      RenderListConcat(h, a[1..], b, d, fuel);
    }
  }

  // ---------------------------------------------------------------- frame

  /** Two nodes that render alike: all but the parent link and the open flag agree. */
  predicate SameMarkup(a: Node, b: Node) {
    a.tag == b.tag && a.value == b.value && a.attributes == b.attributes && a.children == b.children
  }

  /** `h2` keeps every node of `h` up to its parent link and open flag, and may hold more. */
  predicate Extends(h: Heap, h2: Heap) {
    |h| <= |h2| && forall i :: 0 <= i < |h| ==> SameMarkup(h[i], h2[i])
  }

  /**
   * Rendering reads neither parent links nor open flags, and never reaches
   * nodes added after a well-formed heap: the render of an old node is the same
   * in any extension.
   */
  lemma {:induction false} RenderFrame(h: Heap, h2: Heap, id: Id, d: Doctype, fuel: nat)
    requires WellFormed(h) && Extends(h, h2) && id < |h|
    ensures Render(h2, id, d, fuel) == Render(h, id, d, fuel)
    decreases fuel, 0, 0
  {
    if fuel > 0 {
      assert SameMarkup(h[id], h2[id]);
      ContentFrame(h, h2, id, d, fuel - 1);
    }
  }

  lemma {:induction false} ContentFrame(h: Heap, h2: Heap, id: Id, d: Doctype, fuel: nat)
    requires WellFormed(h) && Extends(h, h2) && id < |h|
    ensures Content(h2, id, d, fuel) == Content(h, id, d, fuel)
    decreases fuel, 1, 0
  {
    assert SameMarkup(h[id], h2[id]) && NodeOk(h[id], |h|);
    RenderListFrame(h, h2, h[id].children, d, fuel);
  }

  lemma {:induction false} RenderListFrame(h: Heap, h2: Heap, cs: Entries<Id>, d: Doctype, fuel: nat)
    requires WellFormed(h) && Extends(h, h2)
    requires forall j :: 0 <= j < |cs| ==> cs[j].1 < |h|
    ensures RenderList(h2, cs, d, fuel) == RenderList(h, cs, d, fuel)
    decreases fuel, 0, |cs|
  {
    if cs != [] {
      RenderFrame(h, h2, cs[0].1, d, fuel);
      RenderListFrame(h, h2, cs[1..], d, fuel);
    }
  }
}
