/**
 * Manual, incremental rendering. `open()` emits an element's opening tag and
 * marks it opened; `openOn(path)` emits everything of the element that comes
 * before the node at `path`, then that node's opening tag, and marks every
 * node on the way opened; `close()` emits, for each opened child, that
 * child's own closing fragment, then every later sibling in full, and
 * finally the element's closing tag, clearing the open flags it passes.
 *
 * The main theorem: with exactly the path's nodes opened,
 * `openOn(path) + s + close()` is the element's render with `s` in place of
 * the content of the node at `path`; with that node's own content as `s`,
 * it is the plain render.
 */
module Fragments {
  import opened Wrappers
  import opened OrderedMap
  import opened Tree
  import opened Markup

  // ---------------------------------------------------------------- fragments

  /** `openOn(path)`, descending from `id` along the path's segments. */
  function OpenOn(h: Heap, id: Id, segs: seq<string>, d: Doctype, fuel: nat): string
    decreases fuel, 0
  {
    if fuel == 0 || id >= |h| then ""
    else if segs == [] then OpenTag(h[id], d)
    else OpenTag(h[id], d) + h[id].value.GetOr("") + OpenOnList(h, h[id].children, segs, d, fuel - 1)
  }

  /** Siblings before the first child keyed `segs[0]` render in full; that child is opened on the rest. */
  function OpenOnList(h: Heap, cs: Entries<Id>, segs: seq<string>, d: Doctype, fuel: nat): string
    requires segs != []
    decreases fuel, |cs|
  {
    if cs == [] then ""
    else if cs[0].0 == segs[0] then OpenOn(h, cs[0].1, segs[1..], d, fuel)
    else Render(h, cs[0].1, d, fuel) + OpenOnList(h, cs[1..], segs, d, fuel)
  }

  /** `close()`: the closing fragments of opened children, the siblings after them, the closing tag. */
  function Close(h: Heap, id: Id, d: Doctype, fuel: nat): string
    decreases fuel, 0
  {
    if fuel == 0 || id >= |h| then ""
    else CloseList(h, h[id].children, false, d, fuel - 1) + CloseTag(h[id])
  }

  /** `seen` records that an opened child has been closed: every sibling after it renders in full. */
  function CloseList(h: Heap, cs: Entries<Id>, seen: bool, d: Doctype, fuel: nat): string
    decreases fuel, |cs|
  {
    if cs == [] then ""
    else
      var c := cs[0].1;
      if c < |h| && h[c].isOpen then Close(h, c, d, fuel) + CloseList(h, cs[1..], true, d, fuel)
      else (if seen then Render(h, c, d, fuel) else "") + CloseList(h, cs[1..], seen, d, fuel)
  }

  /** The nodes `close()` passes and marks closed again. */
  function Closed(h: Heap, id: Id, fuel: nat): set<Id>
    decreases fuel, 0
  {
    if fuel == 0 || id >= |h| then {} else {id} + ClosedList(h, h[id].children, fuel - 1)
  }

  function ClosedList(h: Heap, cs: Entries<Id>, fuel: nat): set<Id>
    decreases fuel, |cs|
  {
    if cs == [] then {}
    else
      var c := cs[0].1;
      (if c < |h| && h[c].isOpen then Closed(h, c, fuel) else {}) + ClosedList(h, cs[1..], fuel)
  }

  /** The nodes `openOn(path)` opens: `id`, then the child under each segment in turn while there is one. */
  function Opened(h: Heap, id: Id, segs: seq<string>): set<Id>
    decreases |segs|
  {
    if id >= |h| then {}
    else if segs == [] then {id}
    else match Child(h, id, segs[0])
      case Some(c) => {id} + Opened(h, c, segs[1..])
      case None => {id}
  }

  /** Set the open flag of every node in `s`. */
  function MarkOpened(h: Heap, s: set<Id>): (r: Heap)
    ensures |r| == |h|
    ensures forall i :: 0 <= i < |h| ==> r[i] == h[i].(isOpen := h[i].isOpen || i in s)
  {
    seq(|h|, i requires 0 <= i < |h| => h[i].(isOpen := h[i].isOpen || i in s))
  }

  /** Clear the open flag of every node in `s`. */
  function MarkClosed(h: Heap, s: set<Id>): (r: Heap)
    ensures |r| == |h|
    ensures forall i :: 0 <= i < |h| ==> r[i] == h[i].(isOpen := h[i].isOpen && i !in s)
  {
    seq(|h|, i requires 0 <= i < |h| => h[i].(isOpen := h[i].isOpen && i !in s))
  }

  /** The render of `id` with `s` in place of the content of the node at the end of `segs`. */
  function Spliced(h: Heap, id: Id, segs: seq<string>, s: string, d: Doctype, fuel: nat): string
    decreases fuel, 0
  {
    if fuel == 0 || id >= |h| then ""
    else if segs == [] then OpenTag(h[id], d) + s + CloseTag(h[id])
    else OpenTag(h[id], d) + h[id].value.GetOr("") + SplicedList(h, h[id].children, segs, s, d, fuel - 1) + CloseTag(h[id])
  }

  function SplicedList(h: Heap, cs: Entries<Id>, segs: seq<string>, s: string, d: Doctype, fuel: nat): string
    requires segs != []
    decreases fuel, |cs|
  {
    if cs == [] then ""
    else if cs[0].0 == segs[0] then Spliced(h, cs[0].1, segs[1..], s, d, fuel) + RenderList(h, cs[1..], d, fuel)
    else Render(h, cs[0].1, d, fuel) + SplicedList(h, cs[1..], segs, s, d, fuel)
  }

  // ---------------------------------------------------------------- conditions

  /** No node is opened. */
  predicate NoneOpen(h: Heap) {
    forall i :: 0 <= i < |h| ==> !h[i].isOpen
  }

  /** The opened nodes are exactly the members of `s`. */
  predicate OpenedExactly(h: Heap, s: set<Id>) {
    forall i :: 0 <= i < |h| ==> (h[i].isOpen <==> i in s)
  }

  /**
   * The path from `id` leads through nodes of `s`, and no other child of a
   * node on it is in `s`: the first child keyed by each segment is the next
   * node, and the last node has no child in `s`.
   */
  predicate Isolated(h: Heap, id: Id, segs: seq<string>, s: set<Id>)
    decreases |segs|, 1
  {
    && id < |h| && id in s
    && (segs == [] ==> forall j :: 0 <= j < |h[id].children| ==> h[id].children[j].1 !in s)
    && (segs != [] ==> IsolatedList(h, h[id].children, segs, s))
  }

  predicate IsolatedList(h: Heap, cs: Entries<Id>, segs: seq<string>, s: set<Id>)
    requires segs != []
    decreases |segs|, 0, |cs|
  {
    && cs != []
    && if cs[0].0 == segs[0] then
         && Isolated(h, cs[0].1, segs[1..], s)
         && forall j :: 1 <= j < |cs| ==> cs[j].1 !in s
       else cs[0].1 !in s && IsolatedList(h, cs[1..], segs, s)
  }

  /** Every node the path passes through before its end is a non-void element. */
  predicate PathOk(h: Heap, id: Id, segs: seq<string>)
    decreases |segs|, 1
  {
    id < |h| && (segs != [] ==> !IsVoid(h[id].tag) && PathOkList(h, h[id].children, segs))
  }

  predicate PathOkList(h: Heap, cs: Entries<Id>, segs: seq<string>)
    requires segs != []
    decreases |segs|, 0, |cs|
  {
    cs != [] && if cs[0].0 == segs[0] then PathOk(h, cs[0].1, segs[1..]) else PathOkList(h, cs[1..], segs)
  }

  /** The node at the end of the path, found as `PathOk` finds it. */
  function PathEnd(h: Heap, id: Id, segs: seq<string>): (t: Id)
    requires PathOk(h, id, segs)
    ensures t < |h|
    decreases |segs|, 1
  {
    if segs == [] then id else PathEndList(h, h[id].children, segs)
  }

  function PathEndList(h: Heap, cs: Entries<Id>, segs: seq<string>): (t: Id)
    requires segs != [] && PathOkList(h, cs, segs)
    ensures t < |h|
    decreases |segs|, 0, |cs|
  {
    if cs[0].0 == segs[0] then PathEnd(h, cs[0].1, segs[1..]) else PathEndList(h, cs[1..], segs)
  }

  // ---------------------------------------------------------------- theorems

  /** With no child opened, `close()` emits no content: only the closing tag. */
  lemma {:induction false} CloseListNoneOpen(h: Heap, cs: Entries<Id>, d: Doctype, fuel: nat, s: set<Id>)
    requires OpenedExactly(h, s)
    requires forall j :: 0 <= j < |cs| ==> cs[j].1 !in s
    ensures CloseList(h, cs, false, d, fuel) == ""
    ensures ClosedList(h, cs, fuel) == {}
    decreases |cs|
  {
    if cs != [] {
      CloseListNoneOpen(h, cs[1..], d, fuel, s);
    }
  }

  /** After a closed child, with no later child opened, the later siblings render in full. */
  lemma {:induction false} CloseListSeen(h: Heap, cs: Entries<Id>, d: Doctype, fuel: nat, s: set<Id>)
    requires OpenedExactly(h, s)
    requires forall j :: 0 <= j < |cs| ==> cs[j].1 !in s
    ensures CloseList(h, cs, true, d, fuel) == RenderList(h, cs, d, fuel)
    ensures ClosedList(h, cs, fuel) == {}
    decreases |cs|
  {
    if cs != [] {
      CloseListSeen(h, cs[1..], d, fuel, s);
    }
  }

  /**
   * `openOn(path) + content + close()` is the render with `content` spliced in
   * at the end of the path, when exactly the path's nodes are opened.
   */
  lemma {:induction false} OpenOnClose(h: Heap, id: Id, segs: seq<string>, s: set<Id>, x: string, d: Doctype, fuel: nat)
    requires OpenedExactly(h, s) && Isolated(h, id, segs, s) && fuel > |segs|
    ensures OpenOn(h, id, segs, d, fuel) + x + Close(h, id, d, fuel) == Spliced(h, id, segs, x, d, fuel)
    decreases fuel, 0, 0
  {
    var cs := h[id].children;
    var open, close := OpenTag(h[id], d), CloseTag(h[id]);
    if segs == [] {
      CloseListNoneOpen(h, cs, d, fuel - 1, s);
      assert Close(h, id, d, fuel) == "" + close;
      assert "" + close == close;
    } else {
      var v := h[id].value.GetOr("");
      var a, b := OpenOnList(h, cs, segs, d, fuel - 1), CloseList(h, cs, false, d, fuel - 1);
      OpenOnCloseList(h, cs, segs, s, x, d, fuel - 1);
      RegroupNode(open + v, a, x, b, close);
    }
  }

  lemma {:induction false} OpenOnCloseList(h: Heap, cs: Entries<Id>, segs: seq<string>, s: set<Id>, x: string, d: Doctype, fuel: nat)
    requires segs != [] && OpenedExactly(h, s) && IsolatedList(h, cs, segs, s) && fuel >= |segs|
    ensures OpenOnList(h, cs, segs, d, fuel) + x + CloseList(h, cs, false, d, fuel) == SplicedList(h, cs, segs, x, d, fuel)
    decreases fuel, |cs|, 1
  {
    if cs[0].0 == segs[0] {
      OpenOnCloseFirst(h, cs, segs, s, x, d, fuel);
    } else {
      OpenOnCloseSkip(h, cs, segs, s, x, d, fuel);
    }
  }

  /** The first child is the path's next node: it is opened on, and its later siblings render after it. */
  lemma {:induction false} OpenOnCloseFirst(h: Heap, cs: Entries<Id>, segs: seq<string>, s: set<Id>, x: string, d: Doctype, fuel: nat)
    requires segs != [] && OpenedExactly(h, s) && IsolatedList(h, cs, segs, s) && fuel >= |segs|
    requires cs[0].0 == segs[0]
    ensures OpenOnList(h, cs, segs, d, fuel) + x + CloseList(h, cs, false, d, fuel) == SplicedList(h, cs, segs, x, d, fuel)
    decreases fuel, |cs|, 0
  {
    var c := cs[0].1;
    assert h[c].isOpen;
    OpenOnClose(h, c, segs[1..], s, x, d, fuel);
    CloseListSeen(h, cs[1..], d, fuel, s);
    var rest := RenderList(h, cs[1..], d, fuel);
    var a, b := OpenOn(h, c, segs[1..], d, fuel), Close(h, c, d, fuel);
    assert CloseList(h, cs, false, d, fuel) == b + rest;
    assert a + x + (b + rest) == (a + x + b) + rest;
  }

  /** The first child is not on the path: it renders before the opening and contributes nothing to the close. */
  lemma {:induction false} OpenOnCloseSkip(h: Heap, cs: Entries<Id>, segs: seq<string>, s: set<Id>, x: string, d: Doctype, fuel: nat)
    requires segs != [] && OpenedExactly(h, s) && IsolatedList(h, cs, segs, s) && fuel >= |segs|
    requires cs[0].0 != segs[0]
    ensures OpenOnList(h, cs, segs, d, fuel) + x + CloseList(h, cs, false, d, fuel) == SplicedList(h, cs, segs, x, d, fuel)
    decreases fuel, |cs|, 0
  {
    var c := cs[0].1;
    assert !(c < |h| && h[c].isOpen);
    OpenOnCloseList(h, cs[1..], segs, s, x, d, fuel);
    var r := Render(h, c, d, fuel);
    var a, b := OpenOnList(h, cs[1..], segs, d, fuel), CloseList(h, cs[1..], false, d, fuel);
    assert CloseList(h, cs, false, d, fuel) == b;
    Regroup(r, a, x, b);
  }

  /** Concatenation regrouped: the opening and closing pieces of the node itself go outside. */
  lemma RegroupNode(o: string, a: string, x: string, b: string, c: string)
    ensures (o + a) + x + (b + c) == o + (a + x + b) + c
  {
  }

  /** Concatenation regrouped: the piece rendered before the opening moves to the front. */
  lemma Regroup(r: string, a: string, x: string, b: string)
    ensures (r + a) + x + b == r + (a + x + b)
  {
  }

  /** `close()` after `openOn(path)` clears exactly the flags `openOn` set. */
  lemma {:induction false} ClosedOpened(h: Heap, id: Id, segs: seq<string>, s: set<Id>, fuel: nat)
    requires OpenedExactly(h, s) && Isolated(h, id, segs, s) && fuel > |segs|
    ensures Closed(h, id, fuel) == Opened(h, id, segs)
    decreases fuel, 0
  {
    var cs := h[id].children;
    if segs == [] {
      CloseListNoneOpen(h, cs, Html5, fuel - 1, s);
    } else {
      ClosedOpenedList(h, cs, segs, s, fuel - 1);
      OpenedStep(h, id, segs);
    }
  }

  lemma {:induction false} ClosedOpenedList(h: Heap, cs: Entries<Id>, segs: seq<string>, s: set<Id>, fuel: nat)
    requires segs != [] && OpenedExactly(h, s) && IsolatedList(h, cs, segs, s) && fuel >= |segs|
    ensures ClosedList(h, cs, fuel) == OpenedBelow(h, cs, segs)
    decreases fuel, |cs|
  {
    var c := cs[0].1;
    if cs[0].0 == segs[0] {
      assert h[c].isOpen;
      ClosedOpened(h, c, segs[1..], s, fuel);
      CloseListSeen(h, cs[1..], Html5, fuel, s);
    } else {
      assert !(c < |h| && h[c].isOpen);
      ClosedOpenedList(h, cs[1..], segs, s, fuel);
    }
  }

  /** The nodes opened below a list of children: those under the first child keyed `segs[0]`. */
  function OpenedBelow(h: Heap, cs: Entries<Id>, segs: seq<string>): set<Id>
    requires segs != []
  {
    match IndexOf(cs, segs[0])
    case Some(i) => Opened(h, cs[i].1, segs[1..])
    case None => {}
  }

  lemma OpenedStep(h: Heap, id: Id, segs: seq<string>)
    requires id < |h| && segs != []
    ensures Opened(h, id, segs) == {id} + OpenedBelow(h, h[id].children, segs)
  {
  }

  /**
   * Splicing the path's end node's own content back in gives the plain
   * render, when every node on the path, its end included, is a non-void
   * element.
   */
  lemma {:induction false} SplicedOwnContent(h: Heap, id: Id, segs: seq<string>, d: Doctype, fuel: nat)
    requires PathOk(h, id, segs) && !IsVoid(h[PathEnd(h, id, segs)].tag) && fuel > |segs|
    ensures Spliced(h, id, segs, Content(h, PathEnd(h, id, segs), d, fuel - |segs| - 1), d, fuel) == Render(h, id, d, fuel)
    decreases fuel, 0, 0
  {
    if segs != [] {
      var cs := h[id].children;
      SplicedOwnContentList(h, cs, segs, d, fuel - 1);
      var t := PathEnd(h, id, segs);
      var x := Content(h, t, d, fuel - |segs| - 1);
      var open, v, close := OpenTag(h[id], d), h[id].value.GetOr(""), CloseTag(h[id]);
      var l := RenderList(h, cs, d, fuel - 1);
      assert Spliced(h, id, segs, x, d, fuel) == open + v + l + close;
      assert Render(h, id, d, fuel) == open + (v + l) + close;
      Regroup3(open, v, l, close);
    }
  }

  lemma {:induction false} SplicedOwnContentList(h: Heap, cs: Entries<Id>, segs: seq<string>, d: Doctype, fuel: nat)
    requires segs != [] && PathOkList(h, cs, segs) && !IsVoid(h[PathEndList(h, cs, segs)].tag) && fuel >= |segs|
    ensures SplicedList(h, cs, segs, Content(h, PathEndList(h, cs, segs), d, fuel - |segs|), d, fuel) == RenderList(h, cs, d, fuel)
    decreases fuel, |cs|
  {
    if cs[0].0 == segs[0] {
      SplicedOwnContent(h, cs[0].1, segs[1..], d, fuel);
    } else {
      SplicedOwnContentList(h, cs[1..], segs, d, fuel);
    }
  }

  lemma Regroup3(o: string, v: string, l: string, c: string)
    ensures o + v + l + c == o + (v + l) + c
  {
  }

  /**
   * The pieces `openOn(path)`, the path's end node's own content and
   * `close()` join up to the plain render.
   */
  lemma OpenOnRender(h: Heap, id: Id, segs: seq<string>, s: set<Id>, d: Doctype, fuel: nat)
    requires OpenedExactly(h, s) && Isolated(h, id, segs, s) && fuel > |segs|
    requires PathOk(h, id, segs) && !IsVoid(h[PathEnd(h, id, segs)].tag)
    ensures OpenOn(h, id, segs, d, fuel) + Content(h, PathEnd(h, id, segs), d, fuel - |segs| - 1) + Close(h, id, d, fuel)
         == Render(h, id, d, fuel)
  {
    OpenOnClose(h, id, segs, s, Content(h, PathEnd(h, id, segs), d, fuel - |segs| - 1), d, fuel);
    SplicedOwnContent(h, id, segs, d, fuel);
  }

  /** `open() + x + close()` wraps `x` in the element's own tags when no child is opened. */
  lemma OpenClose(h: Heap, id: Id, x: string, d: Doctype, fuel: nat)
    requires id < |h| && fuel > 0
    requires forall j :: 0 <= j < |h[id].children| ==> var c := h[id].children[j].1; c < |h| ==> !h[c].isOpen
    ensures OpenTag(h[id], d) + x + Close(h, id, d, fuel) == OpenTag(h[id], d) + x + CloseTag(h[id])
    ensures Close(h, id, d, fuel) == CloseTag(h[id])
  {
    var s := set i | 0 <= i < |h| && h[i].isOpen;
    var cs := h[id].children;
    forall j | 0 <= j < |cs| ensures cs[j].1 !in s {
      var c := cs[j].1;
      if c < |h| {
        assert !h[c].isOpen;
      }
    }
    CloseListNoneOpen(h, cs, d, fuel - 1, s);
    assert Close(h, id, d, fuel) == "" + CloseTag(h[id]);
    assert "" + CloseTag(h[id]) == CloseTag(h[id]);
  }

  // ---------------------------------------------------------------- a session

  /** Opening and closing flags leave the rest of the heap as it was. */
  lemma MarkExtends(h: Heap, s: set<Id>)
    ensures Extends(h, MarkOpened(h, s)) && Extends(MarkOpened(h, s), h)
    ensures Extends(h, MarkClosed(h, s)) && Extends(MarkClosed(h, s), h)
  {
  }

  /** Whether a path is isolated depends on the children maps only, not on parents or flags. */
  lemma {:induction false} IsolatedFrame(h: Heap, h2: Heap, id: Id, segs: seq<string>, s: set<Id>)
    requires |h| == |h2| && Extends(h, h2) && Isolated(h, id, segs, s)
    ensures Isolated(h2, id, segs, s)
    decreases |segs|, 1
  {
    assert SameMarkup(h[id], h2[id]);
    if segs != [] {
      IsolatedListFrame(h, h2, h[id].children, segs, s);
    }
  }

  lemma {:induction false} IsolatedListFrame(h: Heap, h2: Heap, cs: Entries<Id>, segs: seq<string>, s: set<Id>)
    requires segs != [] && |h| == |h2| && Extends(h, h2) && IsolatedList(h, cs, segs, s)
    ensures IsolatedList(h2, cs, segs, s)
    decreases |segs|, 0, |cs|
  {
    if cs[0].0 == segs[0] {
      IsolatedFrame(h, h2, cs[0].1, segs[1..], s);
    } else {
      IsolatedListFrame(h, h2, cs[1..], segs, s);
    }
  }

  /** The nodes `openOn` opens are nodes of the heap. */
  lemma {:induction false} OpenedInHeap(h: Heap, id: Id, segs: seq<string>)
    ensures forall i :: i in Opened(h, id, segs) ==> i < |h|
    decreases |segs|
  {
    if id < |h| && segs != [] {
      match Child(h, id, segs[0])
      case Some(c) => OpenedInHeap(h, c, segs[1..]);
      case None =>
    }
  }

  /**
   * From a heap with no open flags: marking the path opened (`openOn`),
   * then emitting `openOn(path) + x + close()` gives the render with `x`
   * spliced in at the path's end, and clearing what `close()` passes
   * (`close`) gives back the heap as it was.
   */
  lemma OpenOnSession(h: Heap, id: Id, segs: seq<string>, x: string, d: Doctype, fuel: nat)
    requires NoneOpen(h) && Isolated(h, id, segs, Opened(h, id, segs)) && fuel > |segs|
    ensures var h2 := MarkOpened(h, Opened(h, id, segs));
            && OpenOn(h2, id, segs, d, fuel) + x + Close(h2, id, d, fuel) == Spliced(h2, id, segs, x, d, fuel)
            && MarkClosed(h2, Closed(h2, id, fuel)) == h
  {
    var s := Opened(h, id, segs);
    var h2 := MarkOpened(h, s);
    OpenedInHeap(h, id, segs);
    assert OpenedExactly(h2, s);
    MarkExtends(h, s);
    IsolatedFrame(h, h2, id, segs, s);
    OpenOnClose(h2, id, segs, s, x, d, fuel);
    ClosedOpened(h2, id, segs, s, fuel);
    assert Opened(h2, id, segs) == s by {
      OpenedFrame(h, h2, id, segs);
    }
    var h3 := MarkClosed(h2, s);
    assert forall i :: 0 <= i < |h| ==> h3[i] == h[i];
  }

  /** Which nodes `openOn` opens depends on the children maps only. */
  lemma {:induction false} OpenedFrame(h: Heap, h2: Heap, id: Id, segs: seq<string>)
    requires |h| == |h2| && Extends(h, h2)
    ensures Opened(h2, id, segs) == Opened(h, id, segs)
    decreases |segs|
  {
    if id < |h| && segs != [] {
      assert SameMarkup(h[id], h2[id]);
      match Child(h, id, segs[0])
      case Some(c) => OpenedFrame(h, h2, c, segs[1..]);
      case None =>
    }
  }
}
