/**
 * An element's attribute store: an insertion-ordered map from attribute name
 * to a string or a boolean, the class attribute read as an ordered set of
 * tokens, the camelCase rewrite used by dynamic setters, and the
 * serialisation of the whole store inside an opening tag.
 */
module Attributes {
  import opened Wrappers
  import opened Strings
  import opened OrderedMap

  /** An attribute value: literal text, or a boolean attribute. */
  datatype Value = Str(text: string) | Flag(on: bool)

  type Attrs = Entries<Value>

  // ---------------------------------------------------------------- merge / replace

  /** `setAttributes($es)`: each entry of `es` assigned in turn. */
  function Merge(a: Attrs, es: Attrs): Attrs
    decreases |es|
  {
    if es == [] then a
    else Put(Merge(a, es[..|es| - 1]), es[|es| - 1].0, es[|es| - 1].1)
  }

  /** Merging one more entry of `es` puts that entry over the merge so far. */
  lemma MergeStep(a: Attrs, es: Attrs, i: nat)
    requires i < |es|
    ensures Merge(a, es[..i + 1]) == Put(Merge(a, es[..i]), es[i].0, es[i].1)
  {
    assert es[..i + 1][..i] == es[..i];
  }

  /** The value `es` assigns last to `name`. */
  function LastValue(es: Attrs, name: string): Option<Value>
    decreases |es|
  {
    if es == [] then None
    else if es[|es| - 1].0 == name then Some(es[|es| - 1].1)
    else LastValue(es[..|es| - 1], name)
  }

  /** After a merge a name has its merged value, or its earlier one if the merge did not name it. */
  lemma {:induction false} MergeGet(a: Attrs, es: Attrs, name: string)
    ensures Get(Merge(a, es), name) == if LastValue(es, name).Some? then LastValue(es, name) else Get(a, name)
    decreases |es|
  {
    if es != [] {
      MergeGet(a, es[..|es| - 1], name);
    }
  }

  /** A merge keeps attribute names unique. */
  lemma {:induction false} MergeUnique(a: Attrs, es: Attrs)
    requires Unique(a)
    ensures Unique(Merge(a, es))
    decreases |es|
  {
    if es != [] {
      MergeUnique(a, es[..|es| - 1]);
      PutUnique(Merge(a, es[..|es| - 1]), es[|es| - 1].0, es[|es| - 1].1);
    }
  }

  /** `replaceAttributes($es)`: the earlier entries are discarded, `es` assigned in turn. */
  function Replace(es: Attrs): (r: Attrs)
    ensures Unique(r)
  {
    MergeUnique([], es);
    Merge([], es)
  }

  /** After a replacement only the new entries are visible. */
  lemma ReplaceGet(es: Attrs, name: string)
    ensures Get(Replace(es), name) == LastValue(es, name)
  {
    MergeGet([], es, name);
  }

  // ---------------------------------------------------------------- class tokens

  const ClassName: string := "class"

  /** The tokens of the class attribute; none when it is absent or boolean. */
  function ClassList(a: Attrs): (ts: seq<string>)
    ensures forall i :: 0 <= i < |ts| ==> IsToken(ts[i])
  {
    var v := Get(a, ClassName);
    if v.Some? && v.value.Str? then Tokens(v.value.text) else []
  }

  /** Each token of `add` appended, in order, unless an equal token is already there. */
  function AddTokens(ts: seq<string>, add: seq<string>): (r: seq<string>)
    decreases |add|
  {
    if add == [] then ts
    else
      var r := AddTokens(ts, add[..|add| - 1]);
      if add[|add| - 1] in r then r else r + [add[|add| - 1]]
  }

  /** No token occurs twice. */
  predicate Distinct(ts: seq<string>) {
    forall i, j :: 0 <= i < j < |ts| ==> ts[i] != ts[j]
  }

  /**
   * Adding tokens keeps the existing ones first and in order, yields exactly
   * the union of both lists, and adds no duplicate.
   */
  lemma {:induction false} AddTokensFacts(ts: seq<string>, add: seq<string>)
    ensures |AddTokens(ts, add)| >= |ts| && AddTokens(ts, add)[..|ts|] == ts
    ensures forall t :: t in AddTokens(ts, add) <==> t in ts || t in add
    ensures Distinct(ts) ==> Distinct(AddTokens(ts, add))
    decreases |add|
  {
    if add != [] {
      var init := add[..|add| - 1];
      AddTokensFacts(ts, init);
      var r := AddTokens(ts, init);
      assert add == init + [add[|add| - 1]];
      if add[|add| - 1] !in r {
        assert (r + [add[|add| - 1]])[..|ts|] == r[..|ts|];
      }
    }
  }

  /** Tokens that are all present already add nothing. */
  lemma {:induction false} AddPresentTokens(ts: seq<string>, add: seq<string>)
    requires forall t :: t in add ==> t in ts
    ensures AddTokens(ts, add) == ts
    decreases |add|
  {
    if add != [] {
      AddPresentTokens(ts, add[..|add| - 1]);
    }
  }

  /** `addClass($classes)`: the space-separated tokens of `classes` added to the class list. */
  function AddClass(a: Attrs, classes: string): Attrs
  {
    Put(a, ClassName, Str(Join(AddTokens(ClassList(a), Tokens(classes)), ' ')))
  }

  /** The class list after `addClass` is the old list with the new tokens added. */
  lemma AddClassList(a: Attrs, classes: string)
    ensures ClassList(AddClass(a, classes)) == AddTokens(ClassList(a), Tokens(classes))
  {
    var r := AddTokens(ClassList(a), Tokens(classes));
    AddTokensFacts(ClassList(a), Tokens(classes));
    assert forall i :: 0 <= i < |r| ==> IsToken(r[i]) by {
      forall i | 0 <= i < |r| ensures IsToken(r[i]) {
        assert r[i] in r;
      }
    }
    TokensJoin(r);
  }

  /** Adding the same classes twice is the same as adding them once. */
  lemma AddClassIdempotent(a: Attrs, classes: string)
    ensures AddClass(AddClass(a, classes), classes) == AddClass(a, classes)
  {
    var once := AddClass(a, classes);
    AddClassList(a, classes);
    AddTokensFacts(ClassList(a), Tokens(classes));
    AddPresentTokens(ClassList(once), Tokens(classes));
    PutSame(once, ClassName, Str(Join(ClassList(once), ' ')));
  }

  /** The tokens of `ts` that `rm` does not name, in order. */
  function RemoveTokens(ts: seq<string>, rm: seq<string>): (r: seq<string>)
    ensures forall t :: t in r <==> t in ts && t !in rm
  {
    if ts == [] then []
    else (if ts[0] in rm then [] else [ts[0]]) + RemoveTokens(ts[1..], rm)
  }

  /** Removing tokens none of which is present changes nothing. */
  lemma {:induction false} RemoveAbsentTokens(ts: seq<string>, rm: seq<string>)
    requires forall t :: t in rm ==> t !in ts
    ensures RemoveTokens(ts, rm) == ts
  {
    if ts != [] {
      assert ts[0] in ts;
      RemoveAbsentTokens(ts[1..], rm);
      assert ts == [ts[0]] + ts[1..];
    }
  }

  /** How `removeClass` receives its argument: a list of tokens, or one space-separated string. */
  datatype ClassArg = List(items: seq<string>) | Words(text: string)

  function ClassNames(arg: ClassArg): seq<string>
  {
    match arg
    case List(items) => items
    case Words(text) => Split(text, ' ')
  }

  /** `removeClass($classes)`: every named token dropped; no class attribute, no change. */
  function RemoveClass(a: Attrs, arg: ClassArg): Attrs
  {
    if !Has(a, ClassName) then a
    else Put(a, ClassName, Str(Join(RemoveTokens(ClassList(a), ClassNames(arg)), ' ')))
  }

  /** The class list after `removeClass` is the old list without the named tokens. */
  lemma RemoveClassList(a: Attrs, arg: ClassArg)
    ensures ClassList(RemoveClass(a, arg)) == RemoveTokens(ClassList(a), ClassNames(arg))
  {
    if Has(a, ClassName) {
      var r := RemoveTokens(ClassList(a), ClassNames(arg));
      assert forall i :: 0 <= i < |r| ==> IsToken(r[i]) by {
        forall i | 0 <= i < |r| ensures IsToken(r[i]) {
          assert r[i] in r;
        }
      }
      TokensJoin(r);
    }
  }

  /** None of the named tokens survives, and every other token does. */
  lemma RemoveClassRemoves(a: Attrs, arg: ClassArg)
    ensures forall t :: t in ClassList(RemoveClass(a, arg)) <==> t in ClassList(a) && t !in ClassNames(arg)
  {
    RemoveClassList(a, arg);
  }

  /** Removing tokens the class list does not hold leaves the list as it was. */
  lemma RemoveAbsentClass(a: Attrs, arg: ClassArg)
    requires forall t :: t in ClassNames(arg) ==> t !in ClassList(a)
    ensures ClassList(RemoveClass(a, arg)) == ClassList(a)
  {
    RemoveClassList(a, arg);
    RemoveAbsentTokens(ClassList(a), ClassNames(arg));
  }

  // ---------------------------------------------------------------- dynamic names

  /** Every `_` becomes `-`. */
  function Dashes(s: string): (r: string)
    ensures |r| == |s|
    ensures forall i :: 0 <= i < |s| ==> r[i] == if s[i] == '_' then '-' else s[i]
  {
    if s == [] then [] else [if s[0] == '_' then '-' else s[0]] + Dashes(s[1..])
  }

  /** The attribute a dynamic setter names: `dataFoo` and `data_foo` both name `data-foo`. */
  function AttributeName(accessor: string): string
  {
    Decamel(Dashes(accessor), '-')
  }

  /** A lower-case word: no upper-case letter and no underscore. */
  predicate IsPlainWord(s: string) {
    NoUpper(s) && '_' !in s
  }

  /** A lower-case accessor without underscores names the attribute of the same name. */
  lemma PlainName(a: string)
    requires IsPlainWord(a)
    ensures AttributeName(a) == a
  {
    assert Dashes(a) == a;
    DecamelPlain(a, '-');
  }

  /** `dataFoo` names `data-foo`: one upper-case letter becomes a dash and its lower-case form. */
  lemma CamelName(a: string, c: char, b: string)
    requires IsPlainWord(a) && IsPlainWord(b) && IsUpper(c)
    ensures AttributeName(a + [c] + b) == a + ['-', ToLower(c)] + b
  {
    assert Dashes(a + [c] + b) == a + [c] + b;
    DecamelPair(a, c, b, '-');
  }

  /** `data_foo` names `data-foo`: an underscore becomes a dash. */
  lemma SnakeName(a: string, b: string)
    requires IsPlainWord(a) && IsPlainWord(b)
    ensures AttributeName(a + "_" + b) == a + "-" + b
  {
    var s := a + "_" + b;
    assert Dashes(s) == a + "-" + b;
    DecamelPlain(a + "-" + b, '-');
  }

  /** A camelCase accessor is recovered from the attribute name it stands for. */
  lemma AccessorRoundTrip(accessor: string)
    requires '-' !in accessor && '_' !in accessor
    ensures Recamel(AttributeName(accessor), '-') == accessor
  {
    assert Dashes(accessor) == accessor;
    RecamelDecamel(accessor, '-');
  }

  /** Every `-`-separated attribute name is reached from its camelCase accessor. */
  lemma AttributeRoundTrip(name: string)
    requires IsSeparated(name, '-') && '_' !in name
    ensures AttributeName(Recamel(name, '-')) == name
  {
    NoUnderscoreRecamel(name);
    assert Dashes(Recamel(name, '-')) == Recamel(name, '-');
    DecamelRecamel(name, '-');
  }

  lemma {:induction false} NoUnderscoreRecamel(s: string)
    requires '_' !in s
    ensures '_' !in Recamel(s, '-')
  {
    if s != [] {
      if s[0] == '-' && |s| >= 2 && IsLower(s[1]) {
        assert '_' !in s[2..];
        NoUnderscoreRecamel(s[2..]);
      } else {
        assert '_' !in s[1..];
        NoUnderscoreRecamel(s[1..]);
      }
    }
  }

  /**
   * A dynamic setter call `$el->name(arg)` or `$el->name = arg`: stores under
   * the rewritten name; with no argument the attribute becomes boolean true.
   */
  function SetDynamic(a: Attrs, accessor: string, arg: Option<Value>): Attrs
  {
    Put(a, AttributeName(accessor), arg.GetOr(Flag(true)))
  }

  // ---------------------------------------------------------------- serialisation

  /** A value that looks like JSON: it starts with `{` or `[`. */
  predicate IsJsonShaped(s: string) {
    |s| > 0 && (s[0] == '{' || s[0] == '[')
  }

  predicate IsDataName(name: string) {
    |name| >= 5 && name[..5] == "data-"
  }

  /**
   * One attribute inside an opening tag: a leading space, then the bare
   * name for boolean true, nothing for boolean false, `name='v'` for a
   * JSON-shaped data attribute, `name="v"` otherwise.
   */
  function RenderAttribute(name: string, v: Value): string
  {
    match v
    case Flag(on) => if on then " " + name else ""
    case Str(s) =>
      if IsDataName(name) && IsJsonShaped(s) then " " + name + "='" + s + "'"
      else " " + name + "=\"" + s + "\""
  }

  /** All attributes, in insertion order. */
  function RenderAttributes(a: Attrs): string
  {
    if a == [] then "" else RenderAttribute(a[0].0, a[0].1) + RenderAttributes(a[1..])
  }

  /** Serialisation is the concatenation of the entries' serialisations. */
  lemma {:induction false} RenderAttributesConcat(a: Attrs, b: Attrs)
    ensures RenderAttributes(a + b) == RenderAttributes(a) + RenderAttributes(b)
  {
    if a == [] {
      assert a + b == b;
    } else {
      var ab := a + b;
      assert ab[0] == a[0];
      assert ab[1..] == a[1..] + b;
      RenderAttributesConcat(a[1..], b);
      var head := RenderAttribute(a[0].0, a[0].1);
      assert RenderAttributes(ab) == head + RenderAttributes(a[1..] + b);
      assert RenderAttributes(a) == head + RenderAttributes(a[1..]);
    }
  }

  /**
   * Setting an attribute renders it where the name already was, or after all
   * the others when the name is new; the other attributes render as before.
   */
  lemma RenderPut(a: Attrs, name: string, v: Value)
    ensures Has(a, name) ==>
      var i := IndexOf(a, name).value;
      RenderAttributes(Put(a, name, v)) == RenderAttributes(a[..i]) + RenderAttribute(name, v) + RenderAttributes(a[i + 1..])
    ensures !Has(a, name) ==>
      RenderAttributes(Put(a, name, v)) == RenderAttributes(a) + RenderAttribute(name, v)
  {
    var one: Attrs := [(name, v)];
    assert RenderAttributes(one) == RenderAttribute(name, v);
    if Has(a, name) {
      var i := IndexOf(a, name).value;
      assert Put(a, name, v) == a[..i] + one + a[i + 1..];
      RenderSplice(a[..i], one, a[i + 1..]);
    } else {
      assert Put(a, name, v) == a + one;
      RenderAttributesConcat(a, one);
    }
  }

  lemma RenderSplice(a: Attrs, b: Attrs, c: Attrs)
    ensures RenderAttributes(a + b + c) == RenderAttributes(a) + RenderAttributes(b) + RenderAttributes(c)
  {
    RenderAttributesConcat(a + b, c);
    RenderAttributesConcat(a, b);
  }
}
