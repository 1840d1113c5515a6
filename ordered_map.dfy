/**
 * The insertion-ordered dictionary that PHP arrays provide, keyed by strings
 * (an integer key is its canonical decimal spelling, see Strings.IsCanonical).
 * An element's attributes and its children are both such dictionaries:
 * assignment to an existing key keeps its position, assignment to a new key
 * appends, and iteration follows insertion order.
 */
module OrderedMap {
  import opened Wrappers
  import opened Strings

  type Entries<V> = seq<(string, V)>

  /** `array_keys($m)`. */
  function Keys<V>(m: Entries<V>): (ks: seq<string>)
    ensures |ks| == |m|
    ensures forall i :: 0 <= i < |m| ==> ks[i] == m[i].0
  {
    if m == [] then [] else [m[0].0] + Keys(m[1..])
  }

  /** No key occurs twice. */
  predicate Unique<V>(m: Entries<V>) {
    forall i, j :: 0 <= i < j < |m| ==> m[i].0 != m[j].0
  }

  /** The position of key `k`; the first one if it occurs more than once. */
  function IndexOf<V>(m: Entries<V>, k: string): (r: Option<nat>)
    ensures r.None? ==> forall i :: 0 <= i < |m| ==> m[i].0 != k
    ensures r.Some? ==> r.value < |m| && m[r.value].0 == k
    ensures r.Some? ==> forall i :: 0 <= i < r.value ==> m[i].0 != k
  {
    if m == [] then None
    else if m[0].0 == k then Some(0)
    else match IndexOf(m[1..], k)
      case None => None
      case Some(i) => Some(i + 1)
  }

  /** `array_key_exists($k, $m)`. */
  predicate Has<V>(m: Entries<V>, k: string) {
    IndexOf(m, k).Some?
  }

  /** `$m[$k] ?? null`. */
  function Get<V>(m: Entries<V>, k: string): (r: Option<V>)
    ensures r.Some? <==> Has(m, k)
  {
    match IndexOf(m, k)
    case Some(i) => Some(m[i].1)
    case None => None
  }

  /** `Get` seen entry by entry, from the front. */
  lemma GetFront<V>(m: Entries<V>, k: string)
    requires m != []
    ensures Get(m, k) == if m[0].0 == k then Some(m[0].1) else Get(m[1..], k)
  {
  }

  /** In a map without repeated keys, every entry is what `Get` finds. */
  lemma GetEntry<V>(m: Entries<V>, i: nat)
    requires Unique(m) && i < |m|
    ensures Get(m, m[i].0) == Some(m[i].1)
  {
    var j := IndexOf(m, m[i].0);
    assert j.Some?;
    assert !(j.value < i) && !(i < j.value);
  }

  /** Two maps with the same keys, position by position, find every key at the same position. */
  lemma SameKeysIndexOf<V, W>(m: Entries<V>, n: Entries<W>, k: string)
    requires |m| == |n| && forall i :: 0 <= i < |m| ==> m[i].0 == n[i].0
    ensures IndexOf(m, k) == IndexOf(n, k)
  {
    var a, b := IndexOf(m, k), IndexOf(n, k);
    if a.Some? && b.Some? {
      assert !(a.value < b.value) && !(b.value < a.value);
    }
  }

  /** `$m[$k] = $v`: overwrite the entry in place, or append a new one. */
  function Put<V>(m: Entries<V>, k: string, v: V): (r: Entries<V>)
    ensures Get(r, k) == Some(v)
    ensures forall k' :: k' != k ==> Get(r, k') == Get(m, k')
  {
    match IndexOf(m, k)
    case Some(i) =>
      var r := m[i := (k, v)];
      assert IndexOf(r, k) == Some(i) by {
        assert r[i].0 == k;
        var x := IndexOf(r, k);
        assert x.Some? && !(x.value < i) && !(i < x.value);
      }
      assert forall k' :: IndexOf(r, k') == IndexOf(m, k') by {
        forall k' ensures IndexOf(r, k') == IndexOf(m, k') {
          SameKeysIndexOf(r, m, k');
        }
      }
      r
    case None =>
      var r := m + [(k, v)];
      assert IndexOf(r, k) == Some(|m|) by {
        assert r[|m|].0 == k;
        var x := IndexOf(r, k);
        assert x.Some? && !(x.value < |m|);
      }
      assert forall k' :: k' != k ==> IndexOf(r, k') == IndexOf(m, k') by {
        forall k' | k' != k ensures IndexOf(r, k') == IndexOf(m, k') {
          var x, y := IndexOf(r, k'), IndexOf(m, k');
          if x.Some? {
            assert x.value < |m| && r[x.value] == m[x.value];
          }
          if y.Some? {
            assert r[y.value] == m[y.value];
            assert !(x.value < y.value) && !(y.value < x.value);
          }
        }
      }
      r
  }

  /** The keys after an assignment: unchanged for an existing key, one more at the end for a new one. */
  lemma PutKeys<V>(m: Entries<V>, k: string, v: V)
    ensures Keys(Put(m, k, v)) == if Has(m, k) then Keys(m) else Keys(m) + [k]
  {
  }

  /** A new key is appended last. */
  lemma PutNew<V>(m: Entries<V>, k: string, v: V)
    requires !Has(m, k)
    ensures Put(m, k, v) == m + [(k, v)]
  {
  }

  /** An existing key keeps its position and takes the new value. */
  lemma PutOver<V>(m: Entries<V>, k: string, v: V)
    requires Has(m, k)
    ensures Put(m, k, v) == m[IndexOf(m, k).value := (k, v)]
  {
  }

  /** Assigning the value a key already has changes nothing. */
  lemma PutSame<V>(m: Entries<V>, k: string, v: V)
    requires Get(m, k) == Some(v)
    ensures Put(m, k, v) == m
  {
    var i := IndexOf(m, k).value;
    assert m[i] == (k, v);
  }

  /** Assignment keeps the keys unique. */
  lemma PutUnique<V>(m: Entries<V>, k: string, v: V)
    requires Unique(m)
    ensures Unique(Put(m, k, v))
  {
    var r := Put(m, k, v);
    if !Has(m, k) {
      forall a, b | 0 <= a < b < |r| ensures r[a].0 != r[b].0 {
        if b == |m| {
          assert r[a] == m[a];
        }
      }
    }
  }

  /** `unset($m[$k])`: every entry with key `k` dropped, the others kept in order. */
  function Remove<V>(m: Entries<V>, k: string): (r: Entries<V>)
    ensures forall i :: 0 <= i < |r| ==> r[i].0 != k
    ensures forall k' :: k' != k ==> Get(r, k') == Get(m, k')
    ensures !Has(m, k) ==> r == m
  {
    if m == [] then []
    else
      var rest := Remove(m[1..], k);
      if m[0].0 == k then rest
      else
        var r := [m[0]] + rest;
        assert r[1..] == rest;
        assert forall k' :: Get(r, k') == if m[0].0 == k' then Some(m[0].1) else Get(rest, k') by {
          forall k' ensures Get(r, k') == if m[0].0 == k' then Some(m[0].1) else Get(rest, k') {
            GetFront(r, k');
          }
        }
        assert forall k' :: Get(m, k') == if m[0].0 == k' then Some(m[0].1) else Get(m[1..], k') by {
          forall k' ensures Get(m, k') == if m[0].0 == k' then Some(m[0].1) else Get(m[1..], k') {
            GetFront(m, k');
          }
        }
        assert !Has(m, k) ==> !Has(m[1..], k) && m == [m[0]] + m[1..];
        r
  }

  /** Removal keeps the keys unique. */
  lemma {:induction false} RemoveUnique<V>(m: Entries<V>, k: string)
    requires Unique(m)
    ensures Unique(Remove(m, k))
    ensures forall i :: 0 <= i < |Remove(m, k)| ==> Has(m, Remove(m, k)[i].0)
  {
    if m != [] {
      var rest := Remove(m[1..], k);
      RemoveUnique(m[1..], k);
      if m[0].0 != k {
        var r := [m[0]] + rest;
        forall j | 1 <= j < |r| ensures r[0].0 != r[j].0 && Has(m, r[j].0) {
          var x := IndexOf(m[1..], r[j].0).value;
          assert m[1..][x].0 == m[x + 1].0;
        }
      } else {
        forall j | 0 <= j < |rest| ensures Has(m, rest[j].0) {
          var x := IndexOf(m[1..], rest[j].0).value;
          assert m[1..][x].0 == m[x + 1].0;
        }
      }
    }
  }

  /** The map with `(k, v)` placed at position `i`. */
  function InsertAt<V>(m: Entries<V>, i: nat, k: string, v: V): (r: Entries<V>)
    requires i <= |m|
    ensures |r| == |m| + 1 && r[i] == (k, v)
    ensures forall j :: 0 <= j < i ==> r[j] == m[j]
    ensures forall j :: i < j < |r| ==> r[j] == m[j - 1]
    ensures Keys(r) == Keys(m)[..i] + [k] + Keys(m)[i..]
  {
    var r := m[..i] + [(k, v)] + m[i..];
    assert Keys(r) == Keys(m)[..i] + [k] + Keys(m)[i..];
    r
  }

  /** Inserting a new key keeps the keys unique and every other lookup. */
  lemma InsertAtFacts<V>(m: Entries<V>, i: nat, k: string, v: V)
    requires i <= |m| && Unique(m) && !Has(m, k)
    ensures Unique(InsertAt(m, i, k, v))
    ensures Get(InsertAt(m, i, k, v), k) == Some(v)
    ensures forall k' :: k' != k ==> Get(InsertAt(m, i, k, v), k') == Get(m, k')
  {
    var r := InsertAt(m, i, k, v);
    forall a, b | 0 <= a < b < |r| ensures r[a].0 != r[b].0 {
      if a != i && b != i {
        var a', b' := if a < i then a else a - 1, if b < i then b else b - 1;
        assert r[a] == m[a'] && r[b] == m[b'];
      } else if a == i {
        assert r[b] == m[b - 1];
      } else {
        assert r[a] == m[a];
      }
    }
    GetEntry(r, i);
    forall k' | k' != k ensures Get(r, k') == Get(m, k') {
      if Has(m, k') {
        var j := IndexOf(m, k').value;
        GetEntry(m, j);
        var j' := if j < i then j else j + 1;
        assert r[j'] == m[j];
        GetEntry(r, j');
      }
    }
  }

  /** Where `InsertBeside` puts the new entry. */
  function Position<V>(m: Entries<V>, target: Option<string>, after: bool): (p: nat)
    ensures p <= |m|
    ensures target.Some? && Has(m, target.value) ==>
      p == if after then IndexOf(m, target.value).value + 1 else IndexOf(m, target.value).value
    ensures (target.None? || !Has(m, target.value)) ==> p == if after then |m| else 0
  {
    match target
    case Some(t) =>
      (match IndexOf(m, t)
       case Some(j) => if after then j + 1 else j
       case None => if after then |m| else 0)
    case None => if after then |m| else 0
  }

  /**
   * Insertion next to a sibling: `k` (taken out first if present) goes
   * immediately after `target` when `after` holds, immediately before it
   * otherwise; with no target, or a target not in the map, it goes to the
   * end when `after` holds and to the front otherwise.
   */
  function InsertBeside<V>(m: Entries<V>, target: Option<string>, after: bool, k: string, v: V): (r: Entries<V>)
  {
    var rest := Remove(m, k);
    InsertAt(rest, Position(rest, target, after), k, v)
  }

  /** What `InsertBeside` keeps and where it puts the new key. */
  lemma InsertBesideFacts<V>(m: Entries<V>, target: Option<string>, after: bool, k: string, v: V)
    requires Unique(m)
    ensures Unique(InsertBeside(m, target, after, k, v))
    ensures Get(InsertBeside(m, target, after, k, v), k) == Some(v)
    ensures forall k' :: k' != k ==> Get(InsertBeside(m, target, after, k, v), k') == Get(m, k')
    ensures var rest := Remove(m, k);
            var p := Position(rest, target, after);
            Keys(InsertBeside(m, target, after, k, v)) == Keys(rest)[..p] + [k] + Keys(rest)[p..]
  {
    var rest := Remove(m, k);
    RemoveUnique(m, k);
    assert !Has(rest, k);
    InsertAtFacts(rest, Position(rest, target, after), k, v);
  }

  /**
   * Slot `i` given key `k` and value `v`; any other entry already keyed `k`
   * is dropped, so keys stay unique.
   */
  function ReplaceAt<V>(m: Entries<V>, i: nat, k: string, v: V): (r: Entries<V>)
    requires i < |m|
  {
    Remove(m[..i], k) + [(k, v)] + Remove(m[i + 1..], k)
  }

  /** Every entry that survives a removal is an entry of the original map. */
  lemma {:induction false} RemoveIn<V>(m: Entries<V>, k: string)
    ensures forall e :: e in Remove(m, k) ==> e in m
  {
    if m != [] {
      RemoveIn(m[1..], k);
      assert forall e :: e in m[1..] ==> e in m;
      if m[0].0 != k {
        assert Remove(m, k) == [m[0]] + Remove(m[1..], k);
      }
    }
  }

  /** Looking a key up in a concatenation: the first part wins. */
  lemma GetConcat<V>(x: Entries<V>, y: Entries<V>, k: string)
    ensures Get(x + y, k) == if Has(x, k) then Get(x, k) else Get(y, k)
  {
    var z := x + y;
    assert forall p :: 0 <= p < |x| ==> z[p] == x[p];
    assert forall p :: |x| <= p < |z| ==> z[p] == y[p - |x|];
    match IndexOf(x, k)
    case Some(i) =>
      assert IndexOf(z, k) == Some(i);
    case None =>
      match IndexOf(y, k)
      case Some(j) =>
        assert z[|x| + j] == y[j];
        assert IndexOf(z, k) == Some(|x| + j);
      case None =>
        assert IndexOf(z, k) == None;
  }

  /** The slices on either side of a slot of a map without repeated keys share no key, with each other or the slot. */
  lemma UniqueSlices<V>(m: Entries<V>, i: nat)
    requires Unique(m) && i < |m|
    ensures Unique(m[..i]) && Unique(m[i + 1..])
    ensures forall x :: x in m[..i] ==> x.0 != m[i].0
    ensures forall y :: y in m[i + 1..] ==> y.0 != m[i].0
    ensures forall x, y :: x in m[..i] && y in m[i + 1..] ==> x.0 != y.0
  {
    var a, b := m[..i], m[i + 1..];
    assert forall p :: 0 <= p < |a| ==> a[p] == m[p];
    assert forall p :: 0 <= p < |b| ==> b[p] == m[i + 1 + p];
  }

  /** Two maps without repeated keys, sharing none with each other or with the entry `e`, join around `e` into one without repeated keys. */
  lemma UniqueAround<V>(a: Entries<V>, e: (string, V), b: Entries<V>)
    requires Unique(a) && Unique(b)
    requires forall x :: x in a ==> x.0 != e.0
    requires forall y :: y in b ==> y.0 != e.0
    requires forall x, y :: x in a && y in b ==> x.0 != y.0
    ensures Unique(a + [e] + b)
  {
    var z := a + [e] + b;
    forall p, q | 0 <= p < q < |z| ensures z[p].0 != z[q].0 {
      if q < |a| {
        assert z[p] == a[p] && z[q] == a[q];
      } else if p > |a| {
        assert z[p] == b[p - |a| - 1] && z[q] == b[q - |a| - 1];
      } else if p == |a| {
        assert z[q] == b[q - |a| - 1] && z[q] in b;
      } else if q == |a| {
        assert z[p] == a[p] && z[p] in a;
      } else {
        assert z[p] == a[p] && z[q] == b[q - |a| - 1];
        assert z[p] in a && z[q] in b;
      }
    }
  }

  /** Parts of two maps with no key in common have no key in common. */
  lemma DisjointParts<V>(a: Entries<V>, b: Entries<V>, a': Entries<V>, b': Entries<V>)
    requires forall x :: x in a' ==> x in a
    requires forall y :: y in b' ==> y in b
    requires forall x, y :: x in a && y in b ==> x.0 != y.0
    ensures forall x, y :: x in a' && y in b' ==> x.0 != y.0
  {
  }

  /** The pieces of `ReplaceAt`: what is left of each side of the slot around the new entry. */
  lemma ReplaceAtParts<V>(m: Entries<V>, i: nat, k: string, v: V)
    requires i < |m|
    ensures forall e :: e in Remove(m[..i], k) ==> e in m
    ensures forall e :: e in Remove(m[i + 1..], k) ==> e in m
    ensures forall e :: e in ReplaceAt(m, i, k, v) ==> e == (k, v) || e in m
  {
    RemoveIn(m[..i], k);
    RemoveIn(m[i + 1..], k);
    assert forall e :: e in m[..i] ==> e in m;
    assert forall e :: e in m[i + 1..] ==> e in m;
  }

  /** Replacing a slot keeps the keys unique and puts `k` at that slot. */
  lemma ReplaceAtUnique<V>(m: Entries<V>, i: nat, k: string, v: V)
    requires i < |m| && Unique(m)
    ensures Unique(ReplaceAt(m, i, k, v))
    ensures Get(ReplaceAt(m, i, k, v), k) == Some(v)
    ensures m[i].0 != k ==> !Has(ReplaceAt(m, i, k, v), m[i].0)
  {
    var a, b := m[..i], m[i + 1..];
    var before, after := Remove(a, k), Remove(b, k);
    UniqueSlices(m, i);
    RemoveUnique(a, k);
    RemoveUnique(b, k);
    RemoveIn(a, k);
    RemoveIn(b, k);
    DisjointParts(a, b, before, after);
    assert forall x :: x in before ==> x.0 != k;
    assert forall y :: y in after ==> y.0 != k;
    UniqueAround(before, (k, v), after);
    var r := before + [(k, v)] + after;
    assert r == ReplaceAt(m, i, k, v);
    assert r[|before|] == (k, v);
    GetEntry(r, |before|);
    if m[i].0 != k {
      ReplaceAtDrops(m, i, k, v);
    }
  }

  /** The slot's old key, when it differs from the new one, is gone. */
  lemma ReplaceAtDrops<V>(m: Entries<V>, i: nat, k: string, v: V)
    requires i < |m| && Unique(m) && m[i].0 != k
    ensures !Has(ReplaceAt(m, i, k, v), m[i].0)
  {
    var o := m[i].0;
    KeyAtSlot(m, i);
    var before, after := Remove(m[..i], k), Remove(m[i + 1..], k);
    GetConcat(before, [(k, v)], o);
    GetConcat(before + [(k, v)], after, o);
    assert !Has([(k, v)], o);
  }

  /** Replacing a slot changes no lookup of any other key. */
  lemma ReplaceAtGet<V>(m: Entries<V>, i: nat, k: string, v: V, k': string)
    requires i < |m| && k' != k && k' != m[i].0
    ensures Get(ReplaceAt(m, i, k, v), k') == Get(m, k')
  {
    var a, b := m[..i], m[i + 1..];
    var before, after := Remove(a, k), Remove(b, k);
    assert m == a + [m[i]] + b;
    GetConcat(a, [m[i]], k');
    GetConcat(a + [m[i]], b, k');
    GetConcat(before, [(k, v)], k');
    GetConcat(before + [(k, v)], after, k');
    assert !Has([m[i]], k') && !Has([(k, v)], k');
  }

  /** A key absent from a map is absent from every slice of it. */
  lemma NotInSlice<V>(m: Entries<V>, a: nat, b: nat, k: string)
    requires a <= b <= |m| && !Has(m, k)
    ensures !Has(m[a..b], k)
  {
  }

  /** In a map without repeated keys, a slot's key occurs in no other part of it. */
  lemma KeyAtSlot<V>(m: Entries<V>, i: nat)
    requires Unique(m) && i < |m|
    ensures !Has(m[..i], m[i].0) && !Has(m[i + 1..], m[i].0)
  {
  }

  /** When `k` is new or is the slot's own key, only that slot's key changes. */
  lemma ReplaceAtKeys<V>(m: Entries<V>, i: nat, k: string, v: V)
    requires i < |m|
    requires !Has(m, k) || m[i].0 == k
    requires Unique(m)
    ensures Keys(ReplaceAt(m, i, k, v)) == Keys(m)[i := k]
  {
    if Has(m, k) {
      KeyAtSlot(m, i);
    } else {
      NotInSlice(m, 0, i, k);
      NotInSlice(m, i + 1, |m|, k);
    }
    SliceReplaceKeys(m, i, k, v);
  }

  lemma SliceReplaceKeys<V>(m: Entries<V>, i: nat, k: string, v: V)
    requires i < |m|
    requires !Has(m[..i], k) && !Has(m[i + 1..], k)
    ensures Keys(ReplaceAt(m, i, k, v)) == Keys(m)[i := k]
  {
    var a, b := m[..i], m[i + 1..];
    assert Remove(a, k) == a && Remove(b, k) == b;
    assert ReplaceAt(m, i, k, v) == a + [(k, v)] + b;
    SpliceIsUpdate(m, i, (k, v));
    KeysUpdate(m, i, k, v);
  }

  /** Putting `x` between the slices around slot `i` is updating slot `i`. */
  lemma SpliceIsUpdate<T>(m: seq<T>, i: nat, x: T)
    requires i < |m|
    ensures m[..i] + [x] + m[i + 1..] == m[i := x]
  {
    var r := m[..i] + [x] + m[i + 1..];
    forall j | 0 <= j < |m| ensures r[j] == m[i := x][j] {
      if j > i {
        assert r[j] == m[i + 1..][j - i - 1];
      }
    }
  }

  /** Updating one entry changes only that key. */
  lemma KeysUpdate<V>(m: Entries<V>, i: nat, k: string, v: V)
    requires i < |m|
    ensures Keys(m[i := (k, v)]) == Keys(m)[i := k]
  {
    var r := m[i := (k, v)];
    assert forall j :: 0 <= j < |m| ==> Keys(r)[j] == Keys(m)[i := k][j];
  }

  // ---------------------------------------------------------------- auto keys

  /** The largest integer key, or -1 when there is none. */
  function MaxIndex<V>(m: Entries<V>): (r: int)
    ensures r >= -1
    ensures forall i :: 0 <= i < |m| && ParseIndex(m[i].0).Some? ==> ParseIndex(m[i].0).value <= r
  {
    if m == [] then -1
    else
      var rest := MaxIndex(m[1..]);
      assert forall i :: 1 <= i < |m| ==> m[i] == m[1..][i - 1];
      match ParseIndex(m[0].0)
      case Some(n) => if n > rest then n else rest
      case None => rest
  }

  /** The key `$m[] = $v` uses: one past the largest integer key, or 0. */
  function NextIndex<V>(m: Entries<V>): (k: string)
    ensures !Has(m, k)
    ensures ParseIndex(k).Some?
  {
    var n := MaxIndex(m) + 1;
    ParseDecimal(n);
    Decimal(n)
  }

  /** The first automatic key of an empty array is `0`. */
  lemma NextIndexEmpty<V>()
    ensures NextIndex<V>([]) == "0"
  {
  }
}
