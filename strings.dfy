/**
 * String helpers shared by attribute names, class lists and child paths:
 * splitting and joining on a separator (PHP's explode and implode), the
 * whitespace-separated token list of a class attribute, canonical decimal
 * integer keys, and the camelCase rewrite of dynamic accessor names.
 */
module Strings {
  import opened Wrappers

  // ---------------------------------------------------------------- split / join

  /** The position of the first `c` in `s`, if any. */
  function FirstIndex(s: string, c: char): (r: Option<nat>)
    ensures r.None? <==> c !in s
    ensures r.Some? ==> r.value < |s| && s[r.value] == c && c !in s[..r.value]
  {
    if s == [] then None
    else if s[0] == c then Some(0)
    else
      match FirstIndex(s[1..], c)
      case None => None
      case Some(i) =>
        assert s[..i + 1] == [s[0]] + s[1..][..i];
        Some(i + 1)
  }

  /** `explode(sep, s)`: the pieces between separators, empty pieces kept. */
  function Split(s: string, sep: char): (parts: seq<string>)
    ensures |parts| >= 1
    ensures forall i :: 0 <= i < |parts| ==> sep !in parts[i]
    decreases |s|
  {
    match FirstIndex(s, sep)
    case None => [s]
    case Some(i) => [s[..i]] + Split(s[i + 1..], sep)
  }

  /** `implode(sep, parts)`. */
  function Join(parts: seq<string>, sep: char): string
  {
    if |parts| == 0 then ""
    else if |parts| == 1 then parts[0]
    else parts[0] + [sep] + Join(parts[1..], sep)
  }

  /** Joining the pieces of a split gives back the original string. */
  lemma {:induction false} JoinSplit(s: string, sep: char)
    ensures Join(Split(s, sep), sep) == s
    decreases |s|
  {
    match FirstIndex(s, sep)
    case None =>
    case Some(i) =>
      var rest := Split(s[i + 1..], sep);
      JoinSplit(s[i + 1..], sep);
      assert Split(s, sep) == [s[..i]] + rest;
      assert ([s[..i]] + rest)[1..] == rest;
      assert s == s[..i] + [sep] + s[i + 1..];
  }

  /** A piece without the separator, then the separator, splits off first. */
  lemma SplitAfterPiece(a: string, t: string, sep: char)
    requires sep !in a
    ensures Split(a + [sep] + t, sep) == [a] + Split(t, sep)
  {
    var u := a + [sep] + t;
    assert u[|a|] == sep;
    assert u[..|a|] == a;
    var i := FirstIndex(u, sep);
    assert i == Some(|a|);
    assert u[|a| + 1..] == t;
  }

  /** Splitting a join gives back the pieces when no piece holds the separator. */
  lemma {:induction false} SplitJoin(parts: seq<string>, sep: char)
    requires |parts| >= 1
    requires forall i :: 0 <= i < |parts| ==> sep !in parts[i]
    ensures Split(Join(parts, sep), sep) == parts
  {
    if |parts| > 1 {
      SplitJoin(parts[1..], sep);
      SplitAfterPiece(parts[0], Join(parts[1..], sep), sep);
      assert parts == [parts[0]] + parts[1..];
    }
  }

  // ---------------------------------------------------------------- class tokens

  /** The non-empty pieces of `parts`, in order. */
  function NonEmpty(parts: seq<string>): (r: seq<string>)
    ensures forall i :: 0 <= i < |r| ==> r[i] != "" && r[i] in parts
    ensures forall p :: p in parts && p != "" ==> p in r
  {
    if parts == [] then []
    else if parts[0] == "" then NonEmpty(parts[1..])
    else [parts[0]] + NonEmpty(parts[1..])
  }

  /** A class token: non-empty, no space. */
  predicate IsToken(t: string) {
    t != "" && ' ' !in t
  }

  /** The tokens of a space-separated list (runs of spaces separate once). */
  function Tokens(s: string): (ts: seq<string>)
    ensures forall i :: 0 <= i < |ts| ==> IsToken(ts[i])
  {
    NonEmpty(Split(s, ' '))
  }

  /** A list of tokens survives being joined with spaces and tokenised again. */
  lemma TokensJoin(ts: seq<string>)
    requires forall i :: 0 <= i < |ts| ==> IsToken(ts[i])
    ensures Tokens(Join(ts, ' ')) == ts
  {
    if ts == [] {
      assert Split("", ' ') == [""];
    } else {
      SplitJoin(ts, ' ');
      NonEmptyOfTokens(ts);
    }
  }

  lemma {:induction false} NonEmptyOfTokens(ts: seq<string>)
    requires forall i :: 0 <= i < |ts| ==> ts[i] != ""
    ensures NonEmpty(ts) == ts
  {
    if ts != [] {
      NonEmptyOfTokens(ts[1..]);
    }
  }

  // ---------------------------------------------------------------- integer keys

  predicate IsDigit(c: char) {
    '0' <= c <= '9'
  }

  function DigitChar(d: nat): (c: char)
    requires d < 10
    ensures IsDigit(c) && c as int - '0' as int == d
  {
    ('0' as int + d) as char
  }

  /** The decimal spelling of `n`, as PHP prints an integer key. */
  function Decimal(n: nat): (s: string)
    ensures |s| >= 1
    ensures forall i :: 0 <= i < |s| ==> IsDigit(s[i])
    ensures n >= 10 ==> |s| >= 2 && s[0] != '0'
    ensures n < 10 ==> |s| == 1
  {
    if n < 10 then [DigitChar(n)] else Decimal(n / 10) + [DigitChar(n % 10)]
  }

  /** A string PHP turns into an integer array key: digits, no leading zero. */
  predicate IsCanonical(s: string) {
    |s| >= 1 && (forall i :: 0 <= i < |s| ==> IsDigit(s[i])) && (s[0] == '0' ==> |s| == 1)
  }

  function DigitsValue(s: string): nat
    requires forall i :: 0 <= i < |s| ==> IsDigit(s[i])
  {
    if s == [] then 0
    else
      assert IsDigit(s[|s| - 1]);
      DigitsValue(s[..|s| - 1]) * 10 + (s[|s| - 1] as int - '0' as int)
  }

  /** The integer a key stands for, when it is an integer key. */
  function ParseIndex(s: string): Option<nat>
  {
    if IsCanonical(s) then Some(DigitsValue(s)) else None
  }

  /** Every decimal spelling is read back as the number it spells. */
  lemma {:induction false} ParseDecimal(n: nat)
    ensures ParseIndex(Decimal(n)) == Some(n)
  {
    var s := Decimal(n);
    if n >= 10 {
      ParseDecimal(n / 10);
      assert s[..|s| - 1] == Decimal(n / 10);
      assert DigitsValue(s) == (n / 10) * 10 + n % 10;
    } else {
      assert s[..|s| - 1] == [];
      assert DigitsValue(s) == n;
    }
  }

  lemma {:induction false} LeadingDigitPositive(s: string)
    requires |s| >= 1 && (forall i :: 0 <= i < |s| ==> IsDigit(s[i])) && s[0] != '0'
    ensures DigitsValue(s) >= 1
  {
    if |s| > 1 {
      LeadingDigitPositive(s[..|s| - 1]);
    }
  }

  /** Every integer key is the decimal spelling of the number it stands for. */
  lemma {:induction false} DecimalParse(s: string)
    requires IsCanonical(s)
    ensures Decimal(DigitsValue(s)) == s
  {
    if |s| > 1 {
      var init := s[..|s| - 1];
      assert IsCanonical(init);
      LeadingDigitPositive(init);
      DecimalParse(init);
      var d := s[|s| - 1] as int - '0' as int;
      var v := DigitsValue(init) * 10 + d;
      assert v / 10 == DigitsValue(init) && v % 10 == d;
      assert s == init + [s[|s| - 1]];
    }
  }

  // ---------------------------------------------------------------- camelCase

  predicate IsUpper(c: char) {
    'A' <= c <= 'Z'
  }

  predicate IsLower(c: char) {
    'a' <= c <= 'z'
  }

  function ToLower(c: char): char
    requires IsUpper(c)
  {
    (c as int + 32) as char
  }

  function ToUpper(c: char): char
    requires IsLower(c)
  {
    (c as int - 32) as char
  }

  /**
   * Every upper-case letter becomes `sep` followed by the letter in lower
   * case: `dataFoo` becomes `data-foo` with `-`, `oneTwo` becomes `one.two`
   * with `.`.
   */
  function Decamel(s: string, sep: char): string
  {
    if s == [] then []
    else (if IsUpper(s[0]) then [sep, ToLower(s[0])] else [s[0]]) + Decamel(s[1..], sep)
  }

  predicate NoUpper(s: string) {
    forall i :: 0 <= i < |s| ==> !IsUpper(s[i])
  }

  /** A name without upper-case letters is its own separated form. */
  lemma {:induction false} DecamelPlain(s: string, sep: char)
    requires NoUpper(s)
    ensures Decamel(s, sep) == s
  {
    if s != [] {
      DecamelPlain(s[1..], sep);
      assert s == [s[0]] + s[1..];
    }
  }

  /** The rewrite works letter by letter, so it distributes over concatenation. */
  lemma {:induction false} DecamelConcat(a: string, b: string, sep: char)
    ensures Decamel(a + b, sep) == Decamel(a, sep) + Decamel(b, sep)
  {
    if a == [] {
      assert a + b == b;
    } else {
      assert (a + b)[0] == a[0] && (a + b)[1..] == a[1..] + b;
      DecamelConcat(a[1..], b, sep);
    }
  }

  /** `oneTwo` becomes `one` + sep + `two`: one upper-case letter between two lower-case words. */
  lemma DecamelPair(a: string, c: char, b: string, sep: char)
    requires NoUpper(a) && NoUpper(b) && IsUpper(c)
    ensures Decamel(a + [c] + b, sep) == a + [sep, ToLower(c)] + b
  {
    var cb := [c] + b;
    assert a + [c] + b == a + cb;
    DecamelConcat(a, cb, sep);
    DecamelPlain(a, sep);
    assert cb[0] == c && cb[1..] == b;
    DecamelPlain(b, sep);
    assert Decamel(cb, sep) == [sep, ToLower(c)] + b;
  }

  /** Every `sep` followed by a lower-case letter becomes that letter in upper case. */
  function Recamel(s: string, sep: char): string
  {
    if s == [] then []
    else if s[0] == sep && |s| >= 2 && IsLower(s[1]) then [ToUpper(s[1])] + Recamel(s[2..], sep)
    else [s[0]] + Recamel(s[1..], sep)
  }

  /** A name in separated form: lower case, every separator followed by a letter. */
  predicate IsSeparated(s: string, sep: char) {
    forall i :: 0 <= i < |s| ==> SeparatedAt(s, sep, i)
  }

  predicate SeparatedAt(s: string, sep: char, i: nat)
    requires i < |s|
  {
    !IsUpper(s[i]) && (s[i] == sep ==> i + 1 < |s| && IsLower(s[i + 1]))
  }

  /** A camelCase name without the separator is recovered from its separated form. */
  lemma {:induction false} RecamelDecamel(s: string, sep: char)
    requires sep !in s && !IsLower(sep) && !IsUpper(sep)
    ensures Recamel(Decamel(s, sep), sep) == s
  {
    if s != [] {
      RecamelDecamel(s[1..], sep);
      var d := Decamel(s[1..], sep);
      if IsUpper(s[0]) {
        var t := [sep, ToLower(s[0])] + d;
        assert t[0] == sep && IsLower(t[1]) && t[2..] == d;
        assert Recamel(t, sep) == [ToUpper(ToLower(s[0]))] + Recamel(d, sep);
      } else {
        var t := [s[0]] + d;
        assert t[0] != sep && t[1..] == d;
      }
      assert s == [s[0]] + s[1..];
    }
  }

  /** A separated name is recovered from its camelCase form. */
  lemma {:induction false} DecamelRecamel(s: string, sep: char)
    requires IsSeparated(s, sep) && !IsLower(sep) && !IsUpper(sep)
    ensures Decamel(Recamel(s, sep), sep) == s
  {
    if s != [] {
      assert SeparatedAt(s, sep, 0);
      var k := if s[0] == sep then 2 else 1;
      assert IsSeparated(s[k..], sep) by {
        forall i | 0 <= i < |s[k..]| ensures SeparatedAt(s[k..], sep, i) {
          assert SeparatedAt(s, sep, i + k);
          assert s[k..][i] == s[i + k];
          if i + k + 1 < |s| {
            assert s[k..][i + 1] == s[i + k + 1];
          }
        }
      }
      DecamelRecamel(s[k..], sep);
      if s[0] == sep {
        var r := [ToUpper(s[1])] + Recamel(s[2..], sep);
        assert r[0] == ToUpper(s[1]) && r[1..] == Recamel(s[2..], sep);
        assert Decamel(r, sep) == [sep, s[1]] + s[2..];
        assert s == [sep, s[1]] + s[2..];
      } else {
        var r := [s[0]] + Recamel(s[1..], sep);
        assert r[0] == s[0] && r[1..] == Recamel(s[1..], sep);
        assert s == [s[0]] + s[1..];
      }
    }
  }
}
