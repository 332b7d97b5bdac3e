/** String helpers for the validators: the parts of Python's `str` that the
    code base relies on (`in`, `rsplit(sep, 1)`, `lower()`, `startswith`,
    `strip`, `replace` and `title()`), restricted to ASCII case mapping. */
module Text {

  datatype Option<+T> = None | Some(value: T)

  /** Index of the last occurrence of `c` in `s` (what `str.rfind` reports). */
  function LastIndexOf(s: string, c: char): (r: Option<nat>)
    ensures r.None? <==> c !in s
    ensures r.Some? ==> r.value < |s| && s[r.value] == c
    ensures r.Some? ==> forall k :: r.value < k < |s| ==> s[k] != c
  {
    if |s| == 0 then None
    else if s[|s| - 1] == c then Some(|s| - 1)
    else
      assert s == s[..|s| - 1] + [s[|s| - 1]];
      LastIndexOf(s[..|s| - 1], c)
  }

  /** `s.rsplit(sep, 1)` when `sep` occurs in `s`: the text before the last
      separator and the text after it. */
  function RSplitOnce(s: string, sep: char): (r: (string, string))
    requires sep in s
    ensures r.0 + [sep] + r.1 == s
    ensures sep !in r.1
  {
    var i := LastIndexOf(s, sep).value;
    assert s == s[..i] + [sep] + s[i + 1..];
    (s[..i], s[i + 1..])
  }

  /** The text after the last `sep`: `s.rsplit(sep, 1)[1]`. */
  function AfterLast(s: string, sep: char): string
    requires sep in s
  {
    RSplitOnce(s, sep).1
  }

  /** Any split of `s` around a separator that does not occur after it is the
      split `rsplit` makes. */
  lemma RSplitOnceUnique(s: string, sep: char, before: string, after: string)
    requires before + [sep] + after == s
    requires sep !in after
    ensures sep in s
    ensures RSplitOnce(s, sep) == (before, after)
  {
    assert s[|before|] == sep;
    var i := LastIndexOf(s, sep).value;
    assert forall k :: |before| < k < |s| ==> s[k] == after[k - |before| - 1];
    assert i == |before|;
    assert s[..i] == before && s[i + 1..] == after;
  }

  function LowerChar(c: char): char
  {
    if 'A' <= c <= 'Z' then (c as int + 32) as char else c
  }

  function UpperChar(c: char): char
  {
    if 'a' <= c <= 'z' then (c as int - 32) as char else c
  }

  predicate IsAsciiLetter(c: char)
  {
    'A' <= c <= 'Z' || 'a' <= c <= 'z'
  }

  /** `s.lower()` for ASCII letters; other characters are left as they are. */
  function Lower(s: string): (r: string)
    ensures |r| == |s|
  {
    if s == [] then [] else [LowerChar(s[0])] + Lower(s[1..])
  }

  predicate StartsWith(s: string, prefix: string)
  {
    |prefix| <= |s| && s[..|prefix|] == prefix
  }

  /** `s.replace(a, b)` for single characters. */
  function ReplaceChar(s: string, a: char, b: char): string
  {
    if s == [] then [] else [if s[0] == a then b else s[0]] + ReplaceChar(s[1..], a, b)
  }

  /** `s.title()`: a letter after a letter is lower-cased, any other letter
      is upper-cased; `prevCased` says whether a letter precedes `s`. */
  function TitleFrom(s: string, prevCased: bool): string
  {
    if s == [] then []
    else
      var c := s[0];
      var t := if !IsAsciiLetter(c) then c else if prevCased then LowerChar(c) else UpperChar(c);
      [t] + TitleFrom(s[1..], IsAsciiLetter(c))
  }

  function Title(s: string): string
  {
    TitleFrom(s, false)
  }

  /** Everything `str.strip()` with no argument removes: the characters for
      which Python's `str.isspace` holds. */
  const PyWhitespace: set<char> := {
    '\t', '\n', '\U{B}', '\U{C}', '\r', '\U{1C}', '\U{1D}', '\U{1E}', '\U{1F}', ' ',
    '\U{85}', '\U{A0}', '\U{1680}', '\U{2000}', '\U{2001}', '\U{2002}', '\U{2003}',
    '\U{2004}', '\U{2005}', '\U{2006}', '\U{2007}', '\U{2008}', '\U{2009}', '\U{200A}',
    '\U{2028}', '\U{2029}', '\U{202F}', '\U{205F}', '\U{3000}'
  }

  /** `s.lstrip(chars)`: drops the longest prefix made of characters in `cs`. */
  function TrimLeft(s: string, cs: set<char>): (r: string)
    ensures |r| <= |s| && r == s[|s| - |r|..]
    ensures r == [] || r[0] !in cs
    ensures forall k :: 0 <= k < |s| - |r| ==> s[k] in cs
  {
    if s != [] && s[0] in cs then TrimLeft(s[1..], cs) else s
  }

  /** `s.rstrip(chars)`: drops the longest suffix made of characters in `cs`. */
  function TrimRight(s: string, cs: set<char>): (r: string)
    ensures |r| <= |s| && r == s[..|r|]
    ensures r == [] || r[|r| - 1] !in cs
    ensures forall k :: |r| <= k < |s| ==> s[k] in cs
  {
    if s != [] && s[|s| - 1] in cs then TrimRight(s[..|s| - 1], cs) else s
  }

  /** `s.strip(chars)`. */
  function Trim(s: string, cs: set<char>): string
  {
    TrimRight(TrimLeft(s, cs), cs)
  }

  /** Stripping leaves nothing exactly when every character is strippable. */
  lemma TrimEmptyIff(s: string, cs: set<char>)
    ensures Trim(s, cs) == [] <==> forall k :: 0 <= k < |s| ==> s[k] in cs
  {
    var l := TrimLeft(s, cs);
    if Trim(s, cs) == [] {
      // Everything `TrimRight` removed from `l` is in `cs`, and `l` does
      // not start with such a character, so nothing was left by `TrimLeft`.
      assert l == [];
    }
  }

  /** What `strip` leaves is a slice of its input. */
  lemma TrimIsSlice(s: string, cs: set<char>) returns (i: nat, j: nat)
    ensures i <= j <= |s| && Trim(s, cs) == s[i..j]
  {
    var l := TrimLeft(s, cs);
    var t := TrimRight(l, cs);
    i, j := |s| - |l|, |s| - |l| + |t|;
    assert l == s[i..];
    assert t == l[..|t|];
  }

  /** A string that neither starts nor ends with a strippable character is
      left as it is. */
  lemma TrimIdentity(s: string, cs: set<char>)
    requires s == [] || (s[0] !in cs && s[|s| - 1] !in cs)
    ensures Trim(s, cs) == s
  {
  }

  function Digit(d: nat): char
    requires d < 10
  {
    ('0' as int + d) as char
  }

  /** `str(n)` for a natural number. */
  function NatToString(n: nat): string
  {
    if n < 10 then [Digit(n)] else NatToString(n / 10) + [Digit(n % 10)]
  }

  /** `str(i)`, with a leading minus sign for negative numbers. */
  function IntToString(i: int): string
  {
    if i < 0 then "-" + NatToString(-i) else NatToString(i)
  }
}
