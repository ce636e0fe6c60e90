/** The string primitives the pricing script relies on: Python's `str.strip()`,
    `str.lower()`, `str.count()`, `str.split(sep)`, the `in` substring test
    and the decimal digits read by `float()` and `int()`. */
module Text {

  /** Python's `str.isspace()`: the characters `strip()` removes. */
  predicate IsSpace(c: char)
  {
    || c == ' ' || c == '\t' || c == '\n' || c == '\r'
    || c == '\U{000B}' || c == '\U{000C}'
    || ('\U{001C}' <= c <= '\U{001F}')
    || c == '\U{0085}' || c == '\U{00A0}' || c == '\U{1680}'
    || ('\U{2000}' <= c <= '\U{200A}')
    || c == '\U{2028}' || c == '\U{2029}' || c == '\U{202F}' || c == '\U{205F}' || c == '\U{3000}'
  }

  predicate AllSpace(s: string)
  {
    forall i :: 0 <= i < |s| ==> IsSpace(s[i])
  }

  /** `str.lstrip()`. */
  function TrimLeft(s: string): string
  {
    if |s| > 0 && IsSpace(s[0]) then TrimLeft(s[1..]) else s
  }

  /** `str.rstrip()`. */
  function TrimRight(s: string): string
  {
    if |s| > 0 && IsSpace(s[|s| - 1]) then TrimRight(s[..|s| - 1]) else s
  }

  /** Left stripping removes exactly the longest all-space prefix. */
  lemma {:induction false} TrimLeftShape(s: string)
    ensures var r := TrimLeft(s);
      && |r| <= |s| && r == s[|s| - |r|..]
      && (r == [] || !IsSpace(r[0]))
      && AllSpace(s[..|s| - |r|])
  {
    if |s| > 0 && IsSpace(s[0]) {
      TrimLeftShape(s[1..]);
      var r := TrimLeft(s);
      assert s[..|s| - |r|] == [s[0]] + s[1..][..|s| - 1 - |r|];
    }
  }

  /** Right stripping removes exactly the longest all-space suffix. */
  lemma {:induction false} TrimRightShape(s: string)
    ensures var r := TrimRight(s);
      && |r| <= |s| && r == s[..|r|]
      && (r == [] || !IsSpace(r[|r| - 1]))
      && AllSpace(s[|r|..])
  {
    if |s| > 0 && IsSpace(s[|s| - 1]) {
      TrimRightShape(s[..|s| - 1]);
      var r := TrimRight(s);
      assert s[|r|..] == s[..|s| - 1][|r|..] + [s[|s| - 1]];
    }
  }

  /** `str.strip()`. */
  function Trim(s: string): (r: string)
    ensures |r| <= |s|
    ensures r == [] || (!IsSpace(r[0]) && !IsSpace(r[|r| - 1]))
    ensures r == [] <==> AllSpace(s)
  {
    TrimLeftShape(s);
    TrimRightShape(TrimLeft(s));
    StripEmpty(s);
    TrimRight(TrimLeft(s))
  }

  /** Stripping leaves nothing exactly when the input is all whitespace. */
  lemma StripEmpty(s: string)
    ensures TrimRight(TrimLeft(s)) == [] <==> AllSpace(s)
  {
    TrimLeftShape(s);
    var l := TrimLeft(s);
    TrimRightShape(l);
    if l == [] {
      assert s[..|s| - |l|] == s;
    } else {
      assert s[|s| - |l|] == l[0];
    }
  }

  /** Stripping a string padded with whitespace on both sides gives back the
      core, when the core neither starts nor ends with whitespace. */
  lemma TrimPadded(pre: string, core: string, post: string)
    requires AllSpace(pre) && AllSpace(post)
    requires core != [] && !IsSpace(core[0]) && !IsSpace(core[|core| - 1])
    ensures Trim(pre + core + post) == core
  {
    var s := pre + core + post;
    var l := TrimLeft(s);
    TrimLeftShape(s);
    var k := |s| - |l|;
    assert s[|pre|] == core[0];
    assert k <= |pre|;
    assert k == |pre|;
    assert l == core + post;
    var r := TrimRight(l);
    TrimRightShape(l);
    assert l[|core| - 1] == core[|core| - 1];
    assert |r| >= |core|;
    assert |r| == |core|;
  }

  /** A string that neither starts nor ends with whitespace is its own strip. */
  lemma TrimFixed(t: string)
    requires t == [] || (!IsSpace(t[0]) && !IsSpace(t[|t| - 1]))
    ensures TrimLeft(t) == t && Trim(t) == t
  {
  }

  /** The ASCII information separators U+001C..U+001F. `str.isspace()` holds
      of them, so `strip()` removes them, but `float()` does not. */
  predicate IsSeparator(c: char)
  {
    '\U{001C}' <= c <= '\U{001F}'
  }

  predicate NoSeparator(s: string)
  {
    forall i :: 0 <= i < |s| ==> !IsSeparator(s[i])
  }

  /** The whitespace `float()` strips: ASCII space and `\t`..`\r`, and every
      non-ASCII whitespace character (which it first turns into a space). */
  predicate IsFloatSpace(c: char)
  {
    IsSpace(c) && !IsSeparator(c)
  }

  function FloatTrimLeft(s: string): string
  {
    if |s| > 0 && IsFloatSpace(s[0]) then FloatTrimLeft(s[1..]) else s
  }

  function FloatTrimRight(s: string): string
  {
    if |s| > 0 && IsFloatSpace(s[|s| - 1]) then FloatTrimRight(s[..|s| - 1]) else s
  }

  /** The strip `float()` applies before reading a number. */
  function FloatTrim(s: string): string
  {
    FloatTrimRight(FloatTrimLeft(s))
  }

  lemma {:induction false} FloatTrimLeftAgrees(s: string)
    requires NoSeparator(s)
    ensures FloatTrimLeft(s) == TrimLeft(s)
  {
    if |s| > 0 && IsSpace(s[0]) {
      assert NoSeparator(s[1..]) by {
        assert forall i :: 0 <= i < |s| - 1 ==> s[1..][i] == s[i + 1];
      }
      FloatTrimLeftAgrees(s[1..]);
    }
  }

  lemma {:induction false} FloatTrimRightAgrees(s: string)
    requires NoSeparator(s)
    ensures FloatTrimRight(s) == TrimRight(s)
  {
    if |s| > 0 && IsSpace(s[|s| - 1]) {
      assert NoSeparator(s[..|s| - 1]);
      FloatTrimRightAgrees(s[..|s| - 1]);
    }
  }

  /** Without separators, `float()`'s strip is `str.strip()`. */
  lemma FloatTrimAgrees(s: string)
    requires NoSeparator(s)
    ensures FloatTrim(s) == Trim(s)
  {
    FloatTrimLeftAgrees(s);
    TrimLeftShape(s);
    var l := TrimLeft(s);
    assert NoSeparator(l) by {
      assert forall i :: 0 <= i < |l| ==> l[i] == s[|s| - |l| + i];
    }
    FloatTrimRightAgrees(l);
  }

  lemma {:induction false} FloatTrimLeftKeeps(s: string, c: char)
    requires IsSeparator(c) && c in s
    ensures c in FloatTrimLeft(s)
  {
    if |s| > 0 && IsFloatSpace(s[0]) {
      assert s == [s[0]] + s[1..];
      FloatTrimLeftKeeps(s[1..], c);
    }
  }

  lemma {:induction false} FloatTrimRightKeeps(s: string, c: char)
    requires IsSeparator(c) && c in s
    ensures c in FloatTrimRight(s)
  {
    if |s| > 0 && IsFloatSpace(s[|s| - 1]) {
      assert s == s[..|s| - 1] + [s[|s| - 1]];
      FloatTrimRightKeeps(s[..|s| - 1], c);
    }
  }

  /** `float()`'s strip never removes a separator. */
  lemma FloatTrimKeeps(s: string, c: char)
    requires IsSeparator(c) && c in s
    ensures c in FloatTrim(s)
  {
    FloatTrimLeftKeeps(s, c);
    FloatTrimRightKeeps(FloatTrimLeft(s), c);
  }

  /** Python's `str.lower()` restricted to ASCII letters. */
  function LowerChar(c: char): char
  {
    if IsUpper(c) then (c as int - 'A' as int + 'a' as int) as char else c
  }

  predicate IsUpper(c: char)
  {
    'A' <= c <= 'Z'
  }

  /** Lower-casing turns each ASCII capital into its small letter and keeps
      every other character, so no ASCII capital is left and a string without
      capitals comes back unchanged. */
  function Lower(s: string): (r: string)
    ensures |r| == |s|
    ensures forall i :: 0 <= i < |r| ==> !IsUpper(r[i])
    ensures forall i :: 0 <= i < |s| && !IsUpper(s[i]) ==> r[i] == s[i]
    ensures forall i :: 0 <= i < |s| && IsUpper(s[i]) ==> r[i] as int == s[i] as int + ('a' as int - 'A' as int)
    ensures (forall i :: 0 <= i < |s| ==> !IsUpper(s[i])) ==> r == s
  {
    seq(|s|, i requires 0 <= i < |s| => LowerChar(s[i]))
  }

  /** Lower-casing twice is lower-casing once. */
  lemma LowerIdempotent(s: string)
    ensures Lower(Lower(s)) == Lower(s)
  {
    var r := Lower(s);
    assert forall i :: 0 <= i < |r| ==> !IsUpper(r[i]);
  }

  /** Number of occurrences of `x` in `s`: `str.count` for one character. */
  function Count<T(==)>(s: seq<T>, x: T): nat
  {
    if s == [] then 0 else (if s[0] == x then 1 else 0) + Count(s[1..], x)
  }

  lemma {:induction false} CountConcat<T>(a: seq<T>, b: seq<T>, x: T)
    ensures Count(a + b, x) == Count(a, x) + Count(b, x)
  {
    if a != [] {
      assert (a + b)[0] == a[0] && (a + b)[1..] == a[1..] + b;
      CountConcat(a[1..], b, x);
    } else {
      assert a + b == b;
    }
  }

  lemma {:induction false} CountPositive<T>(s: seq<T>, x: T)
    ensures Count(s, x) > 0 <==> x in s
  {
    if s != [] {
      CountPositive(s[1..], x);
      assert x in s <==> s[0] == x || x in s[1..];
    }
  }

  /** Stripping removes whitespace only, so every other character keeps its count. */
  lemma TrimKeepsCount(s: string, c: char)
    requires !IsSpace(c)
    ensures Count(Trim(s), c) == Count(s, c)
  {
    TrimLeftKeepsCount(s, c);
    TrimRightKeepsCount(TrimLeft(s), c);
  }

  lemma TrimLeftKeepsCount(s: string, c: char)
    requires !IsSpace(c)
    ensures Count(TrimLeft(s), c) == Count(s, c)
  {
    var l := TrimLeft(s);
    TrimLeftShape(s);
    var pre := s[..|s| - |l|];
    assert s == pre + l;
    CountConcat(pre, l, c);
    CountPositive(pre, c);
  }

  lemma TrimRightKeepsCount(l: string, c: char)
    requires !IsSpace(c)
    ensures Count(TrimRight(l), c) == Count(l, c)
  {
    var r := TrimRight(l);
    TrimRightShape(l);
    var post := l[|r|..];
    assert l == r + post;
    CountConcat(r, post, c);
    CountPositive(post, c);
  }

  /** `str.split(sep)`: the pieces between occurrences of `sep`; always at least one. */
  function Split(s: string, sep: char): (r: seq<string>)
    ensures |r| == Count(s, sep) + 1
    ensures forall i :: 0 <= i < |r| ==> sep !in r[i]
    ensures Join(r, sep) == s
  {
    if s == [] then [[]]
    else
      var rest := Split(s[1..], sep);
      if s[0] == sep then [[]] + rest
      else
        var r := [[s[0]] + rest[0]] + rest[1..];
        assert r[1..] == rest[1..];
        r
  }

  /** `sep.join(pieces)`: the inverse of `Split`. */
  function Join(pieces: seq<string>, sep: char): string
    requires |pieces| > 0
  {
    if |pieces| == 1 then pieces[0] else pieces[0] + [sep] + Join(pieces[1..], sep)
  }

  /** Splitting undoes joining pieces that are free of the separator. */
  lemma {:induction false} SplitJoin(pieces: seq<string>, sep: char)
    requires |pieces| > 0
    requires forall i :: 0 <= i < |pieces| ==> sep !in pieces[i]
    ensures Split(Join(pieces, sep), sep) == pieces
  {
    var r := Split(Join(pieces, sep), sep);
    if |pieces| == 1 {
      SplitNoSeparator(pieces[0], sep);
    } else {
      SplitJoin(pieces[1..], sep);
      SplitAfterPiece(pieces[0], Join(pieces[1..], sep), sep);
      assert pieces == [pieces[0]] + pieces[1..];
    }
  }

  lemma {:induction false} SplitNoSeparator(s: string, sep: char)
    requires sep !in s
    ensures Split(s, sep) == [s]
  {
    if s != [] {
      SplitNoSeparator(s[1..], sep);
      assert [s[0]] + s[1..] == s;
    }
  }

  lemma {:induction false} SplitAfterPiece(p: string, rest: string, sep: char)
    requires sep !in p
    ensures Split(p + [sep] + rest, sep) == [p] + Split(rest, sep)
  {
    if p == [] {
      assert p + [sep] + rest == [sep] + rest;
      assert ([sep] + rest)[1..] == rest;
    } else {
      var s := p + [sep] + rest;
      assert s[1..] == p[1..] + [sep] + rest;
      SplitAfterPiece(p[1..], rest, sep);
      assert [p[0]] + p[1..] == p;
    }
  }

  /** Python's `needle in haystack` for strings. */
  ghost predicate IsSubstring(needle: string, haystack: string)
  {
    exists i :: 0 <= i && OccursAt(needle, haystack, i)
  }

  /** `needle` occurs in `haystack` starting at index `i`. */
  predicate OccursAt(needle: string, haystack: string, i: nat)
  {
    i + |needle| <= |haystack| && haystack[i..i + |needle|] == needle
  }

  /** The substring test computed by scanning start positions left to right. */
  function Contains(haystack: string, needle: string): (b: bool)
    ensures b <==> IsSubstring(needle, haystack)
    decreases |haystack|
  {
    if |needle| > |haystack| then false
    else if haystack[..|needle|] == needle then
      assert OccursAt(needle, haystack, 0);
      true
    else
      var b := Contains(haystack[1..], needle);
      if b then
        var i :| 0 <= i && OccursAt(needle, haystack[1..], i);
        assert OccursAt(needle, haystack, i + 1);
        true
      else
        assert forall i: nat :: 1 <= i && OccursAt(needle, haystack, i) ==> OccursAt(needle, haystack[1..], i - 1);
        false
  }

  predicate IsDigit(c: char)
  {
    '0' <= c <= '9'
  }

  predicate AllDigits(s: string)
  {
    forall i :: 0 <= i < |s| ==> IsDigit(s[i])
  }

  function DigitValue(c: char): nat
    requires IsDigit(c)
  {
    c as int - '0' as int
  }

  /** The value of a string of decimal digits, most significant first. */
  function DigitsValue(s: string): nat
    requires AllDigits(s)
  {
    if s == [] then 0 else DigitsValue(s[..|s| - 1]) * 10 + DigitValue(s[|s| - 1])
  }

  function Pow10(n: nat): (r: nat)
    ensures r >= 1
  {
    if n == 0 then 1 else 10 * Pow10(n - 1)
  }

  /** The first index of `c` in `s`, or `|s|` when `c` does not occur. */
  function IndexOf(s: string, c: char): (k: nat)
    ensures k <= |s|
    ensures k < |s| ==> s[k] == c
    ensures c !in s[..k]
  {
    if s == [] then 0
    else if s[0] == c then 0
    else
      var k := 1 + IndexOf(s[1..], c);
      assert s[..k] == [s[0]] + s[1..][..k - 1];
      k
  }
}
