/** `parse_percentage`: a percentage expression such as "6%", "-1.5%" or "6"
    becomes the multiplier `1 + v / 100`, computed exactly on rationals. */
module Percentage {
  import opened Wrappers
  import opened Text

  /** The `ValueError` raised for an expression that is not a percentage. */
  datatype ParseError = InvalidPercentageFormat(input: string)

  /** Python's `float()` on the decimal forms modelled here: surrounding
      whitespace, an optional sign, digits with an optional fraction
      ("5", "5.", ".5", "-1.5"); at least one digit. Its strip keeps the
      separators U+001C..U+001F, which then make the text unreadable. */
  function ParseDecimal(t: string): Option<real>
  {
    ParseSigned(FloatTrim(t))
  }

  /** An optional sign followed by an unsigned decimal. */
  function ParseSigned(u: string): Option<real>
  {
    if |u| > 0 && (u[0] == '+' || u[0] == '-') then
      match ParseUnsigned(u[1..])
      case None => None
      case Some(v) => Some(if u[0] == '-' then -v else v)
    else
      ParseUnsigned(u)
  }

  /** On text free of separators, `float()` reads the `str.strip()`ped text. */
  lemma ParseDecimalNoSeparator(t: string)
    requires NoSeparator(t)
    ensures ParseDecimal(t) == ParseSigned(Trim(t))
  {
    FloatTrimAgrees(t);
  }

  /** Text holding a separator U+001C..U+001F anywhere is not a number to
      `float()`, even where `str.strip()` would remove it. */
  lemma ParseDecimalSeparator(t: string, c: char)
    requires IsSeparator(c) && c in t
    ensures ParseDecimal(t) == None
  {
    var u := FloatTrim(t);
    FloatTrimKeeps(t, c);
    if |u| > 0 && (u[0] == '+' || u[0] == '-') {
      assert c in u[1..] by {
        assert u == [u[0]] + u[1..];
      }
      if ParseUnsigned(u[1..]).Some? {
        ParseUnsignedExcludes(u[1..], c);
      }
    } else if ParseUnsigned(u).Some? {
      ParseUnsignedExcludes(u, c);
    }
  }

  lemma ReadableHasNoSeparator(t: string)
    requires ParseDecimal(t).Some?
    ensures NoSeparator(t)
  {
    if !NoSeparator(t) {
      var i :| 0 <= i < |t| && IsSeparator(t[i]);
      ParseDecimalSeparator(t, t[i]);
    }
  }

  /** Digits, optionally split by one '.', with at least one digit in all. */
  function ParseUnsigned(u: string): Option<real>
  {
    var k := IndexOf(u, '.');
    var whole := u[..k];
    var frac := if k < |u| then u[k + 1..] else [];
    if AllDigits(whole) && AllDigits(frac) && |whole| + |frac| > 0 then
      Some(DecimalValue(whole, frac))
    else
      None
  }

  /** The exact value of the numeral `whole.frac`. */
  function DecimalValue(whole: string, frac: string): real
    requires AllDigits(whole) && AllDigits(frac)
  {
    DigitsValue(whole) as real + DigitsValue(frac) as real / Pow10(|frac|) as real
  }

  /** A change of `v` percent as a factor: `1 + v / 100`. The display in
      `update_pricing_file` recovers `v` as `(m - 1) * 100`. */
  function Multiplier(v: real): (m: real)
    ensures (m - 1.0) * 100.0 == v
    ensures v > 0.0 <==> m > 1.0
  {
    1.0 + v / 100.0
  }

  /** `parse_percentage`: strip, drop one trailing '%' (refusing a string that
      then holds more than one '%'), read the rest as a decimal `v` and return
      `1 + v / 100`. */
  function ParsePercentage(s: string): (r: Result<real, ParseError>)
    ensures r.Err? ==> r.error == InvalidPercentageFormat(s)
  {
    var clean := Trim(s);
    if |clean| > 0 && clean[|clean| - 1] == '%' then
      if Count(clean, '%') != 1 then Err(InvalidPercentageFormat(s))
      else ToMultiplier(s, clean[..|clean| - 1])
    else
      ToMultiplier(s, clean)
  }

  function ToMultiplier(s: string, body: string): (r: Result<real, ParseError>)
    ensures r.Err? ==> r.error == InvalidPercentageFormat(s)
  {
    match ParseDecimal(body)
    case None => Err(InvalidPercentageFormat(s))
    case Some(v) => Ok(Multiplier(v))
  }

  /** The numeral `-?whole(.frac)?` that the help text documents. */
  function Numeral(negative: bool, whole: string, frac: string): string
  {
    (if negative then "-" else "") + whole + (if frac == [] then "" else "." + frac)
  }

  function NumeralValue(negative: bool, whole: string, frac: string): real
    requires AllDigits(whole) && AllDigits(frac)
  {
    if negative then -DecimalValue(whole, frac) else DecimalValue(whole, frac)
  }

  /** A documented numeral, padded with whitespace and with or without one
      trailing '%', is accepted and gives exactly `1 + v / 100`. */
  lemma ParseNumeral(negative: bool, whole: string, frac: string, pre: string, post: string)
    requires whole != [] && AllDigits(whole) && AllDigits(frac)
    requires AllSpace(pre) && AllSpace(post)
    ensures var n := Numeral(negative, whole, frac);
      ParsePercentage(pre + n + post) == Ok(Multiplier(NumeralValue(negative, whole, frac)))
    ensures var n := Numeral(negative, whole, frac);
      ParsePercentage(pre + n + "%" + post) == Ok(Multiplier(NumeralValue(negative, whole, frac)))
  {
    NumeralReadable(negative, whole, frac);
    ParseBody(pre, Numeral(negative, whole, frac), post, NumeralValue(negative, whole, frac));
  }

  /** What `ParseBody` needs of a documented numeral. */
  lemma NumeralReadable(negative: bool, whole: string, frac: string)
    requires whole != [] && AllDigits(whole) && AllDigits(frac)
    ensures Readable(Numeral(negative, whole, frac), NumeralValue(negative, whole, frac))
  {
    NumeralShape(negative, whole, frac);
    ParseDecimalNumeral(negative, whole, frac);
  }

  /** `n` is a body free of '%' that neither starts nor ends with whitespace
      and that `float()` reads as `v`. */
  predicate Readable(n: string, v: real)
  {
    n != [] && !IsSpace(n[0]) && !IsSpace(n[|n| - 1]) && '%' !in n && ParseDecimal(n) == Some(v)
  }

  /** A body that `float()` reads as `v`, padded with whitespace and with or
      without one '%' after it, gives `1 + v / 100`. */
  lemma ParseBody(pre: string, n: string, post: string, v: real)
    requires AllSpace(pre) && AllSpace(post)
    requires Readable(n, v)
    ensures ParsePercentage(pre + n + post) == Ok(Multiplier(v))
    ensures ParsePercentage(pre + n + "%" + post) == Ok(Multiplier(v))
  {
    PlainForm(pre, n, post);
    PercentForm(pre, n, post);
    ToMultiplierOk(pre + n + post, n, v);
    ToMultiplierOk(pre + n + "%" + post, n, v);
  }

  /** A body read as `v` gives the multiplier `1 + v / 100`. */
  lemma ToMultiplierOk(s: string, body: string, v: real)
    requires ParseDecimal(body) == Some(v)
    ensures ToMultiplier(s, body) == Ok(Multiplier(v))
  {
  }

  /** Padding around a body that does not end in '%' is stripped, and the
      body is read as the number. */
  lemma PlainForm(pre: string, n: string, post: string)
    requires AllSpace(pre) && AllSpace(post)
    requires n != [] && !IsSpace(n[0]) && !IsSpace(n[|n| - 1]) && n[|n| - 1] != '%'
    ensures ParsePercentage(pre + n + post) == ToMultiplier(pre + n + post, n)
  {
    TrimPadded(pre, n, post);
  }

  /** Padding around a body followed by one '%' is stripped, the '%' dropped,
      and the body is read as the number. */
  lemma PercentForm(pre: string, n: string, post: string)
    requires AllSpace(pre) && AllSpace(post)
    requires n != [] && !IsSpace(n[0]) && '%' !in n
    ensures ParsePercentage(pre + n + "%" + post) == ToMultiplier(pre + n + "%" + post, n)
  {
    var p := n + "%";
    assert pre + n + "%" + post == pre + p + post;
    TrimPadded(pre, p, post);
    PercentCount(n);
    assert p[..|p| - 1] == n;
  }

  /** Appending one '%' to a text without one gives exactly one. */
  lemma PercentCount(n: string)
    requires '%' !in n
    ensures Count(n + "%", '%') == 1
  {
    CountConcat(n, "%", '%');
    CountPositive(n, '%');
  }

  /** The numeral starts and ends with a non-space, holds no '%', and its
      last character is a digit. */
  lemma NumeralShape(negative: bool, whole: string, frac: string)
    requires whole != [] && AllDigits(whole) && AllDigits(frac)
    ensures var n := Numeral(negative, whole, frac);
      && n != [] && !IsSpace(n[0]) && IsDigit(n[|n| - 1]) && '%' !in n
      && (if negative then n[0] == '-' else IsDigit(n[0]))
      && NoSeparator(n)
  {
    var n := Numeral(negative, whole, frac);
    assert forall i :: 0 <= i < |n| ==> IsDigit(n[i]) || n[i] == '-' || n[i] == '.';
  }

  lemma ParseDecimalNumeral(negative: bool, whole: string, frac: string)
    requires whole != [] && AllDigits(whole) && AllDigits(frac)
    ensures ParseDecimal(Numeral(negative, whole, frac)) == Some(NumeralValue(negative, whole, frac))
  {
    var n := Numeral(negative, whole, frac);
    var body := whole + (if frac == [] then "" else "." + frac);
    NumeralStripped(negative, whole, frac);
    NumeralBody(negative, whole, frac);
    ParseUnsignedNumeral(whole, frac);
    NumeralShape(negative, whole, frac);
    if negative {
      ParseDecimalNegative(n, body, DecimalValue(whole, frac));
    } else {
      ParseDecimalUnsigned(n, DecimalValue(whole, frac));
    }
  }

  lemma NumeralStripped(negative: bool, whole: string, frac: string)
    requires whole != [] && AllDigits(whole) && AllDigits(frac)
    ensures FloatTrim(Numeral(negative, whole, frac)) == Numeral(negative, whole, frac)
  {
    var n := Numeral(negative, whole, frac);
    NumeralShape(negative, whole, frac);
    TrimPadded([], n, []);
    assert [] + n + [] == n;
    FloatTrimAgrees(n);
  }

  lemma NumeralBody(negative: bool, whole: string, frac: string)
    ensures var n := Numeral(negative, whole, frac);
      var body := whole + (if frac == [] then "" else "." + frac);
      (negative ==> |n| > 0 && n[1..] == body) && (!negative ==> n == body)
  {
  }

  /** On stripped text starting with '-', `float()` negates the unsigned reading of the rest. */
  lemma ParseDecimalNegative(n: string, body: string, v: real)
    requires FloatTrim(n) == n && n != [] && n[0] == '-' && n[1..] == body
    requires ParseUnsigned(body) == Some(v)
    ensures ParseDecimal(n) == Some(-v)
  {
  }

  /** On stripped text starting with a digit, `float()` is the unsigned reading. */
  lemma ParseDecimalUnsigned(n: string, v: real)
    requires FloatTrim(n) == n && n != [] && IsDigit(n[0])
    requires ParseUnsigned(n) == Some(v)
    ensures ParseDecimal(n) == Some(v)
  {
  }

  lemma ParseUnsignedNumeral(whole: string, frac: string)
    requires whole != [] && AllDigits(whole) && AllDigits(frac)
    ensures ParseUnsigned(whole + (if frac == [] then "" else "." + frac)) == Some(DecimalValue(whole, frac))
  {
    assert '.' !in whole by {
      assert forall i :: 0 <= i < |whole| ==> IsDigit(whole[i]);
    }
    if frac == [] {
      ParseUnsignedWhole(whole);
    } else {
      ParseUnsignedFraction(whole, frac);
    }
  }

  lemma ParseUnsignedWhole(whole: string)
    requires whole != [] && AllDigits(whole) && '.' !in whole
    ensures ParseUnsigned(whole + "") == Some(DecimalValue(whole, ""))
  {
    IndexOfAbsent(whole, '.');
    assert whole + "" == whole && whole[..|whole|] == whole;
  }

  lemma ParseUnsignedFraction(whole: string, frac: string)
    requires whole != [] && AllDigits(whole) && AllDigits(frac) && '.' !in whole && frac != []
    ensures ParseUnsigned(whole + ("." + frac)) == Some(DecimalValue(whole, frac))
  {
    var u := whole + ("." + frac);
    IndexOfAfter(whole, frac);
    assert u[..|whole|] == whole && u[|whole| + 1..] == frac;
  }

  /** The first '.' after a dot-free prefix is the one that follows it. */
  lemma IndexOfAfter(whole: string, frac: string)
    requires '.' !in whole
    ensures IndexOf(whole + ("." + frac), '.') == |whole|
  {
    var u := whole + ("." + frac);
    assert u[|whole|] == '.';
    assert u[..|whole|] == whole;
  }

  lemma {:induction false} IndexOfAbsent(s: string, c: char)
    requires c !in s
    ensures IndexOf(s, c) == |s|
  {
    if s != [] {
      IndexOfAbsent(s[1..], c);
    }
  }

  /** A character that is neither whitespace, a digit, a sign nor the decimal
      point never occurs in text that `float()` accepts. */
  lemma ParseDecimalExcludes(t: string, c: char)
    requires ParseDecimal(t).Some?
    requires !IsSpace(c) && !IsDigit(c) && c != '+' && c != '-' && c != '.'
    ensures c !in t
  {
    var u := Trim(t);
    ReadableHasNoSeparator(t);
    ParseDecimalNoSeparator(t);
    TrimKeepsCount(t, c);
    CountPositive(t, c);
    CountPositive(u, c);
    if |u| > 0 && (u[0] == '+' || u[0] == '-') {
      assert ParseUnsigned(u[1..]).Some?;
      ParseUnsignedExcludes(u[1..], c);
      assert u == [u[0]] + u[1..];
    } else {
      ParseUnsignedExcludes(u, c);
    }
  }

  lemma ParseUnsignedExcludes(w: string, c: char)
    requires ParseUnsigned(w).Some?
    requires !IsDigit(c) && c != '.'
    ensures c !in w
  {
    var k := IndexOf(w, '.');
    var whole := w[..k];
    var frac := if k < |w| then w[k + 1..] else [];
    assert AllDigits(whole) && AllDigits(frac);
    assert c !in whole;
    assert c !in frac;
    if k < |w| {
      assert w == whole + [w[k]] + frac;
    } else {
      assert w == whole;
    }
  }

  /** A '%' is accepted only once, and only as the last non-space character:
      "6%%", "6%5" and "%6" are refused. */
  lemma PercentOnlyAsSuffix(s: string)
    ensures Count(s, '%') > 1 ==> ParsePercentage(s).Err?
    ensures Count(s, '%') == 1 && ParsePercentage(s).Ok? ==>
      var clean := Trim(s); |clean| > 0 && clean[|clean| - 1] == '%'
  {
    var clean := Trim(s);
    TrimKeepsCount(s, '%');
    CountPositive(clean, '%');
    if !(|clean| > 0 && clean[|clean| - 1] == '%') && ParseDecimal(clean).Some? {
      ParseDecimalExcludes(clean, '%');
    }
  }

  /** Any character that cannot appear in a percentage ("abc") makes the
      expression invalid. */
  lemma ForeignCharRejected(s: string, c: char)
    requires c in s
    requires !IsSpace(c) && !IsDigit(c) && c != '+' && c != '-' && c != '.' && c != '%'
    ensures ParsePercentage(s).Err?
  {
    var clean := Trim(s);
    CountPositive(s, c);
    TrimKeepsCount(s, c);
    CountPositive(clean, c);
    if |clean| > 0 && clean[|clean| - 1] == '%' {
      var body := clean[..|clean| - 1];
      assert clean == body + "%";
      assert c in body;
      if ParseDecimal(body).Some? {
        ParseDecimalExcludes(body, c);
      }
    } else if ParseDecimal(clean).Some? {
      ParseDecimalExcludes(clean, c);
    }
  }

  /** The trailing '%' is optional: "6" and "6%" mean the same, with any
      surrounding whitespace other than the separators U+001C..U+001F
      (`SeparatorBeforePercent` shows why those are excluded). */
  lemma PercentSignOptional(s: string)
    requires '%' !in s && NoSeparator(s)
    ensures ParsePercentage(s + "%").Ok? <==> ParsePercentage(s).Ok?
    ensures ParsePercentage(s).Ok? ==> ParsePercentage(s + "%").value == ParsePercentage(s).value
  {
    WithPercentSign(s);
    WithoutPercentSign(s);
    // `float()` strips again, so both paths read `Trim(s)`.
    TrimLeftTwice(s);
    TrimmedNoSeparator(s);
    ParseDecimalReadsStripped(TrimLeft(s), Trim(s));
  }

  /** With a '%' appended, the number read is the left-stripped input. */
  lemma WithPercentSign(s: string)
    requires '%' !in s
    ensures ParsePercentage(s + "%") == ToMultiplier(s + "%", TrimLeft(s))
  {
    var l := TrimLeft(s);
    TrimLeftShape(s);
    var pre := s[..|s| - |l|];
    assert s == pre + l;
    if l == [] {
      assert s + "%" == pre + "%";
      PercentAlone(pre);
    } else {
      assert '%' !in l by {
        assert forall i :: 0 <= i < |l| ==> l[i] == s[|s| - |l| + i];
      }
      assert s + "%" == pre + l + "%" + [];
      PercentForm(pre, l, []);
    }
  }

  /** A '%' after nothing but whitespace leaves an empty number to read. */
  lemma PercentAlone(pre: string)
    requires AllSpace(pre)
    ensures ParsePercentage(pre + "%") == ToMultiplier(pre + "%", [])
  {
    TrimPadded(pre, "%", []);
    assert pre + "%" + [] == pre + "%";
    assert Count("%", '%') == 1;
  }

  /** Without a '%', the number read is the stripped input. */
  lemma WithoutPercentSign(s: string)
    requires '%' !in s
    ensures ParsePercentage(s) == ToMultiplier(s, Trim(s))
  {
    TrimKeepsCount(s, '%');
    CountPositive(Trim(s), '%');
    CountPositive(s, '%');
  }

  /** `float()` strips first, so on text free of separators it only sees
      the stripped text. */
  lemma ParseDecimalReadsStripped(a: string, b: string)
    requires NoSeparator(a) && NoSeparator(b)
    requires Trim(a) == Trim(b)
    ensures ParseDecimal(a) == ParseDecimal(b)
  {
    ParseDecimalNoSeparator(a);
    ParseDecimalNoSeparator(b);
  }

  /** Stripping only removes characters, so it adds no separator. */
  lemma TrimmedNoSeparator(s: string)
    requires NoSeparator(s)
    ensures NoSeparator(TrimLeft(s)) && NoSeparator(Trim(s))
  {
    var l := TrimLeft(s);
    TrimLeftShape(s);
    assert forall i :: 0 <= i < |l| ==> l[i] == s[|s| - |l| + i];
    TrimRightShape(l);
    var t := Trim(s);
    assert forall i :: 0 <= i < |t| ==> t[i] == l[i];
  }

  /** Stripping the left-stripped string is the same as stripping the
      original, and stripping is idempotent. */
  lemma TrimLeftTwice(s: string)
    ensures Trim(TrimLeft(s)) == Trim(s)
    ensures Trim(Trim(s)) == Trim(s)
  {
    var l := TrimLeft(s);
    TrimLeftShape(s);
    TrimFixedLeft(l);
    var t := Trim(s);
    TrimRightShape(l);
    if t != [] {
      assert t[0] == l[0];
    }
    TrimFixed(t);
  }

  lemma TrimFixedLeft(l: string)
    requires l == [] || !IsSpace(l[0])
    ensures TrimLeft(l) == l
  {
  }

  /** "6" and "6%" both mean a 6% increase. */
  lemma ExampleIncrease()
    ensures ParsePercentage("6") == Ok(1.06)
    ensures ParsePercentage("6%") == Ok(1.06)
  {
    Six(false);
    ParseNumeral(false, "6", "", "", "");
  }

  /** "-6%" is a 6% decrease. */
  lemma ExampleDecrease()
    ensures ParsePercentage("-6%") == Ok(0.94)
  {
    Six(true);
    ParseNumeral(true, "6", "", "", "");
  }

  /** "6" and "-6" are the documented numerals for 6 and -6, bare or followed by '%'. */
  lemma Six(negative: bool)
    ensures "" + Numeral(negative, "6", "") + "" == if negative then "-6" else "6"
    ensures "" + Numeral(negative, "6", "") + "%" + "" == if negative then "-6%" else "6%"
    ensures NumeralValue(negative, "6", "") == if negative then -6.0 else 6.0
  {
    assert DigitsValue("6") == 6;
  }

  /** "-1.5%" and "-1.5" are a 1.5% decrease. */
  lemma ExampleFractional()
    ensures ParsePercentage("-1.5%") == Ok(0.985)
    ensures ParsePercentage("-1.5") == Ok(0.985)
  {
    MinusOneAndAHalf();
    ParseNumeral(true, "1", "5", "", "");
  }

  /** "-1.5" is the documented numeral for -1.5, bare or followed by '%'. */
  lemma MinusOneAndAHalf()
    ensures "" + Numeral(true, "1", "5") + "" == "-1.5"
    ensures "" + Numeral(true, "1", "5") + "%" + "" == "-1.5%"
    ensures NumeralValue(true, "1", "5") == -1.5
  {
    assert DigitsValue("1") == 1 && DigitsValue("5") == 5 && Pow10(1) == 10;
  }

  /** "6%%" and "abc" are invalid. */
  lemma ExampleInvalid()
    ensures ParsePercentage("6%%").Err?
    ensures ParsePercentage("abc").Err?
  {
    PercentOnlyAsSuffix("6%%");
    assert Count("6%%", '%') == 2;
    ForeignCharRejected("abc", 'a');
  }

  /** A separator U+001C..U+001F between the number and the '%': `strip()`
      removes it from "5\u001c", which reads as 5%, but keeps it inside
      "5\u001c%", whose number part `float()` then refuses. */
  lemma SeparatorBeforePercent()
    ensures ParsePercentage("5\U{001C}") == Ok(1.05)
    ensures ParsePercentage("5\U{001C}%") == Err(InvalidPercentageFormat("5\U{001C}%"))
  {
    FiveAndASeparator();
    ParseNumeral(false, "5", "", "", "\U{001C}");
    var s := "5\U{001C}%";
    TrimPadded("", s, "");
    assert "" + s + "" == s;
    PercentCount("5\U{001C}");
    assert s[..|s| - 1] == "5\U{001C}";
    ParseDecimalSeparator("5\U{001C}", '\U{001C}');
  }

  /** "5" is the documented numeral for 5, here followed by a separator. */
  lemma FiveAndASeparator()
    ensures "" + Numeral(false, "5", "") + "\U{001C}" == "5\U{001C}"
    ensures NumeralValue(false, "5", "") == 5.0
    ensures AllSpace("\U{001C}")
  {
    assert DigitsValue("5") == 5;
  }
}
