/** The field normalisers: scraped text such as "85 m²", "264,9 M Ft" or
    "199 000 000 Ft" turned into numbers for the `_clean` columns. */
module Normalizer {
  import opened Common
  import opened Decimal

  /** `str(value)` */
  function StrOf(v: Val): string
  {
    match v
    case Null => "None"
    case Bool(b) => if b then "True" else "False"
    case Int(i) => IntToString(i)
    case Str(s) => s
  }

  /** The characters the pattern `[\d,\.]` keeps. */
  predicate NumberChar(c: char)
  {
    IsDigit(c) || c == ',' || c == '.'
  }

  /** `re.sub(r"[^\d,\.]", "", s)`: every other character deleted, the rest kept
      in order. */
  function KeepNumberChars(s: string): (r: string)
    ensures |r| <= |s|
    ensures forall i | 0 <= i < |r| :: NumberChar(r[i])
    ensures forall c :: c in r <==> c in s && NumberChar(c)
  {
    if |s| == 0 then ""
    else
      var rest := KeepNumberChars(s[1..]);
      assert forall c :: c in s <==> c == s[0] || c in s[1..];
      if NumberChar(s[0]) then [s[0]] + rest else rest
  }

  /** A string of number characters is its own filtered form. */
  lemma {:induction false} KeepNumberCharsIdempotent(s: string)
    requires forall i | 0 <= i < |s| :: NumberChar(s[i])
    ensures KeepNumberChars(s) == s
    decreases |s|
  {
    if |s| > 0 {
      KeepNumberCharsIdempotent(s[1..]);
      assert [s[0]] + s[1..] == s;
    }
  }

  /** Deleting a character the filter drops anyway changes nothing. */
  lemma {:induction false} KeepIgnoresDeleted(s: string, c: char)
    requires !NumberChar(c)
    ensures KeepNumberChars(ReplaceAll(s, [c], "")) == KeepNumberChars(s)
    decreases |s|
  {
    if |s| > 0 {
      var t := s[1..];
      var rt := ReplaceAll(t, [c], "");
      KeepIgnoresDeleted(t, c);
      if s[0] == c {
        assert s[..1] == [c];
        assert ReplaceAll(s, [c], "") == rt;
      } else {
        assert s[..1] != [c];
        var r := [s[0]] + rt;
        assert ReplaceAll(s, [c], "") == r;
        assert r[1..] == rt && r[0] == s[0];
      }
    }
  }


  /** normalizer.py:13-17, in `to_number`: a lone comma without a dot becomes the
      decimal point; then spaces and no-break spaces are deleted and every comma
      becomes a dot. */
  function Separators(k: string): string
  {
    var t := if CountChar(k, ',') == 1 && CountChar(k, '.') == 0 then ReplaceAll(k, [','], ['.']) else k;
    ReplaceAll(ReplaceAll(ReplaceAll(t, [' '], ""), [Nbsp], ""), [','], ['.'])
  }

  /** `to_number(value)`; `None` also stands for the `ValueError` of `float`. */
  function ToNumber(v: Val): (r: Option<real>)
    ensures !Truthy(v) ==> r.None?
  {
    if !Truthy(v) then None
    else PyFloat(Separators(KeepNumberChars(StrOf(v))))
  }

  /** Number of commas and dots. */
  function SeparatorCount(s: string): nat
  {
    CountChar(s, ',') + CountChar(s, '.')
  }

  function CommaToDot(s: string): string
  {
    ReplaceAll(s, [','], ['.'])
  }

  lemma {:induction false} CommaToDotCounts(s: string)
    ensures CountChar(CommaToDot(s), '.') == SeparatorCount(s)
    ensures CountChar(CommaToDot(s), ',') == 0
    ensures HasDigit(CommaToDot(s)) <==> HasDigit(s)
    decreases |s|
  {
    ReplaceCharPointwise(s, ',', '.');
    if |s| > 0 {
      CommaToDotCounts(s[1..]);
      var t := CommaToDot(s);
      var u := CommaToDot(s[1..]);
      if s[..1] == [','] {
        assert t == ['.'] + u;
      } else {
        assert t == [s[0]] + u;
      }
      assert t[1..] == u;
      HasDigitCons(s);
      HasDigitCons(t);
    }
  }

  lemma HasDigitCons(s: string)
    requires |s| > 0
    ensures HasDigit(s) <==> IsDigit(s[0]) || HasDigit(s[1..])
  {
    if HasDigit(s) {
      var i :| 0 <= i < |s| && IsDigit(s[i]);
      if i > 0 { assert IsDigit(s[1..][i - 1]); }
    }
    if HasDigit(s[1..]) {
      var i :| 0 <= i < |s[1..]| && IsDigit(s[1..][i]);
      assert IsDigit(s[i + 1]);
    }
  }

  /** The special case for a decimal comma changes nothing: the separators of a
      filtered string always come out as every comma turned into a dot. */
  lemma SeparatorsAreCommaToDot(k: string)
    requires forall i | 0 <= i < |k| :: NumberChar(k[i])
    ensures Separators(k) == CommaToDot(k)
  {
    ReplaceAbsent(k, [' '], "");
    ReplaceAbsent(k, [Nbsp], "");
    if CountChar(k, ',') == 1 && CountChar(k, '.') == 0 {
      var t := CommaToDot(k);
      CommaToDotCounts(k);
      ReplaceCharPointwise(k, ',', '.');
      ReplaceAbsent(t, [' '], "");
      ReplaceAbsent(t, [Nbsp], "");
      ReplaceAbsent(t, [','], ['.']);
    }
  }

  /** `float` on a string of digits and dots is the unsigned decimal parse. */
  lemma PyFloatOfDigitsAndDots(t: string)
    requires OnlyDigitsAndDots(t)
    ensures PyFloat(t) == ParseUnsigned(t)
  {
    assert Strip(t) == t;
  }

  /** What `to_number` computes: the kept characters with every comma read as a
      dot, parsed as an unsigned decimal. */
  lemma ToNumberSpec(v: Val)
    requires Truthy(v)
    ensures ToNumber(v) == ParseUnsigned(CommaToDot(KeepNumberChars(StrOf(v))))
  {
    var k := KeepNumberChars(StrOf(v));
    SeparatorsAreCommaToDot(k);
    ReplaceCharPointwise(k, ',', '.');
    PyFloatOfDigitsAndDots(CommaToDot(k));
  }

  /** A truthy value converts exactly when its kept characters hold a digit and at
      most one separator, comma or dot. */
  lemma ToNumberAccepts(v: Val)
    requires Truthy(v)
    ensures var k := KeepNumberChars(StrOf(v));
            ToNumber(v).Some? <==> HasDigit(k) && SeparatorCount(k) <= 1
  {
    var k := KeepNumberChars(StrOf(v));
    ToNumberSpec(v);
    CommaToDotCounts(k);
    ReplaceCharPointwise(k, ',', '.');
    ParseUnsignedAccepts(CommaToDot(k));
  }

  /** Falsy values are not numbers, and a conversion is never negative. */
  lemma ToNumberRange(v: Val)
    ensures !Truthy(v) ==> ToNumber(v).None?
    ensures ToNumber(v).Some? ==> ToNumber(v).value >= 0.0
  {
    if Truthy(v) {
      ToNumberSpec(v);
    }
  }

  /** A written natural number reads back as itself. */
  lemma ToNumberRoundTrip(n: nat)
    ensures ToNumber(Str(NatToString(n))) == Some(n as real)
  {
    var d := NatToString(n);
    KeepNumberCharsIdempotent(d);
    assert KeepNumberChars(StrOf(Str(d))) == d;
    ToNumberSpec(Str(d));
    ReplaceAbsent(d, [','], ['.']);
    assert CommaToDot(d) == d;
    ParseNatToString(n);
  }

  lemma {:induction false} KeepNumberCharsConcat(a: string, b: string)
    ensures KeepNumberChars(a + b) == KeepNumberChars(a) + KeepNumberChars(b)
    decreases |a|
  {
    if |a| == 0 {
      assert a + b == b;
    } else {
      assert (a + b)[1..] == a[1..] + b;
      KeepNumberCharsConcat(a[1..], b);
    }
  }

  predicate NumberChars(s: string)
  {
    forall i | 0 <= i < |s| :: NumberChar(s[i])
  }

  lemma NumberCharsConcat(a: string, b: string)
    requires NumberChars(a) && NumberChars(b)
    ensures NumberChars(a + b)
  {
    forall i | 0 <= i < |a + b|
      ensures NumberChar((a + b)[i])
    {
      if i >= |a| {
        assert (a + b)[i] == b[i - |a|];
      }
    }
  }

  /** A comma between two digit strings becomes a dot. */
  lemma CommaDecimal(a: string, b: string)
    requires AllDigits(a) && AllDigits(b)
    ensures CommaToDot(a + "," + b) == a + "." + b
  {
    ReplaceCharConcat(a + [','], b, ',', ['.']);
    ReplaceCharConcat(a, [','], ',', ['.']);
    ReplaceAbsent(a, [','], ['.']);
    ReplaceAbsent(b, [','], ['.']);
    assert ReplaceAll([','], [','], ['.']) == ['.'];
  }

  /** Digits, a comma and digits: the comma is read as the decimal point. */
  lemma ToNumberDecimalComma(a: string, b: string)
    requires |a| >= 1 && AllDigits(a) && AllDigits(b)
    ensures ToNumber(Str(a + "," + b)) == Some(DecimalValue(a, b))
  {
    var s := a + [','] + b;
    assert KeepNumberChars(StrOf(Str(s))) == s by {
      NumberCharsConcat(a, [',']);
      NumberCharsConcat(a + [','], b);
      KeepNumberCharsIdempotent(s);
    }
    ToNumberSpec(Str(s));
    CommaDecimal(a, b);
    ParseUnsignedDecimal(a, b);
  }

  /** Digits in groups separated by two commas are not a number: the second
      separator makes the parse fail. */
  lemma ToNumberThousandsCommas(a: string, b: string, c: string)
    requires |a| >= 1 && AllDigits(a) && AllDigits(b) && AllDigits(c)
    ensures ToNumber(Str(a + "," + b + "," + c)).None?
  {
    var s := a + [','] + b + [','] + c;
    NumberCharsConcat(a, [',']);
    NumberCharsConcat(a + [','], b);
    NumberCharsConcat(a + [','] + b, [',']);
    NumberCharsConcat(a + [','] + b + [','], c);
    KeepNumberCharsIdempotent(s);
    ToNumberAccepts(Str(s));
    CountCharConcat(a + [','] + b + [','], c, ',');
    CountCharConcat(a + [','] + b, [','], ',');
    CountCharConcat(a + [','], b, ',');
    CountCharConcat(a, [','], ',');
    assert CountChar(s, ',') >= 2;
  }

  lemma {:induction false} KeepNumberCharsNone(u: string)
    requires forall i | 0 <= i < |u| :: !NumberChar(u[i])
    ensures KeepNumberChars(u) == ""
    decreases |u|
  {
    if |u| > 0 {
      KeepNumberCharsNone(u[1..]);
    }
  }

  /** A unit after the number, such as " m²", is dropped with the other
      non-number characters (the superscript two is not a decimal digit). */
  lemma ToNumberWithUnit(d: string, u: string)
    requires |d| >= 1 && AllDigits(d)
    requires forall i | 0 <= i < |u| :: !NumberChar(u[i])
    ensures ToNumber(Str(d + u)) == Some(DigitsValue(d) as real)
  {
    KeepNumberCharsNone(u);
    KeepNumberCharsConcat(d, u);
    KeepNumberCharsIdempotent(d);
    assert d + "" == d;
    assert KeepNumberChars(StrOf(Str(d + u))) == d;
    ToNumberSpec(Str(d + u));
    ReplaceAbsent(d, [','], ['.']);
    assert CommaToDot(d) == d;
    ParseUnsignedDigits(d);
  }

  // ---------------------------------------------------------------------------
  // Prices
  // ---------------------------------------------------------------------------

  /** The clean-up of `parse_price`: no-break spaces, spaces, "Ft", "HUF" and "€"
      deleted, in that order, each in one left-to-right pass. */
  function CleanPrice(s: string): string
  {
    ReplaceAll(ReplaceAll(ReplaceAll(ReplaceAll(ReplaceAll(s, [Nbsp], ""), [' '], ""), "Ft", ""), "HUF", ""), "€", "")
  }

  /** Number of leading characters of `s` in the class `[\d.,]`. */
  function NumberRun(s: string): (n: nat)
    ensures n <= |s|
    ensures forall i | 0 <= i < n :: NumberChar(s[i])
    ensures n < |s| ==> !NumberChar(s[n])
  {
    if |s| == 0 || !NumberChar(s[0]) then 0 else 1 + NumberRun(s[1..])
  }

  /** `re.match(r"([\d.,]+)M", s).group(1)`: the greedy run may only give back
      characters of the class, none of which is 'M', so a match exists exactly
      when the whole leading run is non-empty and followed by 'M'. */
  function MillionsPrefix(s: string): (r: Option<string>)
    ensures r.Some? ==> |r.value| >= 1 && |r.value| < |s| && s[..|r.value|] == r.value && s[|r.value|] == 'M'
    ensures r.Some? ==> forall i | 0 <= i < |r.value| :: NumberChar(r.value[i])
  {
    var n := NumberRun(s);
    if n >= 1 && n < |s| && s[n] == 'M' then Some(s[..n]) else None
  }

  /** `parse_price(price_str)`; `None` also stands for the `ValueError` of `float`. */
  function ParsePrice(v: Val): (r: Option<real>)
    ensures !Truthy(v) ==> r.None?
  {
    if !Truthy(v) then None else ParseCleanPrice(CleanPrice(StrOf(v)))
  }

  /** normalizer.py:38-50, in `parse_price`, on the cleaned text: a millions match is
      scaled, anything else is read as a plain number. */
  function ParseCleanPrice(cleaned: string): Option<real>
  {
    var m := MillionsPrefix(cleaned);
    match PyFloat(CommaToDot(if m.Some? then m.value else cleaned))
    case Some(x) => Some(if m.Some? then x * 1000000.0 else x)
    case None => None
  }

  /** The clean-up leaves no space, no no-break space and no euro sign behind. */
  lemma CleanPriceRemoves(s: string)
    ensures ' ' !in CleanPrice(s) && Nbsp !in CleanPrice(s) && '€' !in CleanPrice(s)
  {
    var a := ReplaceAll(s, [Nbsp], "");
    var b := ReplaceAll(a, [' '], "");
    var c := ReplaceAll(b, "Ft", "");
    var d := ReplaceAll(c, "HUF", "");
    DeleteCharKeepsOthers(s, Nbsp);
    DeleteCharKeepsOthers(a, ' ');
    DeletePatternKeepsAbsent(b, "Ft", ' ');
    DeletePatternKeepsAbsent(b, "Ft", Nbsp);
    DeletePatternKeepsAbsent(c, "HUF", ' ');
    DeletePatternKeepsAbsent(c, "HUF", Nbsp);
    DeleteCharKeepsOthers(d, '€');
    assert "€" == ['€'];
  }

  /** Deleting a pattern never brings in a character that was absent. */
  lemma {:induction false} DeletePatternKeepsAbsent(s: string, pat: string, c: char)
    requires |pat| > 0 && c !in s
    ensures c !in ReplaceAll(s, pat, "")
    decreases |s|
  {
    if |pat| <= |s| && s[..|pat|] == pat {
      DeletePatternKeepsAbsent(s[|pat|..], pat, c);
    } else if |s| > 0 {
      DeletePatternKeepsAbsent(s[1..], pat, c);
    }
  }

  /** A price in millions is never negative, and an unparsable millions prefix
      gives no price at all, whatever follows the 'M'. */
  lemma ParsePriceMillions(v: Val)
    requires Truthy(v) && MillionsPrefix(CleanPrice(StrOf(v))).Some?
    ensures var g := MillionsPrefix(CleanPrice(StrOf(v))).value;
            ParsePrice(v).Some? <==> ParseUnsigned(CommaToDot(g)).Some?
    ensures ParsePrice(v).Some? ==> ParsePrice(v).value >= 0.0
  {
    var g := MillionsPrefix(CleanPrice(StrOf(v))).value;
    ParsePriceViaMillions(v, g);
    NumberCharsFloat(g);
  }

  /** On digits, dots and commas, `float` after the comma replacement is the
      unsigned parse. */
  lemma NumberCharsFloat(g: string)
    requires NumberChars(g)
    ensures PyFloat(CommaToDot(g)) == ParseUnsigned(CommaToDot(g))
  {
    ReplaceCharPointwise(g, ',', '.');
    PyFloatOfDigitsAndDots(CommaToDot(g));
  }

  /** The clean-up of a digit string followed by " Ft" leaves the digits. */
  lemma CleanForints(d: string)
    requires AllDigits(d)
    ensures CleanPrice(d + " Ft") == d
  {
    ForintSpaces(d);
    ForintUnit(d);
  }

  lemma ForintSpaces(d: string)
    requires AllDigits(d)
    ensures ReplaceAll(ReplaceAll(d + " Ft", [Nbsp], ""), [' '], "") == d + "Ft"
  {
    var s := d + " Ft";
    assert Nbsp !in s;
    ReplaceAbsent(s, [Nbsp], "");
    ReplaceCharConcat(d, " Ft", ' ', "");
    ReplaceAbsent(d, [' '], "");
    assert ReplaceAll(" Ft", [' '], "") == "Ft";
  }

  lemma ForintUnit(d: string)
    requires AllDigits(d)
    ensures ReplaceAll(ReplaceAll(ReplaceAll(d + "Ft", "Ft", ""), "HUF", ""), "€", "") == d
  {
    ReplaceSkipsPrefix(d, "Ft", "Ft", "");
    assert ReplaceAll("Ft", "Ft", "") == "";
    assert ReplaceAll(d + "Ft", "Ft", "") == d;
    ReplaceAbsent(d, "HUF", "");
    ReplaceAbsent(d, "€", "");
  }

  /** A price whose clean-up leaves only digits parses as their value. */
  lemma ParsePriceDigits(v: Val, d: string)
    requires Truthy(v) && CleanPrice(StrOf(v)) == d && |d| >= 1 && AllDigits(d)
    ensures ParsePrice(v) == Some(DigitsValue(d) as real)
  {
    ParsePriceIsClean(v);
    CleanDigits(d);
  }

  lemma CleanDigits(d: string)
    requires |d| >= 1 && AllDigits(d)
    ensures ParseCleanPrice(d) == Some(DigitsValue(d) as real)
  {
    NumberRunAll(d);
    assert MillionsPrefix(d).None?;
    DigitsFloat(d);
  }

  /** `float` of a digit string, after the comma replacement, is its value. */
  lemma DigitsFloat(d: string)
    requires |d| >= 1 && AllDigits(d)
    ensures PyFloat(CommaToDot(d)) == Some(DigitsValue(d) as real)
  {
    ReplaceAbsent(d, [','], ['.']);
    PyFloatOfDigitsAndDots(d);
    ParseUnsignedDigits(d);
  }

  /** A whole forint amount written with " Ft" reads back as itself. */
  lemma ParsePriceForints(n: nat)
    ensures ParsePrice(Str(NatToString(n) + " Ft")) == Some(n as real)
  {
    var d := NatToString(n);
    CleanForints(d);
    ParsePriceDigits(Str(d + " Ft"), d);
    NatToStringRoundTrip(n);
  }

  /** A digit string followed by 'M' is left alone by the clean-up and matched as
      a millions prefix. */
  lemma CleanMillions(d: string)
    requires |d| >= 1 && AllDigits(d)
    ensures CleanPrice(d + "M") == d + "M"
    ensures MillionsPrefix(d + "M") == Some(d)
  {
    var s := d + "M";
    ReplaceAbsent(s, [Nbsp], "");
    ReplaceAbsent(s, [' '], "");
    ReplaceAbsent(s, "Ft", "");
    ReplaceAbsent(s, "HUF", "");
    ReplaceAbsent(s, "€", "");
    NumberRunStops(d, "M");
    assert s[..|d|] == d;
  }

  /** A whole number of millions written with 'M' reads back multiplied out. */
  lemma ParsePriceMillionsRoundTrip(n: nat)
    ensures ParsePrice(Str(NatToString(n) + "M")) == Some(n as real * 1000000.0)
  {
    NatFloat(n);
    DigitsMillions(NatToString(n), n as real);
  }

  /** Digits followed by 'M' are millions of their `float` value. */
  lemma DigitsMillions(d: string, x: real)
    requires |d| >= 1 && AllDigits(d) && PyFloat(CommaToDot(d)) == Some(x)
    ensures ParsePrice(Str(d + "M")) == Some(x * 1000000.0)
  {
    CleanMillions(d);
    MillionsText(d, x);
  }

  /** A price text that the clean-up leaves alone and that matches as millions of
      a parsable number is that number of millions. */
  lemma MillionsText(g: string, x: real)
    requires CleanPrice(g + "M") == g + "M" && MillionsPrefix(g + "M") == Some(g)
    requires PyFloat(CommaToDot(g)) == Some(x)
    ensures ParsePrice(Str(g + "M")) == Some(x * 1000000.0)
  {
    ParseCleanMillions(g + "M", g, x);
    ParsePriceOfClean(g + "M");
  }

  /** `float` of a written natural number is the number. */
  lemma NatFloat(n: nat)
    ensures PyFloat(CommaToDot(NatToString(n))) == Some(n as real)
  {
    DigitsFloat(NatToString(n));
    NatToStringRoundTrip(n);
  }

  lemma {:induction false} NumberRunAll(d: string)
    requires AllDigits(d)
    ensures NumberRun(d) == |d|
    decreases |d|
  {
    if |d| > 0 {
      NumberRunAll(d[1..]);
    }
  }

  lemma {:induction false} NumberRunStops(d: string, t: string)
    requires AllDigits(d) && |t| > 0 && !NumberChar(t[0])
    ensures NumberRun(d + t) == |d|
    decreases |d|
  {
    if |d| == 0 {
      assert d + t == t;
    } else {
      assert (d + t)[1..] == d[1..] + t;
      NumberRunStops(d[1..], t);
    }
  }

  /** The clean-up leaves a string without the deleted characters alone. */
  lemma CleanPriceKeeps(s: string)
    requires Nbsp !in s && ' ' !in s && 'F' !in s && 'H' !in s && '€' !in s
    ensures CleanPrice(s) == s
  {
    ReplaceAbsent(s, [Nbsp], "");
    ReplaceAbsent(s, [' '], "");
    ReplaceAbsent(s, "Ft", "");
    ReplaceAbsent(s, "HUF", "");
    ReplaceAbsent(s, "€", "");
  }

  lemma {:induction false} NumberRunPrefix(x: string, t: string)
    requires NumberChars(x) && |t| > 0 && !NumberChar(t[0])
    ensures NumberRun(x + t) == |x|
    decreases |x|
  {
    if |x| == 0 {
      assert x + t == t;
    } else {
      assert (x + t)[1..] == x[1..] + t;
      NumberRunPrefix(x[1..], t);
    }
  }

  /** Digits, a comma, digits and 'M' pass the clean-up and match as millions
      whose comma becomes the decimal point. */
  lemma MillionsShape(a: string, b: string)
    requires AllDigits(a) && AllDigits(b)
    ensures CleanPrice(a + "," + b + "M") == a + "," + b + "M"
    ensures MillionsPrefix(a + "," + b + "M") == Some(a + "," + b)
  {
    var g := a + [','] + b;
    var s := g + "M";
    NumberCharsConcat(a, [',']);
    NumberCharsConcat(a + [','], b);
    assert forall c | c in s :: NumberChar(c) || c == 'M';
    CleanPriceKeeps(s);
    NumberRunPrefix(g, "M");
    assert s[..|g|] == g;
  }

  /** `float` of digits, a comma and digits, once the comma is a dot. */
  lemma DecimalFloat(a: string, b: string)
    requires |a| >= 1 && AllDigits(a) && AllDigits(b)
    ensures PyFloat(CommaToDot(a + "," + b)) == Some(DecimalValue(a, b))
  {
    CommaDecimal(a, b);
    PyFloatDecimal(a, b);
  }

  /** A truthy string the clean-up leaves alone is read as it stands. */
  lemma ParsePriceOfClean(s: string)
    requires s != "" && CleanPrice(s) == s
    ensures ParsePrice(Str(s)) == ParseCleanPrice(s)
  {
    ParsePriceIsClean(Str(s));
  }

  /** Millions with a decimal comma, as in "1,5M". */
  lemma ParsePriceDecimalMillions(a: string, b: string, x: real)
    requires |a| >= 1 && AllDigits(a) && AllDigits(b) && x == DecimalValue(a, b)
    ensures ParsePrice(Str(a + "," + b + "M")) == Some(x * 1000000.0)
  {
    DecimalFloat(a, b);
    DecimalMillions(a, b, x);
  }

  /** Digits, a comma, digits and 'M' are millions of the `float` value of the
      number with its comma read as the decimal point. */
  lemma DecimalMillions(a: string, b: string, x: real)
    requires AllDigits(a) && AllDigits(b) && PyFloat(CommaToDot(a + "," + b)) == Some(x)
    ensures ParsePrice(Str(a + "," + b + "M")) == Some(x * 1000000.0)
  {
    MillionsShape(a, b);
    MillionsText(a + "," + b, x);
  }

  /** A price whose clean-up matches as millions is read from the match alone. */
  lemma ParsePriceViaMillions(v: Val, g: string)
    requires Truthy(v) && MillionsPrefix(CleanPrice(StrOf(v))) == Some(g)
    ensures ParsePrice(v).Some? <==> PyFloat(CommaToDot(g)).Some?
    ensures ParsePrice(v).Some? ==> ParsePrice(v).value == PyFloat(CommaToDot(g)).value * 1000000.0
  {
    ParsePriceIsClean(v);
    ParseCleanMillionsValue(CleanPrice(StrOf(v)), g);
  }

  /** A truthy price is read from its cleaned text. */
  lemma ParsePriceIsClean(v: Val)
    requires Truthy(v)
    ensures ParsePrice(v) == ParseCleanPrice(CleanPrice(StrOf(v)))
  {
  }

  /** A millions match that parses is scaled by a million. */
  lemma ParseCleanMillions(c: string, g: string, x: real)
    requires MillionsPrefix(c) == Some(g) && PyFloat(CommaToDot(g)) == Some(x)
    ensures ParseCleanPrice(c) == Some(x * 1000000.0)
  {
    ParseCleanMillionsValue(c, g);
  }

  /** A millions match is read from the match alone. */
  lemma ParseCleanMillionsValue(c: string, g: string)
    requires MillionsPrefix(c) == Some(g)
    ensures ParseCleanPrice(c).Some? <==> PyFloat(CommaToDot(g)).Some?
    ensures ParseCleanPrice(c).Some? ==> ParseCleanPrice(c).value == PyFloat(CommaToDot(g)).value * 1000000.0
  {
  }


  // ---------------------------------------------------------------------------
  // The per-row mapping
  // ---------------------------------------------------------------------------

  /** `int(x)` on a float: truncation toward zero. */
  function Truncate(x: real): (n: int)
    ensures x >= 0.0 ==> n >= 0 && n as real <= x < n as real + 1.0
    ensures x < 0.0 ==> n <= 0 && n as real - 1.0 < x <= n as real
  {
    if x >= 0.0 then x.Floor else -((-x).Floor)
  }

  /** `int(to_number(raw_rooms)) if to_number(raw_rooms) is not None else None` */
  function RoomsClean(v: Val): (r: Option<int>)
    ensures r.None? <==> ToNumber(v).None?
    ensures r.Some? ==> r.value >= 0 && r.value as real <= ToNumber(v).value < r.value as real + 1.0
  {
    ToNumberRange(v);
    match ToNumber(v)
    case None => None
    case Some(x) => Some(Truncate(x))
  }

  /** The raw columns the normaliser reads. */
  datatype RawRow = RawRow(url: string, size: Val, grossSize: Val, rooms: Val, priceHuf: Val, priceEur: Val, height: Val)

  /** The six `_clean` columns it writes for the row's URL. */
  datatype CleanRow = CleanRow(url: string, size: Option<real>, grossSize: Option<real>, rooms: Option<int>,
                               priceHuf: Option<real>, priceEur: Option<real>, height: Option<real>)

  /** `to_number(raw.replace("€", "") if raw else None)` on a text or empty
      column. A set value that is not text makes the program raise
      `AttributeError` at `.replace`; the model reads its text form instead. */
  function EuroClean(v: Val): Option<real>
  {
    if Truthy(v) then ToNumber(Str(ReplaceAll(StrOf(v), "€", ""))) else ToNumber(Null)
  }

  /** Removing the euro sign first is redundant: `to_number` drops it anyway. */
  lemma EuroCleanIsToNumber(s: string)
    ensures EuroClean(Str(s)) == ToNumber(Str(s))
  {
    if s != "" {
      var t := ReplaceAll(s, "€", "");
      assert "€" == ['€'];
      KeepIgnoresDeleted(s, '€');
      if t == "" {
        assert KeepNumberChars(s) == "";
        assert Separators("") == "";
        assert PyFloat("") == None by {
          assert FirstPiece("", '.') == "";
        }
      }
    }
  }

  function NormaliseRow(raw: RawRow): (c: CleanRow)
    ensures c.url == raw.url
    ensures c.size == ToNumber(raw.size) && c.grossSize == ToNumber(raw.grossSize) && c.height == ToNumber(raw.height)
    ensures c.rooms == RoomsClean(raw.rooms) && c.priceHuf == ParsePrice(raw.priceHuf)
    ensures raw.priceEur.Str? || raw.priceEur.Null? ==> c.priceEur == ToNumber(raw.priceEur)
  {
    assert raw.priceEur.Str? ==> EuroClean(raw.priceEur) == ToNumber(raw.priceEur) by {
      if raw.priceEur.Str? {
        EuroCleanIsToNumber(raw.priceEur.s);
      }
    }
    CleanRow(raw.url, ToNumber(raw.size), ToNumber(raw.grossSize), RoomsClean(raw.rooms),
             ParsePrice(raw.priceHuf), EuroClean(raw.priceEur), ToNumber(raw.height))
  }

  /** The clean values computed for each row read, in table order: one
      `UPDATE` each. */
  function NormaliseAll(rows: seq<RawRow>): (r: seq<CleanRow>)
    ensures |r| == |rows| && forall i | 0 <= i < |rows| :: r[i] == NormaliseRow(rows[i])
  {
    seq(|rows|, i requires 0 <= i < |rows| => NormaliseRow(rows[i]))
  }

  /** `UPDATE listings SET <clean columns> WHERE url = ?` on the table's clean
      columns, one entry per table row: every row of that URL takes the values,
      and no other row changes. */
  function WriteByUrl(table: seq<CleanRow>, c: CleanRow): (r: seq<CleanRow>)
    ensures |r| == |table|
    ensures forall k | 0 <= k < |table| :: r[k] == if table[k].url == c.url then c else table[k]
  {
    seq(|table|, k requires 0 <= k < |table| => if table[k].url == c.url then c else table[k])
  }

  /** The updates executed in turn. */
  function WriteAll(table: seq<CleanRow>, updates: seq<CleanRow>): (r: seq<CleanRow>)
    ensures |r| == |table| && forall k | 0 <= k < |table| :: r[k].url == table[k].url
    ensures forall k | 0 <= k < |table| ::
              (forall i | 0 <= i < |updates| :: updates[i].url != table[k].url) ==> r[k] == table[k]
    decreases |updates|
  {
    if |updates| == 0 then table
    else
      var next := WriteByUrl(table, updates[0]);
      assert forall i | 1 <= i < |updates| :: updates[i] == updates[1..][i - 1];
      WriteAll(next, updates[1..])
  }

  /** A row ends up with the last update of its URL. */
  lemma {:induction false} WriteAllLastWins(table: seq<CleanRow>, updates: seq<CleanRow>, k: nat, i: nat)
    requires k < |table| && i < |updates| && updates[i].url == table[k].url
    requires forall j | i < j < |updates| :: updates[j].url != table[k].url
    ensures WriteAll(table, updates)[k] == updates[i]
    decreases |updates|
  {
    var next := WriteByUrl(table, updates[0]);
    var rest := updates[1..];
    if i > 0 {
      assert rest[i - 1] == updates[i];
      forall j | i - 1 < j < |rest| ensures rest[j].url != next[k].url {
        assert rest[j] == updates[j + 1];
      }
      WriteAllLastWins(next, rest, k, i - 1);
    } else {
      forall j | 0 <= j < |rest| ensures rest[j].url != next[k].url {
        assert rest[j] == updates[j + 1];
      }
    }
  }

  /** The URLs of the rows read, in table order. */
  function RawUrls(rows: seq<RawRow>): (r: seq<string>)
    ensures |r| == |rows| && forall i | 0 <= i < |rows| :: r[i] == rows[i].url
  {
    seq(|rows|, i requires 0 <= i < |rows| => rows[i].url)
  }

  /** The whole pass over the table: every row ends up with the clean values of
      the last row that shares its URL. */
  lemma {:induction false} NormaliseWritesLast(table: seq<CleanRow>, rows: seq<RawRow>)
    requires |table| == |rows| && forall k | 0 <= k < |rows| :: table[k].url == rows[k].url
    ensures var r := WriteAll(table, NormaliseAll(rows));
            |r| == |rows| &&
            forall k | 0 <= k < |rows| ::
              var j := LastIndexOf(RawUrls(rows), rows[k].url, |rows|);
              j.Some? && r[k] == NormaliseRow(rows[j.value])
  {
    var updates := NormaliseAll(rows);
    var urls := RawUrls(rows);
    forall k | 0 <= k < |rows|
      ensures var j := LastIndexOf(urls, rows[k].url, |rows|);
              j.Some? && WriteAll(table, updates)[k] == NormaliseRow(rows[j.value])
    {
      assert urls[k] == rows[k].url;
      var m := LastIndexOf(urls, rows[k].url, |rows|).value;
      assert updates[m].url == table[k].url;
      forall j | m < j < |updates| ensures updates[j].url != table[k].url {
        assert urls[j] == updates[j].url;
      }
      WriteAllLastWins(table, updates, k, m);
    }
  }

  /** Over a table whose URLs are distinct, every row gets its own clean values. */
  lemma {:induction false} NormaliseDistinctUrls(table: seq<CleanRow>, rows: seq<RawRow>)
    requires |table| == |rows| && forall k | 0 <= k < |rows| :: table[k].url == rows[k].url
    requires forall i, j | 0 <= i < j < |rows| :: rows[i].url != rows[j].url
    ensures forall k | 0 <= k < |rows| :: WriteAll(table, NormaliseAll(rows))[k] == NormaliseRow(rows[k])
  {
    NormaliseWritesLast(table, rows);
    var urls := RawUrls(rows);
    forall k | 0 <= k < |rows| ensures WriteAll(table, NormaliseAll(rows))[k] == NormaliseRow(rows[k]) {
      LastIndexOfDistinct(urls, k);
    }
  }
}
