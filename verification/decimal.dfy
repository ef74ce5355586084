/** Decimal text <-> numbers: the subset of the language's `float(str)` and
    `str(int)` conversions that the program relies on. */
module Decimal {
  import opened Common

  function DigitVal(c: char): (d: nat)
    requires IsDigit(c)
    ensures d < 10
  {
    c as int - '0' as int
  }

  function DigitChar(d: nat): (c: char)
    requires d < 10
    ensures IsDigit(c) && DigitVal(c) == d
  {
    (('0' as int) + d) as char
  }

  /** Value of a digit string, most significant digit first; "" is 0. */
  function DigitsValue(s: string): nat
    requires AllDigits(s)
  {
    if |s| == 0 then 0 else DigitsValue(s[..|s| - 1]) * 10 + DigitVal(s[|s| - 1])
  }

  function Pow10(k: nat): (p: nat)
    ensures p >= 1
  {
    if k == 0 then 1 else 10 * Pow10(k - 1)
  }

  predicate HasDigit(s: string)
  {
    exists i :: 0 <= i < |s| && IsDigit(s[i])
  }

  predicate OnlyDigitsAndDots(s: string)
  {
    forall i :: 0 <= i < |s| ==> IsDigit(s[i]) || s[i] == '.'
  }

  /** `str(n)` for a natural number: no sign, no leading zero. */
  function NatToString(n: nat): (s: string)
    ensures |s| >= 1 && AllDigits(s)
    ensures |s| == 1 || s[0] != '0'
  {
    if n < 10 then [DigitChar(n)] else NatToString(n / 10) + [DigitChar(n % 10)]
  }

  lemma {:induction false} NatToStringRoundTrip(n: nat)
    ensures DigitsValue(NatToString(n)) == n
    decreases n
  {
    if n >= 10 {
      NatToStringRoundTrip(n / 10);
      var s := NatToString(n);
      assert s[..|s| - 1] == NatToString(n / 10);
    }
  }

  /** `str(i)` for an integer. */
  function IntToString(i: int): (s: string)
    ensures |s| >= 1
    ensures i >= 0 ==> AllDigits(s)
    ensures i < 0 <==> s[0] == '-'
  {
    if i < 0 then "-" + NatToString(-i) else NatToString(i)
  }

  /** Value of the literal `intPart "." frac`. */
  function DecimalValue(intPart: string, frac: string): real
    requires AllDigits(intPart) && AllDigits(frac)
  {
    DigitsValue(intPart) as real + DigitsValue(frac) as real / Pow10(|frac|) as real
  }

  /** An unsigned decimal literal: digits with at most one '.', and at least one digit
      on either side of it ("5", "5.", ".5", "5.25"). */
  function ParseUnsigned(s: string): (r: Option<real>)
    ensures r.Some? ==> r.value >= 0.0
  {
    var k := FirstPiece(s, '.');
    if |k| == |s| then
      (if |s| >= 1 && AllDigits(s) then Some(DigitsValue(s) as real) else None)
    else
      var frac := s[|k| + 1..];
      if AllDigits(k) && AllDigits(frac) && |k| + |frac| >= 1 then Some(DecimalValue(k, frac))
      else None
  }

  /** Over a string of digits and dots, a parse succeeds exactly when there is at
      least one digit and at most one dot. */
  lemma ParseUnsignedAccepts(s: string)
    requires OnlyDigitsAndDots(s)
    ensures ParseUnsigned(s).Some? <==> HasDigit(s) && CountChar(s, '.') <= 1
  {
    var k := FirstPiece(s, '.');
    if |k| == |s| {
      AcceptsWithoutDot(s);
    } else {
      AcceptsWithDot(s, k, s[|k| + 1..]);
    }
  }

  lemma AcceptsWithoutDot(s: string)
    requires OnlyDigitsAndDots(s) && |FirstPiece(s, '.')| == |s|
    ensures ParseUnsigned(s).Some? <==> HasDigit(s) && CountChar(s, '.') <= 1
  {
    assert FirstPiece(s, '.') == s;
    assert AllDigits(s);
    if |s| >= 1 {
      assert IsDigit(s[0]);
    }
  }

  lemma AcceptsWithDot(s: string, k: string, frac: string)
    requires OnlyDigitsAndDots(s) && k == FirstPiece(s, '.') && |k| < |s| && frac == s[|k| + 1..]
    ensures ParseUnsigned(s).Some? <==> HasDigit(s) && CountChar(s, '.') <= 1
  {
    DotSplit(s, k, frac);
    DigitsOrDot(frac);
    if AllDigits(frac) {
      if |k| >= 1 {
        assert IsDigit(k[0]);
      } else if |frac| >= 1 {
        assert IsDigit(frac[0]);
      }
    }
  }

  /** Digits and dots without a dot are digits. */
  lemma DigitsOrDot(s: string)
    requires OnlyDigitsAndDots(s)
    ensures AllDigits(s) <==> CountChar(s, '.') == 0
  {
    if !AllDigits(s) {
      var i :| 0 <= i < |s| && !IsDigit(s[i]);
      assert s[i] == '.';
    }
  }

  /** The text before the first dot holds digits only, and a digit of the whole
      is a digit of one of the two sides. */
  lemma DotSplit(s: string, k: string, frac: string)
    requires OnlyDigitsAndDots(s) && k == FirstPiece(s, '.') && |k| < |s| && frac == s[|k| + 1..]
    ensures s == k + ['.'] + frac
    ensures CountChar(s, '.') == 1 + CountChar(frac, '.')
    ensures AllDigits(k) && OnlyDigitsAndDots(frac)
    ensures HasDigit(s) <==> HasDigit(k) || HasDigit(frac)
  {
    assert s == k + ['.'] + frac;
    DotPieces(k, frac);
  }

  lemma DotPieces(k: string, frac: string)
    requires '.' !in k && OnlyDigitsAndDots(k + ['.'] + frac)
    ensures CountChar(k + ['.'] + frac, '.') == 1 + CountChar(frac, '.')
    ensures AllDigits(k) && OnlyDigitsAndDots(frac)
    ensures HasDigit(k + ['.'] + frac) <==> HasDigit(k) || HasDigit(frac)
  {
    var s := k + ['.'] + frac;
    CountCharConcat(k + ['.'], frac, '.');
    CountCharConcat(k, ['.'], '.');
    HasDigitConcat(k + ['.'], frac);
    HasDigitConcat(k, ['.']);
    assert !HasDigit(['.']);
    forall i | 0 <= i < |k| ensures IsDigit(k[i]) {
      assert k[i] == s[i];
    }
    forall i | 0 <= i < |frac| ensures IsDigit(frac[i]) || frac[i] == '.' {
      assert frac[i] == s[|k| + 1 + i];
    }
  }

  lemma HasDigitConcat(a: string, b: string)
    ensures HasDigit(a + b) <==> HasDigit(a) || HasDigit(b)
  {
    if HasDigit(a + b) {
      var i :| 0 <= i < |a + b| && IsDigit((a + b)[i]);
      if i < |a| {
        assert IsDigit(a[i]);
      } else {
        assert IsDigit(b[i - |a|]);
      }
    }
    if HasDigit(a) {
      var i :| 0 <= i < |a| && IsDigit(a[i]);
      assert IsDigit((a + b)[i]);
    }
    if HasDigit(b) {
      var i :| 0 <= i < |b| && IsDigit(b[i]);
      assert IsDigit((a + b)[|a| + i]);
    }
  }

  /** A plain digit string parses as its value. */
  lemma ParseUnsignedDigits(d: string)
    requires |d| >= 1 && AllDigits(d)
    ensures ParseUnsigned(d) == Some(DigitsValue(d) as real)
  {
    var k := FirstPiece(d, '.');
  }

  /** Digits, a dot and digits parse as the decimal value. */
  lemma ParseUnsignedDecimal(a: string, b: string)
    requires |a| >= 1 && AllDigits(a) && AllDigits(b)
    ensures ParseUnsigned(a + "." + b) == Some(DecimalValue(a, b))
  {
    var s := a + ['.'] + b;
    FirstPieceOf(a, b, '.');
    assert s[|a| + 1..] == b;
  }

  /** `float` on digits, a dot and digits is the decimal value. */
  lemma PyFloatDecimal(a: string, b: string)
    requires |a| >= 1 && AllDigits(a) && AllDigits(b)
    ensures PyFloat(a + "." + b) == Some(DecimalValue(a, b))
  {
    var s := a + ['.'] + b;
    assert !IsSpace(s[0]) && !IsSpace(s[|s| - 1]) by {
      assert s[0] == a[0];
      if |b| > 0 {
        assert s[|s| - 1] == b[|b| - 1];
      }
    }
    StripKeeps(s);
    assert s[0] == a[0];
    ParseUnsignedDecimal(a, b);
  }

  /** A written natural number parses back as itself. */
  lemma ParseNatToString(n: nat)
    ensures ParseUnsigned(NatToString(n)) == Some(n as real)
  {
    ParseUnsignedDigits(NatToString(n));
    NatToStringRoundTrip(n);
  }

  predicate SpaceOnly(s: string)
  {
    forall k | 0 <= k < |s| :: IsSpace(s[k])
  }

  /** A slice of `s` with white space only on either side of it. */
  predicate Trims(s: string, r: string)
  {
    exists i, j | 0 <= i <= j <= |s| :: r == s[i..j] && SpaceOnly(s[..i]) && SpaceOnly(s[j..])
  }

  /** Dropping a leading white-space character keeps a trim a trim. */
  lemma TrimsAfterFront(s: string, r: string)
    requires |s| > 0 && IsSpace(s[0]) && Trims(s[1..], r)
    ensures Trims(s, r)
  {
    var u := s[1..];
    var i, j :| 0 <= i <= j <= |u| && r == u[i..j] && SpaceOnly(u[..i]) && SpaceOnly(u[j..]);
    assert u[i..j] == s[i + 1..j + 1] && u[j..] == s[j + 1..];
    var w := s[..i + 1];
    assert SpaceOnly(w) by {
      forall k | 0 <= k < |w| ensures IsSpace(w[k]) {
        if k > 0 {
          assert w[k] == u[..i][k - 1];
        }
      }
    }
  }

  /** Dropping a trailing white-space character keeps a trim a trim. */
  lemma TrimsBeforeBack(s: string, r: string)
    requires |s| > 0 && IsSpace(s[|s| - 1]) && Trims(s[..|s| - 1], r)
    ensures Trims(s, r)
  {
    var u := s[..|s| - 1];
    var i, j :| 0 <= i <= j <= |u| && r == u[i..j] && SpaceOnly(u[..i]) && SpaceOnly(u[j..]);
    assert u[i..j] == s[i..j] && u[..i] == s[..i];
    var w := s[j..];
    assert SpaceOnly(w) by {
      forall k | 0 <= k < |w| ensures IsSpace(w[k]) {
        if k < |w| - 1 {
          assert w[k] == u[j..][k];
        }
      }
    }
  }

  /** Leading and trailing white space removed, as `float()` does first. */
  function Strip(s: string): (r: string)
    ensures |r| <= |s|
    ensures |r| > 0 ==> !IsSpace(r[0]) && !IsSpace(r[|r| - 1])
    decreases |s|
  {
    if |s| == 0 then s
    else if IsSpace(s[0]) then Strip(s[1..])
    else if IsSpace(s[|s| - 1]) then Strip(s[..|s| - 1])
    else s
  }

  /** What is stripped is white space only: the result is a slice of the input
      with nothing but white space before and after it. */
  lemma {:induction false} StripTrims(s: string)
    ensures Trims(s, Strip(s))
    decreases |s|
  {
    if |s| == 0 {
      assert s == s[0..0] && SpaceOnly(s[..0]) && SpaceOnly(s[0..]);
    } else if IsSpace(s[0]) {
      StripTrims(s[1..]);
      TrimsAfterFront(s, Strip(s[1..]));
    } else if IsSpace(s[|s| - 1]) {
      StripTrims(s[..|s| - 1]);
      TrimsBeforeBack(s, Strip(s[..|s| - 1]));
    } else {
      assert s == s[0..|s|] && SpaceOnly(s[..0]) && SpaceOnly(s[|s|..]);
    }
  }

  /** Text that neither starts nor ends with white space is its own strip. */
  lemma StripKeeps(s: string)
    requires |s| == 0 || (!IsSpace(s[0]) && !IsSpace(s[|s| - 1]))
    ensures Strip(s) == s
  {
  }

  /** `float(s)` on a string: optional white space, an optional sign and an unsigned
      decimal literal. `None` stands for the `ValueError` the language raises. */
  function PyFloat(s: string): Option<real>
  {
    var t := Strip(s);
    var signed := |t| > 0 && (t[0] == '-' || t[0] == '+');
    match ParseUnsigned(if signed then t[1..] else t)
    case Some(v) => Some(if signed && t[0] == '-' then -v else v)
    case None => None
  }

  /** `float()` never accepts a string without a digit. */
  lemma PyFloatNeedsDigit(s: string)
    ensures PyFloat(s).Some? ==> HasDigit(s)
  {
    var t := Strip(s);
    StripKeepsDigits(s);
    if |t| > 0 && (t[0] == '-' || t[0] == '+') {
      UnsignedHasDigit(t[1..]);
      if HasDigit(t[1..]) {
        var i :| 0 <= i < |t[1..]| && IsDigit(t[1..][i]);
        assert IsDigit(t[i + 1]);
      }
    } else {
      UnsignedHasDigit(t);
    }
  }

  lemma {:induction false} StripKeepsDigits(s: string)
    ensures HasDigit(Strip(s)) ==> HasDigit(s)
    decreases |s|
  {
    if |s| > 0 {
      if IsSpace(s[0]) {
        StripKeepsDigits(s[1..]);
        if HasDigit(s[1..]) {
          var i :| 0 <= i < |s[1..]| && IsDigit(s[1..][i]);
          assert IsDigit(s[i + 1]);
        }
      } else if IsSpace(s[|s| - 1]) {
        StripKeepsDigits(s[..|s| - 1]);
        if HasDigit(s[..|s| - 1]) {
          var i :| 0 <= i < |s[..|s| - 1]| && IsDigit(s[..|s| - 1][i]);
          assert IsDigit(s[i]);
        }
      }
    }
  }

  lemma UnsignedHasDigit(s: string)
    ensures ParseUnsigned(s).Some? ==> HasDigit(s)
  {
    if ParseUnsigned(s).Some? {
      var k := FirstPiece(s, '.');
      if |k| == |s| {
        assert IsDigit(s[0]);
      } else {
        var frac := s[|k| + 1..];
        if |k| >= 1 {
          assert IsDigit(s[0]);
        } else {
          assert IsDigit(s[|k| + 1 + 0]);
        }
      }
    }
  }

  lemma {:induction false} FirstPieceOf(k: string, t: string, sep: char)
    requires sep !in k
    ensures FirstPiece(k + [sep] + t, sep) == k
    decreases |k|
  {
    if |k| > 0 {
      assert (k + [sep] + t)[1..] == k[1..] + [sep] + t;
      FirstPieceOf(k[1..], t, sep);
      assert [k[0]] + k[1..] == k;
    } else {
      assert (k + [sep] + t)[0] == sep;
    }
  }

  /** The decimal-comma example "264,9" once its comma became a dot. */
  lemma ParseExampleDecimal()
    ensures ParseUnsigned("264.9") == Some(264.9)
  {
    FirstPieceOf("264", "9", '.');
    assert "264" + ['.'] + "9" == "264.9";
    assert "264.9"[4..] == "9";
    assert DigitsValue("2") == 2 by {
      assert "2"[..0] == "";
    }
    assert DigitsValue("26") == 26 by {
      assert "26"[..1] == "2";
    }
    assert DigitsValue("264") == 264 by {
      assert "264"[..2] == "26";
    }
    assert DigitsValue("9") == 9 by {
      assert "9"[..0] == "";
    }
  }

  /** Two dots: not a number. */
  lemma ParseExampleTwoDots()
    ensures ParseUnsigned("1.234.567") == None
  {
    FirstPieceOf("1", "234.567", '.');
    assert "1" + ['.'] + "234.567" == "1.234.567";
    assert "1.234.567"[2..] == "234.567";
    assert !AllDigits("234.567") by {
      assert "234.567"[3] == '.';
    }
  }

  /** `float(v)` applied to a value; `None` stands for the `ValueError` or
      `TypeError` the language raises. */
  function PyFloatVal(v: Val): (r: Option<real>)
    ensures v.Int? ==> r == Some(v.i as real)
    ensures v.Null? ==> r.None?
  {
    match v
    case Null => None
    case Bool(b) => Some(if b then 1.0 else 0.0)
    case Int(i) => Some(i as real)
    case Str(s) => PyFloat(s)
  }
}
