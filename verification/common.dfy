/** Values and string operations shared by every component of the model.

    The original program is written in a dynamically typed language. Its filter
    dictionaries and listing records hold `None`, booleans, integers and strings.
    `Val` is that universe of values, and `Truthy` is the language's truthiness
    test that the program uses everywhere (`if not value`, `if filters.get(k)`).
 */
module Common {

  datatype Option<+T> = None | Some(value: T)

  /** A dynamically typed value: `None`, a bool, an int or a str. */
  datatype Val = Null | Bool(b: bool) | Int(i: int) | Str(s: string)

  /** The position of the last `x` among the first `n` elements of `xs`: the row
      whose write survives when rows are written in order by key. */
  function LastIndexOf<T(==)>(xs: seq<T>, x: T, n: nat): (r: Option<nat>)
    requires n <= |xs|
    ensures r.Some? ==> r.value < n && xs[r.value] == x && forall k | r.value < k < n :: xs[k] != x
    ensures r.None? <==> forall k | 0 <= k < n :: xs[k] != x
  {
    if n == 0 then None
    else if xs[n - 1] == x then Some(n - 1)
    else LastIndexOf(xs, x, n - 1)
  }

  /** Without repeated elements, the last occurrence of an element is itself. */
  lemma LastIndexOfDistinct<T>(xs: seq<T>, k: nat)
    requires forall i, j | 0 <= i < j < |xs| :: xs[i] != xs[j]
    requires k < |xs|
    ensures LastIndexOf(xs, xs[k], |xs|) == Some(k)
  {
  }

  /** Truthiness: `None`, `False`, `0` and `""` are false, everything else true. */
  predicate Truthy(v: Val)
  {
    match v
    case Null => false
    case Bool(b) => b
    case Int(i) => i != 0
    case Str(s) => s != ""
  }

  function NumOf(v: Val): int
    requires v.Bool? || v.Int?
  {
    if v.Bool? then (if v.b then 1 else 0) else v.i
  }

  /** The language's `==` on values: `None` equals only `None`, strings compare by
      content, and booleans compare as the integers 0 and 1 (`True == 1`). */
  predicate ValEq(a: Val, b: Val)
  {
    if a.Null? || b.Null? then a.Null? && b.Null?
    else if a.Str? || b.Str? then a.Str? && b.Str? && a.s == b.s
    else NumOf(a) == NumOf(b)
  }

  /** Value equality is an equivalence relation. */
  lemma ValEqEquivalence(a: Val, b: Val, c: Val)
    ensures ValEq(a, a)
    ensures ValEq(a, b) ==> ValEq(b, a)
    ensures ValEq(a, b) && ValEq(b, c) ==> ValEq(a, c)
  {
  }

  /** A truthy optional string: present and non-empty. */
  predicate TruthyStr(s: Option<string>)
  {
    s.Some? && s.value != ""
  }

  predicate IsDigit(c: char)
  {
    '0' <= c <= '9'
  }

  predicate AllDigits(s: string)
  {
    forall i :: 0 <= i < |s| ==> IsDigit(s[i])
  }

  /** The no-break space, U+00A0. */
  const Nbsp: char := '\U{00A0}'

  /** The characters the language's `str.isspace` (and the regex class `\s`) accept. */
  predicate IsSpace(c: char)
  {
    var n := c as int;
    || (0x09 <= n <= 0x0D) || (0x1C <= n <= 0x20)
    || n == 0x85 || n == 0xA0 || n == 0x1680
    || (0x2000 <= n <= 0x200A)
    || n == 0x2028 || n == 0x2029 || n == 0x202F || n == 0x205F || n == 0x3000
  }

  /** `t` occurs in `s` starting at index `i`. */
  predicate OccursAt(s: string, t: string, i: int)
  {
    0 <= i && i + |t| <= |s| && s[i..i + |t|] == t
  }

  /** `s.startswith(p)` */
  predicate StartsWith(s: string, p: string)
  {
    |p| <= |s| && s[..|p|] == p
  }

  /** `s.endswith(p)` */
  predicate EndsWith(s: string, p: string)
  {
    |p| <= |s| && s[|s| - |p|..] == p
  }

  /** The substring test `t in s`. */
  predicate Contains(s: string, t: string)
    decreases |s|
  {
    if |t| <= |s| && s[..|t|] == t then true
    else if |s| == 0 then false
    else Contains(s[1..], t)
  }

  /** An occurrence anywhere is found by the substring test. */
  lemma {:induction false} OccursContains(s: string, t: string, i: int)
    requires OccursAt(s, t, i)
    ensures Contains(s, t)
    decreases i
  {
    if i > 0 && !(|t| <= |s| && s[..|t|] == t) {
      assert s[1..][i - 1..i - 1 + |t|] == s[i..i + |t|];
      OccursContains(s[1..], t, i - 1);
    }
  }

  /** The substring test succeeds only on an occurrence. */
  lemma {:induction false} ContainsOccurs(s: string, t: string)
    requires Contains(s, t)
    ensures exists i :: OccursAt(s, t, i)
    decreases |s|
  {
    if |t| <= |s| && s[..|t|] == t {
      assert OccursAt(s, t, 0);
    } else {
      ContainsOccurs(s[1..], t);
      var i :| OccursAt(s[1..], t, i);
      assert s[1..][i..i + |t|] == s[i + 1..i + 1 + |t|];
      assert OccursAt(s, t, i + 1);
    }
  }

  lemma ContainsIffOccurs(s: string, t: string)
    ensures Contains(s, t) <==> exists i :: OccursAt(s, t, i)
  {
    if Contains(s, t) {
      ContainsOccurs(s, t);
    }
    forall i | OccursAt(s, t, i) ensures Contains(s, t) {
      OccursContains(s, t, i);
    }
  }

  /** A string containing `t` contains its first character. */
  lemma ContainsFirstChar(s: string, t: string)
    requires |t| > 0
    ensures Contains(s, t) ==> t[0] in s
  {
    ContainsIffOccurs(s, t);
    if Contains(s, t) {
      var i :| OccursAt(s, t, i);
      assert s[i..i + |t|][0] == s[i];
    }
  }

  /** The single-character membership test `c in s`. */
  lemma ContainsChar(s: string, c: char)
    ensures Contains(s, [c]) <==> c in s
  {
    ContainsIffOccurs(s, [c]);
    if c in s {
      var i :| 0 <= i < |s| && s[i] == c;
      assert s[i..i + 1] == [c];
      assert OccursAt(s, [c], i);
    }
    if exists i :: OccursAt(s, [c], i) {
      var i :| OccursAt(s, [c], i);
      assert s[i..i + 1][0] == s[i];
    }
  }

  /** `s.replace(pat, rep)`: every non-overlapping occurrence of `pat`, scanning
      left to right, is replaced by `rep`. */
  function ReplaceAll(s: string, pat: string, rep: string): (r: string)
    requires |pat| > 0
    ensures !Contains(s, pat) ==> r == s
    decreases |s|
  {
    if |pat| <= |s| && s[..|pat|] == pat then rep + ReplaceAll(s[|pat|..], pat, rep)
    else if |s| == 0 then s
    else [s[0]] + ReplaceAll(s[1..], pat, rep)
  }

  /** Replacing one character by another maps the string character by character. */
  lemma {:induction false} ReplaceCharPointwise(s: string, a: char, b: char)
    ensures |ReplaceAll(s, [a], [b])| == |s|
    ensures forall i :: 0 <= i < |s| ==>
      ReplaceAll(s, [a], [b])[i] == (if s[i] == a then b else s[i])
    decreases |s|
  {
    if |s| > 0 {
      ReplaceCharPointwise(s[1..], a, b);
      var r := ReplaceAll(s, [a], [b]);
      var tail := ReplaceAll(s[1..], [a], [b]);
      if s[..1] == [a] {
        assert r == [b] + tail;
      } else {
        assert s[0] != a;
        assert r == [s[0]] + tail;
      }
    }
  }

  /** A prefix without the pattern's first character passes through a
      replacement unchanged. */
  lemma {:induction false} ReplaceSkipsPrefix(a: string, b: string, pat: string, rep: string)
    requires |pat| > 0 && pat[0] !in a
    ensures ReplaceAll(a + b, pat, rep) == a + ReplaceAll(b, pat, rep)
    decreases |a|
  {
    if |a| == 0 {
      assert a + b == b;
    } else {
      assert (a + b)[0] == a[0];
      assert (a + b)[1..] == a[1..] + b;
      ReplaceSkipsPrefix(a[1..], b, pat, rep);
      assert [a[0]] + (a[1..] + ReplaceAll(b, pat, rep)) == a + ReplaceAll(b, pat, rep);
    }
  }

  /** A replacement whose pattern starts with a character `s` lacks leaves `s` as it is. */
  lemma ReplaceAbsent(s: string, pat: string, rep: string)
    requires |pat| > 0 && pat[0] !in s
    ensures ReplaceAll(s, pat, rep) == s
  {
    ContainsFirstChar(s, pat);
  }

  /** Replacing a character distributes over concatenation. */
  lemma {:induction false} ReplaceCharConcat(a: string, b: string, c: char, rep: string)
    ensures ReplaceAll(a + b, [c], rep) == ReplaceAll(a, [c], rep) + ReplaceAll(b, [c], rep)
    decreases |a|
  {
    if |a| == 0 {
      assert a + b == b;
    } else {
      assert (a + b)[1..] == a[1..] + b;
      assert (a + b)[..1] == a[..1];
      ReplaceCharConcat(a[1..], b, c, rep);
    }
  }

  /** Deleting one character removes every occurrence of it and keeps the rest in order. */
  lemma {:induction false} DeleteCharKeepsOthers(s: string, a: char)
    ensures a !in ReplaceAll(s, [a], "")
    ensures forall c :: c in ReplaceAll(s, [a], "") <==> c in s && c != a
    decreases |s|
  {
    if |s| > 0 {
      DeleteCharKeepsOthers(s[1..], a);
      if s[..1] == [a] {
        assert ReplaceAll(s, [a], "") == ReplaceAll(s[1..], [a], "");
        assert forall c :: c in s <==> c == s[0] || c in s[1..];
      } else {
        assert ReplaceAll(s, [a], "") == [s[0]] + ReplaceAll(s[1..], [a], "");
        assert forall c :: c in s <==> c == s[0] || c in s[1..];
      }
    }
  }

  /** Number of occurrences of `c` in `s`, the language's `s.count(c)`. */
  function CountChar(s: string, c: char): (n: nat)
    ensures n <= |s|
    ensures n == 0 <==> c !in s
  {
    if |s| == 0 then 0
    else (if s[0] == c then 1 else 0) + CountChar(s[1..], c)
  }

  lemma {:induction false} CountCharConcat(a: string, b: string, c: char)
    ensures CountChar(a + b, c) == CountChar(a, c) + CountChar(b, c)
    decreases |a|
  {
    if |a| == 0 {
      assert a + b == b;
    } else {
      assert (a + b)[1..] == a[1..] + b;
      CountCharConcat(a[1..], b, c);
    }
  }

  /** `sep.join(xs)` */
  function Join(xs: seq<string>, sep: string): string
  {
    if |xs| == 0 then ""
    else if |xs| == 1 then xs[0]
    else xs[0] + sep + Join(xs[1..], sep)
  }

  /** `s.split(sep)` for a one-character separator: the pieces between separators. */
  function Split(s: string, sep: char): (r: seq<string>)
    ensures |r| >= 1
    ensures forall i :: 0 <= i < |r| ==> sep !in r[i]
    decreases |s|
  {
    if |s| == 0 then [""]
    else
      var rest := Split(s[1..], sep);
      if s[0] == sep then [""] + rest
      else [[s[0]] + rest[0]] + rest[1..]
  }

  lemma {:induction false} SplitPieceThenSep(x: string, t: string, sep: char)
    requires sep !in x
    ensures Split(x + [sep] + t, sep) == [x] + Split(t, sep)
    decreases |x|
  {
    if |x| == 0 {
      assert x + [sep] + t == [sep] + t;
      assert ([sep] + t)[1..] == t;
    } else {
      assert (x + [sep] + t)[1..] == x[1..] + [sep] + t;
      SplitPieceThenSep(x[1..], t, sep);
      assert [x[0]] + x[1..] == x;
    }
  }

  lemma {:induction false} SplitLastPiece(x: string, sep: char)
    requires sep !in x
    ensures Split(x, sep) == [x]
    decreases |x|
  {
    if |x| > 0 {
      SplitLastPiece(x[1..], sep);
      assert [x[0]] + x[1..] == x;
    }
  }

  /** Splitting a joined list on its one-character separator gives the list back,
      provided no element contains the separator. */
  lemma {:induction false} SplitJoin(xs: seq<string>, sep: char)
    requires |xs| >= 1
    requires forall i :: 0 <= i < |xs| ==> sep !in xs[i]
    ensures Split(Join(xs, [sep]), sep) == xs
    decreases |xs|
  {
    if |xs| == 1 {
      SplitLastPiece(xs[0], sep);
    } else {
      SplitJoin(xs[1..], sep);
      SplitPieceThenSep(xs[0], Join(xs[1..], [sep]), sep);
      assert [xs[0]] + xs[1..] == xs;
    }
  }

  /** The prefix of `s` before the first occurrence of `sep`: `s.split(sep)[0]`. */
  function FirstPiece(s: string, sep: char): (r: string)
    ensures r == Split(s, sep)[0]
    ensures sep !in r
    ensures |r| <= |s| && s[..|r|] == r
    ensures |r| < |s| ==> s[|r|] == sep
    decreases |s|
  {
    if |s| == 0 || s[0] == sep then ""
    else [s[0]] + FirstPiece(s[1..], sep)
  }
}
