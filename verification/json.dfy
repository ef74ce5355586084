/** The JSON text of a filter dictionary, as the search log stores it.

    The log writes `json.dumps(filters, sort_keys=True, separators=(',', ':'))`
    and reads entries back with `json.loads`. `Serialise` is that writer for
    dictionaries of `Val`s: keys in code-point order, no white space, and every
    character outside printable ASCII escaped (the language's default
    `ensure_ascii`). `Parse` is the reader for the objects the writer can
    produce; anything else is reported as malformed (`None`).
 */
module CanonicalJson {
  import opened Common
  import opened Decimal
  import opened Dicts

  // ---------------------------------------------------------------------------
  // Hexadecimal digits of `\uXXXX` escapes (lower case on output).
  // ---------------------------------------------------------------------------

  function HexDigit(d: nat): (c: char)
    requires d < 16
  {
    if d < 10 then DigitChar(d) else ('a' as int + d - 10) as char
  }

  /** The value of one hexadecimal digit, either case. */
  function HexVal(c: char): (r: Option<nat>)
    ensures r.Some? ==> r.value < 16
  {
    if '0' <= c <= '9' then Some(c as int - '0' as int)
    else if 'a' <= c <= 'f' then Some(c as int - 'a' as int + 10)
    else if 'A' <= c <= 'F' then Some(c as int - 'A' as int + 10)
    else None
  }

  function Pow16(k: nat): (p: nat)
    ensures p >= 1
  {
    if k == 0 then 1 else 16 * Pow16(k - 1)
  }

  /** `n` written with exactly `k` hexadecimal digits. */
  function HexDigits(n: nat, k: nat): (s: string)
    ensures |s| == k
  {
    if k == 0 then "" else HexDigits(n / 16, k - 1) + [HexDigit(n % 16)]
  }

  /** The value of a string of hexadecimal digits, most significant first. */
  function HexValue(s: string): (r: Option<nat>)
    ensures r.Some? ==> r.value < Pow16(|s|)
  {
    if |s| == 0 then Some(0)
    else
      match (HexValue(s[..|s| - 1]), HexVal(s[|s| - 1]))
      case (Some(hi), Some(lo)) => Some(hi * 16 + lo)
      case _ => None
  }

  lemma {:induction false} HexDigitsRoundTrip(n: nat, k: nat)
    requires n < Pow16(k)
    ensures HexValue(HexDigits(n, k)) == Some(n)
    decreases k
  {
    if k > 0 {
      HexDigitsRoundTrip(n / 16, k - 1);
      var s := HexDigits(n, k);
      assert s[..|s| - 1] == HexDigits(n / 16, k - 1);
      assert HexVal(HexDigit(n % 16)) == Some(n % 16);
    }
  }

  function Hex4(n: nat): (s: string)
    requires n < 0x10000
    ensures |s| == 4
  {
    HexDigits(n, 4)
  }

  /** The value of four hexadecimal digits. */
  function ParseHex4(s: string): (r: Option<nat>)
    requires |s| == 4
    ensures r.Some? ==> r.value < 0x10000
  {
    assert Pow16(4) == 0x10000;
    HexValue(s)
  }

  lemma Hex4RoundTrip(n: nat)
    requires n < 0x10000
    ensures ParseHex4(Hex4(n)) == Some(n)
  {
    assert Pow16(4) == 0x10000;
    HexDigitsRoundTrip(n, 4);
  }

  // ---------------------------------------------------------------------------
  // Writer
  // ---------------------------------------------------------------------------

  /** The escape of one character inside a string literal. */
  function EncodeChar(c: char): (e: string)
    ensures |e| >= 1 && e[0] != '"'
  {
    var n := c as int;
    if c == '"' then "\\\""
    else if c == '\\' then "\\\\"
    else if c == '\n' then "\\n"
    else if c == '\r' then "\\r"
    else if c == '\t' then "\\t"
    else if n == 0x08 then "\\b"
    else if n == 0x0C then "\\f"
    else if 0x20 <= n <= 0x7E then [c]
    else if n < 0x10000 then "\\u" + Hex4(n)
    else
      var v := n - 0x10000;
      "\\u" + Hex4(0xD800 + v / 0x400) + "\\u" + Hex4(0xDC00 + v % 0x400)
  }

  /** The escaped characters of a string, without the quotes. */
  function EncodeChars(s: string): (e: string)
  {
    if |s| == 0 then "" else EncodeChar(s[0]) + EncodeChars(s[1..])
  }

  function EncodeStr(s: string): string
  {
    "\"" + EncodeChars(s) + "\""
  }

  function EncodeVal(v: Val): string
  {
    match v
    case Null => "null"
    case Bool(b) => if b then "true" else "false"
    case Int(i) => IntToString(i)
    case Str(s) => EncodeStr(s)
  }

  function EncodeEntry(p: (string, Val)): string
  {
    EncodeStr(p.0) + ":" + EncodeVal(p.1)
  }

  /** The entries of an object, in the given order, separated by ','. */
  function EncodeEntries(d: Dict): string
  {
    if |d| == 0 then ""
    else if |d| == 1 then EncodeEntry(d[0])
    else EncodeEntry(d[0]) + "," + EncodeEntries(d[1..])
  }

  /** `json.dumps(d, sort_keys=True, separators=(',', ':'))` */
  function Serialise(d: Dict): (s: string)
    ensures |s| >= 2 && s[0] == '{' && s[|s| - 1] == '}'
  {
    "{" + EncodeEntries(SortByKey(d)) + "}"
  }

  // ---------------------------------------------------------------------------
  // Reader
  // ---------------------------------------------------------------------------

  /** The character a two-character escape `\e` stands for. */
  function ShortUnescape(e: char): Option<char>
  {
    if e == '"' then Some('"')
    else if e == '\\' then Some('\\')
    else if e == '/' then Some('/')
    else if e == 'b' then Some(0x08 as char)
    else if e == 'f' then Some(0x0C as char)
    else if e == 'n' then Some('\n')
    else if e == 'r' then Some('\r')
    else if e == 't' then Some('\t')
    else None
  }

  /** A `\uXXXX` escape at the start of `s`, or a surrogate pair of two of them. */
  function ParseUnicodeEscape(s: string): (r: Option<(char, nat)>)
    ensures r.Some? ==> 1 <= r.value.1 <= |s|
  {
    if |s| < 6 then None
    else
      match ParseHex4(s[2..6])
      case None => None
      case Some(h) =>
        if 0xD800 <= h <= 0xDBFF then
          if |s| >= 12 && s[6] == '\\' && s[7] == 'u' then
            match ParseHex4(s[8..12])
            case Some(l) =>
              if 0xDC00 <= l <= 0xDFFF then
                Some(((0x10000 + (h - 0xD800) * 0x400 + (l - 0xDC00)) as char, 12))
              else None
            case None => None
          else None
        else if 0xDC00 <= h <= 0xDFFF then None
        else Some((h as char, 6))
  }

  /** One (possibly escaped) character of a string literal: the character and the
      number of input characters it took. Raw control characters are rejected. */
  function ParseOne(s: string): (r: Option<(char, nat)>)
    requires |s| > 0
    ensures r.Some? ==> 1 <= r.value.1 <= |s|
  {
    if s[0] != '\\' then (if (s[0] as int) < 0x20 then None else Some((s[0], 1)))
    else if |s| < 2 then None
    else if s[1] == 'u' then ParseUnicodeEscape(s)
    else
      match ShortUnescape(s[1])
      case Some(c) => Some((c, 2))
      case None => None
  }

  /** The rest of a string literal after its opening quote: the decoded text and
      what follows the closing quote. */
  function ParseChars(s: string): (r: Option<(string, string)>)
    ensures r.Some? ==> |r.value.1| < |s|
    decreases |s|
  {
    if |s| == 0 then None
    else if s[0] == '"' then Some(("", s[1..]))
    else
      match ParseOne(s)
      case None => None
      case Some(ck) =>
        match ParseChars(s[ck.1..])
        case None => None
        case Some(tr) => Some(([ck.0] + tr.0, tr.1))
  }

  function ParseStringLit(s: string): (r: Option<(string, string)>)
    ensures r.Some? ==> |r.value.1| < |s|
  {
    if |s| > 0 && s[0] == '"' then ParseChars(s[1..]) else None
  }

  /** The longest prefix of digits. */
  function DigitRun(s: string): (r: string)
    ensures |r| <= |s| && s[..|r|] == r && AllDigits(r)
    ensures |r| < |s| ==> !IsDigit(s[|r|])
  {
    if |s| == 0 || !IsDigit(s[0]) then "" else [s[0]] + DigitRun(s[1..])
  }

  /** An integer: an optional '-', then "0" or digits without a leading zero. */
  function ParseInt(s: string): (r: Option<(int, string)>)
    ensures r.Some? ==> |r.value.1| < |s|
  {
    var neg := |s| > 0 && s[0] == '-';
    var t := if neg then s[1..] else s;
    var run := DigitRun(t);
    if |run| == 0 || (|run| > 1 && run[0] == '0') then None
    else
      var n: int := DigitsValue(run);
      Some((if neg then -n else n, t[|run|..]))
  }

  /** A value, chosen by its first character as the language's scanner does. */
  function ParseValue(s: string): (r: Option<(Val, string)>)
    ensures r.Some? ==> |r.value.1| < |s|
  {
    if |s| == 0 then None
    else if s[0] == 'n' then (if |s| >= 4 && s[..4] == "null" then Some((Null, s[4..])) else None)
    else if s[0] == 't' then (if |s| >= 4 && s[..4] == "true" then Some((Bool(true), s[4..])) else None)
    else if s[0] == 'f' then (if |s| >= 5 && s[..5] == "false" then Some((Bool(false), s[5..])) else None)
    else if s[0] == '"' then
      match ParseStringLit(s)
      case Some(sr) => Some((Str(sr.0), sr.1))
      case None => None
    else
      match ParseInt(s)
      case Some(ir) => Some((Int(ir.0), ir.1))
      case None => None
  }

  /** One member `"key":value`. */
  function ParseEntry(s: string): (r: Option<((string, Val), string)>)
    ensures r.Some? ==> |r.value.1| < |s|
  {
    match ParseStringLit(s)
    case None => None
    case Some(kr) =>
      var afterKey := kr.1;
      if |afterKey| == 0 || afterKey[0] != ':' then None
      else
        match ParseValue(afterKey[1..])
        case None => None
        case Some(vr) => Some(((kr.0, vr.0), vr.1))
  }

  /** Members of an object from the first key on, added to `acc` the way the
      language builds a dictionary (a repeated key keeps its place and takes the
      later value): the dictionary and what follows the closing brace. */
  function ParseMembers(s: string, acc: Dict): (r: Option<(Dict, string)>)
    decreases |s|
  {
    match ParseEntry(s)
    case None => None
    case Some(er) =>
      var next := SetKey(acc, er.0.0, er.0.1);
      var rest := er.1;
      if |rest| == 0 then None
      else if rest[0] == ',' then ParseMembers(rest[1..], next)
      else if rest[0] == '}' then Some((next, rest[1..]))
      else None
  }

  /** `json.loads(s)` for a flat object; `None` for anything the model does not
      read as such, which the log treats as a malformed entry. */
  function Parse(s: string): (r: Option<Dict>)
  {
    if |s| < 2 || s[0] != '{' then None
    else if s[1] == '}' then (if |s| == 2 then Some([]) else None)
    else
      match ParseMembers(s[1..], [])
      case Some(dr) => if dr.1 == "" then Some(dr.0) else None
      case None => None
  }

  // ---------------------------------------------------------------------------
  // Round trip
  // ---------------------------------------------------------------------------

  lemma ParseOneEncodeChar(c: char, t: string)
    ensures ParseOne(EncodeChar(c) + t) == Some((c, |EncodeChar(c)|))
  {
    var n := c as int;
    var s := EncodeChar(c) + t;
    if c == '"' || c == '\\' || c == '\n' || c == '\r' || c == '\t' || n == 0x08 || n == 0x0C {
    } else if 0x20 <= n <= 0x7E {
    } else if n < 0x10000 {
      assert s[2..6] == Hex4(n);
      Hex4RoundTrip(n);
    } else {
      var v := n - 0x10000;
      var hi := 0xD800 + v / 0x400;
      var lo := 0xDC00 + v % 0x400;
      assert s[2..6] == Hex4(hi);
      assert s[6] == '\\' && s[7] == 'u';
      assert s[8..12] == Hex4(lo);
      Hex4RoundTrip(hi);
      Hex4RoundTrip(lo);
      assert 0x10000 + (hi - 0xD800) * 0x400 + (lo - 0xDC00) == n;
    }
  }

  lemma {:induction false} ParseCharsEncode(s: string, t: string)
    ensures ParseChars(EncodeChars(s) + "\"" + t) == Some((s, t))
    decreases |s|
  {
    if |s| == 0 {
      assert EncodeChars(s) + "\"" + t == "\"" + t;
    } else {
      var e := EncodeChar(s[0]);
      var rest := EncodeChars(s[1..]) + "\"" + t;
      assert EncodeChars(s) + "\"" + t == e + rest;
      ParseOneEncodeChar(s[0], rest);
      assert (e + rest)[|e|..] == rest;
      ParseCharsEncode(s[1..], t);
      assert [s[0]] + s[1..] == s;
    }
  }

  lemma ParseStringLitEncode(s: string, t: string)
    ensures ParseStringLit(EncodeStr(s) + t) == Some((s, t))
  {
    assert (EncodeStr(s) + t)[1..] == EncodeChars(s) + "\"" + t;
    ParseCharsEncode(s, t);
  }

  lemma {:induction false} DigitRunOf(x: string, t: string)
    requires AllDigits(x)
    requires |t| == 0 || !IsDigit(t[0])
    ensures DigitRun(x + t) == x
    decreases |x|
  {
    if |x| > 0 {
      assert (x + t)[1..] == x[1..] + t;
      DigitRunOf(x[1..], t);
      assert [x[0]] + x[1..] == x;
    } else {
      assert x + t == t;
    }
  }

  lemma ParseIntEncode(i: int, t: string)
    requires |t| == 0 || !IsDigit(t[0])
    ensures ParseInt(IntToString(i) + t) == Some((i, t))
  {
    if i < 0 {
      ParseNegative(-i, t);
    } else {
      ParseNonNegative(i, t);
    }
  }

  lemma NatTextThen(n: nat, t: string)
    requires |t| == 0 || !IsDigit(t[0])
    ensures var x := NatToString(n);
            DigitRun(x + t) == x && (x + t)[|x|..] == t && DigitsValue(x) == n
            && (x + t)[0] != '-'
  {
    var x := NatToString(n);
    NatToStringRoundTrip(n);
    DigitRunOf(x, t);
    assert (x + t)[0] == x[0];
  }

  lemma ParseNonNegative(n: nat, t: string)
    requires |t| == 0 || !IsDigit(t[0])
    ensures ParseInt(NatToString(n) + t) == Some((n, t))
  {
    NatTextThen(n, t);
  }

  lemma ParseNegative(n: nat, t: string)
    requires n > 0
    requires |t| == 0 || !IsDigit(t[0])
    ensures ParseInt("-" + NatToString(n) + t) == Some((-(n as int), t))
  {
    var x := NatToString(n);
    NatTextThen(n, t);
    ParseNonNegative(n, t);
    ParseIntMinus(x + t);
    assert "-" + x + t == "-" + (x + t);
  }

  /** A minus sign in front negates what follows. */
  lemma ParseIntMinus(u: string)
    requires |u| > 0 && u[0] != '-'
    ensures ParseInt("-" + u).Some? <==> ParseInt(u).Some?
    ensures ParseInt(u).Some? ==> ParseInt("-" + u) == Some((-ParseInt(u).value.0, ParseInt(u).value.1))
  {
    assert ("-" + u)[1..] == u;
  }

  /** Every value reads back from its text when a separator follows it. */
  lemma ParseValueEncode(v: Val, t: string)
    requires |t| > 0 && (t[0] == ',' || t[0] == '}')
    ensures ParseValue(EncodeVal(v) + t) == Some((v, t))
  {
    var s := EncodeVal(v) + t;
    match v
    case Null =>
      assert s[..4] == "null" && s[4..] == t;
    case Bool(b) =>
      if b {
        assert s[..4] == "true" && s[4..] == t;
      } else {
        assert s[..5] == "false" && s[5..] == t;
      }
    case Int(i) =>
      ParseIntEncode(i, t);
      var x := IntToString(i);
      assert s[0] == x[0];
      assert i >= 0 ==> IsDigit(x[0]);
    case Str(str) =>
      ParseStringLitEncode(str, t);
  }

  lemma ParseEntryEncode(p: (string, Val), t: string)
    requires |t| > 0 && (t[0] == ',' || t[0] == '}')
    ensures ParseEntry(EncodeEntry(p) + t) == Some((p, t))
  {
    var afterKey := ":" + EncodeVal(p.1) + t;
    assert EncodeEntry(p) + t == EncodeStr(p.0) + afterKey;
    ParseStringLitEncode(p.0, afterKey);
    assert afterKey[1..] == EncodeVal(p.1) + t;
    ParseValueEncode(p.1, t);
  }

  /** What follows the first entry of `e` in the text of `e` closed by '}'. */
  function AfterFirst(e: Dict, t: string): string
    requires |e| >= 1
  {
    if |e| == 1 then ['}'] + t else [','] + (EncodeEntries(e[1..]) + "}" + t)
  }

  lemma DropHead(c: char, x: string)
    ensures ([c] + x)[1..] == x
  {
  }

  lemma EncodeEntriesCons(e: Dict, t: string)
    requires |e| >= 1
    ensures EncodeEntries(e) + "}" + t == EncodeEntry(e[0]) + AfterFirst(e, t)
  {
    var a := EncodeEntry(e[0]);
    if |e| > 1 {
      var b := EncodeEntries(e[1..]);
      assert EncodeEntries(e) == a + "," + b;
      Regroup(a, b, t);
    } else {
      assert EncodeEntries(e) == a;
    }
  }

  lemma Regroup(a: string, b: string, t: string)
    ensures a + "," + b + "}" + t == a + ([','] + (b + "}" + t))
  {
  }

  /** Keys of the remaining entries stay fresh once the first one is added. */
  lemma FreshKeysTail(e: Dict, acc: Dict)
    requires |e| >= 1 && KeySorted(e)
    requires forall q :: q in e ==> q.0 !in Keys(acc)
    ensures forall q :: q in e[1..] ==> q.0 !in Keys(acc + [e[0]])
  {
    KeySortedDistinct(e);
    KeysAppend(acc, e[0]);
    forall q | q in e[1..] ensures q.0 !in Keys(acc + [e[0]]) {
      var m :| 0 <= m < |e[1..]| && e[1..][m] == q;
      assert e[m + 1] == q;
    }
  }

  lemma AppendCons(acc: Dict, e: Dict)
    requires |e| >= 1
    ensures (acc + [e[0]]) + e[1..] == acc + e
  {
    assert e == [e[0]] + e[1..];
  }

  /** One step of reading members: after an entry, ',' continues and '}' ends. */
  lemma ParseMembersStep(s: string, acc: Dict, p: (string, Val), rest: string)
    requires ParseEntry(s) == Some((p, rest))
    requires |rest| > 0
    ensures rest[0] == ',' ==> ParseMembers(s, acc) == ParseMembers(rest[1..], SetKey(acc, p.0, p.1))
    ensures rest[0] == '}' ==> ParseMembers(s, acc) == Some((SetKey(acc, p.0, p.1), rest[1..]))
  {
  }

  /** The text of key-sorted entries, followed by '}', reads back as those entries
      appended to the dictionary built so far. */
  lemma {:induction false} ParseMembersEncode(e: Dict, acc: Dict, t: string)
    requires |e| >= 1 && KeySorted(e)
    requires forall q :: q in e ==> q.0 !in Keys(acc)
    ensures ParseMembers(EncodeEntries(e) + "}" + t, acc) == Some((acc + e, t))
    decreases |e|, 1
  {
    var p := e[0];
    var s := EncodeEntries(e) + "}" + t;
    var tail := AfterFirst(e, t);
    EncodeEntriesCons(e, t);
    ParseEntryEncode(p, tail);
    ParseMembersStep(s, acc, p, tail);
    assert p in e;
    assert SetKey(acc, p.0, p.1) == acc + [p];
    if |e| > 1 {
      ParseMembersRest(e, acc, t);
    } else {
      DropHead('}', t);
      assert acc + e == acc + [p];
    }
  }

  /** After the first entry and its ',', the remaining entries read back. */
  lemma {:induction false} ParseMembersRest(e: Dict, acc: Dict, t: string)
    requires |e| > 1 && KeySorted(e)
    requires forall q :: q in e ==> q.0 !in Keys(acc)
    ensures ParseMembers(AfterFirst(e, t)[1..], acc + [e[0]]) == Some((acc + e, t))
    decreases |e|, 0
  {
    KeySortedTail(e);
    FreshKeysTail(e, acc);
    DropHead(',', EncodeEntries(e[1..]) + "}" + t);
    ParseMembersEncode(e[1..], acc + [e[0]], t);
    AppendCons(acc, e);
  }

  lemma EncodeEntriesStart(e: Dict)
    requires |e| >= 1
    ensures |EncodeEntries(e)| >= 1 && EncodeEntries(e)[0] == '"'
  {
    assert EncodeEntry(e[0])[0] == '"';
  }

  /** Reading what was written gives the dictionary back, in key order. */
  lemma ParseSerialise(d: Dict)
    requires DistinctKeys(d)
    ensures Parse(Serialise(d)) == Some(SortByKey(d))
  {
    var e := SortByKey(d);
    SortByKeySorted(d);
    var s := Serialise(d);
    var body := EncodeEntries(e) + "}" + "";
    assert s == ['{'] + body;
    if |e| == 0 {
      assert s == "{}";
    } else {
      DropHead('{', body);
      EncodeEntriesStart(e);
      ParseMembersEncode(e, [], "");
      assert [] + e == e;
    }
  }

  /** The log's serialisation is canonical: two dictionaries give the same text
      exactly when they hold the same pairs, values compared structurally. */
  lemma SerialiseCanonical(a: Dict, b: Dict)
    requires DistinctKeys(a) && DistinctKeys(b)
    ensures Serialise(a) == Serialise(b) <==> SameContents(a, b)
  {
    ParseSerialise(a);
    ParseSerialise(b);
    SortByKeyCanonical(a, b);
  }

  /** A parsed object never holds the same key twice. */
  lemma {:induction false} ParseMembersDistinct(s: string, acc: Dict)
    requires DistinctKeys(acc)
    ensures ParseMembers(s, acc).Some? ==> DistinctKeys(ParseMembers(s, acc).value.0)
    decreases |s|
  {
    match ParseEntry(s)
    case None =>
    case Some(er) =>
      SetKeyDistinct(acc, er.0.0, er.0.1);
      var rest := er.1;
      if |rest| > 0 && rest[0] == ',' {
        ParseMembersDistinct(rest[1..], SetKey(acc, er.0.0, er.0.1));
      }
  }

  lemma ParseDistinct(s: string)
    ensures Parse(s).Some? ==> DistinctKeys(Parse(s).value)
  {
    if |s| >= 2 && s[0] == '{' && s[1] != '}' {
      ParseMembersDistinct(s[1..], []);
    }
  }
}
