/** The result page's database query: the table of Budapest district codes and
    the construction of the SQL text and its parameter list from the request's
    filters. */
module AppQuery {
  import opened Common
  import opened Decimal

  // ---------------------------------------------------------------------------
  // District codes
  // ---------------------------------------------------------------------------

  /** The district numerals as listed, "I." to "XXIII.", in three parts. */
  const RomanPart0: seq<string> := ["I.", "II.", "III.", "IV.", "V.", "VI.", "VII.", "VIII.", "IX."]
  const RomanPart1: seq<string> := ["X.", "XI.", "XII.", "XIII.", "XIV.", "XV.", "XVI.", "XVII.", "XVIII."]
  const RomanPart2: seq<string> := ["XIX.", "XX.", "XXI.", "XXII.", "XXIII."]
  const RomanList: seq<string> := RomanPart0 + RomanPart1 + RomanPart2

  /** Roman units 0 to 9. */
  const Units: seq<string> := ["", "I", "II", "III", "IV", "V", "VI", "VII", "VIII", "IX"]

  function Repeat(s: string, n: nat): (r: string)
    ensures |r| == n * |s|
  {
    if n == 0 then "" else s + Repeat(s, n - 1)
  }

  /** An independent reading of the numerals: tens as "X", then the unit, then
      the ordinal dot (valid below 40). */
  function Roman(i: nat): string
    requires i < 40
  {
    Repeat("X", i / 10) + Units[i % 10] + "."
  }

  /** `str(i).zfill(2)` for a digit string: zeros in front up to width two. */
  function ZFill2(s: string): (r: string)
    ensures |r| == if |s| >= 2 then |s| else 2
  {
    if |s| >= 2 then s else Repeat("0", 2 - |s|) + s
  }

  function DistrictCode(i: nat): string
  {
    "budapest" + ZFill2(NatToString(i))
  }

  function DistrictName(i: nat): string
    requires 1 <= i <= 23
  {
    "Budapest " + RomanList[i - 1] + " kerület"
  }

  /** A lookup in the `districts` table, read off the shape of its keys:
      "budapest" and two digits naming 1 to 23. `None` is the `KeyError` of any
      other text; `DistrictLookup` and `DistrictKeys` tie it to the table. */
  function Districts(code: string): Option<string>
  {
    if |code| == 10 && code[..8] == "budapest" && IsDigit(code[8]) && IsDigit(code[9]) then
      var i := DigitVal(code[8]) * 10 + DigitVal(code[9]);
      if 1 <= i <= 23 then Some(DistrictName(i)) else None
    else None
  }

  lemma RomanPart0Matches(i: nat)
    requires 1 <= i <= 9
    ensures RomanPart0[i - 1] == Roman(i)
  {
    assert Repeat("X", 0) == "";
    if i == 1 { assert Roman(1) == "" + "I" + "."; }
    else if i == 2 { assert Roman(2) == "" + "II" + "."; }
    else if i == 3 { assert Roman(3) == "" + "III" + "."; }
    else if i == 4 { assert Roman(4) == "" + "IV" + "."; }
    else if i == 5 { assert Roman(5) == "" + "V" + "."; }
    else if i == 6 { assert Roman(6) == "" + "VI" + "."; }
    else if i == 7 { assert Roman(7) == "" + "VII" + "."; }
    else if i == 8 { assert Roman(8) == "" + "VIII" + "."; }
    else { assert Roman(9) == "" + "IX" + "."; }
  }

  lemma RomanPart1Matches(i: nat)
    requires 10 <= i <= 18
    ensures RomanPart1[i - 10] == Roman(i)
  {
    assert Repeat("X", 1) == "X" + Repeat("X", 0) == "X";
    if i == 10 { assert Roman(10) == "X" + "" + "."; }
    else if i == 11 { assert Roman(11) == "X" + "I" + "."; }
    else if i == 12 { assert Roman(12) == "X" + "II" + "."; }
    else if i == 13 { assert Roman(13) == "X" + "III" + "."; }
    else if i == 14 { assert Roman(14) == "X" + "IV" + "."; }
    else if i == 15 { assert Roman(15) == "X" + "V" + "."; }
    else if i == 16 { assert Roman(16) == "X" + "VI" + "."; }
    else if i == 17 { assert Roman(17) == "X" + "VII" + "."; }
    else { assert Roman(18) == "X" + "VIII" + "."; }
  }

  lemma RomanPart2Matches(i: nat)
    requires 19 <= i <= 23
    ensures RomanPart2[i - 19] == Roman(i)
  {
    assert Repeat("X", 1) == "X" + Repeat("X", 0) == "X";
    assert Repeat("X", 2) == "X" + Repeat("X", 1) == "XX";
    if i == 19 { assert Roman(19) == "X" + "IX" + "."; }
    else if i == 20 { assert Roman(20) == "XX" + "" + "."; }
    else if i == 21 { assert Roman(21) == "XX" + "I" + "."; }
    else if i == 22 { assert Roman(22) == "XX" + "II" + "."; }
    else { assert Roman(23) == "XX" + "III" + "."; }
  }

  /** The listed numerals are the Roman numerals of 1 to 23. */
  lemma RomanListMatches(i: nat)
    requires 1 <= i <= 23
    ensures RomanList[i - 1] == Roman(i)
  {
    if i <= 9 {
      assert RomanList[i - 1] == RomanPart0[i - 1];
      RomanPart0Matches(i);
    } else if i <= 18 {
      assert RomanList[i - 1] == RomanPart1[i - 10];
      RomanPart1Matches(i);
    } else {
      assert RomanList[i - 1] == RomanPart2[i - 19];
      RomanPart2Matches(i);
    }
  }

  /** Every code of the table is "budapest" and two digits, the tens first. */
  lemma TwoDigitCode(i: nat)
    requires 1 <= i <= 99
    ensures DistrictCode(i) == "budapest" + [DigitChar(i / 10), DigitChar(i % 10)]
  {
    if i < 10 {
      assert NatToString(i) == [DigitChar(i)];
      assert Repeat("0", 1) == "0" + Repeat("0", 0) == "0";
      assert DigitChar(0) == '0';
    } else {
      assert NatToString(i / 10) == [DigitChar(i / 10)];
    }
  }

  lemma CodeInjective(i: nat, j: nat)
    requires 1 <= i <= 99 && 1 <= j <= 99
    requires DistrictCode(i) == DistrictCode(j)
    ensures i == j
  {
    TwoDigitCode(i);
    TwoDigitCode(j);
    var a := DistrictCode(i);
    assert a[8] == DigitChar(i / 10) && a[9] == DigitChar(i % 10);
    assert DistrictCode(j)[8] == DigitChar(j / 10) && DistrictCode(j)[9] == DigitChar(j % 10);
    assert DigitVal(DigitChar(i / 10)) == i / 10 && DigitVal(DigitChar(j / 10)) == j / 10;
    assert DigitVal(DigitChar(i % 10)) == i % 10 && DigitVal(DigitChar(j % 10)) == j % 10;
  }

  /** The i-th code maps to "Budapest", the Roman numeral of i and "kerület". */
  lemma DistrictLookup(i: nat)
    requires 1 <= i <= 23
    ensures Districts(DistrictCode(i)) == Some("Budapest " + Roman(i) + " kerület")
  {
    TwoDigitCode(i);
    var code := DistrictCode(i);
    assert code[..8] == "budapest";
    assert code[8] == DigitChar(i / 10) && code[9] == DigitChar(i % 10);
    RomanListMatches(i);
  }

  lemma DigitCharOfVal(c: char)
    requires IsDigit(c)
    ensures DigitChar(DigitVal(c)) == c
  {
  }

  /** The table holds exactly the 23 codes. */
  lemma DistrictKeys(code: string)
    ensures Districts(code).Some? <==> exists i :: 1 <= i <= 23 && DistrictCode(i) == code
  {
    if Districts(code).Some? {
      var i := DistrictIndex(code);
    }
    if exists i :: 1 <= i <= 23 && DistrictCode(i) == code {
      var i :| 1 <= i <= 23 && DistrictCode(i) == code;
      DistrictLookup(i);
    }
  }

  /** The district a known code names. */
  lemma DistrictIndex(code: string) returns (i: int)
    requires Districts(code).Some?
    ensures 1 <= i <= 23 && DistrictCode(i) == code
  {
    var a, b := DigitVal(code[8]), DigitVal(code[9]);
    i := a * 10 + b;
    DigitsCode(a, b);
    DigitCharOfVal(code[8]);
    DigitCharOfVal(code[9]);
    assert code == code[..8] + [code[8], code[9]];
  }

  lemma DigitsCode(a: nat, b: nat)
    requires a < 10 && b < 10 && 1 <= a * 10 + b
    ensures DistrictCode(a * 10 + b) == "budapest" + [DigitChar(a), DigitChar(b)]
  {
    var i := a * 10 + b;
    assert i / 10 == a && i % 10 == b;
    TwoDigitCode(i);
  }

  // ---------------------------------------------------------------------------
  // The query
  // ---------------------------------------------------------------------------

  /** The request's filters; `filters.get(k)` is truthy when the key is present
      with a non-empty value. */
  type Filters = map<string, string>

  predicate Given(f: Filters, k: string)
  {
    k in f && f[k] != ""
  }

  datatype Param = Text(s: string) | Number(x: real)

  datatype Query = Query(sql: string, params: seq<Param>)

  const Select: string := "SELECT * FROM listings WHERE 1=1"

  /** The columns the page filters and sorts on, and their names in the
      listings table. */
  datatype Column = Kind | Location | Price | Size | Rooms | WorthIt | Assessment | PriceDiff

  function ColumnName(c: Column): string
  {
    match c
    case Kind => "Jelleg"
    case Location => "location"
    case Price => "price_huf_clean"
    case Size => "Méret_clean"
    case Rooms => "rooms_clean"
    case WorthIt => "\"Ár-Érték Index\""
    case Assessment => "\"Érték Minősítés\""
    case PriceDiff => "\"Ár/m² Eltérés %\""
  }

  datatype Op = Equal | Like | AtLeast | AtMost

  function OpText(op: Op): string
  {
    match op
    case Equal => "="
    case Like => "LIKE"
    case AtLeast => ">="
    case AtMost => "<="
  }

  /** `" AND <column> <op> ?"`. */
  function Clause(c: Column, op: Op): string
  {
    " AND " + ColumnName(c) + " " + OpText(op) + " ?"
  }

  /** The stored spelling of the kind: "haz" and "lakas" get their accents. */
  function KindParam(t: string): string
  {
    if t == "haz" then "ház" else if t == "lakas" then "lakás" else t
  }

  function TypeStep(f: Filters, q: Query): Query
  {
    if Given(f, "type") then Query(q.sql + Clause(Kind, Equal), q.params + [Text(KindParam(f["type"]))])
    else q
  }

  /** `None` when the location is not a district code (the `KeyError`). */
  function LocationStep(f: Filters, q: Query): Option<Query>
  {
    if !Given(f, "location") then Some(q)
    else match Districts(f["location"])
      case None => None
      case Some(name) => Some(Query(q.sql + Clause(Location, Like), q.params + [Text("%" + name + "%")]))
  }

  /** One of the six numeric filters: request key, column and comparison. */
  datatype NumericFilter = NumericFilter(key: string, column: Column, op: Op)

  const NumericFilters: seq<NumericFilter> := [
    NumericFilter("min_price", Price, AtLeast),
    NumericFilter("max_price", Price, AtMost),
    NumericFilter("min_size", Size, AtLeast),
    NumericFilter("max_size", Size, AtMost),
    NumericFilter("min_rooms", Rooms, AtLeast),
    NumericFilter("max_rooms", Rooms, AtMost)
  ]

  /** `float(filters[key])` for a given filter; `None` is the `ValueError`. */
  function Reading(f: Filters, key: string): Option<real>
    requires Given(f, key)
  {
    PyFloat(f[key])
  }

  /** A numeric filter as the page applies it: the clause is appended before
      `float` is tried, and a `ValueError` only skips the parameter. */
  function NumericStep(f: Filters, n: NumericFilter, q: Query): Query
  {
    if !Given(f, n.key) then q
    else
      var sql := q.sql + Clause(n.column, n.op);
      match Reading(f, n.key)
      case Some(x) => Query(sql, q.params + [Number(x)])
      case None => Query(sql, q.params)
  }

  function NumericSteps(f: Filters, ns: seq<NumericFilter>, q: Query): Query
  {
    if |ns| == 0 then q else NumericSteps(f, ns[1..], NumericStep(f, ns[0], q))
  }

  /** The ten sort keys: the column and whether ascending. */
  function SortOrder(sort: string): Option<(Column, bool)>
  {
    if sort == "price_asc" then Some((Price, true))
    else if sort == "price_desc" then Some((Price, false))
    else if sort == "size_asc" then Some((Size, true))
    else if sort == "size_desc" then Some((Size, false))
    else if sort == "worth_it_asc" then Some((WorthIt, true))
    else if sort == "worth_it_desc" then Some((WorthIt, false))
    else if sort == "value_assessment_asc" then Some((Assessment, true))
    else if sort == "value_assessment_desc" then Some((Assessment, false))
    else if sort == "price_diff_asc" then Some((PriceDiff, true))
    else if sort == "price_diff_desc" then Some((PriceDiff, false))
    else None
  }

  /** The ORDER BY clause of a sort key; any other value adds none. */
  function SortClause(sort: string): string
  {
    match SortOrder(sort)
    case None => ""
    case Some((c, asc)) => " ORDER BY " + ColumnName(c) + (if asc then " ASC" else " DESC")
  }

  predicate KnownSort(sort: string)
  {
    sort in {"price_asc", "price_desc", "size_asc", "size_desc", "worth_it_asc", "worth_it_desc",
             "value_assessment_asc", "value_assessment_desc", "price_diff_asc", "price_diff_desc"}
  }

  function SortKey(f: Filters): string
  {
    if "sort" in f then f["sort"] else ""
  }

  /** The kind and location clauses, in this order; `None` for an unknown
      location. */
  function Head(f: Filters): Option<Query>
  {
    LocationStep(f, TypeStep(f, Query(Select, [])))
  }

  /** `query_db` up to the execution: the SQL text and its parameters, `None`
      for an unknown location. */
  function QueryDb(f: Filters): (r: Option<Query>)
    ensures r.None? <==> Given(f, "location") && Districts(f["location"]).None?
  {
    match Head(f)
    case None => None
    case Some(h) =>
      var q := NumericSteps(f, NumericFilters, h);
      Some(Query(q.sql + SortClause(SortKey(f)), q.params))
  }

  // ---------------------------------------------------------------------------
  // The corrected numeric filters
  // ---------------------------------------------------------------------------

  /** A numeric filter whose clause is appended only with its parameter. */
  function NumericStepChecked(f: Filters, n: NumericFilter, q: Query): Query
  {
    if !Given(f, n.key) then q
    else match Reading(f, n.key)
      case Some(x) => Query(q.sql + Clause(n.column, n.op), q.params + [Number(x)])
      case None => q
  }

  function NumericStepsChecked(f: Filters, ns: seq<NumericFilter>, q: Query): Query
  {
    if |ns| == 0 then q else NumericStepsChecked(f, ns[1..], NumericStepChecked(f, ns[0], q))
  }

  function QueryDbChecked(f: Filters): (r: Option<Query>)
    ensures r.None? <==> Given(f, "location") && Districts(f["location"]).None?
  {
    match Head(f)
    case None => None
    case Some(h) =>
      var q := NumericStepsChecked(f, NumericFilters, h);
      Some(Query(q.sql + SortClause(SortKey(f)), q.params))
  }

  // ---------------------------------------------------------------------------
  // The query as a list of conditions
  // ---------------------------------------------------------------------------

  /** One condition of the WHERE part: the column, its comparison and the value
      bound to its placeholder. */
  datatype Cond = Cond(column: Column, op: Op, value: Param)

  /** A condition added to a query: its clause and its value. */
  function Append(q: Query, c: Cond): Query
  {
    Query(q.sql + Clause(c.column, c.op), q.params + [c.value])
  }

  function AppendAll(q: Query, cs: seq<Cond>): Query
    decreases |cs|
  {
    if |cs| == 0 then q else AppendAll(Append(q, cs[0]), cs[1..])
  }

  function Values(cs: seq<Cond>): (r: seq<Param>)
    ensures |r| == |cs| && forall i :: 0 <= i < |cs| ==> r[i] == cs[i].value
  {
    seq(|cs|, i requires 0 <= i < |cs| => cs[i].value)
  }

  /** The text and parameters of a list of conditions followed by an ordering. */
  function Render(cs: seq<Cond>, sort: string): Query
  {
    var w := AppendAll(Query(Select, []), cs);
    Query(w.sql + SortClause(sort), w.params)
  }

  function KindConds(f: Filters): seq<Cond>
  {
    if Given(f, "type") then [Cond(Kind, Equal, Text(KindParam(f["type"])))] else []
  }

  function LocationConds(f: Filters): seq<Cond>
    requires Given(f, "location") ==> Districts(f["location"]).Some?
  {
    if Given(f, "location") then [Cond(Location, Like, Text("%" + Districts(f["location"]).value + "%"))] else []
  }

  /** The conditions the filters ask for, in order: the kind, the location and
      each numeric filter whose value reads as a number; `None` for an unknown
      location. */
  function Conditions(f: Filters): Option<seq<Cond>>
  {
    if Given(f, "location") && Districts(f["location"]).None? then None
    else Some(KindConds(f) + LocationConds(f) + NumericConds(f, NumericFilters))
  }

  function NumericConds(f: Filters, ns: seq<NumericFilter>): seq<Cond>
  {
    if |ns| == 0 then []
    else
      var rest := NumericConds(f, ns[1..]);
      if Given(f, ns[0].key) && Reading(f, ns[0].key).Some? then
        [Cond(ns[0].column, ns[0].op, Number(Reading(f, ns[0].key).value))] + rest
      else rest
  }

  /** How many numeric filters are given with a value `float` cannot read. */
  function Unreadable(f: Filters, ns: seq<NumericFilter>): nat
  {
    if |ns| == 0 then 0
    else (if Given(f, ns[0].key) && Reading(f, ns[0].key).None? then 1 else 0) + Unreadable(f, ns[1..])
  }

  lemma {:induction false} AppendAllConcat(q: Query, a: seq<Cond>, b: seq<Cond>)
    ensures AppendAll(q, a + b) == AppendAll(AppendAll(q, a), b)
    decreases |a|
  {
    if |a| == 0 {
      assert a + b == b;
    } else {
      assert (a + b)[0] == a[0] && (a + b)[1..] == a[1..] + b;
      AppendAllConcat(Append(q, a[0]), a[1..], b);
    }
  }

  lemma AppendOne(q: Query, c: Cond)
    ensures AppendAll(q, [c]) == Append(q, c)
  {
    assert [c][1..] == [];
  }

  lemma CheckedStepAppends(f: Filters, n: NumericFilter, q: Query)
    ensures NumericStepChecked(f, n, q) == AppendAll(q, NumericConds(f, [n]))
  {
    assert [n][1..] == [];
    if Given(f, n.key) && Reading(f, n.key).Some? {
      AppendOne(q, Cond(n.column, n.op, Number(Reading(f, n.key).value)));
    }
  }

  lemma NumericCondsCons(f: Filters, ns: seq<NumericFilter>)
    requires |ns| > 0
    ensures NumericConds(f, ns) == NumericConds(f, [ns[0]]) + NumericConds(f, ns[1..])
  {
    assert [ns[0]][1..] == [];
  }

  /** The corrected numeric steps add exactly the conditions of the readable
      numeric filters, in order. */
  lemma {:induction false} CheckedStepsAppend(f: Filters, ns: seq<NumericFilter>, q: Query)
    ensures NumericStepsChecked(f, ns, q) == AppendAll(q, NumericConds(f, ns))
    decreases |ns|
  {
    if |ns| > 0 {
      var q1 := NumericStepChecked(f, ns[0], q);
      CheckedStepAppends(f, ns[0], q);
      CheckedStepsAppend(f, ns[1..], q1);
      NumericCondsCons(f, ns);
      AppendAllConcat(q, NumericConds(f, [ns[0]]), NumericConds(f, ns[1..]));
    }
  }

  lemma TypeStepAppends(f: Filters, q: Query)
    ensures TypeStep(f, q) == AppendAll(q, KindConds(f))
  {
    if Given(f, "type") {
      AppendOne(q, KindConds(f)[0]);
    }
  }

  lemma LocationStepAppends(f: Filters, q: Query)
    ensures LocationStep(f, q).Some? <==> !Given(f, "location") || Districts(f["location"]).Some?
    ensures LocationStep(f, q).Some? ==> LocationStep(f, q).value == AppendAll(q, LocationConds(f))
  {
    if Given(f, "location") && Districts(f["location"]).Some? {
      AppendOne(q, LocationConds(f)[0]);
    }
  }

  /** The corrected query is the rendering of the conditions the filters ask
      for, followed by the requested ordering. */
  lemma CheckedRenders(f: Filters)
    ensures QueryDbChecked(f).Some? <==> Conditions(f).Some?
    ensures Conditions(f).Some? ==> QueryDbChecked(f).value == Render(Conditions(f).value, SortKey(f))
  {
    var q0 := Query(Select, []);
    var t := TypeStep(f, q0);
    TypeStepAppends(f, q0);
    LocationStepAppends(f, t);
    if Head(f).Some? {
      var kind := KindConds(f);
      var loc := LocationConds(f);
      var num := NumericConds(f, NumericFilters);
      CheckedStepsAppend(f, NumericFilters, Head(f).value);
      AppendAllConcat(q0, kind, loc);
      AppendAllConcat(q0, kind + loc, num);
    }
  }

  /** Each parameter is the value of its condition, in order. */
  lemma {:induction false} AppendAllParams(q: Query, cs: seq<Cond>)
    ensures AppendAll(q, cs).params == q.params + Values(cs)
    decreases |cs|
  {
    if |cs| > 0 {
      AppendAllParams(Append(q, cs[0]), cs[1..]);
      assert Values(cs) == [cs[0].value] + Values(cs[1..]);
    } else {
      assert q.params + [] == q.params;
    }
  }

  // ---------------------------------------------------------------------------
  // Placeholders
  // ---------------------------------------------------------------------------

  lemma ColumnNamePlain(c: Column)
    ensures '?' !in ColumnName(c)
  {
  }

  lemma OpTextPlain(op: Op)
    ensures '?' !in OpText(op)
  {
  }

  lemma ClauseOnePlaceholder(c: Column, op: Op)
    ensures CountChar(Clause(c, op), '?') == 1
  {
    var column := ColumnName(c);
    ColumnNamePlain(c);
    OpTextPlain(op);
    CountCharConcat(" AND ", column, '?');
    CountCharConcat(" AND " + column, " ", '?');
    CountCharConcat(" AND " + column + " ", OpText(op), '?');
    CountCharConcat(" AND " + column + " " + OpText(op), " ?", '?');
  }

  /** Each condition adds one placeholder and one parameter. */
  lemma {:induction false} AppendAllPlaceholders(q: Query, cs: seq<Cond>)
    ensures CountChar(AppendAll(q, cs).sql, '?') == CountChar(q.sql, '?') + |cs|
    ensures |AppendAll(q, cs).params| == |q.params| + |cs|
    decreases |cs|
  {
    if |cs| > 0 {
      ClauseOnePlaceholder(cs[0].column, cs[0].op);
      CountCharConcat(q.sql, Clause(cs[0].column, cs[0].op), '?');
      AppendAllPlaceholders(Append(q, cs[0]), cs[1..]);
    }
  }

  lemma SortClauseNoPlaceholder(sort: string)
    ensures '?' !in SortClause(sort)
  {
    if SortOrder(sort).Some? {
      ColumnNamePlain(SortOrder(sort).value.0);
    }
  }

  lemma SelectNoPlaceholder()
    ensures '?' !in Select
  {
  }

  /** Every placeholder of a rendered list of conditions has its value. */
  lemma RenderPlaceholders(cs: seq<Cond>, sort: string)
    ensures CountChar(Render(cs, sort).sql, '?') == |Render(cs, sort).params|
  {
    var q0 := Query(Select, []);
    var w := AppendAll(q0, cs);
    SelectNoPlaceholder();
    assert CountChar(q0.sql, '?') == 0;
    AppendAllPlaceholders(q0, cs);
    SortClauseNoPlaceholder(sort);
    CountCharConcat(w.sql, SortClause(sort), '?');
  }

  /** The parameters of a rendered list are the conditions' values, in order. */
  lemma RenderParams(cs: seq<Cond>, sort: string)
    ensures Render(cs, sort).params == Values(cs)
  {
    AppendAllParams(Query(Select, []), cs);
    assert [] + Values(cs) == Values(cs);
  }

  /** With the correction, the text has exactly one placeholder per parameter,
      whatever the filters. */
  lemma CheckedPlaceholders(f: Filters)
    ensures QueryDbChecked(f).Some? ==>
              CountChar(QueryDbChecked(f).value.sql, '?') == |QueryDbChecked(f).value.params|
  {
    CheckedRenders(f);
    if Conditions(f).Some? {
      RenderPlaceholders(Conditions(f).value, SortKey(f));
    }
  }

  // ---------------------------------------------------------------------------
  // The page as written against the correction
  // ---------------------------------------------------------------------------

  /** One numeric step as written: the same parameters as the corrected step,
      and one placeholder more exactly when the value cannot be read. */
  lemma StepAgainstChecked(f: Filters, n: NumericFilter, a: Query, b: Query, extra: nat)
    requires a.params == b.params
    requires CountChar(a.sql, '?') == CountChar(b.sql, '?') + extra
    ensures NumericStep(f, n, a).params == NumericStepChecked(f, n, b).params
    ensures CountChar(NumericStep(f, n, a).sql, '?')
            == CountChar(NumericStepChecked(f, n, b).sql, '?') + extra + Unreadable(f, [n])
  {
    assert [n][1..] == [];
    if Given(f, n.key) {
      ClauseOnePlaceholder(n.column, n.op);
      CountCharConcat(a.sql, Clause(n.column, n.op), '?');
      CountCharConcat(b.sql, Clause(n.column, n.op), '?');
    }
  }

  lemma UnreadableCons(f: Filters, ns: seq<NumericFilter>)
    requires |ns| > 0
    ensures Unreadable(f, ns) == Unreadable(f, [ns[0]]) + Unreadable(f, ns[1..])
  {
    assert [ns[0]][1..] == [];
  }

  lemma {:induction false} StepsAgainstChecked(f: Filters, ns: seq<NumericFilter>, a: Query, b: Query, extra: nat)
    requires a.params == b.params
    requires CountChar(a.sql, '?') == CountChar(b.sql, '?') + extra
    ensures NumericSteps(f, ns, a).params == NumericStepsChecked(f, ns, b).params
    ensures CountChar(NumericSteps(f, ns, a).sql, '?')
            == CountChar(NumericStepsChecked(f, ns, b).sql, '?') + extra + Unreadable(f, ns)
    decreases |ns|
  {
    if |ns| > 0 {
      StepAgainstChecked(f, ns[0], a, b, extra);
      UnreadableCons(f, ns);
      StepsAgainstChecked(f, ns[1..], NumericStep(f, ns[0], a), NumericStepChecked(f, ns[0], b),
                          extra + Unreadable(f, [ns[0]]));
    }
  }

  /** As written, the page binds the same parameters as the correction but its
      text carries one unbound placeholder per numeric filter whose value
      `float` cannot read. */
  lemma AsWrittenPlaceholders(f: Filters)
    ensures QueryDb(f).Some? <==> QueryDbChecked(f).Some?
    ensures QueryDb(f).Some? ==>
              QueryDb(f).value.params == QueryDbChecked(f).value.params
              && CountChar(QueryDb(f).value.sql, '?')
                 == |QueryDb(f).value.params| + Unreadable(f, NumericFilters)
  {
    if Head(f).Some? {
      var h := Head(f).value;
      StepsAgainstChecked(f, NumericFilters, h, h, 0);
      var a := NumericSteps(f, NumericFilters, h);
      var b := NumericStepsChecked(f, NumericFilters, h);
      SortClauseNoPlaceholder(SortKey(f));
      CountCharConcat(a.sql, SortClause(SortKey(f)), '?');
      CountCharConcat(b.sql, SortClause(SortKey(f)), '?');
      CheckedPlaceholders(f);
    }
  }

  /** When every given numeric value reads as a number, each placeholder of the
      page's text has its value. */
  lemma ReadableAgrees(f: Filters)
    requires Unreadable(f, NumericFilters) == 0
    ensures QueryDb(f).Some? ==>
              CountChar(QueryDb(f).value.sql, '?') == |QueryDb(f).value.params|
  {
    AsWrittenPlaceholders(f);
  }

  lemma AbcUnreadable()
    ensures PyFloat("abc").None?
  {
    PyFloatNeedsDigit("abc");
    assert !HasDigit("abc") by {
      assert !IsDigit('a') && !IsDigit('b') && !IsDigit('c');
    }
  }

  lemma ExampleUnreadable(f: Filters)
    requires f == map["min_price" := "abc"]
    ensures Unreadable(f, NumericFilters) == 1
    ensures NumericConds(f, NumericFilters) == []
    ensures Conditions(f) == Some([])
  {
    AbcUnreadable();
    assert Reading(f, "min_price").None?;
    var ns := NumericFilters;
    assert !Given(f, ns[1].key) && !Given(f, ns[2].key) && !Given(f, ns[3].key);
    assert !Given(f, ns[4].key) && !Given(f, ns[5].key);
    assert Unreadable(f, ns[5..]) == 0 && NumericConds(f, ns[5..]) == [];
    assert Unreadable(f, ns[4..]) == 0 && NumericConds(f, ns[4..]) == [];
    assert Unreadable(f, ns[3..]) == 0 && NumericConds(f, ns[3..]) == [];
    assert Unreadable(f, ns[2..]) == 0 && NumericConds(f, ns[2..]) == [];
    assert Unreadable(f, ns[1..]) == 0 && NumericConds(f, ns[1..]) == [];
    assert !Given(f, "type") && !Given(f, "location");
    assert KindConds(f) + LocationConds(f) + NumericConds(f, ns) == [];
  }

  /** A minimum price of "abc" leaves a placeholder with nothing bound to it. */
  lemma UnreadablePriceExample()
    ensures var r := QueryDb(map["min_price" := "abc"]);
            r.Some? && r.value.params == [] && CountChar(r.value.sql, '?') == 1
  {
    var f := map["min_price" := "abc"];
    ExampleUnreadable(f);
    AsWrittenPlaceholders(f);
    CheckedRenders(f);
    RenderParams([], SortKey(f));
  }

  /** The ORDER BY clause comes last, at most once, and only for the ten sort
      keys. */
  lemma OrderAtEnd(f: Filters)
    ensures QueryDb(f).Some? ==> EndsWith(QueryDb(f).value.sql, SortClause(SortKey(f)))
    ensures SortClause(SortKey(f)) != "" <==> KnownSort(SortKey(f))
    ensures KnownSort(SortKey(f)) ==> StartsWith(SortClause(SortKey(f)), " ORDER BY ")
  {
    if Head(f).Some? {
      var q := NumericSteps(f, NumericFilters, Head(f).value);
      var sql := q.sql + SortClause(SortKey(f));
      assert sql[|sql| - |SortClause(SortKey(f))|..] == SortClause(SortKey(f));
    }
  }
}
