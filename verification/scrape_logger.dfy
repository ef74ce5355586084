/** The search log: which filter sets were crawled, and when, so that a new
    search can reuse the listings of a recent, broader one.

    The log is a sequence of rows (serialised filters, time in seconds); the
    database, the clock and the default file name are left to the caller.
 */
module ScrapeLogger {
  import opened Common
  import opened Decimal
  import opened Dicts
  import opened CanonicalJson

  const SecondsPerHour: int := 3600
  /** `hours_limit` when the caller gives none. */
  const DefaultHoursLimit: int := 24

  datatype LogEntry = LogEntry(filters: string, searchedAt: int)

  type Log = seq<LogEntry>

  /** `filters or {}`: a missing filter set is logged as the empty one. */
  function OrEmpty(filters: Option<Dict>): Dict
  {
    if filters.Some? then filters.value else []
  }

  predicate WellFormed(filters: Option<Dict>)
  {
    filters.Some? ==> DistinctKeys(filters.value)
  }

  /** `log_scrape`: appends one row holding the canonical text of the filters. */
  function LogScrape(log: Log, filters: Option<Dict>, now: int): (r: Log)
    requires WellFormed(filters)
    ensures |r| == |log| + 1 && r[..|log|] == log
    ensures r[|log|].searchedAt == now
    ensures Parse(r[|log|].filters) == Some(SortByKey(OrEmpty(filters)))
  {
    ParseSerialise(OrEmpty(filters));
    log + [LogEntry(Serialise(OrEmpty(filters)), now)]
  }

  /** `isInLog`: some row holds exactly the canonical text of the filters. */
  predicate IsInLog(log: Log, filters: Option<Dict>)
  {
    filters.Some? && exists i | 0 <= i < |log| :: log[i].filters == Serialise(filters.value)
  }

  /** A logged search is found again by any equal filter set, whatever the order
      of its keys. */
  lemma LoggedIsInLog(log: Log, f: Dict, g: Dict, now: int)
    requires DistinctKeys(f) && DistinctKeys(g) && SameContents(f, g)
    ensures IsInLog(LogScrape(log, Some(f), now), Some(g))
  {
    var r := LogScrape(log, Some(f), now);
    SerialiseCanonical(f, g);
    assert r[|log|].filters == Serialise(g);
  }

  /** On a log whose rows were all written by `LogScrape`, `isInLog` answers
      exactly whether an equal filter set was logged. */
  lemma IsInLogIff(log: Log, logged: seq<Dict>, g: Dict)
    requires |logged| == |log|
    requires forall i | 0 <= i < |log| :: DistinctKeys(logged[i]) && log[i].filters == Serialise(logged[i])
    requires DistinctKeys(g)
    ensures IsInLog(log, Some(g)) <==> exists i | 0 <= i < |logged| :: SameContents(logged[i], g)
  {
    forall i | 0 <= i < |log|
      ensures log[i].filters == Serialise(g) <==> SameContents(logged[i], g)
    {
      SerialiseCanonical(logged[i], g);
    }
  }

  // ---------------------------------------------------------------------------
  // Containment of searches
  // ---------------------------------------------------------------------------

  /** `{k: v for k, v in d.items() if k != "sort" and v}` */
  function Compact(d: Dict): (r: Dict)
    ensures forall p :: p in r <==> p in d && p.0 != "sort" && Truthy(p.1)
    ensures |r| <= |d|
  {
    if |d| == 0 then []
    else
      assert forall p :: p in d <==> p == d[0] || p in d[1..];
      (if d[0].0 != "sort" && Truthy(d[0].1) then [d[0]] else []) + Compact(d[1..])
  }

  lemma {:induction false} CompactDistinct(d: Dict)
    requires DistinctKeys(d)
    ensures DistinctKeys(Compact(d))
    decreases |d|
  {
    if |d| > 0 {
      DistinctKeysTail(d);
      CompactDistinct(d[1..]);
      var tail := Compact(d[1..]);
      if d[0].0 != "sort" && Truthy(d[0].1) {
        DistinctCons(d[0], tail);
      }
    }
  }

  /** The numeric keys compared by direction rather than by equality. */
  const NumericKeys: seq<string> :=
    ["min_price", "max_price", "min_size", "max_size", "min_rooms", "max_rooms"]

  /** The range keys the crawler logs and the results page asks about. */
  const CrawlerRangeKeys: seq<string> :=
    ["ar_min", "ar_max", "meret_min", "meret_max", "szoba_min", "szoba_max"]

  /** Whether the current value of one key is satisfied by the historical
      dictionary: the body of the loop in `is_subset_search`. */
  predicate EntrySatisfied(key: string, cur: Val, existing: Dict)
  {
    if key == "sort" || !Truthy(cur) then true
    else
      var ex := GetOr(existing, key, Null);
      if !Truthy(ex) then true
      else if key in NumericKeys then
        match (PyFloatVal(cur), PyFloatVal(ex))
        case (Some(c), Some(e)) =>
          if StartsWith(key, "min_") then !(c < e)
          else if StartsWith(key, "max_") then !(c > e)
          else true
        case _ => true
      else ValEq(cur, ex)
  }

  /** `is_subset_search(current, existing)` as the program has it. */
  predicate IsSubsetSearch(current: Dict, existing: Dict)
  {
    |existing| > 0 &&
    forall i | 0 <= i < |current| :: EntrySatisfied(current[i].0, current[i].1, existing)
  }

  /** An empty historical search never contains anything. */
  lemma IsSubsetSearchEmptyHistory(current: Dict)
    ensures !IsSubsetSearch(current, [])
  {
  }

  /** The crawler's range keys are not in the numeric list, so they are compared
      for equality: a narrower price bound is not accepted. */
  lemma CrawlerKeysMatchExactly(cur: Val, existing: Dict)
    requires Truthy(cur) && Truthy(GetOr(existing, "ar_min", Null))
    ensures EntrySatisfied("ar_min", cur, existing) <==> ValEq(cur, GetOr(existing, "ar_min", Null))
  {
  }

  /** The listed numeric keys are compared by direction: a `min_` bound fails only
      below the historical one and a `max_` bound only above it. */
  lemma NumericKeysDirectional(key: string, cur: Val, existing: Dict, c: real, e: real)
    requires key in NumericKeys && Truthy(cur)
    requires Truthy(GetOr(existing, key, Null))
    requires PyFloatVal(cur) == Some(c) && PyFloatVal(GetOr(existing, key, Null)) == Some(e)
    ensures StartsWith(key, "min_") ==> (EntrySatisfied(key, cur, existing) <==> c >= e)
    ensures StartsWith(key, "max_") ==> (EntrySatisfied(key, cur, existing) <==> c <= e)
  {
  }

  /** A bound that does not parse as a number is skipped, not failed. */
  lemma UnparsableBoundSkipped(key: string, cur: Val, existing: Dict)
    requires key in NumericKeys
    requires PyFloatVal(cur).None?
    ensures EntrySatisfied(key, cur, existing)
  {
  }

  // ---------------------------------------------------------------------------
  // What a search means, and the containment the program intends
  // ---------------------------------------------------------------------------

  /** A listing as far as searches see it: a measured quantity per range name
      ("price", "ar", "size", ...) and a value per categorical key. */
  datatype Listing = Listing(measure: string -> real, attribute: string -> Val)

  predicate IsMinKey(key: string)
  {
    StartsWith(key, "min_") || EndsWith(key, "_min")
  }

  predicate IsMaxKey(key: string)
  {
    StartsWith(key, "max_") || EndsWith(key, "_max")
  }

  predicate IsRangeKey(key: string)
  {
    key in NumericKeys || key in CrawlerRangeKeys
  }

  /** The quantity a range key bounds: "price" for `min_price`, "ar" for `ar_min`. */
  function Dimension(key: string): string
  {
    if StartsWith(key, "min_") || StartsWith(key, "max_") then key[4..]
    else if EndsWith(key, "_min") || EndsWith(key, "_max") then key[..|key| - 4]
    else key
  }

  /** The constraint one filter entry puts on a listing. A range bound that is not
      a number constrains nothing. */
  predicate AdmitsEntry(key: string, v: Val, x: Listing)
  {
    if key == "sort" || !Truthy(v) then true
    else if IsRangeKey(key) then
      match PyFloatVal(v)
      case None => true
      case Some(b) =>
        if IsMinKey(key) then x.measure(Dimension(key)) >= b
        else if IsMaxKey(key) then x.measure(Dimension(key)) <= b
        else true
    else ValEq(x.attribute(key), v)
  }

  /** The listings a search asks for. */
  predicate Admits(f: Dict, x: Listing)
  {
    forall i | 0 <= i < |f| :: AdmitsEntry(f[i].0, f[i].1, x)
  }

  /** Every range bound that is set is a number. */
  predicate BoundsParse(f: Dict)
  {
    forall i | 0 <= i < |f| :: IsRangeKey(f[i].0) && Truthy(f[i].1) ==> PyFloatVal(f[i].1).Some?
  }

  /** The per-key test with both spellings of the range keys compared by direction. */
  predicate EntryContained(key: string, cur: Val, existing: Dict)
  {
    if key == "sort" || !Truthy(cur) then true
    else
      var ex := GetOr(existing, key, Null);
      if !Truthy(ex) then true
      else if IsRangeKey(key) then
        match (PyFloatVal(cur), PyFloatVal(ex))
        case (Some(c), Some(e)) =>
          if IsMinKey(key) then !(c < e)
          else if IsMaxKey(key) then !(c > e)
          else true
        case _ => true
      else ValEq(cur, ex)
  }

  /** Every constraint of the historical search is also set in the current one. */
  predicate CoversHistory(current: Dict, existing: Dict)
  {
    forall j | 0 <= j < |existing| ::
      existing[j].0 == "sort" || !Truthy(existing[j].1) || Truthy(GetOr(current, existing[j].0, Null))
  }

  /** Containment as the program intends it: the current search can be answered
      by filtering the historical one's results. */
  predicate IsContainedSearch(current: Dict, existing: Dict)
  {
    |existing| > 0 &&
    (forall i | 0 <= i < |current| :: EntryContained(current[i].0, current[i].1, existing)) &&
    CoversHistory(current, existing)
  }

  /** Containment is sound: whatever the current search admits, the historical
      search admitted too. */
  lemma IsContainedSearchSound(current: Dict, existing: Dict, x: Listing)
    requires DistinctKeys(current) && DistinctKeys(existing)
    requires BoundsParse(current)
    requires IsContainedSearch(current, existing)
    requires Admits(current, x)
    ensures Admits(existing, x)
  {
    forall j | 0 <= j < |existing| ensures AdmitsEntry(existing[j].0, existing[j].1, x) {
      var k := existing[j].0;
      var ve := existing[j].1;
      if k != "sort" && Truthy(ve) {
        var vc := GetOr(current, k, Null);
        assert Truthy(vc);
        assert (k, vc) in current;
        var i :| 0 <= i < |current| && current[i] == (k, vc);
        assert EntryContained(k, vc, existing) && AdmitsEntry(k, vc, x);
        assert existing[j] in existing;
        LookupStored(existing, existing[j]);
        assert GetOr(existing, k, Null) == ve;
        if !IsRangeKey(k) {
          ValEqEquivalence(x.attribute(k), vc, ve);
        }
      }
    }
  }

  /** A search the source accepts that the historical search does not cover: the
      loop only visits the current keys, so a historical price cap goes unseen. */
  lemma IsSubsetSearchIgnoresHistoryOnlyKeys()
    ensures var current := [("jelleg", Str("lakas"))];
            var existing := [("jelleg", Str("lakas")), ("ar_max", Int(50))];
            var x := Listing(_ => 60.0, _ => Str("lakas"));
            IsSubsetSearch(current, existing) && Admits(current, x) && !Admits(existing, x)
            && !IsContainedSearch(current, existing)
  {
    HistoryOnlyKeyAccepted();
    HistoryOnlyKeyAdmits();
    HistoryOnlyKeyRejected();
  }

  lemma HistoryOnlyKeyAccepted()
    ensures IsSubsetSearch([("jelleg", Str("lakas"))], [("jelleg", Str("lakas")), ("ar_max", Int(50))])
  {
    var existing := [("jelleg", Str("lakas")), ("ar_max", Int(50))];
    assert Lookup(existing, "jelleg") == Some(Str("lakas"));
    assert "jelleg" !in NumericKeys;
    assert EntrySatisfied("jelleg", Str("lakas"), existing);
  }

  lemma HistoryOnlyKeyAdmits()
    ensures var x := Listing(_ => 60.0, _ => Str("lakas"));
            Admits([("jelleg", Str("lakas"))], x) &&
            !Admits([("jelleg", Str("lakas")), ("ar_max", Int(50))], x)
  {
    var x := Listing(_ => 60.0, _ => Str("lakas"));
    assert "jelleg" !in NumericKeys && "jelleg" !in CrawlerRangeKeys;
    assert AdmitsEntry("jelleg", Str("lakas"), x);
    assert "ar_max" in CrawlerRangeKeys;
    assert "ar_max"[..4] == "ar_m" && "ar_max"[2..] == "_max";
    assert !StartsWith("ar_max", "min_") by {
      assert "ar_max"[..4][0] != "min_"[0];
    }
    assert !EndsWith("ar_max", "_min") by {
      assert "ar_max"[2..][2] != "_min"[2];
    }
    assert !StartsWith("ar_max", "max_") by {
      assert "ar_max"[..4][0] != "max_"[0];
    }
    assert EndsWith("ar_max", "_max");
    assert !AdmitsEntry("ar_max", Int(50), x);
    var existing := [("jelleg", Str("lakas")), ("ar_max", Int(50))];
    assert existing[1] == ("ar_max", Int(50));
  }

  lemma HistoryOnlyKeyRejected()
    ensures !IsContainedSearch([("jelleg", Str("lakas"))], [("jelleg", Str("lakas")), ("ar_max", Int(50))])
  {
    var current := [("jelleg", Str("lakas"))];
    var existing := [("jelleg", Str("lakas")), ("ar_max", Int(50))];
    assert Lookup(current, "ar_max") == None;
    assert GetOr(current, "ar_max", Null) == Null;
    assert existing[1].0 == "ar_max";
    assert !CoversHistory(current, existing);
  }

  lemma PyFloatFifty()
    ensures PyFloat("50") == Some(50.0)
  {
    StripKeeps("50");
    assert FirstPiece("50", '.') == "50" by {
      assert FirstPiece("0", '.') == "0";
    }
    assert DigitsValue("50") == 50 by {
      assert "50"[..1] == "5";
      assert "5"[..0] == "";
    }
  }

  /** The crawler logs the interval-expanded size range as numbers (31 for a search
      from 50), while the results page asks with text ("50"): the source compares
      the two for equality and never reuses the broader crawl. */
  lemma CrawlerRangeNotSubset()
    ensures !IsSubsetSearch([("meret_min", Str("50"))], [("meret_min", Int(31))])
  {
    var current := [("meret_min", Str("50"))];
    var existing := [("meret_min", Int(31))];
    assert GetOr(existing, "meret_min", Null) == Int(31);
    assert "meret_min" !in NumericKeys;
    assert !EntrySatisfied(current[0].0, current[0].1, existing);
  }

  /** By direction the same pair is contained: 50 is no lower than 31. */
  lemma CrawlerRangeContained()
    ensures IsContainedSearch([("meret_min", Str("50"))], [("meret_min", Int(31))])
  {
    var current := [("meret_min", Str("50"))];
    var existing := [("meret_min", Int(31))];
    CrawlerRangeEntry();
    assert GetOr(current, "meret_min", Null) == Str("50");
    assert CoversHistory(current, existing);
  }

  /** The one entry of that pair, compared by direction. */
  lemma CrawlerRangeEntry()
    ensures EntryContained("meret_min", Str("50"), [("meret_min", Int(31))])
  {
    PyFloatFifty();
    var existing := [("meret_min", Int(31))];
    assert GetOr(existing, "meret_min", Null) == Int(31);
    assert IsRangeKey("meret_min") by {
      assert CrawlerRangeKeys[2] == "meret_min";
    }
    assert IsMinKey("meret_min") by {
      assert EndsWith("meret_min", "_min");
    }
    assert PyFloatVal(Str("50")) == Some(50.0) && PyFloatVal(Int(31)) == Some(31.0);
  }

  /** Any non-empty search is contained in itself, in both readings. */
  lemma ContainedInItself(f: Dict)
    requires DistinctKeys(f) && |f| > 0
    ensures IsSubsetSearch(f, f)
    ensures IsContainedSearch(f, f)
  {
    forall i | 0 <= i < |f|
      ensures EntrySatisfied(f[i].0, f[i].1, f) && EntryContained(f[i].0, f[i].1, f)
    {
      assert f[i] in f;
      LookupStored(f, f[i]);
      ValEqEquivalence(f[i].1, f[i].1, f[i].1);
    }
    forall j | 0 <= j < |f| ensures f[j].0 == "sort" || !Truthy(f[j].1) || Truthy(GetOr(f, f[j].0, Null)) {
      assert f[j] in f;
      LookupStored(f, f[j]);
    }
  }

  // ---------------------------------------------------------------------------
  // The recent-search scan
  // ---------------------------------------------------------------------------

  /** The rows logged strictly after `cutoff`, in log order. */
  function Window(log: Log, cutoff: int): (r: Log)
    ensures forall e :: e in r <==> e in log && e.searchedAt > cutoff
  {
    if |log| == 0 then []
    else
      assert forall e :: e in log <==> e == log[0] || e in log[1..];
      (if log[0].searchedAt > cutoff then [log[0]] else []) + Window(log[1..], cutoff)
  }

  predicate NewestFirst(s: Log)
  {
    forall i, j | 0 <= i < j < |s| :: s[i].searchedAt >= s[j].searchedAt
  }

  /** Inserts a row before the first strictly older one. */
  function InsertNewestFirst(e: LogEntry, s: Log): (r: Log)
    ensures multiset(r) == multiset(s) + multiset{e}
  {
    if |s| == 0 || s[0].searchedAt < e.searchedAt then [e] + s
    else
      assert s == [s[0]] + s[1..];
      [s[0]] + InsertNewestFirst(e, s[1..])
  }

  lemma {:induction false} InsertNewestFirstSorted(e: LogEntry, s: Log)
    requires NewestFirst(s)
    ensures NewestFirst(InsertNewestFirst(e, s))
    decreases |s|
  {
    if |s| > 0 && s[0].searchedAt >= e.searchedAt {
      var tail := InsertNewestFirst(e, s[1..]);
      assert NewestFirst(s[1..]) by {
        forall i, j | 0 <= i < j < |s[1..]| ensures s[1..][i].searchedAt >= s[1..][j].searchedAt {
          assert s[1..][i] == s[i + 1] && s[1..][j] == s[j + 1];
        }
      }
      InsertNewestFirstSorted(e, s[1..]);
      var r := InsertNewestFirst(e, s);
      assert r == [s[0]] + tail;
      InsertKeepsBound(e, s[1..], s[0].searchedAt);
      forall i, j | 0 < i < j < |r| ensures r[i].searchedAt >= r[j].searchedAt {
        assert r[i] == tail[i - 1] && r[j] == tail[j - 1];
      }
    }
  }

  /** No entry of `s` is newer than `t`. */
  predicate NoNewerThan(t: int, s: Log)
  {
    forall i | 0 <= i < |s| :: s[i].searchedAt <= t
  }

  lemma {:induction false} InsertKeepsBound(e: LogEntry, s: Log, t: int)
    requires e.searchedAt <= t && NoNewerThan(t, s)
    ensures NoNewerThan(t, InsertNewestFirst(e, s))
    decreases |s|
  {
    if |s| > 0 && s[0].searchedAt >= e.searchedAt {
      InsertKeepsBound(e, s[1..], t);
    }
  }

  /** `ORDER BY searched_at DESC` */
  function SortNewestFirst(s: Log): (r: Log)
    ensures multiset(r) == multiset(s)
    decreases |s|
  {
    if |s| == 0 then []
    else
      assert s == s[..|s| - 1] + [s[|s| - 1]];
      InsertNewestFirst(s[|s| - 1], SortNewestFirst(s[..|s| - 1]))
  }

  lemma {:induction false} SortNewestFirstSorted(s: Log)
    ensures NewestFirst(SortNewestFirst(s))
    decreases |s|
  {
    if |s| > 0 {
      SortNewestFirstSorted(s[..|s| - 1]);
      InsertNewestFirstSorted(s[|s| - 1], SortNewestFirst(s[..|s| - 1]));
    }
  }

  /** Which containment test the scan applies: `is_subset_search` as the
      program has it, or the corrected containment. */
  datatype Reading = AsWritten | Corrected

  predicate Answers(reading: Reading, search: Dict, existing: Dict)
  {
    match reading
    case AsWritten => IsSubsetSearch(search, existing)
    case Corrected => IsContainedSearch(search, existing)
  }

  /** A logged row answers the search: it parses and the search is contained in
      it, once both have lost their `sort` and falsy entries. */
  predicate Compatible(e: LogEntry, search: Dict, reading: Reading)
  {
    match Parse(e.filters)
    case Some(d) => Answers(reading, search, Compact(d))
    case None => false
  }

  lemma CompatibleParses(e: LogEntry, search: Dict, reading: Reading)
    ensures Compatible(e, search, reading) ==> Parse(e.filters).Some?
  {
  }

  /** The position of the first row that passes `ok`. */
  function FirstMatch(rows: Log, ok: LogEntry -> bool): (r: Option<nat>)
    ensures r.Some? ==> r.value < |rows| && ok(rows[r.value])
    ensures r.Some? ==> forall j | 0 <= j < r.value :: !ok(rows[j])
    ensures r.None? ==> forall i | 0 <= i < |rows| :: !ok(rows[i])
  {
    if |rows| == 0 then None
    else if ok(rows[0]) then Some(0)
    else
      match FirstMatch(rows[1..], ok)
      case None => None
      case Some(i) => Some(i + 1)
  }

  /** The loop of `find_recent_compatible_search`: the first compatible row's
      filters as logged; a row that does not parse is skipped. */
  function FirstCompatible(rows: Log, search: Dict, reading: Reading): (r: Option<Dict>)
    ensures r.None? <==> forall i | 0 <= i < |rows| :: !Compatible(rows[i], search, reading)
    ensures r.Some? ==> exists i | 0 <= i < |rows| ::
      Compatible(rows[i], search, reading) && Parse(rows[i].filters) == r &&
      forall j | 0 <= j < i :: !Compatible(rows[j], search, reading)
  {
    match FirstMatch(rows, e => Compatible(e, search, reading))
    case None => None
    case Some(i) =>
      CompatibleParses(rows[i], search, reading);
      Parse(rows[i].filters)
  }

  function Cutoff(now: int, hoursLimit: int): int
  {
    now - hoursLimit * SecondsPerHour
  }

  /** `find_recent_compatible_search`, with the program's containment test
      under `AsWritten`. */
  function FindRecentCompatible(log: Log, filters: Option<Dict>, now: int, hoursLimit: int, reading: Reading)
    : (r: Option<Dict>)
  {
    if filters.None? then None
    else FirstCompatible(SortNewestFirst(Window(log, Cutoff(now, hoursLimit))), Compact(filters.value), reading)
  }

  /** The rows the scan visits: exactly the logged rows inside the window, newest
      first. */
  lemma ScanRows(log: Log, cut: int)
    ensures var rows := SortNewestFirst(Window(log, cut));
            NewestFirst(rows) && forall e :: e in rows <==> e in log && e.searchedAt > cut
  {
    var w := Window(log, cut);
    var rows := SortNewestFirst(w);
    SortNewestFirstSorted(w);
    forall e ensures e in rows <==> e in w {
      assert e in rows <==> e in multiset(rows);
      assert e in w <==> e in multiset(w);
    }
  }

  /** The scan finds nothing exactly when no row inside the window is compatible. */
  lemma FindRecentNone(log: Log, f: Dict, now: int, hoursLimit: int, reading: Reading)
    ensures var cut := Cutoff(now, hoursLimit);
            FindRecentCompatible(log, Some(f), now, hoursLimit, reading).None? <==>
            forall i | 0 <= i < |log| && log[i].searchedAt > cut :: !Compatible(log[i], Compact(f), reading)
  {
    var cut := Cutoff(now, hoursLimit);
    var search := Compact(f);
    WindowNone(log, cut, e => Compatible(e, search, reading));
  }

  /** No row the scan visits passes `ok` exactly when no logged row inside the
      window does. */
  lemma WindowNone(log: Log, cut: int, ok: LogEntry -> bool)
    ensures var rows := SortNewestFirst(Window(log, cut));
            (forall i | 0 <= i < |rows| :: !ok(rows[i])) <==>
            (forall i | 0 <= i < |log| && log[i].searchedAt > cut :: !ok(log[i]))
  {
    var rows := SortNewestFirst(Window(log, cut));
    ScanRows(log, cut);
    if forall i | 0 <= i < |rows| :: !ok(rows[i]) {
      forall i | 0 <= i < |log| && log[i].searchedAt > cut
        ensures !ok(log[i])
      {
        assert log[i] in log;
        var m :| 0 <= m < |rows| && rows[m] == log[i];
      }
    } else {
      var m :| 0 <= m < |rows| && ok(rows[m]);
      assert rows[m] in rows;
      var k :| 0 <= k < |log| && log[k] == rows[m];
      assert log[k].searchedAt > cut && ok(log[k]);
    }
  }

  /** Row `k` is a compatible row inside the window and no compatible row inside
      the window is newer. */
  predicate NewestCompatible(log: Log, k: int, cut: int, search: Dict, reading: Reading)
  {
    0 <= k < |log| && log[k].searchedAt > cut && Compatible(log[k], search, reading) &&
    forall j | 0 <= j < |log| && log[j].searchedAt > cut && Compatible(log[j], search, reading) ::
      log[j].searchedAt <= log[k].searchedAt
  }

  /** What the scan finds is the logged filter set of a newest compatible row. */
  lemma FindRecentSome(log: Log, f: Dict, now: int, hoursLimit: int, reading: Reading)
    ensures var r := FindRecentCompatible(log, Some(f), now, hoursLimit, reading);
            r.Some? ==> exists k :: NewestCompatible(log, k, Cutoff(now, hoursLimit), Compact(f), reading) &&
                                    Parse(log[k].filters) == r
  {
    var cut := Cutoff(now, hoursLimit);
    var search := Compact(f);
    var rows := SortNewestFirst(Window(log, cut));
    var r := FirstCompatible(rows, search, reading);
    if r.Some? {
      var i :| 0 <= i < |rows| && Compatible(rows[i], search, reading) && Parse(rows[i].filters) == r &&
        forall j | 0 <= j < i :: !Compatible(rows[j], search, reading);
      var k := FirstIsNewest(log, cut, e => Compatible(e, search, reading), rows, i);
      assert NewestCompatible(log, k, cut, search, reading) && Parse(log[k].filters) == r;
    }
  }

  /** The first row of the scan that passes `ok` is a newest logged row inside
      the window that does. */
  lemma FirstIsNewest(log: Log, cut: int, ok: LogEntry -> bool, rows: Log, i: int) returns (k: int)
    requires rows == SortNewestFirst(Window(log, cut))
    requires 0 <= i < |rows| && ok(rows[i])
    requires forall j | 0 <= j < i :: !ok(rows[j])
    ensures 0 <= k < |log| && log[k] == rows[i] && log[k].searchedAt > cut
    ensures forall j | 0 <= j < |log| && log[j].searchedAt > cut && ok(log[j]) ::
              log[j].searchedAt <= log[k].searchedAt
  {
    ScanRows(log, cut);
    assert rows[i] in rows;
    k :| 0 <= k < |log| && log[k] == rows[i];
    forall j | 0 <= j < |log| && log[j].searchedAt > cut && ok(log[j])
      ensures log[j].searchedAt <= log[k].searchedAt
    {
      assert log[j] in log;
      FirstIsNewestIn(rows, ok, i, log[j]);
    }
  }

  lemma FirstIsNewestIn(rows: Log, ok: LogEntry -> bool, i: int, x: LogEntry)
    requires NewestFirst(rows)
    requires 0 <= i < |rows| && forall j | 0 <= j < i :: !ok(rows[j])
    requires x in rows && ok(x)
    ensures x.searchedAt <= rows[i].searchedAt
  {
    var m :| 0 <= m < |rows| && rows[m] == x;
    assert m >= i;
  }

  /** `should_scrape`: crawl unless a compatible recent search is found, in which
      case its filters come back. */
  function ShouldScrape(log: Log, filters: Option<Dict>, now: int, hoursLimit: int, reading: Reading)
    : (r: (bool, Option<Dict>))
    ensures r.0 <==> r.1.None?
  {
    var c := FindRecentCompatible(log, filters, now, hoursLimit, reading);
    if c.Some? && |c.value| > 0 then (false, c) else (true, None)
  }

  /** A compatible row never holds an empty filter set, so the truthiness test in
      `should_scrape` only asks whether one was found. */
  lemma ShouldScrapeSpec(log: Log, filters: Option<Dict>, now: int, hoursLimit: int, reading: Reading)
    ensures var r := ShouldScrape(log, filters, now, hoursLimit, reading);
            var c := FindRecentCompatible(log, filters, now, hoursLimit, reading);
            (r.0 <==> c.None?) && (!r.0 ==> r.1 == c)
  {
    if filters.Some? {
      FirstCompatibleNonEmpty(SortNewestFirst(Window(log, Cutoff(now, hoursLimit))), Compact(filters.value), reading);
    }
  }

  /** A log holding one search inside the window: the scan returns that search,
      as it reads back, exactly when the reading accepts the current search
      against it. */
  lemma OneRowScan(h: Dict, t: int, current: Dict, now: int, hoursLimit: int, reading: Reading)
    requires DistinctKeys(h) && t > Cutoff(now, hoursLimit)
    ensures var log := LogScrape([], Some(h), t);
            FindRecentCompatible(log, Some(current), now, hoursLimit, reading) ==
            if Answers(reading, Compact(current), Compact(SortByKey(h))) then Some(SortByKey(h)) else None
  {
    var log := LogScrape([], Some(h), t);
    var e := log[0];
    ParseSerialise(h);
    assert Window(log, Cutoff(now, hoursLimit)) == log;
    assert SortNewestFirst(log) == log;
    assert FirstMatch(log, x => Compatible(x, Compact(current), reading)) ==
           if Compatible(e, Compact(current), reading) then Some(0) else None;
  }

  /** The history `{"ar_max": 50, "jelleg": "lakas"}`, logged within the window. */
  function NarrowHistory(): Dict
  {
    [("ar_max", Int(50)), ("jelleg", Str("lakas"))]
  }

  lemma NarrowHistorySorted()
    ensures SortByKey(NarrowHistory()) == NarrowHistory()
  {
    var h := NarrowHistory();
    var a := ("ar_max", Int(50));
    var b := ("jelleg", Str("lakas"));
    var one: Dict := [a];
    assert h[..1] == one && h[1] == b;
    assert SortByKey(one) == one by {
      assert |one[..0]| == 0;
    }
    assert !LexLess(b.0, a.0) by {
      assert b.0[0] != a.0[0];
    }
    assert InsertByKey(b, one) == one + InsertByKey(b, []) by {
      assert |one[1..]| == 0;
    }
  }

  lemma NarrowHistoryCompact()
    ensures Compact(NarrowHistory()) == NarrowHistory()
  {
    var h := NarrowHistory();
    assert |h[1..][1..]| == 0;
    assert h[0].0 != "sort" && h[1].0 != "sort";
    assert Compact(h[1..]) == h[1..];
  }

  /** A one-pair search is already in key order, has distinct keys and, when its
      value is set and its key is not `sort`, compacts to itself. */
  lemma OnePair(p: (string, Val))
    ensures var d: Dict := [p];
            SortByKey(d) == d && DistinctKeys(d) &&
            (p.0 != "sort" && Truthy(p.1) ==> Compact(d) == d)
  {
    var d: Dict := [p];
    assert |d[..0]| == 0 && |d[1..]| == 0;
  }

  lemma NarrowHistoryDistinct()
    ensures DistinctKeys(NarrowHistory())
  {
    var h := NarrowHistory();
    assert h[0].0 != h[1].0 by {
      assert h[0].0[0] != h[1].0[0];
    }
  }

  /** The price limit set only in the history is never looked at as written... */
  lemma NarrowSubset()
    ensures IsSubsetSearch([("jelleg", Str("lakas"))], NarrowHistory())
  {
    var h := NarrowHistory();
    var current := [("jelleg", Str("lakas"))];
    assert GetOr(h, "jelleg", Null) == Str("lakas");
    assert "jelleg" !in NumericKeys;
    assert EntrySatisfied(current[0].0, current[0].1, h);
  }

  /** ...while the corrected containment asks the current search to set it too. */
  lemma NarrowNotContained()
    ensures !IsContainedSearch([("jelleg", Str("lakas"))], NarrowHistory())
  {
    var h := NarrowHistory();
    var current := [("jelleg", Str("lakas"))];
    assert GetOr(current, "ar_max", Null) == Null;
    assert h[0].0 == "ar_max" && Truthy(h[0].1);
    assert !CoversHistory(current, h);
  }

  /** As written, the scan reuses a history narrower than the current search:
      `should_scrape` answers "do not crawl" with a price limit the current
      search never set. The corrected scan crawls. */
  lemma ShouldScrapeReusesNarrower(now: int)
    ensures var log := LogScrape([], Some(NarrowHistory()), now);
            var current := Some([("jelleg", Str("lakas"))]);
            && ShouldScrape(log, current, now, DefaultHoursLimit, AsWritten) == (false, Some(NarrowHistory()))
            && ShouldScrape(log, current, now, DefaultHoursLimit, Corrected) == (true, None)
  {
    var h := NarrowHistory();
    var current := [("jelleg", Str("lakas"))];
    NarrowHistorySorted();
    NarrowHistoryCompact();
    NarrowHistoryDistinct();
    OnePair(current[0]);
    NarrowSubset();
    NarrowNotContained();
    OneRowScan(h, now, current, now, DefaultHoursLimit, AsWritten);
    OneRowScan(h, now, current, now, DefaultHoursLimit, Corrected);
  }

  /** As written, the scan ignores a broader crawl logged with numeric bounds when
      the current search gives its bound as text, and crawls again; the corrected
      scan reuses the logged crawl. */
  lemma ShouldScrapeMissesBroader(now: int)
    ensures var log := LogScrape([], Some([("meret_min", Int(31))]), now);
            var current := Some([("meret_min", Str("50"))]);
            && ShouldScrape(log, current, now, DefaultHoursLimit, AsWritten) == (true, None)
            && ShouldScrape(log, current, now, DefaultHoursLimit, Corrected) == (false, Some([("meret_min", Int(31))]))
  {
    var h := [("meret_min", Int(31))];
    var current := [("meret_min", Str("50"))];
    OnePair(h[0]);
    OnePair(current[0]);
    CrawlerRangeNotSubset();
    CrawlerRangeContained();
    OneRowScan(h, now, current, now, DefaultHoursLimit, AsWritten);
    OneRowScan(h, now, current, now, DefaultHoursLimit, Corrected);
  }

  lemma FirstCompatibleNonEmpty(rows: Log, search: Dict, reading: Reading)
    ensures FirstCompatible(rows, search, reading).Some? ==> |FirstCompatible(rows, search, reading).value| > 0
  {
    var m := FirstMatch(rows, e => Compatible(e, search, reading));
    if m.Some? {
      CompatibleNonEmpty(rows[m.value], search, reading);
    }
  }

  lemma CompatibleNonEmpty(e: LogEntry, search: Dict, reading: Reading)
    ensures Compatible(e, search, reading) ==> Parse(e.filters).Some? && |Parse(e.filters).value| > 0
  {
  }
}
