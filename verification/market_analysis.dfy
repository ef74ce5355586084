/** Market segmentation and the value score.

    Listings are grouped into segments by location, type, condition and size
    interval; a listing's price per square metre is compared with the mean of
    its segment (or of a broader one), and the comparison feeds a 0-100 score.
    The database reads are replaced by the rows they return, passed in.
 */
module MarketAnalysis {
  import opened Common
  import opened Decimal

  // ---------------------------------------------------------------------------
  // Size intervals
  // ---------------------------------------------------------------------------

  /** The upper end of an interval or of a search range: a number or no limit. */
  datatype Upper = Finite(v: real) | Infinite

  predicate UpperLe(a: Upper, b: Upper)
  {
    b.Infinite? || (a.Finite? && a.v <= b.v)
  }

  datatype Interval = Interval(lo: real, hi: Upper)

  predicate InInterval(iv: Interval, x: real)
  {
    iv.lo <= x && (iv.hi.Finite? ==> x <= iv.hi.v)
  }

  /** `SIZE_INTERVALS`, in square metres. The bounds are whole numbers, so a size
      strictly between two intervals (30.5) belongs to neither. */
  const SizeIntervals: seq<Interval> := [
    Interval(0.0, Finite(30.0)), Interval(31.0, Finite(50.0)), Interval(51.0, Finite(70.0)),
    Interval(71.0, Finite(90.0)), Interval(91.0, Finite(120.0)), Interval(121.0, Finite(150.0)),
    Interval(151.0, Finite(200.0)), Interval(201.0, Finite(300.0)), Interval(301.0, Finite(500.0)),
    Interval(501.0, Infinite)]

  /** Every interval ends below the start of every later one. */
  lemma IntervalsOrdered(i: int, j: int)
    requires 0 <= i < j < |SizeIntervals|
    ensures SizeIntervals[i].hi.Finite? && SizeIntervals[i].hi.v < SizeIntervals[j].lo
  {
  }

  /** A later interval ends strictly higher. */
  lemma LaterEndsHigher(i: int, j: int)
    requires 0 <= i < j < |SizeIntervals|
    ensures !UpperLe(SizeIntervals[j].hi, SizeIntervals[i].hi)
  {
    IntervalsOrdered(i, j);
  }

  /** The first interval of `ivs` that holds `x`. */
  function FirstContaining(ivs: seq<Interval>, x: real): (r: Option<Interval>)
    ensures r.Some? ==> r.value in ivs && InInterval(r.value, x)
    ensures r.None? <==> forall i | 0 <= i < |ivs| :: !InInterval(ivs[i], x)
  {
    if |ivs| == 0 then None
    else if InInterval(ivs[0], x) then Some(ivs[0])
    else
      assert forall i | 1 <= i < |ivs| :: ivs[i] == ivs[1..][i - 1];
      FirstContaining(ivs[1..], x)
  }

  /** `get_size_interval`: a size of 0 is falsy and has no interval. */
  function SizeInterval(size: real): (r: Option<Interval>)
    ensures r.Some? ==> size != 0.0 && r.value in SizeIntervals && InInterval(r.value, size)
    ensures r.None? <==> size == 0.0 || forall i | 0 <= i < |SizeIntervals| :: !InInterval(SizeIntervals[i], size)
  {
    if size == 0.0 then None else FirstContaining(SizeIntervals, size)
  }

  /** The interval found is the only table interval holding the size. */
  lemma SizeIntervalUnique(size: real, iv: Interval)
    ensures SizeInterval(size) == Some(iv) <==> size != 0.0 && iv in SizeIntervals && InInterval(iv, size)
  {
    if size != 0.0 && iv in SizeIntervals && InInterval(iv, size) {
      var r := SizeInterval(size);
      var j :| 0 <= j < |SizeIntervals| && SizeIntervals[j] == iv;
      assert r.Some?;
      var i :| 0 <= i < |SizeIntervals| && SizeIntervals[i] == r.value;
      if i < j {
        IntervalsOrdered(i, j);
      } else if j < i {
        IntervalsOrdered(j, i);
      }
    }
  }

  /** Every whole size from 1 up lies in an interval. */
  lemma WholeSizesCovered(n: int)
    requires n >= 0
    ensures exists i | 0 <= i < |SizeIntervals| :: InInterval(SizeIntervals[i], n as real)
  {
    var k := if n <= 30 then 0 else if n <= 50 then 1 else if n <= 70 then 2 else if n <= 90 then 3
      else if n <= 120 then 4 else if n <= 150 then 5 else if n <= 200 then 6 else if n <= 300 then 7
      else if n <= 500 then 8 else 9;
    assert InInterval(SizeIntervals[k], n as real);
  }

  /** Sizes in the gaps, zero and negative sizes have no interval; an interval's
      upper end belongs to it. */
  lemma SizeIntervalExamples()
    ensures SizeInterval(30.5) == None
    ensures SizeInterval(0.0) == None
    ensures SizeInterval(-5.0) == None
    ensures SizeInterval(50.0) == Some(Interval(31.0, Finite(50.0)))
  {
    SizeIntervalUnique(50.0, Interval(31.0, Finite(50.0)));
  }

  // ---------------------------------------------------------------------------
  // Expanding a search range to whole intervals
  // ---------------------------------------------------------------------------

  /** An interval meets the range `[lo, hi]`, ends included. */
  predicate Overlaps(iv: Interval, lo: real, hi: Upper)
  {
    !((iv.hi.Finite? && iv.hi.v < lo) || (hi.Finite? && iv.lo > hi.v))
  }

  /** The intervals of `ivs` that meet the range, in table order. */
  function Overlapping(ivs: seq<Interval>, lo: real, hi: Upper): (r: seq<Interval>)
    ensures forall iv :: iv in r <==> iv in ivs && Overlaps(iv, lo, hi)
  {
    if |ivs| == 0 then []
    else
      assert forall iv :: iv in ivs <==> iv == ivs[0] || iv in ivs[1..];
      (if Overlaps(ivs[0], lo, hi) then [ivs[0]] else []) + Overlapping(ivs[1..], lo, hi)
  }

  /** The least lower end. */
  function MinLo(ivs: seq<Interval>): (r: real)
    requires |ivs| > 0
    ensures exists i | 0 <= i < |ivs| :: ivs[i].lo == r
    ensures forall i | 0 <= i < |ivs| :: r <= ivs[i].lo
  {
    if |ivs| == 1 then ivs[0].lo
    else
      var m := MinLo(ivs[1..]);
      assert forall i | 1 <= i < |ivs| :: ivs[i] == ivs[1..][i - 1];
      if ivs[0].lo <= m then ivs[0].lo else m
  }

  /** The greatest upper end, no limit being the greatest. */
  function MaxHi(ivs: seq<Interval>): (r: Upper)
    requires |ivs| > 0
    ensures exists i | 0 <= i < |ivs| :: ivs[i].hi == r
    ensures forall i | 0 <= i < |ivs| :: UpperLe(ivs[i].hi, r)
  {
    if |ivs| == 1 then ivs[0].hi
    else
      var m := MaxHi(ivs[1..]);
      assert forall i | 1 <= i < |ivs| :: ivs[i] == ivs[1..][i - 1];
      if UpperLe(m, ivs[0].hi) then ivs[0].hi else m
  }

  /** A size search: none at all, or a range whose top may be open. */
  datatype SizeRange = NoSizeRange | SizeRange(lo: real, hi: Upper)

  /** `x` is the least lower end among the table intervals meeting `[lo, hi]`. */
  predicate LeastOverlappingLo(x: real, lo: real, hi: Upper)
  {
    (exists i | 0 <= i < |SizeIntervals| :: Overlaps(SizeIntervals[i], lo, hi) && SizeIntervals[i].lo == x) &&
    forall i | 0 <= i < |SizeIntervals| && Overlaps(SizeIntervals[i], lo, hi) :: x <= SizeIntervals[i].lo
  }

  /** `x` is the greatest upper end among the table intervals meeting `[lo, hi]`. */
  predicate GreatestOverlappingHi(x: Upper, lo: real, hi: Upper)
  {
    (exists i | 0 <= i < |SizeIntervals| :: Overlaps(SizeIntervals[i], lo, hi) && SizeIntervals[i].hi == x) &&
    forall i | 0 <= i < |SizeIntervals| && Overlaps(SizeIntervals[i], lo, hi) :: UpperLe(SizeIntervals[i].hi, x)
  }

  /** The range-to-intervals step of `get_required_intervals_for_search`: the
      smallest union of whole intervals meeting the range, or the range itself
      when no interval meets it. An open top stays open. */
  function Expand(lo: real, hi: Upper): (r: SizeRange)
    ensures r.SizeRange?
    ensures (forall i | 0 <= i < |SizeIntervals| :: !Overlaps(SizeIntervals[i], lo, hi)) ==> r == SizeRange(lo, hi)
    ensures (exists i | 0 <= i < |SizeIntervals| :: Overlaps(SizeIntervals[i], lo, hi)) ==>
              LeastOverlappingLo(r.lo, lo, hi) && GreatestOverlappingHi(r.hi, lo, hi)
  {
    var req := Overlapping(SizeIntervals, lo, hi);
    if |req| == 0 then
      assert forall i | 0 <= i < |SizeIntervals| :: SizeIntervals[i] in SizeIntervals;
      SizeRange(lo, hi)
    else
      var l := MinLo(req);
      var h := MaxHi(req);
      assert forall i | 0 <= i < |req| :: req[i] in req;
      assert forall i | 0 <= i < |SizeIntervals| && Overlaps(SizeIntervals[i], lo, hi) :: SizeIntervals[i] in req;
      SizeRange(l, h)
  }

  /** A whole-number search range with `lo <= hi` is covered by its expansion. */
  lemma ExpandCovers(lo: int, hi: Upper)
    requires 0 <= lo
    requires hi.Finite? ==> lo as real <= hi.v && hi.v == hi.v.Floor as real
    ensures var r := Expand(lo as real, hi);
            r.lo <= lo as real && UpperLe(hi, r.hi)
  {
    var r := Expand(lo as real, hi);
    WholeSizesCovered(lo);
    var i :| 0 <= i < |SizeIntervals| && InInterval(SizeIntervals[i], lo as real);
    assert Overlaps(SizeIntervals[i], lo as real, hi);
    if hi.Finite? {
      WholeSizesCovered(hi.v.Floor);
      var j :| 0 <= j < |SizeIntervals| && InInterval(SizeIntervals[j], hi.v);
      assert Overlaps(SizeIntervals[j], lo as real, hi);
    } else {
      assert Overlaps(SizeIntervals[9], lo as real, hi);
    }
  }

  /** The expansion starts at the first table interval meeting the range. */
  lemma ExpandLoIsFirst(lo: real, hi: Upper, k: int)
    requires 0 <= k < |SizeIntervals| && Overlaps(SizeIntervals[k], lo, hi)
    requires forall j | 0 <= j < k :: !Overlaps(SizeIntervals[j], lo, hi)
    ensures Expand(lo, hi).lo == SizeIntervals[k].lo
  {
    var r := Expand(lo, hi);
    var i :| 0 <= i < |SizeIntervals| && Overlaps(SizeIntervals[i], lo, hi) && SizeIntervals[i].lo == r.lo;
    assert r.lo <= SizeIntervals[k].lo;
    if i > k {
      IntervalsOrdered(k, i);
      IntervalNonEmpty(k);
    }
  }

  lemma IntervalNonEmpty(k: int)
    requires 0 <= k < |SizeIntervals|
    ensures SizeIntervals[k].hi.Finite? ==> SizeIntervals[k].lo <= SizeIntervals[k].hi.v
  {
  }

  /** The expansion ends at the last table interval meeting the range. */
  lemma ExpandHiIsLast(lo: real, hi: Upper, k: int)
    requires 0 <= k < |SizeIntervals| && Overlaps(SizeIntervals[k], lo, hi)
    requires forall j | k < j < |SizeIntervals| :: !Overlaps(SizeIntervals[j], lo, hi)
    ensures Expand(lo, hi).hi == SizeIntervals[k].hi
  {
    var r := Expand(lo, hi);
    var i :| 0 <= i < |SizeIntervals| && Overlaps(SizeIntervals[i], lo, hi) && SizeIntervals[i].hi == r.hi;
    assert UpperLe(SizeIntervals[k].hi, r.hi);
    if i < k {
      LaterEndsHigher(i, k);
    }
  }

  /** A bound equal to an interval's end pulls in that interval: 50-70 becomes
      31-70. */
  lemma ExpandFiftySeventy()
    ensures var r := Expand(50.0, Finite(70.0));
            r.lo == 31.0 && r.hi == Finite(70.0)
  {
    ExpandLoIsFirst(50.0, Finite(70.0), 1);
    forall j | 2 < j < |SizeIntervals| ensures !Overlaps(SizeIntervals[j], 50.0, Finite(70.0)) {
      IntervalsOrdered(2, j);
    }
    ExpandHiIsLast(50.0, Finite(70.0), 2);
  }

  /** An open top stays open: 50 with no maximum becomes 31 with none. */
  lemma ExpandFiftyOpen()
    ensures var r := Expand(50.0, Infinite);
            r.lo == 31.0 && r.hi == Infinite
  {
    ExpandLoIsFirst(50.0, Infinite, 1);
    ExpandHiIsLast(50.0, Infinite, 9);
  }

  /** `float(v) if v else 0` for the minimum; `None` stands for the `ValueError`. */
  function ParsedMin(v: Val): Option<real>
  {
    if Truthy(v) then PyFloatVal(v) else Some(0.0)
  }

  /** `float(v) if v else float('inf')` for the maximum. */
  function ParsedMax(v: Val): Option<Upper>
  {
    if !Truthy(v) then Some(Infinite)
    else match PyFloatVal(v)
      case Some(x) => Some(Finite(x))
      case None => None
  }

  /** `get_required_intervals_for_search(min_size, max_size)`. `None` stands for
      the `ValueError` a non-numeric bound raises; an open top is `Infinite`. */
  function RequiredIntervals(minSize: Val, maxSize: Val): (r: Option<SizeRange>)
    ensures r == Some(NoSizeRange) <==> !Truthy(minSize) && !Truthy(maxSize)
    ensures r.None? <==> (Truthy(minSize) || Truthy(maxSize)) && (ParsedMin(minSize).None? || ParsedMax(maxSize).None?)
    ensures r.Some? && r.value.SizeRange? ==>
              ParsedMin(minSize).Some? && ParsedMax(maxSize).Some? &&
              r.value == Expand(ParsedMin(minSize).value, ParsedMax(maxSize).value)
  {
    if !Truthy(minSize) && !Truthy(maxSize) then Some(NoSizeRange)
    else
      var lo := ParsedMin(minSize);
      var hi := ParsedMax(maxSize);
      if lo.None? || hi.None? then None else Some(Expand(lo.value, hi.value))
  }

  // ---------------------------------------------------------------------------
  // Statistics over a list of numbers
  // ---------------------------------------------------------------------------

  function Sum(xs: seq<real>): real
  {
    if |xs| == 0 then 0.0 else Sum(xs[..|xs| - 1]) + xs[|xs| - 1]
  }

  /** `min(xs)` */
  function MinOf(xs: seq<real>): (r: real)
    requires |xs| > 0
    ensures r in xs && forall i | 0 <= i < |xs| :: r <= xs[i]
  {
    if |xs| == 1 then xs[0]
    else
      var m := MinOf(xs[1..]);
      assert forall i | 1 <= i < |xs| :: xs[i] == xs[1..][i - 1];
      if xs[0] <= m then xs[0] else m
  }

  /** `max(xs)` */
  function MaxOf(xs: seq<real>): (r: real)
    requires |xs| > 0
    ensures r in xs && forall i | 0 <= i < |xs| :: xs[i] <= r
  {
    if |xs| == 1 then xs[0]
    else
      var m := MaxOf(xs[1..]);
      assert forall i | 1 <= i < |xs| :: xs[i] == xs[1..][i - 1];
      if xs[0] >= m then xs[0] else m
  }

  /** A sum of values between `lo` and `hi` lies between `n * lo` and `n * hi`. */
  lemma {:induction false} SumBounds(xs: seq<real>, lo: real, hi: real)
    requires forall i | 0 <= i < |xs| :: lo <= xs[i] <= hi
    ensures |xs| as real * lo <= Sum(xs) <= |xs| as real * hi
    decreases |xs|
  {
    if |xs| > 0 {
      var init := xs[..|xs| - 1];
      assert forall i | 0 <= i < |init| :: init[i] == xs[i];
      SumBounds(init, lo, hi);
      assert |xs| as real * lo == |init| as real * lo + lo;
      assert |xs| as real * hi == |init| as real * hi + hi;
    }
  }

  /** `statistics.mean` */
  function Mean(xs: seq<real>): real
    requires |xs| > 0
  {
    Sum(xs) / |xs| as real
  }

  /** Dividing by a positive count keeps the bounds. */
  lemma DivideBounds(a: real, n: real, lo: real, hi: real)
    requires n > 0.0 && n * lo <= a <= n * hi
    ensures lo <= a / n <= hi
  {
  }

  /** The mean of values between `lo` and `hi` lies between them too. */
  lemma MeanBetween(xs: seq<real>, lo: real, hi: real)
    requires |xs| > 0
    requires forall i | 0 <= i < |xs| :: lo <= xs[i] <= hi
    ensures lo <= Mean(xs) <= hi
  {
    SumBounds(xs, lo, hi);
    DivideBounds(Sum(xs), |xs| as real, lo, hi);
  }

  /** The mean lies between the least and the greatest value. */
  lemma MeanBounds(xs: seq<real>)
    requires |xs| > 0
    ensures MinOf(xs) <= Mean(xs) <= MaxOf(xs)
  {
    MeanBetween(xs, MinOf(xs), MaxOf(xs));
  }

  predicate Ascending(s: seq<real>)
  {
    forall i, j | 0 <= i < j < |s| :: s[i] <= s[j]
  }

  /** Inserts `x` before the first larger element. */
  function InsertAscending(x: real, s: seq<real>): (r: seq<real>)
    ensures multiset(r) == multiset(s) + multiset{x}
  {
    if |s| == 0 || x <= s[0] then [x] + s
    else
      assert s == [s[0]] + s[1..];
      [s[0]] + InsertAscending(x, s[1..])
  }

  lemma {:induction false} InsertAscendingSorted(x: real, s: seq<real>)
    requires Ascending(s)
    ensures Ascending(InsertAscending(x, s))
    decreases |s|
  {
    if |s| > 0 && x > s[0] {
      var tail := InsertAscending(x, s[1..]);
      assert Ascending(s[1..]) by {
        forall i, j | 0 <= i < j < |s[1..]| ensures s[1..][i] <= s[1..][j] {
          assert s[1..][i] == s[i + 1] && s[1..][j] == s[j + 1];
        }
      }
      InsertAscendingSorted(x, s[1..]);
      var r := InsertAscending(x, s);
      assert r == [s[0]] + tail;
      InsertKeepsBound(x, s[1..], s[0]);
      forall i, j | 0 < i < j < |r| ensures r[i] <= r[j] {
        assert r[i] == tail[i - 1] && r[j] == tail[j - 1];
      }
    }
  }

  /** No element of `s` is below `b`. */
  predicate AtLeast(b: real, s: seq<real>)
  {
    forall i | 0 <= i < |s| :: b <= s[i]
  }

  lemma {:induction false} InsertKeepsBound(x: real, s: seq<real>, b: real)
    requires b <= x && AtLeast(b, s)
    ensures AtLeast(b, InsertAscending(x, s))
    decreases |s|
  {
    if |s| > 0 && x > s[0] {
      InsertKeepsBound(x, s[1..], b);
    }
  }

  /** `sorted(xs)` */
  function SortAscending(s: seq<real>): (r: seq<real>)
    ensures multiset(r) == multiset(s)
    decreases |s|
  {
    if |s| == 0 then []
    else
      assert s == s[..|s| - 1] + [s[|s| - 1]];
      InsertAscending(s[|s| - 1], SortAscending(s[..|s| - 1]))
  }

  lemma {:induction false} SortAscendingSorted(s: seq<real>)
    ensures Ascending(SortAscending(s))
    decreases |s|
  {
    if |s| > 0 {
      SortAscendingSorted(s[..|s| - 1]);
      InsertAscendingSorted(s[|s| - 1], SortAscending(s[..|s| - 1]));
    }
  }

  /** `statistics.median`: the middle of the sorted values, or the mean of the two
      middle ones when their number is even. */
  function Median(xs: seq<real>): real
    requires |xs| > 0
  {
    var s := SortAscending(xs);
    assert |s| == |multiset(s)| == |multiset(xs)| == |xs|;
    var n := |s|;
    if n % 2 == 1 then s[n / 2] else (s[n / 2 - 1] + s[n / 2]) / 2.0
  }

  /** The median lies between the least and the greatest value, and at least
      half of the values are on either side of it. */
  lemma MedianBounds(xs: seq<real>)
    requires |xs| > 0
    ensures MinOf(xs) <= Median(xs) <= MaxOf(xs)
  {
    var s := SortAscending(xs);
    assert |s| == |multiset(s)| == |multiset(xs)| == |xs|;
    var n := |s|;
    forall i | 0 <= i < n ensures MinOf(xs) <= s[i] <= MaxOf(xs) {
      assert s[i] in multiset(s);
      assert s[i] in xs;
      var k :| 0 <= k < |xs| && xs[k] == s[i];
    }
    if n % 2 == 0 {
      assert 0 <= n / 2 - 1;
    }
  }

  // ---------------------------------------------------------------------------
  // Market segments
  // ---------------------------------------------------------------------------

  /** A row of the listings table as the statistics read it: location, type,
      condition, cleaned size and cleaned price, each possibly NULL. */
  datatype DbRow = DbRow(location: Option<string>, kind: Option<string>, condition: Option<string>,
                         size: Option<real>, price: Option<real>)

  /** The rows the statistics query selects: every column set, size and price
      positive. */
  predicate Selected(row: DbRow)
  {
    row.location.Some? && row.kind.Some? && row.condition.Some? && row.size.Some? && row.price.Some? &&
    row.size.value > 0.0 && row.price.value > 0.0
  }

  /** A selected row whose size falls in a table interval; the others are skipped. */
  predicate Segmented(row: DbRow)
  {
    Selected(row) && SizeInterval(row.size.value).Some?
  }

  datatype SegmentKey = SegmentKey(location: string, kind: string, condition: string, interval: Interval)

  function KeyOf(row: DbRow): (k: SegmentKey)
    requires Segmented(row)
    ensures k.interval in SizeIntervals && InInterval(k.interval, row.size.value)
  {
    SegmentKey(row.location.value, row.kind.value, row.condition.value, SizeInterval(row.size.value).value)
  }

  function PricePerSqm(row: DbRow): (r: real)
    requires Selected(row)
    ensures r > 0.0 && r * row.size.value == row.price.value
  {
    row.price.value / row.size.value
  }

  /** The rows that fall in segment `key`, in table order. */
  function SegmentRows(rows: seq<DbRow>, key: SegmentKey): (r: seq<DbRow>)
    ensures forall i | 0 <= i < |r| :: InSegment(r[i], key)
    ensures forall x :: x in r <==> x in rows && InSegment(x, key)
  {
    if |rows| == 0 then []
    else
      assert forall x :: x in rows <==> x == rows[0] || x in rows[1..];
      (if InSegment(rows[0], key) then [rows[0]] else []) + SegmentRows(rows[1..], key)
  }

  /** The row is segmented and belongs to the segment `key`. */
  predicate InSegment(row: DbRow, key: SegmentKey)
  {
    Segmented(row) && KeyOf(row) == key
  }

  /** The segmented rows, in table order. */
  function SegmentedRows(rows: seq<DbRow>): (r: seq<DbRow>)
    ensures forall i | 0 <= i < |r| :: Segmented(r[i])
    ensures forall x :: x in r <==> x in rows && Segmented(x)
  {
    if |rows| == 0 then []
    else
      assert forall x :: x in rows <==> x == rows[0] || x in rows[1..];
      (if Segmented(rows[0]) then [rows[0]] else []) + SegmentedRows(rows[1..])
  }

  /** The segment of every segmented row, in table order. */
  function RowKeys(rows: seq<DbRow>): (r: seq<SegmentKey>)
    ensures forall k :: k in r <==> exists x | x in rows :: Segmented(x) && KeyOf(x) == k
  {
    if |rows| == 0 then []
    else
      var rest := RowKeys(rows[1..]);
      assert forall x :: x in rows <==> x == rows[0] || x in rows[1..];
      (if Segmented(rows[0]) then [KeyOf(rows[0])] else []) + rest
  }

  predicate DistinctSeq<T(==)>(s: seq<T>)
  {
    forall i, j | 0 <= i < j < |s| :: s[i] != s[j]
  }

  /** The distinct elements in order of first appearance: the key order of a
      dictionary filled in that order. */
  function Dedupe(s: seq<SegmentKey>): (r: seq<SegmentKey>)
    ensures forall x :: x in r <==> x in s
    ensures DistinctSeq(r)
  {
    if |s| == 0 then []
    else
      var t := Dedupe(s[..|s| - 1]);
      var x := s[|s| - 1];
      assert forall y :: y in s <==> y in s[..|s| - 1] || y == x by {
        assert s == s[..|s| - 1] + [x];
      }
      if x in t then t else t + [x]
  }

  /** The keys with at least two rows, order kept. */
  function Populous(rows: seq<DbRow>, ks: seq<SegmentKey>): (r: seq<SegmentKey>)
    ensures forall k :: k in r <==> k in ks && |SegmentRows(rows, k)| >= 2
    ensures forall i | 0 <= i < |r| :: |SegmentRows(rows, r[i])| >= 2
    ensures DistinctSeq(ks) ==> DistinctSeq(r)
  {
    if |ks| == 0 then []
    else
      assert forall k :: k in ks <==> k == ks[0] || k in ks[1..];
      var t := Populous(rows, ks[1..]);
      assert DistinctSeq(ks) ==> DistinctSeq(ks[1..]) && ks[0] !in ks[1..] by {
        if DistinctSeq(ks) {
          forall i, j | 0 <= i < j < |ks[1..]| ensures ks[1..][i] != ks[1..][j] {
            assert ks[1..][i] == ks[i + 1] && ks[1..][j] == ks[j + 1];
          }
          forall k | k in ks[1..] ensures k != ks[0] {
            var j :| 0 <= j < |ks[1..]| && ks[1..][j] == k;
            assert ks[j + 1] == k;
          }
        }
      }
      if |SegmentRows(rows, ks[0])| >= 2 then [ks[0]] + t else t
  }

  /** The statistics of one segment; the standard deviation is left out. */
  datatype SegmentStats = SegmentStats(count: nat, mean: real, median: real, min: real, max: real,
                                       members: seq<DbRow>)

  function PricesPerSqm(members: seq<DbRow>): (r: seq<real>)
    requires forall i | 0 <= i < |members| :: Selected(members[i])
    ensures |r| == |members| && forall i | 0 <= i < |r| :: r[i] == PricePerSqm(members[i])
  {
    seq(|members|, i requires 0 <= i < |members| => PricePerSqm(members[i]))
  }

  function StatsOf(members: seq<DbRow>): (s: SegmentStats)
    requires |members| >= 2 && forall i | 0 <= i < |members| :: Selected(members[i])
    ensures s.count == |members| && s.members == members
  {
    var xs := PricesPerSqm(members);
    SegmentStats(|members|, Mean(xs), Median(xs), MinOf(xs), MaxOf(xs), members)
  }

  /** The figures of a segment are consistent: the least price per square metre
      is at most the mean and the median, which are at most the greatest, and the
      least and greatest are prices of members. */
  lemma StatsOfBounds(members: seq<DbRow>)
    requires |members| >= 2 && forall i | 0 <= i < |members| :: Selected(members[i])
    ensures var s := StatsOf(members);
            s.min <= s.mean <= s.max && s.min <= s.median <= s.max && 0.0 < s.min &&
            (exists i | 0 <= i < |members| :: PricePerSqm(members[i]) == s.min) &&
            (exists i | 0 <= i < |members| :: PricePerSqm(members[i]) == s.max) &&
            forall i | 0 <= i < |members| :: s.min <= PricePerSqm(members[i]) <= s.max
  {
    var xs := PricesPerSqm(members);
    MeanBounds(xs);
    MedianBounds(xs);
    var i :| 0 <= i < |xs| && xs[i] == MinOf(xs);
    var j :| 0 <= j < |xs| && xs[j] == MaxOf(xs);
  }

  type MarketStats = seq<(SegmentKey, SegmentStats)>

  /** What the statistics promise: every segment has at least two members and a
      positive mean price per square metre. */
  predicate ValidStats(stats: MarketStats)
  {
    forall i | 0 <= i < |stats| :: stats[i].1.count >= 2 && stats[i].1.mean > 0.0
  }

  /** `calculate_market_stats` over the rows of the listings table: one entry
      per segment with at least two rows, in order of the segment's first row. */
  function CalculateMarketStats(rows: seq<DbRow>): (r: MarketStats)
    ensures forall i | 0 <= i < |r| ::
              |SegmentRows(rows, r[i].0)| >= 2 && r[i].1 == StatsOf(SegmentRows(rows, r[i].0))
    ensures ValidStats(r)
  {
    var ks := Populous(rows, Dedupe(RowKeys(rows)));
    var r := seq(|ks|, i requires 0 <= i < |ks| => (ks[i], StatsOf(SegmentRows(rows, ks[i]))));
    assert ValidStats(r) by {
      forall i | 0 <= i < |r| ensures r[i].1.count >= 2 && r[i].1.mean > 0.0 {
        StatsMeanPositive(SegmentRows(rows, ks[i]));
      }
    }
    r
  }

  lemma StatsMeanPositive(members: seq<DbRow>)
    requires |members| >= 2 && forall i | 0 <= i < |members| :: Selected(members[i])
    ensures StatsOf(members).mean > 0.0
  {
    var xs := PricesPerSqm(members);
    var lo := MinOf(xs);
    MeanBetween(xs, lo, MaxOf(xs));
    var k :| 0 <= k < |xs| && xs[k] == lo;
    assert xs[k] == PricePerSqm(members[k]);
  }

  /** A segment appears exactly when at least two rows fall in it, and it appears
      once. */
  lemma MarketStatsSegments(rows: seq<DbRow>, key: SegmentKey)
    ensures var r := CalculateMarketStats(rows);
            (exists i | 0 <= i < |r| :: r[i].0 == key) <==> |SegmentRows(rows, key)| >= 2
    ensures var r := CalculateMarketStats(rows);
            forall i, j | 0 <= i < j < |r| :: r[i].0 != r[j].0
  {
    var ks := Populous(rows, Dedupe(RowKeys(rows)));
    var r := CalculateMarketStats(rows);
    assert forall i | 0 <= i < |r| :: r[i].0 == ks[i];
    if |SegmentRows(rows, key)| >= 2 {
      var x := SegmentRows(rows, key)[0];
      assert x in SegmentRows(rows, key);
      assert key in RowKeys(rows);
      var i :| 0 <= i < |ks| && ks[i] == key;
      assert r[i].0 == key;
    }
  }

  // ---------------------------------------------------------------------------
  // The insight for one property
  // ---------------------------------------------------------------------------

  /** Which segment the property was compared with. */
  datatype Comparison = Exact | SameLocationType | SameDistrictType

  /** The value assessment, from best to worst. */
  datatype Assessment = Excellent | GoodValue | MarketAverage | AboveAverage | Expensive
  {
    /** The label the program stores. */
    function Text(): string
    {
      match this
      case Excellent => "Kiváló ár-érték arány"
      case GoodValue => "Jó ár-érték arány"
      case MarketAverage => "Piaci átlag"
      case AboveAverage => "Piaci átlag felett"
      case Expensive => "Drága"
    }

    function Rank(): nat
    {
      match this
      case Excellent => 0
      case GoodValue => 1
      case MarketAverage => 2
      case AboveAverage => 3
      case Expensive => 4
    }
  }

  /** The assessment of a deviation in percent; every threshold is inclusive. */
  function Label(diffPct: real): (a: Assessment)
    ensures a == Excellent <==> diffPct <= -15.0
    ensures a == GoodValue <==> -15.0 < diffPct <= -5.0
    ensures a == MarketAverage <==> -5.0 < diffPct <= 5.0
    ensures a == AboveAverage <==> 5.0 < diffPct <= 15.0
    ensures a == Expensive <==> 15.0 < diffPct
  {
    if diffPct <= -15.0 then Excellent
    else if diffPct <= -5.0 then GoodValue
    else if diffPct <= 5.0 then MarketAverage
    else if diffPct <= 15.0 then AboveAverage
    else Expensive
  }

  /** A dearer property never gets a better assessment. */
  lemma LabelMonotone(a: real, b: real)
    requires a <= b
    ensures Label(a).Rank() <= Label(b).Rank()
  {
  }

  /** Every assessment has its own label. */
  lemma LabelTextsDistinct(a: Assessment, b: Assessment)
    ensures a.Text() == b.Text() <==> a == b
  {
    if a != b {
      assert a.Text()[0] != b.Text()[0] || a.Text()[1] != b.Text()[1] || |a.Text()| != |b.Text()|;
    }
  }

  datatype Insight = Insight(pricePerSqm: real, marketAvg: real, diffPct: real, diffAbsolute: real,
                             sampleCount: nat, comparison: Comparison, assessment: Assessment,
                             interval: Interval)

  /** A dictionary's `get(key)`, for the statistics and the condition table:
      the entry of the key, if the table lists it. */
  function TableGet<K(==), V>(table: seq<(K, V)>, key: K): (r: Option<V>)
    ensures r.None? <==> forall i | 0 <= i < |table| :: table[i].0 != key
    ensures r.Some? ==> exists i | 0 <= i < |table| :: table[i].0 == key && table[i].1 == r.value
  {
    if |table| == 0 then None
    else if table[0].0 == key then Some(table[0].1)
    else
      assert forall i | 1 <= i < |table| :: table[i] == table[1..][i - 1];
      TableGet(table[1..], key)
  }

  /** How a segment of the statistics can stand in for the property's own
      segment: same location and type (any condition), or else same type and
      condition in the same district, the district being the location up to its
      first comma. Both need the same size interval. */
  function FallbackKind(key: SegmentKey, location: string, kind: string, condition: string, iv: Interval): Option<Comparison>
  {
    if location == key.location && kind == key.kind && iv == key.interval then Some(SameLocationType)
    else if kind == key.kind && condition == key.condition && iv == key.interval &&
            FirstPiece(location, ',') == FirstPiece(key.location, ',') then Some(SameDistrictType)
    else None
  }

  /** The first fallback segment in the order of the statistics. */
  function FirstFallback(stats: MarketStats, location: string, kind: string, condition: string, iv: Interval)
    : (r: Option<(Comparison, SegmentStats)>)
    ensures r.None? <==> forall i | 0 <= i < |stats| :: FallbackKind(stats[i].0, location, kind, condition, iv).None?
    ensures r.Some? ==> exists i | 0 <= i < |stats| ::
              FallbackKind(stats[i].0, location, kind, condition, iv) == Some(r.value.0) && stats[i].1 == r.value.1 &&
              forall j | 0 <= j < i :: FallbackKind(stats[j].0, location, kind, condition, iv).None?
  {
    if |stats| == 0 then None
    else
      var c := FallbackKind(stats[0].0, location, kind, condition, iv);
      if c.Some? then Some((c.value, stats[0].1))
      else
        assert forall i | 1 <= i < |stats| :: stats[i] == stats[1..][i - 1];
        FirstFallback(stats[1..], location, kind, condition, iv)
  }

  /** Truthiness of an optional number: present and not zero. */
  predicate TruthyNum(x: Option<real>)
  {
    x.Some? && x.value != 0.0
  }

  /** The inputs an insight needs: every field truthy, size and price positive,
      and a size interval for the size. */
  predicate InsightInputs(location: Option<string>, kind: Option<string>, condition: Option<string>,
                          size: Option<real>, price: Option<real>)
  {
    TruthyStr(location) && TruthyStr(kind) && TruthyStr(condition) && TruthyNum(size) && TruthyNum(price) &&
    size.value > 0.0 && price.value > 0.0 && SizeInterval(size.value).Some?
  }

  /** The property's own segment. */
  function OwnSegment(location: Option<string>, kind: Option<string>, condition: Option<string>,
                      size: Option<real>, price: Option<real>): SegmentKey
    requires InsightInputs(location, kind, condition, size, price)
  {
    SegmentKey(location.value, kind.value, condition.value, SizeInterval(size.value).value)
  }

  /** The segment chosen for the comparison: the segment itself when it has
      statistics, else the first fallback. */
  function ChooseSegment(stats: MarketStats, key: SegmentKey): (r: Option<(Comparison, SegmentStats)>)
    requires ValidStats(stats)
    ensures r.Some? ==> r.value.1.count >= 2 && r.value.1.mean > 0.0
    ensures r.Some? && r.value.0 == Exact <==> TableGet(stats, key).Some?
    ensures r.None? <==> TableGet(stats, key).None? &&
                         FirstFallback(stats, key.location, key.kind, key.condition, key.interval).None?
  {
    match TableGet(stats, key)
    case Some(s) => Some((Exact, s))
    case None =>
      var f := FirstFallback(stats, key.location, key.kind, key.condition, key.interval);
      assert f.Some? ==> f.value.1.count >= 2 && f.value.1.mean > 0.0 by {
        if f.Some? {
          var i :| 0 <= i < |stats| && stats[i].1 == f.value.1;
        }
      }
      f
  }

  /** The comparison of a price per square metre with a segment mean. */
  function Compare(pricePerSqm: real, c: Comparison, s: SegmentStats, iv: Interval): (r: Insight)
    requires s.mean > 0.0
    ensures r.diffPct * s.mean == (pricePerSqm - s.mean) * 100.0
    ensures r.diffAbsolute == pricePerSqm - s.mean && r.assessment == Label(r.diffPct)
    ensures r.pricePerSqm == pricePerSqm && r.marketAvg == s.mean && r.sampleCount == s.count
    ensures r.comparison == c && r.interval == iv
  {
    var d := (pricePerSqm - s.mean) / s.mean * 100.0;
    Insight(pricePerSqm, s.mean, d, pricePerSqm - s.mean, s.count, c, Label(d), iv)
  }

  /** The insight for a property of the given segment, size and price: its
      price per square metre against the mean of the chosen segment. */
  function SegmentInsight(stats: MarketStats, key: SegmentKey, size: real, price: real): (r: Option<Insight>)
    requires ValidStats(stats)
    requires size > 0.0
    ensures r.None? <==> ChooseSegment(stats, key).None?
    ensures r.Some? ==> r.value.interval == key.interval && r.value.pricePerSqm == price / size
    ensures r.Some? ==> r.value.assessment == Label(r.value.diffPct)
    ensures r.Some? ==> (r.value.comparison == Exact <==> TableGet(stats, key).Some?)
    ensures r.Some? ==> r.value.marketAvg == ChooseSegment(stats, key).value.1.mean &&
                        r.value.sampleCount == ChooseSegment(stats, key).value.1.count
  {
    match ChooseSegment(stats, key)
    case None => None
    case Some(choice) =>
      Some(Compare(price / size, choice.0, choice.1, key.interval))
  }

  /** An insight's figures: the mean is positive and drawn from at least two
      listings, and the deviation is the percentage difference of the price per
      square metre from the mean. */
  lemma InsightFigures(stats: MarketStats, key: SegmentKey, size: real, price: real)
    requires ValidStats(stats)
    requires size > 0.0
    ensures var r := SegmentInsight(stats, key, size, price);
            r.Some? ==> r.value.marketAvg > 0.0 && r.value.sampleCount >= 2 &&
                        r.value.diffPct * r.value.marketAvg == (r.value.pricePerSqm - r.value.marketAvg) * 100.0
  {
    var r := SegmentInsight(stats, key, size, price);
    if r.Some? {
      var c := ChooseSegment(stats, key).value;
      var x := Compare(price / size, c.0, c.1, key.interval);
      assert r.value == x;
    }
  }

  /** `get_property_market_insight` against given statistics. */
  function InsightFrom(stats: MarketStats, location: Option<string>, kind: Option<string>, condition: Option<string>,
                       size: Option<real>, price: Option<real>): (r: Option<Insight>)
    requires ValidStats(stats)
    ensures r.Some? ==> InsightInputs(location, kind, condition, size, price)
    ensures InsightInputs(location, kind, condition, size, price) ==>
              r == SegmentInsight(stats, OwnSegment(location, kind, condition, size, price), size.value, price.value)
  {
    if !InsightInputs(location, kind, condition, size, price) then None
    else SegmentInsight(stats, OwnSegment(location, kind, condition, size, price), size.value, price.value)
  }

  /** `get_property_market_insight(lokacio, jelleg, allapot, meret, price)` over
      the rows of the listings table. */
  function PropertyInsight(rows: seq<DbRow>, location: Option<string>, kind: Option<string>, condition: Option<string>,
                           size: Option<real>, price: Option<real>): Option<Insight>
  {
    MarketStatsValid(rows);
    InsightFrom(CalculateMarketStats(rows), location, kind, condition, size, price)
  }

  lemma MarketStatsValid(rows: seq<DbRow>)
    ensures ValidStats(CalculateMarketStats(rows))
  {
  }

  /** The comparison uses the property's own segment whenever it has statistics;
      otherwise the first fallback, and without one there is no insight. */
  lemma InsightComparison(stats: MarketStats, key: SegmentKey, size: real, price: real)
    requires ValidStats(stats)
    requires size > 0.0
    ensures var r := SegmentInsight(stats, key, size, price);
            (TableGet(stats, key).Some? ==> r.Some? && r.value.comparison == Exact) &&
            (TableGet(stats, key).None? ==>
               (r.None? <==> forall i | 0 <= i < |stats| :: FallbackKind(stats[i].0, key.location, key.kind, key.condition, key.interval).None?) &&
               (r.Some? ==> r.value.comparison != Exact))
  {
  }

  /** Missing, zero or negative inputs and sizes without an interval give no
      insight. */
  lemma InsightNeedsInputs(rows: seq<DbRow>, location: Option<string>, kind: Option<string>, condition: Option<string>,
                           size: Option<real>, price: Option<real>)
    requires !TruthyStr(location) || !TruthyStr(kind) || !TruthyStr(condition) || !TruthyNum(size) || !TruthyNum(price) ||
             size.value <= 0.0 || price.value <= 0.0 || SizeInterval(size.value).None?
    ensures PropertyInsight(rows, location, kind, condition, size, price).None?
  {
  }

  // ---------------------------------------------------------------------------
  // The enhanced worth-it score
  // ---------------------------------------------------------------------------

  /** The market component of the score (0 to 50 points), piecewise linear in the
      deviation from the segment mean, with a drop from 30 to 20 points as the
      price crosses the mean. */
  function MarketComponent(diffPct: real): (r: real)
    ensures 0.0 <= r <= 50.0
    ensures diffPct <= 0.0 ==> r >= 30.0
    ensures diffPct > 0.0 ==> r < 20.0
  {
    if diffPct <= -20.0 then 50.0
    else if diffPct <= -10.0 then 40.0 + ((-10.0 - diffPct) / 10.0) * 10.0
    else if diffPct <= 0.0 then 30.0 + ((0.0 - diffPct) / 10.0) * 10.0
    else if diffPct <= 10.0 then 20.0 - (diffPct / 10.0) * 10.0
    else if diffPct <= 20.0 then 10.0 - ((diffPct - 10.0) / 10.0) * 10.0
    else 0.0
  }

  /** A larger deviation never earns more market points. */
  lemma MarketComponentMonotone(a: real, b: real)
    requires a <= b
    ensures MarketComponent(b) <= MarketComponent(a)
  {
  }

  lemma MarketComponentPoints()
    ensures MarketComponent(-20.0) == 50.0 && MarketComponent(-10.0) == 40.0 && MarketComponent(0.0) == 30.0
    ensures MarketComponent(5.0) == 15.0 && MarketComponent(10.0) == 10.0 && MarketComponent(20.0) == 0.0
  {
  }

  /** `str.lower` on one character, for the letters of the Latin-1 range and the
      Hungarian double-acute vowels. */
  function LowerChar(c: char): (r: char)
    ensures 'A' <= c <= 'Z' ==> r as int == c as int + 32
    ensures 'a' <= c <= 'z' ==> r == c
  {
    var n := c as int;
    if 'A' <= c <= 'Z' then (n + 32) as char
    else if 0xC0 <= n <= 0xDE && n != 0xD7 then (n + 32) as char
    else if n == 0x150 || n == 0x170 then (n + 1) as char
    else c
  }

  function Lower(s: string): (r: string)
    ensures |r| == |s|
    ensures forall i | 0 <= i < |s| :: r[i] == LowerChar(s[i])
  {
    seq(|s|, i requires 0 <= i < |s| => LowerChar(s[i]))
  }

  /** Lower-casing twice is lower-casing once. */
  lemma LowerIdempotent(s: string)
    ensures Lower(Lower(s)) == Lower(s)
  {
  }

  /** `'ház' in jelleg.lower()` */
  predicate IsHouse(kind: string)
  {
    Contains(Lower(kind), "ház")
  }

  /** `'lakás' in jelleg.lower()` */
  predicate IsApartment(kind: string)
  {
    Contains(Lower(kind), "lakás")
  }

  lemma KindExamples()
    ensures IsHouse("Ház")
    ensures !IsHouse("Lakás")
  {
    assert Lower("Ház") == "ház";
    assert Lower("Lakás") == "lakás";
    assert !Contains("lakás", "ház") by {
      ContainsFirstChar("lakás", "ház");
    }
  }

  /** Room points for a house from its rooms per 100 square metres. */
  function HouseRoomPoints(density: real): (r: real)
    ensures 8.0 <= r <= 25.0
  {
    if density >= 2.5 then 25.0
    else if density >= 2.0 then 22.0
    else if density >= 1.5 then 18.0
    else if density >= 1.2 then 15.0
    else if density >= 1.0 then 12.0
    else 8.0
  }

  /** Room points for any other property from its rooms per 100 square metres. */
  function ApartmentRoomPoints(density: real): (r: real)
    ensures 5.0 <= r <= 25.0
  {
    if density >= 4.0 then 25.0
    else if density >= 3.0 then 20.0
    else if density >= 2.5 then 15.0
    else if density >= 2.0 then 10.0
    else 5.0
  }

  /** Rooms per 100 square metres. */
  function RoomDensity(rooms: int, size: real): real
    requires size > 0.0
  {
    rooms as real / size * 100.0
  }

  /** The room-efficiency component: 10 points when the room count is missing or
      zero; houses of 300 square metres or more get 3 extra points. */
  function RoomComponent(kind: string, rooms: Option<int>, size: real): (r: real)
    requires size > 0.0
    ensures 5.0 <= r <= 28.0
    ensures rooms.None? || rooms.value == 0 ==> r == 10.0
    ensures r > 25.0 ==> IsHouse(kind) && size >= 300.0
  {
    if rooms.Some? && rooms.value != 0 then
      var density := RoomDensity(rooms.value, size);
      if IsHouse(kind) then HouseRoomPoints(density) + (if size >= 300.0 then 3.0 else 0.0)
      else ApartmentRoomPoints(density)
    else 10.0
  }

  lemma DensityMonotone(a: int, b: int, size: real)
    requires a <= b && size > 0.0
    ensures RoomDensity(a, size) <= RoomDensity(b, size)
  {
    assert a as real / size <= b as real / size by {
      assert (b as real - a as real) / size >= 0.0;
    }
  }

  /** More rooms in the same size never earn fewer room points. */
  lemma RoomComponentMonotone(kind: string, a: int, b: int, size: real)
    requires 0 < a <= b && size > 0.0
    ensures RoomComponent(kind, Some(a), size) <= RoomComponent(kind, Some(b), size)
  {
    DensityMonotone(a, b, size);
  }

  /** The confidence component from the segment's sample count. */
  function ConfidenceComponent(count: nat): (r: real)
    ensures 2.0 <= r <= 15.0
    ensures count >= 2 ==> r == 5.0 || r == 8.0 || r == 12.0 || r == 15.0
    ensures r == 15.0 <==> count >= 10
  {
    if count >= 10 then 15.0
    else if count >= 5 then 12.0
    else if count >= 3 then 8.0
    else if count >= 2 then 5.0
    else 2.0
  }

  /** A larger sample never earns fewer confidence points. */
  lemma ConfidenceMonotone(a: nat, b: nat)
    requires a <= b
    ensures ConfidenceComponent(a) <= ConfidenceComponent(b)
  {
  }

  /** Points per condition label. */
  const ConditionPoints: seq<(string, real)> :=
    [("Kiváló", 10.0), ("Jó", 8.0), ("Átlagos", 5.0), ("Felújítandó", 2.0), ("Rossz", 0.0)]

  /** `condition_scores.get(allapot, 5)` */
  function ConditionComponent(condition: string): (r: real)
    ensures 0.0 <= r <= 10.0
    ensures forall i | 0 <= i < |ConditionPoints| :: ConditionPoints[i].0 == condition ==> r == ConditionPoints[i].1
    ensures (forall i | 0 <= i < |ConditionPoints| :: ConditionPoints[i].0 != condition) ==> r == 5.0
  {
    match TableGet(ConditionPoints, condition)
    case Some(p) => p
    case None => 5.0
  }

  /** The luxury size bonus: 3 points for houses over 400 square metres, else 2
      for apartments over 150. */
  function SizeBonus(kind: string, size: real): (r: real)
    ensures 0.0 <= r <= 3.0
    ensures r == 3.0 <==> IsHouse(kind) && size > 400.0
    ensures r == 2.0 <==> !(IsHouse(kind) && size > 400.0) && IsApartment(kind) && size > 150.0
  {
    if IsHouse(kind) && size > 400.0 then 3.0
    else if IsApartment(kind) && size > 150.0 then 2.0
    else 0.0
  }

  /** The sum of the five components before the cap. */
  function ScoreTotal(insight: Insight, kind: string, condition: string, size: real, rooms: Option<int>): (t: real)
    requires insight.sampleCount >= 2 && size > 0.0
    ensures 10.0 <= t <= 106.0
  {
    MarketComponent(insight.diffPct) + RoomComponent(kind, rooms, size) + ConfidenceComponent(insight.sampleCount) +
    ConditionComponent(condition) + SizeBonus(kind, size)
  }

  /** The simple score: rooms times 1000 over the price per square metre.
      `None` stands for the `TypeError` of a missing value and the
      `ZeroDivisionError` of a zero size or price. */
  function ProxyScore(price: Option<real>, size: Option<real>, rooms: Option<int>): (r: Option<real>)
    ensures r.Some? <==> price.Some? && size.Some? && rooms.Some? && size.value != 0.0 && price.value != 0.0
    ensures r.Some? ==> r.value * price.value == (rooms.value * 1000) as real * size.value
  {
    if price.Some? && size.Some? && rooms.Some? && size.value != 0.0 && price.value != 0.0 then
      ProxyDivision((rooms.value * 1000) as real, price.value, size.value);
      Some((rooms.value * 1000) as real / (price.value / size.value))
    else None
  }

  lemma ProxyDivision(a: real, p: real, s: real)
    requires p != 0.0 && s != 0.0
    ensures (a / (p / s)) * p == a * s
  {
    var q := p / s;
    assert q * s == p;
    assert q != 0.0;
    assert (a / q) * q == a;
    calc {
      (a / q) * p;
      (a / q) * (q * s);
      ((a / q) * q) * s;
    }
  }

  function Cap(t: real): (r: real)
    ensures r <= 100.0 && r <= t
    ensures r == t || r == 100.0
  {
    if t <= 100.0 then t else 100.0
  }

  /** `calculate_enhanced_worth_it_score`: the capped component score when the
      property has a market insight, the simple score otherwise. */
  function EnhancedScore(rows: seq<DbRow>, location: Option<string>, kind: Option<string>, condition: Option<string>,
                         size: Option<real>, price: Option<real>, rooms: Option<int>): (r: Option<real>)
    ensures PropertyInsight(rows, location, kind, condition, size, price).Some? ==>
              r.Some? && 10.0 <= r.value <= 100.0
    ensures PropertyInsight(rows, location, kind, condition, size, price).None? ==>
              r == ProxyScore(price, size, rooms)
  {
    MarketStatsValid(rows);
    match PropertyInsight(rows, location, kind, condition, size, price)
    case None => ProxyScore(price, size, rooms)
    case Some(insight) =>
      Some(Cap(ScoreTotal(insight, kind.value, condition.value, size.value, rooms)))
  }

  /** With the same segment and size, a lower price gives a deviation no larger. */
  lemma CheaperDeviatesLess(stats: MarketStats, key: SegmentKey, size: real, p1: real, p2: real)
    requires ValidStats(stats) && size > 0.0 && p1 <= p2
    ensures SegmentInsight(stats, key, size, p2).Some? ==>
              && SegmentInsight(stats, key, size, p1).Some?
              && SegmentInsight(stats, key, size, p1).value.diffPct <= SegmentInsight(stats, key, size, p2).value.diffPct
  {
    if SegmentInsight(stats, key, size, p2).Some? {
      var c := ChooseSegment(stats, key).value;
      DivideMonotone(p1, p2, size);
      CompareMonotone(p1 / size, p2 / size, c.0, c.1, key.interval);
    }
  }

  lemma DivideMonotone(p1: real, p2: real, size: real)
    requires size > 0.0 && p1 <= p2
    ensures p1 / size <= p2 / size
  {
  }

  /** A higher price per square metre deviates more from the same mean. */
  lemma CompareMonotone(x1: real, x2: real, c: Comparison, s: SegmentStats, iv: Interval)
    requires s.mean > 0.0 && x1 <= x2
    ensures Compare(x1, c, s, iv).diffPct <= Compare(x2, c, s, iv).diffPct
  {
    DeviationStep(x1, x2, s.mean);
  }

  lemma DeviationStep(x1: real, x2: real, m: real)
    requires m > 0.0 && x1 <= x2
    ensures (x1 - m) / m * 100.0 <= (x2 - m) / m * 100.0
  {
    DivideMonotone(x1 - m, x2 - m, m);
  }

  /** Everything else being equal, a cheaper property has an insight too, its
      deviation is no larger and it rests on the same number of listings. */
  lemma CheaperInsight(rows: seq<DbRow>, location: Option<string>, kind: Option<string>, condition: Option<string>,
                       size: Option<real>, p1: real, p2: real)
    requires 0.0 < p1 <= p2
    ensures PropertyInsight(rows, location, kind, condition, size, Some(p2)).Some? ==>
              && PropertyInsight(rows, location, kind, condition, size, Some(p1)).Some?
              && var a := PropertyInsight(rows, location, kind, condition, size, Some(p1)).value;
                 var b := PropertyInsight(rows, location, kind, condition, size, Some(p2)).value;
                 a.diffPct <= b.diffPct && a.sampleCount == b.sampleCount &&
                 a.assessment == Label(a.diffPct) && b.assessment == Label(b.diffPct)
  {
    if PropertyInsight(rows, location, kind, condition, size, Some(p2)).Some? {
      var stats := CalculateMarketStats(rows);
      assert InsightInputs(location, kind, condition, size, Some(p2));
      assert InsightInputs(location, kind, condition, size, Some(p1));
      var key := OwnSegment(location, kind, condition, size, Some(p1));
      assert key == OwnSegment(location, kind, condition, size, Some(p2));
      CheaperDeviatesLess(stats, key, size.value, p1, p2);
    }
  }

  /** Everything else being equal, a cheaper property never gets a worse
      assessment. */
  lemma CheaperRanksNoWorse(rows: seq<DbRow>, location: Option<string>, kind: Option<string>, condition: Option<string>,
                            size: Option<real>, p1: real, p2: real)
    requires 0.0 < p1 <= p2
    ensures PropertyInsight(rows, location, kind, condition, size, Some(p2)).Some? ==>
              && PropertyInsight(rows, location, kind, condition, size, Some(p1)).Some?
              && PropertyInsight(rows, location, kind, condition, size, Some(p1)).value.assessment.Rank() <=
                 PropertyInsight(rows, location, kind, condition, size, Some(p2)).value.assessment.Rank()
  {
    CheaperInsight(rows, location, kind, condition, size, p1, p2);
    if PropertyInsight(rows, location, kind, condition, size, Some(p2)).Some? {
      var a := PropertyInsight(rows, location, kind, condition, size, Some(p1)).value;
      var b := PropertyInsight(rows, location, kind, condition, size, Some(p2)).value;
      LabelMonotone(a.diffPct, b.diffPct);
    }
  }

  /** Everything else being equal, a cheaper property never gets a lower
      enhanced score. */
  lemma CheaperScoresNoLower(rows: seq<DbRow>, location: Option<string>, kind: Option<string>, condition: Option<string>,
                             size: Option<real>, p1: real, p2: real, rooms: Option<int>)
    requires 0.0 < p1 <= p2
    ensures PropertyInsight(rows, location, kind, condition, size, Some(p2)).Some? ==>
              EnhancedScore(rows, location, kind, condition, size, Some(p1), rooms).value >=
              EnhancedScore(rows, location, kind, condition, size, Some(p2), rooms).value
  {
    CheaperInsight(rows, location, kind, condition, size, p1, p2);
    if PropertyInsight(rows, location, kind, condition, size, Some(p2)).Some? {
      var a := PropertyInsight(rows, location, kind, condition, size, Some(p1)).value;
      var b := PropertyInsight(rows, location, kind, condition, size, Some(p2)).value;
      assert InsightInputs(location, kind, condition, size, Some(p1));
      ScoreMonotone(a, b, kind.value, condition.value, size.value, rooms);
    }
  }

  /** The capped score falls as the deviation grows, the rest being equal. */
  lemma ScoreMonotone(a: Insight, b: Insight, kind: string, condition: string, size: real, rooms: Option<int>)
    requires a.sampleCount >= 2 && a.sampleCount == b.sampleCount && size > 0.0
    requires a.diffPct <= b.diffPct
    ensures Cap(ScoreTotal(a, kind, condition, size, rooms)) >= Cap(ScoreTotal(b, kind, condition, size, rooms))
  {
    MarketComponentMonotone(a.diffPct, b.diffPct);
  }
}
