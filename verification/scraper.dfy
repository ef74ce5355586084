/** The crawler: which collected listings are re-fetched, how a detail page is
    turned into a record, and how records are stored.

    The network, the HTML parser, the thread pool and the clock are outside the
    model: a fetched page body, the parser's output for a body and the current
    time are parameters. */
module Scraper {
  import opened Common
  import opened Decimal
  import opened Dicts
  import Normalizer
  import ResponseCache

  // ---------------------------------------------------------------------------
  // Regular-expression search for a run of one character class
  // ---------------------------------------------------------------------------

  /** The two classes searched for: `\d` and `[\d,.\s]`. */
  datatype CharClass = Digits | PriceChars

  predicate InClass(c: char, cls: CharClass)
  {
    match cls
    case Digits => IsDigit(c)
    case PriceChars => IsDigit(c) || c == ',' || c == '.' || IsSpace(c)
  }

  /** `s[b..e]` is what `re.search` with `class+` finds: the leftmost run of the
      class, taken as long as possible. */
  predicate IsMatch(s: string, cls: CharClass, b: int, e: int)
  {
    && 0 <= b < e <= |s|
    && (forall j :: 0 <= j < b ==> !InClass(s[j], cls))
    && (forall j :: b <= j < e ==> InClass(s[j], cls))
    && (e == |s| || !InClass(s[e], cls))
  }

  function SkipOutside(s: string, cls: CharClass, i: nat): (b: nat)
    requires i <= |s|
    ensures i <= b <= |s|
    ensures forall j :: i <= j < b ==> !InClass(s[j], cls)
    ensures b < |s| ==> InClass(s[b], cls)
    decreases |s| - i
  {
    if i < |s| && !InClass(s[i], cls) then SkipOutside(s, cls, i + 1) else i
  }

  function RunEnd(s: string, cls: CharClass, i: nat): (e: nat)
    requires i <= |s|
    ensures i <= e <= |s|
    ensures forall j :: i <= j < e ==> InClass(s[j], cls)
    ensures e == |s| || !InClass(s[e], cls)
    decreases |s| - i
  {
    if i < |s| && InClass(s[i], cls) then RunEnd(s, cls, i + 1) else i
  }

  /** `re.search(class + "+", s)`: the bounds of the match, if any. */
  function Search(s: string, cls: CharClass): (r: Option<(nat, nat)>)
    ensures r.None? <==> forall j :: 0 <= j < |s| ==> !InClass(s[j], cls)
    ensures r.Some? ==> IsMatch(s, cls, r.value.0, r.value.1)
  {
    var b := SkipOutside(s, cls, 0);
    if b == |s| then None else Some((b, RunEnd(s, cls, b)))
  }

  /** There is only one leftmost longest match, so the search is exactly the
      regular-expression semantics. */
  lemma SearchUnique(s: string, cls: CharClass, b: int, e: int)
    requires IsMatch(s, cls, b, e)
    ensures Search(s, cls) == Some((b, e))
  {
    var r := Search(s, cls);
    assert InClass(s[b], cls);
    var (b', e') := r.value;
    assert InClass(s[b'], cls);
    assert b' == b;
    if e' < |s| {
      assert !InClass(s[e'], cls);
    }
    if e < |s| {
      assert !InClass(s[e], cls);
    }
  }

  // ---------------------------------------------------------------------------
  // Change detection
  // ---------------------------------------------------------------------------

  /** What the database already holds: URL to (price text, size text). */
  type Existing = map<Val, (Val, Val)>

  /** `listing_needs_update`: a listing is fetched again when its URL is new or its
      price or size text differs from the stored one. */
  predicate NeedsUpdate(listing: Dict, existing: Existing)
  {
    var url := GetOr(listing, "url", Null);
    url !in existing
    || !ValEq(existing[url].0, GetOr(listing, "price_huf", Str("")))
    || !ValEq(existing[url].1, GetOr(listing, "size", Str("")))
  }

  /** Remembering a listing's own price and size makes it unchanged, and it is
      changed again as soon as its stored price differs from the current one. */
  lemma NeedsUpdateAfterStore(listing: Dict, existing: Existing, price: Val)
    ensures var url := GetOr(listing, "url", Null);
            var cur := (GetOr(listing, "price_huf", Str("")), GetOr(listing, "size", Str("")));
            && !NeedsUpdate(listing, existing[url := cur])
            && (!ValEq(price, cur.0) ==> NeedsUpdate(listing, existing[url := (price, cur.1)]))
  {
    var cur := (GetOr(listing, "price_huf", Str("")), GetOr(listing, "size", Str("")));
    ValEqEquivalence(cur.0, cur.0, cur.0);
    ValEqEquivalence(cur.1, cur.1, cur.1);
  }

  /** A listing whose URL is not stored always needs fetching. */
  lemma NewListingNeedsUpdate(listing: Dict, existing: Existing)
    requires GetOr(listing, "url", Null) !in existing
    ensures NeedsUpdate(listing, existing)
  {
  }

  // ---------------------------------------------------------------------------
  // The pre-filter on price and size
  // ---------------------------------------------------------------------------

  function Delete(s: string, pat: string): string
    requires |pat| > 0
  {
    ReplaceAll(s, pat, "")
  }

  /** The price the pre-filter reads from a listing's price text: with an "M" it is
      millions, otherwise the first run of digits, commas, dots and white space
      after the spaces are deleted. `None` covers both "no number" and the
      `ValueError`/`TypeError` that make the filter skip the price. */
  function PriceFilterNumber(price: Val): (r: Option<real>)
    ensures !price.Str? ==> r.None?
  {
    if !price.Str? then None
    else if Contains(price.s, "M") then
      match PyFloat(Normalizer.CommaToDot(Delete(Delete(price.s, "M"), " ")))
      case Some(x) => Some(x * 1000000.0)
      case None => None
    else
      var q := Delete(price.s, " ");
      match Search(q, PriceChars)
      case None => None
      case Some((b, e)) => PyFloat(Delete(Normalizer.CommaToDot(q[b..e]), " "))
  }

  /** The size the pre-filter reads: the first run of digits. */
  function SizeFilterNumber(size: Val): (r: Option<real>)
    ensures r.Some? ==> r.value >= 0.0
    ensures r.None? <==> !size.Str? || forall j :: 0 <= j < |size.s| ==> !IsDigit(size.s[j])
  {
    match size
    case Str(s) =>
      (match Search(s, Digits)
       case None => None
       case Some((b, e)) =>
         assert AllDigits(s[b..e]) by {
           forall j | 0 <= j < e - b ensures IsDigit(s[b..e][j]) {
             assert s[b..e][j] == s[b + j];
           }
         }
         Some(DigitsValue(s[b..e]) as real))
    case _ => None
  }

  /** A supplied upper bound that parses, and a number above it. */
  predicate AboveMax(x: real, hi: Val, scale: real)
  {
    Truthy(hi) && PyFloatVal(hi).Some? && x > PyFloatVal(hi).value * scale
  }

  /** The bound checks of the pre-filter: the lower bound is checked first, and
      one that does not parse abandons the check of the upper bound as well. */
  predicate OutOfBounds(x: real, lo: Val, hi: Val, scale: real)
  {
    if Truthy(lo) then
      match PyFloatVal(lo)
      case None => false
      case Some(l) => x < l * scale || AboveMax(x, hi, scale)
    else AboveMax(x, hi, scale)
  }

  function Filter(filters: Dict, k: string): Val
  {
    GetOr(filters, k, Null)
  }

  predicate PriceRejects(price: Val, filters: Dict)
  {
    var lo := Filter(filters, "ar_min");
    var hi := Filter(filters, "ar_max");
    && (Truthy(lo) || Truthy(hi))
    && match PriceFilterNumber(price)
       case None => false
       case Some(x) => x != 0.0 && OutOfBounds(x, lo, hi, 1000000.0)
  }

  predicate SizeRejects(size: Val, filters: Dict)
  {
    var lo := Filter(filters, "meret_min");
    var hi := Filter(filters, "meret_max");
    && (Truthy(lo) || Truthy(hi))
    && match SizeFilterNumber(size)
       case None => false
       case Some(x) => OutOfBounds(x, lo, hi, 1.0)
  }

  const ProjectMarker: string := "/uj-lakas/"

  /** `should_process_listing`: a listing is dropped before its detail page is
      fetched only when a supplied bound parses and the listing's price (in
      millions of forints) or size lies strictly outside it; project pages and
      anything that cannot be read are kept. */
  function ShouldProcess(listing: Dict, filters: Dict): (r: bool)
    ensures var url := GetOr(listing, "url", Str(""));
            url.Str? && Contains(url.s, ProjectMarker) ==> r
    ensures !r ==> PriceRejects(GetOr(listing, "price_huf", Str("")), filters)
                   || SizeRejects(GetOr(listing, "size", Str("")), filters)
  {
    var url := GetOr(listing, "url", Str(""));
    if !url.Str? then true
    else if Contains(url.s, ProjectMarker) then true
    else !PriceRejects(GetOr(listing, "price_huf", Str("")), filters)
         && !SizeRejects(GetOr(listing, "size", Str("")), filters)
  }

  /** The two orders of reading the bounds agree: out of bounds means below a
      parsed lower bound, or above a parsed upper bound when no lower bound
      failed to parse. */
  lemma OutOfBoundsIff(x: real, lo: Val, hi: Val, scale: real)
    ensures OutOfBounds(x, lo, hi, scale) <==>
              (Truthy(lo) && PyFloatVal(lo).Some? && x < PyFloatVal(lo).value * scale)
              || (AboveMax(x, hi, scale) && !(Truthy(lo) && PyFloatVal(lo).None?))
  {
  }

  /** Without any bound every listing is fetched. */
  lemma NoFiltersKeepsAll(listing: Dict, filters: Dict)
    requires !Truthy(Filter(filters, "ar_min")) && !Truthy(Filter(filters, "ar_max"))
    requires !Truthy(Filter(filters, "meret_min")) && !Truthy(Filter(filters, "meret_max"))
    ensures ShouldProcess(listing, filters)
  {
  }

  /** A price below a lower bound that parses is dropped; so is one above an upper
      bound that parses, unless the lower bound is supplied and does not parse. */
  lemma PriceOutsideRejected(listing: Dict, filters: Dict, x: real)
    requires var url := GetOr(listing, "url", Str("")); url.Str? && !Contains(url.s, ProjectMarker)
    ensures PriceFilterNumber(GetOr(listing, "price_huf", Str(""))) == Some(x) && x != 0.0
            && OutOfBounds(x, Filter(filters, "ar_min"), Filter(filters, "ar_max"), 1000000.0)
            ==> !ShouldProcess(listing, filters)
  {
  }

  /** A readable size below a lower bound that parses is dropped; so is one above
      an upper bound that parses, unless the lower bound is supplied and does not
      parse. */
  lemma SizeOutsideRejected(listing: Dict, filters: Dict, x: real)
    requires var url := GetOr(listing, "url", Str("")); url.Str? && !Contains(url.s, ProjectMarker)
    ensures SizeFilterNumber(GetOr(listing, "size", Str(""))) == Some(x)
            && OutOfBounds(x, Filter(filters, "meret_min"), Filter(filters, "meret_max"), 1.0)
            ==> !ShouldProcess(listing, filters)
  {
  }

  /** A lower price bound that does not parse switches the whole price check off. */
  lemma UnparsableMinSkipsPrice(price: Val, filters: Dict)
    requires Truthy(Filter(filters, "ar_min")) && PyFloatVal(Filter(filters, "ar_min")).None?
    ensures !PriceRejects(price, filters)
  {
  }

  /** A price the filter cannot read, or reads as zero, never drops a listing. */
  lemma UnreadablePriceKept(price: Val, filters: Dict)
    requires PriceFilterNumber(price).None? || PriceFilterNumber(price) == Some(0.0)
    ensures !PriceRejects(price, filters)
  {
  }

  /** A number is inside the bounds when it is at least every lower bound and at
      most every upper bound that is supplied and parses. */
  predicate WithinBounds(x: real, lo: Val, hi: Val, scale: real)
  {
    && (Truthy(lo) && PyFloatVal(lo).Some? ==> x >= PyFloatVal(lo).value * scale)
    && (Truthy(hi) && PyFloatVal(hi).Some? ==> x <= PyFloatVal(hi).value * scale)
  }

  /** A price and a size inside every supplied bound keep the listing. */
  lemma InsideBoundsKept(listing: Dict, filters: Dict)
    requires var p := PriceFilterNumber(GetOr(listing, "price_huf", Str("")));
             p.Some? ==> WithinBounds(p.value, Filter(filters, "ar_min"), Filter(filters, "ar_max"), 1000000.0)
    requires var z := SizeFilterNumber(GetOr(listing, "size", Str("")));
             z.Some? ==> WithinBounds(z.value, Filter(filters, "meret_min"), Filter(filters, "meret_max"), 1.0)
    ensures ShouldProcess(listing, filters)
  {
  }

  /** Text of digits with an "M" after it loses exactly the "M". */
  lemma MillionsSuffixDeleted(d: string)
    requires |d| >= 1 && AllDigits(d)
    ensures Contains(d + "M", "M")
    ensures Delete(Delete(d + "M", "M"), " ") == d
  {
    DigitsLackSeparators(d);
    assert OccursAt(d + "M", "M", |d|);
    OccursContains(d + "M", "M", |d|);
    ReplaceSkipsPrefix(d, "M", "M", "");
    assert ReplaceAll("M", "M", "") == "";
    assert d + "" == d;
    ReplaceAbsent(d, " ", "");
  }

  /** A run of digits followed by "M" is read as that many millions. */
  lemma PriceFilterMillionsText(d: string, x: real)
    requires |d| >= 1 && AllDigits(d)
    requires PyFloat(Normalizer.CommaToDot(d)) == Some(x)
    ensures PriceFilterNumber(Str(d + "M")) == Some(x * 1000000.0)
  {
    MillionsSuffixDeleted(d);
  }

  /** "45M" passes the price filter as 45 000 000. */
  lemma PriceFilterMillions(n: nat)
    ensures PriceFilterNumber(Str(NatToString(n) + "M")) == Some(n as real * 1000000.0)
  {
    Normalizer.NatFloat(n);
    PriceFilterMillionsText(NatToString(n), n as real);
  }

  lemma DigitsLackSeparators(d: string)
    requires AllDigits(d)
    ensures 'M' !in d && ' ' !in d && ',' !in d && 'F' !in d && 't' !in d
  {
    forall j | 0 <= j < |d| ensures d[j] != 'M' && d[j] != ' ' && d[j] != ',' && d[j] != 'F' && d[j] != 't' {
      assert IsDigit(d[j]);
    }
  }

  /** Digits with " Ft" after them: no "M", and deleting spaces leaves "<digits>Ft". */
  lemma ForintSuffixDeleted(d: string)
    requires AllDigits(d)
    ensures !Contains(d + " Ft", "M")
    ensures Delete(d + " Ft", " ") == d + "Ft"
  {
    DigitsLackSeparators(d);
    var s := d + " Ft";
    assert 'M' !in s by {
      assert forall c :: c in s ==> c in d || c == ' ' || c == 'F' || c == 't';
    }
    ContainsFirstChar(s, "M");
    ReplaceSkipsPrefix(d, " Ft", " ", "");
    assert ReplaceAll(" Ft", " ", "") == "Ft" by {
      assert ReplaceAll("Ft", " ", "") == "Ft" by { ReplaceAbsent("Ft", " ", ""); }
    }
  }

  /** The number the search finds in "<digits>Ft" is the digits. */
  lemma ForintSearch(d: string)
    requires |d| >= 1 && AllDigits(d)
    ensures Search(d + "Ft", PriceChars) == Some((0, |d|))
  {
    var q := d + "Ft";
    assert IsMatch(q, PriceChars, 0, |d|) by {
      forall j | 0 <= j < |d| ensures InClass(q[j], PriceChars) {
        assert q[j] == d[j];
      }
      assert q[|d|] == 'F';
    }
    SearchUnique(q, PriceChars, 0, |d|);
  }

  /** A run of digits followed by " Ft" is read as the plain number: the search
      for the number stops at the currency. */
  lemma PriceFilterForintsText(d: string, x: real)
    requires |d| >= 1 && AllDigits(d)
    requires PyFloat(Normalizer.CommaToDot(d)) == Some(x)
    ensures PriceFilterNumber(Str(d + " Ft")) == Some(x)
  {
    ForintSuffixDeleted(d);
    ForintSearch(d);
    DigitsLackSeparators(d);
    assert (d + "Ft")[0..|d|] == d;
    ReplaceAbsent(d, ",", ".");
    ReplaceAbsent(d, " ", "");
  }

  /** "350000 Ft" passes the price filter as 350 000. */
  lemma PriceFilterForints(n: nat)
    ensures PriceFilterNumber(Str(NatToString(n) + " Ft")) == Some(n as real)
  {
    Normalizer.NatFloat(n);
    PriceFilterForintsText(NatToString(n), n as real);
  }

  lemma DeleteMillionsExample()
    ensures Contains("45 M Ft", "M")
    ensures Delete("45 M Ft", "M") == "45  Ft"
  {
    var s := "45 M Ft";
    assert OccursAt(s, "M", 3);
    OccursContains(s, "M", 3);
    assert s == "45 " + "M Ft";
    assert "M Ft" == "M" + " Ft";
    assert "45 " + " Ft" == "45  Ft";
    DeleteAfterPrefix("45 ", "M Ft", " Ft");
  }

  lemma DeleteAfterPrefix(a: string, b: string, c: string)
    requires 'M' !in a && 'M' !in c && b == "M" + c
    ensures Delete(a + b, "M") == a + c
  {
    ReplaceSkipsPrefix(a, b, "M", "");
    assert ReplaceAll(b, "M", "") == ReplaceAll(c, "M", "");
    ReplaceAbsent(c, "M", "");
  }

  lemma DeleteSpacesExample()
    ensures Delete("45  Ft", " ") == "45Ft"
  {
    var t := "45  Ft";
    assert t == "45" + "  Ft";
    ReplaceSkipsPrefix("45", "  Ft", " ", "");
    assert ReplaceAll("  Ft", " ", "") == ReplaceAll(" Ft", " ", "");
    assert ReplaceAll(" Ft", " ", "") == ReplaceAll("Ft", " ", "");
    ReplaceAbsent("Ft", " ", "");
  }

  lemma CurrencyDoesNotParse()
    ensures PyFloat(Normalizer.CommaToDot("45Ft")).None?
  {
    ReplaceAbsent("45Ft", ",", ".");
    StripKeeps("45Ft");
    assert PyFloat("45Ft").None?;
  }

  /** With "M" and a currency after it the text does not parse, so the price
      check is skipped for it. */
  lemma PriceFilterMillionsWithCurrency()
    ensures PriceFilterNumber(Str("45 M Ft")).None?
  {
    DeleteMillionsExample();
    DeleteSpacesExample();
    CurrencyDoesNotParse();
  }

  /** The size filter reads the leading number of "72 m²". */
  lemma SizeFilterOfArea(n: nat)
    ensures SizeFilterNumber(Str(NatToString(n) + " m\U{00B2}")) == Some(n as real)
  {
    var d := NatToString(n);
    var s := d + " m\U{00B2}";
    assert IsMatch(s, Digits, 0, |d|) by {
      forall j | 0 <= j < |d| ensures InClass(s[j], Digits) {
        assert s[j] == d[j];
      }
      assert s[|d|] == ' ';
    }
    SearchUnique(s, Digits, 0, |d|);
    assert s[0..|d|] == d;
    NatToStringRoundTrip(n);
  }

  // ---------------------------------------------------------------------------
  // Detail pages
  // ---------------------------------------------------------------------------

  /** What the HTML parser yields for a detail page: the stripped texts of the
      label cells and of the value cells of the data grid, and the address line. */
  datatype Page = Page(labels: seq<string>, values: seq<string>, address: Option<string>)

  /** The first `n` label/value pairs as a dictionary, the labels being its keys
      and each holding the value of its last pair. */
  function FromPairs(labels: seq<string>, values: seq<string>, n: nat): (r: Dict)
    requires n <= |labels| && n <= |values|
    ensures DistinctKeys(r)
    ensures forall k :: Lookup(r, k) == PairValue(labels, values, n, k)
    decreases n
  {
    if n == 0 then []
    else
      var r' := FromPairs(labels, values, n - 1);
      SetKeyDistinct(r', labels[n - 1], Str(values[n - 1]));
      SetKey(r', labels[n - 1], Str(values[n - 1]))
  }

  /** Position `i` holds the last occurrence of its label among the first `n`. */
  predicate LastOf(labels: seq<string>, n: nat, i: nat)
    requires n <= |labels|
  {
    i < n && forall j :: i < j < n ==> labels[j] != labels[i]
  }

  /** A label that repeats keeps its last value. */
  lemma {:induction false} FromPairsLast(labels: seq<string>, values: seq<string>, n: nat, i: nat)
    requires n <= |labels| && n <= |values|
    requires LastOf(labels, n, i)
    ensures Lookup(FromPairs(labels, values, n), labels[i]) == Some(Str(values[i]))
  {
    PairValueLast(labels, values, n, i);
  }

  /** The value of `k` among the first `n` pairs, the later pair winning. */
  function PairValue(labels: seq<string>, values: seq<string>, n: nat, k: string): Option<Val>
    requires n <= |labels| && n <= |values|
  {
    if n == 0 then None
    else if labels[n - 1] == k then Some(Str(values[n - 1]))
    else PairValue(labels, values, n - 1, k)
  }

  lemma {:induction false} PairValueLast(labels: seq<string>, values: seq<string>, n: nat, i: nat)
    requires n <= |labels| && n <= |values|
    requires LastOf(labels, n, i)
    ensures PairValue(labels, values, n, labels[i]) == Some(Str(values[i]))
  {
    if i < n - 1 {
      assert LastOf(labels, n - 1, i);
      PairValueLast(labels, values, n - 1, i);
    }
  }

  /** `zip(labels, values)` stops at the shorter list. */
  function GridDetails(page: Page): (r: Dict)
    ensures DistinctKeys(r)
  {
    var n := if |page.labels| <= |page.values| then |page.labels| else |page.values|;
    FromPairs(page.labels, page.values, n)
  }

  function AddressVal(page: Page): Val
  {
    match page.address
    case Some(a) => Str(a)
    case None => Null
  }

  /** A parsed detail page: the grid, then "lokáció" set to the address line or
      to `None` when the page has none. */
  function PageDetails(page: Page): (r: Dict)
    ensures DistinctKeys(r)
    ensures Lookup(r, "lokáció") == Some(AddressVal(page))
    ensures forall k :: k != "lokáció" ==> Lookup(r, k) == Lookup(GridDetails(page), k)
  {
    SetKeyDistinct(GridDetails(page), "lokáció", AddressVal(page));
    SetKey(GridDetails(page), "lokáció", AddressVal(page))
  }

  /** The fixed details of a new-development page: an apartment in district V. */
  const ProjectDetails: Dict :=
    [("Jelleg", Str("lakás")), ("lokáció", Str("Budapest V. kerület")), ("_is_project_page", Bool(true))]

  /** `get_listing_details`: a project page gets fixed details without a request;
      any other page is read from the response cache when a non-empty body younger
      than two hours is there, and otherwise from the network (`fetched`, `None`
      when the request failed), the new body being cached. A URL that is not a
      string, or a failed request, gives no details. */
  function GetListingDetails(url: Val, cache: ResponseCache.Cache, now: int, fetched: Option<string>,
                             parse: string -> Page): (r: (Dict, ResponseCache.Cache))
    ensures DistinctKeys(r.0)
    ensures !url.Str? ==> r == ([], cache)
    ensures url.Str? && Contains(url.s, ProjectMarker) ==> r == (ProjectDetails, cache)
    ensures url.Str? && !Contains(url.s, ProjectMarker) ==>
              (r.0 == [] <==> fetched.None? && !TruthyStr(ResponseCache.Get(cache, url.s, now).0))
  {
    assert DistinctKeys(ProjectDetails);
    if !url.Str? then ([], cache)
    else if Contains(url.s, ProjectMarker) then (ProjectDetails, cache)
    else
      var (hit, c1) := ResponseCache.Get(cache, url.s, now);
      if TruthyStr(hit) then (PageDetails(parse(hit.value)), c1)
      else
        match fetched
        case None => ([], c1)
        case Some(text) => (PageDetails(parse(text)), ResponseCache.Put(c1, url.s, text, now))
  }

  /** A body fetched at time `t` is reused, whatever the network would answer,
      by every request for the same page before `t` plus two hours; from then on
      the page is fetched again. */
  lemma DetailsReuseCachedBody(url: string, cache: ResponseCache.Cache, t: int, text: string,
                               now: int, fetched: Option<string>, parse: string -> Page)
    requires !Contains(url, ProjectMarker) && text != ""
    requires t <= now
    ensures var c := ResponseCache.Put(cache, url, text, t);
            var r := GetListingDetails(Str(url), c, now, fetched, parse);
            && (now < t + ResponseCache.CacheDuration ==> r == (PageDetails(parse(text)), c))
            && (now >= t + ResponseCache.CacheDuration && fetched.Some? ==>
                  r.0 == PageDetails(parse(fetched.value)))
  {
    ResponseCache.PutThenGet(cache, url, text, t, now);
  }

  /** Every label of the grid that does not repeat later is a detail with its
      value, and the address is always recorded. */
  lemma DetailsOfPage(url: string, cache: ResponseCache.Cache, now: int, text: string,
                      parse: string -> Page, i: nat)
    requires !Contains(url, ProjectMarker)
    requires url !in cache
    requires var p := parse(text); i < |p.labels| && i < |p.values| && p.labels[i] != "lokáció"
    requires var p := parse(text); LastOf(p.labels, if |p.labels| <= |p.values| then |p.labels| else |p.values|, i)
    ensures var r := GetListingDetails(Str(url), cache, now, Some(text), parse);
            && Lookup(r.0, parse(text).labels[i]) == Some(Str(parse(text).values[i]))
            && Lookup(r.0, "lokáció") == Some(AddressVal(parse(text)))
  {
    var p := parse(text);
    FromPairsLast(p.labels, p.values, if |p.labels| <= |p.values| then |p.labels| else |p.values|, i);
  }

  // ---------------------------------------------------------------------------
  // From a collected listing to a database row
  // ---------------------------------------------------------------------------

  /** The columns of the `listings` table, in order (written in pieces of nine so
      that each column's position is quick to compute). */
  const Columns: seq<string> := ColumnsPart0 + ColumnsPart1 + ColumnsPart2 + ColumnsPart3 + ColumnsPart4 + ColumnsPart5
  const ColumnsPart0: seq<string> := ["url", "location", "size", "rooms", "price_huf", "price_eur", "description", "Értékesités", "Jogi státusz"]
  const ColumnsPart1: seq<string> := ["Jelleg", "Építési mód", "Méret", "Bruttó méret", "Fűtés", "Belmagasság", "Tájolás", "Panoráma", "Lépcsőház típusa"]
  const ColumnsPart2: seq<string> := ["Állapot", "Homlokzat állapota", "Építés éve", "Fürdőszobák száma", "Lift", "szoba", "konyha", "közlekedő", "Lépcsőház állapota"]
  const ColumnsPart3: seq<string> := ["Környék", "Fekvés", "Víz", "Villany", "Csatorna", "nappali", "konyha-étkező", "fürdőszoba", "előszoba"]
  const ColumnsPart4: seq<string> := ["Közös költség", "Garázs", "hálószoba", "fürdőszoba-wc", "Terasz / erkély mérete", "Pince", "Gáz", "wc", "kamra"]
  const ColumnsPart5: seq<string> := ["erkély", "Lakáson belüli szintszám", "Tároló", "ebédlő", "Társaház kert", "terasz", "galéria", "lokáció", "Ár-Érték Index"]

  /** A row: one entry per column, in column order. */
  type Row = Dict

  /** The property kind written when the detail page names none: the search's
      own kind, in its accented form. */
  function DefaultKind(jelleg: Val): (r: Val)
    ensures Truthy(r)
    ensures ValEq(jelleg, Str("lakas")) <==> r == Str("lakás")
    ensures ValEq(jelleg, Str("haz")) <==> r == Str("ház")
  {
    if ValEq(jelleg, Str("lakas")) then Str("lakás")
    else if ValEq(jelleg, Str("haz")) then Str("ház")
    else Str("telek")
  }

  /** The details with a kind filled in when they lack a truthy one. */
  function KindDetails(listing: Dict, details: Dict): (r: Dict)
    requires DistinctKeys(details)
    ensures DistinctKeys(r)
    ensures Truthy(GetOr(r, "Jelleg", Null))
    ensures forall k :: k != "Jelleg" ==> Lookup(r, k) == Lookup(details, k)
  {
    if Truthy(GetOr(details, "Jelleg", Null)) then details
    else
      SetKeyDistinct(details, "Jelleg", DefaultKind(GetOr(listing, "jelleg", Null)));
      SetKey(details, "Jelleg", DefaultKind(GetOr(listing, "jelleg", Null)))
  }

  /** The dictionary restricted and ordered to the columns, `None` for a column it
      lacks. */
  function ToRow(d: Dict): (r: Row)
    ensures |r| == |Columns|
    ensures forall i :: 0 <= i < |Columns| ==> r[i].0 == Columns[i]
    ensures forall i :: 0 <= i < |Columns| ==> r[i].1 == GetOr(d, Columns[i], Null)
  {
    seq(|Columns|, i requires 0 <= i < |Columns| => (Columns[i], GetOr(d, Columns[i], Null)))
  }

  /** `process_listing_details` after its detail request: the details override the
      collected fields, a kind is always recorded, the search kind is dropped and
      the result has exactly the table's columns. A listing without a URL, or
      without a kind when the page names none, is lost (`None`). */
  function ProcessListing(listing: Dict, details: Dict): (r: Option<Row>)
    requires DistinctKeys(details)
    ensures r.Some? <==> Processable(listing, details)
  {
    if "url" !in Keys(listing) then None
    else if !Truthy(GetOr(details, "Jelleg", Null)) && "jelleg" !in Keys(listing) then None
    else Some(ToRow(Merged(listing, details)))
  }

  /** The detail step raises no `KeyError`: the listing has a URL, and a kind
      comes from the details or can be defaulted from the search kind. */
  predicate Processable(listing: Dict, details: Dict)
  {
    "url" in Keys(listing) && (Truthy(GetOr(details, "Jelleg", Null)) || "jelleg" in Keys(listing))
  }

  /** The collected fields without the search kind, overridden by the details. */
  function Merged(listing: Dict, details: Dict): Dict
    requires DistinctKeys(details)
  {
    Update(RemoveKey(listing, "jelleg"), KindDetails(listing, details))
  }

  /** The positions of the columns the crawler itself reads back. */
  lemma ColumnPositions()
    ensures |Columns| == 54
    ensures Columns[0] == "url" && Columns[2] == "size" && Columns[4] == "price_huf"
    ensures Columns[9] == "Jelleg" && Columns[52] == "lokáció"
  {
  }

  lemma JellegNotAColumn()
    ensures "jelleg" !in Columns
  {
  }

  /** Each column of a processed listing: the detail page's value when the page
      has that label, the default kind for a kind the page lacks, and otherwise the
      collected value or `None`. */
  lemma ProcessListingColumns(listing: Dict, details: Dict, i: nat)
    requires DistinctKeys(details)
    requires Processable(listing, details)
    requires i < |Columns|
    ensures var row := ProcessListing(listing, details).value;
            var k := Columns[i];
            && row[i].0 == k
            && row[i].1 == if k == "Jelleg" && !Truthy(GetOr(details, "Jelleg", Null))
                           then DefaultKind(GetOr(listing, "jelleg", Null))
                           else if k in Keys(details) then GetOr(details, k, Null)
                           else GetOr(listing, k, Null)
  {
    JellegNotAColumn();
    assert Columns[i] in Columns;
    ProcessListingIsRow(listing, details);
    MergedValue(listing, details, Columns[i]);
  }

  /** The merged value of any key but the search kind. */
  lemma MergedValue(listing: Dict, details: Dict, k: string)
    requires DistinctKeys(details) && k != "jelleg"
    ensures GetOr(Merged(listing, details), k, Null) ==
              if k == "Jelleg" && !Truthy(GetOr(details, "Jelleg", Null))
              then DefaultKind(GetOr(listing, "jelleg", Null))
              else if k in Keys(details) then GetOr(details, k, Null)
              else GetOr(listing, k, Null)
  {
    var kd := KindDetails(listing, details);
    var m := Merged(listing, details);
    assert Lookup(m, k) == if k in Keys(kd) then Lookup(kd, k) else Lookup(RemoveKey(listing, "jelleg"), k);
    assert Lookup(RemoveKey(listing, "jelleg"), k) == Lookup(listing, k);
    if k != "Jelleg" {
      assert Lookup(kd, k) == Lookup(details, k);
    }
  }

  lemma ProcessListingIsRow(listing: Dict, details: Dict)
    requires DistinctKeys(details)
    requires Processable(listing, details)
    ensures ProcessListing(listing, details) == Some(ToRow(Merged(listing, details)))
  {
  }

  lemma RowKeepsKind(d: Dict)
    requires Truthy(GetOr(d, "Jelleg", Null))
    ensures Truthy(ToRow(d)[9].1)
  {
    assert Columns[9] == "Jelleg";
  }

  lemma MergeKeepsKind(listing: Dict, details: Dict)
    requires DistinctKeys(details)
    ensures Truthy(GetOr(Merged(listing, details), "Jelleg", Null))
  {
    var kd := KindDetails(listing, details);
    assert "Jelleg" in Keys(kd);
  }

  /** Column 9 is the kind, and every processed listing has one. */
  lemma ProcessListingHasKind(listing: Dict, details: Dict)
    requires DistinctKeys(details)
    requires Processable(listing, details)
    ensures Truthy(ProcessListing(listing, details).value[9].1)
  {
    MergeKeepsKind(listing, details);
    RowKeepsKind(Merged(listing, details));
    ProcessListingIsRow(listing, details);
  }

  // ---------------------------------------------------------------------------
  // Storage
  // ---------------------------------------------------------------------------

  function RowUrl(row: Row): Val
  {
    GetOr(row, "url", Null)
  }

  /** The number of stored rows for a URL. */
  function CountUrl(table: seq<Row>, u: Val): (n: nat)
    ensures n <= |table|
  {
    if |table| == 0 then 0
    else CountUrl(table[..|table| - 1], u) + (if RowUrl(table[|table| - 1]) == u then 1 else 0)
  }

  lemma {:induction false} CountUrlAppend(a: seq<Row>, b: seq<Row>, u: Val)
    ensures CountUrl(a + b, u) == CountUrl(a, u) + CountUrl(b, u)
    decreases |b|
  {
    if |b| == 0 {
      assert a + b == a;
    } else {
      assert (a + b)[..|a + b| - 1] == a + b[..|b| - 1];
      CountUrlAppend(a, b[..|b| - 1], u);
    }
  }

  lemma CountUrlSingle(row: Row, u: Val)
    ensures CountUrl([row], u) == if RowUrl(row) == u then 1 else 0
  {
    assert [row][..0] == [];
  }

  /** `batch_upsert_listings` as written: the table declares no key, so
      "INSERT OR REPLACE" never finds a row to replace and every row of the batch
      is added; an empty batch leaves the table alone. */
  function BatchUpsert(table: seq<Row>, batch: seq<Row>): (r: seq<Row>)
    ensures forall u :: CountUrl(r, u) == CountUrl(table, u) + CountUrl(batch, u)
    ensures |batch| == 0 ==> r == table
  {
    assert forall u :: CountUrl(table + batch, u) == CountUrl(table, u) + CountUrl(batch, u) by {
      forall u ensures CountUrl(table + batch, u) == CountUrl(table, u) + CountUrl(batch, u) {
        CountUrlAppend(table, batch, u);
      }
    }
    assert |batch| == 0 ==> table + batch == table;
    table + batch
  }

  /** Storing an already stored listing again gives its URL one more row each
      time: the upsert duplicates rather than replaces. */
  lemma BatchUpsertDuplicates(table: seq<Row>, row: Row)
    ensures var u := RowUrl(row);
            CountUrl(BatchUpsert(BatchUpsert(table, [row]), [row]), u) == CountUrl(table, u) + 2
  {
    CountUrlSingle(row, RowUrl(row));
  }

  /** The rows of other URLs, in order. */
  function RemoveUrl(table: seq<Row>, u: Val): (r: seq<Row>)
    ensures CountUrl(r, u) == 0
    ensures forall v :: v != u ==> CountUrl(r, v) == CountUrl(table, v)
    ensures forall row :: row in r <==> row in table && RowUrl(row) != u
  {
    if |table| == 0 then []
    else
      var last := table[|table| - 1];
      var init := table[..|table| - 1];
      var rest := RemoveUrl(init, u);
      assert table == init + [last];
      assert forall row :: row in table <==> row in init || row == last;
      var keep := if RowUrl(last) == u then [] else [last];
      assert forall v :: CountUrl(rest + keep, v) == CountUrl(rest, v) + CountUrl(keep, v) by {
        forall v ensures CountUrl(rest + keep, v) == CountUrl(rest, v) + CountUrl(keep, v) {
          CountUrlAppend(rest, keep, v);
        }
      }
      assert forall v :: CountUrl(keep, v) == if RowUrl(last) == v && RowUrl(last) != u then 1 else 0 by {
        forall v ensures CountUrl(keep, v) == if RowUrl(last) == v && RowUrl(last) != u then 1 else 0 {
          CountUrlSingle(last, v);
        }
      }
      assert forall v :: CountUrl(table, v) == CountUrl(init, v) + (if RowUrl(last) == v then 1 else 0);
      rest + keep
  }

  /** Storing one row the way the upsert evidently intends: the row replaces every
      row with its URL. */
  function UpsertRow(table: seq<Row>, row: Row): (r: seq<Row>)
    ensures |r| > 0 && r[|r| - 1] == row
    ensures CountUrl(r, RowUrl(row)) == 1
    ensures forall v :: v != RowUrl(row) ==> CountUrl(r, v) == CountUrl(table, v)
  {
    var rest := RemoveUrl(table, RowUrl(row));
    assert forall v :: CountUrl(rest + [row], v) == CountUrl(rest, v) + CountUrl([row], v) by {
      forall v ensures CountUrl(rest + [row], v) == CountUrl(rest, v) + CountUrl([row], v) {
        CountUrlAppend(rest, [row], v);
        CountUrlSingle(row, v);
      }
    }
    assert forall v :: CountUrl([row], v) == if RowUrl(row) == v then 1 else 0 by {
      forall v ensures CountUrl([row], v) == if RowUrl(row) == v then 1 else 0 {
        CountUrlSingle(row, v);
      }
    }
    rest + [row]
  }

  function BatchUrls(batch: seq<Row>): set<Val>
  {
    set row | row in batch :: RowUrl(row)
  }

  /** The corrected batch upsert: afterwards every URL of the batch has exactly one
      row and every other URL keeps its rows. */
  function UpsertByUrl(table: seq<Row>, batch: seq<Row>): (r: seq<Row>)
    ensures forall u :: CountUrl(r, u) == if u in BatchUrls(batch) then 1 else CountUrl(table, u)
    decreases |batch|
  {
    if |batch| == 0 then table
    else
      assert forall u :: u in BatchUrls(batch) <==> u == RowUrl(batch[0]) || u in BatchUrls(batch[1..]) by {
        assert forall row :: row in batch <==> row == batch[0] || row in batch[1..];
      }
      UpsertByUrl(UpsertRow(table, batch[0]), batch[1..])
  }

  lemma RemoveUrlStep(init: seq<Row>, last: Row, u: Val)
    ensures RemoveUrl(init + [last], u) == RemoveUrl(init, u) + (if RowUrl(last) == u then [] else [last])
    ensures CountUrl(init + [last], u) == CountUrl(init, u) + (if RowUrl(last) == u then 1 else 0)
  {
    assert (init + [last])[..|init|] == init;
  }

  lemma UpsertByUrlSingle(table: seq<Row>, row: Row)
    ensures UpsertByUrl(table, [row]) == UpsertRow(table, row)
  {
    assert [row][1..] == [];
  }

  /** A table without the URL has nothing to remove. */
  lemma {:induction false} RemoveUrlAbsent(table: seq<Row>, u: Val)
    requires CountUrl(table, u) == 0
    ensures RemoveUrl(table, u) == table
    decreases |table|
  {
    if |table| > 0 {
      var init := table[..|table| - 1];
      var last := table[|table| - 1];
      assert table == init + [last];
      RemoveUrlStep(init, last, u);
      RemoveUrlAbsent(init, u);
    }
  }

  /** Storing the same row twice is storing it once. */
  lemma UpsertRowIdempotent(table: seq<Row>, row: Row)
    ensures UpsertRow(UpsertRow(table, row), row) == UpsertRow(table, row)
  {
    var u := RowUrl(row);
    var rest := RemoveUrl(table, u);
    var once := rest + [row];
    assert once[..|once| - 1] == rest;
    RemoveUrlAbsent(rest, u);
  }

  /** `existing_listings`: URL to stored (price text, size text); a later row of
      the same URL wins. */
  function ExistingListings(table: seq<Row>): (r: Existing)
    ensures forall u :: u in r <==> CountUrl(table, u) > 0
  {
    if |table| == 0 then map[]
    else
      var last := table[|table| - 1];
      ExistingListings(table[..|table| - 1])[RowUrl(last) := (GetOr(last, "price_huf", Null), GetOr(last, "size", Null))]
  }

  lemma ExistingLastWins(table: seq<Row>)
    requires |table| > 0
    ensures var last := table[|table| - 1];
            ExistingListings(table)[RowUrl(last)] == (GetOr(last, "price_huf", Null), GetOr(last, "size", Null))
  {
  }

  /** A column that no earlier column repeats is read back from a row as the value
      the row was built from. */
  lemma RowLookup(d: Dict, i: nat)
    requires i < |Columns|
    requires forall j :: 0 <= j < i ==> Columns[j] != Columns[i]
    ensures GetOr(ToRow(d), Columns[i], Null) == GetOr(d, Columns[i], Null)
  {
    LookupFirst(ToRow(d), i, Columns[i]);
  }

  /** The URL, price and size columns read back from a row. */
  lemma RowReadBack(d: Dict)
    ensures GetOr(ToRow(d), "url", Null) == GetOr(d, "url", Null)
    ensures GetOr(ToRow(d), "size", Null) == GetOr(d, "size", Null)
    ensures GetOr(ToRow(d), "price_huf", Null) == GetOr(d, "price_huf", Null)
  {
    RowReadBackAt(d, 0, "url");
    RowReadBackAt(d, 2, "size");
    RowReadBackAt(d, 4, "price_huf");
  }

  lemma RowReadBackAt(d: Dict, i: nat, k: string)
    requires i <= 4 && ColumnsPart0[i] == k
    requires forall j :: 0 <= j < i ==> ColumnsPart0[j] != k
    ensures GetOr(ToRow(d), k, Null) == GetOr(d, k, Null)
  {
    assert Columns[..9] == ColumnsPart0;
    assert Columns[i] == k;
    RowLookup(d, i);
  }

  /** A collected field that the detail page does not name survives the merge. */
  lemma MergedKeeps(listing: Dict, details: Dict, k: string)
    requires DistinctKeys(details)
    requires k !in Keys(details) && k != "Jelleg" && k != "jelleg"
    ensures GetOr(Merged(listing, details), k, Null) == GetOr(listing, k, Null)
  {
    assert Lookup(KindDetails(listing, details), k) == Lookup(details, k);
  }

  /** The URL, price and size stored for a listing are the collected ones when its
      detail page has no label of the same name. */
  lemma ProcessListingKeepsCollected(listing: Dict, details: Dict)
    requires DistinctKeys(details)
    requires Processable(listing, details)
    requires "url" !in Keys(details) && "price_huf" !in Keys(details) && "size" !in Keys(details)
    ensures var row := ProcessListing(listing, details).value;
            && RowUrl(row) == GetOr(listing, "url", Null)
            && GetOr(row, "price_huf", Null) == GetOr(listing, "price_huf", Null)
            && GetOr(row, "size", Null) == GetOr(listing, "size", Null)
  {
    ProcessListingIsRow(listing, details);
    MergedKeeps(listing, details, "url");
    MergedKeeps(listing, details, "price_huf");
    MergedKeeps(listing, details, "size");
    RowReadBack(Merged(listing, details));
  }

  /** A table whose last row carries the listing's URL, price and size says the
      listing is unchanged. */
  lemma LastRowUnchanged(t: seq<Row>, listing: Dict)
    requires |t| > 0
    requires "price_huf" in Keys(listing) && "size" in Keys(listing)
    requires var row := t[|t| - 1];
             && RowUrl(row) == GetOr(listing, "url", Null)
             && GetOr(row, "price_huf", Null) == GetOr(listing, "price_huf", Null)
             && GetOr(row, "size", Null) == GetOr(listing, "size", Null)
    ensures !NeedsUpdate(listing, ExistingListings(t))
  {
    ExistingLastWins(t);
    var price := GetOr(listing, "price_huf", Null);
    var size := GetOr(listing, "size", Null);
    assert GetOr(listing, "price_huf", Str("")) == price;
    assert GetOr(listing, "size", Str("")) == size;
    ValEqEquivalence(price, price, price);
    ValEqEquivalence(size, size, size);
  }

  /** Change detection closes the loop: once a listing is stored, collecting it
      again with the same price and size text does not fetch it again, whether
      the table holds one row per URL or duplicates. */
  lemma RescrapeUnchanged(table: seq<Row>, listing: Dict, details: Dict)
    requires DistinctKeys(details)
    requires Processable(listing, details)
    requires "price_huf" in Keys(listing) && "size" in Keys(listing)
    requires "url" !in Keys(details) && "price_huf" !in Keys(details) && "size" !in Keys(details)
    ensures var row := ProcessListing(listing, details).value;
            && !NeedsUpdate(listing, ExistingListings(UpsertByUrl(table, [row])))
            && !NeedsUpdate(listing, ExistingListings(BatchUpsert(table, [row])))
  {
    var row := ProcessListing(listing, details).value;
    ProcessListingKeepsCollected(listing, details);
    var t1 := UpsertByUrl(table, [row]);
    UpsertByUrlSingle(table, row);
    LastRowUnchanged(t1, listing);
    var t2 := BatchUpsert(table, [row]);
    LastRowUnchanged(t2, listing);
  }

  // ---------------------------------------------------------------------------
  // The crawl
  // ---------------------------------------------------------------------------

  const BaseUrl: string := "https://www.oc.hu"

  /** The fields read from one result card; `None` where the card lacks one. */
  datatype Card = Card(href: Option<string>, location: Option<string>, size: Option<string>,
                       rooms: Option<string>, priceHuf: Option<string>, priceEur: Option<string>,
                       description: Option<string>)

  function OptVal(o: Option<string>): Val
  {
    match o
    case Some(t) => Str(t)
    case None => Null
  }

  /** The collected listing of a card: the absolute URL (a missing link is
      formatted as the text "None"), the card's fields, and the search kind kept
      for the detail step. */
  function CardListing(card: Card, jelleg: Val): (r: Dict)
  {
    [("url", Str(BaseUrl + (if card.href.Some? then card.href.value else "None"))),
     ("location", OptVal(card.location)), ("size", OptVal(card.size)), ("rooms", OptVal(card.rooms)),
     ("price_huf", OptVal(card.priceHuf)), ("price_eur", OptVal(card.priceEur)),
     ("description", OptVal(card.description)), ("jelleg", jelleg)]
  }

  lemma CardListingFields(card: Card, jelleg: Val)
    ensures var l := CardListing(card, jelleg);
            && "url" in Keys(l) && "jelleg" in Keys(l) && "price_huf" in Keys(l) && "size" in Keys(l)
            && GetOr(l, "price_huf", Str("")) == OptVal(card.priceHuf)
            && GetOr(l, "size", Str("")) == OptVal(card.size)
  {
    CardListingKeys(card, jelleg);
    CardListingSize(card, jelleg);
    CardListingPrice(card, jelleg);
  }

  lemma CardListingKeys(card: Card, jelleg: Val)
    ensures var l := CardListing(card, jelleg);
            "url" in Keys(l) && "jelleg" in Keys(l) && "price_huf" in Keys(l) && "size" in Keys(l)
  {
    var l := CardListing(card, jelleg);
    assert l[0] in l && l[2] in l && l[4] in l && l[7] in l;
  }

  lemma CardListingSize(card: Card, jelleg: Val)
    ensures GetOr(CardListing(card, jelleg), "size", Str("")) == OptVal(card.size)
  {
    CardListingLookup(CardListing(card, jelleg), 2, "size");
  }

  lemma CardListingPrice(card: Card, jelleg: Val)
    ensures GetOr(CardListing(card, jelleg), "price_huf", Str("")) == OptVal(card.priceHuf)
  {
    CardListingLookup(CardListing(card, jelleg), 4, "price_huf");
  }

  lemma CardListingLookup(l: Dict, i: nat, k: string)
    requires |l| == 8 && i < 8 && l[i].0 == k
    requires forall j :: 0 <= j < i ==> l[j].0 != k
    ensures k in Keys(l) && GetOr(l, k, Str("")) == l[i].1
  {
    LookupFirst(l, i, k);
  }

  /** A collected listing is never lost in the detail step, whatever its detail
      page holds, and its price and size are the card's. */
  lemma CardListingProcessed(card: Card, jelleg: Val, details: Dict)
    requires DistinctKeys(details)
    ensures ProcessListing(CardListing(card, jelleg), details).Some?
    ensures var l := CardListing(card, jelleg);
            && GetOr(l, "price_huf", Str("")) == OptVal(card.priceHuf)
            && GetOr(l, "size", Str("")) == OptVal(card.size)
            && "price_huf" in Keys(l) && "size" in Keys(l)
  {
    CardListingFields(card, jelleg);
  }

  /** The elements of `s` that satisfy `p`, in order. */
  function FilterSeq(s: seq<Dict>, p: Dict -> bool): (r: seq<Dict>)
    ensures |r| <= |s|
    ensures forall x :: x in r <==> x in s && p(x)
  {
    if |s| == 0 then []
    else
      assert forall x :: x in s <==> x == s[0] || x in s[1..];
      (if p(s[0]) then [s[0]] else []) + FilterSeq(s[1..], p)
  }

  /** Filtering twice is filtering once by both conditions. */
  lemma {:induction false} FilterTwice(s: seq<Dict>, p: Dict -> bool, q: Dict -> bool, pq: Dict -> bool)
    requires forall x :: pq(x) == (p(x) && q(x))
    ensures FilterSeq(FilterSeq(s, p), q) == FilterSeq(s, pq)
    decreases |s|
  {
    if |s| > 0 {
      FilterTwice(s[1..], p, q, pq);
      var head := if p(s[0]) then [s[0]] else [];
      var rest := FilterSeq(s[1..], p);
      assert FilterSeq(s, p) == head + rest;
      if p(s[0]) {
        assert (head + rest)[0] == s[0];
        assert (head + rest)[1..] == rest;
      } else {
        assert head + rest == rest;
      }
    }
  }

  /** The two passes of the crawl: first the listings whose URL is new or whose
      price or size changed, then those the pre-filter keeps, in collection order. */
  function Select(listings: seq<Dict>, existing: Existing, filters: Dict): (r: seq<Dict>)
  {
    var changed := FilterSeq(listings, l => NeedsUpdate(l, existing));
    FilterSeq(changed, l => ShouldProcess(l, filters))
  }

  /** A listing is fetched exactly when it is changed and passes the pre-filter;
      the two passes keep the collection order of a single pass. */
  lemma SelectOnePass(listings: seq<Dict>, existing: Existing, filters: Dict)
    ensures Select(listings, existing, filters)
            == FilterSeq(listings, l => NeedsUpdate(l, existing) && ShouldProcess(l, filters))
    ensures forall l :: l in Select(listings, existing, filters) <==>
              l in listings && NeedsUpdate(l, existing) && ShouldProcess(l, filters)
  {
    FilterTwice(listings, l => NeedsUpdate(l, existing), l => ShouldProcess(l, filters),
                l => NeedsUpdate(l, existing) && ShouldProcess(l, filters));
  }

  /** The rows of the listings whose detail step succeeded, in order. */
  function Successes(results: seq<Option<Row>>): (r: seq<Row>)
    ensures |r| <= |results|
    ensures forall row :: row in r <==> Some(row) in results
  {
    if |results| == 0 then []
    else
      assert forall o :: o in results <==> o == results[0] || o in results[1..];
      (if results[0].Some? then [results[0].value] else []) + Successes(results[1..])
  }

  /** The detail step over the selected listings, each with the details of its
      page. */
  function ProcessAll(selected: seq<Dict>, details: seq<Dict>): (r: seq<Row>)
    requires |details| == |selected|
    requires forall i :: 0 <= i < |details| ==> DistinctKeys(details[i])
  {
    Successes(seq(|selected|, i requires 0 <= i < |selected| => ProcessListing(selected[i], details[i])))
  }

  /** The listings collected from the cards of a search, in card order. */
  function CardListings(cards: seq<Card>, jelleg: Val): (r: seq<Dict>)
    ensures |r| == |cards|
  {
    seq(|cards|, i requires 0 <= i < |cards| => CardListing(cards[i], jelleg))
  }

  /** When every detail step succeeds, the rows are the listings' rows one for
      one, in order. */
  lemma {:induction false} SuccessesAll(results: seq<Option<Row>>)
    requires forall i :: 0 <= i < |results| ==> results[i].Some?
    ensures |Successes(results)| == |results|
    ensures forall i :: 0 <= i < |results| ==> Successes(results)[i] == results[i].value
  {
    if |results| > 0 {
      SuccessesAll(results[1..]);
      assert Successes(results) == [results[0].value] + Successes(results[1..]);
      assert forall i :: 0 < i < |results| ==> results[1..][i - 1] == results[i];
    }
  }

  /** The detail step succeeds for every collected card. */
  lemma CardsAllProcessed(cards: seq<Card>, jelleg: Val, details: seq<Dict>)
    requires |details| == |cards|
    requires forall i :: 0 <= i < |details| ==> DistinctKeys(details[i])
    ensures var selected := CardListings(cards, jelleg);
            forall i :: 0 <= i < |cards| ==> ProcessListing(selected[i], details[i]).Some?
  {
    var selected := CardListings(cards, jelleg);
    forall i | 0 <= i < |cards|
      ensures ProcessListing(selected[i], details[i]).Some?
    {
      CardListingProcessed(cards[i], jelleg, details[i]);
    }
  }

  /** Every collected card yields a row: the rows are the cards' listings
      processed one for one, in card order. */
  lemma ProcessAllCards(cards: seq<Card>, jelleg: Val, details: seq<Dict>)
    requires |details| == |cards|
    requires forall i :: 0 <= i < |details| ==> DistinctKeys(details[i])
    ensures var selected := CardListings(cards, jelleg);
            forall i :: 0 <= i < |cards| ==> ProcessListing(selected[i], details[i]).Some?
    ensures var selected := CardListings(cards, jelleg);
            && |ProcessAll(selected, details)| == |cards|
            && forall i :: 0 <= i < |cards| ==>
                 ProcessAll(selected, details)[i] == ProcessListing(selected[i], details[i]).value
  {
    CardsAllProcessed(cards, jelleg, details);
    AllProcessed(CardListings(cards, jelleg), details);
  }

  /** When the detail step succeeds for every listing, the rows are the
      listings' rows one for one. */
  lemma AllProcessed(selected: seq<Dict>, details: seq<Dict>)
    requires |details| == |selected|
    requires forall i :: 0 <= i < |details| ==> DistinctKeys(details[i])
    requires forall i :: 0 <= i < |selected| ==> Processable(selected[i], details[i])
    ensures |ProcessAll(selected, details)| == |selected|
    ensures forall i :: 0 <= i < |selected| ==>
              ProcessAll(selected, details)[i] == ProcessListing(selected[i], details[i]).value
  {
    SuccessesAll(seq(|selected|, i requires 0 <= i < |selected| => ProcessListing(selected[i], details[i])));
  }

  /** `int(int(total) / 12) + 1`: true division, then truncation toward zero. */
  function PageCount(total: int): (r: int)
    ensures total >= 0 ==> r >= 1 && (r - 1) * 12 <= total < r * 12
  {
    (if total >= 0 then total / 12 else -((-total) / 12)) + 1
  }

  /** When the total is a positive multiple of twelve the listings fill the pages
      before the last one: the crawl requests one page with no listings. */
  lemma PageCountExtraPage(total: int)
    requires total > 0 && total % 12 == 0
    ensures (PageCount(total) - 1) * 12 == total
  {
  }

  /** The page count the ceiling evidently intends: the fewest pages of twelve
      that hold every listing, at least one. */
  function PagesNeeded(total: nat): (r: nat)
    ensures r >= 1
    ensures total <= r * 12
    ensures r == 1 || (r - 1) * 12 < total
  {
    if total == 0 then 1 else (total + 11) / 12
  }

  /** The two counts differ exactly on the positive multiples of twelve. */
  lemma PageCountVersusNeeded(total: nat)
    ensures PageCount(total) == PagesNeeded(total) <==> total == 0 || total % 12 != 0
  {
  }
}
