/** The batch job that stores a score, a market insight text, a deviation and
    an assessment label for every listing. */
module WorthIt {
  import opened Common
  import opened Decimal
  import opened MarketAnalysis

  /** The columns the job reads per listing. */
  datatype ListingRow = ListingRow(url: string, location: Option<string>, kind: Option<string>,
                                   condition: Option<string>, size: Option<real>, price: Option<real>,
                                   rooms: Option<int>)

  /** The same listing as the statistics query reads it. */
  function AsDbRow(l: ListingRow): DbRow
  {
    DbRow(l.location, l.kind, l.condition, l.size, l.price)
  }

  /** The four columns written back for one listing. */
  datatype ScoreUpdate = ScoreUpdate(url: string, score: Option<real>, insight: string,
                                     diffPct: Option<real>, assessment: string)

  /** Written as two literals: the verifier reads the characters of a short
      literal but not of one this long. */
  const NoMarketData: string := "Nincs elegendő piaci adat" + " az összehasonlításhoz"
  const UnknownAssessment: string := "Ismeretlen"

  /** `round(x)` for a non-negative number: to the nearest integer, ties to even. */
  function RoundHalfEven(x: real): (n: nat)
    requires x >= 0.0
    ensures -0.5 <= n as real - x <= 0.5
  {
    var f := x.Floor;
    var frac := x - f as real;
    if frac < 0.5 then f
    else if frac > 0.5 then f + 1
    else if f % 2 == 0 then f
    else f + 1
  }

  /** Whole numbers round to themselves. */
  lemma RoundWhole(n: nat)
    ensures RoundHalfEven(n as real) == n
  {
  }

  /** The three digits of a group, with leading zeros. */
  function Pad3(n: nat): (s: string)
    requires n < 1000
    ensures |s| == 3 && AllDigits(s) && ',' !in s
  {
    [DigitChar(n / 100), DigitChar(n / 10 % 10), DigitChar(n % 10)]
  }

  /** The `,` format specifier on a natural number: its digits in groups of three
      separated by commas. */
  function GroupThousands(n: nat): (s: string)
    ensures |s| >= 1
    decreases n
  {
    if n < 1000 then NatToString(n) else GroupThousands(n / 1000) + "," + Pad3(n % 1000)
  }

  /** The last three digits of a number of at least four digits. */
  lemma NatToStringSplit(n: nat)
    requires n >= 1000
    ensures NatToString(n) == NatToString(n / 1000) + Pad3(n % 1000)
  {
    var a := n / 10;
    var b := a / 10;
    assert b / 10 == n / 1000;
    assert n % 10 == (n % 1000) % 10;
    assert a % 10 == (n % 1000) / 10 % 10;
    assert b % 10 == (n % 1000) / 100;
    assert NatToString(n) == NatToString(a) + [DigitChar(n % 10)];
    assert NatToString(a) == NatToString(b) + [DigitChar(a % 10)];
    assert NatToString(b) == NatToString(b / 10) + [DigitChar(b % 10)];
  }

  /** Removing the group separators gives the plain decimal digits back. */
  lemma {:induction false} GroupThousandsDigits(n: nat)
    ensures ReplaceAll(GroupThousands(n), [','], "") == NatToString(n)
    decreases n
  {
    if n < 1000 {
      assert ',' !in NatToString(n);
      ContainsChar(NatToString(n), ',');
    } else {
      GroupThousandsDigits(n / 1000);
      NatToStringSplit(n);
      var head := GroupThousands(n / 1000);
      ReplaceCharConcat(head + ",", Pad3(n % 1000), ',', "");
      ReplaceCharConcat(head, ",", ',', "");
      assert ReplaceAll(",", [','], "") == "";
      ContainsChar(Pad3(n % 1000), ',');
    }
  }

  lemma GroupThousandsExample()
    ensures GroupThousands(1234567) == "1,234,567"
  {
    assert Pad3(567) == "567";
    assert Pad3(234) == "234";
    assert NatToString(1) == "1";
  }

  /** The stored insight text: the segment mean to the whole forint, grouped by
      thousands, and the sample count. */
  function InsightText(ins: Insight): string
    requires ins.marketAvg >= 0.0
  {
    "Piaci átlag: " + GroupThousands(RoundHalfEven(ins.marketAvg)) + " Ft/m² (" +
    NatToString(ins.sampleCount) + " ingatlan alapján)"
  }

  /** No assessment label reads as the unknown one. */
  lemma AssessmentKnown(a: Assessment)
    ensures a.Text() != UnknownAssessment
  {
    assert a.Text()[0] != 'I' && UnknownAssessment[0] == 'I';
  }

  /** An insight text never reads as the no-data text. */
  lemma InsightTextDiffers(ins: Insight)
    requires ins.marketAvg >= 0.0
    ensures InsightText(ins) != NoMarketData
  {
    var prefix := "Piaci átlag: ";
    var rest := GroupThousands(RoundHalfEven(ins.marketAvg)) + " Ft/m² (" + NatToString(ins.sampleCount) + " ingatlan alapján)";
    assert InsightText(ins) == prefix + rest;
    assert (prefix + rest)[0] == prefix[0] == 'P';
  }

  /** The update for one listing. The score is the enhanced score; without an
      insight it is recomputed with the simple formula. */
  function RowUpdate(table: seq<DbRow>, l: ListingRow): (u: ScoreUpdate)
    ensures u.url == l.url
    ensures u.diffPct.None? <==> u.assessment == UnknownAssessment
    ensures u.diffPct.None? <==> u.insight == NoMarketData
    ensures u.diffPct.None? <==> PropertyInsight(table, l.location, l.kind, l.condition, l.size, l.price).None?
    ensures u.diffPct.Some? ==> u.assessment == Label(u.diffPct.value).Text()
  {
    MarketStatsValid(table);
    match PropertyInsight(table, l.location, l.kind, l.condition, l.size, l.price)
    case Some(ins) =>
      AssessmentKnown(ins.assessment);
      InsightTextDiffers(ins);
      ScoreUpdate(l.url, EnhancedScore(table, l.location, l.kind, l.condition, l.size, l.price, l.rooms),
                  InsightText(ins), Some(ins.diffPct), ins.assessment.Text())
    case None =>
      ScoreUpdate(l.url, ProxyScore(l.price, l.size, l.rooms), NoMarketData, None, UnknownAssessment)
  }

  /** Whichever branch wrote it, the stored score is the enhanced score. */
  lemma StoredScoreIsEnhanced(table: seq<DbRow>, l: ListingRow)
    ensures RowUpdate(table, l).score == EnhancedScore(table, l.location, l.kind, l.condition, l.size, l.price, l.rooms)
  {
  }

  /** The updates for every listing, in table order, all against the statistics of
      the whole table. */
  function UpdateAll(listings: seq<ListingRow>): (r: seq<ScoreUpdate>)
    ensures |r| == |listings|
    ensures forall i | 0 <= i < |r| :: r[i] == RowUpdate(AsDbRows(listings), listings[i])
  {
    var table := AsDbRows(listings);
    seq(|listings|, i requires 0 <= i < |listings| => RowUpdate(table, listings[i]))
  }

  function AsDbRows(listings: seq<ListingRow>): (r: seq<DbRow>)
    ensures |r| == |listings| && forall i | 0 <= i < |r| :: r[i] == AsDbRow(listings[i])
  {
    seq(|listings|, i requires 0 <= i < |listings| => AsDbRow(listings[i]))
  }

  /** The URLs a sequence of updates touches. */
  function Urls(updates: seq<ScoreUpdate>): (r: set<string>)
    ensures forall i | 0 <= i < |updates| :: updates[i].url in r
    ensures forall u | u in r :: exists i | 0 <= i < |updates| :: updates[i].url == u
  {
    if |updates| == 0 then {}
    else
      var rest := Urls(updates[1..]);
      assert forall i | 1 <= i < |updates| :: updates[i] == updates[1..][i - 1];
      {updates[0].url} + rest
  }

  /** `UPDATE listings SET ... WHERE url = ?` for each update in turn. The map
      holds the four written columns per URL of the table; an update changes every
      row of its URL alike and adds no row, so a URL the table lacks is ignored,
      and the last update of a URL wins. */
  function Apply(stored: map<string, ScoreUpdate>, updates: seq<ScoreUpdate>): (r: map<string, ScoreUpdate>)
    ensures r.Keys == stored.Keys
    ensures forall u | u in stored && u !in Urls(updates) :: r[u] == stored[u]
    decreases |updates|
  {
    if |updates| == 0 then stored
    else
      var u := updates[0];
      Apply(if u.url in stored then stored[u.url := u] else stored, updates[1..])
  }

  /** An update of a stored URL that no later update of the same URL overrides
      is what is stored. */
  lemma {:induction false} ApplyLastWins(stored: map<string, ScoreUpdate>, updates: seq<ScoreUpdate>, i: nat)
    requires i < |updates| && updates[i].url in stored
    requires forall j | i < j < |updates| :: updates[j].url != updates[i].url
    ensures Apply(stored, updates)[updates[i].url] == updates[i]
    decreases |updates|
  {
    var u := updates[0];
    var next := if u.url in stored then stored[u.url := u] else stored;
    var rest := updates[1..];
    if i > 0 {
      assert rest[i - 1] == updates[i];
      forall j | i - 1 < j < |rest| ensures rest[j].url != rest[i - 1].url {
        assert rest[j] == updates[j + 1];
      }
      ApplyLastWins(next, rest, i - 1);
    }
  }

  /** The URLs of the listings, in table order. */
  function ListingUrls(listings: seq<ListingRow>): (r: seq<string>)
    ensures |r| == |listings| && forall i | 0 <= i < |r| :: r[i] == listings[i].url
  {
    seq(|listings|, i requires 0 <= i < |listings| => listings[i].url)
  }

  /** The whole job over the rows of the table: the table keeps its URLs, and the
      columns of every listing's URL are the update of the last row with that
      URL, scored against the statistics of the whole table. */
  lemma JobStoresEveryListing(stored: map<string, ScoreUpdate>, listings: seq<ListingRow>)
    requires forall i | 0 <= i < |listings| :: listings[i].url in stored
    ensures Apply(stored, UpdateAll(listings)).Keys == stored.Keys
    ensures forall i | 0 <= i < |listings| ::
              var j := LastIndexOf(ListingUrls(listings), listings[i].url, |listings|);
              j.Some? && Apply(stored, UpdateAll(listings))[listings[i].url] == RowUpdate(AsDbRows(listings), listings[j.value])
  {
    var updates := UpdateAll(listings);
    var urls := ListingUrls(listings);
    forall i | 0 <= i < |listings|
      ensures var j := LastIndexOf(urls, listings[i].url, |listings|);
              j.Some? && Apply(stored, updates)[listings[i].url] == RowUpdate(AsDbRows(listings), listings[j.value])
    {
      var j := LastIndexOf(urls, listings[i].url, |listings|);
      assert urls[i] == listings[i].url;
      var m := j.value;
      assert updates[m].url == listings[i].url;
      forall k | m < k < |updates| ensures updates[k].url != updates[m].url {
        assert urls[k] == updates[k].url;
      }
      ApplyLastWins(stored, updates, m);
    }
  }

  /** Over a table whose URLs are distinct, every listing ends up with its own
      update. */
  lemma JobDistinctUrls(stored: map<string, ScoreUpdate>, listings: seq<ListingRow>)
    requires forall i | 0 <= i < |listings| :: listings[i].url in stored
    requires forall i, j | 0 <= i < j < |listings| :: listings[i].url != listings[j].url
    ensures forall i | 0 <= i < |listings| ::
              Apply(stored, UpdateAll(listings))[listings[i].url] == RowUpdate(AsDbRows(listings), listings[i])
  {
    JobStoresEveryListing(stored, listings);
    var urls := ListingUrls(listings);
    forall i | 0 <= i < |listings|
      ensures Apply(stored, UpdateAll(listings))[listings[i].url] == RowUpdate(AsDbRows(listings), listings[i])
    {
      LastIndexOfDistinct(urls, i);
    }
  }
}
