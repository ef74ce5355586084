/** The search-result link of the property portal: path segments `key:value`
    joined by ";" after the list address, a range written `key:min~max`,
    `key:min~` or `key:~max`. */
module LinkGenerator {
  import opened Common
  import opened Decimal

  const ListBase: string := "https://www.oc.hu/ingatlanok/lista"

  /** `f"{v}"`: how a value is written into the link. */
  function Format(v: Val): string
  {
    match v
    case Null => "None"
    case Bool(b) => if b then "True" else "False"
    case Int(i) => IntToString(i)
    case Str(s) => s
  }

  /** The arguments of `generate_oc_link`. */
  datatype Search = Search(jelleg: Val, ertekesites: Val, arMin: Val, arMax: Val, elhelyezkedes: Val,
                           meretMin: Val, meretMax: Val, szobaMin: Val, szobaMax: Val)

  function OptSeq(o: Option<string>): (r: seq<string>)
    ensures |r| == if o.Some? then 1 else 0
  {
    match o
    case Some(x) => [x]
    case None => []
  }

  /** A range segment: both bounds, only the lower or only the upper one; none
      when both are falsy, so a zero bound is dropped. */
  function Range(key: string, lo: Val, hi: Val): (r: Option<string>)
    ensures r.None? <==> !Truthy(lo) && !Truthy(hi)
  {
    if Truthy(lo) && Truthy(hi) then Some(key + ":" + Format(lo) + "~" + Format(hi))
    else if Truthy(lo) then Some(key + ":" + Format(lo) + "~")
    else if Truthy(hi) then Some(key + ":~" + Format(hi))
    else None
  }

  /** A single-valued segment, present when the value is truthy. */
  function Plain(key: string, v: Val): (r: Option<string>)
    ensures r.Some? <==> Truthy(v)
  {
    if Truthy(v) then Some(key + ":" + Format(v)) else None
  }

  /** The segments in their fixed order: kind, sale type (always), price,
      location, size, rooms. */
  function Segments(q: Search): seq<string>
  {
    LeadingSegments(q) + TrailingSegments(q)
  }

  function LeadingSegments(q: Search): seq<string>
  {
    OptSeq(Plain("jelleg", q.jelleg))
    + OptSeq(Some("ertekesites:" + Format(q.ertekesites)))
    + OptSeq(Range("ar", q.arMin, q.arMax))
  }

  function TrailingSegments(q: Search): seq<string>
  {
    OptSeq(Plain("elhelyezkedes", q.elhelyezkedes))
    + OptSeq(Range("meret", q.meretMin, q.meretMax))
    + OptSeq(Range("szoba", q.szobaMin, q.szobaMax))
  }

  /** `generate_oc_link`: the list address, "/", then the segments joined by ";". */
  function GenerateLink(q: Search): (r: string)
    ensures |r| > |ListBase| && r[..|ListBase| + 1] == ListBase + "/"
  {
    ListBase + "/" + Join(Segments(q), ";")
  }

  // ---------------------------------------------------------------------------
  // Reading a link back
  // ---------------------------------------------------------------------------

  /** The key of a segment: the text before its first ":". */
  function SegmentKey(seg: string): string
  {
    FirstPiece(seg, ':')
  }

  function KeysOf(segs: seq<string>): (r: seq<string>)
    ensures |r| == |segs|
  {
    if |segs| == 0 then [] else [SegmentKey(segs[0])] + KeysOf(segs[1..])
  }

  lemma {:induction false} KeysOfConcat(a: seq<string>, b: seq<string>)
    ensures KeysOf(a + b) == KeysOf(a) + KeysOf(b)
    decreases |a|
  {
    if |a| == 0 {
      assert a + b == b;
    } else {
      assert (a + b)[1..] == a[1..] + b;
      KeysOfConcat(a[1..], b);
    }
  }

  /** Which keys a search puts into its link, by the presence of its values
      alone: the kind and each range when given, the sale type always. */
  function KeyOrder(q: Search): seq<string>
  {
    LeadingKeys(q) + TrailingKeys(q)
  }

  function LeadingKeys(q: Search): seq<string>
  {
    (if Truthy(q.jelleg) then ["jelleg"] else [])
    + ["ertekesites"]
    + (if Truthy(q.arMin) || Truthy(q.arMax) then ["ar"] else [])
  }

  function TrailingKeys(q: Search): seq<string>
  {
    (if Truthy(q.elhelyezkedes) then ["elhelyezkedes"] else [])
    + (if Truthy(q.meretMin) || Truthy(q.meretMax) then ["meret"] else [])
    + (if Truthy(q.szobaMin) || Truthy(q.szobaMax) then ["szoba"] else [])
  }

  lemma KeyOfSegment(key: string, rest: string)
    requires ':' !in key
    ensures SegmentKey(key + ":" + rest) == key
  {
    SplitPieceThenSep(key, rest, ':');
  }

  lemma KeysOfOpt(o: Option<string>, key: string)
    requires ':' !in key
    requires o.Some? ==> exists rest :: o.value == key + ":" + rest
    ensures KeysOf(OptSeq(o)) == if o.Some? then [key] else []
  {
    if o.Some? {
      var rest :| o.value == key + ":" + rest;
      KeyOfSegment(key, rest);
      assert KeysOf([o.value]) == [SegmentKey(o.value)] + KeysOf([]);
    }
  }

  lemma RangeShape(key: string, lo: Val, hi: Val)
    ensures Range(key, lo, hi).Some? ==> exists rest :: Range(key, lo, hi).value == key + ":" + rest
  {
    if Range(key, lo, hi).Some? {
      RangeText(key, lo, hi);
    }
  }

  lemma PlainShape(key: string, v: Val)
    ensures Plain(key, v).Some? ==> Plain(key, v).value == key + ":" + Format(v)
  {
  }

  /** The keys of the link's segments, in order, are exactly the keys the
      search's values call for, in the fixed order kind, sale type, price,
      location, size, rooms. */
  lemma SegmentKeysInOrder(q: Search)
    ensures KeysOf(Segments(q)) == KeyOrder(q)
  {
    FirstKeys(q);
    LastKeys(q);
    KeysOfConcat(LeadingSegments(q), TrailingSegments(q));
  }

  lemma FirstKeys(q: Search)
    ensures KeysOf(LeadingSegments(q)) == LeadingKeys(q)
  {
    var s1 := OptSeq(Plain("jelleg", q.jelleg));
    var s2 := OptSeq(Some("ertekesites:" + Format(q.ertekesites)));
    var s3 := OptSeq(Range("ar", q.arMin, q.arMax));
    PlainShape("jelleg", q.jelleg);
    KeysOfOpt(Plain("jelleg", q.jelleg), "jelleg");
    assert "ertekesites:" + Format(q.ertekesites) == "ertekesites" + ":" + Format(q.ertekesites);
    KeysOfOpt(Some("ertekesites:" + Format(q.ertekesites)), "ertekesites");
    RangeShape("ar", q.arMin, q.arMax);
    KeysOfOpt(Range("ar", q.arMin, q.arMax), "ar");
    KeysOfConcat(s1, s2);
    KeysOfConcat(s1 + s2, s3);
  }

  lemma LastKeys(q: Search)
    ensures KeysOf(TrailingSegments(q)) == TrailingKeys(q)
  {
    var s4 := OptSeq(Plain("elhelyezkedes", q.elhelyezkedes));
    var s5 := OptSeq(Range("meret", q.meretMin, q.meretMax));
    var s6 := OptSeq(Range("szoba", q.szobaMin, q.szobaMax));
    PlainShape("elhelyezkedes", q.elhelyezkedes);
    KeysOfOpt(Plain("elhelyezkedes", q.elhelyezkedes), "elhelyezkedes");
    RangeShape("meret", q.meretMin, q.meretMax);
    KeysOfOpt(Range("meret", q.meretMin, q.meretMax), "meret");
    RangeShape("szoba", q.szobaMin, q.szobaMax);
    KeysOfOpt(Range("szoba", q.szobaMin, q.szobaMax), "szoba");
    KeysOfConcat(s4, s5);
    KeysOfConcat(s4 + s5, s6);
  }

  /** What a link shows of a bound: its text when truthy, nothing otherwise. */
  function Shown(v: Val): string
  {
    if Truthy(v) then Format(v) else ""
  }

  /** A range segment reads back as its two bounds around the "~", a missing or
      zero bound as the empty text. */
  lemma RangeBounds(key: string, lo: Val, hi: Val)
    requires Range(key, lo, hi).Some?
    requires '~' !in Format(lo) && '~' !in Format(hi)
    ensures var seg := Range(key, lo, hi).value;
            |seg| > |key| && seg[..|key| + 1] == key + ":"
            && Split(seg[|key| + 1..], '~') == [Shown(lo), Shown(hi)]
  {
    var seg := Range(key, lo, hi).value;
    var body := Shown(lo) + "~" + Shown(hi);
    RangeText(key, lo, hi);
    assert seg[|key| + 1..] == body;
    SplitLastPiece(Shown(hi), '~');
    SplitPieceThenSep(Shown(lo), Shown(hi), '~');
  }

  lemma RangeText(key: string, lo: Val, hi: Val)
    requires Range(key, lo, hi).Some?
    ensures Range(key, lo, hi).value == key + ":" + (Shown(lo) + "~" + Shown(hi))
  {
    if Truthy(lo) && Truthy(hi) {
    } else if Truthy(lo) {
      assert Shown(hi) == "";
      assert Format(lo) + "~" + "" == Format(lo) + "~";
    } else {
      assert Shown(lo) == "";
      assert "" + "~" + Format(hi) == "~" + Format(hi);
    }
  }

  /** No value of the search is written with a ";". */
  predicate NoSemicolon(q: Search)
  {
    && ';' !in Format(q.jelleg) && ';' !in Format(q.ertekesites)
    && ';' !in Format(q.arMin) && ';' !in Format(q.arMax) && ';' !in Format(q.elhelyezkedes)
    && ';' !in Format(q.meretMin) && ';' !in Format(q.meretMax)
    && ';' !in Format(q.szobaMin) && ';' !in Format(q.szobaMax)
  }

  /** No segment holds a ";". */
  predicate SegmentsClean(segs: seq<string>)
  {
    forall i :: 0 <= i < |segs| ==> ';' !in segs[i]
  }

  lemma OptSeqNoSemicolon(o: Option<string>)
    requires o.Some? ==> ';' !in o.value
    ensures SegmentsClean(OptSeq(o))
  {
  }

  lemma RangeNoSemicolon(key: string, lo: Val, hi: Val)
    requires ';' !in key && ';' !in Format(lo) && ';' !in Format(hi)
    ensures SegmentsClean(OptSeq(Range(key, lo, hi)))
  {
  }

  lemma ConcatNoSemicolon(a: seq<string>, b: seq<string>)
    requires SegmentsClean(a) && SegmentsClean(b)
    ensures SegmentsClean(a + b)
  {
  }

  lemma LeadingNoSemicolon(q: Search)
    requires NoSemicolon(q)
    ensures SegmentsClean(LeadingSegments(q))
  {
    var s1 := OptSeq(Plain("jelleg", q.jelleg));
    var s2 := OptSeq(Some("ertekesites:" + Format(q.ertekesites)));
    var s3 := OptSeq(Range("ar", q.arMin, q.arMax));
    OptSeqNoSemicolon(Plain("jelleg", q.jelleg));
    OptSeqNoSemicolon(Some("ertekesites:" + Format(q.ertekesites)));
    RangeNoSemicolon("ar", q.arMin, q.arMax);
    ConcatNoSemicolon(s1, s2);
    ConcatNoSemicolon(s1 + s2, s3);
  }

  lemma TrailingNoSemicolon(q: Search)
    requires NoSemicolon(q)
    ensures SegmentsClean(TrailingSegments(q))
  {
    var s4 := OptSeq(Plain("elhelyezkedes", q.elhelyezkedes));
    var s5 := OptSeq(Range("meret", q.meretMin, q.meretMax));
    var s6 := OptSeq(Range("szoba", q.szobaMin, q.szobaMax));
    OptSeqNoSemicolon(Plain("elhelyezkedes", q.elhelyezkedes));
    RangeNoSemicolon("meret", q.meretMin, q.meretMax);
    RangeNoSemicolon("szoba", q.szobaMin, q.szobaMax);
    ConcatNoSemicolon(s4, s5);
    ConcatNoSemicolon(s4 + s5, s6);
  }

  /** The text after the list address splits on ";" into exactly the segments,
      when no value is written with a ";". */
  lemma LinkSegments(q: Search)
    requires NoSemicolon(q)
    ensures var r := GenerateLink(q);
            Split(r[|ListBase| + 1..], ';') == Segments(q)
  {
    LeadingNoSemicolon(q);
    TrailingNoSemicolon(q);
    ConcatNoSemicolon(LeadingSegments(q), TrailingSegments(q));
    var segs := Segments(q);
    assert |segs| >= 1 by {
      assert |OptSeq(Some("ertekesites:" + Format(q.ertekesites)))| == 1;
    }
    SplitJoin(segs, ';');
    var r := GenerateLink(q);
    assert r[|ListBase| + 1..] == Join(segs, ";");
  }
}
