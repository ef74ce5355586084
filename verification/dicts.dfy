/** Insertion-ordered dictionaries with string keys, as the language's `dict`.

    A dictionary is a sequence of (key, value) pairs whose keys are distinct; its
    iteration order is the order of first insertion. Two dictionaries with the
    same pairs in any order, values compared structurally, are `SameContents`;
    this is the language's `==` except where it equates values of different
    types (`True == 1`), which the model keeps apart.
 */
module Dicts {
  import opened Common

  type Dict = seq<(string, Val)>

  predicate DistinctKeys(d: Dict)
  {
    forall i, j :: 0 <= i < j < |d| ==> d[i].0 != d[j].0
  }

  function Keys(d: Dict): set<string>
  {
    set p | p in d :: p.0
  }

  lemma DistinctKeysTail(d: Dict)
    requires DistinctKeys(d) && |d| > 0
    ensures DistinctKeys(d[1..])
    ensures forall q :: q in d[1..] ==> q.0 != d[0].0
  {
    forall i, j | 0 <= i < j < |d[1..]| ensures d[1..][i].0 != d[1..][j].0 {
      assert d[1..][i] == d[i + 1] && d[1..][j] == d[j + 1];
    }
    forall q | q in d[1..] ensures q.0 != d[0].0 {
      var j :| 0 <= j < |d[1..]| && d[1..][j] == q;
      assert d[j + 1] == q;
    }
  }

  /** `d.get(k)` */
  function Lookup(d: Dict, k: string): (r: Option<Val>)
    ensures r.Some? <==> k in Keys(d)
    ensures r.Some? ==> (k, r.value) in d
  {
    if |d| == 0 then None
    else if d[0].0 == k then Some(d[0].1)
    else
      assert forall p :: p in d <==> p == d[0] || p in d[1..];
      Lookup(d[1..], k)
  }

  /** With distinct keys, the value found for a key is the one stored with it. */
  lemma {:induction false} LookupStored(d: Dict, p: (string, Val))
    requires DistinctKeys(d) && p in d
    ensures Lookup(d, p.0) == Some(p.1)
    decreases |d|
  {
    if d[0] != p {
      DistinctKeysTail(d);
      assert p in d[1..] by {
        var j :| 0 <= j < |d| && d[j] == p;
        assert d[1..][j - 1] == p;
      }
      LookupStored(d[1..], p);
    }
  }

  /** `d.get(k, default)` */
  function GetOr(d: Dict, k: string, default: Val): (v: Val)
    ensures k !in Keys(d) ==> v == default
    ensures k in Keys(d) ==> Some(v) == Lookup(d, k)
  {
    match Lookup(d, k)
    case Some(v) => v
    case None => default
  }

  /** `d[k] = v`: an existing key keeps its position, a new key goes last. */
  function SetKey(d: Dict, k: string, v: Val): (r: Dict)
    ensures Lookup(r, k) == Some(v)
    ensures forall k' :: k' != k ==> Lookup(r, k') == Lookup(d, k')
    ensures k !in Keys(d) ==> r == d + [(k, v)]
  {
    if |d| == 0 then [(k, v)]
    else if d[0].0 == k then [(k, v)] + d[1..]
    else
      assert forall p :: p in d <==> p == d[0] || p in d[1..];
      [d[0]] + SetKey(d[1..], k, v)
  }

  /** A pair whose key is new keeps the keys distinct when put in front. */
  lemma DistinctCons(p: (string, Val), d: Dict)
    requires DistinctKeys(d) && forall q :: q in d ==> q.0 != p.0
    ensures DistinctKeys([p] + d)
  {
    var r := [p] + d;
    forall i, j | 0 <= i < j < |r| ensures r[i].0 != r[j].0 {
      assert r[j] == d[j - 1] && d[j - 1] in d;
      if i > 0 {
        assert r[i] == d[i - 1];
      }
    }
  }

  lemma KeysCons(p: (string, Val), s: Dict)
    ensures Keys([p] + s) == {p.0} + Keys(s)
  {
    assert forall q :: q in [p] + s <==> q == p || q in s;
  }

  lemma KeysAppend(d: Dict, p: (string, Val))
    ensures Keys(d + [p]) == Keys(d) + {p.0}
  {
    assert forall q :: q in d + [p] <==> q in d || q == p;
  }

  /** Assigning a key adds exactly that key. */
  lemma {:induction false} SetKeyKeys(d: Dict, k: string, v: Val)
    ensures Keys(SetKey(d, k, v)) == Keys(d) + {k}
    decreases |d|
  {
    if |d| > 0 {
      assert d == [d[0]] + d[1..];
      KeysCons(d[0], d[1..]);
      if d[0].0 == k {
        KeysCons((k, v), d[1..]);
      } else {
        SetKeyKeys(d[1..], k, v);
        KeysCons(d[0], SetKey(d[1..], k, v));
      }
    }
  }

  /** Assigning a key keeps the keys distinct. */
  lemma {:induction false} SetKeyDistinct(d: Dict, k: string, v: Val)
    requires DistinctKeys(d)
    ensures DistinctKeys(SetKey(d, k, v))
    decreases |d|
  {
    var r := SetKey(d, k, v);
    if |d| > 0 {
      DistinctKeysTail(d);
      if d[0].0 == k {
        forall i, j | 0 <= i < j < |r| ensures r[i].0 != r[j].0 {
          assert r[i].0 == d[i].0 && r[j].0 == d[j].0;
        }
      } else {
        var tail := SetKey(d[1..], k, v);
        SetKeyDistinct(d[1..], k, v);
        SetKeyKeys(d[1..], k, v);
        assert d[0].0 !in Keys(d[1..]);
        forall i, j | 0 <= i < j < |r| ensures r[i].0 != r[j].0 {
          if i == 0 {
            assert r[j] == tail[j - 1] && tail[j - 1] in tail;
            assert r[j].0 in Keys(tail);
          } else {
            assert r[i] == tail[i - 1] && r[j] == tail[j - 1];
          }
        }
      }
    }
  }

  /** Same pairs in any order, with values compared structurally. */
  ghost predicate SameContents(a: Dict, b: Dict)
  {
    forall k :: Lookup(a, k) == Lookup(b, k)
  }

  /** With distinct keys, equal contents means the same set of pairs. */
  lemma SameContentsPairs(a: Dict, b: Dict)
    requires DistinctKeys(a) && DistinctKeys(b)
    ensures SameContents(a, b) <==> forall p :: p in a <==> p in b
  {
    if SameContents(a, b) {
      forall p ensures p in a <==> p in b {
        if p in a {
          LookupStored(a, p);
          assert Lookup(b, p.0) == Some(p.1);
        }
        if p in b {
          LookupStored(b, p);
          assert Lookup(a, p.0) == Some(p.1);
        }
      }
    }
    if forall p :: p in a <==> p in b {
      forall k ensures Lookup(a, k) == Lookup(b, k) {
        assert Keys(a) == Keys(b);
        if k in Keys(a) {
          var v := Lookup(a, k).value;
          LookupStored(b, (k, v));
        }
      }
    }
  }

  // ---------------------------------------------------------------------------
  // Key order: the language compares strings code point by code point.
  // ---------------------------------------------------------------------------

  predicate LexLess(a: string, b: string)
  {
    if |a| == 0 then |b| > 0
    else if |b| == 0 then false
    else if a[0] != b[0] then a[0] < b[0]
    else LexLess(a[1..], b[1..])
  }

  lemma {:induction false} LexLessIrreflexive(a: string)
    ensures !LexLess(a, a)
    decreases |a|
  {
    if |a| > 0 {
      LexLessIrreflexive(a[1..]);
    }
  }

  lemma {:induction false} LexLessAsymmetric(a: string, b: string)
    ensures !(LexLess(a, b) && LexLess(b, a))
    decreases |a|
  {
    if |a| > 0 && |b| > 0 && a[0] == b[0] {
      LexLessAsymmetric(a[1..], b[1..]);
    }
  }

  lemma {:induction false} LexLessTransitive(a: string, b: string, c: string)
    requires LexLess(a, b) && LexLess(b, c)
    ensures LexLess(a, c)
    decreases |a|
  {
    if |a| > 0 && a[0] == b[0] && b[0] == c[0] {
      LexLessTransitive(a[1..], b[1..], c[1..]);
    }
  }

  lemma {:induction false} LexLessTotal(a: string, b: string)
    requires a != b
    ensures LexLess(a, b) || LexLess(b, a)
    decreases |a|
  {
    if |a| > 0 && |b| > 0 && a[0] == b[0] {
      assert a[1..] != b[1..] by {
        assert a == [a[0]] + a[1..] && b == [b[0]] + b[1..];
      }
      LexLessTotal(a[1..], b[1..]);
    }
  }

  /** Keys strictly increase along the dictionary. */
  predicate KeySorted(d: Dict)
  {
    forall i, j :: 0 <= i < j < |d| ==> LexLess(d[i].0, d[j].0)
  }

  lemma KeySortedDistinct(d: Dict)
    requires KeySorted(d)
    ensures DistinctKeys(d)
  {
    forall i, j | 0 <= i < j < |d| ensures d[i].0 != d[j].0 {
      LexLessIrreflexive(d[i].0);
    }
  }

  lemma KeySortedTail(s: Dict)
    requires KeySorted(s) && |s| > 0
    ensures KeySorted(s[1..])
  {
    forall i, j | 0 <= i < j < |s[1..]| ensures LexLess(s[1..][i].0, s[1..][j].0) {
      assert s[1..][i] == s[i + 1] && s[1..][j] == s[j + 1];
    }
  }

  /** Inserts a pair before the first pair with a larger key. */
  function InsertByKey(p: (string, Val), s: Dict): (r: Dict)
    ensures multiset(r) == multiset(s) + multiset{p}
  {
    if |s| == 0 || LexLess(p.0, s[0].0) then [p] + s
    else
      assert s == [s[0]] + s[1..];
      [s[0]] + InsertByKey(p, s[1..])
  }

  lemma {:induction false} InsertByKeySorted(p: (string, Val), s: Dict)
    requires KeySorted(s)
    requires p.0 !in Keys(s)
    ensures KeySorted(InsertByKey(p, s))
    decreases |s|
  {
    if |s| == 0 {
    } else if LexLess(p.0, s[0].0) {
      forall q | q in s ensures LexLess(p.0, q.0) {
        var m :| 0 <= m < |s| && s[m] == q;
        if m > 0 {
          LexLessTransitive(p.0, s[0].0, s[m].0);
        }
      }
      ConsSorted(p, s);
    } else {
      assert s[0] in s;
      LexLessTotal(p.0, s[0].0);
      KeySortedTail(s);
      assert forall q :: q in s[1..] ==> q in s;
      InsertByKeySorted(p, s[1..]);
      var tail := InsertByKey(p, s[1..]);
      assert forall q :: q in tail <==> q == p || q in s[1..] by {
        assert forall q :: q in tail <==> q in multiset(tail);
      }
      forall q | q in s[1..] ensures LexLess(s[0].0, q.0) {
        var m :| 0 <= m < |s[1..]| && s[1..][m] == q;
        assert s[m + 1] == q;
      }
      ConsSorted(s[0], tail);
    }
  }

  /** A pair below every key of a sorted dictionary can lead it. */
  lemma ConsSorted(x: (string, Val), s: Dict)
    requires KeySorted(s)
    requires forall q :: q in s ==> LexLess(x.0, q.0)
    ensures KeySorted([x] + s)
  {
    var r := [x] + s;
    forall i, j | 0 <= i < j < |r| ensures LexLess(r[i].0, r[j].0) {
      assert r[j] == s[j - 1];
      if i > 0 {
        assert r[i] == s[i - 1];
      }
    }
  }

  /** The pairs of a dictionary ordered by key: `sorted(d.items())`. */
  function SortByKey(d: Dict): (r: Dict)
    ensures multiset(r) == multiset(d)
    decreases |d|
  {
    if |d| == 0 then []
    else
      assert d == d[..|d| - 1] + [d[|d| - 1]];
      InsertByKey(d[|d| - 1], SortByKey(d[..|d| - 1]))
  }

  /** Sorting keeps exactly the pairs of the dictionary. */
  lemma SortByKeyElements(d: Dict)
    ensures forall p :: p in SortByKey(d) <==> p in d
    ensures Keys(SortByKey(d)) == Keys(d)
  {
    var r := SortByKey(d);
    forall p ensures p in r <==> p in d {
      assert p in r <==> p in multiset(r);
      assert p in d <==> p in multiset(d);
    }
  }

  /** Sorting a dictionary gives strictly increasing keys. */
  lemma {:induction false} SortByKeySorted(d: Dict)
    requires DistinctKeys(d)
    ensures KeySorted(SortByKey(d))
    decreases |d|
  {
    if |d| > 0 {
      var init := d[..|d| - 1];
      var last := d[|d| - 1];
      assert DistinctKeys(init) by {
        forall i, j | 0 <= i < j < |init| ensures init[i].0 != init[j].0 {
          assert init[i] == d[i] && init[j] == d[j];
        }
      }
      SortByKeySorted(init);
      var sInit := SortByKey(init);
      SortByKeyElements(init);
      forall q | q in sInit ensures q.0 != last.0 {
        var m :| 0 <= m < |init| && init[m] == q;
        assert d[m] == q;
      }
      InsertByKeySorted(last, sInit);
    }
  }

  /** Two key-sorted dictionaries holding the same pairs are identical. */
  lemma {:induction false} KeySortedUnique(a: Dict, b: Dict)
    requires KeySorted(a) && KeySorted(b)
    requires forall p :: p in a <==> p in b
    ensures a == b
    decreases |a|
  {
    if |a| == 0 {
      assert multiset(b) == multiset{} by {
        forall p ensures p !in multiset(b) {
          assert p in multiset(b) <==> p in b;
        }
      }
      assert |b| == |multiset(b)|;
    } else {
      assert a[0] in b;
      assert |b| > 0;
      assert b[0] in a;
      var i :| 0 <= i < |a| && a[i] == b[0];
      var j :| 0 <= j < |b| && b[j] == a[0];
      assert i > 0 ==> LexLess(a[0].0, b[0].0);
      assert j > 0 ==> LexLess(b[0].0, a[0].0);
      LexLessAsymmetric(a[0].0, b[0].0);
      assert i == 0 || j == 0;
      assert a[0] == b[0];
      KeySortedTail(a);
      KeySortedTail(b);
      KeySortedDistinct(a);
      KeySortedDistinct(b);
      DistinctKeysTail(a);
      DistinctKeysTail(b);
      forall p ensures p in a[1..] <==> p in b[1..] {
        assert p in a <==> p == a[0] || p in a[1..];
        assert p in b <==> p == b[0] || p in b[1..];
      }
      KeySortedUnique(a[1..], b[1..]);
      assert a == [a[0]] + a[1..] && b == [b[0]] + b[1..];
    }
  }

  /** Sorting by key forgets the insertion order and nothing else: two
      dictionaries sort to the same sequence exactly when they are equal. */
  lemma SortByKeyCanonical(a: Dict, b: Dict)
    requires DistinctKeys(a) && DistinctKeys(b)
    ensures SortByKey(a) == SortByKey(b) <==> SameContents(a, b)
  {
    SortByKeySorted(a);
    SortByKeySorted(b);
    SortByKeyElements(a);
    SortByKeyElements(b);
    SameContentsPairs(a, b);
    if SameContents(a, b) {
      KeySortedUnique(SortByKey(a), SortByKey(b));
    }
  }

  /** `d.pop(k, None)`: the key goes, every other entry stays in order. */
  function RemoveKey(d: Dict, k: string): (r: Dict)
    ensures Lookup(r, k).None?
    ensures forall k' :: k' != k ==> Lookup(r, k') == Lookup(d, k')
    ensures forall p :: p in r <==> p in d && p.0 != k
  {
    if |d| == 0 then []
    else
      assert forall p :: p in d <==> p == d[0] || p in d[1..];
      var rest := RemoveKey(d[1..], k);
      if d[0].0 == k then rest
      else
        assert ([d[0]] + rest)[1..] == rest;
        assert forall p :: p in [d[0]] + rest <==> p == d[0] || p in rest;
        [d[0]] + rest
  }

  /** `d.update(e)`: every key of `e` takes `e`'s value, the rest keep `d`'s. */
  function Update(d: Dict, e: Dict): (r: Dict)
    requires DistinctKeys(e)
    ensures forall k :: Lookup(r, k) == if k in Keys(e) then Lookup(e, k) else Lookup(d, k)
    ensures DistinctKeys(d) ==> DistinctKeys(r)
    decreases |e|
  {
    if |e| == 0 then d
    else
      DistinctKeysTail(e);
      var d' := SetKey(d, e[0].0, e[0].1);
      assert DistinctKeys(d) ==> DistinctKeys(d') by {
        if DistinctKeys(d) { SetKeyDistinct(d, e[0].0, e[0].1); }
      }
      assert forall k :: k in Keys(e) <==> k == e[0].0 || k in Keys(e[1..]) by {
        KeysCons(e[0], e[1..]);
        assert e == [e[0]] + e[1..];
      }
      assert forall k :: k in Keys(e[1..]) ==> Lookup(e[1..], k) == Lookup(e, k) by {
        forall k | k in Keys(e[1..]) ensures Lookup(e[1..], k) == Lookup(e, k) {
          assert Lookup(e[1..], k).Some?;
          assert (k, Lookup(e[1..], k).value) in e[1..];
        }
      }
      Update(d', e[1..])
  }

  /** The value found for a key is the one at its first position. */
  lemma {:induction false} LookupFirst(d: Dict, i: nat, k: string)
    requires i < |d| && d[i].0 == k
    requires forall j :: 0 <= j < i ==> d[j].0 != k
    ensures Lookup(d, k) == Some(d[i].1)
    decreases i
  {
    if i > 0 {
      assert d[0].0 != k;
      LookupFirst(d[1..], i - 1, k);
    }
  }
}
