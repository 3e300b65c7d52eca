/**
 * `Jinjiang.download_cover` up to the point where it knows which book to
 * fetch a cover for (lines 330-362): without an id it runs `identify` into a
 * fresh queue, drains the queue, sorts the records with the plugin's key and
 * takes the best record's id.
 */
module CoverDownload {
  import opened Wrappers
  import opened Exceptions
  import opened CompareKey
  import opened CatalogConstants
  import opened CatalogUrls
  import opened Identify

  /** `identify_results_keygen` (lines 120-123): the key of a record. */
  function Keygen(mi: Metadata): (k: Key)
    ensures k.extra == mi.searchResultIndex.GetOr(0)
  {
    KeyOf(mi.searchResultIndex)
  }

  function Rank(mi: Metadata): int {
    Keygen(mi).extra
  }

  /**
   * Inserts `x` in front of the first element that is not below it: with the
   * elements of `t` coming after `x` in the input, equal keys keep input order.
   */
  function Insert(x: Metadata, t: seq<Metadata>): seq<Metadata> {
    if t == [] || !Keygen(t[0]).Lt(Keygen(x)) then [x] + t
    else [t[0]] + Insert(x, t[1..])
  }

  /** `list.sort(key=...)`: a stable sort that compares keys with `<` only. */
  function SortByKey(s: seq<Metadata>): seq<Metadata> {
    if s == [] then [] else Insert(s[0], SortByKey(s[1..]))
  }

  predicate SortedByKey(s: seq<Metadata>) {
    forall i, j :: 0 <= i < j < |s| ==> Keygen(s[i]).Le(Keygen(s[j]))
  }

  /** The records of `s` whose key is `v`, in order. */
  function WithRank(s: seq<Metadata>, v: int): seq<Metadata> {
    if s == [] then []
    else if Rank(s[0]) == v then [s[0]] + WithRank(s[1..], v)
    else WithRank(s[1..], v)
  }

  /** `s[i]` has the least key of `s`, and no earlier record shares that key. */
  predicate IsFirstMinimal(s: seq<Metadata>, i: int) {
    && 0 <= i < |s|
    && (forall j :: 0 <= j < |s| ==> Rank(s[i]) <= Rank(s[j]))
    && (forall j :: 0 <= j < i ==> Rank(s[j]) > Rank(s[i]))
  }

  lemma {:induction false} InsertPermutes(x: Metadata, t: seq<Metadata>)
    ensures multiset(Insert(x, t)) == multiset([x] + t)
  {
    if t != [] && Keygen(t[0]).Lt(Keygen(x)) {
      InsertPermutes(x, t[1..]);
      assert t == [t[0]] + t[1..];
    }
  }

  /** The sort only reorders its input. */
  lemma {:induction false} SortPermutes(s: seq<Metadata>)
    ensures multiset(SortByKey(s)) == multiset(s)
  {
    if s != [] {
      SortPermutes(s[1..]);
      InsertPermutes(s[0], SortByKey(s[1..]));
      assert s == [s[0]] + s[1..];
    }
  }

  lemma SortedCons(a: Metadata, rest: seq<Metadata>)
    requires SortedByKey(rest)
    requires forall y :: y in rest ==> Rank(a) <= Rank(y)
    ensures SortedByKey([a] + rest)
  {
    var s := [a] + rest;
    forall i, j | 0 <= i < j < |s|
      ensures Keygen(s[i]).Le(Keygen(s[j]))
    {
      assert s[j] == rest[j - 1] && rest[j - 1] in rest;
      if i > 0 {
        assert s[i] == rest[i - 1];
      }
    }
  }

  lemma {:induction false} InsertSorted(x: Metadata, t: seq<Metadata>)
    requires SortedByKey(t)
    ensures SortedByKey(Insert(x, t))
  {
    if t == [] || !Keygen(t[0]).Lt(Keygen(x)) {
      assert forall y :: y in t ==> Rank(x) <= Rank(y) by {
        forall y | y in t
          ensures Rank(x) <= Rank(y)
        {
          var j :| 0 <= j < |t| && t[j] == y;
          assert Keygen(t[0]).Le(Keygen(t[j])) || j == 0;
        }
      }
      SortedCons(x, t);
    } else {
      var tail := t[1..];
      assert SortedByKey(tail) by {
        forall i, j | 0 <= i < j < |tail|
          ensures Keygen(tail[i]).Le(Keygen(tail[j]))
        {
          assert tail[i] == t[i + 1] && tail[j] == t[j + 1];
        }
      }
      var rest := Insert(x, tail);
      InsertSorted(x, tail);
      InsertPermutes(x, tail);
      assert forall y :: y in rest ==> Rank(t[0]) <= Rank(y) by {
        forall y | y in rest
          ensures Rank(t[0]) <= Rank(y)
        {
          assert y in multiset(rest);
          assert y == x || y in tail;
          if y != x {
            var j :| 0 <= j < |tail| && tail[j] == y;
            assert t[j + 1] == y;
          }
        }
      }
      SortedCons(t[0], rest);
    }
  }

  /** The sort leaves records in ascending key order. */
  lemma {:induction false} SortSorted(s: seq<Metadata>)
    ensures SortedByKey(SortByKey(s))
  {
    if s != [] {
      SortSorted(s[1..]);
      InsertSorted(s[0], SortByKey(s[1..]));
    }
  }

  lemma {:induction false} InsertStable(x: Metadata, t: seq<Metadata>, v: int)
    ensures WithRank(Insert(x, t), v) == if Rank(x) == v then [x] + WithRank(t, v) else WithRank(t, v)
  {
    if t != [] && Keygen(t[0]).Lt(Keygen(x)) {
      InsertStable(x, t[1..], v);
      assert Insert(x, t)[1..] == Insert(x, t[1..]);
    }
  }

  /** The sort is stable: records with equal keys keep their relative order. */
  lemma {:induction false} SortStable(s: seq<Metadata>, v: int)
    ensures WithRank(SortByKey(s), v) == WithRank(s, v)
  {
    if s != [] {
      SortStable(s[1..], v);
      InsertStable(s[0], SortByKey(s[1..]), v);
    }
  }

  /** The first record after sorting is the earliest record with the least key. */
  lemma {:induction false} SortHeadFirstMinimal(s: seq<Metadata>)
    requires s != []
    ensures exists i :: IsFirstMinimal(s, i) && SortByKey(s)[0] == s[i]
  {
    var rest := SortByKey(s[1..]);
    if s[1..] == [] {
      assert IsFirstMinimal(s, 0);
    } else {
      SortHeadFirstMinimal(s[1..]);
      var i' :| IsFirstMinimal(s[1..], i') && rest[0] == s[1..][i'];
      if !Keygen(rest[0]).Lt(Keygen(s[0])) {
        forall j | 0 <= j < |s|
          ensures Rank(s[0]) <= Rank(s[j])
        {
          if j > 0 {
            assert s[j] == s[1..][j - 1];
          }
        }
        assert IsFirstMinimal(s, 0);
      } else {
        forall j | 0 <= j < |s|
          ensures Rank(s[i' + 1]) <= Rank(s[j])
          ensures j < i' + 1 ==> Rank(s[j]) > Rank(s[i' + 1])
        {
          if j > 0 {
            assert s[j] == s[1..][j - 1];
          }
        }
        assert IsFirstMinimal(s, i' + 1);
      }
    }
  }

  /** Input that is already in key order comes back unchanged. */
  lemma {:induction false} SortOfSorted(s: seq<Metadata>)
    requires SortedByKey(s)
    ensures SortByKey(s) == s
  {
    if s != [] {
      assert SortedByKey(s[1..]) by {
        forall i, j | 0 <= i < j < |s[1..]|
          ensures Keygen(s[1..][i]).Le(Keygen(s[1..][j]))
        {
          assert s[1..][i] == s[i + 1] && s[1..][j] == s[j + 1];
        }
      }
      SortOfSorted(s[1..]);
      assert s == [s[0]] + s[1..];
    }
  }

  /** Lines 340-345: takes records until the queue is empty. */
  method DrainQueue(rq: ResultQueue) returns (results: seq<Metadata>)
    modifies rq
    ensures results == old(rq.items)
    ensures rq.items == []
  {
    results := [];
    while true
      invariant results + rq.items == old(rq.items)
      decreases |rq.items|
    {
      var next := rq.GetNowait();
      if next.None? {
        break;
      }
      results := results + [next.value];
    }
  }

  /** Where `download_cover` stands at line 360. */
  datatype Selection =
    | Selected(id: string)      // it reaches line 364 with this id
    | NoCover                   // it returns without a cover
    | Failed(exception: Exception)  // an exception escaped `identify`

  /** The id the best of the `identify` records names, if any. */
  function BestId(records: seq<Metadata>): Option<string> {
    if records == [] then None
    else
      var best := SortByKey(records)[0];
      if ProviderId in best.identifiers then Some(best.identifiers[ProviderId]) else None
  }

  /**
   * No records, no id; otherwise the id is that of the earliest record among
   * those with the least key, when that record has one.
   */
  lemma BestIdFirstMinimal(records: seq<Metadata>)
    ensures records == [] ==> BestId(records) == None
    ensures records != [] ==>
      exists i :: IsFirstMinimal(records, i)
        && BestId(records) == (if ProviderId in records[i].identifiers then Some(records[i].identifiers[ProviderId]) else None)
  {
    if records != [] {
      SortHeadFirstMinimal(records);
    }
  }

  /**
   * Lines 330-362. With an id in the identifiers, that id is used as it is.
   * Without one, `identify` runs in search mode (its identifiers have no id);
   * an abort after it or an empty result means no cover.
   */
  function SelectionOf(identifiers: map<string, string>, aborted: bool, search: Option<SearchPage>): Selection {
    if ProviderId in identifiers then Selected(identifiers[ProviderId])
    else
      var run := if search.None? then Run([], Returned) else SearchRun(search.value);
      if run.outcome.Raised? then Failed(run.outcome.exception)
      else if aborted then NoCover
      else match BestId(run.records)
        case None => NoCover
        case Some(id) => Selected(id)
  }

  /** `download_cover` up to line 362: `aborted` is the state of `abort` once `identify` has returned. */
  method SelectBook(identifiers: map<string, string>, aborted: bool, search: Option<SearchPage>)
    returns (sel: Selection)
    ensures sel == SelectionOf(identifiers, aborted, search)
  {
    if ProviderId in identifiers {
      return Selected(identifiers[ProviderId]);
    }
    var rq := new ResultQueue();
    var outcome := Identify.Identify(rq, identifiers, None, search);
    if outcome.Raised? {
      return Failed(outcome.exception);
    }
    if aborted {
      return NoCover;
    }
    assert search.Some? ==> rq.items == SearchRun(search.value).records;
    assert search.None? ==> rq.items == [];
    var results := DrainQueue(rq);
    if |results| == 0 {
      return NoCover;
    }
    results := SortByKey(results);
    var best := results[0];
    if ProviderId in best.identifiers {
      sel := Selected(best.identifiers[ProviderId]);
    } else {
      sel := NoCover;
    }
  }

  /** Search records arrive in key order, so sorting them changes nothing. */
  lemma SearchRecordsSorted(page: SearchPage)
    ensures SortByKey(SearchRun(page).records) == SearchRun(page).records
  {
    var r := SearchRun(page).records;
    if r != [] {
      CardsRunIndexed(page.cards, |page.cards|);
    }
    SortOfSorted(r);
  }

  /**
   * Without an id, no abort and no exception, the id chosen is that of the
   * first card on the page whose URL gives an id, and that card's date
   * parsed and its author has text.
   */
  lemma SelectsFirstHit(identifiers: map<string, string>, page: SearchPage)
    requires ProviderId !in identifiers
    requires SelectionOf(identifiers, false, Some(page)).Selected?
    ensures var id := SelectionOf(identifiers, false, Some(page)).id;
      exists i :: 0 <= i < |page.cards|
        && IdFromUrl(page.cards[i].href) == Some(id)
        && Readable(page.cards[i])
        && (forall j :: 0 <= j < i ==> IdFromUrl(page.cards[j].href).None?)
  {
    var run := SearchRun(page);
    var r := run.records;
    SearchRecordsSorted(page);
    assert r != [];
    assert BannerCount(page.banner).Some? && BannerCount(page.banner).value != 0;
    var cards := page.cards;
    CardsRunIndexed(cards, |cards|);
    CardsRunComplete(cards, |cards|);
    var i := r[0].searchResultIndex.value;
    assert RecordOfCard(r[0], i, cards[i]);
    forall j | 0 <= j < i
      ensures IdFromUrl(cards[j].href).None?
    {
    }
  }

  /** A caller that already has an id skips `identify` and keeps that id. */
  lemma KnownIdKept(identifiers: map<string, string>, aborted: bool, search: Option<SearchPage>)
    requires ProviderId in identifiers
    ensures SelectionOf(identifiers, aborted, search) == Selected(identifiers[ProviderId])
  {
  }
}
