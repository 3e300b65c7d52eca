/**
 * `Jinjiang.identify`: identifier mode, which builds one record from a
 * detail page, and search mode, which builds one record per result card.
 * Fetching and parsing are not modelled: each page arrives as the values
 * that its XPath lookups return, or as `None` when the fetch or the parse
 * failed. Records go to a result queue in the order they are put.
 */
module Identify {
  import opened Wrappers
  import opened Text
  import opened Exceptions
  import opened CatalogConstants
  import opened CatalogUrls
  import opened CoverPolicy
  import opened ChapterDate

  const Publisher := "晋江文学城"
  const Language := "zh_CN"

  /** The fields of a calibre `Metadata` object that the plugin sets. */
  datatype Metadata = Metadata(
    title: string,
    authors: seq<string>,
    identifiers: map<string, string>,
    comments: string,
    publisher: string,
    language: string,
    tags: seq<string>,
    url: string,
    cover: string,
    pubdate: DateTime,
    searchResultIndex: Option<int>)

  /**
   * What the XPath lookups of a detail page return: title and author text,
   * the serialised synopsis, the tag texts, the custom cover's `src` ('' when
   * absent) and the first chapter row's `clickchapterid` and `title` attributes.
   */
  datatype DetailPage = DetailPage(
    title: string,
    author: string,
    comments: string,
    tags: seq<string>,
    coverSrc: string,
    chapterId: Option<string>,
    chapterTitle: Option<string>)

  /**
   * What the date `<font>` of a card yields: no text node (its `.text` is
   * `None`), or text that `strptime(..., "%Y-%m-%d")` rejects or parses into
   * a calendar day.
   */
  datatype CardDate = NoDateText | DateRejected | DateParsed(year: nat, month: nat, day: nat)

  /** The `datetime` that `strptime(..., "%Y-%m-%d")` gives: the day at midnight. */
  function Midnight(year: nat, month: nat, day: nat): DateTime {
    DateTime(year, month, day, 0, 0, 0)
  }

  /**
   * One result card of the primary search layout: its link's `href` ('' when
   * absent), title text, date, author text (`None` when the span has no text
   * node) and serialised synopsis.
   */
  datatype Card = Card(href: string, title: string, date: CardDate, author: Option<string>, comments: string)

  /** A card whose date parsed and whose author span has text: nothing after its id can raise. */
  predicate Readable(card: Card) {
    card.date.DateParsed? && card.author.Some?
  }

  /** A search page: the text of the result-count banner and the result cards. */
  datatype SearchPage = SearchPage(banner: string, cards: seq<Card>)

  /** How a call ends: it returns, or an exception escapes it. */
  datatype Outcome = Returned | Raised(exception: Exception)

  /** The `Queue` that receives records. */
  class ResultQueue {
    var items: seq<Metadata>

    constructor ()
      ensures items == []
    {
      items := [];
    }

    /** `put` */
    method Put(mi: Metadata)
      modifies this
      ensures items == old(items) + [mi]
    {
      items := items + [mi];
    }

    /** `get_nowait`: the oldest record, or `None` where the queue raises `Empty`. */
    method GetNowait() returns (r: Option<Metadata>)
      modifies this
      ensures old(items) == [] ==> r == None && items == []
      ensures old(items) != [] ==> r == Some(old(items)[0]) && items == old(items)[1..]
    {
      if items == [] {
        r := None;
      } else {
        r := Some(items[0]);
        items := items[1..];
      }
    }
  }

  // ---------------------------------------------------------------------
  // Identifier mode (lines 135-215)

  /** `if jj_id:` on `identifiers.get(PROVIDER_ID, None)`: identifier mode needs a non-empty id. */
  predicate UsesIdentifierMode(identifiers: map<string, string>) {
    ProviderId in identifiers && identifiers[ProviderId] != ""
  }

  /**
   * The record of a detail page. When the first chapter yields no date the
   * local `bPublishDate` is unbound at line 212 and the call raises.
   */
  function DetailRecord(jjId: string, page: DetailPage): (r: Result<Metadata, Exception>)
    ensures r.Success? <==>
      FirstChapterDate(page.chapterId, page.chapterTitle).Success?
      && FirstChapterDate(page.chapterId, page.chapterTitle).value.Some?
    ensures page.chapterId != Some("1") ==> r == Failure(UnboundLocalError(212))
    ensures r.Success? ==>
      var mi := r.value;
      && mi.identifiers == map[ProviderId := jjId]
      && mi.url == BookUrl(jjId)
      && mi.publisher == Publisher && mi.language == Language
      && mi.title == page.title && mi.authors == [page.author]
      && mi.comments == page.comments && mi.tags == page.tags
      && mi.cover == ResolveCover(page.coverSrc, jjId)
      && Some(mi.pubdate) == PublishDate(page.chapterTitle.value)
      && mi.searchResultIndex.None?
  {
    match FirstChapterDate(page.chapterId, page.chapterTitle)
    case Failure(e) => Failure(e)
    case Success(None) => Failure(UnboundLocalError(212))
    case Success(Some(d)) =>
      var cover := ResolveCover(page.coverSrc, jjId);
      Success(Metadata(page.title, [page.author], map[ProviderId := jjId], page.comments,
                       Publisher, Language, page.tags, BookUrl(jjId), cover, d, None))
  }

  /** The record built for a digit id points back at that id: its URL yields the id again. */
  lemma DetailRecordIdentifiesBook(jjId: string, page: DetailPage)
    requires |jjId| > 0 && AllDigits(jjId)
    ensures DetailRecord(jjId, page).Success? ==>
      && IdFromUrl(DetailRecord(jjId, page).value.url) == Some(jjId)
      && DetailRecord(jjId, page).value.identifiers[ProviderId] == jjId
  {
    BookUrlRoundTrip(jjId);
  }

  /** Identifier mode: at most one record, put only when its page was fetched and it could be built. */
  method IdentifyById(q: ResultQueue, jjId: string, page: Option<DetailPage>) returns (outcome: Outcome)
    modifies q
    ensures page.None? ==> q.items == old(q.items) && outcome == Returned
    ensures page.Some? ==>
      match DetailRecord(jjId, page.value)
      case Success(mi) => q.items == old(q.items) + [mi] && outcome == Returned
      case Failure(e) => q.items == old(q.items) && outcome == Raised(e)
    ensures |q.items| <= |old(q.items)| + 1
  {
    if page.None? {
      return Returned;
    }
    var built := DetailRecord(jjId, page.value);
    match built
    case Failure(e) =>
      outcome := Raised(e);
    case Success(mi) =>
      q.Put(mi);
      outcome := Returned;
  }

  // ---------------------------------------------------------------------
  // Search mode (lines 220-316)

  const BannerHead := "共找到 "
  const BannerTail := " 篇文章"

  function BannerDigits(s: string, p: nat): nat
    requires p + |BannerHead| <= |s|
  {
    DigitRun(s, p + |BannerHead|)
  }

  /** `共找到 (\d+) 篇文章` matches at `p` (a shorter `\d+` cannot be followed by the space). */
  predicate BannerAt(s: string, p: nat) {
    && OccursAt(s, BannerHead, p)
    && BannerDigits(s, p) > 0
    && OccursAt(s, BannerTail, p + |BannerHead| + BannerDigits(s, p))
  }

  function FirstBanner(s: string, p: nat): (r: Option<nat>)
    requires p <= |s|
    ensures r.Some? ==> p <= r.value < |s| && BannerAt(s, r.value)
    ensures forall q :: p <= q < |s| && (r.None? || q < r.value) ==> !BannerAt(s, q)
    decreases |s| - p
  {
    if p == |s| then None
    else if BannerAt(s, p) then Some(p)
    else FirstBanner(s, p + 1)
  }

  /** `int(match.group(1))` for the first banner match, or `None` when the banner does not match. */
  function BannerCount(banner: string): Option<nat> {
    match FirstBanner(banner, 0)
    case None => None
    case Some(p) =>
      var q := p + |BannerHead|;
      Some(DecimalValue(banner[q..q + BannerDigits(banner, p)]))
  }

  lemma BannerPieces(digits: string, rest: string)
    ensures var s := BannerHead + digits + BannerTail + rest;
      && OccursAt(s, BannerHead, 0)
      && s[|BannerHead|..|BannerHead| + |digits|] == digits
      && OccursAt(s, BannerTail, |BannerHead| + |digits|)
  {
    var s := BannerHead + digits + BannerTail + rest;
    var e := |BannerHead| + |digits|;
    assert s[..|BannerHead|] == BannerHead;
    assert s[|BannerHead|..e] == digits;
    assert s[e..e + |BannerTail|] == BannerTail;
  }

  lemma BannerDigitRun(s: string, q: nat, digits: string)
    requires |digits| > 0 && AllDigits(digits)
    requires q + |digits| < |s| && s[q..q + |digits|] == digits && s[q + |digits|] == ' '
    ensures DigitRun(s, q) == |digits|
  {
    forall k | q <= k < q + |digits|
      ensures IsDigit(s[k])
    {
      assert s[k] == s[q..q + |digits|][k - q];
    }
    DigitRunOfDigits(s, q, |digits|);
  }

  lemma BannerCountAtStart(s: string, digits: string)
    requires BannerAt(s, 0)
    requires BannerDigits(s, 0) == |digits| && s[|BannerHead|..|BannerHead| + |digits|] == digits
    ensures BannerCount(s) == Some(DecimalValue(digits))
  {
  }

  /** A banner that starts with the sentence reports the number written in it. */
  lemma BannerCountReads(digits: string, rest: string)
    requires |digits| > 0 && AllDigits(digits)
    ensures BannerCount(BannerHead + digits + BannerTail + rest) == Some(DecimalValue(digits))
  {
    var s := BannerHead + digits + BannerTail + rest;
    var q := |BannerHead|;
    BannerPieces(digits, rest);
    assert s[q + |digits|] == ' ' by {
      assert s[q + |digits|..q + |digits| + |BannerTail|][0] == s[q + |digits|];
    }
    BannerDigitRun(s, q, digits);
    BannerCountAtStart(s, digits);
  }

  /** The first-page banner of a search with three hits. */
  lemma BannerCountExample()
    ensures BannerCount("共找到 3 篇文章") == Some(3)
  {
    BannerCountReads("3", "");
    assert BannerHead + "3" + BannerTail + "" == "共找到 3 篇文章";
  }

  /** The record of a readable card `i` whose URL gives `id` (lines 294-303). */
  function CardRecord(i: nat, card: Card, id: string): Metadata
    requires Readable(card)
  {
    Metadata(card.title, [card.author.value], map[ProviderId := id], card.comments, Publisher, Language,
             [], card.href, BookCoverUrl(id),
             Midnight(card.date.year, card.date.month, card.date.day), Some(i))
  }

  /** What one iteration of the card loop does. */
  datatype Step = Skip | Emit(mi: Metadata) | Fail(exception: Exception)

  /**
   * Lines 270-303: an empty `href` makes the format expression of line 277
   * raise; a URL without a unique id is skipped; then `.text.strip()` on a
   * date or an author span without text raises, and so does a date that
   * does not parse.
   */
  function CardStep(i: nat, card: Card): Step {
    if card.href == "" then
      Fail(TypeError(277))
    else
      match IdFromUrl(card.href)
      case None => Skip
      case Some(id) =>
        match card.date
        case NoDateText => Fail(AttributeError(282))
        case DateRejected => Fail(ValueError(280))
        case DateParsed(_, _, _) =>
          if card.author.None? then Fail(AttributeError(287))
          else Emit(CardRecord(i, card, id))
  }

  /** What a run has put on the queue and how it ended. */
  datatype Run = Run(records: seq<Metadata>, outcome: Outcome)

  /** The effect of the loop over the first `n` cards; nothing runs after an exception. */
  function CardsRun(cards: seq<Card>, n: nat): Run
    requires n <= |cards|
  {
    if n == 0 then Run([], Returned)
    else
      var prev := CardsRun(cards, n - 1);
      if prev.outcome.Raised? then prev
      else
        match CardStep(n - 1, cards[n - 1])
        case Skip => prev
        case Emit(mi) => Run(prev.records + [mi], Returned)
        case Fail(e) => Run(prev.records, Raised(e))
  }

  /** The effect of search mode on a fetched page: a zero count is the web-search layout, which emits nothing. */
  function SearchRun(page: SearchPage): Run {
    match BannerCount(page.banner)
    case None => Run([], Returned)
    case Some(n) => if n == 0 then Run([], Returned) else CardsRun(page.cards, |page.cards|)
  }

  lemma RaisedStays(cards: seq<Card>, i: nat)
    requires i < |cards| && CardsRun(cards, i).outcome.Raised?
    ensures CardsRun(cards, i + 1) == CardsRun(cards, i)
  {
  }

  lemma {:induction false} RaisedIsFinal(cards: seq<Card>, n: nat, m: nat)
    requires n <= m <= |cards|
    requires CardsRun(cards, n).outcome.Raised?
    ensures CardsRun(cards, m) == CardsRun(cards, n)
    decreases m - n
  {
    if n < m {
      RaisedIsFinal(cards, n, m - 1);
      RaisedStays(cards, m - 1);
    }
  }

  /** One card of the loop, by the branch it takes. */
  lemma CardsRunStep(cards: seq<Card>, i: nat)
    requires i < |cards| && CardsRun(cards, i).outcome == Returned
    ensures cards[i].href == "" ==>
      CardsRun(cards, i + 1) == Run(CardsRun(cards, i).records, Raised(TypeError(277)))
    ensures cards[i].href != "" && IdFromUrl(cards[i].href).None? ==> CardsRun(cards, i + 1) == CardsRun(cards, i)
    ensures cards[i].href != "" && IdFromUrl(cards[i].href).Some? && cards[i].date.NoDateText? ==>
      CardsRun(cards, i + 1) == Run(CardsRun(cards, i).records, Raised(AttributeError(282)))
    ensures cards[i].href != "" && IdFromUrl(cards[i].href).Some? && cards[i].date.DateRejected? ==>
      CardsRun(cards, i + 1) == Run(CardsRun(cards, i).records, Raised(ValueError(280)))
    ensures cards[i].href != "" && IdFromUrl(cards[i].href).Some? && cards[i].date.DateParsed? && cards[i].author.None? ==>
      CardsRun(cards, i + 1) == Run(CardsRun(cards, i).records, Raised(AttributeError(287)))
    ensures cards[i].href != "" && IdFromUrl(cards[i].href).Some? && Readable(cards[i]) ==>
      CardsRun(cards, i + 1) ==
        Run(CardsRun(cards, i).records + [CardRecord(i, cards[i], IdFromUrl(cards[i].href).value)], Returned)
  {
  }

  /** Search mode: the card loop puts each record as soon as it is built. */
  method IdentifyBySearch(q: ResultQueue, page: Option<SearchPage>) returns (outcome: Outcome)
    modifies q
    ensures page.None? ==> q.items == old(q.items) && outcome == Returned
    ensures page.Some? ==>
      q.items == old(q.items) + SearchRun(page.value).records && outcome == SearchRun(page.value).outcome
  {
    if page.None? {
      return Returned;
    }
    var cards := page.value.cards;
    var count := BannerCount(page.value.banner);
    if count.None? || count.value == 0 {
      return Returned;
    }
    for i := 0 to |cards|
      invariant CardsRun(cards, i).outcome == Returned
      invariant q.items == old(q.items) + CardsRun(cards, i).records
    {
      var card := cards[i];
      CardsRunStep(cards, i);
      var raised: Option<Exception> := None;
      if card.href == "" {
        raised := Some(TypeError(277));
      } else {
        var id := IdFromUrl(card.href);
        if id.None? {
          continue;
        }
        if card.date.NoDateText? {
          raised := Some(AttributeError(282));
        } else if card.date.DateRejected? {
          raised := Some(ValueError(280));
        } else if card.author.None? {
          raised := Some(AttributeError(287));
        } else {
          q.Put(CardRecord(i, card, id.value));
        }
      }
      if raised.Some? {
        outcome := Raised(raised.value);
        RaisedIsFinal(cards, i + 1, |cards|);
        return;
      }
    }
    outcome := Returned;
  }

  /** `identify`: identifier mode when the identifiers hold a non-empty id, search mode otherwise. */
  method Identify(q: ResultQueue, identifiers: map<string, string>, detail: Option<DetailPage>,
                  search: Option<SearchPage>) returns (outcome: Outcome)
    modifies q
    ensures UsesIdentifierMode(identifiers) ==> |q.items| <= |old(q.items)| + 1
    ensures UsesIdentifierMode(identifiers) && detail.Some? ==>
      match DetailRecord(identifiers[ProviderId], detail.value)
      case Success(mi) => q.items == old(q.items) + [mi] && outcome == Returned
      case Failure(e) => q.items == old(q.items) && outcome == Raised(e)
    ensures !UsesIdentifierMode(identifiers) && search.Some? ==>
      q.items == old(q.items) + SearchRun(search.value).records && outcome == SearchRun(search.value).outcome
    ensures (if UsesIdentifierMode(identifiers) then detail.None? else search.None?) ==>
      q.items == old(q.items) && outcome == Returned
  {
    if UsesIdentifierMode(identifiers) {
      outcome := IdentifyById(q, identifiers[ProviderId], detail);
    } else {
      outcome := IdentifyBySearch(q, search);
    }
  }

  // ---------------------------------------------------------------------
  // Properties of search mode

  /** Record `mi` is the one built from card `i`: its URL yields an id, its date parsed and its author has text. */
  predicate RecordOfCard(mi: Metadata, i: nat, card: Card) {
    && IdFromUrl(card.href).Some?
    && Readable(card)
    && mi == CardRecord(i, card, IdFromUrl(card.href).value)
  }

  /** No banner match, or a count of 0, emits nothing and returns normally. */
  lemma SearchWithoutCountEmitsNothing(page: SearchPage)
    requires BannerCount(page.banner).None? || BannerCount(page.banner) == Some(0)
    ensures SearchRun(page) == Run([], Returned)
  {
  }

  /**
   * Every record comes from a card before `n` whose URL gave an id, carries
   * that card's position as its index, and the indices strictly increase.
   */
  lemma {:induction false} CardsRunIndexed(cards: seq<Card>, n: nat)
    requires n <= |cards|
    ensures forall k :: 0 <= k < |CardsRun(cards, n).records| ==>
      var mi := CardsRun(cards, n).records[k];
      && mi.searchResultIndex.Some?
      && 0 <= mi.searchResultIndex.value < n
      && RecordOfCard(mi, mi.searchResultIndex.value, cards[mi.searchResultIndex.value])
    ensures forall a, b :: 0 <= a < b < |CardsRun(cards, n).records| ==>
      CardsRun(cards, n).records[a].searchResultIndex.value < CardsRun(cards, n).records[b].searchResultIndex.value
  {
    if n > 0 {
      CardsRunIndexed(cards, n - 1);
      var prev := CardsRun(cards, n - 1);
      if prev.outcome.Returned? {
        match CardStep(n - 1, cards[n - 1])
        case Skip =>
        case Fail(_) =>
        case Emit(mi) =>
          var r := CardsRun(cards, n).records;
          assert r == prev.records + [mi];
          assert RecordOfCard(mi, n - 1, cards[n - 1]);
      }
    }
  }

  /**
   * When the loop returns normally, every card whose URL gave an id has a
   * record with its position as index: skipped cards use up their index.
   */
  lemma {:induction false} CardsRunComplete(cards: seq<Card>, n: nat)
    requires n <= |cards|
    requires CardsRun(cards, n).outcome == Returned
    ensures forall i :: 0 <= i < n && IdFromUrl(cards[i].href).Some? ==>
      exists k :: 0 <= k < |CardsRun(cards, n).records| && CardsRun(cards, n).records[k].searchResultIndex == Some(i)
  {
    if n > 0 {
      var prev := CardsRun(cards, n - 1);
      assert prev.outcome == Returned;
      CardsRunComplete(cards, n - 1);
      var r := CardsRun(cards, n).records;
      assert |prev.records| <= |r| && r[..|prev.records|] == prev.records;
      forall i | 0 <= i < n && IdFromUrl(cards[i].href).Some?
        ensures exists k :: 0 <= k < |r| && r[k].searchResultIndex == Some(i)
      {
        if i < n - 1 {
          var k :| 0 <= k < |prev.records| && prev.records[k].searchResultIndex == Some(i);
          assert r[k] == prev.records[k];
        } else {
          var k := |prev.records|;
          assert r[k].searchResultIndex == Some(i);
        }
      }
    }
  }

  /** Each search record is stored under the id of its URL, has no tags and the default cover of that id. */
  lemma SearchRecordFields(mi: Metadata, i: nat, card: Card)
    requires RecordOfCard(mi, i, card)
    ensures var id := IdFromUrl(card.href).value;
      && mi.identifiers == map[ProviderId := id]
      && mi.tags == []
      && mi.cover == BookCoverUrl(id)
      && mi.url == card.href
      && mi.authors == [card.author.value]
      && mi.pubdate.year == card.date.year && mi.pubdate.month == card.date.month
      && mi.pubdate.day == card.date.day
      && mi.pubdate.hour == 0 && mi.pubdate.minute == 0 && mi.pubdate.second == 0
      && mi.publisher == Publisher && mi.language == Language
      && mi.searchResultIndex == Some(i)
  {
  }

  /**
   * A page whose banner counts some books and whose every card has a
   * matching URL, a parsed date and an author text gives one record per
   * card, in page order, indexed 0, 1, 2, ...
   */
  lemma {:induction false} EveryCardEmitted(cards: seq<Card>, n: nat)
    requires n <= |cards|
    requires forall i :: 0 <= i < |cards| ==> IdFromUrl(cards[i].href).Some? && Readable(cards[i])
    ensures CardsRun(cards, n).outcome == Returned
    ensures |CardsRun(cards, n).records| == n
    ensures forall i :: 0 <= i < n ==> RecordOfCard(CardsRun(cards, n).records[i], i, cards[i])
  {
    if n > 0 {
      EveryCardEmitted(cards, n - 1);
    }
  }
}
