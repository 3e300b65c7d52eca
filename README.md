# calibre-jinjiang: a verified model of the metadata rules

The calibre metadata-source plugin for jjwxc.net (晋江文学城) reads book
records from the catalog. It works in two modes.

- **Identifier mode.** When the identifiers already hold a `jinjiang` id, the
  plugin reads that book's detail page.
- **Search mode.** Otherwise it reads the first page of a title search.

Every record goes onto a result queue. `download_cover` uses the same search
to pick a book when it has no id.

This project models the rules the plugin applies once the pages have been
fetched and parsed. Each XPath lookup is an input value:

- a string;
- an optional string, when the attribute may be absent;
- a sequence of result cards.

The modelled rules are:

- the ranking key of search results, and the stable sort that uses it;
- the URL templates, and the catalog-id pattern applied with `findall`;
- the subset of `urllib.parse.urlparse` that cover resolution needs;
- the `re.sub` that swaps author-space thumbnails for the original image;
- the first-chapter publish timestamp, read with `re.search`;
- the records that identifier mode and search mode put on the queue, with the
  exceptions that escape them;
- how `download_cover` drains its queue and chooses a book.

The modules follow the program's parts:

- `Wrappers`, `Exceptions` and `Text` hold options and results, the Python
  exceptions that can escape, and ASCII `\d`/`\w`, Python's `\s`, and decimal
  digits.
- `CompareKey` is `SearchResultIndexMetadataCompareKeyGen`.
- `CatalogUrls` covers the templates, `get_book_url`, `get_cached_cover_url`
  and `id_from_url`.
- `UrlParse` is `urlparse` as in CPython 3.12.
- `CoverPolicy` resolves the cover.
- `ChapterDate` reads the publish timestamp.
- `Identify` holds the records, the `ResultQueue` class and both modes.
- `CoverDownload` models `download_cover` up to its choice of id.

The search loop and the queue drain are methods with loop invariants. Each is
proved equal to a function (`SearchRun`, the queue contents), and the
properties are proved about that function.

In five places the code does less gracefully than its `continue`
statements and log messages show it means to. The model follows the code
in each.

- **Identifier mode has no "no date" path.** The local `bPublishDate` is set
  only when the first chapter is `"1"` and its title carries a timestamp
  (lines 189-200). Line 212 reads it anyway. Without a date the call raises
  `UnboundLocalError` and puts nothing on the queue. So every record in the
  model carries a publish date, and `DetailRecord` fails instead.
- **A card without a link raises.** It does not get skipped. Line 277 formats
  a string that has no conversion specifier, which raises `TypeError`. The
  loop then stops, and the records already put stay on the queue.
- **A card date that does not parse raises.** `strptime` raises `ValueError`
  at line 280, with the same effect.
- **A card whose date or author node has no text raises.** `.text` is then
  `None`, and `.strip()` raises `AttributeError` (line 282 for the date,
  line 287 for the author), with the same effect.
- **A missing title attribute raises.** When the first chapter is `"1"` but
  its `title` attribute is missing, `re.search` is given `None` and raises
  `TypeError` (line 194).

## Model

| member | source | states |
|---|---|---|
| CompareKey.KeyOf | src/__init__.py:29-31 | a record's key is its `search_result_index`, and 0 when it has none |
| CompareKey.OperatorsFollowIndices | src/__init__.py:33-52 | each of the six operators agrees with the integer comparison of the two indices, an absent index read as 0 |
| CompareKey.OperatorsConsistent | src/__init__.py:33-52 | `!=` is the negation of `==`, `<=` is `<` or `==`, `>` and `>=` are `<` and `<=` with the operands swapped, and `==` is symmetric |
| CompareKey.KeysTotallyOrdered | src/__init__.py:33-52 | `<` is irreflexive and transitive, `<=` is reflexive, transitive, antisymmetric and total, exactly one of `<`, `==`, `>` holds, and `==` holds exactly for equal keys |
| CatalogUrls.GetBookUrl | src/__init__.py:99-103 | `None` exactly when the `jinjiang` id is missing or empty; otherwise `("jinjiang", id, JINJIANG_BOOK_URL % id)` |
| CatalogUrls.GetCachedCoverUrl | src/__init__.py:108-112 | `None` exactly when the id is missing or empty; otherwise the default-cover template with the id substituted |
| CatalogUrls.MatchEnd | src/__init__.py:20 | a match of the id pattern ends after at least one digit of its capture group, inside the string |
| CatalogUrls.Capture | src/__init__.py:20 | the captured group of a match is a non-empty ASCII digit string |
| CatalogUrls.FirstMatch | src/__init__.py:20 | the leftmost position at or after `p` where the pattern matches; no position before it matches |
| CatalogUrls.FindAllFirst | src/__init__.py:115 | `findall` is the first match's group followed by `findall` resumed at that match's end, and empty when nothing matches |
| CatalogUrls.IdFromUrlSpec | src/__init__.py:114-118 | an id is returned exactly when there is a leftmost match and no further match from its end on, i.e. `findall` yields exactly one group; the id is that group |
| CatalogUrls.IdFromUrlSound | src/__init__.py:114-118 | a returned id is a non-empty digit string that directly follows the literal `jjwxc.net/onebook.php?novelid=` in the URL |
| CatalogUrls.BookUrlMatchedAt | src/__init__.py:19-20 | a book URL embedded in a string, and not followed by a digit, is matched at the `.` before its host, and its group is the id |
| CatalogUrls.BookUrlRoundTrip | src/__init__.py:114-118 | `id_from_url(JINJIANG_BOOK_URL % id) == id` for every non-empty digit id |
| CatalogUrls.GetBookUrlIdentifiesBook | src/__init__.py:99-118 | for a stored digit id the triple exists exactly when the id is non-empty, and its URL yields the same id back |
| CatalogUrls.TwoBookUrlsGiveNoId | src/__init__.py:114-118 | two book URLs in one string are two matches, so no id is returned |
| CatalogUrls.LeadingCharacterRequired | src/__init__.py:20 | the pattern needs one character before the host: the literal followed only by digits, with no character before it, yields no id |
| CatalogUrls.OverlappingMatchSkipped | src/__init__.py:115 | `findall` does not report a match that begins inside an earlier match, so such a string still yields the first id |
| UrlParse.LStripC0 | src/__init__.py:173 | the leading C0-control-or-space characters are removed and nothing else is: the result is a suffix that does not start with one |
| UrlParse.RemoveUnsafe | src/__init__.py:173 | the result holds no tab, CR or LF, and a string without them is unchanged |
| UrlParse.RemoveUnsafeChar | src/__init__.py:173 | a tab, CR or LF is dropped and any other character is kept |
| UrlParse.RemoveUnsafeAppend | src/__init__.py:173 | removal distributes over concatenation, so every other character is kept, in order |
| UrlParse.RemoveUnsafeIsReplaceChain | src/__init__.py:173 | the one-pass removal equals the three `replace` calls of `urlsplit` applied in turn |
| UrlParse.LowerAscii | src/__init__.py:173 | the scheme is lowercased character by character, ASCII `A`-`Z` only |
| UrlParse.NetlocEnd | src/__init__.py:173 | the network location ends at the first `/`, `?` or `#` after `//`, or at the end |
| UrlParse.ParseComposed | src/__init__.py:173 | `scheme://netloc` + path + (query/fragment tail) parses back to that scheme, netloc and path |
| CoverPolicy.EndAnchor | src/__init__.py:177 | where `\w+$` can end: before a final newline, or else at the end |
| CoverPolicy.SizeTagUnique | src/__init__.py:177 | `_300_420(?=\.\w+$)` matches in at most one place |
| CoverPolicy.SubFromNoTag | src/__init__.py:177 | with no match from `p` on, the substitution leaves the rest unchanged |
| CoverPolicy.SubFromTag | src/__init__.py:177 | with a match at `m`, exactly those eight characters are removed |
| CoverPolicy.StripSizeTagSpec | src/__init__.py:177 | the cleaned path is the path without the one `_300_420` that stands before a final `.\w+` extension, and the path itself when there is none |
| CoverPolicy.StripFileName | src/__init__.py:176-177 | a thumbnail name `x_300_420.w` with word-character extension `w` becomes `x.w` |
| CoverPolicy.StripSizeTagNotIdempotent | src/__init__.py:177 | stripping is not idempotent: any `x_300_420_300_420.w` (with `w` a non-empty run of word characters) becomes `x_300_420.w`, and only a second pass gives `x.w` |
| CoverPolicy.ResolveCoverDefault | src/__init__.py:179-180 | an empty `src` gives the default cover URL of the book |
| CoverPolicy.ResolveCoverVerbatim | src/__init__.py:171-174 | a non-empty `src` whose parsed netloc does not contain `authorspace` is used unchanged |
| CoverPolicy.ResolveCoverAuthorSpace | src/__init__.py:173-178 | an author-space `src` keeps its scheme, netloc and cleaned path, and loses the query and the fragment |
| CoverPolicy.ResolveCoverOriginalImage | src/__init__.py:174-178 | an author-space thumbnail `dir_300_420.ext` resolves to `dir.ext` on the same host |
| ChapterDate.FirstMarkedStamp | src/__init__.py:192-194 | `re.search` finds the leftmost place where the marker is directly followed by `\d{4}-\d{2}-\d{2}\s\d{2}:\d{2}:\d{2}` |
| ChapterDate.PublishDateFirstMatch | src/__init__.py:192-200 | no date exactly when nothing matches; otherwise the fields are the digits of the leftmost match |
| ChapterDate.FirstChapterDateSpec | src/__init__.py:187-202 | any chapter id other than `"1"` gives no date; `"1"` gives the title's date; `"1"` without a title attribute raises `TypeError` at line 194, and nothing else raises |
| ChapterDate.StampOfFormat | src/__init__.py:198-200 | a zero-padded `YYYY-MM-DD HH:MM:SS` matches the stamp shape, and `strptime` reads back its fields |
| ChapterDate.PublishDateRoundTrip | src/__init__.py:190-200 | a timestamp written after the marker is read back unchanged, whatever follows it, when no match of the pattern starts before it |
| ChapterDate.PublishDateAfterPlainText | src/__init__.py:190-200 | in particular, any prefix without `章` can come before the marker and the timestamp |
| Identify.ResultQueue.constructor | src/__init__.py:333 | a new queue is empty |
| Identify.ResultQueue.Put | src/__init__.py:214 | `put` appends the record at the back |
| Identify.ResultQueue.GetNowait | src/__init__.py:342-345 | `get_nowait` removes and returns the oldest record; an empty queue gives nothing (where `Empty` is raised) and stays empty |
| Identify.DetailRecord | src/__init__.py:204-213 | a record exists exactly when the first chapter yields a date; it is stored under `{"jinjiang": jj_id}` with `JINJIANG_BOOK_URL % jj_id`, publisher `晋江文学城`, language `zh_CN`, the page's title, author, synopsis and tags, and the resolved cover; a chapter other than `"1"` raises `UnboundLocalError` |
| Identify.DetailRecordIdentifiesBook | src/__init__.py:205-210 | the URL of an identifier-mode record yields its digit id back, and the record is stored under that id |
| Identify.IdentifyById | src/__init__.py:135-215 | identifier mode puts at most one record: exactly that record when it can be built, and nothing (with the exception escaping) when it cannot, or when the page could not be had |
| Identify.FirstBanner | src/__init__.py:249 | the leftmost match of `共找到 (\d+) 篇文章` in the banner text |
| Identify.BannerCountReads | src/__init__.py:249-251 | a banner that starts with the sentence reports the number written in it |
| Identify.BannerCountExample | src/__init__.py:249-251 | `共找到 3 篇文章` gives the count 3 |
| Identify.RaisedIsFinal | src/__init__.py:266-310 | once a card raises, later cards change nothing |
| Identify.CardsRunStep | src/__init__.py:270-303 | one card: an empty `href` raises `TypeError` (277); a URL without an id is skipped; a date without text raises `AttributeError` (282) and one that does not parse `ValueError` (280); an author without text raises `AttributeError` (287); otherwise the card's record is put |
| Identify.IdentifyBySearch | src/__init__.py:243-310 | the loop over the cards puts exactly the records of `SearchRun`, in order, and ends the way `SearchRun` does |
| Identify.Identify | src/__init__.py:135-136 | a non-empty id selects identifier mode, which puts at most one record; anything else selects search mode |
| Identify.SearchWithoutCountEmitsNothing | src/__init__.py:249-259 | a banner that does not match, or a count of 0 (the web-search layout), emits nothing and returns |
| Identify.CardsRunIndexed | src/__init__.py:266-303 | each record is the one built from the card whose position is its `search_result_index`; that card's URL gave an id, its date parsed and its author has text; indices strictly increase |
| Identify.CardsRunComplete | src/__init__.py:266-275 | when the loop returns, every card whose URL gave an id has a record with its position, so a skipped card uses up its index |
| Identify.SearchRecordFields | src/__init__.py:294-303 | a search record is stored under the id of its URL, has no tags, has the default cover of that id, keeps the card's URL and author, has the card's day at midnight as `pubdate`, and has its position as index |
| Identify.EveryCardEmitted | src/__init__.py:266-310 | when every card's URL gives an id, every date parses and every author has text, there is one record per card, in page order, indexed 0, 1, 2, … |
| CoverDownload.Keygen | src/__init__.py:120-123 | the key of a record is its index, and 0 when it has none |
| CoverDownload.InsertPermutes | src/__init__.py:351-355 | inserting one record only adds that record |
| CoverDownload.SortPermutes | src/__init__.py:351-355 | the sort is a permutation of its input |
| CoverDownload.SortedCons | src/__init__.py:351-355 | a record no greater than anything in a sorted list can go in front of it |
| CoverDownload.InsertSorted | src/__init__.py:351-355 | inserting into a sorted list keeps it sorted |
| CoverDownload.SortSorted | src/__init__.py:351-355 | the sort's output is in ascending key order |
| CoverDownload.InsertStable | src/__init__.py:351-355 | inserting a record adds it in front of the records with its key |
| CoverDownload.SortStable | src/__init__.py:351-355 | the sort is stable: records with one key keep their input order |
| CoverDownload.SortHeadFirstMinimal | src/__init__.py:351-358 | the first record after sorting is the earliest record with the least key |
| CoverDownload.SortOfSorted | src/__init__.py:351-355 | an input already in key order is unchanged |
| CoverDownload.DrainQueue | src/__init__.py:340-345 | the drained list is the queue's contents, oldest first, and the queue ends empty |
| CoverDownload.BestIdFirstMinimal | src/__init__.py:347-358 | no records give no id; otherwise the id is that of the earliest record with the least key |
| CoverDownload.SelectBook | src/__init__.py:330-362 | `download_cover` up to line 362 ends as `SelectionOf` says: a known id is kept; otherwise a search that raises propagates, and an abort, an empty result or a best record without an id gives no cover |
| CoverDownload.SearchRecordsSorted | src/__init__.py:351-355 | search records arrive in key order, so sorting them changes nothing |
| CoverDownload.SelectsFirstHit | src/__init__.py:266-358 | without an id, abort or exception, the id chosen is that of the first card on the page whose URL yields an id, and that card's date parsed and its author has text |
| CoverDownload.KnownIdKept | src/__init__.py:330-331 | an id given by the caller is used without running `identify` |

## Left out

- Network fetches (`open_novisit`), timeouts and `time.sleep`: no I/O is modelled. Each page is an input, and `None` stands for a fetch or parse that failed.
- The `abort` event is a boolean input: its state when `identify` returns.
- Charset repair and HTML parsing (`xml_to_unicode`, `clean_ascii_chars`, `parse_html`, `tostring`, XPath) are foreign libraries. Their results are inputs: the title, author, synopsis and tags of a detail page, and the title, author, synopsis and link of each card. The synopsis is kept as a string, while `tostring(..., encoding="utf-8")` gives bytes.
- The `IndexError` that a missing node raises at the `[0]` lookups (lines 156-187, 243, 270-289) is not modelled: the model assumes every node exists.
- A missing banner node is not modelled: it raises `IndexError` at the `[0]` of line 243, so the `is not None` test of line 244 never fails, and the banner is always present as text.
- `quote(..., encoding="gb18030")` and the search URL (line 222) are left out, because the GB18030 codec tables are not modelled. The title and author inputs of `identify` are therefore not modelled.
- ChapterDate.StampValue: the calendar-range checks of `datetime.strptime` are not modelled (for example, month 13 raising `ValueError` at line 198). The fields are read as plain numbers.
- Identify.CardStep: the card date is taken as what the date node yields (lines 280-286): no text, a date or a `strptime` failure. A parsed date is a calendar day, and its record's `pubdate` is that day at midnight, as `strptime(..., "%Y-%m-%d")` gives it. The stripping and parenthesis removal are not modelled, and neither is the stripping of the author text.
- The title, author and tag texts of a detail page (lines 156-167), and the title of a card (line 279), are read with `.text`, which is `None` for a node without text. No exception is raised there, and the `None` goes into the record. The model takes these texts as strings.
- `urlparse`: the IPv6 bracket check and the NFKC netloc check, which raise `ValueError`, are not modelled. Nor are the netloc's username, password and port, which cover resolution does not read.
- UrlParse.ParseComposed: proved only for URLs built as `scheme://netloc` + path + tail. The path has no `;params`. The general parse is defined by `UrlParse.ParseUrl` but not characterised further.
- Regex `\d` and `\w` are ASCII-only in the model. Python's Unicode classes also accept other scripts' digits and letters.
- CoverDownload.SortByKey: Python's in-place `list.sort` is modelled as a stable insertion sort on the sequence. Its result is the same stable order, but the update in place is not modelled.
- Lines 365-425 of `download_cover` are not modelled. Line 367 reads `cover_url` before anything is assigned to it. Because line 400 assigns it later in `download_cover`, Python treats it as a local variable, so line 367 raises `UnboundLocalError`, a subclass of `NameError`. The custom-cover steps that follow are never reached, and they are network I/O.
- The `get_best_cover` flag is not modelled; it is unused.
- Plugin registration (lines 68-97), `get_book_url_name` (a constant name, lines 105-106) and the `__main__` test harness (lines 428-466) are left out.
- The web-search result layout (line 256) is left out: the source emits nothing for it, and so does the model.
