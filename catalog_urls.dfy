/**
 * The catalog's URL templates and the detail-URL pattern:
 * `get_book_url`, `get_cached_cover_url` and `id_from_url`.
 */
module CatalogUrls {
  import opened Wrappers
  import opened Text
  import opened CatalogConstants

  /** `JINJIANG_BOOK_URL % id` */
  function BookUrl(id: string): string {
    BookUrlPrefix + id
  }

  /** `JINJIANG_BOOKCOVER_URL % id` */
  function BookCoverUrl(id: string): string {
    BookCoverUrlPrefix + id
  }

  /** `get_book_url`: a (provider, id, url) triple when the identifiers hold a non-empty catalog id. */
  function GetBookUrl(identifiers: map<string, string>): (r: Option<(string, string, string)>)
    ensures r.None? <==> ProviderId !in identifiers || identifiers[ProviderId] == ""
    ensures r.Some? ==>
      && r.value.0 == ProviderId
      && r.value.1 == identifiers[ProviderId]
      && r.value.2 == BookUrl(identifiers[ProviderId])
  {
    if ProviderId in identifiers && identifiers[ProviderId] != "" then
      var id := identifiers[ProviderId];
      Some((ProviderId, id, BookUrl(id)))
    else
      None
  }

  /** `get_cached_cover_url`: the default cover URL when the identifiers hold a non-empty catalog id. */
  function GetCachedCoverUrl(identifiers: map<string, string>): (r: Option<string>)
    ensures r.None? <==> ProviderId !in identifiers || identifiers[ProviderId] == ""
    ensures r.Some? ==> r.value == BookCoverUrl(identifiers[ProviderId])
  {
    if ProviderId in identifiers && identifiers[ProviderId] != "" then
      Some(BookCoverUrl(identifiers[ProviderId]))
    else
      None
  }

  /** Where the capture group of the pattern starts, for a match that starts at `p`. */
  function CaptureStart(p: nat): nat {
    p + 1 + |UrlLiteral|
  }

  /**
   * `JINJIANG_BOOK_URL_PATTERN` matches at `p`: any character but a newline,
   * the literal, then at least one digit.
   */
  predicate MatchAt(s: string, p: nat) {
    && CaptureStart(p) < |s|
    && s[p] != '\n'
    && OccursAt(s, UrlLiteral, p + 1)
    && IsDigit(s[CaptureStart(p)])
  }

  /** Where a match at `p` ends: the greedy `\d+` takes the whole run of digits. */
  function MatchEnd(s: string, p: nat): (e: nat)
    requires MatchAt(s, p)
    ensures CaptureStart(p) < e <= |s|
  {
    CaptureStart(p) + DigitRun(s, CaptureStart(p))
  }

  /** The captured group `(\d+)` of a match at `p`. */
  function Capture(s: string, p: nat): (id: string)
    requires MatchAt(s, p)
    ensures |id| > 0 && AllDigits(id)
  {
    s[CaptureStart(p)..MatchEnd(s, p)]
  }

  /** `pattern.findall(s)` resumed at `p`: after each match the scan continues at its end. */
  function FindAll(s: string, p: nat): seq<string>
    requires p <= |s|
    decreases |s| - p
  {
    if p == |s| then []
    else if MatchAt(s, p) then [Capture(s, p)] + FindAll(s, MatchEnd(s, p))
    else FindAll(s, p + 1)
  }

  /** The leftmost match at or after `p`. */
  function FirstMatch(s: string, p: nat): (r: Option<nat>)
    requires p <= |s|
    ensures r.Some? ==> p <= r.value < |s| && MatchAt(s, r.value)
    ensures forall q :: p <= q < |s| && (r.None? || q < r.value) ==> !MatchAt(s, q)
    decreases |s| - p
  {
    if p == |s| then None
    else if MatchAt(s, p) then Some(p)
    else FirstMatch(s, p + 1)
  }

  /** `id_from_url`: the captured id when `findall` yields exactly one match. */
  function IdFromUrl(url: string): Option<string> {
    var res := FindAll(url, 0);
    if |res| == 1 then Some(res[0]) else None
  }

  lemma {:induction false} FindAllFirst(s: string, p: nat)
    requires p <= |s|
    ensures FindAll(s, p) ==
      match FirstMatch(s, p)
      case None => []
      case Some(q) => [Capture(s, q)] + FindAll(s, MatchEnd(s, q))
    decreases |s| - p
  {
    if p < |s| && !MatchAt(s, p) {
      FindAllFirst(s, p + 1);
    }
  }

  /**
   * An id is returned exactly when there is a leftmost match and no further
   * match from its end on; the id is that match's digits.
   */
  lemma IdFromUrlSpec(url: string)
    ensures IdFromUrl(url) ==
      match FirstMatch(url, 0)
      case None => None
      case Some(p) =>
        if FirstMatch(url, MatchEnd(url, p)).None? then Some(Capture(url, p)) else None
  {
    FindAllFirst(url, 0);
    match FirstMatch(url, 0)
    case None =>
    case Some(p) =>
      FindAllFirst(url, MatchEnd(url, p));
  }

  /** A returned id is a non-empty digit string that follows the literal somewhere in the URL. */
  lemma IdFromUrlSound(url: string)
    ensures IdFromUrl(url).Some? ==>
      var id := IdFromUrl(url).value;
      |id| > 0 && AllDigits(id) && Contains(url, UrlLiteral + id)
  {
    IdFromUrlSpec(url);
    if IdFromUrl(url).Some? {
      var p := FirstMatch(url, 0).value;
      var id := Capture(url, p);
      assert url[p + 1..p + 1 + |UrlLiteral + id|] == UrlLiteral + id by {
        assert url[p + 1..CaptureStart(p)] == UrlLiteral;
      }
      assert OccursAt(url, UrlLiteral + id, p + 1);
    }
  }

  /** No match can start at `q` when the character after it is not a `j`. */
  lemma NoMatchWithoutJ(s: string, a: nat, b: nat)
    requires forall k :: a + 1 <= k < b + 1 && k < |s| ==> s[k] != 'j'
    ensures forall q :: a <= q < b ==> !MatchAt(s, q)
  {
    forall q | a <= q < b
      ensures !MatchAt(s, q)
    {
      if q + 1 + |UrlLiteral| <= |s| {
        assert s[q + 1..q + 1 + |UrlLiteral|][0] == s[q + 1];
      }
    }
  }

  lemma DigitRunOfDigits(s: string, q: nat, n: nat)
    requires q + n <= |s|
    requires forall k :: q <= k < q + n ==> IsDigit(s[k])
    requires q + n == |s| || !IsDigit(s[q + n])
    ensures DigitRun(s, q) == n
  {
  }

  /** The text `u` at `off` in `s`: each of its characters is the one of `s`. */
  lemma CharOfOccurrence(s: string, off: nat, u: string, k: nat)
    requires off + |u| <= |s| && s[off..off + |u|] == u
    requires off <= k < off + |u|
    ensures s[k] == u[k - off]
  {
    assert s[off..off + |u|][k - off] == s[k];
  }

  /** No match starts inside the `https://www` of a book URL. */
  lemma NoMatchInBookUrlHead(s: string, off: nat, id: string)
    requires off + |BookUrl(id)| <= |s| && s[off..off + |BookUrl(id)|] == BookUrl(id)
    ensures forall q :: off <= q < off + |BookUrlHead| ==> !MatchAt(s, q)
  {
    var u := BookUrl(id);
    UrlLengths();
    BookUrlHeadLetters();
    BookUrlPrefixParts();
    forall k | off + 1 <= k < off + |BookUrlHead| + 1 && k < |s|
      ensures s[k] != 'j'
    {
      CharOfOccurrence(s, off, u, k);
      assert u[k - off] == BookUrlPrefix[k - off];
      if k - off < |BookUrlHead| {
        assert BookUrlPrefix[..|BookUrlHead|][k - off] == BookUrlPrefix[k - off];
      }
    }
    NoMatchWithoutJ(s, off, off + |BookUrlHead|);
  }

  /** The literal of the pattern stands right after the `.` of a book URL. */
  lemma LiteralInBookUrl(s: string, off: nat, id: string)
    requires off + |BookUrl(id)| <= |s| && s[off..off + |BookUrl(id)|] == BookUrl(id)
    ensures OccursAt(s, UrlLiteral, off + |BookUrlHead| + 1)
  {
    var u := BookUrl(id);
    UrlLengths();
    BookUrlPrefixParts();
    assert u[|BookUrlHead| + 1..|BookUrlPrefix|] == UrlLiteral by {
      assert u[..|BookUrlPrefix|] == BookUrlPrefix;
      SliceOfSlice(u, 0, |BookUrlPrefix|, |BookUrlHead| + 1, |BookUrlPrefix|);
    }
    SliceOfSlice(s, off, off + |u|, |BookUrlHead| + 1, |BookUrlPrefix|);
  }

  /** The id of a book URL follows its prefix. */
  lemma IdInBookUrl(s: string, off: nat, id: string)
    requires off + |BookUrl(id)| <= |s| && s[off..off + |BookUrl(id)|] == BookUrl(id)
    ensures s[off + |BookUrlPrefix|..off + |BookUrl(id)|] == id
  {
    var u := BookUrl(id);
    assert u[|BookUrlPrefix|..] == id;
    SliceOfSlice(s, off, off + |u|, |BookUrlPrefix|, |u|);
  }

  /** A book URL at `off` matches at its `.`, and its id directly follows the literal. */
  lemma BookUrlMatchStart(s: string, off: nat, id: string)
    requires |id| > 0 && AllDigits(id)
    requires off + |BookUrl(id)| <= |s| && s[off..off + |BookUrl(id)|] == BookUrl(id)
    ensures MatchAt(s, off + |BookUrlHead|)
    ensures s[CaptureStart(off + |BookUrlHead|)..off + |BookUrl(id)|] == id
  {
    var p := off + |BookUrlHead|;
    UrlLengths();
    BookUrlPrefixParts();
    assert s[p] == '.' by {
      CharOfOccurrence(s, off, BookUrl(id), p);
    }
    LiteralInBookUrl(s, off, id);
    IdInBookUrl(s, off, id);
    assert IsDigit(s[CaptureStart(p)]) by {
      assert s[CaptureStart(p)..off + |BookUrl(id)|][0] == s[CaptureStart(p)];
    }
  }

  /** A book URL embedded at `off` (and not followed by a digit) is matched at its `.` before the host. */
  lemma BookUrlMatchedAt(s: string, off: nat, id: string)
    requires |id| > 0 && AllDigits(id)
    requires off + |BookUrl(id)| <= |s| && s[off..off + |BookUrl(id)|] == BookUrl(id)
    requires off + |BookUrl(id)| == |s| || !IsDigit(s[off + |BookUrl(id)|])
    ensures FirstMatch(s, off) == Some(off + |BookUrlHead|)
    ensures MatchEnd(s, off + |BookUrlHead|) == off + |BookUrl(id)|
    ensures Capture(s, off + |BookUrlHead|) == id
  {
    var p := off + |BookUrlHead|;
    var e := off + |BookUrl(id)|;
    NoMatchInBookUrlHead(s, off, id);
    BookUrlMatchStart(s, off, id);
    assert FirstMatch(s, off) == Some(p);
    assert DigitRun(s, CaptureStart(p)) == |id| by {
      forall k | CaptureStart(p) <= k < e
        ensures IsDigit(s[k])
      {
        assert s[k] == s[CaptureStart(p)..e][k - CaptureStart(p)];
      }
      DigitRunOfDigits(s, CaptureStart(p), |id|);
    }
  }

  /** `id_from_url(JINJIANG_BOOK_URL % id) == id` for every non-empty digit id. */
  lemma BookUrlRoundTrip(id: string)
    requires |id| > 0 && AllDigits(id)
    ensures IdFromUrl(BookUrl(id)) == Some(id)
  {
    var s := BookUrl(id);
    assert s[0..|s|] == s;
    BookUrlMatchedAt(s, 0, id);
    IdFromUrlSpec(s);
  }

  /** `get_book_url` and `id_from_url` agree: the URL of a stored digit id yields that id back. */
  lemma GetBookUrlIdentifiesBook(identifiers: map<string, string>)
    requires ProviderId in identifiers && AllDigits(identifiers[ProviderId])
    ensures GetBookUrl(identifiers).Some? <==> identifiers[ProviderId] != ""
    ensures GetBookUrl(identifiers).Some? ==>
      IdFromUrl(GetBookUrl(identifiers).value.2) == Some(GetBookUrl(identifiers).value.1)
  {
    if identifiers[ProviderId] != "" {
      BookUrlRoundTrip(identifiers[ProviderId]);
    }
  }

  /** Two book URLs in one string are two matches, so no id is returned. */
  lemma TwoBookUrlsGiveNoId(a: string, b: string)
    requires |a| > 0 && AllDigits(a) && |b| > 0 && AllDigits(b)
    ensures IdFromUrl(BookUrl(a) + BookUrl(b)) == None
  {
    var s := BookUrl(a) + BookUrl(b);
    var off := |BookUrl(a)|;
    assert s[0..off] == BookUrl(a);
    assert s[off..off + |BookUrl(b)|] == BookUrl(b);
    assert s[off] == 'h';
    BookUrlMatchedAt(s, 0, a);
    BookUrlMatchedAt(s, off, b);
    IdFromUrlSpec(s);
  }

  lemma LiteralTailHasNoJ(id: string)
    requires AllDigits(id)
    ensures forall k :: 2 <= k < |UrlLiteral + id| ==> (UrlLiteral + id)[k] != 'j'
  {
    var s := UrlLiteral + id;
    UrlLiteralLetters();
    forall k | 2 <= k < |s|
      ensures s[k] != 'j'
    {
      if k < |UrlLiteral| {
        assert s[k] == UrlLiteral[k];
      } else {
        assert s[k] == id[k - |UrlLiteral|];
      }
    }
  }

  /**
   * The pattern needs one character before the host: the literal followed
   * only by digits, with nothing before it, gives no id.
   */
  lemma LeadingCharacterRequired(id: string)
    requires AllDigits(id)
    ensures IdFromUrl(UrlLiteral + id) == None
  {
    var s := UrlLiteral + id;
    assert forall q :: 1 <= q < |s| ==> !MatchAt(s, q) by {
      LiteralTailHasNoJ(id);
      NoMatchWithoutJ(s, 1, |s|);
    }
    assert !MatchAt(s, 0) by {
      UrlLiteralLetters();
      assert s[2] == 'w';
      if 1 + |UrlLiteral| <= |s| {
        assert s[1..1 + |UrlLiteral|][1] == s[2];
      }
    }
    assert FirstMatch(s, 0) == None;
    IdFromUrlSpec(s);
  }

  /**
   * `findall` resumes after the end of a match, so a second match that
   * begins inside the first one is skipped and the URL still yields an id.
   */
  lemma OverlappingMatchSkipped()
    ensures var s := "X" + UrlLiteral + "1" + UrlLiteral + "2";
      MatchAt(s, 0) && MatchAt(s, |UrlLiteral| + 1) && IdFromUrl(s) == Some("1")
  {
    var s := "X" + UrlLiteral + "1" + UrlLiteral + "2";
    var n := |UrlLiteral|;
    assert s[1..1 + n] == UrlLiteral;
    assert s[n + 2..2 * n + 2] == UrlLiteral;
    assert s[n + 1] == '1' && s[2 * n + 2] == '2';
    assert MatchAt(s, 0);
    assert MatchAt(s, n + 1);
    assert s[n + 2] == 'j';
    DigitRunOfDigits(s, n + 1, 1);
    assert Capture(s, 0) == s[n + 1..n + 2] == "1";
    IdFromUrlSpec(s);
  }
}
