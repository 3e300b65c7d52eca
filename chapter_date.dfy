/**
 * The publish timestamp of a book, read from the title attribute of its
 * first chapter row (lines 184-200).
 */
module ChapterDate {
  import opened Wrappers
  import opened Text
  import opened Exceptions

  /** The marker that precedes the first-publication time in the chapter's title attribute. */
  const Marker := "章节首发时间："

  /** A `datetime` reduced to its numeric fields. */
  datatype DateTime = DateTime(year: nat, month: nat, day: nat, hour: nat, minute: nat, second: nat)

  predicate DigitsAt(s: string, p: nat, n: nat) {
    p + n <= |s| && forall k :: p <= k < p + n ==> IsDigit(s[k])
  }

  /** `\d{4}-\d{2}-\d{2}\s\d{2}:\d{2}:\d{2}` matches at `p`. */
  predicate StampAt(s: string, p: nat) {
    && p + 19 <= |s|
    && DigitsAt(s, p, 4) && s[p + 4] == '-'
    && DigitsAt(s, p + 5, 2) && s[p + 7] == '-'
    && DigitsAt(s, p + 8, 2) && IsSpace(s[p + 10])
    && DigitsAt(s, p + 11, 2) && s[p + 13] == ':'
    && DigitsAt(s, p + 14, 2) && s[p + 16] == ':'
    && DigitsAt(s, p + 17, 2)
  }

  /** The whole search pattern of line 192 matches at `p`. */
  predicate MarkedStampAt(s: string, p: nat) {
    OccursAt(s, Marker, p) && StampAt(s, p + |Marker|)
  }

  function Field(s: string, p: nat, n: nat): nat
    requires DigitsAt(s, p, n)
  {
    DecimalValue(s[p..p + n])
  }

  /** `datetime.strptime(stamp, "%Y-%m-%d %H:%M:%S")`, without its range checks. */
  function StampValue(s: string, p: nat): DateTime
    requires StampAt(s, p)
  {
    DateTime(Field(s, p, 4), Field(s, p + 5, 2), Field(s, p + 8, 2),
             Field(s, p + 11, 2), Field(s, p + 14, 2), Field(s, p + 17, 2))
  }

  /** Where `re.search` finds the pattern: the leftmost match at or after `p`. */
  function FirstMarkedStamp(s: string, p: nat): (r: Option<nat>)
    requires p <= |s|
    ensures r.Some? ==> p <= r.value < |s| && MarkedStampAt(s, r.value)
    ensures forall q :: p <= q < |s| && (r.None? || q < r.value) ==> !MarkedStampAt(s, q)
    decreases |s| - p
  {
    if p == |s| then None
    else if MarkedStampAt(s, p) then Some(p)
    else FirstMarkedStamp(s, p + 1)
  }

  /** The date that the `re.search` of line 194 yields in a title attribute, if it matches. */
  function PublishDate(title: string): Option<DateTime> {
    match FirstMarkedStamp(title, 0)
    case None => None
    case Some(p) => Some(StampValue(title, p + |Marker|))
  }

  /**
   * Lines 187-200: a date only for a first chapter whose `clickchapterid` is
   * `"1"`; `re.search` on a missing title attribute raises.
   */
  function FirstChapterDate(chapterId: Option<string>, title: Option<string>): Result<Option<DateTime>, Exception> {
    if chapterId == Some("1") then
      match title
      case None => Failure(TypeError(194))
      case Some(t) => Success(PublishDate(t))
    else
      Success(None)
  }

  /** The date comes from the leftmost marker-plus-timestamp in the title; there is none exactly when nothing matches. */
  lemma PublishDateFirstMatch(title: string)
    ensures PublishDate(title).None? <==> forall p :: 0 <= p < |title| ==> !MarkedStampAt(title, p)
    ensures PublishDate(title).Some? ==>
      exists p :: 0 <= p < |title| && MarkedStampAt(title, p)
        && PublishDate(title).value == StampValue(title, p + |Marker|)
        && forall q :: 0 <= q < p ==> !MarkedStampAt(title, q)
  {
    if PublishDate(title).Some? {
      var p := FirstMarkedStamp(title, 0).value;
      assert MarkedStampAt(title, p);
    }
  }

  /** Any first chapter other than a free chapter `"1"` gives no date; chapter `"1"` gives the title's date. */
  lemma FirstChapterDateSpec(chapterId: Option<string>, title: Option<string>)
    ensures chapterId != Some("1") ==> FirstChapterDate(chapterId, title) == Success(None)
    ensures chapterId == Some("1") && title.Some? ==>
      FirstChapterDate(chapterId, title) == Success(PublishDate(title.value))
    ensures FirstChapterDate(chapterId, title).Failure? <==> chapterId == Some("1") && title.None?
    ensures chapterId == Some("1") && title.None? ==> FirstChapterDate(chapterId, title) == Failure(TypeError(194))
  {
  }

  /** A timestamp written the way the catalog writes it: `YYYY-MM-DD HH:MM:SS`, zero-padded. */
  function FormatStamp(d: DateTime): string {
    Decimal(d.year, 4) + "-" + Decimal(d.month, 2) + "-" + Decimal(d.day, 2) + " "
      + Decimal(d.hour, 2) + ":" + Decimal(d.minute, 2) + ":" + Decimal(d.second, 2)
  }

  predicate Writable(d: DateTime) {
    d.year < 10000 && d.month < 100 && d.day < 100 && d.hour < 100 && d.minute < 100 && d.second < 100
  }

  lemma FieldOf(s: string, p: nat, n: nat, v: nat)
    requires v < Pow10(n) && p + n <= |s| && s[p..p + n] == Decimal(v, n)
    ensures DigitsAt(s, p, n) && Field(s, p, n) == v
  {
    forall k | p <= k < p + n
      ensures IsDigit(s[k])
    {
      assert s[k] == s[p..p + n][k - p];
    }
    DecimalRoundTrip(v, n);
  }

  lemma DateLayout(y: string, mo: string, dd: string)
    requires |y| == 4 && |mo| == 2 && |dd| == 2
    ensures var t := y + "-" + mo + "-" + dd;
      |t| == 10 && t[0..4] == y && t[4] == '-' && t[5..7] == mo && t[7] == '-' && t[8..10] == dd
  {
  }

  lemma TimeLayout(h: string, mi: string, se: string)
    requires |h| == 2 && |mi| == 2 && |se| == 2
    ensures var t := h + ":" + mi + ":" + se;
      |t| == 8 && t[0..2] == h && t[2] == ':' && t[3..5] == mi && t[5] == ':' && t[6..8] == se
  {
  }

  /** Where each piece of `y-mo-dd h:mi:se` sits. */
  lemma StampLayout(y: string, mo: string, dd: string, h: string, mi: string, se: string)
    requires |y| == 4 && |mo| == 2 && |dd| == 2 && |h| == 2 && |mi| == 2 && |se| == 2
    ensures var f := y + "-" + mo + "-" + dd + " " + h + ":" + mi + ":" + se;
      && |f| == 19
      && f[0..4] == y && f[4] == '-'
      && f[5..7] == mo && f[7] == '-'
      && f[8..10] == dd && f[10] == ' '
      && f[11..13] == h && f[13] == ':'
      && f[14..16] == mi && f[16] == ':'
      && f[17..19] == se
  {
    var date := y + "-" + mo + "-" + dd;
    var time := h + ":" + mi + ":" + se;
    var f := y + "-" + mo + "-" + dd + " " + h + ":" + mi + ":" + se;
    DateLayout(y, mo, dd);
    TimeLayout(h, mi, se);
    assert f == date + " " + time;
    assert f[..10] == date && f[11..] == time;
    SliceOfSlice(f, 0, 10, 0, 4);
    SliceOfSlice(f, 0, 10, 5, 7);
    SliceOfSlice(f, 0, 10, 8, 10);
    SliceOfSlice(f, 11, 19, 0, 2);
    SliceOfSlice(f, 11, 19, 3, 5);
    SliceOfSlice(f, 11, 19, 6, 8);
  }

  /** Where each piece of a written timestamp sits. */
  lemma FormatStampPieces(d: DateTime)
    ensures var f := FormatStamp(d);
      && |f| == 19
      && f[0..4] == Decimal(d.year, 4) && f[4] == '-'
      && f[5..7] == Decimal(d.month, 2) && f[7] == '-'
      && f[8..10] == Decimal(d.day, 2) && f[10] == ' '
      && f[11..13] == Decimal(d.hour, 2) && f[13] == ':'
      && f[14..16] == Decimal(d.minute, 2) && f[16] == ':'
      && f[17..19] == Decimal(d.second, 2)
  {
    StampLayout(Decimal(d.year, 4), Decimal(d.month, 2), Decimal(d.day, 2),
                Decimal(d.hour, 2), Decimal(d.minute, 2), Decimal(d.second, 2));
  }

  /** A field written at `i` of the text `f` found at `p` in `s` reads back as its value. */
  lemma FieldInText(s: string, p: nat, f: string, i: nat, n: nat, v: nat)
    requires p + |f| <= |s| && s[p..p + |f|] == f
    requires i + n <= |f| && f[i..i + n] == Decimal(v, n) && v < Pow10(n)
    ensures DigitsAt(s, p + i, n) && Field(s, p + i, n) == v
  {
    SliceOfSlice(s, p, p + |f|, i, i + n);
    FieldOf(s, p + i, n, v);
  }

  lemma StampOfFormat(s: string, p: nat, d: DateTime)
    requires Writable(d)
    requires p + 19 <= |s| && s[p..p + 19] == FormatStamp(d)
    ensures StampAt(s, p) && StampValue(s, p) == d
  {
    var f := FormatStamp(d);
    FormatStampPieces(d);
    assert Pow10(2) == 100 && Pow10(4) == 10000;
    FieldInText(s, p, f, 0, 4, d.year);
    FieldInText(s, p, f, 5, 2, d.month);
    FieldInText(s, p, f, 8, 2, d.day);
    FieldInText(s, p, f, 11, 2, d.hour);
    FieldInText(s, p, f, 14, 2, d.minute);
    FieldInText(s, p, f, 17, 2, d.second);
    assert s[p + 4] == f[4] && s[p + 7] == f[7] && s[p + 10] == f[10];
    assert s[p + 13] == f[13] && s[p + 16] == f[16];
  }

  /**
   * Writing a timestamp after the marker and reading it back gives the same
   * fields, whatever follows, when no match of the pattern starts earlier.
   */
  lemma PublishDateRoundTrip(prefix: string, d: DateTime, suffix: string)
    requires Writable(d)
    requires forall q :: 0 <= q < |prefix| ==> !MarkedStampAt(prefix + Marker + FormatStamp(d) + suffix, q)
    ensures PublishDate(prefix + Marker + FormatStamp(d) + suffix) == Some(d)
  {
    var s := prefix + Marker + FormatStamp(d) + suffix;
    var p := |prefix|;
    assert s[p..p + |Marker|] == Marker;
    assert s[p + |Marker|..p + |Marker| + 19] == FormatStamp(d);
    StampOfFormat(s, p + |Marker|, d);
    assert MarkedStampAt(s, p);
    assert FirstMarkedStamp(s, 0) == Some(p);
  }

  /** In particular, a prefix without the marker's first character can come before the timestamp. */
  lemma PublishDateAfterPlainText(prefix: string, d: DateTime, suffix: string)
    requires Writable(d) && Marker[0] !in prefix
    ensures PublishDate(prefix + Marker + FormatStamp(d) + suffix) == Some(d)
  {
    var s := prefix + Marker + FormatStamp(d) + suffix;
    forall q | 0 <= q < |prefix|
      ensures !MarkedStampAt(s, q)
    {
      assert s[q] == prefix[q];
      assert q + |Marker| <= |s| ==> s[q..q + |Marker|][0] == s[q];
    }
    PublishDateRoundTrip(prefix, d, suffix);
  }
}
