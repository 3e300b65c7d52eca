/**
 * Cover resolution for a detail page: the custom cover's `src`, upgraded to
 * the original-resolution image when it is served from the author space,
 * or the default cover of the book when there is no `src`.
 */
module CoverPolicy {
  import opened Text
  import opened UrlParse
  import opened CatalogConstants
  import opened CatalogUrls

  /** The resolution suffix of author-space thumbnails. */
  const SizeTag := "_300_420"
  /** The host marker of the author-space image servers. */
  const AuthorSpace := "authorspace"

  /**
   * Where `\w+$` can end in `s`: just before a final newline, or else at the
   * end (`$` also matches at the very end after a newline, but `\w` never
   * matches the newline).
   */
  function EndAnchor(s: string): (e: nat)
    ensures e <= |s|
  {
    if |s| > 0 && s[|s| - 1] == '\n' then |s| - 1 else |s|
  }

  /** The lookahead `(?=\.\w+$)` holds at `p`. */
  predicate ExtensionAhead(s: string, p: nat) {
    && p < |s|
    && s[p] == '.'
    && p + 1 < EndAnchor(s)
    && forall k :: p + 1 <= k < EndAnchor(s) ==> IsWordChar(s[k])
  }

  /** `_300_420(?=\.\w+$)` matches at `m`. */
  predicate SizeTagAt(s: string, m: nat) {
    OccursAt(s, SizeTag, m) && ExtensionAhead(s, m + |SizeTag|)
  }

  /** `re.sub(r"_300_420(?=\.\w+$)", "", s)`, resumed at `p`: each match is deleted and the scan goes on after it. */
  function SubFrom(s: string, p: nat): string
    requires p <= |s|
    decreases |s| - p
  {
    if p == |s| then []
    else if SizeTagAt(s, p) then SubFrom(s, p + |SizeTag|)
    else [s[p]] + SubFrom(s, p + 1)
  }

  /** The cleaned path of line 177. */
  function StripSizeTag(path: string): string {
    SubFrom(path, 0)
  }

  /** The pattern can match in at most one place: only before the last `.` of the path. */
  lemma SizeTagUnique(s: string, m: nat, n: nat)
    requires SizeTagAt(s, m) && SizeTagAt(s, n)
    ensures m == n
  {
  }

  lemma {:induction false} SubFromNoTag(s: string, p: nat)
    requires p <= |s|
    requires forall k :: p <= k < |s| ==> !SizeTagAt(s, k)
    ensures SubFrom(s, p) == s[p..]
    decreases |s| - p
  {
    if p < |s| {
      SubFromNoTag(s, p + 1);
      assert s[p..] == [s[p]] + s[p + 1..];
    }
  }

  lemma {:induction false} SubFromTag(s: string, p: nat, m: nat)
    requires p <= m && SizeTagAt(s, m)
    ensures SubFrom(s, p) == s[p..m] + s[m + |SizeTag|..]
    decreases m - p
  {
    forall k | 0 <= k < |s| && SizeTagAt(s, k)
      ensures k == m
    {
      SizeTagUnique(s, k, m);
    }
    if p == m {
      SubFromNoTag(s, m + |SizeTag|);
    } else {
      SubFromTag(s, p + 1, m);
      assert s[p..m] == [s[p]] + s[p + 1..m];
    }
  }

  /**
   * The cleaned path is the path with the one `_300_420` that stands right
   * before a final `.\w+` extension removed, and the path itself when there is none.
   */
  lemma StripSizeTagSpec(s: string)
    ensures (forall m :: 0 <= m < |s| ==> !SizeTagAt(s, m)) ==> StripSizeTag(s) == s
    ensures forall m: nat :: SizeTagAt(s, m) ==> StripSizeTag(s) == s[..m] + s[m + |SizeTag|..]
  {
    if forall m :: 0 <= m < |s| ==> !SizeTagAt(s, m) {
      SubFromNoTag(s, 0);
    }
    forall m: nat | SizeTagAt(s, m)
      ensures StripSizeTag(s) == s[..m] + s[m + |SizeTag|..]
    {
      SubFromTag(s, 0, m);
    }
  }

  /** A thumbnail name `x_300_420.w` becomes `x.w`. */
  lemma StripFileName(x: string, w: string)
    requires |w| > 0 && AllWordChars(w)
    ensures StripSizeTag(x + SizeTag + "." + w) == x + "." + w
  {
    var s := x + SizeTag + "." + w;
    var m := |x|;
    assert s[m..m + |SizeTag|] == SizeTag;
    assert s[m + |SizeTag|] == '.';
    assert s[|s| - 1] == w[|w| - 1];
    assert EndAnchor(s) == |s|;
    forall k | m + |SizeTag| + 1 <= k < |s|
      ensures IsWordChar(s[k])
    {
      assert s[k] == w[k - m - |SizeTag| - 1];
    }
    assert SizeTagAt(s, m);
    SubFromTag(s, 0, m);
    assert s[..m] == x;
    assert s[m + |SizeTag|..] == "." + w;
  }

  /**
   * Stripping is not idempotent: only the suffix right before the extension
   * goes, so `a_300_420_300_420.jpg` becomes `a_300_420.jpg`, and only a
   * second pass gives `a.jpg`.
   */
  lemma StripSizeTagNotIdempotent(x: string, w: string)
    requires |w| > 0 && AllWordChars(w)
    ensures StripSizeTag(x + SizeTag + SizeTag + "." + w) == x + SizeTag + "." + w
    ensures StripSizeTag(StripSizeTag(x + SizeTag + SizeTag + "." + w)) == x + "." + w
  {
    StripFileName(x + SizeTag, w);
    StripFileName(x, w);
  }

  /** The cover URL of an identifier-mode record (lines 170-180). */
  function ResolveCover(src: string, id: string): string {
    if src != "" then
      var parsed := ParseUrl(src);
      if Contains(parsed.netloc, AuthorSpace) then
        parsed.scheme + "://" + parsed.netloc + StripSizeTag(parsed.path)
      else
        src
    else
      BookCoverUrl(id)
  }

  /** No custom cover: the default cover of the book. */
  lemma ResolveCoverDefault(id: string)
    ensures ResolveCover("", id) == BookCoverUrl(id)
  {
  }

  /** A custom cover that is not served from the author space is used as it is. */
  lemma ResolveCoverVerbatim(src: string, id: string)
    requires src != "" && !Contains(ParseUrl(src).netloc, AuthorSpace)
    ensures ResolveCover(src, id) == src
  {
  }

  /** An author-space cover keeps scheme, host and path (suffix removed) and loses query and fragment. */
  lemma ResolveCoverAuthorSpace(scheme: string, netloc: string, path: string, tail: string, id: string)
    requires IsLowerScheme(scheme) && IsPlainNetloc(netloc) && IsPlainPath(path) && IsUrlTail(tail)
    requires Contains(netloc, AuthorSpace)
    ensures ResolveCover(scheme + "://" + netloc + path + tail, id) == scheme + "://" + netloc + StripSizeTag(path)
  {
    ParseComposed(scheme, netloc, path, tail);
  }

  /** An author-space thumbnail `dir_300_420.ext` resolves to the original image `dir.ext` on the same host. */
  lemma ResolveCoverOriginalImage(scheme: string, netloc: string, dir: string, ext: string, tail: string, id: string)
    requires IsLowerScheme(scheme) && IsPlainNetloc(netloc) && IsUrlTail(tail)
    requires IsPlainPath(dir + SizeTag + "." + ext) && |ext| > 0 && AllWordChars(ext)
    requires Contains(netloc, AuthorSpace)
    ensures ResolveCover(scheme + "://" + netloc + (dir + SizeTag + "." + ext) + tail, id) ==
      scheme + "://" + netloc + (dir + "." + ext)
  {
    ResolveCoverAuthorSpace(scheme, netloc, dir + SizeTag + "." + ext, tail, id);
    StripFileName(dir, ext);
  }
}
