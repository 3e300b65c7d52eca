/**
 * The part of Python's `urllib.parse.urlparse` (CPython 3.12) that cover
 * resolution relies on: leading control/space stripping, removal of tab,
 * CR and LF, the scheme, the network location, fragment, query and
 * `;params` splitting.
 */
module UrlParse {
  import opened Text

  datatype UrlParts = UrlParts(
    scheme: string, netloc: string, path: string, params: string, query: string, fragment: string)

  /** `_WHATWG_C0_CONTROL_OR_SPACE`: U+0000 to U+0020. */
  predicate IsC0OrSpace(c: char) {
    c <= ' '
  }

  /** `_UNSAFE_URL_BYTES_TO_REMOVE` */
  predicate IsUnsafe(c: char) {
    c == '\t' || c == '\r' || c == '\n'
  }

  predicate NoUnsafe(s: string) {
    forall k :: 0 <= k < |s| ==> !IsUnsafe(s[k])
  }

  /** `scheme_chars` */
  predicate IsSchemeChar(c: char) {
    IsAsciiLetter(c) || IsDigit(c) || c == '+' || c == '-' || c == '.'
  }

  /** The schemes in `uses_params`, whose last path segment may carry `;params`. */
  const UsesParams: set<string> :=
    {"", "ftp", "hdl", "prospero", "http", "imap", "https", "shttp", "rtsp", "rtsps", "rtspu",
     "sip", "sips", "mms", "sftp", "tel"}

  /** `s.lstrip(_WHATWG_C0_CONTROL_OR_SPACE)` */
  function LStripC0(s: string): (r: string)
    ensures |r| <= |s| && r == s[|s| - |r|..]
    ensures r == [] || !IsC0OrSpace(r[0])
    ensures forall k :: 0 <= k < |s| - |r| ==> IsC0OrSpace(s[k])
  {
    if s != [] && IsC0OrSpace(s[0]) then LStripC0(s[1..]) else s
  }

  /** `s.replace('\t', '').replace('\r', '').replace('\n', '')` */
  function RemoveUnsafe(s: string): (r: string)
    ensures |r| <= |s| && NoUnsafe(r)
    ensures NoUnsafe(s) ==> r == s
  {
    if s == [] then []
    else if IsUnsafe(s[0]) then RemoveUnsafe(s[1..])
    else [s[0]] + RemoveUnsafe(s[1..])
  }

  /** `s.replace(c, '')` */
  function RemoveChar(s: string, c: char): (r: string)
    ensures c !in r
  {
    if s == [] then []
    else if s[0] == c then RemoveChar(s[1..], c)
    else [s[0]] + RemoveChar(s[1..], c)
  }

  /** A single character is dropped when it is a tab, CR or LF, and kept otherwise. */
  lemma RemoveUnsafeChar(c: char)
    ensures RemoveUnsafe([c]) == if IsUnsafe(c) then [] else [c]
  {
    assert [c][1..] == [];
  }

  /** Removal works character by character: it distributes over concatenation. */
  lemma {:induction false} RemoveUnsafeAppend(a: string, b: string)
    ensures RemoveUnsafe(a + b) == RemoveUnsafe(a) + RemoveUnsafe(b)
  {
    if a == [] {
      assert a + b == b;
    } else {
      assert (a + b)[0] == a[0] && (a + b)[1..] == a[1..] + b;
      RemoveUnsafeAppend(a[1..], b);
      if !IsUnsafe(a[0]) {
        var ra := RemoveUnsafe(a[1..]);
        assert [a[0]] + (ra + RemoveUnsafe(b)) == ([a[0]] + ra) + RemoveUnsafe(b);
      }
    }
  }

  /** One pass over the string does what the three `replace` calls of `urlsplit` do in turn. */
  lemma {:induction false} RemoveUnsafeIsReplaceChain(s: string)
    ensures RemoveUnsafe(s) == RemoveChar(RemoveChar(RemoveChar(s, '\t'), '\r'), '\n')
  {
    if s != [] {
      RemoveUnsafeIsReplaceChain(s[1..]);
      var x := s[0];
      var t1 := RemoveChar(s[1..], '\t');
      var t2 := RemoveChar(t1, '\r');
      if x != '\t' {
        assert ([x] + t1)[0] == x && ([x] + t1)[1..] == t1;
        if x != '\r' {
          assert ([x] + t2)[0] == x && ([x] + t2)[1..] == t2;
        }
      }
    }
  }

  /** `s.lower()` on a string of scheme characters (all ASCII). */
  function LowerAscii(s: string): (r: string)
    ensures |r| == |s|
    ensures forall k :: 0 <= k < |s| ==> r[k] == if 'A' <= s[k] <= 'Z' then s[k] - 'A' + 'a' else s[k]
  {
    if s == [] then [] else [if 'A' <= s[0] <= 'Z' then s[0] - 'A' + 'a' else s[0]] + LowerAscii(s[1..])
  }

  /** The scheme and the rest: a scheme is taken only before the first `:`, starting with an ASCII letter. */
  function SplitScheme(url: string): (string, string) {
    var i := Find(url, ':', 0);
    if i > 0 && IsAsciiLetter(url[0]) && forall k :: 0 <= k < i ==> IsSchemeChar(url[k]) then
      (LowerAscii(url[..i]), url[i + 1..])
    else
      ("", url)
  }

  predicate IsNetlocDelimiter(c: char) {
    c == '/' || c == '?' || c == '#'
  }

  /** `_splitnetloc(url, 2)`'s `delim`: the first `/`, `?` or `#` after the leading `//`, or the end. */
  function NetlocEnd(url: string): (d: nat)
    requires 2 <= |url|
    ensures 2 <= d <= |url|
    ensures d < |url| ==> IsNetlocDelimiter(url[d])
    ensures forall k :: 2 <= k < d ==> !IsNetlocDelimiter(url[k])
  {
    var a, b, c := Find(url, '/', 2), Find(url, '?', 2), Find(url, '#', 2);
    var d := if a >= 0 then a else |url|;
    var d := if b >= 0 && b < d then b else d;
    if c >= 0 && c < d then c else d
  }

  /** `s.split(c, 1)` when `c in s`. */
  function SplitOnce(s: string, c: char): (string, string)
    requires c in s
  {
    var i := Find(s, c, 0);
    (s[..i], s[i + 1..])
  }

  /** `_splitparams`: `;params` are looked for only after the last `/`. */
  function SplitParams(url: string): (string, string) {
    if '/' in url then
      var i := Find(url, ';', RFind(url, '/'));
      if i < 0 then (url, "") else (url[..i], url[i + 1..])
    else
      var i := Find(url, ';', 0);
      if i < 0 then (url, "") else (url[..i], url[i + 1..])
  }

  /** The network location after a leading `//`, and what follows it. */
  function SplitNetloc(url: string): (string, string) {
    if |url| >= 2 && url[..2] == "//" then
      var d := NetlocEnd(url);
      (url[2..d], url[d..])
    else
      ("", url)
  }

  /** What follows the network location: fragment, then query, then `;params` for the schemes that have them. */
  function SplitPath(scheme: string, netloc: string, url: string): UrlParts {
    var (beforeFragment, fragment) :=
      if '#' in url then SplitOnce(url, '#') else (url, "");
    var (beforeQuery, query) :=
      if '?' in beforeFragment then SplitOnce(beforeFragment, '?') else (beforeFragment, "");
    var (path, params) :=
      if scheme in UsesParams && ';' in beforeQuery then SplitParams(beforeQuery) else (beforeQuery, "");
    UrlParts(scheme, netloc, path, params, query, fragment)
  }

  /** `urlparse(raw)` */
  function ParseUrl(raw: string): UrlParts {
    var url := RemoveUnsafe(LStripC0(raw));
    var (scheme, afterScheme) := SplitScheme(url);
    var (netloc, afterNetloc) := SplitNetloc(afterScheme);
    SplitPath(scheme, netloc, afterNetloc)
  }

  /** A scheme as `urlparse` reports it: an ASCII letter, then scheme characters, no upper case. */
  predicate IsLowerScheme(s: string) {
    && |s| > 0
    && IsAsciiLetter(s[0])
    && forall k :: 0 <= k < |s| ==> IsSchemeChar(s[k]) && !('A' <= s[k] <= 'Z')
  }

  /** A network location `urlparse` keeps whole: no delimiter and nothing it deletes. */
  predicate IsPlainNetloc(s: string) {
    NoUnsafe(s) && forall k :: 0 <= k < |s| ==> !IsNetlocDelimiter(s[k])
  }

  /** An absolute path without query, fragment or `;params`. */
  predicate IsPlainPath(s: string) {
    && NoUnsafe(s)
    && (s == [] || s[0] == '/')
    && forall k :: 0 <= k < |s| ==> s[k] != '?' && s[k] != '#' && s[k] != ';'
  }

  /** What may follow the path: nothing, or a query or fragment. */
  predicate IsUrlTail(s: string) {
    NoUnsafe(s) && (s == [] || s[0] == '?' || s[0] == '#')
  }

  lemma FindFirst(s: string, c: char, i: nat)
    requires i < |s| && s[i] == c
    requires forall k :: 0 <= k < i ==> s[k] != c
    ensures Find(s, c, 0) == i
  {
  }

  lemma LowerOfLower(s: string)
    requires forall k :: 0 <= k < |s| ==> !('A' <= s[k] <= 'Z')
    ensures LowerAscii(s) == s
  {
  }

  lemma CleanUrlKept(u: string)
    requires u != [] && !IsC0OrSpace(u[0]) && NoUnsafe(u)
    ensures RemoveUnsafe(LStripC0(u)) == u
  {
  }

  lemma SchemeComposed(scheme: string, rest: string)
    requires IsLowerScheme(scheme)
    ensures SplitScheme(scheme + ":" + rest) == (scheme, rest)
  {
    var u := scheme + ":" + rest;
    forall k | 0 <= k < |scheme|
      ensures u[k] == scheme[k] && u[k] != ':'
    {
    }
    FindFirst(u, ':', |scheme|);
    assert u[..|scheme|] == scheme;
    LowerOfLower(scheme);
    assert u[|scheme| + 1..] == rest;
  }

  lemma NetlocComposed(netloc: string, after: string)
    requires IsPlainNetloc(netloc)
    requires after == [] || IsNetlocDelimiter(after[0])
    ensures SplitNetloc("//" + netloc + after) == (netloc, after)
  {
    var rest := "//" + netloc + after;
    var n := 2 + |netloc|;
    assert rest[..2] == "//";
    forall k | 2 <= k < n
      ensures !IsNetlocDelimiter(rest[k])
    {
      assert rest[k] == netloc[k - 2];
    }
    if n < |rest| {
      assert rest[n] == after[0];
    }
    assert NetlocEnd(rest) == n;
    assert rest[2..n] == netloc;
    assert rest[n..] == after;
  }

  lemma PathComposed(scheme: string, netloc: string, path: string, tail: string)
    requires IsPlainPath(path) && IsUrlTail(tail)
    ensures SplitPath(scheme, netloc, path + tail).path == path
  {
    var after := path + tail;
    assert forall k :: 0 <= k < |path| ==> after[k] == path[k];
    var beforeFragment := if '#' in after then SplitOnce(after, '#').0 else after;
    assert |path| <= |beforeFragment| && beforeFragment[..|path|] == path by {
      if '#' in after {
        var i := Find(after, '#', 0);
        assert i >= |path|;
        assert beforeFragment == after[..i];
      }
    }
    assert |beforeFragment| > |path| ==> beforeFragment[|path|] == '?' by {
      if |beforeFragment| > |path| {
        assert beforeFragment[|path|] == after[|path|] == tail[0];
      }
    }
    var path0 := if '?' in beforeFragment then SplitOnce(beforeFragment, '?').0 else beforeFragment;
    assert path0 == path by {
      if '?' in beforeFragment {
        FindFirst(beforeFragment, '?', |path|);
      } else {
        assert |beforeFragment| == |path|;
      }
    }
    assert ';' !in path0;
  }

  lemma ComposedHasNoUnsafe(scheme: string, netloc: string, path: string, tail: string)
    requires IsLowerScheme(scheme) && IsPlainNetloc(netloc) && IsPlainPath(path) && IsUrlTail(tail)
    ensures NoUnsafe(scheme + "://" + netloc + path + tail)
  {
    var u := scheme + "://" + netloc + path + tail;
    forall k | 0 <= k < |u|
      ensures !IsUnsafe(u[k])
    {
      if k < |scheme| {
        assert u[k] == scheme[k];
      } else if k < |scheme| + 3 {
        assert u[k] == "://"[k - |scheme|];
      } else if k < |scheme| + 3 + |netloc| {
        assert u[k] == netloc[k - |scheme| - 3];
      } else if k < |scheme| + 3 + |netloc| + |path| {
        assert u[k] == path[k - |scheme| - 3 - |netloc|];
      } else {
        assert u[k] == tail[k - |scheme| - 3 - |netloc| - |path|];
      }
    }
  }

  /**
   * `urlparse` takes `scheme://netloc` + path + query/fragment apart into
   * exactly that scheme, network location and path.
   */
  lemma ParseComposed(scheme: string, netloc: string, path: string, tail: string)
    requires IsLowerScheme(scheme) && IsPlainNetloc(netloc) && IsPlainPath(path) && IsUrlTail(tail)
    ensures var r := ParseUrl(scheme + "://" + netloc + path + tail);
      r.scheme == scheme && r.netloc == netloc && r.path == path
  {
    var after := path + tail;
    var rest := "//" + netloc + after;
    var u := scheme + ":" + rest;
    assert u == scheme + "://" + netloc + path + tail;
    assert RemoveUnsafe(LStripC0(u)) == u by {
      ComposedHasNoUnsafe(scheme, netloc, path, tail);
      assert u[0] == scheme[0];
      CleanUrlKept(u);
    }
    assert SplitScheme(u) == (scheme, rest) by {
      SchemeComposed(scheme, rest);
    }
    assert SplitNetloc(rest) == (netloc, after) by {
      assert after == [] || IsNetlocDelimiter(after[0]) by {
        if after != [] {
          assert after[0] == if path != [] then path[0] else tail[0];
        }
      }
      NetlocComposed(netloc, after);
    }
    assert ParseUrl(u) == SplitPath(scheme, netloc, after);
    PathComposed(scheme, netloc, path, tail);
  }
}
