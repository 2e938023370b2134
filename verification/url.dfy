/** The two pieces of URL handling the archive tools use: the scheme that
    `urllib.parse.urlparse` reports (after the cleaning CPython 3.12's
    `urlsplit` does first), and the local cache path built from a URL with
    `url.lstrip(scheme + "://")` and `os.path.join("/tmp", ...)`. */
module Url {
  import opened Text

  predicate IsAsciiAlpha(c: char) {
    ('a' <= c <= 'z') || ('A' <= c <= 'Z')
  }

  /** `urllib.parse.scheme_chars`. */
  predicate IsSchemeChar(c: char) {
    IsAsciiAlpha(c) || ('0' <= c <= '9') || c == '+' || c == '-' || c == '.'
  }

  predicate AllSchemeChars(s: string) {
    forall j :: 0 <= j < |s| ==> IsSchemeChar(s[j])
  }

  /** A string `urlparse` accepts as a scheme in front of a ':'. */
  predicate ValidScheme(s: string) {
    |s| > 0 && IsAsciiAlpha(s[0]) && AllSchemeChars(s)
  }

  function LowerChar(c: char): char {
    if 'A' <= c <= 'Z' then (c as int - 'A' as int + 'a' as int) as char else c
  }

  /** `str.lower()` on scheme characters (all ASCII). */
  function Lower(s: string): (r: string)
    ensures |r| == |s|
    ensures forall j :: 0 <= j < |s| ==> r[j] == LowerChar(s[j])
  {
    seq(|s|, j requires 0 <= j < |s| => LowerChar(s[j]))
  }

  // ---------------------------------------------------------------------
  // the cleaning `urlsplit` does before it looks for a scheme

  /** `_WHATWG_C0_CONTROL_OR_SPACE`: U+0000 to U+0020, stripped in front. */
  predicate IsC0OrSpace(c: char) {
    c <= ' '
  }

  /** `_UNSAFE_URL_BYTES_TO_REMOVE`: tab, CR and LF, removed everywhere. */
  predicate IsUnsafe(c: char) {
    c == '\t' || c == '\r' || c == '\n'
  }

  /** Every tab, CR and LF deleted, the other characters kept in order. */
  function RemoveUnsafe(s: string): (r: string)
    ensures |r| <= |s|
    ensures forall j :: 0 <= j < |r| ==> !IsUnsafe(r[j])
    ensures (forall j :: 0 <= j < |s| ==> !IsUnsafe(s[j])) ==> r == s
    decreases |s|
  {
    if |s| == 0 then []
    else
      assert s == [s[0]] + s[1..];
      (if IsUnsafe(s[0]) then [] else [s[0]]) + RemoveUnsafe(s[1..])
  }

  /** Deleting characters piece by piece is deleting them from the whole. */
  lemma {:induction false} RemoveUnsafeAppend(a: string, b: string)
    ensures RemoveUnsafe(a + b) == RemoveUnsafe(a) + RemoveUnsafe(b)
    decreases |a|
  {
    if |a| == 0 {
      assert a + b == b;
    } else {
      assert (a + b)[0] == a[0];
      assert (a + b)[1..] == a[1..] + b;
      RemoveUnsafeAppend(a[1..], b);
    }
  }

  /** The text `urlsplit` parses (CPython 3.12): the URL with its leading
      C0 controls and spaces stripped, then every tab, CR and LF deleted.
      It starts with neither kind of character and holds no tab, CR or LF. */
  function Clean(url: string): (c: string)
    ensures |c| <= |url|
    ensures forall j :: 0 <= j < |c| ==> !IsUnsafe(c[j])
    ensures c == [] || !IsC0OrSpace(c[0])
  {
    var l := LStrip(url, IsC0OrSpace);
    RemoveUnsafe(l)
  }

  /** A URL with nothing to clean is parsed as it is. */
  lemma CleanKeeps(url: string)
    requires url == [] || !IsC0OrSpace(url[0])
    requires forall j :: 0 <= j < |url| ==> !IsUnsafe(url[j])
    ensures Clean(url) == url
  {
    LStripAt(url, IsC0OrSpace, 0);
  }

  /** Cleaning twice is cleaning once. */
  lemma CleanIdempotent(url: string)
    ensures Clean(Clean(url)) == Clean(url)
  {
    CleanKeeps(Clean(url));
  }

  /** The scheme part of the parse, on cleaned text: the text before the
      first ':', lower-cased, when it starts with an ASCII letter and holds
      only scheme characters; otherwise empty. */
  function ParseScheme(c: string): (r: string)
    ensures r != [] ==> |r| < |c| && c[|r|] == ':' && ValidScheme(c[..|r|]) && r == Lower(c[..|r|])
    ensures r == [] ==> (':' !in c || !ValidScheme(c[..Find(c, ':')]))
  {
    var i := Find(c, ':');
    if i > 0 && ValidScheme(c[..i]) then Lower(c[..i]) else ""
  }

  /** `urlparse(url).scheme`: the scheme found in the cleaned URL. */
  function Scheme(url: string): (r: string)
    ensures var c := Clean(url);
            && (r != [] ==> |r| < |c| && c[|r|] == ':' && ValidScheme(c[..|r|]) && r == Lower(c[..|r|]))
            && (r == [] ==> (':' !in c || !ValidScheme(c[..Find(c, ':')])))
    ensures |r| < |url| || r == []
  {
    ParseScheme(Clean(url))
  }

  /** A URL that starts with a valid scheme and a ':' reports that scheme,
      whatever follows. */
  lemma SchemeOfPrefixed(sch: string, rest: string)
    requires ValidScheme(sch)
    ensures Scheme(sch + ":" + rest) == Lower(sch)
  {
    CleanOfPrefixed(sch, rest);
    ParsedSchemeOfPrefixed(sch, RemoveUnsafe(rest));
  }

  /** Nothing in front of a valid scheme is stripped, and nothing in it is
      deleted. */
  lemma CleanOfPrefixed(sch: string, rest: string)
    requires ValidScheme(sch)
    ensures Clean(sch + ":" + rest) == sch + ":" + RemoveUnsafe(rest)
  {
    var url := sch + ":" + rest;
    assert url[0] == sch[0];
    CleanOfStart(url);
    RemoveUnsafeOfPrefixed(sch, rest);
  }

  lemma RemoveUnsafeOfPrefixed(sch: string, rest: string)
    requires AllSchemeChars(sch)
    ensures RemoveUnsafe(sch + ":" + rest) == sch + ":" + RemoveUnsafe(rest)
  {
    assert sch + ":" + rest == sch + (":" + rest);
    RemoveUnsafeAppend(sch, ":" + rest);
    SchemeHasNoUnsafe(sch);
    RemoveUnsafeOfColon(rest);
  }

  lemma RemoveUnsafeOfColon(rest: string)
    ensures RemoveUnsafe(":" + rest) == ":" + RemoveUnsafe(rest)
  {
    RemoveUnsafeAppend(":", rest);
    RemoveUnsafeKeeps(":");
  }

  /** Text without a tab, CR or LF is left as it is. */
  lemma RemoveUnsafeKeeps(s: string)
    requires forall j :: 0 <= j < |s| ==> !IsUnsafe(s[j])
    ensures RemoveUnsafe(s) == s
  {
  }

  lemma SchemeHasNoUnsafe(sch: string)
    requires AllSchemeChars(sch)
    ensures RemoveUnsafe(sch) == sch
  {
    forall j | 0 <= j < |sch| ensures !IsUnsafe(sch[j]) { assert IsSchemeChar(sch[j]); }
  }

  /** A URL that starts with neither a control nor a space is stripped of
      nothing. */
  lemma CleanOfStart(url: string)
    requires url != [] && !IsC0OrSpace(url[0])
    ensures Clean(url) == RemoveUnsafe(url)
  {
    LStripAt(url, IsC0OrSpace, 0);
    assert url[0..] == url;
  }

  lemma ParsedSchemeOfPrefixed(sch: string, rest: string)
    requires ValidScheme(sch)
    ensures ParseScheme(sch + ":" + rest) == Lower(sch)
  {
    var url := sch + ":" + rest;
    var i := Find(url, ':');
    assert url[|sch|] == ':';
    assert ':' !in sch by {
      forall j | 0 <= j < |sch| ensures sch[j] != ':' { assert IsSchemeChar(sch[j]); }
    }
    assert i == |sch|;
    assert url[..i] == sch;
  }

  /** Leading C0 controls and spaces never change the scheme. */
  lemma SchemeIgnoresLeadingControls(pad: string, url: string)
    requires forall j :: 0 <= j < |pad| ==> IsC0OrSpace(pad[j])
    ensures Scheme(pad + url) == Scheme(url)
  {
    LStripDropped(pad, url, IsC0OrSpace);
  }

  /** A tab, CR or LF anywhere in the URL never changes the scheme. */
  lemma SchemeIgnoresUnsafe(a: string, u: char, b: string)
    requires IsUnsafe(u)
    ensures Scheme(a + [u] + b) == Scheme(a + b)
  {
    CleanDropsUnsafe(a, u, b);
  }

  lemma CleanDropsUnsafe(a: string, u: char, b: string)
    requires IsUnsafe(u)
    ensures Clean(a + [u] + b) == Clean(a + b)
  {
    var l := LStrip(a, IsC0OrSpace);
    if l != [] {
      LStripKeptBoth(a, [u] + b, b);
      assert a + [u] + b == a + ([u] + b);
      RemoveUnsafeDrops(l, u, b);
      assert l + ([u] + b) == l + [u] + b;
    } else {
      assert a + [u] + b == a + ([u] + b);
      LStripDropped(a, [u] + b, IsC0OrSpace);
      LStripDropped([u], b, IsC0OrSpace);
      LStripDropped(a, b, IsC0OrSpace);
    }
  }

  lemma LStripKeptBoth(a: string, x: string, y: string)
    requires LStrip(a, IsC0OrSpace) != []
    ensures LStrip(a + x, IsC0OrSpace) == LStrip(a, IsC0OrSpace) + x
    ensures LStrip(a + y, IsC0OrSpace) == LStrip(a, IsC0OrSpace) + y
  {
    LStripKept(a, x, IsC0OrSpace);
    LStripKept(a, y, IsC0OrSpace);
  }

  lemma RemoveUnsafeDrops(a: string, u: char, b: string)
    requires IsUnsafe(u)
    ensures RemoveUnsafe(a + [u] + b) == RemoveUnsafe(a + b)
  {
    assert a + [u] + b == a + ([u] + b);
    RemoveUnsafeAppend(a, [u] + b);
    RemoveUnsafeAppend(a, b);
    RemoveUnsafeDropsHead(u, b);
  }

  lemma RemoveUnsafeDropsHead(u: char, b: string)
    requires IsUnsafe(u)
    ensures RemoveUnsafe([u] + b) == RemoveUnsafe(b)
  {
    assert ([u] + b)[1..] == b;
  }

  /** A leading space in front of "http:" is stripped before the scheme is
      read. */
  lemma SchemeOfSpacedUrl()
    ensures Scheme(" http://x/a") == "http"
  {
    SchemeOfPlainUrl();
    SpacedUrlSplits();
    SchemeIgnoresLeadingControls(" ", "http://x/a");
  }

  /** A tab inside "http" is deleted before the scheme is read. */
  lemma SchemeOfTabbedUrl()
    ensures Scheme("ht\ttp://x/a") == "http"
  {
    SchemeOfPlainUrl();
    TabbedUrlSplits();
    SchemeIgnoresUnsafe("ht", '\t', "tp://x/a");
  }

  lemma SpacedUrlSplits()
    ensures " http://x/a" == " " + "http://x/a"
  {
  }

  lemma TabbedUrlSplits()
    ensures "ht\ttp://x/a" == "ht" + ['\t'] + "tp://x/a"
    ensures "ht" + "tp://x/a" == "http://x/a"
  {
  }

  lemma SchemeOfPlainUrl()
    ensures Scheme("http://x/a") == "http"
  {
    assert ValidScheme("http") by {
      assert forall j :: 0 <= j < 4 ==> IsSchemeChar("http"[j]);
    }
    SchemeOfPrefixed("http", "//x/a");
    assert "http" + ":" + "//x/a" == "http://x/a";
    LowerHttp();
  }

  lemma FindInPrefix(p: string, z: string, c: char)
    requires c in p
    ensures Find(p + z, c) == Find(p, c)
  {
    var r := Find(p + z, c);
    var r' := Find(p, c);
    assert (p + z)[r'] == c;
    assert (p + z)[..r'] == p[..r'];
  }

  /** Two URLs that agree up to a '/' report the same scheme, whatever
      follows: the scheme lies wholly before that '/' or is empty. */
  lemma SchemeSharedPrefix(p: string, x: string, y: string)
    ensures Scheme(p + "/" + x) == Scheme(p + "/" + y)
  {
    CleanBeforeSlash(p, x);
    CleanBeforeSlash(p, y);
    ParsedSchemeSharedPrefix(Clean(p), RemoveUnsafe(x), RemoveUnsafe(y));
  }

  /** Cleaning stops short of a '/': the part before it is cleaned alone. */
  lemma CleanBeforeSlash(p: string, x: string)
    ensures Clean(p + "/" + x) == Clean(p) + "/" + RemoveUnsafe(x)
  {
    LStripBeforeSlash(p, x);
    RemoveUnsafeBeforeSlash(LStrip(p, IsC0OrSpace), x);
  }

  lemma RemoveUnsafeBeforeSlash(l: string, x: string)
    ensures RemoveUnsafe(l + "/" + x) == RemoveUnsafe(l) + "/" + RemoveUnsafe(x)
  {
    assert l + "/" + x == l + ("/" + x);
    RemoveUnsafeAppend(l, "/" + x);
    RemoveUnsafeAppend("/", x);
    RemoveUnsafeKeeps("/");
  }

  lemma LStripBeforeSlash(p: string, x: string)
    ensures LStrip(p + "/" + x, IsC0OrSpace) == LStrip(p, IsC0OrSpace) + "/" + x
  {
    var q := "/" + x;
    assert p + "/" + x == p + q;
    var l := LStrip(p, IsC0OrSpace);
    if l != [] {
      LStripKept(p, q, IsC0OrSpace);
    } else {
      LStripDropped(p, q, IsC0OrSpace);
      LStripAt(q, IsC0OrSpace, 0);
      assert q[0..] == q;
    }
  }

  lemma ParsedSchemeSharedPrefix(p: string, x: string, y: string)
    ensures ParseScheme(p + "/" + x) == ParseScheme(p + "/" + y)
  {
    var u, v := p + "/" + x, p + "/" + y;
    if ':' in p {
      FindInPrefix(p, "/" + x, ':');
      FindInPrefix(p, "/" + y, ':');
      assert u == p + ("/" + x) && v == p + ("/" + y);
      var i := Find(p, ':');
      assert u[..i] == p[..i] == v[..i];
    } else {
      SchemeEmptyPastSlash(p, x);
      SchemeEmptyPastSlash(p, y);
    }
  }

  lemma SchemeEmptyPastSlash(p: string, x: string)
    requires ':' !in p
    ensures ParseScheme(p + "/" + x) == ""
  {
    var u := p + "/" + x;
    var i := Find(u, ':');
    if i >= 0 {
      assert u[i] == ':';
      assert i > |p|;
      assert !IsSchemeChar(u[..i][|p|]);
    }
  }

  // ---------------------------------------------------------------------
  // cache paths

  /** `os.path.join(a, b)` for two components. */
  function JoinPath(a: string, b: string): string {
    if StartsWith(b, "/") then b
    else if a == [] || a[|a| - 1] == '/' then a + b
    else a + "/" + b
  }

  /** The character set `url.lstrip(scheme + "://")` strips. */
  function StripSet(url: string): string {
    Scheme(url) + "://"
  }

  /** `url.lstrip(chars)`: the leading run of characters drawn from the set
      `chars` removed (a character set, not a prefix). */
  function StripChars(chars: string, url: string): string {
    LStrip(url, c => c in chars)
  }

  /** `url.lstrip(scheme + "://")` with the scheme of `url` itself. */
  function CacheRelative(url: string): string {
    StripChars(StripSet(url), url)
  }

  /** `os.path.join("/tmp", url.lstrip(scheme + "://"))` where the scheme is
      that of `schemeUrl`, which need not be `url`. */
  function CachePathSchemeOf(schemeUrl: string, url: string): string {
    JoinPath("/tmp", StripChars(StripSet(schemeUrl), url))
  }

  /** `os.path.join("/tmp", url.lstrip(scheme + "://"))`. */
  function CachePath(url: string): string {
    CachePathSchemeOf(url, url)
  }

  /** The stripped text never starts with '/', so the join always nests it
      under "/tmp/", and what is removed is a run of set characters. */
  lemma CachePathShape(url: string)
    ensures CachePath(url) == "/tmp/" + CacheRelative(url)
    ensures exists k :: 0 <= k <= |url| && CacheRelative(url) == url[k..]
                        && forall j :: 0 <= j < k ==> url[j] in StripSet(url)
    ensures CacheRelative(url) == [] || CacheRelative(url)[0] !in StripSet(url)
  {
    StripSetHasSlash(url);
    StripCharsShape(StripSet(url), url);
  }

  lemma StripSetHasSlash(url: string)
    ensures '/' in StripSet(url)
  {
    assert StripSet(url)[|StripSet(url)| - 1] == '/';
  }

  lemma StripCharsShape(chars: string, url: string)
    requires '/' in chars
    ensures JoinPath("/tmp", StripChars(chars, url)) == "/tmp/" + StripChars(chars, url)
    ensures exists k :: 0 <= k <= |url| && StripChars(chars, url) == url[k..]
                        && forall j :: 0 <= j < k ==> url[j] in chars
    ensures StripChars(chars, url) == [] || StripChars(chars, url)[0] !in chars
  {
    var r := StripChars(chars, url);
    assert r == url[|url| - |r|..];
  }

  /** The corrected mapping: remove the prefix `scheme + "://"` itself, when
      the URL starts with its scheme (in any case) and "://". */
  function CachePathFixed(url: string): string {
    var n := |Scheme(url)|;
    if n > 0 && Lower(url[..n]) == Scheme(url) && StartsWith(url[n..], "://") then "/tmp/" + url[n + 3..]
    else "/tmp/" + url
  }

  /** The corrected mapping keeps host and path verbatim under "/tmp/", so
      URLs of one scheme never share a cache file. */
  lemma CachePathFixedKeepsHostAndPath(sch: string, rest: string)
    requires ValidScheme(sch)
    ensures CachePathFixed(sch + "://" + rest) == "/tmp/" + rest
  {
    SchemeOfSlashed(sch, rest);
    SlashedSlices(sch, rest);
  }

  lemma SchemeOfSlashed(sch: string, rest: string)
    requires ValidScheme(sch)
    ensures Scheme(sch + "://" + rest) == Lower(sch)
  {
    assert sch + "://" + rest == sch + ":" + ("//" + rest);
    SchemeOfPrefixed(sch, "//" + rest);
  }

  lemma SlashedSlices(sch: string, rest: string)
    ensures var url := sch + "://" + rest;
            url[..|sch|] == sch && url[|sch|..] == "://" + rest && url[|sch| + 3..] == rest
  {
  }

  /** The strip stops at index `k` when every character before it is in the
      set and the one at `k` is not. */
  lemma CacheRelativeAt(url: string, k: nat)
    requires k <= |url|
    requires forall j :: 0 <= j < k ==> url[j] in StripSet(url)
    requires k < |url| ==> url[k] !in StripSet(url)
    ensures CacheRelative(url) == url[k..]
  {
    StripCharsAt(StripSet(url), url, k);
  }

  lemma StripCharsAt(chars: string, url: string, k: nat)
    requires k <= |url|
    requires forall j :: 0 <= j < k ==> url[j] in chars
    requires k < |url| ==> url[k] !in chars
    ensures StripChars(chars, url) == url[k..]
  {
    var r := StripChars(chars, url);
    var m := |url| - |r|;
    assert r == url[m..];
  }

  lemma LowerHttp()
    ensures Lower("http") == "http"
  {
    var r := Lower("http");
    assert r[0] == 'h' && r[1] == 't' && r[2] == 't' && r[3] == 'p';
  }

  lemma SchemeHttp(rest: string)
    ensures StripSet("http:" + rest) == "http://"
  {
    assert "http" + ":" + rest == "http:" + rest;
    assert ValidScheme("http") by {
      assert forall j :: 0 <= j < 4 ==> IsSchemeChar("http"[j]);
    }
    SchemeOfPrefixed("http", rest);
    LowerHttp();
  }

  /** The cache path of an "http:" URL whose first `k` characters are
      letters of "http://" and whose next one is not. */
  lemma HttpCachePath(u: string, k: nat)
    requires StartsWith(u, "http:")
    requires k <= |u| && forall j :: 0 <= j < k ==> u[j] in "http://"
    requires k < |u| ==> u[k] !in "http://"
    ensures CachePath(u) == "/tmp/" + u[k..]
  {
    assert u == "http:" + u[5..];
    SchemeHttp(u[5..]);
    CacheRelativeAt(u, k);
    CachePathShape(u);
  }

  /** As written, the character-set strip also eats the host's leading
      letters when they are letters of the scheme: with the host
      "ports.ubuntu.com" the cache path starts "/tmp/orts.ubuntu.com". */
  lemma CachePathOverStrips(rest: string)
    requires rest == [] || rest[0] !in "http://"
    ensures CachePath("http://p" + rest) == "/tmp/" + rest
  {
    var url := "http://p" + rest;
    assert forall j :: 0 <= j < 8 ==> url[j] == "http://p"[j];
    assert url[..5] == "http:";
    assert url[8..] == rest;
    HttpCachePath(url, 8);
  }

  /** As written, two different hosts share one cache file: "http://t/x"
      and "http://x" both map to "/tmp/x". */
  lemma CachePathAliases(rest: string)
    requires rest == [] || rest[0] !in "http://"
    ensures CachePath("http://t/" + rest) == CachePath("http://" + rest) == "/tmp/" + rest
  {
    var u := "http://t/" + rest;
    assert forall j :: 0 <= j < 9 ==> u[j] == "http://t/"[j];
    assert u[..5] == "http:";
    assert u[9..] == rest;
    HttpCachePath(u, 9);
    var v := "http://" + rest;
    assert forall j :: 0 <= j < 7 ==> v[j] == "http://"[j];
    assert v[..5] == "http:";
    assert v[7..] == rest;
    HttpCachePath(v, 7);
  }

  /** The corrected mapping keeps everything from the first '/' after the
      scheme on, so a URL `p + "/" + x` (with `x` not starting with '/')
      maps to a path ending in `x`. */
  lemma CachePathFixedKeepsTail(url: string, p: string, x: string)
    requires url == p + "/" + x
    requires x == [] || x[0] != '/'
    ensures EndsWith(CachePathFixed(url), x)
  {
    var n := |Scheme(url)|;
    assert EndsWith(url, x) by { assert url[|url| - |x|..] == x; }
    if n > 0 && Lower(url[..n]) == Scheme(url) && StartsWith(url[n..], "://") {
      SchemeHasNoSlash(url);
      TailAfterScheme(url, p, x, n);
      EndsWithPrepend("/tmp/", url[n + 3..], x);
    } else {
      EndsWithPrepend("/tmp/", url, x);
    }
  }

  /** A URL that starts with its scheme holds no '/' in it: no scheme
      character, lower-cased or not, is a '/'. */
  lemma SchemeHasNoSlash(url: string)
    requires |Scheme(url)| <= |url| && Lower(url[..|Scheme(url)|]) == Scheme(url)
    ensures forall j :: 0 <= j < |Scheme(url)| ==> url[j] != '/'
  {
    var n := |Scheme(url)|;
    var c := Clean(url);
    forall j | 0 <= j < n ensures url[j] != '/' {
      assert IsSchemeChar(c[..n][j]);
      assert Scheme(url)[j] == LowerChar(c[..n][j]);
      assert Lower(url[..n])[j] == LowerChar(url[j]);
    }
  }

  /** Past a "://" that follows a slash-free scheme, the text still ends
      with what follows the first '/' after it. */
  lemma TailAfterScheme(url: string, p: string, x: string, n: nat)
    requires url == p + "/" + x && (x == [] || x[0] != '/')
    requires n + 3 <= |url| && url[n] == ':' && url[n + 1] == '/' && url[n + 2] == '/'
    requires forall j :: 0 <= j < n ==> url[j] != '/'
    ensures EndsWith(url[n + 3..], x)
  {
    assert url[|p|] == '/';
    assert n + 2 <= |p|;
    if n + 3 <= |p| {
      assert url[n + 3..] == p[n + 3..] + "/" + x;
    } else {
      assert url[n + 3..] == x;
    }
  }
}
