/** `mvn-list-artifacts.py`: list the artifacts shown on the pages of one
    mvnrepository.com category.  Page after page is fetched (ten artifacts
    per page), the artifact links of each page are collected into a set, and
    the listing ends at the first page without artifacts.

    The HTML tokenizer is not modelled: a page is given as the sequence of
    start tags it yields, each with its attributes in document order. */
module MvnListArtifacts {
  import opened Wrappers
  import opened Text
  import Decimal
  import Http

  const Host: string := "mvnrepository.com"

  /** The category table: each category's path below the host. */
  const CategoryPages: map<string, string> := map[
    "popular" := "popular",
    "aop-programming" := "open-source/aop-programming",
    "cache-implementations" := "open-source/cache-implementations",
    "cloud-computing-integration" := "open-source/cloud-computing-integration",
    "core-utilities" := "open-source/core-utilities",
    "collections" := "open-source/collections",
    "command-line-parsers" := "open-source/command-line-parsers",
    "date-time-utilities" := "open-source/date-time-utilities",
    "dependency-injection" := "open-source/dependency-injection",
    "eclipse-runtime" := "open-source/eclipse-runtime",
    "http-clients" := "open-source/http-clients",
    "io-utilities" := "open-source/io-utilities",
    "json-libraries" := "open-source/json-libraries",
    "logging-frameworks" := "open-source/logging-frameworks",
    "message-queue-clients" := "open-source/message-queue-clients",
    "object-serialization" := "open-source/object-serialization",
    "orm" := "open-source/orm",
    "testing-frameworks" := "open-source/testing-frameworks",
    "transactions" := "open-source/transactions",
    "web-apps" := "open-source/web-apps",
    "web-frameworks" := "open-source/web-frameworks",
    "web-servers" := "open-source/web-servers"
  ]

  // ---------------------------------------------------------------------
  // artifact links

  const ArtifactPrefix: string := "/artifact/"

  predicate IsSegment(s: string) {
    s != [] && '/' !in s
  }

  /** `re.match(r'^/artifact/([^/]+)/([^/]+)$', val)`: the whole value is the
      prefix and two non-empty '/'-free segments; the artifact is recorded
      as "group/artifact". */
  function ParseHref(val: string): (r: Option<string>)
    ensures r.Some? ==> ArtifactPrefix + r.value == val
    ensures r.Some? ==> exists g, a :: IsSegment(g) && IsSegment(a) && r.value == g + "/" + a
  {
    if !StartsWith(val, ArtifactPrefix) then None
    else
      var rest := val[|ArtifactPrefix|..];
      var i := Find(rest, '/');
      if i <= 0 || i == |rest| - 1 || '/' in rest[i + 1..] then None
      else
        SplitAt(rest, i);
        var g, a := rest[..i], rest[i + 1..];
        assert IsSegment(g) && IsSegment(a) && rest == g + "/" + a;
        assert val == ArtifactPrefix + rest;
        Some(rest)
  }

  lemma SplitAt(s: string, i: nat)
    requires i < |s| && s[i] == '/'
    ensures s == s[..i] + "/" + s[i + 1..]
  {
    assert s == s[..i] + [s[i]] + s[i + 1..];
  }

  /** Round trip, and the converse of `ParseHref`'s contract: the link of an
      artifact records that artifact, and the group and artifact ids can be
      read back from the record. */
  lemma ParseHrefOf(g: string, a: string)
    requires IsSegment(g) && IsSegment(a)
    ensures ParseHref(ArtifactPrefix + g + "/" + a) == Some(g + "/" + a)
    ensures var x := g + "/" + a; Find(x, '/') == |g| && x[..|g|] == g && x[|g| + 1..] == a
  {
    var val := ArtifactPrefix + g + "/" + a;
    var x := g + "/" + a;
    assert val == ArtifactPrefix + x;
    assert x == g + ['/'] + a;
    FindAfter(g, '/', a);
    assert val[|ArtifactPrefix|..] == x;
  }

  /** A start tag as the HTML parser reports it; an attribute written
      without a value has no value. */
  datatype StartTag = StartTag(name: string, attrs: seq<(string, Option<string>)>)

  /** `handle_starttag` for the attributes from `j` on: only `href`
      attributes of `a` tags count; a value-less `href` makes `re.match`
      raise. */
  function AddAttrs(acc: set<string>, attrs: seq<(string, Option<string>)>): (r: Result<set<string>>)
    ensures r.Ok? ==> acc <= r.value
    decreases |attrs|
  {
    if |attrs| == 0 then Ok(acc)
    else if attrs[0].0 != "href" then AddAttrs(acc, attrs[1..])
    else match attrs[0].1
      case None => Err(NotAString)
      case Some(val) =>
        var acc' := match ParseHref(val) case Some(x) => acc + {x} case None => acc;
        AddAttrs(acc', attrs[1..])
  }

  /** `ArtifactPageParser.feed`: the artifacts of a page's start tags. */
  function Feed(acc: set<string>, tags: seq<StartTag>): (r: Result<set<string>>)
    ensures r.Ok? ==> acc <= r.value
    decreases |tags|
  {
    if |tags| == 0 then Ok(acc)
    else if tags[0].name != "a" then Feed(acc, tags[1..])
    else match AddAttrs(acc, tags[0].attrs)
      case Err(e) => Err(e)
      case Ok(acc') => Feed(acc', tags[1..])
  }

  /** Reference definition: `x` is the artifact of some `href` of some `a`
      tag. */
  ghost predicate Links(tags: seq<StartTag>, x: string) {
    exists i, j :: 0 <= i < |tags| && tags[i].name == "a" && 0 <= j < |tags[i].attrs|
                   && tags[i].attrs[j].0 == "href" && tags[i].attrs[j].1 == Some(ArtifactPrefix + x)
                   && ParseHref(ArtifactPrefix + x).Some?
  }

  ghost predicate AttrLinks(attrs: seq<(string, Option<string>)>, x: string) {
    exists j :: 0 <= j < |attrs| && attrs[j].0 == "href" && attrs[j].1 == Some(ArtifactPrefix + x)
                && ParseHref(ArtifactPrefix + x).Some?
  }

  /** An `href` the parser cannot take: present without a value. */
  predicate ValuelessHref(attrs: seq<(string, Option<string>)>) {
    exists j :: 0 <= j < |attrs| && attrs[j].0 == "href" && attrs[j].1.None?
  }

  lemma {:induction false} AddAttrsSpec(acc: set<string>, attrs: seq<(string, Option<string>)>)
    ensures AddAttrs(acc, attrs).Ok? <==> !ValuelessHref(attrs)
    ensures AddAttrs(acc, attrs).Ok? ==> forall x :: x in AddAttrs(acc, attrs).value <==> x in acc || AttrLinks(attrs, x)
    decreases |attrs|
  {
    if |attrs| > 0 {
      var tail := attrs[1..];
      assert forall j :: 0 <= j < |tail| ==> tail[j] == attrs[j + 1];
      assert ValuelessHref(attrs) <==> (attrs[0].0 == "href" && attrs[0].1.None?) || ValuelessHref(tail) by {
        if ValuelessHref(attrs) {
          var j :| 0 <= j < |attrs| && attrs[j].0 == "href" && attrs[j].1.None?;
          if j > 0 { assert tail[j - 1] == attrs[j]; }
        }
      }
      if attrs[0].0 != "href" {
        AddAttrsSpec(acc, tail);
        AttrLinksTail(attrs, acc, acc);
      } else if attrs[0].1.Some? {
        var val := attrs[0].1.value;
        var acc' := match ParseHref(val) case Some(x) => acc + {x} case None => acc;
        AddAttrsSpec(acc', tail);
        AttrLinksTail(attrs, acc, acc');
      }
    }
  }

  lemma AttrLinksTail(attrs: seq<(string, Option<string>)>, acc: set<string>, acc': set<string>)
    requires |attrs| > 0
    requires attrs[0].0 != "href" ==> acc' == acc
    requires attrs[0].0 == "href" ==>
               (attrs[0].1.Some? && acc' == match ParseHref(attrs[0].1.value) case Some(x) => acc + {x} case None => acc)
    ensures forall x :: x in acc' || AttrLinks(attrs[1..], x) <==> x in acc || AttrLinks(attrs, x)
  {
    forall x ensures x in acc' || AttrLinks(attrs[1..], x) <==> x in acc || AttrLinks(attrs, x) {
      AttrLinksFromTail(attrs, x);
      AttrLinksToTail(attrs, x);
      if x in acc' && x !in acc {
        HeadAttrLinks(attrs, x);
      }
    }
  }

  lemma AttrLinksFromTail(attrs: seq<(string, Option<string>)>, x: string)
    requires |attrs| > 0
    ensures AttrLinks(attrs[1..], x) ==> AttrLinks(attrs, x)
  {
    var tail := attrs[1..];
    if AttrLinks(tail, x) {
      var j :| 0 <= j < |tail| && tail[j].0 == "href" && tail[j].1 == Some(ArtifactPrefix + x)
               && ParseHref(ArtifactPrefix + x).Some?;
      assert attrs[j + 1] == tail[j];
    }
  }

  lemma AttrLinksToTail(attrs: seq<(string, Option<string>)>, x: string)
    requires |attrs| > 0
    ensures AttrLinks(attrs, x) ==>
              AttrLinks(attrs[1..], x) || (attrs[0].0 == "href" && attrs[0].1.Some? && ParseHref(attrs[0].1.value) == Some(x))
  {
    var tail := attrs[1..];
    if AttrLinks(attrs, x) {
      var j :| 0 <= j < |attrs| && attrs[j].0 == "href" && attrs[j].1 == Some(ArtifactPrefix + x)
               && ParseHref(ArtifactPrefix + x).Some?;
      if j > 0 { assert tail[j - 1] == attrs[j]; }
    }
  }

  lemma HeadAttrLinks(attrs: seq<(string, Option<string>)>, x: string)
    requires |attrs| > 0 && attrs[0].0 == "href" && attrs[0].1.Some? && ParseHref(attrs[0].1.value) == Some(x)
    ensures AttrLinks(attrs, x)
  {
    assert attrs[0].1 == Some(ArtifactPrefix + x);
  }

  /** A page whose `a` tags all have valued `href`s. */
  predicate Parsable(tags: seq<StartTag>) {
    forall i :: 0 <= i < |tags| && tags[i].name == "a" ==> !ValuelessHref(tags[i].attrs)
  }

  /** The parser collects exactly the linked artifacts, and fails exactly on
      a value-less `href` of an `a` tag. */
  lemma {:induction false} FeedSpec(acc: set<string>, tags: seq<StartTag>)
    ensures Feed(acc, tags).Ok? <==> Parsable(tags)
    ensures Feed(acc, tags).Ok? ==> forall x :: x in Feed(acc, tags).value <==> x in acc || Links(tags, x)
    decreases |tags|
  {
    if |tags| > 0 {
      var tail := tags[1..];
      assert forall i :: 0 <= i < |tail| ==> tail[i] == tags[i + 1];
      assert Parsable(tags) <==> (tags[0].name == "a" ==> !ValuelessHref(tags[0].attrs)) && Parsable(tail) by {
        if !Parsable(tags) {
          var i :| 0 <= i < |tags| && tags[i].name == "a" && ValuelessHref(tags[i].attrs);
          if i > 0 { assert tail[i - 1] == tags[i]; }
        }
      }
      if tags[0].name != "a" {
        FeedSpec(acc, tail);
        LinksTail(tags, acc, acc);
      } else {
        AddAttrsSpec(acc, tags[0].attrs);
        if AddAttrs(acc, tags[0].attrs).Ok? {
          var acc' := AddAttrs(acc, tags[0].attrs).value;
          FeedSpec(acc', tail);
          LinksTail(tags, acc, acc');
        }
      }
    }
  }

  lemma LinksTail(tags: seq<StartTag>, acc: set<string>, acc': set<string>)
    requires |tags| > 0
    requires tags[0].name != "a" ==> acc' == acc
    requires tags[0].name == "a" ==> forall x :: x in acc' <==> x in acc || AttrLinks(tags[0].attrs, x)
    ensures forall x :: x in acc' || Links(tags[1..], x) <==> x in acc || Links(tags, x)
  {
    forall x ensures x in acc' || Links(tags[1..], x) <==> x in acc || Links(tags, x) {
      LinksFromTail(tags, x);
      LinksToTail(tags, x);
      if tags[0].name == "a" && AttrLinks(tags[0].attrs, x) {
        LinksFromHead(tags, x);
      }
    }
  }

  lemma LinksFromTail(tags: seq<StartTag>, x: string)
    requires |tags| > 0
    ensures Links(tags[1..], x) ==> Links(tags, x)
  {
    var tail := tags[1..];
    if Links(tail, x) {
      var i, j :| 0 <= i < |tail| && tail[i].name == "a" && 0 <= j < |tail[i].attrs|
                  && tail[i].attrs[j].0 == "href" && tail[i].attrs[j].1 == Some(ArtifactPrefix + x)
                  && ParseHref(ArtifactPrefix + x).Some?;
      assert tags[i + 1] == tail[i];
    }
  }

  lemma LinksToTail(tags: seq<StartTag>, x: string)
    requires |tags| > 0
    ensures Links(tags, x) ==> Links(tags[1..], x) || (tags[0].name == "a" && AttrLinks(tags[0].attrs, x))
  {
    var tail := tags[1..];
    if Links(tags, x) {
      var i, j :| 0 <= i < |tags| && tags[i].name == "a" && 0 <= j < |tags[i].attrs|
                  && tags[i].attrs[j].0 == "href" && tags[i].attrs[j].1 == Some(ArtifactPrefix + x)
                  && ParseHref(ArtifactPrefix + x).Some?;
      if i > 0 { assert tail[i - 1] == tags[i]; }
    }
  }

  lemma LinksFromHead(tags: seq<StartTag>, x: string)
    requires |tags| > 0 && tags[0].name == "a" && AttrLinks(tags[0].attrs, x)
    ensures Links(tags, x)
  {
    var j :| 0 <= j < |tags[0].attrs| && tags[0].attrs[j].0 == "href" && tags[0].attrs[j].1 == Some(ArtifactPrefix + x)
             && ParseHref(ArtifactPrefix + x).Some?;
  }

  /** The artifacts are a set: feeding a page a second time adds nothing. */
  lemma FeedTwice(tags: seq<StartTag>)
    requires Parsable(tags)
    ensures Feed({}, tags).Ok? && Feed(Feed({}, tags).value, tags) == Feed({}, tags)
  {
    FeedSpec({}, tags);
    var once := Feed({}, tags).value;
    FeedSpec(once, tags);
    assert Feed(once, tags).value == once;
  }

  // ---------------------------------------------------------------------
  // one page

  /** The URL `artifacts_get` requests for a page of a category. */
  function PageUrl(path: string, page: int): string {
    "https://" + Host + "/" + path + "?p=" + Decimal.IntToString(page)
  }

  /** `artifacts_get`: a 404 past the first page ends the pagination, any
      other status but 200 is an error (http.client does not follow
      redirects). */
  function ArtifactsGet(server: Http.Server, html: string -> seq<StartTag>, category: string, page: int): (r: Result<set<string>>)
    ensures category !in CategoryPages ==> r == Err(UnknownCategory(category))
    ensures category in CategoryPages ==>
              var resp := server(PageUrl(CategoryPages[category], page));
              (resp.status == 404 && page > 1 ==> r == Ok({}))
              && (resp.status != 200 && !(resp.status == 404 && page > 1) ==> r == Err(HttpStatus(resp.status)))
              && (resp.status == 200 ==> r == Feed({}, html(resp.body)))
  {
    if category !in CategoryPages then Err(UnknownCategory(category))
    else
      var resp := server(PageUrl(CategoryPages[category], page));
      if resp.status == 404 && page > 1 then Ok({})
      else if resp.status != 200 then Err(HttpStatus(resp.status))
      else Feed({}, html(resp.body))
  }

  // ---------------------------------------------------------------------
  // the listing

  /** `int(math.ceil(n / 10))`: Python's `ceil` of the quotient, which for
      a negative count is rounded towards zero. */
  function NumPages(n: int): (k: int)
    ensures n >= 0 ==> k == (n + 9) / 10
    ensures n >= 0 ==> 10 * (k - 1) < n <= 10 * k || (n == 0 && k == 0)
    ensures n <= 0 ==> k <= 0
  {
    -((-n) / 10)
  }

  /** Pages requested, and why the listing ended. */
  datatype Listing = Listing(pages: seq<set<string>>, failure: Option<Error>)

  /** The main loop from page `page` to `last`: print every page's
      artifacts, stop quietly at the first empty page, stop with the error
      of the first failing request. */
  function ListFrom(get: int -> Result<set<string>>, page: int, last: int): (r: Listing)
    ensures |r.pages| <= if last >= page then last - page + 1 else 0
    decreases last - page + 1
  {
    if page > last then Listing([], None)
    else match get(page)
      case Err(e) => Listing([], Some(e))
      case Ok(found) =>
        if found == {} then Listing([], None)
        else
          var rest := ListFrom(get, page + 1, last);
          Listing([found] + rest.pages, rest.failure)
  }

  /** Every printed page is the non-empty answer for its page number, in
      page order. */
  lemma {:induction false} ListedPages(get: int -> Result<set<string>>, page: int, last: int)
    ensures forall i :: 0 <= i < |ListFrom(get, page, last).pages| ==>
              get(page + i) == Ok(ListFrom(get, page, last).pages[i]) && ListFrom(get, page, last).pages[i] != {}
    decreases last - page + 1
  {
    if page <= last && get(page).Ok? && get(page).value != {} {
      ListedPages(get, page + 1, last);
      var r := ListFrom(get, page, last);
      var rest := ListFrom(get, page + 1, last);
      forall i | 0 < i < |r.pages| ensures get(page + i) == Ok(r.pages[i]) && r.pages[i] != {} {
        var k := i - 1;
        assert r.pages[i] == rest.pages[k];
        assert get(page + 1 + k) == Ok(rest.pages[k]) && rest.pages[k] != {};
      }
    }
  }

  /** How the listing ends: after the last page, or at the first page that
      is empty (quietly) or fails (with its error). */
  lemma {:induction false} ListingEnds(get: int -> Result<set<string>>, page: int, last: int)
    ensures var r := ListFrom(get, page, last);
            var next := page + |r.pages|;
            (next > last ==> r.failure.None?)
            && (next <= last ==> (get(next) == Ok({}) && r.failure.None?)
                                 || (get(next).Err? && r.failure == Some(get(next).error)))
    decreases last - page + 1
  {
    if page <= last && get(page).Ok? && get(page).value != {} {
      ListingEnds(get, page + 1, last);
      var r := ListFrom(get, page, last);
      assert page + |r.pages| == (page + 1) + |ListFrom(get, page + 1, last).pages|;
    }
  }

  /** The script for a requested number of artifacts: pages 1 to
      `NumPages(n)`. */
  function Main(server: Http.Server, html: string -> seq<StartTag>, category: string, n: int): (r: Listing)
    ensures n <= 0 ==> r == Listing([], None)
    ensures |r.pages| <= if n > 0 then (n + 9) / 10 else 0
  {
    ListFrom(PageGetter(server, html, category), 1, NumPages(n))
  }

  function PageGetter(server: Http.Server, html: string -> seq<StartTag>, category: string): int -> Result<set<string>> {
    page => ArtifactsGet(server, html, category, page)
  }

  /** A full listing, when every requested page has artifacts, prints
      `NumPages(n)` pages, the answers for pages 1, 2, ... in order. */
  lemma FullListing(server: Http.Server, html: string -> seq<StartTag>, category: string, n: int)
    requires n > 0
    requires forall p :: 1 <= p <= NumPages(n) ==>
               ArtifactsGet(server, html, category, p).Ok? && ArtifactsGet(server, html, category, p).value != {}
    ensures |Main(server, html, category, n).pages| == (n + 9) / 10
    ensures Main(server, html, category, n).failure.None?
    ensures forall i :: 0 <= i < |Main(server, html, category, n).pages| ==>
              Main(server, html, category, n).pages[i] == ArtifactsGet(server, html, category, i + 1).value
  {
    var get := PageGetter(server, html, category);
    assert forall p :: get(p) == ArtifactsGet(server, html, category, p);
    ListedPages(get, 1, NumPages(n));
    ListingEnds(get, 1, NumPages(n));
  }

  /** The first page's 404 is an error, not the end of the listing. */
  lemma FirstPageNotFound(server: Http.Server, html: string -> seq<StartTag>, category: string, n: int)
    requires n > 0 && category in CategoryPages
    requires server(PageUrl(CategoryPages[category], 1)).status == 404
    ensures Main(server, html, category, n) == Listing([], Some(HttpStatus(404)))
  {
  }
}
