/** `nvd.py`: query NVD's CVE API and collect every result page.

    A query URL is fetched page by page: the page at `offset` is requested
    with `&startIndex=<offset>&resultsPerPage=<size>` appended, its
    vulnerabilities are appended to the result, and the next page is
    requested while `offset + size - 1 < totalResults`.  The network (and
    the JSON decoding of a page) is a `Fetch` function from the paged URL to
    the page it yields or the error raised; the loop has no bound of its own,
    so the model takes the number of further pages allowed as fuel. */
module Nvd {
  import opened Wrappers
  import opened Text
  import opened Decimal
  import Http

  /** `PAGE_SIZE`, the default of `--page-size`. */
  const DefaultPageSize: int := 2000

  /** One entry of a page's `vulnerabilities` array, kept as its JSON text. */
  datatype Vuln = Vuln(json: string)

  /** The two fields of a decoded page the script reads. */
  datatype Page = Page(vulnerabilities: seq<Vuln>, totalResults: int)

  /** A paged request: the page it yields, or the error it raises. */
  type Fetch = string -> Result<Page>

  // ---------------------------------------------------------------------
  // paged URLs

  const StartKey: string := "&startIndex="
  const SizeKey: string := "resultsPerPage="

  /** The text appended to the query URL for one page. */
  function PagingSuffix(offset: int, pageSize: int): string {
    StartKey + (IntToString(offset) + ("&" + (SizeKey + IntToString(pageSize))))
  }

  /** `get_cve_page`'s `paged_url`. */
  function PagedUrl(url: string, offset: int, pageSize: int): (u: string)
    ensures StartsWith(u, url)
    ensures u[|url|..] == PagingSuffix(offset, pageSize)
  {
    url + PagingSuffix(offset, pageSize)
  }

  /** Reads the offset and page size back from a paging suffix. */
  function ParsePaging(s: string): Option<(int, int)> {
    if !StartsWith(s, StartKey) then None
    else
      var rest := s[|StartKey|..];
      var i := Find(rest, '&');
      if i < 0 then None
      else
        var a := rest[..i];
        var b := rest[i + 1..];
        if !StartsWith(b, SizeKey) then None
        else
          var c := b[|SizeKey|..];
          if IsIntText(a) && IsIntText(c) then Some((ParseInt(a), ParseInt(c))) else None
  }

  lemma NoAmpersand(n: int)
    ensures '&' !in IntToString(n)
  {
    var s := IntToString(n);
    if n < 0 {
      assert s[1..] == NatToString(-n);
      forall j | 0 <= j < |s| ensures s[j] != '&' {
        if j > 0 { assert IsDigit(s[1..][j - 1]); }
      }
    } else {
      forall j | 0 <= j < |s| ensures s[j] != '&' { assert IsDigit(NatToString(n)[j]); }
    }
  }

  /** The offset and page size can be read back from the paging suffix. */
  lemma ParsePagingSuffix(offset: int, pageSize: int)
    ensures ParsePaging(PagingSuffix(offset, pageSize)) == Some((offset, pageSize))
  {
    var o, p := IntToString(offset), IntToString(pageSize);
    var s := PagingSuffix(offset, pageSize);
    var rest := o + ("&" + (SizeKey + p));
    assert s[|StartKey|..] == rest;
    NoAmpersand(offset);
    assert rest == o + ['&'] + (SizeKey + p);
    FindAfter(o, '&', SizeKey + p);
    assert (SizeKey + p)[|SizeKey|..] == p;
    IntToStringRoundTrip(offset);
    IntToStringRoundTrip(pageSize);
  }

  /** Different pages of one query are requested with different URLs. */
  lemma PagedUrlInjective(url: string, o1: int, p1: int, o2: int, p2: int)
    requires PagedUrl(url, o1, p1) == PagedUrl(url, o2, p2)
    ensures o1 == o2 && p1 == p2
  {
    ParsePagingSuffix(o1, p1);
    ParsePagingSuffix(o2, p2);
  }

  // ---------------------------------------------------------------------
  // fetching one page

  /** `get_json`: `get` speaks TLS to every host and follows redirects,
      handing the `Location` header to itself as it is; a final status other
      than 200 raises `RuntimeError('request failed')`.  `decode` stands for
      `json.loads` and the field lookups.  The page is the decoding of the
      final 200 answer's body. */
  function GetJson(server: Http.Server, url: string, fuel: nat, decode: string -> Page): (r: Result<Page>)
    ensures var f := Http.Follow(server, url, fuel, Http.Passed);
            && (r.Ok? <==> f.Ok? && f.value.status == 200)
            && (r.Ok? ==> r.value == decode(f.value.body))
            && (f.Ok? && f.value.status != 200 ==> r == Err(HttpStatus(f.value.status)))
            && (f.Err? ==> r == Err(f.error))
  {
    match Http.GetFollowing(server, url, fuel, Http.Passed)
    case Ok(body) => Ok(decode(body))
    case Err(e) => Err(e)
  }

  /** Along a chain of `k` redirects that each carry `Location`, the page is
      the decoded body of a final 200; any other final status fails the
      request with that status, and a redirect without `Location` fails it
      with the `TypeError`. */
  lemma GetJsonAlongChain(server: Http.Server, url: string, fuel: nat, decode: string -> Page, k: nat)
    requires k <= fuel
    requires forall j :: 0 <= j < k ==> Http.Hops(server(Http.Chain(server, url, j)), Http.Passed)
    ensures var last := server(Http.Chain(server, url, k));
            !Http.IsRedirect(last.status) ==>
              GetJson(server, url, fuel, decode)
                == if last.status == 200 then Ok(decode(last.body)) else Err(HttpStatus(last.status))
    ensures var last := server(Http.Chain(server, url, k));
            Http.IsRedirect(last.status) && last.location.None? ==>
              GetJson(server, url, fuel, decode) == Err(MissingLocation)
  {
    var last := server(Http.Chain(server, url, k));
    if !Http.IsRedirect(last.status) {
      Http.GetFollowingFinds(server, url, fuel, Http.Passed, k);
    } else if last.location.None? {
      Http.FollowMissingLocation(server, url, fuel, k);
    }
  }

  /** The requests of the script against a server. */
  function ServerFetch(server: Http.Server, fuel: nat, decode: string -> Page): Fetch {
    u => GetJson(server, u, fuel, decode)
  }

  // ---------------------------------------------------------------------
  // collecting the pages

  /** Which end-of-results test to apply: the script's, or the corrected one
      that stops once the page just fetched reaches the last result. */
  datatype Stop = AsWritten | Corrected

  /** `has_more` of `get_cve_page` as written, and the corrected test. */
  predicate More(stop: Stop, offset: int, pageSize: int, total: int) {
    match stop
    case AsWritten => offset + pageSize - 1 < total
    case Corrected => offset + pageSize < total
  }

  /** The request for the page at an offset of one query. */
  type Pager = int -> Result<Page>

  /** `get_cve_page`'s request: the paged URL of `url` with the page size. */
  function PagerOf(fetch: Fetch, url: string, pageSize: int): Pager {
    o => fetch(PagedUrl(url, o, pageSize))
  }

  /** What a run of the loop did: the offsets of the pages requested, in
      order, and the vulnerabilities collected or the error that ended it. */
  datatype Run = Run(offsets: seq<int>, outcome: Result<seq<Vuln>>)

  /** Puts the requests and results of earlier pages in front of a run. */
  function Prepend(vulns: seq<Vuln>, offsets: seq<int>, run: Run): (r: Run)
    ensures r.offsets == offsets + run.offsets
    ensures r.outcome.Ok? <==> run.outcome.Ok?
  {
    match run.outcome
    case Ok(rest) => Run(offsets + run.offsets, Ok(vulns + rest))
    case Err(e) => Run(offsets + run.offsets, Err(e))
  }

  /** `all_cves` from `offset` on, with at most `fuel` further pages after
      the one at `offset`.  A failing request ends the run with its error. */
  function Collect(pager: Pager, stop: Stop, offset: int, pageSize: int, fuel: nat): (r: Run)
    ensures |r.offsets| >= 1 && r.offsets[0] == offset
    decreases fuel
  {
    match pager(offset)
    case Err(e) => Run([offset], Err(e))
    case Ok(page) =>
      if !More(stop, offset, pageSize, page.totalResults) then Run([offset], Ok(page.vulnerabilities))
      else if fuel == 0 then Run([offset], Err(PageLimit))
      else Prepend(page.vulnerabilities, [offset], Collect(pager, stop, offset + pageSize, pageSize, fuel - 1))
  }

  lemma PrependPrepend(v1: seq<Vuln>, o1: seq<int>, v2: seq<Vuln>, o2: seq<int>, run: Run)
    ensures Prepend(v1, o1, Prepend(v2, o2, run)) == Prepend(v1 + v2, o1 + o2, run)
  {
    assert o1 + (o2 + run.offsets) == (o1 + o2) + run.offsets;
    if run.outcome.Ok? {
      assert v1 + (v2 + run.outcome.value) == (v1 + v2) + run.outcome.value;
    }
  }

  lemma PrependNothing(run: Run)
    ensures Prepend([], [], run) == run
  {
    assert [] + run.offsets == run.offsets;
    if run.outcome.Ok? {
      assert [] + run.outcome.value == run.outcome.value;
    }
  }

  /** `all_cves`: the loop, starting at offset 0. */
  method AllCves(pager: Pager, stop: Stop, pageSize: int, fuel: nat) returns (run: Run)
    ensures run == Collect(pager, stop, 0, pageSize, fuel)
  {
    var cves: seq<Vuln> := [];
    var offsets: seq<int> := [];
    var offset := 0;
    var left := fuel;
    PrependNothing(Collect(pager, stop, 0, pageSize, fuel));
    while true
      invariant Collect(pager, stop, 0, pageSize, fuel)
                == Prepend(cves, offsets, Collect(pager, stop, offset, pageSize, left))
      decreases left
    {
      var page := pager(offset);
      if page.Err? {
        return Prepend(cves, offsets, Run([offset], Err(page.error)));
      }
      var more := More(stop, offset, pageSize, page.value.totalResults);
      if !more {
        return Prepend(cves, offsets, Run([offset], Ok(page.value.vulnerabilities)));
      }
      if left == 0 {
        return Prepend(cves, offsets, Run([offset], Err(PageLimit)));
      }
      PrependPrepend(cves, offsets, page.value.vulnerabilities, [offset],
                     Collect(pager, stop, offset + pageSize, pageSize, left - 1));
      cves := cves + page.value.vulnerabilities;
      offsets := offsets + [offset];
      offset := offset + pageSize;
      left := left - 1;
    }
  }

  /** The pages are requested at offsets 0, size, 2 * size, ... in turn. */
  lemma {:induction false} CollectOffsets(pager: Pager, stop: Stop, offset: int, pageSize: int, fuel: nat)
    ensures forall i :: 0 <= i < |Collect(pager, stop, offset, pageSize, fuel).offsets| ==>
              Collect(pager, stop, offset, pageSize, fuel).offsets[i] == offset + i * pageSize
    decreases fuel
  {
    var r := Collect(pager, stop, offset, pageSize, fuel);
    var f := pager(offset);
    if f.Ok? && More(stop, offset, pageSize, f.value.totalResults) && fuel > 0 {
      var tail := Collect(pager, stop, offset + pageSize, pageSize, fuel - 1);
      CollectOffsets(pager, stop, offset + pageSize, pageSize, fuel - 1);
      assert forall j :: 0 <= j < |tail.offsets| ==> tail.offsets[j] == offset + pageSize + j * pageSize;
      assert r.offsets == [offset] + tail.offsets;
      forall i | 0 <= i < |r.offsets| ensures r.offsets[i] == offset + i * pageSize {
        if i > 0 {
          assert r.offsets[i] == tail.offsets[i - 1];
          assert (i - 1) * pageSize + pageSize == i * pageSize;
        }
      }
    } else {
      assert |r.offsets| == 1;
    }
  }

  /** The vulnerabilities of the pages at `offsets`, in order; `None` when
      one of those requests fails. */
  function PagesAt(pager: Pager, offsets: seq<int>): Option<seq<Vuln>>
    decreases |offsets|
  {
    if |offsets| == 0 then Some([])
    else match pager(offsets[0])
      case Err(_) => None
      case Ok(page) =>
        match PagesAt(pager, offsets[1..])
        case None => None
        case Some(rest) => Some(page.vulnerabilities + rest)
  }

  /** A successful run returns the vulnerabilities of every page it
      requested, in the order of the requests, and nothing else. */
  lemma {:induction false} CollectConcatenates(pager: Pager, stop: Stop, offset: int, pageSize: int, fuel: nat)
    ensures var r := Collect(pager, stop, offset, pageSize, fuel);
            r.outcome.Ok? ==> PagesAt(pager, r.offsets) == Some(r.outcome.value)
    decreases fuel
  {
    var r := Collect(pager, stop, offset, pageSize, fuel);
    var f := pager(offset);
    if f.Ok? && More(stop, offset, pageSize, f.value.totalResults) && fuel > 0 {
      var tail := Collect(pager, stop, offset + pageSize, pageSize, fuel - 1);
      CollectConcatenates(pager, stop, offset + pageSize, pageSize, fuel - 1);
      assert r.offsets[1..] == tail.offsets;
    } else if f.Ok? && !More(stop, offset, pageSize, f.value.totalResults) {
      assert r.offsets == [offset];
      assert r.offsets[1..] == [];
      assert f.value.vulnerabilities + [] == f.value.vulnerabilities;
    }
  }

  /** A failing request ends the run: every earlier request succeeded, and
      the failing one's error is the run's. */
  lemma {:induction false} CollectStopsAtError(pager: Pager, stop: Stop, offset: int, pageSize: int, fuel: nat)
    ensures var r := Collect(pager, stop, offset, pageSize, fuel);
            forall i :: 0 <= i < |r.offsets| - 1 ==> pager(r.offsets[i]).Ok?
    ensures var r := Collect(pager, stop, offset, pageSize, fuel);
            var last := pager(r.offsets[|r.offsets| - 1]);
            last.Err? ==> r.outcome == Err(last.error)
    decreases fuel
  {
    var r := Collect(pager, stop, offset, pageSize, fuel);
    var f := pager(offset);
    if f.Ok? && More(stop, offset, pageSize, f.value.totalResults) && fuel > 0 {
      var tail := Collect(pager, stop, offset + pageSize, pageSize, fuel - 1);
      CollectStopsAtError(pager, stop, offset + pageSize, pageSize, fuel - 1);
      assert r.offsets == [offset] + tail.offsets;
      forall i | 0 <= i < |r.offsets| - 1 ensures pager(r.offsets[i]).Ok? {
        if i > 0 { assert r.offsets[i] == tail.offsets[i - 1]; }
      }
      assert r.offsets[|r.offsets| - 1] == tail.offsets[|tail.offsets| - 1];
    } else {
      assert r.offsets == [offset];
    }
  }

  // ---------------------------------------------------------------------
  // how many pages

  /** The server reports the same `totalResults` on every page. */
  ghost predicate ConstantTotal(pager: Pager, total: int) {
    forall o :: pager(o).Ok? && pager(o).value.totalResults == total
  }

  lemma MulLeIffLeDiv(x: int, p: int, t: int)
    requires p >= 1
    ensures x * p <= t <==> x <= t / p
  {
    var q, m := t / p, t % p;
    assert t == q * p + m && 0 <= m < p;
    if x <= q {
      MulMonotone(x, q, p);
    } else {
      MulMonotone(q + 1, x, p);
      assert (q + 1) * p == q * p + p;
    }
  }

  lemma MulMonotone(a: int, b: int, p: int)
    requires a <= b && p >= 0
    ensures a * p <= b * p
  {
    assert b * p - a * p == (b - a) * p;
  }

  /** The last page index the test lets the loop reach: from page index `k`
      (offset `k * size`) the loop asks for another page exactly while
      `k < Bound`. */
  function Bound(stop: Stop, pageSize: int, total: int): int
    requires pageSize >= 1
  {
    match stop
    case AsWritten => total / pageSize
    case Corrected => (total - 1) / pageSize
  }

  lemma MoreBelowBound(stop: Stop, k: int, pageSize: int, total: int)
    requires pageSize >= 1
    ensures More(stop, k * pageSize, pageSize, total) <==> k < Bound(stop, pageSize, total)
  {
    assert k * pageSize + pageSize == (k + 1) * pageSize;
    match stop
    case AsWritten => MulLeIffLeDiv(k + 1, pageSize, total);
    case Corrected => MulLeIffLeDiv(k + 1, pageSize, total - 1);
  }

  function Min(a: int, b: int): int { if a <= b then a else b }
  function Max(a: int, b: int): int { if a <= b then b else a }

  /** With a constant total, from page index `k` the loop makes
      `Bound - k + 1` requests (at least one) and succeeds, unless the fuel
      runs out first. */
  lemma {:induction false} PagesFrom(pager: Pager, stop: Stop, k: int, pageSize: int, total: int, fuel: nat)
    requires pageSize >= 1 && ConstantTotal(pager, total)
    ensures var r := Collect(pager, stop, k * pageSize, pageSize, fuel);
            var need := Max(Bound(stop, pageSize, total) - k, 0);
            |r.offsets| == Min(need, fuel) + 1 && (r.outcome.Ok? <==> need <= fuel)
    decreases fuel
  {
    var offset := k * pageSize;
    var f := pager(offset);
    assert f.Ok? && f.value.totalResults == total;
    MoreBelowBound(stop, k, pageSize, total);
    var b := Bound(stop, pageSize, total);
    var r := Collect(pager, stop, offset, pageSize, fuel);
    if b <= k {
      assert r == Run([offset], Ok(f.value.vulnerabilities));
    } else if fuel == 0 {
      assert r == Run([offset], Err(PageLimit));
    } else {
      var next := (k + 1) * pageSize;
      assert offset + pageSize == next;
      PagesFrom(pager, stop, k + 1, pageSize, total, fuel - 1);
      var tail := Collect(pager, stop, next, pageSize, fuel - 1);
      assert r == Prepend(f.value.vulnerabilities, [offset], tail);
      assert |tail.offsets| == Min(Max(b - (k + 1), 0), fuel - 1) + 1;
    }
  }

  /** The script as written makes `total / size + 1` requests: one page more
      than needed whenever the size divides the total, an empty page for an
      empty result included. */
  lemma PageCountAsWritten(pager: Pager, pageSize: int, total: int, fuel: nat)
    requires pageSize >= 1 && total >= 0 && ConstantTotal(pager, total)
    requires fuel >= total / pageSize
    ensures var r := Collect(pager, AsWritten, 0, pageSize, fuel);
            r.outcome.Ok? && |r.offsets| == total / pageSize + 1
  {
    assert 0 * pageSize == 0;
    PagesFrom(pager, AsWritten, 0, pageSize, total, fuel);
  }

  /** Concretely: 4000 results in pages of 2000 take three requests, the
      third for the empty page at offset 4000. */
  lemma ExtraPageWhenDivisible(pager: Pager, fuel: nat)
    requires ConstantTotal(pager, 4000) && fuel >= 2
    ensures var r := Collect(pager, AsWritten, 0, DefaultPageSize, fuel);
            r.outcome.Ok? && r.offsets == [0, 2000, 4000]
  {
    PageCountAsWritten(pager, DefaultPageSize, 4000, fuel);
    CollectOffsets(pager, AsWritten, 0, DefaultPageSize, fuel);
  }

  /** The corrected test makes exactly `ceil(total / size)` requests, and one
      for an empty result. */
  lemma PageCountCorrected(pager: Pager, pageSize: int, total: int, fuel: nat)
    requires pageSize >= 1 && total >= 0 && ConstantTotal(pager, total)
    requires fuel >= total / pageSize
    ensures var r := Collect(pager, Corrected, 0, pageSize, fuel);
            r.outcome.Ok? && |r.offsets| == (if total == 0 then 1 else (total + pageSize - 1) / pageSize)
  {
    assert 0 * pageSize == 0;
    PagesFrom(pager, Corrected, 0, pageSize, total, fuel);
    CeilingBound(pageSize, total);
  }

  lemma MulAtLeast(d: int, p: int)
    requires p >= 1
    ensures d >= 1 ==> d * p >= p
    ensures d <= -1 ==> d * p <= -p
  {
    if d >= 1 {
      assert d * p == (d - 1) * p + p;
      assert (d - 1) * p >= 0;
    } else if d <= -1 {
      assert d * p == -((-d - 1) * p) - p;
      assert (-d - 1) * p >= 0;
    }
  }

  lemma DivUnique(a: int, p: int, q: int, m: int)
    requires p >= 1 && a == q * p + m && 0 <= m < p
    ensures a / p == q
  {
    var q', m' := a / p, a % p;
    assert a == q' * p + m' && 0 <= m' < p;
    assert (q - q') * p == m' - m;
    MulAtLeast(q - q', p);
  }

  lemma CeilingBound(p: int, t: int)
    requires p >= 1 && t >= 0
    ensures (t - 1) / p <= t / p
    ensures t > 0 ==> (t - 1) / p + 1 == (t + p - 1) / p
    ensures t == 0 ==> (t - 1) / p == -1
  {
    MulLeIffLeDiv((t - 1) / p, p, t);
    var q := (t - 1) / p;
    var m := (t - 1) % p;
    assert t - 1 == q * p + m;
    assert q * p <= t;
    if t > 0 {
      assert t + p - 1 == (q + 1) * p + m;
      DivUnique(t + p - 1, p, q + 1, m);
    } else {
      DivUnique(-1, p, -1, p - 1);
    }
  }

  /** Every page the corrected loop requests for a non-empty result starts
      before the end of the results. */
  lemma CorrectedRequestsOnlyNonEmptyPages(pager: Pager, pageSize: int, total: int, fuel: nat)
    requires pageSize >= 1 && total >= 1 && ConstantTotal(pager, total)
    ensures var r := Collect(pager, Corrected, 0, pageSize, fuel);
            forall i :: 0 <= i < |r.offsets| ==> r.offsets[i] < total
  {
    var r := Collect(pager, Corrected, 0, pageSize, fuel);
    assert 0 * pageSize == 0;
    PagesFrom(pager, Corrected, 0, pageSize, total, fuel);
    CollectOffsets(pager, Corrected, 0, pageSize, fuel);
    assert |r.offsets| <= Bound(Corrected, pageSize, total) + 1;
    forall i | 0 <= i < |r.offsets| ensures r.offsets[i] < total {
      StartBelowTotal(i, pageSize, total);
    }
  }

  /** Page `i` of the corrected loop's pages starts before the end. */
  lemma StartBelowTotal(i: int, pageSize: int, total: int)
    requires pageSize >= 1 && total >= 1 && 0 <= i <= (total - 1) / pageSize
    ensures i * pageSize < total
  {
    var m := (total - 1) / pageSize;
    MulMonotone(i, m, pageSize);
    MulLeIffLeDiv(m, pageSize, total - 1);
  }

  /** A page size of zero or less never ends the loop for a non-empty
      result (and, as written, for an empty one too): every fuel bound is
      used up. */
  lemma {:induction false} NonPositivePageSizeNeverStops(pager: Pager, stop: Stop, offset: int, pageSize: int, total: int, fuel: nat)
    requires pageSize <= 0 && offset <= 0 && ConstantTotal(pager, total)
    requires total >= (if stop == AsWritten then 0 else 1)
    ensures var r := Collect(pager, stop, offset, pageSize, fuel);
            r.outcome == Err(PageLimit) && |r.offsets| == fuel + 1
    decreases fuel
  {
    var f := pager(offset);
    assert f.Ok? && f.value.totalResults == total;
    assert More(stop, offset, pageSize, total);
    if fuel > 0 {
      NonPositivePageSizeNeverStops(pager, stop, offset + pageSize, pageSize, total, fuel - 1);
    }
  }

  // ---------------------------------------------------------------------
  // the subcommands

  /** `get_cve`: an empty CVE id is refused before any request. */
  function CveQuery(apiUrl: string, cve: string): (r: Result<string>)
    ensures r.Err? <==> cve == []
    ensures r.Err? ==> r.error == MissingArgument("CVE ID")
    ensures r.Ok? ==> r.value == apiUrl + "?cveId=" + cve
  {
    if cve == [] then Err(MissingArgument("CVE ID")) else Ok(apiUrl + "?cveId=" + cve)
  }

  /** `keyword_search`: no keywords at all is refused; the keywords are
      joined with spaces and percent-encoded by `quote` (`urllib.parse.quote`
      with no safe characters). */
  function KeywordQuery(apiUrl: string, keywords: seq<string>, quote: string -> string): (r: Result<string>)
    ensures r.Err? <==> keywords == []
    ensures r.Err? ==> r.error == MissingArgument("keyword(s)")
    ensures r.Ok? ==> r.value == apiUrl + "?keywordSearch=" + quote(Join(keywords, ' '))
  {
    if keywords == [] then Err(MissingArgument("keyword(s)"))
    else Ok(apiUrl + "?keywordSearch=" + quote(Join(keywords, ' ')))
  }

  /** `list_cve_updates`: a missing start is reported before a missing end;
      `encode` stands for the parse, conversion to UTC, formatting and
      percent-encoding of a timestamp. */
  function UpdatesQuery(apiUrl: string, since: string, until: string, encode: string -> string): (r: Result<string>)
    ensures r.Err? <==> since == [] || until == []
    ensures since == [] ==> r == Err(MissingArgument("since"))
    ensures since != [] && until == [] ==> r == Err(MissingArgument("until"))
    ensures r.Ok? ==> r.value == apiUrl + "?lastModStartDate=" + encode(since) + "&lastModEndDate=" + encode(until)
  {
    if since == [] then Err(MissingArgument("since"))
    else if until == [] then Err(MissingArgument("until"))
    else Ok(apiUrl + "?lastModStartDate=" + encode(since) + "&lastModEndDate=" + encode(until))
  }

  /** A subcommand: validate, then collect every page of the query.  A
      refused argument makes no request and is the outcome; an accepted
      query requests the paged URLs at offsets 0, size, 2 * size, ... in
      turn, and on success returns the vulnerabilities of exactly those
      pages, in order. */
  function Subcommand(query: Result<string>, fetch: Fetch, pageSize: int, fuel: nat): (r: Run)
    ensures r.offsets == [] <==> query.Err?
    ensures query.Err? ==> r.outcome == Err(query.error)
    ensures query.Ok? ==> forall i :: 0 <= i < |r.offsets| ==> r.offsets[i] == i * pageSize
    ensures query.Ok? && r.outcome.Ok? ==>
              PagesAt(PagerOf(fetch, query.value, pageSize), r.offsets) == Some(r.outcome.value)
    ensures query.Ok? && |r.offsets| > 0 ==>
              var last := fetch(PagedUrl(query.value, r.offsets[|r.offsets| - 1], pageSize));
              last.Err? ==> r.outcome == Err(last.error)
  {
    match query
    case Err(e) => Run([], Err(e))
    case Ok(url) =>
      var pager := PagerOf(fetch, url, pageSize);
      CollectOffsets(pager, AsWritten, 0, pageSize, fuel);
      CollectConcatenates(pager, AsWritten, 0, pageSize, fuel);
      CollectStopsAtError(pager, AsWritten, 0, pageSize, fuel);
      Collect(pager, AsWritten, 0, pageSize, fuel)
  }

  /** A refused argument means no request is made at all, while an accepted
      one always makes at least the first request, at offset 0. */
  lemma ValidationBeforeRequests(query: Result<string>, fetch: Fetch, pageSize: int, fuel: nat)
    ensures Subcommand(query, fetch, pageSize, fuel).offsets == [] <==> query.Err?
    ensures query.Ok? ==> Subcommand(query, fetch, pageSize, fuel).offsets[0] == 0
  {
  }

  /** End to end for an accepted query whose pages all report one total T:
      the subcommand succeeds after exactly T div P + 1 requests (at the
      offsets 0, P, 2P, ... that `Subcommand` promises) and returns the
      vulnerabilities of those pages. */
  lemma SubcommandPageCount(url: string, fetch: Fetch, pageSize: int, total: int, fuel: nat)
    requires pageSize >= 1 && total >= 0 && ConstantTotal(PagerOf(fetch, url, pageSize), total)
    requires fuel >= total / pageSize
    ensures var r := Subcommand(Ok(url), fetch, pageSize, fuel);
            && r.outcome.Ok? && |r.offsets| == total / pageSize + 1
            && PagesAt(PagerOf(fetch, url, pageSize), r.offsets) == Some(r.outcome.value)
  {
    var pager := PagerOf(fetch, url, pageSize);
    SubcommandIsCollect(url, fetch, pageSize, fuel);
    PageCountAsWritten(pager, pageSize, total, fuel);
  }

  lemma SubcommandIsCollect(url: string, fetch: Fetch, pageSize: int, fuel: nat)
    ensures Subcommand(Ok(url), fetch, pageSize, fuel) == Collect(PagerOf(fetch, url, pageSize), AsWritten, 0, pageSize, fuel)
  {
  }
}
