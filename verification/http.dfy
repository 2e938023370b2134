/** The HTTP request logic the scripts share, with the network replaced by a
    `Server`: a function from the requested URL to the response it gets.

    Several scripts follow the two redirect statuses of sections 15.4.2
    (301 Moved Permanently) and 15.4.3 (302 Found) of RFC 9110 by requesting
    the `Location` URL again, with no bound on the number of hops; the model
    takes that bound as fuel, and running out of it is `RedirectLimit`. */
module Http {
  import opened Wrappers
  import opened Url

  datatype Response = Response(status: int, reason: string, location: Option<string>, body: string)

  /** The network, seen from the scripts: what a GET of a URL answers. */
  type Server = string -> Response

  predicate IsRedirect(status: int) {
    status == 301 || status == 302
  }

  /** How a script turns a redirect's `Location` header into the next URL.
      `rpm-inspect.py` passes it through `str`, so a missing header is
      followed as the URL "None"; `nvd.py`, `pypi.py` and `pypi-sdist.py`
      hand the header value itself to `get`, which raises a `TypeError`
      when it is `None`. */
  datatype LocationUse = Stringified | Passed

  /** The URL a redirect leads to, with a missing `Location` read as "None". */
  function RedirectTarget(r: Response): string {
    match r.location
    case Some(l) => l
    case None => "None"
  }

  /** A response the GET goes on from: a redirect whose target it can use. */
  predicate Hops(r: Response, use: LocationUse) {
    IsRedirect(r.status) && (use == Stringified || r.location.Some?)
  }

  /** The URL requested after `k` redirects from `url`, had every response
      so far been a redirect. */
  function Chain(server: Server, url: string, k: nat): string
    decreases k
  {
    if k == 0 then url else Chain(server, RedirectTarget(server(url)), k - 1)
  }

  /** The response a redirect-following GET ends with; `MissingLocation`
      when a redirect without `Location` reaches `get` as `None`, and
      `RedirectLimit` when more than `fuel` redirects would be needed. */
  function Follow(server: Server, url: string, fuel: nat, use: LocationUse): (r: Result<Response>)
    ensures r.Ok? ==> !IsRedirect(r.value.status)
    ensures r.Err? ==> r.error == RedirectLimit || (r.error == MissingLocation && use == Passed)
    decreases fuel
  {
    var resp := server(url);
    if !IsRedirect(resp.status) then Ok(resp)
    else if use == Passed && resp.location.None? then Err(MissingLocation)
    else if fuel == 0 then Err(RedirectLimit)
    else Follow(server, RedirectTarget(resp), fuel - 1, use)
  }

  /** When the `k`-th URL of the chain is the first one not answered with a
      usable redirect, and `k` hops fit in the fuel, the GET ends with its
      answer. */
  lemma {:induction false} FollowFinds(server: Server, url: string, fuel: nat, use: LocationUse, k: nat)
    requires k <= fuel
    requires forall j :: 0 <= j < k ==> Hops(server(Chain(server, url, j)), use)
    requires !IsRedirect(server(Chain(server, url, k)).status)
    ensures Follow(server, url, fuel, use) == Ok(server(Chain(server, url, k)))
    decreases k
  {
    if k > 0 {
      var next := RedirectTarget(server(url));
      assert Hops(server(Chain(server, url, 0)), use);
      forall j | 0 <= j < k - 1
        ensures Hops(server(Chain(server, next, j)), use)
      {
        assert Chain(server, url, j + 1) == Chain(server, next, j);
      }
      assert Chain(server, url, k) == Chain(server, next, k - 1);
      FollowFinds(server, next, fuel - 1, use, k - 1);
    }
  }

  /** When the first `fuel + 1` URLs of the chain are all answered with a
      usable redirect, the GET gives up. */
  lemma {:induction false} FollowExhausts(server: Server, url: string, fuel: nat, use: LocationUse)
    requires forall j :: 0 <= j <= fuel ==> Hops(server(Chain(server, url, j)), use)
    ensures Follow(server, url, fuel, use) == Err(RedirectLimit)
    decreases fuel
  {
    assert Hops(server(Chain(server, url, 0)), use);
    if fuel > 0 {
      var next := RedirectTarget(server(url));
      forall j | 0 <= j <= fuel - 1
        ensures Hops(server(Chain(server, next, j)), use)
      {
        assert Chain(server, url, j + 1) == Chain(server, next, j);
      }
      FollowExhausts(server, next, fuel - 1, use);
    }
  }

  /** When the header is handed to `get` as it is, the first redirect of the
      chain without `Location` ends the GET with the `TypeError`. */
  lemma {:induction false} FollowMissingLocation(server: Server, url: string, fuel: nat, k: nat)
    requires k <= fuel
    requires forall j :: 0 <= j < k ==> Hops(server(Chain(server, url, j)), Passed)
    requires IsRedirect(server(Chain(server, url, k)).status) && server(Chain(server, url, k)).location.None?
    ensures Follow(server, url, fuel, Passed) == Err(MissingLocation)
    decreases k
  {
    if k > 0 {
      var next := RedirectTarget(server(url));
      assert Hops(server(Chain(server, url, 0)), Passed);
      forall j | 0 <= j < k - 1
        ensures Hops(server(Chain(server, next, j)), Passed)
      {
        assert Chain(server, url, j + 1) == Chain(server, next, j);
      }
      assert Chain(server, url, k) == Chain(server, next, k - 1);
      FollowMissingLocation(server, next, fuel - 1, k - 1);
    }
  }

  /** A redirect without `Location` is where the two scripts part: the
      stringifying one requests "None", the other raises. */
  lemma MissingLocationDiffers(server: Server, url: string, fuel: nat)
    requires fuel >= 1
    requires IsRedirect(server(url).status) && server(url).location.None?
    requires !IsRedirect(server("None").status)
    ensures Follow(server, url, fuel, Stringified) == Ok(server("None"))
    ensures Follow(server, url, fuel, Passed) == Err(MissingLocation)
  {
  }

  /** `Archive._get` and `Archive._download_to` of `rpm-inspect.py`, and
      `get` with the status check of the other scripts: follow redirects; a
      final 200 gives the body (returned, or written to the destination),
      any other final status is an error. */
  function GetFollowing(server: Server, url: string, fuel: nat, use: LocationUse): (r: Result<string>)
    ensures r.Ok? <==> (Follow(server, url, fuel, use).Ok? && Follow(server, url, fuel, use).value.status == 200)
    ensures r.Ok? ==> r.value == Follow(server, url, fuel, use).value.body
    ensures Follow(server, url, fuel, use).Err? ==> r == Err(Follow(server, url, fuel, use).error)
    ensures r.Err? && r.error.HttpStatus? ==> r.error.status != 200 && !IsRedirect(r.error.status)
  {
    match Follow(server, url, fuel, use)
    case Err(e) => Err(e)
    case Ok(resp) => if resp.status == 200 then Ok(resp.body) else Err(HttpStatus(resp.status))
  }

  /** Along a chain of `k` usable redirects, the GET answers with the body of
      a final 200, or the error of any other final status. */
  lemma GetFollowingFinds(server: Server, url: string, fuel: nat, use: LocationUse, k: nat)
    requires k <= fuel
    requires forall j :: 0 <= j < k ==> Hops(server(Chain(server, url, j)), use)
    requires !IsRedirect(server(Chain(server, url, k)).status)
    ensures var last := server(Chain(server, url, k));
            GetFollowing(server, url, fuel, use)
              == if last.status == 200 then Ok(last.body) else Err(HttpStatus(last.status))
  {
    FollowFinds(server, url, fuel, use, k);
  }

  /** `Archive._get` / `_download_to` of `apt-inspect.py` and
      `apt-repo-dl.py`: one request; 200 gives the body, anything else,
      redirects included, is `ValueError('http error')`. */
  function GetOnce(server: Server, url: string): (r: Result<string>)
    ensures r.Ok? <==> server(url).status == 200
    ensures r.Ok? ==> r.value == server(url).body
    ensures r.Err? ==> r.error == HttpStatus(server(url).status)
  {
    var resp := server(url);
    if resp.status == 200 then Ok(resp.body) else Err(HttpStatus(resp.status))
  }

  /** A single request agrees with the redirect-following one unless the
      server answers with a redirect, which it reports as an error. */
  lemma GetOnceVersusFollowing(server: Server, url: string, fuel: nat, use: LocationUse)
    ensures !IsRedirect(server(url).status) ==> GetOnce(server, url) == GetFollowing(server, url, fuel, use)
    ensures IsRedirect(server(url).status) ==> GetOnce(server, url).Err?
  {
  }

  datatype Transport = PlainHttp | Tls

  /** `Archive._connect`: plain HTTP for the scheme "http", TLS for every
      other scheme (including an empty or unrecognised one). */
  function Connect(url: string): (t: Transport)
    ensures t == PlainHttp <==> Scheme(url) == "http"
  {
    if Scheme(url) == "http" then PlainHttp else Tls
  }

  /** A URL of the form `scheme:rest` is fetched over plain HTTP exactly when
      its scheme is "http" in any letter case; "https", "ftp" and the rest
      all go over TLS. */
  lemma ConnectByScheme(sch: string, rest: string)
    requires ValidScheme(sch)
    ensures Connect(sch + ":" + rest) == PlainHttp <==> Lower(sch) == "http"
  {
    SchemeOfPrefixed(sch, rest);
  }
}
