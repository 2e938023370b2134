/** `rpm-inspect.py`: the package list of an RPM (yum) repository, found
    through `repodata/repomd.xml`, cached under `/tmp`, and read as a
    sequence of package records.  XML parsing and gzip are not modelled:
    `repomd.xml` is given as its parsed `data` entries and the package list
    as its parsed `package` records. */
module RpmInspect {
  import opened Wrappers
  import opened Text
  import opened Url
  import opened Cache
  import opened Http

  /** `Archive.__init__`: the repository URL stripped of '/' at both ends. */
  function RepoUrl(repo: string): (r: string)
    ensures r == [] || (r[0] != '/' && r[|r| - 1] != '/')
    ensures exists i :: TrimmedAt(repo, r, i, IsSlash)
  {
    Strip(repo, IsSlash)
  }

  /** `repomd_url`. */
  function RepomdUrl(repo: string): (u: string)
    ensures u == RepoUrl(repo) + "/repodata/repomd.xml"
    ensures StartsWith(u, RepoUrl(repo) + "/") && EndsWith(u, "/repodata/repomd.xml")
  {
    var r := RepoUrl(repo);
    assert (r + "/repodata/repomd.xml")[|r| + 1 - 21 + 20..] == "/repodata/repomd.xml";
    r + "/repodata/repomd.xml"
  }

  // ---------------------------------------------------------------------
  // repomd.xml

  /** A `<location>` element and its `href` attribute, if it has one. */
  datatype Location = Location(href: Option<string>)

  /** A `<data type="...">` element of `repomd.xml` and its `<location>`
      children. */
  datatype RepoData = RepoData(kind: string, locations: seq<Location>)

  /** `findall('./data[@type="primary"]/location')`: the locations of every
      primary entry, in document order.  A location is found exactly when it
      belongs to a primary entry, and the first one found is the first
      location of the first primary entry that has any. */
  function PrimaryLocations(ds: seq<RepoData>): (r: seq<Location>)
    ensures forall l :: l in r <==> exists i :: 0 <= i < |ds| && ds[i].kind == "primary" && l in ds[i].locations
    ensures r != [] ==> exists i :: FirstPrimaryAt(ds, i) && r[0] == ds[i].locations[0]
    ensures (forall i :: 0 <= i < |ds| ==> ds[i].kind != "primary" || ds[i].locations == []) ==> r == []
    decreases |ds|
  {
    if |ds| == 0 then []
    else
      var rest := PrimaryLocations(ds[1..]);
      PrimaryLocationsCons(ds, rest);
      PrimaryHere(ds[0]) + rest
  }

  /** Entry `i` is the first primary entry that has a location. */
  predicate FirstPrimaryAt(ds: seq<RepoData>, i: int) {
    && 0 <= i < |ds| && ds[i].kind == "primary" && ds[i].locations != []
    && forall j :: 0 <= j < i ==> ds[j].kind != "primary" || ds[j].locations == []
  }

  lemma PrimaryLocationsCons(ds: seq<RepoData>, rest: seq<Location>)
    requires |ds| > 0
    requires forall l :: l in rest <==>
               exists i :: 0 <= i < |ds[1..]| && ds[1..][i].kind == "primary" && l in ds[1..][i].locations
    requires rest != [] ==> exists i :: FirstPrimaryAt(ds[1..], i) && rest[0] == ds[1..][i].locations[0]
    ensures var r := PrimaryHere(ds[0]) + rest;
            && (forall l :: l in r <==> exists i :: 0 <= i < |ds| && ds[i].kind == "primary" && l in ds[i].locations)
            && (r != [] ==> exists i :: FirstPrimaryAt(ds, i) && r[0] == ds[i].locations[0])
  {
    var here := PrimaryHere(ds[0]);
    var r := here + rest;
    forall l | l in r
      ensures exists i :: 0 <= i < |ds| && ds[i].kind == "primary" && l in ds[i].locations
    {
      if l in here {
        assert ds[0].kind == "primary" && l in ds[0].locations;
      } else {
        assert l in rest;
        var i :| 0 <= i < |ds[1..]| && ds[1..][i].kind == "primary" && l in ds[1..][i].locations;
        assert ds[i + 1] == ds[1..][i];
      }
    }
    forall l, i | 0 <= i < |ds| && ds[i].kind == "primary" && l in ds[i].locations
      ensures l in r
    {
      if i > 0 {
        assert ds[1..][i - 1] == ds[i];
        assert l in rest;
      }
    }
    if r != [] {
      if here != [] {
        assert FirstPrimaryAt(ds, 0) && r[0] == ds[0].locations[0];
      } else {
        var i :| FirstPrimaryAt(ds[1..], i) && rest[0] == ds[1..][i].locations[0];
        assert ds[i + 1] == ds[1..][i];
        forall j | 0 <= j < i + 1
          ensures ds[j].kind != "primary" || ds[j].locations == []
        {
          if j > 0 { assert ds[j] == ds[1..][j - 1]; }
        }
        assert FirstPrimaryAt(ds, i + 1);
      }
    }
  }

  /** Document order is kept: the locations of two runs of entries are those
      of the first, then those of the second. */
  lemma {:induction false} PrimaryLocationsSplits(xs: seq<RepoData>, ys: seq<RepoData>)
    ensures PrimaryLocations(xs + ys) == PrimaryLocations(xs) + PrimaryLocations(ys)
    decreases |xs|
  {
    if |xs| == 0 {
      assert xs + ys == ys;
    } else {
      PrimaryLocationsUnfold(xs, ys);
      PrimaryLocationsSplits(xs[1..], ys);
      AppendAssoc(PrimaryHere(xs[0]), PrimaryLocations(xs[1..]), PrimaryLocations(ys));
    }
  }

  /** The locations one entry contributes. */
  function PrimaryHere(d: RepoData): seq<Location> {
    if d.kind == "primary" then d.locations else []
  }

  lemma PrimaryLocationsUnfold(xs: seq<RepoData>, ys: seq<RepoData>)
    requires |xs| > 0
    ensures PrimaryLocations(xs) == PrimaryHere(xs[0]) + PrimaryLocations(xs[1..])
    ensures PrimaryLocations(xs + ys) == PrimaryHere(xs[0]) + PrimaryLocations(xs[1..] + ys)
  {
    assert (xs + ys)[0] == xs[0];
    assert (xs + ys)[1..] == xs[1..] + ys;
  }

  lemma AppendAssoc(a: seq<Location>, b: seq<Location>, c: seq<Location>)
    ensures a + (b + c) == (a + b) + c
  {
  }

  /** `package_list_url` once `repomd.xml` is parsed: the `href` of the
      first primary location, appended to the repository URL; no primary
      location is an `IndexError`, a location without `href` a `KeyError`. */
  function PrimaryUrl(repo: string, ds: seq<RepoData>): (r: Result<string>)
    ensures PrimaryLocations(ds) == [] <==> r == Err(MissingPrimaryIndex)
    ensures r.Ok? ==> PrimaryLocations(ds)[0].href.Some?
                      && r.value == RepoUrl(repo) + "/" + PrimaryLocations(ds)[0].href.value
    ensures r.Err? && r.error != MissingPrimaryIndex ==> r.error == MissingAttribute("href")
  {
    var locs := PrimaryLocations(ds);
    if |locs| == 0 then Err(MissingPrimaryIndex)
    else match locs[0].href
      case None => Err(MissingAttribute("href"))
      case Some(h) => Ok(RepoUrl(repo) + "/" + h)
  }

  /** Entries of other types before the primary one are passed over. */
  lemma {:induction false} PrimaryUrlSkipsOtherData(repo: string, others: seq<RepoData>, h: string, rest: seq<RepoData>)
    requires forall i :: 0 <= i < |others| ==> others[i].kind != "primary"
    ensures PrimaryUrl(repo, others + [RepoData("primary", [Location(Some(h))])] + rest)
            == Ok(RepoUrl(repo) + "/" + h)
    decreases |others|
  {
    var ds := others + [RepoData("primary", [Location(Some(h))])] + rest;
    PrimaryLocationsSkip(others, [RepoData("primary", [Location(Some(h))])] + rest);
    assert ds == others + ([RepoData("primary", [Location(Some(h))])] + rest);
    assert ([RepoData("primary", [Location(Some(h))])] + rest)[1..] == rest;
  }

  lemma {:induction false} PrimaryLocationsSkip(others: seq<RepoData>, rest: seq<RepoData>)
    requires forall i :: 0 <= i < |others| ==> others[i].kind != "primary"
    ensures PrimaryLocations(others + rest) == PrimaryLocations(rest)
    decreases |others|
  {
    if |others| == 0 {
      assert others + rest == rest;
    } else {
      assert (others + rest)[0] == others[0];
      assert (others + rest)[1..] == others[1..] + rest;
      PrimaryLocationsSkip(others[1..], rest);
    }
  }

  /** `package_list_url`: fetch `repomd.xml` (following redirects), parse
      it with `parse`, and locate the primary package list.  A failed fetch
      is the lookup's error; a fetched manifest without primary locations is
      an `IndexError`; otherwise the answer is the repository URL joined
      with the first primary location's `href`. */
  function PackageListUrl(repo: string, server: Server, fuel: nat, parse: string -> seq<RepoData>): (r: Result<string>)
    ensures var got := GetFollowing(server, RepomdUrl(repo), fuel, Stringified);
            got.Err? ==> r == Err(got.error)
    ensures var got := GetFollowing(server, RepomdUrl(repo), fuel, Stringified);
            got.Ok? ==>
              var locs := PrimaryLocations(parse(got.value));
              && (r == Err(MissingPrimaryIndex) <==> locs == [])
              && (r.Ok? <==> locs != [] && locs[0].href.Some?)
              && (r.Ok? ==> r.value == RepoUrl(repo) + "/" + locs[0].href.value)
  {
    match GetFollowing(server, RepomdUrl(repo), fuel, Stringified)
    case Err(e) => Err(e)
    case Ok(body) => PrimaryUrl(repo, parse(body))
  }

  /** Reached through `k` redirects, a manifest whose first primary entry
      (after entries of other types) has a location with an `href` points
      the tool at that file of the repository. */
  lemma PackageListUrlFromManifest(repo: string, server: Server, fuel: nat, parse: string -> seq<RepoData>, k: nat,
                                   others: seq<RepoData>, h: string, rest: seq<RepoData>)
    requires k <= fuel
    requires forall j :: 0 <= j < k ==> Hops(server(Chain(server, RepomdUrl(repo), j)), Stringified)
    requires server(Chain(server, RepomdUrl(repo), k)).status == 200
    requires forall i :: 0 <= i < |others| ==> others[i].kind != "primary"
    requires parse(server(Chain(server, RepomdUrl(repo), k)).body)
             == others + [RepoData("primary", [Location(Some(h))])] + rest
    ensures PackageListUrl(repo, server, fuel, parse) == Ok(RepoUrl(repo) + "/" + h)
  {
    GetFollowingFinds(server, RepomdUrl(repo), fuel, Stringified, k);
    PrimaryUrlSkipsOtherData(repo, others, h, rest);
  }

  /** `package_list_cache_path`: the character-set strip of the package
      list URL under "/tmp", as for the APT tool. */
  function PackageListCachePath(listUrl: string): (p: string)
    ensures p == "/tmp/" + CacheRelative(listUrl)
  {
    CachePathShape(listUrl);
    CachePath(listUrl)
  }

  // ---------------------------------------------------------------------
  // package records

  /** A `<package>` element of the package list: its name, the `ver` and
      `rel` attributes of its `<version>`, its architecture, and its
      `toprettyxml(indent='', newl='')` serialisation. */
  datatype Package = Package(name: string, ver: string, rel: string, arch: string, xml: string)

  /** The list entry `name@ver-rel?arch=arch`. */
  function FormatPackage(p: Package): string {
    FormatParts(EntryParts(p.name, p.ver + "-" + p.rel, p.arch))
  }

  /** `Archive.list_packages`: one entry per package record, in document
      order. */
  function ListPackages(pkgs: seq<Package>): (r: seq<string>)
    ensures |r| == |pkgs|
    ensures forall i :: 0 <= i < |pkgs| ==> r[i] == FormatPackage(pkgs[i])
    decreases |pkgs|
  {
    if |pkgs| == 0 then [] else [FormatPackage(pkgs[0])] + ListPackages(pkgs[1..])
  }

  /** The three parts of a list entry: the name before the first '@', the
      version up to the first '?', and the architecture after "?arch=". */
  datatype EntryParts = EntryParts(name: string, version: string, arch: string)

  /** Reads a list entry back; `None` when it lacks the '@' or "?arch=". */
  function ParseEntry(e: string): (r: Option<EntryParts>)
    ensures r.Some? ==> FormatParts(r.value) == e
  {
    var at := Find(e, '@');
    if at < 0 then None
    else
      var rest := e[at + 1..];
      var q := Find(rest, '?');
      if q < 0 || !StartsWith(rest[q..], ArchMarker) then None
      else
        assert |ArchMarker| == 6;
        assert rest[q..q + 6] == rest[q..][..6];
        CutAt(e, at, [e[at]]);
        CutAt(rest, q, ArchMarker);
        var parts := EntryParts(e[..at], rest[..q], rest[q + 6..]);
        assert FormatParts(parts) == e[..at] + "@" + rest;
        Some(parts)
  }

  const ArchMarker: string := "?arch="

  function FormatParts(p: EntryParts): string {
    p.name + "@" + (p.version + ArchMarker + p.arch)
  }

  /** Reading back an entry whose name holds no '@' and whose version holds
      no '?' gives its parts. */
  lemma ParseFormatParts(n: string, v: string, a: string)
    requires '@' !in n && '?' !in v
    ensures ParseEntry(FormatParts(EntryParts(n, v, a))) == Some(EntryParts(n, v, a))
  {
    var tail := v + ArchMarker + a;
    var e := FormatParts(EntryParts(n, v, a));
    NameCut(n, tail);
    VersionCut(v, a);
    ParseEntryAt(e, |n|, |v|);
  }

  lemma NameCut(n: string, tail: string)
    requires '@' !in n
    ensures var e := n + "@" + tail;
            Find(e, '@') == |n| && e[..|n|] == n && e[|n| + 1..] == tail
  {
    FindAfter(n, '@', tail);
  }

  lemma VersionCut(v: string, a: string)
    requires '?' !in v
    ensures var tail := v + ArchMarker + a;
            Find(tail, '?') == |v| && tail[..|v|] == v && StartsWith(tail[|v|..], ArchMarker)
            && tail[|v| + 6..] == a
  {
    var tail := v + ArchMarker + a;
    assert ArchMarker == ['?'] + "arch=";
    assert tail == v + ['?'] + ("arch=" + a);
    FindAfter(v, '?', "arch=" + a);
    assert tail[|v|..] == ArchMarker + a;
  }

  lemma ParseEntryAt(e: string, at: nat, q: nat)
    requires at < |e| && Find(e, '@') == at
    requires q < |e[at + 1..]| && Find(e[at + 1..], '?') == q
    requires StartsWith(e[at + 1..][q..], ArchMarker)
    ensures ParseEntry(e) == Some(EntryParts(e[..at], e[at + 1..][..q], e[at + 1..][q + 6..]))
  {
  }

  /** Reading a list entry back gives the record's name, `ver-rel` and
      architecture whenever the name holds no '@' and the version parts no
      '?'. */
  lemma ParseFormatted(p: Package)
    requires '@' !in p.name && '?' !in p.ver && '?' !in p.rel
    ensures ParseEntry(FormatPackage(p)) == Some(EntryParts(p.name, p.ver + "-" + p.rel, p.arch))
  {
    assert '?' !in p.ver + "-" + p.rel;
    ParseFormatParts(p.name, p.ver + "-" + p.rel, p.arch);
  }

  // ---------------------------------------------------------------------
  // get_package

  /** The index of the first record named `name`, or -1. */
  function FirstNamed(pkgs: seq<Package>, name: string): (k: int)
    ensures -1 <= k < |pkgs|
    ensures k == -1 <==> forall i :: 0 <= i < |pkgs| ==> pkgs[i].name != name
    ensures k >= 0 ==> pkgs[k].name == name && forall j :: 0 <= j < k ==> pkgs[j].name != name
    decreases |pkgs|
  {
    if |pkgs| == 0 then -1
    else if pkgs[0].name == name then 0
    else
      var k := FirstNamed(pkgs[1..], name);
      if k == -1 then -1 else k + 1
  }

  /** `Archive.get_package`: the serialisation of the first record whose
      name is exactly `name`; `None` (printed as "None") when none is. */
  method GetPackage(pkgs: seq<Package>, name: string) returns (r: Option<string>)
    ensures r.None? <==> forall i :: 0 <= i < |pkgs| ==> pkgs[i].name != name
    ensures r.Some? ==> r.value == pkgs[FirstNamed(pkgs, name)].xml
  {
    var i := 0;
    while i < |pkgs|
      invariant 0 <= i <= |pkgs|
      invariant forall j :: 0 <= j < i ==> pkgs[j].name != name
    {
      if pkgs[i].name == name {
        return Some(pkgs[i].xml);
      }
      i := i + 1;
    }
    return None;
  }

  /** A later record with the same name is never the answer. */
  lemma FirstNamedIgnoresLater(pkgs: seq<Package>, name: string, later: seq<Package>)
    requires FirstNamed(pkgs, name) >= 0
    ensures FirstNamed(pkgs + later, name) == FirstNamed(pkgs, name)
  {
    var k := FirstNamed(pkgs, name);
    var k2 := FirstNamed(pkgs + later, name);
    assert (pkgs + later)[k] == pkgs[k];
    assert forall j :: 0 <= j < k ==> (pkgs + later)[j] == pkgs[j];
  }

  // ---------------------------------------------------------------------
  // the subcommands over cache and network

  /** The package records `list_packages` and `get_package` read.  The
      cache path needs the package list URL, so `repomd.xml` is fetched
      whether or not the cached file is fresh; a stale or missing cache is
      then downloaded from that URL (following redirects) and parsed with
      `parsePrimary`. */
  function PackageRecords(repo: string, maxAge: int, state: CacheState, cached: string, server: Server,
                          fuel: nat, parseRepomd: string -> seq<RepoData>,
                          parsePrimary: string -> seq<Package>): (r: Result<seq<Package>>)
    ensures PackageListUrl(repo, server, fuel, parseRepomd).Err? ==> r.Err?
    ensures PackageListUrl(repo, server, fuel, parseRepomd).Ok? && Decide(state, maxAge) == Reuse ==>
              r == Ok(parsePrimary(cached))
    ensures PackageListUrl(repo, server, fuel, parseRepomd).Ok? && Decide(state, maxAge) == Download ==>
              var got := GetFollowing(server, PackageListUrl(repo, server, fuel, parseRepomd).value, fuel, Stringified);
              (r.Ok? <==> got.Ok?) && (r.Ok? ==> r.value == parsePrimary(got.value))
  {
    match PackageListUrl(repo, server, fuel, parseRepomd)
    case Err(e) => Err(e)
    case Ok(listUrl) =>
      match Decide(state, maxAge)
      case Reuse => Ok(parsePrimary(cached))
      case Download =>
        match GetFollowing(server, listUrl, fuel, Stringified)
        case Err(e) => Err(e)
        case Ok(body) => Ok(parsePrimary(body))
  }

  /** Unlike the APT tool, a fresh cache does not spare the network: when
      `repomd.xml` cannot be fetched, listing fails however fresh the cache. */
  lemma FreshCacheStillNeedsRepomd(repo: string, maxAge: int, state: CacheState, cached: string, server: Server,
                                   fuel: nat, parseRepomd: string -> seq<RepoData>,
                                   parsePrimary: string -> seq<Package>)
    requires server(RepomdUrl(repo)).status == 404
    ensures PackageRecords(repo, maxAge, state, cached, server, fuel, parseRepomd, parsePrimary) == Err(HttpStatus(404))
  {
  }

  /** End to end: once the manifest leads to the package list as in
      `PackageListUrlFromManifest`, a fresh cache gives the cached records,
      and a stale or missing one the records of the list the server returns
      at the end of its own redirect chain, or that answer's error. */
  lemma PackageRecordsFromServer(repo: string, maxAge: int, state: CacheState, cached: string, server: Server,
                                 fuel: nat, parseRepomd: string -> seq<RepoData>,
                                 parsePrimary: string -> seq<Package>,
                                 k: nat, others: seq<RepoData>, h: string, rest: seq<RepoData>, m: nat)
    requires k <= fuel
    requires forall j :: 0 <= j < k ==> Hops(server(Chain(server, RepomdUrl(repo), j)), Stringified)
    requires server(Chain(server, RepomdUrl(repo), k)).status == 200
    requires forall i :: 0 <= i < |others| ==> others[i].kind != "primary"
    requires parseRepomd(server(Chain(server, RepomdUrl(repo), k)).body)
             == others + [RepoData("primary", [Location(Some(h))])] + rest
    requires m <= fuel
    requires forall j :: 0 <= j < m ==> Hops(server(Chain(server, RepoUrl(repo) + "/" + h, j)), Stringified)
    requires !IsRedirect(server(Chain(server, RepoUrl(repo) + "/" + h, m)).status)
    ensures var last := server(Chain(server, RepoUrl(repo) + "/" + h, m));
            PackageRecords(repo, maxAge, state, cached, server, fuel, parseRepomd, parsePrimary)
              == if Decide(state, maxAge) == Reuse then Ok(parsePrimary(cached))
                 else if last.status == 200 then Ok(parsePrimary(last.body))
                 else Err(HttpStatus(last.status))
  {
    PackageListUrlFromManifest(repo, server, fuel, parseRepomd, k, others, h, rest);
    GetFollowingFinds(server, RepoUrl(repo) + "/" + h, fuel, Stringified, m);
  }
}
