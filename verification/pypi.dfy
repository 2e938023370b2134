/** `pypi.py`: query a Python Package Index for the package list (the
    "simple" index page) and for a package's metadata (its releases and
    their distribution files).

    The network is an `Http.Server`; every request goes over TLS, follows
    301/302 redirects (bounded by fuel in the model), and a final status
    other than 200 ends the script with exit status 1.  The JSON metadata is
    given already decoded, as the list of releases in the order of the
    `releases` object. */
module Pypi {
  import opened Wrappers
  import opened Text
  import Http

  /** `get` followed by the status check of `get_package_metadata_or_die`
      and `list_packages_or_die`.  `get` hands the `Location` header of a
      redirect to itself as it is. */
  function GetOrDie(server: Http.Server, url: string, fuel: nat): (r: Result<string>)
    ensures var f := Http.Follow(server, url, fuel, Http.Passed);
            r.Ok? <==> f.Ok? && f.value.status == 200
    ensures r.Ok? ==> r.value == Http.Follow(server, url, fuel, Http.Passed).value.body
    ensures var f := Http.Follow(server, url, fuel, Http.Passed);
            f.Ok? && f.value.status != 200 ==> r == Err(Exit(1))
    ensures var f := Http.Follow(server, url, fuel, Http.Passed);
            f.Err? ==> r == Err(f.error)
  {
    match Http.Follow(server, url, fuel, Http.Passed)
    case Err(e) => Err(e)
    case Ok(resp) => if resp.status == 200 then Ok(resp.body) else Err(Exit(1))
  }

  /** The exit status the script ends with when a request fails. */
  lemma FailureExitsOne(server: Http.Server, url: string, fuel: nat, k: nat)
    requires k <= fuel
    requires forall j :: 0 <= j < k ==> Http.Hops(server(Http.Chain(server, url, j)), Http.Passed)
    requires server(Http.Chain(server, url, k)).status != 200
    requires !Http.IsRedirect(server(Http.Chain(server, url, k)).status)
    ensures GetOrDie(server, url, fuel) == Err(Exit(1))
  {
    Http.FollowFinds(server, url, fuel, Http.Passed, k);
  }

  /** Along a chain of `k` redirects that each carry `Location`, a final 200
      gives its body, and a redirect without `Location` raises the
      `TypeError` of `get(None)`. */
  lemma GetOrDieAlongChain(server: Http.Server, url: string, fuel: nat, k: nat)
    requires k <= fuel
    requires forall j :: 0 <= j < k ==> Http.Hops(server(Http.Chain(server, url, j)), Http.Passed)
    ensures var last := server(Http.Chain(server, url, k));
            last.status == 200 ==> GetOrDie(server, url, fuel) == Ok(last.body)
    ensures var last := server(Http.Chain(server, url, k));
            Http.IsRedirect(last.status) && last.location.None? ==> GetOrDie(server, url, fuel) == Err(MissingLocation)
  {
    var last := server(Http.Chain(server, url, k));
    if last.status == 200 {
      Http.FollowFinds(server, url, fuel, Http.Passed, k);
    } else if Http.IsRedirect(last.status) && last.location.None? {
      Http.FollowMissingLocation(server, url, fuel, k);
    }
  }

  // ---------------------------------------------------------------------
  // metadata URL

  /** `get_package_metadata`'s URL: the version path segment only when a
      non-empty version is given. */
  function MetadataUrl(index: string, package: string, version: Option<string>): string {
    "https://" + index + "/pypi/" + PackagePath(package, version) + "/json"
  }

  function PackagePath(package: string, version: Option<string>): string {
    if version.Some? && version.value != [] then package + "/" + version.value else package
  }

  /** Below "/pypi/", the path segments are the package, the version (when
      given) and "json"; with '/'-free names they can be read back. */
  lemma MetadataPathSegments(package: string, version: Option<string>)
    requires '/' !in package && (version.Some? ==> '/' !in version.value)
    ensures version.Some? && version.value != [] ==>
              Split(PackagePath(package, version) + "/json", '/') == [package, version.value, "json"]
    ensures version.None? || version.value == [] ==>
              Split(PackagePath(package, version) + "/json", '/') == [package, "json"]
  {
    assert '/' !in "json";
    if version.Some? && version.value != [] {
      var v := version.value;
      var parts := [package, v, "json"];
      assert parts[1..] == [v, "json"];
      assert parts[1..][1..] == ["json"];
      assert Join(parts[1..], '/') == v + ['/'] + "json";
      assert Join(parts, '/') == package + ['/'] + (v + ['/'] + "json");
      assert "/json" == ['/'] + "json";
      assert package + "/" + v + "/json" == package + ['/'] + (v + ['/'] + "json");
      SplitJoin(parts, '/');
    } else {
      var parts := [package, "json"];
      assert parts[1..] == ["json"];
      assert Join(parts, '/') == package + "/json";
      SplitJoin(parts, '/');
    }
  }

  // ---------------------------------------------------------------------
  // the simple index

  const AnchorOpen: string := "<a href=\""
  const AnchorMid: string := "\">"
  const AnchorClose: string := "</a>"

  /** The link for one package on the simple index page. */
  function Anchor(href: string, text: string): string {
    AnchorOpen + href + AnchorMid + text + AnchorClose
  }

  predicate IsHref(x: string) {
    x != [] && '"' !in x
  }

  predicate IsLinkText(t: string) {
    t != [] && '<' !in t
  }

  /** A non-empty run free of `c`, then `c` and `more`: the run and what
      follows.  This is how `[^c]+` followed by a literal starting with `c`
      matches, since the run cannot give back a `c`. */
  function RunBefore(s: string, c: char, more: string): (r: Option<(string, string)>)
    ensures r.Some? ==> r.value.0 != [] && c !in r.value.0 && s == r.value.0 + ([c] + (more + r.value.1))
  {
    var i := Find(s, c);
    if i <= 0 || !StartsWith(s[i + 1..], more) then None
    else
      var x, rest := s[..i], s[i + 1 + |more|..];
      assert s == x + ([c] + (more + rest)) by {
        assert s == x + s[i..];
        assert s[i..] == [c] + s[i + 1..];
        assert s[i + 1..] == more + rest;
      }
      Some((x, rest))
  }

  lemma RunBeforeOf(x: string, c: char, more: string, rest: string)
    requires x != [] && c !in x
    ensures RunBefore(x + ([c] + (more + rest)), c, more) == Some((x, rest))
  {
    var s := x + ([c] + (more + rest));
    assert s == x + [c] + (more + rest);
    FindAfter(x, c, more + rest);
    assert s[|x| + 1..] == more + rest;
    assert s[|x| + 1..][..|more|] == more;
    assert s[|x| + 1 + |more|..] == rest;
  }

  /** `PACKAGE_LINK.match(line.lstrip())`: after leading whitespace, an
      anchor with a non-empty, quote-free target and a non-empty text free
      of '<'; the group is that text. */
  function ParseLink(line: string): (r: Option<string>)
    ensures r.Some? ==> IsLinkText(r.value)
  {
    ParseAnchor(LStrip(line, IsSpace))
  }

  /** What a recognised line looks like: after its indentation, an anchor
      of the recognised text with a valid target. */
  lemma ParseLinkShape(line: string)
    ensures ParseLink(line).Some? ==>
              exists x, rest :: IsHref(x) && LStrip(line, IsSpace) == Anchor(x, ParseLink(line).value) + rest
  {
  }

  /** `PACKAGE_LINK.match` on a line with no leading whitespace. */
  function ParseAnchor(l: string): (r: Option<string>)
    ensures r.Some? ==> IsLinkText(r.value)
    ensures r.Some? ==> exists x, rest :: IsHref(x) && l == Anchor(x, r.value) + rest
  {
    if !StartsWith(l, AnchorOpen) then None
    else match RunBefore(l[|AnchorOpen|..], '"', ">")
      case None => None
      case Some((x, after)) =>
        match RunBefore(after, '<', "/a>")
        case None => None
        case Some((t, rest)) =>
          AnchorFound(l, x, after, t, rest);
          Some(t)
  }

  lemma AnchorFound(l: string, x: string, after: string, t: string, rest: string)
    requires StartsWith(l, AnchorOpen)
    requires l[|AnchorOpen|..] == x + (['"'] + (">" + after))
    requires after == t + (['<'] + ("/a>" + rest))
    ensures l == Anchor(x, t) + rest
  {
    assert l == AnchorOpen + l[|AnchorOpen|..];
    AnchorShape(l, x, t, rest);
  }

  lemma AnchorShape(l: string, x: string, t: string, rest: string)
    requires l == AnchorOpen + (x + (['"'] + (">" + (t + (['<'] + ("/a>" + rest))))))
    ensures l == Anchor(x, t) + rest
  {
    assert AnchorMid == ['"'] + ">";
    assert AnchorClose == ['<'] + "/a>";
  }

  /** Round trip: an index line holding a package's anchor after any
      indentation yields the package's link text. */
  lemma ParseLinkOf(indent: string, href: string, text: string, rest: string)
    requires forall j :: 0 <= j < |indent| ==> IsSpace(indent[j])
    requires IsHref(href) && IsLinkText(text)
    ensures ParseLink(indent + (Anchor(href, text) + rest)) == Some(text)
  {
    ParseAnchorOf(href, text, rest);
    AnchorStart(href, text, rest);
    ParseIndented(indent, Anchor(href, text) + rest, text);
  }

  lemma AnchorStart(href: string, text: string, rest: string)
    ensures var a := Anchor(href, text) + rest;
            a != [] && !IsSpace(a[0])
  {
    assert (Anchor(href, text) + rest)[0] == AnchorOpen[0];
  }

  /** Indentation in front of a recognised anchor changes nothing. */
  lemma ParseIndented(indent: string, a: string, text: string)
    requires forall j :: 0 <= j < |indent| ==> IsSpace(indent[j])
    requires a != [] && !IsSpace(a[0]) && ParseAnchor(a) == Some(text)
    ensures ParseLink(indent + a) == Some(text)
  {
    LStripPast(indent, a);
  }

  /** Round trip without indentation. */
  lemma ParseAnchorOf(href: string, text: string, rest: string)
    requires IsHref(href) && IsLinkText(text)
    ensures ParseAnchor(Anchor(href, text) + rest) == Some(text)
  {
    var inner := text + (['<'] + ("/a>" + rest));
    var after := href + (['"'] + (">" + inner));
    var a := AnchorOpen + after;
    AnchorShape(a, href, text, rest);
    assert a[|AnchorOpen|..] == after;
    RunBeforeOf(href, '"', ">", inner);
    RunBeforeOf(text, '<', "/a>", rest);
    ParseAnchorSteps(a, href, inner, text, rest);
  }

  /** `ParseAnchor` once both runs are known. */
  lemma ParseAnchorSteps(l: string, x: string, after: string, t: string, rest: string)
    requires StartsWith(l, AnchorOpen)
    requires RunBefore(l[|AnchorOpen|..], '"', ">") == Some((x, after))
    requires RunBefore(after, '<', "/a>") == Some((t, rest))
    ensures ParseAnchor(l) == Some(t)
  {
  }

  /** `lstrip()` removes exactly the leading whitespace. */
  lemma LStripPast(indent: string, a: string)
    requires forall j :: 0 <= j < |indent| ==> IsSpace(indent[j])
    requires a != [] && !IsSpace(a[0])
    ensures LStrip(indent + a, IsSpace) == a
  {
    var s := indent + a;
    assert forall j :: 0 <= j < |indent| ==> s[j] == indent[j];
    assert s[|indent|] == a[0];
    assert SkipFrom(s, IsSpace, 0) == |indent|;
  }

  /** The recogniser's answer for every line. */
  function Links(lines: seq<string>): (r: seq<Option<string>>)
    ensures |r| == |lines| && forall i :: 0 <= i < |lines| ==> r[i] == ParseLink(lines[i])
  {
    seq(|lines|, i requires 0 <= i < |lines| => ParseLink(lines[i]))
  }

  /** The texts of the recognised lines, in order. */
  function Somes(xs: seq<Option<string>>): (r: seq<string>)
    ensures |r| <= |xs|
    decreases |xs|
  {
    if |xs| == 0 then []
    else (if xs[0].Some? then [xs[0].value] else []) + Somes(xs[1..])
  }

  /** The names of the lines that hold a package link, in line order:
      lines without one are skipped. */
  function PackageNames(lines: seq<string>): (r: seq<string>)
    ensures |r| <= |lines|
  {
    Somes(Links(lines))
  }

  /** A text is listed exactly when some line yields it. */
  lemma PackageNamesMembers(lines: seq<string>)
    ensures forall n :: n in PackageNames(lines) <==> exists i :: 0 <= i < |lines| && ParseLink(lines[i]) == Some(n)
  {
    var xs := Links(lines);
    SomesMembers(xs);
    forall n ensures Some(n) in xs <==> exists i :: 0 <= i < |lines| && ParseLink(lines[i]) == Some(n) {
      if Some(n) in xs {
        var i :| 0 <= i < |xs| && xs[i] == Some(n);
        assert ParseLink(lines[i]) == Some(n);
      }
    }
  }

  lemma {:induction false} SomesMembers(xs: seq<Option<string>>)
    ensures forall n :: n in Somes(xs) <==> Some(n) in xs
    decreases |xs|
  {
    if |xs| > 0 {
      SomesMembers(xs[1..]);
      assert xs == [xs[0]] + xs[1..];
    }
  }

  lemma {:induction false} SomesSplits(xs: seq<Option<string>>, ys: seq<Option<string>>)
    ensures Somes(xs + ys) == Somes(xs) + Somes(ys)
    decreases |xs|
  {
    if |xs| == 0 {
      assert xs + ys == ys;
    } else {
      assert (xs + ys)[0] == xs[0];
      assert (xs + ys)[1..] == xs[1..] + ys;
      SomesSplits(xs[1..], ys);
    }
  }

  /** Line order is kept: the names of two runs of lines are the names of
      the first followed by those of the second. */
  lemma PackageNamesSplits(xs: seq<string>, ys: seq<string>)
    ensures PackageNames(xs + ys) == PackageNames(xs) + PackageNames(ys)
  {
    assert Links(xs + ys) == Links(xs) + Links(ys);
    SomesSplits(Links(xs), Links(ys));
  }

  /** A line without a link adds no name; a line with one adds its text. */
  lemma PackageNamesOne(line: string)
    ensures PackageNames([line]) == if ParseLink(line).Some? then [ParseLink(line).value] else []
  {
    assert Links([line])[1..] == [];
  }

  /** The lines of a simple index page listing the given packages. */
  function IndexLines(hrefs: seq<string>, names: seq<string>): (r: seq<string>)
    requires |hrefs| == |names|
    ensures |r| == |names|
    decreases |names|
  {
    if |names| == 0 then [] else [Anchor(hrefs[0], names[0])] + IndexLines(hrefs[1..], names[1..])
  }

  /** Listing a page that links every package gives all the packages, in
      page order. */
  lemma PackageNamesOfIndex(hrefs: seq<string>, names: seq<string>)
    requires |hrefs| == |names|
    requires forall i :: 0 <= i < |names| ==> IsHref(hrefs[i]) && IsLinkText(names[i])
    ensures PackageNames(IndexLines(hrefs, names)) == names
  {
    var ls := IndexLines(hrefs, names);
    forall i | 0 <= i < |ls| ensures ParseLink(ls[i]) == Some(names[i]) {
      IndexLinesAt(hrefs, names, i);
      ParseLinkAnchor(hrefs[i], names[i]);
    }
    PackageNamesAll(ls, names);
  }

  lemma {:induction false} IndexLinesAt(hrefs: seq<string>, names: seq<string>, i: nat)
    requires |hrefs| == |names| && i < |names|
    ensures IndexLines(hrefs, names)[i] == Anchor(hrefs[i], names[i])
    decreases i
  {
    if i > 0 { IndexLinesAt(hrefs[1..], names[1..], i - 1); }
  }

  /** Lines that each hold a link give their texts, in order. */
  lemma PackageNamesAll(lines: seq<string>, names: seq<string>)
    requires |lines| == |names|
    requires forall i :: 0 <= i < |lines| ==> ParseLink(lines[i]) == Some(names[i])
    ensures PackageNames(lines) == names
  {
    SomesAll(Links(lines), names);
  }

  lemma {:induction false} SomesAll(xs: seq<Option<string>>, names: seq<string>)
    requires |xs| == |names| && forall i :: 0 <= i < |xs| ==> xs[i] == Some(names[i])
    ensures Somes(xs) == names
    decreases |xs|
  {
    if |xs| > 0 {
      SomesAll(xs[1..], names[1..]);
      assert names == [names[0]] + names[1..];
    }
  }

  lemma ParseLinkAnchor(href: string, text: string)
    requires IsHref(href) && IsLinkText(text)
    ensures ParseLink(Anchor(href, text)) == Some(text)
  {
    ParseLinkOf("", href, text, "");
    assert "" + (Anchor(href, text) + "") == Anchor(href, text);
  }

  const SimplePath: string := "/simple"

  /** `list_packages_or_die`: the simple index is fetched; a final status
      other than 200 exits with 1.  A name is listed exactly when some line
      of the fetched page yields it, in line order. */
  function ListPackagesOrDie(server: Http.Server, index: string, fuel: nat): (r: Result<seq<string>>)
    ensures var f := Http.Follow(server, "https://" + index + SimplePath, fuel, Http.Passed);
            && (r.Ok? <==> f.Ok? && f.value.status == 200)
            && (f.Ok? && f.value.status != 200 ==> r == Err(Exit(1)))
            && (f.Err? ==> r == Err(f.error))
    ensures r.Ok? ==>
              var lines := Split(Http.Follow(server, "https://" + index + SimplePath, fuel, Http.Passed).value.body, '\n');
              && r.value == PackageNames(lines)
              && forall n :: n in r.value <==> exists i :: 0 <= i < |lines| && ParseLink(lines[i]) == Some(n)
  {
    match GetOrDie(server, "https://" + index + SimplePath, fuel)
    case Err(e) => Err(e)
    case Ok(body) =>
      PackageNamesMembers(Split(body, '\n'));
      Ok(PackageNames(Split(body, '\n')))
  }

  // ---------------------------------------------------------------------
  // releases

  /** One distribution file of a release: its `packagetype` and `url`. */
  datatype Dist = Dist(packageType: string, url: string)

  /** One entry of the `releases` object: a version and its files. */
  datatype Release = Release(version: string, dists: seq<Dist>)

  /** The versions of a `releases` object, in order. */
  function Versions(releases: seq<Release>): (r: seq<string>)
    ensures |r| == |releases| && forall i :: 0 <= i < |r| ==> r[i] == releases[i].version
  {
    seq(|releases|, i requires 0 <= i < |releases| => releases[i].version)
  }

  /** A JSON object has no duplicate keys once decoded. */
  predicate DistinctVersions(releases: seq<Release>) {
    forall i, j :: 0 <= i < j < |releases| ==> releases[i].version != releases[j].version
  }

  /** `versions`: the release keys, one per line. */
  function VersionsText(releases: seq<Release>): string {
    Join(Versions(releases), '\n')
  }

  /** The printed versions can be read back line by line, when no version
      holds a newline and there is at least one release. */
  lemma VersionsTextRoundTrip(releases: seq<Release>)
    requires |releases| >= 1
    requires forall i :: 0 <= i < |releases| ==> '\n' !in releases[i].version
    ensures Split(VersionsText(releases), '\n') == Versions(releases)
  {
    SplitJoin(Versions(releases), '\n');
  }

  /** The first `sdist` file of a release. */
  function FirstSdist(dists: seq<Dist>): (r: Option<Dist>)
    ensures r.None? <==> forall i :: 0 <= i < |dists| ==> dists[i].packageType != "sdist"
    ensures r.Some? ==> exists i :: 0 <= i < |dists| && dists[i] == r.value && r.value.packageType == "sdist"
                                    && forall j :: 0 <= j < i ==> dists[j].packageType != "sdist"
    decreases |dists|
  {
    if |dists| == 0 then None
    else if dists[0].packageType == "sdist" then Some(dists[0])
    else
      var r := FirstSdist(dists[1..]);
      FirstSdistShift(dists, r);
      r
  }

  lemma FirstSdistShift(dists: seq<Dist>, r: Option<Dist>)
    requires |dists| > 0 && dists[0].packageType != "sdist"
    requires r.None? <==> forall i :: 0 <= i < |dists[1..]| ==> dists[1..][i].packageType != "sdist"
    requires r.Some? ==> exists i :: 0 <= i < |dists[1..]| && dists[1..][i] == r.value && r.value.packageType == "sdist"
                                    && forall j :: 0 <= j < i ==> dists[1..][j].packageType != "sdist"
    ensures r.None? <==> forall i :: 0 <= i < |dists| ==> dists[i].packageType != "sdist"
    ensures r.Some? ==> exists i :: 0 <= i < |dists| && dists[i] == r.value && r.value.packageType == "sdist"
                                    && forall j :: 0 <= j < i ==> dists[j].packageType != "sdist"
  {
    if r.None? {
      forall i | 0 < i < |dists| ensures dists[i].packageType != "sdist" {
        assert dists[i] == dists[1..][i - 1];
      }
    } else {
      var i :| 0 <= i < |dists[1..]| && dists[1..][i] == r.value && r.value.packageType == "sdist"
               && forall j :: 0 <= j < i ==> dists[1..][j].packageType != "sdist";
      assert dists[i + 1] == r.value;
      forall j | 0 <= j < i + 1 ensures dists[j].packageType != "sdist" {
        if j > 0 { assert dists[j] == dists[1..][j - 1]; }
      }
    }
  }

  /** `sdist`: for every release of the requested version, the URL of its
      first `sdist` file, if it has one. */
  function SdistUrls(releases: seq<Release>, version: string): seq<string>
    decreases |releases|
  {
    if |releases| == 0 then []
    else
      var here := if releases[0].version == version && FirstSdist(releases[0].dists).Some?
                  then [FirstSdist(releases[0].dists).value.url] else [];
      here + SdistUrls(releases[1..], version)
  }

  /** With distinct versions, `sdist` prints the first `sdist` URL of the
      requested release when there is one, and nothing otherwise: at most
      one line. */
  lemma {:induction false} SdistAtMostOne(releases: seq<Release>, version: string)
    requires DistinctVersions(releases)
    ensures |SdistUrls(releases, version)| <= 1
    ensures forall i :: 0 <= i < |releases| && releases[i].version == version ==>
              SdistUrls(releases, version)
                == (if FirstSdist(releases[i].dists).Some? then [FirstSdist(releases[i].dists).value.url] else [])
    decreases |releases|
  {
    if |releases| > 0 {
      var tail := releases[1..];
      assert DistinctVersions(tail) by {
        forall i, j | 0 <= i < j < |tail| ensures tail[i].version != tail[j].version {
          assert tail[i] == releases[i + 1] && tail[j] == releases[j + 1];
        }
      }
      SdistAtMostOne(tail, version);
      if releases[0].version == version {
        NoneMatch(tail, version, releases);
        SdistNoMatch(tail, version);
      }
      forall i | 0 < i < |releases| && releases[i].version == version
        ensures SdistUrls(releases, version)
                == (if FirstSdist(releases[i].dists).Some? then [FirstSdist(releases[i].dists).value.url] else [])
      {
        assert tail[i - 1] == releases[i];
      }
    }
  }

  /** `sdist` prints nothing when no release has the requested version. */
  lemma {:induction false} SdistNoMatch(releases: seq<Release>, version: string)
    requires forall i :: 0 <= i < |releases| ==> releases[i].version != version
    ensures SdistUrls(releases, version) == []
    decreases |releases|
  {
    if |releases| > 0 {
      assert releases[0].version != version;
      forall i | 0 <= i < |releases[1..]| ensures releases[1..][i].version != version {
        assert releases[1..][i] == releases[i + 1];
      }
      SdistNoMatch(releases[1..], version);
    }
  }

  lemma NoneMatch(tail: seq<Release>, version: string, releases: seq<Release>)
    requires |releases| > 0 && tail == releases[1..] && DistinctVersions(releases)
    requires releases[0].version == version
    ensures forall i :: 0 <= i < |tail| ==> tail[i].version != version
  {
    forall i | 0 <= i < |tail| ensures tail[i].version != version {
      assert tail[i] == releases[i + 1];
    }
  }

  predicate IsBdist(d: Dist) {
    StartsWith(d.packageType, "bdist")
  }

  /** The binary files of a list, in their order. */
  function BinaryDists(dists: seq<Dist>): (r: seq<Dist>)
    ensures forall i :: 0 <= i < |r| ==> IsBdist(r[i])
    ensures forall d :: d in r <==> d in dists && IsBdist(d)
    decreases |dists|
  {
    if |dists| == 0 then []
    else if IsBdist(dists[0]) then [dists[0]] + BinaryDists(dists[1..])
    else BinaryDists(dists[1..])
  }

  /** The binary files of two runs are those of the first, then those of
      the second: the order is kept. */
  lemma {:induction false} BinaryDistsSplits(xs: seq<Dist>, ys: seq<Dist>)
    ensures BinaryDists(xs + ys) == BinaryDists(xs) + BinaryDists(ys)
    decreases |xs|
  {
    if |xs| == 0 {
      assert xs + ys == ys;
    } else {
      assert (xs + ys)[1..] == xs[1..] + ys;
      BinaryDistsSplits(xs[1..], ys);
    }
  }

  /** `bdists`: every binary file of every release of the requested
      version, in order. */
  function Bdists(releases: seq<Release>, version: string): seq<Dist>
    decreases |releases|
  {
    if |releases| == 0 then []
    else
      (if releases[0].version == version then BinaryDists(releases[0].dists) else [])
      + Bdists(releases[1..], version)
  }

  /** With distinct versions, `bdists` gives exactly the binary files of the
      requested release, in their order, and nothing when there is none. */
  lemma {:induction false} BdistsOfRelease(releases: seq<Release>, version: string)
    requires DistinctVersions(releases)
    ensures forall i :: 0 <= i < |releases| && releases[i].version == version ==>
              Bdists(releases, version) == BinaryDists(releases[i].dists)
    ensures (forall i :: 0 <= i < |releases| ==> releases[i].version != version) ==> Bdists(releases, version) == []
    decreases |releases|
  {
    if |releases| > 0 {
      var tail := releases[1..];
      assert DistinctVersions(tail) by {
        forall i, j | 0 <= i < j < |tail| ensures tail[i].version != tail[j].version {
          assert tail[i] == releases[i + 1] && tail[j] == releases[j + 1];
        }
      }
      BdistsOfRelease(tail, version);
      if releases[0].version == version {
        NoneMatch(tail, version, releases);
        assert Bdists(releases, version) == BinaryDists(releases[0].dists) + [];
      }
      forall i | 0 < i < |releases| && releases[i].version == version
        ensures Bdists(releases, version) == BinaryDists(releases[i].dists)
      {
        assert tail[i - 1] == releases[i];
      }
    }
  }

  /** `get_package_metadata_or_die` followed by the decoding of the
      `releases` object: the releases are those of the final 200 answer for
      the metadata URL; any other final status exits with 1. */
  function Releases(server: Http.Server, decode: string -> seq<Release>, index: string,
                    package: string, version: Option<string>, fuel: nat): (r: Result<seq<Release>>)
    ensures var f := Http.Follow(server, MetadataUrl(index, package, version), fuel, Http.Passed);
            && (r.Ok? <==> f.Ok? && f.value.status == 200)
            && (r.Ok? ==> r.value == decode(f.value.body))
            && (f.Ok? && f.value.status != 200 ==> r == Err(Exit(1)))
            && (f.Err? ==> r == Err(f.error))
  {
    match GetOrDie(server, MetadataUrl(index, package, version), fuel)
    case Err(e) => Err(e)
    case Ok(body) => Ok(decode(body))
  }

  // ---------------------------------------------------------------------
  // subcommands

  /** `sdist`: the metadata is fetched without a version. */
  function SdistCommand(server: Http.Server, decode: string -> seq<Release>, index: string,
                        package: string, version: string, fuel: nat): (r: Result<seq<string>>)
    ensures var rel := Releases(server, decode, index, package, None, fuel);
            (r.Ok? <==> rel.Ok?) && (rel.Err? ==> r.error == rel.error)
    ensures r.Ok? ==> r.value == SdistUrls(Releases(server, decode, index, package, None, fuel).value, version)
    ensures r.Ok? && DistinctVersions(Releases(server, decode, index, package, None, fuel).value) ==> |r.value| <= 1
    ensures r.Ok? ==>
              var releases := Releases(server, decode, index, package, None, fuel).value;
              DistinctVersions(releases) ==>
                forall i :: 0 <= i < |releases| && releases[i].version == version ==>
                  r.value == (if FirstSdist(releases[i].dists).Some? then [FirstSdist(releases[i].dists).value.url] else [])
    ensures r.Ok? ==>
              var releases := Releases(server, decode, index, package, None, fuel).value;
              (forall i :: 0 <= i < |releases| ==> releases[i].version != version) ==> r.value == []
  {
    match Releases(server, decode, index, package, None, fuel)
    case Err(e) => Err(e)
    case Ok(releases) =>
      SdistOfReleases(releases, version);
      Ok(SdistUrls(releases, version))
  }

  /** What `SdistAtMostOne` and `SdistNoMatch` say, in one place. */
  lemma SdistOfReleases(releases: seq<Release>, version: string)
    ensures DistinctVersions(releases) ==>
              && |SdistUrls(releases, version)| <= 1
              && forall i :: 0 <= i < |releases| && releases[i].version == version ==>
                   SdistUrls(releases, version)
                     == (if FirstSdist(releases[i].dists).Some? then [FirstSdist(releases[i].dists).value.url] else [])
    ensures (forall i :: 0 <= i < |releases| ==> releases[i].version != version) ==> SdistUrls(releases, version) == []
  {
    if DistinctVersions(releases) {
      SdistAtMostOne(releases, version);
    }
    if forall i :: 0 <= i < |releases| ==> releases[i].version != version {
      SdistNoMatch(releases, version);
    }
  }

  /** `bdists`: the metadata is fetched without a version. */
  function BdistsCommand(server: Http.Server, decode: string -> seq<Release>, index: string,
                         package: string, version: string, fuel: nat): (r: Result<seq<Dist>>)
    ensures var rel := Releases(server, decode, index, package, None, fuel);
            (r.Ok? <==> rel.Ok?) && (rel.Err? ==> r.error == rel.error)
    ensures r.Ok? ==> r.value == Bdists(Releases(server, decode, index, package, None, fuel).value, version)
    ensures r.Ok? ==> forall i :: 0 <= i < |r.value| ==> IsBdist(r.value[i])
    ensures r.Ok? ==>
              var releases := Releases(server, decode, index, package, None, fuel).value;
              DistinctVersions(releases) ==>
                forall i :: 0 <= i < |releases| && releases[i].version == version ==>
                  r.value == BinaryDists(releases[i].dists)
    ensures r.Ok? ==>
              var releases := Releases(server, decode, index, package, None, fuel).value;
              (forall i :: 0 <= i < |releases| ==> releases[i].version != version) ==> r.value == []
  {
    match Releases(server, decode, index, package, None, fuel)
    case Err(e) => Err(e)
    case Ok(releases) =>
      BdistsAreBinary(releases, version);
      if DistinctVersions(releases) then BdistsOfRelease(releases, version); Ok(Bdists(releases, version))
      else if forall i :: 0 <= i < |releases| ==> releases[i].version != version then
        BdistsNoMatch(releases, version); Ok(Bdists(releases, version))
      else Ok(Bdists(releases, version))
  }

  /** `bdists` gives nothing when no release has the requested version. */
  lemma {:induction false} BdistsNoMatch(releases: seq<Release>, version: string)
    requires forall i :: 0 <= i < |releases| ==> releases[i].version != version
    ensures Bdists(releases, version) == []
    decreases |releases|
  {
    if |releases| > 0 {
      assert releases[0].version != version;
      forall i | 0 <= i < |releases[1..]| ensures releases[1..][i].version != version {
        assert releases[1..][i] == releases[i + 1];
      }
      BdistsNoMatch(releases[1..], version);
    }
  }

  lemma {:induction false} BdistsAreBinary(releases: seq<Release>, version: string)
    ensures forall i :: 0 <= i < |Bdists(releases, version)| ==> IsBdist(Bdists(releases, version)[i])
    decreases |releases|
  {
    if |releases| > 0 {
      BdistsAreBinary(releases[1..], version);
      var here := if releases[0].version == version then BinaryDists(releases[0].dists) else [];
      var b := Bdists(releases, version);
      assert b == here + Bdists(releases[1..], version);
      forall i | 0 <= i < |b| ensures IsBdist(b[i]) {
        if i >= |here| { assert b[i] == Bdists(releases[1..], version)[i - |here|]; }
      }
    }
  }

  /** `versions`: the metadata is fetched without a version. */
  function VersionsCommand(server: Http.Server, decode: string -> seq<Release>, index: string,
                           package: string, fuel: nat): (r: Result<string>)
    ensures var rel := Releases(server, decode, index, package, None, fuel);
            (r.Ok? <==> rel.Ok?) && (rel.Err? ==> r.error == rel.error)
            && (rel.Ok? && |rel.value| >= 1 && (forall i :: 0 <= i < |rel.value| ==> '\n' !in rel.value[i].version)
                ==> Split(r.value, '\n') == Versions(rel.value))
  {
    match Releases(server, decode, index, package, None, fuel)
    case Err(e) => Err(e)
    case Ok(releases) =>
      if |releases| >= 1 && (forall i :: 0 <= i < |releases| ==> '\n' !in releases[i].version)
      then VersionsTextRoundTrip(releases); Ok(VersionsText(releases))
      else Ok(VersionsText(releases))
  }

  /** `show`: the metadata of a package, or of one version of it; the JSON
      text printed is the body of the final 200 answer for the metadata URL,
      and any other final status exits with 1. */
  function ShowCommand(server: Http.Server, index: string, package: string,
                       version: Option<string>, fuel: nat): (r: Result<string>)
    ensures var f := Http.Follow(server, MetadataUrl(index, package, version), fuel, Http.Passed);
            && (r.Ok? <==> f.Ok? && f.value.status == 200)
            && (r.Ok? ==> r.value == f.value.body)
            && (f.Ok? && f.value.status != 200 ==> r == Err(Exit(1)))
            && (f.Err? ==> r == Err(f.error))
  {
    GetOrDie(server, MetadataUrl(index, package, version), fuel)
  }

  /** `show` prints what the redirect-following GET shared with the other
      scripts returns, and exits with 1 exactly where that GET reports a
      final status other than 200. */
  lemma ShowAgreesWithGetFollowing(server: Http.Server, index: string, package: string,
                                   version: Option<string>, fuel: nat)
    ensures var r := ShowCommand(server, index, package, version, fuel);
            var g := Http.GetFollowing(server, MetadataUrl(index, package, version), fuel, Http.Passed);
            && (r.Ok? <==> g.Ok?)
            && (r.Ok? ==> r.value == g.value)
            && (r == Err(Exit(1)) <==> g.Err? && g.error.HttpStatus?)
            && (g.Err? && !g.error.HttpStatus? ==> r == g)
  {
  }

  /** `if version:` treats an empty version as none: `show` then asks for
      the metadata of the whole package. */
  lemma ShowEmptyVersionIsWholePackage(server: Http.Server, index: string, package: string, fuel: nat)
    ensures ShowCommand(server, index, package, Some(""), fuel) == ShowCommand(server, index, package, None, fuel)
  {
  }
}
