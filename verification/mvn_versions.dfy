/** `mvn-versions.py`: read Maven package URLs ("purls") one per line,
    look up every version of each artifact on Maven Central's search API,
    and write one version-qualified purl per version.

    The search service is a `Server` keyed by the request path (the host is
    always `search.maven.org` over TLS, and redirects are not followed);
    the JSON decoding of its answer is the parameter `decode`. */
module MvnVersions {
  import opened Wrappers
  import opened Text
  import Http

  const PurlPrefix: string := "pkg:maven/"

  /** The characters the artifact group `[^@\?#]+` may hold. */
  predicate ArtifactChar(c: char) {
    c != '@' && c != '?' && c != '#'
  }

  predicate IsGroupId(g: string) {
    g != [] && '/' !in g
  }

  predicate IsArtifactId(a: string) {
    a != [] && forall j :: 0 <= j < |a| ==> ArtifactChar(a[j])
  }

  /** What may follow the artifact id: nothing, or a version, qualifier or
      subpath marker. */
  predicate EndsArtifact(tail: string) {
    tail == [] || !ArtifactChar(tail[0])
  }

  /** `ARTIFACT_PURL.match(line)`: the prefix, a group id up to the first
      '/', then the longest run of artifact characters (which may include
      '/'); whatever follows is ignored. */
  function ParsePurl(line: string): (r: Option<(string, string)>)
    ensures r.Some? ==> IsGroupId(r.value.0) && IsArtifactId(r.value.1)
    ensures r.Some? ==> StartsWith(line, PurlPrefix + r.value.0 + "/" + r.value.1)
                        && EndsArtifact(line[|PurlPrefix| + |r.value.0| + 1 + |r.value.1|..])
  {
    if !StartsWith(line, PurlPrefix) then None
    else
      var rest := line[|PurlPrefix|..];
      var i := Find(rest, '/');
      if i <= 0 then None
      else
        var after := rest[i + 1..];
        var j := SkipFrom(after, ArtifactChar, 0);
        if j == 0 then None
        else
          var g, a := rest[..i], after[..j];
          assert line[..|PurlPrefix| + i + 1 + j] == PurlPrefix + g + "/" + a by {
            assert line == PurlPrefix + rest;
            assert rest[..i + 1 + j] == g + "/" + a;
          }
          Some((g, a))
  }

  /** A purl of a group id, an artifact id and anything that cannot continue
      the artifact id parses to those two. */
  lemma ParsePurlOf(g: string, a: string, tail: string)
    requires IsGroupId(g) && IsArtifactId(a) && EndsArtifact(tail)
    ensures ParsePurl(PurlPrefix + g + "/" + a + tail) == Some((g, a))
  {
    var line := PurlPrefix + g + "/" + a + tail;
    var rest := g + "/" + a + tail;
    assert line == PurlPrefix + rest;
    assert line[|PurlPrefix|..] == rest;
    assert rest == g + ['/'] + (a + tail);
    FindAfter(g, '/', a + tail);
    var after := a + tail;
    var j := SkipFrom(after, ArtifactChar, 0);
    assert forall k :: 0 <= k < |a| ==> after[k] == a[k];
    assert |a| < |after| ==> !ArtifactChar(after[|a|]);
    assert j == |a|;
    assert after[..j] == a;
  }

  /** The purl written for one version. */
  function FormatPurl(g: string, a: string, version: string): string {
    PurlPrefix + g + "/" + a + "@" + version
  }

  /** Round trip: every purl written parses back to the artifact it was
      written for, whatever the version. */
  lemma FormatPurlRoundTrip(g: string, a: string, version: string)
    requires IsGroupId(g) && IsArtifactId(a)
    ensures ParsePurl(FormatPurl(g, a, version)) == Some((g, a))
  {
    assert FormatPurl(g, a, version) == PurlPrefix + g + "/" + a + ("@" + version);
    ParsePurlOf(g, a, "@" + version);
  }

  /** A '/' before the artifact id's end belongs to the artifact id. */
  lemma ArtifactKeepsSlash()
    ensures ParsePurl("pkg:maven/g/a/b@1") == Some(("g", "a/b"))
  {
    assert IsArtifactId("a/b") by {
      assert forall j :: 0 <= j < 3 ==> ArtifactChar("a/b"[j]);
    }
    assert "pkg:maven/g/a/b@1" == PurlPrefix + "g" + "/" + "a/b" + "@1";
    ParsePurlOf("g", "a/b", "@1");
  }

  // ---------------------------------------------------------------------
  // the search request

  const SearchPrefix: string := "/solrsearch/select?q=g:"
  const SearchMiddle: string := "+AND+a:"
  const SearchSuffix: string := "&core=gav&rows=10000&wt=json"

  /** `search_url` of `find_versions`. */
  function SearchPath(g: string, a: string): (p: string)
    ensures p == SearchPrefix + g + SearchMiddle + a + SearchSuffix
    ensures StartsWith(p, SearchPrefix + g + SearchMiddle)
    ensures EndsWith(p, SearchMiddle + a + SearchSuffix)
  {
    var p := SearchPrefix + (g + (SearchMiddle + (a + SearchSuffix)));
    assert p[..|SearchPrefix| + |g| + |SearchMiddle|] == SearchPrefix + g + SearchMiddle;
    assert p[|p| - |SearchMiddle + a + SearchSuffix|..] == SearchMiddle + a + SearchSuffix;
    p
  }

  /** Different artifacts are searched with different requests, as long as
      group ids hold no '+' (which Maven group ids never do). */
  lemma SearchPathInjective(g1: string, a1: string, g2: string, a2: string)
    requires '+' !in g1 && '+' !in g2
    requires SearchPath(g1, a1) == SearchPath(g2, a2)
    ensures g1 == g2 && a1 == a2
  {
    PiecesInjective(SearchPrefix, g1, a1, g2, a2, SearchMiddle, SearchSuffix);
  }

  /** `pre + g + mid + a + suf` determines `g` and `a` when `g` cannot hold
      the first character of `mid`. */
  lemma PiecesInjective(pre: string, g1: string, a1: string, g2: string, a2: string, mid: string, suf: string)
    requires mid != [] && mid[0] !in g1 && mid[0] !in g2
    requires pre + (g1 + (mid + (a1 + suf))) == pre + (g2 + (mid + (a2 + suf)))
    ensures g1 == g2 && a1 == a2
  {
    DropPrefix(pre, g1 + (mid + (a1 + suf)), g2 + (mid + (a2 + suf)));
    SeparatorSplits(g1, a1, g2, a2, mid, suf);
  }

  lemma DropPrefix(pre: string, x: string, y: string)
    requires pre + x == pre + y
    ensures x == y
  {
    assert x == (pre + x)[|pre|..];
    assert y == (pre + y)[|pre|..];
  }

  lemma SeparatorSplits(g1: string, a1: string, g2: string, a2: string, mid: string, suf: string)
    requires mid != [] && mid[0] !in g1 && mid[0] !in g2
    requires g1 + (mid + (a1 + suf)) == g2 + (mid + (a2 + suf))
    ensures g1 == g2 && a1 == a2
  {
    var c := mid[0];
    var t1 := mid[1..] + (a1 + suf);
    var t2 := mid[1..] + (a2 + suf);
    assert g1 + (mid + (a1 + suf)) == g1 + [c] + t1;
    assert g2 + (mid + (a2 + suf)) == g2 + [c] + t2;
    FindAfter(g1, c, t1);
    FindAfter(g2, c, t2);
    DropPrefix(mid[1..], a1 + suf, a2 + suf);
    assert a1 == (a1 + suf)[..|a1|];
    assert a2 == (a2 + suf)[..|a2|];
  }

  /** The parts of the decoded answer `find_versions` looks at: no
      `response` object, no `docs` in it, or the docs with their `v` field
      (`None` where a doc lacks one). */
  datatype SearchAnswer = NoResponse | NoDocs | Docs(versions: seq<Option<string>>)

  /** The versions of the docs, in order, or `None` when one lacks `v`. */
  function DocVersions(docs: seq<Option<string>>): (r: Option<seq<string>>)
    ensures r.Some? <==> forall i :: 0 <= i < |docs| ==> docs[i].Some?
    ensures r.Some? ==> |r.value| == |docs| && forall i :: 0 <= i < |docs| ==> r.value[i] == docs[i].value
    decreases |docs|
  {
    if |docs| == 0 then Some([])
    else match docs[0]
      case None => None
      case Some(v) =>
        match DocVersions(docs[1..])
        case None => None
        case Some(rest) => Some([v] + rest)
  }

  /** `find_versions`: a status other than 200 and an answer without docs
      (missing or empty) raise; otherwise every doc's version, in order. */
  function FindVersions(server: Http.Server, decode: string -> SearchAnswer, g: string, a: string): (r: Result<seq<string>>)
    ensures server(SearchPath(g, a)).status != 200 ==> r == Err(HttpStatus(server(SearchPath(g, a)).status))
    ensures r.Ok? ==> server(SearchPath(g, a)).status == 200 && |r.value| > 0
    ensures r.Ok? ==> decode(server(SearchPath(g, a)).body) == Docs(seq(|r.value|, i requires 0 <= i < |r.value| => Some(r.value[i])))
    ensures server(SearchPath(g, a)).status == 200 ==>
              (r == Err(NoVersionsFound) <==> decode(server(SearchPath(g, a)).body) in {NoDocs, Docs([])})
    ensures server(SearchPath(g, a)).status == 200 && decode(server(SearchPath(g, a)).body) == NoResponse ==>
              r == Err(MissingAttribute("response"))
    ensures server(SearchPath(g, a)).status == 200 ==>
              var answer := decode(server(SearchPath(g, a)).body);
              answer.Docs? && answer.versions != [] ==>
                match DocVersions(answer.versions)
                case Some(vs) => r == Ok(vs)
                case None => r == Err(MissingAttribute("v"))
  {
    var resp := server(SearchPath(g, a));
    if resp.status != 200 then Err(HttpStatus(resp.status))
    else match decode(resp.body)
      case NoResponse => Err(MissingAttribute("response"))
      case NoDocs => Err(NoVersionsFound)
      case Docs(docs) =>
        if |docs| == 0 then Err(NoVersionsFound)
        else match DocVersions(docs)
          case None => Err(MissingAttribute("v"))
          case Some(vs) =>
            assert docs == seq(|vs|, i requires 0 <= i < |vs| => Some(vs[i]));
            Ok(vs)
  }

  /** An answer whose docs carry the versions `vs` gives back exactly `vs`,
      in order, whenever there is at least one. */
  lemma FindVersionsOfDocs(server: Http.Server, decode: string -> SearchAnswer, g: string, a: string, vs: seq<string>)
    requires server(SearchPath(g, a)).status == 200
    requires decode(server(SearchPath(g, a)).body) == Docs(seq(|vs|, i requires 0 <= i < |vs| => Some(vs[i])))
    requires vs != []
    ensures FindVersions(server, decode, g, a) == Ok(vs)
  {
    var docs := seq(|vs|, i requires 0 <= i < |vs| => Some(vs[i]));
    assert DocVersions(docs).Some?;
    assert DocVersions(docs).value == vs;
  }

  // ---------------------------------------------------------------------
  // the main loop

  /** What became of one input line. */
  datatype LineOutcome =
    | Skipped                     // empty or a comment
    | Invalid                     // not a purl: logged
    | Failed(error: Error)        // the lookup raised: logged
    | Found(purls: seq<string>)   // one purl per version

  /** The lines written for an artifact's versions, in the order returned. */
  function Purls(g: string, a: string, versions: seq<string>): (r: seq<string>)
    ensures |r| == |versions|
    ensures forall i :: 0 <= i < |r| ==> r[i] == FormatPurl(g, a, versions[i]) + "\n"
  {
    seq(|versions|, i requires 0 <= i < |versions| => FormatPurl(g, a, versions[i]) + "\n")
  }

  /** The body of the loop for one line. */
  function ProcessLine(server: Http.Server, decode: string -> SearchAnswer, line: string): (r: LineOutcome)
    ensures var l := StripSpace(line);
            r == Skipped <==> l == [] || StartsWith(l, "#")
    ensures r == Invalid <==> r != Skipped && ParsePurl(StripSpace(line)).None?
    ensures r.Found? ==> var p := ParsePurl(StripSpace(line));
                         p.Some? && FindVersions(server, decode, p.value.0, p.value.1).Ok?
                         && r.purls == Purls(p.value.0, p.value.1, FindVersions(server, decode, p.value.0, p.value.1).value)
    ensures r.Failed? ==> var p := ParsePurl(StripSpace(line));
                          p.Some? && FindVersions(server, decode, p.value.0, p.value.1) == Err(r.error)
    ensures var l := StripSpace(line);
            !(l == [] || StartsWith(l, "#")) && ParsePurl(l).Some? ==>
              (r.Found? <==> FindVersions(server, decode, ParsePurl(l).value.0, ParsePurl(l).value.1).Ok?)
  {
    var l := StripSpace(line);
    if l == [] || StartsWith(l, "#") then Skipped
    else match ParsePurl(l)
      case None => Invalid
      case Some(ga) =>
        match FindVersions(server, decode, ga.0, ga.1)
        case Err(e) => Failed(e)
        case Ok(vs) => Found(Purls(ga.0, ga.1, vs))
  }

  function Written(o: LineOutcome): seq<string> {
    if o.Found? then o.purls else []
  }

  /** Standard output of a run over the input lines. */
  function Output(server: Http.Server, decode: string -> SearchAnswer, lines: seq<string>): seq<string>
    decreases |lines|
  {
    if |lines| == 0 then []
    else Written(ProcessLine(server, decode, lines[0])) + Output(server, decode, lines[1..])
  }

  /** A line's failure does not stop the run: the output of the input is the
      output of its first part followed by that of the rest. */
  lemma {:induction false} OutputSplits(server: Http.Server, decode: string -> SearchAnswer, xs: seq<string>, ys: seq<string>)
    ensures Output(server, decode, xs + ys) == Output(server, decode, xs) + Output(server, decode, ys)
    decreases |xs|
  {
    if |xs| > 0 {
      assert (xs + ys)[1..] == xs[1..] + ys;
      OutputSplits(server, decode, xs[1..], ys);
    } else {
      assert xs + ys == ys;
    }
  }

  /** A skipped, invalid or failing line writes nothing; a found artifact
      writes one purl per version, each naming that artifact. */
  lemma LineWrites(server: Http.Server, decode: string -> SearchAnswer, line: string)
    ensures var o := ProcessLine(server, decode, line);
            !o.Found? ==> Output(server, decode, [line]) == []
    ensures var o := ProcessLine(server, decode, line);
            o.Found? ==>
              var ga := ParsePurl(StripSpace(line)).value;
              var vs := FindVersions(server, decode, ga.0, ga.1).value;
              Output(server, decode, [line]) == Purls(ga.0, ga.1, vs)
              && forall i :: 0 <= i < |vs| ==> ParsePurl(FormatPurl(ga.0, ga.1, vs[i])) == Some(ga)
  {
    var o := ProcessLine(server, decode, line);
    assert [line][1..] == [];
    if o.Found? {
      var ga := ParsePurl(StripSpace(line)).value;
      var vs := FindVersions(server, decode, ga.0, ga.1).value;
      forall i | 0 <= i < |vs| ensures ParsePurl(FormatPurl(ga.0, ga.1, vs[i])) == Some(ga) {
        FormatPurlRoundTrip(ga.0, ga.1, vs[i]);
      }
      assert Output(server, decode, [line]) == o.purls + [];
    }
  }
}
