/** The layout of an APT repository as `apt-inspect.py` and `apt-repo-dl.py`
    both build it: an `Archive` of repository URL, distribution, area and
    architecture, each stripped of slashes at both ends, and the URLs of the
    binary (`Packages.gz`) and source (`Sources.gz`) indices under
    `dists/<dist>/<area>/`. */
module AptArchive {
  import opened Text

  datatype Archive = Archive(repo: string, dist: string, area: string, arch: string)

  /** No leading or trailing '/'. */
  predicate SlashTrimmed(s: string) {
    s == [] || (s[0] != '/' && s[|s| - 1] != '/')
  }

  predicate Normalised(a: Archive) {
    SlashTrimmed(a.repo) && SlashTrimmed(a.dist) && SlashTrimmed(a.area) && SlashTrimmed(a.arch)
  }

  /** `Archive.__init__`: every component is passed through `strip('/')`. */
  function NewArchive(repo: string, dist: string, area: string, arch: string): (a: Archive)
    ensures Normalised(a)
    ensures exists i :: TrimmedAt(repo, a.repo, i, IsSlash)
    ensures exists i :: TrimmedAt(dist, a.dist, i, IsSlash)
    ensures exists i :: TrimmedAt(area, a.area, i, IsSlash)
    ensures exists i :: TrimmedAt(arch, a.arch, i, IsSlash)
  {
    Archive(Strip(repo, IsSlash), Strip(dist, IsSlash), Strip(area, IsSlash), Strip(arch, IsSlash))
  }

  /** Building an archive from the components of one changes nothing: the
      normalisation is idempotent. */
  lemma NewArchiveIdempotent(repo: string, dist: string, area: string, arch: string)
    ensures var a := NewArchive(repo, dist, area, arch);
            NewArchive(a.repo, a.dist, a.area, a.arch) == a
  {
    StripIdempotent(repo, IsSlash);
    StripIdempotent(dist, IsSlash);
    StripIdempotent(area, IsSlash);
    StripIdempotent(arch, IsSlash);
  }

  /** The path segments below the repository URL of the binary index. */
  function PackagesSegments(a: Archive): seq<string> {
    ["dists", a.dist, a.area, "binary-" + a.arch, "Packages.gz"]
  }

  /** The path segments below the repository URL of the source index. */
  function SourcesSegments(a: Archive): seq<string> {
    ["dists", a.dist, a.area, "source", "Sources.gz"]
  }

  /** `packages_url`. */
  function PackagesUrl(a: Archive): (u: string)
    ensures StartsWith(u, a.repo + "/dists/")
    ensures EndsWith(u, "/Packages.gz")
  {
    a.repo + ("/dists/" + (a.dist + ("/" + (a.area + ("/binary-" + (a.arch + "/Packages.gz"))))))
  }

  /** `sources_url`. */
  function SourcesUrl(a: Archive): (u: string)
    ensures StartsWith(u, a.repo + "/dists/")
    ensures EndsWith(u, "/Sources.gz")
  {
    a.repo + ("/dists/" + (a.dist + ("/" + (a.area + "/source/Sources.gz"))))
  }

  /** The binary-index URL is the repository URL followed by its segments
      joined with '/'. */
  lemma PackagesUrlIsJoin(a: Archive)
    ensures PackagesUrl(a) == a.repo + "/" + Join(PackagesSegments(a), '/')
  {
    var b := "binary-" + a.arch;
    JoinFive("dists", a.dist, a.area, b, "Packages.gz");
    var t3 := "/binary-" + (a.arch + "/Packages.gz");
    assert t3 == "/" + (b + ("/" + "Packages.gz"));
    var t1 := a.dist + ("/" + (a.area + t3));
    LiteralSlashes("dists", t1);
    Assoc(a.repo, "/", Join(PackagesSegments(a), '/'));
  }

  /** The source-index URL is the repository URL followed by its segments
      joined with '/'. */
  lemma SourcesUrlIsJoin(a: Archive)
    ensures SourcesUrl(a) == a.repo + "/" + Join(SourcesSegments(a), '/')
  {
    JoinFive("dists", a.dist, a.area, "source", "Sources.gz");
    assert "/source/Sources.gz" == "/" + ("source" + ("/" + "Sources.gz"));
    var t1 := a.dist + ("/" + (a.area + "/source/Sources.gz"));
    LiteralSlashes("dists", t1);
    Assoc(a.repo, "/", Join(SourcesSegments(a), '/'));
  }

  lemma LiteralSlashes(x: string, y: string)
    requires x == "dists"
    ensures "/" + (x + ("/" + y)) == "/dists/" + y
  {
    assert "/" + (x + ("/" + y)) == ("/" + x + "/") + y;
  }

  lemma Assoc(x: string, y: string, z: string)
    ensures x + y + z == x + (y + z)
  {
  }

  lemma JoinFive(s0: string, s1: string, s2: string, s3: string, s4: string)
    ensures Join([s0, s1, s2, s3, s4], '/') == s0 + ("/" + (s1 + ("/" + (s2 + ("/" + (s3 + ("/" + s4)))))))
  {
    var p := [s0, s1, s2, s3, s4];
    assert p[1..] == [s1, s2, s3, s4];
    assert p[1..][1..] == [s2, s3, s4];
    assert p[1..][1..][1..] == [s3, s4];
    assert p[1..][1..][1..][1..] == [s4];
    assert Join([s3, s4], '/') == s3 + ("/" + s4);
    assert Join([s2, s3, s4], '/') == s2 + ("/" + Join([s3, s4], '/'));
    assert Join([s1, s2, s3, s4], '/') == s1 + ("/" + Join([s2, s3, s4], '/'));
  }

  /** When distribution, area and architecture hold no '/' (which holds for
      every name the Debian archive uses), splitting the part of the URL
      below the repository on '/' gives back the segments, so the URL
      determines the components. */
  lemma SegmentsRecoverable(a: Archive)
    requires '/' !in a.dist && '/' !in a.area && '/' !in a.arch
    ensures Split(Join(PackagesSegments(a), '/'), '/') == PackagesSegments(a)
    ensures Split(Join(SourcesSegments(a), '/'), '/') == SourcesSegments(a)
  {
    var p := PackagesSegments(a);
    assert '/' !in "binary-" + a.arch by {
      assert forall j :: 0 <= j < 7 ==> ("binary-" + a.arch)[j] == "binary-"[j];
    }
    SplitJoin(p, '/');
    SplitJoin(SourcesSegments(a), '/');
  }

  /** Two archives whose slash-free distribution, area and architecture
      differ in any component have different binary-index URLs (for the same
      repository). */
  lemma PackagesUrlInjective(a: Archive, b: Archive)
    requires a.repo == b.repo
    requires '/' !in a.dist && '/' !in a.area && '/' !in a.arch
    requires '/' !in b.dist && '/' !in b.area && '/' !in b.arch
    requires PackagesUrl(a) == PackagesUrl(b)
    ensures a == b
  {
    PackagesUrlIsJoin(a);
    PackagesUrlIsJoin(b);
    var pa := Join(PackagesSegments(a), '/');
    var pb := Join(PackagesSegments(b), '/');
    assert PackagesUrl(a)[|a.repo| + 1..] == pa;
    assert PackagesUrl(b)[|b.repo| + 1..] == pb;
    SegmentsRecoverable(a);
    SegmentsRecoverable(b);
    assert PackagesSegments(a) == PackagesSegments(b);
    assert ("binary-" + a.arch)[7..] == a.arch;
    assert ("binary-" + b.arch)[7..] == b.arch;
  }

  /** The source index does not depend on the architecture. */
  lemma SourcesUrlIgnoresArch(a: Archive, arch: string)
    ensures SourcesUrl(a.(arch := arch)) == SourcesUrl(a)
  {
  }
}
