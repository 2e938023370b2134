/** `apt-repo-dl.py`: download the binary or source index of an APT
    repository to a file.  The archive layout is `AptArchive`'s; the
    download makes one request, over plain HTTP for "http" URLs and TLS
    otherwise, and anything but 200 is an error. */
module AptRepoDl {
  import opened Wrappers
  import opened Url
  import Text
  import Http
  import AptArchive

  /** What a download writes to the destination, and over which transport
      it was fetched. */
  datatype Download = Download(transport: Http.Transport, content: string)

  /** `Archive._download_to`. */
  function DownloadTo(server: Http.Server, url: string): (r: Result<Download>)
    ensures r.Ok? <==> server(url).status == 200
    ensures r.Ok? ==> r.value.content == server(url).body
    ensures r.Ok? ==> (r.value.transport == Http.PlainHttp <==> Scheme(url) == "http")
    ensures r.Err? ==> r.error == HttpStatus(server(url).status)
  {
    match Http.GetOnce(server, url)
    case Err(e) => Err(e)
    case Ok(body) => Ok(Download(Http.Connect(url), body))
  }

  /** A redirect is not followed: it fails the download. */
  lemma RedirectFails(server: Http.Server, url: string)
    requires Http.IsRedirect(server(url).status)
    ensures DownloadTo(server, url) == Err(HttpStatus(server(url).status))
  {
  }

  /** The `packages` subcommand: one request for the repository URL followed
      by the binary-index segments joined with '/'.  A 200 writes its body,
      over plain HTTP exactly when the repository's scheme is "http"; any
      other status fails with that status. */
  function DownloadPackages(server: Http.Server, repo: string, dist: string, area: string, arch: string): (r: Result<Download>)
    ensures var a := AptArchive.NewArchive(repo, dist, area, arch);
            var u := a.repo + "/" + Text.Join(AptArchive.PackagesSegments(a), '/');
            && (r.Ok? <==> server(u).status == 200)
            && (r.Ok? ==> r.value.content == server(u).body)
            && (r.Ok? ==> (r.value.transport == Http.PlainHttp <==> Scheme(a.repo + "/") == "http"))
            && (r.Err? ==> r.error == HttpStatus(server(u).status))
  {
    var a := AptArchive.NewArchive(repo, dist, area, arch);
    var tail := Text.Join(AptArchive.PackagesSegments(a), '/');
    AptArchive.PackagesUrlIsJoin(a);
    SchemeSharedPrefix(a.repo, tail, "");
    assert a.repo + "/" + "" == a.repo + "/";
    DownloadTo(server, AptArchive.PackagesUrl(a))
  }

  /** The `sources` subcommand: the architecture plays no part. */
  function DownloadSources(server: Http.Server, repo: string, dist: string, area: string, arch: string): (r: Result<Download>)
    ensures forall other :: r == DownloadTo(server, AptArchive.SourcesUrl(AptArchive.NewArchive(repo, dist, area, other)))
  {
    DownloadTo(server, AptArchive.SourcesUrl(AptArchive.NewArchive(repo, dist, area, arch)))
  }
}
