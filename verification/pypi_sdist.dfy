/** `pypi-sdist.py`: the stand-alone form of `pypi.py sdist`.  It fetches a
    package's metadata, prints the download URL of the first source
    distribution of the requested version, and on a failed request logs the
    status (and, with `--verbose`, the response body) and exits with 1. */
module PypiSdist {
  import opened Wrappers
  import Decimal
  import Http
  import Pypi

  /** What one run of the script leaves behind. */
  datatype Outcome =
    | Printed(urls: seq<string>)
    | Failed(log: seq<string>, code: int)
    | Raised(error: Error)        // `get` raised, or the redirect chain outran the fuel

  /** The error logged for a failed query. */
  function FailureMessage(status: int, reason: string): string {
    "pypi.org query failed: " + Decimal.IntToString(status) + " (" + reason + ")"
  }

  /** The script: the metadata URL has no version; the version is only used
      to pick the release. */
  function Main(server: Http.Server, decode: string -> seq<Pypi.Release>, index: string,
                package: string, version: string, verbose: bool, fuel: nat): (r: Outcome)
    ensures var f := Http.Follow(server, Pypi.MetadataUrl(index, package, None), fuel, Http.Passed);
            (r.Raised? <==> f.Err?) && (r.Raised? ==> r.error == f.error)
            && (r.Failed? <==> f.Ok? && f.value.status != 200)
            && (r.Failed? ==> r.code == 1 && 1 <= |r.log| <= 2
                              && r.log[0] == FailureMessage(f.value.status, f.value.reason)
                              && (|r.log| == 2 <==> verbose) && (verbose ==> r.log[1] == f.value.body))
  {
    match Http.Follow(server, Pypi.MetadataUrl(index, package, None), fuel, Http.Passed)
    case Err(e) => Raised(e)
    case Ok(resp) =>
      if resp.status != 200 then
        Failed([FailureMessage(resp.status, resp.reason)] + (if verbose then [resp.body] else []), 1)
      else Printed(Pypi.SdistUrls(decode(resp.body), version))
  }

  /** The script prints what `pypi.py sdist` prints, and fails exactly when
      it fails. */
  lemma AgreesWithSubcommand(server: Http.Server, decode: string -> seq<Pypi.Release>, index: string,
                             package: string, version: string, verbose: bool, fuel: nat)
    ensures var r := Main(server, decode, index, package, version, verbose, fuel);
            var s := Pypi.SdistCommand(server, decode, index, package, version, fuel);
            (r.Printed? <==> s.Ok?) && (r.Printed? ==> r.urls == s.value)
            && (r.Failed? <==> s == Err(Exit(1))) && (r.Raised? <==> s.Err? && s.error != Exit(1))
            && (r.Raised? ==> s == Err(r.error))
  {
  }

  /** With distinct versions, the script prints the first source
      distribution of the requested release, or nothing when the release is
      missing or has none. */
  lemma PrintsFirstSdist(server: Http.Server, decode: string -> seq<Pypi.Release>, index: string,
                         package: string, version: string, verbose: bool, fuel: nat, i: nat)
    requires Main(server, decode, index, package, version, verbose, fuel).Printed?
    requires var releases := decode(Http.Follow(server, Pypi.MetadataUrl(index, package, None), fuel, Http.Passed).value.body);
             Pypi.DistinctVersions(releases) && i < |releases| && releases[i].version == version
    ensures var releases := decode(Http.Follow(server, Pypi.MetadataUrl(index, package, None), fuel, Http.Passed).value.body);
            var first := Pypi.FirstSdist(releases[i].dists);
            Main(server, decode, index, package, version, verbose, fuel).urls
              == (if first.Some? then [first.value.url] else [])
  {
    var releases := decode(Http.Follow(server, Pypi.MetadataUrl(index, package, None), fuel, Http.Passed).value.body);
    Pypi.SdistAtMostOne(releases, version);
  }

  /** Nothing is printed when no release has the requested version. */
  lemma PrintsNothingForUnknownVersion(server: Http.Server, decode: string -> seq<Pypi.Release>, index: string,
                                       package: string, version: string, verbose: bool, fuel: nat,
                                       releases: seq<Pypi.Release>)
    requires Main(server, decode, index, package, version, verbose, fuel).Printed?
    requires releases == decode(Http.Follow(server, Pypi.MetadataUrl(index, package, None), fuel, Http.Passed).value.body)
    requires forall i :: 0 <= i < |releases| ==> releases[i].version != version
    ensures Main(server, decode, index, package, version, verbose, fuel).urls == []
  {
    Pypi.SdistNoMatch(releases, version);
  }
}
