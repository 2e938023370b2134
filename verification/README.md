# Archive index readers and small repository tools, in Dafny

This project models the deterministic core of a collection of Python
command-line utilities for inspecting package repositories and rewriting
files. It covers:

- the Debian archive inspector (`apt-inspect.py`) and downloader
  (`apt-repo-dl.py`): repository URL templates, the cache path, the
  cache-freshness decision, the `Packages` index scanner (`list_packages`)
  and the paragraph lookup (`get_pkg_paragraph`);
- the RPM repository inspector (`rpm-inspect.py`): the `repomd.xml` URL,
  the primary-index indirection, the `name@ver-rel?arch=arch` listing and
  the first-match package lookup, with redirect-following GETs;
- the NVD client (`nvd.py`): paged URLs, the `has_more` test, the
  accumulation loop over pages and the argument checks of the subcommands;
- the Go module graph builder (`gomod-graph.py`): the effective-version map
  of `go list -m all` and the module map built from `go mod graph`;
- the Maven tools (`mvn-versions.py`, `mvn-list-artifacts.py`): purl
  parsing and formatting, the search query, the href recogniser, the page
  count and the stop rule;
- the PyPI tools (`pypi.py`, `pypi-sdist.py`): the metadata URL, the
  simple-index anchor parser, release selection (`sdist`, `bdists`,
  `versions`) and the exit-on-failure handling;
- three file tools: the `known_hosts` filter
  (`clear_known_hosts_matching.py`), the tree-wide search-and-replace
  (`searchreplace.py`) and the `svn rename` driver (`svnrenamefiles.py`).

Everything is a pure function or a short method over immutable data. The
world the scripts talk to becomes an explicit input:

- a server is a function from URL to response (status, reason, location,
  body);
- a cache file is `Missing` or `Present(age in microseconds)`;
- a file system is a map from path to text, and `os.walk` is a given
  sequence of directories with their files;
- command output (`go list`, `go mod graph`) is given text, and `os.system`
  is a function from command line to exit status;
- JSON, XML and HTML decoding are given functions or records;
- user-supplied regular expressions are predicates on the line or path.

Recursion the scripts leave unbounded (redirect chains, NVD paging) takes
a `fuel` bound. Running out of fuel is a distinct error: `RedirectLimit`
or `PageLimit`.

Module layout:

| Module | Contents |
|---|---|
| `Wrappers` | `Option`, `Result` and the error kinds |
| `Text` | the Python `str` operations used: `isspace`, `strip`/`lstrip` by character set, `split`/`join`, `replace`, `in` |
| `FileLines` | iteration over the lines of a text file |
| `Decimal` | `str(int)` and its inverse |
| `Url` | `urlparse(...).scheme`, `os.path.join` and the cache path |
| `Cache` | `file_age` and the freshness decision shared by the APT and RPM tools |
| `Http` | single and redirect-following GETs, transport choice |
| `Tree` | the `os.walk` selection shared by the two svn-tree tools |
| one module per script | `AptArchive` (the `Archive` class shared by the two APT scripts), `AptInspect`, `AptRepoDl`, `RpmInspect`, `Nvd`, `GoModGraph`, `MvnVersions`, `MvnListArtifacts`, `Pypi`, `PypiSdist`, `KnownHosts`, `SearchReplace`, `SvnRenameFiles` |

The scripts' quirks are kept as written: the file age is the `seconds`
field of a `timedelta`, `lstrip` strips a character set, the APT
`sources_cache_path` uses the binary-index URL, and `list_packages` pairs
a `Package:` line with the next `Version:` line even across paragraphs.
Where a quirk is a bug, the corrected definition sits next to the
as-written one, with the intended property proved about it (see
"## Findings").

## Redirects and status handling

The scripts do not all fetch alike:

- `rpm-inspect.py` follows 301/302 (lines 84-87 and 103-107). It requests
  `str(getheader('location'))`, so a redirect without `Location` is
  followed to the text "None" (`Http.Stringified`).
- `nvd.py` (lines 44-46), `pypi.py` (lines 36-38) and `pypi-sdist.py`
  (lines 30-32) follow 301/302 too. They hand the header to `get` as it
  is, so a redirect without `Location` ends in the error of `get(None)`
  (`Http.Passed`, the error `MissingLocation`).
- `apt-inspect.py` (`_get`, `_download_to`, lines 77-106) and
  `apt-repo-dl.py` (`_download_to`, lines 32-49) make a single request and
  raise on every status other than 200, redirects included (`Http.GetOnce`,
  `AptRepoDl.RedirectFails`).
- Success is exactly status 200 everywhere, not any 2xx status.
- The redirect chain is unbounded in the code. The model bounds it with
  fuel.

## Model

| member | source | states |
|---|---|---|
| Text.Strip | apt-inspect.py:46-49 | `str.strip(chars)`: the result is the input with a leading and a trailing run of stripped characters removed, and it neither starts nor ends with one |
| Text.StripIdempotent | apt-inspect.py:46-49 | stripping twice is stripping once |
| Text.StripSpaceEmptyIffBlank | apt-inspect.py:157 | `line.strip()` is empty exactly when every character of the line is whitespace |
| Text.SplitJoin | pypi.py:98 | splitting a join of separator-free parts gives back the parts |
| Text.JoinSplit | gomod-graph.py:64 | joining the pieces of a split gives back the text |
| Text.ReplaceAbsent | searchreplace.py:36 | replacing an absent word leaves the text unchanged |
| Text.ReplaceBySelf | searchreplace.py:36 | replacing a word by itself leaves the text unchanged |
| Text.ReplaceIntroduces | searchreplace.py:36 | replacing a present word makes the replacement occur in the result |
| FileLines.Lines | clear_known_hosts_matching.py:35 | the lines a text file yields concatenate back to the text; each ends in '\n' except possibly the last, and none is empty |
| FileLines.LinesOfConcat | clear_known_hosts_matching.py:35-41 | re-reading text written from well-formed lines yields the same lines |
| FileLines.FilterWellFormed | clear_known_hosts_matching.py:35-39 | keeping a subset of a file's lines, in order, is again a well-formed line sequence |
| Decimal.ParseNatToString | nvd.py:60 | the decimal text of a natural number reads back as that number |
| Decimal.IntToStringRoundTrip | nvd.py:60 | `str(n)` of any integer, negative ones included, is integer text that reads back as n |
| Tree.SelectSpec | searchreplace.py:81-86 | a (directory, file) pair is selected exactly when the walk lists the file in that directory and the filter accepts it |
| Tree.SelectSplits | searchreplace.py:81-86 | selection over two parts of a walk is the selection of the first part followed by that of the second |
| Url.Clean | apt-inspect.py:59 | what `urlparse` reads (CPython 3.12 `urlsplit`): the URL without its leading C0 controls and spaces and without any tab, CR or LF; it starts with neither kind of character and holds no tab, CR or LF |
| Url.RemoveUnsafe | apt-inspect.py:59 | no tab, CR or LF is left, and a text without them is left as it is |
| Url.RemoveUnsafeAppend | apt-inspect.py:59 | deleting tabs, CRs and LFs piece by piece is deleting them from the whole |
| Url.CleanKeeps | apt-inspect.py:59 | a URL with nothing to clean is parsed as it is |
| Url.CleanIdempotent | apt-inspect.py:59 | cleaning twice is cleaning once |
| Url.ParseScheme | apt-inspect.py:59 | on cleaned text: when non-empty, the lower-cased valid scheme text that precedes the first ':'; empty when there is no ':' or the text before it is not a valid scheme |
| Url.Scheme | apt-inspect.py:59 | `urlparse(url).scheme`: the scheme of the cleaned URL, that is, when non-empty, the lower-cased valid scheme text before the first ':' of the cleaned URL; empty when the cleaned URL has no ':' or the text before it is not a valid scheme |
| Url.SchemeIgnoresLeadingControls | apt-inspect.py:59 | C0 controls and spaces in front of a URL never change its scheme |
| Url.SchemeIgnoresUnsafe | apt-inspect.py:59 | a tab, CR or LF anywhere in a URL never changes its scheme |
| Url.SchemeOfSpacedUrl | apt-inspect.py:59 | " http://x/a" has the scheme "http" |
| Url.SchemeOfTabbedUrl | apt-inspect.py:59 | "ht\ttp://x/a" (a tab inside "http") has the scheme "http" |
| Url.SchemeOfPrefixed | apt-inspect.py:59 | a URL that starts with a valid scheme and ':' reports that scheme, lower-cased |
| Url.SchemeSharedPrefix | apt-inspect.py:63-65 | two URLs that agree up to a '/' report the same scheme |
| Url.CachePathShape | apt-inspect.py:58-61 | the cache path is "/tmp/" followed by a suffix of the URL whose first character is not in the set scheme+"://" |
| Url.CacheRelativeAt | apt-inspect.py:60 | the character-set `lstrip` removes exactly the longest prefix drawn from the set |
| Url.HttpCachePath | apt-inspect.py:58-61 | for an "http:" URL, the cache path drops the leading run of the characters 'h', 't', 'p', ':' and '/' |
| Url.CachePathOverStrips | apt-inspect.py:58-61 | as written, a host starting with 'p' loses that letter: "http://p…" maps to "/tmp/…" |
| Url.CachePathAliases | apt-inspect.py:58-61 | as written, the distinct URLs "http://t/x" and "http://x" share one cache file |
| Url.CachePathFixedKeepsHostAndPath | apt-inspect.py:58-61 | the corrected mapping places host and path verbatim under "/tmp/" (it removes the prefix only when the URL starts with its scheme, in any case, and "://") |
| Url.CachePathFixedKeepsTail | apt-inspect.py:58-61 | the corrected mapping keeps everything after the URL's first '/' that follows the scheme |
| Cache.FileAge | apt-inspect.py:34-37 | `file_age` is always in [0, 86400); for files under a day old it is their age in whole seconds |
| Cache.FileAgeIsSecondsModDay | apt-inspect.py:34-37 | the reported age is the whole-second age modulo one day |
| Cache.Decide | apt-inspect.py:138-145 | the cache is downloaded exactly when the file is missing or its reported age exceeds the maximum; an age equal to the maximum reuses it |
| Cache.FreshnessWithinADay | apt-inspect.py:138-145 | for files under a day old, the file is re-downloaded exactly when its age in whole seconds exceeds the maximum |
| Cache.DefaultMaxAgeNeverRefreshes | apt-inspect.py:217 | with the command-line default of 86400 seconds (or any maximum of at least 86399), an existing cache file is never re-downloaded |
| Cache.FreshnessNotMonotone | apt-inspect.py:34-37 | as written, with a one-hour maximum a 2-hour-old file is re-downloaded while a 25-hour-old file is reused |
| Cache.NeedsDownloadFixedMonotone | apt-inspect.py:138-145 | the corrected decision is monotone in age, and every file older than the maximum is re-downloaded |
| Cache.FixedAgreesWithinADay | apt-inspect.py:138-145 | for files under a day old, the as-written decision implies the corrected one, and the two agree on whole-second ages |
| Http.Follow | rpm-inspect.py:77-91 | a redirect-following GET never ends on a 301/302; it fails with RedirectLimit when the fuel runs out, and with MissingLocation only when the header is handed on as it is and a redirect lacks it |
| Http.FollowFinds | rpm-inspect.py:84-87 | when the k-th URL of the redirect chain is the first that does not answer a usable 301/302, and k is within the fuel, the GET ends with that response |
| Http.FollowExhausts | rpm-inspect.py:84-87 | when every URL of the chain up to the fuel answers a usable 301/302, the GET gives up with RedirectLimit |
| Http.FollowMissingLocation | pypi.py:36-38 | when the header is handed on as it is, the first redirect of the chain without `Location` ends the GET with MissingLocation |
| Http.MissingLocationDiffers | rpm-inspect.py:85-87 | a redirect without `Location` is followed to "None" when stringified, and is an error when handed on as it is |
| Http.GetFollowing | rpm-inspect.py:77-113 | success exactly when the final response is 200, with its body; a non-200 final status is an error carrying it (never a redirect); a failed chain passes its error on |
| Http.GetFollowingFinds | rpm-inspect.py:77-91 | along a chain of k usable redirects within the fuel, the GET gives the last body when it answers 200, otherwise that status as the error |
| Http.GetOnce | apt-inspect.py:77-106 | a single request: success exactly on status 200, with the body; every other status, 301/302 included, is an error carrying it |
| Http.GetOnceVersusFollowing | apt-inspect.py:77-106 | the single request agrees with the redirect-following one, for either way of handing on `Location`, unless the first answer is a redirect, in which case the single request fails |
| Http.Connect | apt-inspect.py:108-113 | plain HTTP exactly when the scheme is "http", TLS for every other scheme |
| Http.ConnectByScheme | apt-repo-dl.py:33-37 | a URL "scheme:rest" is fetched over plain HTTP exactly when the lower-cased scheme is "http" |
| AptArchive.NewArchive | apt-inspect.py:40-50 | every component is the input with its leading and trailing '/' removed, and none starts or ends with '/' |
| AptArchive.NewArchiveIdempotent | apt-repo-dl.py:20-24 | building an archive from the components of a normalised one changes nothing |
| AptArchive.PackagesUrl | apt-inspect.py:52-53 | the binary-index URL starts with repo + "/dists/" and ends with "/Packages.gz" |
| AptArchive.SourcesUrl | apt-inspect.py:55-56 | the source-index URL starts with repo + "/dists/" and ends with "/Sources.gz" |
| AptArchive.PackagesUrlIsJoin | apt-repo-dl.py:26-27 | the binary-index URL is repo, then "dists", dist, area, "binary-"+arch and "Packages.gz", joined by '/' |
| AptArchive.SourcesUrlIsJoin | apt-repo-dl.py:29-30 | the source-index URL is repo, then "dists", dist, area, "source" and "Sources.gz", joined by '/' |
| AptArchive.SegmentsRecoverable | apt-inspect.py:52-56 | with '/'-free components, splitting the path below the repository on '/' gives back the segments |
| AptArchive.PackagesUrlInjective | apt-inspect.py:52-53 | two archives with the same repository and '/'-free components have the same binary-index URL only if they are equal |
| AptArchive.SourcesUrlIgnoresArch | apt-repo-dl.py:29-30 | the source-index URL does not depend on the architecture |
| AptRepoDl.DownloadTo | apt-repo-dl.py:32-49 | success exactly on status 200, writing the body, over plain HTTP exactly for the "http" scheme; every other status is an error carrying it |
| AptRepoDl.RedirectFails | apt-repo-dl.py:43-44 | a 301/302 is not followed: it fails the download with its status |
| AptRepoDl.DownloadPackages | apt-repo-dl.py:51-61 | one request for repository + "/" + the binary-index segments joined by '/': success exactly on 200, writing the body, over plain HTTP exactly for an "http" repository; any other status is an error carrying it |
| AptRepoDl.DownloadSources | apt-repo-dl.py:54-55 | the `sources` download is the same for every architecture |
| AptInspect.ReadTo | apt-inspect.py:26-32 | None exactly when no remaining line matches; otherwise the first matching line, with the lines after it left to read |
| AptInspect.FirstIndex | apt-inspect.py:29-31 | -1 exactly when no line matches; otherwise a matching index with no match before it |
| AptInspect.ReadToStopsAtFirst | apt-inspect.py:26-32 | the line returned is the one at the first matching index, and exactly the lines through it are consumed |
| AptInspect.UpToNewline | apt-inspect.py:130 | the captured value is the longest newline-free prefix (`.*` stops at the line end) |
| AptInspect.CaptureOfField | apt-inspect.py:130-134 | the value captured from "Package: v\n" or "Version: v\n" is v |
| AptInspect.ListPackagesIsPairing | apt-inspect.py:122-136 | the read_to loop equals a one-pass pairing of each `Package:` line with the next later `Version:` line |
| AptInspect.PairingBound | apt-inspect.py:122-136 | the pairing emits at most one entry per `Package:` line, plus one for a pending name |
| AptInspect.ListPackagesBound | apt-inspect.py:122-136 | the listing has at most as many entries as there are `Package:` lines; a final `Package:` with no later `Version:` is dropped |
| AptInspect.PairingCrossesParagraphs | apt-inspect.py:127-135 | as written, a `Package:` paragraph without a `Version:` line is paired with the next paragraph's version, and that paragraph's own name is lost |
| AptInspect.Entries | apt-inspect.py:135 | one `name@version` entry per stanza, in order |
| AptInspect.PairingSkipsIdle | apt-inspect.py:126-129 | lines before the next `Package:` line contribute nothing |
| AptInspect.PairingSkipsPending | apt-inspect.py:131-133 | while a name is pending, lines other than `Version:` lines contribute nothing |
| AptInspect.ListRenderedIndex | apt-inspect.py:122-136 | listing a rendered index of well-formed stanzas, with any other fields before and after each `Version:` line, gives `name@version` for each stanza, in file order |
| AptInspect.RenderedTextLines | apt-inspect.py:125-127 | the text of a rendered index of full-line stanzas reads back as its lines |
| AptInspect.TakeUntilBlank | apt-inspect.py:156-159 | the lines copied are a prefix with no whitespace-only line, stopped by a whitespace-only line or the end of the file |
| AptInspect.ParagraphLines | apt-inspect.py:147-161 | an error exactly when no line is `Package: {pkg}`; otherwise the lines from the first such line up to, not including, the next blank line or EOF, with no blank line among them |
| AptInspect.ParagraphViaReadTo | apt-inspect.py:152-159 | the paragraph is the line read_to returns followed by the lines it leaves, up to the first blank one |
| AptInspect.GetPkgParagraph | apt-inspect.py:147-161 | "no such package" exactly when no header matches; otherwise text that starts with the header, whose lines are those of the paragraph and contain no blank line |
| AptInspect.SourcesCacheIsPackagesCache | apt-inspect.py:63-66 | as written, the source-index cache path equals the binary-index cache path for every archive |
| AptInspect.PackagesFixedKeepsFileName | apt-inspect.py:58-61 | the corrected binary-index cache path ends in "Packages.gz" |
| AptInspect.SourcesFixedKeepsFileName | apt-inspect.py:63-66 | the corrected source-index cache path ends in "Sources.gz" |
| AptInspect.FixedCachePathsDiffer | apt-inspect.py:63-66 | with the corrected mapping, the two cache paths always differ |
| AptInspect.IndexText | apt-inspect.py:138-145 | the text is had exactly when the cache is reused or the binary-index URL answers 200; a reused cache gives the cached text, a download the body, and a failure the status, which is not 200; `IndexTextOnlyReadsPackagesUrl`: no other URL of the server matters |
| AptInspect.IndexTextOnlyReadsPackagesUrl | apt-inspect.py:138-145 | servers that answer the binary-index URL alike give the same index text |
| AptInspect.ListPackagesCommand | apt-inspect.py:122-136 | fails exactly when the index text cannot be had, with its error; otherwise the `Package:`/next-`Version:` pairing of its lines, at most one entry per `Package:` line; `ListCommandOfRenderedIndex`: one `name@version` per stanza of a rendered index |
| AptInspect.ListCommandOfRenderedIndex | apt-inspect.py:122-145 | when the index text is a rendered index of full-line stanzas, the subcommand lists one `name@version` per stanza, in order |
| AptInspect.DefaultAgeIgnoresServer | apt-inspect.py:217 | with the default maximum age and an existing cache file, the listing does not depend on the server |
| RpmInspect.RepoUrl | rpm-inspect.py:48 | the repository is the input with its leading and trailing '/' removed, and does not start or end with '/' |
| RpmInspect.RepomdUrl | rpm-inspect.py:51-53 | the manifest URL is exactly the stripped repository followed by "/repodata/repomd.xml" |
| RpmInspect.PrimaryLocations | rpm-inspect.py:61 | a location is found exactly when it belongs to a `data` element of type "primary"; the first found is the first location of the first such element that has one; none when no primary element has one |
| RpmInspect.PrimaryLocationsSplits | rpm-inspect.py:61 | document order is kept: the locations of two runs of entries are those of the first, then those of the second |
| RpmInspect.PrimaryUrl | rpm-inspect.py:55-62 | no primary location is an error (`IndexError` of `[0]`); a first location without `href` is a `KeyError`; otherwise the repository joined with its href |
| RpmInspect.PrimaryUrlSkipsOtherData | rpm-inspect.py:61-62 | `data` elements of other types before the primary one are ignored |
| RpmInspect.PackageListUrl | rpm-inspect.py:55-62 | a failing manifest GET is the error; a fetched manifest without primary locations is `IndexError`; success exactly when the first primary location has an href, giving repository + "/" + href; `PackageListUrlFromManifest`: end to end from a redirect chain and a manifest |
| RpmInspect.PackageListUrlFromManifest | rpm-inspect.py:55-62 | a manifest reached through k redirects, whose first primary entry has a location with href h, gives repository + "/" + h |
| RpmInspect.PackageListCachePath | rpm-inspect.py:65-68 | the cache path is "/tmp/" followed by the URL with the character-set `lstrip` of scheme+"://" |
| RpmInspect.ListPackages | rpm-inspect.py:126-143 | exactly one entry per package record, in document order, formatted `name@ver-rel?arch=arch` |
| RpmInspect.ParseEntry | rpm-inspect.py:140-142 | a parsed entry formats back to the same text |
| RpmInspect.ParseFormatParts | rpm-inspect.py:142 | an entry formatted from an '@'-free name and a '?'-free version parses back to its parts |
| RpmInspect.ParseFormatted | rpm-inspect.py:140-142 | the listing entry of a record parses back to its name, ver-rel and arch |
| RpmInspect.FirstNamed | rpm-inspect.py:149-157 | -1 exactly when no record has the name; otherwise the index of the first record that has it |
| RpmInspect.GetPackage | rpm-inspect.py:145-158 | None (not an error) exactly when no record has the name; otherwise the serialisation of the first record that has it |
| RpmInspect.FirstNamedIgnoresLater | rpm-inspect.py:156-157 | records after the first match, same name or not, never change the answer |
| RpmInspect.PackageRecords | rpm-inspect.py:160-167 | a failing manifest fetch fails the lookup, even for a fresh cache; a reused cache gives its records; a download succeeds exactly when the list GET does, with the records of its body; `PackageRecordsFromServer`: end to end from both redirect chains |
| RpmInspect.FreshCacheStillNeedsRepomd | rpm-inspect.py:65-67 | a manifest that answers 404 fails the lookup even when the cache file is fresh |
| RpmInspect.PackageRecordsFromServer | rpm-inspect.py:160-167 | end to end: a fresh cache gives the cached records; otherwise the records of the final 200 answer of the list URL's redirect chain, or that answer's status as the error |
| Nvd.PagedUrl | nvd.py:60 | the paged URL is the query URL followed by "&startIndex={offset}&resultsPerPage={page_size}" |
| Nvd.ParsePagingSuffix | nvd.py:60 | the offset and the page size can be read back from the paging suffix |
| Nvd.PagedUrlInjective | nvd.py:60 | two paged URLs of one query are equal only for equal offsets and page sizes |
| Nvd.GetJson | nvd.py:37-55 | success exactly when the redirect-following GET ends with 200, with the decoded body; a non-200 final status is an error carrying it; a failed chain passes its error on; `GetJsonAlongChain`: the same along a given redirect chain, and a redirect without `Location` fails |
| Nvd.GetJsonAlongChain | nvd.py:37-55 | along a chain of k redirects that carry `Location`, the decoded body of a final 200, or the final status as the error; a redirect without `Location` fails with MissingLocation |
| Nvd.AllCves | nvd.py:67-82 | the loop of `all_cves` computes exactly the recursive definition of the paging run from offset 0 |
| Nvd.CollectOffsets | nvd.py:70-79 | the pages requested are at offset, offset+P, offset+2P, …, in order |
| Nvd.CollectConcatenates | nvd.py:69-76 | a successful run's result is the concatenation of the requested pages' vulnerabilities, in page order |
| Nvd.CollectStopsAtError | nvd.py:61-75 | a failing request ends the run with its error, and every earlier request succeeded |
| Nvd.MoreBelowBound | nvd.py:63 | the page at k·P has more after it exactly when k is below a bound fixed by the test, the page size and the total |
| Nvd.PagesFrom | nvd.py:72-79 | with a constant total, the number of requests from page k is the pages still needed (capped by the fuel) plus one, and the run succeeds exactly when the fuel covers them |
| Nvd.PageCountAsWritten | nvd.py:63 | as written, for total T ≥ 0 and page size P ≥ 1, exactly T div P + 1 pages are requested |
| Nvd.ExtraPageWhenDivisible | nvd.py:63 | as written, 4000 results in pages of 2000 take three requests: offsets 0, 2000 and the empty page at 4000 |
| Nvd.PageCountCorrected | nvd.py:63 | with the corrected test, ceil(T/P) pages are requested (one for an empty result) |
| Nvd.CorrectedRequestsOnlyNonEmptyPages | nvd.py:63 | with the corrected test and a non-empty result, every page requested starts before the total |
| Nvd.NonPositivePageSizeNeverStops | nvd.py:72-79 | with page size ≤ 0 the loop never ends by itself: every fuel bound is used up |
| Nvd.CveQuery | nvd.py:87-91 | a missing CVE ID is an error; otherwise the query "?cveId={id}" on the API URL |
| Nvd.KeywordQuery | nvd.py:94-99 | missing keywords are an error; otherwise the query of the quoted, space-joined keywords |
| Nvd.UpdatesQuery | nvd.py:102-113 | a missing "since" or "until" is an error, "since" checked first; otherwise the query of both encoded dates |
| Nvd.Subcommand | nvd.py:87-113 | no request exactly when the query is refused, whose error is the outcome; otherwise the requests are at offsets 0, P, 2P, … and a success returns the concatenated vulnerabilities of exactly those pages; a failing last request is the outcome |
| Nvd.ValidationBeforeRequests | nvd.py:89-90 | no page is requested exactly when an argument is missing; otherwise the first request is at offset 0 |
| Nvd.SubcommandPageCount | nvd.py:63-82 | for an accepted query whose pages all report a total T ≥ 0, with page size P ≥ 1: success after exactly T div P + 1 requests, returning the vulnerabilities of the pages requested |
| GoModGraph.IdRoundTrip | gomod-graph.py:35-39 | the id is the name when the effective version is None or empty, otherwise name, '@' and the version, which split back on '@' |
| GoModGraph.ParseVersionLine | gomod-graph.py:65 | a line matches exactly when it starts with a non-space character; the name is its first token, and the version, if any, the next token |
| GoModGraph.VersionLineRoundTrip | gomod-graph.py:65-68 | a line of a token, spaces, a token and a delimited rest gives that name and version |
| GoModGraph.NameOnlyLine | gomod-graph.py:65-68 | a line of one token gives a name with no version |
| GoModGraph.EffectiveVersionsKeys | gomod-graph.py:64-69 | a name is in the map exactly when some matching line gives it |
| GoModGraph.EffectiveVersionsLastWins | gomod-graph.py:64-69 | a name's version comes from the last line that gives it |
| GoModGraph.ParentVersion | gomod-graph.py:98 | regex group 2: from the first '@' after the first character to the end of the token, with its leading '@' kept; None when there is no such '@' |
| GoModGraph.ParseEdge | gomod-graph.py:98 | a matched edge is a parent token, one space and a child token with an inner '@', followed by a delimiter; the parent version is group 2 |
| GoModGraph.EdgeRoundTrip | gomod-graph.py:98-101 | a line "parent child…" with a well-shaped child parses to exactly that edge |
| GoModGraph.TabSeparatedIsNoEdge | gomod-graph.py:98 | the pattern wants one space: a tab-separated line is no edge |
| GoModGraph.NameOf | gomod-graph.py:103 | the name is the id up to its first '@', or the whole id |
| GoModGraph.ChildVersion | gomod-graph.py:108 | the child version is the text between the first and the second '@' of the child id |
| GoModGraph.Ensure | gomod-graph.py:102-109 | an existing record is kept; a new id is created with its name, the effective version and the desired version, or is a `KeyError` when the name has no effective version |
| GoModGraph.Link | gomod-graph.py:113 | the child is among the children afterwards, the earlier children stay, and nothing else is added |
| GoModGraph.AddEdge | gomod-graph.py:102-113 | an edge succeeds exactly when each end is known or its name has an effective version; a failure names an unknown module of the edge |
| GoModGraph.AddEdgeEffect | gomod-graph.py:102-113 | after an edge, both ids are keys, the child is linked under the parent, and the keys are the old ones plus the two ids |
| GoModGraph.AddEdgeClosed | gomod-graph.py:111-113 | adding an edge keeps every child id a key and no child listed twice |
| GoModGraph.Step | gomod-graph.py:94-113 | a line that is no edge changes nothing; an edge line adds its edge |
| GoModGraph.BuildGrows | gomod-graph.py:102-106 | a record is created only on the first occurrence of its id; later lines never change its name or versions, and only add children |
| GoModGraph.BuildCoversEdges | gomod-graph.py:98-113 | after the build, the parent and child of every edge line are keys, and the child is linked under the parent |
| GoModGraph.BuildKeys | gomod-graph.py:98-109 | the keys are exactly the ids on the edge lines (and those of the starting map) |
| GoModGraph.BuildClosed | gomod-graph.py:111-113 | every child id is a key of the map (so `child_modules[id]` is `module_map[id]`) and no child is listed twice |
| GoModGraph.BuildFailsOnUnknownName | gomod-graph.py:105-109 | the only failure is a `KeyError`: a name on an edge line with no effective version |
| GoModGraph.BuildSucceedsOnKnownNames | gomod-graph.py:105-109 | when every name on the edge lines has an effective version, the build succeeds |
| MvnVersions.ParsePurl | mvn-versions.py:22 | a match is "pkg:maven/", a non-empty '/'-free group, '/', and an artifact free of '@', '?' and '#' that may hold '/', taken as far as it goes; the rest is ignored |
| MvnVersions.ParsePurlOf | mvn-versions.py:22 | every line of that shape parses to its group and artifact |
| MvnVersions.FormatPurlRoundTrip | mvn-versions.py:111-113 | a purl written for a version parses back to the same group and artifact |
| MvnVersions.ArtifactKeepsSlash | mvn-versions.py:22 | the artifact may contain '/': "pkg:maven/g/a/b@1" gives artifact "a/b" |
| MvnVersions.SearchPath | mvn-versions.py:39-41 | the search path is exactly `/solrsearch/select?q=g:{g}+AND+a:{a}&core=gav&rows=10000&wt=json` |
| MvnVersions.SearchPathInjective | mvn-versions.py:39-41 | different artifacts with '+'-free groups have different search paths |
| MvnVersions.DocVersions | mvn-versions.py:55-56 | the versions are those of the docs, in order, and missing only if some doc has no version |
| MvnVersions.FindVersions | mvn-versions.py:34-59 | a non-200 status is an error carrying it; a missing `response` or missing `v` is a `KeyError`; missing or empty docs are `NoVersionsFound`; otherwise the docs' versions, in order, non-empty; `FindVersionsOfDocs`: docs carrying versions vs give exactly vs |
| MvnVersions.FindVersionsOfDocs | mvn-versions.py:50-59 | a 200 answer whose docs carry the non-empty versions vs gives exactly vs, in order |
| MvnVersions.Purls | mvn-versions.py:110-114 | one line `pkg:maven/{g}/{a}@{v}` per version, in the order returned |
| MvnVersions.ProcessLine | mvn-versions.py:90-108 | a line is skipped exactly when it is empty or a comment after stripping, invalid exactly when otherwise it is no purl; for a purl, found exactly when the lookup succeeds, with one purl per version found, and failed with the lookup's error otherwise |
| MvnVersions.OutputSplits | mvn-versions.py:104-108 | a failing or invalid line does not stop the run: the output of the input is that of its first part followed by that of the rest |
| MvnVersions.LineWrites | mvn-versions.py:99-114 | a skipped, invalid or failing line writes nothing; a found artifact writes one purl per version, each parsing back to that artifact |
| MvnListArtifacts.ParseHref | mvn-list-artifacts.py:70-74 | an accepted href is "/artifact/" followed by "g/a", with g and a non-empty and '/'-free |
| MvnListArtifacts.ParseHrefOf | mvn-list-artifacts.py:70-74 | every href of that shape is accepted and records "g/a" |
| MvnListArtifacts.AddAttrsSpec | mvn-list-artifacts.py:68-74 | the attributes of an `a` tag fail only on an href with no value; otherwise they add exactly the recognised href values |
| MvnListArtifacts.FeedSpec | mvn-list-artifacts.py:63-74 | feeding start tags fails only on a valueless href of an `a` tag; otherwise the set holds exactly the earlier artifacts and those linked from `a` tags |
| MvnListArtifacts.FeedTwice | mvn-list-artifacts.py:63-74 | the artifacts are a set: feeding the same tags again adds nothing |
| MvnListArtifacts.ArtifactsGet | mvn-list-artifacts.py:80-98 | an unknown category is a `KeyError`; a 404 on a page after the first is empty; any other non-200 is an error; 200 gives the parsed set |
| MvnListArtifacts.NumPages | mvn-list-artifacts.py:113 | for n ≥ 0 the page count is (n + 9) div 10, the least k with n ≤ 10k |
| MvnListArtifacts.ListFrom | mvn-list-artifacts.py:114-117 | at most one page per number in the range |
| MvnListArtifacts.ListedPages | mvn-list-artifacts.py:114-119 | the pages printed are consecutive, from the first, and each was fetched successfully and not empty |
| MvnListArtifacts.ListingEnds | mvn-list-artifacts.py:114-117 | the listing ends at the last page, at the first empty page, or at the first failing page with its error |
| MvnListArtifacts.Main | mvn-list-artifacts.py:113-119 | nothing is requested for n ≤ 0, and at most (n + 9) div 10 pages are printed |
| MvnListArtifacts.FullListing | mvn-list-artifacts.py:113-119 | when every page answers non-empty, exactly (n + 9) div 10 pages are printed, page p being the set of page p |
| MvnListArtifacts.FirstPageNotFound | mvn-list-artifacts.py:88-93 | a 404 on page 1 is an error, not an empty page |
| Pypi.GetOrDie | pypi.py:30-41 | the body exactly when the redirect-following GET ends with 200; exit status 1 for any other final status; a failed chain (no `Location`, or fuel out) passes its error on |
| Pypi.FailureExitsOne | pypi.py:36-38 | a chain of redirects that ends with a non-200 status, within the fuel, exits with status 1 |
| Pypi.GetOrDieAlongChain | pypi.py:30-41 | along a chain of k redirects that carry `Location`, a final 200 gives its body, and a redirect without `Location` fails with MissingLocation |
| Pypi.MetadataPathSegments | pypi.py:43-48 | below "/pypi/" the path is package, version when one is given, and "json" |
| Pypi.ParseLink | pypi.py:67-68 | a recognised line yields non-empty, '<'-free link text |
| Pypi.ParseLinkShape | pypi.py:15 | a recognised line is indentation followed by `<a href="X">T</a>` and more |
| Pypi.ParseAnchor | pypi.py:15 | a match is an anchor with a non-empty, quote-free href and its text T |
| Pypi.ParseLinkOf | pypi.py:67-70 | every indented anchor of that shape yields its text |
| Pypi.PackageNamesSplits | pypi.py:66-71 | names of two runs of lines are those of the first, then those of the second |
| Pypi.PackageNamesOne | pypi.py:68-70 | a single line contributes its link text, or nothing when it does not match |
| Pypi.PackageNamesOfIndex | pypi.py:66-71 | an index of anchors lists exactly their names, in line order |
| Pypi.PackageNamesAll | pypi.py:66-71 | when every line yields a name, the names are listed in line order |
| Pypi.PackageNamesMembers | pypi.py:66-71 | a text is listed exactly when some line yields it |
| Pypi.ListPackagesOrDie | pypi.py:61-71 | fails exactly when the simple-index GET does not end with 200; otherwise the names of its lines, a name listed exactly when some line's anchor text is that name |
| Pypi.Versions | pypi.py:98 | the release keys, in order |
| Pypi.VersionsTextRoundTrip | pypi.py:98 | the printed versions read back line by line as the release keys |
| Pypi.FirstSdist | pypi.py:78-81 | None exactly when no dist is an sdist; otherwise the first sdist among the dists |
| Pypi.SdistAtMostOne | pypi.py:76-81 | at most one URL is printed, the first sdist of the matching release |
| Pypi.SdistNoMatch | pypi.py:76-77 | nothing is printed when no release matches the version |
| Pypi.SdistOfReleases | pypi.py:76-81 | for distinct release keys at most one URL, the first sdist of the matching release; nothing when no release matches |
| Pypi.BinaryDists | pypi.py:89-91 | exactly the dists whose type starts with "bdist" |
| Pypi.BinaryDistsSplits | pypi.py:89-91 | the dists are kept in their order |
| Pypi.BdistsOfRelease | pypi.py:86-91 | the result is the binary dists of the matching release, or nothing when no release matches |
| Pypi.BdistsAreBinary | pypi.py:86-91 | every dist collected is a binary dist |
| Pypi.BdistsNoMatch | pypi.py:86-92 | nothing is collected when no release has the version |
| Pypi.Releases | pypi.py:53-59 | the decoded releases exactly when the metadata GET ends with 200; exit status 1 for any other final status; a failed chain passes its error on |
| Pypi.SdistCommand | pypi.py:73-81 | fails exactly when the metadata cannot be had; otherwise the sdist URLs of the fetched releases: for distinct release keys, the first sdist of the matching release or nothing; nothing when no release matches |
| Pypi.BdistsCommand | pypi.py:83-92 | fails exactly when the metadata cannot be had; otherwise the binary dists of the matching releases, all binary; for distinct keys, exactly those of the matching release; nothing when no release matches |
| Pypi.VersionsCommand | pypi.py:95-98 | fails exactly when the metadata cannot be had; the printed text reads back as the release keys |
| Pypi.ShowCommand | pypi.py:102-105 | the body of the final 200 answer for the metadata URL of the package (or version); exit status 1 for any other final status; a failed chain passes its error on |
| Pypi.ShowAgreesWithGetFollowing | pypi.py:102-105 | `show` succeeds exactly when the shared redirect-following GET does, with its body, and exits 1 exactly where that GET reports a non-200 final status |
| Pypi.ShowEmptyVersionIsWholePackage | pypi.py:45-46 | an empty version is no version: `show` then fetches the metadata of the whole package |
| PypiSdist.Main | pypi-sdist.py:49-62 | raises exactly when the redirect chain fails (no `Location`, or fuel out), with its error; fails exactly on a final status other than 200, with exit status 1, a log line with status and reason, and the body logged exactly when verbose |
| PypiSdist.AgreesWithSubcommand | pypi-sdist.py:49-62 | the script prints the same as the `sdist` subcommand of `pypi.py`, exits 1 exactly when it does, and raises exactly when it fails otherwise, with the same error |
| PypiSdist.PrintsFirstSdist | pypi-sdist.py:57-62 | for distinct release keys, what is printed is the first sdist of the matching release |
| PypiSdist.PrintsNothingForUnknownVersion | pypi-sdist.py:57-58 | nothing is printed when no release key equals the version |
| KnownHosts.RemovedIff | clear_known_hosts_matching.py:36-38 | a line is removed exactly when the pattern matches it or it is whitespace only |
| KnownHosts.KeptPlusRemoved | clear_known_hosts_matching.py:36-42 | kept lines plus counted lines make up all the lines |
| KnownHosts.FilterSplits | clear_known_hosts_matching.py:39 | kept lines stay in their original order |
| KnownHosts.KeptLines | clear_known_hosts_matching.py:39 | a line is in the output exactly when it is an input line that is kept, unchanged |
| KnownHosts.ClearMatching | clear_known_hosts_matching.py:32-42 | the file is rewritten to the concatenation of the kept lines, and the count is the number of removed lines, blank ones included |
| KnownHosts.SecondRunRemovesNothing | clear_known_hosts_matching.py:36-41 | a second run over the output removes nothing, reports 0, and writes the same text |
| SearchReplace.ReplaceLines | searchreplace.py:35-36 | one replaced line per input line |
| SearchReplace.CopyOfAbsent | searchreplace.py:35-38 | where the word does not occur, the copy equals the original |
| SearchReplace.CopyDiffers | searchreplace.py:35-38 | a replacement new to the file makes the copy differ when some line holds the word |
| SearchReplace.SearchAndReplace | searchreplace.py:31-44 | an error exactly when the file is missing; otherwise modified exactly when the copy differs, the diff shown exactly when modified and asked for, the original overwritten only when modified and not a dry run, the ".copy" removed, and every other file unchanged |
| SearchReplace.AbsentWordLeavesFile | searchreplace.py:38 | a file without the word is neither reported nor rewritten |
| SearchReplace.SelfReplacementLeavesFile | searchreplace.py:38 | replacing a word by itself modifies nothing |
| SearchReplace.ProcessKeeps | searchreplace.py:81-88 | a file that is not processed (or processed in a dry run) and is not a copy keeps its text |
| SearchReplace.DryRunKeepsFiles | searchreplace.py:42-43 | a dry run changes no file's text |
| SearchReplace.Selected | searchreplace.py:81-84 | a file is processed exactly when the walk lists it, its name (not its path) matches, and its path holds no ".svn" |
| SvnRenameFiles.Renames | svnrenamefiles.py:63-66 | at most one rename per selected file |
| SvnRenameFiles.RenamesSpec | svnrenamefiles.py:63-66 | a rename is made exactly for each selected file whose name holds the word, to the same directory with the word replaced in the name |
| SvnRenameFiles.TargetName | svnrenamefiles.py:65-66 | a name without the word keeps its name; a name with it gets the replacement |
| SvnRenameFiles.Execute | svnrenamefiles.py:67-74 | the exit status is 0 or 1, and no more commands are executed than logged |
| SvnRenameFiles.DryRunExecutesNothing | svnrenamefiles.py:67-69 | in a dry run every command is logged, none is executed, and the status is 0 |
| SvnRenameFiles.StopsAtFirstFailure | svnrenamefiles.py:69-74 | outside a dry run, commands run in order up to the first non-zero exit, which ends the run with status 1; with no failure all run and the status is 0 |
| SvnRenameFiles.Considered | svnrenamefiles.py:58-62 | a file is considered exactly when the walk lists it, its full path matches, and its path holds no ".svn" |

## Left out

- Network transport: connections, TLS, reading and closing responses. A server is a function from URL to response.
- The request path: `_get` sends `u.path`, dropping any query string; the model keys responses by the full URL.
- gzip decompression and XML parsing (`xml.dom.pulldom`, `ElementTree`). `repomd.xml` entries and package records are given as records, and the output of `toprettyxml` is a field of the record.
- HTML tokenising (`HTMLParser.feed`): the page is given as its start tags.
- JSON decoding: decoded answers are given by `decode` parameters. A `KeyError` on a missing JSON field is modelled only in `MvnVersions.FindVersions` (`response`, `v`). The other JSON fields (`releases`, `packagetype` and `url` in the PyPI scripts, `totalResults` and `vulnerabilities` in `nvd.py`) are assumed present.
- `datetime.strptime`/`astimezone` and `urllib.parse.quote` in `nvd.py` (lines 98 and 109-112): these are given as `quote`/`encode` functions.
- `time.sleep` between NVD pages, logging (except the messages whose presence the model states), argument parsing and `print` formatting (JSON indentation, set iteration order).
- The file system: `os.stat` mtimes become a cache state, `os.walk` a given walk, `makedirs` and the writing of downloaded files are left out, and a file system is a map.
- `filecmp.cmp` is taken as text equality; the shallow stat comparison it may make is left out. The content of `showdiff` is not modelled, only whether it is shown.
- Universal newline translation when reading text files.
- `os.system` and `subprocess`: their outputs and exit codes are inputs.
- User-supplied regular expressions (`--pattern`, the `known_hosts` pattern) are predicates. The fixed regexes (purl, anchor, href, `Package:`, the Go line patterns) are coded by hand.
- `get_release_components` and `_releases_url` of `apt-inspect.py` (lines 68-75): the `components` subcommand is not part of this model.
- Http.Follow: the redirect chain is bounded by fuel, while the source recurses without bound. A redirect without `Location` is followed to the text "None" only for `rpm-inspect.py`, which applies `str` to the header (line 86). For `nvd.py`, `pypi.py` and `pypi-sdist.py`, which pass the header to `get` unchanged, it is the error `MissingLocation`: the model does not say which exception `get(None)` raises.
- AptInspect.IsHeaderFor: `pkg` is compared literally, while `get_pkg_paragraph` puts it unescaped into the regex `^Package: {pkg}$` (apt-inspect.py:152). The model is exact only for names without regex metacharacters. A name with `.` (such as "python3.11") can match another package's header, and one with `++` (such as "libstdc++6") does not match its own header or is a regex error.
- AptInspect.ParagraphLines: takes the header test of `AptInspect.IsHeaderFor`, so it is exact only for package names without regex metacharacters.
- AptInspect.GetPkgParagraph: takes the header test of `AptInspect.IsHeaderFor`, so it is exact only for package names without regex metacharacters.
- Nvd.Collect: the paging loop is bounded by fuel, and a run that needs more pages ends with `PageLimit`; the source loops without bound.
- MvnListArtifacts.NumPages: `math.ceil(n / 10)` goes through floating point, which differs from the integer ceiling only for `n` beyond 2^53; the model uses the integer ceiling.
- `get_root_module` (gomod-graph.py:45-48) and the final lookup and JSON print of the root module (gomod-graph.py:135-137) are not part of this model: the first runs `go list -m`, the second only prints `module_map[root_module_name]`.
- `url.py`, `cvesearch.py`, `sendmail.py`, `ftpgetdir.py`, `capture.py`, `svnrenamedirs.py` and the HTTP servers are not part of this model.

## Findings

| source | as written | input that shows it | evidently intended | confidence | as-written member | corrected member |
|---|---|---|---|---|---|---|
| apt-inspect.py:34-37 | `file_age` returns `timedelta.seconds`, the seconds field without the days, so ages wrap every 24 hours | maximum age 3600: a file 2 hours old is re-downloaded, one 25 hours old is reused | the whole age, `total_seconds()` | not executed | Cache.FreshnessNotMonotone | Cache.NeedsDownloadFixedMonotone |
| apt-inspect.py:58-61 | `url.lstrip(scheme + "://")` strips any leading run of the characters of the set, not the prefix | "http://ports.ubuntu.com/ubuntu-ports/…" maps to "/tmp/orts.ubuntu.com/…"; "http://t/x" and "http://x" share a cache file | remove the prefix scheme + "://" | not executed | Url.CachePathOverStrips | Url.CachePathFixedKeepsHostAndPath |
| apt-inspect.py:63-66 | `sources_cache_path` takes the path from `packages_url()` | latent: no caller (nothing calls `sources_cache_path`); for any archive its path would be that of the binary index | take the path from `sources_url()` | not executed | AptInspect.SourcesCacheIsPackagesCache | AptInspect.FixedCachePathsDiffer |
| nvd.py:63 | `has_more = offset + page_size - 1 < totalResults` asks for one page too many when the page size divides the total | total 4000, page size 2000: three requests, the last for the empty page at offset 4000 | `offset + page_size < totalResults` | not executed | Nvd.ExtraPageWhenDivisible | Nvd.PageCountCorrected |

The model of each script keeps the as-written behaviour, since that is what
the scripts do. The corrected definitions (`Cache.NeedsDownloadFixed`,
`Url.CachePathFixed`, `AptInspect.SourcesCachePathFixed`, `Nvd.Collect` with
`Corrected`) sit next to the as-written ones, with the intended property
proved about each.
