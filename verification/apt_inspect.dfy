/** `apt-inspect.py`: reading a Debian `Packages` index (the control-file
    paragraphs of section 5.1 of the Debian Policy Manual, one field per
    line, paragraphs separated by blank lines) the way the script does it,
    line by line with `read_to`, and the cache of downloaded indices under
    `/tmp`.

    The index is given as the lines that iterating over the decompressed
    file yields (see `FileLines`); the cache state and the server are
    inputs. */
module AptInspect {
  import opened Wrappers
  import opened Text
  import opened FileLines
  import opened Url
  import opened Cache
  import opened Http
  import opened AptArchive

  // ---------------------------------------------------------------------
  // read_to

  /** What `read_to` hands back: the line it stopped at (if any) and the
      lines the file iterator has left. */
  datatype Scan = Scan(line: Option<string>, rest: seq<string>)

  /** `read_to(f, regexp)`: consume lines up to and including the first one
      `matches` selects; `None` with nothing left when there is none. */
  function ReadTo(lines: seq<string>, matches: string -> bool): (r: Scan)
    ensures r.line.None? <==> (forall i :: 0 <= i < |lines| ==> !matches(lines[i]))
    ensures r.line.None? ==> r.rest == []
    ensures r.line.Some? ==>
              var k := |lines| - |r.rest| - 1;
              && 0 <= k
              && lines[k] == r.line.value
              && matches(lines[k])
              && (forall j :: 0 <= j < k ==> !matches(lines[j]))
              && r.rest == lines[k + 1..]
    decreases |lines|
  {
    if |lines| == 0 then Scan(None, [])
    else if matches(lines[0]) then Scan(Some(lines[0]), lines[1..])
    else
      var r := ReadTo(lines[1..], matches);
      assert r.line.Some? ==> forall j :: 1 <= j < |lines| - |r.rest| - 1 ==> lines[j] == lines[1..][j - 1];
      r
  }

  /** The index of the first line `matches` selects, or -1. */
  function FirstIndex(lines: seq<string>, matches: string -> bool): (k: int)
    ensures -1 <= k < |lines|
    ensures k == -1 <==> (forall i :: 0 <= i < |lines| ==> !matches(lines[i]))
    ensures k >= 0 ==> matches(lines[k]) && forall j :: 0 <= j < k ==> !matches(lines[j])
    decreases |lines|
  {
    if |lines| == 0 then -1
    else if matches(lines[0]) then 0
    else
      var k := FirstIndex(lines[1..], matches);
      if k == -1 then -1 else k + 1
  }

  /** `read_to` stops right after the first selected line. */
  lemma {:induction false} ReadToStopsAtFirst(lines: seq<string>, matches: string -> bool)
    ensures var r := ReadTo(lines, matches);
            r.line.Some? ==>
              && FirstIndex(lines, matches) >= 0
              && r.line.value == lines[FirstIndex(lines, matches)]
              && r.rest == lines[FirstIndex(lines, matches) + 1..]
    decreases |lines|
  {
    if |lines| > 0 && !matches(lines[0]) {
      ReadToStopsAtFirst(lines[1..], matches);
      var f := FirstIndex(lines[1..], matches);
      if f >= 0 {
        assert lines[1..][f] == lines[f + 1];
        assert lines[1..][f + 1..] == lines[f + 2..];
      }
    }
  }

  // ---------------------------------------------------------------------
  // list_packages

  const PackagePrefix: string := "Package: "
  const VersionPrefix: string := "Version: "

  /** `re.match('^Package: ', line)`. */
  predicate IsPackageLine(l: string) {
    StartsWith(l, PackagePrefix)
  }

  /** `re.match('^Version: ', line)`. */
  predicate IsVersionLine(l: string) {
    StartsWith(l, VersionPrefix)
  }

  /** The text up to the first '\n' (all of it when there is none). */
  function UpToNewline(s: string): (r: string)
    ensures r <= s && '\n' !in r
    ensures |r| < |s| ==> s[|r|] == '\n'
  {
    var i := Find(s, '\n');
    if i == -1 then s else s[..i]
  }

  /** Group 1 of `re.match('^Package: (.*)$', line)` (or the `Version:`
      pattern) on a line from the file: `.` stops at the line's '\n', before
      which `$` matches. */
  function Capture(l: string): (r: string)
    requires |l| >= 9
    ensures '\n' !in r
  {
    UpToNewline(l[9..])
  }

  function Entry(name: string, version: string): string {
    name + "@" + version
  }

  /** `Archive.list_packages` over the lines of the index: find a `Package:`
      line, then the next `Version:` line after it, emit `name@version`,
      and go on after the `Version:` line; stop as soon as either search
      reaches the end. */
  function ListPackages(lines: seq<string>): (r: seq<string>)
    decreases |lines|
  {
    var p := ReadTo(lines, IsPackageLine);
    if p.line.None? then []
    else
      var v := ReadTo(p.rest, IsVersionLine);
      if v.line.None? then []
      else [Entry(Capture(p.line.value), Capture(v.line.value))] + ListPackages(v.rest)
  }

  /** An independent reading of the same pairing, one line at a time: while
      no package is pending a `Package:` line makes its name pending; while
      one is pending a `Version:` line completes the entry.  Every other line
      is passed over, blank paragraph separators included. */
  function Pairing(lines: seq<string>, pending: Option<string>): seq<string>
    decreases |lines|
  {
    if |lines| == 0 then []
    else
      var l := lines[0];
      match pending
      case None =>
        if IsPackageLine(l) then Pairing(lines[1..], Some(Capture(l))) else Pairing(lines[1..], None)
      case Some(name) =>
        if IsVersionLine(l) then [Entry(name, Capture(l))] + Pairing(lines[1..], None)
        else Pairing(lines[1..], pending)
  }

  lemma {:induction false} PairingPending(lines: seq<string>, name: string)
    ensures var v := ReadTo(lines, IsVersionLine);
            Pairing(lines, Some(name))
              == if v.line.None? then [] else [Entry(name, Capture(v.line.value))] + Pairing(v.rest, None)
    decreases |lines|
  {
    if |lines| > 0 && !IsVersionLine(lines[0]) {
      PairingPending(lines[1..], name);
    }
  }

  /** `list_packages` is the line-at-a-time pairing started with nothing
      pending. */
  lemma {:induction false} ListPackagesIsPairing(lines: seq<string>)
    ensures ListPackages(lines) == Pairing(lines, None)
    decreases |lines|
  {
    if |lines| > 0 {
      if IsPackageLine(lines[0]) {
        var p := ReadTo(lines, IsPackageLine);
        PairingPending(lines[1..], Capture(lines[0]));
        var v := ReadTo(p.rest, IsVersionLine);
        if v.line.Some? {
          ListPackagesIsPairing(v.rest);
        }
      } else {
        ListPackagesIsPairing(lines[1..]);
      }
    }
  }

  /** The number of lines `matches` selects. */
  function CountMatching(lines: seq<string>, matches: string -> bool): (n: nat)
    ensures n <= |lines|
    decreases |lines|
  {
    if |lines| == 0 then 0
    else (if matches(lines[0]) then 1 else 0) + CountMatching(lines[1..], matches)
  }

  lemma {:induction false} PairingBound(lines: seq<string>, pending: Option<string>)
    ensures |Pairing(lines, pending)| <= CountMatching(lines, IsPackageLine) + (if pending.Some? then 1 else 0)
    decreases |lines|
  {
    if |lines| > 0 {
      var l := lines[0];
      match pending
      case None =>
        if IsPackageLine(l) { PairingBound(lines[1..], Some(Capture(l))); }
        else { PairingBound(lines[1..], None); }
      case Some(name) =>
        if IsVersionLine(l) { PairingBound(lines[1..], None); }
        else { PairingBound(lines[1..], pending); }
    }
  }

  /** At most one entry per `Package:` line: a last `Package:` with no later
      `Version:` is dropped. */
  lemma ListPackagesBound(lines: seq<string>)
    ensures |ListPackages(lines)| <= CountMatching(lines, IsPackageLine)
  {
    ListPackagesIsPairing(lines);
    PairingBound(lines, None);
  }

  /** The pairing is not confined to a paragraph: a paragraph without a
      `Version:` field takes the version of the next paragraph, whose own
      package is then never listed. */
  lemma PairingCrossesParagraphs(a: string, b: string, v: string)
    requires '\n' !in a && '\n' !in v
    ensures ListPackages([PackagePrefix + a + "\n", "\n", PackagePrefix + b + "\n", VersionPrefix + v + "\n"])
            == [Entry(a, v)]
  {
    var ls := [PackagePrefix + a + "\n", "\n", PackagePrefix + b + "\n", VersionPrefix + v + "\n"];
    ListPackagesIsPairing(ls);
    CaptureOfField(PackagePrefix, a);
    CaptureOfField(VersionPrefix, v);
    assert !IsVersionLine(ls[0]) && !IsVersionLine(ls[1]) && !IsVersionLine(ls[2]) by {
      assert ls[0][0] == 'P' && ls[1][0] == '\n' && ls[2][0] == 'P';
    }
    assert IsPackageLine(ls[0]) && IsVersionLine(ls[3]);
    assert ls[1..][1..][1..][1..] == [];
  }

  /** The captured value of a field line written from a newline-free value
      is that value. */
  lemma CaptureOfField(prefix: string, value: string)
    requires |prefix| == 9 && '\n' !in value
    ensures Capture(prefix + value + "\n") == value
  {
    var l := prefix + value + "\n";
    assert l[9..] == value + "\n";
    assert Find(value + "\n", '\n') == |value| by {
      assert (value + "\n")[..|value|] == value;
    }
  }

  // ---------------------------------------------------------------------
  // rendering an index and reading it back

  /** One binary package paragraph: its `Package:` field, the field lines
      between it and the `Version:` field (`Architecture:`, `Source:`, ...),
      its `Version:` field and the field lines after it. */
  datatype Stanza = Stanza(name: string, pre: seq<string>, version: string, fields: seq<string>)

  /** A stanza the scanner reads back as written: one-line name and
      version, and no other field line mistaken for one of those two. */
  predicate ValidStanza(s: Stanza) {
    && '\n' !in s.name && '\n' !in s.version
    && (forall i :: 0 <= i < |s.pre| ==> !IsPackageLine(s.pre[i]) && !IsVersionLine(s.pre[i]))
    && (forall i :: 0 <= i < |s.fields| ==> !IsPackageLine(s.fields[i]) && !IsVersionLine(s.fields[i]))
  }

  function RenderStanza(s: Stanza): seq<string> {
    [PackagePrefix + s.name + "\n"] + (s.pre + ([VersionPrefix + s.version + "\n"] + (s.fields + ["\n"])))
  }

  function RenderIndex(ss: seq<Stanza>): seq<string>
    decreases |ss|
  {
    if |ss| == 0 then [] else RenderStanza(ss[0]) + RenderIndex(ss[1..])
  }

  function Entries(ss: seq<Stanza>): (r: seq<string>)
    ensures |r| == |ss|
    ensures forall i :: 0 <= i < |ss| ==> r[i] == Entry(ss[i].name, ss[i].version)
    decreases |ss|
  {
    if |ss| == 0 then [] else [Entry(ss[0].name, ss[0].version)] + Entries(ss[1..])
  }

  /** Lines neither kind of field line passes over while nothing is pending. */
  lemma {:induction false} PairingSkipsIdle(ls: seq<string>, rest: seq<string>)
    requires forall i :: 0 <= i < |ls| ==> !IsPackageLine(ls[i])
    ensures Pairing(ls + rest, None) == Pairing(rest, None)
    decreases |ls|
  {
    if |ls| == 0 {
      assert ls + rest == rest;
    } else {
      assert (ls + rest)[0] == ls[0];
      assert (ls + rest)[1..] == ls[1..] + rest;
      PairingSkipsIdle(ls[1..], rest);
    }
  }

  /** Lines other than `Version:` ones are passed over while a package is
      pending. */
  lemma {:induction false} PairingSkipsPending(ls: seq<string>, rest: seq<string>, name: string)
    requires forall i :: 0 <= i < |ls| ==> !IsVersionLine(ls[i])
    ensures Pairing(ls + rest, Some(name)) == Pairing(rest, Some(name))
    decreases |ls|
  {
    if |ls| == 0 {
      assert ls + rest == rest;
    } else {
      assert (ls + rest)[0] == ls[0];
      assert (ls + rest)[1..] == ls[1..] + rest;
      PairingSkipsPending(ls[1..], rest, name);
    }
  }

  /** Listing a rendered index gives one `name@version` per stanza, in
      order, whatever fields sit before and after each `Version:` line. */
  lemma {:induction false} ListRenderedIndex(ss: seq<Stanza>)
    requires forall i :: 0 <= i < |ss| ==> ValidStanza(ss[i])
    ensures ListPackages(RenderIndex(ss)) == Entries(ss)
    decreases |ss|
  {
    ListPackagesIsPairing(RenderIndex(ss));
    PairingOfRendered(ss);
  }

  lemma {:induction false} PairingOfRendered(ss: seq<Stanza>)
    requires forall i :: 0 <= i < |ss| ==> ValidStanza(ss[i])
    ensures Pairing(RenderIndex(ss), None) == Entries(ss)
    decreases |ss|
  {
    if |ss| > 0 {
      var s := ss[0];
      var tail := s.fields + ["\n"];
      var rest := RenderIndex(ss[1..]);
      var all := RenderIndex(ss);
      var pl := PackagePrefix + s.name + "\n";
      var vl := VersionPrefix + s.version + "\n";
      assert all == [pl] + (s.pre + ([vl] + (tail + rest)));
      assert IsPackageLine(pl);
      assert IsVersionLine(vl) && !IsVersionLine(pl) by { assert pl[0] == 'P'; }
      CaptureOfField(PackagePrefix, s.name);
      CaptureOfField(VersionPrefix, s.version);
      assert all[1..] == s.pre + ([vl] + (tail + rest));
      PairingSkipsPending(s.pre, [vl] + (tail + rest), s.name);
      assert ([vl] + (tail + rest))[1..] == tail + rest;
      assert forall i :: 0 <= i < |tail| ==> !IsPackageLine(tail[i]) by {
        forall i | 0 <= i < |tail| ensures !IsPackageLine(tail[i]) {
          if i == |s.fields| { assert tail[i] == "\n"; }
        }
      }
      PairingSkipsIdle(tail, rest);
      PairingOfRendered(ss[1..]);
    }
  }

  /** Every line of the sequence is a full line with its '\n'. */
  predicate Terminated(ls: seq<string>) {
    forall i :: 0 <= i < |ls| ==> IsLine(ls[i]) && EndsWithNewline(ls[i])
  }

  /** A stanza that a file can hold: its other field lines are full lines. */
  predicate FileStanza(s: Stanza) {
    ValidStanza(s) && Terminated(s.pre) && Terminated(s.fields)
  }

  lemma FieldLineTerminated(prefix: string, value: string)
    requires '\n' !in prefix && '\n' !in value
    ensures IsLine(prefix + value + "\n") && EndsWithNewline(prefix + value + "\n")
  {
    var l := prefix + value + "\n";
    forall j | 0 <= j < |l| - 1 ensures l[j] != '\n' {
      if j < |prefix| { assert l[j] == prefix[j]; } else { assert l[j] == value[j - |prefix|]; }
    }
  }

  lemma TerminatedAppend(a: seq<string>, b: seq<string>)
    requires Terminated(a) && Terminated(b)
    ensures Terminated(a + b)
  {
    forall i | 0 <= i < |a + b| ensures IsLine((a + b)[i]) && EndsWithNewline((a + b)[i]) {
      if i >= |a| { assert (a + b)[i] == b[i - |a|]; }
    }
  }

  lemma {:induction false} RenderIndexTerminated(ss: seq<Stanza>)
    requires forall i :: 0 <= i < |ss| ==> FileStanza(ss[i])
    ensures Terminated(RenderIndex(ss))
    decreases |ss|
  {
    if |ss| > 0 {
      var s := ss[0];
      assert '\n' !in PackagePrefix && '\n' !in VersionPrefix;
      FieldLineTerminated(PackagePrefix, s.name);
      FieldLineTerminated(VersionPrefix, s.version);
      assert IsLine("\n") && EndsWithNewline("\n");
      TerminatedAppend(s.fields, ["\n"]);
      TerminatedAppend([VersionPrefix + s.version + "\n"], s.fields + ["\n"]);
      TerminatedAppend(s.pre, [VersionPrefix + s.version + "\n"] + (s.fields + ["\n"]));
      TerminatedAppend([PackagePrefix + s.name + "\n"], s.pre + ([VersionPrefix + s.version + "\n"] + (s.fields + ["\n"])));
      RenderIndexTerminated(ss[1..]);
      TerminatedAppend(RenderStanza(s), RenderIndex(ss[1..]));
    }
  }

  /** The text of a rendered index reads back as its lines. */
  lemma RenderedTextLines(ss: seq<Stanza>)
    requires forall i :: 0 <= i < |ss| ==> FileStanza(ss[i])
    ensures Lines(Concat(RenderIndex(ss))) == RenderIndex(ss)
  {
    var ls := RenderIndex(ss);
    RenderIndexTerminated(ss);
    TerminatedWellFormed(ls);
    LinesOfConcat(ls);
  }

  lemma TerminatedWellFormed(ls: seq<string>)
    requires Terminated(ls)
    ensures WellFormed(ls)
  {
  }

  // ---------------------------------------------------------------------
  // get_pkg_paragraph

  /** `re.match(f'^Package: {pkg}$', line)` with `pkg` taken literally:
      the whole line, or the line before its '\n'. */
  predicate IsHeaderFor(pkg: string, l: string) {
    l == PackagePrefix + pkg || l == PackagePrefix + pkg + "\n"
  }

  /** The lines up to the first one that is empty after `strip()`. */
  function TakeUntilBlank(ls: seq<string>): (r: seq<string>)
    ensures r <= ls
    ensures forall i :: 0 <= i < |r| ==> !IsBlank(r[i])
    ensures |r| < |ls| ==> IsBlank(ls[|r|])
    decreases |ls|
  {
    if |ls| == 0 || IsBlank(ls[0]) then [] else [ls[0]] + TakeUntilBlank(ls[1..])
  }

  /** The lines `get_pkg_paragraph` writes to its buffer: the first header
      line for `pkg` and the lines after it up to (not including) the first
      whitespace-only line or the end; "no such package" when no line is a
      header for `pkg`. */
  function ParagraphLines(lines: seq<string>, pkg: string): (r: Result<seq<string>>)
    ensures r.Err? <==> (forall i :: 0 <= i < |lines| ==> !IsHeaderFor(pkg, lines[i]))
    ensures r.Err? ==> r.error == NoSuchPackage(pkg)
    ensures r.Ok? ==>
              var k := FirstIndex(lines, HeaderMatcher(pkg));
              && 0 <= k && |r.value| >= 1 && k + |r.value| <= |lines|
              && r.value == lines[k..k + |r.value|]
              && (forall i :: 0 <= i < |r.value| ==> !IsBlank(r.value[i]))
              && (k + |r.value| < |lines| ==> IsBlank(lines[k + |r.value|]))
  {
    var k := FirstIndex(lines, HeaderMatcher(pkg));
    NoHeaderAt(lines, pkg);
    if k < 0 then Err(NoSuchPackage(pkg))
    else
      ParagraphAt(lines, pkg, k);
      Ok([lines[k]] + TakeUntilBlank(lines[k + 1..]))
  }

  lemma NoHeaderAt(lines: seq<string>, pkg: string)
    ensures FirstIndex(lines, HeaderMatcher(pkg)) < 0 <==> forall i :: 0 <= i < |lines| ==> !IsHeaderFor(pkg, lines[i])
  {
    assert forall i :: 0 <= i < |lines| ==> (HeaderMatcher(pkg)(lines[i]) <==> IsHeaderFor(pkg, lines[i]));
  }

  /** The paragraph found at the first header `k`. */
  lemma ParagraphAt(lines: seq<string>, pkg: string, k: int)
    requires 0 <= k < |lines| && HeaderMatcher(pkg)(lines[k])
    ensures var para := [lines[k]] + TakeUntilBlank(lines[k + 1..]);
            && k + |para| <= |lines|
            && para == lines[k..k + |para|]
            && (forall i :: 0 <= i < |para| ==> !IsBlank(para[i]))
            && (k + |para| < |lines| ==> IsBlank(lines[k + |para|]))
  {
    var body := TakeUntilBlank(lines[k + 1..]);
    HeaderIsPackageLine(pkg, lines[k]);
    HeaderThenBody(lines, k, body);
    if k + 1 + |body| < |lines| {
      assert lines[k + 1..][|body|] == lines[k + 1 + |body|];
    }
  }

  /** The same paragraph as the script reads it: `read_to` the header, then
      the lines the iterator has left up to the first blank one. */
  lemma ParagraphViaReadTo(lines: seq<string>, pkg: string)
    ensures var s := ReadTo(lines, HeaderMatcher(pkg));
            s.line.Some? ==> ParagraphLines(lines, pkg) == Ok([s.line.value] + TakeUntilBlank(s.rest))
  {
    var s := ReadTo(lines, HeaderMatcher(pkg));
    if s.line.Some? {
      ReadToStopsAtFirst(lines, HeaderMatcher(pkg));
      var k := FirstIndex(lines, HeaderMatcher(pkg));
      assert ParagraphLines(lines, pkg) == Ok([lines[k]] + TakeUntilBlank(lines[k + 1..]));
    }
  }

  /** `re.match(f'^Package: {pkg}$', ...)` as a line predicate. */
  function HeaderMatcher(pkg: string): string -> bool {
    l => IsHeaderFor(pkg, l)
  }

  lemma HeaderIsPackageLine(pkg: string, l: string)
    requires HeaderMatcher(pkg)(l)
    ensures IsPackageLine(l)
  {
    assert l[..9] == (PackagePrefix + pkg)[..9];
  }

  lemma HeaderThenBody(lines: seq<string>, k: int, body: seq<string>)
    requires 0 <= k < |lines| && body <= lines[k + 1..]
    requires IsPackageLine(lines[k])
    requires forall i :: 0 <= i < |body| ==> !IsBlank(body[i])
    ensures k + 1 + |body| <= |lines| && [lines[k]] + body == lines[k..k + 1 + |body|]
    ensures forall i :: 0 <= i < 1 + |body| ==> !IsBlank(([lines[k]] + body)[i])
  {
    assert !IsBlank(lines[k]) by { assert lines[k][0] == 'P'; }
    assert lines[k + 1..k + 1 + |body|] == body;
    var para := [lines[k]] + body;
    forall i | 0 <= i < |para| ensures !IsBlank(para[i]) {
      if i > 0 { assert para[i] == body[i - 1]; }
    }
  }

  /** A run of consecutive lines of a file is itself a sequence of lines. */
  lemma SliceWellFormed(ls: seq<string>, i: nat, j: nat)
    requires WellFormed(ls) && i <= j <= |ls|
    ensures WellFormed(ls[i..j])
  {
    var s := ls[i..j];
    forall m | 0 <= m < |s| ensures IsLine(s[m]) && (m < |s| - 1 ==> EndsWithNewline(s[m])) {
      assert s[m] == ls[i + m];
    }
  }

  /** `Archive.get_pkg_paragraph` over the text of the index: the paragraph
      starts with the requested header, and read back as lines it is the
      header and the following non-blank lines. */
  function GetPkgParagraph(text: string, pkg: string): (r: Result<string>)
    ensures r.Err? <==> ParagraphLines(Lines(text), pkg).Err?
    ensures r.Err? ==> r.error == NoSuchPackage(pkg)
    ensures r.Ok? ==> Lines(r.value) == ParagraphLines(Lines(text), pkg).value
    ensures r.Ok? ==> StartsWith(r.value, PackagePrefix + pkg)
    ensures r.Ok? ==> forall i :: 0 <= i < |Lines(r.value)| ==> !IsBlank(Lines(r.value)[i])
  {
    var ls := Lines(text);
    match ParagraphLines(ls, pkg)
    case Err(e) => Err(e)
    case Ok(para) =>
      ParagraphText(ls, pkg);
      Ok(Concat(para))
  }

  /** The paragraph's lines, joined, read back as the same lines. */
  lemma ParagraphText(ls: seq<string>, pkg: string)
    requires WellFormed(ls) && ParagraphLines(ls, pkg).Ok?
    ensures var para := ParagraphLines(ls, pkg).value;
            && Lines(Concat(para)) == para
            && StartsWith(Concat(para), PackagePrefix + pkg)
  {
    var para := ParagraphLines(ls, pkg).value;
    var k := FirstIndex(ls, HeaderMatcher(pkg));
    SliceWellFormed(ls, k, k + |para|);
    LinesOfConcat(para);
    assert Concat(para) == para[0] + Concat(para[1..]);
  }

  // ---------------------------------------------------------------------
  // cache paths and the cache decision

  /** `packages_cache_path`. */
  function PackagesCachePath(a: Archive): string {
    CachePath(PackagesUrl(a))
  }

  /** `sources_cache_path` as written: the scheme comes from the sources
      URL, but the path stripped is the packages URL. */
  function SourcesCachePath(a: Archive): string {
    CachePathSchemeOf(SourcesUrl(a), PackagesUrl(a))
  }

  /** As written, the source index would be cached in the file of the binary
      index. */
  lemma SourcesCacheIsPackagesCache(a: Archive)
    ensures SourcesCachePath(a) == PackagesCachePath(a)
  {
    var x := "dists/" + (a.dist + ("/" + (a.area + ("/binary-" + (a.arch + "/Packages.gz")))));
    var y := "dists/" + (a.dist + ("/" + (a.area + "/source/Sources.gz")));
    assert PackagesUrl(a) == a.repo + "/" + x;
    assert SourcesUrl(a) == a.repo + "/" + y;
    SchemeSharedPrefix(a.repo, x, y);
  }

  /** The corrected cache path of the binary index: the URL with its
      `scheme://` prefix removed, under "/tmp/". */
  function PackagesCachePathFixed(a: Archive): string {
    CachePathFixed(PackagesUrl(a))
  }

  /** The corrected cache path of the source index, built from the sources
      URL. */
  function SourcesCachePathFixed(a: Archive): string {
    CachePathFixed(SourcesUrl(a))
  }

  /** The corrected path of the binary index ends with its file name. */
  lemma PackagesFixedKeepsFileName(a: Archive)
    ensures EndsWith(PackagesCachePathFixed(a), "Packages.gz")
  {
    var f := "/Packages.gz";
    assert EndsWith(f, "Packages.gz");
    var x := "dists/" + (a.dist + ("/" + (a.area + ("/binary-" + (a.arch + f)))));
    EndsWithPrepend(a.arch, f, "Packages.gz");
    EndsWithPrepend("/binary-", a.arch + f, "Packages.gz");
    EndsWithPrepend(a.area, "/binary-" + (a.arch + f), "Packages.gz");
    EndsWithPrepend("/", a.area + ("/binary-" + (a.arch + f)), "Packages.gz");
    EndsWithPrepend(a.dist, "/" + (a.area + ("/binary-" + (a.arch + f))), "Packages.gz");
    EndsWithPrepend("dists/", a.dist + ("/" + (a.area + ("/binary-" + (a.arch + f)))), "Packages.gz");
    var u := PackagesUrl(a);
    assert u == a.repo + "/" + x;
    CachePathFixedKeepsTail(u, a.repo, x);
    EndsWithTrans(CachePathFixed(u), x, "Packages.gz");
  }

  /** The corrected path of the source index ends with its file name. */
  lemma SourcesFixedKeepsFileName(a: Archive)
    ensures EndsWith(SourcesCachePathFixed(a), "Sources.gz")
  {
    var f := "/source/Sources.gz";
    assert EndsWith(f, "Sources.gz");
    var y := "dists/" + (a.dist + ("/" + (a.area + f)));
    EndsWithPrepend(a.area, f, "Sources.gz");
    EndsWithPrepend("/", a.area + f, "Sources.gz");
    EndsWithPrepend(a.dist, "/" + (a.area + f), "Sources.gz");
    EndsWithPrepend("dists/", a.dist + ("/" + (a.area + f)), "Sources.gz");
    var u := SourcesUrl(a);
    assert u == a.repo + "/" + y;
    CachePathFixedKeepsTail(u, a.repo, y);
    EndsWithTrans(CachePathFixed(u), y, "Sources.gz");
  }

  /** A path ending in "Sources.gz" is not one ending in "Packages.gz". */
  lemma FileNamesDiffer(s: string, p: string)
    requires EndsWith(s, "Sources.gz") && EndsWith(p, "Packages.gz")
    ensures s != p
  {
    assert s[|s| - 10] == "Sources.gz"[0];
    assert p[|p| - 10] == "Packages.gz"[1];
  }

  /** With the correction the two indices never share a cache file. */
  lemma FixedCachePathsDiffer(a: Archive)
    ensures SourcesCachePathFixed(a) != PackagesCachePathFixed(a)
  {
    PackagesFixedKeepsFileName(a);
    SourcesFixedKeepsFileName(a);
    FileNamesDiffer(SourcesCachePathFixed(a), PackagesCachePathFixed(a));
  }

  /** The index text `list_packages` and `get_pkg_paragraph` read: fetched
      (one request, no redirects) when the cache is stale, else the text
      already cached.  The server is consulted only for a stale cache, and
      then only its answer for the binary-index URL counts: a 200 gives its
      body, any other status (a redirect too) fails with that status. */
  function IndexText(a: Archive, maxAge: int, state: CacheState, cached: string, server: Server): (r: Result<string>)
    ensures r.Ok? <==> Decide(state, maxAge) == Reuse || server(PackagesUrl(a)).status == 200
    ensures Decide(state, maxAge) == Reuse ==> r == Ok(cached)
    ensures Decide(state, maxAge) == Download && r.Ok? ==> r.value == server(PackagesUrl(a)).body
    ensures r.Err? ==> r.error == HttpStatus(server(PackagesUrl(a)).status) && !(server(PackagesUrl(a)).status == 200)
  {
    match Decide(state, maxAge)
    case Reuse => Ok(cached)
    case Download => GetOnce(server, PackagesUrl(a))
  }

  /** Servers that answer the binary-index URL alike give the same index
      text: nothing else the repository serves plays a part. */
  lemma IndexTextOnlyReadsPackagesUrl(a: Archive, maxAge: int, state: CacheState, cached: string, s1: Server, s2: Server)
    requires s1(PackagesUrl(a)) == s2(PackagesUrl(a))
    ensures IndexText(a, maxAge, state, cached, s1) == IndexText(a, maxAge, state, cached, s2)
  {
  }

  /** The `list-packages` subcommand: the `name@version` pairing of the
      index text, read as lines; at most one entry per `Package:` line. */
  function ListPackagesCommand(a: Archive, maxAge: int, state: CacheState, cached: string, server: Server): (r: Result<seq<string>>)
    ensures r.Ok? <==> IndexText(a, maxAge, state, cached, server).Ok?
    ensures r.Err? ==> r.error == IndexText(a, maxAge, state, cached, server).error
    ensures r.Ok? ==> var ls := Lines(IndexText(a, maxAge, state, cached, server).value);
                      r.value == Pairing(ls, None) && |r.value| <= CountMatching(ls, IsPackageLine)
  {
    match IndexText(a, maxAge, state, cached, server)
    case Err(e) => Err(e)
    case Ok(t) =>
      ListPackagesIsPairing(Lines(t));
      ListPackagesBound(Lines(t));
      Ok(ListPackages(Lines(t)))
  }

  /** End to end: when the index text is a rendered index, the subcommand
      lists one `name@version` per stanza, in order. */
  lemma ListCommandOfRenderedIndex(a: Archive, maxAge: int, state: CacheState, cached: string, server: Server,
                                   ss: seq<Stanza>)
    requires forall i :: 0 <= i < |ss| ==> FileStanza(ss[i])
    requires IndexText(a, maxAge, state, cached, server) == Ok(Concat(RenderIndex(ss)))
    ensures ListPackagesCommand(a, maxAge, state, cached, server) == Ok(Entries(ss))
  {
    RenderedTextLines(ss);
    ListRenderedIndex(ss);
    ListPackagesIsPairing(RenderIndex(ss));
  }

  /** With the command-line default maximum age an existing cache file
      decides the listing, whatever the repository now serves. */
  lemma DefaultAgeIgnoresServer(a: Archive, ageMicros: int, cached: string, s1: Server, s2: Server)
    ensures ListPackagesCommand(a, DefaultMaxCacheAge, Present(ageMicros), cached, s1)
            == ListPackagesCommand(a, DefaultMaxCacheAge, Present(ageMicros), cached, s2)
            == Ok(ListPackages(Lines(cached)))
  {
    DefaultMaxAgeNeverRefreshes(ageMicros, DefaultMaxCacheAge);
  }
}
