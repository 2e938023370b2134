/** `gomod-graph.py`: the module dependency graph of a Go module.

    Two command outputs are inputs: the lines of `go list -m all` (a module
    name and the version the build uses) and the lines of `go mod graph`
    (a consuming module id and one of its requirements, `name@version`).
    The graph maps every module id met on an edge line to a module record;
    a record is created on the first occurrence of its id and afterwards
    only gains children.  Each child is kept as its id, which is always a
    key of the same map, so `child_modules[id]` is `module_map[id]`. */
module GoModGraph {
  import opened Wrappers
  import opened Text

  /** A module record; `children` lists the ids of `child_modules` in the
      order they were first added. */
  datatype Module = Module(name: string, effectiveVersion: Option<string>,
                           desiredVersion: Option<string>, children: seq<string>)

  /** `Module.id`: the name, with `@` and the effective version appended
      when there is a non-empty one. */
  function Id(m: Module): string {
    match m.effectiveVersion
    case Some(v) => if v != [] then m.name + "@" + v else m.name
    case None => m.name
  }

  /** The id of a module with a name free of '@' gives back the name before
      its first '@' and the version after it. */
  lemma IdRoundTrip(m: Module)
    requires '@' !in m.name
    ensures Split(Id(m), '@')[0] == m.name
    ensures m.effectiveVersion.Some? && m.effectiveVersion.value != [] ==>
              Id(m)[|m.name| + 1..] == m.effectiveVersion.value
    ensures m.effectiveVersion.None? || m.effectiveVersion.value == [] ==> Id(m) == m.name
  {
    var id := Id(m);
    SplitAtFirst(id, '@');
    if m.effectiveVersion.Some? && m.effectiveVersion.value != [] {
      var v := m.effectiveVersion.value;
      assert id == m.name + ['@'] + v;
      FindAfter(m.name, '@', v);
    }
  }

  // ---------------------------------------------------------------------
  // tokens

  /** The end of the run of non-space characters starting at `i`. */
  function TokenEnd(s: string, i: nat): (k: nat)
    requires i <= |s|
    ensures i <= k <= |s|
    ensures forall j :: i <= j < k ==> !IsSpace(s[j])
    ensures k < |s| ==> IsSpace(s[k])
  {
    SkipFrom(s, NotSpace, i)
  }

  /** The end of the run of whitespace starting at `i`. */
  function SpaceEnd(s: string, i: nat): (k: nat)
    requires i <= |s|
    ensures i <= k <= |s|
    ensures forall j :: i <= j < k ==> IsSpace(s[j])
    ensures k < |s| ==> !IsSpace(s[k])
  {
    SkipFrom(s, IsSpace, i)
  }

  predicate IsToken(t: string) {
    t != [] && forall j :: 0 <= j < |t| ==> !IsSpace(t[j])
  }

  /** `rest` can follow a token: it is empty or starts with whitespace. */
  predicate Delimits(rest: string) {
    rest == [] || IsSpace(rest[0])
  }

  /** A run of non-space characters from `i` to `k`, ended by whitespace or
      the end of the string, is the token at `i`. */
  lemma TokenEndIs(s: string, i: nat, k: nat)
    requires i <= k <= |s|
    requires forall j :: i <= j < k ==> !IsSpace(s[j])
    requires k < |s| ==> IsSpace(s[k])
    ensures TokenEnd(s, i) == k
  {
  }

  /** The whitespace counterpart of `TokenEndIs`. */
  lemma SpaceEndIs(s: string, i: nat, k: nat)
    requires i <= k <= |s|
    requires forall j :: i <= j < k ==> IsSpace(s[j])
    requires k < |s| ==> !IsSpace(s[k])
    ensures SpaceEnd(s, i) == k
  {
  }

  // ---------------------------------------------------------------------
  // `go list -m all`

  /** `re.match(r'(\S+)\s*(\S+)?', line)`: the first token and the second
      one, if any; no match when the line is empty or starts with
      whitespace. */
  function ParseVersionLine(line: string): (r: Option<(string, Option<string>)>)
    ensures r.Some? <==> line != [] && !IsSpace(line[0])
    ensures r.Some? ==> IsToken(r.value.0) && StartsWith(line, r.value.0)
                        && Delimits(line[|r.value.0|..])
    ensures r.Some? && r.value.1.Some? ==> IsToken(r.value.1.value)
  {
    if line == [] || IsSpace(line[0]) then None
    else
      var e := TokenEnd(line, 0);
      var w := SpaceEnd(line, e);
      var f := TokenEnd(line, w);
      Some((line[..e], if f > w then Some(line[w..f]) else None))
  }

  /** A line of a name, whitespace and a version parses back to them,
      whatever follows after more whitespace. */
  lemma VersionLineRoundTrip(name: string, sep: string, version: string, rest: string)
    requires IsToken(name) && IsToken(version) && Delimits(rest)
    requires sep != [] && forall j :: 0 <= j < |sep| ==> IsSpace(sep[j])
    ensures ParseVersionLine(name + sep + version + rest) == Some((name, Some(version)))
  {
    var line := name + sep + version + rest;
    var a, b := |name|, |name| + |sep|;
    var c := b + |version|;
    assert forall j :: 0 <= j < a ==> line[j] == name[j];
    assert forall j :: a <= j < b ==> line[j] == sep[j - a];
    assert forall j :: b <= j < c ==> line[j] == version[j - b];
    assert c < |line| ==> line[c] == rest[0];
    TokenEndIs(line, 0, a);
    SpaceEndIs(line, a, b);
    TokenEndIs(line, b, c);
    assert line[..a] == name;
    assert line[b..c] == version;
    ParseVersionLineOf(line, a, b, c);
  }

  /** `ParseVersionLine` once the token boundaries are known. */
  lemma ParseVersionLineOf(line: string, e: nat, w: nat, f: nat)
    requires line != [] && !IsSpace(line[0])
    requires e <= |line| && TokenEnd(line, 0) == e
    requires SpaceEnd(line, e) == w && TokenEnd(line, w) == f && f > w
    ensures ParseVersionLine(line) == Some((line[..e], Some(line[w..f])))
  {
  }

  /** A line holding only a name (and trailing whitespace) has no version. */
  lemma NameOnlyLine(name: string, sep: string)
    requires IsToken(name)
    requires forall j :: 0 <= j < |sep| ==> IsSpace(sep[j])
    ensures ParseVersionLine(name + sep) == Some((name, None))
  {
    var line := name + sep;
    var a := |name|;
    assert forall j :: 0 <= j < a ==> line[j] == name[j];
    assert forall j :: a <= j < |line| ==> line[j] == sep[j - a];
    TokenEndIs(line, 0, a);
    SpaceEndIs(line, a, |line|);
    TokenEndIs(line, |line|, |line|);
    assert line[..a] == name;
  }

  /** The effective version of each module name. */
  type Versions = map<string, Option<string>>

  /** `get_effective_module_versions`: every matched line maps its first
      token to its second; a later line overwrites an earlier one. */
  function EffectiveVersions(lines: seq<string>): Versions
    decreases |lines|
  {
    if |lines| == 0 then map[]
    else
      var m := EffectiveVersions(lines[..|lines| - 1]);
      match ParseVersionLine(lines[|lines| - 1])
      case None => m
      case Some(entry) => m[entry.0 := entry.1]
  }

  /** `get_effective_module_versions` on the command's whole output. */
  function EffectiveVersionsOf(output: string): Versions {
    EffectiveVersions(Split(output, '\n'))
  }

  /** The name a line of `go list -m all` gives a version to, if any. */
  function LineName(line: string): Option<string> {
    match ParseVersionLine(line)
    case None => None
    case Some(entry) => Some(entry.0)
  }

  /** What the last line does to the map. */
  lemma EffectiveVersionsLast(lines: seq<string>, name: string)
    requires |lines| > 0
    ensures var m, m' := EffectiveVersions(lines[..|lines| - 1]), EffectiveVersions(lines);
            LineName(lines[|lines| - 1]) != Some(name) ==>
              (name in m' <==> name in m) && (name in m ==> m'[name] == m[name])
    ensures var m' := EffectiveVersions(lines);
            LineName(lines[|lines| - 1]) == Some(name) ==>
              name in m' && m'[name] == ParseVersionLine(lines[|lines| - 1]).value.1
  {
  }

  /** The map's keys are exactly the names of the matched lines. */
  lemma {:induction false} EffectiveVersionsKeys(lines: seq<string>, name: string)
    ensures name in EffectiveVersions(lines) <==> exists i :: 0 <= i < |lines| && LineName(lines[i]) == Some(name)
    decreases |lines|
  {
    if |lines| > 0 {
      var init := lines[..|lines| - 1];
      var last := |lines| - 1;
      EffectiveVersionsKeys(init, name);
      EffectiveVersionsLast(lines, name);
      assert forall i :: 0 <= i < last ==> init[i] == lines[i];
      if LineName(lines[last]) != Some(name) {
        if exists i :: 0 <= i < |lines| && LineName(lines[i]) == Some(name) {
          var i :| 0 <= i < |lines| && LineName(lines[i]) == Some(name);
          assert i != last;
          assert init[i] == lines[i];
        }
      }
    }
  }

  /** Each name gets the version of the last line naming it. */
  lemma {:induction false} EffectiveVersionsLastWins(lines: seq<string>, name: string, i: nat)
    requires i < |lines| && LineName(lines[i]) == Some(name)
    requires forall j :: i < j < |lines| ==> LineName(lines[j]) != Some(name)
    ensures name in EffectiveVersions(lines)
    ensures EffectiveVersions(lines)[name] == ParseVersionLine(lines[i]).value.1
    decreases |lines|
  {
    var init := lines[..|lines| - 1];
    var last := |lines| - 1;
    EffectiveVersionsLast(lines, name);
    if i < last {
      assert init[i] == lines[i];
      assert forall j :: i < j < |init| ==> init[j] == lines[j];
      EffectiveVersionsLastWins(init, name, i);
    }
  }

  // ---------------------------------------------------------------------
  // `go mod graph`

  /** One edge line: the consuming module's id, regex group 2 of that id,
      and the required module's id. */
  datatype Edge = Edge(parent: string, parentVersion: Option<string>, child: string)

  /** The shape `\S+@\S+` asks of the required module's id: an '@' with at
      least one character on either side. */
  predicate ChildShaped(c: string) {
    |c| >= 3 && '@' in c[1..|c| - 1]
  }

  /** Regex group 2 of the consuming module's id: from the first '@' after
      the first character, when at least one character follows it; the
      leading '@' is kept. */
  function ParentVersion(p: string): (r: Option<string>)
    requires p != []
    ensures r.Some? ==> exists k :: 1 <= k <= |p| - 2 && p[k] == '@' && '@' !in p[1..k] && r.value == p[k..]
    ensures r.None? ==> |p| < 3 || '@' !in p[1..|p| - 1]
  {
    var k := Find(p[1..], '@');
    if 0 <= k && k + 1 <= |p| - 2 then
      assert p[1..][..k] == p[1..k + 1];
      Some(p[k + 1..])
    else
      assert |p| >= 3 ==> p[1..|p| - 1] <= p[1..];
      None
  }

  /** `re.match(r'(\S+?(@\S+)?) (\S+@\S+)', line)`.  The first group can
      only end where the first token does, and it must be followed by a
      plain space; the third group is the whole second token. */
  function ParseEdge(line: string): (r: Option<Edge>)
    ensures r.Some? ==> IsToken(r.value.parent) && IsToken(r.value.child) && ChildShaped(r.value.child)
    ensures r.Some? ==> StartsWith(line, r.value.parent + " " + r.value.child)
                        && Delimits(line[|r.value.parent| + 1 + |r.value.child|..])
    ensures r.Some? ==> r.value.parentVersion == ParentVersion(r.value.parent)
  {
    if line == [] || IsSpace(line[0]) then None
    else
      var e := TokenEnd(line, 0);
      if e == |line| || line[e] != ' ' then None
      else
        var f := TokenEnd(line, e + 1);
        var c := line[e + 1..f];
        if !ChildShaped(c) then None
        else
          assert line[..f] == line[..e] + " " + c;
          assert StartsWith(line, line[..f]);
          assert |line[..e]| + 1 + |c| == f;
          Some(Edge(line[..e], ParentVersion(line[..e]), c))
  }

  /** An edge line of two tokens parses to them. */
  lemma EdgeRoundTrip(parent: string, child: string, rest: string)
    requires IsToken(parent) && IsToken(child) && ChildShaped(child) && Delimits(rest)
    ensures ParseEdge(parent + " " + child + rest) == Some(Edge(parent, ParentVersion(parent), child))
  {
    var line := parent + " " + child + rest;
    var a := |parent|;
    var c := a + 1 + |child|;
    assert forall j :: 0 <= j < a ==> line[j] == parent[j];
    assert line[a] == ' ' && IsSpace(' ');
    assert forall j :: a + 1 <= j < c ==> line[j] == child[j - a - 1];
    assert c < |line| ==> line[c] == rest[0];
    TokenEndIs(line, 0, a);
    TokenEndIs(line, a + 1, c);
    assert line[..a] == parent;
    assert line[a + 1..c] == child;
    ParseEdgeOf(line, a, c);
  }

  /** `ParseEdge` once the token boundaries are known. */
  lemma ParseEdgeOf(line: string, e: nat, f: nat)
    requires line != [] && !IsSpace(line[0])
    requires TokenEnd(line, 0) == e && e < |line| && line[e] == ' '
    requires TokenEnd(line, e + 1) == f && ChildShaped(line[e + 1..f])
    ensures ParseEdge(line) == Some(Edge(line[..e], ParentVersion(line[..e]), line[e + 1..f]))
  {
  }

  /** Tokens separated by anything but a single plain space make no edge. */
  lemma TabSeparatedIsNoEdge(parent: string, child: string)
    requires IsToken(parent)
    ensures ParseEdge(parent + "\t" + child) == None
  {
    var line := parent + "\t" + child;
    assert forall j :: 0 <= j < |parent| ==> line[j] == parent[j];
    assert line[|parent|] == '\t' && IsSpace('\t');
    TokenEndIs(line, 0, |parent|);
  }

  /** The module name of an id: `id.split("@")[0]`. */
  function NameOf(id: string): (r: string)
    ensures '@' !in r && StartsWith(id, r)
    ensures '@' in id ==> r == id[..Find(id, '@')]
    ensures '@' !in id ==> r == id
  {
    SplitAtFirst(id, '@');
    Split(id, '@')[0]
  }

  /** The version the required id names: `id.split("@")[1]`, the text
      between its first and second '@'. */
  function ChildVersion(id: string): (r: string)
    requires '@' in id
    ensures var i := Find(id, '@');
            '@' !in r && StartsWith(id[i + 1..], r)
            && (|r| == |id| - i - 1 || id[i + 1 + |r|] == '@')
  {
    SplitAtFirst(id, '@');
    var rest := id[Find(id, '@') + 1..];
    SplitAtFirst(rest, '@');
    Split(id, '@')[1]
  }

  // ---------------------------------------------------------------------
  // the graph

  type Graph = map<string, Module>

  /** Creates the record of `id` unless there already is one; the effective
      version of its name must be known (a `KeyError` otherwise). */
  function Ensure(g: Graph, eff: Versions, id: string, desired: Option<string>): (r: Result<Graph>)
    ensures id in g ==> r == Ok(g)
    ensures id !in g ==> (r.Err? <==> NameOf(id) !in eff)
    ensures r.Err? ==> r.error == UnknownModule(NameOf(id))
    ensures r.Ok? && id !in g ==>
              r.value == g[id := Module(NameOf(id), eff[NameOf(id)], desired, [])]
  {
    if id in g then Ok(g)
    else
      var name := NameOf(id);
      if name !in eff then Err(UnknownModule(name))
      else Ok(g[id := Module(name, eff[name], desired, [])])
  }

  /** `child_modules[id] = ...`: a child already present keeps its place. */
  function Link(children: seq<string>, id: string): (r: seq<string>)
    ensures id in r && children <= r
    ensures forall c :: c in r ==> c in children || c == id
  {
    if id in children then children else children + [id]
  }

  /** The same record, possibly with more children appended. */
  predicate Extends(m: Module, m': Module) {
    m'.name == m.name && m'.effectiveVersion == m.effectiveVersion
    && m'.desiredVersion == m.desiredVersion && m.children <= m'.children
  }

  /** Every record of `g` is still in `g'` and only gained children. */
  predicate Grows(g: Graph, g': Graph) {
    forall id :: id in g ==> id in g' && Extends(g[id], g'[id])
  }

  /** Every child id is a key of the map. */
  predicate Closed(g: Graph) {
    forall id, i :: id in g && 0 <= i < |g[id].children| ==> g[id].children[i] in g
  }

  /** No child is listed twice. */
  predicate DistinctChildren(g: Graph) {
    forall id, i, j :: id in g && 0 <= i < j < |g[id].children| ==> g[id].children[i] != g[id].children[j]
  }

  /** One matched edge: both records made sure of, then the child linked
      under the parent. */
  function AddEdge(g: Graph, eff: Versions, e: Edge): (r: Result<Graph>)
    requires '@' in e.child
    ensures r.Ok? <==> (e.parent in g || NameOf(e.parent) in eff) && (e.child in g || NameOf(e.child) in eff)
    ensures r.Err? ==> r.error.UnknownModule? && r.error.name !in eff
                       && (r.error.name == NameOf(e.parent) || r.error.name == NameOf(e.child))
  {
    match Ensure(g, eff, e.parent, e.parentVersion)
    case Err(x) => Err(x)
    case Ok(g1) =>
      match Ensure(g1, eff, e.child, Some(ChildVersion(e.child)))
      case Err(x) => Err(x)
      case Ok(g2) =>
        var p := g2[e.parent];
        Ok(g2[e.parent := p.(children := Link(p.children, e.child))])
  }

  /** Making sure of a record keeps every other record as it was and adds
      only the one asked for. */
  lemma EnsureKeeps(g: Graph, eff: Versions, id: string, desired: Option<string>)
    ensures var r := Ensure(g, eff, id, desired);
            r.Ok? ==> id in r.value
                      && (forall k :: k in g ==> k in r.value && r.value[k] == g[k])
                      && (forall k :: k in r.value <==> k in g || k == id)
  {
  }

  /** A new record has no children, so the map stays closed. */
  lemma EnsureClosed(g: Graph, eff: Versions, id: string, desired: Option<string>)
    requires Closed(g) && DistinctChildren(g)
    ensures var r := Ensure(g, eff, id, desired);
            r.Ok? ==> Closed(r.value) && DistinctChildren(r.value)
  {
  }

  /** Linking a key under a key keeps the map closed and its child lists
      free of repeats. */
  lemma LinkClosed(g: Graph, parent: string, child: string)
    requires Closed(g) && DistinctChildren(g) && parent in g && child in g
    ensures var p := g[parent];
            var g' := g[parent := p.(children := Link(p.children, child))];
            Closed(g') && DistinctChildren(g')
  {
    var p := g[parent];
    var kids := Link(p.children, child);
    var g' := g[parent := p.(children := kids)];
    assert forall i, j :: 0 <= i < j < |kids| ==> kids[i] != kids[j];
    assert forall i :: 0 <= i < |kids| ==> kids[i] in g';
  }

  /** A matched edge keeps every record (adding children only), adds the
      records of the two ids when missing and no others, and links the
      child under the parent. */
  lemma AddEdgeEffect(g: Graph, eff: Versions, e: Edge)
    requires '@' in e.child
    ensures var r := AddEdge(g, eff, e);
            r.Ok? ==> Grows(g, r.value)
                      && e.parent in r.value && e.child in r.value && e.child in r.value[e.parent].children
                      && (forall id :: id in r.value <==> id in g || id == e.parent || id == e.child)
  {
    var r := AddEdge(g, eff, e);
    if r.Ok? {
      EnsureKeeps(g, eff, e.parent, e.parentVersion);
      var g1 := Ensure(g, eff, e.parent, e.parentVersion).value;
      EnsureKeeps(g1, eff, e.child, Some(ChildVersion(e.child)));
      var g2 := Ensure(g1, eff, e.child, Some(ChildVersion(e.child))).value;
      var p := g2[e.parent];
      assert r.value == g2[e.parent := p.(children := Link(p.children, e.child))];
      assert Extends(p, r.value[e.parent]);
    }
  }

  /** A matched edge keeps every child a key and no child listed twice. */
  lemma AddEdgeClosed(g: Graph, eff: Versions, e: Edge)
    requires '@' in e.child
    requires Closed(g) && DistinctChildren(g)
    ensures var r := AddEdge(g, eff, e);
            r.Ok? ==> Closed(r.value) && DistinctChildren(r.value)
  {
    var r := AddEdge(g, eff, e);
    if r.Ok? {
      EnsureKeeps(g, eff, e.parent, e.parentVersion);
      EnsureClosed(g, eff, e.parent, e.parentVersion);
      var g1 := Ensure(g, eff, e.parent, e.parentVersion).value;
      EnsureKeeps(g1, eff, e.child, Some(ChildVersion(e.child)));
      EnsureClosed(g1, eff, e.child, Some(ChildVersion(e.child)));
      var g2 := Ensure(g1, eff, e.child, Some(ChildVersion(e.child))).value;
      LinkClosed(g2, e.parent, e.child);
    }
  }

  /** What the pattern makes of each line: an edge whose child holds an
      '@' (as every matched child does), or nothing. */
  ghost predicate WellShaped(es: seq<Option<Edge>>) {
    forall i :: 0 <= i < |es| && es[i].Some? ==> '@' in es[i].value.child
  }

  /** The match of every line, in order. */
  function Edges(lines: seq<string>): (r: seq<Option<Edge>>)
    ensures |r| == |lines| && forall i :: 0 <= i < |lines| ==> r[i] == ParseEdge(lines[i])
    ensures WellShaped(r)
  {
    seq(|lines|, i requires 0 <= i < |lines| => ParseEdge(lines[i]))
  }

  /** One line of `go mod graph`, given its match: a line that is no edge
      changes nothing. */
  function StepEdge(g: Graph, eff: Versions, pe: Option<Edge>): (r: Result<Graph>)
    requires pe.Some? ==> '@' in pe.value.child
  {
    match pe
    case None => Ok(g)
    case Some(e) => AddEdge(g, eff, e)
  }

  /** One line of `go mod graph`. */
  function Step(g: Graph, eff: Versions, line: string): (r: Result<Graph>)
    ensures ParseEdge(line).None? ==> r == Ok(g)
    ensures ParseEdge(line).Some? ==> r == AddEdge(g, eff, ParseEdge(line).value)
  {
    StepEdge(g, eff, ParseEdge(line))
  }

  /** What one line does to the map: the effects of `AddEdge` for an edge
      line, nothing otherwise. */
  lemma StepEffect(g: Graph, eff: Versions, pe: Option<Edge>)
    requires pe.Some? ==> '@' in pe.value.child
    ensures var r := StepEdge(g, eff, pe);
            r.Ok? ==> Grows(g, r.value)
    ensures var r := StepEdge(g, eff, pe);
            r.Ok? && pe.Some? ==>
              var e := pe.value;
              e.parent in r.value && e.child in r.value && e.child in r.value[e.parent].children
              && (forall id :: id in r.value <==> id in g || id == e.parent || id == e.child)
    ensures var r := StepEdge(g, eff, pe);
            r.Ok? && pe.None? ==> r.value == g
  {
    if pe.Some? {
      AddEdgeEffect(g, eff, pe.value);
    }
  }

  /** A line fails exactly when it is an edge line naming a new id whose
      module name has no effective version. */
  lemma StepOutcome(g: Graph, eff: Versions, pe: Option<Edge>)
    requires pe.Some? ==> '@' in pe.value.child
    ensures var r := StepEdge(g, eff, pe);
            r.Err? ==> pe.Some? && r.error.UnknownModule? && r.error.name !in eff
                       && (r.error.name == NameOf(pe.value.parent) || r.error.name == NameOf(pe.value.child))
    ensures var r := StepEdge(g, eff, pe);
            pe.Some? ==>
              (r.Ok? <==> (pe.value.parent in g || NameOf(pe.value.parent) in eff)
                          && (pe.value.child in g || NameOf(pe.value.child) in eff))
  {
  }

  lemma StepClosed(g: Graph, eff: Versions, pe: Option<Edge>)
    requires pe.Some? ==> '@' in pe.value.child
    requires Closed(g) && DistinctChildren(g)
    ensures var r := StepEdge(g, eff, pe);
            r.Ok? ==> Closed(r.value) && DistinctChildren(r.value)
  {
    if pe.Some? {
      AddEdgeClosed(g, eff, pe.value);
    }
  }

  /** The loop of `build_module_graph` over the matches of the remaining
      lines, from the map so far; the first `KeyError` ends it. */
  function BuildEdges(g: Graph, eff: Versions, es: seq<Option<Edge>>): Result<Graph>
    requires WellShaped(es)
    decreases |es|
  {
    if |es| == 0 then Ok(g)
    else
      match StepEdge(g, eff, es[0])
      case Err(x) => Err(x)
      case Ok(g1) => BuildEdges(g1, eff, es[1..])
  }

  /** `build_module_graph` over the remaining lines, from the map so far. */
  function Build(g: Graph, eff: Versions, lines: seq<string>): Result<Graph> {
    BuildEdges(g, eff, Edges(lines))
  }

  /** `build_module_graph` on the whole output of `go mod graph`. */
  function BuildModuleGraph(output: string, eff: Versions): Result<Graph> {
    Build(map[], eff, Split(output, '\n'))
  }

  /** One more line in front: its step, then the rest. */
  lemma BuildCons(g: Graph, eff: Versions, es: seq<Option<Edge>>)
    requires WellShaped(es) && |es| > 0
    ensures WellShaped(es[1..])
    ensures BuildEdges(g, eff, es) ==
              match StepEdge(g, eff, es[0])
              case Err(x) => Err(x)
              case Ok(g1) => BuildEdges(g1, eff, es[1..])
  {
    assert forall i :: 0 <= i < |es[1..]| ==> es[1..][i] == es[i + 1];
  }

  lemma {:induction false} BuildEdgesGrows(g: Graph, eff: Versions, es: seq<Option<Edge>>)
    requires WellShaped(es)
    ensures BuildEdges(g, eff, es).Ok? ==> Grows(g, BuildEdges(g, eff, es).value)
    decreases |es|
  {
    if |es| > 0 {
      BuildCons(g, eff, es);
      StepEffect(g, eff, es[0]);
      var s := StepEdge(g, eff, es[0]);
      if s.Ok? {
        BuildEdgesGrows(s.value, eff, es[1..]);
      }
    }
  }

  /** Records are never replaced: the versions of a record are those set
      when its id first occurred. */
  lemma BuildGrows(g: Graph, eff: Versions, lines: seq<string>)
    ensures Build(g, eff, lines).Ok? ==> Grows(g, Build(g, eff, lines).value)
  {
    BuildEdgesGrows(g, eff, Edges(lines));
  }

  lemma {:induction false} BuildEdgesCovers(g: Graph, eff: Versions, es: seq<Option<Edge>>)
    requires WellShaped(es)
    ensures BuildEdges(g, eff, es).Ok? ==>
              var g' := BuildEdges(g, eff, es).value;
              forall i :: 0 <= i < |es| && es[i].Some? ==>
                es[i].value.parent in g' && es[i].value.child in g'
                && es[i].value.child in g'[es[i].value.parent].children
    decreases |es|
  {
    if |es| > 0 {
      BuildCons(g, eff, es);
      StepEffect(g, eff, es[0]);
      var s := StepEdge(g, eff, es[0]);
      if s.Ok? {
        var tail := es[1..];
        BuildEdgesCovers(s.value, eff, tail);
        BuildEdgesGrows(s.value, eff, tail);
        var b := BuildEdges(s.value, eff, tail);
        if b.Ok? {
          var g' := b.value;
          forall i | 0 <= i < |es| && es[i].Some?
            ensures es[i].value.parent in g' && es[i].value.child in g'
                    && es[i].value.child in g'[es[i].value.parent].children
          {
            if i > 0 {
              assert es[i] == tail[i - 1];
            } else {
              assert Extends(s.value[es[0].value.parent], g'[es[0].value.parent]);
            }
          }
        }
      }
    }
  }

  /** After the build, the parent and the child of every edge line are keys,
      and the child is linked under the parent. */
  lemma BuildCoversEdges(g: Graph, eff: Versions, lines: seq<string>)
    ensures Build(g, eff, lines).Ok? ==>
              var g' := Build(g, eff, lines).value;
              forall i :: 0 <= i < |lines| && ParseEdge(lines[i]).Some? ==>
                var e := ParseEdge(lines[i]).value;
                e.parent in g' && e.child in g' && e.child in g'[e.parent].children
  {
    BuildEdgesCovers(g, eff, Edges(lines));
  }

  /** Some match names `id` as parent or child. */
  ghost predicate Mentions(es: seq<Option<Edge>>, id: string) {
    exists i :: 0 <= i < |es| && es[i].Some? && (es[i].value.parent == id || es[i].value.child == id)
  }

  lemma MentionsCons(es: seq<Option<Edge>>, id: string)
    requires |es| > 0
    ensures Mentions(es, id) <==>
              (es[0].Some? && (es[0].value.parent == id || es[0].value.child == id)) || Mentions(es[1..], id)
  {
    var tail := es[1..];
    if Mentions(tail, id) {
      var i :| 0 <= i < |tail| && tail[i].Some? && (tail[i].value.parent == id || tail[i].value.child == id);
      assert es[i + 1] == tail[i];
    }
    if Mentions(es, id) {
      var i :| 0 <= i < |es| && es[i].Some? && (es[i].value.parent == id || es[i].value.child == id);
      if i > 0 { assert es[i] == tail[i - 1]; }
    }
  }

  lemma {:induction false} BuildEdgesKeys(g: Graph, eff: Versions, es: seq<Option<Edge>>, id: string)
    requires WellShaped(es)
    ensures BuildEdges(g, eff, es).Ok? ==> (id in BuildEdges(g, eff, es).value <==> id in g || Mentions(es, id))
    decreases |es|
  {
    if |es| > 0 {
      BuildCons(g, eff, es);
      StepEffect(g, eff, es[0]);
      var s := StepEdge(g, eff, es[0]);
      if s.Ok? {
        BuildEdgesKeys(s.value, eff, es[1..], id);
        MentionsCons(es, id);
      }
    }
  }

  /** The keys of the finished map are the ids on the edge lines (and those
      of the map started from), nothing else. */
  lemma BuildKeys(g: Graph, eff: Versions, lines: seq<string>, id: string)
    ensures Build(g, eff, lines).Ok? ==>
              (id in Build(g, eff, lines).value <==>
                 id in g || exists i :: 0 <= i < |lines| && ParseEdge(lines[i]).Some?
                                        && (ParseEdge(lines[i]).value.parent == id || ParseEdge(lines[i]).value.child == id))
  {
    var es := Edges(lines);
    BuildEdgesKeys(g, eff, es, id);
    if Mentions(es, id) {
      var i :| 0 <= i < |es| && es[i].Some? && (es[i].value.parent == id || es[i].value.child == id);
      assert ParseEdge(lines[i]) == es[i];
    }
  }

  lemma {:induction false} BuildEdgesClosed(g: Graph, eff: Versions, es: seq<Option<Edge>>)
    requires WellShaped(es)
    requires Closed(g) && DistinctChildren(g)
    ensures BuildEdges(g, eff, es).Ok? ==>
              Closed(BuildEdges(g, eff, es).value) && DistinctChildren(BuildEdges(g, eff, es).value)
    decreases |es|
  {
    if |es| > 0 {
      BuildCons(g, eff, es);
      StepClosed(g, eff, es[0]);
      var s := StepEdge(g, eff, es[0]);
      if s.Ok? {
        BuildEdgesClosed(s.value, eff, es[1..]);
      }
    }
  }

  /** Every child id is a key and no child is listed twice, whatever the
      input. */
  lemma BuildClosed(g: Graph, eff: Versions, lines: seq<string>)
    requires Closed(g) && DistinctChildren(g)
    ensures Build(g, eff, lines).Ok? ==>
              Closed(Build(g, eff, lines).value) && DistinctChildren(Build(g, eff, lines).value)
  {
    BuildEdgesClosed(g, eff, Edges(lines));
  }

  /** Some match has `name` as the module name of its parent or child. */
  ghost predicate NamesModule(es: seq<Option<Edge>>, name: string) {
    exists i :: 0 <= i < |es| && es[i].Some?
                && (name == NameOf(es[i].value.parent) || name == NameOf(es[i].value.child))
  }

  lemma {:induction false} BuildEdgesFails(g: Graph, eff: Versions, es: seq<Option<Edge>>)
    requires WellShaped(es)
    ensures BuildEdges(g, eff, es).Err? ==>
              var x := BuildEdges(g, eff, es).error;
              x.UnknownModule? && x.name !in eff && NamesModule(es, x.name)
    decreases |es|
  {
    if |es| > 0 {
      BuildCons(g, eff, es);
      StepOutcome(g, eff, es[0]);
      var s := StepEdge(g, eff, es[0]);
      if s.Ok? {
        var tail := es[1..];
        BuildEdgesFails(s.value, eff, tail);
        var b := BuildEdges(s.value, eff, tail);
        if b.Err? {
          var i :| 0 <= i < |tail| && tail[i].Some?
                   && (b.error.name == NameOf(tail[i].value.parent) || b.error.name == NameOf(tail[i].value.child));
          assert es[i + 1] == tail[i];
        }
      }
    }
  }

  /** The only failure is a module name missing from the effective-version
      map, and it is the name of an id on one of the edge lines. */
  lemma BuildFailsOnUnknownName(g: Graph, eff: Versions, lines: seq<string>)
    ensures Build(g, eff, lines).Err? ==>
              var x := Build(g, eff, lines).error;
              x.UnknownModule? && x.name !in eff
              && exists i :: 0 <= i < |lines| && ParseEdge(lines[i]).Some?
                             && (x.name == NameOf(ParseEdge(lines[i]).value.parent)
                                 || x.name == NameOf(ParseEdge(lines[i]).value.child))
  {
    var es := Edges(lines);
    BuildEdgesFails(g, eff, es);
    var b := BuildEdges(g, eff, es);
    if b.Err? {
      var i :| 0 <= i < |es| && es[i].Some?
               && (b.error.name == NameOf(es[i].value.parent) || b.error.name == NameOf(es[i].value.child));
      assert ParseEdge(lines[i]) == es[i];
    }
  }

  lemma {:induction false} BuildEdgesSucceeds(g: Graph, eff: Versions, es: seq<Option<Edge>>)
    requires WellShaped(es)
    requires forall i :: 0 <= i < |es| && es[i].Some? ==>
               NameOf(es[i].value.parent) in eff && NameOf(es[i].value.child) in eff
    ensures BuildEdges(g, eff, es).Ok?
    decreases |es|
  {
    if |es| > 0 {
      BuildCons(g, eff, es);
      StepOutcome(g, eff, es[0]);
      var s := StepEdge(g, eff, es[0]);
      assert s.Ok?;
      var tail := es[1..];
      assert forall i :: 0 <= i < |tail| ==> tail[i] == es[i + 1];
      BuildEdgesSucceeds(s.value, eff, tail);
    }
  }

  /** When every module name on the edge lines has an effective version the
      build succeeds. */
  lemma BuildSucceedsOnKnownNames(g: Graph, eff: Versions, lines: seq<string>)
    requires forall i :: 0 <= i < |lines| && ParseEdge(lines[i]).Some? ==>
               NameOf(ParseEdge(lines[i]).value.parent) in eff && NameOf(ParseEdge(lines[i]).value.child) in eff
    ensures Build(g, eff, lines).Ok?
  {
    BuildEdgesSucceeds(g, eff, Edges(lines));
  }
}
