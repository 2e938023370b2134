/** A directory tree as `os.walk` reports it, and the file selection the
    svn helper scripts make over it.  The walk itself (its order, the file
    system) is an input. */
module Tree {
  import opened Text
  import opened Url

  /** One step of `os.walk`: a directory and the names of its files. */
  datatype DirEntry = DirEntry(root: string, files: seq<string>)

  type Walk = seq<DirEntry>

  /** `os.path.join(root, f)` for a relative file name. */
  function PathOf(root: string, name: string): string {
    JoinPath(root, name)
  }

  /** Paths below a `.svn` directory are never touched. */
  predicate UnderSvn(path: string) {
    Contains(path, ".svn")
  }

  /** The (directory, file name) pairs of the walk that `keep` accepts, in
      walk order. */
  function Select(walk: Walk, keep: (string, string) -> bool): (r: seq<(string, string)>)
    ensures forall k :: 0 <= k < |r| ==> keep(r[k].0, r[k].1)
    decreases |walk|
  {
    if |walk| == 0 then [] else SelectIn(walk[0].root, walk[0].files, keep) + Select(walk[1..], keep)
  }

  function SelectIn(root: string, files: seq<string>, keep: (string, string) -> bool): (r: seq<(string, string)>)
    ensures forall k :: 0 <= k < |r| ==> r[k].0 == root && r[k].1 in files && keep(r[k].0, r[k].1)
    decreases |files|
  {
    if |files| == 0 then []
    else (if keep(root, files[0]) then [(root, files[0])] else []) + SelectIn(root, files[1..], keep)
  }

  /** Reference definition: some directory of the walk lists the file and
      `keep` accepts it. */
  ghost predicate Listed(walk: Walk, keep: (string, string) -> bool, root: string, name: string) {
    exists i :: 0 <= i < |walk| && walk[i].root == root && name in walk[i].files && keep(root, name)
  }

  /** The selection holds exactly the accepted files of the walk. */
  lemma {:induction false} SelectSpec(walk: Walk, keep: (string, string) -> bool, root: string, name: string)
    ensures (root, name) in Select(walk, keep) <==> Listed(walk, keep, root, name)
    decreases |walk|
  {
    if |walk| > 0 {
      SelectSpec(walk[1..], keep, root, name);
      SelectInSpec(walk[0].root, walk[0].files, keep, root, name);
      if Listed(walk, keep, root, name) {
        var i :| 0 <= i < |walk| && walk[i].root == root && name in walk[i].files && keep(root, name);
        if i > 0 { assert walk[1..][i - 1] == walk[i]; }
      }
      if Listed(walk[1..], keep, root, name) {
        var i :| 0 <= i < |walk[1..]| && walk[1..][i].root == root && name in walk[1..][i].files && keep(root, name);
        assert walk[i + 1] == walk[1..][i];
      }
    }
  }

  lemma {:induction false} SelectInSpec(dir: string, files: seq<string>, keep: (string, string) -> bool, root: string, name: string)
    ensures (root, name) in SelectIn(dir, files, keep) <==> root == dir && name in files && keep(root, name)
    decreases |files|
  {
    if |files| > 0 {
      SelectInSpec(dir, files[1..], keep, root, name);
      assert files == [files[0]] + files[1..];
    }
  }

  /** The selection of two walks is that of the first, then that of the
      second: walk order is kept. */
  lemma {:induction false} SelectSplits(w1: Walk, w2: Walk, keep: (string, string) -> bool)
    ensures Select(w1 + w2, keep) == Select(w1, keep) + Select(w2, keep)
    decreases |w1|
  {
    if |w1| == 0 {
      assert w1 + w2 == w2;
    } else {
      assert (w1 + w2)[0] == w1[0];
      assert (w1 + w2)[1..] == w1[1..] + w2;
      SelectSplits(w1[1..], w2, keep);
    }
  }
}
