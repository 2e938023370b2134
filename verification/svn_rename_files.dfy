/** `svnrenamefiles.py`: `svn rename` every file of a directory tree whose
    name holds a word, to the same directory with every occurrence of the
    word in the name replaced.

    The path pattern (a user-supplied regular expression, applied with
    `re.match`) is a predicate on the path, and running a command with
    `os.system` is a function from the command line to its exit status. */
module SvnRenameFiles {
  import opened Text
  import opened Tree

  /** The files considered: the pattern is matched against the whole path,
      and paths containing ".svn" are skipped. */
  function Keep(pattern: string -> bool): (string, string) -> bool {
    (root, name) => pattern(PathOf(root, name)) && !UnderSvn(PathOf(root, name))
  }

  /** A file is renamed when the word occurs in its name (not its
      directory). */
  predicate IsTarget(name: string, word: string) {
    Contains(name, word)
  }

  /** The rename of one file: same directory, the word replaced throughout
      the file name. */
  datatype Rename = Rename(from: string, to: string)

  function RenameOf(root: string, name: string, word: string, replacement: string): Rename {
    Rename(PathOf(root, name), PathOf(root, Replace(name, word, replacement)))
  }

  /** The renames, in walk order, of the selected files that are targets. */
  function Renames(pairs: seq<(string, string)>, word: string, replacement: string): (r: seq<Rename>)
    ensures |r| <= |pairs|
    decreases |pairs|
  {
    if |pairs| == 0 then []
    else
      var (root, name) := pairs[0];
      (if IsTarget(name, word) then [RenameOf(root, name, word, replacement)] else [])
      + Renames(pairs[1..], word, replacement)
  }

  /** Every rename moves a target file within its directory to its name with
      the word replaced, and every target of the selection is renamed. */
  lemma {:induction false} RenamesSpec(pairs: seq<(string, string)>, word: string, replacement: string, rn: Rename)
    ensures rn in Renames(pairs, word, replacement) <==>
              exists k :: 0 <= k < |pairs| && IsTarget(pairs[k].1, word)
                          && rn == RenameOf(pairs[k].0, pairs[k].1, word, replacement)
    decreases |pairs|
  {
    if |pairs| > 0 {
      RenamesSpec(pairs[1..], word, replacement, rn);
      var tail := pairs[1..];
      if exists k :: 0 <= k < |pairs| && IsTarget(pairs[k].1, word)
                     && rn == RenameOf(pairs[k].0, pairs[k].1, word, replacement) {
        var k :| 0 <= k < |pairs| && IsTarget(pairs[k].1, word)
                 && rn == RenameOf(pairs[k].0, pairs[k].1, word, replacement);
        if k > 0 { assert tail[k - 1] == pairs[k]; }
      }
      if exists k :: 0 <= k < |tail| && IsTarget(tail[k].1, word)
                     && rn == RenameOf(tail[k].0, tail[k].1, word, replacement) {
        var k :| 0 <= k < |tail| && IsTarget(tail[k].1, word)
                 && rn == RenameOf(tail[k].0, tail[k].1, word, replacement);
        assert pairs[k + 1] == tail[k];
      }
    }
  }

  /** A name the word does not occur in is never renamed; one it occurs in
      is renamed to a name holding the replacement. */
  lemma TargetName(name: string, word: string, replacement: string)
    ensures !IsTarget(name, word) ==> Replace(name, word, replacement) == name
    ensures IsTarget(name, word) ==> Contains(Replace(name, word, replacement), replacement)
  {
    if IsTarget(name, word) {
      ReplaceIntroduces(name, word, replacement);
    } else {
      ReplaceAbsent(name, word, replacement);
    }
  }

  /** `"svn rename {0} {1}".format(filepath, newpath)`. */
  function Command(rn: Rename): string {
    "svn rename " + rn.from + " " + rn.to
  }

  /** What a run leaves behind: the commands logged, those executed, and
      the exit status. */
  datatype Run = Run(logged: seq<string>, executed: seq<string>, exitCode: int)

  /** The loop over the renames: each command is logged; outside a dry run
      it is executed, and a non-zero status ends the script with 1. */
  function Execute(renames: seq<Rename>, dryrun: bool, system: string -> int): (r: Run)
    ensures r.exitCode == 0 || r.exitCode == 1
    ensures |r.executed| <= |r.logged| <= |renames|
    decreases |renames|
  {
    if |renames| == 0 then Run([], [], 0)
    else
      var cmd := Command(renames[0]);
      if !dryrun && system(cmd) != 0 then Run([cmd], [cmd], 1)
      else
        var rest := Execute(renames[1..], dryrun, system);
        Run([cmd] + rest.logged, (if dryrun then [] else [cmd]) + rest.executed, rest.exitCode)
  }

  /** In a dry run every command is logged, none is executed, and the
      script succeeds. */
  lemma {:induction false} DryRunExecutesNothing(renames: seq<Rename>, system: string -> int)
    ensures Execute(renames, true, system).executed == []
    ensures Execute(renames, true, system).exitCode == 0
    ensures |Execute(renames, true, system).logged| == |renames|
    ensures forall k :: 0 <= k < |renames| ==> Execute(renames, true, system).logged[k] == Command(renames[k])
    decreases |renames|
  {
    if |renames| > 0 {
      DryRunExecutesNothing(renames[1..], system);
      var r := Execute(renames, true, system);
      var rest := Execute(renames[1..], true, system);
      forall k | 0 < k < |renames| ensures r.logged[k] == Command(renames[k]) {
        assert r.logged[k] == rest.logged[k - 1];
        assert renames[1..][k - 1] == renames[k];
      }
    }
  }

  /** Outside a dry run the commands run in order up to the first failing
      one, which ends the script with status 1; with no failure all run and
      the status is 0. */
  lemma {:induction false} StopsAtFirstFailure(renames: seq<Rename>, system: string -> int)
    ensures var r := Execute(renames, false, system);
            r.executed == r.logged
            && (forall k :: 0 <= k < |r.executed| ==> r.executed[k] == Command(renames[k]))
            && (forall k :: 0 <= k < |r.executed| - 1 ==> system(Command(renames[k])) == 0)
            && (r.exitCode == 1 <==> |r.executed| > 0 && system(r.executed[|r.executed| - 1]) != 0)
            && (r.exitCode == 0 ==> |r.executed| == |renames|)
    decreases |renames|
  {
    if |renames| > 0 && system(Command(renames[0])) == 0 {
      StopsAtFirstFailure(renames[1..], system);
      var r := Execute(renames, false, system);
      var rest := Execute(renames[1..], false, system);
      assert r.executed == [Command(renames[0])] + rest.executed;
      forall k | 0 < k < |r.executed| ensures r.executed[k] == Command(renames[k]) {
        assert r.executed[k] == rest.executed[k - 1];
        assert renames[1..][k - 1] == renames[k];
      }
      forall k | 0 < k < |r.executed| - 1 ensures system(Command(renames[k])) == 0 {
        assert renames[1..][k - 1] == renames[k];
      }
    }
  }

  /** The script over a walk. */
  function Main(walk: Walk, pattern: string -> bool, word: string, replacement: string,
                dryrun: bool, system: string -> int): Run {
    Execute(Renames(Select(walk, Keep(pattern)), word, replacement), dryrun, system)
  }

  /** Selection: a file is considered exactly when the walk lists it, its
      path matches the pattern and is not under ".svn". */
  lemma Considered(walk: Walk, pattern: string -> bool, root: string, name: string)
    ensures (root, name) in Select(walk, Keep(pattern)) <==>
              (exists i :: 0 <= i < |walk| && walk[i].root == root && name in walk[i].files)
              && pattern(PathOf(root, name)) && !UnderSvn(PathOf(root, name))
  {
    SelectSpec(walk, Keep(pattern), root, name);
  }
}
