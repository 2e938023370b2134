/** `searchreplace.py`: replace every occurrence of a word by another in the
    files of a directory tree.  Each selected file is copied line by line,
    with the replacement done on every line, to `<file>.copy`; the original
    is overwritten with the copy only when the two differ and this is not a
    dry run, and the copy is removed afterwards.

    The file system is a map from path to text; the file name pattern (a
    user-supplied regular expression, applied with `re.match`) is a
    predicate on the name. */
module SearchReplace {
  import opened Wrappers
  import opened Text
  import opened FileLines
  import opened Tree

  type Fs = map<string, string>

  datatype Options = Options(dryrun: bool, showdiffs: bool)

  function CopyPath(path: string): string {
    path + ".copy"
  }

  /** `line.replace(searchfor, replacewith)` for every line, in order. */
  function ReplaceLines(ls: seq<string>, pat: string, repl: string): (r: seq<string>)
    ensures |r| == |ls|
    decreases |ls|
  {
    if |ls| == 0 then [] else [Replace(ls[0], pat, repl)] + ReplaceLines(ls[1..], pat, repl)
  }

  /** The text written to the copy. */
  function CopyText(text: string, pat: string, repl: string): string {
    Concat(ReplaceLines(Lines(text), pat, repl))
  }

  /** Lines without the pattern are copied unchanged. */
  lemma {:induction false} ReplaceLinesAbsent(ls: seq<string>, pat: string, repl: string)
    requires forall i :: 0 <= i < |ls| ==> !Contains(ls[i], pat)
    ensures ReplaceLines(ls, pat, repl) == ls
    decreases |ls|
  {
    if |ls| > 0 {
      ReplaceAbsent(ls[0], pat, repl);
      ReplaceLinesAbsent(ls[1..], pat, repl);
    }
  }

  /** An occurrence in one line is an occurrence in the text. */
  lemma {:induction false} LineInText(ls: seq<string>, i: nat, sub: string)
    requires i < |ls| && Contains(ls[i], sub)
    ensures Contains(Concat(ls), sub)
    decreases i
  {
    ContainsAppend(ls[0], Concat(ls[1..]), sub);
    if i > 0 {
      LineInText(ls[1..], i - 1, sub);
    }
  }

  /** Where the word does not occur, the copy is the original. */
  lemma CopyOfAbsent(text: string, pat: string, repl: string)
    requires !Contains(text, pat)
    ensures CopyText(text, pat, repl) == text
  {
    var ls := Lines(text);
    forall i | 0 <= i < |ls| ensures !Contains(ls[i], pat) {
      if Contains(ls[i], pat) { LineInText(ls, i, pat); }
    }
    ReplaceLinesAbsent(ls, pat, repl);
  }

  /** Replacing a word by itself copies the file unchanged. */
  lemma {:induction false} ReplaceLinesBySelf(ls: seq<string>, pat: string)
    ensures ReplaceLines(ls, pat, pat) == ls
    decreases |ls|
  {
    if |ls| > 0 {
      ReplaceBySelf(ls[0], pat);
      ReplaceLinesBySelf(ls[1..], pat);
    }
  }

  /** A replacement that is new to the file makes the copy differ wherever
      some line holds the word. */
  lemma CopyDiffers(text: string, pat: string, repl: string, i: nat)
    requires i < |Lines(text)| && Contains(Lines(text)[i], pat)
    requires !Contains(text, repl)
    ensures CopyText(text, pat, repl) != text
  {
    var ls := Lines(text);
    ReplaceIntroduces(ls[i], pat, repl);
    ReplaceLinesAt(ls, pat, repl, i);
    LineInText(ReplaceLines(ls, pat, repl), i, repl);
  }

  lemma {:induction false} ReplaceLinesAt(ls: seq<string>, pat: string, repl: string, i: nat)
    requires i < |ls|
    ensures ReplaceLines(ls, pat, repl)[i] == Replace(ls[i], pat, repl)
    decreases i
  {
    if i > 0 { ReplaceLinesAt(ls[1..], pat, repl, i - 1); }
  }

  /** What `search_and_replace` leaves behind for one file. */
  datatype FileRun = FileRun(fs: Fs, modified: bool, diffShown: bool)

  /** `search_and_replace`: write the copy, compare, maybe overwrite and
      show the diff, remove the copy. */
  function SearchAndReplace(fs: Fs, path: string, pat: string, repl: string, opts: Options): (r: Result<FileRun>)
    ensures r.Err? <==> path !in fs
    ensures r.Ok? ==>
              var copy := CopyText(fs[path], pat, repl);
              (r.value.modified <==> copy != fs[path])
              && (r.value.diffShown <==> r.value.modified && opts.showdiffs)
              && CopyPath(path) !in r.value.fs
              && path in r.value.fs
              && r.value.fs[path] == (if r.value.modified && !opts.dryrun then copy else fs[path])
              && forall p :: p != path && p != CopyPath(path) ==>
                   (p in r.value.fs <==> p in fs) && (p in fs ==> r.value.fs[p] == fs[p])
  {
    if path !in fs then Err(NoSuchFile(path))
    else
      var original := fs[path];
      var copy := CopyText(original, pat, repl);
      var withCopy := fs[CopyPath(path) := copy];
      var modified := copy != original;
      var written := if modified && !opts.dryrun then withCopy[path := copy] else withCopy;
      Ok(FileRun(written - {CopyPath(path)}, modified, modified && opts.showdiffs))
  }

  /** A file without the word is neither reported nor rewritten. */
  lemma AbsentWordLeavesFile(fs: Fs, path: string, pat: string, repl: string, opts: Options)
    requires path in fs && !Contains(fs[path], pat)
    ensures SearchAndReplace(fs, path, pat, repl, opts).Ok?
    ensures var r := SearchAndReplace(fs, path, pat, repl, opts).value;
            !r.modified && !r.diffShown && r.fs[path] == fs[path]
  {
    CopyOfAbsent(fs[path], pat, repl);
  }

  /** Replacing a word by itself rewrites nothing. */
  lemma SelfReplacementLeavesFile(fs: Fs, path: string, pat: string, opts: Options)
    requires path in fs
    ensures SearchAndReplace(fs, path, pat, pat, opts).Ok?
    ensures !SearchAndReplace(fs, path, pat, pat, opts).value.modified
  {
    ReplaceLinesBySelf(Lines(fs[path]), pat);
    assert CopyText(fs[path], pat, pat) == Concat(Lines(fs[path]));
  }

  // ---------------------------------------------------------------------
  // the tree walk

  /** The files the script acts on: the pattern is matched against the file
      name, and paths containing ".svn" are skipped. */
  function Keep(pattern: string -> bool): (string, string) -> bool {
    (root, name) => pattern(name) && !UnderSvn(PathOf(root, name))
  }

  function Paths(pairs: seq<(string, string)>): (r: seq<string>)
    ensures |r| == |pairs| && forall k :: 0 <= k < |r| ==> r[k] == PathOf(pairs[k].0, pairs[k].1)
  {
    seq(|pairs|, k requires 0 <= k < |pairs| => PathOf(pairs[k].0, pairs[k].1))
  }

  /** `search_and_replace` over the selected files, in walk order; a file
      that cannot be opened ends the run. */
  function Process(fs: Fs, paths: seq<string>, pat: string, repl: string, opts: Options): (r: Result<Fs>)
    decreases |paths|
  {
    if |paths| == 0 then Ok(fs)
    else match SearchAndReplace(fs, paths[0], pat, repl, opts)
      case Err(e) => Err(e)
      case Ok(run) => Process(run.fs, paths[1..], pat, repl, opts)
  }

  function Main(fs: Fs, walk: Walk, pattern: string -> bool, pat: string, repl: string, opts: Options): Result<Fs> {
    Process(fs, Paths(Select(walk, Keep(pattern))), pat, repl, opts)
  }

  /** A file that is not a selected file (or processed only in a dry run)
      and not the copy of one keeps its text. */
  lemma {:induction false} ProcessKeeps(fs: Fs, paths: seq<string>, pat: string, repl: string, opts: Options, p: string)
    requires Process(fs, paths, pat, repl, opts).Ok?
    requires p in fs
    requires forall k :: 0 <= k < |paths| ==> p != CopyPath(paths[k]) && (p == paths[k] ==> opts.dryrun)
    ensures p in Process(fs, paths, pat, repl, opts).value
    ensures Process(fs, paths, pat, repl, opts).value[p] == fs[p]
    decreases |paths|
  {
    if |paths| > 0 {
      var run := SearchAndReplace(fs, paths[0], pat, repl, opts).value;
      assert p in run.fs && run.fs[p] == fs[p];
      ProcessKeeps(run.fs, paths[1..], pat, repl, opts, p);
    }
  }

  /** A dry run changes no file's text (it only creates and removes the
      copies). */
  lemma DryRunKeepsFiles(fs: Fs, walk: Walk, pattern: string -> bool, pat: string, repl: string, opts: Options, p: string)
    requires opts.dryrun && Main(fs, walk, pattern, pat, repl, opts).Ok?
    requires p in fs
    requires forall k :: 0 <= k < |Select(walk, Keep(pattern))| ==>
               p != CopyPath(PathOf(Select(walk, Keep(pattern))[k].0, Select(walk, Keep(pattern))[k].1))
    ensures p in Main(fs, walk, pattern, pat, repl, opts).value
    ensures Main(fs, walk, pattern, pat, repl, opts).value[p] == fs[p]
  {
    ProcessKeeps(fs, Paths(Select(walk, Keep(pattern))), pat, repl, opts, p);
  }

  /** Selection: a file is acted on exactly when the walk lists it, its name
      matches the pattern and its path is not under ".svn". */
  lemma Selected(walk: Walk, pattern: string -> bool, root: string, name: string)
    ensures (root, name) in Select(walk, Keep(pattern)) <==>
              (exists i :: 0 <= i < |walk| && walk[i].root == root && name in walk[i].files)
              && pattern(name) && !UnderSvn(PathOf(root, name))
  {
    SelectSpec(walk, Keep(pattern), root, name);
  }
}
