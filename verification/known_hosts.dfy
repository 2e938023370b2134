/** `clear_known_hosts_matching.py`: drop from an ssh `known_hosts` file every
    line that the given pattern matches at its start, together with every
    blank line, and report how many lines were dropped.

    The pattern is a Python regular expression supplied by the user; the
    model takes `re.match(pattern, line)` as a predicate on the line (the
    line as file iteration yields it, '\n' included). */
module KnownHosts {
  import opened Text
  import opened FileLines

  type Pattern = string -> bool

  /** The test of the loop: matched by the pattern, or whitespace only. */
  predicate Removed(matches: Pattern, line: string) {
    matches(line) || StripSpace(line) == ""
  }

  /** A removed line is one the pattern matches or a blank one. */
  lemma RemovedIff(matches: Pattern, line: string)
    ensures Removed(matches, line) <==> matches(line) || IsBlank(line)
  {
    StripSpaceEmptyIffBlank(line);
  }

  predicate Kept(matches: Pattern, line: string) {
    !Removed(matches, line)
  }

  function Keeper(matches: Pattern): string -> bool {
    line => Kept(matches, line)
  }

  /** The number of removed lines. */
  function CountRemoved(matches: Pattern, ls: seq<string>): (n: nat)
    ensures n <= |ls|
    decreases |ls|
  {
    if |ls| == 0 then 0
    else (if Removed(matches, ls[0]) then 1 else 0) + CountRemoved(matches, ls[1..])
  }

  /** Every line is either kept or counted. */
  lemma {:induction false} KeptPlusRemoved(matches: Pattern, ls: seq<string>)
    ensures |Filter(ls, Keeper(matches))| + CountRemoved(matches, ls) == |ls|
    decreases |ls|
  {
    if |ls| > 0 {
      KeptPlusRemoved(matches, ls[1..]);
    }
  }

  /** The kept lines of two runs are those of the first, then those of the
      second: kept lines stay in their order. */
  lemma {:induction false} FilterSplits(ls: seq<string>, more: seq<string>, keep: string -> bool)
    ensures Filter(ls + more, keep) == Filter(ls, keep) + Filter(more, keep)
    decreases |ls|
  {
    if |ls| == 0 {
      assert ls + more == more;
    } else {
      assert (ls + more)[1..] == ls[1..] + more;
      FilterSplits(ls[1..], more, keep);
    }
  }

  /** A line is kept exactly when it is not removed, unchanged. */
  lemma {:induction false} KeptLines(matches: Pattern, ls: seq<string>, line: string)
    ensures line in Filter(ls, Keeper(matches)) <==> line in ls && Kept(matches, line)
    decreases |ls|
  {
    if |ls| > 0 {
      KeptLines(matches, ls[1..], line);
    }
  }

  /** What one run writes back and logs. */
  datatype Cleared = Cleared(written: string, numMatches: nat)

  /** The loop over the file's lines, accumulating the kept text and the
      count as the script does. */
  method ClearMatching(matches: Pattern, text: string) returns (r: Cleared)
    ensures r.written == Concat(Filter(Lines(text), Keeper(matches)))
    ensures r.numMatches == CountRemoved(matches, Lines(text))
    ensures r.numMatches + |Filter(Lines(text), Keeper(matches))| == |Lines(text)|
  {
    var ls := Lines(text);
    var nonmatching := "";
    var numMatches := 0;
    var i := 0;
    while i < |ls|
      invariant 0 <= i <= |ls|
      invariant nonmatching == Concat(Filter(ls[..i], Keeper(matches)))
      invariant numMatches == CountRemoved(matches, ls[..i])
    {
      var line := ls[i];
      if Removed(matches, line) {
        StepRemoved(matches, ls, i);
        numMatches := numMatches + 1;
      } else {
        StepKept(matches, ls, i);
        nonmatching := nonmatching + line;
      }
      i := i + 1;
    }
    assert ls[..i] == ls;
    KeptPlusRemoved(matches, ls);
    r := Cleared(nonmatching, numMatches);
  }

  /** One more removed line: the kept text stays, the count grows by one. */
  lemma StepRemoved(matches: Pattern, ls: seq<string>, i: nat)
    requires i < |ls| && Removed(matches, ls[i])
    ensures Concat(Filter(ls[..i + 1], Keeper(matches))) == Concat(Filter(ls[..i], Keeper(matches)))
    ensures CountRemoved(matches, ls[..i + 1]) == CountRemoved(matches, ls[..i]) + 1
  {
    var keep := Keeper(matches);
    assert ls[..i + 1] == ls[..i] + [ls[i]];
    FilterSplits(ls[..i], [ls[i]], keep);
    CountSplits(matches, ls[..i], [ls[i]]);
    FilterOne(ls[i], keep);
    var f := Filter(ls[..i], keep);
    assert f + [] == f;
  }

  /** One more kept line: it is appended to the kept text, the count stays. */
  lemma StepKept(matches: Pattern, ls: seq<string>, i: nat)
    requires i < |ls| && !Removed(matches, ls[i])
    ensures Concat(Filter(ls[..i + 1], Keeper(matches))) == Concat(Filter(ls[..i], Keeper(matches))) + ls[i]
    ensures CountRemoved(matches, ls[..i + 1]) == CountRemoved(matches, ls[..i])
  {
    var keep := Keeper(matches);
    assert ls[..i + 1] == ls[..i] + [ls[i]];
    FilterSplits(ls[..i], [ls[i]], keep);
    CountSplits(matches, ls[..i], [ls[i]]);
    FilterOne(ls[i], keep);
    ConcatAppend(Filter(ls[..i], keep), [ls[i]]);
    assert Concat([ls[i]]) == ls[i] + Concat([]);
  }

  lemma FilterOne(line: string, keep: string -> bool)
    ensures Filter([line], keep) == if keep(line) then [line] else []
  {
    assert [line][1..] == [];
  }

  lemma {:induction false} CountSplits(matches: Pattern, ls: seq<string>, more: seq<string>)
    ensures CountRemoved(matches, ls + more) == CountRemoved(matches, ls) + CountRemoved(matches, more)
    decreases |ls|
  {
    if |ls| == 0 {
      assert ls + more == more;
    } else {
      assert (ls + more)[1..] == ls[1..] + more;
      CountSplits(matches, ls[1..], more);
    }
  }

  /** Every line of a filtered list is kept. */
  lemma {:induction false} FilterKeepsAll(ls: seq<string>, keep: string -> bool)
    requires forall i :: 0 <= i < |ls| ==> keep(ls[i])
    ensures Filter(ls, keep) == ls
    decreases |ls|
  {
    if |ls| > 0 {
      FilterKeepsAll(ls[1..], keep);
    }
  }

  lemma {:induction false} NoneRemoved(matches: Pattern, ls: seq<string>)
    requires forall i :: 0 <= i < |ls| ==> Kept(matches, ls[i])
    ensures CountRemoved(matches, ls) == 0
    decreases |ls|
  {
    if |ls| > 0 {
      NoneRemoved(matches, ls[1..]);
    }
  }

  /** Idempotence: run again over what it wrote, the script removes nothing,
      reports 0 and writes the same text. */
  lemma SecondRunRemovesNothing(matches: Pattern, text: string)
    ensures var once := Concat(Filter(Lines(text), Keeper(matches)));
            CountRemoved(matches, Lines(once)) == 0
            && Concat(Filter(Lines(once), Keeper(matches))) == once
  {
    var kept := Filter(Lines(text), Keeper(matches));
    FilterWellFormed(Lines(text), Keeper(matches));
    LinesOfConcat(kept);
    assert forall i :: 0 <= i < |kept| ==> Keeper(matches)(kept[i]);
    FilterKeepsAll(kept, Keeper(matches));
    NoneRemoved(matches, kept);
  }
}
