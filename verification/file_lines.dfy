/** Iterating over a text file in Python yields its lines, each with its
    terminating '\n' kept; the last line lacks one when the file does not end
    with a newline.  `Lines` is that iteration over the file's (already
    newline-translated) text, and `Concat` writes lines back out. */
module FileLines {

  /** One line as file iteration yields it: non-empty, no '\n' before its end. */
  predicate IsLine(l: string) {
    l != [] && forall j :: 0 <= j < |l| - 1 ==> l[j] != '\n'
  }

  predicate EndsWithNewline(l: string) {
    |l| > 0 && l[|l| - 1] == '\n'
  }

  /** A sequence of lines that some file text produces: every line but the
      last ends with '\n'. */
  predicate WellFormed(ls: seq<string>) {
    forall i :: 0 <= i < |ls| ==> IsLine(ls[i]) && (i < |ls| - 1 ==> EndsWithNewline(ls[i]))
  }

  /** `"".join(ls)`. */
  function Concat(ls: seq<string>): string
    decreases |ls|
  {
    if |ls| == 0 then "" else ls[0] + Concat(ls[1..])
  }

  /** The index just past the first '\n' of `t` at or after `i`, or `|t|`. */
  function LineEndFrom(t: string, i: nat): (k: nat)
    requires i < |t|
    ensures i < k <= |t|
    ensures forall j :: i <= j < k - 1 ==> t[j] != '\n'
    ensures k < |t| ==> t[k - 1] == '\n'
    decreases |t| - i
  {
    if t[i] == '\n' || i + 1 == |t| then i + 1 else LineEndFrom(t, i + 1)
  }

  /** The lines of a file whose text is `t`. */
  function Lines(t: string): (ls: seq<string>)
    ensures Concat(ls) == t
    ensures WellFormed(ls)
    decreases |t|
  {
    if |t| == 0 then []
    else
      var k := LineEndFrom(t, 0);
      var rest := Lines(t[k..]);
      assert t[..k] + t[k..] == t;
      assert ([t[..k]] + rest)[1..] == rest;
      [t[..k]] + rest
  }

  lemma ConcatAppend(a: seq<string>, b: seq<string>)
    ensures Concat(a + b) == Concat(a) + Concat(b)
    decreases |a|
  {
    if |a| == 0 {
      assert a + b == b;
    } else {
      assert (a + b)[1..] == a[1..] + b;
      ConcatAppend(a[1..], b);
    }
  }

  /** Reading back the text written from well-formed lines yields those lines. */
  lemma {:induction false} LinesOfConcat(ls: seq<string>)
    requires WellFormed(ls)
    ensures Lines(Concat(ls)) == ls
    decreases |ls|
  {
    if |ls| > 0 {
      var l := ls[0];
      var t := Concat(ls);
      assert WellFormed(ls[1..]) by {
        forall i | 0 <= i < |ls[1..]| ensures IsLine(ls[1..][i]) && (i < |ls[1..]| - 1 ==> EndsWithNewline(ls[1..][i])) {
          assert ls[1..][i] == ls[i + 1];
        }
      }
      assert t == l + Concat(ls[1..]);
      var k := LineEndFrom(t, 0);
      assert forall j :: 0 <= j < |l| ==> t[j] == l[j];
      assert k == |l|;
      assert t[..k] == l;
      assert t[k..] == Concat(ls[1..]);
      LinesOfConcat(ls[1..]);
    }
  }

  /** Dropping lines from a well-formed sequence leaves a well-formed one:
      only the last line may lack its '\n', and it stays last. */
  lemma {:induction false} FilterWellFormed(ls: seq<string>, keep: string -> bool)
    requires WellFormed(ls)
    ensures WellFormed(Filter(ls, keep))
    decreases |ls|
  {
    if |ls| > 0 {
      assert WellFormed(ls[1..]) by {
        forall i | 0 <= i < |ls[1..]| ensures IsLine(ls[1..][i]) && (i < |ls[1..]| - 1 ==> EndsWithNewline(ls[1..][i])) {
          assert ls[1..][i] == ls[i + 1];
        }
      }
      FilterWellFormed(ls[1..], keep);
      var rest := Filter(ls[1..], keep);
      if keep(ls[0]) {
        if |rest| > 0 {
          assert EndsWithNewline(ls[0]) by { assert |ls| > 1; }
        }
        var r := [ls[0]] + rest;
        forall i | 0 <= i < |r| ensures IsLine(r[i]) && (i < |r| - 1 ==> EndsWithNewline(r[i])) {
          if i > 0 { assert r[i] == rest[i - 1]; }
        }
      }
    }
  }

  /** The lines `keep` selects, in their original order. */
  function Filter(ls: seq<string>, keep: string -> bool): (r: seq<string>)
    ensures |r| <= |ls|
    ensures forall i :: 0 <= i < |r| ==> r[i] in ls && keep(r[i])
    decreases |ls|
  {
    if |ls| == 0 then []
    else if keep(ls[0]) then [ls[0]] + Filter(ls[1..], keep)
    else Filter(ls[1..], keep)
  }
}
