/** The handful of Python `str` operations the scripts rely on, with the
    semantics CPython gives them: `isspace`, `strip`/`lstrip`/`rstrip` with a
    character set, `startswith`, `find`, `in`, `split` on one character,
    `join`, and `replace` (including its behaviour for an empty pattern). */
module Text {

  /** `str.isspace()` of one character (Py_UNICODE_ISSPACE), which is also
      the class `\s` matches in a `re` pattern over `str`. */
  predicate IsSpace(c: char) {
    || ('\t' <= c <= '\r')
    || ('\U{1C}' <= c <= ' ')
    || c == '\U{85}' || c == '\U{A0}' || c == '\U{1680}'
    || ('\U{2000}' <= c <= '\U{200A}')
    || c == '\U{2028}' || c == '\U{2029}' || c == '\U{202F}'
    || c == '\U{205F}' || c == '\U{3000}'
  }

  /** `\S` in a `re` pattern over `str`. */
  predicate NotSpace(c: char) {
    !IsSpace(c)
  }

  /** `s.startswith(p)`. */
  predicate StartsWith(s: string, p: string) {
    p <= s
  }

  /** `s.endswith(p)`. */
  predicate EndsWith(s: string, p: string) {
    |p| <= |s| && s[|s| - |p|..] == p
  }

  /** Whatever is put in front of a string, it still ends with its suffixes. */
  lemma EndsWithPrepend(a: string, b: string, t: string)
    requires EndsWith(b, t)
    ensures EndsWith(a + b, t)
  {
    assert (a + b)[|a + b| - |t|..] == b[|b| - |t|..];
  }

  lemma EndsWithTrans(s: string, t: string, u: string)
    requires EndsWith(s, t) && EndsWith(t, u)
    ensures EndsWith(s, u)
  {
    assert s[|s| - |u|..] == t[|t| - |u|..];
  }

  /** `sub in s`: `sub` occurs as a contiguous piece of `s` (the empty string
      occurs everywhere). */
  predicate Contains(s: string, sub: string)
    decreases |s|
  {
    StartsWith(s, sub) || (|s| > 0 && Contains(s[1..], sub))
  }

  /** `s.find(c)`: the index of the first `c`, or -1. */
  function Find(s: string, c: char): (r: int)
    ensures -1 <= r && (r == -1 <==> c !in s)
    ensures r >= 0 ==> r < |s| && s[r] == c && c !in s[..r]
    decreases |s|
  {
    if |s| == 0 then -1
    else if s[0] == c then 0
    else
      var k := Find(s[1..], c);
      assert s == [s[0]] + s[1..];
      assert k >= 0 ==> s[..k + 1] == [s[0]] + s[1..][..k] && s[k + 1] == s[1..][k];
      if k == -1 then -1 else k + 1
  }

  /** Cutting a string around a piece it holds at `i` and gluing it back. */
  lemma CutAt(s: string, i: nat, p: string)
    requires i + |p| <= |s| && s[i..i + |p|] == p
    ensures s == s[..i] + p + s[i + |p|..]
  {
  }

  /** In `x + [c] + y` with `c` not in `x`, the first `c` is the one added. */
  lemma FindAfter(x: string, c: char, y: string)
    requires c !in x
    ensures var s := x + [c] + y;
            Find(s, c) == |x| && s[..|x|] == x && s[|x| + 1..] == y
  {
    var s := x + [c] + y;
    assert s[..|x|] == x;
    assert s[|x|] == c;
  }

  // ---------------------------------------------------------------------
  // strip / lstrip / rstrip over a set of characters

  /** The first index at or after `i` whose character `drop` does not select. */
  function SkipFrom(s: string, drop: char -> bool, i: nat): (k: nat)
    requires i <= |s|
    ensures i <= k <= |s|
    ensures forall j :: i <= j < k ==> drop(s[j])
    ensures k < |s| ==> !drop(s[k])
    decreases |s| - i
  {
    if i == |s| || !drop(s[i]) then i else SkipFrom(s, drop, i + 1)
  }

  /** The least `k <= j` such that `drop` selects every character of `s[k..j]`. */
  function BackFrom(s: string, drop: char -> bool, j: nat): (k: nat)
    requires j <= |s|
    ensures k <= j
    ensures forall i :: k <= i < j ==> drop(s[i])
    ensures k > 0 ==> !drop(s[k - 1])
    decreases j
  {
    if j == 0 || !drop(s[j - 1]) then j else BackFrom(s, drop, j - 1)
  }

  /** `s.lstrip(chars)` where `drop` tells membership in `chars`. */
  function LStrip(s: string, drop: char -> bool): (r: string)
    ensures |r| <= |s| && r == s[|s| - |r|..]
    ensures forall j :: 0 <= j < |s| - |r| ==> drop(s[j])
    ensures r == [] || !drop(r[0])
  {
    s[SkipFrom(s, drop, 0)..]
  }

  /** The strip stops at `k` when every character before it is selected and
      the one at `k` is not. */
  lemma LStripAt(s: string, drop: char -> bool, k: nat)
    requires k <= |s|
    requires forall j :: 0 <= j < k ==> drop(s[j])
    requires k < |s| ==> !drop(s[k])
    ensures LStrip(s, drop) == s[k..]
  {
  }

  /** A selected run in front is stripped with the rest. */
  lemma LStripDropped(pad: string, s: string, drop: char -> bool)
    requires forall j :: 0 <= j < |pad| ==> drop(pad[j])
    ensures LStrip(pad + s, drop) == LStrip(s, drop)
  {
    var k := |s| - |LStrip(s, drop)|;
    var t := pad + s;
    forall j | 0 <= j < |pad| + k ensures drop(t[j]) {
      if j >= |pad| { assert t[j] == s[j - |pad|]; }
    }
    if |pad| + k < |t| { assert t[|pad| + k] == LStrip(s, drop)[0]; }
    LStripAt(t, drop, |pad| + k);
    assert t[|pad| + k..] == s[k..];
  }

  /** Once the strip stops inside `p`, what follows `p` is kept as it is. */
  lemma LStripKept(p: string, q: string, drop: char -> bool)
    requires LStrip(p, drop) != []
    ensures LStrip(p + q, drop) == LStrip(p, drop) + q
  {
    var k := |p| - |LStrip(p, drop)|;
    var t := p + q;
    assert t[k] == LStrip(p, drop)[0];
    LStripAt(t, drop, k);
    assert t[k..] == p[k..] + q;
  }

  /** `s.rstrip(chars)`. */
  function RStrip(s: string, drop: char -> bool): (r: string)
    ensures r <= s
    ensures forall j :: |r| <= j < |s| ==> drop(s[j])
    ensures r == [] || !drop(r[|r| - 1])
  {
    s[..BackFrom(s, drop, |s|)]
  }

  /** `r` is `s` with exactly `i` selected characters removed in front and
      the selected characters after `i + |r|` removed at the back. */
  ghost predicate TrimmedAt(s: string, r: string, i: int, drop: char -> bool) {
    && 0 <= i <= |s| - |r|
    && r == s[i..i + |r|]
    && (forall j :: 0 <= j < i ==> drop(s[j]))
    && (forall j :: i + |r| <= j < |s| ==> drop(s[j]))
  }

  /** `s.strip(chars)`: both ends trimmed of selected characters. */
  function Strip(s: string, drop: char -> bool): (r: string)
    ensures exists i :: TrimmedAt(s, r, i, drop)
    ensures r == [] || (!drop(r[0]) && !drop(r[|r| - 1]))
  {
    StripFacts(s, drop);
    RStrip(LStrip(s, drop), drop)
  }

  lemma StripFacts(s: string, drop: char -> bool)
    ensures exists i :: TrimmedAt(s, RStrip(LStrip(s, drop), drop), i, drop)
    ensures var r := RStrip(LStrip(s, drop), drop);
            r == [] || (!drop(r[0]) && !drop(r[|r| - 1]))
  {
    var l := LStrip(s, drop);
    var r := RStrip(l, drop);
    var i := |s| - |l|;
    if r != [] { assert r[0] == l[0]; }
    assert r == l[..|r|];
    assert l[..|r|] == s[i..i + |r|];
    forall j | i + |r| <= j < |s| ensures drop(s[j]) {
      assert l[j - i] == s[j];
    }
    assert TrimmedAt(s, r, i, drop);
  }

  /** Characters `strip('/')` removes. */
  predicate IsSlash(c: char) { c == '/' }

  /** `s.strip()` with no argument. */
  function StripSpace(s: string): string {
    Strip(s, IsSpace)
  }

  /** `s.strip() == ""`: the line holds whitespace only. */
  predicate IsBlank(s: string) {
    forall j :: 0 <= j < |s| ==> IsSpace(s[j])
  }

  /** Stripping whitespace leaves nothing exactly when the string is blank. */
  lemma StripSpaceEmptyIffBlank(s: string)
    ensures StripSpace(s) == [] <==> IsBlank(s)
  {
    var r := StripSpace(s);
    var i :| TrimmedAt(s, r, i, IsSpace);
    if r == [] {
      forall j | 0 <= j < |s| ensures IsSpace(s[j]) {
        if j >= i { assert i + |r| <= j; }
      }
    } else {
      assert !IsSpace(s[i]) by { assert r[0] == s[i]; }
    }
  }

  /** Stripping twice is stripping once. */
  lemma StripIdempotent(s: string, drop: char -> bool)
    ensures Strip(Strip(s, drop), drop) == Strip(s, drop)
  {
    var r := Strip(s, drop);
    var r2 := Strip(r, drop);
    var i :| TrimmedAt(r, r2, i, drop);
    if r != [] {
      assert !drop(r[0]) && !drop(r[|r| - 1]);
    }
  }

  // ---------------------------------------------------------------------
  // split and join on one separator character

  /** `s.split(sep)` for a one-character separator: always one more piece
      than there are separators. */
  function Split(s: string, sep: char): (parts: seq<string>)
    ensures |parts| >= 1
    ensures forall i :: 0 <= i < |parts| ==> sep !in parts[i]
    decreases |s|
  {
    if |s| == 0 then [""]
    else
      var rest := Split(s[1..], sep);
      if s[0] == sep then [""] + rest
      else [[s[0]] + rest[0]] + rest[1..]
  }

  /** The first piece of a split is the text before the first separator;
      the others are the split of the text after it. */
  lemma {:induction false} SplitAtFirst(s: string, sep: char)
    ensures sep !in s ==> Split(s, sep) == [s]
    ensures sep in s ==> Split(s, sep) == [s[..Find(s, sep)]] + Split(s[Find(s, sep) + 1..], sep)
    decreases |s|
  {
    if |s| > 0 && s[0] != sep {
      var t := s[1..];
      SplitAtFirst(t, sep);
      assert s == [s[0]] + t;
      if sep in t {
        var k := Find(t, sep);
        assert s[..k + 1] == [s[0]] + t[..k];
        assert s[k + 2..] == t[k + 1..];
      }
    }
  }

  /** `sep.join(parts)`. */
  function Join(parts: seq<string>, sep: char): string
    decreases |parts|
  {
    if |parts| == 0 then ""
    else if |parts| == 1 then parts[0]
    else parts[0] + [sep] + Join(parts[1..], sep)
  }

  lemma JoinConsHead(c: char, parts: seq<string>, sep: char)
    requires |parts| >= 1
    ensures Join([[c] + parts[0]] + parts[1..], sep) == [c] + Join(parts, sep)
  {
    var q := [[c] + parts[0]] + parts[1..];
    if |parts| > 1 {
      assert q[1..] == parts[1..];
    }
  }

  /** Joining the pieces of a split gives back the original text. */
  lemma {:induction false} JoinSplit(s: string, sep: char)
    ensures Join(Split(s, sep), sep) == s
    decreases |s|
  {
    if |s| > 0 {
      var rest := Split(s[1..], sep);
      JoinSplit(s[1..], sep);
      if s[0] == sep {
        assert ([""] + rest)[1..] == rest;
      } else {
        JoinConsHead(s[0], rest, sep);
      }
    }
  }

  /** Splitting a join of separator-free pieces gives back the pieces. */
  lemma {:induction false} SplitJoin(parts: seq<string>, sep: char)
    requires |parts| >= 1
    requires forall i :: 0 <= i < |parts| ==> sep !in parts[i]
    ensures Split(Join(parts, sep), sep) == parts
    decreases |parts|, |parts[0]|
  {
    if |parts[0]| > 0 {
      var c := parts[0][0];
      var tail := [parts[0][1..]] + parts[1..];
      assert parts[0] == [c] + parts[0][1..];
      JoinConsHead(c, tail, sep);
      assert [[c] + tail[0]] + tail[1..] == parts;
      assert Join(parts, sep)[1..] == Join(tail, sep);
      SplitJoin(tail, sep);
    } else if |parts| > 1 {
      var tail := parts[1..];
      assert Join(parts, sep) == [sep] + Join(tail, sep);
      assert Join(parts, sep)[1..] == Join(tail, sep);
      SplitJoin(tail, sep);
      assert [""] + tail == parts;
    }
  }

  // ---------------------------------------------------------------------
  // str.replace

  /** `s.replace("", repl)`: `repl` before every character and at the end. */
  function InsertEverywhere(s: string, repl: string): string
    decreases |s|
  {
    if |s| == 0 then repl else repl + [s[0]] + InsertEverywhere(s[1..], repl)
  }

  /** `s.replace(pat, repl)` for a non-empty `pat`: occurrences found left to
      right, each replaced, scanning resumed after it (no overlaps). */
  function ReplaceScan(s: string, pat: string, repl: string): string
    requires pat != []
    decreases |s|
  {
    if |s| == 0 then ""
    else if StartsWith(s, pat) then repl + ReplaceScan(s[|pat|..], pat, repl)
    else [s[0]] + ReplaceScan(s[1..], pat, repl)
  }

  /** `s.replace(pat, repl)`, every occurrence. */
  function Replace(s: string, pat: string, repl: string): string {
    if pat == [] then InsertEverywhere(s, repl) else ReplaceScan(s, pat, repl)
  }

  /** Where the pattern does not occur, replacing changes nothing. */
  lemma {:induction false} ReplaceAbsent(s: string, pat: string, repl: string)
    requires !Contains(s, pat)
    ensures Replace(s, pat, repl) == s
    decreases |s|
  {
    if pat != [] && |s| > 0 {
      ReplaceAbsent(s[1..], pat, repl);
      assert [s[0]] + s[1..] == s;
    }
  }

  /** Replacing a pattern by itself changes nothing. */
  lemma {:induction false} ReplaceBySelf(s: string, pat: string)
    ensures Replace(s, pat, pat) == s
    decreases |s|
  {
    if pat == [] {
      if |s| > 0 {
        ReplaceBySelf(s[1..], pat);
        assert [s[0]] + s[1..] == s;
      }
    } else if |s| > 0 {
      if StartsWith(s, pat) {
        ReplaceBySelf(s[|pat|..], pat);
        assert pat + s[|pat|..] == s;
      } else {
        ReplaceBySelf(s[1..], pat);
        assert [s[0]] + s[1..] == s;
      }
    }
  }

  /** Where the pattern occurs, the replacement text appears in the result. */
  lemma {:induction false} ReplaceIntroduces(s: string, pat: string, repl: string)
    requires Contains(s, pat)
    ensures Contains(Replace(s, pat, repl), repl)
    decreases |s|
  {
    var r := Replace(s, pat, repl);
    if pat == [] {
      assert StartsWith(r, repl);
    } else if StartsWith(s, pat) {
      assert StartsWith(r, repl);
    } else {
      ReplaceIntroduces(s[1..], pat, repl);
      ContainsInTail(s[0], Replace(s[1..], pat, repl), repl);
    }
  }

  lemma {:induction false} ContainsInTail(c: char, t: string, sub: string)
    requires Contains(t, sub)
    ensures Contains([c] + t, sub)
  {
    assert ([c] + t)[1..] == t;
  }

  /** An occurrence in either part is an occurrence in the whole. */
  lemma {:induction false} ContainsAppend(a: string, b: string, sub: string)
    ensures Contains(a, sub) || Contains(b, sub) ==> Contains(a + b, sub)
    decreases |a|
  {
    if |a| == 0 {
      assert a + b == b;
    } else {
      assert (a + b)[1..] == a[1..] + b;
      ContainsAppend(a[1..], b, sub);
      if StartsWith(a, sub) {
        assert (a + b)[..|sub|] == a[..|sub|];
      }
    }
  }
}
