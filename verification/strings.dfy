/**
 The Python string primitives the parser uses: `strip`, `startswith`, `in`,
 `splitlines`, `sep.join` and `split`, on `string == seq<char>`.
 */
module Strings {
  import opened Chars

  predicate StartsWith(s: string, p: string) {
    |p| <= |s| && s[..|p|] == p
  }

  /** `p` occurs in `s` starting at index `i`. */
  predicate OccursAt(s: string, p: string, i: nat) {
    i + |p| <= |s| && s[i..i + |p|] == p
  }

  /** Python's `p in s`. */
  predicate Contains(s: string, p: string) {
    exists i | 0 <= i <= |s| :: OccursAt(s, p, i)
  }

  predicate AllSpace(s: string) {
    forall k | 0 <= k < |s| :: IsSpace(s[k])
  }

  predicate NoSpace(s: string) {
    forall k | 0 <= k < |s| :: !IsSpace(s[k])
  }

  /** What `strip()` leaves: empty, or neither end is whitespace. */
  predicate IsTrimmed(s: string) {
    |s| == 0 || (!IsSpace(s[0]) && !IsSpace(s[|s| - 1]))
  }

  predicate NoLineBoundary(s: string) {
    forall k | 0 <= k < |s| :: !IsLineBoundary(s[k])
  }

  /** The end of the maximal whitespace run starting at `i` (what a greedy `\s*` consumes). */
  function SkipSpace(s: string, i: nat): (j: nat)
    requires i <= |s|
    ensures i <= j <= |s|
    ensures AllSpace(s[i..j])
    ensures j < |s| ==> !IsSpace(s[j])
    decreases |s| - i
  {
    if i < |s| && IsSpace(s[i]) then SkipSpace(s, i + 1) else i
  }

  /** The start of the maximal whitespace run ending at `j`, not going below `lo`. */
  function BackSpace(s: string, lo: nat, j: nat): (i: nat)
    requires lo <= j <= |s|
    ensures lo <= i <= j
    ensures AllSpace(s[i..j])
    ensures i > lo ==> !IsSpace(s[i - 1])
    decreases j - lo
  {
    if j > lo && IsSpace(s[j - 1]) then
      var i := BackSpace(s, lo, j - 1);
      assert s[i..j] == s[i..j - 1] + [s[j - 1]];
      i
    else j
  }

  /** Python's `s.strip()`: the infix `s[i..j]` left once the whitespace at both ends is gone. */
  function Strip(s: string): (r: string)
    ensures IsTrimmed(r)
    ensures |r| <= |s|
    ensures r == [] <==> AllSpace(s)
    ensures exists i, j | 0 <= i <= j <= |s| :: r == s[i..j] && AllSpace(s[..i]) && AllSpace(s[j..])
    ensures forall c | c in r :: c in s
  {
    var i := SkipSpace(s, 0);
    var j := BackSpace(s, i, |s|);
    assert AllSpace(s[..i]) by { assert s[..i] == s[0..i]; }
    assert i == j ==> AllSpace(s) by {
      if i == j {
        assert i == |s|;
        assert s == s[0..i];
      }
    }
    assert i < j ==> !AllSpace(s) by {
      if i < j { assert !IsSpace(s[i]); }
    }
    assert s[j..] == s[j..|s|];
    s[i..j]
  }

  /** A whitespace run ending at a non-space (or at the end) is exactly what `SkipSpace` consumes. */
  lemma SkipSpaceExact(s: string, i: nat, j: nat)
    requires i <= j <= |s|
    requires AllSpace(s[i..j])
    requires j < |s| ==> !IsSpace(s[j])
    ensures SkipSpace(s, i) == j
    decreases j - i
  {
    if i < j {
      assert IsSpace(s[i..j][0]);
      assert s[i + 1..j] == s[i..j][1..];
      SkipSpaceExact(s, i + 1, j);
    }
  }

  lemma StripOfTrimmed(s: string)
    requires IsTrimmed(s)
    ensures Strip(s) == s
  {
    if |s| > 0 {
      assert SkipSpace(s, 0) == 0;
      assert BackSpace(s, 0, |s|) == |s|;
    }
  }

  lemma NoSpaceIsTrimmed(s: string)
    requires NoSpace(s)
    ensures IsTrimmed(s)
  {
  }

  /** Python's `sep.join(ls)`. */
  function Join(ls: seq<string>, sep: string): string
    decreases |ls|
  {
    if |ls| == 0 then ""
    else if |ls| == 1 then ls[0]
    else ls[0] + sep + Join(ls[1..], sep)
  }

  /** Joining non-empty pieces: the result starts with the first piece's first character and ends with the last piece's last one. */
  lemma JoinEnds(ls: seq<string>, sep: string)
    requires |ls| > 0 && forall k | 0 <= k < |ls| :: |ls[k]| > 0
    ensures |Join(ls, sep)| > 0
    ensures Join(ls, sep)[0] == ls[0][0]
    ensures Join(ls, sep)[|Join(ls, sep)| - 1] == ls[|ls| - 1][|ls[|ls| - 1]| - 1]
  {
    JoinHead(ls, sep);
    JoinLast(ls, sep);
  }

  lemma JoinHead(ls: seq<string>, sep: string)
    requires |ls| > 0 && |ls[0]| > 0
    ensures |Join(ls, sep)| > 0 && Join(ls, sep)[0] == ls[0][0]
  {
  }

  lemma {:induction false} JoinLast(ls: seq<string>, sep: string)
    requires |ls| > 0 && |ls[|ls| - 1]| > 0
    ensures |Join(ls, sep)| > 0 && Join(ls, sep)[|Join(ls, sep)| - 1] == ls[|ls| - 1][|ls[|ls| - 1]| - 1]
    decreases |ls|
  {
    if |ls| > 1 {
      var rest := ls[1..];
      assert rest[|rest| - 1] == ls[|ls| - 1];
      JoinLast(rest, sep);
    }
  }

  /** Joining non-empty trimmed pieces gives a trimmed text, empty exactly when there are no pieces. */
  lemma JoinTrimmed(ls: seq<string>, sep: string)
    requires forall k | 0 <= k < |ls| :: |ls[k]| > 0 && IsTrimmed(ls[k])
    ensures IsTrimmed(Join(ls, sep))
    ensures Join(ls, sep) == [] <==> ls == []
  {
    if |ls| > 0 {
      JoinEnds(ls, sep);
    }
  }

  /**
   `sep.join(ls).split(sep) == ls` when the first character of `sep` occurs
   in no piece: then every occurrence of `sep` is one the join put there.
   */
  lemma {:induction false} SplitJoin(ls: seq<string>, sep: string)
    requires |ls| > 0 && |sep| > 0
    requires forall k | 0 <= k < |ls| :: sep[0] !in ls[k]
    ensures Split(Join(ls, sep), sep) == ls
    decreases |ls|
  {
    if |ls| == 1 {
      NoOccurrence(ls[0], sep);
    } else {
      var rest := ls[1..];
      assert forall k | 0 <= k < |rest| :: rest[k] == ls[k + 1];
      SplitJoin(rest, sep);
      SplitAtFirst(ls[0], sep, Join(rest, sep));
      assert ls == [ls[0]] + rest;
    }
  }

  /** When `a` lacks the separator's first character, the first split of `a + sep + t` is `a`. */
  lemma SplitAtFirst(a: string, sep: string, t: string)
    requires |sep| > 0 && sep[0] !in a
    ensures Split(a + sep + t, sep) == [a] + Split(t, sep)
  {
    var s := a + sep + t;
    var k := FindFrom(s, sep, 0);
    assert OccursAt(s, sep, |a|) by {
      assert s[|a|..|a| + |sep|] == sep;
    }
    forall q | 0 <= q < |a| ensures !OccursAt(s, sep, q) {
      assert s[q] == a[q] && a[q] in a;
      if q + |sep| <= |s| {
        assert s[q..q + |sep|][0] == s[q];
      }
    }
    assert k == |a|;
    assert s[..k] == a;
    assert s[k + |sep|..] == t;
  }

  /** A text without the separator's first character is not split. */
  lemma NoOccurrence(s: string, sep: string)
    requires |sep| > 0 && sep[0] !in s
    ensures Split(s, sep) == [s]
  {
    forall q | 0 <= q <= |s| ensures !OccursAt(s, sep, q) {
      if q + |sep| <= |s| {
        assert s[q] in s;
        assert s[q..q + |sep|][0] == s[q];
      }
    }
  }

  /** `"".join(ls)`. */
  function Concat(ls: seq<string>): (r: string)
    ensures |r| == 0 <==> forall k | 0 <= k < |ls| :: |ls[k]| == 0
    decreases |ls|
  {
    if |ls| == 0 then "" else ls[0] + Concat(ls[1..])
  }

  /** Index of the first occurrence of `p` in `s` at or after `i`. */
  function FindFrom(s: string, p: string, i: nat): (k: nat)
    requires i <= |s|
    ensures i <= k <= |s| + 1
    ensures k <= |s| ==> OccursAt(s, p, k)
    ensures forall q | i <= q < k && q <= |s| :: !OccursAt(s, p, q)
    decreases |s| - i
  {
    if OccursAt(s, p, i) then i
    else if i == |s| then |s| + 1
    else FindFrom(s, p, i + 1)
  }

  /** Python's `s.split(sep)` for a non-empty separator. */
  function Split(s: string, sep: string): (parts: seq<string>)
    requires |sep| > 0
    ensures |parts| >= 1
    decreases |s|
  {
    var k := FindFrom(s, sep, 0);
    if k > |s| then [s]
    else [s[..k]] + Split(s[k + |sep|..], sep)
  }

  /** Python's `str.splitlines()` (no `keepends`). */
  function SplitLines(s: string): (parts: seq<string>)
    ensures forall k | 0 <= k < |parts| :: NoLineBoundary(parts[k])
    decreases |s|
  {
    if |s| == 0 then []
    else
      var k := LineEnd(s, 0);
      if k == |s| then [s]
      else
        [s[..k]] + SplitLines(s[BoundaryEnd(s, k)..])
  }

  /** The end of the line boundary at `k`: "\r\n" counts as one. */
  function BoundaryEnd(s: string, k: nat): (next: nat)
    requires k < |s|
    ensures k < next <= |s|
  {
    if s[k] == '\r' && k + 1 < |s| && s[k + 1] == '\n' then k + 2 else k + 1
  }

  lemma SplitLinesUnfold(s: string, k: nat, next: nat)
    requires |s| > 0 && k == LineEnd(s, 0) < |s| && next == BoundaryEnd(s, k)
    ensures SplitLines(s) == [s[..k]] + SplitLines(s[next..])
  {
  }

  lemma SliceThree(s: string, k: nat, next: nat)
    requires k <= next <= |s|
    ensures s == s[..k] + s[k..next] + s[next..]
  {
  }

  /**
   Lines without boundaries joined by "\n" are split back into those lines,
   as long as the last one is not empty (`"a\n".splitlines()` has no
   trailing empty piece).
   */
  lemma {:induction false} SplitLinesJoin(ls: seq<string>)
    requires |ls| > 0 && ls[|ls| - 1] != []
    requires forall k | 0 <= k < |ls| :: NoLineBoundary(ls[k])
    ensures SplitLines(Join(ls, "\n")) == ls
    decreases |ls|
  {
    var s := Join(ls, "\n");
    if |ls| == 1 {
      assert s[0..|s|] == s;
      LineEndExact(s, 0, |s|);
    } else {
      var rest := ls[1..];
      assert forall k | 0 <= k < |rest| :: rest[k] == ls[k + 1];
      SplitLinesJoin(rest);
      assert s == ls[0] + "\n" + Join(rest, "\n");
      SplitLinesNewline(ls[0], Join(rest, "\n"));
      assert ls == [ls[0]] + rest;
    }
  }

  /** A line without boundaries followed by "\n" is the first piece. */
  lemma SplitLinesNewline(line: string, tail: string)
    requires NoLineBoundary(line)
    ensures SplitLines(line + "\n" + tail) == [line] + SplitLines(tail)
  {
    var s, k := line + "\n" + tail, |line|;
    assert s[0..k] == line && s[k] == '\n';
    LineEndExact(s, 0, k);
    SplitLinesUnfold(s, k, k + 1);
    assert s[..k] == line && s[k + 1..] == tail;
  }

  /** One line boundary as `splitlines` consumes it: "\r\n", or a single boundary character. */
  predicate IsLineBreak(b: string) {
    b == "\r\n" || (|b| == 1 && IsLineBoundary(b[0]))
  }

  /** Each piece followed by its break, all concatenated. */
  function LinesWithBreaks(parts: seq<string>, breaks: seq<string>): string
    requires |parts| == |breaks|
    decreases |parts|
  {
    if |parts| == 0 then "" else parts[0] + breaks[0] + LinesWithBreaks(parts[1..], breaks[1..])
  }

  /**
   `parts` and `breaks` cut `s` into lines: pieces without boundaries, each
   but the last ended by a break, the last by a break or by the end of `s`
   (and then not empty); a lone "\r" is never followed by an empty piece
   ended by "\n", since that "\r\n" is one break.
   */
  predicate LineDecomposition(s: string, parts: seq<string>, breaks: seq<string>) {
    && |breaks| == |parts|
    && (forall k | 0 <= k < |parts| :: NoLineBoundary(parts[k]))
    && (forall k | 0 <= k < |breaks| - 1 :: IsLineBreak(breaks[k]))
    && (|breaks| > 0 ==> IsLineBreak(breaks[|breaks| - 1]) || (breaks[|breaks| - 1] == [] && parts[|parts| - 1] != []))
    && (forall k | 0 <= k < |breaks| - 1 :: breaks[k] == "\r" ==> !(parts[k + 1] == [] && breaks[k + 1] == "\n"))
    && LinesWithBreaks(parts, breaks) == s
  }

  /** The lines `SplitLines` returns, put back together with the breaks it consumed, give `s` again. */
  lemma {:induction false} SplitLinesReassemble(s: string)
    ensures exists breaks :: LineDecomposition(s, SplitLines(s), breaks)
    decreases |s|
  {
    if |s| == 0 {
      assert SplitLines(s) == [];
      DecompositionWitness(s, [], []);
    } else {
      var k := LineEnd(s, 0);
      if k == |s| {
        assert SplitLines(s) == [s];
        assert LinesWithBreaks([s], [[]]) == s;
        DecompositionWitness(s, [s], [[]]);
      } else {
        var next := BoundaryEnd(s, k);
        var rest := s[next..];
        SplitLinesReassemble(rest);
        var breaks' :| LineDecomposition(rest, SplitLines(rest), breaks');
        ReassembleAfterBreak(s, k, next, breaks');
        DecompositionWitness(s, SplitLines(s), [s[k..next]] + breaks');
      }
    }
  }

  /** The first line and its break in front of the decomposition of what follows. */
  lemma ReassembleAfterBreak(s: string, k: nat, next: nat, breaks: seq<string>)
    requires |s| > 0 && k == LineEnd(s, 0) < |s| && next == BoundaryEnd(s, k)
    requires LineDecomposition(s[next..], SplitLines(s[next..]), breaks)
    ensures LineDecomposition(s, SplitLines(s), [s[k..next]] + breaks)
  {
    SplitLinesUnfold(s, k, next);
    SliceThree(s, k, next);
    BoundaryIsBreak(s, k);
    ReassembleCons(s, s[..k], s[k..next], s[next..], SplitLines(s[next..]), breaks);
  }

  /** The boundary at `k` is one break, and a lone "\r" is not followed by "\n". */
  lemma BoundaryIsBreak(s: string, k: nat)
    requires k < |s| && IsLineBoundary(s[k])
    ensures IsLineBreak(s[k..BoundaryEnd(s, k)])
    ensures s[k..BoundaryEnd(s, k)] == "\r" ==> s[BoundaryEnd(s, k)..] == [] || s[BoundaryEnd(s, k)..][0] != '\n'
  {
    if BoundaryEnd(s, k) == k + 2 {
      assert s[k..k + 2] == "\r\n";
    } else {
      assert s[k..k + 1] == [s[k]];
    }
  }

  lemma DecompositionWitness(s: string, parts: seq<string>, breaks: seq<string>)
    requires LineDecomposition(s, parts, breaks)
    ensures exists bs :: LineDecomposition(s, parts, bs)
  {
  }

  /** One more line in front of a decomposition. */
  lemma ReassembleCons(s: string, p: string, b: string, rest: string, parts: seq<string>, breaks: seq<string>)
    requires s == p + b + rest && NoLineBoundary(p) && IsLineBreak(b)
    requires b == "\r" ==> rest == [] || rest[0] != '\n'
    requires LineDecomposition(rest, parts, breaks)
    ensures LineDecomposition(s, [p] + parts, [b] + breaks)
  {
    var ps, bs := [p] + parts, [b] + breaks;
    assert ps[1..] == parts && bs[1..] == breaks;
    forall k | 1 <= k < |ps| ensures ps[k] == parts[k - 1] && bs[k] == breaks[k - 1] {
    }
  }

  /** Index of the first line boundary at or after `i`, or `|s|`. */
  function LineEnd(s: string, i: nat): (k: nat)
    requires i <= |s|
    ensures i <= k <= |s|
    ensures NoLineBoundary(s[i..k])
    ensures k < |s| ==> IsLineBoundary(s[k])
    decreases |s| - i
  {
    if i == |s| || IsLineBoundary(s[i]) then i else LineEnd(s, i + 1)
  }

  /** A stretch without line boundaries ending at one (or at the end) is what `LineEnd` finds. */
  lemma {:induction false} LineEndExact(s: string, i: nat, j: nat)
    requires i <= j <= |s|
    requires NoLineBoundary(s[i..j])
    requires j < |s| ==> IsLineBoundary(s[j])
    ensures LineEnd(s, i) == j
    decreases j - i
  {
    if i < j {
      assert !IsLineBoundary(s[i..j][0]);
      assert s[i + 1..j] == s[i..j][1..];
      LineEndExact(s, i + 1, j);
    }
  }
}
