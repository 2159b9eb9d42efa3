/**
 Python's `re.sub(pattern, "", s)` and `re.split(pattern, s)` for the two
 patterns the parser applies to a whole export: both scan for leftmost,
 non-overlapping matches, resuming the search where the previous match ended.
 Neither pattern can match the empty string, so the scan always advances.
 */
module Scanner {
  import opened Wrappers
  import opened Strings
  import opened Matchers

  /** The header line pattern (line 10) and the article separator (line 13). */
  datatype Pattern = NewsHeader | ArticleSeparator

  function MatchAt(p: Pattern, s: string, i: nat): (e: Option<nat>)
    requires i <= |s|
    ensures e.Some? ==> i < e.value <= |s|
  {
    match p
    case NewsHeader => HeaderAt(s, i)
    case ArticleSeparator => SeparatorAt(s, i)
  }

  /** A match occupying `s[lo..hi]`. */
  datatype Span = Span(lo: nat, hi: nat)

  /** Non-empty spans, in order and not overlapping, all inside `s[from..]`. */
  predicate Ordered(s: string, spans: seq<Span>, from: nat)
    decreases |spans|
  {
    && from <= |s|
    && (|spans| > 0 ==> from <= spans[0].lo < spans[0].hi <= |s| && Ordered(s, spans[1..], spans[0].hi))
  }

  predicate Covered(spans: seq<Span>, q: nat) {
    exists k | 0 <= k < |spans| :: spans[k].lo <= q < spans[k].hi
  }

  /**
   The matches `re.finditer` reports from index `i`: each span is a match, and
   every position the scan does not skip over is one where the pattern fails.
   */
  function Scan(p: Pattern, s: string, i: nat): (spans: seq<Span>)
    requires i <= |s|
    ensures Ordered(s, spans, i)
    ensures forall k | 0 <= k < |spans| :: i <= spans[k].lo < spans[k].hi <= |s|
    ensures forall k | 0 <= k < |spans| :: MatchAt(p, s, spans[k].lo) == Some(spans[k].hi)
    ensures forall q | i <= q <= |s| && !Covered(spans, q) :: MatchAt(p, s, q).None?
    decreases |s| - i
  {
    if i == |s| then []
    else
      match MatchAt(p, s, i)
      case Some(e) =>
        var rest := Scan(p, s, e);
        ScanCons(p, s, i, e, rest);
        [Span(i, e)] + rest
      case None =>
        var rest := Scan(p, s, i + 1);
        ScanSkip(p, s, i, rest);
        rest
  }

  /** The facts `Scan` promises, carried from the rest of the scan back over one position where nothing matches. */
  lemma ScanSkip(p: Pattern, s: string, i: nat, rest: seq<Span>)
    requires i < |s| && MatchAt(p, s, i).None?
    requires Ordered(s, rest, i + 1)
    requires forall k | 0 <= k < |rest| :: i + 1 <= rest[k].lo < rest[k].hi <= |s|
    requires forall q | i + 1 <= q <= |s| && !Covered(rest, q) :: MatchAt(p, s, q).None?
    ensures Ordered(s, rest, i)
    ensures forall k | 0 <= k < |rest| :: i <= rest[k].lo < rest[k].hi <= |s|
    ensures forall q | i <= q <= |s| && !Covered(rest, q) :: MatchAt(p, s, q).None?
  {
  }

  /** The facts `Scan` promises, carried from the rest of the scan to one more match in front. */
  lemma ScanCons(p: Pattern, s: string, i: nat, e: nat, rest: seq<Span>)
    requires i < e <= |s| && MatchAt(p, s, i) == Some(e)
    requires Ordered(s, rest, e)
    requires forall k | 0 <= k < |rest| :: e <= rest[k].lo < rest[k].hi <= |s|
    requires forall k | 0 <= k < |rest| :: MatchAt(p, s, rest[k].lo) == Some(rest[k].hi)
    requires forall q | e <= q <= |s| && !Covered(rest, q) :: MatchAt(p, s, q).None?
    ensures var spans := [Span(i, e)] + rest;
      && Ordered(s, spans, i)
      && (forall k | 0 <= k < |spans| :: i <= spans[k].lo < spans[k].hi <= |s|)
      && (forall k | 0 <= k < |spans| :: MatchAt(p, s, spans[k].lo) == Some(spans[k].hi))
      && (forall q | i <= q <= |s| && !Covered(spans, q) :: MatchAt(p, s, q).None?)
  {
    ScanConsSpans(p, s, i, e, rest);
    ScanConsUncovered(p, s, i, e, rest);
  }

  lemma ScanConsSpans(p: Pattern, s: string, i: nat, e: nat, rest: seq<Span>)
    requires i < e <= |s| && MatchAt(p, s, i) == Some(e)
    requires Ordered(s, rest, e)
    requires forall k | 0 <= k < |rest| :: e <= rest[k].lo < rest[k].hi <= |s|
    requires forall k | 0 <= k < |rest| :: MatchAt(p, s, rest[k].lo) == Some(rest[k].hi)
    ensures var spans := [Span(i, e)] + rest;
      && Ordered(s, spans, i)
      && (forall k | 0 <= k < |spans| :: i <= spans[k].lo < spans[k].hi <= |s|)
      && (forall k | 0 <= k < |spans| :: MatchAt(p, s, spans[k].lo) == Some(spans[k].hi))
  {
    var spans := [Span(i, e)] + rest;
    assert spans[1..] == rest;
    forall k | 1 <= k < |spans| ensures spans[k] == rest[k - 1] {
    }
  }

  lemma ScanConsUncovered(p: Pattern, s: string, i: nat, e: nat, rest: seq<Span>)
    requires i < e <= |s|
    requires forall q | e <= q <= |s| && !Covered(rest, q) :: MatchAt(p, s, q).None?
    ensures forall q | i <= q <= |s| && !Covered([Span(i, e)] + rest, q) :: MatchAt(p, s, q).None?
  {
    var spans := [Span(i, e)] + rest;
    forall q | i <= q < e ensures Covered(spans, q) {
      assert spans[0].lo <= q < spans[0].hi;
    }
    forall q | e <= q <= |s| && Covered(rest, q) ensures Covered(spans, q) {
      var k :| 0 <= k < |rest| && rest[k].lo <= q < rest[k].hi;
      assert spans[k + 1] == rest[k];
    }
  }

  /** The text between the spans: `re.split`'s result (the patterns have no groups). */
  function Pieces(s: string, spans: seq<Span>, from: nat): (parts: seq<string>)
    requires Ordered(s, spans, from)
    ensures |parts| == |spans| + 1
    decreases |spans|
  {
    if |spans| == 0 then [s[from..]]
    else [s[from..spans[0].lo]] + Pieces(s, spans[1..], spans[0].hi)
  }

  /** The matched texts themselves. */
  function Matched(s: string, spans: seq<Span>, from: nat): (texts: seq<string>)
    requires Ordered(s, spans, from)
    ensures |texts| == |spans|
    decreases |spans|
  {
    if |spans| == 0 then []
    else [s[spans[0].lo..spans[0].hi]] + Matched(s, spans[1..], spans[0].hi)
  }

  /** `pieces[0] + seps[0] + pieces[1] + ... + pieces[n]`. */
  function Interleave(pieces: seq<string>, seps: seq<string>): string
    requires |pieces| == |seps| + 1
    decreases |seps|
  {
    if |seps| == 0 then pieces[0]
    else pieces[0] + seps[0] + Interleave(pieces[1..], seps[1..])
  }

  /** Putting the matched texts back between the pieces gives back the scanned text. */
  lemma {:induction false} PiecesReassemble(s: string, spans: seq<Span>, from: nat)
    requires Ordered(s, spans, from)
    ensures Interleave(Pieces(s, spans, from), Matched(s, spans, from)) == s[from..]
    decreases |spans|
  {
    if |spans| > 0 {
      var sp := spans[0];
      PiecesReassemble(s, spans[1..], sp.hi);
      assert Pieces(s, spans, from)[1..] == Pieces(s, spans[1..], sp.hi);
      assert Matched(s, spans, from)[1..] == Matched(s, spans[1..], sp.hi);
      assert s[from..] == s[from..sp.lo] + s[sp.lo..sp.hi] + s[sp.hi..];
    }
  }

  /** `re.split(pattern, s)`. */
  function SplitOn(p: Pattern, s: string): seq<string> {
    Pieces(s, Scan(p, s, 0), 0)
  }

  /** `re.sub(pattern, "", s)`. */
  function Remove(p: Pattern, s: string): string {
    Concat(SplitOn(p, s))
  }

  /**
   What `Remove` and `SplitOn` cut out of a text are exactly the leftmost
   non-overlapping matches, and re-inserting them restores the text.
   */
  lemma {:induction false} RemoveCutsOnlyMatches(p: Pattern, s: string)
    ensures var spans := Scan(p, s, 0);
      && Remove(p, s) == Concat(SplitOn(p, s))
      && Interleave(SplitOn(p, s), Matched(s, spans, 0)) == s
      && (forall k | 0 <= k < |spans| :: MatchAt(p, s, spans[k].lo) == Some(spans[k].hi))
      && (forall q | 0 <= q <= |s| && !Covered(spans, q) :: MatchAt(p, s, q).None?)
  {
    PiecesReassemble(s, Scan(p, s, 0), 0);
    assert s[0..] == s;
  }

  /** A text in which the pattern matches nowhere comes through `re.sub` unchanged. */
  lemma {:induction false} RemoveWithoutMatch(p: Pattern, s: string)
    requires forall q | 0 <= q <= |s| :: MatchAt(p, s, q).None?
    ensures Remove(p, s) == s
    ensures SplitOn(p, s) == [s]
  {
    assert s[0..] == s;
    assert Concat([s]) == s + Concat([]);
  }
}
