/**
 The parser's fixed regular expressions, each written out as a deterministic
 matcher that follows Python's backtracking order.  Where a greedy `\s*` or
 `\s+` is followed by a literal that is not whitespace, the run it takes is
 always the maximal one, so `SkipSpace` is exact.

 Every matcher returns what the source reads from the match: the end index
 (for `re.sub` / `re.split`), the groups (for `pubdate_re`), or the matched
 text (for the type and link searches).
 */
module Matchers {
  import opened Wrappers
  import opened Chars
  import opened Strings
  import opened Seqs

  // ---------------------------------------------------------------------------
  // (?m)^\s*Nyheter:\s*\n?      (preprocessing.py line 10)
  // ---------------------------------------------------------------------------

  const HeaderWord: string := "Nyheter:"

  /** `^` under MULTILINE: the start of the text or just after a "\n". */
  predicate AtLineStart(s: string, i: nat) {
    i == 0 || (i <= |s| && s[i - 1] == '\n')
  }

  /** The header pattern matched at `i`, returning the end of the match. */
  function HeaderAt(s: string, i: nat): (e: Option<nat>)
    requires i <= |s|
    ensures e.Some? <==>
      AtLineStart(s, i) && exists j | i <= j <= |s| :: AllSpace(s[i..j]) && OccursAt(s, HeaderWord, j)
    ensures e.Some? ==> i < e.value <= |s|
    ensures e.Some? ==> SkipSpace(s, i) + |HeaderWord| <= e.value
    ensures e.Some? ==> OccursAt(s, HeaderWord, SkipSpace(s, i))
    ensures e.Some? ==> AllSpace(s[SkipSpace(s, i) + |HeaderWord|..e.value])
    ensures e.Some? && e.value < |s| ==> !IsSpace(s[e.value])
  {
    if !AtLineStart(s, i) then None
    else
      var j := SkipSpace(s, i);
      if OccursAt(s, HeaderWord, j) then Some(SkipSpace(s, j + |HeaderWord|))
      else
        assert forall j' | i <= j' <= |s| && AllSpace(s[i..j']) && OccursAt(s, HeaderWord, j') :: false by {
          forall j' | i <= j' <= |s| && AllSpace(s[i..j']) && OccursAt(s, HeaderWord, j')
            ensures false
          {
            assert s[j'] == HeaderWord[0];
            SkipSpaceExact(s, i, j');
          }
        }
        None
  }

  // ---------------------------------------------------------------------------
  // =+\s*\n+      (preprocessing.py line 13)
  // ---------------------------------------------------------------------------

  /** The text a separator match can span: "=" signs, then whitespace ending in "\n". */
  predicate IsSeparatorText(w: string) {
    && |w| >= 2
    && w[0] == '='
    && w[|w| - 1] == '\n'
    && (forall k | 0 <= k < |w| :: w[k] == '=' || IsSpace(w[k]))
    && (forall j, k | 0 <= j < k < |w| :: IsSpace(w[j]) ==> IsSpace(w[k]))
  }

  /** The end of the run of "=" starting at `i`. */
  function EqualsRunEnd(s: string, i: nat): (j: nat)
    requires i <= |s|
    ensures i <= j <= |s|
    ensures forall k | i <= k < j :: s[k] == '='
    ensures j < |s| ==> s[j] != '='
    decreases |s| - i
  {
    if i < |s| && s[i] == '=' then EqualsRunEnd(s, i + 1) else i
  }

  /** The last index in `[lo, hi)` holding "\n". */
  function LastNewline(s: string, lo: nat, hi: nat): (t: Option<nat>)
    requires lo <= hi <= |s|
    ensures t.Some? ==> lo <= t.value < hi && s[t.value] == '\n'
    ensures t.Some? ==> forall k | t.value < k < hi :: s[k] != '\n'
    ensures t.None? ==> forall k | lo <= k < hi :: s[k] != '\n'
    decreases hi - lo
  {
    if hi == lo then None
    else if s[hi - 1] == '\n' then Some(hi - 1)
    else LastNewline(s, lo, hi - 1)
  }

  /** The separator pattern matched at `i`; the end is the one the backtracking engine picks. */
  function SeparatorAt(s: string, i: nat): (e: Option<nat>)
    requires i <= |s|
    ensures e.Some? ==> i < e.value <= |s| && IsSeparatorText(s[i..e.value])
    ensures e.Some? ==> forall c | e.value < c <= |s| :: !IsSeparatorText(s[i..c])
    ensures e.None? ==> forall c | i < c <= |s| :: !IsSeparatorText(s[i..c])
  {
    if i < |s| && s[i] == '=' then
      var a := EqualsRunEnd(s, i);
      var q := SkipSpace(s, a);
      match LastNewline(s, a, q)
      case Some(t) =>
        SeparatorEndsAtLastNewline(s, i, a, q, t);
        Some(t + 1)
      case None =>
        NoSeparatorWithoutNewline(s, i, a, q);
        None
    else
      NoSeparatorWithoutEquals(s, i);
      None
  }

  /** The longest separator text from `i` ends just after the last newline of the whitespace run. */
  lemma SeparatorEndsAtLastNewline(s: string, i: nat, a: nat, q: nat, t: nat)
    requires i < |s| && s[i] == '='
    requires a == EqualsRunEnd(s, i) && q == SkipSpace(s, a)
    requires LastNewline(s, a, q) == Some(t)
    ensures IsSeparatorText(s[i..t + 1])
    ensures forall c | t + 1 < c <= |s| :: !IsSeparatorText(s[i..c])
  {
    SeparatorShape(s, i, a, q);
    SeparatorTextOf(s, i, a, q, t + 1);
  }

  /** Without a newline in the whitespace run after the "=" run, no separator text starts at `i`. */
  lemma NoSeparatorWithoutNewline(s: string, i: nat, a: nat, q: nat)
    requires i < |s| && s[i] == '='
    requires a == EqualsRunEnd(s, i) && q == SkipSpace(s, a)
    requires LastNewline(s, a, q).None?
    ensures forall c | i < c <= |s| :: !IsSeparatorText(s[i..c])
  {
    SeparatorShape(s, i, a, q);
  }

  /** A separator text starts with "=". */
  lemma NoSeparatorWithoutEquals(s: string, i: nat)
    requires i <= |s| && !(i < |s| && s[i] == '=')
    ensures forall c | i < c <= |s| :: !IsSeparatorText(s[i..c])
  {
    forall c | i < c <= |s| ensures !IsSeparatorText(s[i..c]) {
      assert s[i..c][0] == s[i];
    }
  }

  /** Any separator text starting at `i` ends inside the whitespace run after the "=" run. */
  lemma SeparatorShape(s: string, i: nat, a: nat, q: nat)
    requires i < |s| && s[i] == '='
    requires a == EqualsRunEnd(s, i) && q == SkipSpace(s, a)
    ensures forall c | i < c <= |s| && IsSeparatorText(s[i..c]) :: a < c <= q && s[c - 1] == '\n'
  {
    forall c | i < c <= |s| && IsSeparatorText(s[i..c]) ensures a < c <= q && s[c - 1] == '\n' {
      var w := s[i..c];
      assert w[|w| - 1] == s[c - 1];
    }
  }

  lemma SeparatorTextOf(s: string, i: nat, a: nat, q: nat, c: nat)
    requires i < a < c <= q <= |s|
    requires forall k | i <= k < a :: s[k] == '='
    requires AllSpace(s[a..q])
    requires s[c - 1] == '\n'
    ensures IsSeparatorText(s[i..c])
  {
    var w := s[i..c];
    forall k | 0 <= k < |w| ensures w[k] == '=' || IsSpace(w[k]) {
      if k < a - i { assert w[k] == s[i + k]; } else { assert w[k] == s[a..q][i + k - a]; }
    }
    forall j, k | 0 <= j < k < |w| && IsSpace(w[j]) ensures IsSpace(w[k]) {
      assert w[j] == s[i + j];
      assert w[k] == s[a..q][i + k - a];
    }
  }

  // ---------------------------------------------------------------------------
  // ^(?P<publisher>[\wÅÄÖåäöéÉüÜöÖæÆøØçÇ\.\-&\s]+?),\s*
  //   (?P<date>\d{4}-\d{2}-\d{2}(?:\s*\d{2}:\d{2})?)\s*$      (preprocessing.py line 19)
  // ---------------------------------------------------------------------------

  datatype PubDate = PubDate(publisher: string, date: string)

  predicate IsPublisherChar(c: char) {
    IsWordChar(c) || c in "ÅÄÖåäöéÉüÜöÖæÆøØçÇ" || c == '.' || c == '-' || c == '&' || IsSpace(c)
  }

  predicate AllPublisherChars(w: string) {
    forall k | 0 <= k < |w| :: IsPublisherChar(w[k])
  }

  /** `\d{4}-\d{2}-\d{2}` */
  predicate IsIsoDate(w: string) {
    && |w| == 10
    && IsDigit(w[0]) && IsDigit(w[1]) && IsDigit(w[2]) && IsDigit(w[3])
    && w[4] == '-' && IsDigit(w[5]) && IsDigit(w[6])
    && w[7] == '-' && IsDigit(w[8]) && IsDigit(w[9])
  }

  /** `\d{2}:\d{2}` */
  predicate IsClock(w: string) {
    |w| == 5 && IsDigit(w[0]) && IsDigit(w[1]) && w[2] == ':' && IsDigit(w[3]) && IsDigit(w[4])
  }

  /** The text the `date` group can hold: a date, optionally followed by whitespace and a clock time. */
  predicate IsDateText(w: string) {
    || IsIsoDate(w)
    || (|w| >= 15 && IsIsoDate(w[..10]) && AllSpace(w[10..|w| - 5]) && IsClock(w[|w| - 5..]))
  }

  /** The end of the run of publisher-class characters starting at `i`. */
  function PublisherRunEnd(s: string, i: nat): (j: nat)
    requires i <= |s|
    ensures i <= j <= |s|
    ensures AllPublisherChars(s[i..j])
    ensures j < |s| ==> !IsPublisherChar(s[j])
    decreases |s| - i
  {
    if i < |s| && IsPublisherChar(s[i]) then
      var j := PublisherRunEnd(s, i + 1);
      assert s[i..j] == [s[i]] + s[i + 1..j];
      j
    else i
  }

  /** How a line lies around a publisher/date match: the comma at `c`, the date group from `d`. */
  predicate PubDateLayout(l: string, c: nat, d: nat, m: PubDate) {
    && 0 < c < d
    && d + |m.date| <= |l|
    && l[c] == ','
    && AllPublisherChars(l[..c])
    && m.publisher == Strip(l[..c])
    && AllSpace(l[c + 1..d])
    && l[d..d + |m.date|] == m.date
    && AllSpace(l[d + |m.date|..])
  }

  /**
   The end of the `date` group when `\d{4}-\d{2}-\d{2}` matches at `d`: the
   optional time is tried first, and either way `\s*$` must reach the end.
   */
  function DateGroupEnd(l: string, d: nat): (e: Option<nat>)
    requires d <= |l|
    ensures e.Some? ==> d + 10 <= e.value <= |l| && IsDateText(l[d..e.value]) && AllSpace(l[e.value..])
  {
    if !(d + 10 <= |l| && IsIsoDate(l[d..d + 10])) then None
    else
      var t := SkipSpace(l, d + 10);
      if t + 5 <= |l| && IsClock(l[t..t + 5]) && AllSpace(l[t + 5..]) then
        LongDateText(l, d, t);
        Some(t + 5)
      else if AllSpace(l[d + 10..]) then Some(d + 10)
      else None
  }

  /** A date, whitespace and a clock time, read as one date text. */
  lemma LongDateText(l: string, d: nat, t: nat)
    requires d + 10 <= t && t + 5 <= |l|
    requires IsIsoDate(l[d..d + 10]) && AllSpace(l[d + 10..t]) && IsClock(l[t..t + 5])
    ensures IsDateText(l[d..t + 5])
  {
    var w := l[d..t + 5];
    assert w[..10] == l[d..d + 10];
    var mid := w[10..|w| - 5];
    forall q | 0 <= q < |mid| ensures IsSpace(mid[q]) {
      assert mid[q] == l[d + 10 + q] == l[d + 10..t][q];
    }
    assert w[|w| - 5..] == l[t..t + 5];
  }

  /**
   `pubdate_re.match(line)` followed by `.strip()` of both groups.  The lazy
   publisher group can only end at the first comma, since "," is outside its class.
   */
  function MatchPubDate(l: string): (m: Option<PubDate>)
    ensures m.Some? ==> ',' !in m.value.publisher && AllPublisherChars(m.value.publisher)
    ensures m.Some? ==> IsDateText(m.value.date)
    ensures m.Some? ==> exists c, d :: PubDateLayout(l, c, d, m.value)
  {
    var c := PublisherRunEnd(l, 0);
    if c == 0 || c == |l| || l[c] != ',' then None
    else
      var d := SkipSpace(l, c + 1);
      match DateGroupEnd(l, d)
      case None => None
      case Some(e) =>
        PubDateGroups(l, c, d, e);
        Some(PubDate(Strip(l[..c]), Strip(l[d..e])))
  }

  lemma PubDateGroups(l: string, c: nat, d: nat, e: nat)
    requires 0 < c < |l| && l[c] == ',' && AllPublisherChars(l[0..c])
    requires c + 1 <= d <= e <= |l| && AllSpace(l[c + 1..d])
    requires IsDateText(l[d..e]) && AllSpace(l[e..])
    ensures Strip(l[d..e]) == l[d..e]
    ensures AllPublisherChars(Strip(l[..c])) && ',' !in Strip(l[..c])
    ensures PubDateLayout(l, c, d, PubDate(Strip(l[..c]), l[d..e]))
  {
    DateTextIsTrimmed(l[d..e]);
    StripOfTrimmed(l[d..e]);
    assert l[..c] == l[0..c];
    StripKeepsPublisherChars(l[..c]);
  }

  lemma DateTextIsTrimmed(w: string)
    requires IsDateText(w)
    ensures IsTrimmed(w)
  {
    if !IsIsoDate(w) {
      assert w[|w| - 5..][4] == w[|w| - 1];
    }
  }

  lemma StripKeepsPublisherChars(w: string)
    requires AllPublisherChars(w)
    ensures AllPublisherChars(Strip(w)) && ',' !in Strip(w)
  {
    var r := Strip(w);
    SubsetKeepsPublisherChars(w, r);
    CommaIsNotPublisherChar();
  }

  lemma SubsetKeepsPublisherChars(w: string, r: string)
    requires AllPublisherChars(w)
    requires forall c | c in r :: c in w
    ensures AllPublisherChars(r)
  {
    forall k | 0 <= k < |r| ensures IsPublisherChar(r[k]) {
      assert r[k] in w;
    }
  }

  lemma CommaIsNotPublisherChar()
    ensures !IsPublisherChar(',')
  {
  }

  // ---------------------------------------------------------------------------
  // Publicerat\s+(på|i)\s+(\w+)      (preprocessing.py lines 63 and 69)
  // ---------------------------------------------------------------------------

  const PublishedWord: string := "Publicerat"

  /** One or more `\w` characters. */
  predicate IsWord(w: string) {
    |w| > 0 && forall k | 0 <= k < |w| :: IsWordChar(w[k])
  }

  /** The value the source builds from the two groups: "på <word>" or "i <word>". */
  predicate IsPublicationType(v: string) {
    || (StartsWith(v, "på ") && IsWord(v[3..]))
    || (StartsWith(v, "i ") && IsWord(v[2..]))
  }

  /** The end of the run of word characters starting at `i`. */
  function WordRunEnd(s: string, i: nat): (j: nat)
    requires i <= |s|
    ensures i <= j <= |s|
    ensures forall k | i <= k < j :: IsWordChar(s[k])
    ensures j < |s| ==> !IsWordChar(s[j])
    decreases |s| - i
  {
    if i < |s| && IsWordChar(s[i]) then WordRunEnd(s, i + 1) else i
  }

  /** A non-empty run of word characters is a word. */
  lemma WordRunIsWord(s: string, k: nat, e: nat)
    requires k < e <= |s| && forall q | k <= q < e :: IsWordChar(s[q])
    ensures IsWord(s[k..e])
  {
    forall q | 0 <= q < e - k ensures IsWordChar(s[k..e][q]) {
      assert s[k..e][q] == s[k + q];
    }
  }

  /**
   The publication-type pattern matched at `i`, giving `f"{group1} {group2}"`.
   The first `\s+` must stop at "p" or "i" and the second at a word character,
   so both take the maximal whitespace run; the alternatives start with
   different letters, so at most one applies.
   */
  function PubTypeAt(s: string, i: nat): (v: Option<string>)
    requires i <= |s|
    ensures v.Some? ==> IsPublicationType(v.value)
    ensures v.Some? ==> OccursAt(s, PublishedWord, i) && i + |PublishedWord| < |s| && IsSpace(s[i + |PublishedWord|])
  {
    if !OccursAt(s, PublishedWord, i) then None
    else
      var j := SkipSpace(s, i + |PublishedWord|);
      if j == i + |PublishedWord| then None
      else
        var prep := if OccursAt(s, "på", j) then "på" else if OccursAt(s, "i", j) then "i" else "";
        if prep == "" then None
        else
          var k := SkipSpace(s, j + |prep|);
          if k == j + |prep| then None
          else
            var e := WordRunEnd(s, k);
            if e == k then None
            else
              var v := prep + " " + s[k..e];
              assert v[..|prep| + 1] == prep + " ";
              assert v[|prep| + 1..] == s[k..e];
              WordRunIsWord(s, k, e);
              Some(v)
  }

  /**
   One way the pattern can lie at `i`: "Publicerat", whitespace up to `j`,
   the word `prep`, whitespace up to `k`, and the word characters `s[k..e]`.
   */
  predicate PubTypeParse(s: string, i: nat, j: nat, prep: string, k: nat, e: nat) {
    && OccursAt(s, PublishedWord, i)
    && i + |PublishedWord| < j <= |s|
    && AllSpace(s[i + |PublishedWord|..j])
    && (prep == "på" || prep == "i")
    && OccursAt(s, prep, j)
    && j + |prep| < k <= e <= |s|
    && AllSpace(s[j + |prep|..k])
    && IsWord(s[k..e])
  }

  /**
   `PubTypeAt` succeeds exactly when the pattern can lie at `i`, and then its
   value is the preposition, a space and the whole word run (the greedy
   `\w+` stops only where the word characters end).
   */
  lemma PubTypeAtExact(s: string, i: nat)
    requires i <= |s|
    ensures PubTypeAt(s, i).Some? <==> exists j: nat, prep: string, k: nat, e: nat :: PubTypeParse(s, i, j, prep, k, e)
    ensures PubTypeAt(s, i).Some? ==> exists j: nat, prep: string, k: nat, e: nat ::
      && PubTypeParse(s, i, j, prep, k, e)
      && (e == |s| || !IsWordChar(s[e]))
      && PubTypeAt(s, i).value == prep + " " + s[k..e]
  {
    if PubTypeAt(s, i).Some? {
      PubTypeAtSound(s, i);
    }
    if exists j: nat, prep: string, k: nat, e: nat :: PubTypeParse(s, i, j, prep, k, e) {
      var j: nat, prep: string, k: nat, e: nat :| PubTypeParse(s, i, j, prep, k, e);
      PubTypeAtComplete(s, i, j, prep, k, e);
    }
  }

  /** The value `PubTypeAt` returns comes from a parse whose word run is maximal. */
  lemma PubTypeAtSound(s: string, i: nat)
    requires i <= |s| && PubTypeAt(s, i).Some?
    ensures exists j: nat, prep: string, k: nat, e: nat ::
      && PubTypeParse(s, i, j, prep, k, e)
      && (e == |s| || !IsWordChar(s[e]))
      && PubTypeAt(s, i).value == prep + " " + s[k..e]
  {
    var j := SkipSpace(s, i + |PublishedWord|);
    var prep := if OccursAt(s, "på", j) then "på" else "i";
    var k := SkipSpace(s, j + |prep|);
    var e := WordRunEnd(s, k);
    PubTypeAtSome(s, i, j, prep, k, e);
    WordRunIsWord(s, k, e);
    assert PubTypeParse(s, i, j, prep, k, e);
    PubTypeWitness(s, i, j, prep, k, e, PubTypeAt(s, i).value);
  }

  /** A parse with a maximal word run that spells `v`. */
  lemma PubTypeWitness(s: string, i: nat, j: nat, prep: string, k: nat, e: nat, v: string)
    requires PubTypeParse(s, i, j, prep, k, e) && (e == |s| || !IsWordChar(s[e]))
    requires v == prep + " " + s[k..e]
    ensures exists j: nat, prep: string, k: nat, e: nat ::
      && PubTypeParse(s, i, j, prep, k, e)
      && (e == |s| || !IsWordChar(s[e]))
      && v == prep + " " + s[k..e]
  {
  }

  /** The positions `PubTypeAt` passes through when it succeeds. */
  lemma PubTypeAtSome(s: string, i: nat, j: nat, prep: string, k: nat, e: nat)
    requires i <= |s| && PubTypeAt(s, i).Some?
    requires i + |PublishedWord| <= |s| && j == SkipSpace(s, i + |PublishedWord|)
    requires prep == (if OccursAt(s, "på", j) then "på" else "i")
    requires j + |prep| <= |s| && k == SkipSpace(s, j + |prep|) && e == WordRunEnd(s, k)
    ensures OccursAt(s, PublishedWord, i) && i + |PublishedWord| < j
    ensures OccursAt(s, prep, j) && j + |prep| < k < e
    ensures PubTypeAt(s, i).value == prep + " " + s[k..e]
  {
    assert OccursAt(s, PublishedWord, i);
    assert j != i + |PublishedWord|;
    assert OccursAt(s, "på", j) || OccursAt(s, "i", j);
    assert k != j + |prep|;
    assert e != k;
  }

  /** Every parse of the pattern at `i` is found by `PubTypeAt`. */
  lemma PubTypeAtComplete(s: string, i: nat, j: nat, prep: string, k: nat, e: nat)
    requires PubTypeParse(s, i, j, prep, k, e)
    ensures PubTypeAt(s, i).Some?
  {
    assert s[j] == prep[0];
    SkipSpaceExact(s, i + |PublishedWord|, j);
    if prep == "i" {
      assert !OccursAt(s, "på", j);
    }
    assert IsWordChar(s[k..e][0]);
    WordCharIsNotSpace(s[k]);
    SkipSpaceExact(s, j + |prep|, k);
  }

  /** `PubTypeAt` at every position `0..|s|`. */
  function PubTypeMatches(s: string): (ms: seq<Option<string>>)
    ensures |ms| == |s| + 1
    ensures forall q | 0 <= q <= |s| :: ms[q] == PubTypeAt(s, q)
  {
    seq(|s| + 1, q requires 0 <= q <= |s| => PubTypeAt(s, q))
  }

  /** Python's `re.search(pattern, s)` from index `i`: the first position where the pattern matches. */
  function SearchPubType(s: string, i: nat): (r: Option<(nat, string)>)
    requires i <= |s|
    ensures r.Some? ==> i <= r.value.0 <= |s| && PubTypeAt(s, r.value.0) == Some(r.value.1)
    ensures r.Some? ==> forall q | i <= q < r.value.0 :: PubTypeAt(s, q).None?
    ensures r.None? ==> forall q | i <= q <= |s| :: PubTypeAt(s, q).None?
  {
    FirstSome(PubTypeMatches(s), i, |s| + 1)
  }

  predicate HasPubType(s: string) {
    SearchPubType(s, 0).Some?
  }

  // ---------------------------------------------------------------------------
  // (https?://[^\s]+)      (preprocessing.py line 78)
  // ---------------------------------------------------------------------------

  predicate IsUrlStart(s: string, i: nat) {
    OccursAt(s, "http://", i) || OccursAt(s, "https://", i)
  }

  /** The end of the run of non-whitespace characters starting at `i`. */
  function NonSpaceRunEnd(s: string, i: nat): (j: nat)
    requires i <= |s|
    ensures i <= j <= |s|
    ensures NoSpace(s[i..j])
    ensures j < |s| ==> IsSpace(s[j])
    decreases |s| - i
  {
    if i < |s| && !IsSpace(s[i]) then
      var j := NonSpaceRunEnd(s, i + 1);
      assert s[i..j] == [s[i]] + s[i + 1..j];
      j
    else i
  }

  /** The link pattern matched at `i`, followed by the source's `.strip()`. */
  function LinkAt(s: string, i: nat): (u: Option<string>)
    requires i <= |s|
    ensures u.Some? <==>
      || (OccursAt(s, "https://", i) && i + 8 < |s| && !IsSpace(s[i + 8]))
      || (OccursAt(s, "http://", i) && i + 7 < |s| && !IsSpace(s[i + 7]))
    ensures u.Some? ==> IsUrlStart(u.value, 0) && NoSpace(u.value) && OccursAt(s, u.value, i)
    ensures u.Some? ==> i + |u.value| == |s| || IsSpace(s[i + |u.value|])
  {
    SchemesExclusive(s, i);
    var k := if OccursAt(s, "https://", i) then i + 8 else if OccursAt(s, "http://", i) then i + 7 else i;
    if k == i then None
    else
      var e := NonSpaceRunEnd(s, k);
      if e == k then None
      else
        LinkMatch(s, i, k, e);
        Some(Strip(s[i..e]))
  }

  lemma LinkMatch(s: string, i: nat, k: nat, e: nat)
    requires (k == i + 8 && OccursAt(s, "https://", i)) || (k == i + 7 && OccursAt(s, "http://", i))
    requires k < e <= |s| && NoSpace(s[k..e])
    ensures NoSpace(s[i..e]) && Strip(s[i..e]) == s[i..e]
    ensures IsUrlStart(s[i..e], 0) && OccursAt(s, s[i..e], i)
  {
    var w := s[i..e];
    LinkNoSpace(s, i, k, e);
    NoSpaceIsTrimmed(w);
    StripOfTrimmed(w);
    assert w[..k - i] == s[i..k];
  }

  /** A scheme followed by non-whitespace has no whitespace. */
  lemma LinkNoSpace(s: string, i: nat, k: nat, e: nat)
    requires (k == i + 8 && OccursAt(s, "https://", i)) || (k == i + 7 && OccursAt(s, "http://", i))
    requires k < e <= |s| && NoSpace(s[k..e])
    ensures NoSpace(s[i..e])
  {
    var w := s[i..e];
    forall q | 0 <= q < |w| ensures !IsSpace(w[q]) {
      if i + q >= k { assert w[q] == s[k..e][i + q - k]; }
      else if k == i + 8 { assert w[q] == s[i..i + 8][q] == "https://"[q]; }
      else { assert w[q] == s[i..i + 7][q] == "http://"[q]; }
    }
  }

  /** "https://" and "http://" differ at their fifth character, so they never both start at `i`. */
  lemma SchemesExclusive(s: string, i: nat)
    ensures !(OccursAt(s, "https://", i) && OccursAt(s, "http://", i))
  {
    if OccursAt(s, "https://", i) {
      assert s[i..i + 7] == s[i..i + 8][..7] == "https:/";
    }
  }

  /** `LinkAt` at every position `0..|s|`. */
  function LinkMatches(s: string): (ms: seq<Option<string>>)
    ensures |ms| == |s| + 1
    ensures forall q | 0 <= q <= |s| :: ms[q] == LinkAt(s, q)
  {
    seq(|s| + 1, q requires 0 <= q <= |s| => LinkAt(s, q))
  }

  /** `re.search` for the link pattern from index `i`. */
  function SearchLink(s: string, i: nat): (r: Option<(nat, string)>)
    requires i <= |s|
    ensures r.Some? ==> i <= r.value.0 <= |s| && LinkAt(s, r.value.0) == Some(r.value.1)
    ensures r.Some? ==> forall q | i <= q < r.value.0 :: LinkAt(s, q).None?
    ensures r.None? ==> forall q | i <= q <= |s| :: LinkAt(s, q).None?
  {
    FirstSome(LinkMatches(s), i, |s| + 1)
  }

  // ---------------------------------------------------------------------------
  // Body-line tests      (preprocessing.py lines 98, 101 and 104)
  // ---------------------------------------------------------------------------

  /**
   `ln.lower().startswith(p)` for an all-lower-case ASCII `p`, written as a
   comparison of the first `|p|` characters after ASCII lowering. Besides the
   ASCII capitals, only U+0130 lowers onto a letter of "bildtext": it becomes
   "i" followed by U+0307, and U+0307 is not a letter of "bildtext". So for
   that `p` both give the same answer.
   */
  predicate StartsWithCaseless(l: string, p: string) {
    |p| <= |l| && forall k | 0 <= k < |p| :: ToLowerAscii(l[k]) == p[k]
  }

  /** The line that ends the body scan: copyright, rights notice or picture caption. */
  predicate IsStopLine(l: string) {
    StartsWith(l, "©") || Contains(l, "Alla artiklar") || StartsWithCaseless(l, "bildtext")
  }

  const WebArticleWord: string := "Se webartikeln på"

  /** `re.search(r"Se webartikeln på\s*http", ln)` */
  predicate IsWebArticleLine(l: string) {
    exists i | 0 <= i <= |l| :: OccursAt(l, WebArticleWord, i) && OccursAt(l, "http", SkipSpace(l, i + |WebArticleWord|))
  }

  /** `re.match(r"https?://", ln)`: the line STARTS with a URL scheme. */
  predicate IsUrlLine(l: string) {
    IsUrlStart(l, 0)
  }

  /** A line the body keeps unless it comes at or after the stop line. */
  predicate IsBodyLine(l: string) {
    !IsWebArticleLine(l) && !IsUrlLine(l)
  }
}
