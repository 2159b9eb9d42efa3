/**
 `parse_articles_from_file` without the file read and the DataFrame: from the
 raw text of one export to the list of article records, block by block.
 */
module Parser {
  import opened Wrappers
  import opened Chars
  import opened Strings
  import opened Seqs
  import opened Matchers
  import opened Scanner

  /** One parsed article: the six columns of the output table. */
  datatype Article = Article(
    title: string,
    publisher: Option<string>,
    date: Option<string>,
    publicationType: Option<string>,
    text: string,
    link: Option<string>)

  // ---------------------------------------------------------------------------
  // From the export text to blocks and lines (lines 9-14 and 23)
  // ---------------------------------------------------------------------------

  /** Every piece is whitespace only. */
  predicate AllBlank(parts: seq<string>) {
    forall k | 0 <= k < |parts| :: AllSpace(parts[k])
  }

  /** `[x.strip() for x in parts if x.strip()]`, used for blocks and for lines. */
  function StrippedNonBlank(parts: seq<string>): (r: seq<string>)
    ensures |r| <= |parts|
    ensures forall k | 0 <= k < |r| :: r[k] != [] && IsTrimmed(r[k])
    ensures r == [] <==> AllBlank(parts)
    decreases |parts|
  {
    if |parts| == 0 then []
    else
      var t := Strip(parts[0]);
      var rest := StrippedNonBlank(parts[1..]);
      assert forall k | 1 <= k < |parts| :: parts[k] == parts[1..][k - 1];
      if t == [] then rest else [t] + rest
  }

  /** Pieces that are already non-empty and stripped come through the comprehension unchanged. */
  lemma {:induction false} StrippedNonBlankOfTrimmed(parts: seq<string>)
    requires forall k | 0 <= k < |parts| :: parts[k] != [] && IsTrimmed(parts[k])
    ensures StrippedNonBlank(parts) == parts
    decreases |parts|
  {
    if |parts| > 0 {
      StripOfTrimmed(parts[0]);
      assert forall k | 0 <= k < |parts[1..]| :: parts[1..][k] == parts[k + 1];
      StrippedNonBlankOfTrimmed(parts[1..]);
      assert parts == [parts[0]] + parts[1..];
    }
  }

  /** Every piece stripped, blank or not. */
  function StripAll(parts: seq<string>): (r: seq<string>)
    ensures |r| == |parts|
    ensures forall k | 0 <= k < |parts| :: r[k] == Strip(parts[k])
    decreases |parts|
  {
    if |parts| == 0 then []
    else
      var rest := StripAll(parts[1..]);
      var r := [Strip(parts[0])] + rest;
      forall k | 1 <= k < |parts| ensures r[k] == Strip(parts[k]) {
        assert r[k] == rest[k - 1] && parts[k] == parts[1..][k - 1];
      }
      r
  }

  /**
   The comprehension keeps the stripped pieces in order and drops exactly the
   empty ones: every occurrence of a non-empty stripped piece is kept.
   */
  lemma {:induction false} StrippedNonBlankIsFilter(parts: seq<string>)
    ensures IsSubsequence(StrippedNonBlank(parts), StripAll(parts))
    ensures forall x :: x in StrippedNonBlank(parts) <==> x in StripAll(parts) && x != []
    ensures forall x :: multiset(StrippedNonBlank(parts))[x] == if x != [] then multiset(StripAll(parts))[x] else 0
    decreases |parts|
  {
    if |parts| > 0 {
      var rest := parts[1..];
      StrippedNonBlankIsFilter(rest);
      assert StripAll(parts) == [Strip(parts[0])] + StripAll(rest);
      StrippedNonBlankCons(parts);
      if Strip(parts[0]) == [] {
        SkipSubsequence(Strip(parts[0]), StrippedNonBlank(rest), StripAll(rest));
      } else {
        ConsSubsequence(Strip(parts[0]), StrippedNonBlank(rest), StripAll(rest));
      }
    }
  }

  /** One step of the comprehension. */
  lemma StrippedNonBlankCons(parts: seq<string>)
    requires |parts| > 0
    ensures StrippedNonBlank(parts) == if Strip(parts[0]) == [] then StrippedNonBlank(parts[1..])
      else [Strip(parts[0])] + StrippedNonBlank(parts[1..])
  {
  }

  /** Line 10: `re.sub(r"(?m)^\s*Nyheter:\s*\n?", "", raw)`. */
  function RemoveNewsHeader(raw: string): string {
    Remove(NewsHeader, raw)
  }

  /** Lines 13-14: split on the "=" separators, strip, drop the blank pieces. */
  function SplitArticles(text: string): (blocks: seq<string>)
    ensures forall k | 0 <= k < |blocks| :: blocks[k] != [] && IsTrimmed(blocks[k])
  {
    StrippedNonBlank(SplitOn(ArticleSeparator, text))
  }

  /** Line 23: the stripped, non-blank lines of a block. */
  function Lines(block: string): (lines: seq<string>)
    ensures forall k | 0 <= k < |lines| :: lines[k] != [] && IsTrimmed(lines[k]) && NoLineBoundary(lines[k])
    ensures lines == [] <==> AllSpace(block)
  {
    var parts := SplitLines(block);
    SplitLinesBlank(block);
    StrippedNonBlankKeepsNoBoundary(parts);
    StrippedNonBlank(parts)
  }

  lemma {:induction false} SplitLinesBlank(s: string)
    ensures AllSpace(s) <==> AllBlank(SplitLines(s))
    decreases |s|
  {
    if |s| > 0 {
      var k := LineEnd(s, 0);
      if k < |s| {
        var next := SplitLinesStep(s);
        SliceThree(s, k, next);
        SplitLinesBlank(s[next..]);
        AllSpaceConcat3(s[..k], s[k..next], s[next..]);
        AllBlankCons(s[..k], SplitLines(s[next..]));
        assert AllSpace(s) <==> AllSpace(s[..k]) && AllSpace(s[next..]);
      } else {
        assert SplitLines(s) == [s];
        AllBlankCons(s, []);
        assert [s] + [] == [s];
      }
    }
  }

  /** One step of `SplitLines`: the first line, the boundary after it, and the rest. */
  lemma SplitLinesStep(s: string) returns (next: nat)
    requires |s| > 0 && LineEnd(s, 0) < |s|
    ensures LineEnd(s, 0) < next <= |s|
    ensures SplitLines(s) == [s[..LineEnd(s, 0)]] + SplitLines(s[next..])
    ensures AllSpace(s[LineEnd(s, 0)..next])
  {
    var k := LineEnd(s, 0);
    next := BoundaryEnd(s, k);
    SplitLinesUnfold(s, k, next);
    LineBoundaryIsSpace(s[k]);
    if next == k + 2 {
      assert s[k..next] == [s[k], s[k + 1]];
    } else {
      assert s[k..next] == [s[k]];
    }
  }

  lemma AllBlankCons(a: string, rest: seq<string>)
    ensures AllBlank([a] + rest) <==> AllSpace(a) && AllBlank(rest)
  {
    var ps := [a] + rest;
    assert ps[0] == a;
    assert forall k | 1 <= k < |ps| :: ps[k] == rest[k - 1];
    if AllBlank(ps) {
      forall k | 0 <= k < |rest| ensures AllSpace(rest[k]) {
        assert rest[k] == ps[k + 1];
      }
    }
  }

  lemma AllSpaceConcat3(a: string, b: string, c: string)
    requires AllSpace(b)
    ensures AllSpace(a + b + c) <==> AllSpace(a) && AllSpace(c)
  {
    var s := a + b + c;
    if AllSpace(a) && AllSpace(c) {
      forall k | 0 <= k < |s| ensures IsSpace(s[k]) {
        if k < |a| { assert s[k] == a[k]; }
        else if k < |a| + |b| { assert s[k] == b[k - |a|]; }
        else { assert s[k] == c[k - |a| - |b|]; }
      }
    }
    if AllSpace(s) {
      forall k | 0 <= k < |a| ensures IsSpace(a[k]) { assert s[k] == a[k]; }
      forall k | 0 <= k < |c| ensures IsSpace(c[k]) { assert s[|a| + |b| + k] == c[k]; }
    }
  }

  lemma {:induction false} StrippedNonBlankKeepsNoBoundary(parts: seq<string>)
    requires forall k | 0 <= k < |parts| :: NoLineBoundary(parts[k])
    ensures forall k | 0 <= k < |StrippedNonBlank(parts)| :: NoLineBoundary(StrippedNonBlank(parts)[k])
    decreases |parts|
  {
    if |parts| > 0 {
      StrippedNonBlankKeepsNoBoundary(parts[1..]);
      var t := Strip(parts[0]);
      forall j | 0 <= j < |t| ensures !IsLineBoundary(t[j]) {
        assert t[j] in parts[0];
      }
    }
  }

  // ---------------------------------------------------------------------------
  // Publisher and date (lines 38-60)
  // ---------------------------------------------------------------------------

  /** A line that matched `pubdate_re`, with its index in the block. */
  datatype PubDateHit = PubDateHit(index: nat, fields: PubDate)

  /** End of the candidate window `range(1, min(4, len(lines)))`. */
  function WindowEnd(n: nat): nat {
    if n < 4 then n else 4
  }

  /** `pubdate_re.match` applied to every line of the block. */
  function PubDateMatches(lines: seq<string>): (ms: seq<Option<PubDate>>)
    ensures |ms| == |lines|
    ensures forall k | 0 <= k < |lines| :: ms[k] == MatchPubDate(lines[k])
  {
    seq(|lines|, k requires 0 <= k < |lines| => MatchPubDate(lines[k]))
  }

  /** Lines 47-52: the fallback loop, stopping at the first line `pubdate_re` matches. */
  function ScanPubDate(lines: seq<string>, lo: nat, hi: nat): (h: Option<PubDateHit>)
    requires hi <= |lines|
    ensures h.Some? ==> lo <= h.value.index < hi && MatchPubDate(lines[h.value.index]) == Some(h.value.fields)
    ensures h.Some? ==> forall j | lo <= j < h.value.index :: MatchPubDate(lines[j]).None?
    ensures h.None? ==> forall j | lo <= j < hi :: MatchPubDate(lines[j]).None?
  {
    match FirstSome(PubDateMatches(lines), lo, hi)
    case Some((i, m)) => Some(PubDateHit(i, m))
    case None => None
  }

  /**
   Lines 39-52: try the line after the title, then the whole window from
   index 1 again.  Together they find the first matching line of the window.
   */
  function FindPubDate(lines: seq<string>): (h: Option<PubDateHit>)
    ensures h.Some? ==>
      && 1 <= h.value.index < WindowEnd(|lines|)
      && MatchPubDate(lines[h.value.index]) == Some(h.value.fields)
      && forall j | 1 <= j < h.value.index :: MatchPubDate(lines[j]).None?
    ensures h.None? ==> forall j | 1 <= j < WindowEnd(|lines|) :: MatchPubDate(lines[j]).None?
  {
    var publisherLine := if |lines| > 1 then lines[1] else "";
    var first := if publisherLine != "" then MatchPubDate(publisherLine) else None;
    if first.Some? then Some(PubDateHit(1, first.value))
    else ScanPubDate(lines, 1, WindowEnd(|lines|))
  }

  /** Lines 39 and 50: `publisher_line_idx`, which stays 1 when nothing matched. */
  function PublisherLineIndex(lines: seq<string>, hit: Option<PubDateHit>): Option<nat> {
    if hit.Some? then Some(hit.value.index)
    else if |lines| > 1 then Some(1)
    else None
  }

  // ---------------------------------------------------------------------------
  // Publication type and its line (lines 62-75)
  // ---------------------------------------------------------------------------

  /** Lines 68-73: the first line, from `from` on, in which the pattern occurs. */
  function PubTypeLine(lines: seq<string>, from: nat): (a: Option<nat>)
    requires from <= |lines|
    ensures a.Some? ==> from <= a.value < |lines| && HasPubType(lines[a.value])
    ensures a.Some? ==> forall j | from <= j < a.value :: !HasPubType(lines[j])
    ensures a.None? ==> forall j | from <= j < |lines| :: !HasPubType(lines[j])
  {
    FirstTrue(PubTypeFlags(lines), from, |lines|)
  }

  /** Whether the publication-type pattern occurs in each line. */
  function PubTypeFlags(lines: seq<string>): (flags: seq<bool>)
    ensures |flags| == |lines|
    ensures forall j | 0 <= j < |lines| :: flags[j] == HasPubType(lines[j])
  {
    seq(|lines|, j requires 0 <= j < |lines| => HasPubType(lines[j]))
  }

  /** `pubtype_idx`: only looked for when the search over the whole block succeeded. */
  function PubTypeIndex(block: string, lines: seq<string>): (a: Option<nat>)
    ensures a.Some? ==> a.value < |lines| && HasPubType(block) && HasPubType(lines[a.value])
    ensures a.Some? ==> forall j | 0 <= j < a.value :: !HasPubType(lines[j])
    ensures a.None? <==> !HasPubType(block) || forall j | 0 <= j < |lines| :: !HasPubType(lines[j])
  {
    if HasPubType(block) then PubTypeLine(lines, 0) else None
  }

  // ---------------------------------------------------------------------------
  // Body (lines 82-109)
  // ---------------------------------------------------------------------------

  /** Lines 86-92: the publication-type line wins, then the publisher line, then the title. */
  function BodyStart(pubTypeIdx: Option<nat>, publisherIdx: Option<nat>): nat {
    if pubTypeIdx.Some? then pubTypeIdx.value + 1
    else if publisherIdx.Some? then publisherIdx.value + 1
    else 1
  }

  /** `start_idx` for a block with at least one line. */
  function StartIndex(block: string, lines: seq<string>): (start: nat)
    requires |lines| > 0
    ensures 1 <= start <= |lines|
  {
    var hit := FindPubDate(lines);
    BodyStart(PubTypeIndex(block, lines), PublisherLineIndex(lines, hit))
  }

  /** The index of the first stop line, or `|ls|` when there is none. */
  function StopIndex(ls: seq<string>): (k: nat)
    ensures k <= |ls|
    ensures forall j | 0 <= j < k :: !IsStopLine(ls[j])
    ensures k < |ls| ==> IsStopLine(ls[k])
    decreases |ls|
  {
    if |ls| == 0 || IsStopLine(ls[0]) then 0
    else
      var k := StopIndex(ls[1..]);
      assert forall j | 1 <= j < k + 1 :: ls[j] == ls[1..][j - 1];
      k + 1
  }

  /**
   The lines that are neither a "Se webartikeln" line nor start with a URL,
   each occurrence of them kept.
   */
  function KeepBodyLines(ls: seq<string>): (r: seq<string>)
    ensures IsSubsequence(r, ls)
    ensures forall x :: x in r <==> x in ls && IsBodyLine(x)
    ensures forall x :: multiset(r)[x] == if IsBodyLine(x) then multiset(ls)[x] else 0
    decreases |ls|
  {
    if |ls| == 0 then []
    else
      var rest := KeepBodyLines(ls[1..]);
      assert ls == [ls[0]] + ls[1..];
      if IsBodyLine(ls[0]) then
        ConsSubsequence(ls[0], rest, ls[1..]);
        [ls[0]] + rest
      else
        SkipSubsequence(ls[0], rest, ls[1..]);
        rest
  }

  /**
   Lines 95-106: the loop over `lines[start_idx:]`, with its `break` at a stop
   line and its two `continue`s.
   */
  function CollectBody(ls: seq<string>): (body: seq<string>)
    ensures IsSubsequence(body, ls)
    ensures forall k | 0 <= k < |body| :: IsBodyLine(body[k]) && !IsStopLine(body[k])
    decreases |ls|
  {
    if |ls| == 0 then []
    else if IsStopLine(ls[0]) then []
    else
      var rest := CollectBody(ls[1..]);
      assert ls == [ls[0]] + ls[1..];
      if IsWebArticleLine(ls[0]) || IsUrlLine(ls[0]) then
        SkipSubsequence(ls[0], rest, ls[1..]);
        rest
      else
        ConsSubsequence(ls[0], rest, ls[1..]);
        [ls[0]] + rest
  }

  const ParagraphBreak: string := "\n\n"

  /** Line 109: `"\n\n".join(body_lines).strip()`. */
  function BodyText(body: seq<string>): string {
    Strip(Join(body, ParagraphBreak))
  }

  /** The body lines of a block with at least one line. */
  function BodyLines(block: string, lines: seq<string>): seq<string>
    requires |lines| > 0
  {
    CollectBody(lines[StartIndex(block, lines)..])
  }

  // ---------------------------------------------------------------------------
  // One block, one export (lines 22-118)
  // ---------------------------------------------------------------------------

  /** The record for one block; a block without lines yields none (lines 24-25). */
  function ParseArticle(block: string): (r: Option<Article>)
    ensures r.None? <==> AllSpace(block)
    ensures r.Some? ==> r.value.title == Lines(block)[0] && r.value.title != [] && IsTrimmed(r.value.title)
    ensures r.Some? ==> (r.value.publisher.Some? <==> r.value.date.Some?)
    ensures r.Some? && r.value.publisher.Some? ==>
      ',' !in r.value.publisher.value && IsDateText(r.value.date.value)
    ensures r.Some? && r.value.publicationType.Some? ==> IsPublicationType(r.value.publicationType.value)
    ensures r.Some? && r.value.link.Some? ==>
      IsUrlStart(r.value.link.value, 0) && NoSpace(r.value.link.value)
  {
    var lines := Lines(block);
    if |lines| == 0 then None
    else
      var hit := FindPubDate(lines);
      var pubType := SearchPubType(block, 0);
      var link := SearchLink(block, 0);
      var body := BodyLines(block, lines);
      Some(Article(
        lines[0],
        if hit.Some? then Some(hit.value.fields.publisher) else None,
        if hit.Some? then Some(hit.value.fields.date) else None,
        if pubType.Some? then Some(pubType.value.1) else None,
        BodyText(body),
        if link.Some? then Some(link.value.1) else None))
  }

  /** `ParseArticle` applied to every block. */
  function ParseEach(blocks: seq<string>): (ms: seq<Option<Article>>)
    ensures |ms| == |blocks|
    ensures forall k | 0 <= k < |blocks| :: ms[k] == ParseArticle(blocks[k])
  {
    seq(|blocks|, k requires 0 <= k < |blocks| => ParseArticle(blocks[k]))
  }

  /**
   The loop of lines 22-118 over the blocks, skipping those without lines:
   every block with a line gives a record, every record is some block's parse,
   and when no block is blank, record `k` is the parse of block `k`.
   */
  function ParseBlocks(blocks: seq<string>): (articles: seq<Article>)
    ensures |articles| <= |blocks|
    ensures forall k | 0 <= k < |blocks| && !AllSpace(blocks[k]) :: ParseArticle(blocks[k]).value in articles
    ensures forall j | 0 <= j < |articles| :: exists k | 0 <= k < |blocks| :: ParseArticle(blocks[k]) == Some(articles[j])
    ensures (forall k | 0 <= k < |blocks| :: !AllSpace(blocks[k])) ==>
      |articles| == |blocks| && forall k | 0 <= k < |blocks| :: ParseArticle(blocks[k]) == Some(articles[k])
  {
    Somes(ParseEach(blocks))
  }

  /**
   The records of the loop are the parses of exactly the blocks that have a
   line, one each and in block order: `idx` lists those blocks' positions.
   */
  lemma ParseBlocksInOrder(blocks: seq<string>)
    ensures var articles, idx := ParseBlocks(blocks), SomeIndices(ParseEach(blocks), 0);
      && |articles| == |idx|
      && (forall j | 0 <= j < |idx| :: idx[j] < |blocks| && ParseArticle(blocks[idx[j]]) == Some(articles[j]))
      && (forall i, j | 0 <= i < j < |idx| :: idx[i] < idx[j])
      && (forall k | 0 <= k < |blocks| :: k in idx <==> !AllSpace(blocks[k]))
  {
    var ms := ParseEach(blocks);
    assert ms[0..] == ms;
    SomesAtIndices(ms, 0);
  }

  /** `parse_articles_from_file` on the text of one export. */
  function ParseExport(raw: string): (articles: seq<Article>)
    ensures var blocks := SplitArticles(RemoveNewsHeader(raw));
      && |articles| == |blocks|
      && forall k | 0 <= k < |blocks| :: ParseArticle(blocks[k]) == Some(articles[k])
  {
    var blocks := SplitArticles(RemoveNewsHeader(raw));
    assert forall k | 0 <= k < |blocks| :: !AllSpace(blocks[k]) by {
      forall k | 0 <= k < |blocks| ensures !AllSpace(blocks[k]) {
        assert !IsSpace(blocks[k][0]);
      }
    }
    ParseBlocks(blocks)
  }
}
