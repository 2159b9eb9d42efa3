/**
 Properties of `Parser` that relate several of its steps: which lines the
 body keeps, how the body text round-trips, where the body starts, and how a
 publisher/date line is read back.
 */
module ParserFacts {
  import opened Wrappers
  import opened Chars
  import opened Strings
  import opened Seqs
  import opened Matchers
  import opened Parser

  // ---------------------------------------------------------------------------
  // The body loop (lines 95-106)
  // ---------------------------------------------------------------------------

  /**
   The loop with its `break` and `continue`s is a filter over the lines
   before the first stop line.
   */
  lemma {:induction false} CollectBodyIsKeptPrefix(ls: seq<string>)
    ensures CollectBody(ls) == KeepBodyLines(ls[..StopIndex(ls)])
    decreases |ls|
  {
    if |ls| > 0 && !IsStopLine(ls[0]) {
      var k := StopIndex(ls[1..]);
      CollectBodyIsKeptPrefix(ls[1..]);
      assert StopIndex(ls) == k + 1;
      var pre := ls[..k + 1];
      assert pre[0] == ls[0];
      assert pre[1..] == ls[1..][..k];
    }
  }

  /**
   The body is a subsequence of the lines before the first stop line, and a
   line appears in it exactly when it occurs before the stop line and is
   neither a "Se webartikeln" line nor a line starting with a URL; it appears
   as often as it occurs there.
   */
  lemma BodyKeepsExactly(ls: seq<string>)
    ensures IsSubsequence(CollectBody(ls), ls[..StopIndex(ls)])
    ensures forall x :: x in CollectBody(ls) <==> x in ls[..StopIndex(ls)] && IsBodyLine(x)
    ensures forall x ::
              multiset(CollectBody(ls))[x] == if IsBodyLine(x) then multiset(ls[..StopIndex(ls)])[x] else 0
    ensures forall j | 0 <= j < StopIndex(ls) :: !IsStopLine(ls[j])
    ensures StopIndex(ls) < |ls| ==> IsStopLine(ls[StopIndex(ls)])
  {
    CollectBodyIsKeptPrefix(ls);
  }

  // ---------------------------------------------------------------------------
  // The body text (line 109)
  // ---------------------------------------------------------------------------

  /**
   For non-empty, stripped lines without line breaks, the final `.strip()`
   removes nothing, the text is empty exactly when no line was kept, and
   splitting the text on blank lines gives the kept lines back.
   */
  lemma BodyTextRoundTrip(body: seq<string>)
    requires forall k | 0 <= k < |body| :: body[k] != [] && IsTrimmed(body[k]) && NoLineBoundary(body[k])
    ensures BodyText(body) == Join(body, ParagraphBreak)
    ensures BodyText(body) == [] <==> body == []
    ensures body != [] ==> Split(BodyText(body), ParagraphBreak) == body
  {
    JoinTrimmed(body, ParagraphBreak);
    StripOfTrimmed(Join(body, ParagraphBreak));
    if body != [] {
      assert ParagraphBreak[0] == '\n';
      forall k | 0 <= k < |body| ensures '\n' !in body[k] {
        forall j | 0 <= j < |body[k]| ensures body[k][j] != '\n' {
          assert !IsLineBoundary(body[k][j]);
        }
      }
      SplitJoin(body, ParagraphBreak);
    }
  }

  /** The kept lines of a block are lines of the block, so they have the shape `Lines` promises. */
  lemma BodyLinesShape(block: string)
    requires !AllSpace(block)
    ensures var body := BodyLines(block, Lines(block));
      forall k | 0 <= k < |body| :: body[k] != [] && IsTrimmed(body[k]) && NoLineBoundary(body[k])
  {
    var lines := Lines(block);
    var rest := lines[StartIndex(block, lines)..];
    var body := CollectBody(rest);
    SubsequenceElements(body, rest);
    forall k | 0 <= k < |body| ensures body[k] != [] && IsTrimmed(body[k]) && NoLineBoundary(body[k]) {
      assert body[k] in rest;
    }
  }

  /**
   The `Text` column of a record: the kept body lines joined by blank lines,
   empty exactly when no line was kept, and split back into those lines.
   */
  lemma ArticleText(block: string)
    requires !AllSpace(block)
    ensures var body := BodyLines(block, Lines(block));
      && ParseArticle(block).Some?
      && ParseArticle(block).value.text == Join(body, ParagraphBreak)
      && (ParseArticle(block).value.text == [] <==> body == [])
      && (body != [] ==> Split(ParseArticle(block).value.text, ParagraphBreak) == body)
  {
    BodyLinesShape(block);
    BodyTextRoundTrip(BodyLines(block, Lines(block)));
  }

  // ---------------------------------------------------------------------------
  // The other columns (lines 36-80)
  // ---------------------------------------------------------------------------

  /**
   Publisher and Date come from the first line of the window that matches
   `pubdate_re` and are both absent exactly when no line there matches.
   */
  lemma ArticlePubDate(block: string)
    requires !AllSpace(block)
    ensures var a := ParseArticle(block).value; var lines := Lines(block);
      && (a.publisher.Some? <==> exists i | 1 <= i < WindowEnd(|lines|) :: MatchPubDate(lines[i]).Some?)
      && (a.publisher.Some? ==> exists i | 1 <= i < WindowEnd(|lines|) ::
            && MatchPubDate(lines[i]) == Some(PubDate(a.publisher.value, a.date.value))
            && forall j | 1 <= j < i :: MatchPubDate(lines[j]).None?)
  {
    var h := FindPubDate(Lines(block));
    if h.Some? {
      assert MatchPubDate(Lines(block)[h.value.index]).Some?;
    }
  }

  /** PublicationType is the first match of its pattern anywhere in the block. */
  lemma ArticlePubType(block: string)
    requires !AllSpace(block)
    ensures var a := ParseArticle(block).value;
      && (a.publicationType.Some? <==> exists q | 0 <= q <= |block| :: PubTypeAt(block, q).Some?)
      && (a.publicationType.Some? ==> exists q | 0 <= q <= |block| ::
            PubTypeAt(block, q) == a.publicationType && forall r | 0 <= r < q :: PubTypeAt(block, r).None?)
  {
    var t := SearchPubType(block, 0);
    if t.Some? {
      assert PubTypeAt(block, t.value.0).Some?;
    }
  }

  /** Link is the first match of its pattern anywhere in the block. */
  lemma ArticleLink(block: string)
    requires !AllSpace(block)
    ensures var a := ParseArticle(block).value;
      && (a.link.Some? <==> exists q | 0 <= q <= |block| :: LinkAt(block, q).Some?)
      && (a.link.Some? ==> exists q | 0 <= q <= |block| ::
            LinkAt(block, q) == a.link && forall r | 0 <= r < q :: LinkAt(block, r).None?)
  {
    var k := SearchLink(block, 0);
    if k.Some? {
      assert LinkAt(block, k.value.0).Some?;
    }
  }

  // ---------------------------------------------------------------------------
  // Where the body starts (lines 39-52 and 62-92)
  // ---------------------------------------------------------------------------

  /** No line of the block serves as the publication-type line. */
  predicate NoAnchor(block: string, lines: seq<string>) {
    !HasPubType(block) || forall j | 0 <= j < |lines| :: !HasPubType(lines[j])
  }

  /** The line holding the publication type wins: the body starts right after it. */
  lemma StartAfterAnchor(block: string, lines: seq<string>, a: nat)
    requires a < |lines| && HasPubType(block) && HasPubType(lines[a])
    requires forall j | 0 <= j < a :: !HasPubType(lines[j])
    ensures StartIndex(block, lines) == a + 1
  {
    var p := PubTypeLine(lines, 0);
    assert p.Some?;
    assert p.value == a;
  }

  /** Without that line, the body starts after the first publisher/date line of the window. */
  lemma StartAfterPublisher(block: string, lines: seq<string>, i: nat)
    requires NoAnchor(block, lines)
    requires 1 <= i < WindowEnd(|lines|) && MatchPubDate(lines[i]).Some?
    requires forall j | 1 <= j < i :: MatchPubDate(lines[j]).None?
    ensures StartIndex(block, lines) == i + 1
  {
    assert PubTypeIndex(block, lines).None?;
    var h := FindPubDate(lines);
    assert h.Some?;
    assert h.value.index == i;
  }

  /** With neither, the body still starts after line 1, the assumed publisher line. */
  lemma StartWithoutMatches(block: string, lines: seq<string>)
    requires |lines| >= 2 && NoAnchor(block, lines)
    requires forall j | 1 <= j < WindowEnd(|lines|) :: MatchPubDate(lines[j]).None?
    ensures StartIndex(block, lines) == 2
  {
    assert FindPubDate(lines).None?;
  }

  /** A block of a single line has an empty body. */
  lemma OneLineBlock(block: string, lines: seq<string>)
    requires |lines| == 1
    ensures StartIndex(block, lines) == 1
    ensures BodyLines(block, lines) == []
  {
  }

  // ---------------------------------------------------------------------------
  // Reading a publisher/date line back (line 19)
  // ---------------------------------------------------------------------------

  /**
   A line written as "<publisher>, <date>" is read back as exactly that
   publisher and date, for any stripped publisher made of the allowed
   characters and any date of the accepted shapes.
   */
  lemma PubDateRoundTrip(p: string, d: string)
    requires p != [] && IsTrimmed(p) && AllPublisherChars(p)
    requires IsDateText(d)
    ensures MatchPubDate(p + ", " + d) == Some(PubDate(p, d))
  {
    var l := p + ", " + d;
    RoundTripLayout(p, d);
    MatchPubDateSteps(l, |p|, |p| + 2, |l|);
    StripOfTrimmed(p);
    DateTextIsTrimmed(d);
    StripOfTrimmed(d);
  }

  /** How the matcher walks through "<publisher>, <date>". */
  lemma RoundTripLayout(p: string, d: string)
    requires p != [] && IsTrimmed(p) && AllPublisherChars(p)
    requires IsDateText(d)
    ensures var l := p + ", " + d;
      && PublisherRunEnd(l, 0) == |p|
      && l[|p|] == ','
      && SkipSpace(l, |p| + 1) == |p| + 2
      && DateGroupEnd(l, |p| + 2) == Some(|l|)
      && l[..|p|] == p
      && l[|p| + 2..|l|] == d
  {
    var l := p + ", " + d;
    RoundTripPublisher(l, p, d);
    RoundTripSpace(l, p, d);
    RoundTripDate(l, p, d);
    ThreeParts(p, ", ", d);
  }

  /** The date group of "<publisher>, <date>" runs from the date to the end of the line. */
  lemma RoundTripDate(l: string, p: string, d: string)
    requires l == p + ", " + d && IsDateText(d)
    ensures DateGroupEnd(l, |p| + 2) == Some(|l|)
  {
    ThreeParts(p, ", ", d);
    DateGroupEndAt(l, |p| + 2, |l|);
  }

  /** The publisher run of "<publisher>, <date>" stops at the comma. */
  lemma RoundTripPublisher(l: string, p: string, d: string)
    requires l == p + ", " + d && p != [] && AllPublisherChars(p)
    ensures PublisherRunEnd(l, 0) == |p| && l[|p|] == ','
  {
    ThreeParts(p, ", ", d);
    CommaEndsPublisherRun(l, |p|);
  }

  /** The whitespace after the comma of "<publisher>, <date>" is the single space. */
  lemma RoundTripSpace(l: string, p: string, d: string)
    requires l == p + ", " + d && d != [] && IsDigit(d[0])
    ensures SkipSpace(l, |p| + 1) == |p| + 2
  {
    var c := |p|;
    assert l[c + 1] == ' ';
    assert l[c + 2] == d[0];
    DigitIsNotSpace(d[0]);
    assert SkipSpace(l, c + 2) == c + 2;
  }

  /** The slices of a sequence put together from three pieces. */
  lemma ThreeParts<T>(a: seq<T>, b: seq<T>, c: seq<T>)
    ensures var s := a + b + c;
      && s[..|a|] == a && s[|a|..|a| + |b|] == b
      && s[|a| + |b|..] == c && s[|a| + |b|..|s|] == c && s[|s|..] == []
  {
    var s := a + b + c;
    assert s[..|a|] == a;
    assert s[|a|..|a| + |b|] == b;
    assert s[|a| + |b|..] == c;
  }

  /**
   Every line laid out as publisher characters, the first comma, whitespace,
   a date text and trailing whitespace is matched, and read back as that
   publisher (stripped) and date: with `MatchPubDate`'s own ensures, the
   pattern matches a line exactly when the line has this layout.
   */
  lemma MatchPubDateComplete(l: string, c: nat, d: nat, m: PubDate)
    requires PubDateLayout(l, c, d, m) && IsDateText(m.date)
    ensures MatchPubDate(l) == Some(m)
  {
    var e := d + |m.date|;
    CommaEndsPublisherRun(l, c);
    assert l[d..e] == m.date;
    assert l[d] == m.date[0];
    SpaceBeforeDate(l, c, d);
    DateGroupEndAt(l, d, e);
    MatchPubDateSteps(l, c, d, e);
    DateTextIsTrimmed(m.date);
    StripOfTrimmed(m.date);
  }

  /** The publisher run stops at the first comma. */
  lemma CommaEndsPublisherRun(l: string, c: nat)
    requires 0 < c < |l| && l[c] == ',' && AllPublisherChars(l[..c])
    ensures PublisherRunEnd(l, 0) == c
  {
    assert l[..c] == l[0..c];
    CommaIsNotPublisherChar();
    PublisherRunEndExact(l, 0, c);
  }

  /** The whitespace after the comma runs up to the first digit of the date. */
  lemma SpaceBeforeDate(l: string, c: nat, d: nat)
    requires c + 1 <= d < |l| && AllSpace(l[c + 1..d]) && IsDigit(l[d])
    ensures SkipSpace(l, c + 1) == d
  {
    DigitIsNotSpace(l[d]);
    SkipSpaceExact(l, c + 1, d);
  }

  /** The date group of a date text followed only by whitespace ends where the date text ends. */
  lemma DateGroupEndAt(l: string, d: nat, e: nat)
    requires d <= e <= |l| && IsDateText(l[d..e]) && AllSpace(l[e..])
    ensures DateGroupEnd(l, d) == Some(e)
  {
    if IsIsoDate(l[d..e]) {
      DateGroupEndShort(l, d, e);
    } else {
      DateGroupEndLong(l, d, e);
    }
  }

  /** The date group of a bare date: the skipped whitespace reaches the end of the line. */
  lemma DateGroupEndShort(l: string, d: nat, e: nat)
    requires d <= e <= |l| && IsIsoDate(l[d..e]) && AllSpace(l[e..])
    ensures DateGroupEnd(l, d) == Some(e)
  {
    assert l[e..] == l[e..|l|];
    SkipSpaceExact(l, e, |l|);
    SliceOfSlice(l, d, e, 0, 10);
  }

  /** The date group of a date followed by a clock time: the skipped whitespace stops at the clock. */
  lemma DateGroupEndLong(l: string, d: nat, e: nat)
    requires d + 15 <= e <= |l| && AllSpace(l[e..])
    requires var w := l[d..e]; IsIsoDate(w[..10]) && AllSpace(w[10..|w| - 5]) && IsClock(w[|w| - 5..])
    ensures DateGroupEnd(l, d) == Some(e)
  {
    LongDateParts(l, d, e);
    SkipSpaceExact(l, d + 10, e - 5);
  }

  /** The parts of a date text with a clock time, as slices of the line. */
  lemma LongDateParts(l: string, d: nat, e: nat)
    requires d + 15 <= e <= |l|
    requires var w := l[d..e]; IsIsoDate(w[..10]) && AllSpace(w[10..|w| - 5]) && IsClock(w[|w| - 5..])
    ensures IsIsoDate(l[d..d + 10]) && AllSpace(l[d + 10..e - 5]) && IsClock(l[e - 5..e]) && !IsSpace(l[e - 5])
  {
    var w := l[d..e];
    SliceOfSlice(l, d, e, 0, 10);
    assert w[..10] == w[0..10];
    SliceOfSlice(l, d, e, 10, |w| - 5);
    SliceOfSlice(l, d, e, |w| - 5, |w|);
    assert w[|w| - 5..] == w[|w| - 5..|w|];
    assert l[e - 5] == w[|w| - 5..][0];
    DigitIsNotSpace(l[e - 5]);
  }

  lemma SliceOfSlice(l: string, d: nat, e: nat, a: nat, b: nat)
    requires d <= e <= |l| && a <= b <= e - d
    ensures l[d..e][a..b] == l[d + a..d + b]
  {
    forall q | 0 <= q < b - a ensures l[d..e][a..b][q] == l[d + a..d + b][q] {
      assert l[d..e][a..b][q] == l[d + a + q];
    }
  }

  /** `MatchPubDate` once its three steps are known. */
  lemma MatchPubDateSteps(l: string, c: nat, d: nat, e: nat)
    requires 0 < c < |l| && l[c] == ',' && PublisherRunEnd(l, 0) == c
    requires SkipSpace(l, c + 1) == d && d <= |l| && DateGroupEnd(l, d) == Some(e)
    ensures MatchPubDate(l) == Some(PubDate(Strip(l[..c]), Strip(l[d..e])))
  {
  }

  /** A run of publisher characters ending at a non-publisher character (or the end) is what `PublisherRunEnd` finds. */
  lemma {:induction false} PublisherRunEndExact(s: string, i: nat, j: nat)
    requires i <= j <= |s|
    requires AllPublisherChars(s[i..j])
    requires j < |s| ==> !IsPublisherChar(s[j])
    ensures PublisherRunEnd(s, i) == j
    decreases j - i
  {
    if i < j {
      assert IsPublisherChar(s[i..j][0]);
      assert s[i + 1..j] == s[i..j][1..];
      PublisherRunEndExact(s, i + 1, j);
    }
  }

  lemma DigitIsNotSpace(c: char)
    requires IsDigit(c)
    ensures !IsSpace(c)
  {
  }

  // ---------------------------------------------------------------------------
  // The publication type and its line (lines 63-75)
  // ---------------------------------------------------------------------------

  /**
   The type is searched for in the whole block but its line in each line on
   its own, so a type split over two lines is reported while no line is
   found to start the body after: for the block "T\nPublicerat\npå webb" the
   record gets "på webb", and, as no line carries a publisher and date
   either, the body starts after the publisher line (index 1).
   */
  lemma PubTypeWithoutAnchor()
    ensures var block := "T\nPublicerat\npå webb";
      && HasPubType(block)
      && SearchPubType(block, 0) == Some((2, "på webb"))
      && Lines(block) == ["T", "Publicerat", "på webb"]
      && PubTypeIndex(block, Lines(block)).None?
      && StartIndex(block, Lines(block)) == 2
  {
    var block := "T\nPublicerat\npå webb";
    SplitExample(block);
    PubTypeInExample(block);
    var lines := ["T", "Publicerat", "på webb"];
    forall j | 0 <= j < |lines| ensures !HasPubType(lines[j]) {
      NoPubTypeIn(lines[j]);
    }
    ExampleLinesWithoutPubDate(lines);
    StartAfterPublisherLine(block, lines);
  }

  /** None of the example's lines carries a publisher and date. */
  lemma ExampleLinesWithoutPubDate(lines: seq<string>)
    requires lines == ["T", "Publicerat", "på webb"]
    ensures forall j | 0 <= j < |lines| :: MatchPubDate(lines[j]).None?
  {
    forall j | 0 <= j < |lines| ensures MatchPubDate(lines[j]).None? {
      if j == 0 {
        NoCommaNoPubDate("T");
      } else if j == 1 {
        NoCommaNoPubDate("Publicerat");
      } else {
        NoCommaNoPubDate("på webb");
      }
    }
  }

  /** With neither a type line nor a publisher and date line, the body starts after line 1 (lines 39, 50 and 75). */
  lemma StartAfterPublisherLine(block: string, lines: seq<string>)
    requires |lines| > 1
    requires PubTypeIndex(block, lines).None?
    requires forall j | 0 <= j < |lines| :: MatchPubDate(lines[j]).None?
    ensures StartIndex(block, lines) == 2
  {
  }

  /** `pubdate_re` needs the comma after the publisher, so a line without a comma never matches. */
  lemma NoCommaNoPubDate(l: string)
    requires ',' !in l
    ensures MatchPubDate(l).None?
  {
  }

  /** A line too short to hold the pattern after "Publicerat" has no publication type. */
  lemma NoPubTypeIn(l: string)
    requires l in ["T", "Publicerat", "på webb"]
    ensures !HasPubType(l)
  {
    forall q | 0 <= q <= |l| ensures PubTypeAt(l, q).None? {
      if l == "Publicerat" && q == 0 {
        assert SkipSpace(l, 10) == 10;
      }
    }
  }

  lemma PubTypeInExample(block: string)
    requires block == "T\nPublicerat\npå webb"
    ensures SearchPubType(block, 0) == Some((2, "på webb"))
  {
    ExampleMatch(block);
    ExampleNoEarlierMatch(block);
    SearchFindsFirst(block, 0, 2);
  }

  /** The search from `i` reports the first position from `i` where the pattern matches, with its match. */
  lemma SearchFindsFirst(s: string, i: nat, k: nat)
    requires i <= k <= |s| && PubTypeAt(s, k).Some?
    requires forall q | i <= q < k :: PubTypeAt(s, q).None?
    ensures SearchPubType(s, i) == Some((k, PubTypeAt(s, k).value))
  {
  }

  lemma ExampleMatch(block: string)
    requires block == "T\nPublicerat\npå webb"
    ensures PubTypeAt(block, 2) == Some("på webb")
  {
    ExampleSteps(block);
    PubTypeAtSteps(block, 2, 13, 16, 20, "på");
    assert block[16..20] == "webb";
    assert "på" + " " + "webb" == "på webb";
  }

  lemma ExampleNoEarlierMatch(block: string)
    requires block == "T\nPublicerat\npå webb"
    ensures forall q | 0 <= q < 2 :: PubTypeAt(block, q).None?
  {
    forall q | 0 <= q < 2 ensures PubTypeAt(block, q).None? {
      assert block[q] != 'P';
      assert !OccursAt(block, PublishedWord, q) by {
        assert block[q..q + |PublishedWord|][0] == block[q];
        assert PublishedWord[0] == 'P';
      }
    }
  }

  /** The positions the publication-type matcher passes through in the example block. */
  lemma ExampleSteps(block: string)
    requires block == "T\nPublicerat\npå webb"
    ensures OccursAt(block, PublishedWord, 2) && SkipSpace(block, 12) == 13
    ensures OccursAt(block, "på", 13) && SkipSpace(block, 15) == 16
    ensures WordRunEnd(block, 16) == 20
  {
    assert block[2..12] == "Publicerat";
    SkipSpaceExact(block, 12, 13);
    assert block[13..15] == "på";
    SkipSpaceExact(block, 15, 16);
  }

  /** `PubTypeAt` once the positions of its steps are known. */
  lemma PubTypeAtSteps(s: string, i: nat, j: nat, k: nat, e: nat, prep: string)
    requires i + |PublishedWord| < j <= |s| && OccursAt(s, PublishedWord, i)
    requires SkipSpace(s, i + |PublishedWord|) == j
    requires prep == "på" && OccursAt(s, prep, j)
    requires SkipSpace(s, j + |prep|) == k && k > j + |prep|
    requires WordRunEnd(s, k) == e && e > k
    ensures PubTypeAt(s, i) == Some(prep + " " + s[k..e])
  {
  }

  lemma SplitExample(block: string)
    requires block == "T\nPublicerat\npå webb"
    ensures Lines(block) == ["T", "Publicerat", "på webb"]
  {
    SplitLinesExample(block);
    ExampleLinesTrimmed();
    StrippedNonBlankOfTrimmed(["T", "Publicerat", "på webb"]);
  }

  lemma ExampleLinesTrimmed()
    ensures var parts := ["T", "Publicerat", "på webb"];
      forall k | 0 <= k < |parts| :: parts[k] != [] && IsTrimmed(parts[k])
  {
    var parts := ["T", "Publicerat", "på webb"];
    assert IsTrimmed(parts[0]) && IsTrimmed(parts[1]) && IsTrimmed(parts[2]);
  }

  lemma SplitLinesExample(block: string)
    requires block == "T\nPublicerat\npå webb"
    ensures SplitLines(block) == ["T", "Publicerat", "på webb"]
  {
    var parts := ["T", "Publicerat", "på webb"];
    ExampleJoin(parts);
    ExampleNoBoundary(parts);
    SplitLinesJoin(parts);
  }

  lemma ExampleJoin(parts: seq<string>)
    requires parts == ["T", "Publicerat", "på webb"]
    ensures Join(parts, "\n") == "T\nPublicerat\npå webb"
  {
    assert Join(parts[2..], "\n") == "på webb";
    assert Join(parts[1..], "\n") == "Publicerat\npå webb";
  }

  lemma ExampleNoBoundary(parts: seq<string>)
    requires parts == ["T", "Publicerat", "på webb"]
    ensures forall k | 0 <= k < |parts| :: NoLineBoundary(parts[k])
  {
    forall k | 0 <= k < |parts| ensures NoLineBoundary(parts[k]) {
      if k == 0 {
        assert NoLineBoundary("T");
      } else if k == 1 {
        assert NoLineBoundary("Publicerat");
      } else {
        assert NoLineBoundary("på webb");
      }
    }
  }
}
