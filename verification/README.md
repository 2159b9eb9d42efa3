# Article parser of media-similarity-nlp, in Dafny

This project models `parse_articles_from_file` from `src/preprocessing.py` and the
lines of that script that combine its results. The function reads a news export
(a Retriever text dump) and returns one record per article. Each record has six
columns: Title, Publisher, Date, PublicationType, Text and Link. The script
parses every export, concatenates the tables and drops records whose Text an
earlier record already has.

The model starts from the raw text of an export. It follows the code step by step:

- **Header (line 10).** `re.sub` removes every "Nyheter:" at the start of a line,
  with the whitespace before and after it.
- **Blocks (lines 13-14).** `re.split` cuts the text at runs of "=" followed by
  line breaks, and the blank pieces are dropped.
- **Lines (line 23).** Each block is split into its stripped, non-blank lines
  (`str.splitlines` semantics: "\r\n" is one boundary, and every boundary
  character Python knows counts).
- **Title (line 36).** The title is the first line.
- **Publisher and Date (lines 39-60).** They come from the first line in the
  window 1..3 that matches the publisher/date pattern.
- **PublicationType and Link (lines 62-80).** These are the first matches of
  their patterns anywhere in the block.
- **Body (lines 86-106).** The body starts after the publication-type line,
  else after the publisher line, else after the title. It keeps every line
  before the first stop line (©, "Alla artiklar", "bildtext…") that is not a
  "Se webartikeln på http…" line and does not start with a URL.
- **Text (line 109).** The body lines joined by blank lines.

Each of the seven regular expressions (lines 10, 13, 19, 63 and 69, 78, 101
and 104) is a small deterministic matcher in
`matchers.dfy`. Where the regex engine backtracks, the matcher takes the
choice the engine ends up with:
- the lazy publisher group can only end at the first comma, since "," is
  outside its class;
- a greedy `\s*` before a non-space literal takes the whole whitespace run;
- the separator's `\s*\n+` ends at the last line feed of the whitespace after
  the "=" run.

`re.sub` and `re.split` are modelled in `scanner.dfy` as a scan for leftmost,
non-overlapping matches. `IsSpace` is Python's `str.isspace`: the `\s` class,
and what `strip()` removes.

Three behaviours of the code that are easy to misread, modelled as written:
- Line 10 removes only "Nyheter:" and the whitespace around it. The rest of
  that line stays.
- Line 104 skips every line that *starts* with "http://" or "https://",
  whatever follows the URL on that line.
- `publisher_line_idx` stays 1 when no line matches (line 39). So in a block
  of two or more lines with no publication-type line, the body starts at
  line 2 and line 1 is never body text (`ParserFacts.StartWithoutMatches`).

The publication type is searched for in the whole block, but its line is
searched for line by line. So the block "T\nPublicerat\npå webb" gets the
publication type "på webb" but no anchor line, and its body starts after the
publisher line (`ParserFacts.PubTypeWithoutAnchor`).

Modules:
- `Wrappers`: Option and Result.
- `Chars`: the character classes.
- `Strings`: strip, splitlines, join, split.
- `Seqs`: subsequences and first-match searches.
- `Matchers`: the seven patterns and the body-line tests.
- `Scanner`: `re.sub` and `re.split`.
- `Parser`: from one export to its records.
- `ParserFacts`: properties that span several steps.
- `Corpus`: concatenation and de-duplication.

## Model

| member | source | states |
|---|---|---|
| Strings.Strip | src/preprocessing.py:14 | `strip()` returns an infix of its input with only whitespace cut at either end; the result is trimmed and is empty exactly when the input is all whitespace |
| Strings.SplitLines | src/preprocessing.py:23 | no piece of `splitlines()` contains a line-boundary character; `Strings.SplitLinesReassemble` states how the pieces rebuild the text, and `Strings.SplitLinesJoin` that it undoes joining with "\n" |
| Strings.SplitLinesReassemble | src/preprocessing.py:23 | the pieces of `splitlines()`, each followed by the boundary it consumed ("\r\n" or a single boundary character), rebuild the text; only the last piece may instead end at the end of the text, and then it is not empty; a lone "\r" is never followed by an empty piece ended by "\n" |
| Strings.JoinTrimmed | src/preprocessing.py:109 | joining non-empty stripped lines gives a stripped text, empty exactly when there are no lines |
| Strings.SplitLinesJoin | src/preprocessing.py:23 | `splitlines()` is the inverse of joining with "\n": pieces free of line boundaries, the last one non-empty, come back unchanged |
| Strings.SplitJoin | src/preprocessing.py:109 | `sep.join(ls).split(sep) == ls` whenever the separator's first character occurs in no piece |
| Matchers.HeaderAt | src/preprocessing.py:10 | the header pattern matches at `i` iff `i` starts a line, whitespace then "Nyheter:" follow, and the match takes all whitespace after it |
| Matchers.SeparatorAt | src/preprocessing.py:13 | the separator match is an "=" run, then whitespace ending in a line feed; it is the longest such prefix, and no prefix qualifies when it fails |
| Matchers.MatchPubDate | src/preprocessing.py:18-20 | a match yields a publisher made of the allowed characters with no comma, and a date of shape dddd-dd-dd with an optional time; the line is laid out as publisher, comma, whitespace, date, trailing whitespace |
| Matchers.PubTypeAt | src/preprocessing.py:63-65 | a match at `i` starts with "Publicerat" plus whitespace, and the value is "på <word>" or "i <word>" |
| Matchers.PubTypeAtExact | src/preprocessing.py:63-65 | the pattern matches at `i` iff "Publicerat", whitespace, "på" or "i", whitespace and word characters lie there; the value is the preposition, a space and the whole maximal word run that follows |
| Matchers.SearchPubType | src/preprocessing.py:63 | `re.search` returns the first position where the pattern matches, and none when it matches nowhere |
| Matchers.LinkAt | src/preprocessing.py:78-80 | the link pattern matches at `i` iff an http(s) scheme is followed by a non-space; the link is the whole non-space run and starts with the scheme |
| Matchers.SearchLink | src/preprocessing.py:78 | the link is taken at the first position where the pattern matches |
| Matchers.StartsWithCaseless | src/preprocessing.py:98 | definition only, no contract: `ln.lower().startswith(p)` as a comparison of the first characters after ASCII lowering; its consequences are stated through `Parser.StopIndex` |
| Matchers.IsStopLine | src/preprocessing.py:98 | definition only, no contract: the three stop conditions; `Parser.StopIndex` and `ParserFacts.BodyKeepsExactly` state where the body scan stops |
| Matchers.IsWebArticleLine | src/preprocessing.py:101 | definition only, no contract: "Se webartikeln på", optional whitespace, then "http" somewhere in the line; `Parser.KeepBodyLines` states which lines it removes |
| Matchers.IsUrlLine | src/preprocessing.py:104 | definition only, no contract: the line starts with "http://" or "https://"; `Parser.KeepBodyLines` states which lines it removes |
| Scanner.Scan | src/preprocessing.py:10-13 | the matches `re.sub`/`re.split` cut are ordered and non-overlapping; each one is a match, and the pattern fails at every position the scan does not skip |
| Scanner.PiecesReassemble | src/preprocessing.py:13 | putting the matched separators back between the pieces of `re.split` gives back the text |
| Scanner.RemoveCutsOnlyMatches | src/preprocessing.py:10 | `re.sub(..., "", raw)` keeps exactly the text between the leftmost non-overlapping header matches |
| Scanner.RemoveWithoutMatch | src/preprocessing.py:10 | a text with no "Nyheter:" header comes through line 10 unchanged |
| Parser.RemoveNewsHeader | src/preprocessing.py:10 | definition only, no contract: `re.sub` of the header pattern; `Scanner.RemoveCutsOnlyMatches` and `Scanner.RemoveWithoutMatch` state what it removes |
| Parser.StrippedNonBlank | src/preprocessing.py:14 | the comprehension yields non-empty stripped pieces and is empty exactly when every piece is blank |
| Parser.StrippedNonBlankIsFilter | src/preprocessing.py:14 | the kept pieces are the stripped pieces in order, with exactly the empty ones dropped: each non-empty stripped piece is kept as often as it occurs |
| Parser.StrippedNonBlankOfTrimmed | src/preprocessing.py:14 | pieces that are already non-empty and stripped pass through the comprehension unchanged |
| Parser.SplitArticles | src/preprocessing.py:13-14 | every block is non-empty and stripped |
| Parser.Lines | src/preprocessing.py:23-25 | the lines of a block are non-empty, stripped and free of line breaks, and there are none exactly when the block is blank |
| Parser.SplitLinesBlank | src/preprocessing.py:23 | a text is all whitespace exactly when all its `splitlines()` pieces are |
| Parser.ScanPubDate | src/preprocessing.py:47-52 | the fallback loop stops at the first matching line of its range, or reports that none matches |
| Parser.FindPubDate | src/preprocessing.py:39-52 | trying line 1 and then the window finds the first line among 1..min(3, n-1) that matches, or none when no line there matches |
| Parser.PublisherLineIndex | src/preprocessing.py:39-50 | definition only, no contract: the matching line, else 1 when the block has a second line; `ParserFacts.StartAfterPublisher` and `ParserFacts.StartWithoutMatches` state where the body then starts |
| Parser.PubTypeIndex | src/preprocessing.py:62-75 | `pubtype_idx` is set only when the pattern occurs in the block, and then it is the first line holding a match; it is unset iff the block has no match or no line has one |
| Parser.PubTypeLine | src/preprocessing.py:68-73 | the anchor is the first line containing the publication-type pattern, and none when no line contains it |
| Parser.StartIndex | src/preprocessing.py:86-92 | the body start lies between 1 and the number of lines |
| Parser.StopIndex | src/preprocessing.py:98-99 | the loop breaks at the first stop line; no earlier line is one |
| Parser.KeepBodyLines | src/preprocessing.py:100-106 | the kept lines are a subsequence, and a line is kept iff it is neither a "Se webartikeln" line nor starts with a URL, as often as it occurs |
| Parser.CollectBody | src/preprocessing.py:95-106 | the body is a subsequence of the lines, and every kept line is a body line and not a stop line |
| Parser.ParseArticle | src/preprocessing.py:22-118 | a block gives a record iff it has a non-blank line; the title is its first line; Publisher and Date are both set or both unset; the publisher has no comma and the date has the date shape; the type is "på w" or "i w"; the link starts with a scheme and has no whitespace |
| Parser.ParseBlocks | src/preprocessing.py:22-25 | the loop gives at most one record per block; every block with a non-blank line contributes its parse, and every record is the parse of some block; when no block is blank, record k is the parse of block k |
| Parser.ParseBlocksInOrder | src/preprocessing.py:22-25 | the records are the parses of exactly the blocks that have a non-blank line, one record for each such block, in block order |
| Parser.ParseExport | src/preprocessing.py:9-118 | one export gives exactly one record per block, each the block's parse |
| Parser.BodyText | src/preprocessing.py:109 | definition only, no contract: the body lines joined by blank lines, stripped; `ParserFacts.BodyTextRoundTrip` states what it gives back |
| ParserFacts.CollectBodyIsKeptPrefix | src/preprocessing.py:95-106 | the loop with its `break` and two `continue`s equals filtering the lines before the first stop line |
| ParserFacts.BodyKeepsExactly | src/preprocessing.py:95-106 | a line is in the body iff it comes before the first stop line and is a body line; the body keeps their order and each such line as often as it occurs there |
| ParserFacts.BodyTextRoundTrip | src/preprocessing.py:108-109 | the final strip removes nothing; Text is empty iff no line was kept; splitting Text on blank lines gives the kept lines back |
| ParserFacts.ArticleText | src/preprocessing.py:108-116 | a record's Text is its body lines joined by blank lines, and it splits back into them |
| ParserFacts.ArticlePubDate | src/preprocessing.py:38-60 | Publisher and Date are set iff some line of the window matches, and then they are the fields of the first matching line |
| ParserFacts.ArticlePubType | src/preprocessing.py:62-65 | PublicationType is set iff its pattern matches somewhere in the block, and then it holds the first match |
| ParserFacts.ArticleLink | src/preprocessing.py:77-80 | Link is set iff the link pattern matches somewhere in the block, and then it holds the first match |
| ParserFacts.StartAfterAnchor | src/preprocessing.py:86-88 | with a publication-type line, the body starts right after the first such line |
| ParserFacts.StartAfterPublisher | src/preprocessing.py:89-90 | without one, the body starts after the first matching publisher/date line of the window |
| ParserFacts.StartWithoutMatches | src/preprocessing.py:39-40 | with neither, a block of two or more lines has its body start at line 2 |
| ParserFacts.OneLineBlock | src/preprocessing.py:91-92 | a one-line block has its body start at 1 and an empty body |
| ParserFacts.MatchPubDateComplete | src/preprocessing.py:19 | every line laid out as publisher characters, the first comma, whitespace, a date text and trailing whitespace is matched and read back as that stripped publisher and date; with `MatchPubDate`'s own ensures, the pattern matches exactly these lines |
| ParserFacts.PubDateRoundTrip | src/preprocessing.py:19 | "publisher, date" is read back as that publisher and date, for any stripped publisher of allowed characters and any date of the accepted shape |
| ParserFacts.PubTypeWithoutAnchor | src/preprocessing.py:62-92 | example: for the block "T\nPublicerat\npå webb" the search over the whole block reports the type "på webb", no single line holds a match so there is no anchor line, and the body starts at line 2, after the publisher line |
| Corpus.FirstTextIndex | src/preprocessing.py:136 | the index of the first record with a given text, and the length of the table exactly when no record has it |
| Corpus.KeepFirstSpec | src/preprocessing.py:136 | de-duplication keeps a subsequence with pairwise different texts; it keeps every text that occurs, and for each text the record at the first index holding it, in the order of those indices |
| Corpus.KeepFirstAtFirstIndex | src/preprocessing.py:136 | `keep="first"`: each kept record is the one at the first index of its text, and kept records appear in increasing order of those indices |
| Corpus.DropDuplicates | src/preprocessing.py:136 | the loop with its set of seen texts equals the reference `KeepFirst`, so the result has all of the properties above |
| Corpus.DropDuplicatesIdempotent | src/preprocessing.py:136 | dropping duplicates a second time changes nothing |
| Corpus.Frames | src/preprocessing.py:127-130 | definition only, no contract: the exports parsed one by one, in file order; what the concatenated, de-duplicated result holds is stated by `Corpus.ParseCorpus` |
| Corpus.ConcatAll | src/preprocessing.py:133 | the concatenation is the tables one after the other, in file order |
| Corpus.ParseCorpus | src/preprocessing.py:127-136 | the script fails with "no objects to concatenate" exactly when there are no files; otherwise the result is the de-duplicated concatenation: a subsequence with distinct texts that holds every text occurring in the exports, and empty exactly when every export gives no record |

Helpers with no claim of their own, and so without a row:
`Parser.PubDateMatches`, `Parser.PubTypeFlags`, `Parser.ParseEach`,
`Matchers.PubTypeMatches` and `Matchers.LinkMatches`. Each is the table of
one matcher's result at every position or line, and its pointwise `ensures`
only gives the solver that table in quantified form; the search built on it
carries the contract.

## Left out

- Reading the files (lines 6-7 and 123): the export texts are parameters, each the text `f.read()` returns. In text mode Python has already translated "\r\n" and a lone "\r" into "\n" (universal newlines), so the patterns of lines 10 and 13 never see a carriage return at a line end; that translation is not modelled. `glob`, `print`, `to_csv` and the DataFrame layer are not modelled; a record is a Dafny datatype and a table is a sequence of records.
- `ignore_index=True` (line 133) only renumbers rows, and rows here have no index.
- Matchers.MatchPubDate: `\w` and `\d` are exact only for code points below U+0250. Every higher code point counts as neither a word character nor a digit, where Python's Unicode tables would accept letters and digits from other scripts.
- Matchers.PubTypeAt: the `\w+` word has the same U+0250 limit as above.
- Only the seven fixed patterns of the function are modelled, not a general regular-expression engine.
- `src/LDA.py`, `src/embed_sim_score.py` and `src/figure_media_index.py` (topic models, embeddings, figures) are outside this model.
