# Lok Sabha transcript and roster processing, modelled in Dafny

This project models the data-transforming core of a collection of scripts.
The scripts turn Lok Sabha debate transcripts and member lists into CSV files.

- **Header-driven segmenter** (`scraping/texttocsv_improved.py`, module `Segmenter`).
  - It cuts a transcript at speaker-header matches into an optional "Preamble" plus one segment per header.
  - When the segments cover under 90% of the transcript's words, it merges a fallback header list into the primary one. A fallback header is dropped when it lies within 5 characters of a start already taken. The transcript is then cut again.
  - It cleans speaker and speech, counts words, tags the language by Devanagari code points, and picks the year directory from the file name.
- **Strict segmenter** (`scraping/txttocsv.py`, module `StrictSegmenter`). Each marker match opens a speech that runs to the next match. It has no Preamble. It drops empty speeches and speeches with a procedural phrase.
- **First-colon pair extractor** (`synopsis_analysis/analysis/extract_pairs.py`, module `PairExtractor`). Each matched chunk is split at its first colon. The pieces are stored in an insertion-ordered dictionary `SpeakerTable`, where a later speech overwrites an earlier one. The dictionary's items become the CSV rows.
- **Roster table flattening** (`metadata/scraping.py`, module `RosterTables`).
  - Each row of a wikitable is flattened by repeating a cell's text once per column it spans.
  - The first row is the header. Data rows are padded with `''` or cut to the header's width.
  - The rows of all tables are concatenated.

Shared modules:
- `PyText` models the Python string operations the scripts use: `str.isspace`, `strip`, `rstrip`, `split()`, `replace`, `re.sub(r'\s+', ' ', …)` and slicing. It also defines `JoinWords`, which is `" ".join` of a word list. No script calls it; it is the reference value that `Segmenter.CleanSpeechIsJoinOfWords`, `Segmenter.CleanSpeakerIsTrimmedJoin` and `StrictSegmenter.SpeakerLabelIsJoinOfWords` compare against.
- `Sequences` holds generic map and filter functions.
- `Wrappers` holds `Option` and `Result`.

Regular expressions are not modelled. Each `re.finditer` result is an input: a sequence of match spans inside the text, in order and not overlapping, which is what `finditer` guarantees. An exception that ends a script is modelled as the `Failure` case of a `Result`.

The loops of the source are methods: `ExtractSegments`, `MergeAndSortHeaders`, `BuildRows`, `ProcessFile`, `ExtractSpeechesStrict`, `ExtractPairs`, `AppendCopies`, `ExtractTableWithColspan`, `AdjustRows` and `ScrapeTables`. Each is proved equal to a specification function. The properties are proved about those functions.

## Model

| member | source | states |
|---|---|---|
| Segmenter.CleanSpeaker | scraping/texttocsv_improved.py:15-18 | the cleaned speaker has no newline or CR, no whitespace run, no outer whitespace, and does not begin or end with `*`, space or `-` |
| Segmenter.CleanSpeakerFixedPoint | scraping/texttocsv_improved.py:15-18 | a speaker that already has these properties is returned unchanged |
| Segmenter.CleanSpeakerIdempotent | scraping/texttocsv_improved.py:15-18 | cleaning a cleaned speaker changes nothing |
| Segmenter.CleanSpeakerIsTrimmedJoin | scraping/texttocsv_improved.py:15-18 | the cleaned speaker is the name's `split()` words joined by single spaces, with `*`, space and `-` stripped from both ends |
| Segmenter.CleanSpeech | scraping/texttocsv_improved.py:20-29 | the cleaned speech is single-spaced, with no leading or trailing whitespace |
| Segmenter.CleanSpeechIsJoinOfWords | scraping/texttocsv_improved.py:20-29 | the cleaned speech is `" ".join(s.split())`: it keeps every word and the word count |
| Segmenter.ContainsDevanagari | scraping/texttocsv_improved.py:31-32 | true exactly when some character lies in U+0900..U+097F |
| Segmenter.FindYearFrom | scraping/texttocsv_improved.py:83 | the leftmost offset at or after i where a year 2015 to 2020 stands as a whole word, or none when there is no such offset |
| Segmenter.DetectYear | scraping/texttocsv_improved.py:81-84 | the result is one of "2015".."2020" or "misc"; it is "misc" exactly when no year matches; otherwise it is the text of the leftmost match |
| Segmenter.SegmentsShape | scraping/texttocsv_improved.py:66-79 | no headers: exactly one Preamble holding the stripped text; otherwise as many segments as headers, or one more, with a leading Preamble exactly when the first header starts after 0 and the stripped text before it is non-empty |
| Segmenter.SegmentsFollowHeaders | scraping/texttocsv_improved.py:74-78 | after the optional Preamble, segment i has header i's speaker and the Python slice from header i's end to header i+1's start, or to the end of the text for the last header (empty when the bounds cross) |
| Segmenter.SegmentationIsLossless | scraping/texttocsv_improved.py:70-78 | for finditer headers, the text before the first header, followed by each header's matched span and its segment's speech, is the whole transcript |
| Segmenter.ExtractSegments | scraping/texttocsv_improved.py:66-79 | the loop returns the segments the specification function describes |
| Segmenter.AcceptedAreFar | scraping/texttocsv_improved.py:56-62 | every accepted fallback header comes from the fallback list and is at least 5 away from every primary start |
| Segmenter.AcceptedAreSpaced | scraping/texttocsv_improved.py:58-62 | accepted fallback headers are pairwise at least 5 apart, since an accepted start joins `existing_starts` |
| Segmenter.FallbackDecision | scraping/texttocsv_improved.py:59-62 | fallback header j is appended exactly when its start is at least 5 away from every start accepted before it; otherwise it is skipped; earlier decisions are never revised |
| Segmenter.SortByStart | scraping/texttocsv_improved.py:63 | the sort is a permutation of its input |
| Segmenter.SortByStartIsStable | scraping/texttocsv_improved.py:63 | the sort is stable: for every start value, the headers with that start appear in the same order as in the input |
| Segmenter.SortByStartOrders | scraping/texttocsv_improved.py:63 | the sorted list is ordered by start, and strictly so when no two starts are equal |
| Segmenter.MergedHeaders | scraping/texttocsv_improved.py:56-64 | the merged list is a permutation of the primary headers plus the accepted fallback headers, no shorter than the primary list and no longer than both lists together |
| Segmenter.MergedHeadersOrdered | scraping/texttocsv_improved.py:56-64 | every primary header is kept; the result is sorted by start, and strictly when the primary list comes from finditer |
| Segmenter.MergeAndSortHeaders | scraping/texttocsv_improved.py:56-64 | the copy, append and sort loop returns the merged list |
| Segmenter.NeedsFallbackIsRatioBelow | scraping/texttocsv_improved.py:96-98 | the integer test `10*extr < 9*orig` with `orig != 0` is exactly `orig and extr/orig < 0.9` over the reals |
| Segmenter.FinalHeadersFacts | scraping/texttocsv_improved.py:90-102 | without low coverage the headers used are the primary ones; in every case they include every primary header, in strictly increasing start order, with at most one added per fallback header |
| Segmenter.FallbackHeadersFromMatches | scraping/texttocsv_improved.py:49-54 | each fallback match gives one header in order, with its span and the pattern's group as speaker, so finditer's guarantees carry over |
| Segmenter.RowFacts | scraping/texttocsv_improved.py:104-114 | a row's speech is the segment's words joined by single spaces; Words_in_Speech is their count; the language is "hi" exactly when the speech holds a Devanagari character, else "en"; the speaker is clean |
| Segmenter.BuildRows | scraping/texttocsv_improved.py:105-114 | one row per segment, in segment order |
| Segmenter.ProcessFile | scraping/texttocsv_improved.py:90-119 | the rows are those of the final header list, and the year directory is that of the file name |
| Segmenter.NoHeadersOneRow | scraping/texttocsv_improved.py:68-69 | a transcript without primary headers never takes the fallback pass; it yields one Preamble row holding the whole whitespace-normalised text and its word count |
| Segmenter.EmptyTranscriptOneRow | scraping/texttocsv_improved.py:68-69 | an empty transcript yields one row: an empty Preamble with 0 words, tagged "en" |
| Segmenter.PreambleIsClean | scraping/texttocsv_improved.py:107 | the label "Preamble" survives speaker cleaning unchanged |
| Segmenter.FallbackPassRaises | scraping/texttocsv_improved.py:47-53 | as written, processing fails exactly when the fallback pass runs and the fallback pattern matches at least once; otherwise it writes the rows of the corrected model |
| StrictSegmenter.SpeakerLabelIsJoinOfWords | scraping/txttocsv.py:45-46 | the speaker label is the words of the match, with its trailing colons removed, joined by single spaces |
| StrictSegmenter.CandidateSpeechWithin | scraping/txttocsv.py:48-51 | the speech of match i is a piece of the text after match i's end and before match i+1's start (or the end of the text), so it never takes text from a neighbouring speech |
| StrictSegmenter.StrictRowsAreKeptCandidates | scraping/txttocsv.py:43-59 | row k is the candidate of the k-th kept match, in match order; there are at most as many rows as matches; a match gives a row exactly when its speech is non-empty and not procedural |
| StrictSegmenter.ProceduralPhraseAnywhere | scraping/txttocsv.py:56 | a speech is procedural when one of the four phrases stands anywhere in it between word boundaries |
| StrictSegmenter.ProceduralIgnoresCase | scraping/txttocsv.py:56 | the search ignores case: two speeches equal up to ASCII case are both procedural or both not |
| StrictSegmenter.ShortIsNotProcedural | scraping/txttocsv.py:56 | a speech shorter than the shortest phrase (11 characters) is never procedural |
| StrictSegmenter.CandidateLabelsCanonical | scraping/txttocsv.py:45-46 | every speaker label is single-spaced, with no outer whitespace |
| StrictSegmenter.StrictRowsAreClean | scraping/txttocsv.py:53-59 | every row has a non-empty, non-procedural speech and a single-spaced speaker |
| StrictSegmenter.ExtractSpeechesStrict | scraping/txttocsv.py:40-59 | the match loop with its two `continue` filters returns the kept candidates |
| PairExtractor.FindColon | synopsis_analysis/analysis/extract_pairs.py:26-27 | none exactly when there is no colon; otherwise the index of the first colon |
| PairExtractor.ChunkHasPair | synopsis_analysis/analysis/extract_pairs.py:23-27 | a chunk gives a pair exactly when it contains a colon |
| PairExtractor.SplitChunkFacts | synopsis_analysis/analysis/extract_pairs.py:23-29 | the speaker is the stripped text before the first colon and holds no colon; the speech is the stripped text after it; both have no outer whitespace |
| PairExtractor.Pairs | synopsis_analysis/analysis/extract_pairs.py:22-32 | at most one stored pair per chunk |
| PairExtractor.SpeechMapFacts | synopsis_analysis/analysis/extract_pairs.py:32 | the dictionary holds a speaker exactly when some pair names it, and then holds that speaker's last speech |
| PairExtractor.SpeakerOrderFacts | synopsis_analysis/analysis/extract_pairs.py:32 | the keys are distinct, are exactly the speakers named, and are in order of first mention |
| PairExtractor.StoreStep | synopsis_analysis/analysis/extract_pairs.py:32 | storing a pair appends a new speaker to the keys and keeps an old one in place; the speech always overwrites |
| PairExtractor.DictionaryShape | synopsis_analysis/analysis/extract_pairs.py:32 | the dictionary's keys are its key order, without repetition |
| PairExtractor.SpeakerTable.constructor | synopsis_analysis/analysis/extract_pairs.py:16 | the dictionary starts empty |
| PairExtractor.SpeakerTable.Put | synopsis_analysis/analysis/extract_pairs.py:32 | a new key goes last, an existing key keeps its place, the speech overwrites, and the key/value invariant is kept |
| PairExtractor.ExtractPairs | synopsis_analysis/analysis/extract_pairs.py:16-39 | the match loop over the dictionary, then the row list, gives the rows of the specification |
| PairExtractor.RowsOfPairsAt | synopsis_analysis/analysis/extract_pairs.py:39 | row k holds the k-th key and its stored speech |
| PairExtractor.RowCount | synopsis_analysis/analysis/extract_pairs.py:32-39 | there are as many rows as distinct speakers |
| PairExtractor.RowsInFirstMentionOrder | synopsis_analysis/analysis/extract_pairs.py:32-39 | no speaker has two rows, and rows follow the order of each speaker's first insertion |
| PairExtractor.RowsHoldLastSpeeches | synopsis_analysis/analysis/extract_pairs.py:32-39 | every row carries its speaker's last speech, and every speaker has a row |
| PairExtractor.PairsEmpty | synopsis_analysis/analysis/extract_pairs.py:22-32 | nothing is stored exactly when no chunk has a colon |
| PairExtractor.NoPairsNoRows | synopsis_analysis/analysis/extract_pairs.py:35-39 | there are no rows exactly when no chunk has a colon |
| RosterTables.ParseIntOfDecimal | metadata/scraping.py:39 | `int()` reads back every integer `str()` writes, that is every integer of at most 4300 digits, bare or padded with whitespace that `int()` skips (every `str.isspace` character except U+001C..U+001F) |
| RosterTables.ParseIntOfStripped | metadata/scraping.py:39 | for n of at most 4300 digits, `int()` of any text that is `str(n)` once the whitespace `int()` skips is removed from both ends is n |
| RosterTables.ParseIntRejectsLong | metadata/scraping.py:39 | a literal of more than 4300 digits, leading zeros included, makes `int()` raise the digit-limit error |
| RosterTables.ParseIntRejects | metadata/scraping.py:39 | text that, once that whitespace is removed, is empty or is not an optional sign followed by digits makes `int()` raise |
| RosterTables.ParseIntRejectsSeparator | metadata/scraping.py:39 | a U+001C..U+001F character before `str(n)` is removed by `str.strip()` but makes `int()` raise, so a colspan of "\x1c2" stops the script |
| RosterTables.RowCellsFails | metadata/scraping.py:34-43 | a row fails to flatten exactly when one of its colspans does not parse |
| RosterTables.RowLayout | metadata/scraping.py:34-43 | the flattened row is as long as the sum of the colspans (absent counts 1, zero or less counts 0); cell i fills the consecutive columns that start at the total width of the cells before it |
| RosterTables.RowLength | metadata/scraping.py:34-43 | the flattened row is as long as the sum of the cells' widths |
| RosterTables.RowColumn | metadata/scraping.py:34-43 | a column covered by cell i's span holds cell i's text |
| RosterTables.WidthFits | metadata/scraping.py:34-43 | each cell's span ends within the row's width |
| RosterTables.RowWithoutColspans | metadata/scraping.py:34-43 | without colspan attributes a row flattens to its cells' texts |
| RosterTables.ExtractedRowsFails | metadata/scraping.py:25-48 | extraction fails exactly when some row fails to flatten |
| RosterTables.ExtractedRowsStop | metadata/scraping.py:25-48 | the first colspan that does not parse gives the error of the whole table |
| RosterTables.ExtractedRowsAreNonEmptyRows | metadata/scraping.py:32-46 | a successful extraction is the flattened rows that are not empty, in table order |
| RosterTables.ExtractedRowsFacts | metadata/scraping.py:32-46 | every extracted row is non-empty; the rows are the non-empty flattened rows at increasing positions, and a row is kept exactly when its flattening is non-empty |
| RosterTables.Adjust | metadata/scraping.py:71-76 | the adjusted row is exactly n wide; it keeps the row's prefix, pads with `''`, and leaves a row of width n unchanged |
| RosterTables.AdjustAllFacts | metadata/scraping.py:68-76 | one adjusted row per data row, in order, each exactly n wide |
| RosterTables.TableDataFacts | metadata/scraping.py:59-92 | a table with no rows or only a header adds nothing; otherwise it adds one row per data row, each as wide as the non-empty header |
| RosterTables.AllDataCount | metadata/scraping.py:95-97 | the combined row count is the sum of the per-table counts |
| RosterTables.AllDataFails | metadata/scraping.py:53-57 | the script fails exactly when one of the tables does |
| RosterTables.AppendCopies | metadata/scraping.py:42-43 | the inner loop appends max(colspan, 0) copies of the text |
| RosterTables.ExtractTableWithColspan | metadata/scraping.py:25-48 | the nested loops return the extracted rows, or the error of the first colspan that does not parse |
| RosterTables.AdjustRows | metadata/scraping.py:68-76 | the adjusting loop returns the adjusted data rows |
| RosterTables.ScrapeTables | metadata/scraping.py:51-97 | the loop over tables and the final concatenation give the master rows, or the first error |
| PyText.Collapse | scraping/texttocsv_improved.py:17 | `re.sub(r'\s+', ' ', s)` is single-spaced, empty only for empty input, and keeps whether each end is whitespace |
| PyText.WordsOfCollapse | scraping/texttocsv_improved.py:28 | collapsing whitespace keeps the words |
| PyText.WordsOfStrip | scraping/texttocsv_improved.py:96-97 | stripping keeps the words |
| PyText.CanonicalIsJoinOfWords | scraping/texttocsv_improved.py:28-29 | a single-spaced string without outer whitespace is the join of its words |
| PyText.PySlice | scraping/texttocsv_improved.py:77 | Python slicing: the plain slice within bounds, clamped at the end of the text, and empty when the bounds cross |
| PyText.StripIsSlice | scraping/txttocsv.py:51 | `strip()` is the slice that starts after the leading whitespace |

## Findings

| source | as written | input that shows it | evidently intended | confidence | as-written member | corrected member |
|---|---|---|---|---|---|---|
| scraping/texttocsv_improved.py:47-53 | `find_headers` reads `m.group("speaker")`, but the fallback pattern has only one group, and it has no name, so the lookup raises IndexError | a transcript whose primary headers cover under 90% of its words and that has one upper-case header line, e.g. `SHRI RAM LAL:\nyes` with that one primary header | read the fallback speaker from the pattern's group 1 | high, not executed | Segmenter.FallbackPassRaises | Segmenter.FallbackHeadersFromMatches |

`Segmenter.FileRowsAsWritten` models the code as written. `Segmenter.FallbackPassRaises` proves that it fails exactly when the fallback pass runs on at least one match. In every other case it agrees with the corrected model. `Segmenter.ProcessFile` uses the corrected `FindFallbackHeaders`.

## Left out

- The regular expressions are not modelled: the header patterns, the marker pattern, the pair pattern and `fix_hyphenation`. Their `finditer` results are inputs, and the model assumes only what `finditer` guarantees.
- `PRESERVE_PARAGRAPHS = True` is not modelled. It is off in the source, and it is lookaround-regex work.
- `\w`, which decides `\b` in the year and procedural-phrase patterns, is taken as ASCII `[A-Za-z0-9_]`.
- `re.IGNORECASE` is taken as ASCII case folding. Python's Unicode word characters and full case folding are not modelled.
- `int()` is modelled for ASCII digits with an optional sign and surrounding whitespace. The whitespace it skips is the `str.isspace` class without U+001C..U+001F. The default limit of 4300 digits (`sys.set_int_max_str_digits` is never called) is modelled. Underscores between digits and non-ASCII digits are not accepted by the model. Each error text is a constant prefix of Python's message.
- `get_text(strip=True)` and the `colspan` attribute lookup are done by BeautifulSoup. A cell is given as its text and its attribute.
- `pd.concat` aligns columns by header name. The model concatenates the adjusted rows and does not track column names. So the model's concatenation always succeeds, but `pd.concat` at metadata/scraping.py:97 can raise when the tables' header rows differ and one of them repeats a column name, as a header cell with a colspan does.
- `pd.DataFrame` construction, the CSV writing and the 'utf-8-sig' encoding are not modelled. When no table adds rows, the source writes no file; the model yields no rows.
- Segmenter.NeedsFallbackIsRatioBelow: the floating-point division `extr_wc / orig_wc` is taken as exact; rounding could only make the two tests differ for word counts far beyond any transcript (around 10^15).
- Reading and writing files, the HTTP fetch, directory iteration, printing and the JSON dump are I/O and are not modelled.
- The Selenium transcript downloader, the papermill batch scripts and the PDF text dump are not part of this model.
- The year directory is computed, but creating it is left out.
