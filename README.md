# Publication list converter, modelled in Dafny

The script `publication/process_publications.py` turns a plain-text
bibliography into one Markdown page per entry. It has identical English
(`en/`) and Chinese (`zh/`) copies. It works in three stages.

- **Segmentation** (`process_new_txt`). A cursor walks the lines of
  `new.txt`. A line starts an entry when, after `strip()`, it begins with
  digits and a dot, or with Chinese numeral glyphs and a full-width colon.
  That line is grouped with up to two following lines. Blank lines are
  skipped but still take a place in the window. Collection stops early at
  the next start line, which is not consumed.
- **Parsing** (`parse_publication_entry`). A group of at least three
  lines goes to the parser. It reads:
  - the number and title from the first line, using the Arabic pattern
    first and the Chinese pattern second;
  - the authors from the second line and the venue from the third;
  - a four-digit year in half-width or full-width brackets from the venue
    line, with the fallback `2015`;
  - a language tag.
- **Emission** (`create_index_md`). Each parsed entry is written as
  front matter to `<number>/index.md`, overwriting whatever was there.

The project has five modules, one per file.

- `text.dfy` (`Text`) models:
  - CPython's whitespace set, as used by `str.strip()` and the regex
    class `\s`;
  - the digits of `\d`;
  - greedy character runs;
  - `strip()`;
  - the splitting of a document into lines.
- `publication.dfy` (`Publication`) models the parser. The two heading
  patterns are hand-written over character sequences, and each is proved
  to accept exactly the lines of a stated shape. The year search is a
  leftmost-match function.
- `index_md.dfy` (`IndexMd`) models the emitter:
  - the template, as a pure `Render`;
  - a reader `ReadIndexMd`, used only to state that a document gives its
    fields back (the script has no reader);
  - the output tree, as a class whose `files` map sends a directory name
    to the content of its `index.md`.
- `segmenter.dfy` (`Segmenter`) models the loop in two layers.
  - A functional layer works over the sequence of line kinds (start,
    blank, other). `SegmentsFrom` gives the groups the loop collects, and
    `Emitted` gives the records that come out of them.
  - The imperative layer is `ProcessNewTxt` with its inner loop
    `CollectEntry`. Both are proved against the functional layer. The
    output tree ends up as if every emitted entry had been written in
    order.
- `two_entries.dfy` (`TwoEntryInput`) follows one input of six lines, an
  English entry numbered `1` and a Chinese entry numbered `二`, through
  classification, segmentation and parsing to the two directories `1` and
  `c2` it writes.

A blank line in the window does not end collection: the loop skips it,
counts it towards the two-line window, and goes on.

## Model

| member | source | states |
|---|---|---|
| Text.Strip | en/publication/process_publications.py:10 | `strip()` leaves no whitespace at either end and never lengthens its input |
| Text.StripSlice | en/publication/process_publications.py:10 | the stripped text is one contiguous piece of the input, with only whitespace cut from each side |
| Text.StripIdempotent | en/publication/process_publications.py:10 | stripping a stripped line changes nothing |
| Text.StripLineEnd | zh/publication/process_publications.py:90-98 | a stripped, non-empty line read with its newline strips back to itself |
| Text.StripTextLine | zh/publication/process_publications.py:90 | a line as `readlines()` yields it holds no newline once stripped |
| Text.SpanIs | en/publication/process_publications.py:17 | a greedy run is the unique prefix of matching characters that cannot be extended |
| Text.SplitJoin | en/publication/process_publications.py:66-75 | splitting a document into lines recovers the lines it was written from, when none holds a newline |
| Publication.KindName | en/publication/process_publications.py:46 | the language tag is a non-empty single-line string |
| Publication.ChineseNumber | en/publication/process_publications.py:27 | a Chinese number always begins with `c` |
| Publication.ChineseNumberTail | en/publication/process_publications.py:13-27 | after the `c` comes a decimal numeral for a glyph in the table, and the glyphs themselves otherwise |
| Publication.ChineseNumberInjective | en/publication/process_publications.py:13-27 | distinct glyph runs give distinct directory names |
| Publication.ChineseNumberExamples | en/publication/process_publications.py:13-14 | 一, 三 and 十 map to `c1`, `c3` and `c10`; 十一 falls back to `c十一` |
| Publication.MatchesArabicStart | zh/publication/process_publications.py:101 | a line passing the loose Arabic start test begins with a digit and holds a dot |
| Publication.ArabicStartMatchesShape | zh/publication/process_publications.py:101 | the loose Arabic start test accepts exactly the lines made of digits, a dot and anything after it |
| Publication.MatchesChineseStart | zh/publication/process_publications.py:101 | a line passing the loose Chinese start test holds a full-width colon, and a stripped one begins with a numeral glyph |
| Publication.ChineseStartMatchesShape | zh/publication/process_publications.py:101 | the loose Chinese start test accepts exactly the lines made of whitespace, numeral glyphs, `：` and anything after it |
| Publication.ChineseStartIsShape | zh/publication/process_publications.py:101 | every line the loose Chinese start test accepts splits into whitespace, glyphs, `：` and a rest |
| Publication.ChineseShapeStarts | zh/publication/process_publications.py:101 | every line of that split passes the loose Chinese start test |
| Publication.MatchArabic | en/publication/process_publications.py:17 | a match gives a non-empty number and a non-empty, single-line title |
| Publication.MatchChinese | en/publication/process_publications.py:22 | a match gives non-empty glyphs and a non-empty, single-line title |
| Publication.ArabicMatchShape | en/publication/process_publications.py:17 | on a stripped line, the Arabic pattern matches with groups (n, t) exactly when the line is digits n, a dot, a whitespace run and a title t |
| Publication.ArabicShapeMatches | en/publication/process_publications.py:17 | every line of Arabic shape matches, with its digits and its title as the groups |
| Publication.ArabicMatchIsShape | en/publication/process_publications.py:17 | every match comes from a line of Arabic shape |
| Publication.ChineseMatchShape | en/publication/process_publications.py:22 | on a stripped line, the Chinese pattern matches with groups (g, t) exactly when the line is glyphs g, `：` and a title t taken verbatim |
| Publication.ChineseShapeMatches | en/publication/process_publications.py:22 | every line of Chinese shape matches, with its glyphs and the whole rest as the groups |
| Publication.ChineseMatchIsShape | en/publication/process_publications.py:22 | every match comes from a line of Chinese shape |
| Publication.ShapesExclusive | en/publication/process_publications.py:17-22 | no line has both shapes, so trying the Arabic pattern first never hides a Chinese heading |
| Publication.FindYear | en/publication/process_publications.py:42 | the search returns a bracketed four-digit match with no match before it, and returns nothing only when no match exists |
| Publication.YearOf | en/publication/process_publications.py:42-43 | the year is always four digits |
| Publication.YearOfLeftmost | en/publication/process_publications.py:42-43 | the year is the digits of the leftmost match |
| Publication.YearOfFallback | en/publication/process_publications.py:43 | with no match the year is `2015` |
| Publication.YearOfHalfWidth | en/publication/process_publications.py:42 | `(2020)` gives 2020 |
| Publication.YearOfFullWidth | en/publication/process_publications.py:42 | `（2019）` gives 2019 |
| Publication.YearOfMixedBrackets | en/publication/process_publications.py:42 | `(2020）` gives 2020: the bracket styles may mix |
| Publication.YearOfNoBrackets | en/publication/process_publications.py:43 | a venue line without brackets gives the fallback |
| Publication.YearOfFiveDigits | en/publication/process_publications.py:42 | `(20201)` is no match and gives the fallback |
| Publication.ParseEntry | en/publication/process_publications.py:5-55 | an entry has a non-empty number, and its year is the year its venue text gives |
| Publication.ParsedFields | en/publication/process_publications.py:26-43 | the number is non-empty; it is all digits for an English entry and begins with `c` for a Chinese one; the year has four digits |
| Publication.ParsedSingleLine | en/publication/process_publications.py:33-43 | from lines as `readlines()` yields them, no field of the entry holds a newline |
| Publication.ParseArabic | en/publication/process_publications.py:17-46 | an Arabic-shaped first line, and only such a line, gives its digits as number, its title, the stripped lines 2 and 3 (or empty), their year and the English tag |
| Publication.ParseChinese | en/publication/process_publications.py:21-46 | a Chinese-shaped first line, and only such a line, gives the mapped number, the verbatim title, lines 2 and 3, their year and the Chinese tag |
| Publication.ParseNone | en/publication/process_publications.py:17-29 | the parser returns nothing exactly when the stripped first line has neither the Arabic nor the Chinese heading shape |
| Publication.ParseImpliesStart | en/publication/process_publications.py:17-29 | a line the parser accepts passes the loose start test the loop uses |
| Publication.ParseDecidedByFirst | en/publication/process_publications.py:10-29 | whether an entry comes out depends on the first line alone |
| Publication.ParseRejectsNoSpace | en/publication/process_publications.py:17-29 | `3.Title` passes the loose start test, yet the parser returns nothing |
| Publication.ParseRejectsBareNumber | en/publication/process_publications.py:29 | `3.` alone gives nothing |
| Publication.ParseRejectsUnnumbered | en/publication/process_publications.py:29 | a line with no number gives nothing |
| Publication.NumbersDisjoint | en/publication/process_publications.py:27-31 | an English and a Chinese entry never share a number |
| IndexMd.Render | en/publication/process_publications.py:66-75 | the document starts with a `---` line and ends with one |
| IndexMd.RenderSplits | en/publication/process_publications.py:66-75 | the document consists of exactly the nine template lines |
| IndexMd.ReadFields | en/publication/process_publications.py:67-73 | the title, author, venue, year and type lines give back their fields; `doi` is empty and `publication_types` has one element |
| IndexMd.RenderReadBack | en/publication/process_publications.py:66-75 | the document is the nine template lines and reads back to the entry's fields |
| IndexMd.RenderInjective | en/publication/process_publications.py:66-75 | two entries with the same document agree on every field the document shows |
| IndexMd.KindOfName | en/publication/process_publications.py:73 | the tag read back names the kind that was written |
| IndexMd.Written | en/publication/process_publications.py:62-80 | after a write, the entry's directory holds its document and every other directory is unchanged |
| IndexMd.WrittenIdempotent | en/publication/process_publications.py:79-80 | writing the same entry twice leaves what writing it once leaves |
| IndexMd.WriteAllLast | en/publication/process_publications.py:78-80 | a directory written several times holds the last entry written to it |
| IndexMd.WriteAllUntouched | en/publication/process_publications.py:78-80 | a directory no entry names keeps its old content, or stays absent |
| IndexMd.OutputTree.constructor | zh/publication/process_publications.py:93 | the tree starts with the given directories |
| IndexMd.OutputTree.CreateIndexMd | en/publication/process_publications.py:57-80 | the tree after the call is the old tree with the entry written |
| Segmenter.Classify | zh/publication/process_publications.py:98-101 | a line is blank exactly when it strips to nothing |
| Segmenter.KindsAt | zh/publication/process_publications.py:98-101 | each line's kind is the result of its start test and then its blank test |
| Segmenter.PlainLineIsOther | zh/publication/process_publications.py:109-113 | a stripped line beginning with neither a digit nor a numeral glyph is a body line |
| Segmenter.Stop | zh/publication/process_publications.py:107-112 | collection stops at the first start line among the next two; otherwise at the end of the window or of the input |
| Segmenter.BodyBefore | zh/publication/process_publications.py:107-114 | the kept lines are exactly the non-blank lines of the window, in order |
| Segmenter.SegmentAt | zh/publication/process_publications.py:103-115 | at most two body lines, all between the start and the stop, none blank and none a start; every such line is kept, in order |
| Segmenter.SegmentsFrom | zh/publication/process_publications.py:96-125 | every segment from cursor i starts at or after i and inside the input |
| Segmenter.SegmentsValid | zh/publication/process_publications.py:96-125 | every segment is collected at a start line and names only lines of the input |
| Segmenter.SegmentNonEmpty | zh/publication/process_publications.py:104-108 | every segment holds at least its start line |
| Segmenter.SegmentsOrdered | zh/publication/process_publications.py:123 | each segment ends at or before the start of every later one |
| Segmenter.StartLineOpens | zh/publication/process_publications.py:101-123 | a start line at or after the cursor opens a segment, even one met inside an earlier window |
| Segmenter.StartsAreSegmented | zh/publication/process_publications.py:101-125 | a line opens a segment exactly when it is a start line |
| Segmenter.NoLineTwice | zh/publication/process_publications.py:96-125 | no line belongs to two segments |
| Segmenter.ResumesAtStop | zh/publication/process_publications.py:111-123 | a start line that stops a window is not consumed: the next segment begins there |
| Segmenter.PastFullWindowUnused | zh/publication/process_publications.py:107-125 | a non-start line just past a full window belongs to no segment |
| Segmenter.SkippedLineUnused | zh/publication/process_publications.py:124-125 | a non-start line at the cursor is stepped over and belongs to no segment |
| Segmenter.FullWindows | zh/publication/process_publications.py:107-118 | a segment has two body lines exactly when both lines after its start exist and are body lines |
| Segmenter.GroupLines | zh/publication/process_publications.py:103-115 | a collected group has at most three lines: a start line, then lines that strip to non-empty text and pass neither start test |
| Segmenter.Outcome | zh/publication/process_publications.py:118-121 | only a segment with two body lines yields an entry |
| Segmenter.OnlyFullGroupsParsed | zh/publication/process_publications.py:118-121 | a segment yields an entry exactly when both lines after its start are body lines and the three-line group parses |
| Segmenter.RecordsOfExactly | zh/publication/process_publications.py:118-121 | a record is emitted exactly when some segment has its start line and parses to its entry |
| Segmenter.Emitted | zh/publication/process_publications.py:96-125 | every emitted record names a start line of the input |
| Segmenter.RecordsAtStarts | zh/publication/process_publications.py:101-121 | every record of a run of segments names a start line of the input |
| Segmenter.RecordsInOrder | zh/publication/process_publications.py:118-123 | records follow the order of their segments |
| Segmenter.EmittedInOrder | zh/publication/process_publications.py:96-125 | entries are emitted in strictly increasing order of their start lines |
| Segmenter.OutcomeReadBack | zh/publication/process_publications.py:118-121 | an entry parsed from a group of text lines renders to a document that reads back |
| Segmenter.EmittedReadBack | zh/publication/process_publications.py:89-121 | every emitted entry renders to a document that reads back to its fields |
| Segmenter.EmitStep | zh/publication/process_publications.py:118-121 | handling one more segment writes its entry, if it has one, after everything written before |
| Segmenter.CollectedIsPick | zh/publication/process_publications.py:107-115 | what the inner loop has gathered up to `j` is the start line plus the non-blank lines before `j` |
| Segmenter.CollectedIsGroup | zh/publication/process_publications.py:107-115 | when the inner loop exits, it has stopped where the segment stops and holds the segment's group |
| Segmenter.LineKindAt | zh/publication/process_publications.py:109-113 | the inner loop's strip, start test and blank test compute the line's kind |
| Segmenter.CollectEntry | zh/publication/process_publications.py:103-115 | the inner loop returns the segment's group and its stop index |
| Segmenter.ProcessNewTxt | zh/publication/process_publications.py:96-125 | the loop terminates, and the output tree is the old tree with every emitted entry written in order |
| Segmenter.BlankLineShortensWindow | zh/publication/process_publications.py:107-115 | a blank line uses up a place in the window: the entry keeps one body line and the line after the window is dropped |
| Segmenter.BlankInWindow | zh/publication/process_publications.py:107-115 | start, body, start, body, blank, body: two segments of one body line each, and the last line is dropped |
| Segmenter.KindsAppend | zh/publication/process_publications.py:96-101 | each line is classified on its own, so the kinds of two inputs put together are the two kinds put together |
| Segmenter.EmittedOfTwo | zh/publication/process_publications.py:96-125 | an input that segments into two segments emits their records in order |
| Segmenter.RejectedStartConsumesWindow | zh/publication/process_publications.py:101-123 | a start line the parser rejects still takes its window, so later segments begin after it, but it yields no record |
| TwoEntryInput.TwoFullWindows | zh/publication/process_publications.py:96-125 | two start lines, each followed by two body lines, make two full segments |
| TwoEntryInput.EnglishLinesParse | en/publication/process_publications.py:5-55 | `1. A`, `B`, `C (2021)` parse to number `1`, title `A`, authors `B`, venue `C (2021)`, year 2021, English |
| TwoEntryInput.ChineseLinesParse | en/publication/process_publications.py:5-55 | `二：D`, `E`, `F（2018）` parse to number `c2`, title `D`, authors `E`, venue `F（2018）`, year 2018, Chinese |
| TwoEntryInput.HalvesEmitted | zh/publication/process_publications.py:96-125 | two three-line groups, one after the other, emit the entries they parse to, in order |
| TwoEntryInput.TwoEntriesEmitted | zh/publication/process_publications.py:96-125 | the English and the Chinese entry are emitted, in that order, from lines 0 and 3 |
| TwoEntryInput.TwoEntriesWritten | zh/publication/process_publications.py:96-125 | processing the input writes directory `1` and then directory `c2` |

## Left out

- Reading `new.txt` (`open`, `readlines`, UTF-8 decoding) is left out. `ProcessNewTxt` takes the list of lines as given. `EmittedReadBack` assumes they are lines as `readlines()` yields them.
- The file system is left out: `os.path.dirname`, `os.path.join`, `os.makedirs`, and writing and encoding `index.md`. The output directory is a map from directory name to file content.
- The `print` calls and the `__main__` block are left out, since they are console output and an existence check with no logic. This covers the confirmation line, the file-found checks, the line count and the last-line preview.
- The unused `Path` import is left out.
- Uniqueness of `number` is not claimed, because the script does not enforce it. `WriteAllLast` states what happens instead: the last entry written wins.
- Text.IsDigit: `\d` is modelled as ASCII and full-width digits only. Python's `\d` also matches the decimal digits of other scripts.
- Text.IsSpace: whitespace is CPython's set for `str` objects. Locale and bytes semantics are not modelled.
- Publication.MatchArabic: it equals `re.match` only on stripped lines with no ending newline. The script only ever applies it to `strip()`ed text, so `\s+` keeps its longest run and `.+$` takes the rest.
- Publication.MatchChinese: the same restriction applies. On a stripped line the leading `\s*` matches nothing.
- IndexMd.ReadIndexMd: no such reader exists in the script. It is part of the model, to state that the document gives its fields back.
