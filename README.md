# usi-transcript-parser, modelled in Dafny

This project models the text-to-records pipeline of `extract_pdf.py`. The pipeline turns the page text of
PDF academic transcripts into rows of the form `[name, result, code, title]`:

- **Sanitiser.** A font-encoding artifact that text extraction leaves behind, `(IdenƟĮer) - (FIⁱⁱ)`
  followed by a line break, is rewritten to `---` followed by a line break.
- **Name extractor.** Every line directly above a page footer `Page N of M` is a candidate. The footer has
  a no-break space (U+00A0) and then a space after `Page`. The most
  frequent candidate wins and is title-cased. A text without a footer has no name (`None`).
- **Course-block extractor.** It finds blocks made of one or two title lines, a result line, a code line
  `(CODE) - (OTHER)` and a date-range line, and emits `[code, title, result]` for each block.
- **Per-document assembly.** `process_pdf` gives each course a row `[name, result, code, title]`.
- **Merge, sort and filter.** `process_all_pdfs` concatenates the rows of all documents and stable-sorts
  them by `(name, title)`. It then keeps the rows whose title is in the configured target list.
- **Target loader.** The target file's lines are stripped and upper-cased. Duplicates and empty entries are
  dropped and the rest is sorted. A file that cannot be read gives `[]`.

The files of the model:

| file | module | what it holds |
|---|---|---|
| `text.dfy` | `Options`, `Text` | ASCII definitions of the Python string primitives used (`strip`, `upper`, `title`, `split('\n')`, literal `re.sub`, string order) |
| `sanitiser.dfy` | `Sanitiser` | `__sanitise_text` |
| `targets.dfy` | `TargetCourses` | `__get_target_course_names` |
| `names.dfy` | `NameExtractor` | `__get_name_from_text` |
| `courses.dfy` | `CourseExtractor` | `__get_all_courses` |
| `rows.dfy` | `Rows` | the output row, the sort of line 223, `__filter_data` |
| `pipeline.dfy` | `Pipeline` | the page concatenation of `__get_all_text`, `process_pdf`, `process_all_pdfs` |

### How the two regular expressions are read

Both patterns are modelled on lines, as `str.split('\n')` produces them. `.` never matches a line break,
so the scan state is a pair: a line index and a column.

A match attempt that starts anywhere on a line fails or succeeds in the same way as one starting at the
current column. So after a failure the scan moves to column 0 of the next line.

**The name pattern** `(.*)\nPage\u00a0 \d+ of \d+` (a no-break space, then a space, after `Page`):
- It captures the rest of the current line when the next line begins with a footer.
- The next search starts right after the footer's last digit, on the footer line. (`NameExtractor.CandidatesFrom`)
- No capture is skipped (`NameExtractor.CandidatesComplete`).

**The course pattern:**
- The five-line shape (with a second title line) is tried before the four-line shape.
- A code line must start with `(` and end with `)`. The greedy group 4 runs up to the last `) - (` that
  leaves room for the closing parenthesis.
- A date line only needs the 21-character prefix `DD/MM/YYYY-DD/MM/YYYY`. The next search starts right
  after that prefix, so the rest of a date line is the next block's first title line.
  (`CourseExtractor.MatchesFrom`)
- No block is skipped: no block begins on a line the scan passes over (`CourseExtractor.MatchesComplete`).

### Nondeterminism and failure

**Name tie-break.** `max(set(data), key=data.count)` walks a set in hash order. `NameExtractor.MostCommon`
walks it in an arbitrary order (`:|`) and keeps the first element with a higher count. It is specified by
"some candidate of maximal count" (`NameExtractor.IsNameOf`). The rows of a document are therefore fixed
only up to that choice (`Pipeline.IsDocRows`).

**Sort failure.** Sorting by `(row[0], row[3])` compares names. When one name is `None` and another is a
string, Python raises `TypeError`. A comparison sort must compare every pair of elements that end up next
to each other, because otherwise swapping the two would agree with every comparison it made. A list holding
both kinds has such a pair of different kinds, so the sort reaches a `None`-against-string comparison
whatever its merge strategy. Every possible merge of the documents lacks a name at the same positions
(`Pipeline.MergedNameKinds`), whichever most frequent name each document gets. So whether the sort fails
does not depend on that choice. `Pipeline.ProcessAll` returns `SortFailed` exactly when there are
documents and their merged rows mix both kinds. Otherwise the order is Python's tuple order:
`Rows.KeyLess`, with `Text.LexLess` for code-point order on strings.

### What the filter compares

`__filter_data` tests `row[3]`, which line 198 fills with the course title. The target file is
`target_course_names.txt` (line 17). So the model filters on titles (`Rows.Kept`).

The targets are upper-cased but the titles are compared as extracted. A target line `Calculus` therefore
never keeps a row titled `Calculus` (`Pipeline.TargetsMatchUpperCaseTitles`).

## Model

| member | source | states |
|---|---|---|
| Text.Strip | extract_pdf.py:123 | the result is the input with its leading and trailing whitespace (and only that) removed, and has no whitespace at either end |
| Text.StripFixed | extract_pdf.py:123 | a string with no outer whitespace strips to itself |
| Text.StripKeepsAbsentChar | extract_pdf.py:123 | stripping never introduces a character the input lacks |
| Text.Upper | extract_pdf.py:41 | `upper` keeps the length and upper-cases each character in place |
| Text.TitleIsPointwise | extract_pdf.py:102 | `title` keeps the length; a cased character is upper-cased at the start or after an uncased one, lower-cased after a cased one, and other characters are kept |
| Text.TitleIdempotent | extract_pdf.py:102 | title-casing a title-cased name changes nothing |
| Text.Lines | extract_pdf.py:93 | the text always splits into at least one line, and no line holds a line break |
| Text.JoinLines | extract_pdf.py:93 | joining the lines with line breaks gives the text back |
| Text.LinesJoin | extract_pdf.py:115 | splitting a join of line-break-free lines gives those lines back |
| Text.ReplaceAllNoOccurrence | extract_pdf.py:80 | a literal replace-all leaves text without the pattern unchanged |
| Text.ReplaceAllFirstOccurrence | extract_pdf.py:80 | a literal replace-all keeps everything before the first occurrence, replaces it, and continues right after it |
| Text.ReplaceAllKeepsCount | extract_pdf.py:80 | replacing a pattern by text with as many of a character keeps that character's count |
| Text.ReplaceCharRemoves | extract_pdf.py:121 | after every line break becomes a space, no line break is left |
| Text.LexTransitive | extract_pdf.py:223 | Python's string order is transitive |
| Text.LexTotal | extract_pdf.py:45 | of two different strings, one is below the other |
| Text.LexAsymmetric | extract_pdf.py:223 | Python's string order is asymmetric |
| Text.LexIrreflexive | extract_pdf.py:223 | no string is below itself |
| Sanitiser.Sanitise | extract_pdf.py:80 | `re.sub` with a pattern that has no special characters: every occurrence of the artifact, found left to right without overlap, becomes `---` and a line break; the lemmas below state what that gives |
| Sanitiser.SanitiseNoArtifact | extract_pdf.py:80 | text without the artifact is returned unchanged |
| Sanitiser.SanitiseFirstArtifact | extract_pdf.py:80 | text before the first artifact is kept, the artifact becomes `---\n`, and the rest is sanitised the same way |
| Sanitiser.SanitiseOneArtifact | extract_pdf.py:80 | one artifact between artifact-free texts becomes the marker and both texts are kept |
| Sanitiser.ArtifactAndMarkerLineBreaks | extract_pdf.py:80 | the artifact and the marker each hold exactly one line break |
| Sanitiser.SanitiseKeepsLineCount | extract_pdf.py:80 | sanitising keeps the number of line breaks, so the line structure the extractors scan is the same |
| TargetCourses.Normalise | extract_pdf.py:41 | `strip().upper()` leaves no outer whitespace and never lengthens the line |
| TargetCourses.NormaliseIdempotent | extract_pdf.py:41 | normalising a normalised entry changes nothing |
| TargetCourses.TargetSet | extract_pdf.py:41-44 | the set built from the file: each line stripped and upper-cased, empty entries dropped; an unreadable file gives the empty set |
| TargetCourses.NormalisedTargets | extract_pdf.py:41-44 | the non-empty elements of the normalised list are exactly the target set of the file |
| TargetCourses.InsertSorted | extract_pdf.py:45 | inserting a new entry into an ascending list keeps it ascending and adds exactly that entry |
| TargetCourses.SortedFromSet | extract_pdf.py:44-45 | sorting a set gives a strictly ascending list of exactly its elements |
| TargetCourses.LoadTargets | extract_pdf.py:39-51 | a read failure gives `[]`; otherwise the list is strictly ascending (so without duplicates), holds no empty entry, and holds exactly the non-empty stripped, upper-cased lines |
| TargetCourses.AscendingUnique | extract_pdf.py:44-45 | a strictly ascending list is determined by its elements, so the set's iteration order does not affect the result |
| TargetCourses.EmptyFileNoTargets | extract_pdf.py:39-47 | an empty file loads as `[]` |
| TargetCourses.CleanedExample | extract_pdf.py:41-45 | the lines `" abc "`, `"DEF"`, `"ghi"`, `"z z z"`, `"abc"` load as `["ABC", "DEF", "GHI", "Z Z Z"]` |
| NameExtractor.IsFooter | extract_pdf.py:93 | the `\nPage\u00a0 \d+ of \d+` part of the pattern, read on the line after the break: the line begins with `Page`, U+00A0, a space, a digit run, ` of ` and a digit run |
| NameExtractor.FooterIff | extract_pdf.py:93 | a line is a footer exactly when some non-empty digit strings p and q make it begin with `Page`, U+00A0, a space, p, ` of ` and q |
| NameExtractor.AsciiSpacesNoFooter | extract_pdf.py:93 | a line `Page  1 of 3` written with two ASCII spaces is not a footer, since the pattern needs U+00A0 after `Page` |
| NameExtractor.DigitRun | extract_pdf.py:93 | `\d+` takes the maximal run of digits |
| NameExtractor.FooterLength | extract_pdf.py:93 | a footer match ends on a digit that no digit follows, so the tail of the footer line is left for the next search |
| NameExtractor.CandidatesFrom | extract_pdf.py:93-94 | `re.findall` from a line and column: when the next line is a footer, the rest of the current line is captured and the search resumes on the footer line after its last digit; otherwise it resumes at column 0 of the next line |
| NameExtractor.CandidatesComplete | extract_pdf.py:93-94 | the candidates are one capture per footer line below the first line, in order, none skipped. Each is the whole line above its footer; when that line is the previous footer, the capture starts after that footer's last digit |
| NameExtractor.CandidatesEmptyIff | extract_pdf.py:93-96 | there are no candidates exactly when no line is directly followed by a footer line |
| NameExtractor.CandidatesCount | extract_pdf.py:93-94 | there is one candidate per footer line below the first line |
| NameExtractor.WholeLineCandidate | extract_pdf.py:93-94 | a non-footer line directly above a footer is a candidate in full |
| NameExtractor.CandidateSource | extract_pdf.py:93-94 | every candidate is the tail of a line directly above a footer |
| NameExtractor.MostCommon | extract_pdf.py:101 | the walk over the distinct candidates returns a candidate whose count is at least every other candidate's |
| NameExtractor.GetNameFromText | extract_pdf.py:84-104 | the result is `None` exactly when no line is followed by a footer; otherwise it is the title-cased form of a most frequent candidate |
| NameExtractor.MajorityBeatsCover | extract_pdf.py:96-102 | whatever the tie-break, a name repeated above later footers beats a different first-page line |
| CourseExtractor.IsDateLine | extract_pdf.py:115 | the `\n\d{2}\/\d{2}\/\d{4}-\d{2}\/\d{2}\/\d{4}` tail of the pattern, read on the line after the break: the line begins with the 21-character shape `DD/MM/YYYY-DD/MM/YYYY` |
| CourseExtractor.DateLineIff | extract_pdf.py:115 | a date line has at least 21 characters: slashes at columns 2, 5, 13 and 16, a hyphen at column 10, and digits in the other sixteen |
| CourseExtractor.IsCodeLine | extract_pdf.py:115 | the `\((.*)\) - \(.*\)` line of the pattern: it opens with `(`, closes with `)` and holds `) - (` with room for the closing parenthesis |
| CourseExtractor.CodeLineIff | extract_pdf.py:115 | a line is a code line exactly when it splits as `(`, some c, `) - (`, some other text and `)`; it then splits at its greedy code |
| CourseExtractor.Code | extract_pdf.py:115 | group 4: the characters after `(` up to the last `) - (` that leaves room for the closing parenthesis |
| CourseExtractor.LastSeparator | extract_pdf.py:115 | the result is the last position of `) - (` in the allowed range, or 0 when there is none |
| CourseExtractor.CodeIsGreedy | extract_pdf.py:115 | the extracted code is at least as long as any split of the line into `(code) - (other)`, and the separator follows it |
| CourseExtractor.GetAllCourses | extract_pdf.py:115-126 | one `[code, title, result]` per match, in match order, with the cleaned title |
| CourseExtractor.CoursesOf | extract_pdf.py:118-124 | the loop turns the n-th match into the n-th course |
| CourseExtractor.MatchesFrom | extract_pdf.py:115-116 | `re.findall` from a line and column: a five-line block is tried first, then a four-line one; a match resumes the search on its date line after column 21, and a failure at column 0 of the next line |
| CourseExtractor.MatchesEmptyIff | extract_pdf.py:115-116 | there is no match exactly when no block of either shape starts on any line |
| CourseExtractor.MatchesFromSource | extract_pdf.py:115-116 | every match names a code line with a date line below it; its result is the line directly above, taken verbatim, and its code comes from that code line; in a four-line block its first title group is a tail of the line two above and its second is empty, in a five-line block the first is a tail of the line three above and the second is a line break and the line two above |
| CourseExtractor.CodeLinesApart | extract_pdf.py:115-116 | the code lines of successive matches are at least three lines apart, so matches come in source order and never share a block |
| CourseExtractor.MatchesInSourceOrder | extract_pdf.py:115-116 | the matches of a text are located at strictly increasing code lines, each with its verbatim result line and its title groups taken from the lines above |
| CourseExtractor.MatchesComplete | extract_pdf.py:115-116 | present implies found. No block begins on a line the scan passes over: before the first match, between one match's date line and the next match's first line, or after the last date line. A four-line match is taken only where no five-line block begins. Group 1 is the whole first line, or the date line from column 21 on when the block begins on the previous date line |
| CourseExtractor.MatchesShape | extract_pdf.py:115 | the first title group holds no line break; the second is empty or a line break followed by one line |
| CourseExtractor.CleanTitle | extract_pdf.py:120-123 | the title steps: groups 1 and 2 joined, each line break turned into a space, every `---` deleted, outer whitespace stripped; the lemmas below state what that gives |
| CourseExtractor.TitleJoinsLines | extract_pdf.py:120-123 | with a second title line, the title is the first line, a space and the second line, with `---` deleted and the ends stripped |
| CourseExtractor.LocatedTitle | extract_pdf.py:115-123 | the title of a located match is the tail of its first title line, followed in a five-line block by a space and the second title line, with `---` deleted and the ends stripped |
| CourseExtractor.CourseTitlesFromSource | extract_pdf.py:115-126 | every course of a text comes from a block located in the text, and its title is read from that block's title lines |
| CourseExtractor.CleanTitleShape | extract_pdf.py:120-123 | a cleaned title holds no line break and has no whitespace at either end |
| CourseExtractor.TwoBlocksCourses | extract_pdf.py:115-126 | a two-block text gives exactly `[MTH101, Calculus, Pass]` and `[ENG200, Literature, Fail]`, in that order |
| Rows.KeyLess | extract_pdf.py:223 | Python's order on `(row[0], row[3])` tuples: equal names compare titles; different names compare names, which is defined only when both are strings (a `None` name is never below or above a string one) |
| Rows.KeyTransitive | extract_pdf.py:223 | the order on `(name, title)` keys is transitive |
| Rows.KeyAsymmetric | extract_pdf.py:223 | the key order is asymmetric |
| Rows.KeyTotal | extract_pdf.py:223 | two rows whose names are both strings or both `None` are ordered one way or the other, or have equal keys |
| Rows.KeyNotLessTransitive | extract_pdf.py:223 | among such rows, "not below" is transitive (a strict weak order) |
| Rows.InsertRow | extract_pdf.py:223 | one insertion step keeps the list sorted and appends the row after the rows with its key |
| Rows.SortRows | extract_pdf.py:223 | the result is sorted by `(name, title)`, rows with equal keys keep their relative order, and it is a permutation of the input |
| Rows.SameKeyRowsPermutation | extract_pdf.py:223 | keeping each key's rows in order keeps the multiset of rows |
| Rows.StableSortUnique | extract_pdf.py:223 | there is only one stable sort of a list, so Python's stable sort gives the list `SortRows` gives |
| Rows.SortExample | extract_pdf.py:220-223 | Bob's row read first and Alice's read second come out as Alice then Bob |
| Rows.Kept | extract_pdf.py:152-156 | the rows whose title is a target, in input order |
| Rows.FilterRows | extract_pdf.py:152-156 | the loop keeps, in order, the rows whose title is in the target list |
| Rows.KeptIsSelection | extract_pdf.py:152-156 | the filtered list is the input read at strictly increasing positions, which are exactly the positions whose title is a target |
| Rows.KeptMembers | extract_pdf.py:154-155 | a row is in the filtered list exactly when it is in the input and its title is a target |
| Rows.KeptCount | extract_pdf.py:152-156 | a kept row appears as often as in the input, and any other row not at all |
| Rows.FilterExample | extract_pdf.py:152-156 | with two of five titles as targets, exactly those two rows are kept, in order |
| Pipeline.GetAllText | extract_pdf.py:63-69 | the text is the page texts appended in page order, then sanitised |
| Pipeline.RemapRows | extract_pdf.py:196-199 | the n-th course `[code, title, result]` becomes the n-th row `[name, result, code, title]` |
| Pipeline.ProcessPdf | extract_pdf.py:187-201 | one row per matched block in source order, each with the block's code, verbatim result and cleaned title, and the document's name on every row |
| Pipeline.DocRowsDetermined | extract_pdf.py:187-201 | two possible results for a document agree on everything except which most frequent name was chosen |
| Pipeline.NoFooterNoName | extract_pdf.py:103-104 | a document without page footers gives rows whose name is `None` |
| Pipeline.MergeRows | extract_pdf.py:215-221 | the merged list is the concatenation, in document order, of a possible result of every document |
| Pipeline.MergedNameKinds | extract_pdf.py:215-221 | every possible merge lacks a name at the same positions, whichever most frequent name each document gets |
| Pipeline.MergedSortability | extract_pdf.py:215-223 | so every possible merge can be sorted without a `TypeError`, or none can |
| Pipeline.ProcessAll | extract_pdf.py:209-227 | no documents ends the run; the sort fails exactly when there are documents and their merged rows mix `None` and string names; otherwise the full report is the stable sort of the merged rows and the filtered report keeps its rows whose title is a target |
| Pipeline.TargetsMatchUpperCaseTitles | extract_pdf.py:41 | a target line `Calculus` loads as `CALCULUS` and keeps no row titled `Calculus` |

## Left out

- PDF reading with `fitz` (extract_pdf.py:62-67) is a foreign library. Each document is given as its list of page texts, and `Pipeline.GetAllText` models only their concatenation.
- `__find_all_pdfs` (extract_pdf.py:129-141) walks the file system. The documents are a parameter of `Pipeline.ProcessAll`.
- `__write_to_csv` (extract_pdf.py:159-176) is file output. The model ends with the two row lists it would write.
- The DEBUG dump (extract_pdf.py:190-192) is switched off by a constant and is file output.
- `init` and `main` (extract_pdf.py:233-268) are directory set-up and process control.
- The `exit()` on an empty document list (extract_pdf.py:213) is modelled as the `NoDocuments` outcome.
- The logger and the progress bar are side effects only.
- The default target path (extract_pdf.py:36-37): the loader is given the file's lines, or `None` when the file cannot be read.
- Python's full Unicode semantics is not modelled. `Text.IsSpace`, `Text.Upper`, `Text.Title` and `NameExtractor.DigitRun` use ASCII definitions. Non-ASCII whitespace (such as U+0085 or U+00A0), case mappings and digits are not covered.
- `Text.LexLess` compares characters by code point, which is Python's order on `str`.
- A general regular-expression engine is not modelled. Only the two fixed patterns are, read on lines as described above.
- NameExtractor.MostCommon: the hash order of the set walk is not modelled. The result is any candidate of maximal count.
- Rows.SortRows: this is an insertion sort, not CPython's timsort. `Rows.StableSortUnique` shows that every stable sort gives the same list.
- The `TypeError` itself is not modelled, only the fact that the run stops (`SortFailed`).
- Rows.FilterRows: `__filter_data` re-reads the target file for every row (extract_pdf.py:154). The model reads it once, so a file that changes or stops being readable during the run is not covered.
