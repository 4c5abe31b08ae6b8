# A verified model of the PDF-to-retrieval text pipeline

This project models in Dafny the text side of `extract.py`, which turns an
academic PDF into text and then into chunks for retrieval. Per page:

1. The grids of the detected tables are linearised
   (`normalize_table_to_list`). A cell holding several lines becomes several
   aligned sub-rows.
2. Every text block is routed with the tolerant box test (`bbox_overlap`).
   A block that overlaps a table region brings that region's text in, once
   per region and page. A block that overlaps a figure is dropped. Every
   other block is kept as prose.
3. The page texts are concatenated in page order and cleaned (`clean_text`).

The cleaned text is then split into sections at heading lines
(`SECTION_PATTERN`, `split_by_sections`). The words of each section are cut
into overlapping windows, and each window becomes a chunk tagged with the
document and section name (`chunk_for_rag`).

The modules follow the pipeline:

- `Wrappers`: `Option` and `Result`.
- `Strings`: Python's `strip`, `split('\n')`, `split()` and `join` on
  `seq<char>`, with their round trips.
- `Geometry`: boxes and `bbox_overlap`.
- `Tables`: `normalize_table_to_list`. Its exceptions are modelled as error
  outcomes.
- `Pages`: the block loop. It is modelled as a fold that threads the `used`
  flags. It is proved equal to an independent per-block description.
- `Cleaning`: `clean_text`.
- `Sections`: the heading predicate, proved equivalent to the regular
  expression, and the section splitter.
- `Chunking`: `chunk_for_rag` as written, and with the windowing corrected
  (see Findings).
- `Document`: the per-page table pass, the page fold and the final cleaning
  of `extract_text_from_pdf`.

The PDF backend is replaced by data. A `Page` holds:

- the detected tables, each a box and a grid;
- the figure boxes;
- the text blocks, each a box and a text.

`pformat` is a parameter `render` of the document functions.

## Model

| member | source | states |
|---|---|---|
| Geometry.Overlap | extract.py:42-46 | For well-formed boxes and a non-negative tolerance, `bbox_overlap` is true exactly when the first box and the second box grown by the tolerance share a point, as closed rectangles. |
| Geometry.OverlapSymmetric | extract.py:42-46 | Swapping the two boxes does not change the answer. |
| Geometry.OverlapMonotone | extract.py:42-46 | Raising the tolerance never turns an overlap into a miss. |
| Geometry.OverlapWithinGap | extract.py:46 | Boxes whose gap on each axis is at most the tolerance overlap. The comparisons are strict, so touching boxes overlap even at tolerance 0. |
| Tables.FilledCells | extract.py:18 | The count of filled cells is zero exactly when every cell of the grid is `None` or `''`. |
| Tables.FilledInCell | extract.py:18 | One cell counts 1 when it is filled and 0 when it is `None` or `''`. |
| Tables.FilledInRowConcat | extract.py:18 | The count over a row is the sum of the counts over its two parts. With `FilledInCell` this fixes the count of every row. |
| Tables.FilledCellsRow | extract.py:18 | A grid of one row counts that row's filled cells. |
| Tables.FilledCellsConcat | extract.py:18 | The count over a grid is the sum of the counts over its two blocks of rows. With `FilledCellsRow` this makes the count the number of filled cells over all rows. |
| Tables.CellLines | extract.py:32 | A cell's lines number at least one. Joined with line breaks they give back the cell's text (`''` for `None`). No line contains a line break. |
| Tables.Pad | extract.py:27-29 | A shorter data row is right-padded with `''` cells to the header's width. Its own cells are kept, and a row that is not shorter is unchanged. |
| Tables.MaxLines | extract.py:33 | `max_len` bounds every cell's line count and is reached by some cell. It is 0 for a row without cells. |
| Tables.LinearizeData | extract.py:26-38 | The data loop fails (ValueError of `max`) exactly when some padded data row has no cells. Otherwise it gives each row's sub-rows, row by row. |
| Tables.Normalize | extract.py:6-40 | The result is "no table" exactly when fewer cells are filled than the threshold. It is the IndexError exactly when the threshold is met by an empty grid. It is the ValueError exactly when the threshold is met, the header is empty and some data row is empty. A kept table's header is the first row, unchanged. |
| Tables.ExpandShape | extract.py:35-38 | Split cells expand into `max_len` sub-rows as wide as the row. Column `j` holds cell `j`'s lines followed by `''`. |
| Tables.RowBlockShape | extract.py:26-38 | For one data row, each column's non-padding entries join back (with line breaks) to that cell's text, and the rest of the column is `''`. |
| Tables.NormalizedRowCount | extract.py:24-38 | A kept table has one sub-row per line of the tallest cell of each data row, summed over the data rows. |
| Tables.OneDataRow | extract.py:22-38 | Whenever a header-plus-one-row grid is kept, it is its header followed by the sub-rows of its data row. |
| Tables.NormalizeExample | extract.py:6-40 | Two cells of three aligned lines each give the header and three aligned sub-rows. |
| Pages.OnFigure | extract.py:194 | The `any(...)` over the figure boxes is true exactly when some figure box overlaps the block. |
| Pages.FirstTable | extract.py:184-190 | The region a block goes to is the first one, in detection order, that it overlaps. None comes back exactly when it overlaps no region. |
| Pages.Step | extract.py:178-200 | One block sets at most one `used` flag: the one of its first overlapping region. It never clears a flag and only appends text. It fails exactly when that region is still unused and has no text (`None + "\n"`, TypeError). |
| Pages.Run | extract.py:178-200 | The block loop keeps one flag per region. A region ends up used only when some block overlaps it first. A failure names a region without text that some block overlaps first. |
| Pages.Fresh | extract.py:160-167 | Before the first block no region is used and no text is produced. |
| Pages.RunMatchesClaims | extract.py:178-200 | The block loop produces exactly the text of the independent per-block description. Each block gets its first region's text (unless an earlier block claimed that region), its own text when it is prose, or nothing. The final `used` flags are exactly the claimed regions. It fails exactly where that text reaches a region without text. |
| Pages.TableEmittedOnce | extract.py:184-190 | A region's text is emitted exactly once if some block has it as first overlapping region, and never otherwise. |
| Pages.BlockEmittedIffProse | extract.py:191-200 | A block's own text is emitted exactly when it overlaps no table region and no figure, and then exactly once. Every emitted block text comes from such a block. |
| Pages.ClaimedIff | extract.py:184-188 | A region ends up used exactly when some block overlaps it and no region detected before it. |
| Pages.TwoBlocksOneTable | extract.py:184-190 | Two blocks on the same table region bring its text in once. |
| Pages.FigureBlockDropped | extract.py:194-197 | On a page with no table regions, a single block on a figure leaves no text and sets no flag. |
| Cleaning.RemoveNul | extract.py:67 | The result has no NUL. Its characters are exactly the input's other characters. NUL-free text is unchanged. With `RemoveNulConcat` and `RemoveNulChar` this fixes the result completely. |
| Cleaning.CollapseNewlines | extract.py:68 | No three line breaks remain in a row. No character is introduced, the first character is kept, and the result is empty only for empty input. `CollapseRun`, `CollapseOther` and `CollapseConcat` fix the result completely. |
| Cleaning.SqueezeBlanks | extract.py:69 | No tab and no two adjacent spaces remain. Only spaces are introduced, and the result starts with a space exactly when the input starts with a blank. `SqueezeRun`, `SqueezeOther` and `SqueezeConcat` fix the result completely. |
| Cleaning.Clean | extract.py:66-70 | The cleaned text has no NUL, no tab, no triple line break, no double space, and no whitespace at either end. `CleanKeepsWords` states that it keeps the words. |
| Cleaning.CleanFixpoint | extract.py:66-70 | Text that already has these properties is left unchanged. |
| Cleaning.CleanIdempotent | extract.py:66-70 | Cleaning twice is cleaning once. |
| Cleaning.CleanExample | extract.py:68 | Four line breaks between two words become two. |
| Cleaning.CollapseExample | extract.py:68 | The substitution alone turns four line breaks between two words into two. |
| Cleaning.RemoveNulConcat | extract.py:67 | NUL removal works character by character: on a concatenation it is the removal on each part, in order. |
| Cleaning.RemoveNulChar | extract.py:67 | On one character, NUL is dropped and any other character is kept. |
| Cleaning.CollapseRun | extract.py:68 | A run of `k` line breaks becomes two line breaks when `k >= 3` and is kept when `k < 3`. |
| Cleaning.CollapseOther | extract.py:68 | Any character other than a line break is kept. |
| Cleaning.CollapseConcat | extract.py:68 | The substitution works run by run: on a concatenation whose seam is not inside a run of line breaks, it is the substitution on each part. |
| Cleaning.SqueezeRun | extract.py:69 | A non-empty run of spaces and tabs becomes one space. |
| Cleaning.SqueezeOther | extract.py:69 | Any character other than a space or a tab is kept. |
| Cleaning.SqueezeConcat | extract.py:69 | The substitution works run by run: on a concatenation whose seam is not inside a run of spaces and tabs, it is the substitution on each part. |
| Cleaning.CollapseKeepsWords | extract.py:68 | Collapsing line-break runs keeps the words (`split()`) of any text, also after any prefix. |
| Cleaning.SqueezeKeepsWords | extract.py:69 | Squeezing blank runs keeps the words of any text, also after any prefix. |
| Cleaning.CleanKeepsWords | extract.py:66-70 | `clean_text(s).split()` is `s.split()` with the NUL characters removed first: cleaning changes whitespace only. |
| Strings.SplitOn | extract.py:83 | `split('\n')` gives at least one piece, and no piece contains a line break. |
| Strings.JoinSplit | extract.py:83 | Joining the pieces of a split with the separator gives the text back. |
| Strings.Words | extract.py:126 | `split()` gives non-empty pieces without whitespace. It gives none exactly when the text is all whitespace. `WordsSplit` and `WordsOfWord` fix the result completely. |
| Strings.WordsJoin | extract.py:126-131 | Splitting words joined by single spaces gives the words back. |
| Strings.WordsSplit | extract.py:126 | A non-empty whitespace run is a word boundary: the words of `a + w + b` are the words of `a` followed by those of `b`. |
| Strings.WordsOfWord | extract.py:126 | A single word splits to itself alone. |
| Strings.WordsSpacePrefix | extract.py:126 | Leading whitespace does not change the words. |
| Strings.WordsStrip | extract.py:126 | Stripping a text does not change its words. |
| Strings.Strip | extract.py:89 | `strip()` gives a text with no whitespace at either end, no longer than the input. |
| Strings.StripDecompose | extract.py:89 | The input is a whitespace run, then the result of `strip()`, then a whitespace run. |
| Strings.StripUnique | extract.py:89 | `strip()` returns whatever stripped core sits between two whitespace runs. |
| Sections.KeywordShape | extract.py:75-77 | Every heading keyword is upper-case letters and inner spaces, starting and ending with a letter. |
| Sections.IsHeading | extract.py:73-79 | A line is a heading exactly when `SECTION_PATTERN` matches it: an optional numbering, whitespace, a keyword up to ASCII case, whitespace, and nothing else. |
| Sections.PatternImpliesHeading | extract.py:73-79 | For every split of a line the regular expression accepts, the scanner finds the same numbering and, after it, a keyword once stripped. |
| Sections.HeadingImpliesPattern | extract.py:73-79 | Every line the scanner accepts splits as numbering, whitespace, keyword (up to case) and whitespace. |
| Sections.HeadingIffPattern | extract.py:73-79 | The scanner's test (the stripped text after the numbering is a keyword) and the pattern's match agree on every line, both ways. |
| Sections.UnknownNotHeading | extract.py:85 | "unknown" is not itself a heading. |
| Sections.SplitSections | extract.py:82-109 | Every record's text is non-empty, stripped and free of heading lines. The first record is named "unknown" or by a heading. Every later record is named by a stripped heading line. |
| Sections.ScanKeepsOk | extract.py:88-101 | The loop invariant holds across every line. Records are well formed, "unknown" runs only while no record exists, and the buffer ends in a line break and holds no heading line. |
| Sections.Feed | extract.py:88-101 | One line never changes or removes an existing record. It adds one record exactly when the stripped line is a heading and the buffer is not blank, and that record carries the running name and the stripped buffer. |
| Sections.Flush | extract.py:103-107 | The final flush keeps every record. It adds one exactly when the buffer is not blank, and that record carries the running name and the stripped buffer. |
| Sections.ScanFrom | extract.py:88-101 | The loop keeps every record already made and adds at most one per line. |
| Sections.ScanConcat | extract.py:88-101 | Scanning two batches of lines is scanning their concatenation. |
| Sections.NoHeadingOneSection | extract.py:82-109 | Text without a heading line gives one "unknown" record holding the stripped text, or none when the text is blank. |
| Sections.HeadingOpensSection | extract.py:88-108 | A heading line closes the records of the text before it. The text after it becomes one record named by the stripped line and holding that text stripped, or no record when that text is blank. |
| Sections.HeadingLast | extract.py:88-108 | A heading on the last line adds no record: the records are those of the text before it. |
| Sections.HeadingFirst | extract.py:88-108 | A heading on the first line opens the first record, and no "unknown" record is produced. A heading followed only by blank text gives no record at all. |
| Sections.TwoSections | extract.py:82-109 | A paragraph, a heading line and a paragraph give exactly two records. The first is "unknown" with the stripped paragraph; the second is named by the stripped heading and holds the stripped text after it. |
| Sections.SectionsExample | extract.py:82-109 | `"Intro\n3. RESULTS\nGood"` gives an "unknown" record and a "3. RESULTS" record. |
| Chunking.SliceElements | extract.py:130 | `xs[start:stop]` with a non-negative stop has `max(0, min(stop, len(xs)) - start)` items, and item `k` is `xs[start + k]`. A negative stop counts from the end, floored at 0. |
| Chunking.WindowsFrom | extract.py:129-130 | `range(start, len(words), step)` gives windows exactly when the start lies before the end. |
| Chunking.MakeChunks | extract.py:129-144 | There is one chunk per window, in window order, each tagged with the document and section name. |
| Chunking.ChunkText | extract.py:131-138 | For a non-empty window of words, `chunk_with_meta` after `strip()` is the `SOURCE:`/`SECTION:` header followed by the words joined by single spaces. |
| Chunking.ChunkWords | extract.py:126-138 | Splitting what follows the header gives the window's words back. |
| Chunking.ChunkForRagAsWritten | extract.py:112-146 | The loop as written fails (ValueError of `range`) exactly when size equals overlap and there is a section. It gives no chunks for a negative stride. Otherwise every chunk carries the document name and the name of one of the sections. |
| Chunking.ChunkForRag | extract.py:112-146 | The same error cases and tags hold for the corrected windowing, which the rest of the model uses. |
| Chunking.SectionChunk | extract.py:122-144 | With the corrected windowing, the `k`-th chunk of a section is tagged with the document and section. Its text is the header followed by the words of the `k`-th corrected window. |
| Chunking.ChunkAll | extract.py:122-144 | Every chunk of the section loop carries the document name. |
| Chunking.ChunkAllSource | extract.py:122-144 | Every chunk of the section loop carries the document name and some section's name. |
| Chunking.ChunkAllAppend | extract.py:122-146 | Chunks follow section order: the chunks of a concatenation of sections are the chunks of each part, in turn. |
| Chunking.WindowsCount | extract.py:129 | As written, the number `n` of windows is the least with `n * step` covering the words, that is `ceil(len(words) / step)`. |
| Chunking.WindowAt | extract.py:129-130 | As written, window `k` is the slice at `k * step`, which lies before the end. |
| Chunking.WindowContents | extract.py:129-130 | With a positive size, window `k` holds 1 to `size` words from `k * step` on, cut at the end. |
| Chunking.Coverage | extract.py:129-130 | When windows are at least as long as the stride, every word is in some window, at its own place. |
| Chunking.ShortSectionRepeats | extract.py:127-130 | As written, a section with more words than the stride but no more than the size gives at least two windows. The second is a tail of the first. |
| Chunking.DefaultsRepeat | extract.py:112-130 | With the defaults, 450 words give two windows, the second being the first's last 50 words. |
| Chunking.FixedIsPrefix | extract.py:129-130 | The corrected windows are the first windows of the loop as written. |
| Chunking.FixedEnds | extract.py:129-130 | Every corrected window but the last stops short of the end. When the size is at least the stride, the last window reaches the end. |
| Chunking.FixedAdvances | extract.py:129-130 | Each corrected window reaches further into the section than the one before. |
| Chunking.FixedShortSection | extract.py:129-130 | A non-empty section of at most `size` words gives exactly one window, holding all its words. |
| Chunking.FixedCount | extract.py:129-130 | Past the size, the corrected count is `1 + ceil((len(words) - size) / step)`. |
| Chunking.FixedCoverage | extract.py:129-130 | The corrected windows still cover every word. |
| Chunking.FixedWindow | extract.py:129-130 | Corrected window `k` holds the words from `k * step` on, up to `size` of them, cut at the end. |
| Chunking.FixedOverlap | extract.py:127-130 | Every corrected window but the last is full. Consecutive windows share exactly `chunk_overlap` words. |
| Document.Regions | extract.py:159-167 | On success there is one region per detected table, with its box. Its text is the rendered rows, or `None` below the threshold. On failure the error names the first table the normaliser raises on, with that error. |
| Document.Region | extract.py:159-167 | A detected table becomes a region with its own box exactly when its grid does not make the normaliser raise. The region's text is the rendered rows, or `None` below the threshold. Otherwise the normaliser's error comes back. |
| Document.PageText | extract.py:157-200 | A page's failure names that page and one of its detected tables: either the normaliser raised that error on its grid, or it found the grid near-empty. |
| Document.RawText | extract.py:157-200 | A failure carries the error of the first page that fails, and every earlier page succeeds. The pass succeeds exactly when every page's pass succeeds. |
| Document.RawTextPages | extract.py:155-200 | A successful pass is the concatenation, in page order, of one text per page, each being that page's own text. |
| Document.ExtractText | extract.py:150-202 | The extracted text is clean, and extraction succeeds exactly when the concatenation of the page texts does, with that error otherwise. Its words are the words of that concatenation with NUL characters dropped. |
| Document.ExtractWords | extract.py:155-202 | The words of the extracted text are the words of the pages' own texts, concatenated in page order, with NUL characters dropped. |
| Document.PageTextMatchesClaims | extract.py:178-200 | A page's text is the text of the per-block description of its blocks. A region without text maps to an error naming the page and region. |
| Document.RawTextPrefix | extract.py:155-200 | Page texts are appended in page order: the text of the first `m` pages is a prefix of the whole. |
| Document.ExtractStable | extract.py:202 | Cleaning the extracted text again changes nothing. |
| Document.PlainPage | extract.py:178-200 | On a page without tables or figures, every block's text is kept, in order, each followed by a line break. |

## Edge cases the code decides

The model follows the code in each of these cases.

- **A near-empty table claims its blocks.** Below the filled-cell threshold
  `normalize_table_to_list` returns `None`, but the region stays in
  `table_blocks` with text `None`. Its blocks do not fall through to the
  figure or prose tests: a block overlapping it claims it at
  extract.py:185, and `tbl["text"] + "\n"` raises TypeError at line 187.
  The model returns `MissingTableText` / `TableWithoutText` (`Pages.Step`,
  `Pages.Run`, `Document.PageText`).
- **A non-positive stride.** There is no up-front check of
  `chunk_size - chunk_overlap`. A zero stride raises ValueError from `range`,
  and only when there is a section to chunk. A negative stride silently
  gives no chunks (`Chunking.ChunkForRagAsWritten`).
- **Short sections.** A section of at most `chunk_size` words, but more
  than the stride, gives `ceil(len(words) / step)` chunks rather than one
  (see Findings).

## Left out

- Figure detection (`detect_vector_figures`, extract.py:49-58): the figure
  boxes are an input of each page.
- The PDF backend: opening the file, iterating pages, `find_tables`,
  `extract` and `get_text("blocks")`. A `Page` carries their results. The
  block number field is unused by the source and not modelled.
- `pformat`: a parameter `render`. Only its use is modelled, not its output
  format.
- File output, `print` and path handling (extract.py:150-154, 203-209):
  I/O, not modelled.
- `extract_title_from_pdf`, `get_all_pdfs`, `main.py` and `retrieval.py`:
  these are not part of this model.
- Coordinates are reals, so floating-point rounding of box coordinates is
  not modelled.
- Unicode details:
  - The whitespace class is Python's whitespace among the ASCII and
    Latin-1 characters. Other Unicode spaces are not.
  - `\d` is the ASCII digits.
  - `re.I` is ASCII case folding, so special folds such as the Kelvin
    sign are not modelled.
- `str(cell)` on non-string cell values: cells are strings or `None`.
- The in-place `row +=` (extract.py:29) also extends the caller's row. Only
  the padded copy the function uses is modelled.
- Chunking.WindowsFrom: its own contract states only when windows exist.
  Their number and contents are stated by `Chunking.WindowsCount` and
  `Chunking.WindowAt`, which keeps the recursion's verification cheap.
- Strings.Strip: its own contract states only that the result is
  stripped and no longer than the input. Which characters it keeps is
  stated by `Strings.StripDecompose` and `Strings.StripUnique`.
- Tables.FilledCells: its own contract states only when the count is zero.
  The count itself is fixed by `Tables.FilledInCell`,
  `Tables.FilledInRowConcat`, `Tables.FilledCellsRow` and
  `Tables.FilledCellsConcat`.
- Chunking.ChunkAll: its own contract states only the document tag. The
  section tags and the section order are stated by
  `Chunking.ChunkAllSource` and `Chunking.ChunkAllAppend`.
- Cleaning.RemoveNulChar, Cleaning.CollapseRun, Cleaning.CollapseOther,
  Cleaning.SqueezeRun and Cleaning.SqueezeOther follow from the definitions
  by unfolding. They state the per-character and per-run behaviour that,
  with the concatenation lemmas, fixes each rewrite; they hold no proof
  work.
- Geometry.OverlapSymmetric, Geometry.OverlapMonotone and
  Geometry.OverlapWithinGap follow directly from the definition. They state
  the properties; they hold no proof work.

## Findings

| source | as written | input that shows it | evidently intended | confidence | as-written member | corrected member |
|---|---|---|---|---|---|---|
| extract.py:127-130 | Windows start at every multiple of `chunk_size - chunk_overlap` below `len(words)`, even after a window has reached the last word. | With the defaults (500, 100), a section of 450 words gives two chunks: words 0-449, then words 400-449 again, which is wholly inside the first. | Stop once a window reaches the end. That gives one chunk for at most `chunk_size` words and `1 + ceil((W - chunk_size) / step)` chunks beyond. | not executed; high, by proof of the model | Chunking.ShortSectionRepeats | Chunking.FixedShortSection |
