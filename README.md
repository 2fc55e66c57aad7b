# mcml: multi-column layout, modelled in Dafny

mcml reads lines of text and prints them in columns, the way `ls` lays out
file names. Two parts of it are modelled here.

- `src/libmc/mc.c` is the layout library. `mc()` takes an element vector,
  a line length `llen` and an indent. It works out how many columns fit and
  prints the elements in that many columns. The columns run down
  (`print_many_per_line`) or across (`print_horizontal`).
  - `init_column_info` keeps one candidate per column count. Each candidate
    has a validity flag, a line length and a slice of column widths. The
    slices are carved out of one triangular block of `size_t` cells, which
    grows on demand.
  - `calculate_columns` folds every element into every still-valid
    candidate. It then takes the largest column count whose candidate is
    still valid.
- `src/cmd/mcml.c` is the command's stream loop.
  - Every non-empty line is either an element or a command.
  - A command line starts with the command prefix; `is_prefix` and
    `parse_mcml_command` recognise it.
  - Elements pile up in a growable vector (`mc_add_element`).
  - `mc_flush` lays the vector out and empties it. It runs at a
    `category` command, and at the end of a file when each file is laid out
    on its own.

The files:

- `column_fit.dfy` (module `ColumnFit`): the arithmetic of the layout.
  - `max_idx` and `max_cols`.
  - The `size_t` budget `llen - indent`, wrap-around included.
  - The allocation growth policy and its overflow test.
  - The triangle of width cells.
  - A candidate (`column_info`) as a value, with the widening step and the
    fold over all elements.
  - The down-counting choice of the column count.
- `column_text.dfy` (module `ColumnText`): what each printer writes, for
  given column widths.
  - Row-major and column-major text, as functions on values.
  - Where each element lands.
- `mc.dfy` (module `Mc`): the imperative side of `mc.c`.
  - `OutputFile` stands for the `FILE *`.
  - `Layout` is `mc_t`. Its `column_info` array and its triangular block of
    `size_t` cells are Dafny arrays.
  - The methods `InitColumnInfo`, `CalculateColumns`, `PrintManyPerLine`,
    `PrintHorizontal` and `Mc` are proved against the functions of the two
    modules above.
- `mcml.dfy` (module `Mcml`): the command.
  - `IsPrefix` is a function.
  - The scanning loops of `parse_mcml_command` are methods.
  - The file's static state is the class `Mcml`: the element vector, the
    parser's static buffers and the option settings.
  - The value-level meaning of a whole stream is `Run` / `StreamResult`, and
    the class's methods are proved against it.

The process dies at `xalloc_die` (exit 64). In the model this is a
`died` result: nothing further is written once it is set.

Two behaviours of the code are worth knowing, because they are not what the
comment at the top of `mc.c` (`mc.c:46-48`, "how many columns can fit")
suggests:

- A candidate's validity is only re-computed when a width grows
  (`mc.c:258-263`).
  - The initial line length `(i + 1) * 3` of `init_column_info`
    (`mc.c:218`) is never compared with `llen - indent`. A candidate that no
    element widens therefore stays valid even when it is wider than the
    budget.
  - Example: `llen = 10`, `indent = 4` and the elements `a`, `a`, `a` give
    three columns. The row is `"    a  a  a"`, 11 characters before its
    newline.
  - `ColumnFit.FoldedWithinBudget` states exactly this: a valid candidate
    fits the budget or is still the initial one.
- The one-column candidate can be invalidated like any other. The selection
  loop (`mc.c:269-273`) still returns one column in that case
  (`ColumnFit.Chosen`).

## Model

| member | source | states |
|---|---|---|
| ColumnFit.MaxIdx | src/libmc/mc.c:382-385 | max_idx is llen / 3, at least 1: the largest count m with 3m <= llen, or 1 when llen < 3 |
| ColumnFit.MaxCols | src/libmc/mc.c:169 | max_cols is min(max_idx, nelem): bounded by both and equal to one of them |
| ColumnFit.Budget | src/libmc/mc.c:262 | the size_t value of llen - indent: the difference when indent <= llen, 2^64 - (indent - llen) when it wraps |
| ColumnFit.GrownAlloc | src/libmc/mc.c:170-187 | the new column_info_alloc: unchanged when large enough, else twice max_cols when max_cols < max_idx / 2, else max_idx; always between max_cols and max_idx |
| ColumnFit.OverflowTestFires | src/libmc/mc.c:196-200 | the overflow test as C evaluates it: s and t wrap modulo 2^64, and the test fires when s < new or t / growth != s |
| ColumnFit.InitDies | src/libmc/mc.c:170-201 | init_column_info dies exactly when the table must grow and the overflow test fires for the grown size |
| ColumnFit.TableOverflows | src/libmc/mc.c:370-394 | mc dies exactly when init_column_info, started from the empty table mc sets up, dies for min(max_idx, nelem) columns |
| ColumnFit.OverflowTestExact | src/libmc/mc.c:196-201 | the wrapped test `s < new || t / growth != s` fires exactly when (alloc + 1 + new) * (new - alloc) does not fit in size_t |
| ColumnFit.WrappedQuotient | src/libmc/mc.c:198-200 | a wrapped product divided back by its factor returns the other factor exactly when the product did not wrap |
| ColumnFit.NewCells | src/libmc/mc.c:201 | the cells allocated for new candidates, t / 2, are the difference of the two triangle sizes |
| ColumnFit.TriangleCells | src/libmc/mc.c:189-201 | the cells of candidates alloc .. new - 1 number (alloc + 1 + new) * (new - alloc) / 2, the triangle formula of the comment |
| ColumnFit.TriMonotone | src/libmc/mc.c:206-209 | the triangle offsets of the parcelled col_arr slices never decrease |
| ColumnFit.WindowsApart | src/libmc/mc.c:206-209 | the slices of two different candidates do not overlap |
| ColumnFit.SumUpdate | src/libmc/mc.c:258-261 | adding real_length - col_arr[idx] to line_len keeps it the sum of the widths after col_arr[idx] is replaced |
| ColumnFit.SumConstant | src/libmc/mc.c:214-222 | i + 1 widths of 3 sum to (i + 1) * 3, the initial line_len |
| ColumnFit.Initial | src/libmc/mc.c:214-222 | the initial candidate i is valid, has i + 1 widths of 3, and its line_len is their sum |
| ColumnFit.Rows | src/libmc/mc.c:254 | (nelem + i) / (i + 1) is the least row count whose rows * (i + 1) holds nelem elements |
| ColumnFit.QuotientBound | src/libmc/mc.c:254 | an element number below rows * cols divided by rows is a column below cols |
| ColumnFit.Slot | src/libmc/mc.c:253-255 | the column an element takes in candidate i, by columns or across, is at most i |
| ColumnFit.Widen | src/libmc/mc.c:252-264 | one element folded into a candidate: an invalid candidate is untouched, widths never shrink, a still-valid result is wide enough for the element, line_len stays the sum of the widths, and a changed candidate is valid exactly when line_len < budget |
| ColumnFit.Folded | src/libmc/mc.c:246-266 | candidate i after the first n elements: the initial candidate widened by each of them in input order, at the slot the counting pass gives it; it keeps i + 1 widths |
| ColumnFit.FoldedLineLenIsSum | src/libmc/mc.c:246-266 | after any number of elements, line_len is the sum of the candidate's widths |
| ColumnFit.WidthsNeverShrink | src/libmc/mc.c:246-266 | every width starts at 3 and never decreases as more elements are folded in |
| ColumnFit.ValidityMonotone | src/libmc/mc.c:251-264 | a candidate valid after m elements was valid after every earlier count: validity is never regained |
| ColumnFit.InvalidFrozen | src/libmc/mc.c:251 | once invalid, a candidate no longer changes |
| ColumnFit.FoldedFitsAt | src/libmc/mc.c:251-264 | once folded in, an element keeps a slot wide enough for it for as long as the candidate stays valid |
| ColumnFit.FoldedFits | src/libmc/mc.c:246-266 | a valid candidate gives every element a slot wide enough for it |
| ColumnFit.FoldedWithinBudget | src/libmc/mc.c:246-266 | a valid candidate's line_len is below the budget, unless no element ever widened it: the initial line_len is never compared with the budget |
| ColumnFit.Survivors | src/libmc/mc.c:270 | the valid_len flag of each candidate below max_cols once every element has been folded in |
| ColumnFit.Chosen | src/libmc/mc.c:269-273 | the selection over the valid_len flags returns a count between 1 and its start; every larger candidate is invalid and the chosen one is valid unless it is 1 |
| ColumnFit.Columns | src/libmc/mc.c:241-275 | calculate_columns returns a count between 1 and max_cols |
| ColumnFit.ColumnsMaximal | src/libmc/mc.c:269-275 | the returned count is the largest valid one, or 1 when none of them is valid |
| ColumnText.Spaces | src/libmc/mc.c:305-311 | a run of k blanks |
| ColumnText.Pad | src/libmc/mc.c:314-319 | the element, followed by blanks up to the column width; nothing is added to an element that is already as wide |
| ColumnText.Cell | src/libmc/mc.c:313-319 | a cell starts with its element; the last column is not padded, the others are as wide as the column width or the element |
| ColumnText.RowCount | src/libmc/mc.c:288 | the row count never exceeds the number of elements |
| ColumnText.RowCountSpan | src/libmc/mc.c:285-288 | rows * cols is the least multiple of cols that holds all elements |
| ColumnText.RowCountDiv | src/libmc/mc.c:288 | the row count is nelem / cols, plus 1 when there is a remainder |
| ColumnText.RowsAgree | src/libmc/mc.c:254 | the printer's row count equals the (nelem + i) / (i + 1) of the counting pass for the same candidate |
| ColumnText.RowCountBounds | src/libmc/mc.c:288 | there are between 1 and nelem rows, and rows * cols places every element |
| ColumnText.RowIndices | src/libmc/mc.c:296-326 | the elements of a row: they start at the row number, all exist, and the row stops at the first element number past nelem |
| ColumnText.RowIndicesAt | src/libmc/mc.c:321 | cell k of the row starting at enr holds element enr + k * rows |
| ColumnText.RowIndicesNext | src/libmc/mc.c:321-326 | along a row the element number grows by rows, and the row goes on exactly while that stays below nelem |
| ColumnText.RowLength | src/libmc/mc.c:297-326 | no row has more cells than there are columns, so col_arr[col] is always in range |
| ColumnText.RowLast | src/libmc/mc.c:321-324 | the last element of a row is the one whose successor enr + rows is past nelem |
| ColumnText.RowUpToStep | src/libmc/mc.c:299-319 | one more cell: the row text up to enr + rows is the row text up to enr, the indent at column 0, and the cell of enr |
| ColumnText.RowAdvance | src/libmc/mc.c:321-326 | moving on by rows leaves one cell fewer and the same last element, unless enr was the last |
| ColumnText.RowNext | src/libmc/mc.c:297-328 | one iteration of the row loop: the column exists, the text gains one cell, and the row either goes on or ends with its newline |
| ColumnText.RowUpToNext | src/libmc/mc.c:299-319 | text followed by the row so far and the cell of enr is that text followed by the row up to enr + rows |
| ColumnText.RowUpTo | src/libmc/mc.c:299-326 | what a row has written before it reaches element enr in column col: the indent and the cells of the col elements before enr in that row |
| ColumnText.RowText | src/libmc/mc.c:296-328 | one row of print_many_per_line: the cells from its first element to its last, and a newline |
| ColumnText.ColumnarRows | src/libmc/mc.c:295-329 | the first k rows, in order |
| ColumnText.ColumnarText | src/libmc/mc.c:288-329 | the text print_many_per_line writes for given widths: all rows, nelem / cols of them rounded up |
| ColumnText.RowCells | src/libmc/mc.c:299-319 | the cells of a list of elements, the j-th in column j, with the indent before column 0 |
| ColumnText.RowLastIs | src/libmc/mc.c:321-324 | the last element of a row lies RowSize - 1 steps of rows after its first |
| ColumnText.RowUpToCells | src/libmc/mc.c:299-326 | for elements spaced rows apart (as along a row), what the row writes before the element after the k-th is the cells of the first k |
| ColumnText.RowTextIsIndices | src/libmc/mc.c:296-328 | the row written for row r is the cells of the elements r, r + rows, ... (RowIndices) and a newline |
| ColumnText.RowsBetween | src/libmc/mc.c:295-329 | rows k .. m - 1, in order |
| ColumnText.ColumnarRowText | src/libmc/mc.c:295-329 | the first m rows are rows 0 .. r - 1, then row r, then rows r + 1 .. m - 1 |
| ColumnText.ColumnarTextRow | src/libmc/mc.c:295-329 | every row stands in place in the printed column-major text (RowPrinted): after the rows before it, it holds the cells of the elements RowIndices lists for it and a newline |
| ColumnText.ColumnarRowsNext | src/libmc/mc.c:295-329 | text followed by the first k rows and then row k is that text followed by the first k + 1 rows |
| ColumnText.RowIndicesHit | src/libmc/mc.c:295-326 | element enr is printed on row enr % rows, in position enr / rows |
| ColumnText.ColumnarPlacement | src/libmc/mc.c:253-326 | each element is printed exactly where the counting pass sized it: as cell enr / rows of row enr % rows of the printed text, enr / rows being its slot in the counting pass |
| ColumnText.RowIndicesOnce | src/libmc/mc.c:295-326 | cell k of row r holds an element whose row is r and whose column is k |
| ColumnText.ColumnarOnce | src/libmc/mc.c:295-326 | no element is printed twice: cell k of row r in the printed text holds an element whose row is r and whose cell is k, the one ColumnarPlacement puts there |
| ColumnText.ChosenWidths | src/libmc/mc.c:282 | line_fmt has one width per chosen column |
| ColumnText.ColumnsSeparated | src/libmc/mc.c:256-263 | under the chosen widths, the cell of an element outside the last column is exactly its column's width and ends in at least two blanks |
| ColumnText.Lead | src/libmc/mc.c:346-355 | what print_horizontal writes before element enr: at column 0, a newline (except before the first element) and the indent; nothing elsewhere |
| ColumnText.HorizontalCells | src/libmc/mc.c:339-364 | the first n elements in input order, element enr in column enr % cols, padded except in the last column |
| ColumnText.HorizontalText | src/libmc/mc.c:339-366 | the text print_horizontal writes for given widths: all cells and a final newline |
| ColumnText.McText | src/libmc/mc.c:370-394 | the text mc writes: the chosen widths for the direction, then the row-major or the column-major text |
| Mc.OtherWindowKept | src/libmc/mc.c:260 | writing one width of candidate i leaves the col_arr slice of every other candidate as it was |
| Mc.CellWritten | src/libmc/mc.c:260 | writing col_arr[idx] of candidate i changes exactly that width of its slice and leaves every other candidate's slice as it was |
| Mc.PointIntoCells | src/libmc/mc.c:206-209 | the new col_arr pointers are the triangle offsets; older records are untouched |
| Mc.OutputFile.constructor | src/libmc/mc.c:102 | a stream starts with nothing written |
| Mc.OutputFile.PutChar | src/libmc/mc.c:328 | fputc appends one character |
| Mc.OutputFile.PutSpaces | src/libmc/mc.c:305-311 | the indent loop appends n blanks |
| Mc.OutputFile.PadFrom | src/libmc/mc.c:314-319 | the padding loop appends blanks from the element length up to the width, none when the element is as wide |
| Mc.OutputFile.PutCell | src/libmc/mc.c:313-319 | fprintf of the element and the padding append exactly the cell text |
| Mc.OutputFile.PutString | src/libmc/mc.c:313 | fprintf("%s") appends the string |
| Mc.Layout.constructor | src/libmc/mc.c:373-389 | mc_t starts with the arguments, no column info and max_idx |
| Mc.Layout.GrowTable | src/libmc/mc.c:169-212 | dies exactly when the overflow test fires; otherwise column_info_alloc follows the growth policy and covers max_cols, and the old records and the old cells are kept in the grown arrays |
| Mc.Layout.ResetCells | src/libmc/mc.c:219-221 | the widths of candidate i are reset to 3 |
| Mc.Layout.ResetCandidates | src/libmc/mc.c:214-222 | every candidate below max_cols becomes the initial one |
| Mc.Layout.AllReset | src/libmc/mc.c:214-222 | valid records of line_len (k + 1) * 3 over cells of 3 are the initial candidates |
| Mc.Layout.InitColumnInfo | src/libmc/mc.c:164-223 | dies exactly on overflow; otherwise the table has grown as the policy says and holds the initial candidates |
| Mc.Layout.SetCell | src/libmc/mc.c:260 | writing col_arr[idx] of candidate i changes that width and no other candidate |
| Mc.Layout.SetRecord | src/libmc/mc.c:258-262 | writing valid_len and line_len of candidate i changes only that record |
| Mc.Layout.WidenCandidate | src/libmc/mc.c:256-263 | the in-place update of one candidate is Widen on its value; the other candidates are untouched |
| Mc.Layout.FoldElement | src/libmc/mc.c:251-265 | one element is folded into every candidate below max_cols |
| Mc.Layout.FoldElements | src/libmc/mc.c:246-266 | after the loop each candidate is the fold of all elements |
| Mc.Layout.SelectColumns | src/libmc/mc.c:269-273 | the selection loop returns Chosen |
| Mc.Layout.CalculateColumns | src/libmc/mc.c:231-276 | dies exactly when init_column_info does; otherwise every candidate is folded and the result is Columns |
| Mc.Layout.CellOf | src/libmc/mc.c:150-154 | width j of candidate i is the cell at col_arr + j |
| Mc.Layout.RecordShows | src/libmc/mc.c:282 | line_fmt's col_arr shows the chosen candidate's widths |
| Mc.Layout.ChosenLineFormat | src/libmc/mc.c:281-282 | the chosen count indexes an allocated record whose widths are ChosenWidths |
| Mc.Layout.PrintRowCell | src/libmc/mc.c:299-319 | one cell of a row: the indent at column 0, then the padded element |
| Mc.Layout.PrintRow | src/libmc/mc.c:296-328 | one row is written: the cells of its elements and a newline |
| Mc.Layout.PrintRows | src/libmc/mc.c:295-329 | all rows are written in order |
| Mc.Layout.PrintDown | src/libmc/mc.c:288-329 | the column-major text for the given widths is written |
| Mc.Layout.PrintManyPerLine | src/libmc/mc.c:278-330 | dies exactly on table overflow and then writes nothing; otherwise writes the column-major text for the chosen widths |
| Mc.Layout.PrintAcross | src/libmc/mc.c:339-366 | the elements in input order, a newline and the indent before every cols-th, padded cells, and a final newline |
| Mc.Layout.PrintHorizontal | src/libmc/mc.c:332-367 | dies exactly on table overflow and then writes nothing; otherwise writes the row-major text for the chosen widths |
| Mc.Mc | src/libmc/mc.c:370-394 | dies exactly when the column table would overflow size_t; otherwise appends McText, the layout in the chosen direction |
| Mcml.IsPrefix | src/cmd/mcml.c:265-281 | true exactly when s starts with pfx, equal strings included |
| Mcml.IsSpace | src/cmd/mcml.c:301 | isspace in the C locale: blank, tab, newline, vertical tab, form feed, carriage return |
| Mcml.CommandEnd | src/cmd/mcml.c:299-303 | the scan stops at the first blank or the end, and everything it passed is not blank |
| Mcml.SpacesEnd | src/cmd/mcml.c:314-316 | the scan skips blanks and stops at the first non-blank or the end |
| Mcml.CommandEndUnique | src/cmd/mcml.c:299-303 | a position after a run of non-blanks that is followed by a blank or the end is where the scan stops |
| Mcml.CommandWord | src/cmd/mcml.c:299-308 | the command is the text right after the prefix up to the first blank or the end; it holds no blank |
| Mcml.ArgumentStart | src/cmd/mcml.c:312-318 | the argument starts past the blanks after the command, at a non-blank or the end of the line |
| Mcml.Argument | src/cmd/mcml.c:312-326 | the argument is the end of the line from there on; it is empty or starts with a non-blank |
| Mcml.ParseSplits | src/cmd/mcml.c:299-321 | the line after the prefix is the command (no blanks, then a blank or the end), blanks, and the argument (from the first non-blank to the end, empty when the command reaches the end) |
| Mcml.ChunkSize | src/cmd/mcml.c:305 | the buffer size is the least multiple of 64 that holds the text and its NUL |
| Mcml.CategoryWord | src/cmd/mcml.c:299-303 | the command is "category" exactly when those letters follow and then a blank or the end |
| Mcml.CategoryLine | src/cmd/mcml.c:353-361 | a line is a category command exactly when it is the prefix, "category", then a blank or the end; its argument begins at the first non-blank after it |
| Mcml.Classify | src/cmd/mcml.c:347-366 | an empty line is skipped; a line with the prefix whose command is "category" is a category command with its argument; every other line is an element |
| Mcml.Step | src/cmd/mcml.c:343-367 | one iteration of the stream loop; output is only appended |
| Mcml.Flushed | src/cmd/mcml.c:215-224 | mc_flush does nothing with no elements; when it does not die it leaves none pending |
| Mcml.Run | src/cmd/mcml.c:342-368 | the stream loop over the lines, stopping once the process has died |
| Mcml.StreamResult | src/cmd/mcml.c:333-377 | mcml_stream: the loop, then a flush when each file is laid out on its own |
| Mcml.NonBlank | src/cmd/mcml.c:347-349 | empty lines are skipped |
| Mcml.RunWithoutCommands | src/cmd/mcml.c:342-368 | without category commands nothing is written and the non-empty lines are queued in order |
| Mcml.RunAppend | src/cmd/mcml.c:342-368 | running over two stretches of lines is running over the first and then the second |
| Mcml.SectionFlush | src/cmd/mcml.c:353-365 | a stretch of elements closed by a category command is laid out, then the header line is written, and nothing stays pending |
| Mcml.NoPrefixNoCommands | src/cmd/mcml.c:353 | without a command prefix every non-empty line is an element |
| Mcml.PendingFromInput | src/cmd/mcml.c:367 | every pending element was pending before or is an input line that is not a category command |
| Mcml.CategoryHeader | src/cmd/mcml.c:361-364 | a category command leaves nothing pending and the text ends with its argument and ":\n" |
| Mcml.TextGrows | src/cmd/mcml.c:342-368 | output is only appended: the text before a run is a prefix of the text after it |
| Mcml.ScanCommand | src/cmd/mcml.c:299-303 | the command scan loop stops where CommandEnd says |
| Mcml.ScanArgument | src/cmd/mcml.c:312-321 | the argument starts after the blanks that follow the command, and the scan ends at the end of the line |
| Mcml.NewCString | src/cmd/mcml.c:305-308 | a buffer of ChunkSize bytes holding the text and a NUL after it |
| Mcml.Mcml.constructor | src/cmd/mcml.c:176-178 | no elements and no vector at program start |
| Mcml.Mcml.AddElement | src/cmd/mcml.c:180-202 | the element is appended to the pending ones; the vector starts at 1024 slots and grows by 1024 when full |
| Mcml.Mcml.Reset | src/cmd/mcml.c:204-213 | no elements are pending; the vector is kept |
| Mcml.Mcml.Flush | src/cmd/mcml.c:215-224 | the written text, the pending elements and the death flag are those of Flushed |
| Mcml.Mcml.ParseMcmlCommand | src/cmd/mcml.c:283-331 | the command and the argument are CommandWord and Argument; both static buffers are ChunkSize long and hold the text and a NUL |
| Mcml.Mcml.HandleLine | src/cmd/mcml.c:343-367 | one iteration of the stream loop does what Step says |
| Mcml.Mcml.Stream | src/cmd/mcml.c:333-377 | the whole stream, with the flush at the end when each file is laid out on its own, is StreamResult |

## Left out

- Reading lines (`linebuf`, `fgetline`, `sgl_fgetline`) is not part of this model. The stream is given as a sequence of lines, each the buffer the line reader returns.
- `main`, option parsing and `filev_mcml` are not part of this model. The settings (command prefix, width, indent, direction, each-file flag) are parameters of the class `Mcml`.
- `strdup`/`free` ownership of the elements is not modelled. An element is a value; `Reset` only forgets the pending elements.
- The contents of a `realloc`ed buffer beyond the bytes copied into it are not modelled. `NewCString` returns a fresh array.
- Allocation failure of `malloc`, `realloc` and `guard_malloc` is not modelled: every allocation succeeds.
- `xalloc_die` prints a message to stderr and exits with status 64. It is modelled as a `died` result, after which nothing more is written.
- Stdio is modelled as a text that output is appended to. Buffering and write errors are not modelled.
- Characters are Dafny `char`s, and a length is the length of the sequence, where `strlen` counts bytes. `isspace` is the C-locale one. A NUL inside a line, which would cut `strlen` and `%s` short, is not modelled.
- Mcml.ChunkSize: does not model the `size_t` wrap of `len + 1 + 63`, because a line that long cannot be held in memory.
- Mcml.Mcml.AddElement: does not model the `size_t` wrap of `mc_sz * sizeof(char *)`, for the same reason.
- ColumnFit.Widen: does not model a `size_t` wrap of `line_len`, because it grows only while below the budget and by at most an element's length plus 2.
- Mc.Mc requires at least one element. With none, `calculate_columns` returns 0 columns, `line_fmt` points before the table and `print_many_per_line` divides by zero (`mc.c:282-288`). The only caller, `mc_flush`, never calls it with none.
- ColumnText.RowUpTo has a guard that only keeps it total; along a real row it never applies.
