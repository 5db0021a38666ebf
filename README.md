# Sparse matrix, modelled in Dafny

This project models the `SparseMatrix` class of `dsa/sparse_matrix/code/src/sparse_matrix.py`.
The class is an integer matrix that stores only its non-zero cells, in a dictionary keyed by
the string `f"{row}.{column}"`. It offers:

- `set_element` and `get_element`: an implicit-zero store with delete-on-zero;
- `add` and `subtract`: element-wise over the union of both key sets, after a dimension check;
- `multiply_slow`: the triple loop over the declared index ranges;
- `multiply_optimal`: groups the right operand by row, scatters products into a running map,
  then stores the non-zero sums;
- `read_from_file`: a lenient line reader;
- `display` and `write_to_file`: render `rows=`/`cols=` headers, then one `(row, column, value)`
  line per stored cell, sorted by key string.

The modules follow that structure:

- `Strings` (`strings.dfy`): the parts of Python's `str(n)`, `int(s)`, `strip`, `split` and
  string `<` that the class relies on.
- `Keys` (`keys.dfy`): the dictionary key `f"{row}.{column}"`, its decoding with `split(".")`,
  and the order `sorted` puts keys in.
- `Store` (`store.dfy`): the cells as `map<(int, int), int>`, with an absent cell reading as 0;
  the effect of `set_element`; the element-wise sum and difference.
- `Codec` (`codec.dfy`): the text form, meaning what the reader accepts and what the writers emit.
- `Product` (`product.dfy`): the dense triple sum of `multiply_slow`, the sparse sum of
  `multiply_optimal`, and the theorem that they agree when every stored cell lies inside the
  declared dimensions.
- `Sparse` (`sparse_matrix.dfy`): the class itself.
  - `SparseMatrix` has fields `rows`, `columns` and `data`, and methods that update them in
    place or build a fresh result through `SetElement`.
  - Every loop of the source is a `while` loop with its invariants.
  - Each method is proved against the specification functions of the modules above.

The dictionary keyed by strings is represented by a map keyed by positions.
`Keys.KeyRoundTrip` and `Keys.KeyInjective` show that this loses nothing:
- distinct positions have distinct keys;
- `map(int, key.split("."))` gives the position back, negative indices included.

Python iterates a dictionary in insertion order. Each loop over `.items()` is modelled as
taking the remaining keys in an arbitrary order (`:|`). Every postcondition therefore holds
whatever that order is.

Three details of the reader, as the code has them (`sparse_matrix.py:26`, `:28`):
- The two header lines are the first two lines of the file, whatever they are. A blank first
  line is therefore a header error, not skipped.
- The name before `=` is not checked.
- The header value is the text between the first and the second `=`
  (`split("=")[1]`), not everything after the first `=`.

## Model

| member | source | states |
|---|---|---|
| Sparse.SparseMatrix.constructor | dsa/sparse_matrix/code/src/sparse_matrix.py:2-17 | construction with dimensions gives those dimensions, an empty store, and no stored zero |
| Sparse.SparseMatrix.SetElement | dsa/sparse_matrix/code/src/sparse_matrix.py:58-65 | the new store is `Put` of the old one at (row, column); dimensions are unchanged; a zero-free store stays zero-free |
| Store.Put | dsa/sparse_matrix/code/src/sparse_matrix.py:58-65 | afterwards the cell reads `v` and every other cell reads as before; for `v == 0` the key is absent, and deleting an absent key leaves the store unchanged; no key other than (row, column) is added; no zero is ever stored |
| Store.PutTwice | dsa/sparse_matrix/code/src/sparse_matrix.py:58-65 | a second `set_element` on the same cell overrides the first |
| Sparse.SparseMatrix.GetElement | dsa/sparse_matrix/code/src/sparse_matrix.py:68-70 | the stored value for a stored cell, 0 for any other; never fails |
| Store.At | dsa/sparse_matrix/code/src/sparse_matrix.py:68-70 | `data.get(key, 0)`: a non-zero reading comes from a stored cell with that value |
| Store.SameValues | dsa/sparse_matrix/code/src/sparse_matrix.py:61-65 | two zero-free stores that read alike at every cell are equal, so zero-elision makes the representation unique |
| Keys.Key | dsa/sparse_matrix/code/src/sparse_matrix.py:59 | the key `f"{row}.{column}"`; `key.split(".")` on it gives exactly the two decimal strings |
| Keys.DecodeKey | dsa/sparse_matrix/code/src/sparse_matrix.py:84 | `map(int, key.split("."))`; a key without `.` does not decode (the unpacking raises) |
| Keys.KeyRoundTrip | dsa/sparse_matrix/code/src/sparse_matrix.py:84 | `map(int, key.split("."))` recovers the position for all integers, negatives included |
| Keys.KeyInjective | dsa/sparse_matrix/code/src/sparse_matrix.py:59 | distinct positions never share a key |
| Keys.KeyLess | dsa/sparse_matrix/code/src/sparse_matrix.py:198 | the order of `sorted` on keys is strict: no position precedes itself |
| Keys.KeyLessTotal | dsa/sparse_matrix/code/src/sparse_matrix.py:198 | any two distinct positions are ordered one way or the other by key string |
| Keys.KeyOrderIsTextual | dsa/sparse_matrix/code/src/sparse_matrix.py:198 | the order is textual: row 10 before row 2, column 10 before column 2, (1, 5) before (10, 0) |
| Keys.LeastExists | dsa/sparse_matrix/code/src/sparse_matrix.py:198 | every non-empty set of positions has a least key |
| Keys.SortedKeys | dsa/sparse_matrix/code/src/sparse_matrix.py:198 | `sorted` lists exactly the stored positions, each once |
| Keys.SortedKeysAscending | dsa/sparse_matrix/code/src/sparse_matrix.py:211 | the sorted positions are strictly ascending by key string |
| Strings.Strip | dsa/sparse_matrix/code/src/sparse_matrix.py:32 | `strip` gives a text no longer than the line that neither starts nor ends with whitespace (every character for which `str.isspace` holds) |
| Strings.TrimStartDrops | dsa/sparse_matrix/code/src/sparse_matrix.py:32 | `strip` drops exactly the leading whitespace |
| Strings.TrimEndDrops | dsa/sparse_matrix/code/src/sparse_matrix.py:32 | `strip` drops exactly the trailing whitespace |
| Strings.StripUnchanged | dsa/sparse_matrix/code/src/sparse_matrix.py:32 | a line without surrounding whitespace is left as it is |
| Strings.IntToString | dsa/sparse_matrix/code/src/sparse_matrix.py:59 | `str(n)` is decimal digits with a leading `-` exactly when n is negative |
| Strings.ParseInt | dsa/sparse_matrix/code/src/sparse_matrix.py:49 | `int` accepts only text containing a digit, and rejects text holding any of U+001C..U+001F, which `strip` treats as whitespace but `int` does not skip; anything else raises |
| Strings.IntRoundTrip | dsa/sparse_matrix/code/src/sparse_matrix.py:49 | `int(str(n)) == n` for every integer (no digit-count limit, see Left out) |
| Strings.IntRoundTripAfterBlank | dsa/sparse_matrix/code/src/sparse_matrix.py:49 | `int` also reads `str(n)` after the blank that `", "` leaves in a field |
| Strings.Split | dsa/sparse_matrix/code/src/sparse_matrix.py:43 | `split` gives at least one piece, and two or more only when the separator occurs |
| Strings.SplitWithout | dsa/sparse_matrix/code/src/sparse_matrix.py:43 | splitting text without the separator gives the text alone |
| Strings.SplitFirst | dsa/sparse_matrix/code/src/sparse_matrix.py:43 | splitting at the first separator gives that piece, then the split of the rest |
| Strings.StrLess | dsa/sparse_matrix/code/src/sparse_matrix.py:198 | string `<` is irreflexive |
| Strings.StrLessTransitive | dsa/sparse_matrix/code/src/sparse_matrix.py:198 | string `<` is transitive |
| Strings.StrLessTotal | dsa/sparse_matrix/code/src/sparse_matrix.py:198 | string `<` orders any two distinct strings |
| Codec.HeaderValue | dsa/sparse_matrix/code/src/sparse_matrix.py:26 | `int(line.split("=")[1].strip())`, the piece stripped before `int` reads it; a line without `=` has no value |
| Codec.ReadLine | dsa/sparse_matrix/code/src/sparse_matrix.py:26-28 | `readline`; past the end of the file it gives a line with no header value |
| Codec.Read | dsa/sparse_matrix/code/src/sparse_matrix.py:26-55 | the read fails exactly when a header line has no value, and then with a format error; a successful read stores no zero, and its dimensions are the two header values |
| Codec.ReadText | dsa/sparse_matrix/code/src/sparse_matrix.py:24-30 | reading a whole file's text fails only with a format error, and stores no zero |
| Codec.MissingHeaderIsError | dsa/sparse_matrix/code/src/sparse_matrix.py:26-28 | a file with fewer than two lines is an error |
| Codec.NonNumericHeaderIsError | dsa/sparse_matrix/code/src/sparse_matrix.py:26-28 | for every file: if either header line is `name=value` and the value, up to any further `=` and stripped, is not an integer, the read is an error |
| Codec.HeaderWithoutEqualsIsError | dsa/sparse_matrix/code/src/sparse_matrix.py:26-28 | for every file: if either header line lacks `=`, the read is an error |
| Codec.ParseEntry | dsa/sparse_matrix/code/src/sparse_matrix.py:32-49 | a line is accepted only if, stripped, it is wrapped in parentheses around exactly three comma-separated fields; for every line so wrapped the result is `ParseFields` of those fields, so (with `ParseFields`'s contract) the triple is the three fields read by `int`, and a line with a field `int` rejects is skipped |
| Codec.InfoSeparatorFieldSkipped | dsa/sparse_matrix/code/src/sparse_matrix.py:43-53 | a line `(a,b,c)` whose middle field starts with an information separator, such as `(1,\x1c2,3)`, is skipped: `int` raises on the field and the `ValueError` is caught |
| Codec.ParseFields | dsa/sparse_matrix/code/src/sparse_matrix.py:43-49 | the fields are accepted exactly when there are three and each reads as an integer, and then give those three integers |
| Codec.ApplyLine | dsa/sparse_matrix/code/src/sparse_matrix.py:30-55 | a rejected line leaves the cells unchanged; an accepted one sets its cell to its value, leaves every other cell reading as before and adds no other key; no zero is ever stored |
| Codec.ApplyLines | dsa/sparse_matrix/code/src/sparse_matrix.py:30-55 | the loop over the lines never stores a zero |
| Codec.ReadBody | dsa/sparse_matrix/code/src/sparse_matrix.py:30-55 | after both headers, the cells are the later lines applied in file order |
| Codec.ReadHeadersThenBody | dsa/sparse_matrix/code/src/sparse_matrix.py:26-55 | two readable headers, then the body lines in order, give that matrix |
| Codec.ReadAppend | dsa/sparse_matrix/code/src/sparse_matrix.py:30-55 | one more line changes only the cells, by one pass of the loop |
| Codec.UnreadableLineSkipped | dsa/sparse_matrix/code/src/sparse_matrix.py:35-47 | a line that is blank, not wrapped in parentheses, not three fields, or not integers changes nothing |
| Codec.ReadTrailingBlank | dsa/sparse_matrix/code/src/sparse_matrix.py:35-36 | a trailing blank line changes nothing |
| Codec.ApplyLinesAt | dsa/sparse_matrix/code/src/sparse_matrix.py:30-55 | after the loop every cell holds the value of the last line naming it, or its earlier value when none does |
| Codec.LastLineWins | dsa/sparse_matrix/code/src/sparse_matrix.py:30-55 | after a successful read every cell holds the value of the last line naming it, and 0 when none does |
| Codec.LastEntrySkip | dsa/sparse_matrix/code/src/sparse_matrix.py:51 | a line that names another cell does not affect which line is last for this one |
| Codec.LastEntryAppend | dsa/sparse_matrix/code/src/sparse_matrix.py:51 | the last line naming a cell is the final line if that one names it, and otherwise the last one before it |
| Codec.LastEntryShadowed | dsa/sparse_matrix/code/src/sparse_matrix.py:51 | a later line for the same cell hides an earlier one, whatever lies between them |
| Codec.LaterLineWins | dsa/sparse_matrix/code/src/sparse_matrix.py:51 | of two lines for the same cell, the later one wins, with any lines between them |
| Codec.ZeroLineDeletes | dsa/sparse_matrix/code/src/sparse_matrix.py:51 | any line that reads as value 0 removes that cell |
| Codec.ApplyLinesStep | dsa/sparse_matrix/code/src/sparse_matrix.py:30-51 | the loop over one more line is one more `ApplyLine` |
| Codec.ApplyEntry | dsa/sparse_matrix/code/src/sparse_matrix.py:51 | reading a rendered cell line is one `set_element` for that cell |
| Codec.HeaderRoundTrip | dsa/sparse_matrix/code/src/sparse_matrix.py:207-209 | a written header line reads back as its value |
| Codec.FieldsSplit | dsa/sparse_matrix/code/src/sparse_matrix.py:43 | the interior of a written cell line splits at `,` into the three written fields |
| Codec.FieldsRoundTrip | dsa/sparse_matrix/code/src/sparse_matrix.py:46-49 | the three written fields read back as the three integers |
| Codec.HeaderLine | dsa/sparse_matrix/code/src/sparse_matrix.py:207-209 | a header line contains no line break |
| Codec.EntryLine | dsa/sparse_matrix/code/src/sparse_matrix.py:214 | `f"({row}, {column}, {value})"`, the same text `display` prints at line 201; its properties are stated by `EntryShape`, `EntryLineNoNewline` and `EntryRoundTrip` |
| Codec.EntryLineNoNewline | dsa/sparse_matrix/code/src/sparse_matrix.py:214 | a cell line contains no line break |
| Codec.EntryShape | dsa/sparse_matrix/code/src/sparse_matrix.py:214 | a written cell line is wrapped in parentheses around its three fields, with nothing for `strip` to remove |
| Codec.EntryRoundTrip | dsa/sparse_matrix/code/src/sparse_matrix.py:214 | a written cell line parses back as (row, column, value) |
| Codec.Render | dsa/sparse_matrix/code/src/sparse_matrix.py:204-214 | the rendering has two header lines plus one line per stored cell |
| Codec.RenderedHeaders | dsa/sparse_matrix/code/src/sparse_matrix.py:207-209 | the rendered header lines read back as the dimensions |
| Codec.RenderedLine | dsa/sparse_matrix/code/src/sparse_matrix.py:211-214 | rendered line i is the cell line of the (i - 2)-th position in key order |
| Codec.RenderedCellsInKeyOrder | dsa/sparse_matrix/code/src/sparse_matrix.py:211-214 | every rendered cell line names a stored cell with its value, and the lines are in strictly ascending key order |
| Codec.ApplyRendered | dsa/sparse_matrix/code/src/sparse_matrix.py:211-214 | reading the first n rendered cell lines stores exactly those n cells |
| Codec.RenderedBody | dsa/sparse_matrix/code/src/sparse_matrix.py:211-214 | reading all rendered cell lines stores exactly the matrix's cells |
| Codec.ReadRender | dsa/sparse_matrix/code/src/sparse_matrix.py:204-214 | reading what is rendered gives back the same dimensions and cells |
| Codec.RenderNoNewline | dsa/sparse_matrix/code/src/sparse_matrix.py:207-214 | no rendered line contains a line break |
| Codec.Join | dsa/sparse_matrix/code/src/sparse_matrix.py:207-214 | the written text is empty exactly when there are no lines |
| Codec.SplitJoin | dsa/sparse_matrix/code/src/sparse_matrix.py:207-214 | splitting newline-terminated lines at line breaks gives the lines plus a final empty piece |
| Codec.RenderText | dsa/sparse_matrix/code/src/sparse_matrix.py:207-214 | the text `write_to_file` writes: the rendered lines joined with `\n`; `ReadTextRenderText` states that it reads back |
| Codec.ReadTextRenderText | dsa/sparse_matrix/code/src/sparse_matrix.py:204-214 | reading the written file text gives back the same dimensions and cells |
| Sparse.SparseMatrix.ReadFromFile | dsa/sparse_matrix/code/src/sparse_matrix.py:21-55 | succeeds exactly when both headers read; otherwise a format error; on success a new zero-free matrix holding exactly `Read(lines)` |
| Sparse.SparseMatrix.LoadEntries | dsa/sparse_matrix/code/src/sparse_matrix.py:30-55 | the line loop leaves the declared dimensions and the cells of the lines after the headers, applied in order |
| Sparse.SparseMatrix.LoadLine | dsa/sparse_matrix/code/src/sparse_matrix.py:31-55 | one pass of the line loop: the cells become those after one more line |
| Sparse.LoadedApplies | dsa/sparse_matrix/code/src/sparse_matrix.py:30-55 | the state of the loop after line i is the first i - 2 body lines applied in order |
| Sparse.SparseMatrix.Display | dsa/sparse_matrix/code/src/sparse_matrix.py:193-201 | the printed lines are exactly the rendering: headers, then cells in key order; for a valid matrix they read back as the same matrix |
| Sparse.SparseMatrix.LeastKey | dsa/sparse_matrix/code/src/sparse_matrix.py:198 | the next position `sorted` yields is the one with the least key |
| Sparse.KeyedLine | dsa/sparse_matrix/code/src/sparse_matrix.py:199-201 | a key without `.` gives no line (the unpacking raises); otherwise a parenthesised line |
| Sparse.KeyedLineIsEntryLine | dsa/sparse_matrix/code/src/sparse_matrix.py:199-201 | cutting row and column from the stored key gives the same line as formatting the position |
| Sparse.DisplayStep | dsa/sparse_matrix/code/src/sparse_matrix.py:198-201 | one pass of the display loop keeps the printed prefix equal to the rendering's prefix |
| Sparse.DisplayDone | dsa/sparse_matrix/code/src/sparse_matrix.py:198-201 | once every position is shown, the lines are the rendering |
| Sparse.SparseMatrix.WriteToFile | dsa/sparse_matrix/code/src/sparse_matrix.py:204-214 | the written text is the rendering, each line ended by a line break; for a valid matrix, reading it back gives the same matrix |
| Store.CombineOn | dsa/sparse_matrix/code/src/sparse_matrix.py:83-93 | after the positions of s: each has the sum or difference of the operands' values, nothing else is stored, no zero is stored |
| Store.CombineOnInsert | dsa/sparse_matrix/code/src/sparse_matrix.py:83-86 | one more position handled is one more `set_element` of the combined value |
| Store.Combine | dsa/sparse_matrix/code/src/sparse_matrix.py:74-120 | every cell reads `a + b` (or `a - b`); no zero is stored; only keys of either operand are stored |
| Store.AddCommutes | dsa/sparse_matrix/code/src/sparse_matrix.py:74-95 | `add` is commutative |
| Store.AddZero | dsa/sparse_matrix/code/src/sparse_matrix.py:74-95 | adding the all-zero matrix gives the operand back |
| Store.SubtractSelf | dsa/sparse_matrix/code/src/sparse_matrix.py:99-120 | a matrix minus itself stores nothing |
| Store.SubtractThenAdd | dsa/sparse_matrix/code/src/sparse_matrix.py:74-120 | subtracting b and then adding b back restores the matrix |
| Sparse.SparseMatrix.CombineWith | dsa/sparse_matrix/code/src/sparse_matrix.py:80-95 | a fresh matrix of self's dimensions holding the element-wise sum or difference |
| Sparse.SparseMatrix.CombineOwn | dsa/sparse_matrix/code/src/sparse_matrix.py:83-86 | the first loop stores the combined value at every key of self |
| Sparse.SparseMatrix.CombineOthers | dsa/sparse_matrix/code/src/sparse_matrix.py:89-93 | the second loop adds the keys only other stores, copied (add) or negated (subtract) |
| Sparse.SparseMatrix.Add | dsa/sparse_matrix/code/src/sparse_matrix.py:74-95 | fails with a dimension error exactly when the dimensions differ; otherwise a new matrix of the same dimensions holding the element-wise sum; neither operand changes |
| Sparse.SparseMatrix.Subtract | dsa/sparse_matrix/code/src/sparse_matrix.py:99-120 | fails with a dimension error exactly when the dimensions differ; otherwise a new matrix of the same dimensions holding self - other; neither operand changes |
| Product.DenseOn | dsa/sparse_matrix/code/src/sparse_matrix.py:132-143 | at the visited positions the store holds the triple-loop sum; it stores nothing elsewhere and no zero |
| Product.DenseOnInsert | dsa/sparse_matrix/code/src/sparse_matrix.py:142-143 | visiting one more position is one `set_element` of its sum |
| Product.DenseProduct | dsa/sparse_matrix/code/src/sparse_matrix.py:124-145 | every in-range (i, j) reads Σ_{k < columns} A(i, k) * B(k, j); it stores nothing out of range and no zero |
| Product.Dot | dsa/sparse_matrix/code/src/sparse_matrix.py:134-139 | the innermost-loop sum is 0 when either operand stores nothing |
| Sparse.SparseMatrix.DotProduct | dsa/sparse_matrix/code/src/sparse_matrix.py:134-139 | the innermost loop computes Σ_{k < columns} A(i, k) * B(k, j) |
| Sparse.SparseMatrix.FillRow | dsa/sparse_matrix/code/src/sparse_matrix.py:133-143 | the middle loop performs the `set_element` of every non-zero sum in row i |
| Sparse.RowFilledDense | dsa/sparse_matrix/code/src/sparse_matrix.py:133-143 | filling row i extends the visited grid by that row |
| Sparse.GridStep | dsa/sparse_matrix/code/src/sparse_matrix.py:132-133 | the grid of rows below i plus row i is the grid of rows below i + 1 |
| Sparse.SlowLoopDone | dsa/sparse_matrix/code/src/sparse_matrix.py:132 | after the outer loop, including an empty `range` for negative rows, the store is the dense product |
| Sparse.SparseMatrix.MultiplySlow | dsa/sparse_matrix/code/src/sparse_matrix.py:124-145 | fails exactly when self.columns != other.rows; otherwise a new self.rows × other.columns matrix holding the dense product; neither operand changes |
| Product.DotIsSum | dsa/sparse_matrix/code/src/sparse_matrix.py:136-139 | the loop sum equals the sum of the products over row i's positions in any order |
| Product.SumOverRemove | dsa/sparse_matrix/code/src/sparse_matrix.py:180-182 | a sum over a set splits off any one element |
| Product.SumOverZeros | dsa/sparse_matrix/code/src/sparse_matrix.py:136-139 | positions contributing zero products can be dropped from the sum |
| Product.Accumulated | dsa/sparse_matrix/code/src/sparse_matrix.py:169-182 | after the cells q of self, `temp_result` holds exactly the positions some cell reached, each with the sum of its products |
| Product.MeetInsert | dsa/sparse_matrix/code/src/sparse_matrix.py:175-177 | one more cell x reaches exactly the positions of row x.0 whose column row x.1 of other stores |
| Product.AccumulateAt | dsa/sparse_matrix/code/src/sparse_matrix.py:179-182 | one more cell adds its product where it reaches and nothing elsewhere |
| Product.AccumulateStep | dsa/sparse_matrix/code/src/sparse_matrix.py:171-182 | one more cell of self scatters its row of products into `temp_result` |
| Product.ScatteredUnique | dsa/sparse_matrix/code/src/sparse_matrix.py:176-182 | the scatter of a cell determines `temp_result` uniquely |
| Product.NonZeroOn | dsa/sparse_matrix/code/src/sparse_matrix.py:185-188 | the committed store holds exactly the non-zero running sums |
| Product.NonZeroOnInsert | dsa/sparse_matrix/code/src/sparse_matrix.py:185-188 | committing one more running sum is one `set_element` |
| Product.SparseProduct | dsa/sparse_matrix/code/src/sparse_matrix.py:149-190 | every position reads the sum of A(x) * B(x.1, j) over the stored cells x that meet it; no zero is stored |
| Sparse.SparseMatrix.Group | dsa/sparse_matrix/code/src/sparse_matrix.py:158-166 | each row's bucket lists exactly the stored cells of that row of other, each column once, with its value |
| Sparse.GroupInsert | dsa/sparse_matrix/code/src/sparse_matrix.py:163-166 | appending one more cell to its row's bucket keeps the grouping exact |
| Sparse.GroupedBucket | dsa/sparse_matrix/code/src/sparse_matrix.py:175-176 | a present bucket lists exactly the stored cells of its row |
| Sparse.NoBucketNoColumns | dsa/sparse_matrix/code/src/sparse_matrix.py:175 | a row without a bucket stores nothing, so skipping it changes nothing |
| Sparse.BucketColumns | dsa/sparse_matrix/code/src/sparse_matrix.py:176 | a bucket's columns are exactly the stored columns of its row |
| Sparse.ColumnsStep | dsa/sparse_matrix/code/src/sparse_matrix.py:176 | each pair of the bucket adds a column not seen before |
| Sparse.ScatterStep | dsa/sparse_matrix/code/src/sparse_matrix.py:177-182 | the insert-or-add on `temp_result` adds the product for one more column |
| Sparse.AccumulatedNone | dsa/sparse_matrix/code/src/sparse_matrix.py:169 | `temp_result` starts empty |
| Sparse.AccumulateNext | dsa/sparse_matrix/code/src/sparse_matrix.py:171-182 | after the scatter of one more cell, `temp_result` is the accumulation including that cell |
| Sparse.SparseMatrix.ScatterRow | dsa/sparse_matrix/code/src/sparse_matrix.py:176-182 | the innermost loop adds v * B(x.1, j) at (x.0, j) for every column in the bucket, and changes nothing else |
| Sparse.SparseMatrix.Scatter | dsa/sparse_matrix/code/src/sparse_matrix.py:169-182 | `temp_result` ends as the accumulation over all stored cells of self |
| Sparse.SparseMatrix.Commit | dsa/sparse_matrix/code/src/sparse_matrix.py:185-188 | a fresh matrix holding exactly the non-zero running sums |
| Sparse.SparseMatrix.MultiplyOptimal | dsa/sparse_matrix/code/src/sparse_matrix.py:149-190 | the same failure condition and dimensions as `multiply_slow`; the store is the sparse product; when every stored cell of both operands is in bounds, exactly `multiply_slow`'s store |
| Product.OptimalMatchesSlow | dsa/sparse_matrix/code/src/sparse_matrix.py:124-190 | with every stored cell in bounds, the sparse product equals the dense product |
| Product.OutOfBoundsDense | dsa/sparse_matrix/code/src/sparse_matrix.py:132-139 | the slow product of a 1×1 matrix with a stored cell (0, 1) ignores that cell |
| Product.OutOfBoundsSparse | dsa/sparse_matrix/code/src/sparse_matrix.py:171-182 | the optimal product uses the out-of-range cell |
| Product.OutOfBoundsCellsDisagree | dsa/sparse_matrix/code/src/sparse_matrix.py:124-190 | without the bounds condition the two products differ, so the condition is needed |

## Left out

- `dsa/sparse_matrix/code/src/main.py` is not part of this model. It is an interactive menu:
  input, printing, output-path building, exception reporting.
- File handles are not modelled.
  - `read_from_file` takes the file's lines, with the line terminators removed.
  - `ReadText` splits a whole file text at `\n`.
  - `display` returns the lines it would print.
  - `write_to_file` returns the text it would write.
- Python's text mode also ends a line at a lone `\r`; the model splits at `\n` only. A `\r`
  before a `\n` is removed by `strip`, as in the source.
- Python's `int` accepts underscores between digits and non-ASCII decimal digits; the model
  reads an optional sign and ASCII digits, inside the whitespace `int` skips: that of `strip`
  without the information separators U+001C..U+001F, which make `int` raise wherever they occur.
- IntRoundTrip, ReadTextRenderText and ParseInt assume no limit on the number of digits. Recent
  CPython versions refuse by default to convert integers of more than 4300 digits with `int()`
  and `str()`. With that limit, such an entry line is skipped, such a header fails the read,
  and `display`/`write_to_file` raise on such a value. The limit is a setting of the
  interpreter (`sys.set_int_max_str_digits`, where 0 turns it off), not of this code, so the
  model follows the unlimited conversion.
- The constructor's file path and `None` arguments are not modelled, and neither is the
  `SyntaxError` at line 19. Construction is either `constructor` (dimensions) or
  `ReadFromFile` (parsed lines).
- Exceptions are not distinguished by class.
  - The `ValueError`/`IndexError` of a bad header becomes `FormatError`.
  - The `SyntaxError` of a dimension mismatch becomes `DimensionMismatch`.
- The decoding `map(int, key.split("."))` at lines 84, 91, 109, 116, 161, 172 and 187 cannot fail,
  by `Keys.KeyRoundTrip`, so the methods work on positions directly.
- The commented-out `visualize_multiplication` and the complexity comments are not modelled.
- The loops are split into helper methods:
  - `FillRow` and `DotProduct` for `multiply_slow`;
  - `CombineOwn` and `CombineOthers` for `add` and `subtract`;
  - `Group`, `Scatter`, `ScatterRow` and `Commit` for `multiply_optimal`;
  - `LoadEntries` and `LoadLine` for `read_from_file`.

  `temp_result` and the grouping are local values, held in `map` variables.
