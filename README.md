# Spreadsheet core: sparse store, bulk assign and row labels

This project models the core of a small Java spreadsheet in Dafny and proves properties of it.

- **The sparse store, `BetterSpreadSheetImpl`.** It maps (row, column) positions to values. It also tracks a width and a height that grow to cover every written cell. `get` reads 0.0 for a cell that was never written. `isEmpty` reports whether a cell was never written. All three cell operations reject negative coordinates.
- **Bulk assign, `setInBulk`.** It makes three argument checks, in order: a negative start, a negative end, and an end before its start. If all pass, it calls `set` once for each cell of the half-open block `[sX, eX) x [sY, eY)`, row by row. The block may be empty.
- **The second implementation, `BetterSparseSpreadSheet`.** It runs the same loop over a `set` inherited from a superclass that is not part of this model.
- **The `BetterSpreadSheet` interface.** Its contract is what every `setInBulk` promises.
- **The controller's row-label decoder, `getRowNum`.** Labels run A..Z, AA..ZZ, AAA... in either case. A label is a bijective base-26 numeral, and the row is its value minus one. The commands then call the store with column `col - 1`.

Files and modules:

- `cells.dfy` (`Cells`): positions, the error kinds, and the `Result` / `Outcome` types that stand for thrown exceptions.
- `store.dfy` (`Store`): the store as a value (`Grid`). It defines `Get`, `IsEmpty`, `Put` (the effect of an accepted `set`) and `Replay` (a sequence of `set` calls). It also holds the store invariant and the lemmas about one call and about many.
- `bulk.dfy` (`Bulk`): the checks (`Validate`), the calls the nested loops make (`RowWrites`, `BlockWrites`), and what those calls do to a store.
- `better_spread_sheet.dfy` (`BetterSpreadSheet`): the interface contract, written as a predicate `BulkContract`.
- `better_spread_sheet_impl.dfy` (`Impl`): the class with its `sheet`, `width` and `height` fields. Its methods update these fields in place, and each method is proved against the `Store` and `Bulk` functions.
- `better_sparse_spread_sheet.dfy` (`Sparse`): the subclass. The state of the unseen superclass is a store value `base`, and a ghost log `calls` records every `set` call in order. The invariant ties the two: `base` is the result of replaying `calls` on a new store.
- `row_label.dfy` (`RowLabel`): the numeral specification (`Numeral`, `Decode`), its order and its bijectivity.
- `controller.dfy` (`Controller`): `getRowNum` as a loop proved equal to `Decode`, and the three commands' calls into the store.

## Model

| member | source | states |
|---|---|---|
| Store.Fresh | src/spreadsheet/BetterSpreadSheetImpl.java:21-25 | the constructor's store has no cells, width 0 and height 0, and satisfies the store invariant |
| Store.FreshIsEmpty | src/spreadsheet/BetterSpreadSheetImpl.java:21-25 | on a new store every non-negative cell is empty and reads 0.0 |
| Store.Get | src/spreadsheet/BetterSpreadSheetImpl.java:49-55 | get fails exactly when row or column is negative, with the "cannot be negative" error |
| Store.IsEmpty | src/spreadsheet/BetterSpreadSheetImpl.java:72-78 | isEmpty fails exactly when row or column is negative, with the same error |
| Store.EmptyReadsZero | src/spreadsheet/BetterSpreadSheetImpl.java:54 | a cell that isEmpty reports empty reads 0.0 (getOrDefault) |
| Store.PutReadsBack | src/spreadsheet/BetterSpreadSheetImpl.java:57-70 | after set(row, col, v) the cell reads v and is no longer empty, for any v, 0.0 included |
| Store.PutFrame | src/spreadsheet/BetterSpreadSheetImpl.java:62 | set changes neither the value nor the emptiness of any other cell |
| Store.PutGrows | src/spreadsheet/BetterSpreadSheetImpl.java:63-69 | set makes height max(height, row + 1) and width max(width, col + 1), and never shrinks either |
| Store.PutPreservesValid | src/spreadsheet/BetterSpreadSheetImpl.java:57-70 | set at a non-negative cell keeps every key inside the dimensions and each dimension equal to one more than some key's row (column) |
| Store.ReplaySnoc | src/spreadsheet/BetterSpreadSheetImpl.java:43 | one more call in the sequence is one more set |
| Store.ReplayAppend | src/spreadsheet/BetterSpreadSheetImpl.java:41-45 | running one sequence of calls and then another is running their concatenation |
| Store.ReplayPreservesValid | src/spreadsheet/BetterSpreadSheetImpl.java:57-70 | any sequence of sets at non-negative cells keeps the store invariant |
| Store.History | src/spreadsheet/BetterSpreadSheetImpl.java:54-62 | from a new store, a key is present exactly when some set wrote it, and it holds the value of the last set that did |
| Store.HistoryDimensions | src/spreadsheet/BetterSpreadSheetImpl.java:80-88 | from a new store, getHeight / getWidth are one more than the largest row / column ever set (0 if none): every written cell lies inside, some written cell reaches the last row, and some written cell reaches the last column |
| Store.Put | src/spreadsheet/BetterSpreadSheetImpl.java:62-69 | set's effect once the coordinates pass: the put and the two conditional grows. It has no contract of its own; its properties are carried by Store.PutReadsBack, Store.PutFrame, Store.PutGrows and Store.PutPreservesValid |
| Store.Replay | src/spreadsheet/BetterSpreadSheetImpl.java:41-45 | a sequence of set calls, first to last. It has no contract of its own; its properties are carried by Store.ReplaySnoc, Store.ReplayAppend, Store.ReplayPreservesValid, Store.History and Store.HistoryDimensions |
| Bulk.Validate | src/spreadsheet/BetterSpreadSheetImpl.java:28-39 | setInBulk is rejected exactly when a coordinate is negative or an end lies before its start; each of the three errors is raised exactly when its check is the first to fail |
| Bulk.RowWrites | src/spreadsheet/BetterSpreadSheetImpl.java:42-44 | the calls of the inner loop for one row. It has no contract of its own; its properties are carried by Bulk.RowWritesShape and Bulk.ReplayRow |
| Bulk.BlockWrites | src/spreadsheet/BetterSpreadSheetImpl.java:41-45 | the calls of both loops (also src/spreadsheet/BetterSparseSpreadSheet.java:35-39). It has no contract of its own; its properties are carried by Bulk.BlockSize, Bulk.BlockMembers, Bulk.BlockRowMajor and Bulk.ReplayBlock |
| Bulk.RowWritesShape | src/spreadsheet/BetterSpreadSheetImpl.java:42-44 | the inner loop makes eY - sY calls (none if eY <= sY), and call i is set(r, sY + i, v) |
| Bulk.BlockSize | src/spreadsheet/BetterSpreadSheetImpl.java:41-45 | an accepted bulk assign makes exactly (eX - sX) * (eY - sY) set calls |
| Bulk.BlockMembers | src/spreadsheet/BetterSpreadSheetImpl.java:41-45 | a call is made exactly for the cells of the block [sX, eX) x [sY, eY), always with the bulk value |
| Bulk.BlockRowMajor | src/spreadsheet/BetterSpreadSheetImpl.java:41-45 | the calls come in strictly increasing row-major order, so no cell is set twice |
| Bulk.ReplayRow | src/spreadsheet/BetterSpreadSheetImpl.java:42-44 | one row's calls write v at exactly that row's cells in [sY, eY), leave every other key and value as it was, and grow the dimensions to (r + 1, eY) when the row is not empty |
| Bulk.ReplayBlock | src/spreadsheet/BetterSpreadSheetImpl.java:41-45 | the block's calls write v at exactly the block's cells and nothing else (row eX and column eY are not written); the dimensions become max(height, eX) and max(width, eY); an empty block changes nothing |
| Bulk.BlockPreservesValid | src/spreadsheet/BetterSpreadSheetImpl.java:41-45 | a bulk assign with non-negative start keeps the store invariant |
| BetterSpreadSheet.ValidateThenWriteMeetsContract | src/spreadsheet/BetterSpreadSheet.java:9-22 | checking first and then making the row-major calls meets the interface contract: the call throws iff a coordinate is negative or an end precedes its start, and then changes nothing; otherwise every cell of the block reads v |
| Impl.BetterSpreadSheetImpl.constructor | src/spreadsheet/BetterSpreadSheetImpl.java:21-25 | a new store is the empty store and satisfies the invariant |
| Impl.BetterSpreadSheetImpl.Set | src/spreadsheet/BetterSpreadSheetImpl.java:57-70 | fails iff a coordinate is negative, leaving the fields unchanged; otherwise the fields become Put of the old store, the cell reads back v and is not empty, the dimensions grow to cover it, and no other cell's value or emptiness changes |
| Impl.BetterSpreadSheetImpl.SetRow | src/spreadsheet/BetterSpreadSheetImpl.java:42-44 | the inner loop leaves the fields equal to the old store after that row's calls |
| Impl.BetterSpreadSheetImpl.SetInBulk | src/spreadsheet/BetterSpreadSheetImpl.java:27-47 | the outcome is Validate's; a rejected call changes nothing; an accepted one leaves the fields equal to the old store after the block's calls; the interface contract holds |
| Sparse.BetterSparseSpreadSheet.constructor | src/spreadsheet/BetterSparseSpreadSheet.java:6 | a new sheet is the empty store and has made no set call |
| Sparse.BetterSparseSpreadSheet.Set | src/spreadsheet/BetterSparseSpreadSheet.java:37 | the inherited set as called here: fails iff a coordinate is negative, changing nothing; otherwise the store becomes Put of the old store and the call is logged |
| Sparse.BetterSparseSpreadSheet.SetRow | src/spreadsheet/BetterSparseSpreadSheet.java:36-38 | the inner loop makes exactly that row's calls, in order, and the store reflects them |
| Sparse.BetterSparseSpreadSheet.SetRows | src/spreadsheet/BetterSparseSpreadSheet.java:35-39 | the outer loop makes exactly the block's calls, row by row, and the store reflects them |
| Sparse.BetterSparseSpreadSheet.SetInBulk | src/spreadsheet/BetterSparseSpreadSheet.java:21-41 | the outcome is Validate's; a rejected call makes no set call at all; an accepted one makes exactly the block's calls in row-major order; the interface contract holds |
| Sparse.BetterSparseSpreadSheet.KeysAreWrittenCells | src/spreadsheet/BetterSparseSpreadSheet.java:35-39 | on any sheet satisfying the invariant, a cell is stored exactly when some logged set call wrote it, and it holds the value of the last such call |
| Sparse.BetterSparseSpreadSheet.DimensionsCoverCalls | src/spreadsheet/BetterSparseSpreadSheet.java:35-39 | on any sheet satisfying the invariant, every logged call lies inside the dimensions, and a non-zero height (width) is reached by some logged call's row (column) |
| Controller.SpreadSheetController.constructor | src/spreadsheet/SpreadSheetController.java:32-39 | the controller keeps the sheet it was given |
| Controller.SpreadSheetController.GetRowNum | src/spreadsheet/SpreadSheetController.java:110-122 | the loop returns Decode(rowLetters): "Invalid row" iff some character is not a letter, otherwise the label's numeral value minus one |
| Controller.SpreadSheetController.AssignValue | src/spreadsheet/SpreadSheetController.java:59-68 | assign-value sets cell (row, col - 1): "Invalid row" for a bad label, the store's error for a negative cell, and otherwise the store after that set |
| Controller.SpreadSheetController.PrintValue | src/spreadsheet/SpreadSheetController.java:69-77 | print-value yields get(row, col - 1), or "Invalid row" for a bad label |
| Controller.SpreadSheetController.BulkAssign | src/spreadsheet/SpreadSheetController.java:78-92 | bulk-assign calls setInBulk(row, col - 1, row1, col1 - 1, v) after decoding both labels: "Invalid row" if either is bad; otherwise setInBulk's outcome and store |
| Controller.BulkAssignA1B4 | test/spreadsheet/SpreadSheetControllerTest.java:131-141 | "bulk-assign A 1 B 4 100" becomes setInBulk(0, 0, 1, 3, 100) and on a new store writes exactly (0,0), (0,1) and (0,2), giving height 1 and width 3 |
| RowLabel.ToLower | src/spreadsheet/SpreadSheetController.java:119 | lower-casing keeps letters letters and non-letters non-letters, sends every letter to lower case and leaves lower-case letters alone |
| RowLabel.LetterValue | src/spreadsheet/SpreadSheetController.java:119 | each letter is a digit from 1 (a, A) to 26 (z, Z) |
| RowLabel.Numeral | src/spreadsheet/SpreadSheetController.java:114-120 | the `rownumber` fold, 26 * n + digit over the letters. It has no contract of its own; its properties are carried by RowLabel.NumeralLower, RowLabel.NumeralRange, RowLabel.NumeralLexOrder, RowLabel.NumeralInjective and RowLabel.Spell |
| RowLabel.Decode | src/spreadsheet/SpreadSheetController.java:110-122 | decoding fails exactly when the label holds a non-letter, and then with "Invalid row" |
| RowLabel.DecodeExamples | src/spreadsheet/SpreadSheetController.java:12-15 | A is row 0, B row 1, Z row 25, AA row 26, AD and ad row 29 (the 30th), the empty label row -1, and A1 is an invalid row |
| RowLabel.NumeralLower | src/spreadsheet/SpreadSheetController.java:119 | a label and its lower-case form have the same numeral value |
| RowLabel.DecodeIgnoresCase | src/spreadsheet/SpreadSheetController.java:116-119 | a label and its lower-case form decode to the same result, an error included |
| RowLabel.LoMonotone | src/spreadsheet/SpreadSheetController.java:12-13 | the first label of a longer length has a value at least as large |
| RowLabel.NumeralRange | src/spreadsheet/SpreadSheetController.java:12-13 | a label of length n has a value from that of n A's to one less than that of n + 1 A's |
| RowLabel.DecodeRange | src/spreadsheet/SpreadSheetController.java:12-13 | every label decodes to a row, every non-empty label to a non-negative row, and the labels of length n cover a fixed contiguous range |
| RowLabel.DecodeRangeOnto | src/spreadsheet/SpreadSheetController.java:12-13 | every row from Lo(n) - 1 to Lo(n + 1) - 2 is named by some upper-case label of length n, so with DecodeRange the labels of length n name exactly that range |
| RowLabel.ShorterLabelEarlierRow | src/spreadsheet/SpreadSheetController.java:12-13 | A..Z come before AA..ZZ, which come before AAA...: a shorter label names an earlier row |
| RowLabel.NumeralLexOrder | src/spreadsheet/SpreadSheetController.java:119 | for equal lengths, the first differing letter with the smaller digit gives the smaller value |
| RowLabel.EqualLengthLexicographic | src/spreadsheet/SpreadSheetController.java:12-13 | labels of equal length in one case are ordered alphabetically |
| RowLabel.DigitStep | src/spreadsheet/SpreadSheetController.java:119 | the step 26 * n + d with 1 <= d <= 26 determines both n and d |
| RowLabel.SameDigitSameLetter | src/spreadsheet/SpreadSheetController.java:119 | two letters with the same digit are the same letter up to case |
| RowLabel.NumeralInjective | src/spreadsheet/SpreadSheetController.java:119 | labels of equal length and equal value are equal up to case |
| RowLabel.DecodeInjective | src/spreadsheet/SpreadSheetController.java:12-13 | two labels naming the same row are the same label up to case, and identical when both are in one case |
| RowLabel.Spell | src/spreadsheet/SpreadSheetController.java:12-13 | for every value m there is an upper-case label whose value is m |
| RowLabel.EveryRowHasLabel | src/spreadsheet/SpreadSheetController.java:12-13 | every non-negative row is named by some non-empty upper-case label, so decoding is onto the store's rows |

## Left out

- The text interface of SpreadSheetController (goExecute, the Scanner, the menu, the welcome and farewell messages, writeMessage and its IllegalStateException) is not modelled. The commands take their tokens as parameters, and an error is returned as a value instead of printed as "Error: ...". Malformed numbers (Scanner's InputMismatchException) are I/O and are also not modelled.
- The debug line that assign-value prints to standard output is not modelled.
- SpreadSheetProgram (the main entry point), the controller tests and MockBetterSpreadSheet are not part of this model. The bulk-assign transcript of one test is stated as Controller.BulkAssignA1B4.
- The superclass SparseSpreadSheet and the SpreadSheet interface are not part of this model. In Sparse, the inherited state is the value `base`, and the inherited set is given the same contract as BetterSpreadSheetImpl's set. The inherited get, isEmpty, getWidth and getHeight are the Store functions on `base`.
- BetterSpreadSheet is a Java interface that both classes implement. Dafny traits are not used here, so the interface is the predicate BetterSpreadSheet.BulkContract, which both SetInBulk methods ensure. The controller holds a BetterSpreadSheetImpl rather than any implementation of the interface.
- Impl.BetterSpreadSheetImpl.Get, IsEmpty, GetWidth and GetHeight read the fields through the Store functions and carry no contracts of their own. Their properties are those of Store.Get, Store.IsEmpty and Store.HistoryDimensions.
- CellPosition becomes the datatype Pos, which has structural equality like CellPosition.equals. Its hashCode and the HashMap are not modelled: the map is a Dafny `map`.
- Values are `real`: Java `double` rounding, NaN and negative zero are not modelled.
- Coordinates are unbounded integers. Java's 32-bit wrap-around in `row + 1` and `col + 1` at Integer.MAX_VALUE (set) and in `col - 1` at Integer.MIN_VALUE (the commands) is not modelled. At `row == Integer.MAX_VALUE` the source stores the cell but `row + 1` wraps to a negative number, so `height` is left unchanged and the store invariant Store.Valid does not hold of the Java object from then on (likewise `width` at `col == Integer.MAX_VALUE`).
- Controller.SpreadSheetController.GetRowNum: does not model the 32-bit overflow of `rownumber`. The Java result is exact through FXSHRXX: its accumulator wraps to Integer.MIN_VALUE at the last step, but `rownumber - 1` wraps back to 2147483647, which is Decode's row. From FXSHRXY on, which includes every label of eight or more letters, the Java row differs from Decode (FXSHRXY gives -2147483648 where Decode gives 2147483648).
- RowLabel.IsLetter: only ASCII letters are accepted. The source's Character.isAlphabetic also accepts other Unicode letters, which the model rejects with "Invalid row". In the source, most of them give a digit outside 1..26, but some lower-case to an ASCII letter and decode like it: U+212A KELVIN SIGN becomes `k` (digit 11, so the label of that sign alone is row 10) and U+0130 becomes `i` (digit 9).
- Controller.SpreadSheetController.constructor: the null checks on sheet, readable and appendable are not modelled, because Dafny references are non-null and the readable and appendable are not modelled.
- The inner loop of each setInBulk is its own method, SetRow, and in BetterSparseSpreadSheet the outer loop is one too, SetRows, so that each loop is proved separately. The calls they make are the same as the source's nested loops.
