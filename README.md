# CSV Editor: a verified model of its table store

CSV-Util's `CSVEditor.py` is a desktop CSV editor. It keeps the open file as
a list of rows, `self.data`. Row 0 is the header and the rest are data rows.
A tree view shows the rows, each after a synthetic 1-based row number. This
project models, in Dafny, every operation that changes that table store:

- loading a file and re-displaying it;
- inserting a row by hand and pasting tab-separated lines from the clipboard;
- merging a second CSV file: the header check, the numeric coercion of each
  table, the concatenation, the keep-first removal of repeated rows and the
  count of skipped rows;
- header-click sorting: the toggle of the sort column and direction, and the
  sort itself;
- editing or deleting a row through the row dialog, which strips white
  space from every saved field, and the renumbering of the view after a
  delete, which as written raises before it changes anything (see Findings).

Modules, one per file:

- `Wrappers`: `Option`.
- `Strings`: the Python string operations the program relies on.
  - `str.split` and its inverse `Join`.
  - `str.strip` over Python's white-space set.
  - `int()` on a row number and `str()` of one.
  - Python's order on strings.
- `Cells`: a cell is text or, once a merge has coerced its column, a number. A row is a sequence of cells.
- `Sorting`: the sort state machine, and `sort_data` as a function on the table.
- `Merging`: `convert_numeric`, `drop_duplicates(keep='first')` and `merge_csv` as functions on tables.
- `RowEditing`: the row dialog as a class, `RowEditor`.
- `Editing`: the editor as a class, `Editor`.
  - Its fields: the table store, the sort state, and the view's column list and item values.
  - Each menu action and click handler is a method, proved against the functions above.

The view is part of the state because the handlers read it back:
- paste and insert take their row width from the view's column list;
- the double-click handler takes its row index from the number an item shows.

`Editor.Synced()` says that the view shows the table store as `display_data` lays it out.

Four behaviours of the code a reader may not expect, each modelled as written:

- **Merge coercion is per table.** Each table's columns are coerced on their own (`CSVEditor.py:232-233`). A column that converts in one file but not the other is not kept textual in both. Such a column then holds numbers on one side and text on the other, so its rows never match (`Merging.IndependentConversion`).
- **The skip count includes repeats inside the current table.** The count is `len(new_df) - (len(merged_df) - len(current_df))`. Repeated rows already inside the current table are dropped too, so they are counted among the "skipped" rows (`Merging.MergeSkipCount`).
- **Sorting does not coerce numbers.** `sort_data` sorts the stored cells as they are. Text sorts by code point, so "10" comes before "2". A column mixing text and numbers makes pandas raise, and the table is left as it was.
- **Paste and insert count the row-number column.** The width they check or ask for is the view's column count, which includes the row-number column. An appended row therefore has one value more than the header. The view shows its first value as the row number. After such a row, sort and merge fail on the ragged table (`Editing.AppendedRowBreaksTable`).

## Model

| member | source | states |
|---|---|---|
| Strings.Split | CSVEditor.py:202-204 | `str.split` with one separator: at least one piece, and no piece holds the separator |
| Strings.JoinSplit | CSVEditor.py:202 | joining the pieces of a split with the separator gives back the text |
| Strings.SplitJoin | CSVEditor.py:204 | splitting a join of pieces that avoid the separator gives back the pieces |
| Strings.TrimStart | CSVEditor.py:67 | what is removed from the front is all white space, and the rest is a suffix |
| Strings.TrimEnd | CSVEditor.py:67 | what is removed from the back is all white space, and the rest is a prefix |
| Strings.Strip | CSVEditor.py:67 | `str.strip`: the result has no white space at either end and is no longer than the input |
| Strings.StripExactly | CSVEditor.py:67 | stripping white space p, then m, then white space q, where m has none at its ends, gives exactly m |
| Strings.StripIdempotent | CSVEditor.py:67 | stripping twice is stripping once |
| Strings.StripNewline | CSVEditor.py:67 | the newline Tk appends to a text field's contents does not change the stripped value |
| Strings.Decimal | CSVEditor.py:186 | `str(n)` of a row number is all digits with no leading zero |
| Strings.ParseInt | CSVEditor.py:268 | `int()`: a value exactly for digits, or a sign followed by digits (ValueError otherwise); the value is the digits' value, negated after a minus sign |
| Strings.DecimalRoundTrip | CSVEditor.py:268 | `int(str(n)) == n`: the number shown on an item reads back as itself |
| Strings.StrLeReflexive | CSVEditor.py:155 | Python's string order is reflexive |
| Strings.StrLeTotal | CSVEditor.py:155 | any two strings compare |
| Strings.StrLeTransitive | CSVEditor.py:155 | the string order is transitive |
| Strings.StrLeAntisymmetric | CSVEditor.py:155 | strings that compare both ways are equal |
| Cells.TextRow | CSVEditor.py:166-168 | a row of text cells holding exactly the given fields, in order |
| Cells.RemoveAt | CSVEditor.py:269 | `del s[i]`: one shorter, elements before i unchanged, elements after shifted down by one |
| Cells.CellLeReflexive | CSVEditor.py:155 | the cell order is reflexive |
| Cells.CellLeTotal | CSVEditor.py:155 | any two cells compare |
| Cells.CellLeTransitive | CSVEditor.py:155 | the cell order is transitive |
| Cells.CellLeAntisymmetric | CSVEditor.py:155 | cells that compare both ways are equal |
| Sorting.NextSortState | CSVEditor.py:141-147 | after a click the clicked column is the sort column; the same column flips the direction, another column sorts ascending |
| Sorting.ClickTwiceFlips | CSVEditor.py:141-147 | two clicks on one heading sort that column once in each direction |
| Sorting.BeforeTotal | CSVEditor.py:155 | in either direction, any two keys can be ordered |
| Sorting.BeforeTransitive | CSVEditor.py:155 | in either direction, the key order is transitive |
| Sorting.InsertByKey | CSVEditor.py:155 | inserting a row keeps every row of the input and adds the new one (as a multiset) |
| Sorting.InsertSorted | CSVEditor.py:155 | inserting into rows sorted by the key keeps them sorted |
| Sorting.SortedCons | CSVEditor.py:155 | a row whose key comes before every key of a sorted list extends it to a sorted list |
| Sorting.SortByKey | CSVEditor.py:155 | `sort_values(by=..., ascending=...)`: a permutation of the rows, ordered by the column in the chosen direction |
| Sorting.Reverse | CSVEditor.py:155 | the reversed keys: as many as the input, element i coming from position n-1-i |
| Sorting.ReversePermutes | CSVEditor.py:155 | reversing keeps the same keys (as a multiset) |
| Sorting.ReverseReverse | CSVEditor.py:155 | reversing twice gives back the keys |
| Sorting.DescendingKeysReversed | CSVEditor.py:155 | the keys of rows sorted descending, reversed, are ascending |
| Sorting.KeysPermutation | CSVEditor.py:155 | rows that are a permutation of each other have keys that are a permutation of each other |
| Sorting.AscendingUnique | CSVEditor.py:155 | two ascending sequences of keys with the same multiset are equal |
| Sorting.OppositeSortsReverseKeys | CSVEditor.py:155 | the descending sort lists the keys of the ascending sort in reverse |
| Sorting.SortBothWays | CSVEditor.py:150-158 | on a sortable table, sorting descending gives the keys of sorting ascending reversed |
| Sorting.FirstIndex | CSVEditor.py:155 | the first header position holding the name |
| Sorting.ColumnIndex | CSVEditor.py:155 | pandas' column lookup by name: found exactly when one column has the name (KeyError or ValueError otherwise) |
| Sorting.SortTable | CSVEditor.py:150-158 | succeeds exactly when the table is sortable by the column. On success the header stays first, the data rows are a permutation of the old ones, they still fit the header, and they are ordered by the column in the chosen direction |
| Merging.ConvertNumeric | CSVEditor.py:222-229 | `convert_numeric`: the shape is kept; a column whose every cell parses becomes the parsed numbers, and any other column stays exactly as it was |
| Merging.ConvertNumericIdempotent | CSVEditor.py:222-229 | converting a converted table changes nothing |
| Merging.IndependentConversion | CSVEditor.py:232-233 | a column that converts in the current table and not in the incoming one makes incoming rows with text there unmatched |
| Merging.Dedup | CSVEditor.py:239 | `drop_duplicates(keep='first')`: no longer than the input, the same rows, no repeats |
| Merging.DedupSnoc | CSVEditor.py:239 | one more row is kept, at the end, exactly when it has not appeared before |
| Merging.FirstAt | CSVEditor.py:239 | the position of a row's first occurrence: it holds the row and no earlier position does |
| Merging.FirstAtExtend | CSVEditor.py:239 | appending a row moves no first occurrence, and a new row first occurs at the end |
| Merging.DedupFirstOrder | CSVEditor.py:239 | `keep='first'`: the kept rows come in the order of their first occurrences |
| Merging.Fresh | CSVEditor.py:239 | the rows of b, at first occurrence, that are not already in seen |
| Merging.FreshSnoc | CSVEditor.py:239 | one more incoming row is added exactly when it was seen neither before nor earlier in the incoming rows |
| Merging.DedupAppend | CSVEditor.py:236-239 | deduplicating a concatenation keeps what survives of the first part, then the new rows of the second |
| Merging.DedupDistinct | CSVEditor.py:239 | rows without repeats are left as they are |
| Merging.MergeTables | CSVEditor.py:213-246 | `merge_csv` once the second file is read. It fails with an empty store, ragged rows, or a different header, each exactly when that holds. On success: the header first, the rows fit it, no repeats, a row is kept iff it appears in either converted table, and the skip count is the number of dropped rows and is non-negative |
| Merging.MergeKeepsCurrentFirst | CSVEditor.py:236-242 | the merged rows are the deduplicated current rows, then the new incoming rows; the current rows come unchanged when they have no repeats |
| Merging.MergeSkipCount | CSVEditor.py:246 | skipped = incoming rows dropped + repeats dropped within the current table; exactly the incoming rows dropped when the current table has no repeats |
| Merging.MergeSameContent | CSVEditor.py:236-239 | merging A into B and B into A keep the same set of rows |
| RowEditing.FieldValue | CSVEditor.py:67 | a text field's contents read with the trailing newline Tk adds, then stripped, equal the stripped contents |
| RowEditing.SavedFields | CSVEditor.py:67 | Save's result: present exactly when every column has a field; each value is that field stripped of white space at both ends |
| RowEditing.RowEditor.constructor | CSVEditor.py:7-13 | one field per (column, value) pair, holding the value; no result, no delete flag |
| RowEditing.RowEditor.Type | CSVEditor.py:45-48 | typing changes one field and nothing else |
| RowEditing.RowEditor.Save | CSVEditor.py:66-68 | stores the stripped fields and closes the dialog; a missing field raises and leaves it open |
| RowEditing.RowEditor.Delete | CSVEditor.py:70-73 | only a confirmed deletion sets the flag and closes the dialog |
| RowEditing.RowEditor.Cancel | CSVEditor.py:75-76 | closes the dialog with nothing stored |
| Editing.Numbered | CSVEditor.py:185-186 | the view items: item p shows p+1, then row p |
| Editing.Renumbered | CSVEditor.py:280-284 | the numbering `update_row_numbers` evidently intends: item p shows p+1, then the item's values after its old number |
| Editing.RowPosition | CSVEditor.py:268-269 | `int(values[0])` used as a list index: defined exactly when the first value parses to some k with -size <= k < size; the index is k, or k + size for negative k |
| Editing.LabelAddressesRow | CSVEditor.py:268-269 | an item numbered n addresses row n of the store |
| Editing.RenumberedRunsFromOne | CSVEditor.py:280-284 | after the intended renumbering, item p addresses row p+1 |
| Editing.RenumberAfterRemove | CSVEditor.py:268-271 | deleting item p and renumbering as intended gives the view of the rows without row p |
| Editing.DeleteKeepsSync | CSVEditor.py:268-271 | deleting row p+1 of the store removes data row p, and the view without item p, renumbered as intended, shows exactly the new store |
| Editing.ReplaceKeepsSync | CSVEditor.py:272-275 | replacing row p+1 of the store and item p (keeping its number p+1) leaves a view that shows exactly the new store |
| Editing.DeleteLastKeepsSync | CSVEditor.py:268-271 | deleting the last row and the last item leaves a view that shows exactly the new store, with no renumbering needed |
| Editing.DeleteLeavesStaleNumbers | CSVEditor.py:266-284 | as written, after deleting item p the item now at p shows data row p+1 but its number addresses row p+2, the last item's number is out of range, and the view no longer shows the store |
| Editing.NewRow | CSVEditor.py:192-198 | one text cell per answer; a cancelled or empty answer becomes "", any other answer is kept |
| Editing.AcceptedLines | CSVEditor.py:203-207 | the appended rows are no more than the lines, and each has exactly the view's width |
| Editing.AcceptedLinesAppend | CSVEditor.py:203-207 | lines are accepted independently, in clipboard order |
| Editing.AcceptedLine | CSVEditor.py:204-205 | one line is accepted exactly when it has the view's width in fields |
| Editing.AcceptedAll | CSVEditor.py:203-207 | lines that all have the width are all accepted, in order |
| Editing.PasteStep | CSVEditor.py:203-207 | one more clipboard line appends its row exactly when it has the view's width, and nothing otherwise |
| Editing.PasteRoundTrip | CSVEditor.py:200-207 | pasting rows copied as tab-separated lines appends exactly those rows |
| Editing.AppendedRowBreaksTable | CSVEditor.py:194-207 | a row as wide as the view no longer fits the header: a later sort or merge fails |
| Editing.TextTable | CSVEditor.py:166-168 | the loaded store has one row per CSV record, row i holding record i's fields as text, in order |
| Editing.Editor.constructor | CSVEditor.py:82-84 | an empty store, no sort column, ascending |
| Editing.Editor.Display | CSVEditor.py:171-186 | the view is rebuilt from the store (`Synced`); an empty store raises after the items are cleared |
| Editing.Editor.Load | CSVEditor.py:163-169 | the store becomes the file's rows, and the view shows them |
| Editing.Editor.InsertRow | CSVEditor.py:192-198 | appends the new row to both the store and the view |
| Editing.Editor.PasteData | CSVEditor.py:200-207 | appends the accepted lines of the clipboard, in order, to both the store and the view |
| Editing.Editor.Merge | CSVEditor.py:209-247 | on success the merged table replaces the store and is shown; on failure nothing changes |
| Editing.Editor.SortData | CSVEditor.py:150-161 | the store becomes the sorted table and is shown; where pandas raises nothing changes |
| Editing.Editor.HeaderClick | CSVEditor.py:132-148 | the row-number column or a column past the last does nothing; otherwise the sort state steps, then the table sorts |
| Editing.Editor.UpdateRowNumbers | CSVEditor.py:280-284 | as written: raises TypeError exactly when there is an item, and changes nothing |
| Editing.Editor.RenumberItems | CSVEditor.py:280-284 | as intended: the view becomes its renumbering; nothing else changes |
| Editing.Editor.RowDoubleClick | CSVEditor.py:256-278 | delete removes the addressed row and the item, and the other items keep their numbers; a non-empty result replaces the row and keeps the item's number; an unparsable or out-of-range number changes nothing. From a synced state item p addresses data row p+1, an edit keeps store and view in sync, and so does deleting the last item |

## Left out

- Tk rendering is not modelled: widget layout, scrollbars, column widths, and the sort arrow in the heading text (`CSVEditor.py:188-190`). Only the view's column list and item values are modelled.
- File dialogs, file I/O and the `csv` reader and writer are not modelled. `Load` and `Merge` receive the rows already read; a cancelled dialog is a call not made. `save_csv` writes the store unchanged and has nothing to model.
- How pandas reads numbers out of text (`pd.to_numeric`, `read_csv` type inference) is not modelled. It is the parameter `parse`, so int and float, NaN and empty cells are not distinguished.
- Merging.MergeTables: requires the incoming rows to fit their header, which `read_csv` always delivers. The padding pandas applies to short rows of the current table is left out; the model treats any ragged current table as the ValueError path.
- Sorting.SortTable: specifies the order of the result and not pandas' algorithm; rows with equal keys may come in any order, so stability is not claimed. Python's own refusal to compare text with numbers is the failure case, not an order.
- Sorting.SortTable: treats a table with a row shorter than the header as unsortable, so `SortData` leaves it unchanged. pandas instead pads such a row with None (a blank CSV line, read as an empty row, is one), sorts it last and writes the padded row back (`CSVEditor.py:152-158`); missing cells are not modelled.
- Strings.ParseInt: accepts a sign and ASCII digits only, not the surrounding white space, underscores or other Unicode digits that `int()` also accepts.
- The clipboard, the modal dialogs and `wait_window` are not modelled: their outcomes are parameters (`PasteData`'s text, `InsertRow`'s answers, `RowDoubleClick`'s delete flag and result).
- Which item a double click hits is a parameter (`item`), and clicks outside the headings are not modelled.
- The heading `command` callbacks (`CSVEditor.py:181`) call `on_header_click` with a column name instead of an event. That raises AttributeError before any state changes, so it has no effect on the table.
- How Tk turns a number cell into text in the view is not modelled: items hold the cells themselves.

## Findings

| source | as written | input that shows it | evidently intended | confidence | as-written member | corrected member |
|---|---|---|---|---|---|---|
| CSVEditor.py:284 | `[i] + values[1:]` adds a list to the tuple Tk returns for an item's values. This raises TypeError on the first item, so after a delete no item is renumbered. | Rows A, B, C; delete the item showing 1. The items then show 2 (B) and 3 (C). Editing the item showing 2 overwrites C, and deleting the item showing 3 raises IndexError. | every remaining item shows its position, so it addresses the row it shows | high; not executed | Editing.Editor.UpdateRowNumbers, Editing.DeleteLeavesStaleNumbers | Editing.Editor.RenumberItems, Editing.DeleteKeepsSync |
