# drawio-to-csv, modelled in Dafny

The repository turns draw.io flowcharts into spreadsheet-style CSV and back. A
diagram is flattened into one row per shape (`drawio_xl/drawio_to_xl.py`'s
`convert_to_csv`, or the older `drawio_to_csv.py`), and a chain of small CSV
stages then reshapes the rows for a spreadsheet. The stages collapse the three
decision slots into comma lists, rewrite ids to spreadsheet ids, rename shapes
and headers, and drop sizes and id columns. The opposite chain (`xl_*.py`,
`xl_to_csv.py`, `drawio_xl/xl_to_drawio.py`) cleans a spreadsheet export and
expands it back into the columns draw.io's CSV import expects.

This project models every stage once the XML or CSV text has been parsed:

- A table is a header and a sequence of rows of strings (`Tables`).
- A parsed diagram is a sequence of elements in document order: each has a tag, its attributes in order, and the style of its first cell (`Diagram`).
- A Python exception that a stage can raise (`ValueError` from `list.index` or from unpacking, `IndexError`, `KeyError`, `TypeError`) is an `Err` of a `Result`.
- A connector without a `target` raises `TypeError` in both flatteners when it is appended to a non-empty `next_step_id` (a string concatenated with `None`), and the conversion ends without output. `Diagram.Extend`, `Diagram.Link` and `Diagram.Linked` return that error, both `ConvertToCsv` methods pass it on, and `Diagram.LinkedFails` states exactly when it happens.

There is one module per source file, named after it. Where the source works
step by step, a module has two parts. A specification function states the
stage on whole values. A method with the source's loop is proved to compute
exactly that function. Lemmas then prove, about the function:

- row-count preservation;
- column projection;
- idempotence;
- the round trips between opposite stages;
- the places where the two shape vocabularies and the two decision encodings disagree.

Code shared by several stages lives in `Strings`, `Tables`, `Shapes` and
`Diagram`:

- Python's `find`, `split`, `join`, `replace`, `strip`, `lower`, `title` and string order;
- column lookup, deletion, projection and filtering;
- the two shape-size tables;
- the shape token of a style, and how a node's outgoing edges are assigned.

Id rewriting uses each row's own `xl_id`; an empty `xl_id` gives an empty id
(`CsvRenameIds.EmptyXlIdGivesEmptyId`).

## Model

| member | source | states |
|---|---|---|
| FixShapeCase.LowerCell | fix_shape_case.py:23 | a row is lowered at the shape index exactly when the index is within the row (otherwise `IndexError`); only that cell changes, to its lowercase form |
| FixShapeCase.LowerShapes | fix_shape_case.py:13-25 | a missing `Shape Type` header is an error; otherwise the header is kept and each data row has its `Shape Type` cell lowercased and every other cell and the row count unchanged |
| FixShapeCase.ProcessCsv | fix_shape_case.py:6-25 | the row loop produces exactly `LowerShapes` of the input |
| FixShapeCase.LowerShapesIdempotent | fix_shape_case.py:23 | lowering the shape column a second time changes nothing |
| ReplaceNewlines.EscapeCell | replace_newlines.py:15 | the escaped cell contains no line feed and no carriage return |
| ReplaceNewlines.EscapeRecord | replace_newlines.py:15 | one escaped cell per input cell, none with a line break |
| ReplaceNewlines.EscapeRecords | replace_newlines.py:13-17 | every record, header included, keeps its cell count; no output cell has a line break |
| ReplaceNewlines.EscapeCellClean | replace_newlines.py:15 | a cell without `\n` and `\r` is unchanged |
| ReplaceNewlines.EscapeRecordsIdempotent | replace_newlines.py:13-17 | escaping twice equals escaping once |
| ReplaceNewlines.CarriageReturnLineFeed | replace_newlines.py:14-15 | `\r\n` becomes `<br><br>` (the code writes `<br>`, not the `<b>` of its comment) |
| CsvInsertNewlines.UnescapeCell | csv_insert_newlines.py:15 | the unescaped cell contains no `<br>` |
| CsvInsertNewlines.UnescapeRecord | csv_insert_newlines.py:15 | one unescaped cell per input cell, none containing `<br>` |
| CsvInsertNewlines.UnescapeRecords | csv_insert_newlines.py:13-18 | record count and per-record cell counts are kept, header included; no output cell contains `<br>` |
| CsvInsertNewlines.BreakNoBorder | csv_insert_newlines.py:15 | `<br>` cannot overlap itself, so replacing it left to right is unambiguous |
| CsvInsertNewlines.UnescapeEscapeCell | csv_insert_newlines.py:15 | after `replace_newlines.py`, a cell with no `\r` and no `<br>` comes back unchanged |
| CsvInsertNewlines.UnescapeEscapeRecords | csv_insert_newlines.py:13-18 | the same round trip for whole files |
| CsvInsertNewlines.CarriageReturnLost | csv_insert_newlines.py:15 | `\r\n` comes back as `\n\n`: the round trip loses carriage returns |
| StripFrontmatter.KeptLines | strip_frontmatter.py:9-11 | the kept lines are exactly the input lines that are not comments, never more than the input |
| StripFrontmatter.StripFrontmatter | strip_frontmatter.py:5-14 | the output is the concatenation of the kept lines |
| StripFrontmatter.CommentIff | strip_frontmatter.py:10 | a line is dropped exactly when its left-stripped form starts with `#` |
| StripFrontmatter.KeptLinesIdempotent | strip_frontmatter.py:9-11 | filtering twice equals filtering once |
| StripFrontmatter.KeptLinesExample | strip_frontmatter.py:10 | an indented `#` line is dropped, while a line with `#` after other text is kept, unmodified |
| StripFrontmatter.TwoCommentsFirst | strip_frontmatter.py:9-11 | two comment lines followed by two other lines leave the other two, in order |
| StripFrontmatter.ExampleComments | strip_frontmatter.py:10 | which of the four example lines count as comments |
| XlSaveId.AppendCopy | xl_save_id.py:25 | a row gains a copy of its id cell exactly when the index is within the row |
| XlSaveId.WithXlId | xl_save_id.py:10-27 | a missing `Process Step ID` header is an error; otherwise the header gains `xl_id` at the end and each row gains one cell equal to its `Process Step ID` cell, the rest unchanged |
| XlSaveId.ProcessCsv | xl_save_id.py:6-27 | the row loop produces exactly `WithXlId` of the input |
| XlAddHeightWidth.AppendSize | xl_add_height_width.py:28-30 | a row gains its two size cells exactly when the shape index is within the row |
| XlAddHeightWidth.WithDimensions | xl_add_height_width.py:10-32 | a missing `shape` header is an error; otherwise the header gains `width`, `height` at the end and each row gains the size of its shape, looked up with a `100`×`100` fallback, the existing cells unchanged |
| XlAddHeightWidth.InsertDimensions | xl_add_height_width.py:6-32 | the row loop produces exactly `WithDimensions` of the input |
| XlAddHeightWidth.WithDimensionsExample | xl_add_height_width.py:16-29 | terminator gets 100×50, process 200×100, and an unknown shape 100×100 |
| CsvStripXlIds.WithoutXlId | csv_strip_xl_ids.py:10-27 | a missing `xl_id` header is an error; otherwise the header and every row lose the cell at the first `xl_id` index, the other cells in order, the row count kept |
| CsvStripXlIds.StripXlId | csv_strip_xl_ids.py:6-27 | the row loop produces exactly `WithoutXlId` of the input |
| CsvStripXlIds.StripMatchesDeleteColumn | csv_strip_xl_ids.py:12-25 | with an `xl_id` column the stage is `delete_column(…, "xl_id")`; without one it fails where `delete_column` passes the content through |
| CsvStripXlIds.StripUndoesSave | csv_strip_xl_ids.py:12-25 | on a rectangular table without `xl_id`, stripping after `xl_save_id.py` gives the table back |
| CsvDeleteHeightWidth.DeletePair | csv_delete_height_width.py:23-28 | deleting two distinct indices leaves two cells fewer |
| CsvDeleteHeightWidth.DeletePairCells | csv_delete_height_width.py:23-28 | the cell at each remaining position is the original one before, between or after the two indices, whichever index is larger, so the right two cells go |
| CsvDeleteHeightWidth.DeleteDimensions | csv_delete_height_width.py:23-28 | a row loses both cells exactly when both indices are within it; otherwise `IndexError` |
| CsvDeleteHeightWidth.RemovedHeader | csv_delete_height_width.py:15-16 | removing the first `height` and then the first `width` deletes the positions found before either removal |
| CsvDeleteHeightWidth.IndexAfterDelete | csv_delete_height_width.py:15-16 | after one deletion, a name's first index moves one place earlier exactly when it came after the deleted cell |
| CsvDeleteHeightWidth.WithoutDimensions | csv_delete_height_width.py:10-31 | `height` missing is reported first, then `width`; otherwise the header and every row lose those two positions, the row count kept, and a short row raises `IndexError` |
| CsvDeleteHeightWidth.RemoveDimensions | csv_delete_height_width.py:6-31 | the row loop produces exactly `WithoutDimensions` of the input |
| CsvDeleteHeightWidth.DeletePairInTurn | csv_delete_height_width.py:23-28 | deleting the pair equals deleting `height` and then `width` at its shifted index |
| CsvDeleteHeightWidth.WithoutDimensionsIsTwoDeletes | drawio_xl/drawio_to_xl.py:216-232 | with both columns present, the stage equals `delete_column` of `height` followed by `delete_column` of `width` |
| CsvDeleteHeightWidth.TwoDeletesErr | csv_delete_height_width.py:23-28 | a row too short for either index makes both forms fail with `IndexError` |
| CsvDeleteHeightWidth.SecondDeleteFails | drawio_xl/drawio_to_xl.py:230-231 | a row that survives the first deletion but is too short for the second makes the second `delete_column` fail |
| CsvDeleteHeightWidth.TwoDeletesOk | csv_delete_height_width.py:23-28 | when every row is long enough both forms give the same table |
| CsvDeleteHeightWidth.RemoveUndoesInsert | csv_delete_height_width.py:10-31 | on a rectangular table without `width` and `height`, removing them after `xl_add_height_width.py` gives the table back |
| XlDeleteEmptyCols.DeleteEmptyCols | xl_delete_empty_cols.py:10-17 | succeeds exactly when every row covers the non-empty-header positions (otherwise `IndexError`); the header has no empty name, the row count is kept and every row is as long as the header |
| XlDeleteEmptyCols.SameAsLibrary | xl_delete_empty_cols.py:11-17 | the stage and `delete_empty_cols` in `drawio_xl/utils.py` agree on every input |
| XlDeleteEmptyCols.DeleteEmptyColsIdempotent | xl_delete_empty_cols.py:11-17 | a second pass changes nothing |
| XlDeleteEmptyRows.DeleteEmptyRows | xl_delete_empty_rows.py:10-13 | the kept records, header included, are exactly the input records with a cell that is not blank after stripping, never more than the input |
| XlDeleteEmptyRows.SameAsLibrary | xl_delete_empty_rows.py:10-13 | the stage and `delete_empty_rows` in `drawio_xl/utils.py` agree on every input |
| XlDeleteEmptyRows.ZeroCellRecordDropped | xl_delete_empty_rows.py:12 | a record with no cells is dropped |
| XlDeleteEmptyRows.DeleteEmptyRowsIdempotent | xl_delete_empty_rows.py:10-13 | a second pass changes nothing |
| Utils.DeleteColumnSpec | drawio_xl/utils.py:19-31 | an absent name leaves the content as it was; otherwise the header and every row lose the cell at the name's first index, the row count kept, and a row too short raises `IndexError` |
| Utils.DeleteColumn | drawio_xl/utils.py:4-34 | the `headers.remove` and the `del row[…]` loop produce exactly `DeleteColumnSpec` |
| Utils.DeleteColumnRemovesName | drawio_xl/utils.py:20-28 | a column named once leaves no column of that name, and every other name in order |
| Utils.DeleteOnly | drawio_xl/utils.py:21-22 | deleting a name's only occurrence by index is dropping the name |
| Utils.WithoutCount | drawio_xl/utils.py:78-81 | dropping names keeps the count of every other name |
| Utils.WithoutTwice | drawio_xl/drawio_to_xl.py:230-231 | dropping two sets of names in turn drops their union |
| Utils.DeleteColumnExample | tests/test_utils.py:11-23 | deleting `height` from the test's three-column table leaves `name,age` and the rows without their last cells; deleting `weight`, which the table lacks, changes nothing |
| Utils.DeleteEmptyCols | drawio_xl/utils.py:77-84 | succeeds exactly when every row covers the kept positions (otherwise `IndexError`); the header is the old one without empty names, and each row is its projection onto the non-empty-header positions, as long as the header, the row count kept |
| Utils.DeleteEmptyColsIdempotent | drawio_xl/utils.py:78-84 | a second pass changes nothing |
| Utils.DeleteEmptyColsExample | tests/test_utils.py:37-45 | the test's empty middle column and trailing empty cells are dropped |
| Utils.ExamplePositions | drawio_xl/utils.py:78 | the kept positions of `header1,,header3` are 0 and 2 |
| Utils.HasContentIff | drawio_xl/utils.py:108 | a row has content exactly when some cell is not blank after stripping |
| Utils.DeleteEmptyRows | drawio_xl/utils.py:106-109 | the kept rows are exactly the input rows with content, never more than the input |
| Utils.DeleteEmptyRowsAppend | drawio_xl/utils.py:106-109 | filtering two pieces of a file is filtering each piece, so the order is kept |
| Utils.DeleteEmptyRowsIdempotent | drawio_xl/utils.py:106-109 | a second pass changes nothing |
| Utils.FirstCellContent | drawio_xl/utils.py:108 | a row whose first cell starts with a non-space character has content |
| Utils.BlankRowNoContent | drawio_xl/utils.py:108 | a row of empty cells has no content |
| Utils.DeleteEmptyRowsExample | tests/test_utils.py:48-56 | the test's line of empty cells is dropped and the other lines are kept in order |
| XlToDrawio.DeleteEmptyCols | drawio_xl/xl_to_drawio.py:60-67 | succeeds exactly when every row covers the non-empty-header positions; the header is the old one without empty names, the row count is kept and each row is as long as the header |
| XlToDrawio.DeleteEmptyColsAsStage | drawio_xl/xl_to_drawio.py:60-67 | the library function and `xl_delete_empty_cols.py` agree on every input |
| XlToDrawio.DeleteEmptyColsIdempotent | drawio_xl/xl_to_drawio.py:60-67 | a second pass changes nothing |
| XlToDrawio.DeleteEmptyRows | drawio_xl/xl_to_drawio.py:89-92 | the kept records are exactly the input records with a non-blank cell, never more than the input |
| XlToDrawio.DeleteEmptyRowsAsStage | drawio_xl/xl_to_drawio.py:89-92 | the library function and `xl_delete_empty_rows.py` agree on every input |
| XlToDrawio.DeleteEmptyRowsIdempotent | drawio_xl/xl_to_drawio.py:89-92 | a second pass changes nothing |
| XlToDrawio.RenameHeaders | drawio_xl/xl_to_drawio.py:125-139 | succeeds exactly when all four fixed spreadsheet names are present (otherwise `ValueError`); the data rows and the header length are unchanged |
| XlToDrawio.RenameHeadersUndoesCsv | drawio_xl/xl_to_drawio.py:128-134 | on a header `csv_rename_headers.py` produced from restorable names, the library renaming gives the original file back |
| XlToDrawio.RenameHeadersFixed | drawio_xl/xl_to_drawio.py:131-134 | the first occurrences of the fixed names become `id`, `shape`, `connector_label` and `next_step_id` |
| CsvRenameHeaders.TitleCase | csv_rename_headers.py:16 | the title-cased name has the input's length and is never one of the four fixed names |
| CsvRenameHeaders.Normalized | csv_rename_headers.py:16 | the comprehension keeps the length, and keeps every fixed name as it was |
| CsvRenameHeaders.FixedRenamingFresh | csv_rename_headers.py:19-22 | the four fixed names are distinct and none of their renamings is a fixed name |
| CsvRenameHeaders.CsvHeader | csv_rename_headers.py:16-22 | succeeds exactly when all four fixed names are present; otherwise `ValueError` names the first one missing in lookup order; the length is kept |
| CsvRenameHeaders.CsvHeaderPositions | csv_rename_headers.py:16-22 | the first `id`, `shape`, `connector_label`, `next_step_id` become `Process Step ID`, `Shape Type`, `Connector Label`, `Next Step ID`; a repeated fixed name stays as it was; every other name is title-cased |
| CsvRenameHeaders.CsvRenamed | csv_rename_headers.py:13-27 | the same outcome for a file, with every data row passed through unchanged |
| CsvRenameHeaders.RenameHeaders | csv_rename_headers.py:6-27 | the comprehension and the four in-place assignments produce exactly `CsvRenamed` |
| CsvRenameHeaders.TitleCaseIs | csv_rename_headers.py:16 | title-casing is `title()` after turning underscores into spaces |
| CsvRenameHeaders.TitleCaseExamples | csv_rename_headers.py:16 | `wbs` becomes `Wbs` (the spelling the order list of `csv_reorder_headers.py` uses) and `x_y` becomes `X Y` |
| CsvRenameHeaders.SnakeTitle | csv_rename_headers.py:16 | a name without capitals and spaces comes back from title-casing then snake-casing |
| CsvRenameHeaders.RestorableSetup | csv_rename_headers.py:16-22 | on a restorable header the comprehension sets up the generic renaming round trip |
| CsvRenameHeaders.RestorableMapsBack | csv_rename_headers.py:16-22 | snake-casing the renamed header gives back every name that is not a renaming |
| CsvRenameHeaders.XlUndoesCsv | xl_rename_headers.py:29-35 | `xl_rename_headers.py` after `csv_rename_headers.py` gives back a header of distinct lower-case names whose title-cased forms are not fixed |
| XlRenameHeaders.SnakeCase | xl_rename_headers.py:29 | the snake-cased name is never one of the four fixed spreadsheet names |
| XlRenameHeaders.Normalized | xl_rename_headers.py:29 | the comprehension keeps the length, and keeps every fixed name as it was |
| XlRenameHeaders.SnakeCaseKeeps | xl_rename_headers.py:29 | a name with no capital and no space is kept |
| XlRenameHeaders.FixedRenamingFresh | xl_rename_headers.py:32-35 | the four fixed names are distinct and none of their renamings is a fixed name |
| XlRenameHeaders.XlHeader | xl_rename_headers.py:29-35 | succeeds exactly when all four fixed names are present; otherwise `ValueError` names the first one missing in lookup order; the length is kept |
| XlRenameHeaders.XlHeaderPositions | xl_rename_headers.py:29-35 | the first `Process Step ID`, `Shape Type`, `Connector Label`, `Next Step ID` become `id`, `shape`, `connector_label`, `next_step_id`; a repeated fixed name stays; every other name is snake-cased |
| XlRenameHeaders.XlRenamed | xl_rename_headers.py:26-39 | the same outcome for a file, with every data row passed through unchanged |
| XlRenameHeaders.RenameHeaders | xl_rename_headers.py:19-39 | the comprehension and the four in-place assignments produce exactly `XlRenamed` |
| CsvReorderHeaders.Headers | csv_reorder_headers.py:15-17 | the new header holds exactly the names of the old one |
| CsvReorderHeaders.HeadersLayout | csv_reorder_headers.py:8-17 | listed names come before unlisted ones, and in the order of the list |
| CsvReorderHeaders.ListedFirst | csv_reorder_headers.py:15-17 | the same layout for any list without repeats |
| CsvReorderHeaders.FilterInListOrder | csv_reorder_headers.py:15 | filtering a list without repeats keeps its order |
| CsvReorderHeaders.ZipMap | csv_reorder_headers.py:23 | `dict(zip(…))` has exactly the given keys, each mapped to a value paired with it |
| CsvReorderHeaders.ZipMapLast | csv_reorder_headers.py:23 | a key's value is the one paired with its last occurrence |
| CsvReorderHeaders.RowDict | csv_reorder_headers.py:23 | `zip` stops at the shorter of header and row |
| CsvReorderHeaders.Lookup | csv_reorder_headers.py:24 | the lookup succeeds exactly when every name is a key, giving each name's value in order; otherwise `KeyError` on a missing name |
| CsvReorderHeaders.Reordered | csv_reorder_headers.py:14-25 | succeeds exactly when every row covers the header; the header is `Headers` of the old one, the row count is kept and each row is as long as the header; otherwise `KeyError` on a header name |
| CsvReorderHeaders.ReorderHeaders | csv_reorder_headers.py:6-25 | the header computation and the row loop produce exactly `Reordered` |
| CsvReorderHeaders.HeadersPermutation | csv_reorder_headers.py:15-17 | with distinct names the new header is a permutation of the old one |
| CsvReorderHeaders.HeadersIdempotent | csv_reorder_headers.py:15-17 | reordering a reordered header changes nothing |
| CsvReorderHeaders.CoveredIff | csv_reorder_headers.py:23-24 | with distinct names a row is covered exactly when it is at least as long as the header |
| CsvReorderHeaders.CellUnderHeader | csv_reorder_headers.py:22-25 | with distinct names each output cell is the input row's cell under the same name |
| CsvReorderHeaders.ReorderRowAgain | csv_reorder_headers.py:23-24 | a rebuilt row is rebuilt to itself under its new header |
| CsvReorderHeaders.ReorderedIdempotent | csv_reorder_headers.py:14-25 | running the stage on its own output changes nothing |
| CsvRenameShapes.SheetRow | csv_rename_shapes.py:16-28 | `IndexError` exactly when the shape index, or for a gate the description index, is outside the row; start_1 becomes start, terminator end, summing_function process described `OR`, or process described `AND`; every other shape and every other cell is unchanged |
| CsvRenameShapes.SheetShapes | csv_rename_shapes.py:10-28 | a missing `shape`, then a missing `description`, is an error; otherwise the header is kept and each row is renamed, the row count kept |
| CsvRenameShapes.RenameShapes | csv_rename_shapes.py:6-28 | the row loop produces exactly `SheetShapes` of the input |
| CsvRenameShapes.SheetRowIdempotent | csv_rename_shapes.py:18-27 | renaming a row again changes nothing: no output shape is one that is renamed |
| CsvRenameShapes.SheetShapesIdempotent | csv_rename_shapes.py:14-28 | running the stage on its own output changes nothing |
| XlRenameShapes.DiagramRow | xl_rename_shapes.py:16-27 | `IndexError` exactly when the shape index, or for a `process` row the description index, is outside the row; process described `AND` becomes or, described `OR` becomes summing_function, both with the description cleared; end becomes terminator and start becomes start_1; other rows and cells are unchanged |
| XlRenameShapes.DiagramShapes | xl_rename_shapes.py:10-27 | a missing `shape`, then a missing `description`, is an error; otherwise the header is kept and each row is renamed, the row count kept |
| XlRenameShapes.RenameShapes | xl_rename_shapes.py:6-27 | the row loop produces exactly `DiagramShapes` of the input |
| XlRenameShapes.DiagramRowIdempotent | xl_rename_shapes.py:17-26 | renaming a row again changes nothing |
| XlRenameShapes.DiagramShapesIdempotent | xl_rename_shapes.py:14-27 | running the stage on its own output changes nothing |
| XlRenameShapes.SheetRowRoundTrip | xl_rename_shapes.py:17-26 | `csv_rename_shapes.py` after this stage restores any row whose shape is not a draw.io-only name |
| XlRenameShapes.DiagramRowRoundTrip | xl_rename_shapes.py:17-26 | this stage after `csv_rename_shapes.py` restores start_1, terminator, summing_function and or (a gate's description comes back empty), and any other row that is not a `process` described `AND`/`OR` |
| XlRenameShapes.ProcessNamedAndBecomesGate | xl_rename_shapes.py:17-19 | a genuine `process` described `AND` passes the first stage unchanged and comes back as an `or` gate with no description |
| XlRenameShapes.SheetShapesRoundTrip | xl_rename_shapes.py:10-27 | on whole tables, renaming to draw.io names and back restores the spreadsheet |
| CsvRenameIds.IdMap | csv_rename_ids.py:16-26 | the first loop fails with `IndexError` exactly when a row is too short for `id` or `xl_id`; otherwise every row's id is a key of the dictionary |
| CsvRenameIds.IdMapKeys | csv_rename_ids.py:22-26 | the dictionary holds only the rows' ids, each mapped to the `xl_id` of a row carrying it |
| CsvRenameIds.IdMapLast | csv_rename_ids.py:24 | an id maps to the `xl_id` of the last row carrying it |
| CsvRenameIds.MapIds | csv_rename_ids.py:44 | never more ids than were split; when every id is known, each is translated in place |
| CsvRenameIds.TranslateIdentity | csv_rename_ids.py:43-45 | when every known id maps to itself, a list only loses the ids nobody has (and a `' 3'` token with its space), and a list of known ids is unchanged |
| CsvRenameIds.TranslateEmpty | csv_rename_ids.py:43-45 | an empty list stays empty when no row has an empty id |
| CsvRenameIds.RewriteList | csv_rename_ids.py:40-45 | a listed column the header lacks is skipped; otherwise `IndexError` exactly when the row is too short, and the cell is replaced by its translated list |
| CsvRenameIds.RewriteLists | csv_rename_ids.py:39-45 | the inner loop keeps the row length |
| CsvRenameIds.RewriteListsErr | csv_rename_ids.py:39-45 | the inner loop can fail only with `IndexError` |
| CsvRenameIds.RewriteListsCells | csv_rename_ids.py:39-45 | the inner loop succeeds exactly when the row reaches every listed column the header has; it translates those cells and keeps every other cell |
| CsvRenameIds.RenameRowOk | csv_rename_ids.py:36-45 | a row whose id is known is rewritten exactly when it reaches every id-list column, and otherwise fails with `IndexError` |
| CsvRenameIds.RenamedIds | csv_rename_ids.py:10-48 | a missing `id`, then a missing `xl_id`, is an error; on success the header is written unchanged and the row count and order are kept |
| CsvRenameIds.RenamedIdsOutcome | csv_rename_ids.py:22-45 | with both columns present the stage fails exactly when a row is too short for a column it uses, and then with `IndexError` |
| CsvRenameIds.Dictionary | csv_rename_ids.py:16-26 | on a table the stage succeeds on, every row's id is a key |
| CsvRenameIds.RenamedIdsCells | csv_rename_ids.py:34-45 | in each row the id becomes its `xl_id`, each of `next_step_id` and `decision0_id`…`decision2_id` the header has is translated, and every other cell (`xl_id`, labels, descriptions) is kept |
| CsvRenameIds.LastXlIdWins | csv_rename_ids.py:24-36 | when ids repeat, every row with the id gets the `xl_id` of the last such row |
| CsvRenameIds.SameIdsKept | csv_rename_ids.py:36-45 | when every row's `xl_id` is its id, the id column is unchanged and an id list only loses the dangling tokens |
| CsvRenameIds.EmptyXlIdGivesEmptyId | csv_rename_ids.py:24-36 | a row whose `xl_id` is empty, and is the last row with its id, gets an empty id, since each id is replaced by the `xl_id` of the last row that has it |
| CsvRenameIds.EmptyListStaysEmpty | csv_rename_ids.py:43-45 | an empty id-list cell stays empty when no row has an empty id |
| CsvRenameIds.RenameIds | csv_rename_ids.py:6-48 | the two loops produce exactly `RenamedIds` |
| Decisions.CompactAllEmpty | csv_parse_decisions.py:45-46 | slots that are all empty compact to an empty cell |
| Decisions.Spread | xl_parse_decisions.py:20-21 | always three items: the first three values, with missing ones empty and later ones dropped |
| Decisions.Slots | xl_parse_decisions.py:19-23 | six cells in the order id0, label0, id1, label1, id2, label2, each the spread id or label of its slot |
| Decisions.CommaSpaceNoBorder | csv_parse_decisions.py:45 | `", "` cannot overlap itself |
| Decisions.CompactSplit | csv_parse_decisions.py:45 | splitting the compacted list on `", "` gives back the present values in slot order, when none holds the separator |
| Decisions.SpreadCompact | xl_to_csv.py:44-50 | three filled slots survive compaction and spreading unchanged: the round trip between the two column layouts |
| Decisions.CompactSkipsEmpty | csv_parse_decisions.py:45-46 | empty slots leave nothing in the compacted list |
| Decisions.NoCommaSeparable | csv_parse_decisions.py:45 | a value without a comma cannot hold the separator |
| Decisions.SplitPair | xl_parse_decisions.py:20-21 | two comma-free values joined with `", "` split back into the same two |
| Decisions.FilterFirstEmpty | csv_parse_decisions.py:45 | the present values of three slots whose first is empty |
| Decisions.FilterLastEmpty | csv_parse_decisions.py:46 | the present values of three slots whose last is empty |
| Decisions.CompactMisaligns | csv_parse_decisions.py:45-46 | ids and labels are compacted independently: an empty first id beside a filled label pairs id `4` with label `Yes` after expanding |
| CsvParseDecisions.ConnectorIndex | csv_parse_decisions.py:32-33 | `headers.index('connector_label')` after the append finds an earlier `connector_label` if there is one, else the appended one |
| CsvParseDecisions.CollapseRow | csv_parse_decisions.py:39-48 | the first pass fails with `IndexError` exactly when the shape or connector cell, or for a decision row one of the slot cells, is out of range; the row gains one cell |
| CsvParseDecisions.FirstPass | csv_parse_decisions.py:13-58 | the header gains `connector_label`, the row count is kept and each row gains one cell; failures are `IndexError` or a missing looked-up column |
| CsvParseDecisions.Remove | csv_parse_decisions.py:74-79 | `remove` succeeds exactly when the name is present, and shortens by one |
| CsvParseDecisions.RemoveEach | csv_parse_decisions.py:74-79 | removing several names fails only on a missing one |
| CsvParseDecisions.Reversed | csv_parse_decisions.py:85-90 | the positions in the opposite order |
| CsvParseDecisions.DropColumns | csv_parse_decisions.py:61-92 | the second pass keeps the row count, shortens the header by the number of names, and fails only with `IndexError` or a missing name |
| CsvParseDecisions.RemoveEachLength | csv_parse_decisions.py:74-79 | each successful `remove` shortens the header by one |
| CsvParseDecisions.ParsedDecisions | csv_parse_decisions.py:7-92 | both passes keep the row count; the header ends five shorter (six slot columns out, `connector_label` in); failures are `IndexError` or a missing looked-up column |
| CsvParseDecisions.MissingColumnFails | csv_parse_decisions.py:14-21 | a header lacking a looked-up column fails with the first one it lacks |
| CsvParseDecisions.CollapsedRow | csv_parse_decisions.py:42-48 | a decision row's `next_step_id` becomes the `', '`-join of its non-empty slot ids and its `connector_label` that of its non-empty labels; another row keeps `next_step_id` and gets an empty `connector_label`; every other cell is kept |
| CsvParseDecisions.FirstPassRow | csv_parse_decisions.py:38-58 | each row of the first pass is `CollapseRow` of the input row at the looked-up positions |
| CsvParseDecisions.RemoveFirstOnce | csv_parse_decisions.py:74 | removing the first of names held once each leaves the others held once each |
| CsvParseDecisions.RemoveEachOnce | csv_parse_decisions.py:74-79 | removing names held once each is dropping those names |
| CsvParseDecisions.WithoutAbsentAll | csv_parse_decisions.py:74-79 | dropping no name keeps the header |
| CsvParseDecisions.DropColumnsHeader | csv_parse_decisions.py:74-81 | when every name occurs once, the second pass's header is the old one without those names |
| CsvParseDecisions.FoundPositions | csv_parse_decisions.py:66-71 | the looked-up positions are exactly the positions holding the names |
| CsvParseDecisions.ReversedMembers | csv_parse_decisions.py:85-90 | reversing does not change which positions are deleted |
| CsvParseDecisions.ReversedDescending | csv_parse_decisions.py:84-90 | positions found in slot order are deleted highest first |
| CsvParseDecisions.DropColumnsRow | csv_parse_decisions.py:83-92 | when the names occur once and in header order, a full-width row loses exactly the cells under the removed names |
| CsvParseDecisions.DropColumnsAligned | csv_parse_decisions.py:83-92 | under the same conditions each output cell sits under the name it sat under before |
| CsvParseDecisions.DropColumnsOutOfOrder | csv_parse_decisions.py:84-90 | with the names against header order, a kept column receives a removed column's cell: the deletion relies on slot order |
| CsvParseDecisions.OnceEachAppend | csv_parse_decisions.py:32 | appending `connector_label` keeps each slot name held once |
| CsvParseDecisions.InHeaderOrderAppend | csv_parse_decisions.py:32 | appending keeps the slot names in header order |
| CsvParseDecisions.SlotColumnsDistinct | csv_parse_decisions.py:16-21 | the six slot names are distinct, none is `connector_label` |
| CsvParseDecisions.ParsedHeader | csv_parse_decisions.py:32-81 | when each slot column occurs once, the output header is the input header without the six slot columns, then `connector_label` |
| CsvParseDecisions.RemainingColumnsKeepValues | csv_parse_decisions.py:83-92 | when the slot columns occur once and in slot order, each cell of a full-width output row is the first pass's cell under the same name |
| CsvParseDecisions.LookUpAll | csv_parse_decisions.py:14-21 | the successive `headers.index` calls give the positions, or the first missing name |
| CsvParseDecisions.ColumnIndicesStop | csv_parse_decisions.py:14-21 | once a lookup fails, later lookups do not change the outcome |
| CsvParseDecisions.RemoveAll | csv_parse_decisions.py:74-79 | the successive `remove` calls give `RemoveEach` |
| CsvParseDecisions.DeleteAll | csv_parse_decisions.py:85-90 | the successive `del` statements give `DeleteEach` |
| CsvParseDecisions.CollapsePass | csv_parse_decisions.py:8-58 | the first pass's lookups and row loop produce exactly `FirstPass` |
| CsvParseDecisions.DropPass | csv_parse_decisions.py:60-92 | the second pass's lookups, removals and row loop produce exactly `DropColumns` |
| CsvParseDecisions.ParseDecisions | csv_parse_decisions.py:7-92 | the two passes produce exactly `ParsedDecisions` |
| XlParseDecisions.ExpandRow | xl_parse_decisions.py:18-27 | fails with `IndexError` exactly when the shape cell, or for a decision row the list cells, are out of range; the row gains six cells |
| XlParseDecisions.Expanded | xl_parse_decisions.py:10-29 | the header gains exactly `decision0_id` … `decision2_label` at the end, the row count is kept and every row gains six cells; failures are `IndexError` or a missing looked-up column |
| XlParseDecisions.ParseDecisions | xl_parse_decisions.py:6-29 | the lookups and the row loop produce exactly `Expanded` |
| XlParseDecisions.ExpandedRow | xl_parse_decisions.py:19-27 | a decision row's slots are the first three `,`-items of `next_step_id` and of `connector_label`, empty past the end, and its `next_step_id` is cleared; another row gains six empty cells; every other cell, `connector_label` included, is kept |
| XlParseDecisions.ExpandedTableRow | xl_parse_decisions.py:18-29 | each output row is `ExpandRow` of its input row at the looked-up positions |
| XlParseDecisions.MissingColumnFails | xl_parse_decisions.py:11-13 | a header lacking `shape`, `next_step_id` or `connector_label` fails with the first it lacks |
| XlParseDecisions.EmptyListEmptySlots | xl_parse_decisions.py:20-22 | a decision row with an empty `next_step_id` gets three empty id slots |
| XlParseDecisions.SpreadJoined | xl_parse_decisions.py:20-22 | one to three comma-free ids joined with `,` spread back into the same slots |
| XlParseDecisions.SpaceKept | xl_parse_decisions.py:20-21 | tokens are not trimmed: the `', '`-join of `csv_parse_decisions.py` comes back as `' 6'`, so this stage is not its exact inverse |
| CsvToXl.MapShape | csv_to_xl.py:26-36 | start_1 becomes start and terminator end, keeping the description; summing_function becomes process described `AND` and or process described `OR` (the opposite of `csv_rename_shapes.py`); other shapes are kept; no result is a draw.io-only name |
| CsvToXl.ConvertRow | csv_to_xl.py:20-53 | unpacking succeeds exactly when the row has 21 cells (otherwise `ValueError`); the output row has 14 cells, one per output header name |
| CsvToXl.ProcessRows | csv_to_xl.py:11-55 | an empty row fails (`row[0]` raises `IndexError`); never more output rows than input rows |
| CsvToXl.Converted | csv_to_xl.py:58-65 | the written table has the 14-name header and every row has 14 cells |
| CsvToXl.ProcessRowsIs | csv_to_xl.py:11-55 | without empty rows, the stage converts exactly the rows that are not comments or headers, one output row each, in order |
| CsvToXl.ProcessCsv | csv_to_xl.py:7-65 | the loop with its `continue`s and the header write produce exactly `Converted` |
| CsvToXl.ProcessRowsStop | csv_to_xl.py:11-55 | once a prefix fails, the whole input fails the same way |
| CsvToXl.ConvertedRow | csv_to_xl.py:26-53 | the converted row holds the mapped shape and description, the `', '`-compacted ids and labels on a decision row (`next_step_id` kept and `connector_label` empty otherwise), and the other ten fields in place |
| CsvToXl.GatesOpposite | csv_to_xl.py:31-36 | summing_function gets `AND` and or gets `OR` |
| CsvToXl.MapShapeIdempotent | csv_to_xl.py:27-36 | mapping twice equals mapping once |
| XlToCsv.UnmapShape | xl_to_csv.py:31-40 | start becomes start_1 and end terminator; process described `AND` becomes summing_function and described `OR` becomes or, both with the description cleared; everything else is kept; no result is start or end |
| XlToCsv.RestoreRow | xl_to_csv.py:27-56 | unpacking succeeds exactly when the row has 15 cells (otherwise `ValueError`); the output row has 22 cells with `xl_id` last |
| XlToCsv.Restored | xl_to_csv.py:18-72 | the written table has the 22-name header, every row has 22 cells, and the stage succeeds exactly when every row has fewer than 14 or exactly 15 cells |
| XlToCsv.RestoredAll | xl_to_csv.py:23-29 | every long row restores exactly when each is 15 cells wide |
| XlToCsv.ReverseProcessCsv | xl_to_csv.py:18-72 | the loop with its `continue` and rebinding produces exactly `Restored` |
| XlToCsv.RestoredStop | xl_to_csv.py:24-29 | a long row of the wrong width, after a prefix that restores, stops the stage with `ValueError` |
| XlToCsv.RestoredRow | xl_to_csv.py:31-56 | the restored row holds the restored shape and description, the size of that shape with a 100×100 fallback, the split lists of a decision row over the slots with `next_step_id` cleared (or the list kept and empty slots), the other ten fields and `xl_id` last |
| XlToCsv.RestoredRows | xl_to_csv.py:21-58 | the stage keeps exactly the rows with at least 14 cells, in order, and restores each |
| XlToCsv.FourteenCellsFail | xl_to_csv.py:24-29 | a 14-cell row, what `csv_to_xl.py` writes, passes the length guard and fails to unpack: an `xl_id` cell must be appended first |
| XlToCsv.ShapeRoundTrip | xl_to_csv.py:31-40 | restoring after `csv_to_xl.py`'s renaming gives back every draw.io shape except start, end and process |
| XlToCsv.SheetShapeRoundTrip | xl_to_csv.py:31-40 | `csv_to_xl.py`'s renaming after restoring gives back every spreadsheet shape that is not a draw.io-only name |
| XlToCsv.ProcessAndLost | xl_to_csv.py:35-37 | a genuine process described `AND` comes back as summing_function with no description |
| XlToCsv.RowRoundTrip | xl_to_csv.py:31-56 | a diagram row whose shape is not start, end or process, sent through `csv_to_xl.py` and back with an `xl_id` appended, keeps its shape, its description (cleared on a gate), the other ten fields and `xl_id`; width and height come from the size table; a non-decision row keeps `next_step_id` and gets empty slots |
| XlToCsv.DecisionRoundTrip | xl_to_csv.py:44-50 | a decision row with three filled ids and labels free of `', '` gets the same three pairs back and an empty `next_step_id` |
| Shapes.DiagramSize | drawio_xl/drawio_to_xl.py:46-57 | terminator is 100×50; process, data, predefined_process and document are 200×100; every other shape, listed or not, is 100×100 |
| Shapes.SheetSize | xl_to_csv.py:6-15 | the same sizes, from the table keyed by draw.io names: terminator 100×50, the four wide shapes 200×100, everything else 100×100 |
| Shapes.SizeTablesAgree | xl_add_height_width.py:16-25 | the two size tables of the repository give every shape name the same size although they list different names |
| Strings.FindFrom | drawio_xl/drawio_to_xl.py:82-85 | a found position is at or after the start, holds an occurrence, and no earlier position from the start does; nothing found means no occurrence from the start on |
| Strings.JoinSplit | csv_rename_ids.py:43-45 | joining what a split produced, on the same separator, gives the text back |
| Strings.SplitJoin | xl_to_csv.py:45-46 | splitting the join of separator-free parts gives the parts back, for a separator that cannot overlap itself |
| Strings.SplitPartsLackSep | xl_parse_decisions.py:20-21 | no part of a split contains the separator |
| Strings.ReplaceRemovesChar | replace_newlines.py:15 | after replacing a character by text without it, the character no longer occurs |
| Strings.ReplaceRoundTrip | csv_insert_newlines.py:15 | replacing a character by a pattern and the pattern back by the character restores text that did not contain the pattern |
| Strings.StripEmpty | xl_delete_empty_rows.py:12 | a stripped cell is empty, so falsy, exactly when the cell is all whitespace |
| Strings.StripStartsWith | strip_frontmatter.py:10 | a stripped line starts with a non-space character exactly when its first non-space character is that one |
| Strings.LStripDrops | drawio_xl/drawio_to_xl.py:127 | left-stripping removes a leading run of whitespace and nothing else |
| Strings.RStripDrops | drawio_xl/drawio_to_xl.py:127 | right-stripping removes a trailing run of whitespace and nothing else |
| Strings.Lower | fix_shape_case.py:23 | the lowered text has the same length and no upper-case letter |
| Strings.LowerIdempotent | fix_shape_case.py:23 | lowering twice is lowering once |
| Strings.TitleKeepsLetters | csv_rename_headers.py:16 | title-casing keeps every non-letter and changes letters only in case |
| Strings.SortedList | drawio_xl/drawio_to_xl.py:155 | the list is strictly sorted and holds exactly the names of the set |
| Strings.SortedUnique | drawio_xl/drawio_to_xl.py:155 | two strictly sorted lists with the same elements are equal, so the sorted header is determined |
| Diagram.Get | drawio_xl/drawio_to_xl.py:102 | nothing is found exactly when no attribute has the key; a found value is stored with the key |
| Diagram.GetFinds | drawio_xl/drawio_to_xl.py:115 | with distinct keys, looking up an attribute's key gives its own value |
| Diagram.Edges | drawio_xl/drawio_to_xl.py:121-128 | never more edges than elements |
| Diagram.EdgesMembers | drawio_xl/drawio_to_xl.py:122-128 | the edges are exactly the records of the `mxCell` elements that carry an `edge` attribute |
| Diagram.ExtractEdges | drawio_xl/drawio_to_xl.py:121-128 | the edge loop produces exactly `Edges` |
| Diagram.ParseShape | drawio_xl/drawio_to_xl.py:80-89 | `unknown` when the style lacks the marker; otherwise the text right after the first marker, running to a `;` or to the end of the style, and holding no `;` |
| Diagram.ParseShapeOfTemplate | drawio_xl/config.py:9-14 | a style built as text, marker, token, `;`, rest gives the token back |
| Diagram.ParseShapeAtEnd | drawio_xl/drawio_to_xl.py:85-88 | a token at the very end of the style, with no `;` after it, comes back whole |
| Diagram.ParseTemplate | drawio_xl/config.py:9-14 | filling a shape name into the style template and parsing gives the name back |
| Diagram.ParseShapeUnknownExample | drawio_xl/drawio_to_xl.py:89 | a plain rectangle style gives `unknown` |
| Diagram.CopyAttrsFields | drawio_xl/drawio_to_xl.py:113-116 | the copy adds exactly the attribute names outside the skip list, each with the element's value, and keeps every other key |
| Diagram.CopyProperties | drawio_xl/drawio_to_xl.py:113-116 | the copy loop produces exactly `CopyAttrs` and adds exactly the copied names to the field names |
| Diagram.RowOf | drawio_xl/drawio_to_xl.py:159 | one cell per field name |
| Diagram.RowsOf | drawio_xl/drawio_to_xl.py:158-159 | one row per node |
| Diagram.WriteRows | drawio_xl/drawio_to_xl.py:158-159 | the writer loop produces exactly `RowsOf` |
| Diagram.SlotNamesDistinct | drawio_xl/drawio_to_xl.py:136-137 | the six slot names are pairwise different and none is `next_step_id` |
| Diagram.SlotNotFixed | drawio_xl/drawio_to_xl.py:136-137 | no slot name is `id` or `shape` |
| Diagram.Connected | drawio_xl/drawio_to_xl.py:132 | the connected edges are exactly the edges whose source equals the node's id, a missing source matching only a missing id |
| Diagram.FillSlot | drawio_xl/drawio_to_xl.py:136-139 | filling a slot keeps the node's id and shape; a missing target is written as an empty slot |
| Diagram.Extend | drawio_xl/drawio_to_xl.py:141-145 | extending raises TypeError exactly when `next_step_id` is non-empty and the edge has no target; otherwise it keeps id and shape, sets `next_step_id`, and starts it with the target (empty when missing) when it was absent or empty |
| Diagram.Link | drawio_xl/drawio_to_xl.py:133-145 | assigning the edges keeps the node's id and shape; a decision node never raises, and the only error is TypeError |
| Diagram.Linked | drawio_xl/drawio_to_xl.py:131-145 | the loops succeed exactly when every node's edge loop succeeds, and then give one linked node per node, each linked with its own connected edges from slot 0; otherwise TypeError |
| Diagram.LinkNode | drawio_xl/drawio_to_xl.py:133-145 | the inner edge loop produces exactly `Link` from slot 0, stopping at a TypeError |
| Diagram.AssignRelationships | drawio_xl/drawio_to_xl.py:131-145 | the relationship loops produce exactly `Linked`, stopping at the first TypeError |
| Diagram.Targets | drawio_xl/drawio_to_xl.py:143 | one target per edge, in order, a missing one as empty |
| Diagram.LinkNext | drawio_xl/drawio_to_xl.py:141-145 | a node that is not a decision, whose targets are all present and non-empty, does not raise and gets `next_step_id` equal to the `,`-join of the list it started with and all its targets, uncapped and in order; every other key keeps its value |
| Diagram.LinkNone | drawio_xl/drawio_to_xl.py:134 | a node without edges is unchanged and does not raise |
| Diagram.LinkDecision | drawio_xl/drawio_to_xl.py:135-140 | a decision node never raises and gets the target (empty when missing) and label of its edges in consecutive slots while slots remain; later edges are dropped and every other key, `next_step_id` included, keeps its value |
| Diagram.MissingTargetRestarts | drawio_xl/drawio_to_xl.py:142-145 | a first edge without a target leaves an empty list, which the next target overwrites instead of extending |
| Diagram.MissingTargetFails | drawio_xl/drawio_to_xl.py:142-143 | an edge without a target after an edge with one raises TypeError |
| Diagram.LinkFails | drawio_xl/drawio_to_xl.py:141-145 | the edge loop of a node that is not a decision raises exactly when an edge lacks its target while `next_step_id` is non-empty, from the start or from an earlier non-empty target |
| Diagram.LinkedFails | drawio_to_csv.py:97-112 | the relationship loops raise exactly when some node that is not a decision meets a missing target after its `next_step_id` became non-empty |
| DrawioToXl.Nodes | drawio_xl/drawio_to_xl.py:93-118 | never more nodes than elements |
| DrawioToXl.ExtractNodes | drawio_xl/drawio_to_xl.py:67-118 | the node loop produces exactly `Nodes`, and the field names it collects are the required names and every copied attribute name |
| DrawioToXl.ConvertToCsv | drawio_xl/drawio_to_xl.py:20-163 | TypeError exactly when the relationship loops raise one; otherwise the header is strictly sorted and holds exactly the collected field names, and the rows are the nodes, with their edges assigned, laid out under that header |
| DrawioToXl.HeaderDetermined | drawio_xl/drawio_to_xl.py:155 | any two sorted headers of the same field names are equal, so the output depends on the diagram alone |
| DrawioToXl.SkipNames | drawio_xl/drawio_to_xl.py:114 | the reserved and ignored names are skipped by the copy; `next_step_id` is not |
| DrawioToXl.NodeDetails | drawio_xl/drawio_to_xl.py:101-116 | a node's id (missing when the element has none) and parsed shape, its size from the table, its `xl_id` falling back to its id, each attribute outside the skip list with its value, and no other key, so neither `label` nor `placeholders` |
| DrawioToXl.NodeStarted | drawio_xl/drawio_to_xl.py:113-116 | a non-empty `next_step_id` attribute of the element is copied and becomes the start of the successor list |
| DrawioToXl.ColumnsFrom | drawio_xl/drawio_to_xl.py:67-116 | a name is a column exactly when it is required or is the copied attribute name of some node |
| DrawioToXl.IgnoredNotColumns | drawio_xl/drawio_to_xl.py:65 | `label` and `placeholders` never become columns |
| DrawioToXl.NodesFrom | drawio_xl/drawio_to_xl.py:93-118 | the nodes are exactly the details of the user objects whose first cell has a style |
| DrawioToXl.RequiredSlots | drawio_xl/drawio_to_xl.py:73-77 | every slot column and `next_step_id` is a column |
| DrawioToXl.DecisionRow | drawio_xl/drawio_to_xl.py:135-140 | in a decision node's row, the columns of slot `i` hold the target (empty when missing) and label of its `i`-th outgoing edge |
| DrawioToXl.NextStepRow | drawio_xl/drawio_to_xl.py:141-145 | in another node's row, `next_step_id` holds the list it started with and all its targets, joined with `,`, when every target is present and non-empty |
| DrawioToXl.UnlinkedRow | drawio_xl/drawio_to_xl.py:158-159 | the row of a node without outgoing edges holds the node's own values |
| DrawioToXl.StripFrontMatter | drawio_xl/drawio_to_xl.py:165-182 | the kept lines are exactly the input lines that are not comments |
| DrawioToXl.StripFrontMatterIdempotent | drawio_xl/drawio_to_xl.py:178-180 | stripping twice is stripping once |
| DrawioToXl.DeleteColumn | drawio_xl/drawio_to_xl.py:184-214 | an absent name leaves the content as it was; otherwise it succeeds exactly when every row reaches the name's first index, and removes one name and one cell per row |
| DrawioToXl.DeleteColumnOnce | drawio_xl/drawio_to_xl.py:200-208 | a name present once disappears with the other names kept in order, and a second delete changes nothing |
| DrawioToXl.DeleteHeightWidth | drawio_xl/drawio_to_xl.py:216-232 | with neither column the content passes through |
| DrawioToXl.DeleteHeightWidthAsStage | drawio_xl/drawio_to_xl.py:230-231 | with both columns the result is that of `csv_delete_height_width.py`; with neither this passes the content through where that stage fails on the missing `height` |
| DrawioToXl.DeleteXlIds | drawio_xl/drawio_to_xl.py:296-309 | without `xl_id` the content passes through; with it the result is that of `csv_strip_xl_ids.py` |
| DrawioToXl.ReplaceIdsWithXlIds | drawio_xl/drawio_to_xl.py:234-294 | the result is that of `csv_rename_ids.py`; a missing `id` column fails; the header and row count are kept |
| DrawioToXl.FieldNames | drawio_xl/drawio_to_xl.py:332-336 | the names hold `description`, and begin with the header, which they equal when it already had `description` |
| DrawioToXl.Padded | drawio_xl/drawio_to_xl.py:338 | a short record is filled to the field count with empty values after its own cells |
| DrawioToXl.RenameRecord | drawio_xl/drawio_to_xl.py:338-349 | a record whose shape is none of start_1, terminator, summing_function and or is unchanged |
| DrawioToXl.DictRow | drawio_xl/drawio_to_xl.py:338-350 | a record is written exactly when the field names include `shape` and the row is not longer than them, one value per field name |
| DrawioToXl.WriteRecord | drawio_xl/drawio_to_xl.py:350 | one value per field name |
| DrawioToXl.RenamedShapes | drawio_xl/drawio_to_xl.py:311-352 | the header is the field names and every written row has one cell per name |
| DrawioToXl.RenamedShapesOutcome | drawio_xl/drawio_to_xl.py:338-350 | the stage fails exactly when some non-blank row fails |
| DrawioToXl.RenameShapes | drawio_xl/drawio_to_xl.py:325-352 | the record loop produces exactly `RenamedShapes` |
| DrawioToXl.ZipDistinct | drawio_xl/drawio_to_xl.py:325 | with distinct field names a record gives each name the cell at its position |
| DrawioToXl.RecordCell | drawio_xl/drawio_to_xl.py:338-350 | each written value of a renamed record is the cell the row renaming of `csv_rename_shapes.py` puts at that position |
| DrawioToXl.DictRowAt | drawio_xl/drawio_to_xl.py:338-350 | with distinct names, renaming a record is renaming its padded row with `csv_rename_shapes.py` |
| DrawioToXl.DictRowIsSheetRow | drawio_xl/drawio_to_xl.py:338-350 | the same, at the positions the header lookup finds |
| DrawioToXl.RenamedShapesAsStage | drawio_xl/drawio_to_xl.py:311-352 | on non-blank rows no longer than the field names, this stage is `csv_rename_shapes.py` on the header extended with `description` and the padded rows |
| DrawioToXl.RenamedShapesIdempotent | drawio_xl/drawio_to_xl.py:338-349 | renaming shapes a second time changes nothing |
| DrawioToXl.GateDescriptions | drawio_xl/drawio_to_xl.py:343-348 | a gate becomes process, described `OR` for summing_function and `AND` for or |
| DrawioToCsv.Base | drawio_to_csv.py:59-64 | the leading fields are exactly `owner`, `description` and `status`, each the element's value or empty |
| DrawioToCsv.Finish | drawio_to_csv.py:73-76 | the trailing assignments add `width`, `height` and `xl_id`: the shape's size from the table, and the element's `xl_id` or empty; every other key keeps its value |
| DrawioToCsv.Nodes | drawio_to_csv.py:50-78 | never more nodes than elements |
| DrawioToCsv.ExtractNodes | drawio_to_csv.py:50-78 | the node loop produces exactly `Nodes`, and the names it collects are exactly `Discovered` |
| DrawioToCsv.ListOf | drawio_to_csv.py:82 | the list holds each name of the set exactly once |
| DrawioToCsv.ConvertToCsv | drawio_to_csv.py:9-126 | TypeError exactly when the relationship loops raise one; otherwise the header is the four leading names, every discovered name once in some order, then the eleven trailing names, and the rows are the nodes, with their edges assigned, laid out under that header |
| DrawioToCsv.DiscoveredOutside | drawio_to_csv.py:68-70 | no discovered name is a fixed or ignored name |
| DrawioToCsv.FixedDistinct | drawio_to_csv.py:30-31 | the fixed names are distinct |
| DrawioToCsv.HeaderDistinct | drawio_to_csv.py:81-84 | the header names each column once |
| DrawioToCsv.SkipNames | drawio_to_csv.py:68 | the fixed names, `next_step_id` among them, and the ignored names are skipped by the copy |
| DrawioToCsv.NodeDetails | drawio_to_csv.py:59-76 | a node's id (missing when the element has none) and parsed shape; `owner`, `description` and `status` from the element or empty; its size; its `xl_id` or empty; each attribute outside the skip list with its value; no other key, so no `next_step_id` |
| DrawioToCsv.NodeNotStarted | drawio_to_csv.py:68 | a node starts with no successor list, whatever `next_step_id` attribute its element has |
| DrawioToCsv.XlIdDefaultsDiffer | drawio_to_csv.py:76 | for an element with an id and no `xl_id`, this flattener leaves `xl_id` empty while the library one of `drawio_xl/drawio_to_xl.py` uses the id |
| DrawioToCsv.SameShapeAndSize | drawio_to_csv.py:56-75 | both flatteners give an element the same id, shape, width and height |
| DrawioToCsv.NodesNotStarted | drawio_to_csv.py:50-78 | no node of the document starts with a successor list |
| DrawioToCsv.PostFixedSlots | drawio_to_csv.py:31 | where `next_step_id` and the slot columns sit among the trailing names |
| DrawioToCsv.NextStepRow | drawio_to_csv.py:108-112 | in the row of a node that is not a decision, `next_step_id` is the `,`-join of all its targets in edge order, when it has edges and every target is present and non-empty |
| DrawioToCsv.DecisionRow | drawio_to_csv.py:98-107 | in a decision node's row, the columns of slot `i` hold the target (empty when missing) and label of its `i`-th outgoing edge |

## Left out

- Parsing the XML with ElementTree and walking the tree are not modelled. The model starts from the parsed elements in document order. The "first `mxCell` below a user object" is given as that element's optional style.
- A missing node `id` and a missing edge `source` or `target` are kept as `None`: a missing source matches only a missing id, as in Python. Other attributes that `element.get` reports as `None` are modelled as the empty string, which the writers turn them into.
- Reading and writing CSV text is not modelled: quoting, line terminators, the `None`-to-empty conversion of the writers, and the trailing newline `convert_to_csv` adds. Every table is modelled as already parsed into a header and rows.
- An input file with no line at all is not representable, because every table has a header row. In the source, `next(reader)` raises `StopIteration` on such a file.
- A stage that raises an exception part-way has already written some rows. The model returns only the error.
- Reading the front-matter file and prepending it in `convert_to_csv` and `convertToCSV` is file I/O and is not modelled. So is `csv_add_frontmatter.py`.
- `delete_non_utf8` in `drawio_xl/utils.py` and `drawio_xl/xl_to_drawio.py`, and `xl_delete_non_utf8.py`, are not part of this model: they only re-read the bytes with the codec's ignore mode.
- Command-line plumbing is not modelled: `main` blocks, argument parsing, and opening files or standard streams. This includes the path string that `csv_to_xl.py:73` passes to `csv.reader`.
- The functions of `drawio_xl/xl_to_drawio.py:144-169` have empty bodies and are not modelled.
- `drawio_xl/config.py` is used only for its style template, in the shape-token round trip.
- `convertToCSV` lists its set of discovered field names in an order Python does not fix. `DrawioToCsv.ConvertToCsv` returns that order as an output and states only that it holds each discovered name once.
- `lower()`, `title()` and `strip()` are modelled on ASCII letters and ASCII whitespace only. Unicode case mapping is not modelled.
- There are always three decision slots, as in the code. Neither flattener infers the number from the data, so the fixture in `tests/testing_support.py:191` with two decision pairs cannot be produced by either of them.
- `tests/test_drawio_to_xl.py:10` imports a `parse_decisions` that `drawio_xl/drawio_to_xl.py` does not define. Its expected output is treated as the behaviour of `csv_parse_decisions.py`.
- The test helpers `normalize_csv` and `normalize_xml` are not part of this model.
- DrawioToXl.DeleteHeightWidth: its own contract states only the pass-through case. What it computes when the columns are present is stated by `DrawioToXl.DeleteHeightWidthAsStage` through `csv_delete_height_width.py`.
