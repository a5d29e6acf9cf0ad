# Klausurmaster2D card progression, modelled in Dafny

This project models the data layer of Klausurmaster2D, a Tkinter flashcard tracker. The tracker
keeps *spaces*; each space is a table whose *rows* are subjects and whose *columns* are stages
labelled from "5.0" down to "1.0". Cards sit in the cells and move between stages as they are
learnt. The model covers:

- **Cards** (`cards.dfy`, cards/utils.py): the canonical card record, the normalisation of
  legacy entries (bare strings, loosely typed dictionaries, anything else), the first-match
  search `find_card`, and the in-place normalisation of a row → column → list tree over arrays.
- **Row statistics** (`ratio.dfy`, formula/ratio.py): the progress ratio and the expected grade
  of a row. Each is a recursive specification function, and each has a loop method proved equal
  to it. The remap of stage 5.0 to grade 6.0 is kept. So is the quirk that the ratio counts the
  cards of every column but sums factors only over columns whose label is a number.
- **Stage labels** (`structure.dfy`, table/structure.py): `generate_columns` as a loop method,
  proved against the list of labels it should produce.
- **Colours** (`colors.dfy`, table/colors.py): the hex codec and its two round trips, plus the
  channel-wise interpolation with truncation toward zero.
- **Updates** (`updater.dfy`, main/updater.py): version parsing, tuple comparison of versions,
  and choosing a release asset by suffix priority. The list of suffixes is a parameter.
- **The document and its edits** (`spaces.dfy`, `rows.dfy`, `cardedits.dfy`, `spaceedits.dfy`,
  main/app.py):
  - The document is a map of spaces, their insertion order and the current space.
  - Every edit of `CardApp` is a function returning `Rejected(reason)` or
    `Applied(document, selection)`.
  - A lemma per edit states when it goes ahead and what changes. Everything not named stays
    as it was.
- **History** (`history.dfy`): snapshots, the undo and redo stacks bounded to `max_history = 7`,
  and the bin bounded to 100 entries. Each is a value, with undo/redo round trips proved.
- **The app** (`app.dfy`): class `CardApp` holds the fields that `main/app.py` updates in place:
  the document, the selected row, `history`, `future`, `bin_history`, and the delete, mark and
  move modes. Each method is proved to leave the fields as the pure functions above say. It also
  keeps the invariant: both stacks within 7 entries, the bin within 100, and never delete and
  mark mode at once.
- **Space averages** (`averages.dfy`): the loop of `build_navigation_tree` that computes each
  space's average expected grade.

Python's `float` is modelled by `real`, and `str` by `seq<char>`. A Python dictionary whose
insertion order matters is a `map` paired with a `seq` of its keys. Text shared by several
modules lives in `text.dfy` (stripping, digit strings, decimal numerals). Rounding and
truncation live in `numbers.dfy`. `wrappers.dfy` holds `Option`.

A space's average in the navigation tree is the mean expected grade over every row of the space,
including rows without cards: such a row adds an expected grade of 0.0, because
`calculate_ratio` and `calculate_expected_grade` never return `None` for a row of the space, so
the check at main/app.py:549 never skips one (`Averages.SpaceAverageUnweighted`).

## Model

| member | source | states |
|---|---|---|
| Cards.Normalize | cards/utils.py:18-33 | a bare string becomes the default card with that front; any other non-dict value becomes the default card with its `str()` as front |
| Cards.NormalizeEmptyDict | cards/utils.py:21-32 | a dict without any of the four keys becomes front "", back "", unmarked, weight 100.0 |
| Cards.NormalizeDictFields | cards/utils.py:21-32 | front and back are coerced with `str` (default ""), marked with `bool` (default False), and an unreadable or missing weight becomes 100.0 |
| Cards.NormalizeDoesNotClamp | cards/utils.py:22-26 | any weight `float()` can read is kept unclamped, even outside [10, 200]; an unreadable one becomes 100.0 |
| Cards.NormalizeToRaw | cards/utils.py:18-33 | a canonical card, stored as its dictionary, normalises back to itself |
| Cards.NormalizeIdempotent | cards/utils.py:18-33 | normalising the stored form of a normalised entry changes nothing |
| Cards.FindCard | cards/utils.py:45-49 | the result is the first position whose front equals the text; `None` exactly when no card has that front |
| Cards.NormalizedListIdempotent | cards/utils.py:40-41 | normalising every entry of a list twice is normalising it once |
| Cards.NormalizeList | cards/utils.py:40-41 | the array afterwards holds exactly the normalised forms of its old entries, in order |
| Cards.NormalizeRow | cards/utils.py:39-41 | every list of a row holds the normalised forms of its old entries, even where columns share one list |
| Cards.NormalizeCardsTree | cards/utils.py:37-41 | every list in the tree holds the normalised forms of its old entries; the row keys, column keys, lists and their lengths stay |
| Ratio.EffectiveGradeSpec | formula/ratio.py:13-14 | the result is never within 1e-6 of 5.0; a value is kept exactly when it is not within 1e-6 of 5.0; applying the remap twice is applying it once |
| Ratio.CalculateRatio | formula/ratio.py:18-36 | the ratio is `Ratio`: 0.0 for an unknown row or a row without cards, else the factor sum over numeric columns divided by the card count over all columns |
| Ratio.RowRatioLoop | formula/ratio.py:22-36 | the two loops compute the mean factor `RowRatio` of a known row |
| Ratio.CountCardsLoop | formula/ratio.py:22 | the first loop counts the cards of every listed column |
| Ratio.SumFactorsLoop | formula/ratio.py:26-34 | the second loop adds `(5 - grade) / 3` per card of a numeric column, and nothing for the other columns |
| Ratio.RatioBetween | formula/ratio.py:18-36 | when the column grades lie from 1.0 to 6.0, the ratio lies from -1/3 to 4/3 |
| Ratio.SumFactorsBetween | formula/ratio.py:26-36 | the factor sum lies between -1/3 and 4/3 times the card count |
| Ratio.CalculateExpectedGrade | formula/ratio.py:39-63 | the result is `ExpectedGrade`: 0.0 for an unknown row, else the weighted mean over numeric columns |
| Ratio.RowExpectedGradeLoop | formula/ratio.py:43-63 | the nested loops sum `w/100` and `grade * w/100` over cards with positive weight, and return 0.0 when the total weight is 0 |
| Ratio.TotalWeightZero | formula/ratio.py:51-62 | the total weight is never negative; it is zero exactly when no card of a numeric column has positive weight |
| Ratio.ExpectedGradeWeightless | formula/ratio.py:54-62 | with no positively weighted card, the expected grade is 0.0 |
| Ratio.ExpectedGradeBetween | formula/ratio.py:45-63 | as a weighted mean, the expected grade lies between any bounds `lo` and `hi` of the grades of the columns holding a card of positive weight, in particular between their smallest and largest |
| Ratio.ExpectedGradeWithin | formula/ratio.py:45-63 | with column grades from 1.0 to 6.0, a row with a card of positive weight has an expected grade from 1.0 to 6.0 |
| Ratio.WeightedSumBetween | formula/ratio.py:45-59 | the weighted sum lies between `lo` and `hi` times the total weight when every column that carries weight has a grade from `lo` to `hi` |
| Ratio.ColumnWeightedBetween | formula/ratio.py:50-59 | a column's weighted sum lies between `lo` and `hi` times its weight when its grade does or none of its cards weighs more than 0 |
| Ratio.ColumnWeightedScales | formula/ratio.py:52-59 | the weighted sum of one column is its grade times its weight |
| Ratio.ColumnWeightZero | formula/ratio.py:52-56 | the weight of a column is never negative, and is zero exactly when none of its cards has positive weight |
| Structure.GenerateColumns | table/structure.py:5-16 | the loop appends, in order, the label of each stage; the result has `num_columns` labels, or none when `num_columns <= 0` |
| Structure.Labels | table/structure.py:12-16 | there is one label per stage index, and none for `num_columns <= 0` |
| Structure.Steps | table/structure.py:9 | the divisor is `num_columns - 1`, guarded to 1 |
| Structure.Step | table/structure.py:9-10 | the step is positive, and times the divisor gives 4.0 |
| Structure.FirstLabel | table/structure.py:6-15 | the first label is "5.0" whenever there is a column |
| Structure.SingleColumn | table/structure.py:9-10 | one column yields "5.0", because the divisor is guarded to 1 |
| Structure.LastLabel | table/structure.py:7-14 | with two or more columns, the last stage is exactly 1.0, labelled "1.0" |
| Structure.ValuesStrictlyDecrease | table/structure.py:10-14 | neighbouring stage values differ by the constant, positive step |
| Structure.ColumnValueRange | table/structure.py:6-14 | every stage value lies from 1.0 to 5.0 |
| Structure.Tenths | table/structure.py:14-15 | the stage value rounded to tenths lies from 10 to 50 |
| Structure.StageTenths | table/structure.py:8-15 | the value the loop computes, times ten and rounded half to even as `.1f` does, is the stage's tenths |
| Structure.TenthsDecrease | table/structure.py:10-15 | up to 41 columns, a later stage is rounded to strictly fewer tenths |
| Structure.LabelShape | table/structure.py:15 | every label has exactly one decimal place and reads back as its rounded stage value |
| Structure.LabelsDistinct | table/structure.py:10-15 | up to 41 columns, the labels strictly decrease and are pairwise different |
| Structure.LabelsCollideAt42 | table/structure.py:10-15 | with 42 columns, stages 20 and 21 are both labelled "3.0" |
| Colors.StripHashes | table/colors.py:20 | `lstrip('#')` drops the whole leading run of `#` and nothing else |
| Colors.ParseHex | table/colors.py:21 | `int(s, 16)` on a slice of at most two characters gives a value from -15 to 255 |
| Colors.HexChar | table/colors.py:26 | the digit `02x` writes is a lower-case hexadecimal digit of that value |
| Colors.HexOf | table/colors.py:26 | the `x` format of a number is a non-empty string of hexadecimal digits with that value |
| Colors.Hex2Byte | table/colors.py:26 | `02x` writes a channel from 0 to 255 as exactly its two digits |
| Colors.RgbToHexDigits | table/colors.py:25-26 | the colour text is `#` followed by the high and low digit of each channel in turn |
| Colors.ChannelOfDigits | table/colors.py:21 | two hexadecimal digits read as sixteen times the first plus the second |
| Colors.RgbToHexCanonical | table/colors.py:25-26 | channels in 0..255 are written as `#` and six lower-case hexadecimal digits |
| Colors.StripHashesCanonical | table/colors.py:20 | on canonical colour text `lstrip('#')` drops exactly the one `#` |
| Colors.RgbRoundTrip | table/colors.py:19-26 | `hex_to_rgb(rgb_to_hex(r, g, b)) == (r, g, b)` for channels in 0..255 |
| Colors.HexRoundTrip | table/colors.py:19-26 | canonical colour text decodes, and encoding the result gives back the same text |
| Colors.DecodeCanonical | table/colors.py:19-21 | canonical colour text decodes to the values of its three digit pairs |
| Colors.BlendBetween | table/colors.py:34-36 | for a factor in [0, 1], a truncated channel lies between the two input channels |
| Colors.BlendEnds | table/colors.py:34-36 | factor 0 keeps the first channel and factor 1 gives the second |
| Colors.BlendedChannels | table/colors.py:34-38 | for a factor in [0, 1] the blended channels lie between the inputs' and survive the hex round trip |
| Colors.InterpolateEnds | table/colors.py:30-38 | factor 0 gives the start colour, and factor 1 the end colour, each in canonical form |
| Colors.InterpolateCanonicalEnds | table/colors.py:30-38 | for canonical colours, factors 0 and 1 give back the colours themselves |
| Colors.InterpolateBetween | table/colors.py:30-38 | for canonical colours and a factor in [0, 1], the output decodes, and each of its channels lies between the inputs' |
| Updater.StripV | main/updater.py:29 | `lstrip("vV")` drops the whole leading run of `v` and `V` |
| Updater.SeparatorAt | main/updater.py:32 | the first position holding `.`, `_` or `-`, or the length when there is none |
| Updater.Split | main/updater.py:32 | `re.split` always yields at least one part |
| Updater.NormalizeVersion | main/updater.py:28-37 | strip, split, then keep the digit parts: the result is `VersionOf(value)` |
| Updater.KeepDigitParts | main/updater.py:33-37 | the loop appends the value of every all-digit part, in order |
| Updater.DigitPartsSpec | main/updater.py:34-37 | every kept number comes from a digit part, and every digit part is kept; nothing is kept exactly when no part is all digits |
| Updater.EmptyVersion | main/updater.py:29-31 | a string of only whitespace and `v`/`V` reads as the empty tuple |
| Updater.VersionOfJoin | main/updater.py:28-37 | a version written with dots reads back as its numbers, e.g. "2.0.0" as (2, 0, 0) |
| Updater.VersionOfPrefixedJoin | main/updater.py:29-37 | a leading `v` is ignored: "v2.0.0" reads as (2, 0, 0) |
| Updater.VersionOfSuffixed | main/updater.py:32-37 | a trailing word after a separator is dropped: "1.2-beta" reads as (1, 2) |
| Updater.SplitJoin | main/updater.py:32 | splitting a dotted version on `[._-]` gives the numerals of its parts |
| Updater.NumeralsRead | main/updater.py:34-37 | keeping the digit parts of a version's decimal numerals gives back that version |
| Updater.LexLessIff | main/updater.py:54 | tuple `<` holds exactly when one tuple is a proper prefix of the other, or is smaller at the first difference |
| Updater.LexLessStrict | main/updater.py:54 | tuple order is irreflexive and asymmetric |
| Updater.LexLessTransitive | main/updater.py:54 | tuple order is transitive |
| Updater.LexLessTotal | main/updater.py:54 | two different tuples are always ordered one way or the other |
| Updater.LexLessExtension | main/updater.py:54 | a tuple is smaller than any proper extension of it |
| Updater.IsNewerVersionStrict | main/updater.py:53-54 | a version is never newer than itself, and of two versions at most one is newer |
| Updater.NewerWhenExtended | main/updater.py:53-54 | a version that adds parts to another is newer: "2.0.1" than "2.0" or "v2.0" |
| Updater.SelectBestAsset | main/updater.py:65-73 | `None` exactly when no asset matches any suffix; otherwise the first asset matching the first suffix that any asset matches |
| Updater.BestChoiceUnique | main/updater.py:65-73 | that choice of suffix and asset is unique |
| Spaces.CurrentTable | main/app.py:586-590 | the current space exists exactly when a current name is set and names a space |
| Spaces.ValidSelection | main/app.py:575-584 | the selection survives exactly when it names a row of the current space; otherwise it becomes `None` |
| Spaces.ValidSelectionIdempotent | main/app.py:575-584 | validating a selection twice is validating it once |
| Spaces.PutCurrent | main/app.py:586-590 | updating the current space in place: only that space changes; names, order and the current name stay |
| Spaces.PutCurrentRestore | main/app.py:586-590 | putting the old current space back gives back the document |
| Spaces.WithCell | main/app.py:2162-2164 | assigning one cell of a row: that cell holds the new cards, every other cell, the rows, columns and colours stay |
| Spaces.WithCellRestore | main/app.py:2162-2164 | assigning a cell its old cards gives back the space |
| Spaces.RemoveFirst | main/app.py:2163 | `list.remove` drops the first occurrence of a present element; every `list.remove` call site checks membership or finds the element with `find_card` first, so the absent case, where Python raises `ValueError`, never arises there; leaving the list unchanged in that case matches `dict.pop(name, None)` (main/app.py:1625), which `SpaceEdits.DeleteTable` models with it on the order of spaces |
| Spaces.RemoveFirstAt | main/app.py:1997 | `list.remove` cuts out the first occurrence, at its position |
| Spaces.RemoveDistinct | main/app.py:981 | removing a row name from a list of distinct names keeps them distinct and drops exactly that name |
| Spaces.RemoveFoundCard | main/app.py:1994-1997 | `list.remove` of the card `find_card` returned cuts out exactly that position, as no earlier equal card exists |
| Spaces.CardsOnlyKeepsConsistent | main/app.py:2141-2164 | an edit that changes only the cards of existing cells of the current space keeps the document consistent |
| RowEdits.EmptyCells | main/app.py:897 | the new row has an empty cell for exactly the space's columns |
| RowEdits.AddRowWellFormed | main/app.py:886-898 | adding a new row with a cell per column to a space below nine rows keeps it well formed |
| RowEdits.DropRowWellFormed | main/app.py:981-983 | dropping a row keeps the space well formed and its rows are the old ones but that row |
| RowEdits.CreateRowEntrySpec | main/app.py:876-904 | each rejection (no space, empty name, nine rows, duplicate) and its reason, in order; on success the row comes last with empty cells and its colour and is selected, while the columns, the other rows' cards and colours, the other spaces and the document's order and current space stay |
| RowEdits.CreateRowEntryConsistent | main/app.py:876-904 | creating a row keeps the document consistent |
| RowEdits.DeleteRowSpec | main/app.py:964-991 | a row is deleted exactly when the current space has it; the rows become `list.remove` of it (the rest keep their order), it leaves the cards and colours, the other rows keep their cards and colours, the columns, other spaces and the document's order and current space stay, and the selection is the old one or none, never the deleted row |
| RowEdits.CloneCells | main/app.py:1756-1758 | the copied row has a cell per destination column, holding the source's cards or none |
| RowEdits.TransferredTablesSpec | main/app.py:1754-1768 | the row is added last to the destination with its cards and colour, the destination keeps its columns and its other rows' cards and colours; a move takes it out of the source, a copy leaves the source; other spaces stay |
| RowEdits.TransferredSource | main/app.py:1763-1766 | a moved row is gone from the source's rows, cards and colours, which stays well formed |
| RowEdits.TransferredTablesWellFormed | main/app.py:1744-1768 | a transfer that passed its checks leaves every space well formed |
| RowEdits.TransferSpec | main/app.py:1719-1780 | the transfer goes ahead exactly when every check passes; the new row is selected when the destination is current, otherwise the selection is kept or cleared, and always cleared when it was the row moved out of the current source; the document stays consistent |
| CardEdits.ExtractWeightSpec | main/app.py:848-852 | the weight read is the one normalisation gives; a stored canonical card's own weight |
| CardEdits.NewWeightSpec | main/app.py:865-867 | the new weight always lies in [10, 200] (the bounds of lines 79-80), equals a bound when the sum passes it, and equals the sum when that has at most two decimals |
| CardEdits.EditCell | main/app.py:1975-1977 | replacing one cell of the current space changes only the cards of that cell |
| CardEdits.AdjustWeightSpec | main/app.py:854-867 | the weight changes exactly when the cell holds a card with that front; then only that card's weight changes, to a value in [10, 200] |
| CardEdits.AddCardSpec | main/app.py:1081-1100 | the edit goes ahead exactly when a space is current, a non-blank name was entered and the space has a column; the default card with the stripped name comes last in the row's first column, and the row is selected; a row without that cell gets a history entry and no other change |
| CardEdits.ToggleMarkSpec | main/app.py:1971-1977 | marking goes ahead exactly when the cell has a card with that front; it flips the mark of the first such card, and nothing else changes, the selection included |
| CardEdits.ToggleMarkTwice | main/app.py:1971-1977 | marking the same card twice gives back the document |
| CardEdits.DeleteCardSpec | main/app.py:1971-1984 | deleting goes ahead exactly when the cell has a card with that front; it removes exactly the first such card, the other cards keep their order, and the selection stays |
| CardEdits.RelocateFrame | main/app.py:2163-2164 | moving a card changes only the cards of the two cells; rows, columns, colours and cell names stay |
| CardEdits.RelocateSpec | main/app.py:2162-2164 | the card leaves the source, keeping the others in order, and is appended to the target; the two cells hold the same cards together |
| CardEdits.RelocateSameCell | main/app.py:1997-1998 | dropping a card onto its own cell moves it to the end of that cell |
| CardEdits.MoveCardBetweenColumnsSpec | main/app.py:2149-2164 | a move happens exactly when the cells differ, both exist and the source has the card; then the card moves, the card count of the two cells stays, and nothing else changes |
| CardEdits.DropAgreesWithMove | main/app.py:1993-1998 | dropping a picked-up card onto an existing cell moves it as `move_card_between_columns` does |
| CardEdits.DropOnMissingColumn | main/app.py:1958-1960 | dropping onto a cell missing from the card map still removes the card from its own cell; no other cell or space changes and the selection stays |
| CardEdits.SetBackSpec | main/app.py:2021-2024 | closing the editor changes only the back of the first card with that front; the selection stays |
| SpaceEdits.AddPendingSpec | main/app.py:1378-1392 | a planned row is accepted exactly when its stripped name is not empty, fewer than nine are planned and it is new; it comes last |
| SpaceEdits.RemovePendingSpec | main/app.py:1394-1402 | removing a planned row drops exactly that row and keeps the plan sound |
| SpaceEdits.AddRowsSpec | main/app.py:1438-1441 | the planned rows are appended in order, each with empty cells and its colour; rows that were there keep their cards |
| SpaceEdits.AddRowsWellFormed | main/app.py:1438-1441 | adding distinct new planned rows within the limit of nine keeps the space well formed |
| SpaceEdits.NewSpaceSpec | main/app.py:1430-1441 | a new space has `n` stage columns from "5.0" to "1.0" and the planned rows with empty cells and their colours |
| SpaceEdits.NewTableSpec | main/app.py:1413-1442 | a space is created exactly when the name and column checks pass; it is current and comes last, and the first planned row is selected |
| SpaceEdits.NewTableConsistent | main/app.py:1413-1442 | creating a space with a sound plan keeps the document consistent |
| SpaceEdits.DeleteTableSpec | main/app.py:1617-1632 | a space is deleted exactly when one was chosen and confirmed; it leaves the spaces and their order (`RemoveFirst`), the others stay; a deleted current space hands over to the first name of that remaining order, as `next(iter(...))` gives it; nothing is selected |
| SpaceEdits.DuplicateTableSpec | main/app.py:1870-1892 | a copy is made exactly when a space is current and the new name is given and free; the copy equals the original, is the only space added, comes last in the order, becomes current, and nothing is selected |
| SpaceEdits.MergeSpec | main/app.py:1510-1518 | after a merge a space is there exactly when it was or was imported; an imported one replaces an existing one only when overwriting was confirmed |
| SpaceEdits.NewNames | main/app.py:1510-1518 | the names a merge inserts: exactly the imported names not yet listed |
| SpaceEdits.MergeOrdered | main/app.py:1510-1518 | merging keeps every space named once, and with distinct imported names the order is the old order followed by the new imported names in imported order |
| SpaceEdits.MergeInsertionOrder | main/app.py:1510-1518 | with distinct imported names, the merged order is the old order followed by the new imported names in imported order, as dictionary insertion leaves it |
| SpaceEdits.ImportSaveStateSpec | main/app.py:1508-1526 | merging keeps every space not overwritten and adds every imported one after the existing ones in imported order; the imported current space becomes current when it is among the merged spaces, otherwise the current space stays; all of this whatever the unchecked imported spaces contain, and the document stays consistent when they are well formed; replacing gives the imported document; nothing is selected |
| SpaceEdits.ImportTableSpec | main/app.py:1829-1840 | a space is imported exactly when a name was given and is new or may be overwritten; it becomes current, is the only space added, comes last when new and keeps its place when overwritten; nothing is selected |
| Averages.SpaceAverageLoop | main/app.py:537-552 | the loop of one space gives `SpaceAverage`: "—" without rows, else the mean expected grade over all rows |
| Averages.RowGradeRange | main/app.py:548 | a row's expected grade is 0.0 or lies from 1.0 to 6.0 |
| Averages.GradeSumBetween | main/app.py:545-551 | the sum of the first n expected grades lies from 0 to 6n |
| Averages.GradeSumUnweighted | main/app.py:545-551 | rows without weighted cards add nothing to the sum |
| Averages.WellFormedCovered | main/app.py:543-548 | in a well-formed space every row that has cards has a cell for every column, so the loop reads no missing cell |
| Averages.SpaceAverageBetween | main/app.py:537-552 | the average is missing exactly when the space has no rows, and otherwise lies from 0.0 to 6.0 |
| Averages.SpaceAverageUnweighted | main/app.py:545-552 | rows without weighted cards are not skipped: such a space averages 0.0 |
| Averages.SpaceAverageSingle | main/app.py:545-552 | a space with one row shows that row's expected grade |
| Averages.GeneratedColumnsGraded | main/app.py:1430 | generated stage labels have grades from 1.0 to 6.0 |
| History.Push | main/app.py:370-372 | append, then drop the oldest past the bound: the newest entry is last and a bounded stack stays bounded |
| History.BoundedKept | main/app.py:368-401 | record, undo, redo, reset and every edit keep both stacks within `max_history` |
| History.RecordSpec | main/app.py:368-373 | recording puts the current state last in history, drops the oldest only when full, and clears the redo chain |
| History.NothingToUndo | main/app.py:383-395 | undo with empty history, and redo with an empty redo chain, change nothing |
| History.UndoSpec | main/app.py:383-391 | undo restores the newest history entry, removes it, and pushes the current state onto the redo chain |
| History.RedoSpec | main/app.py:393-401 | redo restores the newest redo entry, removes it, and pushes the current state onto the history |
| History.UndoRedoKeepsDocument | main/app.py:383-401 | for any stacks, redo right after an undo restores the document the undo replaced, and undo right after a redo the one the redo replaced; the selected row too when `ensure_row_selection_valid` keeps it |
| History.RedoAfterUndo | main/app.py:383-401 | redo right after undo gives back the whole state before the undo, stacks included, when the redo chain had room for one more entry and both selected rows involved are ones `ensure_row_selection_valid` keeps |
| History.UndoAfterRedo | main/app.py:383-401 | undo right after redo gives back the whole state before the redo, stacks included, when the history had room for one more entry and both selected rows involved are ones `ensure_row_selection_valid` keeps |
| History.UndoAfterCommit | main/app.py:368-391 | undo right after an edit restores the document and selection from before it |
| History.RejectedKeepsFuture | main/app.py:876-895 | a rejected edit records nothing and keeps the redo chain |
| History.AddToBinSpec | main/app.py:437-446 | the bin ends with the new copy, keeps at most the last 100 entries, and drops nothing while there is room |
| App.ErrorOf | main/app.py:876-888 | an error is reported exactly when the edit was rejected, with its reason |
| App.BuildSpace | main/app.py:1433-1441 | the loop of `new_table` builds exactly `NewSpace` from the columns, planned rows and colours |
| App.CardApp.constructor | main/app.py:78-96 | the app starts with the loaded document, no selection, empty stacks, the last 100 bin entries, and no mode on |
| App.CardApp.CaptureHistoryState | main/app.py:362-366 | the snapshot is the current document and selected row |
| App.CardApp.RecordHistory | main/app.py:368-373 | the fields become `History.Record` of the old ones; the invariant is kept |
| App.CardApp.EnsureRowSelectionValid | main/app.py:575-584 | the selection becomes `ValidSelection`, and nothing else changes |
| App.CardApp.ApplyHistoryState | main/app.py:375-381 | the snapshot's document and validated selection become current |
| App.CardApp.UndoAction | main/app.py:383-391 | the fields become `History.Undo` of the old ones |
| App.CardApp.RedoAction | main/app.py:393-401 | the fields become `History.Redo` of the old ones |
| App.CardApp.ResetHistory | main/app.py:325-327 | both stacks are emptied |
| App.CardApp.AddSnapshotToBin | main/app.py:437-446 | the bin becomes `History.AddToBin` of the old bin, and stays within 100 |
| App.CardApp.ToggleDeleteMode | main/app.py:1937-1941 | delete mode flips; switching it on switches mark mode off |
| App.CardApp.ToggleMarkMode | main/app.py:1943-1947 | mark mode flips; switching it on switches delete mode off |
| App.CardApp.CancelOperations | main/app.py:1930-1935 | delete mode ends and a picked-up card is put down |
| App.CardApp.ApplyEdit | main/app.py:893-899 | a rejected edit changes nothing; an applied one records history, then takes the new document and selection |
| App.CardApp.CreateRowEntry | main/app.py:876-904 | the fields change as `CreateRowEntry` commits; the result reports success or the reason |
| App.CardApp.DeleteRow | main/app.py:964-991 | the fields change as `DeleteRow` commits |
| App.CardApp.SubmitTransfer | main/app.py:1719-1780 | the fields change as `Transfer` commits, and the reason of a refusal is reported |
| App.CardApp.AdjustCardWeight | main/app.py:854-867 | the fields change as `AdjustWeight` commits |
| App.CardApp.AddCardToRowByName | main/app.py:1081-1100 | the fields change as `AddCard` commits |
| App.CardApp.MoveCardBetweenColumns | main/app.py:2149-2164 | the fields change as `MoveCardBetweenColumns` commits |
| App.CardApp.OnCardClick | main/app.py:1965-2001 | no change for a missing card; otherwise mark, delete (ending delete mode), pick up, or drop, each as the branch in the source; a dropped card is put down |
| App.CardApp.OnColumnClick | main/app.py:1949-1963 | a picked-up card is dropped into the clicked cell; when that cell is missing, the card leaves its cell but stays picked up |
| App.CardApp.CloseBackEditor | main/app.py:2021-2024 | the fields change as `SetBack` commits |
| App.CardApp.NewTable | main/app.py:1413-1447 | the fields change as `NewTable` commits, or without a history entry when history is skipped |
| App.CardApp.DeleteTableViaMenu | main/app.py:1617-1632 | the fields change as `DeleteTable` commits |
| App.CardApp.DuplicateCurrentTable | main/app.py:1870-1892 | the fields change as `DuplicateTable` commits, and a refusal is reported |
| App.CardApp.ImportSaveState | main/app.py:1508-1526 | the merge loop yields `ImportSaveState`, and the fields change as it commits |
| App.CardApp.ImportTableFromFile | main/app.py:1824-1840 | the fields change as `ImportTable` commits |

## Left out

- `random_pastel_color` (table/colors.py:8-16) draws random numbers and converts HSV to RGB with floats. A new row's colour is a parameter (`fallback`, `colors`).
- File I/O is left out: `save_data`, `load_data`, the bin file, and reading JSON files for import. Their effect on `self.data` is modelled; the imported document or space is a parameter.
- The time stamp of `add_snapshot_to_bin` is a parameter, and its `label` is not modelled.
- Dialogs, message boxes and prompts are left out: what the user types or chooses is a parameter (`Option` when the dialog can be cancelled). This covers `_prompt_row_name`, `_build_card_prompt`, `askstring`, the confirmations and the overwrite questions.
- App.CardApp.DeleteTableViaMenu: the `new_table(skip_history=True)` dialog that follows deleting the last space is not part of the deletion; it is `App.CardApp.NewTable` with `skipHistory`.
- `set_active_table`, `on_tree_select`, drag-and-drop pointer handling, rendering and window titles are presentation and are not modelled.
- Floating point: `real` replaces IEEE doubles, so `round(x, 2)`, `f"{v:.1f}"` and `f"{avg:.2f}"` act on the exact value. The space average is kept as a number; its two-decimal text is not modelled.
- CardEdits.NewWeightSpec: the stored weight is stated exactly only when the clamped sum already has at most two decimals; otherwise only its bounds are stated, since `round(x, 2)` on doubles is not modelled.
- Python's `float()` on text is modelled for plain decimal numerals with an optional sign and surrounding whitespace. Exponents, `inf`, `nan` and underscores are not accepted. `str.strip` removes exactly the characters of Python's `str.isspace`, non-ASCII ones included (`Text.IsSpace`).
- `str.isdigit`, `int()` and the digits `float()` reads are modelled for the ASCII digits `0`-`9` only (`Text.IsDigit`). Other Unicode digits are lost: a column count such as `"٣"` (Arabic-Indic three) passes `isdigit()` and `int()` at main/app.py:1422-1425 but `SpaceEdits.NewTableCheck` rejects it as `NotNumeric`, and a version part written in such digits is dropped by `Updater.VersionOf` instead of read. Digits such as `"²"`, for which `isdigit()` holds but `int()` raises, are rejected too.
- Ratio.CalculateRatio: a known row must have a cell for every column the loops look up. In the source a missing cell raises `KeyError`; here it is a precondition.
- Ratio.CalculateExpectedGrade: the same precondition, for the numeric columns.
- Cards inside the document are canonical records. A weight that `float()` cannot read therefore cannot reach `_extract_card_weight` or `calculate_expected_grade`. That fallback is modelled in `Cards.Normalize` and `CardEdits.ExtractWeight`.
- App.CardApp.constructor: the fix-ups of `load_data_or_create_new_table` (converting old cards, defaulting `tables` and `current_table`, opening a first space) are not modelled; the constructor takes the document they leave.
- App.CardApp.ImportSaveState: the imported data is taken as already in the model's form. The file's format checks are not modelled.
- App.CardApp.ImportTableFromFile: the same, for one imported space; `suggested_name` is part of the dialog.
- App.CardApp.CloseBackEditor: the editor of `on_card_right_click` keeps a reference to the card's dictionary. The model finds the card again by its front when the editor closes, so a card moved or renamed meanwhile is not modelled.
- Aliasing: edits are computed as new values and then assigned to the fields of `CardApp`. Two spaces or rows sharing one dictionary is not modelled; in the source an import could share them.
- Structure.LabelsDistinct: label uniqueness is proved only up to 41 columns; from 42 columns labels repeat (`Structure.LabelsCollideAt42`).
- Threads, the updater's network calls, downloads, installer launch and `sys.platform` are left out. `_pick_suffixes` is left out too: the suffix list of `select_best_asset` is a parameter.
