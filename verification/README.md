# Weekend meeting survey: slot selection and tally

A Dafny model of the survey form in `main.py`, which asks respondents when a
weekend meeting suits them. The model follows it from the ticked grid to the
aggregated heat map:

- **Catalogue.** There are four meeting days (`土 日 月 金`) and eighteen
  hour labels (`6:00` … `23:00`). The key of a cell is `day-hour`.
- **Grid scan.** The checkboxes are visited hour by hour and, within an hour,
  day by day. The keys of the ticked ones are collected.
- **Submission.** A record `[timestamp, name, feedback, keys joined by ", "]`
  is built only when at least one slot was ticked. The sheet appends it as
  its last row.
- **Decoding.** Every stored selection field is split on a comma with
  optional surrounding whitespace. Every `～` is then deleted and each
  token is stripped.
- **Tally.** `value_counts` counts each distinct token, most frequent first.
- **Matrix fill.** A zero hours×days table is filled by unpacking every
  tallied label on `-`. A label naming a catalogue day and hour writes its
  count into that cell. A label with two or more `-` makes the unpack raise,
  and the whole view then shows an error message.
- **View.** The view shows the table, the respondent count (the data rows
  below the header) and the three most frequent labels.

Modules:
- `Text`: Python's `isspace`, `strip`, `replace` and `join`, and the
  `\s*,\s*` split.
- `Catalog`: the days, the hours, cell keys and the unpack.
- `Codec`: encode and decode, and their round trip.
- `Grid`: the checkbox scan, as a method with nested loops.
- `Record`: the submission.
- `Tally`: `value_counts` and `head(3)`.
- `Heatmap`: the fill, as a method over an `array2`, and the matrix lemmas.
- `View`: the whole view as a method, and the lemmas tying submission to
  aggregation.

Behaviour of the code to note:
- An empty selection field decodes to the single empty token `""`, not to
  nothing, so the empty label is tallied.
- Cells are assigned the tally's count, not incremented per token. The
  results agree because the tally's labels are distinct (see
  `Heatmap.ValueCountsFill`).
- The code does not fix the order of labels with equal counts, so no stable
  first-occurrence tie-break is modelled. The ranking is specified up to ties
  (`Tally.IsTop`).
- Padded keys such as `土 - 6:00` are not counted. Tokens that fail to
  unpack are not dropped silently: a label with two or more `-` sends the
  whole view to its error branch.

## Model

| member | source | states |
|---|---|---|
| Catalog.HoursAreRange | main.py:93 | There are eighteen hour labels, and label `i` is `f"{6+i}:00"` (no leading zero). |
| Catalog.HoursDistinct | main.py:93 | No hour label repeats. |
| Catalog.DaysDistinct | main.py:92 | There are exactly four day labels, one character each, pairwise distinct, in the given order. |
| Catalog.DecimalRoundTrip | main.py:93 | The rendered hour number reads back as the number, so distinct hours give distinct labels. |
| Catalog.CellKeyChars | main.py:113 | A cell key is made only of day glyphs, digits, `:` and `-`. |
| Catalog.Unpack | main.py:143-144 | A label without `-` is skipped. One `-` splits it into the text on either side, neither holding `-`. Two or more `-` make the two-name unpack fail. |
| Catalog.CellKeyUnpack | main.py:143-144 | The key of cell (h, d) unpacks into exactly `days[d]` and `hours[h]`. |
| Catalog.KeysAreCells | main.py:113 | A label is the key of cell (h, d) exactly when it unpacks into a catalogue day and hour and its cell is (h, d). Keys and cells correspond one to one. |
| Catalog.CellKeyInjective | main.py:113 | Distinct cells have distinct keys, so the grid offers 18×4 distinct keys. |
| Catalog.CellKey | main.py:113 | The checkbox key `f"{day}-{hour}"` of cell (h, d). It unpacks into exactly that day and hour (`CellKeyUnpack`), distinct cells get distinct keys (`CellKeyInjective`), and its characters are key characters (`CellKeyChars`). |
| Catalog.CellOf | main.py:145-146 | A label with a catalogue day and hour addresses a cell in range, whose key is the label. |
| Catalog.IsCellKey | main.py:145 | The guard `day in days and hour in hours` after a successful unpack. `IsCellKeyIff` and `KeysAreCells` characterise it. |
| Catalog.IsCellKeyIff | main.py:145 | The guard holds of a label exactly when the label is the key of some grid cell. |
| Catalog.KeyCharsOf | main.py:145 | Every label that names a cell consists of key characters only. |
| Text.Strip | main.py:138 | `strip` yields the infix between a leading and a trailing whitespace run, itself neither starting nor ending with whitespace, so exactly those runs go. Every other character keeps its multiplicity. An already trimmed string is unchanged and an all-whitespace one becomes empty. |
| Text.StripPadded | main.py:138 | `strip` ignores whitespace padding: padding a string on either side does not change its strip. |
| Text.RemoveChar | main.py:138 | `replace("～", "")` leaves no `～` and keeps every other character with its multiplicity. A string without `～` is unchanged. |
| Text.RemoveCharConcat | main.py:138 | `replace` works piece by piece on a concatenation, so with the contract above it keeps the order of the characters it keeps. |
| Text.SplitOn | main.py:138 | The reference split `field.split(",")`: pieces without commas that, joined back with `,`, give the field. |
| Text.SplitCount | main.py:138 | The `\s*,\s*` split gives one piece more than the text has commas, and no piece holds a comma. |
| Text.SplitSeparators | main.py:138 | `re.split(r"\s*,\s*", x)` yields at least one piece. `SplitCount` gives the number of pieces and `Codec.SplitSegments` gives each piece exactly. |
| Codec.Clean | main.py:138 | A cleaned token has no `～`, and a comma-free piece becomes a token with no comma and no whitespace at either end. Every character other than `～` and whitespace keeps its multiplicity. A token with no `～` and no whitespace at either end is unchanged. |
| Codec.CleanPadded | main.py:138 | Cleaning ignores whitespace padding around a token. |
| Codec.SplitCommaPieces | main.py:138 | Splitting comma-joined, comma-free pieces on `\s*,\s*` gives one part per piece, and each part cleans to what its piece cleans to. |
| Codec.Decode | main.py:138 | A field decodes to one token more than it has commas, each token cleaned. |
| Codec.DecodeCommaPieces | main.py:138 | Any field, however spaced or decorated, decodes to the pieces of `field.split(",")`, each cleaned, in order. |
| Codec.SplitSegments | main.py:138 | The `\s*,\s*` split is `x.split(",")` with the whitespace next to every comma removed. A piece keeps its leading whitespace only if it is the first piece and its trailing whitespace only if it is the last. |
| Codec.SplitPieces | main.py:138 | The same for comma-joined, comma-free pieces: one part per piece, each trimmed only on the sides that have a comma. |
| Codec.DecodeEmpty | main.py:138 | An empty selection field decodes to the single empty token. |
| Codec.Encode | main.py:124 | `", ".join(selected_slots)`: with comma-free keys, the field holds one comma between each two keys and no other. Its inverse is `Decode` (`DecodeEncode`). |
| Codec.SplitJoin | main.py:124-138 | Splitting a `", "`-joined run of plain keys gives the keys back. |
| Codec.DecodeEncode | main.py:124-138 | Round trip: any non-empty run of plain keys, joined by `", "` and decoded, comes back as the same keys in the same order. |
| Codec.CellKeyPlain | main.py:113 | Grid keys are plain: no comma, no `～`, no whitespace. |
| Grid.ScanGrid | main.py:108-115 | The nested checkbox loop returns the keys collected over the whole grid in scan order, which form the row-major selection: every ticked grid key and only those, in strictly increasing (hour, day) order. |
| Grid.TickedBeforeScanned | main.py:108-115 | The ticked cells met before (h, d) are all in the grid and ticked, strictly increasing, and include every ticked cell before (h, d). |
| Grid.SelectionKeys | main.py:108-115 | The keys collected by the time the loop reaches (h, d) are the keys of those cells, in the same order. |
| Grid.SelectionIsRowMajor | main.py:108-115 | The keys collected over the whole grid are its row-major selection. |
| Grid.ScanCell | main.py:112-115 | Visiting a cell appends its key exactly when its checkbox is ticked, and the scanned prefix stays a row-major selection. |
| Grid.ScanRow | main.py:108-112 | Finishing an hour's row leaves the selection complete up to the start of the next row. |
| Grid.ScanDone | main.py:108-115 | After the last row the collected cells' keys are the selection of the whole grid. |
| Grid.RowMajorNoRepeats | main.py:108-115 | The selection never holds a key twice. |
| Grid.NothingTicked | main.py:122 | The selection is empty exactly when no grid checkbox is ticked. |
| Record.Submit | main.py:121-130 | A record is built exactly when the selection is non-empty (otherwise the warning). It has four fields: the timestamp, name and feedback as given, then the joined keys. |
| Record.SubmitRoundTrip | main.py:124 | The stored selection field of a grid submission decodes back to exactly the selected keys, in order. |
| Record.Append | main.py:126-127 | Inserting at `len(rows) + 1` appends the record as the last row and leaves every earlier row in place. |
| Tally.ValueCounts | main.py:139 | `value_counts` has one entry per distinct token, each with its exact count, in non-increasing order of count. |
| Tally.Distinct | main.py:139 | The distinct labels are exactly the tokens, without repeats. |
| Tally.SortDescending | main.py:139 | Sorting by count yields non-increasing counts and keeps distinct labels distinct. |
| Tally.SortKeeps | main.py:139 | Sorting keeps each label's count and the set of labels. |
| Tally.TopOfValueCounts | main.py:169-171 | The first three entries form a top-three ranking. There are at most three, with distinct labels from the tokens and exact counts, non-increasing. A label is left out only when three were kept, and only if it occurs no more often than each of them. |
| Tally.Top | main.py:169 | `counts.head(n)` is the first `min(n, len)` entries of the tally, in order. |
| Tally.CountOnce | main.py:115 | In a selection without repeats every key occurs once. |
| Heatmap.Locate | main.py:142-145 | A label addresses a cell exactly when it is a cell key, and then it unpacks into that cell's day and hour. |
| Heatmap.WriteEntry | main.py:142-145 | One fill step fails exactly on a label with two or more `-`. Otherwise only the cell whose key is the label changes, and it takes the label's count. |
| Heatmap.FillMatrix | main.py:142-146 | The fill succeeds exactly when no tallied label has two or more `-`. Each cell ends with the count of the last entry labelled with its key, before the first failing one. Every other cell keeps its value. |
| Heatmap.FirstSplitFailure | main.py:142-144 | Locates the first tallied label at which the unpack raises. |
| Heatmap.LastValueOfCounts | main.py:146 | Writing counts that are the tokens' own counts leaves a zero cell with its key's count. |
| Heatmap.ValueCountsFill | main.py:139-146 | Filling a zero table from `value_counts` yields, in each cell, the number of tokens equal to that cell's key. |
| Heatmap.SplitFailureIffToken | main.py:144 | The fill fails exactly when some decoded token has two or more `-`. |
| Heatmap.NonKeyTokenIgnored | main.py:143-145 | A token that is not a cell key leaves the count matrix unchanged. This covers tokens with no `-` and those with a day or hour outside the catalogue. |
| Heatmap.KeyTokenCounted | main.py:141-146 | One more token equal to the key of cell (h, d) adds one to that cell and to no other. |
| Heatmap.KeyTokenBumps | main.py:141-146 | The same, stated as matrix equality. |
| Heatmap.MatrixTotal | main.py:141-146 | The matrix total equals the number of tokens that are cell keys. |
| Heatmap.CellTokensBound | main.py:141-146 | That number is at most the token count. It equals the token count exactly when every token is a cell key. |
| Heatmap.TotalStep | main.py:141-146 | One more token raises the total by one when it is a cell key, otherwise by nothing. |
| Heatmap.SpacedTokenIgnored | main.py:145 | A token holding whitespace anywhere is not a cell key, so it is not counted. |
| Heatmap.PaddedKeyIgnored | main.py:145 | `土 - 6:00` is not counted. |
| View.Render | main.py:133-174 | The view fails on a column mismatch exactly when the data rows do not fit the four columns. Otherwise it fails exactly when a token has two or more `-`. When shown, every cell holds its key's token count, respondents are the data rows, and the top list is a top-three ranking. |
| View.DrawTable | main.py:141-146 | The zero table filled from the tally either fails as the fill does or is read out with the filled cells. |
| View.TallyCells | main.py:139-146 | Every cell written from the tally holds its key's token count. |
| View.DataRows | main.py:136 | The data rows are all stored rows after the header, in order; there are none without a header. |
| View.FitsColumns | main.py:136 | The frame takes the rows under its four column names exactly when no row is longer than four and some row is exactly four, or there are no rows. It is defined through the frame width, the longest row. |
| View.RowTokens | main.py:138 | `dropna` drops a row whose selection field is missing. A full row contributes its field split on `,`, each piece cleaned, in order. |
| View.Tokens | main.py:138 | The exploded column: every token comes from some data row, and every token of every data row is in it. |
| View.SubmissionTokens | main.py:124-138 | A stored grid submission adds one respondent, keeps the rows fitting, and adds exactly its selected keys to the tokens. |
| View.SubmissionCounted | main.py:121-146 | After a grid submission each selected cell's count grows by one and every other cell's stays. |
| View.FirstSubmissionIsHeader | main.py:126-136 | The first record stored in an empty sheet becomes the header. It counts as no respondent and adds no token. |
| View.EmptySelectionCounted | main.py:138-139 | A row with an empty selection field contributes one empty token, which the tally counts. |

## Left out

- The Streamlit page is not modelled: title, markdown, CSS, widgets, success and warning messages. The checkbox states are the input `ticked`, the set of widget keys whose box is checked.
- Font discovery on the filesystem is not modelled.
- Credential loading and spreadsheet authorisation are not modelled. The stored rows are the input `rows`, the data `get_all_values` would return. The append is the function `Append`.
- The branch where no sheet is connected is not modelled. There the record is built but not stored, and no view is drawn.
- The clock is not modelled: the timestamp is a parameter of `Submit`.
- The matplotlib/seaborn drawing and the text formatting of the respondent count and of the top list are not modelled. The view returns the values they display.
- Failures of the spreadsheet service itself are not modelled. The only error-branch causes modelled are the column mismatch and the failed unpack.
- The sheet's own interpretation of values written with `USER_ENTERED` is not modelled. The rows read back are taken to hold the text written.
- View.FitsColumns: pandas itself is not modelled. Its shape rule is stated through the frame width, the longest row, which must be four. Shorter rows are padded with missing values, which `dropna` removes. Error messages are not modelled.
- View.Tokens: its contract states which tokens occur, not the order `explode` gives them. The tally only counts tokens, so order does not change it. The definition keeps row order, and `SubmissionTokens` states it for an appended row.
- Tally.ValueCounts: it fixes one order among labels with equal counts. The source does not fix one, so every property is stated through `IsValueCounts` and `IsTop`, which allow any tie order.
- Text.IsSpace: it covers the characters `str.isspace()` accepts, which the regex class `\s` also matches on text patterns. The Unicode database itself is not consulted.
