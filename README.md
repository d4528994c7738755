# publish_sheet: a verified model of the spreadsheet publisher

`publish_sheet.py` reads the "Edges" worksheet of a betting workbook and writes its
rows to a CSV file. It works in these steps:

1. It finds the header row: the first row among rows 1..25 whose column-A text
   normalises to `event#` or `event`, and row 1 when none does.
2. It reads the labels of columns A..K. An empty label becomes `Col<c>`.
3. It disambiguates repeated labels: the k-th repeat of `X` becomes `X.k`.
4. It reads the rows below the header, stopping at the first row whose column A is
   `None` or `""`, or after 300 rows.
5. It turns each row into a dictionary from column name to cell value.
6. It picks the wager column (the 11th name) and the pick column: `Market.1`, else
   the last column whose lower-cased name starts with `market`, else none.
7. It builds the pipe-delimited tracking payload of every row:
   `ALC|EVT:…|DT:…|V:…|H:…|M:…|OD:…|P:…|WIN:…|EDGE:…|PICK:…|WAGER:$…`.

The model follows the program's own structure, one module per concern:

- `Text`: Python's `str.strip`, `lower`, `replace(" ", "")` and `str()` of integers.
- `Cells`: cell values, the helper `s`, blankness and truthiness.
- `Header`: `find_header_row` and the header-label loop.
- `Dedup`: `make_unique`.
- `Rows`: the row loop and the row dictionaries.
- `Payload`: `build_qr`.
- `Publisher`: the data-frame columns, the pick and wager columns, and the whole
  pipeline `Publish`.

Each loop of the source is a Dafny method proved against a specification function:

- `LocateHeaderRow` against `FindHeaderRow`;
- `ReadHeaders` against `HeaderLabels`;
- `MakeUnique` against `Labels`, which `LabelsAreUniqueLabels` shows equal to `UniqueLabels`;
- `ReadRow` against `RowRecord`;
- `ExtractRows` against `Records` and `DataRowCount`.

The properties are proved as lemmas about those functions.

A worksheet is a total function from (row, column) to a cell value, since reading an
empty cell gives `None`.

The code can produce repeated column names. One might expect `make_unique` to return
unique column names, but it does not check its generated names against labels that
already exist.
`["A", "A", "A.1"]` becomes `["A", "A.1", "A.1"]` (`Dedup.CollisionExample`). The
model follows the code. Uniqueness is proved only for labels that do not already end
in `.digits` (`Dedup.UniqueWithoutNumericSuffix`).

Two more places where one might expect something else from the code:

- One might expect a single market column to be picked. The pick column falls back
  to the *last* market column.
- One might expect the wager column to be found by name. It is always the 11th name,
  never a column named `Wager`.

## Model

| member | source | states |
|---|---|---|
| `Text.StripStart` | publish_sheet.py:22 | The first half of `.strip()`: the result is no longer than the input and does not start with whitespace |
| `Text.StripEnd` | publish_sheet.py:22 | The second half of `.strip()`: the result is no longer than the input and does not end with whitespace |
| `Text.Strip` | publish_sheet.py:22 | The result has no whitespace (Python `str.isspace`) at either end and is no longer than the input |
| `Text.StripSlice` | publish_sheet.py:22 | The stripped text is one contiguous slice of the input, and everything cut from both ends is whitespace |
| `Text.StripTrimmed` | publish_sheet.py:22 | Stripping text that has no whitespace at its ends changes nothing |
| `Text.LowerChar` | publish_sheet.py:29 | `.lower()` of one character never yields 'A'..'Z'. A letter 'a'..'z' comes from itself, from its capital, or ('k') from U+212A KELVIN SIGN; U+212A always becomes 'k'; every other character is kept |
| `Text.Lower` | publish_sheet.py:29 | `.lower()` maps each character to one character, so the length is kept |
| `Text.LowerKeeps` | publish_sheet.py:29 | `.lower()` leaves no 'A'..'Z' in the result. Every character other than 'A'..'Z' and U+212A is kept in place |
| `Text.RemoveSpaces` | publish_sheet.py:29 | `.replace(" ", "")` leaves no space and never lengthens the text. Text without spaces is returned unchanged, and a single space becomes the empty string |
| `Text.RemoveSpacesAppend` | publish_sheet.py:29 | Removing spaces from a concatenation removes them from each part. With the single-character cases that `RemoveSpaces` ensures (a lone space gives "", a lone non-space is kept), every space is deleted and every other character kept, in order |
| `Text.NatToString` | publish_sheet.py:44 | The decimal rendering of a count is non-empty and all digits, with one digit exactly for 0..9 and no leading zero except for 0 itself |
| `Text.NatToStringRoundTrip` | publish_sheet.py:44 | Reading back the rendered repeat count gives the count |
| `Text.NatToStringInjective` | publish_sheet.py:44 | Different repeat counts render as different suffixes |
| `Text.IntToString` | publish_sheet.py:22 | `str()` of an integer cell is non-empty, made of '-' and digits, with no whitespace at its ends. For i >= 0 it is digits reading back as i, starting with '0' only for 0; for i < 0 it is '-' followed by digits reading back as -i, with no leading zero |
| `Cells.Repr` | publish_sheet.py:22 | `str(x)` of a non-None value: the text itself, or `IntToString` of a number. `Cells.S` states what the helper `s` makes of it |
| `Cells.S` | publish_sheet.py:21-22 | `s(None)` is ""; any other value gives the stripped text of `str(x)`; the result never has edge whitespace; an integer's text is kept whole |
| `Cells.Truthy` | publish_sheet.py:111 | Python truthiness of a cell value: `None`, `""` and 0 are false, everything else true. `Cells.Or` and `Payload.EventValue` state the `or` chain built on it |
| `Cells.Or` | publish_sheet.py:111 | Python `a or b`: `a` when it is truthy, otherwise `b` |
| `Cells.IsBlank` | publish_sheet.py:77 | The test `a in (None, "")`: only a missing value or the empty string is blank, so whitespace-only text and 0 are not. `Rows.DataRowCount` states the stop rule built on it |
| `Header.Normalize` | publish_sheet.py:29 | `v.strip().lower().replace(" ", "")`, in that order. `Header.HeaderTokenExample` shows case and an inner space ignored |
| `Header.IsHeaderCell` | publish_sheet.py:28-30 | A column-A value is a header cell exactly when it is text and normalises to "event#" or "event". `Header.HeaderTokenExample` and `Header.NotHeaderTokenExample` pin it down on sample cells |
| `Header.FindFrom` | publish_sheet.py:26-32 | The scan from row r gives the first row in r..maxScan that passes the test, with none before it, or 1 when none passes |
| `Header.FindHeaderRow` | publish_sheet.py:24-32 | The header row is in 1..maxScan (when maxScan >= 1). It is either the first row whose column A is a header token, or 1 when no row in 1..maxScan is |
| `Header.FindHeaderRowReadsColumnA` | publish_sheet.py:26-27 | Two sheets that agree on column A of rows 1..maxScan give the same header row |
| `Header.LocateHeaderRow` | publish_sheet.py:26-32 | The scanning loop with its early return gives exactly `FindHeaderRow` |
| `Header.HeaderTokenExample` | publish_sheet.py:25-30 | "EVENT#", "Event" and "Event #" are header tokens: case and the space inside "Event #" are ignored |
| `Header.SpacedTokenNormalizes` | publish_sheet.py:25-29 | The token as the sheet writes it, "Event #", normalises to "event#": the inner space is removed after stripping and lower-casing |
| `Header.NotHeaderTokenExample` | publish_sheet.py:28-30 | "Events" is not a header token, and neither is a number |
| `Header.HeaderLabel` | publish_sheet.py:67 | A label is never empty and has no edge whitespace. It is the cell's text when that is non-empty, else `Col<c>` |
| `Header.HeaderLabels` | publish_sheet.py:65-67 | The header row gives exactly LAST_COL = 11 labels, the c-th from column c |
| `Header.ReadHeaders` | publish_sheet.py:64-67 | The header loop yields `HeaderLabels`: 11 non-empty, trimmed labels in column order |
| `Dedup.Base` | publish_sheet.py:38 | The base of a header is never empty; it is the header itself unless the header is empty |
| `Dedup.CountBase` | publish_sheet.py:39-43 | The number of earlier headers with a given base, which is the repeat number `seen` tracks. It never exceeds the number of headers |
| `Dedup.UniqueLabel` | publish_sheet.py:37-44 | Every output label starts with the base of its input label |
| `Dedup.UniqueLabels` | publish_sheet.py:34-45 | The reference output of `make_unique`: one label per header, in order, each the `UniqueLabel` of its position |
| `Dedup.SeenAfter` | publish_sheet.py:35-43 | The `seen` dictionary after a prefix of the headers, built one header at a time as the loop does. `Dedup.SeenAfterCounts` characterises it by occurrence counts |
| `Dedup.SeenAfterCounts` | publish_sheet.py:35-43 | After a prefix of the headers, `seen` holds a base exactly when the base occurred, and its value is one less than the number of occurrences |
| `Dedup.Renamed` | publish_sheet.py:38-44 | The label appended for a header starts with its base |
| `Dedup.Labels` | publish_sheet.py:36-44 | The output accumulated by the loop, one label appended per header, has exactly one label per header |
| `Dedup.NextLabel` | publish_sheet.py:37-44 | One iteration appends exactly the label the position-by-position description gives |
| `Dedup.LabelsSnoc` | publish_sheet.py:37-44 | One more header: the loop's output grows by exactly the position-by-position label of the new index |
| `Dedup.UniqueLabelsSnoc` | publish_sheet.py:36-44 | One more header: the position-by-position output grows by the label of the new index and keeps the earlier labels |
| `Dedup.LabelsAreUniqueLabels` | publish_sheet.py:36-45 | The label list built one header at a time agrees with the position-by-position description |
| `Dedup.MakeUnique` | publish_sheet.py:34-45 | The loop keeps its `seen` dictionary in step with the occurrence counts. It returns one label per input: the base at its first occurrence, `base.k` at its k-th repeat |
| `Dedup.CountBaseZero` | publish_sheet.py:39 | A base has count zero exactly when no header so far has that base (the `base not in seen` test) |
| `Dedup.CountBaseGrows` | publish_sheet.py:43 | A later occurrence of a base has strictly more earlier occurrences, so repeat numbers grow |
| `Dedup.UniqueLabelsPrefix` | publish_sheet.py:36-44 | The output keeps the input order: deduplicating a prefix gives the prefix of the output |
| `Dedup.FirstOccurrenceKept` | publish_sheet.py:39-41 | A label is kept unchanged exactly when no earlier header has the same base |
| `Dedup.MarketExample` | publish_sheet.py:34-45 | `["Market","Odds","Market"]` becomes `["Market","Odds","Market.1"]` |
| `Dedup.CollisionExample` | publish_sheet.py:42-44 | `["A","A","A.1"]` becomes `["A","A.1","A.1"]`: the output is not unique in general |
| `Dedup.UniqueWithoutNumericSuffix` | publish_sheet.py:34-45 | When no input label ends in `.digits`, the output labels are pairwise distinct |
| `Rows.DataRowCount` | publish_sheet.py:75-79 | The number of rows read is at most the cap. Every row read has a non-blank column A, and the row after them is blank unless the cap was hit |
| `Rows.DataRowCountUnique` | publish_sheet.py:75-79 | Those three conditions single out the row count |
| `Rows.DataRowCountReadsPrefix` | publish_sheet.py:76-77 | The stop condition looks only at column A of the rows read and of the row that stopped the scan |
| `Rows.LastIndex` | publish_sheet.py:83 | The position found holds the name, and no later column has that name |
| `Rows.RowRecord` | publish_sheet.py:81-83 | The row dictionary, built by assigning `cols[c - 1]` for c = 1..|cols| in order. `Rows.RowRecordKeys`, `Rows.RowRecordLookup` and `Rows.RowRecordDistinct` state its keys and values |
| `Rows.RowRecordKeys` | publish_sheet.py:81-83 | The keys of a row dictionary are exactly the column names |
| `Rows.RowRecordLookup` | publish_sheet.py:82-83 | A later assignment to the same key wins: each name maps to the cell of the last column carrying it |
| `Rows.RowRecordDistinct` | publish_sheet.py:81-83 | With distinct names, the name of column c maps to the cell (r, c) |
| `Rows.RowRecordReadsSpan` | publish_sheet.py:82-83 | A row dictionary depends only on columns 1..LAST_COL of its row |
| `Rows.ReadRow` | publish_sheet.py:81-84 | The inner loop builds exactly `RowRecord` |
| `Rows.Records` | publish_sheet.py:84 | n consecutive rows give n records |
| `Rows.RecordsAt` | publish_sheet.py:73-84 | Record i is the dictionary of sheet row start + i: rows are kept in order, none skipped or repeated |
| `Rows.DataRows` | publish_sheet.py:72-84 | The rows read below the header are as many as `DataRowCount` gives |
| `Rows.ExtractRows` | publish_sheet.py:72-84 | The row loop yields the records of the consecutive non-blank rows below the header, at most MAX_ROWS = 300 of them |
| `Payload.Get` | publish_sheet.py:111-121 | `dict.get`: the stored value for a present key, `None` for a missing one |
| `Payload.EventValue` | publish_sheet.py:111 | The event value is the first truthy one of 'Event #', 'Event#', 'Event', and otherwise whatever 'Event' holds |
| `Payload.Fields` | publish_sheet.py:111-121 | There is one field value per tag |
| `Payload.Render` | publish_sheet.py:110-122 | The f-string of `build_qr` over the eleven field values. `Payload.RenderIsTaggedPrefix` and `Payload.PayloadSegments` state its layout and how it splits back |
| `Payload.BuildQr` | publish_sheet.py:109-122 | Every payload starts with the prefix `ALC`, a bar separator and `EVT:` |
| `Payload.Split` | publish_sheet.py:110-122 | Splitting on the payload's bar separator gives at least one piece |
| `Payload.SplitNoBar` | publish_sheet.py:110-122 | A field without a bar separator stays one piece |
| `Payload.SplitAround` | publish_sheet.py:110-122 | Splitting around one separator splits each side separately |
| `Payload.SplitTaggedPrefix` | publish_sheet.py:110-122 | Joined tagged segments split back into "ALC" and the segments, when no value holds a bar |
| `Payload.RenderIsTaggedPrefix` | publish_sheet.py:110-122 | The f-string is "ALC" followed by a bar and `TAG:value` for each of the 11 tags, in their fixed order |
| `Payload.PayloadSegments` | publish_sheet.py:109-122 | When no value contains a bar separator, the payload splits into exactly 12 pieces: "ALC", then EVT, DT, V, H, M, OD, P, WIN, EDGE, PICK and WAGER, each as `TAG:value`. PICK's value is empty without a pick column, and WAGER's value starts with '$' |
| `Payload.EmptyRowPayload` | publish_sheet.py:109-122 | Missing values leave their tags in place with empty values: every tag is followed directly by the next separator, and WAGER by a bare '$' |
| `Publisher.FirstIndex` | publish_sheet.py:89 | The position where a name first appears among the record keys: it holds the name and no earlier position does |
| `Publisher.Distinct` | publish_sheet.py:89 | The data-frame column names are the names of the records, each exactly once, ordered by where each first appears |
| `Publisher.DistinctSnoc` | publish_sheet.py:89 | One more column: a new name is added last, while a repeated name keeps its first position |
| `Publisher.DistinctKeepsDistinct` | publish_sheet.py:89 | Names that are already distinct become the frame columns unchanged, in order |
| `Publisher.FrameColumns` | publish_sheet.py:89 | With no rows the frame has no columns. Otherwise it has exactly the record names, without repeats, in order of first appearance |
| `Publisher.IsMarket` | publish_sheet.py:98 | The market test on a column name, on its first six characters. `Publisher.IsMarketLower` shows it equal to `c.lower().startswith("market")` |
| `Publisher.IsMarketLower` | publish_sheet.py:98 | The market test is `c.lower().startswith("market")` |
| `Publisher.MarketOneIsMarket` | publish_sheet.py:98-100 | "Market.1" is itself a market column |
| `Publisher.MarketColumns` | publish_sheet.py:98 | `market_cols` holds exactly the frame columns whose lower-cased name starts with "market" |
| `Publisher.LastMarketIndex` | publish_sheet.py:98-102 | The position of a market column with no market column after it, or -1 when there is none |
| `Publisher.LastMarketColumn` | publish_sheet.py:101-102 | `market_cols[-1]` is the last market column of the frame; `market_cols` is empty exactly when there is none |
| `Publisher.PickColumn` | publish_sheet.py:96-104 | The pick is "Market.1" whenever the frame has it. A non-empty pick is a market column of the frame; the pick is "" exactly when the frame has no market column |
| `Publisher.PickIsLastMarket` | publish_sheet.py:99-104 | Without "Market.1", the pick is the last market column, or "" when there is none |
| `Publisher.RepeatedNamesFrame` | publish_sheet.py:89 | For distinct names a, b, c, the record names `a, b, c, b` (a repeat that `make_unique` can produce) give the frame columns `a, b, c`: the repeat keeps its first position |
| `Publisher.RepeatedNamesPick` | publish_sheet.py:96-104 | For the frame `MarketA, MarketA.1, MarketB`, which the names `MarketA, MarketA.1, MarketB, MarketA.1` give, the pick is `MarketB`, the last market column |
| `Publisher.Payloads` | publish_sheet.py:124 | One payload per row, in row order, each `build_qr` of its row |
| `Publisher.Publish` | publish_sheet.py:60-124 | The pipeline computes the header row, the column names and the rows as the specification functions do. The wager column is the 11th name and the pick follows the pick rule. Every payload is `build_qr` of its row and starts with the `ALC` prefix and the EVT tag. There are at most 300 rows, and there is no pick without rows |
| `Publisher.FrameKeepsDistinctColumns` | publish_sheet.py:89-99 | When labels carry no `.digits` suffix and there is a row, the frame columns are exactly the deduplicated labels |

## Left out

- Opening the workbook and the error for a missing "Edges" sheet (lines 55-58). The model takes the worksheet as a function from (row, column) to a cell value.
- Printing and timing (lines 48-51, 62, 70, 78, 86-87, 90, 94, 106, 129-130), including the progress message every 250 rows.
- Writing the CSV and creating its directory (lines 126-127). The "QR Code" column is modelled as the sequence `payloads` next to the rows, not as an added dictionary key.
- pandas' conversion of the row dictionaries into a DataFrame and back (`row.to_dict()`, line 124). The model applies `build_qr` to each record as built. Records all have the same keys, so no value goes missing. dtype coercion (integers turned into floats, NaN) is not modelled.
- Cell values other than empty, text and whole numbers: floats, dates and booleans. The formatting `str()` gives them is not modelled. The workbook is opened without cached values, so a formula cell reads as its formula text (such as `=B2*C2`). That text is an ordinary text cell here. It goes into the record and the payload, and in column A it never counts as blank. Formula values that are not text (array and data-table formula objects) are not modelled.
- `Text.Lower`: models only the case mappings that produce an ASCII character. These are 'A'..'Z' and U+212A KELVIN SIGN, which becomes 'k'. No other mapping of `str.lower` can produce a character of "event#" or "market". A mapping that lengthens the text (U+0130 becomes "i" plus a combining dot) yields an 'i', which neither token contains. So the header and market tests decide exactly as Python does.
- `Payload.PayloadSegments`: stated only for field values without '|'. A value containing the separator adds pieces to the split, as it does in Python.
- streamlit_app.py is not part of this model. It is the display application that reads the CSV.
