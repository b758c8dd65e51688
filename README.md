# Rilsa map: the data pipeline of the property map

`streamlit_app.py` reads a property-portfolio sheet and draws its buildings on a map of
Switzerland. This project models the part of that script that decides WHAT is drawn, and
proves properties of it. That part covers these steps:

- Clean the sheet.
  - Drop the rows of the support account.
  - Coerce `Référence` to a number and classify it into a `Type`.
  - Group managers into regional offices.
- Offer and apply the sidebar filters, each with its built-in "Tout" option.
- Build a postal address per row, or stop when a column is missing or no row is left.
- Complete missing coordinates.
  - First, from coordinate CSVs merged on the address or on the reference.
  - Then, from a geocoder queried for a capped work list of addresses.
- Keep the rows that have both coordinates.
- Colour each point from a ten-entry palette keyed by the sorted distinct values of the
  colour column.

Modules:

- `Portfolio`: the rows. A cell holds the text pandas' `astype(str)` gives it. A null cell is
  `None`, and its text is "nan".
- `Classify`: `classify_type_from_ref` and `compute_gerant_group`.
- `Selection`: the preprocessing, the "Tout" multiselect and the two sidebar filters.
- `Address`: the address column and the checks that stop the script before it.
- `Coordinates`: the CSV merges, the geocoding work list, the geocoding batch and the
  write-back, and the plotted rows.
- `Colors`: `PALETTE` and `assign_colors`.
- `Text`: the Python string operations these rely on:
  - `str.strip()` with Python's whitespace set;
  - the digit extraction and numeric coercion of `Référence`;
  - Python's code-point order used by `sorted`.
- `Seqs`: the row selections, which keep order:
  - boolean masks;
  - `unique()`;
  - `[:n]`.

Two kinds of step are modelled differently:

- Steps that change the table in place are methods over an `array<Row>`, proved against
  per-row functions:
  - the CSV merge with `fillna`;
  - the geocode write-back with `.loc`;
  - the colour assignment.
- The geocoding batch (`Coordinates.GeocodeBatch`) is a method whose loop fills a map from
  address to coordinates, one address at a time.
- Everything else is a function over sequences.

The geocoder, the sheet, the CSV files and the widgets are outside the model. The script's
reads of them enter as parameters:

- the rows;
- which columns are present;
- the ticked options;
- the work-list cap `limit`, set by the slider;
- the CSV's rows as a map from join key to coordinates;
- the per-address geocoding function.

## Model

| member | source | states |
|---|---|---|
| Classify.ClassifyTypeFromRef | streamlit_app.py:87-98 | A missing reference is "Inconnu". 100000-499000 is "Immeuble", 500000-599000 is "Lot isolé" and 800000-950000 is "PPE", each range inclusive. Every other number is "Autre". Each label holds exactly when its condition holds. |
| Classify.ComputeGerantGroup | streamlit_app.py:100-108 | A null name has no group. A name that strips to one of the two Nyon managers is "Nyon", and one of the two Montreux managers is "Montreux". Any other name stands for itself, stripped. A group never has edge whitespace. |
| Classify.GroupNamesAreFixedPoints | streamlit_app.py:104-107 | The office names are already stripped and are not manager names. |
| Classify.GerantGroupIdempotent | streamlit_app.py:100-108 | Grouping a group name again returns it unchanged. |
| Text.Strip | streamlit_app.py:103 | `str.strip()`: the result is the text with a run of whitespace cut from each end, and has no whitespace at either edge. A text with no edge whitespace is unchanged. The result is empty exactly when the text is all whitespace. |
| Text.StripDeterminedByContract | streamlit_app.py:103 | Any text cut from the input at whitespace, with no whitespace at its own edges, is the stripped text. So Strip's contract leaves exactly one result. |
| Text.StripIdempotent | streamlit_app.py:103 | Stripping twice is stripping once. |
| Text.DigitsOnly | streamlit_app.py:184 | Removing every non-digit keeps the digits in their order. It keeps each digit's number of occurrences and drops every non-digit. |
| Text.ParseReference | streamlit_app.py:184 | The coerced reference is null exactly when the text has no digit. Otherwise it is a non-negative number. |
| Text.ParseReferenceOfDecimal | streamlit_app.py:184 | A number written in decimal coerces back to itself. |
| Text.ParseReferenceOfPaddedDecimal | streamlit_app.py:184 | Leading zeros do not change the coerced reference: any number of zeros followed by the decimal text of n coerces to n. |
| Text.ParseReferenceIgnoresNonDigit | streamlit_app.py:184 | Inserting a non-digit anywhere (`108'500`, `108 500`) does not change the coerced reference. |
| Text.LexLessTransitive | streamlit_app.py:203 | Python's string order, used by `sorted`, is transitive. |
| Text.LexLessTotal | streamlit_app.py:203 | For any two strings, either they are equal or one is less than the other. |
| Text.LexLessIrreflexive | streamlit_app.py:203 | No string is less than itself. |
| Text.SortedDistinct | streamlit_app.py:79 | `sorted(set(...))`: the result is strictly increasing and holds exactly the values of the input. |
| Text.StrictlySortedUnique | streamlit_app.py:79 | Two strictly increasing sequences with the same elements are equal, so the sorted keys depend only on the set of values. |
| Seqs.Filter | streamlit_app.py:180 | A boolean mask keeps exactly the rows that pass it: every kept row passes, and every passing row is kept. |
| Seqs.FilterIsSubseq | streamlit_app.py:180 | A mask deletes rows without reordering the rest. |
| Seqs.FilterCounts | streamlit_app.py:180 | A mask keeps every copy of a passing row and no copy of a failing one. |
| Seqs.FilterKeepsAll | streamlit_app.py:63 | A mask that every element passes removes nothing. |
| Seqs.FilterAppend | streamlit_app.py:184 | Filtering distributes over concatenation. |
| Seqs.Dedup | streamlit_app.py:336 | `unique()`: no duplicates, the same values as the input, each value ordered by its first occurrence. |
| Seqs.Take | streamlit_app.py:336 | `[:limit]`: the first `min(limit, length)` elements. |
| Selection.ChooseSelection | streamlit_app.py:57-65 | When "Tout" is ticked, every option is chosen. Otherwise the ticked entries are chosen as they are. "Tout" is chosen only when it is itself an option. |
| Selection.RemoveSupportUser | streamlit_app.py:178-180 | Removes exactly the rows whose stripped Gérant is "REM4you (Support User)". Every other row is kept, with its multiplicity and in its order. |
| Selection.PrepareRow | streamlit_app.py:179-191 | With a Gérant column, Gérant becomes its text, and the group is `ComputeGerantGroup` of that text. With a Référence column, the reference is coerced and Type is `ClassifyTypeFromRef` of it. Without a column, the derived cells are absent. The other cells are copied. |
| Selection.Preprocess | streamlit_app.py:178-191 | Support rows are removed only when there is a Gérant column, and no remaining row belongs to the support account. Every remaining row is prepared, in order. |
| Selection.PrepareAll | streamlit_app.py:184-191 | The column-wise `apply`: one prepared row per row, in order. |
| Selection.SupportUserStaysOut | streamlit_app.py:179-180 | Preparing a row keeps the Gérant text the support filter examined. |
| Selection.Present | streamlit_app.py:203 | `dropna()`: the set of non-null values, in both directions. That set is all `SortedDistinct` uses. |
| Selection.FilterOptions | streamlit_app.py:203 | The filter options are strictly sorted and duplicate-free, and hold exactly the column's non-null values. |
| Selection.SidebarSelections | streamlit_app.py:201-214 | A filter exists exactly when its column does. With "Tout" ticked, the selection is exactly that column's sorted distinct non-null values, so every Gérant or Type value in the table is selectable. Otherwise the ticked entries are taken as they are. |
| Selection.ToutKeepsEveryRow | streamlit_app.py:57-65 | With "Tout" ticked in both filters, as when the page opens, the filtered table is the whole table. |
| Selection.ApplyFilters | streamlit_app.py:217-221 | The filtered rows keep their order. They are exactly the rows whose Gérant text is chosen (when the manager filter exists) and whose Type text is chosen (when the type filter exists), each with its multiplicity. |
| Selection.FilterTwice | streamlit_app.py:218-221 | The manager mask followed by the type mask keeps order, keeps every copy of a row that passes both filters and none of a row that fails either, and every row it keeps passes both. |
| Address.JoinAddress | streamlit_app.py:238-243 | The address is "D, N L, C, Suisse" for all field texts: its length is the sum of the field lengths plus 13, and each field sits at its own position: D at the start, then ", ", N, a space, L, ", ", C, and ", Suisse" at the end. |
| Address.BuildAddress | streamlit_app.py:238-243 | A row's address is the joined address of its four stripped fields, each null field read as "nan". So it starts with the stripped Désignation and ", ", and ends with ", Suisse". |
| Address.JoinAddressSplits | streamlit_app.py:238-243 | When no field holds a comma, splitting the address at commas gives back the designation, " NPA Lieu", " Canton" and " Suisse". |
| Address.AddressSplitsIntoFields | streamlit_app.py:238-243 | The same round trip, stated on a row's stripped fields. |
| Address.MissingColumns | streamlit_app.py:229-230 | The missing columns are exactly the required ones absent from the table, in the required order. |
| Address.AddAddresses | streamlit_app.py:229-243 | The step succeeds exactly when all four columns are present and a row is left. A missing column is reported, with the missing columns, before an empty table. With every column present and no row left, the step stops with the no-rows halt. On success every row gains its address and nothing else changes. |
| Coordinates.ChooseJoin | streamlit_app.py:257-267 | The CSV is joined on the address when it has address, latitude and longitude. It is joined on the reference only when it lacks those and has reference, latitude and longitude, and the table has a Référence column. |
| Coordinates.Filled | streamlit_app.py:258-265 | `fillna` after the left merge: a present coordinate is kept. A null one takes the CSV's value for the row's key, which is null when the key is absent. No other cell changes. |
| Coordinates.FilledIdempotent | streamlit_app.py:296-305 | Merging the same CSV again (the uploaded CSV after the default one) changes nothing. |
| Coordinates.MergeCoordinates | streamlit_app.py:257-276 | Reports a merge exactly when a join is possible. After a merge, every row is the filled version of its old value. Otherwise the table is unchanged. |
| Coordinates.PendingAddresses | streamlit_app.py:327-336 | Entry i is the address of the i-th row selected by the mask "has an address and lacks a coordinate", so the entries follow row order, with repeats. It holds exactly the addresses of those rows. |
| Coordinates.WorkList | streamlit_app.py:336 | At most `limit` addresses, with no duplicates, all pending, in order of first occurrence. A pending address left out means the cap was reached and every queued address occurs first. |
| Coordinates.PairOf | streamlit_app.py:126-132 | A found location gives both coordinates. A failed lookup gives `(None, None)`. |
| Coordinates.GeocodeBatch | streamlit_app.py:135-142 | The result has an entry for exactly the given addresses, and each entry is the geocoder's answer for its address. |
| Coordinates.GeocodedAsWritten | streamlit_app.py:349-351 | As written: a row whose address has an answer takes both coordinates from it, even when it already had them. A row without an answer is unchanged, and no other cell changes. |
| Coordinates.Geocoded | streamlit_app.py:349-351 | Corrected: only missing coordinates take the answer. A row without an answer is unchanged. No other cell changes. |
| Coordinates.AsWrittenErasesKnownCoordinates | streamlit_app.py:327-351 | A row that already has coordinates shares its address with a row that lacks them. The as-written write-back erases the first row's coordinates when the lookup fails. The corrected one keeps them. |
| Coordinates.ApplyGeocodes | streamlit_app.py:349-351 | Every row becomes its corrected geocoded version. |
| Coordinates.PlottedRows | streamlit_app.py:357 | Exactly the rows with both coordinates, in order, each with its multiplicity. |
| Colors.ChooseColorKey | streamlit_app.py:360 | The points are coloured by "Gérant group" when the table has it, else by "Gérant", else by nothing. |
| Colors.ColorMap | streamlit_app.py:80 | The i-th sorted key gets palette entry `i mod 10`, with the alpha channel appended. The map has exactly the keys. Every colour has four channels with the alpha last. |
| Colors.AssignColors | streamlit_app.py:75-82 | `alpha` is a parameter; line 361 passes the default 120. Without a colour key, every point takes `[0, 0, 200, alpha]` and the legend is empty. Otherwise the keys are the sorted distinct key texts, the map is the palette map, and every row takes the colour of its key. No other cell changes. |
| Colors.PaintAll | streamlit_app.py:77 | Every row takes the same colour, and no other cell changes. |
| Colors.PaintByKey | streamlit_app.py:81 | Every row takes the colour of its key text, and no other cell changes. |
| Colors.SameValuesSameKeys | streamlit_app.py:79-80 | Two colour columns with the same set of values get the same legend keys. |
| Colors.ColorsIndependentOfRowOrder | streamlit_app.py:79-80 | Reordering the rows does not change the legend or the colour map. |
| Colors.KeyTextsFollowRows | streamlit_app.py:79 | Rows that are a permutation of each other have the same key texts. |

## Left out

- The Streamlit page is not modelled: layout, CSS, widgets, messages, the map drawing, tooltips and the CSV download. Only the values the widgets return enter the model, as parameters.
- Session state and `default_widget` (lines 60-61) are not modelled. They only decide which options start ticked. The model starts from what is ticked.
- Reading the Excel sheet, the default CSV and the uploaded CSV is not modelled. Their rows and column sets are parameters.
  - Read errors are left out, and so are the `try`/`except` that turns them into warnings.
- The HTTP request of `gmaps_geocode_one` is a function parameter, `None` when the lookup fails. The API key check and `st.cache_data` are left out.
- `safe_mean` (lines 110-115) only centres the map view, so it is not modelled.
- `Emailanalyse.py` and `landingpage.py` are not part of this model.
- Coordinates are carried as opaque values and never computed with. Floating point is not modelled.
- Coordinates.MergeCoordinates: a coordinate CSV is a map from join key to one coordinate pair. pandas repeats a row when the CSV holds the same key twice; this model keeps one pair per key.
- Coordinates.MergeCoordinates: the merge writes straight into the `latitude`/`longitude` cells. It does not model the temporary `_def`/`_cache` columns, which the script drops immediately.
- Text.ParseReference: `\d` is read as the ASCII digits. Python's regex also accepts other Unicode decimal digits. Numbers too large for 64 bits are not modelled.
- Text.ParseReference: a reference cell read as a float (`108500.0`) becomes `"1085000"`. This is what the code does, and the model does the same.
- Colors.AssignColors: the script renders a null value of the colour column as "nan". A null group in an object column would print as "None" in pandas. That cannot occur here, because Gérant is converted to text before the group is computed.
- The rows of a table are values: the in-place methods take an `array<Row>`, and aliasing between two tables is not modelled.

## Findings

| source | as written | input that shows it | evidently intended | confidence | as-written member | corrected member |
|---|---|---|---|---|---|---|
| streamlit_app.py:349-351 | Every row whose address is in the geocoding result takes the result's coordinates, even a row that already had both. A failed lookup `(None, None)` therefore erases them. | Two rows share one address. The first has coordinates and the second has none, so the address is queued. The lookup fails, and the first row loses its coordinates. | The section is titled "compléter les manquants" (complete the missing ones) and the work list holds only rows without coordinates, so only missing coordinates are meant to be filled. | medium, not executed. As written, line 345 reads `api_key` before line 411 assigns it, so these lines are reached only once that ordering is fixed. | Coordinates.GeocodedAsWritten | Coordinates.Geocoded |
