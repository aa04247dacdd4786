# Booking dashboard core, modelled in Dafny

The booking dashboard has a browser front end (js/app.js) and two serverless endpoints. The front end shows a sortable, paginated table of one month's booking rows. The endpoints are:

- api/getSheetData/index.js, which reads one month's worksheet.
- api/getBookedCounts/index.js, which relays the per-month "BOOKED" counts.

This project models the pure logic of all three as immutable datatypes and total functions, and proves the promises that logic makes.

- **Table view controller** (modules `TableView`, `TableSort`, `StableSort`, `Pagination`, `Loader`, `HtmlEscape`, `Timezone`):
  - the view state and the header-click state machine;
  - `renderTable`: it sorts a copy of the rows, counts and clamps the page, and slices it out;
  - the mixed numeric/text row comparator;
  - `drawPagination`: the five-wide page-number window and the First/Prev/Next/Last buttons;
  - the loader's outstanding-load counter;
  - `escapeHtml`, `gmtOffsetAbbr` and `tzCombinedLabel`;
  - the default-month choice.
- **Sheet-data normaliser** (module `SheetData`):
  - header trimming and the blank-row filter;
  - the first-match lookup of the Date/Start/End columns;
  - spreadsheet serial dates (epoch 1899-12-30 UTC) and fraction-of-day times;
  - quote doubling in the worksheet address;
  - the `ms` array, aligned with the rows;
  - the handler's error and empty-range envelopes.
- **Count-response classifier** (module `BookedCounts`): it sorts the upstream reply into a non-OK status, a body that is not JSON, JSON that is not an array, or a cleaned array of `{ name, count }` items.

Shared helpers:

- Module `Text` models `trim`, `toLowerCase`, `includes`, string `<` and integer rendering.
- Module `JsValues` models a spreadsheet cell (`undefined`, `null`, a boolean, a number or a string) and the coercions `String(x)`, `Number(x)`, `x || ""` and `x ?? ""`.

The comparator is not a consistent order on a column that mixes numbers and text. `TableSort.MixedColumnNotTransitive` exhibits the cycle "2" < "10" < "1a" < "2". So sortedness is proved only for all-numeric or all-text columns. The permutation property and antisymmetry are proved for every column. The model keeps the code's comparator, because the browser does sort with it.

Two behaviours of the sheet-data handler are easy to miss:

- A missing or blank `sheet` parameter answers 500 with `{ ok: false, error }`.
- The blank-row filter counts `0` and `false` as blank, like null, undefined and white space. A row holding only such cells is dropped.

External effects are parameters of the model:

- The Microsoft Graph used-range request is a function from the file id and the quote-doubled sheet name to a reply.
- The host `Date` parser for date and time strings is a pair of functions.
- The environment variable and the query parameter are `Option<string>` inputs.
- The Apps Script reply is a status, a body text and the outcome of `JSON.parse`.

## Model

| member | source | states |
|---|---|---|
| `TableView.Initial` | js/app.js:118-123 | The start-up view has no rows or headers, is on page 1 and sorts ascending on the date column. Its page size is the parsed control value, or 15 when that is 0, NaN or missing. |
| `TableView.ResetViewState` | js/app.js:246-258 | The view is cleared to no rows or headers, page 1, ascending on the date column. The page size is kept. |
| `TableView.LoadSheet` | js/app.js:273-286 | A loaded month starts from a reset view and keeps the page size. It holds the payload's rows when they are an array, and none otherwise. It holds the payload's headers when present, and none otherwise. A failed request gives empty lists. |
| `TableView.OnHeaderClick` | js/app.js:326-335 | Clicking the sort column flips the direction. Clicking another column selects it ascending. Either click returns to page 1 and changes nothing else. |
| `TableView.HeaderClickTwice` | js/app.js:326-332 | Two clicks on the sort column restore its direction. Two clicks on a new column leave it descending. |
| `TableView.ChangePageSize` | js/app.js:144-148 | A page-size change stores the parsed size, or 15 for 0 or NaN, and returns to page 1. The rows, headers, sort column and direction are kept. |
| `TableView.RenderTable` | js/app.js:346-405 | Rendering displays the rows sorted by the comparator on the sort column and direction, and leaves the stored rows as they were. The shown page is in 1..totalPages and an in-range page is kept. The page rows are page `page` of the sorted rows: the block of at most pageSize rows from (page-1)*pageSize. The empty notice shows exactly when that block is empty. The Prev and Next flags follow the page. |
| `TableView.RenderTableClamps` | js/app.js:374-376 | The shown page is the requested one clamped into 1..totalPages, so a page past the end shows the last page and one below 1 shows the first. |
| `TableView.RenderTableNav` | js/app.js:374-405 | The navigation bar is the one `drawPagination` draws for the shown page and the page count. |
| `TableView.RenderTableSorted` | js/app.js:346-372 | On an all-numeric or all-text sort column the displayed rows are in comparator order. |
| `TableView.ResetRendersEmpty` | js/app.js:346-405 | Rendering a freshly reset view shows page 1 of 1 with no rows and the empty notice, with First and Last disabled. |
| `TableView.RenderTableIdempotent` | js/app.js:374-376 | Re-rendering a rendered state leaves the page where it is. |
| `TableView.HeaderClickShowsFirstPage` | js/app.js:326-333 | After any header click the rendered page is 1. |
| `TableView.DefaultMonth` | js/app.js:183 | The default month is "Jan" when the workbook has it, otherwise the first tab, and none for no tabs. |
| `TableSort.CompareCells` | js/app.js:351-369 | When both cells are numbers whose string forms are not blank, the comparison is the numeric difference. Otherwise it is -1, 0 or 1 from the lower-cased `String(x ?? "")` order. |
| `TableSort.Compare` | js/app.js:350-371 | Ascending compares a's cell with b's. Descending compares b's cell with a's. |
| `TableSort.CompareAntisymmetric` | js/app.js:363-371 | cmp(a,b) = -cmp(b,a) in both directions, and descending is exactly the negation of ascending. |
| `TableSort.LeTotal` | js/app.js:350-371 | Any two rows are ordered one way or the other. |
| `TableSort.SortRows` | js/app.js:347-372 | The sorted copy is a permutation of the rows: same multiset, same length. |
| `TableSort.SortRowsSorted` | js/app.js:350-372 | Where the comparator is transitive on the rows, the sorted copy is ordered by it. |
| `TableSort.HomogeneousTransitive` | js/app.js:357-369 | On an all-numeric or an all-text column the comparator is transitive. |
| `TableSort.SortHomogeneousSorted` | js/app.js:350-372 | Sorting an all-numeric or all-text column yields rows in comparator order, ascending or descending. |
| `TableSort.MixedColumnNotTransitive` | js/app.js:357-369 | On the mixed column "2", "10", "1a" the comparator is not transitive. |
| `StableSort.Sort` | js/app.js:350 | The sort returns a permutation of its input. |
| `StableSort.SortSorted` | js/app.js:350 | Given a total, transitive order on the input, the result is sorted. |
| `JsValues.NumberOf` | js/app.js:354-355 | `Number(null)` is 0, `Number(undefined)` is NaN, booleans are 1 and 0, numbers are themselves, and a string is numeric only when it is blank or a decimal literal. |
| `JsValues.NumberOfStringGrammar` | js/app.js:354-358 | A string converts to a number exactly when its trimmed form is empty or a signed decimal literal. |
| `JsValues.NumberOfNatString` | js/app.js:354 | The string form of a natural number converts back to that number. |
| `JsValues.NumToString` | js/app.js:360-361 | A number's string form is never blank, never padded, and uses only digits, '-' and '.'. |
| `JsValues.NumToStringInteger` | js/app.js:360 | An integral number below 10^21 in magnitude renders as its decimal integer. |
| `JsValues.ToString` | js/app.js:360-361 | `String(x)` is "" only for the empty string. A string renders as itself and a number as its numeric text. |
| `JsValues.OrEmpty` | api/getSheetData/index.js:5 | The `or`-default to "" replaces exactly the falsy values (null, undefined, "", 0, false) by "". |
| `JsValues.NullishOrEmpty` | js/app.js:365 | `x ?? ""` replaces exactly null and undefined. |
| `JsValues.At` | js/app.js:351-352 | Reading a row's cell yields the cell, or undefined past the end of the row. |
| `JsValues.ErrorText` | api/getSheetData/index.js:115 | The reported error is the message, or the error's name when the message is empty. |
| `Text.Trim` | api/getSheetData/index.js:5 | The trimmed string is no longer than the input and has no white space at either end. |
| `Text.TrimShape` | api/getSheetData/index.js:5 | The trimmed string is the block of the input that starts where the leading white space ends, with only white space before and after it. |
| `Text.TrimEmptyIffAllSpace` | api/getSheetData/index.js:77 | Trimming leaves "" exactly when every character is white space. |
| `Text.TrimIdempotent` | api/getSheetData/index.js:5 | Trimming twice equals trimming once. |
| `Text.ToLower` | js/app.js:365 | Lower-casing keeps the length and maps each character on its own. |
| `Text.LexLessTransitive` | js/app.js:365-367 | String `<` is transitive. |
| `Text.LexLessTotal` | js/app.js:365-367 | Of two different strings one is `<` the other. |
| `Text.NatToString` | js/app.js:484 | `String(n)` of a natural number is non-empty, all digits, and has no leading zero. |
| `Text.NatToStringRoundTrip` | js/app.js:484 | The digits of `String(n)` read back as n. |
| `Pagination.PageSizeOf` | js/app.js:121 | The page size is the parsed integer unless it is 0 or NaN, which fall back to 15. |
| `Pagination.CeilDiv` | js/app.js:375 | For a positive page size, the quotient is the fewest blocks of pageSize that cover the total. A negative page size gives no positive count. |
| `Pagination.TotalPages` | js/app.js:375 | The page count is at least 1 and is the fewest pages of pageSize rows that hold all rows. |
| `Pagination.ClampPage` | js/app.js:376 | The clamped page lies in 1..totalPages and equals the request when the request is in range. |
| `Text.Slice` | js/app.js:379 | `slice(start, end)` agrees with the sub-sequence for in-range indices and is empty when end <= start. In every case it is a contiguous piece of the input, beginning where `slice` reads `start`. |
| `Pagination.PageRows` | js/app.js:378-379 | A page is a contiguous piece of the rows, beginning where `slice` reads (page-1)*pageSize. |
| `Pagination.PageRowsBlock` | js/app.js:378-379 | A page is the block of at most pageSize rows starting at (page-1)*pageSize, or empty past the end. |
| `Pagination.PageStartInRange` | js/app.js:374-378 | An in-range page starts inside the rows, and strictly inside when there are rows. |
| `Pagination.ShowPage` | js/app.js:374-383 | The shown page is the requested one clamped into 1..totalPages. Its rows are the contiguous block at its start, at most pageSize long, and non-empty when there are rows. |
| `Pagination.FirstPagesPrefix` | js/app.js:378-379 | Pages 1..k laid end to end are the first k*pageSize rows. |
| `Pagination.PagesTileRows` | js/app.js:374-379 | Pages 1..totalPages laid end to end are exactly the rows, in order. |
| `Pagination.Window` | js/app.js:434-437 | 1 <= start <= page <= end <= totalPages, and the window holds min(5, totalPages) pages. Its start is page - 2, moved into 1..totalPages - 4 near either end, so away from the ends the window is page - 2 .. page + 2. |
| `Pagination.DrawPagination` | js/app.js:408-462 | First and Prev are disabled iff page is 1, and Next and Last iff page is totalPages. The numbered buttons are consecutive and in range, start at the window's first page, include the current page, and exactly the current one is active. |
| `Pagination.OnClick` | js/app.js:421-461 | First leads to page 1 and Last to the last page. A numbered button leads to its page. Prev goes back one page but not below 1. Next goes on one page but not past the last. |
| `Pagination.ClicksStayInRange` | js/app.js:421-461 | Every button of the bar leads to a page in 1..totalPages. Prev and Next move by one except at the edges. |
| `Loader.Show` | js/app.js:70-73 | Showing adds one outstanding load and reveals the overlay. |
| `Loader.Hide` | js/app.js:74-77 | Hiding removes one outstanding load, never going below 0, and hides the overlay when the count reaches 0. |
| `Loader.RunConsistent` | js/app.js:69-77 | Over any sequence of shows and hides the overlay is hidden exactly when the count is 0. |
| `Loader.RunCountBounds` | js/app.js:69-77 | The count stays between start+shows-hides and start+shows. |
| `Loader.ShowThenHide` | js/app.js:88-93 | A show followed by its hide restores a consistent state. |
| `HtmlEscape.EscapeChar` | js/app.js:466-473 | & < > " ' become &amp; &lt; &gt; &quot; &#39;, and every other character is kept. |
| `HtmlEscape.EscapeHtml` | js/app.js:465-475 | The escaped text has no raw < > " ', is no shorter, and is the input itself when the input has no special character. |
| `HtmlEscape.AmpersandsStartReferences` | js/app.js:465-475 | Every '&' in the escaped text begins one of the five references `&amp;` `&lt;` `&gt;` `&quot;` `&#39;`, so no raw ampersand survives. |
| `HtmlEscape.EscapeRoundTrip` | js/app.js:465-475 | Decoding the five references in the escaped text gives back the input. |
| `Timezone.Pad2` | js/app.js:484 | `padStart(2, "0")` of minutes is two digits with the same value. |
| `Timezone.HoursMinutesText` | js/app.js:481-484 | The text after the sign is never empty. It contains a colon exactly when the minutes are not 0, and then the colon is third from the end. |
| `Timezone.LabelRoundTrip` | js/app.js:484 | Any label "GMT", sign, hours, optional ":MM" reads back as the signed total of minutes. |
| `Timezone.GmtOffsetAbbr` | js/app.js:478-485 | The label starts "GMT". The sign is '+' iff the offset is >= 0. A ":MM" part is present iff the offset is not a whole number of hours. |
| `Timezone.GmtOffsetAbbrDigits` | js/app.js:481-484 | After the sign come the whole hours, unpadded, and then, unless the minutes are 0, a colon and the minutes as two digits. The length is fixed accordingly. |
| `Timezone.GmtOffsetRoundTrip` | js/app.js:478-485 | The label determines the offset: sign, hours abs(off) div 60 and minutes abs(off) mod 60 read back. |
| `Timezone.TzCombinedLabel` | js/app.js:502-506 | "abbr (iana)" when both are known, otherwise whichever is known, and "" when neither is or there is no info. |
| `Timezone.CombinedLabelSplits` | js/app.js:502-505 | When both parts are known and the abbreviation has no '(', the combined label splits back into the abbreviation and the IANA name. |
| `Timezone.AbbrOnlySplits` | js/app.js:502-505 | With only the abbreviation known, and no '(' in it, the label reads back as that abbreviation alone. |
| `SheetData.NormalizeHeader` | api/getSheetData/index.js:4-6 | A header is trimmed. It is "" for null, undefined, "", 0 and false, and the number's or string's text otherwise. |
| `SheetData.NormalizeHeaderIdempotent` | api/getSheetData/index.js:4-6 | Normalising a normalised header changes nothing. |
| `SheetData.NormalizeHeaders` | api/getSheetData/index.js:76 | One normalised header per header-row cell, index for index. |
| `SheetData.ExcelEpochIsCivil` | api/getSheetData/index.js:18 | The epoch constant -2209161600000 is midnight UTC on 1899-12-30, 25569 days before 1970-01-01. |
| `SheetData.SerialToMs` | api/getSheetData/index.js:17-20 | A numeric serial v decodes to the civil day number of 1899-12-30 plus v, times 86400000 ms. That is v days, fractions included, after midnight UTC on 1899-12-30. |
| `SheetData.SerialRoundTrip` | api/getSheetData/index.js:17-20 | Serial decoding is invertible: the serial reads back from the milliseconds. |
| `SheetData.WholeSerialIsMidnight` | api/getSheetData/index.js:17-20 | A whole serial n lands on the UTC midnight n-25569 days after 1970-01-01. |
| `SheetData.ParseDateToMs` | api/getSheetData/index.js:8-27 | null, undefined and "" give null, and a number gives its serial decoding. A string or boolean goes trimmed to the host date parser. |
| `SheetData.Serial45658` | api/getSheetData/index.js:16-19 | Serial 45658 decodes to 2025-01-01T00:00Z (1735689600000). |
| `SheetData.Round` | api/getSheetData/index.js:34 | `Math.round(x)` is the integer within [x - 1/2, x + 1/2), with halves rounded up. |
| `SheetData.ParseTimeToMs` | api/getSheetData/index.js:29-45 | A null or 0 date, or a null, undefined or "" time, gives null. A numeric fraction f gives the date plus round(f*86400000), within half a millisecond of the exact time. A string goes trimmed to the host parser. |
| `SheetData.WholeMsTimeExact` | api/getSheetData/index.js:33-34 | A fraction that is a whole number k of milliseconds decodes to exactly date + k. |
| `SheetData.TimeMonotone` | api/getSheetData/index.js:33-34 | A later fraction of the day never decodes to an earlier time. |
| `SheetData.EscapeSheetName` | api/getSheetData/index.js:62 | Quote doubling adds one character per quote and leaves a quote-free name unchanged. |
| `SheetData.EscapeSheetNameRoundTrip` | api/getSheetData/index.js:62 | Collapsing "''" back to "'" recovers the sheet name. |
| `SheetData.CellIsBlankIff` | api/getSheetData/index.js:77 | A cell is blank exactly when it is falsy (null, undefined, "", 0, false) or white space only. |
| `SheetData.FilterRows` | api/getSheetData/index.js:77 | The kept rows are exactly the data rows with a non-blank cell. |
| `SheetData.FilterRowsAppend` | api/getSheetData/index.js:77 | The filter works row by row, so kept rows keep their original order. |
| `SheetData.FilterRowsKeepsAll` | api/getSheetData/index.js:77 | When every row has content, nothing is dropped. |
| `SheetData.FilterRowsIdempotent` | api/getSheetData/index.js:77 | Filtering twice equals filtering once. |
| `SheetData.BlankRowDropped` | api/getSheetData/index.js:77 | A row of zeros, falses, nulls and white space is dropped. |
| `SheetData.FindIndex` | api/getSheetData/index.js:81-83 | `findIndex` gives the first matching position, or -1 exactly when nothing matches. |
| `SheetData.FindColumns` | api/getSheetData/index.js:81-83 | The date column is the first header whose lower case is "date". Start and end are the first headers containing "start" and "end". Each is -1 when absent. |
| `SheetData.Pick` | api/getSheetData/index.js:86-90 | A missing column reads as null, and a column past the row's end as undefined. |
| `SheetData.RowTimes` | api/getSheetData/index.js:85-97 | A row's times come from its date, start and end cells. Without a date, or with a missing column, the affected entries are null. |
| `SheetData.MsOf` | api/getSheetData/index.js:85-97 | `ms` has one entry per kept row, at the same index. |
| `SheetData.NoDateColumnNoTimes` | api/getSheetData/index.js:81-95 | Without a date column every `ms` entry is all nulls. |
| `SheetData.SheetOf` | api/getSheetData/index.js:76-108 | A non-empty range yields the normalised header row, the filtered data rows and an aligned `ms` array. |
| `SheetData.GetSheetData` | api/getSheetData/index.js:47-118 | An unset or empty file id, a missing or blank sheet, or a Graph failure answers 500 with the error text. An empty range answers 200 with empty headers, rows and ms. Otherwise the answer is 200 with the sheet's data, and 200 occurs exactly then. |
| `SheetData.GetSheetDataShape` | api/getSheetData/index.js:66-108 | A 200 reply names a trimmed non-empty sheet. Its `ms` is as long as its rows, every row has content, and every header is trimmed. |
| `BookedCounts.Member` | api/getBookedCounts/index.js:38 | A member lookup is absent exactly when no member has the key, and otherwise gives the last duplicate's value. |
| `BookedCounts.Prop` | api/getBookedCounts/index.js:69-70 | `x?.key` is undefined on anything but an object. |
| `BookedCounts.JsonToString` | api/getBookedCounts/index.js:69 | `String(v)`: null is "null", booleans "true" and "false", numbers their numeric text, strings themselves, objects "[object Object]". An empty array or `[null]` is "", and a one-element array is its element's text. The value matters only where the conversion does not throw (`Converts`). |
| `BookedCounts.JsonToNumber` | api/getBookedCounts/index.js:70 | `Number(v)` of null is 0, booleans are 1 and 0, numbers are themselves, strings convert by the decimal grammar, and objects give NaN. The value matters only where the conversion does not throw (`Converts`). |
| `BookedCounts.CleanName` | api/getBookedCounts/index.js:69 | A name is trimmed. It is "" when missing or null, and otherwise the trimmed `String` of the value: the string itself, a number's text, "true"/"false", or an array's joined text. |
| `BookedCounts.CleanCount` | api/getBookedCounts/index.js:70 | A count is the numeric value, and 0 when missing, null or NaN. |
| `BookedCounts.CleanCountZeroIff` | api/getBookedCounts/index.js:70 | A cleaned count is 0 exactly when the count is missing, or converts to NaN or to 0. |
| `BookedCounts.Clean` | api/getBookedCounts/index.js:68-71 | An item is cleaned field by field. A non-object item cleans to "" and 0. |
| `BookedCounts.CleanIdempotent` | api/getBookedCounts/index.js:68-71 | A cleaned item, sent as JSON and cleaned again, is unchanged. |
| `BookedCounts.TypeOf` | api/getBookedCounts/index.js:60 | `typeof` is "object" exactly for null, arrays and objects, and "boolean", "number" or "string" exactly for those kinds. |
| `BookedCounts.PreviewOf` | api/getBookedCounts/index.js:29 | The preview is a prefix of the body of at most 200 characters, and the whole body when it is that short. |
| `BookedCounts.CleanAll` | api/getBookedCounts/index.js:68-71 | One cleaned item per input item, in the same order. |
| `BookedCounts.GetBookedCounts` | api/getBookedCounts/index.js:9-88 | A non-OK status or an unparseable body answers 500 with the body's first 200 characters as preview. A non-array answers 500 with its type and value. A failed fetch answers 500 with the error text. An array with an item whose name or count cannot be converted to a primitive answers 500 with the TypeError's message. 200 comes exactly for an OK reply whose JSON is an array of items that all convert, and then carries one cleaned item per element, in order. |
| `BookedCounts.ToStringMemberFails` | api/getBookedCounts/index.js:68-86 | An item whose name is an object with its own "toString" member makes the handler answer 500 with "Cannot convert object to primitive value". |
| `BookedCounts.CountsAreClean` | api/getBookedCounts/index.js:69 | Every name in a 200 reply is already trimmed. |

## Left out

- Network I/O is left out, since it is outside pure logic. This covers:
  - `apiGet`;
  - the token and Graph fetches (api/_shared/msGraph.js);
  - the Apps Script fetch;
  - api/getSheetNames, api/getVersion and api/syncBookedData.
- The Graph request and the host date parser are function parameters. The model cannot see their behaviour.
- `encodeURIComponent` around the file id and sheet name is left out. The model passes the quote-doubled name as is.
- DOM work is left out: `initCollapsibles`, the element building in `drawHeader` and `renderTable`, `renderCards`, `setActiveCard`, `ensureTzChip`, and the header arrows.
- The `queueTask` debounce and the `netBusy` gate are left out, because they are timer- and async-based. `Loader.ShowThenHide` states only the show/hide pairing they perform.
- `detectTimezone` is left out because it depends on `Intl`. `gmtOffsetAbbr` takes the offset in minutes instead of a `Date`.
- The string branches of `parseDateToMs` and `parseTimeToMs` are left out, because they depend on the host `Date` parser and the local time zone. They are parameters.
- IEEE-754 doubles are modelled as exact reals: no rounding error, no NaN or infinities in cells, and no -0.
- JsValues.NumberOf: the string grammar covers blank strings and signed decimals with an optional fraction. Exponents, hex, binary ("0b101") and octal ("0o7") literals and "Infinity" count as non-numeric.
- JsValues.NumToString: it is exact for integers below 10^21 in magnitude. It never uses exponent notation, which JavaScript uses from 10^21 on and below 10^-6. For other numbers it keeps at most 15 fraction digits and does not use the shortest round-trip form.
- JsValues.NumToStringInteger: it is stated only below 10^21 in magnitude, because from there on `String(i)` writes an exponent and the model writes plain digits.
- TableView.LoadSheet: the headers are modelled as a list or missing. A truthy `headers` value that is not an array is kept by `payload.headers || []`, and the model cannot hold it.
- Text.ToLower: lower-casing covers the ASCII letters only.
- Text.LexLessTransitive: strings are sequences of Unicode characters, not UTF-16 code units. JavaScript `<` compares code units, so a character above U+FFFF sorts before one in U+E000..U+FFFF there and after it here.
- Text.LexLessTotal: the same code-point order stands for JavaScript's code-unit order, with the same difference.
- BookedCounts.PreviewOf: the 200-character limit counts Unicode characters, while `text.slice(0, 200)` counts UTF-16 code units. For text with characters above U+FFFF the source's preview is shorter and can end in half a surrogate pair.
- TableSort.SortRows: on a column that mixes numbers and text the comparator is not a consistent order, and the order `Array.prototype.sort` then produces is implementation-defined. `TableView.RenderTable` ensures `r.display == SortRows(...)`, which fixes one of the orders the engine may produce.
- StableSort.Sort: stability, which `Array.prototype.sort` has had since ECMAScript 2019, is not stated. Rows that compare equal may appear in any order as far as the contracts say.
- `JSON.parse` is left out. Its result is an input (`Option<Json>`).
- The row filter's `Array.isArray(r)` guard is left out, because the used range is a two-dimensional array and rows are sequences of cells.
- `renderTable` null-safety is left out: the `a?.[sortCol]` guard for a null row cannot arise, because rows are sequences of cells.
- The `values[0].map` call on a header row that is not an array is left out.
- The fixed `START_COL_INDEX` and `END_COL_INDEX` label decoration in `drawHeader` is left out, because it is display only.
