# lcano-react-ui core, modelled in Dafny

lcano-react-ui is a React widget library. Most of it is styled markup. This project models the
logic underneath the markup and proves properties of that logic:

- **RSQL filter builder** (`SearchFilterRSQL`). The component keeps four state cells: the
  selected field, the selected operator, the pending value and the list of committed filters.
  It validates and de-duplicates new filters, removes filters by position, and hands the query
  to `onSearch` after every change. The query is the filters serialised as RSQL clauses joined
  with `;`. The state is the class `SearchFilterRSQL.FilterBuilder`; `onSearch` becomes a ghost
  log `searches`. The pure parts are functions: the serialiser, `isDuplicateFilter`,
  `formatDate`, `getFormattedValue`, `isAddButtonDisabled` and the default-value effect.
- **Operator catalogue** (`Filters`). The field variants, the operator tables per field kind
  and the committed filter record.
- **Date helpers** (`DateUtils`). `YYYY-MM-DD` parsing and formatting (the full-date form of
  section 5.6 of RFC 3339), `YYYY-MM`, `DD/MM/YYYY` and the comma-separated timestamp. A JS
  `Date` is either a calendar day whose local midnight has a finite time value (20 April
  -271821 to 12 September 275760, in the one time zone the model fixes) or an Invalid Date.
- **Field value coercion** (`FieldValueUtils`, `FieldValue`). How a value of each kind is
  shown, how numeric text is cut to digit limits and clamped, and what the editor's change
  handler emits.
- **Pagination** (`SearchPagination`). The derived first and last flags, the four navigation
  guards and the page indicator. The current-index state cell is the class `PageIndex`.
- **Toast messages** (`ContextMessageProvider`). A shared id counter and a message list with
  append-on-add and filter-on-remove. These are the classes `IdCounter` and `MessageProvider`.

The helper modules `Wrappers` (Option and a Normal/Throw completion), `Strings` (the JS string
built-ins the core calls: `split`, `join`, `padStart`, `slice`, `toLowerCase` on A-Z, `Number`,
`parseInt`, `parseFloat`, `String(number)`) and `JsValues` (the untyped JS values the editor
and the builder pass around, truthiness and `String(value)`) state only what the core needs.

Some places where the model deliberately follows the code rather than its documentation:

- The SELECT editor emits the option key as a plain string. It does not emit a `{key, value}`
  object, so the builder's pending value is a string for SELECT fields.
- A NUMBER field holding a non-number shows the value itself.
- A SELECT field holding a `Date` shows `undefined`.
- `formatNumericInputWithLimits` with `maxDecimalPlaces == 0` turns `1.5` into `1.`, and a
  second pass turns that into `1`. So idempotence holds only when at least one decimal place
  is allowed (`FieldValueUtils.TruncationWithoutDecimalsIsNotIdempotent`).

## Model

| member | source | states |
|---|---|---|
| Filters.Field.Type | src/types/Filters.ts:8-39 | each field variant has one fixed kind tag; only the SELECT variant (the one with options) has kind SELECT, and no variant has kind MONTH |
| Filters.Operators | src/types/Filters.ts:41-74 | every kind has a non-empty operator list whose first entry is `Contém`/`LIKE` for STRING and `Igual`/`==` otherwise; names are unique within each list; all symbols are among `LIKE == != > < >= <=`; BOOLEAN offers only `==`, SELECT only `==`/`!=`; DATE and MONTH offer exactly the NUMBER list |
| Filters.FindOperator | src/components/SearchFilterRSQL/SearchFilterRSQL.tsx:166 | a found operator is in the list and carries the name; nothing is found exactly when no entry has that name |
| Filters.FindOperatorByOwnName | src/types/Filters.ts:41-65 | because names are unique, looking up an entry's own name finds that entry |
| DateUtils.DaysInMonth | src/utils/DateUtils.ts:41 | a month has 28 to 31 days |
| DateUtils.NewDate | src/utils/DateUtils.ts:41 | `new Date(y, m, d)` keeps month and day, maps years 0-99 to 1900-1999, and is Invalid exactly when the result is no calendar day or lies outside the finite time-value range |
| DateUtils.InTimeRangeIsTimeClip | src/utils/DateUtils.ts:41 | for a calendar day, being between 20 April -271821 and 12 September 275760 is exactly having a local-midnight time value within 8.64e15 ms of the epoch |
| DateUtils.LastDateEdge | src/utils/DateUtils.ts:41 | 12 September 275760 is a `Date` and the next day is not, its time value being past 8.64e15 ms |
| DateUtils.FirstDateEdge | src/utils/DateUtils.ts:41 | 20 April -271821 is a `Date` and the day before is not, its time value being before -8.64e15 ms |
| DateUtils.DateYearsAreBounded | src/utils/DateUtils.ts:41 | every `Date` has a year from -271821 to 275760 |
| DateUtils.DaysOfBoundedYearsAreDates | src/utils/DateUtils.ts:41 | every calendar day of the years -271820 to 275759 is a `Date` |
| DateUtils.ParseDateStringToDate | src/utils/DateUtils.ts:39-42 | fewer than three `-`-pieces give an Invalid Date; a parsed date has a year of 100 or more |
| DateUtils.FarYearIsNoDate | src/utils/DateUtils.ts:39-42 | `300000-01-01` parses to an Invalid Date, because that day is past the time-value range |
| DateUtils.FormatDateToYMDString | src/utils/DateUtils.ts:18-27 | the result is empty exactly for `undefined` |
| DateUtils.FormatDateToYMString | src/utils/DateUtils.ts:29-37 | `''` for `undefined`; otherwise the YMD text is this result followed by `-` and the day |
| DateUtils.FormattedPieces | src/utils/DateUtils.ts:18-27 | a date with a non-negative year formats as year, then month + 1 padded to two digits, then day padded to two digits, joined by `-` |
| DateUtils.PaddedNatReadsBack | src/utils/DateUtils.ts:23-24 | the zero-padded text of a number is digits and reads back as that number |
| DateUtils.ParseOfDigitPieces | src/utils/DateUtils.ts:39-42 | three digit pieces joined by `-` parse as `new Date(year, month - 1, day)` |
| DateUtils.ParseFormatRoundTrip | src/utils/DateUtils.ts:18-42 | parsing the formatted text of any calendar day from year 100 on gives back that day |
| DateUtils.CanonicalFormIsStable | src/utils/DateUtils.ts:18-42 | for every string, format-then-parse of its parse gives the same parse, including the Invalid case |
| DateUtils.FormattedDateIsFullDate | src/utils/DateUtils.ts:18-27 | for a four-digit year, the formatted text is an RFC 3339 full-date whose fields read back as year, month + 1 and day |
| DateUtils.FormattedDatePieces | src/utils/DateUtils.ts:22-24 | for a four-digit year, the year, month and day pieces have four, two and two digits and read back as the year, month + 1 and day |
| DateUtils.IsoToBrReordersPieces | src/utils/DateUtils.ts:13-16 | `Y-M-D` with dash-free pieces becomes `D/M/Y` with the pieces unchanged |
| DateUtils.BrDateOfFormattedDate | src/utils/DateUtils.ts:13-27 | a formatted date converts to day/month/year with the same padded pieces |
| DateUtils.FormatIsoDateToBrDate | src/utils/DateUtils.ts:13-16 | text without `-` has no month or day piece, so it becomes `undefined/undefined/` followed by the text |
| DateUtils.ParseShortStringToDateTime | src/utils/DateUtils.ts:3-11 | `undefined` and `''` give `''`; for other text, the conversion throws exactly when there are fewer than five comma pieces |
| DateUtils.SplitFive | src/utils/DateUtils.ts:6 | five comma-free pieces joined with commas split back into those pieces |
| DateUtils.ShortDateTimeOfPieces | src/utils/DateUtils.ts:3-11 | five pieces become day/month + 1/last two characters of the year, then hour:minute, each field padded to two |
| DateUtils.ShortDateTimeOfDigits | src/utils/DateUtils.ts:3-11 | five numerals joined with commas give day/month numeral + 1/last two characters of the year, then hour:minute, each field padded to two |
| DateUtils.ShortDateTimeLayout | src/utils/DateUtils.ts:3-11 | for numeric pieces the output is 14 characters laid out `DD/MM/YY hh:mm`; each field reads back as the day, month + 1, the year's last two characters, the hour and the minute |
| DateUtils.DateToString | src/components/SearchFilterRSQL/SearchFilterRSQL.tsx:131 | `String(date)` starts with a capital letter (the weekday name, or `Invalid Date`) |
| DateUtils.DateStringIsNoDate | src/components/SearchFilterRSQL/SearchFilterRSQL.tsx:131 | parsing `String(date)` of any date gives an Invalid Date |
| DateUtils.LooseDateParses | src/utils/DateUtils.ts:39-42 | `2024-3-5` parses as 5 March 2024 |
| DateUtils.ExampleDateFormats | src/utils/DateUtils.ts:18-27 | 5 March 2024 formats as `2024-03-05` |
| DateUtils.LooseDateIsCanonicalised | src/utils/DateUtils.ts:18-42 | formatting the parse of `2024-3-5` gives `2024-03-05` |
| JsValues.JsString | src/components/SearchFilterRSQL/SearchFilterRSQL.tsx:131 | `String(v)` of a string is itself; of a boolean it is `true`/`false` accordingly; of a Date it starts with a capital letter |
| JsValues.Falsy | src/components/SearchFilterRSQL/SearchFilterRSQL.tsx:38 | no object (a Date, an Invalid Date included, or an option) is falsy; a falsy value prints as `''`, `0`, `false`, `null` or `undefined`; text is falsy exactly when it is empty |
| FieldValueUtils.FormatFieldValueToString | src/utils/FieldValueUtils.ts:4-23 | `null`/`undefined` show as `''`; BOOLEAN shows only `true`, `false` or `''`; SELECT shows an option's key; DATE and MONTH show a Date as its YMD and YM text |
| FieldValueUtils.BooleanDisplay | src/utils/FieldValueUtils.ts:12-15 | a present value shows `true` exactly for `true` or text whose lower case is `true`, and `false` exactly otherwise |
| FieldValueUtils.BooleanDisplayIgnoresCase | src/utils/FieldValueUtils.ts:14 | text and its lower case show the same boolean |
| FieldValueUtils.TextDisplaysAsItself | src/utils/FieldValueUtils.ts:8-21 | every kind but BOOLEAN shows a string unchanged |
| FieldValueUtils.DisplayIsStable | src/utils/FieldValueUtils.ts:4-23 | showing what is shown changes nothing, for every present value except a Date in a SELECT field |
| FieldValueUtils.AbsentBooleanIsNotStable | src/utils/FieldValueUtils.ts:5-15 | an absent BOOLEAN value shows `''`, and `''` in turn shows `false` |
| FieldValueUtils.TruncateNumeric | src/utils/FieldValueUtils.ts:32-33 | the cut integer part is a prefix of the result, and the result is exactly that prefix when there is no decimal text |
| FieldValueUtils.ClampBelow | src/utils/FieldValueUtils.ts:34 | the result is `String(minValue)` exactly when a minimum is given and the text parses below it; otherwise it is the text unchanged |
| FieldValueUtils.ClampAbove | src/utils/FieldValueUtils.ts:35 | the result is `String(maxValue)` exactly when a maximum is given and the text parses above it; otherwise it is the text unchanged |
| FieldValueUtils.ClampBelowReadsAsMaximum | src/utils/FieldValueUtils.ts:34 | text that parses still parses after the lower bound, as the larger of its number and the minimum |
| FieldValueUtils.ClampAboveReadsAsMinimum | src/utils/FieldValueUtils.ts:35 | text that parses still parses after the upper bound, as the smaller of its number and the maximum |
| FieldValueUtils.FormatNumericInputWithLimits | src/utils/FieldValueUtils.ts:25-37 | the result is the truncated text, `String(minValue)` or `String(maxValue)`; with no bounds, or when the truncated text is NaN, it is the truncated text |
| FieldValueUtils.InRangeIsKept | src/utils/FieldValueUtils.ts:32-36 | when the cut text is NaN or lies within every given bound, the result is the cut text |
| FieldValueUtils.BelowMinimumGivesMinimum | src/utils/FieldValueUtils.ts:32-36 | when the cut text parses below the minimum and the bounds do not cross, the result is `String(minValue)` |
| FieldValueUtils.AboveMaximumGivesMaximum | src/utils/FieldValueUtils.ts:32-36 | when the cut text parses above the maximum, the result is `String(maxValue)`, whatever the minimum |
| FieldValueUtils.TruncatedPieces | src/utils/FieldValueUtils.ts:32-33 | the integer piece is the first `.`-piece cut to `maxIntegerDigits` characters; a decimal piece exists exactly when the input has a non-empty second piece, and it is that piece cut to `maxDecimalPlaces`; the result has at most one `.` and at most `maxIntegerDigits + 1 + maxDecimalPlaces` characters |
| FieldValueUtils.TruncationIsIdempotent | src/utils/FieldValueUtils.ts:32-33 | with at least one decimal place allowed, truncating again changes nothing |
| FieldValueUtils.TruncationWithoutDecimalsIsNotIdempotent | src/utils/FieldValueUtils.ts:33 | with no decimal places, `1.5` becomes `1.`, and `1.` becomes `1` |
| FieldValueUtils.ResultWithinBounds | src/utils/FieldValueUtils.ts:34-35 | for consistent bounds and a numeric cut, the result parses and lies within both bounds |
| FieldValueUtils.CrossedBoundsGiveMaximum | src/utils/FieldValueUtils.ts:34-35 | when the maximum is below the minimum, the maximum check wins and the result is `String(maxValue)` |
| FieldValue.ValueOrDefault | src/components/FieldValue/FieldValue.tsx:32 | `undefined` becomes `''`; every other value is kept |
| FieldValue.DisplayValue | src/components/FieldValue/FieldValue.tsx:32-53 | a missing `value` shows `false` in a BOOLEAN editor and `''` in the others; `null` shows `''`; text shows unchanged outside BOOLEAN |
| FieldValue.Choices | src/components/FieldValue/FieldValue.tsx:103-118 | only SELECT and BOOLEAN editors offer choices; BOOLEAN offers `true` then `false`; SELECT offers an empty placeholder followed by every option in order |
| FieldValue.HandleChange | src/components/FieldValue/FieldValue.tsx:55-72 | nothing is emitted without `onUpdate`; BOOLEAN emits `true` exactly for the text `true`; DATE emits the Date `parseDateStringToDate` gives for the text; NUMBER emits the limited text with defaults 8 and 2; STRING, SELECT and MONTH emit the text unchanged |
| FieldValue.BooleanDisplayIsAChoice | src/components/FieldValue/FieldValue.tsx:103-111 | a BOOLEAN drop-down shows one of its two choices for every value except `null` |
| FieldValue.PickedChoiceIsShown | src/components/FieldValue/FieldValue.tsx:53-111 | picking any choice of a drop-down and storing the emitted value shows that choice again |
| FieldValue.DateEntryRoundTrip | src/components/FieldValue/FieldValue.tsx:53-68 | entering the canonical text of a day from year 100 on emits that day and shows the same text |
| FieldValue.DateEntryIsShownFormatted | src/components/FieldValue/FieldValue.tsx:53-68 | a DATE editor shows any entered text as the YMD text of the date it parses to |
| FieldValue.LooseDateEntryIsShownCanonically | src/components/FieldValue/FieldValue.tsx:53-68 | entering `2024-3-5` shows `2024-03-05` |
| FieldValue.NumberEntryIsStable | src/components/FieldValue/FieldValue.tsx:48-62 | without bounds and with decimals allowed, re-entering the emitted number emits it again, and it is shown unchanged |
| FieldValue.NumberEntryDefaultLimits | src/components/FieldValue/FieldValue.tsx:48-62 | with the default limits, an emitted number has at most 8 characters before the `.` and 2 after it |
| SearchFilterRSQL.FindField | src/components/SearchFilterRSQL/SearchFilterRSQL.tsx:86 | a found field is in the list and has the name; nothing is found exactly when no field has it |
| SearchFilterRSQL.FindFieldIsFirst | src/components/SearchFilterRSQL/SearchFilterRSQL.tsx:86 | the lookup returns the first field with the name |
| SearchFilterRSQL.FindOption | src/components/SearchFilterRSQL/SearchFilterRSQL.tsx:66 | a found option is in the list and has the key; nothing is found exactly when no option has it |
| SearchFilterRSQL.FindOptionIsFirst | src/components/SearchFilterRSQL/SearchFilterRSQL.tsx:66 | the option lookup returns the first option with the key |
| SearchFilterRSQL.FormatOperator | src/components/SearchFilterRSQL/SearchFilterRSQL.tsx:78-80 | the rendering always contains `=`, and a symbol other than `LIKE` that already contains `=` is kept |
| SearchFilterRSQL.RenderedOperators | src/components/SearchFilterRSQL/SearchFilterRSQL.tsx:78-80 | `LIKE` becomes `=ilike=`, `>` and `<` become `=>=` and `=<=`, the `=`-symbols pass through, and distinct catalogue symbols stay distinct |
| SearchFilterRSQL.Clause | src/components/SearchFilterRSQL/SearchFilterRSQL.tsx:77-81 | a clause starts with the field name and is longer than field and value together, since the written operator sits between them |
| SearchFilterRSQL.Clauses | src/components/SearchFilterRSQL/SearchFilterRSQL.tsx:76-82 | one clause per filter, in list order |
| SearchFilterRSQL.EmptyQuery | src/components/SearchFilterRSQL/SearchFilterRSQL.tsx:75-83 | the query is empty exactly when there are no filters |
| SearchFilterRSQL.ClausesAppend | src/components/SearchFilterRSQL/SearchFilterRSQL.tsx:76-82 | one more filter gives one more clause, at the end |
| SearchFilterRSQL.BuildAppend | src/components/SearchFilterRSQL/SearchFilterRSQL.tsx:75-83 | appending a filter appends `;` and its clause, or gives just the clause for an empty list |
| SearchFilterRSQL.QuerySplitsIntoClauses | src/components/SearchFilterRSQL/SearchFilterRSQL.tsx:75-83 | when no field, symbol or value holds `;`, splitting the query on `;` gives back the clauses in order |
| SearchFilterRSQL.UnescapedSemicolonCollides | src/components/SearchFilterRSQL/SearchFilterRSQL.tsx:81-83 | a value holding `;` makes one filter read as two clauses |
| SearchFilterRSQL.SingleClauseExamples | src/components/SearchFilterRSQL/SearchFilterRSQL.tsx:75-83 | `age > 18` gives `age=>=18`, `name LIKE ann` gives `name=ilike=ann`, and `id == 5` gives `id==5` |
| SearchFilterRSQL.TwoQuery | src/components/SearchFilterRSQL/SearchFilterRSQL.tsx:75-83 | any two filters give their two clauses joined by `;` |
| SearchFilterRSQL.TwoClauseExample | src/components/SearchFilterRSQL/SearchFilterRSQL.tsx:75-83 | two filters give `age=>=18;name=ilike=ann` |
| SearchFilterRSQL.IsDuplicateFilter | src/components/SearchFilterRSQL/SearchFilterRSQL.tsx:93-94 | true exactly when some committed filter has the same field, symbol and value |
| SearchFilterRSQL.AppendKeepsNoDuplicates | src/components/SearchFilterRSQL/SearchFilterRSQL.tsx:109-115 | appending a non-duplicate keeps the list free of duplicates |
| SearchFilterRSQL.WithoutIndex | src/components/SearchFilterRSQL/SearchFilterRSQL.tsx:121 | an in-range position is cut out and the rest keep their order; an out-of-range one leaves the list unchanged |
| SearchFilterRSQL.RemovalKeepsNoDuplicates | src/components/SearchFilterRSQL/SearchFilterRSQL.tsx:120-124 | removing a position keeps the list free of duplicates |
| SearchFilterRSQL.RemoveMiddle | src/components/SearchFilterRSQL/SearchFilterRSQL.tsx:120-124 | removing the middle of three filters leaves the outer two and their two-clause query |
| SearchFilterRSQL.FormatDate | src/components/SearchFilterRSQL/SearchFilterRSQL.tsx:51-55 | a Date formats as its YMD text; text formats as the YMD text of the date it parses to; a value that is neither a Date nor a string throws |
| SearchFilterRSQL.FormatDateOfCanonicalText | src/components/SearchFilterRSQL/SearchFilterRSQL.tsx:51-55 | canonical date text is kept as it is |
| SearchFilterRSQL.FormatDateOfLooseText | src/components/SearchFilterRSQL/SearchFilterRSQL.tsx:51-55 | the text `2024-3-5` is committed as `2024-03-05` |
| SearchFilterRSQL.FormatDateOfLooseEntry | src/components/SearchFilterRSQL/SearchFilterRSQL.tsx:51-55 | the Date the editor emits for `2024-3-5` is committed as `2024-03-05` |
| SearchFilterRSQL.GetFormattedValue | src/components/SearchFilterRSQL/SearchFilterRSQL.tsx:57-73 | an unknown field shows the raw value; BOOLEAN goes through the yes/no formatter; DATE through the Brazilian date; STRING, NUMBER and MONTH show the raw value |
| SearchFilterRSQL.SelectChipShowsLabel | src/components/SearchFilterRSQL/SearchFilterRSQL.tsx:64-67 | a SELECT chip shows the label of the first option with the key, or the key when that label is empty |
| SearchFilterRSQL.SelectChipWithoutOptionShowsKey | src/components/SearchFilterRSQL/SearchFilterRSQL.tsx:64-67 | a SELECT chip whose key no option of the field carries shows the key |
| SearchFilterRSQL.DateChipShowsBrazilianDate | src/components/SearchFilterRSQL/SearchFilterRSQL.tsx:68-69 | a committed date chip shows day/month/year |
| SearchFilterRSQL.IsAddButtonDisabled | src/components/SearchFilterRSQL/SearchFilterRSQL.tsx:126-136 | the button is disabled without a field or an operator; for a non-DATE field, exactly when the value is `null` or `''`; for a DATE field, exactly when the value is falsy or `String(value)` parses to an Invalid Date |
| SearchFilterRSQL.AddDisabledForEveryDateObject | src/components/SearchFilterRSQL/SearchFilterRSQL.tsx:129-133 | as written, a DATE field whose pending value is a Date object always has the button disabled |
| SearchFilterRSQL.DefaultDateEnablesAdd | src/components/SearchFilterRSQL/SearchFilterRSQL.tsx:129-133 | the default date text the effect fills in enables the button |
| SearchFilterRSQL.IsAddButtonDisabledIntended | src/components/SearchFilterRSQL/SearchFilterRSQL.tsx:126-136 | disabled without a field or an operator; for a non-DATE field exactly when the value is `null` or `''`; for a DATE field a Date disables it exactly when it is an Invalid Date, text exactly when it is empty or parses to an Invalid Date, and any other value exactly when it is falsy or its `String` parses to an Invalid Date |
| SearchFilterRSQL.NonTextIsNoDate | src/components/SearchFilterRSQL/SearchFilterRSQL.tsx:131 | `String(v)` of a value that is neither text nor a Date never parses as a date |
| SearchFilterRSQL.IntendedDateCheckAgreesWithAdd | src/components/SearchFilterRSQL/SearchFilterRSQL.tsx:126-136 | when the intended check enables a DATE entry, the value is text or a Date naming a valid day, and it is committed as that day's YMD text |
| SearchFilterRSQL.NewFilter | src/components/SearchFilterRSQL/SearchFilterRSQL.tsx:97-107 | a filter is built only with a field, an operator and a non-null value; it carries the field's name, the symbol, the operator name and the field kind; its value is `String(value)` for non-DATE kinds; for DATE a filter is built exactly when `formatDate` does not throw, and its value is that text |
| SearchFilterRSQL.EnabledButtonBuildsFilter | src/components/SearchFilterRSQL/SearchFilterRSQL.tsx:96-136 | whenever the intended check enables the button, `handleAdd` builds a filter |
| SearchFilterRSQL.EnabledButtonPassesAddGuard | src/components/SearchFilterRSQL/SearchFilterRSQL.tsx:96-136 | whenever either check enables the button, the guard of `handleAdd` passes |
| SearchFilterRSQL.DefaultValue | src/components/SearchFilterRSQL/SearchFilterRSQL.tsx:37-43 | only a falsy value in a DATE or BOOLEAN field is replaced, by today's YMD text or `true`, and the replacement is truthy |
| SearchFilterRSQL.DefaultValueIsIdempotent | src/components/SearchFilterRSQL/SearchFilterRSQL.tsx:37-43 | running the effect a second time changes nothing |
| SearchFilterRSQL.FilterBuilder.constructor | src/components/SearchFilterRSQL/SearchFilterRSQL.tsx:32-35 | all cells start empty and nothing has been searched |
| SearchFilterRSQL.FilterBuilder.ResetState | src/components/SearchFilterRSQL/SearchFilterRSQL.tsx:45-49 | the selection is cleared; the filters and the search log are untouched |
| SearchFilterRSQL.FilterBuilder.HandleFieldChange | src/components/SearchFilterRSQL/SearchFilterRSQL.tsx:85-91 | an unknown name clears the selection; a known one selects that field with its kind's first operator; the value becomes `null` either way |
| SearchFilterRSQL.FilterBuilder.ApplyDefaultValue | src/components/SearchFilterRSQL/SearchFilterRSQL.tsx:37-43 | the pending value becomes the default value for the selected field; everything else is kept |
| SearchFilterRSQL.FilterBuilder.SelectField | src/components/SearchFilterRSQL/SearchFilterRSQL.tsx:37-91 | picking a field that differs from the current one leaves today's text for DATE, `true` for BOOLEAN and `null` otherwise; picking the same field leaves `null` |
| SearchFilterRSQL.FilterBuilder.HandleOperatorChange | src/components/SearchFilterRSQL/SearchFilterRSQL.tsx:165-168 | an operator name is accepted only when the selected field's kind offers it; otherwise nothing changes |
| SearchFilterRSQL.FilterBuilder.SetSearchValue | src/components/SearchFilterRSQL/SearchFilterRSQL.tsx:175 | the editor's emitted value becomes the pending value |
| SearchFilterRSQL.FilterBuilder.HandleAdd | src/components/SearchFilterRSQL/SearchFilterRSQL.tsx:96-118 | a failed guard or a throwing `formatDate` changes nothing; a duplicate only clears the selection; otherwise the filter is appended, `onSearch` receives the new query, and the selection is cleared; the list never holds duplicates |
| SearchFilterRSQL.FilterBuilder.ClickAddButton | src/components/SearchFilterRSQL/SearchFilterRSQL.tsx:183-187 | with the intended check, a disabled click changes nothing; an enabled click always builds a filter, appends it and hands the new query to `onSearch` unless it is a duplicate (then filters and log are kept), and clears the selection |
| SearchFilterRSQL.FilterBuilder.HandleRemove | src/components/SearchFilterRSQL/SearchFilterRSQL.tsx:120-124 | exactly that position is removed, and `onSearch` receives the new query even when the index is out of range |
| SearchPagination.DerivePaginationState | src/components/SearchPagination/SearchPagination.tsx:42-48 | first page exactly at index 0; last page exactly at `totalPages - 1`; index, page count and size are copied |
| SearchPagination.PageIndex.constructor | src/components/SearchPagination/SearchPagination.tsx:36 | the index starts at `page.number` |
| SearchPagination.PageIndex.Sync | src/components/SearchPagination/SearchPagination.tsx:38-40 | after the effect the index equals `page.number`; an unchanged number leaves it as it was |
| SearchPagination.GoToFirst | src/components/SearchPagination/SearchPagination.tsx:58-62 | page 0 is requested exactly when not on the first page |
| SearchPagination.GoToPrevious | src/components/SearchPagination/SearchPagination.tsx:63-67 | `current - 1` is requested exactly when `current > 0` |
| SearchPagination.GoToNext | src/components/SearchPagination/SearchPagination.tsx:68-72 | `current + 1` is requested exactly when `current < totalPages - 1` |
| SearchPagination.GoToLast | src/components/SearchPagination/SearchPagination.tsx:73-77 | as written: `totalPages - 1` is requested exactly when not on the last page |
| SearchPagination.GoToLastGuarded | src/components/SearchPagination/SearchPagination.tsx:73-77 | corrected: `totalPages - 1` is requested exactly when a next page exists |
| SearchPagination.RequestsInRange | src/components/SearchPagination/SearchPagination.tsx:57-78 | with at least one page and the index in range, every request names an existing page other than the current one and keeps the size |
| SearchPagination.ControlsMatchActions | src/components/SearchPagination/SearchPagination.tsx:58-108 | each action requests a page exactly when its control is enabled |
| SearchPagination.EmptyResultRequestsMinusOne | src/components/SearchPagination/SearchPagination.tsx:44-77 | with no pages, the last-page action requests page -1 |
| SearchPagination.GuardedLastInRange | src/components/SearchPagination/SearchPagination.tsx:73-77 | the corrected action requests only existing pages for every page count, zero included, and agrees with the original whenever the index is in range |
| SearchPagination.PageIndicator | src/components/SearchPagination/SearchPagination.tsx:100-102 | the indicator starts with the one-based page number and ` / ` |
| SearchPagination.IndicatorReadsBack | src/components/SearchPagination/SearchPagination.tsx:100-102 | the indicator splits into the one-based page number, `/` and the page count, which read back as those numbers |
| ContextMessageProvider.WithoutId | src/contexts/message/ContextMessageProvider.tsx:35 | no message with the removed id remains, and the list does not grow |
| ContextMessageProvider.WithoutIdMembers | src/contexts/message/ContextMessageProvider.tsx:35 | a message remains exactly when it was there and has another id |
| ContextMessageProvider.WithoutIdAppend | src/contexts/message/ContextMessageProvider.tsx:30-35 | filtering a concatenation filters each part |
| ContextMessageProvider.WithoutAbsentId | src/contexts/message/ContextMessageProvider.tsx:35 | removing an id that no message carries leaves the list unchanged |
| ContextMessageProvider.WithoutIdKeepsOrder | src/contexts/message/ContextMessageProvider.tsx:35 | removal keeps the remaining ids strictly increasing |
| ContextMessageProvider.AddThenRemove | src/contexts/message/ContextMessageProvider.tsx:29-36 | appending a message with a fresh id and removing that id restores the list |
| ContextMessageProvider.IdCounter.Take | src/contexts/message/ContextMessageProvider.tsx:23-29 | the id is the counter's value, which then grows by one; the id differs from every id issued before |
| ContextMessageProvider.MessageProvider.AddMessage | src/contexts/message/ContextMessageProvider.tsx:28-32 | exactly one message with the next id is appended, and ids stay strictly increasing and below the counter |
| ContextMessageProvider.MessageProvider.RemoveMessage | src/contexts/message/ContextMessageProvider.tsx:34-36 | the messages with the id are dropped and the rest keep their order |
| ContextMessageProvider.MessageProvider.ShowError | src/contexts/message/ContextMessageProvider.tsx:38 | appends an error message with the text unchanged |
| ContextMessageProvider.MessageProvider.ShowSuccess | src/contexts/message/ContextMessageProvider.tsx:39 | appends a success message with the text unchanged |
| ContextMessageProvider.MessageProvider.ShowInfo | src/contexts/message/ContextMessageProvider.tsx:40 | appends an info message with the text unchanged |
| ContextMessageProvider.MessageProvider.ShowErrorWithLog | src/contexts/message/ContextMessageProvider.tsx:41-44 | appends an error whose text is the input followed by ` Consulte o log para mais detalhes!` |
| ContextMessageProvider.MessageProvider.ShowThenRemove | src/contexts/message/ContextMessageProvider.tsx:29-36 | showing a message and removing it by its id restores the list |
| Strings.ParseIntOfIntToString | src/utils/DateUtils.ts:8 | `parseInt` reads the decimal text of every integer back as that integer |
| Strings.ParseIntReadsNumeral | src/utils/DateUtils.ts:8 | `parseInt` is NaN exactly when no digit follows the leading white space and the optional sign; only a `-` gives a negative result, and a `-` never gives a positive one |
| Strings.TrimStartIsLongestSuffix | src/utils/DateUtils.ts:8 | the white space `parseInt` skips is the longest prefix made only of white space |
| Strings.ParseIntSkipsSpace | src/utils/DateUtils.ts:8 | white space in front does not change what `parseInt` reads |
| Strings.ParseIntIgnoresRest | src/utils/DateUtils.ts:8 | `parseInt` reads a numeral followed by text that does not start with a digit as the numeral's value |
| Strings.ParseIntOfNonNumeric | src/utils/DateUtils.ts:8 | text that starts with anything but white space, a sign or a digit is NaN to `parseInt` |
| Strings.ParseFloatOfIntToString | src/utils/FieldValueUtils.ts:34-35 | `parseFloat` reads the decimal text of every integer back as that integer |
| Strings.ParseFloatReadsNumeral | src/utils/FieldValueUtils.ts:34-35 | `parseFloat` is NaN exactly when neither a digit nor a `.` and a digit follow the leading white space and the optional sign; only a `-` gives a negative result |
| Strings.ParseFloatSkipsSpace | src/utils/FieldValueUtils.ts:34-35 | white space in front does not change what `parseFloat` reads |
| Strings.ParseFloatOfNonNumeric | src/utils/FieldValueUtils.ts:34-35 | text that starts with anything but white space, a sign, a digit or a `.` is NaN to `parseFloat` |
| Strings.ToNumber | src/utils/DateUtils.ts:40 | `Number` gives a number exactly for digit strings, and that number is not negative |
| Strings.IntToString | src/utils/DateUtils.ts:22-24 | the text of an integer is non-empty; it is all digits exactly for a non-negative integer and starts with `-` exactly for a negative one |
| Strings.LowerAscii | src/utils/FieldValueUtils.ts:14 | lower-casing keeps the length, turns each letter A-Z into its lower-case letter and keeps every other character |
| Strings.LowerAsciiIsTrue | src/utils/FieldValueUtils.ts:14 | a text lower-cases to `'true'` exactly when it is four characters spelling "true" in any mix of upper and lower case |
| Strings.Split | src/utils/DateUtils.ts:40 | a split has at least one piece and no piece holds the separator |
| Strings.Join | src/components/SearchFilterRSQL/SearchFilterRSQL.tsx:83 | the join starts with the first part and, with more than one part, the separator follows it |
| Strings.PadStart | src/utils/DateUtils.ts:23-24 | the result has the target width in code points (or the input's length, if longer), ends with the input, and is filled in front |
| Strings.PadStartKeepsValue | src/utils/DateUtils.ts:23-24 | zero-padding keeps a digit string's value |
| Strings.TakeLast | src/utils/DateUtils.ts:10 | `slice(-n)` gives the last `n` code points, or the whole text when it is shorter |
| Strings.JoinSplit | src/components/SearchFilterRSQL/SearchFilterRSQL.tsx:83 | joining the pieces of a split with the same separator gives back the text |
| Strings.SplitJoin | src/components/SearchFilterRSQL/SearchFilterRSQL.tsx:83 | splitting a join of separator-free pieces gives back the pieces |

## Left out

- Rendering, styling and the React machinery are not modelled. This covers JSX, styled components, `useMemo`/`useCallback` memoisation, and the `useMessage` context lookup.
- `getCurrentDate` reads the clock. It is the `today` parameter of `FilterBuilder.ApplyDefaultValue` and `FilterBuilder.SelectField`.
- `onSearch` and `loadPage` are outputs. The first is the ghost log `FilterBuilder.searches`; the second is the optional request a navigation function returns.
- The `setTimeout` auto-removal after 5 seconds and the `console.error` call are not modelled, because they are timers and I/O. The `error` argument of `showErrorWithLog` is therefore dropped.
- `formatBooleanToSimNao`, used by `getFormattedValue`, is not part of this model. It is the function parameter `simNao`.
- JS `Date` overflow (`new Date(2024, 12, 40)` rolling into the next year) is not modelled. Such dates are treated as an Invalid Date.
- `isDateValid` is not modelled, because it depends on the engine's string parsing.
- Strings.ToNumber: `Number(s)` is modelled only for digit strings. Signs, blanks, decimals, exponents and hex text all give NaN here, which again becomes an Invalid Date.
- The host time zone is fixed at UTC-3 (Brasília) without daylight saving. It decides the zone text of `String(date)`, of which only the capitalised weekday start is used by any proof. It also decides which day at each end of the time-value range is still a `Date`; a day of the years -271820 to 275759 is one in every zone (`DateUtils.DaysOfBoundedYearsAreDates`).
- Strings.LowerAscii: lower-cases the letters A-Z only, while `toLowerCase` also lowers other letters (`É` to `é`, say). Its one use is the comparison with `'true'` at FieldValueUtils.ts:14. There the result is the same, because only `t`, `r`, `u`, `e` and their capitals lower-case to those letters (`Strings.LowerAsciiIsTrue`).
- Strings.PadStart: a Dafny string is a sequence of Unicode code points, while `padStart` counts UTF-16 code units. A character outside the Basic Multilingual Plane counts once here and twice in JS, so `"\u{1F600}".padStart(2, '0')` is the emoji alone in JS but `0` and the emoji here. The padded texts are pieces of the caller's timestamp text at DateUtils.ts:8-10 and numerals of numbers at lines 23-24; only the former can hold such characters.
- Strings.TakeLast: `slice(-n)` counts UTF-16 code units, this model counts code points, so `"a\u{1F600}".slice(-2)` is the emoji alone in JS but the whole text here. The same holds for Strings.Take (`slice(0, n)`) and for every length the model compares.
- Strings.ParseFloatReadsNumeral: `parseFloat` is modelled for decimal text with an optional sign and fraction, after leading white space. Exponents and `Infinity` are not modelled, so `parseFloat("Infinity")` is NaN here (`Strings.ParseFloatOfNonNumeric`), and an exponent part such as the `e3` of `1e3` is not read.
- Numbers are integers throughout. `String(number)` of a fractional or huge number is not modelled.
- `maxIntegerDigits`/`maxDecimalPlaces` are natural numbers. The negative-argument behaviour of `slice` is not modelled.
- FieldValueUtils.TruncationIsIdempotent: holds only with `maxDecimalPlaces > 0`, because with 0 the code is not idempotent (`1.5` → `1.` → `1`).
- SearchFilterRSQL.FilterBuilder.HandleAdd: when `formatDate` throws (a DATE value that is neither a `Date` nor text), the state is left unchanged as in the source, but the `TypeError` that escapes the handler is not modelled.
- SearchFilterRSQL.FilterBuilder.ClickAddButton: uses the corrected add-button check. The Enter key at SearchFilterRSQL.tsx:178 calls `handleAdd` directly, which is `FilterBuilder.HandleAdd`.
- The show methods of `MessageProvider` return the new id so that callers can reason about it. The source returns nothing.
- `PagedResponse` fields other than `number`, `totalPages` and `size` are not read by the modelled code.

## Findings

| source | as written | input that shows it | evidently intended | confidence | as-written member | corrected member |
|---|---|---|---|---|---|---|
| src/components/SearchFilterRSQL/SearchFilterRSQL.tsx:129-133 | for a DATE field, the pending value is turned into text with `String(searchValue)` and that text is parsed as `YYYY-MM-DD`; a `Date` object (what the DATE editor emits) prints as `Tue Mar 05 2024 …`, which never parses | select a DATE field, then type `2024-03-05` in the editor: the pending value is a `Date`, and the add button stays disabled (only the Enter key still adds the filter) | a `Date` pending value enables the button when it is a valid date, as `formatDate` already handles at lines 51-55 | high; not executed | SearchFilterRSQL.IsAddButtonDisabled, SearchFilterRSQL.AddDisabledForEveryDateObject | SearchFilterRSQL.IsAddButtonDisabledIntended, SearchFilterRSQL.IntendedDateCheckAgreesWithAdd, SearchFilterRSQL.FilterBuilder.ClickAddButton |
| src/components/SearchPagination/SearchPagination.tsx:73-77 | `goToLast` is guarded only by `!isLastPage`, and `isLastPage` compares the index with `totalPages - 1` | an empty result: `totalPages = 0`, `number = 0`; clicking "last" calls `loadPage(-1, size)` | request the last page only when one exists beyond the current one, as `goToNext` does | medium; not executed | SearchPagination.GoToLast, SearchPagination.EmptyResultRequestsMinusOne | SearchPagination.GoToLastGuarded, SearchPagination.GuardedLastInRange |
