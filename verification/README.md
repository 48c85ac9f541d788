# Balance de carga: a Dafny model

WebProject is a web application for planning a university term's
"balance de carga". A balance spreads each subject's activities over the
lective weeks of a period. The activities are C (conferencia), CP (clase
práctica), S, PL, TE, T, PP and EC. Every week has four cells per subject,
followed by a Consultas block and an Exámenes Finales block.

This project models the pure parts of the system.

The Rust backend:
- the balance export engine: the lective calendar, the decoding of a
  fragment's flat `values` array, and the layout of the exported sheet
  (`excel_export.rs`)
- the per-IP login rate limiter (`rate_limiter.rs`)
- the input validators and sanitiser (`validation.rs`)
- the CORS origin decision (`cors.rs`)

The TypeScript frontend:
- the validators, HTML escaper and field validation (`validation.ts`)
- the table helpers (`balance-table.ts`)
- the synchronous actions of the balance store (`stores/balance.ts`)

Modelling choices:
- Dates are integer day numbers, with day 0 = 1970-01-01, a Thursday.
- The sheet is the list of cell writes and merged ranges that
  `create_data_sheet` issues, with styles as tags.
- The worksheet counts a cell string's characters (Unicode scalar values),
  which is `|s|` on a Dafny `string`.
- The rate limiter is a pure transition over a map, with an explicit clock.
- Rust's `len()` (UTF-8 bytes) is `Text.Utf8Len` and JavaScript's
  `.length` (UTF-16 code units) is `Text.Utf16Len`. Whitespace for `trim`
  and `\s` depends on the runtime (`Text.Runtime`).

The modules:

| file | module | models |
|---|---|---|
| wrappers.dfy | Wrappers | `Option`, `Result` |
| text.dfy | Text | character classes, trimming, lengths, decimal rendering, `split` |
| civil.dfy | Civil | weekday and civil date of a day number |
| calendar.dfy | Calendar | working days, `calculate_week_dates`, `calculate_final_weeks_dates` |
| calendar_examples.dfy | CalendarExamples | the calendar scenarios of the Rust tests |
| activity.dfy | Activity | the eight activity codes and the critical ones |
| date_label.dfy | DateLabel | the row-0 date labels and a parser that recovers their dates |
| fragment_codec.dfy | FragmentCodec | the three `parse_*_data` decoders and the encoding they invert |
| sheet_layout.dfy | SheetLayout | column blocks, styles and the rows of the data sheet |
| data_sheet.dfy | DataSheet | the whole sheet and its worksheet limits |
| rate_limiter.dfy | RateLimiter | `RateLimiter` |
| patterns.dfy | Patterns | the four validation regexes, the email scan, dangerous characters |
| backend_validation.dfy | BackendValidation | `validation.rs` |
| frontend_validation.dfy | FrontendValidation | `validation.ts` |
| balance_table.dfy | JsValues, BalanceTable | JavaScript values; `getCellValue`, `generateWeekGroups` |
| balance_store.dfy | BalanceStore | tally, selection toggle, creation guard, cell edit |
| cors.dfy | Cors | the allowed-origin decision and the CORS headers |

## Model

| member | source | states |
|---|---|---|
| Civil.WeekdaySuccessor | backend/src/utils/excel_export.rs:90-92 | Weekdays advance by one each day and repeat every seven days. |
| Civil.EpochIsThursday | backend/src/utils/excel_export.rs:90-92 | Day 0 is Thursday 1 January 1970. This fixes the calendar the weekend test uses. |
| Civil.September2025 | backend/src/utils/excel_export.rs:683-692 | 1 September 2025, the tests' start date, is a Monday, and 5 September is a Friday. |
| Civil.MonthBoundaryWeek | backend/src/utils/excel_export.rs:388-401 | The week of 29 September 2025 ends, four days later, in October. |
| Calendar.IsInNonAcademicPeriod | backend/src/utils/excel_export.rs:80-87 | A date is excluded exactly when some period contains it, both ends included. |
| Calendar.NextWorkingDay | backend/src/utils/excel_export.rs:95-101 | The result is the first date at or after the argument that is neither a weekend day nor excluded. |
| Calendar.NextWorkingDayFixpoint | backend/src/utils/excel_export.rs:95-101 | A date is returned unchanged exactly when it is already a working day. |
| Calendar.NextWorkingDayIdempotent | backend/src/utils/excel_export.rs:95-101 | Applying the search to its own result changes nothing. |
| Calendar.FirstWorkingDayUnique | backend/src/utils/excel_export.rs:95-101 | "First working day from d" names a single date. |
| Calendar.CountForward | backend/src/utils/excel_export.rs:120-127 | Counting n working days forward ends on a working day, with exactly n working days in between. |
| Calendar.BuildWeek | backend/src/utils/excel_export.rs:116-143 | A week starts at the first working day from the cursor and ends on its fourth working day after that. |
| Calendar.CalculateWeekDates | backend/src/utils/excel_export.rs:105-147 | There are exactly n weeks. The first starts at the first working day from the start date; each week is lective; each next week starts at the first working day after the previous week's end. |
| Calendar.WeeksIncrease | backend/src/utils/excel_export.rs:105-147 | Week starts strictly increase, and each week ends before the next one starts. |
| Calendar.FiveWorkingDaysApart | backend/src/utils/excel_export.rs:119-145 | Each week holds five working days, and consecutive starts are five working days apart. |
| Calendar.CalculateFinalWeeksDates | backend/src/utils/excel_export.rs:152-202 | There are no final weeks without lective weeks, and two otherwise. The first starts at the first working day from the last lective start + 5 calendar days, not from that week's end. Both follow the weekly rule. |
| Calendar.PeriodOrderIrrelevant | backend/src/utils/excel_export.rs:80-87 | Lists holding the same periods exclude the same dates. |
| Calendar.NextWorkingDayAgree | backend/src/utils/excel_export.rs:95-101 | Period lists that exclude the same dates give the same next working day. |
| Calendar.BuildWeekAgree | backend/src/utils/excel_export.rs:116-143 | Period lists that exclude the same dates give the same week. |
| CalendarExamples.NoExclusionsWeekly | backend/src/utils/excel_export.rs:105-147 | Without exclusions, week k starts exactly 7k days after a weekday start. |
| CalendarExamples.ScenarioStartOnMonday | backend/src/utils/excel_export.rs:683-692 | From Monday 2025-09-01, three weeks start on 09-01, 09-08 and 09-15. |
| CalendarExamples.ScenarioStartOnSaturday | backend/src/utils/excel_export.rs:694-703 | From Saturday 2025-09-06, two weeks start on 09-08 and 09-15. |
| CalendarExamples.ScenarioSkipsReceso | backend/src/utils/excel_export.rs:705-724 | With 09-08..09-14 excluded, weeks start on 09-01, 09-15 and 09-22. |
| CalendarExamples.HolidayShiftsRangeButNotLabels | backend/src/utils/excel_export.rs:119-127 | With a holiday on the Wednesday, the week's fifth working day moves to the next Monday. The label still uses start + 4 (line 390), and the trailing blocks still step from start + 4 (line 166). |
| Activity.ParseActivity | backend/src/utils/excel_export.rs:18 | A string names an activity exactly when it is one of the eight codes, and it names the activity with that code. |
| Activity.CodeRoundTrip | backend/src/utils/excel_export.rs:18 | Every activity's code is listed and parses back to that activity. |
| Activity.CodeInjective | backend/src/utils/excel_export.rs:18 | Different activities have different codes. |
| Activity.CriticalMeansCriticalActivity | backend/src/utils/excel_export.rs:20-23 | A code is critical exactly when it parses as T, TE or PP. |
| DateLabel.MonthOfName | backend/src/utils/excel_export.rs:377-378 | A month abbreviation found in the Spanish list names its month, and nothing else is found. |
| DateLabel.ParseRender | backend/src/utils/excel_export.rs:397-401 | Both label formats, "d1-d2 Mon" and "d1 MonA-d2 MonB", parse back to the days and months they were made from. |
| DateLabel.RangeLabelRecoversDates | backend/src/utils/excel_export.rs:388-401 | The label of a block starting on day a gives back a's day and month and those of a + 4. |
| DateLabel.RangeLabelInjective | backend/src/utils/excel_export.rs:388-401 | Two blocks with the same label start on the same day of the same month, and end likewise. |
| DateLabel.LabelExamples | backend/src/utils/excel_export.rs:397-401 | 2025-09-01 is labelled "1-5 Sep" and 2025-09-29 "29 Sep-3 Oct". |
| FragmentCodec.DecodeWeekly | backend/src/utils/excel_export.rs:562-593 | The result has `weeks` rows of four slots each; slot (w, d) is the slot at index 4w + d of `values`. |
| FragmentCodec.DecodeConsultas | backend/src/utils/excel_export.rs:596-622 | Always four slots. Slot i holds the non-empty text at index 4·weeks + i of `values`, and is empty when that index is missing or its text is "". |
| FragmentCodec.DecodeExamenes | backend/src/utils/excel_export.rs:625-652 | Always five slots. Slot i holds the non-empty text at index 4·weeks + 4 + i of `values`, and is empty when that index is missing or its text is "". |
| FragmentCodec.SlotNeverEmpty | backend/src/utils/excel_export.rs:582-586 | A slot is never `Some("")`: empty strings, non-strings and missing indices read as `None`. |
| FragmentCodec.NoValuesNoSlots | backend/src/utils/excel_export.rs:567-575 | Missing or non-array `values` decode to all `None`. |
| FragmentCodec.ReadCellAt | backend/src/utils/excel_export.rs:598-619 | Each of the 4W + 9 slots of a fragment reads the index of its position: 4w + d, then 4W + i, then 4W + 4 + i. |
| FragmentCodec.DecodeEncode | backend/src/utils/excel_export.rs:562-652 | Decoding the flat array written from a grid and two blocks without empty strings gives them back. |
| FragmentCodec.EncodeDecode | backend/src/utils/excel_export.rs:562-652 | Re-encoding what was decoded gives the input's first 4W + 9 cells, each normalised to its text. |
| FragmentCodec.DecodeExample | backend/src/utils/excel_export.rs:658-670 | The test's eight values decode to the test's two weeks. |
| FragmentCodec.DecodeEmptyExample | backend/src/utils/excel_export.rs:672-680 | An object without `values` decodes to two empty weeks. |
| SheetLayout.CellStyleMeaning | backend/src/utils/excel_export.rs:495-509 | A data cell has a medium right border exactly in its block's last column. It is red exactly when it holds a critical code. The two choices are independent, and an empty cell is never red. |
| SheetLayout.DayHeaderStyleMeaning | backend/src/utils/excel_export.rs:461-480 | A day-number cell has a medium right border exactly in its block's last column, and never a fill. |
| SheetLayout.PositionOf | backend/src/utils/excel_export.rs:350-354 | Every data column belongs to exactly one block position, and that position maps back to the column. |
| SheetLayout.ColumnOfPosition | backend/src/utils/excel_export.rs:385-386 | Week k occupies columns 1 + 4k to 4 + 4k, Consultas 1 + 4W to 4 + 4W, and Exámenes 5 + 4W to 9 + 4W. These are 4W + 9 columns, with no gaps or overlaps. |
| SheetLayout.DataRowCells | backend/src/utils/excel_export.rs:483-553 | A fragment's row writes its name in column 0, then one cell per data column. Each cell holds the slot of its position, styled by that position's last-column flag and by the slot's code. |
| SheetLayout.ExportShowsStoredCells | backend/src/utils/excel_export.rs:483-652 | Column c of an exported row shows element c - 1 of the stored `values`. It is red exactly when that element is a critical code, and has the thick border exactly at a block's end. |
| SheetLayout.TitleRowBlocks | backend/src/utils/excel_export.rs:442-454 | Row 1 merges each block's columns under its title: "Semana k + 1", "Consultas" or "Exámenes Finales". |
| SheetLayout.BlockTitleInjective | backend/src/utils/excel_export.rs:446-454 | Different blocks have different titles. |
| SheetLayout.BlocksTile | backend/src/utils/excel_export.rs:385-386 | A data column lies in the i-th block's range exactly when the i-th block is the block of its position. |
| SheetLayout.DateRowBlocks | backend/src/utils/excel_export.rs:380-440 | Row 0 is "Asignaturas" followed by one merged label per block, over that block's columns. Without final weeks, the two trailing labels are absent. |
| SheetLayout.DayRowCells | backend/src/utils/excel_export.rs:456-481 | Row 2 numbers the columns 1..4 per week, 1..4 for Consultas and 1..5 for Exámenes, with the thick border on each block's last day. |
| DataSheet.CreateDataSheet | backend/src/utils/excel_export.rs:332-556 | A sheet name "<year>.ICS" that Excel refuses fails with the name error before anything else. With a valid name, data columns past the last worksheet column fail with the row/column error. A produced sheet has that name, and every action in it lies inside the worksheet and writes at most 32,767 characters. A string-length failure comes from an action that lies inside the worksheet but whose string is longer. A produced sheet's actions are exactly what the export writes: the three header rows, then one data row per fragment. |
| DataSheet.SheetShowsFragmentCell | backend/src/utils/excel_export.rs:484-550 | In an exported sheet, the header rows are followed by fragment i's row (row 3 + i), in fragment order: cell c of that row is the sheet's action at the header length + i * (columns + 1) + c. |
| DataSheet.SheetShowsWeekStart | backend/src/utils/excel_export.rs:384-404 | In an exported sheet, the label over week k's columns parses back to the day and month of the k-th computed week start. |
| DataSheet.FirstRejected | backend/src/utils/excel_export.rs:381-550 | The export stops at the first write or merge the worksheet refuses: every action before it is accepted, and none is refused when the index is the end. |
| DataSheet.CreateDataSheetSucceeds | backend/src/utils/excel_export.rs:341-556 | For decoded fragments, the export succeeds exactly when four things hold: the name "<year>.ICS" is valid, the data columns fit the worksheet's columns, the fragments' rows fit its rows, and every subject name and code has at most 32,767 characters. |
| DataSheet.CreateDataSheetFailure | backend/src/utils/excel_export.rs:381-550 | With a valid name and fitting columns, too many fragments alone gives the row/column error. A name or code that is too long, with the rows fitting, gives the string-length error. |
| DataSheet.DataRowTextsFit | backend/src/utils/excel_export.rs:488-550 | A data row writes only strings that fit in a cell exactly when the subject name and every weekly, Consultas and Exámenes code fit. |
| DataSheet.DataRowsCell | backend/src/utils/excel_export.rs:484-488 | The data rows (`DataRows`) place fragment i's row, row 3 + i, after the rows of the fragments before it, one action per column. |
| DataSheet.WeekLabelShowsWeekStart | backend/src/utils/excel_export.rs:384-404 | The header rows (`HeaderRows`) label week k with a text that parses back to the day and month of the k-th computed week start. |
| RateLimiter.New | backend/src/utils/rate_limiter.rs:41-45 | A new limiter tracks no address. |
| RateLimiter.BlockRemaining | backend/src/utils/rate_limiter.rs:63-76 | There is a remaining time exactly while the address is blocked. It is the whole seconds until the block ends. |
| RateLimiter.CheckBlockStatus | backend/src/utils/rate_limiter.rs:81-94 | The combined check agrees with `is_blocked` and `get_block_remaining`. |
| RateLimiter.RemainingAttempts | backend/src/utils/rate_limiter.rs:157-168 | An unknown address has five attempts. Any recorded block, expired or not, leaves none. Otherwise the remaining attempts are five minus the recorded ones, saturating at 0. |
| RateLimiter.RecordFailedAttempt | backend/src/utils/rate_limiter.rs:97-132 | While blocked, nothing changes and the answer is true. Otherwise an expired block first resets the count to 0. A failure more than 60 s after the window opened starts a new window at now with count 1; any other failure adds 1 to the count. The answer is true exactly when the count reaches five, which imposes a block of 300 s. Other addresses are untouched. |
| RateLimiter.ExpiredBlockRestartsCount | backend/src/utils/rate_limiter.rs:103-123 | The first failure after a block has run out counts 1, does not block, and leaves four attempts. |
| RateLimiter.LateFailureOpensWindow | backend/src/utils/rate_limiter.rs:115-118 | An unblocked failure more than 60 s after the window opened restarts the window at now with count 1. |
| RateLimiter.RecordSuccess | backend/src/utils/rate_limiter.rs:135-138 | Only the address's own entry is removed. |
| RateLimiter.CleanupOldEntries | backend/src/utils/rate_limiter.rs:141-154 | An entry is kept exactly when it is still blocked, or is unblocked and younger than 600 s; kept entries are unchanged. |
| RateLimiter.MaybeCleanup | backend/src/utils/rate_limiter.rs:173-188 | Cleans up, and says so, exactly when more than 1000 addresses are tracked. |
| RateLimiter.RecordFailedAttemptWellFormed | backend/src/utils/rate_limiter.rs:97-132 | The transition keeps every entry's invariant: at most five failures are counted, and a block is recorded exactly when the count is five. |
| RateLimiter.NoAttemptsLeftMeansBlockImposed | backend/src/utils/rate_limiter.rs:157-168 | On a well-formed map, no remaining attempts means a block has been recorded. |
| RateLimiter.CleanupKeepsBlocks | backend/src/utils/rate_limiter.rs:141-154 | Cleanup never lifts or changes an active block. |
| RateLimiter.CleanupIdempotent | backend/src/utils/rate_limiter.rs:141-154 | Cleaning twice at the same instant is cleaning once. |
| RateLimiter.BlockLastsFiveMinutes | backend/src/utils/rate_limiter.rs:125-129 | A block imposed at t holds exactly until t + 300 s, and reports 300 s remaining at t. |
| RateLimiter.SuccessResets | backend/src/utils/rate_limiter.rs:135-138 | After a success the address is unblocked with five attempts; every other address reads as before. |
| RateLimiter.FailuresCounted | backend/src/utils/rate_limiter.rs:115-131 | One to four failures within the window are counted one by one, and none of them blocks. |
| RateLimiter.FifthFailureBlocks | backend/src/utils/rate_limiter.rs:196-212 | For a fresh address, four failures in the window answer false and the fifth answers true and blocks. |
| RateLimiter.RateLimiterTest | backend/src/utils/rate_limiter.rs:196-212 | The module test: not blocked at first, four falses, then true, then blocked. |
| Patterns.IsEmailMatchesPattern | backend/src/utils/validation.rs:15-17 | The scan (first `@`, last `.` after it) accepts exactly the strings the email regex matches. |
| Patterns.RemoveDangerous | backend/src/utils/validation.rs:73-77 | The filtered string has no dangerous character. Every other character occurs in it exactly as often as in the input. |
| Patterns.RemoveDangerousChar | backend/src/utils/validation.rs:73-77 | One character is dropped exactly when it is dangerous. |
| Patterns.RemoveDangerousConcat | backend/src/utils/validation.rs:73-77 | Filtering distributes over concatenation. With RemoveDangerousChar this fixes the result: the safe characters in input order. |
| Patterns.SubjectCharSafe | backend/src/utils/validation.rs:19-21 | No character the subject pattern admits is dangerous. |
| BackendValidation.IsValidUsername | backend/src/utils/validation.rs:24-29 | A username is valid exactly when it has 3 to 50 characters, all ASCII letters, digits or `_`. |
| BackendValidation.IsValidName | backend/src/utils/validation.rs:32-38 | A name is valid exactly when its trimmed form has 2 to 100 bytes and matches the name pattern. |
| BackendValidation.ValidNameMeans | backend/src/utils/validation.rs:32-38 | A valid name is made of name characters throughout, its edge whitespace included. On ASCII, the byte bound is the same as a character bound. |
| BackendValidation.IsValidEmail | backend/src/utils/validation.rs:41-47 | An address is valid exactly when its trimmed form has at most 254 characters and matches the email pattern. |
| BackendValidation.IsValidSubjectName | backend/src/utils/validation.rs:50-56 | A subject name is valid exactly when its trimmed form has 2 to 200 bytes and matches the subject pattern. |
| BackendValidation.ValidSubjectMeans | backend/src/utils/validation.rs:50-56 | A valid subject name contains no dangerous character anywhere, so the pattern alone keeps markup out. On ASCII, the byte bound is the same as a character bound. |
| BackendValidation.IsValidPasswordAsWritten | backend/src/utils/validation.rs:59-70 | As written, the length guard never fires. A password is accepted exactly when it has an uppercase, a lowercase and a numeric character. |
| BackendValidation.PasswordAsWrittenAcceptsShort | backend/src/utils/validation.rs:59-70 | As written, the three-byte "Ab1", which has no special character, is accepted. |
| BackendValidation.IsValidPassword | backend/src/utils/validation.rs:58-70 | Corrected: a password is accepted exactly when it has 8 to 128 bytes and a non-alphanumeric character, and passes the check as written. |
| BackendValidation.PasswordCorrected | backend/src/utils/validation.rs:58-70 | Corrected: "Ab1" is refused and "Segura#2025" accepted. |
| BackendValidation.SanitizeText | backend/src/utils/validation.rs:73-80 | The output has no dangerous character and no whitespace at either end. It is a slice of the filtered input, in order, and only whitespace lies outside that slice. |
| BackendValidation.SanitizeTextIdempotent | backend/src/utils/validation.rs:73-80 | Sanitising twice is sanitising once. |
| BackendValidation.SanitizeTextKeepsClean | backend/src/utils/validation.rs:73-80 | Clean text without edge whitespace passes unchanged. |
| BackendValidation.ValidateNewUserAsWritten | backend/src/utils/validation.rs:99-113 | As written: the user is valid exactly when the username, name and email pass and the password has an uppercase, a lowercase and a numeric character. The first failing check gives the message: "Nombre de usuario inválido" for the username, then "Nombre inválido" for the name, "Email inválido" for the email, and the password message. |
| BackendValidation.ValidateNewUser | backend/src/utils/validation.rs:99-113 | Corrected: the user is valid exactly when all four checks pass, with the corrected password check. Otherwise the error is the message of the first failing check, in the order username, name, email, password. |
| BackendValidation.NewUserCorrectionRefusesMore | backend/src/utils/validation.rs:99-113 | The corrected check accepts only users the check as written accepts. For any otherwise valid user, the password "Ab1" is accepted as written and refused when corrected. |
| BackendValidation.ValidateProfile | backend/src/utils/validation.rs:116-124 | A profile is valid exactly when name and email are. A bad name reports "Nombre inválido" first. |
| BackendValidation.ValidateSubject | backend/src/utils/validation.rs:127-132 | A subject is valid exactly when its name is, with an error otherwise. |
| BackendValidation.NewUserExtendsProfile | backend/src/utils/validation.rs:99-124 | A new user is valid exactly when the username, the profile and the password are, with either password check. |
| BackendValidation.UsernameTestPlain | backend/src/utils/validation.rs:140 | "usuario123" is accepted. |
| BackendValidation.UsernameTestUnderscore | backend/src/utils/validation.rs:141 | "user_name" is accepted. |
| BackendValidation.UsernameTestTooShort | backend/src/utils/validation.rs:142 | "us" is refused as too short. |
| BackendValidation.UsernameTestAt | backend/src/utils/validation.rs:143 | "user@name" is refused for its '@'. |
| BackendValidation.UsernameTestSpace | backend/src/utils/validation.rs:144 | "user name" is refused for its space. |
| BackendValidation.NameTestJuanPerez | backend/src/utils/validation.rs:148-153 | "Juan Pérez" is a valid name. |
| BackendValidation.NameTestMariaGarciaLopez | backend/src/utils/validation.rs:148-153 | "María García López" is a valid name. |
| BackendValidation.NameTestTooShort | backend/src/utils/validation.rs:148-153 | "J" is refused. |
| BackendValidation.NameTestDigits | backend/src/utils/validation.rs:148-153 | "Juan123" is refused. |
| BackendValidation.NameRefusedWhen | backend/src/utils/validation.rs:32-38 | A name without edge whitespace that holds a non-name character is refused. |
| BackendValidation.EmailTestPlain | backend/src/utils/validation.rs:155-161 | "test@example.com" is accepted. |
| BackendValidation.EmailTestDottedLocal | backend/src/utils/validation.rs:155-161 | "user.name@domain.co" is accepted. |
| BackendValidation.EmailTestNoAt | backend/src/utils/validation.rs:155-161 | "invalid" is refused. |
| BackendValidation.EmailTestEmptyLocal | backend/src/utils/validation.rs:155-161 | "@example.com" is refused. |
| BackendValidation.EmailRefusedWithoutAt | backend/src/utils/validation.rs:41-47 | An address without edge whitespace and without `@` is refused. |
| BackendValidation.EmailRefusedWithoutLocal | backend/src/utils/validation.rs:41-47 | An address without edge whitespace whose only `@` is its first character is refused. |
| BackendValidation.SubjectTestSpaces | backend/src/utils/validation.rs:164-169 | "Programación Web I" is accepted. |
| BackendValidation.SubjectTestParentheses | backend/src/utils/validation.rs:164-169 | "Matemáticas (Nivel 2)" is accepted. |
| BackendValidation.SubjectTestTooShort | backend/src/utils/validation.rs:164-169 | "X" is refused. |
| BackendValidation.SubjectTestMarkup | backend/src/utils/validation.rs:164-169 | "Test<script>" is refused. |
| BackendValidation.NameAcceptedWhen | backend/src/utils/validation.rs:32-38 | Any name-pattern string of 2 to 25 characters without edge whitespace is accepted. |
| BackendValidation.EmailAcceptedWhen | backend/src/utils/validation.rs:41-47 | Any string with a regex split, no edge whitespace and at most 254 characters is accepted. |
| BackendValidation.SubjectAcceptedWhen | backend/src/utils/validation.rs:50-56 | Any subject-pattern string of 2 to 50 characters without edge whitespace is accepted. |
| FrontendValidation.IsValidUsername | frontend/src/utils/validation.ts:30-33 | A username is valid exactly when it has 3 to 50 characters, all ASCII letters, digits or `_`. |
| FrontendValidation.IsValidName | frontend/src/utils/validation.ts:38-41 | The 2 to 100 bound is on the untrimmed value's code units, and the pattern on the trimmed value. A valid name is made of name characters throughout. |
| FrontendValidation.IsValidEmail | frontend/src/utils/validation.ts:46-49 | An address is valid exactly when it is non-empty, has at most 254 code units untrimmed, and its trimmed form matches the email pattern. |
| FrontendValidation.IsValidSubjectName | frontend/src/utils/validation.ts:54-57 | The 2 to 200 bound is on the untrimmed value and the pattern on the trimmed value. A valid name contains no dangerous character. |
| FrontendValidation.IsValidPassword | frontend/src/utils/validation.ts:70-72 | A password is valid exactly when it is non-empty and has 8 to 128 code units. |
| FrontendValidation.SanitizeHtml | frontend/src/utils/validation.ts:78-87 | The chain of replacements, `&` first, escapes each character on its own. |
| FrontendValidation.EscapeAll | frontend/src/utils/validation.ts:78-87 | The escaped text contains no raw `<`, `>`, `"`, `'` or `/`, and is never shorter than the input. |
| FrontendValidation.ChainIsEscapeAll | frontend/src/utils/validation.ts:80-86 | The six whole-string replacements, in the source's order, equal per-character escaping: no later replacement touches an earlier entity. |
| FrontendValidation.UnescapeEscapeAll | frontend/src/utils/validation.ts:78-87 | Escaping loses nothing: decoding the entities gives back the input. |
| FrontendValidation.SanitizeHtmlPlain | frontend/src/utils/validation.ts:78-87 | Text without special characters passes unchanged. |
| FrontendValidation.SanitizeText | frontend/src/utils/validation.ts:92-95 | The output has no dangerous character and no edge whitespace. It is a slice of the filtered input, in order, and only whitespace lies outside that slice. |
| FrontendValidation.SanitizeTextIdempotent | frontend/src/utils/validation.ts:92-95 | Sanitising twice is sanitising once. |
| FrontendValidation.ValidateField | frontend/src/utils/validation.ts:107-155 | For a checked kind, the result is valid exactly when the kind's check holds on the trimmed value. It carries the trimmed value, and carries the kind's message exactly when invalid. Text is always valid and carries the sanitised trimmed value. |
| FrontendValidation.ValidateFieldIdempotent | frontend/src/utils/validation.ts:107-155 | Validating a field's own output gives the same result. |
| FrontendValidation.UsernameAgrees | frontend/src/utils/validation.ts:30-33 | The frontend and backend username checks agree on every input. |
| FrontendValidation.AsciiCharAgrees | frontend/src/utils/validation.ts:38-57 | Below U+0080, Rust and JavaScript agree on the characters of names and subject names. |
| FrontendValidation.NameAgreesOnAscii | frontend/src/utils/validation.ts:38-41 | On ASCII input without edge whitespace, the frontend and backend name checks agree. |
| FrontendValidation.SubjectAgreesOnAscii | frontend/src/utils/validation.ts:54-57 | On ASCII input without edge whitespace, the frontend and backend subject-name checks agree. |
| FrontendValidation.PasswordLengthsDiffer | frontend/src/utils/validation.ts:70-72 | "ñÑñÑ" is refused by the frontend (4 code units), although it has the 8 bytes the backend counts. |
| BalanceTable.GetCellValue | frontend/src/utils/balance-table.ts:14-23 | A cell shows something exactly when it holds a non-empty string, and then it shows that string. |
| BalanceTable.GetCellValueIdempotent | frontend/src/utils/balance-table.ts:14-23 | Normalising a shown value shows it unchanged. |
| BalanceTable.GenerateWeekGroups | frontend/src/utils/balance-table.ts:125-144 | There are ceil(n / g) groups, none for n ≤ 0. Group k covers weeks kg + 1 to min(kg + g, n), with start index 4(start - 1). The groups' weeks, concatenated, are exactly 1..n. |
| BalanceTable.WeekGroupsExample | frontend/src/utils/balance-table.ts:125-144 | Ten weeks in groups of four make three groups, the last being weeks 9-10 at cell 32. |
| BalanceStore.TallyValues | frontend/src/stores/balance.ts:560-570 | Each count is the number of cells holding that code, the total is the number of cells holding any of the eight codes, and the total is the sum of the counts. |
| BalanceStore.TotalIsSumOfCounts | frontend/src/stores/balance.ts:562-570 | No cell is counted for two codes and none is counted outside them, and the total never exceeds the number of cells. |
| BalanceStore.DisplayName | frontend/src/stores/balance.ts:574 | The row shows the subject's name when it has a non-empty one, and otherwise a non-empty default. |
| BalanceStore.Cells | frontend/src/stores/balance.ts:560-565 | Iterating `values` fails exactly when it is a truthy number or boolean. A string yields its characters one by one, and nothing yields a falsy value. |
| BalanceStore.StringCellsAreShort | frontend/src/stores/balance.ts:560-570 | Iterating a string never produces a two-letter code. |
| BalanceStore.CalculateFragment | frontend/src/stores/balance.ts:559-580 | A fragment's row carries its id, display name, status, counts and total, unless its values cannot be iterated. |
| BalanceStore.CalculateAllFragments | frontend/src/stores/balance.ts:556-581 | Without a balance nothing changes. Otherwise there is one row per fragment, in order, unless some fragment's values cannot be iterated. Only `calculations` changes. |
| BalanceStore.ToggleAsignatura | frontend/src/stores/balance.ts:251-261 | Without a balance being created nothing changes. Otherwise an absent id is appended. For a present id, exactly its first occurrence is removed and the rest keep their order. The store becomes dirty. |
| BalanceStore.ToggleFlips | frontend/src/stores/balance.ts:251-261 | On a duplicate-free selection, toggling flips the id's membership and leaves every other id as it was. It keeps the selection duplicate-free. |
| BalanceStore.ToggleTwice | frontend/src/stores/balance.ts:251-261 | Toggling an unselected subject twice restores the selection. |
| BalanceStore.CreateBalanceRequest | frontend/src/stores/balance.ts:266-287 | Creation proceeds exactly when a balance is being created with at least one subject, and requests the selection in order. Otherwise it fails with the source's message. |
| BalanceStore.ToggleEnablesCreate | frontend/src/stores/balance.ts:251-273 | Selecting one subject in an empty selection allows creation with that subject. |
| BalanceStore.SetAt | frontend/src/stores/balance.ts:494 | Assigning index i replaces that element or grows the array to i + 1, with the gap reading as `undefined`. Other elements are unchanged. |
| BalanceStore.UpdateFragmentCell | frontend/src/stores/balance.ts:490-500 | Without a fragment nothing changes. Otherwise `values` becomes an array: `value` at the index, holes before it undefined, every other cell as before. A negative index changes no cell. Other data keys are unchanged and the store becomes dirty. A truthy `values` that is a string, number or boolean throws, since module code is strict and assigning an index of a primitive fails there. Plain-object `values` are not modelled. |
| BalanceStore.UpdateThenRead | frontend/src/stores/balance.ts:490-500 | After an edit, the table shows the new value in that cell, every other cell as before, and any added gap as empty. |
| BalanceStore.UpdateKeepsIterable | frontend/src/stores/balance.ts:490-500 | After an edit, the fragment's totals can be computed. |
| Cors.AllowedOrigins | backend/src/utils/cors.rs:18-19 | An unset variable means "http://localhost:5173", and a set one is used as it is. |
| Cors.AnyMatches | backend/src/utils/cors.rs:30 | The scan finds the origin exactly when some comma-separated entry, trimmed, equals it. |
| Cors.OriginToAllow | backend/src/utils/cors.rs:21-40 | The answer is the configuration or the request's origin. Without an Origin header it is the configuration. With one, the origin is echoed exactly when the configuration is `*`, lists it, or equals it. |
| Cors.EchoOnlyListed | backend/src/utils/cors.rs:24-36 | An origin other than the configuration is echoed exactly when the configuration is `*` or lists it. |
| Cors.ListedOrigins | backend/src/utils/cors.rs:30 | Joining comma-free entries into a list allows exactly the entries, whatever whitespace surrounds them. |
| Cors.SingleOrigin | backend/src/utils/cors.rs:24-40 | A single configured origin without edge whitespace is always the answer. |
| Cors.DefaultAllowsDevServer | backend/src/utils/cors.rs:18-40 | Without configuration the answer is always the development server's origin. |
| Cors.CorsHeaders | backend/src/utils/cors.rs:42-51 | Four headers are set, the first being the allowed origin. |
| Cors.HeadersFixedButOrigin | backend/src/utils/cors.rs:43-51 | The methods, headers and credentials values never depend on the request or the configuration, and credentials are always "true". |

## Left out

- The xlsx workbook itself is not modelled: formats, column widths and `save_to_buffer`. The sheet is the list of writes and merges `create_data_sheet` issues, with formats as tags. The worksheet's limits are kept in `DataSheet`: the name rules of `set_name`, the row and column bounds, and the 32,767-character cell string limit.
- DataSheet.ExportError: the name errors of `set_name` (blank, over 31 characters, a forbidden character, an apostrophe at either end) are one `SheetNameInvalid`. The reserved name "History" is not listed, because "<year>.ICS" can never equal it.
- chrono is not modelled. Dates are day numbers, with a weekday function and a civil-date conversion.
- `calculate_week_dates` and `parse_fragment_data` require a non-negative week count, because `Vec::with_capacity` panics on a negative one.
- `parse_consultas_data` and `parse_examenes_data` also require a non-negative week count. For a negative one, `weeks as usize` is close to 2^64 and the multiplication by four overflows: a debug build panics and a release build wraps. Neither outcome is modelled.
- The `display_range` string is computed but never shown, so it is not modelled. Each week keeps the end date it would print.
- The `Mutex` and `Instant::now()` of the rate limiter are not modelled. The clock is an explicit argument, in nanoseconds.
- The `coef` column of the tally is not modelled, because it is floating-point rounding. `isPositiveNumber` is not modelled, because of `parseInt` and `NaN`. The store's asynchronous actions are not modelled: fetching, saving, creating and their loading and error flags.
- Unicode is modelled exactly only within Latin-1. Outside Latin-1 the model is as follows:
  - `is_uppercase`, `is_lowercase`, `is_numeric` and `is_alphanumeric` are false on every character above U+00FF.
  - Whitespace is the exception and is exact: Unicode's White_Space set, with U+0085 only for Rust and U+FEFF only for JavaScript.
- The validators' JavaScript `null`/`undefined` arguments are not modelled. The parameters are typed `string`; the empty string covers `!value`.
- FrontendValidation.ValidateField: the `default:` branch is not modelled separately. It covers kinds outside the parameter's union type, and it behaves as `text`.
- BalanceTable.GetCellValue: a boolean or array cell, which the parameter type excludes, shows as empty here. The source would return the value itself.
- BalanceTable.GenerateWeekGroups: requires a positive group size; with 0 or less the source loops forever.
- BalanceStore.UpdateFragmentCell: a negative or fractional index sets a property, not an element. Only the negative case is modelled, as "cells unchanged".
- BalanceStore.UpdateFragmentCell: plain-object `values` are not modelled, because `JsValue` has no object case. The source gives such an object a property named after the index and does not throw.
- BalanceStore.CalculateAllFragments: data values that are plain objects are not modelled, because `JsValue` has no object case. Iterating one would throw, like a number.
- The store's state is reduced to the selection, the current balance's fragments, the current fragment's data, the computed rows and the dirty flag. Other fields of the editable balance are not modelled.
- `validate_new_user` returns `Json(...)` for a bad password at validation.rs:110, which does not type-check. It is modelled as the intended `ValidationResult::error` with the same message.
- BackendValidation.ValidateNewUser: uses the corrected password check, so unlike line 109 it refuses "Ab1" and any password under 8 bytes or without a special character. BackendValidation.ValidateNewUserAsWritten models the call as written.

## Findings

| source | as written | input that shows it | evidently intended | confidence | as-written member | corrected member |
|---|---|---|---|---|---|---|
| backend/src/utils/validation.rs:60 | `password.len() <= 8 && password.len() >= 128` can never hold, so no length is refused | "Ab1" (3 bytes) is accepted | refuse fewer than 8 or more than 128 bytes | high, not executed | BackendValidation.PasswordAsWrittenAcceptsShort | BackendValidation.PasswordCorrected |
| backend/src/utils/validation.rs:66 | `has_special` tests `is_alphanumeric`, so any letter satisfies it | "Ab1" has no special character and is accepted | require a non-alphanumeric character, as the error message at line 110 says | high, not executed | BackendValidation.IsValidPasswordAsWritten | BackendValidation.IsValidPassword |
