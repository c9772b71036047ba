# Layered student registry — business core in Dafny

This project models the business layer of a small three-tier student registry.

- The validator checks inbound student data: required fields, a 10-digit student code, the email pattern, the five majors, the GPA range, the four statuses and the numeric id read by `parseInt`.
- The service runs each use case as validation, lookup, business rule, then one write. The use cases are list with statistics, get, create, update, update GPA, update status and delete.
- The service enforces the lifecycle rules: a withdrawn student's status is final, an active student cannot be deleted, and a duplicate code or email becomes a ConflictError.
- The error middleware maps an error's name to an HTTP status.
- The pure helpers of the browser script are modelled too: HTML escaping, the GPA badge class, and the "all" filter value meaning no filter.

The service and the store change state in place, so they are classes:

- `StudentService.Service` holds `StudentRepository.Repository`.
- The repository keeps the table as a `map` from id to row, plus the AUTOINCREMENT counter.
- The repository enforces the UNIQUE columns and the column defaults declared by the table.
- A failure of the database engine on a write is passed in as a `fault` parameter; reads cannot fail.
- The validator, the statistics, the error handler and the browser helpers are pure, so they are functions and lemmas.

`JsText` models the two pieces of the JavaScript runtime that the validator relies on. The first is the regular-expression class `\s`. The second is global `parseInt` with no radix, as in ECMAScript section 19.2.5:

- leading whitespace is trimmed;
- an optional sign is read;
- a `0x` prefix selects radix 16;
- the longest run of digits is read;
- no digit at all gives NaN.

Each service method states three things:

- every error case the model has (validation, lookup, business rule, write failure), in the order the source checks them;
- the whole new state of the store;
- the invariant it keeps. The invariant is that the store is valid, every row passes every validator (`Admissible`), and `LifecycleKept` holds: a withdrawn status never changes and an active row is never removed.

## Model

| member | source | states |
|---|---|---|
| StudentValidator.ValidateStudentData | midterm-individual-67543210042-7/layered-student/src/business/validators/studentValidator.js:4-14 | passes exactly when the body is present and all five fields are present and non-empty; otherwise fails with ValidationError "All fields are required" |
| StudentValidator.MatchDigitsMeaning | midterm-individual-67543210042-7/layered-student/src/business/validators/studentValidator.js:18 | the anchored pattern `\d{k}` matches exactly the strings of length k made of ASCII digits (both directions) |
| StudentValidator.ValidateStudentCode | midterm-individual-67543210042-7/layered-student/src/business/validators/studentValidator.js:16-27 | passes exactly when the code is ten ASCII digits; otherwise fails with the code-format ValidationError |
| StudentValidator.StudentCodeExamples | midterm-individual-67543210042-7/layered-student/src/business/validators/studentValidator.js:16-27 | "6754321004" passes; a nine-digit code and a code with a letter fail |
| StudentValidator.EmailPatternMeaning | midterm-individual-67543210042-7/layered-student/src/business/validators/studentValidator.js:30 | the email regex matches exactly the strings with no whitespace, exactly one `@` that is not first, and a `.` after it that is neither first nor last in the domain (both directions) |
| StudentValidator.ValidateEmail | midterm-individual-67543210042-7/layered-student/src/business/validators/studentValidator.js:29-39 | passes exactly for well-shaped emails; otherwise fails with "Invalid email format" |
| StudentValidator.ValidateMajor | midterm-individual-67543210042-7/layered-student/src/business/validators/studentValidator.js:41-53 | passes exactly for CS, SE, IT, CE or DS with exact case; a missing major fails with the major ValidationError |
| StudentValidator.ValidateGpa | midterm-individual-67543210042-7/layered-student/src/business/validators/studentValidator.js:55-63 | passes exactly when a GPA is given and lies in [0.0, 4.0] with both ends included; otherwise fails with the GPA ValidationError |
| StudentValidator.ValidateStatus | midterm-individual-67543210042-7/layered-student/src/business/validators/studentValidator.js:65-77 | passes exactly for the four lifecycle statuses with exact case; otherwise fails with the status ValidationError |
| StudentValidator.ValidateId | midterm-individual-67543210042-7/layered-student/src/business/validators/studentValidator.js:79-89 | fails exactly when `parseInt` gives NaN or a value <= 0; on success returns that positive value |
| StudentValidator.ValidateIdOfDecimal | midterm-individual-67543210042-7/layered-student/src/business/validators/studentValidator.js:79-89 | for every positive n, the decimal numeral of n accepts as n, with any leading whitespace and any trailing text that starts with a non-digit |
| StudentValidator.ValidateIdNoLeadingDigit | midterm-individual-67543210042-7/layered-student/src/business/validators/studentValidator.js:79-86 | every id whose first character after the whitespace and the sign is missing or is not a decimal digit is refused with ValidationError "Invalid student ID" |
| StudentValidator.ValidateIdTrailingText | midterm-individual-67543210042-7/layered-student/src/business/validators/studentValidator.js:80 | " 7abc" is accepted as id 7 |
| StudentValidator.ValidateIdHex | midterm-individual-67543210042-7/layered-student/src/business/validators/studentValidator.js:80 | "0x1A" is accepted as id 26, because `parseInt` honours the hex prefix |
| StudentValidator.ValidateIdZero | midterm-individual-67543210042-7/layered-student/src/business/validators/studentValidator.js:82 | "0" is refused |
| StudentValidator.ValidateIdNegative | midterm-individual-67543210042-7/layered-student/src/business/validators/studentValidator.js:82 | "-5" is refused |
| StudentValidator.ValidateIdNotANumber | midterm-individual-67543210042-7/layered-student/src/business/validators/studentValidator.js:82 | "abc" and "" are refused, as NaN |
| StudentValidator.ValidateMajorIfProvided | midterm-individual-67543210042-7/layered-student/src/business/validators/studentValidator.js:92-97 | an absent filter passes; a present one is checked like a major |
| StudentValidator.ValidateStatusIfProvided | midterm-individual-67543210042-7/layered-student/src/business/validators/studentValidator.js:99-104 | an absent filter passes; a present one is checked like a status |
| JsText.ParseInt | midterm-individual-67543210042-7/layered-student/src/business/validators/studentValidator.js:80 | empty or all-whitespace input gives NaN; a number is read only when the input holds a hexadecimal digit character (0-9, a-f, A-F); a negative result needs a `-` in the input; its NaN cases are stated exactly by `JsText.ParseIntNaN` |
| JsText.ParseIntNaN | midterm-individual-67543210042-7/layered-student/src/business/validators/studentValidator.js:80-82 | `parseInt` gives NaN exactly when the first character after the whitespace and one optional sign is missing or is not a decimal digit, or that text starts with a `0x`/`0X` prefix not followed by a hexadecimal digit |
| JsText.ParseIntOfDecimal | midterm-individual-67543210042-7/layered-student/src/business/validators/studentValidator.js:80 | `parseInt` of whitespace, a positive decimal numeral, then text not starting with a digit, gives the numeral's value |
| JsText.NumeralValueOfDecimal | midterm-individual-67543210042-7/layered-student/src/business/validators/studentValidator.js:80 | reading back the decimal numeral of n in radix 10 gives n (the round trip of `String(n)` and `parseInt`) |
| StudentService.ValidateFields | midterm-individual-67543210042-7/layered-student/src/business/services/studentService.js:62-68 | passes exactly when presence, code, email and major all pass; the first failing check, in that order, gives its own error message; every failure is a ValidationError |
| Statistics.CountStatus | midterm-individual-67543210042-7/layered-student/src/business/services/studentService.js:17-19 | the count is at most the list length; it is 0 exactly when no student has the status, and the full length exactly when every student has it |
| Statistics.SumGpa | midterm-individual-67543210042-7/layered-student/src/business/services/studentService.js:24 | when every GPA lies in [0.0, 4.0], the sum lies between 0 and 4 times the list length |
| Statistics.ComputeStatistics | midterm-individual-67543210042-7/layered-student/src/business/services/studentService.js:17-26 | total is the list length; the three counts never exceed the total together with the withdrawn count; an empty list gives all zeros and average 0 |
| Statistics.CountsBounded | midterm-individual-67543210042-7/layered-student/src/business/services/studentService.js:17-20 | the four status counts sum to at most the list length, whatever the statuses |
| Statistics.CountsPartition | midterm-individual-67543210042-7/layered-student/src/business/services/studentService.js:17-20 | when every status is one of the four, active + graduated + suspended + withdrawn equals the total |
| Statistics.Round2 | midterm-individual-67543210042-7/layered-student/src/business/services/studentService.js:23-25 | `parseFloat(x.toFixed(2))` is a multiple of 0.01 within 0.005 of x, and is non-negative for non-negative x |
| Statistics.AverageGpa | midterm-individual-67543210042-7/layered-student/src/business/services/studentService.js:22-26 | 0 for an empty list; otherwise within 0.005 of the mean GPA; always a multiple of 0.01 (rounded to two places) |
| Statistics.AverageWithinRange | midterm-individual-67543210042-7/layered-student/src/business/services/studentService.js:22-26 | when every GPA lies in [0.0, 4.0], so does the rounded average |
| Statistics.StatisticsOfFour | midterm-individual-67543210042-7/layered-student/src/business/services/studentService.js:17-38 | two active, one graduated and one suspended student with GPAs 3.0, 4.0, 2.0, 1.0 give counts 2/1/1, total 4, average 2.5 |
| Errors.TranslateStorageError | midterm-individual-67543210042-7/layered-student/src/business/services/studentService.js:73-79 | a SQLITE_CONSTRAINT failure becomes ConflictError "Student code or email already exists"; any other failure is rethrown unchanged |
| StudentRepository.Repository.constructor | layered-student/src/data/database/connection.js:19-33 | the fresh table is empty, valid, and its id counter starts at 1 |
| StudentRepository.Repository.FindById | midterm-individual-67543210042-7/layered-student/src/business/services/studentService.js:47 | some row exactly when the id is a key; that row carries that id |
| StudentRepository.Repository.FindAll | midterm-individual-67543210042-7/layered-student/src/business/services/studentService.js:14 | lists exactly the stored rows that pass the optional major and status filters, each once, by ascending id |
| StudentRepository.Repository.Create | layered-student/src/data/database/connection.js:21-31 | an engine fault or a duplicate code or email leaves the table unchanged; otherwise the row gets the next AUTOINCREMENT id, gpa 0.0, status "active" and the given creation time, and uniqueness is kept |
| StudentRepository.Repository.Update | layered-student/src/data/database/connection.js:21-31 | the five form fields of the row are rewritten unless the code or email is taken by another row; id, gpa, status and creation time stay |
| StudentRepository.Repository.UpdateGpa | layered-student/src/data/database/connection.js:28 | only the row's gpa changes |
| StudentRepository.Repository.UpdateStatus | layered-student/src/data/database/connection.js:29 | only the row's status changes |
| StudentRepository.Repository.Delete | layered-student/src/data/database/connection.js:22 | the row is removed and no other row changes; the counter is not rewound |
| StudentService.Service.constructor | midterm-individual-67543210042-7/layered-student/src/business/services/studentService.js:169 | the service starts valid over an empty store |
| StudentService.Service.GetAllStudents | midterm-individual-67543210042-7/layered-student/src/business/services/studentService.js:8-39 | checks the major filter, then the status filter; then lists exactly the matching rows, each once by ascending id, with statistics computed from that list; the counts partition the total and the average lies in [0, 4] |
| StudentService.Service.GetStudentById | midterm-individual-67543210042-7/layered-student/src/business/services/studentService.js:42-58 | an invalid id gives the id ValidationError; an unknown id gives NotFoundError "Student not found"; otherwise gives the stored row, which satisfies every validator |
| StudentService.Service.CreateStudent | midterm-individual-67543210042-7/layered-student/src/business/services/studentService.js:61-81 | validation errors in source order; a duplicate gives ConflictError (status 409); another engine failure is rethrown (status 500 unless it carries a tagged name); success gives a new row with the input fields, gpa 0.0 and status "active"; the store invariant and the lifecycle rules are kept |
| StudentService.CreateThenFetch | midterm-individual-67543210042-7/layered-student/src/business/services/studentService.js:42-81 | a successful create followed by a get with the decimal text of the new id returns the created record |
| StudentService.Service.UpdateStudent | midterm-individual-67543210042-7/layered-student/src/business/services/studentService.js:84-108 | id check, field checks, lookup (NotFoundError), then the write; a duplicate with another row gives ConflictError; only the five fields change; errors leave the store unchanged |
| StudentService.Service.UpdateGpa | midterm-individual-67543210042-7/layered-student/src/business/services/studentService.js:111-123 | id check, GPA range check, lookup, then only the gpa of that row changes |
| StudentService.Service.UpdateStatus | midterm-individual-67543210042-7/layered-student/src/business/services/studentService.js:126-145 | id check, status check, lookup; a withdrawn student gives ValidationError "Cannot change status of withdrawn student" (status 400) and the store is unchanged; otherwise only the status changes |
| StudentService.Service.DeleteStudent | midterm-individual-67543210042-7/layered-student/src/business/services/studentService.js:148-166 | id check, lookup; an active student gives the delete ValidationError (status 400) and is kept; otherwise exactly that row is removed |
| ErrorHandler.HandleError | midterm-individual-67543210042-7/layered-student/src/presentation/middlewares/errorHandler.js:2-30 | ValidationError → 400, NotFoundError → 404, ConflictError → 409, each with the message; anything else → 500 with the message, or "Internal server error" when the message is empty |
| ErrorHandler.StatusDependsOnlyOnName | midterm-individual-67543210042-7/layered-student/src/presentation/middlewares/errorHandler.js:6-29 | two errors with the same name get the same status, always one of 400, 404, 409, 500 |
| ErrorHandler.BodyCarriesMessage | midterm-individual-67543210042-7/layered-student/src/presentation/middlewares/errorHandler.js:6-29 | a non-empty message is always the body; the body is empty only for a tagged error with an empty message |
| ErrorHandler.TaggedErrorStatuses | midterm-individual-67543210042-7/layered-student/src/presentation/middlewares/errorHandler.js:6-24 | the service's three error kinds map to 400, 404 and 409 whatever their message |
| UiHelpers.EscapeChar | layered-student/public/js/app.js:260-266 | each of `& < > " '` becomes its entity; every other character stays |
| UiHelpers.EscapeHtml | layered-student/public/js/app.js:259-268 | the escaped text is never shorter than the input and contains no `<`, `>`, `"` or `'` |
| UiHelpers.EscapeHtmlConcat | layered-student/public/js/app.js:267 | escaping distributes over concatenation (a global, left-to-right replace) |
| UiHelpers.EscapeHtmlPreserves | layered-student/public/js/app.js:259-268 | text without special characters is unchanged |
| UiHelpers.UnescapeEscapeHtml | layered-student/public/js/app.js:259-268 | decoding the five entities recovers the original text |
| UiHelpers.EscapeHtmlInjective | layered-student/public/js/app.js:259-268 | different texts never escape to the same markup |
| UiHelpers.GpaClass | layered-student/public/js/app.js:99-104 | excellent iff gpa >= 3.5, good iff in [3.0, 3.5), fair iff in [2.0, 3.0), poor iff < 2.0 |
| UiHelpers.GpaClassMonotone | layered-student/public/js/app.js:99-104 | a higher GPA never gets a lower class |
| UiHelpers.FilterParam | layered-student/public/js/app.js:125-128 | "all" maps to no filter; any other value is sent unchanged |
| UiHelpers.QueryFilter | layered-student/public/js/api.js:19-20 | a missing or empty filter adds no query parameter; any other value is sent unchanged |
| UiHelpers.StatusFilterAccepted | layered-student/public/js/app.js:252-255 | a status button, sent through the query builder, passes the service's filter check exactly when it is "all", empty, or one of the four statuses |
| UiHelpers.MajorFilterAccepted | layered-student/public/js/app.js:252-255 | a major button, sent through the query builder, passes the service's filter check exactly when it is "all", empty, or one of the five majors |

## Left out

- Lookup key: the service validates the id, but then hands the raw id text to the repository. The model looks the row up by the parsed value. `findById` and its SQL are not part of this model, so how SQLite compares a text such as "0x1A" or " 7abc" with an integer key is not captured.
- Repository SQL and order: the repository file is not part of this model. `findAll` is specified by its contents, and the model scans in ascending id order. The source's SQL may order rows differently.
- Repository preconditions: `Repository.Update`, `Repository.UpdateGpa` and `Repository.UpdateStatus` require the id to be present. The service has always found the row just before it calls them. What the SQL does with an absent id is not modelled.
- Repository.Update: writes only the five form fields, the ones the browser form sends. Any other column in the update body is not modelled.
- Creation time: `created_at` is a `now` parameter rather than the database clock.
- Engine failures: every write's failure (disk, locking and the like) arrives through the `fault` parameter. Its causes are not modelled.
- Reads: `Repository.FindAll` and `Repository.FindById` cannot fail. A storage error on a read is not modelled. The source propagates such an error unchanged, and it becomes a 500. So `Service.GetAllStudents` always succeeds once its filters pass, and no id-addressed service method fails at its lookup except with NotFoundError.
- Statistics.Round2: computed on exact reals. Double-precision sums and the binary representation used by `toFixed` can differ from it by one cent at a tie, so the contract states only the 0.005 bound and the two-decimal grid.
- JsText.ParseInt: returns an unbounded integer. Numerals longer than a double represents exactly lose precision in JavaScript, and the model does not capture that.
- StudentValidator.ValidateGpa: takes an optional real, where None stands for `undefined`. JavaScript coercions of `null`, strings and NaN in the comparisons are not modelled. For example, `null` passes the source check.
- StudentValidator.ValidateStudentData: takes optional strings. The truthiness of non-string field values, such as numbers, is not modelled.
- UiHelpers.EscapeHtml: applies to text. The `String(text)` conversion of non-string values is not modelled.
- Asynchrony: the `async`/`await` structure and any interleaving of concurrent requests are not modelled. Each service call is atomic.
- Logging and UI: `console.error` in the error handler, and the DOM rendering, alerts and confirms of the browser script, are left out.
- The browser's own delete guard is left out.
- The browser-side fetch wrapper (`api.js`) is left out, except its rule that an empty filter adds no query parameter (`UiHelpers.QueryFilter`). URL encoding and decoding of a filter value are assumed to give the value back.
- The database connection I/O is left out.
