# Home-PM-Log: a Dafny model of the maintenance tracker's rules

Home-PM-Log is a small Next.js application for recurring home-maintenance chores. Each
task repeats every N days, weeks, months or years. Marking a task done moves its next due
date forward. The task list shows how far away each due date is, and photos can be
attached to a task. This project models the parts of the application that make decisions,
and proves what they promise:

- **Dates** (`lib/dates.ts`): `addInterval` and `computeNextDue`.
  - A date is a civil date (year, month 0..11, day of month) with an opaque time of day.
  - Dates are read and written through a proleptic-Gregorian day number and its inverse.
  - Out-of-range fields roll over as in ECMA-262's MakeDay, the rule JavaScript's
    `setDate`, `setMonth` and `setFullYear` follow.
  - Day numbers are laid out on a line of months. ECMA-262's closed form `DayFromYear` is
    proved to agree with it.
- **Js**: the JavaScript semantics the handlers lean on.
  - JSON values and truthiness.
  - `Number(...)` over decimal text.
  - `String.prototype.trim` over the ECMA-262 white-space set.
  - The decimal rendering of integers inside template literals.
- **Uri**: `encodeURIComponent` as UTF-8 percent-encoding, and `decodeURIComponent` as its
  inverse.
- **Storage** (`lib/storage.ts`):
  - `sanitizeFilename` and `getStorageConfig`.
  - The stored file name and the object path.
  - The `storeImage` method on a `StorageBackend` object that holds the remote bucket and
    the local uploads directory.
- **TaskCreate** (`app/api/tasks/route.ts`): the guard chain of `POST` and the row it
  writes.
- **Categories** (`app/api/categories/route.ts`, repeated in `app/tasks/page.tsx`): the
  trim-and-drop-empty pass over category rows.
- **TasksPage** (`app/tasks/page.tsx`):
  - `daysUntil`, `duePillClass` and `dueLabel`.
  - The overdue and due-soon counters.
  - `categoryHref` and the task filter.
  - The plural endings.
- **Proxy** (`lib/supabase/proxy.ts`): `getSupabaseEnv`, and the pass / 401 / redirect
  decision of `updateSession`.
- **Uploads** (`app/api/uploads/route.ts`): `POST` as a method on an `AttachmentTable`
  object. It covers the error precedence, and it appends exactly one row when the file is
  stored.
- **Wrappers** and **Http** hold `Option`, `Result` and the JSON response shape.

Several inputs are passed in as parameters rather than read:

- The clock (`Date.now()`, `new Date()`).
- `randomUUID()`.
- The signed-in user.
- The request body.
- The environment variables, as a map.
- The outcomes of the foreign storage calls.

Three consequences of the code worth knowing:

- **Categories.** The category list is not de-duplicated after trimming. The database
  removes duplicates before the trim, so "HVAC" and "HVAC " both come back as "HVAC"
  (`Categories.TrailingSpaceDuplicates`).
- **Month arithmetic.** Month steps do not clamp to the end of the month: 31 January +
  3 months is 1 May (`Dates.AddMonths`, `Dates.JanuaryEndPlusThreeMonths`).
- **Local storage overwrites.** The remote bucket refuses a key that is already taken,
  because the upload is made with `upsert: false`. The local branch's `writeFile`
  replaces a file of the same name. `Storage.StorageBackend.StoreImage` states both: the
  bucket keeps every old entry, and the uploads directory gains or replaces the entry for
  the stored file name.

## Model

| member | source | states |
|---|---|---|
| Dates.FromDayNumber | lib/dates.ts:2-19 | the date a day number and time of day stand for: its day number is exactly the given one and its time of day is kept (the inverse of Day) |
| Dates.FromDayNumberOfDay | lib/dates.ts:2 | copying a date through its day number gives back the same date: `new Date(date)` is an exact copy |
| Dates.DayInjective | lib/dates.ts:2-19 | two valid dates with the same day number have the same year, month and day |
| Dates.MonthWalk | lib/dates.ts:5-17 | walking from a month by an offset in days lands in the month that holds that day, at an index within its length |
| Dates.YearStartIsDayFromYear | lib/dates.ts:14 | the first of January of every year falls on ECMA-262's DayFromYear, so the month line is the calendar the setters use |
| Dates.MakeDayByMonthIndex | lib/dates.ts:11 | MakeDay adds the month argument to the year's month index, carrying whole years |
| Dates.FromMonthStart | lib/dates.ts:10-15 | a day of month the month has is kept; a day past the month's end spills into the following month by the surplus |
| Dates.AddInterval | lib/dates.ts:1-20 | `addInterval` returns a fresh date whose day number is the one the unit's setter computes and whose time of day is the argument's; the per-unit meaning is Dates.AddDays, Dates.AddWeeks, Dates.AddMonths, Dates.AddYears and Dates.UnknownUnitIsDays |
| Dates.AddDays | lib/dates.ts:4-6 | unit "day" moves the day number by exactly `interval` and keeps the time of day |
| Dates.AddWeeks | lib/dates.ts:7-9 | unit "week" is unit "day" with seven times the interval |
| Dates.AddMonths | lib/dates.ts:10-12 | unit "month" advances the month index by `interval`, carrying into the year; the day is kept, or spills into the next month without clamping |
| Dates.AddYears | lib/dates.ts:13-15 | unit "year" keeps month and day; 29 February in a year without one becomes 1 March |
| Dates.UnknownUnitIsDays | lib/dates.ts:16-17 | any unit other than the four behaves exactly like "day" |
| Dates.LaterForPositiveInterval | lib/dates.ts:1-20 | for an interval of at least one, every unit gives a strictly later day and time value, at the same time of day |
| Dates.DaysCompose | lib/dates.ts:4-6 | adding a days and then b days equals adding a + b days |
| Dates.AddDaysTimeValue | lib/dates.ts:4-6 | adding days moves the time value by exactly that many times 86 400 000 ms |
| Dates.ComputeNextDue | lib/dates.ts:22-25 | the next due date keeps the base's time of day and lies strictly after the base (lastDoneAt, or now) for an interval of at least one |
| Dates.ComputeNextDueBase | lib/dates.ts:23-24 | the base is lastDoneAt when present and the clock reading otherwise |
| Dates.JanuaryEndPlusOneMonth | lib/dates.ts:10-12 | 31 January + 1 month is 3 March in a common year and 2 March in a leap year |
| Dates.JanuaryEndPlusThreeMonths | lib/dates.ts:10-12 | 31 January + 3 months is 1 May |
| Dates.LeapDayPlusOneYear | lib/dates.ts:13-15 | 29 February of a leap year + 1 year is 1 March of the next year |
| Dates.MonthStepsDoNotCompose | lib/dates.ts:10-12 | in a common year, two one-month steps from 31 January reach 3 April, while one two-month step reaches 31 March |
| Js.LeadingWhiteSpace | app/api/categories/route.ts:16 | counts the white space at the start of a string and stops at the first other character |
| Js.TrailingWhiteSpace | app/api/categories/route.ts:16 | counts the white space at the end of a string and stops at the last other character |
| Js.Trim | app/api/categories/route.ts:16 | `trim` never lengthens a string, and a non-empty result starts and ends with a non-white-space character; Js.TrimSplits, Js.TrimEmptyIff and Js.TrimIdempotent relate it to its input |
| Js.TrimSplits | app/api/categories/route.ts:16 | `trim` cuts a string into white space, a middle with non-white-space ends, and white space |
| Js.TrimEmptyIff | app/api/categories/route.ts:16-17 | `trim` gives the empty string exactly when the string is all white space |
| Js.TrimIdempotent | app/api/categories/route.ts:16 | trimming twice is trimming once |
| Js.TrimExact | app/api/tasks/route.ts:13 | white space around a string with non-white-space ends is removed and nothing else |
| Js.NatToString | lib/storage.ts:30 | `${n}` is a non-empty digit string with no leading zero whose value is n |
| Js.IntToString | lib/storage.ts:30 | `${i}` is the digits of the absolute value of i, preceded by '-' exactly when i is negative |
| Js.NumberOfNatToString | app/api/tasks/route.ts:13 | `Number` of a natural number's decimal text, with any surrounding white space, is that number |
| Js.ToNumber | app/api/tasks/route.ts:13 | `Number(...)`: undefined gives NaN; null, false, "" and [] give 0; true gives 1; Js.NumberOfNatToString reads decimal text back as its number |
| Uri.DecodeEncode | app/tasks/page.tsx:53 | `decodeURIComponent(encodeURIComponent(s)) == s` for every string |
| Uri.NoQueryDelimiters | app/tasks/page.tsx:53 | the encoding contains no `&`, `=`, `#`, `+` or space, so it stays one query value |
| Uri.EncodeExample | app/tasks/page.tsx:53 | `encodeURIComponent("A&B")` is `A%26B` |
| Uri.EncodeURIComponent | app/tasks/page.tsx:53 | the encoding is never shorter than the string and is empty exactly for the empty string; Uri.DecodeEncode and Uri.NoQueryDelimiters state its round trip and its alphabet |
| Storage.SanitizeFilename | lib/storage.ts:6-8 | every character of the result is in `[a-zA-Z0-9._-]`, and its length is the name's length in UTF-16 code units |
| Storage.SanitizeKeepsAllowed | lib/storage.ts:6-8 | a name of allowed characters is left unchanged |
| Storage.SanitizeIdempotent | lib/storage.ts:7 | sanitising twice is sanitising once |
| Storage.SanitizeByPosition | lib/storage.ts:7 | within the Basic Multilingual Plane the map works position by position: allowed characters stay, any other becomes `_` |
| Storage.SanitizeAppend | lib/storage.ts:7 | the replacement works unit by unit: sanitising a concatenation concatenates the sanitised parts |
| Storage.SanitizeByCodeUnit | lib/storage.ts:6-8 | for every name, the code unit where character i starts is that character when allowed and `_` otherwise, and both code units of a character beyond the Basic Multilingual Plane become `_` |
| Storage.SanitizeExample | lib/storage.ts:7 | `../x` becomes `.._x` |
| Storage.GetStorageConfig | lib/storage.ts:10-16 | no configuration exactly when the URL, service key or bucket is unset or empty; otherwise all three as set |
| Storage.ContentType | lib/storage.ts:31 | the declared type when non-empty, otherwise `application/octet-stream` |
| Storage.StoredFilename | lib/storage.ts:30 | the stored name is as long as the timestamp, the UUID, two separators and the sanitised name, and it ends with the sanitised name; Storage.StoredFilenameSegments gives every segment |
| Storage.StoredFilenameSegments | lib/storage.ts:30 | the stored name is the clock reading, `-`, the UUID, `-` and the sanitised name, in that order |
| Storage.ObjectPath | lib/storage.ts:39 | the bucket key starts with the user id and a `/`, and ends with the file name |
| Storage.LocalPath | lib/storage.ts:69 | the public path of a local file is `/uploads/` followed by the file name, with nothing in between |
| Storage.StoreResult | lib/storage.ts:18-74 | storeImage's outcome: a taken key with a configuration always fails, so nothing is overwritten; success with a configuration means the upload reported no error; success without one means it was not production and the write reported no error |
| Storage.StorageBackend.StoreImage | lib/storage.ts:18-74 | the result follows the branch order (upload error, existing key, production refusal, write error); the bucket gains the one new object only on a remote success and never overwrites; the uploads directory gains the file only on a local success |
| Storage.StoredRecord | lib/storage.ts:49-54 | a successful store reports the unsanitised name, the content type and the byte count |
| Storage.StoredPath | lib/storage.ts:48-69 | the remote path is the public URL; the local path is `/uploads/` and the stored file name, with no user or folder segment |
| Storage.ProductionRefusal | lib/storage.ts:57-61 | without a configuration in production the store fails with the not-configured message, whatever the writes would do |
| Storage.RemoteFailure | lib/storage.ts:40-46 | a configured store fails exactly when the upload reports an error or the key is already taken |
| Storage.StoredFilenameHasNoSlash | lib/storage.ts:30 | the stored file name has no `/` whatever the original name, so it cannot leave its folder |
| Storage.ObjectPathSegments | lib/storage.ts:39 | the object path is the user id, the folder and the file name, separated by `/` |
| TaskCreate.OrNull | app/api/tasks/route.ts:37-42 | `value \|\| null` is null exactly for a falsy value and the value otherwise |
| TaskCreate.CreateTask | app/api/tasks/route.ts:8-47 | the task is created exactly when there is a user, a truthy title and interval, an allowed unit and an interval that is a whole number of at least one; every error the model answers is a 400 or a 401 (the thrown 500s are listed under Left out) |
| TaskCreate.UnauthorizedFirst | app/api/tasks/route.ts:9-10 | without a user the answer is 401, whatever the body holds |
| TaskCreate.GuardOrder | app/api/tasks/route.ts:15-28 | missing fields are reported before a bad unit, and a bad unit before a bad interval |
| TaskCreate.ZeroIntervalIsMissing | app/api/tasks/route.ts:15-17 | an interval of 0 or "" is reported as missing, never as a bad integer |
| TaskCreate.NumericStringAccepted | app/api/tasks/route.ts:13-28 | a numeric string such as " 3 " is accepted as its number |
| TaskCreate.TrueIsIntervalOne | app/api/tasks/route.ts:13-23 | `true` converts to an interval of 1 and is accepted |
| TaskCreate.BlankTitlePasses | app/api/tasks/route.ts:15 | a non-empty title of white space only is truthy and not trimmed, so it passes the missing-field guard |
| TaskCreate.CreatedRow | app/api/tasks/route.ts:30-44 | the row written: the user, the title, the parsed interval, an allowed unit, null for a falsy category or notes, lastDoneAt only when truthy, and the due date from computeNextDue, strictly after its base |
| Categories.CleanCategories | app/api/categories/route.ts:15-17 | no more categories than rows, each non-empty and already trimmed |
| Categories.GetCategories | app/api/categories/route.ts:5-19 | 401 exactly without a user; otherwise the cleaned rows |
| Categories.CleanAppend | app/api/categories/route.ts:15-17 | the pass goes row by row: cleaning a concatenation concatenates the cleaned parts, in order |
| Categories.CleanSingle | app/api/categories/route.ts:16-17 | one row gives its trimmed text, unless it is null or trims to nothing |
| Categories.CleanMembership | app/api/categories/route.ts:15-17 | a name is listed exactly when it is non-empty and some row trims to it |
| Categories.CleanIdempotent | app/api/categories/route.ts:15-17 | cleaning a cleaned list again changes nothing |
| Categories.TrailingSpaceDuplicates | app/api/categories/route.ts:11-17 | rows "X" and "X " both survive as "X": duplicates are removed before trimming |
| Categories.PaddedRowCleans | app/api/categories/route.ts:16-17 | a row holding a name followed by white space cleans to the name alone |
| Categories.WhiteSpaceRowDropped | app/api/categories/route.ts:16-17 | a white-space-only row contributes nothing, wherever it stands |
| TasksPage.CeilDiv | app/tasks/page.tsx:13 | `Math.ceil(a / b)`: the least q with a <= q * b |
| TasksPage.DaysUntil | app/tasks/page.tsx:10-14 | +Infinity exactly without a date; otherwise the least whole number of days at or after the distance from now |
| TasksPage.DaysUntilUnique | app/tasks/page.tsx:13 | that whole number is the only one with the property |
| TasksPage.DaysUntilAfterAddingDays | app/tasks/page.tsx:10-14 | a date n whole days after now is due in exactly n days |
| TasksPage.PillClassExactlyOne | app/tasks/page.tsx:16-20 | overdue exactly when days < 0, due exactly when 0 <= days <= 7, ok otherwise |
| TasksPage.DuePillClass | app/tasks/page.tsx:16-20 | the class is one of the three pill classes, and a task without a date (+Infinity days) is ok; TasksPage.PillClassExactlyOne gives the exact conditions |
| TasksPage.DueLabel | app/tasks/page.tsx:22-23 | no date gives "No due date" |
| TasksPage.OverdueLabel | app/tasks/page.tsx:25 | past due, the label is the overdue day count, whose digits read back as that number, then " day(s) overdue" |
| TasksPage.AheadLabel | app/tasks/page.tsx:27 | ahead, the label is "Due in " and the day count, whose digits read back as that number, then " day(s)" |
| TasksPage.DueTodayExactly | app/tasks/page.tsx:22-27 | "Due today" exactly on the due day; no dated label is "No due date" |
| TasksPage.DaysLabel | app/tasks/page.tsx:24-27 | the label ends with " day(s) overdue" exactly when the day count is negative |
| TasksPage.CountOverdue | app/tasks/page.tsx:66 | the overdue count is at most the number of tasks |
| TasksPage.CountDueSoon | app/tasks/page.tsx:67-70 | the due-soon count is at most the number of tasks |
| TasksPage.CountersDisjoint | app/tasks/page.tsx:66-70 | the two counters together count each task at most once |
| TasksPage.UndatedCountNowhere | app/tasks/page.tsx:66-70 | a task without a due date is counted in neither, wherever it stands in the list |
| TasksPage.CategoryHref | app/tasks/page.tsx:51-54 | the link always starts with `/tasks`, and is exactly `/tasks` when the category is absent or empty |
| TasksPage.CategoryHrefCarriesCategory | app/tasks/page.tsx:51-54 | "/tasks" without a category; otherwise one query value that decodes back to exactly the category |
| TasksPage.GetTasksWhere | app/tasks/page.tsx:43-45 | the query is always scoped to the user; it also filters by category exactly when the category is truthy, and then by that category |
| TasksPage.SelectedCategory | app/tasks/page.tsx:60 | the selected category is empty exactly when the parameter is absent or all white space, and otherwise starts and ends with a non-white-space character |
| TasksPage.PageTasksWhere | app/tasks/page.tsx:60-62 | the page's query is scoped to the user, and a category filter is never empty and is the trimmed parameter |
| TasksPage.CategoryFilterApplies | app/tasks/page.tsx:43-62 | the category filter applies exactly when the trimmed parameter is non-empty, and then uses the trimmed text |
| TasksPage.PluralEndings | app/tasks/page.tsx:146-155 | "s" after the unit exactly when interval > 1, and after "completion log" exactly when the count is not 1 |
| TasksPage.FrequencyExamples | app/tasks/page.tsx:146-147 | "Every 1 month" and "Every 3 months" |
| TasksPage.NoCompletionsExample | app/tasks/page.tsx:154-155 | "0 completion logs" |
| TasksPage.OneCompletionExample | app/tasks/page.tsx:154-155 | "1 completion log" |
| Proxy.ChosenKey | lib/supabase/proxy.ts:6-8 | the publishable key when it is set, even if empty; the anonymous key only when it is unset |
| Proxy.GetSupabaseEnv | lib/supabase/proxy.ts:4-15 | no settings exactly when the URL or the chosen key is unset or empty; otherwise both |
| Proxy.UpdateSession | lib/supabase/proxy.ts:17-63 | a signed-in user is never stopped (pass, or sent from `/login` to the list); a 401 only for an API path; a login redirect only for a task page, carrying that path; Proxy.DecisionTable gives the exact conditions |
| Proxy.EmptyKeyDoesNotFallBack | lib/supabase/proxy.ts:6-12 | an empty publishable key leaves the settings missing, whatever the anonymous key holds |
| Proxy.NoSettingsPassesEverything | lib/supabase/proxy.ts:18-21 | without settings every request passes |
| Proxy.ProtectedKindsDisjoint | lib/supabase/proxy.ts:43-47 | no path is both an API path and a task page |
| Proxy.DecisionTable | lib/supabase/proxy.ts:48-62 | with settings: 401 exactly for anonymous API paths, a login redirect carrying the path exactly for anonymous task pages, a redirect to the list exactly for a signed-in "/login", a pass otherwise |
| Proxy.RawPrefixMatching | lib/supabase/proxy.ts:44-47 | the test is a raw prefix: "/tasksx" and "/api/tasks-foo" are protected, "/task" and "/api/task" are not |
| Uploads.FindTask | app/api/uploads/route.ts:17 | a task with that id owned by that user, or none when no such task exists |
| Uploads.FindTaskFirst | app/api/uploads/route.ts:17 | the lookup returns the first such task |
| Uploads.NewAttachment | app/api/uploads/route.ts:35-43 | the attachment row carries the new id, the task's id, and the stored record's path, original name, type and size |
| Uploads.AttachmentTable.Post | app/api/uploads/route.ts:6-46 | 401, then 400, then 404, each with no change to the table or storage; then storeImage; on failure a 500 with its message, no new row and both storage maps unchanged; on success exactly one new row built from the task and the stored record, with no check on type or size, and the file stored under its object path in the bucket, or under its stored file name in the uploads directory |

## Left out

- Time zones and daylight saving time. The time of day is kept as an opaque number of
  milliseconds within a local day, so a step across a DST change does not move the time
  value by an hour as it would in JavaScript.
- The time-value range limit of a JavaScript `Date` (±8.64e15 ms): in the model every
  day number is a date, so no result is ever an Invalid Date.
- The text-to-date parsing `new Date(lastDoneAt)` in `app/api/tasks/route.ts`. The parsed
  date is a parameter, so a malformed `lastDoneAt` (an Invalid Date in JavaScript) is not
  modelled.
- `Number(...)`: only decimal text is modelled (optional sign, digits, optional fraction).
  Exponents, hexadecimal, binary and octal prefixes and `Infinity` give NaN in the model.
  Binary floating-point rounding is not modelled: numbers are exact reals.
- Js.ToNumber: every JSON object converts to NaN. In JavaScript an object with its own
  `toString` key, or an array holding one, makes `Number(...)` throw a TypeError.
- TaskCreate.CreateTask: the paths where the handler throws, and so answers 500, are not
  modelled:
  - `Number(...)` throwing on such an object at app/api/tasks/route.ts:13, which happens
    before any guard;
  - `req.json()` rejecting a body that is not valid JSON (app/api/tasks/route.ts:11);
  - the database rejecting a field of the wrong type, such as a numeric title or notes.
  The model answers such bodies through its guards with a 400, or writes the row.
- Uploads.AttachmentTable.Post: the paths where the handler throws are not modelled:
  - `req.formData()` rejecting a body that is not form data
    (app/api/uploads/route.ts:9);
  - a `taskId` field sent as a file, which passes the guard and then makes the task
    lookup throw (app/api/uploads/route.ts:17).
  The model's `taskId` is a string or nothing.
- Js.NatToString: gives plain digits for every integer, while JavaScript prints numbers
  from 10^21 upward in exponent notation ("1e+21"); the clock readings and day counts the
  application renders stay far below that.
- Js.IntToString: the same, for negative numbers as well.
- JavaScript strings are UTF-16 code units, and Dafny characters are Unicode scalar
  values, so lone surrogates cannot be represented. `Storage.SanitizeFilename` turns a
  character beyond the Basic Multilingual Plane into two `_`, one per code unit.
- `Storage.StorageBackend.StoreImage`: the URL `getPublicUrl` returns is a parameter, not
  derived from the bucket and path. The storage service's reply to a second upload onto a
  taken key is the fixed text "The resource already exists".
- The "File upload failed." message of `app/api/uploads/route.ts:31` for a thrown
  non-`Error` value: every failure the model produces carries a message.
- A form field `file` that is a plain string rather than a `File`, and a JSON body that
  is not an object: the model's inputs are a file or nothing, and a record of fields.
- The `redirectTo` query encoding in `lib/supabase/proxy.ts:53-55`: the model keeps the
  original path as the redirect target, not the encoded URL.
- Cookie copying in `setAll` (`lib/supabase/proxy.ts:29-34`), creating the Supabase and
  Prisma clients, `mkdir`, and the database queries themselves. Query results are given
  sequences; the task table of the uploads route is a field of `AttachmentTable`.
- `TasksPage.DaysUntil`: the page reads `Date.now()` once per `daysUntil` call; the model
  uses one clock reading for the whole page.
- `TasksPage.DueLabel`: states only the undated case in its own contract; the dated cases
  are the lemmas `TasksPage.OverdueLabel`, `TasksPage.AheadLabel` and
  `TasksPage.DueTodayExactly`.
- The mark-done route and all React rendering, sign-in and sign-out: they are outside the
  rules modelled here.
