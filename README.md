# Weekly task planner backend: a Dafny model

This project models the core of the backend of a weekly task planner. The
backend is an Express and Mongoose service that stores tasks. Each task has a
title, a description, a date, a start and an end time, and a status that is
`pending` or `completed`. The service lists the tasks of today and of the
current Monday-to-Sunday UTC week, summarises the week's progress, searches
titles and descriptions, and creates, updates, re-statuses and deletes tasks.

The model has seven files:

- `wrappers.dfy` holds `Option` and `Result`.
- `js_text.dfy` holds the JavaScript string behaviour the core relies on:
  - `String(n)` and `padStart`;
  - `String.prototype.trim` with the ECMAScript white-space set;
  - UTF-16 `length`;
  - the binary string order MongoDB sorts by;
  - case-insensitive substring search.
- `date_helper.dfy` models `utils/dateHelper.ts`:
  - day and week windows on millisecond instants;
  - the UTC civil calendar behind `getUTCFullYear`, `getUTCMonth` and `getUTCDate`;
  - `formatDate`, with a parser that inverts it.
- `week_helper.dfy` models `utils/weekHelper.ts`.
- `task_model.dfy` models `models/Task.ts` and the `TaskStatus` enum:
  - casting (`trim`, defaults);
  - validation (`required`, `maxlength`, `enum`) with the schema's messages;
  - update semantics;
  - the `toJSON` transform.
- `task_queries.dfy` holds the pure parts of `controllers/TaskController.ts`:
  - the collection in natural order;
  - `find` filters;
  - the two sort orders, with an insertion sort as reference;
  - the status counts and the rounded progress.
- `task_controller.dfy` models the ten handlers as methods of a `TaskStore`
  class.
  - The class holds the documents as a `map` from id to task, plus the next
    id to hand out.
  - The handlers that change the collection have `modifies` clauses and state
    the whole new state.
  - The read-only handlers state their result against the pure functions.

Instants are `int` milliseconds since the epoch, and `Day(t) = t div 86400000`.
Dafny's division is Euclidean, which for a positive divisor is the floor
division JavaScript's `Date` uses. The clock reading `new Date()` becomes a
parameter `now`.

## Model

| member | source | states |
|---|---|---|
| DateHelper.GetStartOfDay | backend/src/utils/dateHelper.ts:4-8 | the result is a UTC midnight, at or before `t`, less than a day before it, on `t`'s UTC day |
| DateHelper.GetEndOfDay | backend/src/utils/dateHelper.ts:11-15 | same UTC day as `t`, at or after `t`, exactly one millisecond before the next midnight (day start + 86399999) |
| DateHelper.StartOfDayIsUnique | backend/src/utils/dateHelper.ts:4-8 | the start of the day is the only midnight within the day up to `t` |
| DateHelper.StartOfDayIdempotent | backend/src/utils/dateHelper.ts:4-15 | applying getStartOfDay again changes nothing; the end of the day of the start of the day is the end of the day |
| DateHelper.GetStartOfWeek | backend/src/utils/dateHelper.ts:18-25 | a UTC midnight that is a Monday, at or before `t` and less than seven days before it |
| DateHelper.WeekDay | backend/src/utils/dateHelper.ts:20 | `getUTCDay()` is in 0 .. 6, Sunday 0, anchored to the calendar by KnownWeekDays; WeekRollback and GetStartOfWeek state how line 21 uses it |
| DateHelper.KnownWeekDays | backend/src/utils/dateHelper.ts:20 | the weekday numbering agrees with the calendar: 1970-01-01 is a Thursday (4), 2024-06-10 a Monday (1), 2024-06-16 a Sunday (0); with EpochIsDayZero and DaysFromCivilNextDate this fixes the weekday of every date |
| DateHelper.WeekStartFacts | backend/src/utils/dateHelper.ts:20-23 | moving by `diff` days (-6 for Sunday, else 1 - weekday) and setting 00:00:00.000 lands on the Monday midnight of `t`'s week |
| DateHelper.WeekRollback | backend/src/utils/dateHelper.ts:20-22 | the week starts six days back on a Sunday and weekday-1 days back otherwise |
| DateHelper.StartOfWeekIsUnique | backend/src/utils/dateHelper.ts:18-25 | the Monday midnight at most six days back is the only such instant |
| DateHelper.GetEndOfWeek | backend/src/utils/dateHelper.ts:28-34 | six days and 23:59:59.999 after the start of the week; a Sunday; at or after `t` |
| DateHelper.WeekEndFacts | backend/src/utils/dateHelper.ts:29-33 | six days and 23:59:59.999 after a Monday midnight is the last millisecond of the following Sunday |
| DateHelper.WeekIsStable | backend/src/utils/dateHelper.ts:18-34 | every instant of a week window has the same start and end of week |
| DateHelper.CivilFromDays | backend/src/utils/dateHelper.ts:38-40 | the civil date of a day number is a valid Gregorian date and `DaysFromCivil` maps it back to that day number |
| DateHelper.CivilOfYearDay | backend/src/utils/dateHelper.ts:38-40 | a day that fits in its March-based year gives a valid date that maps back to the same day number |
| DateHelper.EpochIsDayZero | backend/src/utils/dateHelper.ts:38-40 | day number 0, the `Date` epoch, is 1970-01-01 |
| DateHelper.DaysFromCivilNextDate | backend/src/utils/dateHelper.ts:38-40 | the calendar day after a valid date is valid and has the next day number, across month ends, year ends and February 28/29 |
| DateHelper.MarchYearLength | backend/src/utils/dateHelper.ts:38-40 | from 1 March of y - 1 to 1 March of y there are 366 days exactly when y is a Gregorian leap year, else 365 |
| DateHelper.GetUtcFullYear | backend/src/utils/dateHelper.ts:38 | the UTC year, with the month and day of lines 39-40, forms a valid date whose day number is the instant's UTC day |
| DateHelper.GetUtcMonth | backend/src/utils/dateHelper.ts:39 | `getUTCMonth()` is in 0 .. 11 |
| DateHelper.GetUtcDate | backend/src/utils/dateHelper.ts:40 | `getUTCDate()` is in 1 .. 31 |
| DateHelper.FormatDate | backend/src/utils/dateHelper.ts:37-42 | no contract of its own: FormatDateParses, FormatDateByDay, FormatDateInjective and FormatDateShape state its laws |
| DateHelper.DateTextParses | backend/src/utils/dateHelper.ts:41 | the text `${y}-${MM}-${DD}` reads back as (y, MM, DD) for any integer year and fields below 100 |
| DateHelper.FormatDateParses | backend/src/utils/dateHelper.ts:37-42 | formatDate's text reads back as exactly the UTC civil date of the instant |
| DateHelper.FormatDateByDay | backend/src/utils/dateHelper.ts:37-42 | formatDate depends only on the UTC day |
| DateHelper.FormatDateInjective | backend/src/utils/dateHelper.ts:37-42 | two instants format alike if and only if they fall on the same UTC day |
| DateHelper.FormatDateShape | backend/src/utils/dateHelper.ts:37-42 | for years 1000 .. 9999 the text is ten characters `YYYY-MM-DD`: digits, dashes at 4 and 7, a month 1 .. 12 and a day that exists in that month |
| JsText.NatToString | backend/src/utils/dateHelper.ts:39-40 | `String(n)` is a non-empty run of decimal digits, one digit exactly when n < 10, starting with '0' only for 0 (the shortest numeral) |
| JsText.NatToStringLength4 | backend/src/utils/dateHelper.ts:38-41 | years 1000 .. 9999 render as four characters |
| JsText.ParseNatToString | backend/src/utils/dateHelper.ts:39-40 | reading the digits of `String(n)` gives back n |
| JsText.ParseIntToString | backend/src/utils/dateHelper.ts:38-41 | reading `String(i)`, sign included, gives back i |
| JsText.IntToStringInjective | backend/src/utils/dateHelper.ts:41 | two integers render alike if and only if they are equal |
| JsText.PadStart | backend/src/utils/dateHelper.ts:39-40 | padStart keeps the input as the suffix, pads only with the fill character, and reaches the width |
| JsText.TwoDigitsRoundTrip | backend/src/utils/dateHelper.ts:39-40 | below 100, the padded field has two digit characters and reads back as the number |
| JsText.Trim | backend/src/models/Task.ts:10 | trim's result has no white space at either end |
| JsText.TrimStartDropsWhitespace | backend/src/models/Task.ts:10 | what trimming drops at the front is all white space |
| JsText.TrimEndDropsWhitespace | backend/src/models/Task.ts:10 | what trimming drops at the back is all white space |
| JsText.TrimBounds | backend/src/models/Task.ts:10 | trim cuts its input at two positions with only white space before the first and after the second |
| JsText.TrimInfix | backend/src/models/Task.ts:7-32 | trim returns an infix of its input with only white space before and after it |
| JsText.TrimIdempotent | backend/src/models/Task.ts:7-32 | trim leaves an already trimmed string alone, so trimming twice is trimming once |
| JsText.TrimEmpty | backend/src/models/Task.ts:7-12 | trim yields '' exactly for an all-white-space input |
| JsText.Utf16Length | backend/src/models/Task.ts:11 | the UTF-16 length lies between the number of code points and twice it, and equals the number of code points if and only if none is above U+FFFF |
| JsText.Utf16LengthExamples | backend/src/models/Task.ts:11 | U+1F600 counts as two code units, ASCII characters as one each |
| JsText.TextLeReflexive | backend/src/controllers/TaskController.ts:47 | MongoDB's string order is reflexive |
| JsText.TextLeTotal | backend/src/controllers/TaskController.ts:47 | any two strings are ordered one way or the other |
| JsText.TextLeAntisymmetric | backend/src/controllers/TaskController.ts:47 | strings ordered both ways are equal |
| JsText.TextLeTransitive | backend/src/controllers/TaskController.ts:47 | the string order is transitive |
| JsText.ContainsIgnoringCaseIff | backend/src/controllers/TaskController.ts:176-181 | the front-to-back search succeeds if and only if the needle occurs at some position, ignoring ASCII case |
| JsText.MeetingExamples | backend/src/controllers/TaskController.ts:176-181 | "meeting" is found in "Team Meeting" and "see meeting notes" and not in "Lunch" |
| WeekHelper.GetWeekInfo | backend/src/utils/weekHelper.ts:4-14 | the window holds the date, is seven days less one millisecond long, and starts at a Monday midnight |
| WeekHelper.WeekInfoDates | backend/src/utils/weekHelper.ts:4-14 | startDate and endDate parse as the valid civil dates of the UTC days of startDateObj and endDateObj: a Monday and the Sunday six days later |
| WeekHelper.GetCurrentWeekInfo | backend/src/utils/weekHelper.ts:17-20 | the week info of now: its window is getStartOfWeek(now) .. getEndOfWeek(now) and holds now |
| WeekHelper.IsInCurrentWeek | backend/src/utils/weekHelper.ts:23-26 | no contract of its own: IsInCurrentWeekIff and CurrentWeekBoundaries state its laws |
| WeekHelper.IsInCurrentWeekIff | backend/src/utils/weekHelper.ts:23-26 | a date is in the current week if and only if its week starts where now's does, and if and only if it is 0 .. 6 days after that Monday |
| WeekHelper.CurrentWeekBoundaries | backend/src/utils/weekHelper.ts:17-26 | now is in its own week; one millisecond before the start or after the end is not |
| WeekHelper.WeekInfoIsStable | backend/src/utils/weekHelper.ts:4-20 | every instant of one week gets the same week info |
| TaskModel.ParseStatusIff | backend/src/types/index.ts:4-7 | a text names a status if and only if it is that status's wire value |
| TaskModel.StatusTextParses | backend/src/types/index.ts:4-7 | each status's wire value names it |
| TaskModel.ValidTask | backend/src/models/Task.ts:5-38 | no contract of its own (the schema invariant): CreateDocument establishes it, ApplyUpdateKeepsValid preserves it, CastOfValid and CreateDocumentOfValid use it |
| TaskModel.Cast | backend/src/models/Task.ts:7-37 | casting keeps present keys present and absent keys absent, except that with defaults description and status are always set; the date and a given status pass unchanged; every present title, description, startTime and endTime is trimmed |
| TaskModel.Violations | backend/src/models/Task.ts:7-37 | no contract of its own: ViolationsEmptyIff states when it is empty, CreateDocumentAccepts and UpdateAccepts state it on the raw fields |
| TaskModel.ViolationsEmptyIff | backend/src/models/Task.ts:7-37 | no validator message if and only if each of the seven checks (required title, title length, description length, required date, startTime, endTime, status enum) passes |
| TaskModel.CreateDocument | backend/src/models/Task.ts:5-51 | a document that passes validation is a valid stored task: trimmed, non-empty title within 200 UTF-16 units, description within 1000, non-empty trimmed times |
| TaskModel.CreateDocumentAccepts | backend/src/models/Task.ts:7-37 | creation succeeds if and only if the title is present and not all white space and within 200 units once trimmed, the description is within 1000 once trimmed, the date is present, both times are present and not all white space, and any status is an enum value |
| TaskModel.CreateDocumentStores | backend/src/models/Task.ts:7-37 | the stored task holds the trimmed texts, '' for an absent description and pending for an absent status |
| TaskModel.WhitespaceTitleRejected | backend/src/models/Task.ts:7-12 | a title of white space alone fails `required` once trimmed |
| TaskModel.CastOfValid | backend/src/models/Task.ts:7-32 | casting leaves already trimmed fields unchanged |
| TaskModel.CreateDocumentOfValid | backend/src/models/Task.ts:7-37 | creating from the fields of a valid task yields that task again |
| TaskModel.UpdateViolations | backend/src/controllers/TaskController.ts:231-242 | no contract of its own: UpdateAccepts states when the update validators pass |
| TaskModel.ApplyUpdate | backend/src/controllers/TaskController.ts:231-242 | no contract of its own: ApplyUpdateStores states what it stores and ApplyUpdateKeepsValid that it keeps the schema invariant |
| TaskModel.ApplyUpdateKeepsValid | backend/src/controllers/TaskController.ts:231-242 | an update that passes its validators keeps a valid task valid |
| TaskModel.ApplyUpdateStores | backend/src/controllers/TaskController.ts:231-242 | each key present in the update is stored trimmed (title, description, times), parsed (status) or as given (date); each absent key keeps its stored value |
| TaskModel.UpdateAccepts | backend/src/controllers/TaskController.ts:231-242 | an update passes if and only if each present key is acceptable: title not all white space and within 200, description within 1000, times not all white space, status an enum value |
| TaskModel.ToJson | backend/src/models/Task.ts:43-48 | `_id` moves to `id`, `_id` and `__v` are gone, every other key is kept with its value, and no key is added but `id` |
| TaskModel.SerializedTask | backend/src/models/Task.ts:41-48 | a stored task serialises to exactly id, title, description, date, startTime, endTime and status |
| TaskQueries.EntriesBelow | backend/src/controllers/TaskController.ts:47 | the collection lists each stored document exactly once, in increasing id order |
| TaskQueries.Find | backend/src/controllers/TaskController.ts:126-131 | find returns each selected document as often as it is stored, and nothing else |
| TaskQueries.KeyLeTotal | backend/src/controllers/TaskController.ts:47 | under either sort specification, any two documents are ordered one way or the other |
| TaskQueries.KeyLeTransitive | backend/src/controllers/TaskController.ts:47 | both sort specifications are transitive |
| TaskQueries.SortedTail | backend/src/controllers/TaskController.ts:47 | the tail of a sorted list is sorted and follows its head |
| TaskQueries.SortedCons | backend/src/controllers/TaskController.ts:47 | putting a document that precedes all others in front keeps the list sorted |
| TaskQueries.InsertPermutation | backend/src/controllers/TaskController.ts:47 | insertion adds exactly the one document |
| TaskQueries.InsertSorted | backend/src/controllers/TaskController.ts:47 | insertion into a sorted list keeps it sorted |
| TaskQueries.SortPermutation | backend/src/controllers/TaskController.ts:47 | the reference sort is a permutation of its input |
| TaskQueries.SortSorted | backend/src/controllers/TaskController.ts:47 | the reference sort's output is ordered by the sort specification |
| TaskQueries.SortMembers | backend/src/controllers/TaskController.ts:47 | sorting neither adds nor drops a document |
| TaskQueries.StartTimeIsTextOrder | backend/src/controllers/TaskController.ts:75 | sorted by startTime, a 10:00 task comes before a 9:30 task and not after it |
| TaskQueries.CountStatus | backend/src/controllers/TaskController.ts:137-138 | a status count never exceeds the number of tasks |
| TaskQueries.StatusCountsAddUp | backend/src/controllers/TaskController.ts:137-139 | completed + pending == total |
| TaskQueries.CountStatusZeroIff | backend/src/controllers/TaskController.ts:137-138 | a count is zero if and only if no task has that status |
| TaskQueries.Progress | backend/src/controllers/TaskController.ts:140 | no contract of its own: ProgressRounds, ProgressBounds, ProgressMonotonic and ProgressExamples state its laws |
| TaskQueries.ProgressRounds | backend/src/controllers/TaskController.ts:140 | progress is 100·completed/total rounded to the nearest integer, halves up |
| TaskQueries.ProgressBounds | backend/src/controllers/TaskController.ts:140 | progress is at most 100, 0 when nothing is completed, 100 when all of a non-empty week is |
| TaskQueries.ProgressMonotonic | backend/src/controllers/TaskController.ts:140 | more completed tasks never give a lower progress |
| TaskQueries.ProgressExamples | backend/src/controllers/TaskController.ts:140 | 1 of 3 gives 33, 2 of 3 gives 67, 1 of 8 gives 13, an empty week 0 |
| TaskQueries.TodayWindow | backend/src/controllers/TaskController.ts:66-74 | a date lies in [getStartOfDay(now), getEndOfDay(now)] if and only if it is on now's UTC day |
| TaskController.Summarize | backend/src/controllers/TaskController.ts:137-151 | the summary keeps the tasks; completed and pending are the numbers of tasks with those statuses; total is their number; completed + pending == total; progress is at most 100, 0 for an empty week, and otherwise the rounded percentage |
| TaskController.CreatedTaskIsPending | backend/src/controllers/TaskController.ts:21-28 | a created task is pending whatever status the body carried |
| TaskController.CreateAccepted | backend/src/controllers/TaskController.ts:13-28 | a body past the guard is stored if and only if its title is not all white space and within 200 once trimmed, any truthy description is within 1000 once trimmed, and both times are not all white space |
| TaskController.UpdateIgnoresEmptyDate | backend/src/controllers/TaskController.ts:236 | a falsy date in an update leaves the stored date unchanged |
| TaskController.EmptyTitleUpdateRejected | backend/src/controllers/TaskController.ts:229-241 | an update with title '' is passed on and refused by the required validator |
| TaskController.ValidStatusArgIff | backend/src/controllers/TaskController.ts:272 | the status guard accepts exactly 'pending' and 'completed' |
| TaskController.WeekQuerySelects | backend/src/controllers/TaskController.ts:94-101 | the week filter selects exactly the documents dated in the current week |
| TaskController.TaskStore.Entries | backend/src/controllers/TaskController.ts:47 | `Task.find()` with no filter: under the store invariant it lists exactly the stored documents, each with its own id |
| TaskController.TaskStore.Save | backend/src/controllers/TaskController.ts:21-28 | the insert stores the task under the next id, which was unused, and keeps the store invariant |
| TaskController.TaskStore.CreateTask | backend/src/controllers/TaskController.ts:8-42 | 400 and no change when title, date, startTime or endTime is falsy; 500 and no change for an invalid date or failing validators; otherwise 201 with the new pending task stored under a fresh id and nothing else changed |
| TaskController.TaskStore.GetAllTasks | backend/src/controllers/TaskController.ts:45-61 | given the store invariant, 200 with every stored task once, sorted by date then startTime |
| TaskController.TaskStore.GetTodayTasks | backend/src/controllers/TaskController.ts:64-89 | 200 with exactly the tasks dated on now's UTC day, each once, sorted by startTime |
| TaskController.TaskStore.GetWeekTasks | backend/src/controllers/TaskController.ts:92-115 | 200 with exactly the tasks of the current week, each once, sorted by date then startTime |
| TaskController.TaskStore.GetWeeklySummary | backend/src/controllers/TaskController.ts:118-161 | 200 with the week's tasks, their completed and pending counts, the total and the progress as Summarize states them |
| TaskController.TaskStore.SearchTasks | backend/src/controllers/TaskController.ts:164-195 | 400 if and only if q is missing, empty or not a string; otherwise 200 with exactly the tasks whose title or description contains q ignoring case, each once, sorted by date then startTime |
| TaskController.TaskStore.GetTaskById | backend/src/controllers/TaskController.ts:198-223 | 200 with the stored task if and only if the id is stored, otherwise 404 "Task not found" |
| TaskController.TaskStore.UpdateTask | backend/src/controllers/TaskController.ts:226-264 | 500 and no change for an invalid date or failing update validators, even for an unknown id; otherwise 404 and no change for an unknown id, else 200 with the present keys set and every other task unchanged |
| TaskController.TaskStore.UpdateTaskStatus | backend/src/controllers/TaskController.ts:267-306 | 400 and no change unless status is 'pending' or 'completed'; 404 and no change for an unknown id; otherwise 200 with only that task's status changed |
| TaskController.TaskStore.DeleteTask | backend/src/controllers/TaskController.ts:309-334 | 404 and no change for an unknown id; otherwise 200 and exactly that task removed |
| TaskController.DeleteThenGet | backend/src/controllers/TaskController.ts:309-334 | after a delete, fetching the same id answers 404; the delete answered 200 if and only if the id was stored |
| TaskController.CreateThenGet | backend/src/controllers/TaskController.ts:8-42 | a task answered with 201 can be fetched by its id as created, and it is pending |

## Left out

- The Express server, the routes and the database connection (`index.ts`, `config/db.ts`, `routes/taskRoutes.ts`) are left out. So is the error-handling middleware. They only wire handlers to URLs.
- `validateObjectId` (`middleware/validateRequest.ts`) is left out: ids are modelled as natural numbers. A malformed id is refused with 400 before any handler runs, which is not modelled.
- Database failures are left out. Each handler's other 500 answer ("Error fetching tasks" and so on) comes from MongoDB failing. For searchTasks it also comes from a `q` that is not a valid regular expression, such as `(`; that 500 is not modelled either.
- TaskController.TaskStore.SearchTasks: `q` is modelled as a literal substring. MongoDB treats it as a regular expression, so regex metacharacters are not modelled.
- TaskController.TaskStore.SearchTasks: case is ignored for ASCII letters only. Case folding beyond ASCII is not modelled.
- TaskQueries.Progress: computes `Math.round((completed / total) * 100)` in exact arithmetic. Floating-point rounding of the quotient exactly at a half is not modelled.
- `new Date(text)` string parsing is left out. `DateArg` carries its result, with None for an Invalid Date.
- The ±8.64e15 ms range of `Date` is not bounded, and NaN instants are not modelled.
- TaskController.TaskStore.CreateTask and TaskController.TaskStore.UpdateTask report a 500's cause as the validator messages, or as a date cast failure. The composed `error.message` text ("Task validation failed: ...") is not modelled.
- Body values that are not strings (numbers, null, arrays) for title, description, date, startTime, endTime or status are not modelled. For example, a numeric `date` of 0 is falsy, and the source answers 400.
- The timestamps `createdAt` and `updatedAt` are left out. So are the `__v` bump on update and the debug `console.log` calls.
- The response fields `success` and `count` are left out. `count` is always the length of the data list.
- MongoDB does not fix the order of tasks with equal sort keys. The handlers promise only sortedness and a permutation. The weekly summary's task order is not promised at all; the model returns them in id order.
- Two Mongoose behaviours are assumed:
  - `findByIdAndUpdate` strips undefined keys.
  - It casts and runs update validators before looking up the id, so an invalid update answers 500 even for an unknown id.
- The indexes of `Task.ts` only affect performance and are left out.
- The frontend is not part of this model. Its own calendar uses a Sunday-first, local-time week, unlike the backend's Monday-first UTC week.
