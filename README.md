# EmployeeData: the employee-record rules, modelled in Dafny

The EmployeeData application registers employees. A browser form
(`frontend/src/App.jsx`) checks the eight fields of a record and posts them to
an Express server (`backend/server.js`). The server checks them again and
writes them to a MySQL table `employees` keyed by `employee_id`. This project
models the decision logic of both halves and proves what that logic does:

- **Calendar** (`Calendar.dfy`): proleptic Gregorian dates as JavaScript sees
  them once a `YYYY-MM-DD` string is parsed. It covers `Date.prototype.setFullYear`
  together with its roll-over of 29 February into 1 March, and a reference
  definition of completed years of age.
- **Patterns** (`Patterns.dfy`): the three regular expressions
  `/^\w+@\w+\.\w+$/`, `/^\d{10}$/` and `/^[a-zA-Z0-9]{1,10}$/` as predicates,
  written without the `u` flag, so `\w` is `[A-Za-z0-9_]` and `\d` is `[0-9]`.
  It also holds `String.prototype.trim` with ECMAScript's whitespace and
  line-terminator characters.
- **Records** (`Records.dfy`): the eight-field record that the form holds and
  that the request body carries, its field names, and the `{...r, [f]: v}`
  update.
- **Server** (`Server.dfy`): the POST and PUT validation chains, plus the
  `employees` table as a class over a map from `employee_id` to row with the
  INSERT, SELECT, UPDATE and DELETE statements of the handlers. It also holds
  the column that those statements filter on (see Findings).
- **Client** (`Client.dfy`): the per-field checks of `validateForm` and the
  dictionary it fills. It models the form component as a class with
  `formData`, `errors` and `successMessage`, with `handleChange`, `validateForm`
  and `handleSubmit` given the server's reply as its three methods, and it
  relates the form's verdict to the server's.

Conventions of the model:

- A text field is a string. The empty string stands for every falsy or missing
  value, so the server's `!field` is `field == ""`.
- A date field is `Blank` (missing or empty), `Unparsable` (an `Invalid Date`,
  whose time value is NaN, so that every comparison with it is false) or `On(d)`
  for a calendar date `d`.
- `new Date()` is the parameter `today`, a calendar date. It carries a time of
  day after midnight. Comparing it with a parsed date (midnight UTC) therefore
  becomes: the birthday is "on or before today", and the joining date is
  "strictly after today".
- Keys are compared as exact strings.

Four facts about the code that the model keeps:
- The duplicate message names the email, but `CREATE TABLE` puts no unique
  index on `email`, so only `employee_id` can collide.
- The server never tests `department` against the five departments the form
  offers.
- The PUT statement writes `employee_id` too, so an update can re-key a row.
- The handlers perform no authentication.

## Model

| member | source | states |
|---|---|---|
| Calendar.SetFullYear | backend/server.js:67 | `setFullYear(y)` keeps month and day and only changes the year, except that 29 February moved to a common year becomes 1 March |
| Patterns.IsEmail | backend/server.js:73 | `/^\w+@\w+\.\w+$/.test(s)`, as a left-to-right matcher over ASCII word characters (the form uses the same pattern, frontend/src/App.jsx:52); its language is given by `IsEmailIffShape` |
| Patterns.IsEmailIffShape | backend/server.js:73-75 | the email matcher accepts exactly the strings made of a non-empty word, `@`, a non-empty word, `.`, a non-empty word |
| Patterns.EmailCharacters | backend/server.js:73-75 | an accepted email has exactly one `@`, then exactly one `.`, and word characters everywhere else |
| Patterns.EmailRejectsHyphen | backend/server.js:73-75 | an email containing a hyphen is rejected |
| Patterns.EmailRejectsRepeatedSeparator | backend/server.js:73-75 | an email with a second `.` or a second `@` is rejected |
| Patterns.IsPhoneNumber | backend/server.js:78 | `/^\d{10}$/.test(s)`: exactly ten characters, each `0` to `9` (the form uses the same pattern, frontend/src/App.jsx:58) |
| Patterns.IsEmployeeIdShape | frontend/src/App.jsx:45 | `/^[a-zA-Z0-9]{1,10}$/.test(s)`: one to ten characters, each an ASCII letter or digit |
| Patterns.PhoneNumberRejects | backend/server.js:78-80 | a phone of any length other than ten, or containing any non-digit, is rejected |
| Patterns.Trim | frontend/src/App.jsx:30 | `s.trim()`: leading and then trailing ECMAScript whitespace and line terminators removed; characterised by the two lemmas below |
| Patterns.TrimStartIsSuffix | frontend/src/App.jsx:30 | leading trim keeps a suffix, removes only whitespace and leaves no leading whitespace |
| Patterns.TrimEndIsPrefix | frontend/src/App.jsx:30 | trailing trim keeps a prefix, removes only whitespace and leaves no trailing whitespace |
| Patterns.TrimEmptyIffBlank | frontend/src/App.jsx:30 | `!s.trim()` holds exactly when `s` is empty or all whitespace |
| Patterns.WordNotBlank | frontend/src/App.jsx:43-45 | a value starting with a word character is never blank after trimming |
| Records.With | frontend/src/App.jsx:23 | `{...formData, [f]: v}` gives field `f` the value `v` and keeps every other field |
| Server.IsAdult | backend/server.js:66-67 | `isAdult` for a parsed birth date: a year difference above 18, or exactly 18 with the birthday moved to this year on or before today |
| Server.AgeRuleHolds | backend/server.js:64-70 | the age rule: the birth date parses and `isAdult` holds; an unparsable date (NaN) fails |
| Server.JoiningRuleHolds | backend/server.js:83-86 | `!(joiningDate > today)`: only a parsed date strictly after today fails; the PUT test at lines 167-173 is the same |
| Server.Message | backend/server.js:60-85 | the five 400 messages, one per rule (lines 60, 69, 74, 79, 85; PUT repeats two of them at 164 and 172) |
| Server.MessagesDistinct | backend/server.js:60-85 | two rules give the same 400 message exactly when they are the same rule, so a message identifies its rule |
| Server.AllPresent | backend/server.js:50-58 | `!(!name \|\| … \|\| !date_of_birth)`: all eight fields are truthy, a text field being truthy when non-empty and a date field when not blank |
| Server.SevenPresent | backend/server.js:155-162 | PUT's copy of the presence test, over the seven fields other than `date_of_birth` |
| Server.ValidateCreate | backend/server.js:50-86 | POST passes exactly when all five rules hold (each rule read on its own by `CreateRuleHolds`); otherwise it names a rule that fails and every rule before it holds (first failure wins) |
| Server.ValidateUpdate | backend/server.js:155-173 | PUT passes exactly when seven fields are present and the joining date is not in the future (each rule read on its own by `UpdateRuleHolds`); a failure is one of these two rules, in that order |
| Server.MissingFieldWins | backend/server.js:50-61 | any missing field gives "All fields are required." whatever the other fields and the date |
| Server.IsAdultIffEighteen | backend/server.js:64-70 | `isAdult` holds exactly when at least 18 full years have been completed |
| Server.EighteenthBirthdayAdmitted | backend/server.js:64-70 | on the 18th birthday itself the employee is adult |
| Server.DayBeforeEighteenthBirthdayRejected | backend/server.js:64-70 | on the day before the 18th birthday the employee is not adult |
| Server.LeapDayBirthday | backend/server.js:67 | someone born on 29 February turns 18, in a common year, on 1 March |
| Server.JoiningBoundary | backend/server.js:83-86 | a joining date of today passes, and one of tomorrow fails, under both POST and PUT (lines 167-173) |
| Server.UpdateIgnoresUncheckedFields | backend/server.js:155-173 | changing the email or phone (while keeping them non-empty) or the birth date never changes PUT's verdict |
| Server.UpdateWeakerThanCreate | backend/server.js:155-173 | whatever POST accepts PUT accepts; with a birth date present, PUT's acceptance plus the age, email and phone rules is POST's acceptance |
| Server.Updated | backend/server.js:175-188 | the updated row is the body's seven columns with the old `date_of_birth` kept |
| Server.EmployeeTable.constructor | backend/server.js:26-27 | the table starts empty, with every row stored under its own primary key |
| Server.EmployeeTable.Insert | backend/server.js:89-107 | the insert adds the row under its `employee_id` exactly when that key is new; otherwise it is refused and the table is unchanged |
| Server.EmployeeTable.Create | backend/server.js:50-116 | gives a 400 with the failing rule's message, a 400 "Duplicate…" on a repeated key, or a 201 with exactly one row added equal to the body |
| Server.EmployeeTable.Find | backend/server.js:129-140 | gives 200 with the row stored under the id, or 404 "Employee not found." when there is none |
| Server.EmployeeTable.Update | backend/server.js:175-198 | gives a 400, a 404 with no change, a 500 when the new key belongs to another row, or a 200 with the row re-keyed and its seven columns replaced |
| Server.EmployeeTable.Delete | backend/server.js:202-213 | removes exactly the matched row with a 200, or gives a 404 and changes nothing |
| Server.CreateThenFind | backend/server.js:89-140 | a record created and then read back by its key equals the submitted record in all eight fields |
| Server.RepeatedKeysAndEmails | backend/server.js:26-27 | a second create with an existing key is a duplicate and leaves the first row; a new key with an already stored email is stored |
| Server.LookupBy | backend/server.js:26-27 | `WHERE col = ?` (the filters at lines 131, 176 and 204), over the table created at lines 26-27, errs exactly for a column the table lacks; on `employee_id` it selects exactly the stored rows whose `employee_id` equals the parameter |
| Server.WrittenReply | backend/server.js:131-139 | a handler's reply around its `WHERE id = ?` statement as written: the statement's error gives the handler's 500, no matched row 404, otherwise its success reply (PUT and DELETE at lines 176-197 and 204-212 have the same shape) |
| Server.WrittenFilterAlwaysFails | backend/server.js:131 | `WHERE id = ?` fails for every table and every id, because the table has no `id` column (lines 176 and 204 are the same), so the handler's reply is its 500 whatever the table holds |
| Server.KeyFilterFindsRow | backend/server.js:26-27 | the intended `WHERE employee_id = ?` in place of the filters at lines 131, 176 and 204: with every row stored under its own primary key, filtering on `employee_id` matches the row stored under the id and no other, or nothing; `Find`, `Update` and `Delete` look rows up this way |
| Client.FormUnderage | frontend/src/App.jsx:36-38 | `age < 18 \|\| (age === 18 && today < ageCheckDate)` for a parsed birth date; it is the negation of `isAdult` (`FormAgeNegatesServer`) |
| Client.NameError | frontend/src/App.jsx:30 | "Name is required." exactly when the trimmed name is empty |
| Client.BirthDateError | frontend/src/App.jsx:31-41 | "Date of birth is required." when blank, the age message when a parsed date is underage, and nothing for an unparsable date |
| Client.EmployeeIdError | frontend/src/App.jsx:43-48 | the required message when blank after trimming, else the format message when the untrimmed value fails `/^[a-zA-Z0-9]{1,10}$/` |
| Client.EmailError | frontend/src/App.jsx:50-54 | the required message when blank after trimming, else "Invalid email format." when the untrimmed value fails the email pattern |
| Client.PhoneError | frontend/src/App.jsx:56-60 | the required message when blank after trimming, else "Phone number must be 10 digits." when the untrimmed value fails `/^\d{10}$/` |
| Client.DepartmentError | frontend/src/App.jsx:62-64 | "Please select a department." exactly when the value is empty, with no trimming |
| Client.JoiningDateError | frontend/src/App.jsx:66-70 | the required message when blank, the future message when a parsed date is after today, and nothing for an unparsable date |
| Client.RoleError | frontend/src/App.jsx:72 | "Role is required." exactly when the trimmed role is empty |
| Client.Tally | frontend/src/App.jsx:28-75 | the `newErrors` dictionary: each check's message, if it has one, is recorded under its field in `validateForm`'s order; its entries are given by `TallyAt` |
| Client.TallyAt | frontend/src/App.jsx:28-72 | the dictionary has an entry for exactly the fields whose check produced a message, holding that message |
| Client.TallyEmptyIff | frontend/src/App.jsx:74-75 | the dictionary is empty exactly when no check produced a message |
| Client.AllClearIff | frontend/src/App.jsx:74-75 | the outcome of the eight checks is all clear exactly when every field's outcome is empty |
| Client.FormErrorsAt | frontend/src/App.jsx:28-72 | for the form itself: field `f` has an entry exactly when its check fails, and the entry is that check's message |
| Client.NoErrorsIffFormPasses | frontend/src/App.jsx:74-75 | `validateForm` succeeds exactly when the dictionary is empty, that is when no field produced a message |
| Client.ErrorsAreLocal | frontend/src/App.jsx:30-72 | a field's error depends on that field alone, so errors of different fields are reported together |
| Client.WhitespaceIsMissing | frontend/src/App.jsx:30-72 | a whitespace-only name, ID, email, phone or role gets the required message, which wins over the format message |
| Client.DepartmentNotTrimmed | frontend/src/App.jsx:62-64 | the department is tested without `trim`: a non-empty whitespace value passes |
| Client.EmployeeIdAcceptedIff | frontend/src/App.jsx:43-48 | the form accepts an employee ID exactly when it is 1 to 10 ASCII letters or digits |
| Client.FormAgeNegatesServer | frontend/src/App.jsx:36-39 | the form's underage test is exactly the negation of the server's `isAdult` (backend/server.js:66-67) |
| Client.UnparsableBirthDateDisagreement | frontend/src/App.jsx:31-41 | for an unparsable birth date the form reports no age error, while the server rejects the record as underage |
| Client.FormPassKeepsRule | frontend/src/App.jsx:27-76 | a form that passes, with a birth date that parses, keeps each of the server's five POST rules |
| Client.FormPassImpliesServerPass | frontend/src/App.jsx:27-76 | a record the form accepts, with a birth date that parses, passes the server's POST chain on the same day |
| Client.Contains | frontend/src/App.jsx:103 | `message.includes(part)`: `part` occurs at some position of `message` |
| Client.IsDuplicateReply | frontend/src/App.jsx:103 | `error.response.status === 400 && error.response.data.message.includes("Duplicate")`: a reply that arrived, with status 400 and a message containing "Duplicate" |
| Client.ServerDuplicateIsRecognised | frontend/src/App.jsx:103 | the server's duplicate-key answer (400 containing "Duplicate") is recognised by the form |
| Client.RegistrationForm.constructor | frontend/src/App.jsx:5-17 | the form starts with all fields empty, no errors and no success message |
| Client.RegistrationForm.HandleChange | frontend/src/App.jsx:21-25 | sets exactly the edited field, clears only that field's error (to ""), and keeps everything else |
| Client.RegistrationForm.ValidateForm | frontend/src/App.jsx:27-76 | stores the dictionary of the eight checks as the errors, and returns true exactly when every check passes |
| Client.RegistrationForm.HandleSubmit | frontend/src/App.jsx:78-116 | on failed validation it keeps the new errors; after a 2xx it shows the message and resets the form; after a duplicate it sets both the ID and email errors over the errors from before the submit; after any other failure the errors stay empty |

## Left out

- Express wiring, `dotenv`, body parsing, CORS and `app.listen` (backend/server.js:1-10, 216-219): framework plumbing.
- The MySQL connection, the `CREATE TABLE` at startup and logging (backend/server.js:13-37): I/O. The table's schema is kept as its key column and its column names.
- `GET /employees` (backend/server.js:119-127): a plain read of every row with no logic to model.
- The 500 responses of the POST and list handlers for driver or connection failures (backend/server.js:108-109, 121-123) and `result.insertId` (113): driver behaviour.
- The 500 branches of GET-by-id, PUT and DELETE (backend/server.js:132-135, 190-193, 205-208) are, as written, the branches every such request takes, because the statements filter on a column the table lacks (see Findings). The model's `Find`, `Update` and `Delete` use the intended key filter instead. A 500 for that reason is given only by `Server.WrittenReply` and `Server.WrittenFilterAlwaysFails`. The one other 500 that follows from the table itself, the PUT key collision, is modelled.
- Server.EmployeeTable.Create and Server.EmployeeTable.Update: a joining date JavaScript cannot parse passes both chains (the NaN comparison is false), and the model stores it in the row. What MySQL does with such a value in a `DATE` column depends on its SQL mode, so it is not modelled.
- Server.EmployeeTable.Insert: MySQL's column lengths (`VARCHAR(15)` for the phone, 255 and 100 elsewhere) and its case-insensitive collation for key comparison are not modelled. Keys compare as exact strings.
- Server.EmployeeTable.Find: the 200 body is the row itself, returned in `row`; the response's message is left empty.
- JavaScript's string-to-`Date` parsing, time zones and the time of day: dates are calendar dates, and the time of day of `today` is assumed to be after midnight.
- Calendar.SetFullYear: JavaScript's normalisation is modelled only for valid calendar dates, where the only overflow is 29 February.
- Client.RegistrationForm.ValidateForm: each check's condition and message are the functions `NameError` to `RoleError`, and the method records their outcomes in `validateForm`'s order. The branches of each check are those functions' bodies, not statements of the method.
- Client.RegistrationForm.HandleSubmit: `alert`, rendering, the network call and its `await` are left out. The server's answer is the `reply` parameter, and a reply of `NoResponse` stands for an unreachable server.
- The department `<select>` and its five options (frontend/src/App.jsx:19, 118-242): presentation. The form tests the department only for emptiness.
- Interleaving of concurrent requests and React's batching of state updates: concurrency. Each handler runs to completion.
- The handlers perform no authentication, so the model has none.

## Findings

| source | as written | input that shows it | evidently intended | confidence | as-written member | corrected member |
|---|---|---|---|---|---|---|
| backend/server.js:131 | `SELECT`, `UPDATE` and `DELETE` filter `WHERE id = ?` (lines 131, 176, 204), but the table created at lines 26-27 has no `id` column | `POST /employees` with `employee_id` "E1", then `GET /employees/E1`: MySQL rejects the unknown column and the handler answers 500 | filter on the primary key, `WHERE employee_id = ?` | not executed | Server.WrittenFilterAlwaysFails | Server.KeyFilterFindsRow |
