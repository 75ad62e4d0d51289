# Course registration site: a Dafny model of its core

A small course-registration web application: a public course catalogue, a
registration form on each course page, an admin area for managing courses and
exporting registrations as CSV, and a hard-coded admin login. This project models
its core and proves properties about it:

- **CSV export** (`Csv`): escaping of a cell, the five cells of a registration,
  the header record, and the document. A reader for the same dialect is included.
  The main theorem says that reading the exported text gives back exactly the
  header followed by one record per registration, in input order.
- **API handlers** (`RegisterRoute`, `AdminCoursesRoute`, `CoursesRoute`): each
  handler is a pure function from the parsed request body (`Json.Body`), the
  database (`Store.Db`) and what the database does on this request (`Store.Env`:
  whether it answers, and its clock). The result is the response (`Envelope`) and
  the database afterwards.
- **Store** (`Store`): the ORM calls as functions on sequences of rows. It carries
  the constraints the handlers rely on without checking them:
  - slugs are unique;
  - a registration references an existing course;
  - text columns need strings and `courseId` needs an integer.
- **Client state machines** (`AdminCoursesPage`, `RegistrationForm`,
  `LoginPage`): every event handler is a function from state to state. An
  asynchronous handler is split into a begin step and a finish step, and the
  finish step takes the reply the request received.
- **Label helper** (`ExampleHelper`).
- **Flows** (`Flows`): the client pages composed with the handlers they call.

The CSV dialect is RFC 4180 with two differences, and the model follows the
code on both:

- records are separated by a bare line feed, not CR LF;
- a cell containing a carriage return but no comma, quote or line feed is left
  unquoted.

The reader treats a carriage return as ordinary data, so the round trip holds
for every cell value.

A thrown exception that escapes a handler becomes `Envelope.Uncaught`, the
framework's own error page. There are two such cases:

- a request body that is the JSON literal `null`, which cannot be destructured;
- a truthy non-string `email` on `POST /api/register`, whose `.includes` call
  throws a TypeError outside the `try`.

Some values pass a handler's checks but are not strings, or a `courseId` is not
an integer. The ORM rejects these, so the handler answers 500 with its generic
message.

The database is PostgreSQL, reached through a connection pool
(lib/prisma.ts:25-32). Its id sequences are not transactional: an `INSERT` the
database refuses for a duplicate slug or a missing course has already drawn the
next id, which is then never used. A call the ORM rejects before sending any SQL
(a non-string value, a non-integer `courseId`) or one the database never
receives draws nothing. The model's counters follow this, so after a failed
create the rows are unchanged but the next id may have moved on.

`toLowerCase` is modelled for ASCII letters only. For the one comparison it is
used in, this gives the same answer as the full Unicode mapping:

- the admin email contains no `k`, so the Kelvin sign (which lower-cases to `k`)
  cannot matter;
- no other non-ASCII character lower-cases to a single ASCII letter.

`trim` removes exactly the ECMAScript white space and line terminator characters.

## Model

| member | source | states |
|---|---|---|
| Csv.DoubleQuotes | app/admin/registrations/page.tsx:79 | a value with no double quote is left unchanged by the quote doubling |
| Csv.EscapeValue | app/admin/registrations/page.tsx:76-84 | a value without `,`, `"` or line feed is emitted unchanged; any other value is wrapped in a leading and a trailing double quote |
| Csv.UndoubleDoubleQuotes | app/admin/registrations/page.tsx:79 | reading `""` back as `"` undoes the doubling of every quote, for every value |
| Csv.EscapeValueInner | app/admin/registrations/page.tsx:77-82 | between the quotes of a quoted cell is the value with every inner quote doubled: undoubling it gives the value back |
| Csv.DecodeEscapeValue | app/admin/registrations/page.tsx:76-84 | stripping the surrounding quotes (when present) and then reading `""` as `"` recovers the original value, for every value |
| Csv.Rows | app/admin/registrations/page.tsx:86-92 | one record per registration, in input order, each exactly the five cells: course title (empty when the course is missing), full name, email, phone, ISO date |
| Csv.ParseFieldEscape | app/admin/registrations/page.tsx:76-84 | an escaped cell followed by a separator or the end reads back as exactly the original value, with the separator left unread |
| Csv.ParseQuotedValue | app/admin/registrations/page.tsx:79-82 | the inside of a quoted cell followed by its closing quote reads back as the value and leaves the rest untouched |
| Csv.ParseBareValue | app/admin/registrations/page.tsx:80-83 | a text with no comma or line feed, followed by a separator or the end, reads back as itself with the separator left unread |
| Csv.ParseRecordRender | app/admin/registrations/page.tsx:95 | the escaped cells of a non-empty record joined with `,` read back as exactly that record, up to the next line feed |
| Csv.ParseDocumentRender | app/admin/registrations/page.tsx:94-96 | the rendered records joined with line feeds read back as exactly those records, in order |
| Csv.EscapeRowPlain | app/admin/registrations/page.tsx:80-83 | a record whose cells need no quoting is rendered cell for cell unchanged |
| Csv.HeaderRendering | app/admin/registrations/page.tsx:68-74 | the header record renders as `Course title,Full name,Email,Phone,Registration date` |
| Csv.ExportRegistrationsToCsv | app/admin/registrations/page.tsx:63-96 | an empty list produces no content; otherwise the content reads back as the header followed by the records of the registrations in input order |
| Csv.ExportStartsWithHeaderLine | app/admin/registrations/page.tsx:68-96 | for a non-empty list, the file's first line is exactly the header line followed by a line feed |
| Text.TrimStart | app/admin/login/page.tsx:55 | removes exactly a prefix of white space and leaves a text that does not start with white space |
| Text.TrimEnd | app/admin/login/page.tsx:55 | removes exactly a suffix of white space and leaves a text that does not end with white space |
| Text.Trim | app/admin/login/page.tsx:55 | the trimmed text is no longer than the input and has white space at neither end |
| Text.TrimIsInfix | app/admin/login/page.tsx:55 | the trim is the input with an all-white-space prefix and an all-white-space suffix removed; with `Text.Trim`, this pins down `trim` exactly |
| Text.TrimIgnoresSurroundingSpace | app/admin/login/page.tsx:55 | adding white space of any kind before or after a text does not change its trim |
| Text.Lower | app/admin/login/page.tsx:55 | lower-casing keeps the length and maps every character, upper-case ASCII letters to their lower-case forms |
| Store.FindUniqueBySlug | app/api/courses/route.ts:32-34 | the lookup finds nothing exactly when no course has the slug; what it finds is a course of the table with that slug |
| Store.InsertByDate | app/api/courses/route.ts:62-64 | inserting into a newest-first list keeps it newest-first and adds exactly that course |
| Store.FindManyNewestFirst | app/api/admin/courses/route.ts:31-33 | the listing is ordered by creation time, newest first, and is a permutation of the table |
| Store.TextFields | app/api/admin/courses/route.ts:104-115 | the eight values become text columns exactly when every one of them is a string, and then unchanged |
| Store.CreateCourse | app/api/admin/courses/route.ts:104-115 | a course is created exactly when the store answers, all eight values are strings and the slug is free; the row gets the next id and the current time and is appended; a refused slug still uses up the next id, while an unreachable store or a non-string value leaves everything as it was |
| Store.CreateRegistration | app/api/register/route.ts:71-78 | a registration is created exactly when the store answers, name and phone are strings and `courseId` is the integer id of an existing course; the row is appended; a missing course still uses up the next id, while an unreachable store or an ill-typed value leaves everything as it was |
| Store.CreateCourseKeepsValid | app/api/admin/courses/route.ts:104-115 | a create call, whether it succeeds or fails, keeps slugs and ids unique and every registration's course present, and leaves the registrations untouched |
| Store.CreateRegistrationKeepsValid | app/api/register/route.ts:71-78 | a create call, whether it succeeds or fails, keeps ids unique and every registration pointing at an existing course, and leaves the courses untouched |
| RegisterRoute.Validate | app/api/register/route.ts:31-66 | unparseable JSON gives 400 and the JSON-error message; a missing or empty name, email or phone, or a non-number `courseId`, gives 400 and the missing-fields message, checked before the email shape; an email without `@` gives 400 and the email message; a passing request carries exactly the posted values on to the create call |
| RegisterRoute.Post | app/api/register/route.ts:25-113 | a refused request leaves the store as it was and gets the validation response; a failed create gives 500 with the fixed save-failure message and the store as the failed call left it; a created registration is echoed with 201, the success message and the new row |
| RegisterRoute.PostSavesPostedValues | app/api/register/route.ts:67-97 | status 201 exactly for a valid request to an existing course with string name and phone and a store that answers; the echoed row holds exactly the posted values and is appended; anything else leaves the rows of both tables unchanged and the store valid |
| RegisterRoute.ValidationComesFirst | app/api/register/route.ts:45-71 | a request refused by validation gets the same response whatever the store holds or does, and the store is not changed |
| RegisterRoute.MissingFieldsBeforeEmailShape | app/api/register/route.ts:45-66 | an empty full name is reported as a missing field even when the email also lacks `@` |
| RegisterRoute.EmailWithoutAt | app/api/register/route.ts:57-66 | a complete request whose email has no `@` gets 400 with the email message |
| RegisterRoute.RegistrationForExistingCourse | app/api/register/route.ts:67-97 | a well-formed registration for an existing course is saved with 201 and echoes its `courseId` |
| AdminCoursesRoute.Get | app/api/admin/courses/route.ts:29-53 | 200 with every course, newest first, when the store answers; otherwise 500 with the load-failure message |
| AdminCoursesRoute.Data | app/api/admin/courses/route.ts:104-115 | the create call receives exactly the eight posted members |
| AdminCoursesRoute.Post | app/api/admin/courses/route.ts:59-139 | unparseable JSON gives 400 and the JSON-error message; any of the eight members missing or empty gives 400 and the missing-fields message, without a create; a failed create gives 500 and the create-failure message, with the store as the failed call left it; a created course is echoed with 201 and the success message |
| AdminCoursesRoute.PostCreatesPostedCourse | app/api/admin/courses/route.ts:100-127 | status 201 exactly when all eight members are non-empty strings, the slug is free and the store answers; the new course carries all eight posted texts, the next id and the current time, is appended and keeps the store valid; otherwise the rows of both tables are unchanged and the store stays valid |
| AdminCoursesRoute.TakenSlugIsRefused | app/api/admin/courses/route.ts:100-138 | a slug already in the table never produces a second course with it: the rows of both tables stay as they were |
| CoursesRoute.Get | app/api/courses/route.ts:22-87 | a non-empty slug looks up one course: 200 with a course of that slug, or 404 with "Course not found"; an absent or empty slug gives 200 with every course, newest first; a store that does not answer gives 500 with the generic message |
| CoursesRoute.LookupIsTheCourseWithThatSlug | app/api/courses/route.ts:28-56 | with unique slugs, the course returned for a slug is the one course of the table that has it |
| AdminCoursesPage.WithField | app/admin/courses/page.tsx:225-228 | the named field takes the value and the other seven are unchanged |
| AdminCoursesPage.Loaded | app/admin/courses/page.tsx:172-187 | a 2xx reply with success and a list replaces the list and clears the load error; any other reply keeps the list and sets the load error; loading ends either way |
| AdminCoursesPage.ResetFormToCreate | app/admin/courses/page.tsx:189-203 | create mode, no active course, every field empty, no error; the list is kept |
| AdminCoursesPage.InitialIsResetCreateForm | app/admin/courses/page.tsx:150-167 | the page starts loading an empty list, not saving, in create mode with all eight fields empty, which is exactly what a reset to create mode gives |
| AdminCoursesPage.StartEditing | app/admin/courses/page.tsx:205-219 | edit mode, the course's id active, its eight fields in the form, no error; the list is kept |
| AdminCoursesPage.HandleFormChange | app/admin/courses/page.tsx:221-229 | the named field takes the value; the other seven fields and the rest of the page are unchanged |
| AdminCoursesPage.ChangeToSameValue | app/admin/courses/page.tsx:221-229 | typing back the value a field already holds leaves the page as it was |
| AdminCoursesPage.LastChangeWins | app/admin/courses/page.tsx:221-229 | two changes to one field leave only the second |
| AdminCoursesPage.EditingShowsTheCourse | app/admin/courses/page.tsx:208-217 | the form shown for editing is exactly the course's fields |
| AdminCoursesPage.Request | app/admin/courses/page.tsx:241-246 | create mode sends a create request with the form; edit mode with an active course sends an update of that id; edit mode without one sends nothing |
| AdminCoursesPage.RequestBody | app/admin/courses/page.tsx:80-87 | the request body carries each of the eight form values as a string under its own name, and no other member |
| AdminCoursesPage.BeginSubmit | app/admin/courses/page.tsx:237-238 | saving starts and the form error is cleared, nothing else changes |
| AdminCoursesPage.SavedCourse | app/admin/courses/page.tsx:89-99 | the helper returns a course exactly for a 2xx reply with success and a course, and that course |
| AdminCoursesPage.ReplaceById | app/admin/courses/page.tsx:247-251 | the list keeps its length; every entry with the updated id becomes the updated course and every other entry is unchanged |
| AdminCoursesPage.ReplaceByIdIdempotent | app/admin/courses/page.tsx:247-251 | applying the same update twice is applying it once |
| AdminCoursesPage.ReplaceByIdTouchesOne | app/admin/courses/page.tsx:247-251 | with unique ids, an update changes exactly the one entry with that id |
| AdminCoursesPage.FinishSubmit | app/admin/courses/page.tsx:234-263 | a created course is prepended and the form reset to an empty create form; an updated course replaces the entries with its id; a failed save keeps list and form and sets the create or update message by mode; edit mode without an active course changes nothing; saving ends |
| AdminCoursesPage.RemoveById | app/admin/courses/page.tsx:276-278 | exactly the courses without the id remain |
| AdminCoursesPage.RemoveByIdKeepsOrder | app/admin/courses/page.tsx:276-278 | removal keeps the order of the remaining courses: it distributes over concatenation |
| AdminCoursesPage.RemoveAbsentId | app/admin/courses/page.tsx:276-278 | removing an id no course has leaves the list as it is |
| AdminCoursesPage.HandleDelete | app/admin/courses/page.tsx:265-287 | a refused confirmation changes nothing; a successful delete removes every course with the id, keeps the rest, and resets the form when that course was being edited; a failed delete changes nothing and raises the alert |
| RegistrationForm.HandleChange | components/CourseRegistrationForm.tsx:59-67 | the named field takes the value; the other two fields, the status and the message are unchanged |
| RegistrationForm.InitialIsIdleAndEmpty | components/CourseRegistrationForm.tsx:48-55 | the form starts idle, with no message and all three inputs empty |
| RegistrationForm.BeginSubmit | components/CourseRegistrationForm.tsx:75-76 | the status becomes submitting and the error message is cleared; the values are kept |
| RegistrationForm.RequestBody | components/CourseRegistrationForm.tsx:84-89 | the body carries exactly the three current values and the course id prop |
| RegistrationForm.FinishSubmit | components/CourseRegistrationForm.tsx:92-118 | success exactly for a 2xx reply with success, clearing all three fields; any other JSON reply gives the error status with the server's error or the default message, values kept; a thrown request gives the error status with the generic message |
| RegistrationForm.SubmissionSettles | components/CourseRegistrationForm.tsx:72-119 | after a whole submission the form is not submitting; a success shows no error and an error always shows a message |
| LoginPage.AdminEmailIsLower | app/admin/login/page.tsx:57 | the admin email is its own lower case |
| LoginPage.EmailIgnoresSurroundingSpace | app/admin/login/page.tsx:55-58 | for every password, an email with only white space before and after it is accepted exactly when the bare email is |
| LoginPage.AnyCaseAccepted | app/admin/login/page.tsx:55-57 | any upper, lower or mixed case spelling of the admin email, with any surrounding white space, is accepted with the admin password |
| LoginPage.PaddedPasswordRefused | app/admin/login/page.tsx:58 | the admin password with trailing space, or in capitals, is refused |
| LoginPage.BeginSubmit | app/admin/login/page.tsx:48-49 | the status becomes submitting and the error is cleared; the inputs are kept |
| LoginPage.FinishSubmit | app/admin/login/page.tsx:55-66 | success exactly when the trimmed, lower-cased email is `admin@example.com` and the password is `changeme123`; otherwise the error status with the fixed message; the inputs are kept |
| ExampleHelper.CreateSimpleLabel | lib/exampleHelper.ts:18-24 | an empty value gives "Not specified"; any other value gives "Label: " followed by the value; the result is never empty |
| ExampleHelper.LabelIsInjective | lib/exampleHelper.ts:23 | distinct non-empty values get distinct labels |
| ExampleHelper.LabelIsNotPlaceholder | lib/exampleHelper.ts:19-23 | no label of a non-empty value equals the placeholder |
| Flows.CreatedCourseIsFoundBySlug | app/api/courses/route.ts:28-56 | a course created through the admin API is then returned by the public slug lookup, with exactly the posted fields |
| Flows.AdminCreateFlow | app/admin/courses/page.tsx:234-263 | submitting the admin create form against the create handler: with all eight fields filled, a free slug and a store that answers, the new course with the form's values heads the list and the form is emptied; otherwise list and form stay and the create error shows |
| Flows.FormBodyPresence | app/api/admin/courses/route.ts:80-89 | the handler's required-fields check passes on the admin form's body exactly when all eight form values are non-empty |
| Flows.FormBodyData | app/api/admin/courses/route.ts:104-115 | the handler hands the store exactly the admin form's eight values |
| Flows.AdminLoadShowsAllCourses | app/admin/courses/page.tsx:172-187 | loading the admin page against a store that answers shows every course, newest first, with no load error |
| Flows.RegistrationFlow | components/CourseRegistrationForm.tsx:72-119 | submitting a complete registration form: an email without `@` gives the error status with the server's message and keeps the values; otherwise, for an existing course and a store that answers, the typed values are saved and the form is emptied |
| Flows.EmptyNameFlow | app/api/register/route.ts:45-54 | a form with an empty name gets the missing-fields message, whatever the email looks like |

`RegistrationForm.IsSubmitting` and `LoginPage.IsValid` are predicates defined
directly from the source's expressions (app/admin/login/page.tsx:55-58 and
components/CourseRegistrationForm.tsx:57). `LoginPage.IsValid` compares with the
admin email as it is, which `LoginPage.AdminEmailIsLower` shows equal to its
lower case.

## Left out

- The CSV download itself (the `Blob`, the temporary link and its click, and
  `URL.revokeObjectURL`): browser I/O. The model stops at the text.
- `new Date(createdAt).toISOString()` is the parameter `toIso`. An invalid date
  makes it throw a RangeError, which the model does not represent.
- `fetchAdminRegistrations`, the `GET /api/admin/registrations` handler, and the
  `PUT`/`DELETE /api/admin/courses/[id]` handlers are not part of this model.
  Update and delete replies reach the page as inputs of any shape.
- Rendering (JSX), the other pages, layout and configuration files are not part
  of this model.
- JSON arrays and objects as member values of a request body. Only null,
  booleans, numbers and strings are modelled there.
- The store's 32-bit integer columns. Ids and `courseId` are unbounded, so a
  `courseId` beyond the 32-bit range is not rejected.
- Concurrency between requests, and the ORM's error details. A store call either
  succeeds or fails, as decided by `Env.reachable` and the constraints.
- Store.FindManyNewestFirst: the relative order of courses created at the same
  instant is left to the model's insertion order. The database promises no
  particular order for them.
- `console.error` logging, and the login page's 400 ms delay. The delay only
  separates `LoginPage.BeginSubmit` from `LoginPage.FinishSubmit`.
- `window.confirm` and `window.alert`: the answer to the confirmation is an
  input of `AdminCoursesPage.HandleDelete`, and the alert text is an output.
- AdminCoursesPage.FinishSubmit: does not model other events that change the
  page while a save is in flight. It takes the state the submission started
  from.
- AdminCoursesPage.SavedCourse: treats a reply whose `data` is a list as having
  no course, whereas the helper would return the list itself. The handlers never
  send a list in reply to a create.
- AdminCoursesPage.Loaded: treats a reply whose `data` is a single course as a
  failure, whereas the page would store the object as its list. The handler
  never sends one to a list request.
- The JSON serialisation of course dates (`createdAt` is a string on the
  client). Both sides hold the same `Timestamp`.
- Text.Lower: lower-cases ASCII letters only. As explained above, this does not
  change the login check.
