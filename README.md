# Course monitoring: availability pipeline, scraper rules and client course list

This project models in Dafny the core of a course-availability monitor. The monitor has three parts:

- **The course service** (`api/services/course.py`). A user tracks a course by its CRN, year and semester. The service keeps three tables: classes, users and user-courses. A periodic run checks every stored class against the scraper, stores the new status, and notifies every subscriber of a class that has just become open, provided the subscriber has a user record with an email.
- **The scraper's pure rules** (`api/services/scraper.py`). These are the semester term code, the search URL, how a course row's status and seats cells are read, the fixed error results, and the simulator that the service actually calls.
- **The dashboard's course-list hook** (`frontend/src/hooks/useCourses.ts`). It holds a client-side list of at most five courses, an add form and one edit session.

Layout:

- `wrappers.dfy`: the `Option` type.
- `text.dfy`: the Python string built-ins the services depend on, namely `str(int)`, `int(str)`, `strip`, `lower` and substring `in`.
- `schemas.dfy`: the record shapes.
- `scraper.dfy`: the scraper.
- `course_service.dfy`: the pipeline. First come the specification functions and the lemmas about them. At the end, the `Tables` class holds the three tables as fields, and its methods carry the service's loops.
- `use_courses.dfy`: the hook, as the class `CourseList`. Each hook action is one method.

The scraper is a function parameter `(crn, year, semester) -> Availability`. The clock is a timestamp parameter.

## Model

| member | source | states |
|---|---|---|
| Text.IntToString | api/services/course.py:19 | `str(year)` is non-empty, starts with `-` exactly for negative years, and is all digits otherwise |
| Text.ParseInt | api/services/scraper.py:68 | `int(s)` succeeds exactly on an optional sign followed by a digit group (digits, with single underscores only between digits); its value is the decimal value of the digits with the underscores dropped, negated after `-` |
| Text.LeadingZeroIgnored | api/services/scraper.py:68 | a leading zero does not change the value `int()` reads |
| Text.UnderscoreIgnored | api/services/scraper.py:68 | an underscore between two digit groups does not change the value `int()` reads |
| Text.SignedParse | api/services/scraper.py:68 | a `+` keeps the value `int()` reads and a `-` negates it |
| Text.NatToStringRoundTrip | api/services/scraper.py:32 | the decimal text of a year reads back as the same number |
| Text.ParseIntOfIntToString | api/services/scraper.py:68 | `int(str(n)) == n` for every integer |
| Text.Strip | api/services/scraper.py:63 | `strip()` leaves no whitespace at either end and never lengthens the text |
| Text.StripPadded | api/services/scraper.py:63 | `strip()` removes exactly the surrounding whitespace of a text |
| Text.StripIdempotent | api/services/scraper.py:63 | stripping twice is stripping once |
| Text.StripKeepsNonSpace | api/services/scraper.py:63-67 | `strip()` keeps every non-whitespace character of the text |
| Text.Lower | api/services/scraper.py:63 | `lower()` keeps the length, leaves no ASCII capital, keeps every other character and maps each capital to its small letter |
| Text.ContainsIff | api/services/scraper.py:64 | `pat in s` holds exactly when `pat` occurs at some position of `s` |
| Schemas.SemesterName | api/schemas/course.py:6-9 | the stored semester names contain no `-` |
| Scraper.SemesterCode | api/services/scraper.py:25-29 | Spring gives "10", Summer "20", every other semester "30" (in both directions) |
| Scraper.SearchUrl | api/services/scraper.py:22-32 | the search URL starts with the base URL and `/search?term=`, and ends with `&crn=` and the CRN |
| Scraper.SearchUrlInjective | api/services/scraper.py:22-32 | for every year, negative ones included, the search URL determines the CRN, the year and the term code |
| Scraper.TermInjective | api/services/scraper.py:25-32 | for every year, negative ones included, the `term` value determines the year and the semester code |
| Scraper.CheckCourseAvailability | api/services/scraper.py:20-87 | for a page with the course row: open exactly when the status cell says open, the seats are the seats cell's count, and there is no error; a missing row gives the fixed not-found result; a timeout gives "Request timeout", an HTTP error "HTTP error: " and the status code, any other failure its message, each closed and without seats |
| Scraper.StatusSaysOpen | api/services/scraper.py:62-64 | a status counts as open exactly when a status cell is present and "open" occurs at some position of its trimmed, lower-cased text |
| Scraper.SeatCount | api/services/scraper.py:66-70 | when the trimmed seats text parses, the count is the parsed value; a non-zero count only comes from such a parse |
| Scraper.SeatCountReadsLiteral | api/services/scraper.py:66-68 | a seats cell holding any text `int()` accepts, with whitespace around it, yields the value `int()` reads |
| Scraper.SeatCountIgnoresLeadingZero | api/services/scraper.py:66-68 | a leading zero in the seats cell does not change the count, so "05" reads as 5 |
| Scraper.NotOpenCountsAsOpen | api/services/scraper.py:64 | the status text "Not Open" counts as open |
| Scraper.ClosedIsNotOpen | api/services/scraper.py:62-64 | the status text "Closed" does not count as open |
| Scraper.SeatCountReadsInteger | api/services/scraper.py:66-68 | a seats cell holding an integer, with any whitespace around it, yields that integer |
| Scraper.SeatCountFallsBackToZero | api/services/scraper.py:66-70 | a seats cell holding any character that is neither whitespace, a digit, an underscore nor a sign yields 0 |
| Scraper.SimulateCourseAvailability | api/services/scraper.py:90-108 | the simulator gives no error; closed means 0 seats; open means the drawn 1..10 seats; open exactly when the draw exceeds 0.7 |
| Scraper.SimulatedIsReachable | api/services/scraper.py:97-102 | every result of the simulator's shape comes from some pair of random draws |
| CourseService.CourseIdInjective | api/services/course.py:17-19 | for non-negative years, equal class ids come from equal (crn, year, semester) |
| CourseService.CourseIdCollidesForNegativeYears | api/services/course.py:17-19 | with a negative year, two different courses share one id |
| CourseService.CourseId | api/services/course.py:17-19 | the class id starts with the CRN and a `-`, and ends with `-` and the semester name |
| CourseService.PutSubscription | api/services/course.py:59-64 | after the put, the table holds the pair and everything it held before, and nothing else; it keeps each pair once |
| CourseService.ClassesOfIff | api/services/course.py:81-86 | the query by user lists exactly the classes that user tracks |
| CourseService.SubscribersOfIff | api/services/course.py:213-219 | the query by class lists exactly the users tracking that class |
| CourseService.SubscribersOfDistinct | api/services/course.py:213-221 | a class's subscriber list names each user once |
| CourseService.RowsForIff | api/services/course.py:92-100 | the id-to-row lookup returns exactly the stored rows of the listed ids, and skips missing ids |
| CourseService.UserCoursesIff | api/services/course.py:73-102 | a user's course list is exactly the stored rows of the classes they track, and it is empty when they track none |
| CourseService.NewClassRow | api/services/course.py:40-56 | a new row keeps the course's identity, stores the scraper's open status, and stores 0 seats when the scraper gives none |
| CourseService.Refreshed | api/services/course.py:138-150 | a check keeps the row's identity, stores the scraper's open status, and stores 0 seats when the scraper gives none |
| CourseService.StatusChangedIffStoredStatusFlips | api/services/course.py:127-158 | `status_changed` is reported exactly when the stored status flips; the reported status is the one stored afterwards |
| CourseService.Report | api/services/course.py:127-159 | the result of a check carries the class id, the scraper's openness, its seats or 0, the stored previous status, and a change flag set exactly when the two statuses differ |
| CourseService.RecheckReportsNoChange | api/services/course.py:127-158 | re-checking against an answer with the same openness reports no change |
| CourseService.Swept | api/services/course.py:162-176 | a sweep keeps the table's key set and keeps every row under its own id |
| CourseService.NewlyOpenIff | api/services/course.py:190-191 | a result is acted on exactly when it is open and changed |
| CourseService.NewlyOpenExcludesUnchangedAndClosing | api/services/course.py:190-191 | a class that stayed open, or one that closed, is never acted on |
| CourseService.NewlyOpen | api/services/course.py:190-191 | the kept results are results of the sweep that are open and changed, and there are no more of them than results |
| CourseService.NewlyOpenDistinct | api/services/course.py:171-191 | when the sweep lists each class once, so does the list of newly open classes |
| CourseService.SweepNewlyOpenIff | api/services/course.py:186-191 | in a sweep, a class is newly open exactly when it was stored as closed or without a status and the scraper now says open |
| CourseService.NotifySubscribers | api/services/course.py:221-240 | a class yields no more notifications than it has listed subscribers |
| CourseService.NotifySubscribersIff | api/services/course.py:221-240 | a subscriber is notified exactly when they have a user record with an email, and that email is the address used |
| CourseService.FanOutIff | api/services/course.py:199-240 | a notification is sent exactly for a newly open class still in the table and a subscriber of it with an email |
| CourseService.FanOutDistinct | api/services/course.py:199-240 | no user is notified twice about one class in one run |
| CourseService.NotificationCount | api/services/course.py:197-244 | `notifications_sent` equals the number of (newly open class, subscriber with an email) pairs |
| CourseService.RunNotificationCount | api/services/course.py:179-244 | for a sweep of the table, no (user, class) pair is notified twice, and `notifications_sent` is the number of (newly open class, subscriber with an email) pairs |
| CourseService.RunNotifiesIff | api/services/course.py:179-240 | end to end: a run notifies a (user, class) pair exactly when the class went from closed to open, the user tracks it, and the user has an email |
| CourseService.ResweepIsQuiet | api/services/course.py:186-194 | a second sweep that sees the same scraper answers notifies no one |
| CourseService.SweepMakesSeatsConsistent | api/services/course.py:132-150 | with the simulator, after a sweep every row has 0 seats when closed and 1..10 seats when open |
| CourseService.NewRowKeepsSeatsConsistent | api/services/course.py:40-56 | with the simulator, adding a new row keeps seats consistent with status |
| CourseService.Tables.constructor | api/services/course.py:24-26 | the service starts from given classes, users and user-courses tables, with nothing published yet |
| CourseService.Tables.AddCourse | api/services/course.py:22-70 | returns the deterministic id; creates the row from one scraper answer only when none exists; always records the subscription |
| CourseService.Tables.GetUserCourses | api/services/course.py:73-106 | returns the rows of the user's tracked classes in subscription order, skipping ids that have no row |
| CourseService.Tables.CheckCourseAvailability | api/services/course.py:109-159 | an unknown id reports not found and writes nothing; otherwise stores the scraper's answer and the time, and reports the change against the stored status |
| CourseService.Tables.Scan | api/services/course.py:168-169 | returns every stored row exactly once, in an unspecified order |
| CourseService.Tables.CheckAllCourses | api/services/course.py:162-176 | the table afterwards is the swept table; the results are one check per stored class, each class once |
| CourseService.Tables.CheckEach | api/services/course.py:171-176 | checks the scanned rows in order, one result per row, each the report for that row, and leaves every checked row swept |
| CourseService.Tables.CheckScannedCourse | api/services/course.py:172-174 | checking one scanned row sweeps exactly that row and reports it |
| CourseService.Tables.SendCourseNotification | api/services/course.py:235-239 | appends one notification for the user, the email and the class |
| CourseService.Tables.NotifySubscribersOfEach | api/services/course.py:199-240 | publishes the fan-out for the given classes, in order, and returns its length |
| CourseService.Tables.NotifyClassSubscribers | api/services/course.py:200-240 | skips a class no longer in the table; otherwise publishes one notification per subscriber with an email, and returns their number |
| CourseService.Tables.NotifyNewlyOpen | api/services/course.py:189-245 | keeps the open-and-changed results; with none, it returns the fixed message and publishes nothing; otherwise it publishes their fan-out and reports the class count and the notification count |
| CourseService.Tables.NotifyUsersForOpenCourses | api/services/course.py:179-245 | sweeps the table; with no newly open class it returns the fixed message and publishes nothing; otherwise it publishes the fan-out and returns the message with the class count and the notification count |
| UseCourses.SetField | frontend/src/hooks/useCourses.ts:123-127 | updating a field of a course changes that field and no other |
| UseCourses.SetDraftField | frontend/src/hooks/useCourses.ts:119-121 | updating a field of the add form changes that field and no other |
| UseCourses.WithoutId | frontend/src/hooks/useCourses.ts:85-87 | deleting never lengthens the list |
| UseCourses.WithoutIdIff | frontend/src/hooks/useCourses.ts:85-87 | deleting by id removes exactly the courses with that id |
| UseCourses.WithoutIdAppend | frontend/src/hooks/useCourses.ts:85-87 | deleting keeps the order of the remaining courses |
| UseCourses.WithoutAbsentId | frontend/src/hooks/useCourses.ts:85-87 | deleting an id that no course has changes nothing |
| UseCourses.ReplaceById | frontend/src/hooks/useCourses.ts:105-107 | saving keeps the list's length, replaces every course with the edited id, and keeps the others |
| UseCourses.CourseList.constructor | frontend/src/hooks/useCourses.ts:13-48 | the hook starts with the three sample courses, no edit session, the add form closed, and an empty form for the current year and Fall |
| UseCourses.CourseList.SetIsAddingCourse | frontend/src/hooks/useCourses.ts:42 | sets the add-form flag and keeps the list invariant |
| UseCourses.CourseList.AddCourse | frontend/src/hooks/useCourses.ts:51-71 | adds exactly when the list has fewer than five courses and the CRN is five digits; on success appends the form with the new id and resets the form; on failure changes nothing; never exceeds five courses |
| UseCourses.CourseList.ResetNewCourse | frontend/src/hooks/useCourses.ts:74-82 | empties the form for the current year and Fall, and closes it |
| UseCourses.CourseList.DeleteCourse | frontend/src/hooks/useCourses.ts:85-87 | the list becomes the old list without the courses with that id |
| UseCourses.CourseList.StartEditing | frontend/src/hooks/useCourses.ts:90-93 | opens an edit session on that course and its id |
| UseCourses.CourseList.SaveEdit | frontend/src/hooks/useCourses.ts:96-110 | saves exactly when a session is open and its CRN is five digits, by replacing the courses with the edited id and closing the session; otherwise changes nothing |
| UseCourses.CourseList.CancelEdit | frontend/src/hooks/useCourses.ts:113-116 | closes the edit session |
| UseCourses.CourseList.UpdateNewCourse | frontend/src/hooks/useCourses.ts:119-121 | the form becomes the old form with one field set |
| UseCourses.CourseList.UpdateEditingCourse | frontend/src/hooks/useCourses.ts:123-127 | with a session open, the edited course gets one field set; with none, nothing changes |

## Left out

- The HTTP request and the HTML lookup (httpx, BeautifulSoup, the regular expression on the row id) are not modelled. What they produce is the input `Scraper.Fetch`, and the exceptions they raise are its error cases.
- Logging, the DynamoDB client, the table names read from environment variables, and the re-raising of table errors in `add_course` and `get_user_courses` are left out. Table calls always succeed in the model.
- CourseService.Tables.CheckAllCourses reads the whole classes table. The source reads only the first page of the scan, because it ignores `LastEvaluatedKey`. The model covers tables that fit in one page.
- CourseService.Tables.GetUserCourses and CourseService.Tables.NotifyClassSubscribers read all matching subscriptions. The source reads only the first page of each query.
- CourseService.Tables.CheckAllCourses uses one timestamp for every row of a sweep. The source reads the clock for each row. Timestamps are opaque strings, and their ISO format is not modelled.
- CourseService.ClassesOf and CourseService.SubscribersOf return query results in the insertion order of the user-courses sequence. DynamoDB returns a partition's items in sort-key order, which the model does not capture. The scan order is left unspecified.
- Async execution is modelled as sequential. There is no concurrency between runs.
- The scraper is a parameter of the service. The service calls the simulator. `CourseService.SimulatedOracle` restricts the parameter to what the simulator can answer. `random.random()` and `random.randint` are the parameters `draw` (a real number) and `pick` of `Scraper.SimulateCourseAvailability`. The float comparison with 0.7 is done on reals.
- The body of `NotificationService.send_course_notification` (`api/services/notification.py`) is not part of this model. Each call is recorded as one published `Notification`, which holds the class id rather than the whole row. The notification service's silent return when no topic is configured, and its exceptions, are not modelled.
- CourseService.NewlyOpen requires every result to be a completed check. The source would fail with a missing-key error on a not-found result, and a sweep never produces one.
- CourseService.CourseId writes the semester as its stored value ("Fall"). On Python 3.11 and later, an f-string of a `(str, Enum)` member gives "Semester.FALL" instead. The model follows the value that the tables store and that the scraper's code table expects.
- Text.Lower lower-cases ASCII letters only, while Python's `lower()` covers all of Unicode. ASCII is enough for detecting "open".
- Text.ParseInt and Text.IntToString have no limit on the number of digits. Since Python 3.11 (and the 2022 security releases of 3.7 to 3.10), `int()` and `str()` raise `ValueError` beyond 4300 decimal digits. So for a seats text of more than 4300 digits, Scraper.SeatCount returns the number, where the source falls back to 0. Text.ParseIntOfIntToString and Scraper.SeatCountReadsInteger hold for every integer in the model, but only up to that width in Python.
- Text.ParseInt accepts ASCII digits only. Python's `int()` also accepts other Unicode decimal digits.
- The code has no retries, no de-duplication of notifications across runs and no parallel checks; the model has none either.
- `alert(...)` in the hook is left out. The hook's React state updates take effect immediately in the model. `Date.now().toString()` and the current year are parameters.
- UseCourses.CourseList.AddCourse checks the cap with the constant `MaxCourses`. The source compares with the literal 5 and separately exports `MAX_COURSES: 5`. The two values are equal.
