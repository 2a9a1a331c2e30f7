# Course enrollment: a Dafny model

This project models the course routes of a small course-enrollment web application and the
two client pages that use them. Instructors publish courses. Students enroll in them and
cancel their enrollment. Each side sees its own courses.

- `course_route.dfy`, module `CourseRoute`: the course collection as class `CourseTable`. It
  has one field, `courses: map<CourseId, Course>`. Each route handler of
  `server/routes/course-route.js` is a method of the class. It takes the already
  authenticated caller (`Principal`: an id and a role) and returns the HTTP status the handler
  sends. Each mutating handler is specified by a pure function of the table before the call
  (`CreateOutcome`, `EnrollOutcome`, `UnenrollOutcome`, `DeleteOutcome`). That function gives
  the status and the table after the call, and the method is proved to change the map exactly
  so. The GET listings read the map, change nothing, and answer a `Query`, the filter object
  the handler passes to `Course.find`. The module also holds the roster operation behind
  unenroll (`RemoveFirst`), lemmas about enrolling and unenrolling, and two end-to-end
  scenarios.
- `enroll_component.dfy`, module `EnrollComponent`: the enrollment page. It covers the search
  filter, the enrolled-id list, the enroll/cancel button choice, and the page's three state
  cells as fields of class `EnrollPage`.
- `course_component.dfy`, module `CourseComponent`: the course page. It covers the role-based
  choice of listing and of cancel action, and the update of the page's list after an action
  (class `CoursePage`).
- `course_service.dfy`, module `CourseService`: what a page receives for a request, given the
  stored login token and the status the route answers (`ServiceReply`).
- `seqs.dfy`, module `Seqs`: the JavaScript array operations used above (`filter`, `indexOf`,
  a one-element `splice`) with the properties their callers rely on.
- `text.dfy`, module `Text`: the JavaScript string operations used by the search (`trim`,
  `toLowerCase`, `includes`).

The model follows the code as written. In particular:

- Enroll has no role check and no duplicate check. Enrolling twice writes the id twice
  (`EnrollTwice`). An instructor may enroll too.
- Enroll or unenroll on a course id that does not exist dereferences null. The error is
  caught and answered with 500, not 404.
- Unenroll has no role check. It removes only the first occurrence of the caller's id. It
  answers 404 when the id is absent.
- Delete checks that the course exists first (400 when missing). Then it checks ownership
  (403 when the caller is not the owner). There is no role check. So a student deleting a
  missing course gets 400, not a role denial.
- Creating a course as a student answers 400, not 403. Only the student role is refused:
  an account with an unknown role string can create courses.
- A role is the string on the account. The server refuses only `"student"` when a course is
  created. The pages branch on `"instructor"` and `"student"`, and treat any other string as
  a third case.
- Find-by-name is an exact, case-sensitive match on the title. The case-insensitive
  substring search exists only in the enrollment page's client-side filter.

## Model

| member | source | states |
|---|---|---|
| CourseRoute.NewCourse | server/routes/course-route.js:93-100 | the new document carries the posted title, description, price and image, the caller as instructor, and an empty roster |
| CourseRoute.CourseTable.Scan | server/routes/course-route.js:14-16 | a store scan returns every stored course the filter matches, each exactly once, with its id |
| CourseRoute.CourseTable.ListAll | server/routes/course-route.js:12-22 | the listing holds exactly the stored courses, without repeats; nothing changes |
| CourseRoute.CourseTable.ListByInstructor | server/routes/course-route.js:25-35 | the listing holds exactly the stored courses whose instructor is the given id, without repeats; nothing changes |
| CourseRoute.CourseTable.ListByStudent | server/routes/course-route.js:38-48 | the listing holds exactly the stored courses whose roster contains the given id, without repeats; nothing changes |
| CourseRoute.CourseTable.FindByName | server/routes/course-route.js:51-61 | the listing holds exactly the stored courses whose title equals the name (exact, case-sensitive), without repeats; nothing changes |
| CourseRoute.CourseTable.FindOne | server/routes/course-route.js:64-74 | the lookup yields the stored course under that id exactly when the id is present, else null |
| CourseRoute.CreateOutcome | server/routes/course-route.js:79-108 | failed validation: 400, table unchanged; otherwise a student: 400, unchanged; otherwise an identifier already in use: 500, unchanged; otherwise 200 with exactly one new key, holding the new document, and every other course untouched |
| CourseRoute.CourseTable.Create | server/routes/course-route.js:79-108 | the status and the new table are those `CreateOutcome` gives for the old table; after a 200 the lookup finds the new course |
| CourseRoute.EnrollOutcome | server/routes/course-route.js:111-121 | a missing course: 500, unchanged; otherwise 200, the caller's id is appended to that roster (its length and the caller's count grow by one), the keys and every other course stay |
| CourseRoute.CourseTable.Enroll | server/routes/course-route.js:111-121 | the status and the new table are those `EnrollOutcome` gives for the old table |
| CourseRoute.UnenrollOutcome | server/routes/course-route.js:123-144 | a missing course: 500, unchanged; the caller absent from the roster: 404, unchanged; otherwise 200, the roster loses the caller's first occurrence (its length and the caller's count drop by one), the keys and every other course stay |
| CourseRoute.CourseTable.Unenroll | server/routes/course-route.js:123-144 | the status and the new table are those `UnenrollOutcome` gives for the old table |
| CourseRoute.DeleteOutcome | server/routes/course-route.js:146-165 | a missing course: 400, unchanged; the caller is the instructor: 200 and only that key is removed; otherwise 403, unchanged |
| CourseRoute.CourseTable.Delete | server/routes/course-route.js:146-165 | the status and the new table are those `DeleteOutcome` gives for the old table; after a 200 the lookup yields null |
| CourseRoute.RemoveFirst | server/routes/course-route.js:130-133 | an absent id leaves the roster as it is; a present id is removed at its first index only: the others keep their order, the length drops by one, one copy leaves the multiset |
| CourseRoute.EnrollThenUnenroll | server/routes/course-route.js:114-133 | unenrolling right after enrolling restores the roster's multiset, and restores the very roster when the student was not enrolled before |
| CourseRoute.EnrollTwice | server/routes/course-route.js:114-117 | two enrolls add two entries for the same student, and one unenroll afterwards leaves the student enrolled |
| CourseRoute.EnrollTwiceUnenrollOnce | server/routes/course-route.js:111-144 | on the table, two enrolls and one unenroll of the same student all answer 200, keep the keys, and leave the student's count on the roster one higher |
| CourseRoute.EnrollBreaksSingleEnrollment | server/routes/course-route.js:114-117 | enrolling a student already on the roster lists them twice, so the enroll as written does not keep every student at most once per roster |
| CourseRoute.EnrollOnceOutcome | server/routes/course-route.js:111-121 | the corrected enroll: a missing course: 500, unchanged; a caller already on the roster: 200 and the table exactly as it was; otherwise 200, the caller is appended at the end of that roster, the course's other fields, the keys and every other course stay, and the caller is then on the roster exactly once with no other student's count changed |
| CourseRoute.EnrollOnceIdempotent | server/routes/course-route.js:111-121 | the corrected enroll is idempotent: joining again after joining yields the same status and table |
| CourseRoute.EnrollOnceKeepsSingleEnrollment | server/routes/course-route.js:111-121 | the corrected enroll keeps every student at most once on every roster |
| CourseRoute.UnenrollKeepsSingleEnrollment | server/routes/course-route.js:123-144 | unenroll keeps every student at most once on every roster |
| CourseRoute.CorrectedHandlersKeepSingleEnrollment | server/routes/course-route.js:79-165 | with the corrected enroll, create, enroll, unenroll and delete all keep every student at most once on every roster |
| CourseRoute.LifecycleScenario | server/routes/course-route.js:79-165 | create, list by instructor (that one course), enroll, list by student (that one course with the student on it), unenroll, list by student (empty), delete (200), then the lookup yields null |
| CourseRoute.RepeatEnrollScenario | server/routes/course-route.js:111-144 | enroll, enroll, unenroll all answer 200; the student's count on the roster ends one higher and the course is still in their listing |
| CourseService.ServiceReply | client/src/services/course.service.js:41-64 | without a stored token the reply is rejected whatever the route would answer; with one it resolves, with the response body, exactly when the status is 2xx |
| Seqs.Filter | client/src/components/enroll-component.js:60-62 | the result holds exactly the elements satisfying the predicate, each as often as in the input, and is an order-preserving subsequence of the input |
| Seqs.IndexOf | server/routes/course-route.js:130 | -1 exactly when the element is absent, otherwise the first index holding it |
| Seqs.Splice | server/routes/course-route.js:133 | the elements before the index stay, those after it shift down by one, the length drops by one |
| Seqs.SpliceMultiset | server/routes/course-route.js:133 | a splice takes exactly one copy of the removed element out of the multiset |
| Text.TrimStart | client/src/components/enroll-component.js:57 | the result is a suffix of the input, all that was dropped is whitespace, and it does not start with whitespace |
| Text.TrimEnd | client/src/components/enroll-component.js:57 | the result is a prefix of the input, all that was dropped is whitespace, and it does not end with whitespace |
| Text.Trim | client/src/components/enroll-component.js:57 | the result is a contiguous piece of the input with only whitespace on either side of it, and it neither starts nor ends with whitespace |
| Text.IsBlankInput | client/src/components/enroll-component.js:57 | the blank-input test holds exactly when every character of the input is whitespace |
| Text.LowerChar | client/src/components/enroll-component.js:61 | the result is never a capital letter; only a capital letter changes, into its own small letter; whitespace stays whitespace and nothing else becomes whitespace |
| Text.Lower | client/src/components/enroll-component.js:61 | the result has the input's length, lowercases each character in place and holds no capital letter; it is all whitespace exactly when the input is |
| Text.LowerKeepsBlank | client/src/components/enroll-component.js:57-61 | lowercasing an input does not change whether it counts as blank |
| Text.Includes | client/src/components/enroll-component.js:61 | a needle that is included is no longer than the text, and a prefix of the text is included |
| Text.IncludesTransitive | client/src/components/enroll-component.js:61 | a substring of a substring is a substring |
| EnrollComponent.EnrolledIds | client/src/components/enroll-component.js:28-30 | the ids of the enrolled listing, one per course, in the same order |
| EnrollComponent.SearchResult | client/src/components/enroll-component.js:57-63 | a blank input shows the whole loaded list; otherwise exactly the courses whose lowercased title contains the lowercased untrimmed input, each as often as loaded; always an order-preserving subsequence of the loaded list |
| EnrollComponent.SearchIgnoresCase | client/src/components/enroll-component.js:61 | two inputs that lowercase alike give the same search result |
| EnrollComponent.SearchNarrows | client/src/components/enroll-component.js:49-63 | after characters are appended to the input, every course shown was already shown for the shorter input |
| EnrollComponent.Buttons | client/src/components/enroll-component.js:164-186 | each card shows exactly one button: cancel when its id is among the enrolled ids, enroll when it is not |
| EnrollComponent.ButtonsFollowRoster | client/src/components/enroll-component.js:28-30 | with the enrolled ids taken from the by-student listing, a stored course shows cancel exactly when the caller is on its roster and enroll exactly when not |
| EnrollComponent.EnrollPage.constructor | client/src/components/enroll-component.js:8-10 | the search result and course data start null, the enrolled ids empty |
| EnrollComponent.EnrollPage.LoadCourses | client/src/components/enroll-component.js:17-47 | no user: the search result becomes null and nothing is fetched; a rejected enrolled-listing reply changes nothing; otherwise the enrolled ids are set, and when the all-courses reply resolves both the data and the search result become it |
| EnrollComponent.EnrollPage.HandleSearch | client/src/components/enroll-component.js:54-65 | before the courses are loaded nothing changes; afterwards the search result is the search over the loaded courses; only the search result cell can change |
| CourseComponent.FetchRequest | client/src/components/course-component.js:15-28 | no user: no request; an instructor asks for their by-instructor listing, a student for their by-student listing; any other role sends nothing |
| CourseComponent.CancelAction | client/src/components/course-component.js:47-55 | an instructor deletes the course, a student cancels the enrollment, any other role only gets an alert; each in both directions |
| CourseComponent.WithoutCourse | client/src/components/course-component.js:61 | exactly the listed courses with a different id remain, each as often as listed, as an order-preserving subsequence |
| CourseComponent.WithoutAbsentCourse | client/src/components/course-component.js:61 | dropping an id that is not listed leaves the list unchanged |
| CourseComponent.DeleteKeepsPageInSync | client/src/components/course-component.js:47-61 | for an instructor's by-instructor listing: when the delete's reply resolves, the list without the course is exactly the server's new listing; when the server refuses, the old list still is |
| CourseComponent.UnenrollKeepsPageInSync | client/src/components/course-component.js:50-61 | for a student's by-student listing, on a table listing no student twice on a roster: when the unenroll's reply resolves, the list without the course is exactly the server's new listing; when the server refuses, the old list still is |
| CourseComponent.UnenrollTwiceEnrolledDiverges | client/src/components/course-component.js:50-61 | a student listed twice on a roster gets an accepted unenroll, stays on the roster, and the page's list without the course is not the server's new listing |
| CourseComponent.CoursePage.constructor | client/src/components/course-component.js:10 | the course list starts null |
| CourseComponent.CoursePage.FetchCourses | client/src/components/course-component.js:13-34 | without a request, or with a rejected reply, the list is unchanged; otherwise it becomes the reply's data |
| CourseComponent.CoursePage.Cancel | client/src/components/course-component.js:40-72 | the action is the role's choice; with no request or a rejected reply the list is unchanged; on success the list loses every course of that id and keeps the order of the rest |

## Findings

| source | as written | input that shows it | evidently intended | confidence | as-written member | corrected member |
|---|---|---|---|---|---|---|
| server/routes/course-route.js:115 | enroll pushes the caller's id with no duplicate check; unenroll removes one occurrence (lines 130-133); the course page drops the course after any accepted cancel (client/src/components/course-component.js:61) | a student whose id is on a roster twice, after two enroll requests for the same course, cancels once on the course page | joining is idempotent, so one cancel takes the student off the roster and the page agrees with the server | not executed; medium | CourseComponent.UnenrollTwiceEnrolledDiverges | CourseRoute.EnrollOnceOutcome |

`CourseRoute.EnrollBreaksSingleEnrollment` shows that the enroll as written can put a student
on a roster twice. The enrollment page shows the enroll button only for a course the student
has not joined (`Buttons`). So the duplicate needs a second request: a repeated submission, a
stale page, or a direct call. The corrected enroll adds the caller only when absent. With it,
every handler keeps `SingleEnrollment` (`CorrectedHandlersKeepSingleEnrollment`). Under that
invariant the course page and the server agree after every accepted cancel
(`UnenrollKeepsPageInSync`). The handler methods keep the enroll as written, because that is
what the server does.

## Left out

- Express routing, body parsing, CORS, passport's JWT check and the database connection
  (`server/index.js`) are framework plumbing. The caller arrives as an authenticated
  `Principal`.
- `courseValidation` is not part of this model. `CourseTable.Create` takes the verdict as a
  function parameter on the request body.
- The Course schema is not part of this model. A new course starts with an empty roster,
  its price is an integer, and its image is an uninspected string.
- ObjectId generation is outside the model. `CourseTable.Create` takes the identifier the
  store assigns as a parameter. A value already in use is answered 500, as a duplicate-key
  error would be.
- Identifiers that are not well-formed ObjectIds make the lookups fail with a cast error
  (500). The model treats every identifier as well-formed.
- Store failures (the 500 answers of the GET routes and of the saves) are not modelled.
  Only the 500 answers that follow from the handlers' own logic are.
- `populate` only adds the instructor's username and email for display, so it is left out.
  Listing order is left open, because the store's `find` promises none.
- The find-then-save pattern is not atomic. The model is sequential: each handler runs to
  completion before the next one starts, so concurrent interleavings are not modelled.
- `AuthService` and `localStorage` are outside the model. A stored token is a flag
  (`hasToken`) of `CourseService.ServiceReply`. An unreadable stored user counts as no token.
  Network failures are not modelled. The page methods take each reply as a parameter, and
  the consistency lemmas compute it from the route's status.
- The User model is not part of this model. `isStudent()` is taken to test the role string
  `"student"`.
- JSX rendering, `window.alert`, `navigate`, console logging and the promise machinery are
  UI effects and are left out. `handleEnroll` and `cancelEnroll` on the enrollment page
  only call the server and navigate, so they are covered by `Enroll` and `Unenroll`.
- The home page is static navigation and is left out.
- Text.Lower: `toLowerCase` is modelled as ASCII case folding, not full Unicode case
  mapping.
