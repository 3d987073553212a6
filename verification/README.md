# Education manager: the page rules, modelled in Dafny

The application is a React front end for a course-management service. Managers
publish courses, answer enrollment requests and message students. Students
browse a catalog, ask to enroll, follow their progress and read messages.
Every persistent operation is a call to a hosted backend. The pages also hold
a set of small pure rules, and this project models those rules as pure
functions over immutable datatypes. The backend's answers are parameters: a
`Result` is an error or the returned rows, and an `Option` is a value that may
be `null`/`undefined`.

Modules, one per file, follow the program's pages:

| module | file | what it holds |
|---|---|---|
| `Common` | common.dfy | `Option`, `Result`, the order-preserving `Filter` / `Count` / `Find` (`Array.prototype.filter`, `.length`, `.find`), and the subsequence relation |
| `Strings` | strings.dfy | the JavaScript string primitives the pages use: ASCII `toLowerCase`/`toUpperCase`, `includes`, `trim` over the ECMAScript whitespace set, `split(',')`, `join`, `parseInt` and `toString` |
| `Schema` | schema.dfy | the table rows of src/lib/supabase.ts: `Profile`, `Course`, `Enrollment`, `CourseModule`, `Message` and their enums |
| `CourseForm` | course_form.dfy | the manager's course form: list fields, the `max_students` fallback, create/update payloads, the edit form |
| `ManagerDashboard` | manager_dashboard.dfy | the message payload, the course search, the counters, the roster's active flag, `students` reconciliation |
| `UserDashboard` | user_dashboard.dfy | enrollment lookups, the browse search, the enrolled/available split, the progress cards, module grouping, mark-as-read, enrolling, the inbox |
| `CourseDetail` | course_detail.dfy | module access, the expanded-module list, the enroll guard, the page load, the status label |
| `Catalog` | catalog.dfy | tag normalisation after the fetch and the search/category/level filter |
| `AppRouter` | app_router.dfy | the session state, its transitions, and the route table as a decision function |
| `Registration` | registration.dfy | the sign-up checks, their order, and the sign-up request |

Behaviour the code has, as modelled:

- A completed enrollment does not open paid modules. Only `approved` does.
- A failed lookup of the visitor's enrollment is not an error. On the first load the page then has no enrollment. A later reload whose lookup fails, or that runs without a user, keeps the enrollment loaded before.
- The student's local mark-as-read also stamps broadcasts. The stored update is limited to the student's own messages, so a broadcast row stays unread.
- The catalog's category choice `'all'` switches the filter off only when spelled exactly so.

## Model

| member | source | states |
|---|---|---|
| Strings.Lower | src/pages/ManagerDashboard.tsx:338-339 | `toLowerCase` on ASCII: same length, each letter mapped to its lower case, everything else unchanged |
| Strings.LowerIdempotent | src/pages/CoursesPage.tsx:61 | lowering leaves no capital, lowering twice is lowering once, and text without capitals is unchanged |
| Strings.Contains | src/pages/UserDashboard.tsx:141 | `includes` holds exactly when the needle occurs at some index of the text |
| Strings.ContainsCIIgnoresCase | src/pages/ManagerDashboard.tsx:337-340 | the case-insensitive test gives the same answer on lowered inputs, and the empty query is found in every text |
| Strings.Trim | src/pages/ManagerDashboard.tsx:233 | `trim` returns the slice of the text that starts after its leading whitespace and is followed only by whitespace; everything cut off is whitespace, and the result has no whitespace at either end |
| Strings.TrimStart | src/pages/ManagerDashboard.tsx:233 | the result is a suffix of the input, everything removed is whitespace, and it does not start with whitespace |
| Strings.TrimEnd | src/pages/ManagerDashboard.tsx:233 | the result is a prefix of the input, everything removed is whitespace, and it does not end with whitespace |
| Strings.TrimKeepsAbsence | src/pages/ManagerDashboard.tsx:233 | trimming never introduces a character that was not there |
| Strings.Split | src/pages/ManagerDashboard.tsx:233-235 | `split(',')` gives at least one piece, no piece contains a comma, and joining the pieces with a comma gives the text back |
| Strings.SplitJoin | src/pages/ManagerDashboard.tsx:233-235 | splitting a comma-joined list of comma-free pieces gives the pieces back |
| Strings.ParseIntToString | src/pages/ManagerDashboard.tsx:230 | `parseInt` reads back every integer written by `toString` |
| Strings.ParseInt | src/pages/ManagerDashboard.tsx:230 | `parseInt` with no radix: blank text is `NaN`, and a negative result needs a leading minus sign after the whitespace |
| Strings.ParseIntNeedsDigit | src/pages/ManagerDashboard.tsx:230 | `parseInt` gives a number only when the text contains a decimal digit |
| Strings.ParseIntDecimal | src/pages/ManagerDashboard.tsx:230 | leading whitespace, an optional `+` or `-`, then a run of decimal digits followed by anything but a digit (and no `0x` prefix) reads as the run's value with that sign |
| Strings.ParseIntHexadecimal | src/pages/ManagerDashboard.tsx:230 | leading whitespace, an optional sign, `0x` or `0X`, then a run of hexadecimal digits followed by anything but one reads as the run's base-16 value with that sign |
| Strings.ParseIntNoDigit | src/pages/ManagerDashboard.tsx:230 | when no digit follows the whitespace and the sign, `parseInt` is `NaN` |
| Strings.ParseIntWritten | src/pages/ManagerDashboard.tsx:230 | an integer written by `toString`, behind any whitespace and before text that does not continue the number, reads back as itself |
| Strings.ParseIntNumeral | src/pages/ManagerDashboard.tsx:230 | a bare decimal numeral without a `0x` prefix reads as its value |
| Strings.Capitalize | src/pages/CourseDetailPage.tsx:249 | `charAt(0).toUpperCase() + slice(1)`: same length, first letter upper-cased, the rest unchanged |
| Strings.CapitalizeLowerRoundTrip | src/pages/CourseDetailPage.tsx:249 | lowering a capitalised lower-case word gives the word back |
| Common.Filter | src/pages/UserDashboard.tsx:179-180 | `filter` keeps exactly the elements satisfying the test, and keeps no other element |
| Common.FilterIsSubseq | src/pages/UserDashboard.tsx:179-180 | `filter` keeps the input order: its result is a subsequence of the input |
| Common.FilterPartition | src/pages/UserDashboard.tsx:179-180 | filtering by a test and by its negation splits the input: the lengths add up and the multisets add up to the input's |
| Common.FilterMonotone | src/pages/CoursesPage.tsx:56-65 | a stricter test keeps a subsequence of what a weaker test keeps |
| Common.Find | src/pages/UserDashboard.tsx:154 | `find` is `undefined` exactly when no element passes, else the first element that passes |
| CourseForm.ParseList | src/pages/ManagerDashboard.tsx:233-235 | every parsed list element is non-empty, trimmed and comma-free, and there are no more elements than comma-separated pieces |
| CourseForm.ParseListIsFilter | src/pages/ManagerDashboard.tsx:233-235 | parsing keeps exactly the non-empty trimmed pieces, in the order of the text |
| CourseForm.ParseJoinRoundTrip | src/pages/ManagerDashboard.tsx:313-315 | a list of non-empty, trimmed, comma-free items joined with `", "` parses back to the same list |
| CourseForm.ParseListIdempotent | src/pages/ManagerDashboard.tsx:313-315 | a list that went through the form once comes back unchanged from a second edit |
| CourseForm.JoinList | src/pages/ManagerDashboard.tsx:313-315 | `join(', ')` of no items is empty and of one item is that item; `CourseForm.ParseJoinRoundTrip` proves that a clean list parses back from it |
| CourseForm.EditForm | src/pages/ManagerDashboard.tsx:301-318 | the edit form copies title and description; a missing short description, category or duration shows as empty text; a missing level shows `beginner`; price text and status are shown; each list column shows its edit text (an array joined with `", "`, a missing one empty); the capacity shown saves back as the course's own (50 for 0) |
| CourseForm.EditTextParsesBack | src/pages/ManagerDashboard.tsx:313-315 | the edit text of an array column parses back to its items, a missing column to the empty list, a string column as that string |
| CourseForm.MaxStudents | src/pages/ManagerDashboard.tsx:230 | `parseInt(text) \|\| 50`: 50 when the text has no leading integer or reads as 0, otherwise exactly the integer read; never 0 |
| CourseForm.MaxStudentsRoundTrip | src/pages/ManagerDashboard.tsx:311 | the capacity shown in the edit form is saved back unchanged when non-zero, and a shown 0 is saved as 50 |
| CourseForm.MaxStudentsBlank | src/pages/ManagerDashboard.tsx:230 | an empty capacity field is saved as 50 |
| CourseForm.CapacityText | src/pages/ManagerDashboard.tsx:311 | the capacity text the edit form shows is saved back as the course's capacity when non-zero, and as 50 for 0 |
| CourseForm.MaxStudentsFifty | src/pages/ManagerDashboard.tsx:328 | the form's initial capacity text `"50"` is saved as 50 |
| CourseForm.FormFields | src/pages/ManagerDashboard.tsx:222-235 | the shared transformation: every text field copied from the form, the capacity as `parseInt(text) \|\| 50` of its field, each list column parsed from its own field, no instructor; so a non-zero capacity and clean lists |
| CourseForm.CreatePayload | src/pages/ManagerDashboard.tsx:222-236 | a new course carries the form's text fields, the capacity and list columns parsed from their own fields, and is owned by the acting manager |
| CourseForm.UpdatePayload | src/pages/ManagerDashboard.tsx:255-268 | the update patch carries the form's text fields, the capacity and list columns parsed from their own fields, and leaves the owner out |
| CourseForm.CreateIsUpdatePlusInstructor | src/pages/ManagerDashboard.tsx:222-268 | create and update transform the form identically; they differ only in `instructor_id` |
| CourseForm.UpdateRequest | src/pages/ManagerDashboard.tsx:250-273 | an update is sent exactly when a course is being edited, for that course's id |
| CourseForm.EmptyFormPayload | src/pages/ManagerDashboard.tsx:320-333 | the reset form creates a draft beginner course for 50 students with empty list columns |
| CourseForm.EditSaveRoundTrip | src/pages/ManagerDashboard.tsx:255-316 | opening a course for editing and saving unchanged writes back its title, description, short description, duration and category (empty for missing ones), the price text shown, level, status, non-zero capacity and clean list columns |
| ManagerDashboard.BuildMessage | src/pages/ManagerDashboard.tsx:187-193 | the sender is the manager, subject and body are copied, and `recipient_id` is present exactly for individual messages, with the chosen recipient |
| ManagerDashboard.SendMessage | src/pages/ManagerDashboard.tsx:184-217 | the payload is the built message; on success the data is refreshed, the form is reset and the toast names a broadcast or a single message; on failure the form is kept and the toast shows the error text or "Failed to send message" |
| ManagerDashboard.SendResetsForm | src/pages/ManagerDashboard.tsx:201-216 | after a successful send the form is empty and individual again, and the toast says "Broadcast message sent to all students!" exactly for a broadcast |
| ManagerDashboard.FilterCourses | src/pages/ManagerDashboard.tsx:337-340 | a course is shown exactly when its title or category contains the query, ignoring case |
| ManagerDashboard.FilterCoursesProperties | src/pages/ManagerDashboard.tsx:337-340 | the search result keeps the list order, and an empty query shows every course |
| ManagerDashboard.ComputeStats | src/pages/ManagerDashboard.tsx:343-346 | totals are the list lengths; active courses are the number of courses with status `active`, so they equal the total exactly when every course is active and are 0 exactly when none is |
| ManagerDashboard.ApprovedEnrollments | src/pages/ManagerDashboard.tsx:716 | the card counts the approved enrollments and never exceeds the total |
| ManagerDashboard.EnrollmentCountFor | src/pages/ManagerDashboard.tsx:765 | a student's count is the number of enrollments naming the student, so it is 0 exactly when none does |
| ManagerDashboard.DetailsMap | src/pages/ManagerDashboard.tsx:140-143 | every fetched row is keyed by its id, every entry is a fetched row, and for each id the last row carrying it is the one kept |
| ManagerDashboard.IsActive | src/pages/ManagerDashboard.tsx:766 | `is_active !== false`: an explicit flag is taken as it is, and a missing row or unset flag counts as active |
| ManagerDashboard.ActiveStudentCount | src/pages/ManagerDashboard.tsx:697 | the active count is the number of roster students shown as active, so it equals the roster size exactly when every student is active |
| ManagerDashboard.ActiveByDefault | src/pages/ManagerDashboard.tsx:766 | a student without a row, or with `is_active` unset, counts as active |
| ManagerDashboard.TogglePatch | src/pages/ManagerDashboard.tsx:151 | the value written is the negation of the current status |
| ManagerDashboard.ApplyActive | src/pages/ManagerDashboard.tsx:149-152 | the update sets `is_active` of that student's row to the written value, changes no other row, and adds or removes no row |
| ManagerDashboard.ToggleFlipsActive | src/pages/ManagerDashboard.tsx:147-152 | toggling flips that student's displayed status and leaves every other student's status alone |
| ManagerDashboard.ToggleToastReportsNewStatus | src/pages/ManagerDashboard.tsx:147-160 | the toast after a toggle names the status the student now has: "activated" when the student is now active, "deactivated" otherwise |
| ManagerDashboard.ReconcileAsWritten | src/pages/ManagerDashboard.tsx:93-109 | the missing ids are the fetched ids absent from the second answer, in fetched order; an insert happens exactly when some are missing |
| ManagerDashboard.ReconcileAsWrittenNeverInserts | src/pages/ManagerDashboard.tsx:94-107 | when the second query returns the same ids, nothing is missing and nothing is inserted |
| ManagerDashboard.ReconcileAsWrittenMissesProfile | src/pages/ManagerDashboard.tsx:97-107 | a `user` profile with no `students` row is not reconciled by the code, while the corrected difference finds it |
| ManagerDashboard.UserProfileIds | src/pages/ManagerDashboard.tsx:97 | the ids listed are exactly those of `user` profiles |
| ManagerDashboard.MissingStudentIds | src/pages/ManagerDashboard.tsx:97-104 | the corrected difference: every `user` profile without a `students` row is listed, and nothing listed has a row or is not a `user` profile |
| ManagerDashboard.ReconcileCoversProfiles | src/pages/ManagerDashboard.tsx:97-109 | after the corrected insert every `user` profile has a row, and a second run finds nothing missing |
| UserDashboard.IsEnrolled | src/pages/UserDashboard.tsx:149-151 | `some` over the student's enrollments agrees with `find`: enrolled exactly when an enrollment for the course is found |
| UserDashboard.EnrollmentStatusOf | src/pages/UserDashboard.tsx:149-156 | a status exists exactly when the student is enrolled in the course, and it is the status of their first enrollment for it |
| UserDashboard.EnrollmentProgressOf | src/pages/UserDashboard.tsx:158-161 | no enrollment gives 0; otherwise the progress of the student's first enrollment for the course |
| UserDashboard.FilterBrowse | src/pages/UserDashboard.tsx:173-177 | a course is shown exactly when its title, category or an array tag contains the query, ignoring case |
| UserDashboard.FilterBrowseProperties | src/pages/UserDashboard.tsx:173-177 | the browse result keeps the list order, and an empty query keeps every course |
| UserDashboard.MyCourses | src/pages/UserDashboard.tsx:179 | every listed course is one the student is enrolled in |
| UserDashboard.AvailableCourses | src/pages/UserDashboard.tsx:180 | no listed course is one the student is enrolled in |
| UserDashboard.MyAndAvailablePartition | src/pages/UserDashboard.tsx:179-180 | the two lists keep catalog order, are disjoint, and together hold every course exactly as often as the catalog does |
| UserDashboard.AverageProgress | src/pages/UserDashboard.tsx:186-188 | 0 without enrollments; otherwise the integer nearest to the mean, halves rounded up as `Math.round` does |
| UserDashboard.AverageProgressInRange | src/pages/UserDashboard.tsx:186-188 | when every progress is between 0 and 100, so is the average |
| UserDashboard.SumProgressBounds | src/pages/UserDashboard.tsx:187 | the progress sum of n percentages lies between 0 and 100·n |
| UserDashboard.ComputeStudentStats | src/pages/UserDashboard.tsx:183-188 | enrolled is the number of enrollments; completed and in-progress are the sizes of their filters and never exceed it; the average is 0 without enrollments and otherwise the mean progress rounded half up |
| UserDashboard.CompletedAndInProgressDisjoint | src/pages/UserDashboard.tsx:184-185 | completed and in-progress together never exceed the enrolled count |
| UserDashboard.GroupModules | src/pages/UserDashboard.tsx:72-78 | the grouping has a key exactly for each course that has a module |
| UserDashboard.GroupModulesIsFilter | src/pages/UserDashboard.tsx:72-78 | each course's group is exactly that course's modules, in fetched order |
| UserDashboard.GroupModulesExact | src/pages/UserDashboard.tsx:72-78 | a course's looked-up modules are exactly its own, and no module is lost |
| UserDashboard.InInbox | src/pages/UserDashboard.tsx:86 | the inbox query returns every broadcast, and a message that is not a broadcast exactly when it names the student as recipient |
| UserDashboard.SentMessageReaches | src/pages/UserDashboard.tsx:86 | a sent broadcast is in every student's inbox; an individual message is in exactly its recipient's; both arrive unread |
| UserDashboard.MarkRead | src/pages/UserDashboard.tsx:116-118 | same length and order; the message with the id gets `read_at`, every other message is unchanged |
| UserDashboard.MarkReadProperties | src/pages/UserDashboard.tsx:116-118 | marking twice is marking once, the unread count never grows, and the marked message is read |
| UserDashboard.StoreMarkRead | src/pages/UserDashboard.tsx:107-111 | the stored update stamps the message with the id only when it is addressed to the student, and leaves every other row unchanged |
| UserDashboard.LocalAndStoreReadAgreeOnOwnMessages | src/pages/UserDashboard.tsx:107-118 | the local and stored updates agree on the student's own messages; on a broadcast the local copy is read while the stored row is unchanged |
| UserDashboard.NewEnrollment | src/pages/UserDashboard.tsx:127-132 | the request is by the caller, for the course, pending, at 0 percent |
| UserDashboard.EnrollErrorText | src/pages/UserDashboard.tsx:140-145 | a "unique constraint" error reads "You are already enrolled in this course", any other error shows its message, and an empty message reads "Failed to enroll" |
| UserDashboard.DuplicateKeyIsAlreadyEnrolled | src/pages/UserDashboard.tsx:141-142 | every error message holding "unique constraint", such as the store's duplicate-key message, is reported as an existing enrollment |
| UserDashboard.EnrollOutcome | src/pages/UserDashboard.tsx:134-145 | success exactly when the insert has no error, with the course-title toast and a refresh; otherwise the classified error text |
| CourseDetail.CanAccessModule | src/pages/CourseDetailPage.tsx:118-120 | an approved enrollment opens every module; a paid module opens exactly under an approved enrollment |
| CourseDetail.AccessRules | src/pages/CourseDetailPage.tsx:118-120 | free modules are open to all; a paid module is open exactly under an approved enrollment |
| CourseDetail.ToggleModule | src/pages/CourseDetailPage.tsx:110-116 | the toggled id's membership flips; every other id's membership is unchanged |
| CourseDetail.ToggleTwice | src/pages/CourseDetailPage.tsx:110-116 | toggling the same id twice restores every membership, and restores the exact list when the id was collapsed |
| CourseDetail.ToggleKeepsNoDuplicates | src/pages/CourseDetailPage.tsx:110-116 | toggling keeps a duplicate-free list duplicate-free |
| Common.SubseqNoDuplicates | src/pages/CourseDetailPage.tsx:113 | what collapsing a module relies on: a list taken from a duplicate-free list in order, such as its filter, is duplicate-free |
| CourseDetail.OnModuleClick | src/pages/CourseDetailPage.tsx:383 | a click on a locked module changes nothing; on an open module it flips that module only |
| CourseDetail.ContentGate | src/pages/CourseDetailPage.tsx:412 | locked content is never shown even when expanded; a click on an open module shows or hides it |
| CourseDetail.HandleEnroll | src/pages/CourseDetailPage.tsx:79-94 | no user: a sign-in toast and /login, no insert; no course: nothing; otherwise a pending 0-percent request by the user for the course |
| CourseDetail.EnrollMatchesDashboard | src/pages/CourseDetailPage.tsx:89-106 | the page inserts the same request as the student dashboard and reports a duplicate the same way |
| CourseDetail.FetchCourseData | src/pages/CourseDetailPage.tsx:35-77 | loading ends; the error toast shows exactly when the course or module query fails; a failed course query changes nothing else; a found course with a failed module query keeps the course and changes nothing else; the enrollment changes only on a successful lookup for a signed-in visitor |
| CourseDetail.LookupFailureMeansNotEnrolled | src/pages/CourseDetailPage.tsx:59-69 | a failed enrollment lookup leaves no enrollment and no error, and opens only the free modules |
| CourseDetail.StatusLabel | src/pages/CourseDetailPage.tsx:249 | the label has the status word's length, an upper-case first letter and the word's remaining letters |
| CourseDetail.StatusLabelRoundTrip | src/pages/CourseDetailPage.tsx:249 | lowering a label gives the stored status word, so distinct statuses get distinct labels |
| Catalog.NormalizeTags | src/pages/CoursesPage.tsx:44 | missing or empty tags become `[]`, an array is kept, any other text is parsed |
| Catalog.NormalizeCourses | src/pages/CoursesPage.tsx:42-45 | the load succeeds exactly when every row's tags normalise; each course keeps its place and gets array tags |
| Catalog.NormalizedCoursesHaveArrayTags | src/pages/CoursesPage.tsx:41-45 | after a successful load every course's tags are an array and ids keep their positions |
| Catalog.NormalizeWithoutText | src/pages/CoursesPage.tsx:44 | rows without serialized tags never fail, and rows with array tags are unchanged |
| Catalog.FetchCourses | src/pages/CoursesPage.tsx:31-54 | loading ends; on a query error or an unparsable row the old list stays and the error toast shows; otherwise the list is the normalised rows |
| Catalog.FailedFirstLoadIsEmpty | src/pages/CoursesPage.tsx:31-54 | a first load that fails, on the query or on a row's tags, leaves the catalog empty, shows the error toast and ends loading |
| Catalog.FilterCatalog | src/pages/CoursesPage.tsx:56-65 | a course is shown exactly when it passes the search (title, description or tag), the category test and the level test |
| Catalog.FilterCatalogProperties | src/pages/CoursesPage.tsx:56-65 | the result keeps the loaded order; an empty search with both filters on `'all'` shows every course |
| Catalog.SpecificFilterNarrows | src/pages/CoursesPage.tsx:61-64 | choosing a category or a level only narrows the result for the same search |
| Catalog.CategoryCaseInsensitive | src/pages/CoursesPage.tsx:61 | the category comparison ignores case; a course without a category passes only under `'all'` |
| AppRouter.ProfileFetched | src/App.tsx:135-156 | every answer ends loading; only a found row changes the user, an error or a missing row leaves it |
| AppRouter.Step | src/App.tsx:158-177 | a first check without a session only ends loading; an auth change without a session clears the user and ends loading; a session with a user requests its profile |
| AppRouter.LoadingOnlyClears | src/App.tsx:133-175 | once loading is over it never returns; it stays on only while a profile is being requested |
| AppRouter.SignedOutStart | src/App.tsx:133-176 | from the first render, a session without a user leaves a signed-out, loaded state |
| AppRouter.MissingProfileStaysSignedOut | src/App.tsx:142-163 | a signed-in session whose profile is missing or unreadable ends loading with no user |
| AppRouter.HomeOf | src/App.tsx:202-213 | a manager is sent to /manager and a student to /dashboard |
| AppRouter.Decide | src/App.tsx:182-240 | the spinner exactly while loading; afterwards the public pages always render, /login and /register render exactly without a profile and otherwise redirect to the profile's home, each dashboard renders exactly for its role and otherwise redirects to /login, and only an unknown path matches nothing |
| AppRouter.LoadingGate | src/App.tsx:182-188 | the spinner is shown exactly while loading, and first of all |
| AppRouter.PublicRoutes | src/App.tsx:194-237 | `/`, /courses and /courses/:id render for anyone |
| AppRouter.AuthPages | src/App.tsx:196-216 | /login and /register show their forms exactly when no user is known; a signed-in manager or user on either page is redirected to the home of their role |
| AppRouter.DashboardsExclusive | src/App.tsx:218-234 | each dashboard renders exactly for its role, otherwise redirects to /login, and no user reaches both |
| AppRouter.RedirectsSettle | src/App.tsx:196-234 | within two redirects every path settles; a user ends on their role's dashboard and a visitor on the sign-in form |
| Registration.ValidationError | src/pages/RegisterPage.tsx:29-37 | a password mismatch is reported before the terms; the form passes exactly when the passwords match and the terms are accepted |
| Registration.SignUpRequestOf | src/pages/RegisterPage.tsx:42-51 | the request carries the form's email and password, and exactly its full name and role as metadata |
| Registration.HandleRegister | src/pages/RegisterPage.tsx:26-62 | sign-up is called exactly when both checks pass; a rejected form only shows its error; loading goes on then off; /login follows exactly a successful sign-up; a failure shows its message or the fallback |
| Registration.ValidationOrder | src/pages/RegisterPage.tsx:29-37 | a mismatch is reported whatever the terms box says; unticked terms are reported only for matching passwords; neither sends anything |
| Registration.LoadingEndsCleared | src/pages/RegisterPage.tsx:39-61 | loading ends cleared and is only set after both checks pass |
| Registration.DefaultRoleIsStudent | src/pages/RegisterPage.tsx:11-51 | left as first shown, the form signs the visitor up with role `user` |

## Left out

- Backend calls (select, insert, update, delete, auth) are not modelled as such. Their answers are parameters (`Result`, `Option`), and the row ordering and filtering they perform are taken as given.
- The client construction in src/lib/supabase.ts:1-6 is left out. The `Announcement` and `Notification` types are unused by the modelled pages and are also left out.
- LandingPage.tsx and LoginPage.tsx are not part of this model. The first is presentation only. The second's role-to-path rule is the one `AppRouter.HomeOf` states.
- Floating-point work is left out:
  - the `price` column and `parseFloat(price) || 0`, carried as the typed text;
  - the "Avg Enrollments" figure with one decimal;
  - the category percentages;
  - the `rating` column.
- Strings.ParseIntToString: integers are unbounded. `parseInt` on digits beyond 2^53 loses precision in the source, and that is not modelled.
- Strings.Lower: case mapping covers ASCII letters only. `toLowerCase` also maps other Unicode letters.
- Catalog.NormalizeTags: `JSON.parse` is a caller-supplied function returning a list of strings or failure. A JSON value that parses but is not an array of strings is folded into failure. The source keeps such a value as `tags`, and what the search then does with it depends on the value: `null` makes `?.some` yield `undefined`, other values can make `.some` throw, and an empty search passes on the title before the tags are looked at. The model does not follow these cases.
- UserDashboard.EnrollErrorText: the error's `message` is taken to be a string. An error without one would make `.includes` throw in the source.
- UserDashboard.MarkRead: the two `new Date()` calls are one timestamp parameter. The failing-update branch (a toast, no local change) is not a separate member.
- Registration.HandleRegister, ManagerDashboard.BuildMessage and CourseForm.CreatePayload: the handlers are modelled without the form's HTML constraint validation. In the source the browser refuses to submit a form with an empty `required` field, a password shorter than 6 characters, a malformed e-mail address, or an individual message without a recipient (RegisterPage.tsx and the message and course forms of ManagerDashboard.tsx). The model accepts those inputs, so it describes more submissions than the page lets through.
- Timestamps and ids are opaque strings. Date formatting is not modelled.
- Async ordering of overlapping requests, toasts other than their texts, `confirm()` dialogs, modals, styling and animation are not modelled.
- Path matching is not modelled, including trailing slashes. `AppRouter.Path` is the already-matched route.
- The manager's course delete and logout toasts are texts only, with no property beyond their wording.

## Findings

| source | as written | input that shows it | evidently intended | confidence | as-written member | corrected member |
|---|---|---|---|---|---|---|
| src/pages/ManagerDashboard.tsx:97-109 | the ids of the fetched `students` rows are compared with the same ids selected from `students` again | a `user` profile "u1" and one `students` row "s9": the second query returns ["s9"], nothing is missing, nothing is inserted | the ids of `user` profiles without a `students` row are inserted | high; not executed | ManagerDashboard.ReconcileAsWritten (with ManagerDashboard.ReconcileAsWrittenMissesProfile) | ManagerDashboard.MissingStudentIds (with ManagerDashboard.ReconcileCoversProfiles) |
