/**
 The course detail page (src/pages/CourseDetailPage.tsx): which modules the
 visitor may open, the set of expanded modules, the enroll button's guard
 and request, how a page load fills the page state, and the status label.
 */
module CourseDetail {

  import opened Common
  import opened Strings
  import opened Schema
  import UserDashboard

  // ---------------------------------------------------------------------------
  // Access
  // ---------------------------------------------------------------------------

  /** `canAccessModule`: a free preview, or any module once the enrollment is approved. */
  function CanAccessModule(m: CourseModule, enrollment: Option<Enrollment>): (b: bool)
    ensures !m.isFree ==> (b <==> enrollment.Some? && enrollment.value.status == Approved)
    ensures enrollment.Some? && enrollment.value.status == Approved ==> b
  {
    m.isFree || (enrollment.Some? && enrollment.value.status == Approved)
  }

  /**
   Free previews are open to everyone; a paid module is open exactly under an
   approved enrollment, so visitors without one, pending or rejected
   requests, and also completed enrollments see only the free modules.
   */
  lemma AccessRules(m: CourseModule, enrollment: Option<Enrollment>)
    ensures m.isFree ==> CanAccessModule(m, enrollment)
    ensures enrollment.None? ==> (CanAccessModule(m, enrollment) <==> m.isFree)
    ensures enrollment.Some? && enrollment.value.status != Approved ==> (CanAccessModule(m, enrollment) <==> m.isFree)
    ensures enrollment.Some? && enrollment.value.status == Approved ==> CanAccessModule(m, enrollment)
  {
  }

  // ---------------------------------------------------------------------------
  // Expanded modules
  // ---------------------------------------------------------------------------

  function IsNot(id: string): string -> bool {
    (x: string) => x != id
  }

  /** `toggleModule`: drop every copy of an expanded id, or append a collapsed one. */
  function ToggleModule(expanded: seq<string>, id: string): (r: seq<string>)
    ensures id in r <==> id !in expanded
    ensures forall x :: x != id ==> (x in r <==> x in expanded)
  {
    if id in expanded then
      var r := Filter(expanded, IsNot(id));
      assert forall x :: x != id && x in expanded ==> x in r by {
        forall x | x != id && x in expanded ensures x in r {
          var i :| 0 <= i < |expanded| && expanded[i] == x;
          assert IsNot(id)(expanded[i]);
        }
      }
      r
    else expanded + [id]
  }

  /** Toggling twice restores membership; a collapsed id comes back to the exact same list. */
  lemma ToggleTwice(expanded: seq<string>, id: string)
    ensures forall x :: x in ToggleModule(ToggleModule(expanded, id), id) <==> x in expanded
    ensures id !in expanded ==> ToggleModule(ToggleModule(expanded, id), id) == expanded
  {
    if id !in expanded {
      FilterSnoc(expanded, id, IsNot(id));
      assert forall i :: 0 <= i < |expanded| ==> IsNot(id)(expanded[i]);
      FilterAll(expanded, IsNot(id));
    }
  }

  /** A list without repeats stays without repeats. */
  lemma ToggleKeepsNoDuplicates(expanded: seq<string>, id: string)
    requires NoDuplicates(expanded)
    ensures NoDuplicates(ToggleModule(expanded, id))
  {
    if id in expanded {
      FilterIsSubseq(expanded, IsNot(id));
      SubseqNoDuplicates(Filter(expanded, IsNot(id)), expanded);
    }
  }

  /** The click handler of a module row: only an accessible module toggles. */
  function OnModuleClick(expanded: seq<string>, m: CourseModule, enrollment: Option<Enrollment>): (r: seq<string>)
    ensures !CanAccessModule(m, enrollment) ==> r == expanded
    ensures CanAccessModule(m, enrollment) ==> (m.id in r <==> m.id !in expanded)
    ensures forall x :: x != m.id ==> (x in r <==> x in expanded)
  {
    if CanAccessModule(m, enrollment) then ToggleModule(expanded, m.id) else expanded
  }

  /** A module's content is shown when it is expanded and accessible. */
  predicate ShowsContent(expanded: seq<string>, m: CourseModule, enrollment: Option<Enrollment>) {
    m.id in expanded && CanAccessModule(m, enrollment)
  }

  /**
   Locked content is never shown, even if the module's id is still in the
   expanded list; a click on an accessible module shows or hides it.
   */
  lemma ContentGate(expanded: seq<string>, m: CourseModule, enrollment: Option<Enrollment>)
    ensures !CanAccessModule(m, enrollment) ==> !ShowsContent(expanded, m, enrollment)
    ensures CanAccessModule(m, enrollment) ==>
              (ShowsContent(OnModuleClick(expanded, m, enrollment), m, enrollment) <==> !ShowsContent(expanded, m, enrollment))
  {
  }

  // ---------------------------------------------------------------------------
  // Enrolling
  // ---------------------------------------------------------------------------

  /** What `handleEnroll` does before the insert completes. */
  datatype EnrollAction =
    | SignInFirst(toast: string, navigateTo: string)
    | DoNothing
    | Insert(row: UserDashboard.EnrollRow, title: string)

  /** Signed-out visitors are sent to sign in, a missing course is a no-op, otherwise a pending request is inserted. */
  function HandleEnroll(userId: Option<string>, course: Option<Course>): (a: EnrollAction)
    ensures userId.None? ==> a == SignInFirst("Please sign in to enroll", "/login")
    ensures userId.Some? && course.None? ==> a.DoNothing?
    ensures a.Insert? <==> userId.Some? && course.Some?
    ensures a.Insert? ==> && a.row.studentId == userId.value && a.row.courseId == course.value.id
                          && a.row.status == Pending && a.row.progress == 0 && a.title == course.value.title
  {
    if userId.None? then SignInFirst("Please sign in to enroll", "/login")
    else if course.None? then DoNothing
    else Insert(UserDashboard.NewEnrollment(userId.value, course.value.id), course.value.title)
  }

  /** The detail page inserts the same request and shows the same texts as the student dashboard. */
  lemma EnrollMatchesDashboard(userId: string, c: Course, insertError: Option<string>)
    ensures HandleEnroll(Some(userId), Some(c)).row == UserDashboard.NewEnrollment(userId, c.id)
    ensures insertError.Some? && Contains(insertError.value, "unique constraint") ==>
              UserDashboard.EnrollOutcome(insertError, c.title) == UserDashboard.EnrollFailed(UserDashboard.AlreadyEnrolledText)
  {
  }

  // ---------------------------------------------------------------------------
  // Loading the page
  // ---------------------------------------------------------------------------

  datatype PageState = PageState(
    course: Option<Course>,
    modules: seq<CourseModule>,
    enrollment: Option<Enrollment>,
    loading: bool,
    failedToast: bool
  )

  /** Before the first load: nothing fetched, spinner shown. */
  const InitialPage := PageState(None, [], None, true, false)

  /**
   `fetchCourseData`, given the answers of the three lookups. The course and
   modules queries abort the load on error (keeping whatever was already
   set); the enrollment lookup is only made for a signed-in visitor and a
   failure there (including "no row") is silently ignored.
   */
  function FetchCourseData(
    st: PageState,
    userId: Option<string>,
    courseAnswer: Result<Course>,
    modulesAnswer: Result<seq<CourseModule>>,
    enrollmentAnswer: Result<Enrollment>
  ): (r: PageState)
    ensures !r.loading
    ensures r.failedToast <==> courseAnswer.Failure? || modulesAnswer.Failure?
    ensures courseAnswer.Failure? ==> r == st.(loading := false, failedToast := true)
    ensures courseAnswer.Success? ==> r.course == Some(courseAnswer.value)
    ensures courseAnswer.Success? && modulesAnswer.Success? ==> r.modules == modulesAnswer.value
    ensures courseAnswer.Success? && modulesAnswer.Failure? ==>
              r == st.(course := Some(courseAnswer.value), loading := false, failedToast := true)
    ensures r.enrollment != st.enrollment ==>
              && userId.Some? && courseAnswer.Success? && modulesAnswer.Success? && enrollmentAnswer.Success?
              && r.enrollment == Some(enrollmentAnswer.value)
  {
    match courseAnswer
    case Failure(_) => st.(loading := false, failedToast := true)
    case Success(c) =>
      var withCourse := st.(course := Some(c));
      match modulesAnswer
      case Failure(_) => withCourse.(loading := false, failedToast := true)
      case Success(ms) =>
        var withModules := withCourse.(modules := ms);
        var withEnrollment :=
          if userId.Some? && enrollmentAnswer.Success? then withModules.(enrollment := Some(enrollmentAnswer.value))
          else withModules;
        withEnrollment.(loading := false, failedToast := false)
  }

  /**
   A visitor who is not enrolled: the lookup fails, the page still loads
   without an error, shows no enrollment and only the free modules open.
   */
  lemma LookupFailureMeansNotEnrolled(userId: string, c: Course, ms: seq<CourseModule>, why: string, m: CourseModule)
    ensures var r := FetchCourseData(InitialPage, Some(userId), Success(c), Success(ms), Failure(why));
      && r.enrollment.None? && !r.failedToast && !r.loading
      && r.course == Some(c) && r.modules == ms
      && (CanAccessModule(m, r.enrollment) <==> m.isFree)
  {
  }

  // ---------------------------------------------------------------------------
  // Status label
  // ---------------------------------------------------------------------------

  /** The enrollment status shown on the page: the stored word with its first letter capitalised. */
  function StatusLabel(s: EnrollmentStatus): (l: string)
    ensures |l| == |EnrollmentStatusName(s)| && |l| > 0
    ensures IsAsciiUpper(l[0])
    ensures l[1..] == EnrollmentStatusName(s)[1..]
  {
    Capitalize(EnrollmentStatusName(s))
  }

  /** Lower-casing a label gives back the stored status, so distinct statuses get distinct labels. */
  lemma StatusLabelRoundTrip(s: EnrollmentStatus, t: EnrollmentStatus)
    ensures Lower(StatusLabel(s)) == EnrollmentStatusName(s)
    ensures StatusLabel(s) == StatusLabel(t) ==> s == t
  {
    EnumNamesAreDistinctWords();
    CapitalizeLowerRoundTrip(EnrollmentStatusName(s));
    CapitalizeLowerRoundTrip(EnrollmentStatusName(t));
  }
}
