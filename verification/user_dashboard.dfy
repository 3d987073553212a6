/**
 The student dashboard's local rules (src/pages/UserDashboard.tsx): lookups
 into the student's own enrollments, the browse search, the enrolled /
 available split, the progress counters, modules grouped by course, the
 local mark-as-read update, the enrollment request and its error text, and
 which messages the student's inbox query returns.
 */
module UserDashboard {

  import opened Common
  import opened Strings
  import opened Schema
  import ManagerDashboard

  // ---------------------------------------------------------------------------
  // The student's own enrollments
  // ---------------------------------------------------------------------------

  function ForCourse(courseId: string): Enrollment -> bool {
    (e: Enrollment) => e.courseId == courseId
  }

  /** `isEnrolled`: some enrollment of the student is for this course. */
  function IsEnrolled(mine: seq<Enrollment>, courseId: string): (b: bool)
    ensures b <==> Find(mine, ForCourse(courseId)).Some?
  {
    exists i :: 0 <= i < |mine| && mine[i].courseId == courseId
  }

  /** `getEnrollmentStatus`: the status of the first enrollment for the course, if any. */
  function EnrollmentStatusOf(mine: seq<Enrollment>, courseId: string): (r: Option<EnrollmentStatus>)
    ensures r.Some? <==> IsEnrolled(mine, courseId)
    ensures r.Some? ==> exists i :: 0 <= i < |mine| && mine[i].courseId == courseId && mine[i].status == r.value &&
                          forall j :: 0 <= j < i ==> mine[j].courseId != courseId
  {
    match Find(mine, ForCourse(courseId))
    case None => None
    case Some(e) => Some(e.status)
  }

  /** `getEnrollmentProgress`: `enrollment?.progress || 0`. */
  function EnrollmentProgressOf(mine: seq<Enrollment>, courseId: string): (p: int)
    ensures !IsEnrolled(mine, courseId) ==> p == 0
    ensures IsEnrolled(mine, courseId) ==> exists i :: 0 <= i < |mine| && mine[i].courseId == courseId && mine[i].progress == p &&
                                             forall j :: 0 <= j < i ==> mine[j].courseId != courseId
  {
    match Find(mine, ForCourse(courseId))
    case None => 0
    case Some(e) => e.progress
  }

  // ---------------------------------------------------------------------------
  // Browse search
  // ---------------------------------------------------------------------------

  /** Some tag of an array-valued `tags` column contains the query, ignoring case. */
  predicate SomeTagMatches(tags: ListField, query: string) {
    tags.Items? && exists i :: 0 <= i < |tags.items| && ContainsCI(tags.items[i], query)
  }

  /** The browse tab's search: title, category or a tag (a serialized `tags` string is not searched). */
  predicate BrowseMatches(c: Course, query: string) {
    || ContainsCI(c.title, query)
    || (c.category.Some? && ContainsCI(c.category.value, query))
    || SomeTagMatches(c.tags, query)
  }

  function BrowseFilter(query: string): Course -> bool {
    (c: Course) => BrowseMatches(c, query)
  }

  /** `filteredCourses` of the browse tab. */
  function FilterBrowse(courses: seq<Course>, query: string): (r: seq<Course>)
    ensures forall i :: 0 <= i < |r| ==> r[i] in courses && BrowseMatches(r[i], query)
    ensures forall i :: 0 <= i < |courses| && BrowseMatches(courses[i], query) ==> courses[i] in r
  {
    Filter(courses, BrowseFilter(query))
  }

  /** The browse result keeps the list's order, and an empty search keeps every course. */
  lemma FilterBrowseProperties(courses: seq<Course>, query: string)
    ensures IsSubseq(FilterBrowse(courses, query), courses)
    ensures query == "" ==> FilterBrowse(courses, query) == courses
  {
    FilterIsSubseq(courses, BrowseFilter(query));
    if query == "" {
      forall i | 0 <= i < |courses| ensures BrowseFilter(query)(courses[i]) {
        ContainsCIIgnoresCase(courses[i].title, query);
      }
      FilterAll(courses, BrowseFilter(query));
    }
  }

  // ---------------------------------------------------------------------------
  // My courses / available courses
  // ---------------------------------------------------------------------------

  function Enrolled(mine: seq<Enrollment>): Course -> bool {
    (c: Course) => IsEnrolled(mine, c.id)
  }

  function NotEnrolled(mine: seq<Enrollment>): Course -> bool {
    (c: Course) => !IsEnrolled(mine, c.id)
  }

  function MyCourses(courses: seq<Course>, mine: seq<Enrollment>): (r: seq<Course>)
    ensures forall i :: 0 <= i < |r| ==> IsEnrolled(mine, r[i].id)
  {
    Filter(courses, Enrolled(mine))
  }

  function AvailableCourses(courses: seq<Course>, mine: seq<Enrollment>): (r: seq<Course>)
    ensures forall i :: 0 <= i < |r| ==> !IsEnrolled(mine, r[i].id)
  {
    Filter(courses, NotEnrolled(mine))
  }

  /**
   Every course lands in exactly one of the two lists: they are disjoint,
   each keeps the catalog's order, and together they hold every course
   exactly as often as the catalog does.
   */
  lemma MyAndAvailablePartition(courses: seq<Course>, mine: seq<Enrollment>)
    ensures IsSubseq(MyCourses(courses, mine), courses)
    ensures IsSubseq(AvailableCourses(courses, mine), courses)
    ensures |MyCourses(courses, mine)| + |AvailableCourses(courses, mine)| == |courses|
    ensures multiset(MyCourses(courses, mine)) + multiset(AvailableCourses(courses, mine)) == multiset(courses)
    ensures forall c :: c in MyCourses(courses, mine) ==> c !in AvailableCourses(courses, mine)
    ensures forall i :: 0 <= i < |courses| ==>
              (courses[i] in MyCourses(courses, mine) <==> courses[i] !in AvailableCourses(courses, mine))
  {
    FilterIsSubseq(courses, Enrolled(mine));
    FilterIsSubseq(courses, NotEnrolled(mine));
    FilterPartition(courses, Enrolled(mine), NotEnrolled(mine));
  }

  // ---------------------------------------------------------------------------
  // Progress counters
  // ---------------------------------------------------------------------------

  predicate IsCompleted(e: Enrollment) { e.status == Completed }

  /** Counted as "in progress": approved and strictly between 0 and 100 percent. */
  predicate IsInProgress(e: Enrollment) { e.status == Approved && 0 < e.progress < 100 }

  function SumProgress(es: seq<Enrollment>): int {
    if |es| == 0 then 0 else es[0].progress + SumProgress(es[1..])
  }

  /**
   `Math.round(sum / n)`, defined as 0 for no enrollments. `Math.round`
   rounds halves up, so the result `r` is the integer with
   `r - 1/2 <= sum/n < r + 1/2`.
   */
  function AverageProgress(es: seq<Enrollment>): (r: int)
    ensures |es| == 0 ==> r == 0
    ensures |es| > 0 ==> 2 * |es| * r <= 2 * SumProgress(es) + |es| < 2 * |es| * r + 2 * |es|
  {
    if |es| == 0 then 0
    else
      var n := |es|;
      var q := (2 * SumProgress(es) + n) / (2 * n);
      assert 2 * n * q <= 2 * SumProgress(es) + n < 2 * n * q + 2 * n by {
        DivBounds(2 * SumProgress(es) + n, 2 * n);
      }
      q
  }

  /** Euclidean division brackets its dividend; `AverageProgress` needs it for its rounding bounds. */
  lemma DivBounds(a: int, d: int)
    requires d > 0
    ensures d * (a / d) <= a < d * (a / d) + d
  {
  }

  predicate ProgressInRange(es: seq<Enrollment>) {
    forall i :: 0 <= i < |es| ==> 0 <= es[i].progress <= 100
  }

  lemma {:induction false} SumProgressBounds(es: seq<Enrollment>)
    requires ProgressInRange(es)
    ensures 0 <= SumProgress(es) <= 100 * |es|
  {
    if |es| > 0 {
      SumProgressBounds(es[1..]);
    }
  }

  /** When every progress is a percentage, so is the average. */
  lemma AverageProgressInRange(es: seq<Enrollment>)
    requires ProgressInRange(es)
    ensures 0 <= AverageProgress(es) <= 100
  {
    if |es| > 0 {
      SumProgressBounds(es);
      var n, r := |es|, AverageProgress(es);
      // 2nr <= 2*sum + n <= 201n, so r <= 100; and 2*sum + n < 2nr + 2n with sum >= 0 gives r >= 0.
      if r > 100 {
        assert 2 * n * r >= 2 * n * 101 by { MulMono(2 * n, 101, r); }
      }
      if r < 0 {
        assert 2 * n * r + 2 * n <= 0 by { MulMono(2 * n, r, -1); }
      }
    }
  }

  /** Scaling by a natural keeps the order; `AverageProgressInRange` needs it to bound the average. */
  lemma MulMono(k: nat, a: int, b: int)
    requires a <= b
    ensures k * a <= k * b
  {
  }

  datatype StudentStats = StudentStats(enrolled: nat, completed: nat, inProgress: nat, averageProgress: int)

  /** The dashboard cards of the student. */
  function ComputeStudentStats(mine: seq<Enrollment>): (s: StudentStats)
    ensures s.enrolled == |mine|
    ensures s.completed <= s.enrolled && s.inProgress <= s.enrolled
    ensures s.completed == |Filter(mine, IsCompleted)|
    ensures s.inProgress == |Filter(mine, IsInProgress)|
    ensures s.enrolled == 0 ==> s.averageProgress == 0
    ensures s.enrolled > 0 ==> 2 * s.enrolled * s.averageProgress <= 2 * SumProgress(mine) + s.enrolled < 2 * s.enrolled * s.averageProgress + 2 * s.enrolled
  {
    CountIsFilterLength(mine, IsCompleted);
    CountIsFilterLength(mine, IsInProgress);
    StudentStats(|mine|, Count(mine, IsCompleted), Count(mine, IsInProgress), AverageProgress(mine))
  }

  /** A completed enrollment is never counted as in progress, so the two cards never exceed the total together. */
  lemma CompletedAndInProgressDisjoint(mine: seq<Enrollment>)
    ensures var s := ComputeStudentStats(mine); s.completed + s.inProgress <= s.enrolled
  {
    var a := Filter(mine, IsCompleted);
    var b := Filter(mine, IsInProgress);
    var notCompleted := Filter(mine, (e: Enrollment) => !IsCompleted(e));
    FilterPartition(mine, IsCompleted, (e: Enrollment) => !IsCompleted(e));
    FilterMonotone(mine, IsInProgress, (e: Enrollment) => !IsCompleted(e));
    SubseqLength(b, notCompleted);
  }

  // ---------------------------------------------------------------------------
  // Modules grouped by course
  // ---------------------------------------------------------------------------

  function InCourse(courseId: string): CourseModule -> bool {
    (m: CourseModule) => m.courseId == courseId
  }

  /**
   `modulesByCourse`: modules in fetched order, each pushed onto the list of
   its course. A key exists exactly for the courses that have a module.
   */
  function GroupModules(ms: seq<CourseModule>): (g: map<string, seq<CourseModule>>)
    ensures g.Keys == set i | 0 <= i < |ms| :: ms[i].courseId
  {
    if |ms| == 0 then map[]
    else
      var m := ms[|ms| - 1];
      var g := GroupModules(ms[..|ms| - 1]);
      g[m.courseId := (if m.courseId in g then g[m.courseId] else []) + [m]]
  }

  /** `courseModules[id] || []`. */
  function ModulesFor(g: map<string, seq<CourseModule>>, courseId: string): seq<CourseModule> {
    if courseId in g then g[courseId] else []
  }

  /** Each course's list is that course's modules, in fetched order. */
  lemma {:induction false} GroupModulesIsFilter(ms: seq<CourseModule>, courseId: string)
    ensures ModulesFor(GroupModules(ms), courseId) == Filter(ms, InCourse(courseId))
  {
    if |ms| > 0 {
      var init, m := ms[..|ms| - 1], ms[|ms| - 1];
      assert ms == init + [m];
      GroupModulesIsFilter(init, courseId);
      FilterSnoc(init, m, InCourse(courseId));
    }
  }

  /**
   Looking a course up in the grouping gives exactly that course's modules
   in fetched order, and every module can be found under its own course.
   */
  lemma GroupModulesExact(ms: seq<CourseModule>, courseId: string)
    ensures ModulesFor(GroupModules(ms), courseId) == Filter(ms, InCourse(courseId))
    ensures forall i :: 0 <= i < |ms| ==> ms[i] in ModulesFor(GroupModules(ms), ms[i].courseId)
  {
    GroupModulesIsFilter(ms, courseId);
    forall i | 0 <= i < |ms| ensures ms[i] in ModulesFor(GroupModules(ms), ms[i].courseId) {
      GroupModulesIsFilter(ms, ms[i].courseId);
      assert InCourse(ms[i].courseId)(ms[i]);
    }
  }

  // ---------------------------------------------------------------------------
  // Messages
  // ---------------------------------------------------------------------------

  /** The inbox query: `recipient_id = me OR is_broadcast = true`. */
  function InInbox(m: Message, userId: string): (b: bool)
    ensures m.isBroadcast ==> b
    ensures !m.isBroadcast ==> (b <==> m.recipientId == Some(userId))
  {
    m.recipientId == Some(userId) || m.isBroadcast
  }

  /** The row the store keeps for a sent payload (unread). */
  function Deliver(p: ManagerDashboard.MessagePayload, id: string, at: string): Message {
    Message(id, p.senderId, p.recipientId, p.subject, p.message, p.isBroadcast, None, at, at)
  }

  /** A broadcast reaches every student's inbox; an individual message reaches exactly its recipient. */
  lemma SentMessageReaches(f: ManagerDashboard.MessageForm, managerId: string, id: string, at: string, userId: string)
    ensures var m := Deliver(ManagerDashboard.BuildMessage(f, managerId), id, at);
      && (InInbox(m, userId) <==> f.isBroadcast || f.recipientId == userId)
      && m.readAt.None?
  {
  }

  /** `handleMarkMessageAsRead`'s local update: stamp `read_at` on the message with that id. */
  function MarkRead(msgs: seq<Message>, id: string, now: string): (r: seq<Message>)
    ensures |r| == |msgs|
    ensures forall i :: 0 <= i < |msgs| && msgs[i].id == id ==> r[i] == msgs[i].(readAt := Some(now))
    ensures forall i :: 0 <= i < |msgs| && msgs[i].id != id ==> r[i] == msgs[i]
  {
    if |msgs| == 0 then []
    else
      var m := msgs[0];
      [if m.id == id then m.(readAt := Some(now)) else m] + MarkRead(msgs[1..], id, now)
  }

  predicate IsUnread(m: Message) { m.readAt.None? }

  /** Marking twice is marking once, and the unread badge never grows. */
  lemma MarkReadProperties(msgs: seq<Message>, id: string, now: string)
    ensures MarkRead(MarkRead(msgs, id, now), id, now) == MarkRead(msgs, id, now)
    ensures Count(MarkRead(msgs, id, now), IsUnread) <= Count(msgs, IsUnread)
    ensures forall i :: 0 <= i < |msgs| && msgs[i].id == id ==> !IsUnread(MarkRead(msgs, id, now)[i])
  {
    UnreadNotMore(msgs, id, now);
  }

  lemma {:induction false} UnreadNotMore(msgs: seq<Message>, id: string, now: string)
    ensures Count(MarkRead(msgs, id, now), IsUnread) <= Count(msgs, IsUnread)
  {
    if |msgs| > 0 {
      UnreadNotMore(msgs[1..], id, now);
      assert MarkRead(msgs, id, now)[1..] == MarkRead(msgs[1..], id, now);
    }
  }

  /**
   The store's side of the same action: the update is scoped to the
   student's own messages, so a broadcast row is never changed.
   */
  function StoreMarkRead(msgs: seq<Message>, id: string, userId: string, now: string): (r: seq<Message>)
    ensures |r| == |msgs|
    ensures forall i :: 0 <= i < |msgs| ==>
              r[i] == (if msgs[i].id == id && msgs[i].recipientId == Some(userId) then msgs[i].(readAt := Some(now)) else msgs[i])
  {
    if |msgs| == 0 then []
    else
      var m := msgs[0];
      [if m.id == id && m.recipientId == Some(userId) then m.(readAt := Some(now)) else m]
        + StoreMarkRead(msgs[1..], id, userId, now)
  }

  /**
   The local update agrees with the store on the student's own messages;
   on a broadcast (which has no recipient) the local copy shows it read
   while the stored row stays unread.
   */
  lemma LocalAndStoreReadAgreeOnOwnMessages(msgs: seq<Message>, id: string, userId: string, now: string)
    ensures forall i :: 0 <= i < |msgs| && msgs[i].recipientId == Some(userId) ==>
              MarkRead(msgs, id, now)[i] == StoreMarkRead(msgs, id, userId, now)[i]
    ensures forall i :: 0 <= i < |msgs| && msgs[i].id == id && msgs[i].recipientId.None? ==>
              MarkRead(msgs, id, now)[i].readAt == Some(now) && StoreMarkRead(msgs, id, userId, now)[i] == msgs[i]
  {
  }

  // ---------------------------------------------------------------------------
  // Enrolling
  // ---------------------------------------------------------------------------

  /** The row inserted into `enrollments` (id and timestamp are assigned by the store). */
  datatype EnrollRow = EnrollRow(studentId: string, courseId: string, status: EnrollmentStatus, progress: int)

  /** A new enrollment is a pending request at 0 percent by the signed-in student. */
  function NewEnrollment(userId: string, courseId: string): (r: EnrollRow)
    ensures r.studentId == userId && r.courseId == courseId
    ensures r.status == Pending && r.progress == 0
  {
    EnrollRow(userId, courseId, Pending, 0)
  }

  const AlreadyEnrolledText := "You are already enrolled in this course"

  /**
   The error toast after a failed insert: a uniqueness violation becomes the
   already-enrolled text, any other error shows its own message, and an
   empty message falls back to a generic one.
   */
  function EnrollErrorText(message: string): (t: string)
    ensures Contains(message, "unique constraint") ==> t == AlreadyEnrolledText
    ensures !Contains(message, "unique constraint") && message != "" ==> t == message
    ensures !Contains(message, "unique constraint") && message == "" ==> t == "Failed to enroll"
  {
    if Contains(message, "unique constraint") then AlreadyEnrolledText
    else if message != "" then message
    else "Failed to enroll"
  }

  /**
   Any store message holding `unique constraint`, such as the duplicate-key
   message `duplicate key value violates unique constraint "enrollments_pkey"`,
   is recognised as an existing enrollment, whatever surrounds the phrase.
   */
  lemma DuplicateKeyIsAlreadyEnrolled(pre: string, post: string)
    ensures EnrollErrorText(pre + "unique constraint" + post) == AlreadyEnrolledText
  {
    var key := "unique constraint";
    var msg := pre + key + post;
    assert msg[|pre|..|pre| + |key|] == key;
    assert OccursAt(msg, key, |pre|);
  }

  /** What the student sees after the insert: `None` is a successful insert. */
  datatype EnrollResult = EnrollSucceeded(toast: string, refresh: bool) | EnrollFailed(toast: string)

  function EnrollOutcome(insertError: Option<string>, courseTitle: string): (r: EnrollResult)
    ensures insertError.None? <==> r.EnrollSucceeded?
    ensures r.EnrollSucceeded? ==> r.refresh && r.toast == "Successfully enrolled in " + courseTitle + "!"
    ensures r.EnrollFailed? ==> r.toast == EnrollErrorText(insertError.value)
  {
    match insertError
    case None => EnrollSucceeded("Successfully enrolled in " + courseTitle + "!", true)
    case Some(msg) => EnrollFailed(EnrollErrorText(msg))
  }
}
