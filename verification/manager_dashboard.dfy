/**
 The manager dashboard's local rules (src/pages/ManagerDashboard.tsx): the
 message payload, the course search, the dashboard counters, the roster's
 active flag and the student-row reconciliation.
 */
module ManagerDashboard {

  import opened Common
  import opened Strings
  import opened Schema

  // ---------------------------------------------------------------------------
  // Messages
  // ---------------------------------------------------------------------------

  datatype MessageForm = MessageForm(subject: string, message: string, isBroadcast: bool, recipientId: string)

  /** The compose form as first shown and after a send. */
  const EmptyMessageForm := MessageForm("", "", false, "")

  /** The row inserted into `messages`; `recipientId` is absent from broadcasts. */
  datatype MessagePayload = MessagePayload(
    senderId: string,
    subject: string,
    message: string,
    isBroadcast: bool,
    recipientId: Option<string>
  )

  /** `handleSendMessage`: the sender is always the manager; only individual messages name a recipient. */
  function BuildMessage(f: MessageForm, managerId: string): (p: MessagePayload)
    ensures p.senderId == managerId
    ensures p.subject == f.subject && p.message == f.message && p.isBroadcast == f.isBroadcast
    ensures p.recipientId.Some? <==> !f.isBroadcast
    ensures p.recipientId.Some? ==> p.recipientId.value == f.recipientId
  {
    MessagePayload(managerId, f.subject, f.message, f.isBroadcast,
                   if f.isBroadcast then None else Some(f.recipientId))
  }

  function SentToast(f: MessageForm): string {
    if f.isBroadcast then "Broadcast message sent to all students!" else "Message sent successfully!"
  }

  /** What one send leaves behind: the inserted row, the toast, the form, and whether the lists are refetched. */
  datatype SendResult = SendResult(payload: MessagePayload, toast: string, form: MessageForm, refresh: bool)

  /**
   `handleSendMessage`, given the insert's error (`None` for success): a
   success toasts the audience, resets the form and refetches; a failure
   toasts the error's message and keeps the form as typed.
   */
  function SendMessage(f: MessageForm, managerId: string, insertError: Option<string>): (r: SendResult)
    ensures r.payload == BuildMessage(f, managerId)
    ensures r.refresh <==> insertError.None?
    ensures insertError.None? ==> r.form == EmptyMessageForm && r.toast == SentToast(f)
    ensures insertError.Some? ==> r.form == f
    ensures insertError.Some? ==> r.toast == (if insertError.value != "" then insertError.value else "Failed to send message")
  {
    var payload := BuildMessage(f, managerId);
    match insertError
    case None => SendResult(payload, SentToast(f), EmptyMessageForm, true)
    case Some(e) => SendResult(payload, if e != "" then e else "Failed to send message", f, false)
  }

  /**
   After a successful send the compose form is back to an individual message
   with no recipient, and the toast says whether everyone was addressed.
   */
  lemma SendResetsForm(f: MessageForm, managerId: string)
    ensures var r := SendMessage(f, managerId, None);
      && !r.form.isBroadcast && r.form.recipientId == "" && r.form.subject == "" && r.form.message == ""
      && (r.toast == "Broadcast message sent to all students!" <==> f.isBroadcast)
  {
  }

  // ---------------------------------------------------------------------------
  // Course search
  // ---------------------------------------------------------------------------

  /** The manager's search: title or category, ignoring case. A course without a category matches on its title only. */
  predicate CourseMatches(c: Course, query: string) {
    ContainsCI(c.title, query) || (c.category.Some? && ContainsCI(c.category.value, query))
  }

  /** `filteredCourses` of the manager's course tab. */
  function FilterCourses(courses: seq<Course>, query: string): (r: seq<Course>)
    ensures forall i :: 0 <= i < |r| ==> r[i] in courses && CourseMatches(r[i], query)
    ensures forall i :: 0 <= i < |courses| && CourseMatches(courses[i], query) ==> courses[i] in r
  {
    Filter(courses, c => CourseMatches(c, query))
  }

  /** The search keeps the list's order, and an empty search shows every course. */
  lemma FilterCoursesProperties(courses: seq<Course>, query: string)
    ensures IsSubseq(FilterCourses(courses, query), courses)
    ensures query == "" ==> FilterCourses(courses, query) == courses
  {
    FilterIsSubseq(courses, c => CourseMatches(c, query));
    if query == "" {
      forall i | 0 <= i < |courses| ensures CourseMatches(courses[i], query) {
        ContainsCIIgnoresCase(courses[i].title, query);
      }
      FilterAll(courses, c => CourseMatches(c, query));
    }
  }

  // ---------------------------------------------------------------------------
  // Dashboard counters
  // ---------------------------------------------------------------------------

  datatype Stats = Stats(totalStudents: nat, totalCourses: nat, totalEnrollments: nat, activeCourses: nat)

  predicate IsActiveCourse(c: Course) { c.status == Active }

  /** The four counters at the top of the manager dashboard. */
  function ComputeStats(students: seq<Profile>, courses: seq<Course>, enrollments: seq<Enrollment>): (s: Stats)
    ensures s.totalStudents == |students| && s.totalCourses == |courses| && s.totalEnrollments == |enrollments|
    ensures s.activeCourses <= s.totalCourses
    ensures s.activeCourses == s.totalCourses <==> forall i :: 0 <= i < |courses| ==> courses[i].status == Active
    ensures s.activeCourses == 0 <==> forall i :: 0 <= i < |courses| ==> courses[i].status != Active
    ensures s.activeCourses == |Filter(courses, IsActiveCourse)|
  {
    CountIsFilterLength(courses, IsActiveCourse);
    Stats(|students|, |courses|, |enrollments|, Count(courses, IsActiveCourse))
  }

  /** The "Total Enrollments" card of the students tab counts approved enrollments only. */
  function ApprovedEnrollments(enrollments: seq<Enrollment>): (n: nat)
    ensures n <= |enrollments|
    ensures n == |Filter(enrollments, (e: Enrollment) => e.status == Approved)|
  {
    CountIsFilterLength(enrollments, (e: Enrollment) => e.status == Approved);
    Count(enrollments, (e: Enrollment) => e.status == Approved)
  }

  function OfStudent(studentId: string): Enrollment -> bool {
    (e: Enrollment) => e.studentId == studentId
  }

  /** The per-student "N courses" figure of the roster. */
  function EnrollmentCountFor(enrollments: seq<Enrollment>, studentId: string): (n: nat)
    ensures n <= |enrollments|
    ensures n == 0 <==> forall i :: 0 <= i < |enrollments| ==> enrollments[i].studentId != studentId
    ensures n == |Filter(enrollments, OfStudent(studentId))|
  {
    CountIsFilterLength(enrollments, OfStudent(studentId));
    Count(enrollments, OfStudent(studentId))
  }

  // ---------------------------------------------------------------------------
  // Student details and the active flag
  // ---------------------------------------------------------------------------

  /** A row of the `students` table; `is_active` may be unset. */
  datatype StudentDetail = StudentDetail(id: string, isActive: Option<bool>, enrollmentDate: Option<string>)

  /** `fetchStudentDetails`: rows keyed by id; a later row with the same id replaces an earlier one. */
  function DetailsMap(rows: seq<StudentDetail>): (m: map<string, StudentDetail>)
    ensures forall i :: 0 <= i < |rows| ==> rows[i].id in m
    ensures forall k :: k in m ==> m[k].id == k && m[k] in rows
    ensures |rows| > 0 ==> m[rows[|rows| - 1].id] == rows[|rows| - 1]
    ensures forall i :: 0 <= i < |rows| && (forall j :: i < j < |rows| ==> rows[j].id != rows[i].id) ==>
              m[rows[i].id] == rows[i]
  {
    if |rows| == 0 then map[]
    else
      var last := rows[|rows| - 1];
      var init := rows[..|rows| - 1];
      var m := DetailsMap(init);
      LastRowWinsStep(rows, init, m, m[last.id := last]);
      m[last.id := last]
  }

  /** Adding the final row to the map of the earlier rows gives the map of all rows. */
  lemma LastRowWinsStep(rows: seq<StudentDetail>, init: seq<StudentDetail>,
                        m: map<string, StudentDetail>, m2: map<string, StudentDetail>)
    requires |rows| > 0 && init == rows[..|rows| - 1]
    requires m2 == m[rows[|rows| - 1].id := rows[|rows| - 1]]
    requires forall i :: 0 <= i < |init| ==> init[i].id in m
    requires forall k :: k in m ==> m[k].id == k && m[k] in init
    requires forall i :: 0 <= i < |init| && (forall j :: i < j < |init| ==> init[j].id != init[i].id) ==>
               m[init[i].id] == init[i]
    ensures forall i :: 0 <= i < |rows| ==> rows[i].id in m2
    ensures forall k :: k in m2 ==> m2[k].id == k && m2[k] in rows
    ensures m2[rows[|rows| - 1].id] == rows[|rows| - 1]
    ensures forall i :: 0 <= i < |rows| && (forall j :: i < j < |rows| ==> rows[j].id != rows[i].id) ==>
              m2[rows[i].id] == rows[i]
  {
    assert forall i :: 0 <= i < |init| ==> init[i] == rows[i];
    assert forall x :: x in init ==> x in rows;
  }

  /** `studentDetails[id]?.is_active !== false`: active unless the row explicitly says otherwise. */
  function IsActive(details: map<string, StudentDetail>, id: string): (b: bool)
    ensures id in details && details[id].isActive.Some? ==> b == details[id].isActive.value
    ensures id !in details || details[id].isActive.None? ==> b
  {
    !(id in details && details[id].isActive == Some(false))
  }

  function ActiveIn(details: map<string, StudentDetail>): Profile -> bool {
    (s: Profile) => IsActive(details, s.id)
  }

  /** The "Active Students" card. */
  function ActiveStudentCount(students: seq<Profile>, details: map<string, StudentDetail>): (n: nat)
    ensures n <= |students|
    ensures n == |students| <==> forall i :: 0 <= i < |students| ==> IsActive(details, students[i].id)
    ensures n == |Filter(students, ActiveIn(details))|
  {
    CountIsFilterLength(students, ActiveIn(details));
    Count(students, ActiveIn(details))
  }

  /** A student without a row, or whose row leaves `is_active` unset, counts as active. */
  lemma ActiveByDefault(details: map<string, StudentDetail>, id: string)
    requires id !in details || details[id].isActive.None?
    ensures IsActive(details, id)
  {
  }

  /** `handleToggleStudentStatus`: the value written to `is_active`. */
  function TogglePatch(currentlyActive: bool): (v: bool)
    ensures v != currentlyActive
  {
    !currentlyActive
  }

  function ToggleToast(currentlyActive: bool): string {
    if !currentlyActive then "Student activated successfully" else "Student deactivated successfully"
  }

  /** The store's update of one `students` row's `is_active` (no row, no change). */
  function ApplyActive(details: map<string, StudentDetail>, id: string, v: bool): (m: map<string, StudentDetail>)
    ensures m.Keys == details.Keys
    ensures id in details ==> m[id] == details[id].(isActive := Some(v))
    ensures forall k :: k in details && k != id ==> m[k] == details[k]
  {
    if id in details then details[id := details[id].(isActive := Some(v))] else details
  }

  /** Toggling a student with a row flips its displayed status and leaves every other student alone. */
  lemma ToggleFlipsActive(details: map<string, StudentDetail>, id: string)
    requires id in details
    ensures var m := ApplyActive(details, id, TogglePatch(IsActive(details, id)));
      && IsActive(m, id) == !IsActive(details, id)
      && forall other :: other != id ==> IsActive(m, other) == IsActive(details, other)
  {
  }

  /** The toggle's toast reports the status the student has afterwards. */
  lemma ToggleToastReportsNewStatus(details: map<string, StudentDetail>, id: string)
    requires id in details
    ensures var m := ApplyActive(details, id, TogglePatch(IsActive(details, id)));
      && (IsActive(m, id) ==> ToggleToast(IsActive(details, id)) == "Student activated successfully")
      && (!IsActive(m, id) ==> ToggleToast(IsActive(details, id)) == "Student deactivated successfully")
  {
    ToggleFlipsActive(details, id);
  }

  // ---------------------------------------------------------------------------
  // Reconciliation of `students` rows
  // ---------------------------------------------------------------------------

  /** What the dashboard load decides: the ids it inserts, and whether it inserts at all. */
  datatype ReconcilePlan = ReconcilePlan(missing: seq<string>, insert: bool)

  /**
   The reconciliation step as written: `studentIds` are the ids of the
   `students` rows just fetched, and `existing` is the result of selecting
   those same ids from `students` again (`None` when the answer is null).
   Nothing is checked when no student row was fetched.
   */
  function ReconcileAsWritten(studentIds: seq<string>, existing: Option<seq<string>>): (p: ReconcilePlan)
    ensures p.insert <==> |p.missing| > 0
    ensures IsSubseq(p.missing, studentIds)
    ensures forall i :: 0 <= i < |p.missing| ==> p.missing[i] in studentIds && p.missing[i] !in existing.GetOr([])
    ensures forall i :: 0 <= i < |studentIds| && studentIds[i] !in existing.GetOr([]) ==> studentIds[i] in p.missing
  {
    var known := existing.GetOr([]);
    var missing := Filter(studentIds, id => id !in known);
    FilterIsSubseq(studentIds, id => id !in known);
    ReconcilePlan(missing, |missing| > 0)
  }

  /**
   As written, the difference is taken between the `students` table and
   itself: whenever the store answers the second query consistently, nothing
   is missing, so a `user` profile that has no `students` row is never added.
   */
  lemma ReconcileAsWrittenNeverInserts(studentIds: seq<string>)
    ensures ReconcileAsWritten(studentIds, Some(studentIds)).missing == []
    ensures !ReconcileAsWritten(studentIds, Some(studentIds)).insert
  {
    var p := ReconcileAsWritten(studentIds, Some(studentIds));
  }

  /**
   A concrete input: a `user` profile "u1" and a single unrelated `students`
   row "s9". The code as written inserts nothing; the corrected difference
   finds "u1".
   */
  lemma ReconcileAsWrittenMissesProfile()
    ensures var alice := Profile("u1", "a@example.com", "Alice", None, User, None, None, "t", "t");
      && ReconcileAsWritten(["s9"], Some(["s9"])) == ReconcilePlan([], false)
      && MissingStudentIds([alice], ["s9"]) == ["u1"]
  {
    ReconcileAsWrittenNeverInserts(["s9"]);
    var alice := Profile("u1", "a@example.com", "Alice", None, User, None, None, "t", "t");
    assert UserProfileIds([alice]) == ["u1"];
  }

  function UserProfileIds(profiles: seq<Profile>): (ids: seq<string>)
    ensures |ids| <= |profiles|
    ensures forall i :: 0 <= i < |profiles| && profiles[i].role == User ==> profiles[i].id in ids
    ensures forall k :: 0 <= k < |ids| ==> exists p :: p in profiles && p.role == User && p.id == ids[k]
  {
    if |profiles| == 0 then []
    else
      var rest := UserProfileIds(profiles[1..]);
      assert forall p :: p in profiles[1..] ==> p in profiles;
      (if profiles[0].role == User then [profiles[0].id] else []) + rest
  }

  /**
   The evidently intended reconciliation: the ids of `user` profiles that
   have no `students` row yet, in profile order.
   */
  function MissingStudentIds(profiles: seq<Profile>, studentIds: seq<string>): (missing: seq<string>)
    ensures forall i :: 0 <= i < |missing| ==> missing[i] !in studentIds
    ensures forall i :: 0 <= i < |profiles| && profiles[i].role == User && profiles[i].id !in studentIds ==> profiles[i].id in missing
    ensures forall i :: 0 <= i < |missing| ==> missing[i] in UserProfileIds(profiles)
  {
    Filter(UserProfileIds(profiles), id => id !in studentIds)
  }

  /**
   After inserting the missing rows every `user` profile has a `students`
   row, and a second run finds nothing to insert.
   */
  lemma ReconcileCoversProfiles(profiles: seq<Profile>, studentIds: seq<string>)
    ensures var after := studentIds + MissingStudentIds(profiles, studentIds);
      && (forall i :: 0 <= i < |profiles| && profiles[i].role == User ==> profiles[i].id in after)
      && MissingStudentIds(profiles, after) == []
  {
    var after := studentIds + MissingStudentIds(profiles, studentIds);
    var ids := UserProfileIds(profiles);
    forall k | 0 <= k < |ids| ensures ids[k] in after {
      var p :| p in profiles && p.role == User && p.id == ids[k];
    }
    // Nothing of `ids` is outside `after`, so the second filter keeps nothing.
    CountIsFilterLength(ids, id => id !in after);
  }
}
