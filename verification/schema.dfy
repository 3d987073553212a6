/**
 The rows of the hosted tables as the pages see them (src/lib/supabase.ts).
 Timestamps and identifiers are opaque strings; optional columns are `Option`s.
 Floating-point columns (price, rating) are not part of this model.
 */
module Schema {

  import opened Common

  datatype Role = Manager | User

  function RoleName(r: Role): string {
    match r
    case Manager => "manager"
    case User => "user"
  }

  datatype Level = Beginner | Intermediate | Advanced

  function LevelName(l: Level): string {
    match l
    case Beginner => "beginner"
    case Intermediate => "intermediate"
    case Advanced => "advanced"
  }

  datatype CourseStatus = Active | Inactive | Draft

  function CourseStatusName(s: CourseStatus): string {
    match s
    case Active => "active"
    case Inactive => "inactive"
    case Draft => "draft"
  }

  datatype EnrollmentStatus = Pending | Approved | Rejected | Completed

  function EnrollmentStatusName(s: EnrollmentStatus): string {
    match s
    case Pending => "pending"
    case Approved => "approved"
    case Rejected => "rejected"
    case Completed => "completed"
  }

  /** Every enum name is a distinct, non-empty, lower-case ASCII word. */
  lemma EnumNamesAreDistinctWords()
    ensures forall a, b :: RoleName(a) == RoleName(b) ==> a == b
    ensures forall a, b :: LevelName(a) == LevelName(b) ==> a == b
    ensures forall a, b :: EnrollmentStatusName(a) == EnrollmentStatusName(b) ==> a == b
    ensures forall a, b :: CourseStatusName(a) == CourseStatusName(b) ==> a == b
    ensures forall s, i :: 0 <= i < |EnrollmentStatusName(s)| ==> 'a' <= EnrollmentStatusName(s)[i] <= 'z'
  {
  }

  /**
   A list-valued course column (`tags`, `requirements`, `learning_outcomes`)
   as it comes back from the store: a real array, a serialized string, or
   missing (`null`/`undefined`).
   */
  datatype ListField = Items(items: seq<string>) | Text(text: string) | Absent

  datatype Profile = Profile(
    id: string,
    email: string,
    fullName: string,
    avatarUrl: Option<string>,
    role: Role,
    phone: Option<string>,
    bio: Option<string>,
    createdAt: string,
    updatedAt: string
  )

  datatype Course = Course(
    id: string,
    title: string,
    description: string,
    shortDescription: Option<string>,
    imageUrl: Option<string>,
    category: Option<string>,
    level: Option<Level>,
    duration: Option<string>,
    currency: string,
    maxStudents: int,
    enrolledStudents: int,
    status: CourseStatus,
    instructorId: Option<string>,
    startDate: Option<string>,
    endDate: Option<string>,
    schedule: Option<map<string, string>>,
    requirements: ListField,
    learningOutcomes: ListField,
    tags: ListField,
    ratingCount: int,
    createdAt: string,
    updatedAt: string
  )

  datatype Enrollment = Enrollment(
    id: string,
    studentId: string,
    courseId: string,
    status: EnrollmentStatus,
    progress: int,
    createdAt: string
  )

  datatype CourseModule = CourseModule(
    id: string,
    courseId: string,
    title: string,
    description: Option<string>,
    content: Option<string>,
    videoUrl: Option<string>,
    duration: Option<int>,
    orderIndex: int,
    isFree: bool,
    createdAt: string,
    updatedAt: string
  )

  datatype Message = Message(
    id: string,
    senderId: string,
    recipientId: Option<string>,
    subject: string,
    message: string,
    isBroadcast: bool,
    readAt: Option<string>,
    createdAt: string,
    updatedAt: string
  )
}
