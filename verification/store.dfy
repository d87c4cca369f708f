/** The relational store as values: one record type per table and a database
    holding each table as a sequence of rows in insertion order. Row ids are
    SERIAL, so the row at position `i` has id `i + 1`, and a new row gets
    `|rows| + 1`. */
module Store {
  import opened Wrappers
  import opened Domain
  import opened Seqs

  /** A row of `users`. The password is the stored bcrypt hash. */
  datatype User = User(
    id: nat,
    email: string,
    password: string,
    name: Option<string>,
    role: Role,
    faculty: Option<string>,
    program: Option<string>,
    classId: Option<string>,
    isApproved: bool)

  /** A user as sent to a client: every column except the password. */
  datatype PublicUser = PublicUser(
    id: nat,
    email: string,
    name: Option<string>,
    role: Role,
    faculty: Option<string>,
    program: Option<string>,
    classId: Option<string>,
    isApproved: bool)

  /** `const { password, ...userWithoutPassword } = user`. */
  function WithoutPassword(u: User): (p: PublicUser)
    ensures p.id == u.id && p.email == u.email && p.role == u.role && p.isApproved == u.isApproved
  {
    PublicUser(u.id, u.email, u.name, u.role, u.faculty, u.program, u.classId, u.isApproved)
  }

  /** The user a join `ON x = u.id` or a `WHERE id = $1` lookup finds: the
      first row with that id (the only one, under SERIAL ids). */
  function FindUser(users: seq<User>, id: nat): (r: Option<User>)
    ensures r.Some? ==> r.value in users && r.value.id == id
    ensures r.None? <==> forall u :: u in users ==> u.id != id
  {
    First(users, (u: User) => u.id == id)
  }

  /** The thirteen lecture-content columns of a report, as sent in the body. */
  datatype ReportContent = ReportContent(
    facultyName: Option<string>,
    className: Option<string>,
    weekOfReporting: Option<string>,
    dateOfLecture: Option<string>,
    courseName: Option<string>,
    courseCode: Option<string>,
    studentsPresent: Option<int>,
    totalStudents: Option<int>,
    venue: Option<string>,
    scheduledTime: Option<string>,
    topicTaught: Option<string>,
    learningOutcomes: Option<string>,
    recommendations: Option<string>)

  /** A row of `lecture_reports`: the content columns, the author, the status,
      and the two review-feedback columns that creation leaves NULL. */
  datatype Report = Report(
    id: nat,
    content: ReportContent,
    lecturerId: Option<nat>,
    lecturerName: Option<string>,
    status: ReportStatus,
    feedbackPrl: Option<string>,
    feedbackPl: Option<string>)

  /** A row of `student_signatures`. */
  datatype Signature = Signature(id: nat, reportId: Option<nat>, studentId: nat, signatureData: Option<string>)

  /** A row of `complaints`. */
  datatype Complaint = Complaint(
    id: nat,
    title: Option<string>,
    description: Option<string>,
    complainantId: nat,
    complainantRole: Role,
    againstUserId: Option<nat>,
    againstRole: Option<Role>,
    status: ComplaintStatus,
    priority: Option<string>)

  /** A row of `complaint_responses`. */
  datatype ComplaintResponse = ComplaintResponse(id: nat, complaintId: nat, responderId: nat, text: Option<string>)

  /** A row of `ratings`. */
  datatype Rating = Rating(
    id: nat,
    raterId: nat,
    entityType: Option<string>,
    entityId: Option<nat>,
    value: Option<int>,
    comment: Option<string>)

  /** A row of `courses`. */
  datatype Course = Course(
    id: nat,
    name: Option<string>,
    code: Option<string>,
    faculty: Option<string>,
    programId: Option<nat>,
    credits: Option<int>,
    description: Option<string>,
    isActive: bool)

  /** A row of `classes`. */
  datatype Class = Class(
    id: nat,
    name: Option<string>,
    code: Option<string>,
    faculty: Option<string>,
    programId: Option<nat>,
    totalStudents: Option<int>,
    academicYear: string,
    semester: string,
    isActive: bool)

  /** A row of `assignments`: a lecturer teaching a course to a class in a term. */
  datatype Assignment = Assignment(
    id: nat,
    lecturerId: Option<nat>,
    courseId: Option<nat>,
    classId: Option<nat>,
    assignedBy: nat,
    academicYear: string,
    semester: string)

  /** A row of `notifications`. */
  datatype Notification = Notification(id: nat, userId: nat, isRead: bool)

  datatype Db = Db(
    users: seq<User>,
    reports: seq<Report>,
    signatures: seq<Signature>,
    complaints: seq<Complaint>,
    responses: seq<ComplaintResponse>,
    ratings: seq<Rating>,
    courses: seq<Course>,
    classes: seq<Class>,
    assignments: seq<Assignment>,
    notifications: seq<Notification>)

  datatype Table =
    | Users | Reports | Signatures | Complaints | Responses
    | Ratings | Courses | Classes | Assignments | Notifications

  /** Every table outside `changed` is the same in `db` and `db'`. */
  predicate FrameExcept(db: Db, db': Db, changed: set<Table>)
  {
    && (Users !in changed ==> db'.users == db.users)
    && (Reports !in changed ==> db'.reports == db.reports)
    && (Signatures !in changed ==> db'.signatures == db.signatures)
    && (Complaints !in changed ==> db'.complaints == db.complaints)
    && (Responses !in changed ==> db'.responses == db.responses)
    && (Ratings !in changed ==> db'.ratings == db.ratings)
    && (Courses !in changed ==> db'.courses == db.courses)
    && (Classes !in changed ==> db'.classes == db.classes)
    && (Assignments !in changed ==> db'.assignments == db.assignments)
    && (Notifications !in changed ==> db'.notifications == db.notifications)
  }

  /** SERIAL ids: the row at position `i` carries id `i + 1`. */
  ghost predicate Serial<T>(rows: seq<T>, id: T -> nat)
  {
    forall i :: 0 <= i < |rows| ==> id(rows[i]) == i + 1
  }

  ghost predicate WellFormed(db: Db)
  {
    && Serial(db.users, (u: User) => u.id)
    && Serial(db.reports, (r: Report) => r.id)
    && Serial(db.signatures, (s: Signature) => s.id)
    && Serial(db.complaints, (c: Complaint) => c.id)
    && Serial(db.responses, (r: ComplaintResponse) => r.id)
    && Serial(db.ratings, (r: Rating) => r.id)
    && Serial(db.courses, (c: Course) => c.id)
    && Serial(db.classes, (c: Class) => c.id)
    && Serial(db.assignments, (a: Assignment) => a.id)
    && Serial(db.notifications, (n: Notification) => n.id)
  }

  /** Under SERIAL ids, at most one row carries a given id. */
  lemma SerialUnique<T>(rows: seq<T>, id: T -> nat, i: nat, j: nat)
    requires Serial(rows, id)
    requires i < |rows| && j < |rows| && id(rows[i]) == id(rows[j])
    ensures i == j
  {
  }

  /** An insert with the next id keeps ids SERIAL. */
  lemma SerialAppend<T>(rows: seq<T>, id: T -> nat, x: T)
    requires Serial(rows, id)
    requires id(x) == |rows| + 1
    ensures Serial(rows + [x], id)
  {
  }

  /** An update that keeps every row's id keeps ids SERIAL. */
  lemma SerialUpdate<T>(rows: seq<T>, rows': seq<T>, id: T -> nat)
    requires Serial(rows, id)
    requires |rows'| == |rows|
    requires forall i :: 0 <= i < |rows| ==> id(rows'[i]) == id(rows[i])
    ensures Serial(rows', id)
  {
  }
}
