/** The request-validation middleware: `validateReport`, which guards report
    creation, and `validateComplaint`, which no route mounts. */
module Validation {
  import opened Wrappers
  import opened Domain
  import opened Store
  import Seqs

  /** The lecture-content fields of a report body. */
  datatype ReportField =
    | FacultyName | ClassName | WeekOfReporting | DateOfLecture | CourseName | CourseCode
    | StudentsPresent | TotalStudents | Venue | ScheduledTime | TopicTaught | LearningOutcomes
    | Recommendations

  /** The body key of a field, as it appears in error messages. */
  function FieldName(f: ReportField): string
  {
    match f
    case FacultyName => "faculty_name"
    case ClassName => "class_name"
    case WeekOfReporting => "week_of_reporting"
    case DateOfLecture => "date_of_lecture"
    case CourseName => "course_name"
    case CourseCode => "course_code"
    case StudentsPresent => "students_present"
    case TotalStudents => "total_students"
    case Venue => "venue"
    case ScheduledTime => "scheduled_time"
    case TopicTaught => "topic_taught"
    case LearningOutcomes => "learning_outcomes"
    case Recommendations => "recommendations"
  }

  /** The fields `validateReport` requires, in the order it checks them.
      `Recommendations` is not among them. */
  const RequiredReportFields: seq<ReportField> := [
    FacultyName, ClassName, WeekOfReporting, DateOfLecture,
    CourseName, CourseCode, StudentsPresent, TotalStudents,
    Venue, ScheduledTime, TopicTaught, LearningOutcomes
  ]

  /** `req.body[field]` is truthy: present and not `""` (text) or `0` (a count). */
  predicate FieldPresent(c: ReportContent, f: ReportField)
  {
    match f
    case FacultyName => Truthy(c.facultyName)
    case ClassName => Truthy(c.className)
    case WeekOfReporting => Truthy(c.weekOfReporting)
    case DateOfLecture => Truthy(c.dateOfLecture)
    case CourseName => Truthy(c.courseName)
    case CourseCode => Truthy(c.courseCode)
    case StudentsPresent => TruthyNum(c.studentsPresent)
    case TotalStudents => TruthyNum(c.totalStudents)
    case Venue => Truthy(c.venue)
    case ScheduledTime => Truthy(c.scheduledTime)
    case TopicTaught => Truthy(c.topicTaught)
    case LearningOutcomes => Truthy(c.learningOutcomes)
    case Recommendations => Truthy(c.recommendations)
  }

  /** The reply for a missing field. */
  function MissingField(f: ReportField): Failure
  {
    BadRequest(FieldName(f) + " is required")
  }

  /** Every required field is present. */
  predicate AllRequiredPresent(c: ReportContent)
  {
    forall k :: 0 <= k < |RequiredReportFields| ==> FieldPresent(c, RequiredReportFields[k])
  }

  /** Both counts are given and the attendance does not exceed the enrolment. */
  predicate AttendanceWithin(c: ReportContent)
  {
    c.studentsPresent.Some? && c.totalStudents.Some?
    && c.studentsPresent.value <= c.totalStudents.value
  }

  /** Field `k` of `fields` is the first missing one in list order. */
  predicate FirstMissingAt(c: ReportContent, fields: seq<ReportField>, k: nat)
  {
    k < |fields| && !FieldPresent(c, fields[k])
    && forall j :: 0 <= j < k ==> FieldPresent(c, fields[j])
  }

  /** The `for ... of` loop of `validateReport`: the first field of `fields`
      that is missing from the body, if any. */
  function FirstMissing(c: ReportContent, fields: seq<ReportField>): (r: Option<ReportField>)
    ensures r.None? <==> forall j :: 0 <= j < |fields| ==> FieldPresent(c, fields[j])
    ensures forall k: nat :: FirstMissingAt(c, fields, k) ==> r == Some(fields[k])
  {
    if |fields| == 0 then None
    else if !FieldPresent(c, fields[0]) then Some(fields[0])
    else
      var r := FirstMissing(c, fields[1..]);
      assert forall k: nat :: FirstMissingAt(c, fields, k) ==> k > 0 && FirstMissingAt(c, fields[1..], k - 1);
      r
  }

  /** `validateReport`: the first missing field in list order is reported; with
      every field present, more students present than enrolled is refused;
      otherwise the request passes on. */
  function ValidateReport(c: ReportContent): (r: Outcome)
    ensures r.Pass? <==> AllRequiredPresent(c) && AttendanceWithin(c)
    ensures forall k: nat ::
              FirstMissingAt(c, RequiredReportFields, k) ==> r == Fail(MissingField(RequiredReportFields[k]))
    ensures AllRequiredPresent(c) && !AttendanceWithin(c)
      ==> r == Fail(BadRequest("Students present cannot exceed total students"))
  {
    match FirstMissing(c, RequiredReportFields)
    case Some(f) => Fail(MissingField(f))
    case None =>
      assert FieldPresent(c, RequiredReportFields[6]) && FieldPresent(c, RequiredReportFields[7]);
      if c.studentsPresent.value > c.totalStudents.value then
        Fail(BadRequest("Students present cannot exceed total students"))
      else Pass
  }

  /** Every report that passes validation records attendance within enrolment. */
  lemma ValidReportAttendance(c: ReportContent)
    requires ValidateReport(c).Pass?
    ensures c.studentsPresent.Some? && c.totalStudents.Some?
    ensures c.studentsPresent.value <= c.totalStudents.value
  {
  }

  /** A count of zero is falsy, so it is reported as missing like an absent one. */
  lemma ZeroCountIsMissing(c: ReportContent)
    requires forall j :: 0 <= j < 6 ==> FieldPresent(c, RequiredReportFields[j])
    requires c.studentsPresent == Some(0)
    ensures ValidateReport(c) == Fail(MissingField(StudentsPresent))
  {
    assert FirstMissingAt(c, RequiredReportFields, 6);
  }

  /** The search for a missing field never looks at a field outside its list. */
  lemma {:induction false} FirstMissingIgnoresRecommendations(c: ReportContent, rec: Option<string>, fields: seq<ReportField>)
    requires Recommendations !in fields
    ensures FirstMissing(c.(recommendations := rec), fields) == FirstMissing(c, fields)
  {
    if |fields| > 0 {
      FirstMissingIgnoresRecommendations(c, rec, fields[1..]);
    }
  }

  /** `recommendations` plays no part in validation. */
  lemma RecommendationsNotRequired(c: ReportContent, rec: Option<string>)
    ensures ValidateReport(c.(recommendations := rec)) == ValidateReport(c)
  {
    FirstMissingIgnoresRecommendations(c, rec, RequiredReportFields);
  }

  /** The complaint body fields that the complaint handlers read. */
  datatype ComplaintBody = ComplaintBody(
    title: Option<string>,
    description: Option<string>,
    againstUserId: Option<nat>,
    againstRole: Option<string>,
    category: Option<string>,
    isAnonymous: Option<bool>)

  /** All four fields `validateComplaint` demands are truthy. */
  predicate ComplaintFieldsPresent(b: ComplaintBody)
  {
    Truthy(b.title) && Truthy(b.description)
    && b.againstUserId.Some? && b.againstUserId.value != 0
    && Truthy(b.againstRole)
  }

  /** `validateComplaint`: all four fields are required, and the target role
      must differ from the actor's own role. */
  function ValidateComplaint(b: ComplaintBody, actorRole: Role): (r: Outcome)
    ensures !ComplaintFieldsPresent(b) <==> r == Fail(BadRequest("All complaint fields are required"))
    ensures ComplaintFieldsPresent(b) && b.againstRole.value == RoleName(actorRole)
      <==> r == Fail(BadRequest("Cannot file complaint against same role"))
    ensures r.Pass? <==> ComplaintFieldsPresent(b) && b.againstRole.value != RoleName(actorRole)
  {
    if !ComplaintFieldsPresent(b) then Fail(BadRequest("All complaint fields are required"))
    else if b.againstRole.value == RoleName(actorRole) then Fail(BadRequest("Cannot file complaint against same role"))
    else Pass
  }
}
