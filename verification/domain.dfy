/** The role and status vocabularies of the system, and the JavaScript and SQL
    value rules (truthiness, `||` defaults, `COALESCE`, NULL comparison) that
    the handlers apply to them. */
module Domain {
  import opened Wrappers

  /** A role as stored in `users.role` or sent as `against_role`. The five
      known roles get constructors; any other text is kept verbatim. */
  datatype Role = Student | Lecturer | Prl | Pl | Fmg | OtherRole(text: string)

  function RoleName(r: Role): string
  {
    match r
    case Student => "student"
    case Lecturer => "lecturer"
    case Prl => "prl"
    case Pl => "pl"
    case Fmg => "fmg"
    case OtherRole(t) => t
  }

  /** Reads role text: a known name becomes its constructor, anything else is kept. */
  function ParseRole(s: string): (r: Role)
    ensures RoleName(r) == s
  {
    if s == "student" then Student
    else if s == "lecturer" then Lecturer
    else if s == "prl" then Prl
    else if s == "pl" then Pl
    else if s == "fmg" then Fmg
    else OtherRole(s)
  }

  /** A role value in normal form: `OtherRole` never spells a known role. */
  predicate CanonicalRole(r: Role)
  {
    r.OtherRole? ==> ParseRole(r.text) == r
  }

  /** Printing and reading a role are inverse on normal forms. */
  lemma RoleNameRoundTrip(r: Role)
    requires CanonicalRole(r)
    ensures ParseRole(RoleName(r)) == r
  {
  }

  /** The reviewing roles: the list `['prl', 'pl', 'fmg']` of several role gates. */
  predicate IsReviewer(r: Role)
  {
    r == Prl || r == Pl || r == Fmg
  }

  /** `lecture_reports.status`. The five workflow values get constructors;
      the column is free text, so anything else is kept verbatim. */
  datatype ReportStatus =
    | PendingStudentApproval
    | StudentApproved
    | PrlReviewed
    | Completed
    | Rejected
    | OtherStatus(text: string)

  function StatusName(s: ReportStatus): string
  {
    match s
    case PendingStudentApproval => "pending_student_approval"
    case StudentApproved => "student_approved"
    case PrlReviewed => "prl_reviewed"
    case Completed => "completed"
    case Rejected => "rejected"
    case OtherStatus(t) => t
  }

  function ParseStatus(s: string): (r: ReportStatus)
    ensures StatusName(r) == s
  {
    if s == "pending_student_approval" then PendingStudentApproval
    else if s == "student_approved" then StudentApproved
    else if s == "prl_reviewed" then PrlReviewed
    else if s == "completed" then Completed
    else if s == "rejected" then Rejected
    else OtherStatus(s)
  }

  predicate CanonicalStatus(s: ReportStatus)
  {
    s.OtherStatus? ==> ParseStatus(s.text) == s
  }

  lemma StatusNameRoundTrip(s: ReportStatus)
    requires CanonicalStatus(s)
    ensures ParseStatus(StatusName(s)) == s
  {
  }

  /** `complaints.status`: the four documented values, or other text. */
  datatype ComplaintStatus =
    | Pending
    | InReview
    | Resolved
    | Dismissed
    | OtherComplaintStatus(text: string)

  function ParseComplaintStatus(s: string): ComplaintStatus
  {
    if s == "pending" then Pending
    else if s == "in_review" then InReview
    else if s == "resolved" then Resolved
    else if s == "dismissed" then Dismissed
    else OtherComplaintStatus(s)
  }

  /** JavaScript truthiness of an optional string: present and non-empty. */
  predicate Truthy(o: Option<string>)
  {
    o.Some? && o.value != ""
  }

  /** JavaScript truthiness of an optional number: present and non-zero. */
  predicate TruthyNum(o: Option<int>)
  {
    o.Some? && o.value != 0
  }

  /** `o || fallback` on a string. */
  function OrElse(o: Option<string>, fallback: string): (r: string)
    ensures Truthy(o) ==> r == o.value
    ensures !Truthy(o) ==> r == fallback
  {
    if Truthy(o) then o.value else fallback
  }

  /** SQL `a = b`: false as soon as either side is NULL. */
  predicate SqlEq<T(==)>(a: Option<T>, b: Option<T>)
  {
    a.Some? && b.Some? && a.value == b.value
  }

  /** SQL `COALESCE(given, current)`: a missing parameter keeps the column. */
  function Coalesce<T>(given: Option<T>, current: T): (r: T)
    ensures given.None? ==> r == current
    ensures given.Some? ==> r == given.value
  {
    match given
    case Some(v) => v
    case None => current
  }
}
