/** The browser-side rules: which list of reports `ReportList` fetches and how
    it filters it, which users `ComplaintForm` offers as targets, and which
    workflow actions `ReportView` shows. */
module Client {
  import opened Wrappers
  import opened Domain
  import opened Store
  import opened Seqs
  import opened Text
  import Reports
  import Accounts

  // ---- ReportList ----

  /** The two report lists the page can fetch. */
  datatype Endpoint = MyReportsEndpoint | AllReportsEndpoint

  /** A lecturer fetches `/reports/my-reports`; every other role `/reports`. */
  function EndpointFor(role: Role): (r: Endpoint)
    ensures r == MyReportsEndpoint <==> role == Lecturer
  {
    if role == Lecturer then MyReportsEndpoint else AllReportsEndpoint
  }

  /** The server's answer to the page's fetch. */
  function FetchReports(db: Db, actor: User): (r: Result<seq<Report>>)
    ensures actor.role == Lecturer ==> r.Ok? && forall x :: x in r.value <==> x in db.reports && x.lecturerId == Some(actor.id)
    ensures actor.role != Lecturer ==> (r.Ok? <==> IsReviewer(actor.role))
    ensures r.Err? ==> r == Err(RoleDenied)
  {
    match EndpointFor(actor.role)
    case MyReportsEndpoint => Reports.MyReports(db, actor)
    case AllReportsEndpoint => Reports.AllReports(db, actor)
  }

  /** A student's page asks for `/reports`, which only reviewers may read, so
      a student's list is always refused. */
  lemma StudentListRefused(db: Db, actor: User)
    requires actor.role == Student
    ensures FetchReports(db, actor) == Err(RoleDenied)
  {
  }

  /** `s.toLowerCase().includes(t.toLowerCase())`. */
  predicate Mentions(s: string, term: string)
  {
    Contains(ToLower(s), ToLower(term))
  }

  /** The `filteredReports` callback on one report. Reading `toLowerCase` of
      a `null` name throws, written `None`; the lecturer name is read only
      when the course name does not match. */
  function Keep(x: Report, filter: string, term: string): (r: Option<bool>)
    ensures r.None? <==>
              x.content.courseName.None?
              || (!Mentions(x.content.courseName.value, term) && x.lecturerName.None?)
    ensures r == Some(true) <==>
              && (filter == "all" || StatusName(x.status) == filter)
              && x.content.courseName.Some?
              && (Mentions(x.content.courseName.value, term)
                  || (x.lecturerName.Some? && Mentions(x.lecturerName.value, term)))
  {
    var matchesFilter := filter == "all" || StatusName(x.status) == filter;
    match x.content.courseName
    case None => None
    case Some(course) =>
      if Mentions(course, term) then Some(matchesFilter)
      else match x.lecturerName
        case None => None
        case Some(lecturer) => Some(matchesFilter && Mentions(lecturer, term))
  }

  /** `filteredReports`: the fetched reports the callback keeps, in their
      order; `None` when the callback throws on some report. */
  function FilteredReports(reports: seq<Report>, filter: string, term: string): (r: Option<seq<Report>>)
    ensures r.None? <==> exists i :: 0 <= i < |reports| && Keep(reports[i], filter, term).None?
    ensures r.Some? ==> forall x :: x in r.value <==> x in reports && Keep(x, filter, term) == Some(true)
    ensures r.Some? ==> IsSubsequence(r.value, reports)
  {
    match FindFirst(reports, (x: Report) => Keep(x, filter, term).None?)
    case Some(_) => None
    case None =>
      FilterIsSubsequence(reports, (x: Report) => Keep(x, filter, term) == Some(true));
      Some(Filter(reports, (x: Report) => Keep(x, filter, term) == Some(true)))
  }

  /** With the filter `all` and an empty search, every report whose course
      name is present is kept. */
  lemma KeepAllWithEmptySearch(x: Report)
    requires x.content.courseName.Some?
    ensures Keep(x, "all", "") == Some(true)
  {
    assert ToLower("") == "";
    ContainsEmpty(ToLower(x.content.courseName.value));
  }

  /** The search ignores the case of the term. */
  lemma SearchIgnoresCase(x: Report, filter: string, term: string)
    ensures Keep(x, filter, ToLower(term)) == Keep(x, filter, term)
  {
    ToLowerIdempotent(term);
  }

  /** A specific status filter keeps only reports with exactly that status. */
  lemma StatusFilterExact(reports: seq<Report>, s: ReportStatus, term: string)
    requires StatusName(s) != "all"
    requires FilteredReports(reports, StatusName(s), term).Some?
    ensures forall x :: x in FilteredReports(reports, StatusName(s), term).value ==> StatusName(x.status) == StatusName(s)
  {
  }

  // ---- ComplaintForm ----

  /** The role a user may file against, by the form's `switch`. */
  function TargetRole(role: Role): (r: Option<Role>)
    ensures r.Some? <==> role in {Student, Lecturer, Prl, Pl}
  {
    match role
    case Student => Some(Lecturer)
    case Lecturer => Some(Prl)
    case Prl => Some(Pl)
    case Pl => Some(Fmg)
    case _ => None
  }

  /** The form after `fetchUsers`: the users offered as targets and the
      pre-set `against_role` (empty when there is none). */
  datatype FormSetup = FormSetup(candidates: seq<Accounts.UserSummary>, againstRole: string)

  /** The text `${user.faculty}` puts in the query string. */
  function QueryText(faculty: Option<string>): string
  {
    match faculty
    case Some(f) => f
    case None => "null"
  }

  /** `fetchUsers`: with a target role, the users of that role in the
      actor's faculty and the role itself; otherwise no users and no role. */
  function SetUpForm(db: Db, actor: PublicUser): (r: FormSetup)
    ensures TargetRole(actor.role).None? ==> r == FormSetup([], "")
    ensures TargetRole(actor.role).Some? ==> r.againstRole == RoleName(TargetRole(actor.role).value)
    ensures forall c :: c in r.candidates ==> RoleName(c.role) == r.againstRole
    ensures Truthy(actor.faculty) ==> forall c :: c in r.candidates ==> c.faculty == actor.faculty
    ensures TargetRole(actor.role).Some? && Truthy(actor.faculty) ==>
              forall u :: u in db.users && u.role == TargetRole(actor.role).value && u.faculty == actor.faculty ==>
                Accounts.Summarise(u) in r.candidates
  {
    match TargetRole(actor.role)
    case None => FormSetup([], "")
    case Some(t) => FormSetup(Accounts.GetUsersByRole(db, RoleName(t), Some(QueryText(actor.faculty))), RoleName(t))
  }

  // ---- ReportView ----

  /** The two workflow buttons of the report page. */
  datatype ViewAction = SignAction | ApproveAction

  /** The report's JSON status equals that status's name. */
  predicate StatusIs(x: Report, s: ReportStatus)
  {
    StatusName(x.status) == StatusName(s)
  }

  /** The actions the page shows: a student may sign a report pending
      student approval; a PRL may approve a student-approved report. */
  function ViewActions(role: Role, x: Report): (r: set<ViewAction>)
    ensures SignAction in r <==> role == Student && StatusIs(x, PendingStudentApproval)
    ensures ApproveAction in r <==> role == Prl && StatusIs(x, StudentApproved)
  {
    (if role == Student && StatusIs(x, PendingStudentApproval) then {SignAction} else {})
    + (if role == Prl && StatusIs(x, StudentApproved) then {ApproveAction} else {})
  }

  /** No role ever sees both buttons on one report. */
  lemma OneActionAtATime(role: Role, x: Report)
    ensures !(SignAction in ViewActions(role, x) && ApproveAction in ViewActions(role, x))
  {
  }

  // ---- StudentSignature ----

  /** What `submitSignature` does: alert and stop, or post the canvas image
      for the report to a path under `/api`. */
  datatype SubmitOutcome = Refused(alert: string) | Posted(path: string, reportId: nat, signatureData: string)

  /** The path the page posts the signature to. */
  const SignaturePathAsWritten: string := "/reports/signature"

  /** The path of the signatures router's `POST /`. */
  const SignaturePath: string := "/signatures"

  /** `submitSignature` as written: the image is compared with a second
      `toDataURL()` of the same, unchanged canvas, which always equals it,
      so every attempt ends in the "empty canvas" alert; the post that
      follows would go to `/reports/signature`. */
  function SubmitSignatureAsWritten(canvasImage: string, reportId: nat): (r: SubmitOutcome)
    ensures r == Refused("Please provide your signature first")
  {
    var signatureData := canvasImage;
    if signatureData == canvasImage then Refused("Please provide your signature first")
    else Posted(SignaturePathAsWritten, reportId, signatureData)
  }

  /** `submitSignature` corrected: the image is compared with the image of a
      blank canvas, and a drawn signature is posted to `/signatures`. */
  function SubmitSignature(canvasImage: string, blankImage: string, reportId: nat): (r: SubmitOutcome)
    ensures r.Refused? <==> canvasImage == blankImage
    ensures r.Refused? ==> r.alert == "Please provide your signature first"
    ensures r.Posted? ==> r.path == SignaturePath && r.reportId == reportId && r.signatureData == canvasImage
  {
    if canvasImage == blankImage then Refused("Please provide your signature first")
    else Posted(SignaturePath, reportId, canvasImage)
  }

  /** The request the approve button sends: status `prl_reviewed` and no
      feedback. */
  function ApproveRequest(): (p: Reports.StatusPatch)
    ensures p.status == Some(StatusName(PrlReviewed)) && p.feedbackPrl.None? && p.feedbackPl.None?
  {
    Reports.ApproveRequest
  }
}
