/** Lecture reports: the `LectureReport` model and the `/reports` routes. */
module Reports {
  import opened Wrappers
  import opened Domain
  import opened Store
  import opened Validation
  import opened Seqs

  /** The body of `POST /reports` as far as `LectureReport.create` reads it
      from `{ ...req.body, lecturer_id, lecturer_name }`. */
  datatype ReportBody = ReportBody(
    content: ReportContent,
    lecturerId: Option<nat>,
    lecturerName: Option<string>,
    status: Option<string>,
    feedbackPrl: Option<string>,
    feedbackPl: Option<string>)

  /** `LectureReport.create`: inserts the sixteen listed columns, with status
      `pending_student_approval` unless a truthy status is supplied. Any other
      key of the data (the feedback fields among them) is not stored. */
  function CreateRow(db: Db, data: ReportBody): (out: (Db, Report))
    ensures out.0.reports == db.reports + [out.1]
    ensures FrameExcept(db, out.0, {Reports})
    ensures out.1.id == |db.reports| + 1
    ensures out.1.content == data.content
    ensures out.1.lecturerId == data.lecturerId && out.1.lecturerName == data.lecturerName
    ensures !Truthy(data.status) ==> out.1.status == PendingStudentApproval
    ensures Truthy(data.status) ==> StatusName(out.1.status) == data.status.value
    ensures out.1.feedbackPrl.None? && out.1.feedbackPl.None?
  {
    var status := if Truthy(data.status) then ParseStatus(data.status.value) else PendingStudentApproval;
    var row := Report(|db.reports| + 1, data.content, data.lecturerId, data.lecturerName, status, None, None);
    (db.(reports := db.reports + [row]), row)
  }

  /** `LectureReport.findByLecturer`: that lecturer's reports, newest first. */
  function FindByLecturer(db: Db, lecturerId: nat): (r: seq<Report>)
    ensures forall x :: x in r <==> x in db.reports && x.lecturerId == Some(lecturerId)
  {
    var mine := Filter(db.reports, (x: Report) => x.lecturerId == Some(lecturerId));
    ReverseMembers(mine);
    Reverse(mine)
  }

  /** The reports of `FindByLecturer`, read oldest first, keep table order. */
  lemma FindByLecturerNewestFirst(db: Db, lecturerId: nat)
    ensures IsSubsequence(Reverse(FindByLecturer(db, lecturerId)), db.reports)
  {
    var p := (x: Report) => x.lecturerId == Some(lecturerId);
    ReverseReverse(Filter(db.reports, p));
    FilterIsSubsequence(db.reports, p);
  }

  /** `LectureReport.findById`. */
  function FindById(db: Db, id: nat): (r: Option<Report>)
    ensures r.Some? ==> r.value in db.reports && r.value.id == id
    ensures r.None? <==> forall x :: x in db.reports ==> x.id != id
  {
    First(db.reports, (x: Report) => x.id == id)
  }

  /** `LectureReport.updateStatus`: `UPDATE ... SET status WHERE id RETURNING *`.
      Only the status of the rows with that id changes; the first such row
      is returned, or nothing when there is none. */
  function UpdateStatusRow(db: Db, id: nat, status: ReportStatus): (out: (Db, Option<Report>))
    ensures FrameExcept(db, out.0, {Reports})
    ensures |out.0.reports| == |db.reports|
    ensures forall i :: 0 <= i < |db.reports| && db.reports[i].id == id
              ==> out.0.reports[i] == db.reports[i].(status := status)
    ensures forall i :: 0 <= i < |db.reports| && db.reports[i].id != id
              ==> out.0.reports[i] == db.reports[i]
    ensures out.1.Some? <==> FindById(db, id).Some?
    ensures out.1.Some? ==> out.1 == Some(FindById(db, id).value.(status := status))
  {
    var rows := UpdateWhere(db.reports, (x: Report) => x.id == id, (x: Report) => x.(status := status));
    var returned := match FindById(db, id) case Some(x) => Some(x.(status := status)) case None => None;
    (db.(reports := rows), returned)
  }

  /** Updating a report that does not exist changes nothing and returns no row. */
  lemma UpdateStatusMissing(db: Db, id: nat, status: ReportStatus)
    requires FindById(db, id).None?
    ensures UpdateStatusRow(db, id, status) == (db, None)
  {
    var out := UpdateStatusRow(db, id, status);
    assert out.0.reports == db.reports;
  }

  /** The roles `POST /reports` and `GET /reports/my-reports` admit. */
  predicate MayAuthorReports(r: Role)
  {
    r == Lecturer || r == Prl || r == Pl || r == Fmg
  }

  /** `POST /reports`: role gate, then `validateReport`, then creation with
      the author taken from the actor whatever the body says. */
  function CreateReport(db: Db, actor: User, body: ReportBody): (r: Result<(Db, Report)>)
    ensures !MayAuthorReports(actor.role) ==> r == Err(RoleDenied)
    ensures MayAuthorReports(actor.role) && ValidateReport(body.content).Fail? ==>
              r == Err(ValidateReport(body.content).failure)
    ensures r.Ok? <==> MayAuthorReports(actor.role) && ValidateReport(body.content).Pass?
    ensures r.Ok? ==> r.value.0.reports == db.reports + [r.value.1]
    ensures r.Ok? ==> FrameExcept(db, r.value.0, {Reports})
    ensures r.Ok? ==> r.value.1.lecturerId == Some(actor.id) && r.value.1.lecturerName == actor.name
    ensures r.Ok? ==> r.value.1.content == body.content && AttendanceWithin(r.value.1.content)
    ensures r.Ok? && !Truthy(body.status) ==> r.value.1.status == PendingStudentApproval
  {
    if !MayAuthorReports(actor.role) then Err(RoleDenied)
    else match ValidateReport(body.content)
      case Fail(f) => Err(f)
      case Pass =>
        Ok(CreateRow(db, body.(lecturerId := Some(actor.id), lecturerName := actor.name)))
  }

  /** `GET /reports/my-reports`: exactly the actor's own reports. */
  function MyReports(db: Db, actor: User): (r: Result<seq<Report>>)
    ensures r.Ok? <==> MayAuthorReports(actor.role)
    ensures r.Err? ==> r == Err(RoleDenied)
    ensures r.Ok? ==> forall x :: x in r.value <==> x in db.reports && x.lecturerId == Some(actor.id)
  {
    if !MayAuthorReports(actor.role) then Err(RoleDenied) else Ok(FindByLecturer(db, actor.id))
  }

  /** `GET /reports`: every report, newest first, for the reviewing roles only. */
  function AllReports(db: Db, actor: User): (r: Result<seq<Report>>)
    ensures r.Ok? <==> IsReviewer(actor.role)
    ensures r.Err? ==> r == Err(RoleDenied)
    ensures r.Ok? ==> |r.value| == |db.reports|
    ensures r.Ok? ==> forall i :: 0 <= i < |db.reports| ==> r.value[i] == db.reports[|db.reports| - 1 - i]
  {
    if !IsReviewer(actor.role) then Err(RoleDenied) else Ok(Reverse(db.reports))
  }

  /** `GET /reports/:id`. */
  function GetReport(db: Db, id: nat): (r: Result<Report>)
    ensures r.Err? <==> forall x :: x in db.reports ==> x.id != id
    ensures r.Err? ==> r == Err(NotFound("Report not found"))
    ensures r.Ok? ==> r.value in db.reports && r.value.id == id
  {
    match FindById(db, id)
    case None => Err(NotFound("Report not found"))
    case Some(x) => Ok(x)
  }

  /** The body of `PATCH /reports/:id/status`. */
  datatype StatusPatch = StatusPatch(status: Option<string>, feedbackPrl: Option<string>, feedbackPl: Option<string>)

  /** `after` is `before` with the requested status and each given feedback
      text stored, an absent one kept, and every other column unchanged. */
  predicate StatusPatched(before: Report, after: Report, p: StatusPatch)
  {
    && after.(status := before.status, feedbackPrl := before.feedbackPrl, feedbackPl := before.feedbackPl) == before
    && (p.status.Some? ==> StatusName(after.status) == p.status.value)
    && (p.status.None? ==> after.status == before.status)
    && after.feedbackPrl == (if p.feedbackPrl.Some? then p.feedbackPrl else before.feedbackPrl)
    && after.feedbackPl == (if p.feedbackPl.Some? then p.feedbackPl else before.feedbackPl)
  }

  /** `PATCH /reports/:id/status` as the route evidently means it: any
      authenticated actor may write any status, whatever the current one, and
      a given feedback text is stored. An absent status leaves it as it was.
      The route answers 200 whether or not the report exists. */
  function PatchStatus(db: Db, id: nat, p: StatusPatch): (out: (Db, Option<Report>))
    ensures FrameExcept(db, out.0, {Reports})
    ensures |out.0.reports| == |db.reports|
    ensures forall i :: 0 <= i < |db.reports| && db.reports[i].id != id
              ==> out.0.reports[i] == db.reports[i]
    ensures forall i :: 0 <= i < |db.reports| && db.reports[i].id == id ==>
              && out.0.reports[i].content == db.reports[i].content
              && out.0.reports[i].lecturerId == db.reports[i].lecturerId
              && StatusPatched(db.reports[i], out.0.reports[i], p)
    ensures out.1.Some? <==> FindById(db, id).Some?
    ensures out.1.Some? ==> StatusPatched(FindById(db, id).value, out.1.value, p)
  {
    ApplyStatusPatchStores(p);
    var rows := UpdateWhere(db.reports, (x: Report) => x.id == id, (x: Report) => ApplyStatusPatch(x, p));
    var returned := match FindById(db, id) case Some(x) => Some(ApplyStatusPatch(x, p)) case None => None;
    (db.(reports := rows), returned)
  }

  /** One report with the patch applied. */
  function ApplyStatusPatch(x: Report, p: StatusPatch): Report
  {
    x.(status := match p.status case Some(s) => ParseStatus(s) case None => x.status,
       feedbackPrl := if p.feedbackPrl.Some? then p.feedbackPrl else x.feedbackPrl,
       feedbackPl := if p.feedbackPl.Some? then p.feedbackPl else x.feedbackPl)
  }

  /** Every report the patch touches is patched as described. */
  lemma ApplyStatusPatchStores(p: StatusPatch)
    ensures forall x :: StatusPatched(x, ApplyStatusPatch(x, p), p)
  {
  }

  /** The PATCH imposes no workflow: from any current status, any workflow
      status can be written (including moving a completed report back). */
  lemma PatchAnyTransition(db: Db, i: nat, target: ReportStatus)
    requires i < |db.reports|
    requires CanonicalStatus(target)
    ensures PatchStatus(db, db.reports[i].id, StatusPatch(Some(StatusName(target)), None, None)).0.reports[i].status == target
  {
    StatusNameRoundTrip(target);
  }

  // ---- The PATCH route as written ----

  /** Two hexadecimal digits, lower case, as `JSON.stringify` writes them. */
  function Hex2(n: nat): string
    requires n < 256
  {
    var digits := "0123456789abcdef";
    [digits[n / 16], digits[n % 16]]
  }

  /** `JSON.stringify` escaping of one character of a string value. */
  function EscapeChar(c: char): string
  {
    if c == '"' then "\\\""
    else if c == '\\' then "\\\\"
    else if c as int == 8 then "\\b"
    else if c as int == 9 then "\\t"
    else if c as int == 10 then "\\n"
    else if c as int == 12 then "\\f"
    else if c as int == 13 then "\\r"
    else if (c as int) < 32 then "\\u00" + Hex2(c as int)
    else [c]
  }

  function Escape(s: string): string
  {
    if |s| == 0 then "" else EscapeChar(s[0]) + Escape(s[1..])
  }

  /** A character `JSON.stringify` writes as itself. */
  predicate PlainChar(c: char)
  {
    c as int >= 32 && c != '"' && c != '\\'
  }

  /** Text without quotes, backslashes or control characters is written unchanged. */
  lemma {:induction false} EscapePlain(s: string)
    requires forall i :: 0 <= i < |s| ==> PlainChar(s[i])
    ensures Escape(s) == s
  {
    if |s| > 0 {
      EscapePlain(s[1..]);
      assert s == [s[0]] + s[1..];
    }
  }

  /** `JSON.stringify` of one string-valued member. */
  function Member(key: string, value: string): string
  {
    "\"" + key + "\":\"" + Escape(value) + "\""
  }

  /** `JSON.stringify(updateData)`: the object `{ status }` with the feedback
      members added when given; an `undefined` status is left out. */
  function UpdateDataJson(p: StatusPatch): (r: string)
    ensures |r| >= 2 && r[0] == '{' && r[|r| - 1] == '}'
  {
    var members :=
      (match p.status case Some(s) => [Member("status", s)] case None => [])
      + (match p.feedbackPrl case Some(s) => [Member("feedback_prl", s)] case None => [])
      + (match p.feedbackPl case Some(s) => [Member("feedback_pl", s)] case None => []);
    "{" + Join(members) + "}"
  }

  /** Members separated by commas. */
  function Join(items: seq<string>): string
  {
    if |items| == 0 then ""
    else if |items| == 1 then items[0]
    else items[0] + "," + Join(items[1..])
  }

  /** `PATCH /reports/:id/status` as written: the whole `updateData` object is
      passed to `LectureReport.updateStatus` as the status, so the driver
      serialises it and the status column receives JSON text; the feedback
      texts are never stored in their own columns. */
  function PatchStatusAsWritten(db: Db, id: nat, p: StatusPatch): (out: (Db, Option<Report>))
    ensures FrameExcept(db, out.0, {Reports})
    ensures |out.0.reports| == |db.reports|
    ensures forall i :: 0 <= i < |db.reports| && db.reports[i].id == id ==>
              StatusName(out.0.reports[i].status) == UpdateDataJson(p)
    ensures forall i :: 0 <= i < |db.reports| && db.reports[i].id == id ==>
              out.0.reports[i].(status := db.reports[i].status) == db.reports[i]
    ensures forall i :: 0 <= i < |db.reports| && db.reports[i].id == id ==>
              && out.0.reports[i].feedbackPrl == db.reports[i].feedbackPrl
              && out.0.reports[i].feedbackPl == db.reports[i].feedbackPl
    ensures forall i :: 0 <= i < |db.reports| && db.reports[i].id != id ==>
              out.0.reports[i] == db.reports[i]
    ensures out.1.Some? <==> FindById(db, id).Some?
    ensures out.1.Some? ==> StatusName(out.1.value.status) == UpdateDataJson(p)
    ensures out.1.Some? ==> out.1.value.(status := FindById(db, id).value.status) == FindById(db, id).value
  {
    UpdateStatusRow(db, id, ParseStatus(UpdateDataJson(p)))
  }

  /** As written, the PATCH can never put a report into any workflow status:
      whatever the body, the stored text begins with `{`. In particular the
      PRL "Approve Report" request `{ status: 'prl_reviewed' }` does not make
      the report `prl_reviewed`, and its feedback is lost. */
  lemma AsWrittenPatchNeverReachesWorkflow(db: Db, id: nat, p: StatusPatch, i: nat)
    requires i < |db.reports| && db.reports[i].id == id
    ensures PatchStatusAsWritten(db, id, p).0.reports[i].status.OtherStatus?
    ensures PatchStatusAsWritten(db, id, p).0.reports[i].feedbackPrl == db.reports[i].feedbackPrl
  {
    var text := UpdateDataJson(p);
    assert text[0] == '{';
  }

  /** The request body the PRL "Approve Report" button sends. */
  const ApproveRequest: StatusPatch := StatusPatch(Some("prl_reviewed"), None, None)

  /** The text the driver writes for the approve request. */
  lemma ApproveRequestJson()
    ensures UpdateDataJson(ApproveRequest) == "{" + Member("status", "prl_reviewed") + "}"
  {
    assert Join([Member("status", "prl_reviewed")]) == Member("status", "prl_reviewed");
  }

  /** The concrete case: the approve request leaves the status at JSON text,
      while the corrected PATCH makes it `prl_reviewed`. */
  lemma PrlApprovalAsWrittenVersusCorrected(db: Db, i: nat)
    requires i < |db.reports|
    ensures PatchStatusAsWritten(db, db.reports[i].id, ApproveRequest).0.reports[i].status
            == OtherStatus("{" + Member("status", "prl_reviewed") + "}")
    ensures PatchStatus(db, db.reports[i].id, ApproveRequest).0.reports[i].status == PrlReviewed
  {
    ApproveRequestJson();
    var text := UpdateDataJson(ApproveRequest);
    assert text[0] == '{';
    assert StatusName(PatchStatusAsWritten(db, db.reports[i].id, ApproveRequest).0.reports[i].status) == text;
  }
}
