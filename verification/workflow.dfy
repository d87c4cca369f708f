/** How the browser's rules and the server's rules fit together: the complaint
    target map against the routing table, and the report page's buttons
    against the endpoints they call. */
module Workflow {
  import opened Wrappers
  import opened Domain
  import opened Store
  import Reports
  import Signatures
  import Complaints
  import Client
  import Validation

  /** The intended report workflow: a student approves a pending report, then
      a PRL reviews a student-approved one. */
  predicate ForwardStep(from: ReportStatus, to: ReportStatus)
  {
    (from == PendingStudentApproval && to == StudentApproved) || (from == StudentApproved && to == PrlReviewed)
  }

  /** The form's target map and the server's routing table name the same
      pairs of the five roles, in both directions. */
  lemma TargetMapMatchesRouting(c: Role, a: Role)
    requires CanonicalRole(c) && CanonicalRole(a)
    ensures Client.TargetRole(c) == Some(a) <==> Complaints.IsValidComplaintRoute(c, Some(RoleName(a)))
  {
    Complaints.RoutingChain(c, a);
  }

  /** A role the form offers no target has no valid route at all. */
  lemma NoTargetNoRoute(c: Role, against: Option<string>)
    requires CanonicalRole(c)
    requires Client.TargetRole(c).None?
    ensures !Complaints.IsValidComplaintRoute(c, against)
  {
    Complaints.FmgHasNoTarget(c, against);
  }

  /** A complaint filed through the form, against one of the offered users,
      passes both checks of the controller. */
  lemma FormComplaintPassesController(db: Db, actor: User, b: Validation.ComplaintBody)
    requires CanonicalRole(actor.role) && Client.TargetRole(actor.role).Some?
    requires b.againstRole == Some(Client.SetUpForm(db, WithoutPassword(actor)).againstRole)
    requires b.againstUserId.Some? && b.againstUserId.value != actor.id
    ensures Complaints.ControllerCreate(db, actor, b).Ok?
  {
    var t := Client.TargetRole(actor.role).value;
    assert CanonicalRole(t);
    TargetMapMatchesRouting(actor.role, t);
  }

  /** The server's answer to what `submitSignature` sends, for the two paths
      the page can name: nothing when it only alerted; the signatures router
      for `/signatures`; and the 404 handler for `/reports/signature`, since
      the reports router declares no such route. */
  function Deliver(db: Db, actor: User, out: Client.SubmitOutcome): (r: Option<Result<(Db, Signature)>>)
    requires out.Posted? ==> out.path == Client.SignaturePath || out.path == Client.SignaturePathAsWritten
    ensures out.Refused? <==> r.None?
    ensures out.Posted? && out.path == Client.SignaturePathAsWritten ==> r == Some(Err(NotFound("API endpoint not found")))
    ensures out.Posted? && out.path == Client.SignaturePath ==>
              r == Some(Signatures.Sign(db, actor, Signatures.SignBody(Some(out.reportId), Some(out.signatureData))))
  {
    match out
    case Refused(_) => None
    case Posted(path, id, data) =>
      if path == Client.SignaturePath then Some(Signatures.Sign(db, actor, Signatures.SignBody(Some(id), Some(data))))
      else Some(Err(NotFound("API endpoint not found")))
  }

  /** As written, the signature page never stores a signature or moves the
      report: the request is never sent, and the path it would be sent to is
      answered with 404. */
  lemma SignatureAsWrittenNeverStored(db: Db, actor: User, canvasImage: string, reportId: nat)
    ensures Deliver(db, actor, Client.SubmitSignatureAsWritten(canvasImage, reportId)).None?
    ensures Deliver(db, actor, Client.Posted(Client.SignaturePathAsWritten, reportId, canvasImage))
            == Some(Err(NotFound("API endpoint not found")))
  {
  }

  /** With the corrected page, a drawn signature on a report whose sign
      button is shown is stored by `POST /signatures`, and it moves that
      report one step forward. */
  lemma SignButtonIsForwardStep(db: Db, actor: User, i: nat, canvasImage: string, blankImage: string)
    requires i < |db.reports|
    requires Client.SignAction in Client.ViewActions(actor.role, db.reports[i])
    requires CanonicalStatus(db.reports[i].status)
    requires !Signatures.HasSigned(db, actor.id, Some(db.reports[i].id))
    requires canvasImage != blankImage
    ensures var r := Deliver(db, actor, Client.SubmitSignature(canvasImage, blankImage, db.reports[i].id));
            r.Some? && r.value.Ok? && ForwardStep(db.reports[i].status, r.value.value.0.reports[i].status)
  {
    StatusNameRoundTrip(db.reports[i].status);
  }

  /** The approve button appears only on a student-approved report, and the
      request it sends moves that report one step forward under the
      corrected status update. */
  lemma ApproveButtonIsForwardStep(db: Db, actor: User, i: nat)
    requires i < |db.reports|
    requires Client.ApproveAction in Client.ViewActions(actor.role, db.reports[i])
    requires CanonicalStatus(db.reports[i].status)
    ensures ForwardStep(db.reports[i].status,
                        Reports.PatchStatus(db, db.reports[i].id, Client.ApproveRequest()).0.reports[i].status)
  {
    StatusNameRoundTrip(db.reports[i].status);
    Reports.PrlApprovalAsWrittenVersusCorrected(db, i);
  }

  /** Under the status update as written, the same button leaves the
      workflow: the report gets a status outside the five known ones. */
  lemma ApproveButtonAsWrittenLeavesWorkflow(db: Db, actor: User, i: nat)
    requires i < |db.reports|
    requires Client.ApproveAction in Client.ViewActions(actor.role, db.reports[i])
    ensures !ForwardStep(db.reports[i].status,
                         Reports.PatchStatusAsWritten(db, db.reports[i].id, Client.ApproveRequest()).0.reports[i].status)
  {
    Reports.AsWrittenPatchNeverReachesWorkflow(db, db.reports[i].id, Client.ApproveRequest(), i);
  }

  /** The guards live only in the page: the server takes a signature on a
      report at any status, and a status update from any actor to any
      status, so either endpoint can move a report backwards. */
  lemma ServerAllowsBackwardSteps(db: Db, actor: User, i: nat, data: Option<string>)
    requires i < |db.reports| && db.reports[i].status == PrlReviewed
    requires actor.role == Student && !Signatures.HasSigned(db, actor.id, Some(db.reports[i].id))
    ensures Signatures.Sign(db, actor, Signatures.SignBody(Some(db.reports[i].id), data)).Ok?
    ensures !ForwardStep(db.reports[i].status,
                         Signatures.Sign(db, actor, Signatures.SignBody(Some(db.reports[i].id), data)).value.0.reports[i].status)
    ensures Reports.PatchStatus(db, db.reports[i].id,
                                Reports.StatusPatch(Some(StatusName(PendingStudentApproval)), None, None)).0.reports[i].status
            == PendingStudentApproval
  {
    Signatures.SignIgnoresCurrentStatus(db, actor, Signatures.SignBody(Some(db.reports[i].id), data), i);
    Reports.PatchAnyTransition(db, i, PendingStudentApproval);
  }
}
