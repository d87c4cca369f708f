/** Student signatures: the `StudentSignature` model and the `/signatures`
    routes. A signature approves a report on the student's behalf. */
module Signatures {
  import opened Wrappers
  import opened Domain
  import opened Store
  import opened Seqs
  import Reports

  /** `StudentSignature.create`: one new row with the three given columns. */
  function CreateSignature(db: Db, reportId: Option<nat>, studentId: nat, data: Option<string>): (out: (Db, Signature))
    ensures out.0.signatures == db.signatures + [out.1]
    ensures FrameExcept(db, out.0, {Signatures})
    ensures out.1.id == |db.signatures| + 1
    ensures out.1.reportId == reportId && out.1.studentId == studentId && out.1.signatureData == data
  {
    var row := Signature(|db.signatures| + 1, reportId, studentId, data);
    (db.(signatures := db.signatures + [row]), row)
  }

  /** The row matches `student_id = $1 AND report_id = $2`; a NULL report id
      matches nothing. */
  predicate SignedBy(s: Signature, studentId: nat, reportId: Option<nat>)
  {
    s.studentId == studentId && SqlEq(s.reportId, reportId)
  }

  /** `StudentSignature.findByStudentAndReport(studentId, reportId)`. */
  function FindByStudentAndReport(db: Db, studentId: nat, reportId: Option<nat>): (r: Option<Signature>)
    ensures r.Some? <==> exists s :: s in db.signatures && SignedBy(s, studentId, reportId)
    ensures r.Some? ==> r.value in db.signatures && SignedBy(r.value, studentId, reportId)
  {
    First(db.signatures, (s: Signature) => SignedBy(s, studentId, reportId))
  }

  /** A row of `findByReport`: the signature joined with its student's name. */
  datatype NamedSignature = NamedSignature(signature: Signature, studentName: Option<string>)

  /** The users a signature joins with in `JOIN users u ON ss.student_id = u.id`. */
  function Signers(s: Signature, users: seq<User>): (r: seq<NamedSignature>)
    ensures forall x :: x in r <==>
      x.signature == s && exists u :: u in users && u.id == s.studentId && u.name == x.studentName
  {
    if |users| == 0 then []
    else
      var rest := Signers(s, users[..|users| - 1]);
      var u := users[|users| - 1];
      assert users == users[..|users| - 1] + [u];
      rest + (if u.id == s.studentId then [NamedSignature(s, u.name)] else [])
  }

  /** `StudentSignature.findByReport`, which `GET /signatures/report/:reportId`
      returns to any authenticated user: every signature on the report that
      has a matching student, with the student's name. */
  function FindByReport(db: Db, reportId: nat): (r: seq<NamedSignature>)
    ensures forall x :: x in r <==>
      && x.signature in db.signatures
      && x.signature.reportId == Some(reportId)
      && exists u :: u in db.users && u.id == x.signature.studentId && u.name == x.studentName
  {
    JoinOnReport(db.signatures, db.users, reportId)
  }

  function JoinOnReport(sigs: seq<Signature>, users: seq<User>, reportId: nat): (r: seq<NamedSignature>)
    ensures forall x :: x in r <==>
      && x.signature in sigs
      && x.signature.reportId == Some(reportId)
      && exists u :: u in users && u.id == x.signature.studentId && u.name == x.studentName
  {
    if |sigs| == 0 then []
    else
      var s := sigs[|sigs| - 1];
      assert sigs == sigs[..|sigs| - 1] + [s];
      JoinOnReport(sigs[..|sigs| - 1], users, reportId)
        + (if s.reportId == Some(reportId) then Signers(s, users) else [])
  }

  /** The body of `POST /signatures`. */
  datatype SignBody = SignBody(reportId: Option<nat>, signatureData: Option<string>)

  /** The student has a signature on that report already. */
  predicate HasSigned(db: Db, studentId: nat, reportId: Option<nat>)
  {
    exists s :: s in db.signatures && SignedBy(s, studentId, reportId)
  }

  /** `POST /signatures`: students only; refuses a second signature by the same
      student on the same report; otherwise records the signature and writes
      `student_approved` to the report, whatever its current status. */
  function Sign(db: Db, actor: User, body: SignBody): (r: Result<(Db, Signature)>)
    ensures actor.role != Student ==> r == Err(RoleDenied)
    ensures actor.role == Student && HasSigned(db, actor.id, body.reportId) ==>
              r == Err(BadRequest("You have already signed this report"))
    ensures r.Ok? <==> actor.role == Student && !HasSigned(db, actor.id, body.reportId)
    ensures r.Ok? ==> r.value.0.signatures == db.signatures + [r.value.1]
    ensures r.Ok? ==> r.value.1.studentId == actor.id && r.value.1.reportId == body.reportId
    ensures r.Ok? ==> r.value.1.signatureData == body.signatureData
    ensures r.Ok? ==> FrameExcept(db, r.value.0, {Signatures, Reports})
    ensures r.Ok? ==> |r.value.0.reports| == |db.reports|
    ensures r.Ok? ==> forall i :: 0 <= i < |db.reports| ==>
              r.value.0.reports[i] ==
                if Some(db.reports[i].id) == body.reportId then db.reports[i].(status := StudentApproved)
                else db.reports[i]
  {
    if actor.role != Student then Err(RoleDenied)
    else if FindByStudentAndReport(db, actor.id, body.reportId).Some? then
      Err(BadRequest("You have already signed this report"))
    else
      var (db1, sig) := CreateSignature(db, body.reportId, actor.id, body.signatureData);
      var db2 := match body.reportId
        case Some(id) => Reports.UpdateStatusRow(db1, id, StudentApproved).0
        case None => db1;
      Ok((db2, sig))
  }

  /** After a student has signed a report, every further attempt by that
      student on that report is refused and stores nothing. */
  lemma SignOnce(db: Db, actor: User, body: SignBody, again: SignBody)
    requires Sign(db, actor, body).Ok?
    requires again.reportId == body.reportId && body.reportId.Some?
    ensures Sign(Sign(db, actor, body).value.0, actor, again) == Err(BadRequest("You have already signed this report"))
  {
    var db' := Sign(db, actor, body).value.0;
    var sig := Sign(db, actor, body).value.1;
    assert sig in db'.signatures;
    assert SignedBy(sig, actor.id, again.reportId);
  }

  /** The duplicate check is per student: another student can still sign a
      report that already carries signatures. */
  lemma DifferentStudentCanSign(db: Db, actor: User, other: User, body: SignBody)
    requires Sign(db, actor, body).Ok?
    requires other.role == Student && other.id != actor.id
    requires !HasSigned(db, other.id, body.reportId)
    ensures Sign(Sign(db, actor, body).value.0, other, body).Ok?
  {
    var db' := Sign(db, actor, body).value.0;
    forall s | s in db'.signatures
      ensures !SignedBy(s, other.id, body.reportId)
    {
      if s !in db.signatures {
        assert s == Sign(db, actor, body).value.1;
      }
    }
  }

  /** Signing imposes no workflow: the report becomes `student_approved` from
      any status, including ones the report has already moved past. */
  lemma SignIgnoresCurrentStatus(db: Db, actor: User, body: SignBody, i: nat)
    requires actor.role == Student && !HasSigned(db, actor.id, body.reportId)
    requires i < |db.reports| && body.reportId == Some(db.reports[i].id)
    ensures Sign(db, actor, body).Ok?
    ensures Sign(db, actor, body).value.0.reports[i].status == StudentApproved
  {
  }

  /** The table holds at most one signature per (student, report) pair. */
  ghost predicate SignOncePerReport(db: Db)
  {
    forall i, j :: 0 <= i < j < |db.signatures| && db.signatures[i].reportId.Some? ==>
      !(db.signatures[i].studentId == db.signatures[j].studentId
        && db.signatures[i].reportId == db.signatures[j].reportId)
  }

  /** Every successful signature keeps the table free of duplicate pairs. */
  lemma SignPreservesOncePerReport(db: Db, actor: User, body: SignBody)
    requires SignOncePerReport(db)
    requires Sign(db, actor, body).Ok?
    ensures SignOncePerReport(Sign(db, actor, body).value.0)
  {
    var sigs' := Sign(db, actor, body).value.0.signatures;
    var n := |db.signatures|;
    forall i, j | 0 <= i < j < |sigs'| && sigs'[i].reportId.Some?
      ensures !(sigs'[i].studentId == sigs'[j].studentId && sigs'[i].reportId == sigs'[j].reportId)
    {
      if j == n {
        assert sigs'[i] in db.signatures;
        if sigs'[i].studentId == sigs'[j].studentId && sigs'[i].reportId == sigs'[j].reportId {
          assert SignedBy(sigs'[i], actor.id, body.reportId);
        }
      }
    }
  }

  /** Signing keeps SERIAL ids in both tables it writes. */
  lemma SignWellFormed(db: Db, actor: User, body: SignBody)
    requires WellFormed(db)
    requires Sign(db, actor, body).Ok?
    ensures WellFormed(Sign(db, actor, body).value.0)
  {
    var db' := Sign(db, actor, body).value.0;
    SerialAppend(db.signatures, (s: Signature) => s.id, Sign(db, actor, body).value.1);
    SerialUpdate(db.reports, db'.reports, (r: Report) => r.id);
  }
}
