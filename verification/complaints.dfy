/** Complaints: the routing table and handlers of `ComplaintController`, the
    `Complaint` model, and the mounted `/complaints` routes. */
module Complaints {
  import opened Wrappers
  import opened Domain
  import opened Store
  import opened Seqs
  import opened Validation
  import Dict

  // ---- The routing table ----

  /** `validRoutes`: who may complain about whom, keyed by role name. */
  const ValidRoutes: Dict.Dict<seq<string>> :=
    [("student", ["lecturer"]), ("lecturer", ["prl"]), ("prl", ["pl"]), ("pl", ["fmg"])]

  /** `isValidComplaintRoute(complainantRole, againstRole)`: the target role
      text must be in the list the table holds for the complainant's role. */
  function IsValidComplaintRoute(complainant: Role, against: Option<string>): (r: bool)
    ensures r <==>
              against.Some? &&
              ((RoleName(complainant) == "student" && against.value == "lecturer") ||
               (RoleName(complainant) == "lecturer" && against.value == "prl") ||
               (RoleName(complainant) == "prl" && against.value == "pl") ||
               (RoleName(complainant) == "pl" && against.value == "fmg"))
  {
    match Dict.Get(ValidRoutes, RoleName(complainant))
    case Some(targets) => against.Some? && against.value in targets
    case None => false
  }

  /** The complaint chain on the five roles: exactly one step up each. */
  lemma RoutingChain(c: Role, a: Role)
    requires CanonicalRole(c) && CanonicalRole(a)
    ensures IsValidComplaintRoute(c, Some(RoleName(a))) <==>
      (c, a) == (Student, Lecturer) || (c, a) == (Lecturer, Prl) || (c, a) == (Prl, Pl) || (c, a) == (Pl, Fmg)
  {
    if IsValidComplaintRoute(c, Some(RoleName(a))) {
      RoleNameRoundTrip(c);
      RoleNameRoundTrip(a);
    }
  }

  /** Faculty management and any role outside the table can file against nobody. */
  lemma FmgHasNoTarget(c: Role, against: Option<string>)
    requires c == Fmg || (c.OtherRole? && CanonicalRole(c))
    ensures !IsValidComplaintRoute(c, against)
  {
  }

  // ---- The Complaint model ----

  /** `Complaint.create`: stores title, description, complainant and target;
      anything else in the data (category, anonymity) is dropped. The status
      takes the column default `pending` and the priority is NULL. */
  function CreateRow(db: Db, b: ComplaintBody, complainantId: nat, complainantRole: Role): (out: (Db, Complaint))
    ensures out.0.complaints == db.complaints + [out.1]
    ensures FrameExcept(db, out.0, {Complaints})
    ensures out.1.id == |db.complaints| + 1
    ensures out.1.title == b.title && out.1.description == b.description
    ensures out.1.complainantId == complainantId && out.1.complainantRole == complainantRole
    ensures out.1.againstUserId == b.againstUserId
    ensures b.againstRole.Some? ==> out.1.againstRole.Some? && RoleName(out.1.againstRole.value) == b.againstRole.value
    ensures b.againstRole.None? ==> out.1.againstRole.None?
    ensures out.1.status == Pending && out.1.priority.None?
  {
    var against := match b.againstRole case Some(s) => Some(ParseRole(s)) case None => None;
    var row := Complaint(|db.complaints| + 1, b.title, b.description, complainantId, complainantRole,
                         b.againstUserId, against, Pending, None);
    (db.(complaints := db.complaints + [row]), row)
  }

  /** Two bodies that differ only in the dropped fields store the same row. */
  lemma CreateIgnoresCategory(db: Db, b: ComplaintBody, category: Option<string>, anonymous: Option<bool>, id: nat, role: Role)
    ensures CreateRow(db, b.(category := category, isAnonymous := anonymous), id, role) == CreateRow(db, b, id, role)
  {
  }

  /** A complaint as `findByComplainant` returns it: with the target's name
      from a LEFT JOIN, NULL when the target is missing. */
  datatype FiledComplaint = FiledComplaint(complaint: Complaint, againstUserName: Option<string>)

  function AgainstUserName(users: seq<User>, c: Complaint): Option<string>
  {
    match c.againstUserId
    case None => None
    case Some(uid) => match FindUser(users, uid) case Some(u) => u.name case None => None
  }

  /** The complaints of `cs` filed by that user, newest first, each joined
      with its target's name from `users`. */
  function FiledBy(users: seq<User>, cs: seq<Complaint>, complainantId: nat): (r: seq<FiledComplaint>)
    ensures forall x :: x in r <==>
      x.complaint in cs && x.complaint.complainantId == complainantId
      && x.againstUserName == AgainstUserName(users, x.complaint)
    ensures |r| == Count(cs, (c: Complaint) => c.complainantId == complainantId)
  {
    if |cs| == 0 then []
    else
      var c := cs[|cs| - 1];
      assert cs == cs[..|cs| - 1] + [c];
      FiledItem1(c, users, complainantId) + FiledBy(users, cs[..|cs| - 1], complainantId)
  }

  /** The one-row contribution of a complaint to `FiledBy`. */
  function FiledItem1(c: Complaint, users: seq<User>, complainantId: nat): seq<FiledComplaint>
  {
    if c.complainantId == complainantId then [FiledComplaint(c, AgainstUserName(users, c))] else []
  }

  /** The complaint rows of a list of filed complaints. */
  function FiledRows(r: seq<FiledComplaint>): (rows: seq<Complaint>)
    ensures |rows| == |r|
  {
    seq(|r|, i requires 0 <= i < |r| => r[i].complaint)
  }

  lemma FiledItem1Row(c: Complaint, users: seq<User>, complainantId: nat)
    ensures FiledRows(FiledItem1(c, users, complainantId)) == if c.complainantId == complainantId then [c] else []
  {
  }

  lemma FiledRowsConcat(a: seq<FiledComplaint>, b: seq<FiledComplaint>)
    ensures FiledRows(a + b) == FiledRows(a) + FiledRows(b)
  {
  }

  /** `ORDER BY created_at DESC`: the listed rows are the complainant's rows
      of the table, newest first. */
  lemma {:induction false} FiledByNewestFirst(users: seq<User>, cs: seq<Complaint>, complainantId: nat)
    ensures FiledRows(FiledBy(users, cs, complainantId))
            == Reverse(Filter(cs, (c: Complaint) => c.complainantId == complainantId))
  {
    var p := (c: Complaint) => c.complainantId == complainantId;
    if |cs| > 0 {
      var front := cs[..|cs| - 1];
      var c := cs[|cs| - 1];
      assert cs == front + [c];
      FiledByNewestFirst(users, front, complainantId);
      FilterAppend(front, c, p);
      var here := FiledItem1(c, users, complainantId);
      FiledItem1Row(c, users, complainantId);
      assert FiledBy(users, cs, complainantId) == here + FiledBy(users, front, complainantId);
      FiledRowsConcat(here, FiledBy(users, front, complainantId));
      ReverseAppend(Filter(front, p), c);
    }
  }

  /** `Complaint.findByComplainant`: that user's complaints, newest first,
      each once. */
  function FindByComplainant(db: Db, complainantId: nat): (r: seq<FiledComplaint>)
    ensures forall x :: x in r <==>
      x.complaint in db.complaints && x.complaint.complainantId == complainantId
      && x.againstUserName == AgainstUserName(db.users, x.complaint)
    ensures |r| == Count(db.complaints, (c: Complaint) => c.complainantId == complainantId)
    ensures FiledRows(r) == Reverse(Filter(db.complaints, (c: Complaint) => c.complainantId == complainantId))
  {
    FiledByNewestFirst(db.users, db.complaints, complainantId);
    FiledBy(db.users, db.complaints, complainantId)
  }

  /** A complaint as `findForReview` returns it: with the complainant's name. */
  datatype ReviewItem = ReviewItem(complaint: Complaint, complainantName: Option<string>)

  /** The selection each reviewing role's query makes, given the complainant
      row the join finds. Prl and Pl are scoped to the complainant's faculty,
      which must equal the viewer's (a NULL faculty matches nothing); Fmg is
      not scoped. */
  predicate Selects(role: Role, faculty: Option<string>, c: Complaint, complainant: User)
  {
    match role
    case Prl => c.againstRole == Some(Lecturer) && SqlEq(complainant.faculty, faculty)
    case Pl => c.againstRole == Some(Prl) && SqlEq(complainant.faculty, faculty)
    case Fmg => c.againstRole == Some(Pl)
    case _ => false
  }

  /** The review items of `cs` for the viewer, newest first. */
  function ReviewItems(cs: seq<Complaint>, users: seq<User>, role: Role, faculty: Option<string>): (r: seq<ReviewItem>)
    ensures forall x :: x in r <==>
      && x.complaint in cs
      && FindUser(users, x.complaint.complainantId).Some?
      && Selects(role, faculty, x.complaint, FindUser(users, x.complaint.complainantId).value)
      && x.complainantName == FindUser(users, x.complaint.complainantId).value.name
  {
    if |cs| == 0 then []
    else
      var c := cs[|cs| - 1];
      assert cs == cs[..|cs| - 1] + [c];
      ReviewItem1(c, users, role, faculty) + ReviewItems(cs[..|cs| - 1], users, role, faculty)
  }

  /** The item one complaint contributes: none when its complainant is
      missing or the viewer's selection rejects it. */
  function ReviewItem1(c: Complaint, users: seq<User>, role: Role, faculty: Option<string>): seq<ReviewItem>
  {
    match FindUser(users, c.complainantId)
    case Some(u) => if Selects(role, faculty, c, u) then [ReviewItem(c, u.name)] else []
    case None => []
  }

  /** The complainant row the join finds, when it exists, passes the viewer's selection. */
  predicate Reviewed(users: seq<User>, role: Role, faculty: Option<string>, c: Complaint)
  {
    FindUser(users, c.complainantId).Some? && Selects(role, faculty, c, FindUser(users, c.complainantId).value)
  }

  /** The complaint rows of a list of review items. */
  function ReviewRows(r: seq<ReviewItem>): (rows: seq<Complaint>)
    ensures |rows| == |r|
  {
    seq(|r|, i requires 0 <= i < |r| => r[i].complaint)
  }

  lemma ReviewItem1Row(c: Complaint, users: seq<User>, role: Role, faculty: Option<string>)
    ensures ReviewRows(ReviewItem1(c, users, role, faculty)) == if Reviewed(users, role, faculty, c) then [c] else []
  {
  }

  lemma ReviewRowsConcat(a: seq<ReviewItem>, b: seq<ReviewItem>)
    ensures ReviewRows(a + b) == ReviewRows(a) + ReviewRows(b)
  {
  }

  /** `ORDER BY c.created_at DESC`: the listed rows are the selected rows of
      the table, newest first. */
  lemma {:induction false} ReviewItemsNewestFirst(cs: seq<Complaint>, users: seq<User>, role: Role, faculty: Option<string>)
    ensures ReviewRows(ReviewItems(cs, users, role, faculty))
            == Reverse(Filter(cs, (c: Complaint) => Reviewed(users, role, faculty, c)))
  {
    var p := (c: Complaint) => Reviewed(users, role, faculty, c);
    if |cs| > 0 {
      var front := cs[..|cs| - 1];
      var c := cs[|cs| - 1];
      assert cs == front + [c];
      ReviewItemsNewestFirst(front, users, role, faculty);
      FilterAppend(front, c, p);
      var here := ReviewItem1(c, users, role, faculty);
      ReviewItem1Row(c, users, role, faculty);
      assert ReviewItems(cs, users, role, faculty) == here + ReviewItems(front, users, role, faculty);
      ReviewRowsConcat(here, ReviewItems(front, users, role, faculty));
      ReverseAppend(Filter(front, p), c);
    }
  }

  /** `Complaint.findForReview(role, faculty)`; the routes in
      `GET /complaints/for-review` repeat the same three queries. For any
      other role the query text stays empty; `None` stands for that empty
      query, which the driver answers with no rows. */
  function FindForReview(db: Db, role: Role, faculty: Option<string>): (r: Option<seq<ReviewItem>>)
    ensures r.Some? <==> IsReviewer(role)
    ensures r.Some? ==> r.value == ReviewItems(db.complaints, db.users, role, faculty)
  {
    if IsReviewer(role) then Some(ReviewItems(db.complaints, db.users, role, faculty)) else None
  }

  /** A PRL sees exactly the complaints against lecturers filed by users of
      the PRL's own faculty. */
  lemma PrlReviewScope(db: Db, viewer: User, c: Complaint, u: User)
    requires viewer.role == Prl
    requires c in db.complaints && FindUser(db.users, c.complainantId) == Some(u)
    ensures ReviewItem(c, u.name) in FindForReview(db, viewer.role, viewer.faculty).value <==>
      c.againstRole == Some(Lecturer) && viewer.faculty.Some? && u.faculty == viewer.faculty
  {
  }

  /** A PL sees exactly the complaints against PRLs filed by users of the
      PL's own faculty. */
  lemma PlReviewScope(db: Db, viewer: User, c: Complaint, u: User)
    requires viewer.role == Pl
    requires c in db.complaints && FindUser(db.users, c.complainantId) == Some(u)
    ensures ReviewItem(c, u.name) in FindForReview(db, viewer.role, viewer.faculty).value <==>
      c.againstRole == Some(Prl) && viewer.faculty.Some? && u.faculty == viewer.faculty
  {
  }

  /** Faculty management sees every complaint against a PL, whatever the
      faculties involved. */
  lemma {:induction false} FmgReviewUnscoped(cs: seq<Complaint>, users: seq<User>, f: Option<string>, g: Option<string>)
    ensures ReviewItems(cs, users, Fmg, f) == ReviewItems(cs, users, Fmg, g)
  {
    if |cs| > 0 {
      var c := cs[|cs| - 1];
      FmgReviewUnscoped(cs[..|cs| - 1], users, f, g);
      assert ReviewItem1(c, users, Fmg, f) == ReviewItem1(c, users, Fmg, g);
    }
  }

  /** `Complaint.findById`. */
  function FindById(db: Db, id: nat): (r: Option<Complaint>)
    ensures r.Some? ==> r.value in db.complaints && r.value.id == id
    ensures r.None? <==> forall c :: c in db.complaints ==> c.id != id
  {
    First(db.complaints, (c: Complaint) => c.id == id)
  }

  // ---- Filing a complaint ----

  /** The complaint is filed against the actor's own account. */
  predicate AgainstSelf(b: ComplaintBody, actor: User)
  {
    b.againstUserId == Some(actor.id)
  }

  /** `ComplaintController.createComplaint`: refuses a complaint against the
      actor, then a target role the table does not allow for the actor's
      role; otherwise stores it with the complainant taken from the actor. */
  function ControllerCreate(db: Db, actor: User, b: ComplaintBody): (r: Result<(Db, Complaint)>)
    ensures AgainstSelf(b, actor) ==> r == Err(BadRequest("Cannot file complaint against yourself"))
    ensures !AgainstSelf(b, actor) && !IsValidComplaintRoute(actor.role, b.againstRole) ==>
              r == Err(BadRequest("Invalid complaint route for your role"))
    ensures r.Ok? <==> !AgainstSelf(b, actor) && IsValidComplaintRoute(actor.role, b.againstRole)
    ensures r.Ok? ==> r.value.0.complaints == db.complaints + [r.value.1]
    ensures r.Ok? ==> FrameExcept(db, r.value.0, {Complaints})
    ensures r.Ok? ==> r.value.1.complainantId == actor.id && r.value.1.complainantRole == actor.role
    ensures r.Ok? ==>
              && r.value.1.id == |db.complaints| + 1
              && r.value.1.title == b.title && r.value.1.description == b.description
              && r.value.1.againstUserId == b.againstUserId
              && (b.againstRole.Some? ==> r.value.1.againstRole.Some? && RoleName(r.value.1.againstRole.value) == b.againstRole.value)
              && (b.againstRole.None? ==> r.value.1.againstRole.None?)
              && r.value.1.status == Pending && r.value.1.priority.None?
  {
    if AgainstSelf(b, actor) then Err(BadRequest("Cannot file complaint against yourself"))
    else if !IsValidComplaintRoute(actor.role, b.againstRole) then Err(BadRequest("Invalid complaint route for your role"))
    else Ok(CreateRow(db, b, actor.id, actor.role))
  }

  /** `POST /complaints` as mounted: any authenticated actor, no checks; the
      complainant is taken from the actor. */
  function MountedCreate(db: Db, actor: User, b: ComplaintBody): (r: Result<(Db, Complaint)>)
    ensures r.Ok?
    ensures r.value.0.complaints == db.complaints + [r.value.1]
    ensures FrameExcept(db, r.value.0, {Complaints})
    ensures r.value.1.complainantId == actor.id && r.value.1.complainantRole == actor.role
    ensures
              && r.value.1.id == |db.complaints| + 1
              && r.value.1.title == b.title && r.value.1.description == b.description
              && r.value.1.againstUserId == b.againstUserId
              && (b.againstRole.Some? ==> r.value.1.againstRole.Some? && RoleName(r.value.1.againstRole.value) == b.againstRole.value)
              && (b.againstRole.None? ==> r.value.1.againstRole.None?)
              && r.value.1.status == Pending && r.value.1.priority.None?
  {
    Ok(CreateRow(db, b, actor.id, actor.role))
  }

  /** A stored complaint that follows the routing rule. */
  predicate Routed(c: Complaint)
  {
    && c.againstUserId != Some(c.complainantId)
    && c.againstRole.Some?
    && IsValidComplaintRoute(c.complainantRole, Some(RoleName(c.againstRole.value)))
  }

  /** Every stored complaint follows the routing rule. */
  ghost predicate AllRouted(db: Db)
  {
    forall i :: 0 <= i < |db.complaints| ==> Routed(db.complaints[i])
  }

  /** The controller's create keeps every stored complaint routed. */
  lemma ControllerCreateKeepsRouting(db: Db, actor: User, b: ComplaintBody)
    requires AllRouted(db)
    requires ControllerCreate(db, actor, b).Ok?
    ensures AllRouted(ControllerCreate(db, actor, b).value.0)
  {
    var c := ControllerCreate(db, actor, b).value.1;
    assert RoleName(c.againstRole.value) == b.againstRole.value;
    assert Routed(c);
  }

  /** The mounted create stores a complaint against the complainant's own
      account, which the controller refuses. */
  lemma MountedCreateAcceptsSelfComplaint(db: Db, actor: User, b: ComplaintBody)
    requires AgainstSelf(b, actor)
    ensures !Routed(MountedCreate(db, actor, b).value.1)
    ensures ControllerCreate(db, actor, b) == Err(BadRequest("Cannot file complaint against yourself"))
  {
  }

  /** The mounted create stores a complaint whose target role the table does
      not allow, for example a student filing against a PL, which the
      controller refuses. */
  lemma MountedCreateAcceptsOffRoute(db: Db, actor: User, b: ComplaintBody)
    requires actor.role == Student && b.againstRole == Some("pl") && !AgainstSelf(b, actor)
    ensures !Routed(MountedCreate(db, actor, b).value.1)
    ensures ControllerCreate(db, actor, b) == Err(BadRequest("Invalid complaint route for your role"))
  {
  }

  /** `GET /complaints/my-complaints`: any authenticated actor, own complaints. */
  function MyComplaints(db: Db, actor: User): (r: seq<FiledComplaint>)
    ensures forall x :: x in r ==> x.complaint in db.complaints && x.complaint.complainantId == actor.id
    ensures forall c :: c in db.complaints && c.complainantId == actor.id ==>
              FiledComplaint(c, AgainstUserName(db.users, c)) in r
    ensures FiledRows(r) == Reverse(Filter(db.complaints, (c: Complaint) => c.complainantId == actor.id))
  {
    FindByComplainant(db, actor.id)
  }

  /** `GET /complaints/for-review`: the reviewing roles only. */
  function ForReview(db: Db, actor: User): (r: Result<seq<ReviewItem>>)
    ensures r.Ok? <==> IsReviewer(actor.role)
    ensures r.Err? ==> r == Err(RoleDenied)
    ensures r.Ok? ==> forall x :: x in r.value ==>
              x.complaint in db.complaints && Reviewed(db.users, actor.role, actor.faculty, x.complaint)
    ensures r.Ok? ==> forall c :: c in db.complaints && Reviewed(db.users, actor.role, actor.faculty, c) ==>
              ReviewItem(c, FindUser(db.users, c.complainantId).value.name) in r.value
    ensures r.Ok? ==> ReviewRows(r.value)
                      == Reverse(Filter(db.complaints, (c: Complaint) => Reviewed(db.users, actor.role, actor.faculty, c)))
  {
    if IsReviewer(actor.role) then
      ReviewItemsNewestFirst(db.complaints, db.users, actor.role, actor.faculty);
      Ok(FindForReview(db, actor.role, actor.faculty).value)
    else Err(RoleDenied)
  }

  // ---- Responses and status ----

  /** Inserts a response and writes `resolved` to the complaint with that id. */
  function Respond(db: Db, complaintId: nat, responderId: nat, text: Option<string>): (out: (Db, ComplaintResponse))
    ensures out.0.responses == db.responses + [out.1]
    ensures out.1.complaintId == complaintId && out.1.responderId == responderId && out.1.text == text
    ensures FrameExcept(db, out.0, {Responses, Complaints})
    ensures |out.0.complaints| == |db.complaints|
    ensures forall i :: 0 <= i < |db.complaints| ==>
              out.0.complaints[i] ==
                if db.complaints[i].id == complaintId then db.complaints[i].(status := Resolved) else db.complaints[i]
  {
    var row := ComplaintResponse(|db.responses| + 1, complaintId, responderId, text);
    var complaints := UpdateWhere(db.complaints, (c: Complaint) => c.id == complaintId,
                                  (c: Complaint) => c.(status := Resolved));
    (db.(responses := db.responses + [row], complaints := complaints), row)
  }

  /** `POST /complaints/:id/response` as mounted: reviewing roles only; no
      check that the complaint exists. */
  function RouteAddResponse(db: Db, actor: User, complaintId: nat, text: Option<string>): (r: Result<Db>)
    ensures r.Ok? <==> IsReviewer(actor.role)
    ensures r.Err? ==> r == Err(RoleDenied)
    ensures r.Ok? ==> |r.value.responses| == |db.responses| + 1
    ensures r.Ok? ==> r.value.responses[..|db.responses|] == db.responses
    ensures r.Ok? ==> r.value.responses[|db.responses|].complaintId == complaintId
    ensures r.Ok? ==> r.value.responses[|db.responses|].responderId == actor.id
    ensures r.Ok? ==> r.value.responses[|db.responses|].text == text
    ensures r.Ok? ==> FrameExcept(db, r.value, {Responses, Complaints})
    ensures r.Ok? ==> |r.value.complaints| == |db.complaints|
    ensures r.Ok? ==> forall i :: 0 <= i < |db.complaints| && db.complaints[i].id == complaintId ==>
              r.value.complaints[i] == db.complaints[i].(status := Resolved)
    ensures r.Ok? ==> forall i :: 0 <= i < |db.complaints| && db.complaints[i].id != complaintId ==>
              r.value.complaints[i] == db.complaints[i]
  {
    if IsReviewer(actor.role) then Ok(Respond(db, complaintId, actor.id, text).0) else Err(RoleDenied)
  }

  /** `ComplaintController.addComplaintResponse`: 404 on a missing complaint;
      otherwise one response is added and the complaint becomes `resolved`. */
  function ControllerAddResponse(db: Db, actor: User, complaintId: nat, text: Option<string>): (r: Result<(Db, ComplaintResponse)>)
    ensures r.Err? <==> FindById(db, complaintId).None?
    ensures r.Err? ==> r == Err(NotFound("Complaint not found"))
    ensures r.Ok? ==> r.value.0.responses == db.responses + [r.value.1]
    ensures r.Ok? ==> r.value.1.complaintId == complaintId && r.value.1.responderId == actor.id
    ensures r.Ok? ==> r.value.1.text == text
    ensures r.Ok? ==> FrameExcept(db, r.value.0, {Responses, Complaints})
    ensures r.Ok? ==> |r.value.0.complaints| == |db.complaints|
    ensures r.Ok? ==> forall i :: 0 <= i < |db.complaints| ==>
              r.value.0.complaints[i] ==
                if db.complaints[i].id == complaintId then db.complaints[i].(status := Resolved) else db.complaints[i]
  {
    if FindById(db, complaintId).None? then Err(NotFound("Complaint not found"))
    else Ok(Respond(db, complaintId, actor.id, text))
  }

  /** A response resolves the complaint whatever its prior status, even one
      that had been dismissed. */
  lemma ResponseResolvesFromAnyStatus(db: Db, actor: User, i: nat, text: Option<string>)
    requires i < |db.complaints|
    ensures ControllerAddResponse(db, actor, db.complaints[i].id, text).Ok?
    ensures ControllerAddResponse(db, actor, db.complaints[i].id, text).value.0.complaints[i].status == Resolved
  {
  }

  /** `ComplaintController.updateComplaintStatus`: 404 on a missing complaint;
      otherwise a given status or priority replaces the column and an absent
      one keeps it. */
  function UpdateComplaintStatus(db: Db, id: nat, status: Option<string>, priority: Option<string>): (r: Result<Db>)
    ensures r.Err? <==> FindById(db, id).None?
    ensures r.Err? ==> r == Err(NotFound("Complaint not found"))
    ensures r.Ok? ==> FrameExcept(db, r.value, {Complaints}) && |r.value.complaints| == |db.complaints|
    ensures r.Ok? ==> forall i :: 0 <= i < |db.complaints| && db.complaints[i].id != id ==>
              r.value.complaints[i] == db.complaints[i]
    ensures r.Ok? ==> forall i :: 0 <= i < |db.complaints| && db.complaints[i].id == id ==>
              && r.value.complaints[i].(status := db.complaints[i].status, priority := db.complaints[i].priority) == db.complaints[i]
              && (status.None? ==> r.value.complaints[i].status == db.complaints[i].status)
              && (status.Some? ==> r.value.complaints[i].status == ParseComplaintStatus(status.value))
              && (priority.None? ==> r.value.complaints[i].priority == db.complaints[i].priority)
              && (priority.Some? ==> r.value.complaints[i].priority == priority)
  {
    if FindById(db, id).None? then Err(NotFound("Complaint not found"))
    else
      var apply := (c: Complaint) => c.(
        status := match status case Some(s) => ParseComplaintStatus(s) case None => c.status,
        priority := if priority.Some? then priority else c.priority);
      Ok(db.(complaints := UpdateWhere(db.complaints, (c: Complaint) => c.id == id, apply)))
  }

  /** An update with neither field changes nothing. */
  lemma EmptyStatusUpdateIsIdentity(db: Db, id: nat)
    requires FindById(db, id).Some?
    ensures UpdateComplaintStatus(db, id, None, None) == Ok(db)
  {
    assert UpdateComplaintStatus(db, id, None, None).value.complaints == db.complaints;
  }

  /** A response as `GET /complaints/:id/responses` returns it: with the
      responder's name from the join. */
  datatype ResponseItem = ResponseItem(response: ComplaintResponse, responderName: Option<string>)

  /** The joined responses to one complaint, in insertion order. */
  function ResponseItems(rs: seq<ComplaintResponse>, users: seq<User>, complaintId: nat): (r: seq<ResponseItem>)
    ensures forall x :: x in r <==>
      && x.response in rs && x.response.complaintId == complaintId
      && FindUser(users, x.response.responderId).Some?
      && x.responderName == FindUser(users, x.response.responderId).value.name
  {
    if |rs| == 0 then []
    else
      var x := rs[|rs| - 1];
      assert rs == rs[..|rs| - 1] + [x];
      ResponseItems(rs[..|rs| - 1], users, complaintId) + ResponseItem1(x, users, complaintId)
  }

  /** The items one response contributes: none when it is for another
      complaint or its responder is missing. */
  function ResponseItem1(x: ComplaintResponse, users: seq<User>, complaintId: nat): seq<ResponseItem>
  {
    if x.complaintId != complaintId then []
    else match FindUser(users, x.responderId)
      case Some(u) => [ResponseItem(x, u.name)]
      case None => []
  }

  /** Appending a response appends its item, so the list keeps insertion order. */
  lemma ResponseItemsAppend(rs: seq<ComplaintResponse>, x: ComplaintResponse, users: seq<User>, complaintId: nat)
    ensures ResponseItems(rs + [x], users, complaintId) == ResponseItems(rs, users, complaintId) + ResponseItem1(x, users, complaintId)
  {
    assert (rs + [x])[..|rs|] == rs;
  }

  /** `GET /complaints/:id/responses`: any authenticated actor. */
  function ListResponses(db: Db, complaintId: nat): (r: seq<ResponseItem>)
    ensures forall x :: x in r ==> x.response in db.responses && x.response.complaintId == complaintId
    ensures forall x :: x in db.responses && x.complaintId == complaintId && FindUser(db.users, x.responderId).Some? ==>
              ResponseItem(x, FindUser(db.users, x.responderId).value.name) in r
    ensures ResponseRows(r) == Filter(db.responses, (x: ComplaintResponse) => Answered(db.users, complaintId, x))
  {
    ResponsesInOrder(db.responses, db.users, complaintId);
    ResponseItems(db.responses, db.users, complaintId)
  }

  /** The response is to that complaint, and its responder row exists. */
  predicate Answered(users: seq<User>, complaintId: nat, x: ComplaintResponse)
  {
    x.complaintId == complaintId && FindUser(users, x.responderId).Some?
  }

  /** The response rows of a list of response items. */
  function ResponseRows(r: seq<ResponseItem>): (rows: seq<ComplaintResponse>)
    ensures |rows| == |r|
  {
    seq(|r|, i requires 0 <= i < |r| => r[i].response)
  }

  lemma ResponseItem1Row(x: ComplaintResponse, users: seq<User>, complaintId: nat)
    ensures ResponseRows(ResponseItem1(x, users, complaintId)) == if Answered(users, complaintId, x) then [x] else []
  {
  }

  lemma ResponseRowsConcat(a: seq<ResponseItem>, b: seq<ResponseItem>)
    ensures ResponseRows(a + b) == ResponseRows(a) + ResponseRows(b)
  {
  }

  /** `ORDER BY cr.created_at ASC`: the listed rows are the complaint's
      answered responses in table order. */
  lemma {:induction false} ResponsesInOrder(rs: seq<ComplaintResponse>, users: seq<User>, complaintId: nat)
    ensures ResponseRows(ResponseItems(rs, users, complaintId))
            == Filter(rs, (x: ComplaintResponse) => Answered(users, complaintId, x))
  {
    var p := (x: ComplaintResponse) => Answered(users, complaintId, x);
    if |rs| > 0 {
      var front := rs[..|rs| - 1];
      var x := rs[|rs| - 1];
      assert rs == front + [x];
      ResponsesInOrder(front, users, complaintId);
      FilterAppend(front, x, p);
      ResponseItem1Row(x, users, complaintId);
      ResponseRowsConcat(ResponseItems(front, users, complaintId), ResponseItem1(x, users, complaintId));
    }
  }

  /** A posted response is listed after every earlier response. */
  lemma ResponseListedLast(db: Db, actor: User, id: nat, t: Option<string>)
    requires IsReviewer(actor.role)
    requires FindUser(db.users, actor.id) == Some(actor)
    ensures var db1 := RouteAddResponse(db, actor, id, t).value;
            ListResponses(db1, id) == ListResponses(db, id) + [ResponseItem(db1.responses[|db.responses|], actor.name)]
  {
    var db1 := RouteAddResponse(db, actor, id, t).value;
    var row := db1.responses[|db.responses|];
    assert db1.responses == db.responses + [row];
    assert db1.users == db.users;
    ResponseItemsAppend(db.responses, row, db.users, id);
    assert ResponseItem1(row, db.users, id) == [ResponseItem(row, actor.name)];
  }

  /** Two responses to one complaint are both kept, in the order given. */
  lemma TwoResponsesListedInOrder(db: Db, first: User, second: User, id: nat, t1: Option<string>, t2: Option<string>)
    requires IsReviewer(first.role) && IsReviewer(second.role)
    requires FindUser(db.users, first.id) == Some(first) && FindUser(db.users, second.id) == Some(second)
    ensures var db1 := RouteAddResponse(db, first, id, t1).value;
            var db2 := RouteAddResponse(db1, second, id, t2).value;
            ListResponses(db2, id) == ListResponses(db, id)
              + [ResponseItem(db1.responses[|db.responses|], first.name),
                 ResponseItem(db2.responses[|db1.responses|], second.name)]
  {
    var db1 := RouteAddResponse(db, first, id, t1).value;
    ResponseListedLast(db, first, id, t1);
    assert db1.users == db.users;
    ResponseListedLast(db1, second, id, t2);
  }

  /** A complaint filed through the mounted route heads the complainant's
      list: `my-complaints` is newest first. */
  lemma NewComplaintListedFirst(db: Db, actor: User, b: ComplaintBody)
    ensures var (db1, c) := MountedCreate(db, actor, b).value;
            MyComplaints(db1, actor) == [FiledComplaint(c, AgainstUserName(db.users, c))] + MyComplaints(db, actor)
  {
    var (db1, c) := MountedCreate(db, actor, b).value;
    assert db1.complaints == db.complaints + [c];
    assert db1.users == db.users;
    assert (db.complaints + [c])[..|db.complaints|] == db.complaints;
  }
}
