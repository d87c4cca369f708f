/** Accounts: registration, login and password change (`AuthController` and
    `/users/change-password`), the `/users` routes for profiles, approval,
    activity and notifications, and `UserController`. Password hashing and
    checking are parameters: `hash(p)` is what `bcrypt.hash` stores and
    `matches(p, h)` is `bcrypt.compare`. */
module Accounts {
  import opened Wrappers
  import opened Domain
  import opened Store
  import opened Seqs
  import opened Text

  // ---- Registration and login ----

  /** `User.findByEmail`: the first user with that email; an absent email
      matches nothing. */
  function FindByEmail(db: Db, email: Option<string>): (r: Option<User>)
    ensures r.Some? ==> r.value in db.users && Some(r.value.email) == email
    ensures r.None? <==> email.None? || forall u :: u in db.users ==> u.email != email.value
  {
    match email
    case None => None
    case Some(e) => First(db.users, (u: User) => u.email == e)
  }

  /** The body of `POST /auth/register`. */
  datatype RegisterBody = RegisterBody(
    email: string,
    password: Option<string>,
    name: Option<string>,
    role: string,
    faculty: Option<string>,
    program: Option<string>,
    classId: Option<string>)

  /** `AuthController.register`: a taken email is refused; a missing password
      makes the hashing throw; otherwise the user is stored with the hashed
      password, unapproved by the column default, and returned without it. */
  function Register(db: Db, b: RegisterBody, hash: string -> string): (r: Result<(Db, PublicUser)>)
    ensures FindByEmail(db, Some(b.email)).Some? ==> r == Err(BadRequest("User already exists with this email"))
    ensures FindByEmail(db, Some(b.email)).None? && b.password.None? ==>
              r == Err(Internal("Internal server error during registration"))
    ensures r.Ok? <==> FindByEmail(db, Some(b.email)).None? && b.password.Some?
    ensures r.Ok? ==> |r.value.0.users| == |db.users| + 1 && r.value.0.users[..|db.users|] == db.users
    ensures r.Ok? ==> FrameExcept(db, r.value.0, {Users})
    ensures r.Ok? ==> var u := r.value.0.users[|db.users|];
              && u.email == b.email && u.password == hash(b.password.value)
              && RoleName(u.role) == b.role && !u.isApproved
              && u.id == |db.users| + 1 && u.name == b.name
              && u.faculty == b.faculty && u.program == b.program && u.classId == b.classId
              && r.value.1 == WithoutPassword(u)
  {
    if FindByEmail(db, Some(b.email)).Some? then Err(BadRequest("User already exists with this email"))
    else match b.password
      case None => Err(Internal("Internal server error during registration"))
      case Some(p) =>
        var u := User(|db.users| + 1, b.email, hash(p), b.name, ParseRole(b.role), b.faculty, b.program, b.classId, false);
        Ok((db.(users := db.users + [u]), WithoutPassword(u)))
  }

  /** After a registration, the same email cannot register again. */
  lemma RegisterOnce(db: Db, b: RegisterBody, again: RegisterBody, hash: string -> string)
    requires Register(db, b, hash).Ok?
    requires again.email == b.email
    ensures Register(Register(db, b, hash).value.0, again, hash) == Err(BadRequest("User already exists with this email"))
  {
    var db' := Register(db, b, hash).value.0;
    assert db'.users[|db.users|] in db'.users;
  }

  /** The login gate: 400 for an unknown email or a wrong password (the same
      reply for both); 500 when no password is sent (`bcrypt.compare` throws);
      403 for an unapproved student, checked only after the password. */
  function Login(db: Db, email: Option<string>, password: Option<string>, matches: (string, string) -> bool): (r: Result<PublicUser>)
    ensures FindByEmail(db, email).None? ==> r == Err(BadRequest("Invalid email or password"))
    ensures r.Ok? <==>
              && FindByEmail(db, email).Some? && password.Some?
              && matches(password.value, FindByEmail(db, email).value.password)
              && (FindByEmail(db, email).value.role == Student ==> FindByEmail(db, email).value.isApproved)
    ensures r.Ok? ==> r.value == WithoutPassword(FindByEmail(db, email).value)
    ensures r == Err(Forbidden("Your account is pending approval from Program Leader")) ==>
              FindByEmail(db, email).Some? && password.Some?
              && FindByEmail(db, email).value.role == Student && !FindByEmail(db, email).value.isApproved
              && matches(password.value, FindByEmail(db, email).value.password)
  {
    match FindByEmail(db, email)
    case None => Err(BadRequest("Invalid email or password"))
    case Some(u) =>
      match password
      case None => Err(Internal("Internal server error during login"))
      case Some(p) =>
        if !matches(p, u.password) then Err(BadRequest("Invalid email or password"))
        else if u.role == Student && !u.isApproved then Err(Forbidden("Your account is pending approval from Program Leader"))
        else Ok(WithoutPassword(u))
  }

  /** An unknown email and a wrong password cannot be told apart. */
  lemma LoginFailuresIndistinguishable(db: Db, unknown: string, known: string, wrong: string, matches: (string, string) -> bool)
    requires FindByEmail(db, Some(unknown)).None?
    requires FindByEmail(db, Some(known)).Some? && !matches(wrong, FindByEmail(db, Some(known)).value.password)
    ensures Login(db, Some(unknown), Some(wrong), matches) == Login(db, Some(known), Some(wrong), matches)
  {
  }

  /** An unapproved student with a wrong password learns only that the
      password is wrong: the approval check runs after it. */
  lemma ApprovalCheckedAfterPassword(db: Db, email: string, wrong: string, matches: (string, string) -> bool)
    requires FindByEmail(db, Some(email)).Some?
    requires FindByEmail(db, Some(email)).value.role == Student && !FindByEmail(db, Some(email)).value.isApproved
    requires !matches(wrong, FindByEmail(db, Some(email)).value.password)
    ensures Login(db, Some(email), Some(wrong), matches) == Err(BadRequest("Invalid email or password"))
  {
  }

  /** Roles other than student never wait for approval. */
  lemma NonStudentsSkipApproval(db: Db, email: string, password: string, matches: (string, string) -> bool)
    requires FindByEmail(db, Some(email)).Some? && FindByEmail(db, Some(email)).value.role != Student
    requires matches(password, FindByEmail(db, Some(email)).value.password)
    ensures Login(db, Some(email), Some(password), matches).Ok?
  {
  }

  // ---- Password change ----

  /** `PATCH /users/change-password` (and the identical
      `AuthController.changePassword`): both passwords required, the new one
      at least six UTF-16 code units (JavaScript `length`), the actor's row must exist and the current
      password must match; then only the actor's stored password changes. */
  function ChangePassword(db: Db, actor: User, current: Option<string>, newPassword: Option<string>,
                          matches: (string, string) -> bool, hash: string -> string): (r: Result<Db>)
    ensures !Truthy(current) || !Truthy(newPassword) ==>
              r == Err(BadRequest("Current password and new password are required"))
    ensures Truthy(current) && Truthy(newPassword) && Utf16Length(newPassword.value) < 6 ==>
              r == Err(BadRequest("New password must be at least 6 characters long"))
    ensures Truthy(current) && Truthy(newPassword) && Utf16Length(newPassword.value) >= 6 && FindUser(db.users, actor.id).None? ==>
              r == Err(NotFound("User not found"))
    ensures r.Ok? <==>
              && Truthy(current) && Truthy(newPassword) && Utf16Length(newPassword.value) >= 6
              && FindUser(db.users, actor.id).Some?
              && matches(current.value, FindUser(db.users, actor.id).value.password)
    ensures r.Ok? ==> FrameExcept(db, r.value, {Users}) && |r.value.users| == |db.users|
    ensures r.Ok? ==> forall i :: 0 <= i < |db.users| ==>
              r.value.users[i] ==
                if db.users[i].id == actor.id then db.users[i].(password := hash(newPassword.value)) else db.users[i]
  {
    if !Truthy(current) || !Truthy(newPassword) then Err(BadRequest("Current password and new password are required"))
    else if Utf16Length(newPassword.value) < 6 then Err(BadRequest("New password must be at least 6 characters long"))
    else match FindUser(db.users, actor.id)
      case None => Err(NotFound("User not found"))
      case Some(u) =>
        if !matches(current.value, u.password) then Err(BadRequest("Current password is incorrect"))
        else Ok(db.(users := UpdateWhere(db.users, (x: User) => x.id == actor.id,
                                         (x: User) => x.(password := hash(newPassword.value)))))
  }

  /** Three characters outside the Basic Multilingual Plane have `length` 6
      in JavaScript, so the check lets such a three-character password
      through: the rule counts code units, not characters. */
  lemma ThreeAstralCharactersMeetTheMinimum(db: Db, actor: User, current: string,
                                           matches: (string, string) -> bool, hash: string -> string)
    requires current != ""
    requires FindUser(db.users, actor.id).Some? && matches(current, FindUser(db.users, actor.id).value.password)
    ensures |"\U{1F600}\U{1F600}\U{1F600}"| == 3
    ensures ChangePassword(db, actor, Some(current), Some("\U{1F600}\U{1F600}\U{1F600}"), matches, hash).Ok?
  {
  }

  /** A wrong current password is refused with its own message, and the
      stored password stays as it was (no state is returned). */
  lemma WrongCurrentPasswordRefused(db: Db, actor: User, current: string, newPassword: string,
                                    matches: (string, string) -> bool, hash: string -> string)
    requires current != "" && Utf16Length(newPassword) >= 6
    requires FindUser(db.users, actor.id).Some? && !matches(current, FindUser(db.users, actor.id).value.password)
    ensures ChangePassword(db, actor, Some(current), Some(newPassword), matches, hash) == Err(BadRequest("Current password is incorrect"))
  {
  }

  // ---- Profile ----

  /** The body of `PATCH /users/profile/me`. A whitelisted field is `None`
      when absent and `Some(None)` when sent as `null`. The other fields stand
      for whatever else a client may send. */
  datatype ProfileBody = ProfileBody(
    name: Option<Option<string>>,
    program: Option<Option<string>>,
    classId: Option<Option<string>>,
    email: Option<string>,
    role: Option<string>,
    isApproved: Option<bool>,
    password: Option<string>)

  /** What `PATCH /users/profile/me` takes from the body: the three
      whitelisted fields and nothing else. */
  datatype ProfileChange = ProfileChange(
    name: Option<Option<string>>,
    program: Option<Option<string>>,
    classId: Option<Option<string>>)

  function Whitelist(b: ProfileBody): ProfileChange
  {
    ProfileChange(b.name, b.program, b.classId)
  }

  /** The user row with the whitelisted fields applied: each given field is
      written, each absent one kept, and no other column changes. */
  function ApplyProfile(u: User, c: ProfileChange): (v: User)
    ensures v.(name := u.name, program := u.program, classId := u.classId) == u
    ensures v.name == (if c.name.Some? then c.name.value else u.name)
    ensures v.program == (if c.program.Some? then c.program.value else u.program)
    ensures v.classId == (if c.classId.Some? then c.classId.value else u.classId)
  {
    u.(name := Coalesce(c.name, u.name),
       program := Coalesce(c.program, u.program),
       classId := Coalesce(c.classId, u.classId))
  }

  /** `PATCH /users/profile/me`: copies only `name`, `program` and `class_id`
      from the body into the actor's own row; with none of them, 400. */
  function UpdateProfile(db: Db, actor: User, b: ProfileBody): (r: Result<(Db, PublicUser)>)
    ensures b.name.None? && b.program.None? && b.classId.None? ==>
              r == Err(BadRequest("No valid fields to update"))
    ensures (b.name.Some? || b.program.Some? || b.classId.Some?) && FindUser(db.users, actor.id).None? ==>
              r == Err(Internal("Internal server error while updating profile"))
    ensures r.Ok? <==> (b.name.Some? || b.program.Some? || b.classId.Some?) && FindUser(db.users, actor.id).Some?
    ensures r.Ok? ==> FrameExcept(db, r.value.0, {Users}) && |r.value.0.users| == |db.users|
    ensures r.Ok? ==> forall i :: 0 <= i < |db.users| ==>
              r.value.0.users[i] ==
                if db.users[i].id == actor.id then ApplyProfile(db.users[i], Whitelist(b)) else db.users[i]
    ensures r.Ok? ==> r.value.1 == WithoutPassword(ApplyProfile(FindUser(db.users, actor.id).value, Whitelist(b)))
  {
    var c := Whitelist(b);
    if c.name.None? && c.program.None? && c.classId.None? then Err(BadRequest("No valid fields to update"))
    else match FindUser(db.users, actor.id)
      case None => Err(Internal("Internal server error while updating profile"))
      case Some(u) =>
        var users := UpdateWhere(db.users, (x: User) => x.id == actor.id, (x: User) => ApplyProfile(x, c));
        Ok((db.(users := users), WithoutPassword(ApplyProfile(u, c))))
  }

  /** Fields outside the whitelist (a new role, approval, email or password)
      have no effect at all. */
  lemma ProfileIgnoresOtherFields(db: Db, actor: User, b: ProfileBody,
                                  email: Option<string>, role: Option<string>, approved: Option<bool>, password: Option<string>)
    ensures UpdateProfile(db, actor, b.(email := email, role := role, isApproved := approved, password := password))
            == UpdateProfile(db, actor, b)
  {
  }

  // ---- Activity ----

  /** A JavaScript value as compared by `!==`: numbers and strings are never
      strictly equal to each other. */
  datatype JsValue = JsNumber(n: int) | JsString(s: string)

  /** The decimal text of a number, as it appears in a URL path. */
  function DecimalText(n: nat): string
  {
    var digit := "0123456789"[n % 10];
    if n < 10 then [digit] else DecimalText(n / 10) + [digit]
  }

  /** The access rule of `GET /users/:id/activity` as written: the actor's id
      is compared with the path parameter, which is always a string, by
      strict equality. */
  function ActivityAccessAsWritten(actorId: JsValue, actorRole: Role, param: string): (r: Outcome)
    ensures r.Pass? <==> actorId == JsString(param) || IsReviewer(actorRole)
    ensures r.Fail? ==> r == Fail(Forbidden("Access denied"))
  {
    if actorId != JsString(param) && !IsReviewer(actorRole) then Fail(Forbidden("Access denied")) else Pass
  }

  /** With a numeric user id, as a database row carries it, no one outside
      the reviewing roles can see even their own activity. */
  lemma OwnActivityDeniedAsWritten(actor: User)
    requires !IsReviewer(actor.role)
    ensures ActivityAccessAsWritten(JsNumber(actor.id), actor.role, DecimalText(actor.id)) == Fail(Forbidden("Access denied"))
  {
  }

  /** The access rule as its comment states it: the user themself, or a
      reviewing role. */
  function ActivityAccess(actor: User, userId: nat): (r: Outcome)
    ensures r.Pass? <==> actor.id == userId || IsReviewer(actor.role)
    ensures r.Fail? ==> r == Fail(Forbidden("Access denied"))
  {
    if actor.id != userId && !IsReviewer(actor.role) then Fail(Forbidden("Access denied")) else Pass
  }

  /** Under the corrected rule, every user may see their own activity, and
      a non-reviewer still may not see anyone else's. */
  lemma OwnActivityAllowed(actor: User, other: nat)
    ensures ActivityAccess(actor, actor.id) == Pass
    ensures other != actor.id && !IsReviewer(actor.role) ==> ActivityAccess(actor, other).Fail?
  {
  }

  // ---- Approval ----

  /** A row `UPDATE ... WHERE id = ANY($1) AND role = 'student'` touches. */
  predicate Approvable(u: User, ids: seq<nat>)
  {
    u.id in ids && u.role == Student
  }

  /** What bulk approval returns of each approved user. */
  datatype ApprovedUser = ApprovedUser(id: nat, email: string, name: Option<string>, faculty: Option<string>)

  function ApprovedRows(users: seq<User>, ids: seq<nat>): (r: seq<ApprovedUser>)
    ensures |r| == Count(users, (u: User) => Approvable(u, ids))
    ensures forall x :: x in r <==> exists u :: u in users && Approvable(u, ids) && x == ApprovedUser(u.id, u.email, u.name, u.faculty)
  {
    if |users| == 0 then []
    else
      var u := users[|users| - 1];
      assert users == users[..|users| - 1] + [u];
      ApprovedRows(users[..|users| - 1], ids)
        + (if Approvable(u, ids) then [ApprovedUser(u.id, u.email, u.name, u.faculty)] else [])
  }

  /** `POST /users/classreps/bulk-approve`: PL only; the ids must be a
      non-empty array; exactly the listed users whose role is student become
      approved, everyone else is untouched. */
  function BulkApprove(db: Db, actor: User, userIds: Option<seq<nat>>): (r: Result<(Db, seq<ApprovedUser>)>)
    ensures actor.role != Pl ==> r == Err(RoleDenied)
    ensures actor.role == Pl && (userIds.None? || |userIds.value| == 0) ==>
              r == Err(BadRequest("User IDs array is required"))
    ensures r.Ok? <==> actor.role == Pl && userIds.Some? && |userIds.value| > 0
    ensures r.Ok? ==> FrameExcept(db, r.value.0, {Users}) && |r.value.0.users| == |db.users|
    ensures r.Ok? ==> forall i :: 0 <= i < |db.users| ==>
              r.value.0.users[i] ==
                if Approvable(db.users[i], userIds.value) then db.users[i].(isApproved := true) else db.users[i]
    ensures r.Ok? ==> |r.value.1| == Count(db.users, (u: User) => Approvable(u, userIds.value))
    ensures r.Ok? ==> forall x :: x in r.value.1 <==>
              exists u :: u in db.users && Approvable(u, userIds.value) && x == ApprovedUser(u.id, u.email, u.name, u.faculty)
  {
    if actor.role != Pl then Err(RoleDenied)
    else if userIds.None? || |userIds.value| == 0 then Err(BadRequest("User IDs array is required"))
    else
      var ids := userIds.value;
      var users := UpdateWhere(db.users, (u: User) => Approvable(u, ids), (u: User) => u.(isApproved := true));
      Ok((db.(users := users), ApprovedRows(db.users, ids)))
  }

  /** Bulk approval never approves a non-student, even one listed by id. */
  lemma BulkApproveOnlyStudents(db: Db, actor: User, ids: seq<nat>, i: nat)
    requires BulkApprove(db, actor, Some(ids)).Ok?
    requires i < |db.users| && db.users[i].role != Student
    ensures BulkApprove(db, actor, Some(ids)).value.0.users[i] == db.users[i]
  {
  }

  /** `User.updateUser(id, updates)`: `UPDATE users SET <given columns> WHERE
      id = $1 RETURNING *`. Each field is `None` when the key is absent. */
  datatype UserUpdates = UserUpdates(
    email: Option<string>,
    password: Option<string>,
    name: Option<Option<string>>,
    role: Option<string>,
    faculty: Option<Option<string>>,
    program: Option<Option<string>>,
    classId: Option<Option<string>>,
    isApproved: Option<bool>)

  predicate NoUpdates(p: UserUpdates)
  {
    p.email.None? && p.password.None? && p.name.None? && p.role.None?
    && p.faculty.None? && p.program.None? && p.classId.None? && p.isApproved.None?
  }

  function ApplyUpdates(u: User, p: UserUpdates): User
  {
    u.(email := Coalesce(p.email, u.email),
       password := Coalesce(p.password, u.password),
       name := Coalesce(p.name, u.name),
       role := match p.role case Some(t) => ParseRole(t) case None => u.role,
       faculty := Coalesce(p.faculty, u.faculty),
       program := Coalesce(p.program, u.program),
       classId := Coalesce(p.classId, u.classId),
       isApproved := Coalesce(p.isApproved, u.isApproved))
  }

  /** The shared update: an empty SET clause is an SQL error, and a missing
      row leaves nothing to strip the password from; both are caught as 500
      with the handler's message. The reply is the updated row without its
      password. */
  function UpdateUserRow(db: Db, id: nat, p: UserUpdates, failure: string): (r: Result<(Db, PublicUser)>)
    ensures NoUpdates(p) || FindUser(db.users, id).None? <==> r == Err(Internal(failure))
    ensures r.Ok? <==> !NoUpdates(p) && FindUser(db.users, id).Some?
    ensures r.Ok? ==> FrameExcept(db, r.value.0, {Users}) && |r.value.0.users| == |db.users|
    ensures r.Ok? ==> forall i :: 0 <= i < |db.users| ==>
              r.value.0.users[i] == if db.users[i].id == id then ApplyUpdates(db.users[i], p) else db.users[i]
    ensures r.Ok? ==> r.value.1 == WithoutPassword(ApplyUpdates(FindUser(db.users, id).value, p))
  {
    if NoUpdates(p) then Err(Internal(failure))
    else match FindUser(db.users, id)
      case None => Err(Internal(failure))
      case Some(u) =>
        var users := UpdateWhere(db.users, (x: User) => x.id == id, (x: User) => ApplyUpdates(x, p));
        Ok((db.(users := users), WithoutPassword(ApplyUpdates(u, p))))
  }

  /** `PATCH /users/:id` (`UserController.updateUser`): PL or FMG; any column
      named in the body is written. */
  function UpdateUser(db: Db, actor: User, id: nat, p: UserUpdates): (r: Result<(Db, PublicUser)>)
    ensures actor.role != Pl && actor.role != Fmg ==> r == Err(RoleDenied)
    ensures (actor.role == Pl || actor.role == Fmg) && (NoUpdates(p) || FindUser(db.users, id).None?) ==>
              r == Err(Internal("Internal server error while updating user"))
    ensures r.Ok? <==> (actor.role == Pl || actor.role == Fmg) && !NoUpdates(p) && FindUser(db.users, id).Some?
    ensures r.Ok? ==> FrameExcept(db, r.value.0, {Users}) && |r.value.0.users| == |db.users|
    ensures r.Ok? ==> forall i :: 0 <= i < |db.users| ==>
              r.value.0.users[i] == if db.users[i].id == id then ApplyUpdates(db.users[i], p) else db.users[i]
    ensures r.Ok? ==> r.value.1 == WithoutPassword(ApplyUpdates(FindUser(db.users, id).value, p))
  {
    if actor.role != Pl && actor.role != Fmg then Err(RoleDenied)
    else UpdateUserRow(db, id, p, "Internal server error while updating user")
  }

  /** `PATCH /users/:id/approve` (`UserController.approveClassRep`): PL only;
      sets `is_approved` on the row with that id, whatever its role. */
  function ApproveClassRep(db: Db, actor: User, id: nat): (r: Result<(Db, PublicUser)>)
    ensures actor.role != Pl ==> r == Err(RoleDenied)
    ensures actor.role == Pl && FindUser(db.users, id).None? ==>
              r == Err(Internal("Internal server error while approving class rep"))
    ensures r.Ok? <==> actor.role == Pl && FindUser(db.users, id).Some?
    ensures r.Ok? ==> FrameExcept(db, r.value.0, {Users}) && |r.value.0.users| == |db.users|
    ensures r.Ok? ==> forall i :: 0 <= i < |db.users| ==>
              r.value.0.users[i] == if db.users[i].id == id then db.users[i].(isApproved := true) else db.users[i]
    ensures r.Ok? ==> r.value.1.isApproved && r.value.1.id == id
  {
    if actor.role != Pl then Err(RoleDenied)
    else
      var p := UserUpdates(None, None, None, None, None, None, None, Some(true));
      assert forall u: User :: ApplyUpdates(u, p) == u.(isApproved := true);
      UpdateUserRow(db, id, p, "Internal server error while approving class rep")
  }

  /** Approval does not look at the role: a lecturer's row is approved too. */
  lemma ApproveIgnoresRole(db: Db, actor: User, i: nat)
    requires actor.role == Pl && i < |db.users| && db.users[i].role != Student
    ensures ApproveClassRep(db, actor, db.users[i].id).Ok?
    ensures ApproveClassRep(db, actor, db.users[i].id).value.0.users[i].isApproved
  {
  }

  // ---- Lookups ----

  /** `GET /users/:id` (`UserController.getUserById`): 404 for a missing id;
      otherwise the user without the password. */
  function GetUserById(db: Db, id: nat): (r: Result<PublicUser>)
    ensures r.Err? <==> forall u :: u in db.users ==> u.id != id
    ensures r.Err? ==> r == Err(NotFound("User not found"))
    ensures r.Ok? ==> exists u :: u in db.users && u.id == id && r.value == WithoutPassword(u)
  {
    match FindUser(db.users, id)
    case None => Err(NotFound("User not found"))
    case Some(u) => Ok(WithoutPassword(u))
  }

  /** A user as `getUsersByRole` lists them. */
  datatype UserSummary = UserSummary(id: nat, name: Option<string>, email: string, role: Role,
                                     faculty: Option<string>, program: Option<string>, classId: Option<string>)

  function Summarise(u: User): UserSummary
  {
    UserSummary(u.id, u.name, u.email, u.role, u.faculty, u.program, u.classId)
  }

  /** The selection of `getUsersByRole`: that role, and that faculty only
      when a non-empty faculty is given. */
  predicate HasRoleIn(u: User, role: string, faculty: Option<string>)
  {
    RoleName(u.role) == role && (Truthy(faculty) ==> u.faculty == faculty)
  }

  function SummariesOf(users: seq<User>, role: string, faculty: Option<string>): (r: seq<UserSummary>)
    ensures |r| == Count(users, (u: User) => HasRoleIn(u, role, faculty))
    ensures forall x :: x in r <==> exists u :: u in users && HasRoleIn(u, role, faculty) && x == Summarise(u)
  {
    if |users| == 0 then []
    else
      var u := users[|users| - 1];
      assert users == users[..|users| - 1] + [u];
      SummariesOf(users[..|users| - 1], role, faculty) + (if HasRoleIn(u, role, faculty) then [Summarise(u)] else [])
  }

  /** `GET /users/role/:role` (`UserController.getUsersByRole`). */
  function GetUsersByRole(db: Db, role: string, faculty: Option<string>): (r: seq<UserSummary>)
    ensures forall x :: x in r <==> exists u :: u in db.users && HasRoleIn(u, role, faculty) && x == Summarise(u)
    ensures |r| == Count(db.users, (u: User) => HasRoleIn(u, role, faculty))
    ensures !Truthy(faculty) ==> |r| == Count(db.users, (u: User) => RoleName(u.role) == role)
  {
    var r := SummariesOf(db.users, role, faculty);
    if !Truthy(faculty) then
      FilterSame(db.users, (u: User) => HasRoleIn(u, role, faculty), (u: User) => RoleName(u.role) == role);
      r
    else r
  }

  /** Filters by two predicates that agree on every element are equal. */
  lemma {:induction false} FilterSame<T(!new)>(s: seq<T>, p: T -> bool, q: T -> bool)
    requires forall x :: x in s ==> p(x) == q(x)
    ensures Filter(s, p) == Filter(s, q)
  {
    if |s| > 0 {
      FilterSame(s[..|s| - 1], p, q);
    }
  }

  // ---- Notifications ----

  /** `PATCH /users/notifications/:id/read`: marks the notification read only
      when it belongs to the actor; otherwise 404 and nothing changes. */
  function MarkNotificationRead(db: Db, actor: User, id: nat): (r: Result<(Db, Notification)>)
    ensures r.Err? <==> forall n :: n in db.notifications ==> !(n.id == id && n.userId == actor.id)
    ensures r.Err? ==> r == Err(NotFound("Notification not found"))
    ensures r.Ok? ==> FrameExcept(db, r.value.0, {Notifications}) && |r.value.0.notifications| == |db.notifications|
    ensures r.Ok? ==> forall i :: 0 <= i < |db.notifications| ==>
              r.value.0.notifications[i] ==
                if db.notifications[i].id == id && db.notifications[i].userId == actor.id
                then db.notifications[i].(isRead := true) else db.notifications[i]
    ensures r.Ok? ==> r.value.1.id == id && r.value.1.userId == actor.id && r.value.1.isRead
  {
    var mine := (n: Notification) => n.id == id && n.userId == actor.id;
    match First(db.notifications, mine)
    case None => Err(NotFound("Notification not found"))
    case Some(n) =>
      Ok((db.(notifications := UpdateWhere(db.notifications, mine, (x: Notification) => x.(isRead := true))),
          n.(isRead := true)))
  }

  /** Another user's notification can never be marked. */
  lemma CannotMarkOthersNotification(db: Db, actor: User, i: nat)
    requires i < |db.notifications| && db.notifications[i].userId != actor.id
    requires forall j :: 0 <= j < |db.notifications| && db.notifications[j].id == db.notifications[i].id ==>
               db.notifications[j].userId != actor.id
    ensures MarkNotificationRead(db, actor, db.notifications[i].id) == Err(NotFound("Notification not found"))
  {
  }
}
