/** The course and class catalogue: the `/courses` and `/classes` routes,
    with their code-uniqueness checks, the unique lecturer assignment, and
    updates that keep every field the request leaves out. */
module Catalogue {
  import opened Wrappers
  import opened Domain
  import opened Store
  import opened Seqs

  /** Codes are unique among rows whose code is non-empty text. */
  ghost predicate UniqueCodes<T>(rows: seq<T>, code: T -> Option<string>)
  {
    forall i, j :: 0 <= i < |rows| && 0 <= j < |rows| && i != j && Truthy(code(rows[i])) ==>
      code(rows[i]) != code(rows[j])
  }

  /** Some row carries this code (`SELECT * FROM t WHERE code = $1`). */
  predicate CodeTaken<T>(rows: seq<T>, code: T -> Option<string>, c: Option<string>)
  {
    exists i :: 0 <= i < |rows| && SqlEq(code(rows[i]), c)
  }

  /** Inserting a row whose code no row carries keeps codes unique. */
  lemma InsertKeepsCodesUnique<T>(rows: seq<T>, code: T -> Option<string>, x: T)
    requires UniqueCodes(rows, code)
    requires !CodeTaken(rows, code, code(x))
    ensures UniqueCodes(rows + [x], code)
  {
    var rows' := rows + [x];
    forall i, j | 0 <= i < |rows'| && 0 <= j < |rows'| && i != j && Truthy(code(rows'[i]))
      ensures code(rows'[i]) != code(rows'[j])
    {
      if i == |rows| {
        assert !SqlEq(code(rows[j]), code(x));
      } else if j == |rows| {
        assert !SqlEq(code(rows[i]), code(x));
      } else {
        assert rows'[i] == rows[i] && rows'[j] == rows[j];
      }
    }
  }

  // ---- Courses ----

  /** The body of `POST /courses`. */
  datatype CourseBody = CourseBody(
    name: Option<string>,
    code: Option<string>,
    faculty: Option<string>,
    programId: Option<nat>,
    credits: Option<int>,
    description: Option<string>)

  function CourseCode(c: Course): Option<string> { c.code }

  /** `POST /courses`: PL only; an existing code is refused and nothing is
      stored; otherwise the course is inserted, active by the column default. */
  function CreateCourse(db: Db, actor: User, b: CourseBody): (r: Result<(Db, Course)>)
    ensures actor.role != Pl ==> r == Err(RoleDenied)
    ensures actor.role == Pl && CodeTaken(db.courses, CourseCode, b.code) ==>
              r == Err(BadRequest("Course code already exists"))
    ensures r.Ok? <==> actor.role == Pl && !CodeTaken(db.courses, CourseCode, b.code)
    ensures r.Ok? ==> r.value.0.courses == db.courses + [r.value.1]
    ensures r.Ok? ==> FrameExcept(db, r.value.0, {Courses})
    ensures r.Ok? ==> r.value.1.id == |db.courses| + 1 && r.value.1.code == b.code && r.value.1.isActive
    ensures r.Ok? ==> && r.value.1.name == b.name && r.value.1.faculty == b.faculty
                      && r.value.1.programId == b.programId && r.value.1.credits == b.credits
                      && r.value.1.description == b.description
  {
    if actor.role != Pl then Err(RoleDenied)
    else if exists i :: 0 <= i < |db.courses| && SqlEq(db.courses[i].code, b.code) then
      Err(BadRequest("Course code already exists"))
    else
      var row := Course(|db.courses| + 1, b.name, b.code, b.faculty, b.programId, b.credits, b.description, true);
      Ok((db.(courses := db.courses + [row]), row))
  }

  /** Creating a course keeps course codes unique. */
  lemma CreateCourseKeepsCodesUnique(db: Db, actor: User, b: CourseBody)
    requires UniqueCodes(db.courses, CourseCode)
    requires CreateCourse(db, actor, b).Ok?
    ensures UniqueCodes(CreateCourse(db, actor, b).value.0.courses, CourseCode)
  {
    InsertKeepsCodesUnique(db.courses, CourseCode, CreateCourse(db, actor, b).value.1);
  }

  /** `GET /courses/faculty/:faculty`: the courses of that faculty. */
  function CoursesOfFaculty(db: Db, faculty: string): (r: seq<Course>)
    ensures forall c :: c in r <==> c in db.courses && c.faculty == Some(faculty)
    ensures |r| == Count(db.courses, (c: Course) => c.faculty == Some(faculty))
  {
    Filter(db.courses, (c: Course) => c.faculty == Some(faculty))
  }

  /** The body of `PATCH /courses/:id`. */
  datatype CoursePatch = CoursePatch(
    name: Option<string>,
    code: Option<string>,
    credits: Option<int>,
    description: Option<string>,
    isActive: Option<bool>)

  /** The patch names a new code: given, non-empty, and not the current one. */
  predicate ChangesCode(given: Option<string>, current: Option<string>)
  {
    Truthy(given) && Some(given.value) != current
  }

  /** Another row than `id` carries the code (`code = $1 AND id != $2`). */
  predicate CodeTakenByOther<T>(rows: seq<T>, code: T -> Option<string>, id: T -> nat, c: string, self: nat)
  {
    exists i :: 0 <= i < |rows| && code(rows[i]) == Some(c) && id(rows[i]) != self
  }

  function CourseId(c: Course): nat { c.id }

  /** The course with every given field of the patch applied. */
  function PatchCourse(c: Course, p: CoursePatch): Course
  {
    c.(name := if p.name.Some? then p.name else c.name,
       code := if p.code.Some? then p.code else c.code,
       credits := if p.credits.Some? then p.credits else c.credits,
       description := if p.description.Some? then p.description else c.description,
       isActive := Coalesce(p.isActive, c.isActive))
  }

  /** `after` is `before` with each given field of the patch stored and each
      absent one kept; the id, faculty and program never change. */
  predicate CoursePatched(before: Course, after: Course, p: CoursePatch)
  {
    && after.id == before.id
    && after.faculty == before.faculty
    && after.programId == before.programId
    && (p.name.None? ==> after.name == before.name)
    && (p.name.Some? ==> after.name == p.name)
    && (p.code.None? ==> after.code == before.code)
    && (p.code.Some? ==> after.code == p.code)
    && (p.credits.None? ==> after.credits == before.credits)
    && (p.credits.Some? ==> after.credits == p.credits)
    && (p.description.None? ==> after.description == before.description)
    && (p.description.Some? ==> after.description == p.description)
    && (p.isActive.None? ==> after.isActive == before.isActive)
    && (p.isActive.Some? ==> after.isActive == p.isActive.value)
  }

  /** Every course row the patch touches is patched as described. */
  lemma PatchCourseStores(p: CoursePatch)
    ensures forall c :: CoursePatched(c, PatchCourse(c, p), p)
  {
  }

  /** `PATCH /courses/:id`: PL only; 404 for a missing course; a new code
      another course uses is refused; otherwise each given field replaces the
      column and each absent one keeps it. */
  function UpdateCourse(db: Db, actor: User, id: nat, p: CoursePatch): (r: Result<Db>)
    ensures actor.role != Pl ==> r == Err(RoleDenied)
    ensures actor.role == Pl && (forall c :: c in db.courses ==> c.id != id) ==>
              r == Err(NotFound("Course not found"))
    ensures r.Ok? ==> FrameExcept(db, r.value, {Courses}) && |r.value.courses| == |db.courses|
    ensures r.Ok? ==> forall i :: 0 <= i < |db.courses| && db.courses[i].id != id ==>
              r.value.courses[i] == db.courses[i]
    ensures r.Ok? ==> forall i :: 0 <= i < |db.courses| && db.courses[i].id == id ==>
              CoursePatched(db.courses[i], r.value.courses[i], p)
    ensures actor.role == Pl && FindCourse(db, id).Some? ==>
              (r.Err? <==> ChangesCode(p.code, FindCourse(db, id).value.code)
                           && CodeTakenByOther(db.courses, CourseCode, CourseId, p.code.value, id))
    ensures r.Err? && actor.role == Pl && FindCourse(db, id).Some? ==> r == Err(BadRequest("Course code already exists"))
  {
    if actor.role != Pl then Err(RoleDenied)
    else match FindCourse(db, id)
      case None => Err(NotFound("Course not found"))
      case Some(current) =>
        if ChangesCode(p.code, current.code)
           && exists i :: 0 <= i < |db.courses| && db.courses[i].code == Some(p.code.value) && db.courses[i].id != id
        then Err(BadRequest("Course code already exists"))
        else
          PatchCourseStores(p);
          Ok(db.(courses := UpdateWhere(db.courses, (c: Course) => c.id == id, (c: Course) => PatchCourse(c, p))))
  }

  /** `SELECT * FROM courses WHERE id = $1`, first row. */
  function FindCourse(db: Db, id: nat): (r: Option<Course>)
    ensures r.Some? ==> r.value in db.courses && r.value.id == id
    ensures r.None? <==> forall c :: c in db.courses ==> c.id != id
  {
    First(db.courses, (c: Course) => c.id == id)
  }

  /** An update keeps non-empty course codes unique, given SERIAL ids. An empty
      code is falsy, so it skips the clash check and is not covered. */
  lemma UpdateCourseKeepsCodesUnique(db: Db, actor: User, id: nat, p: CoursePatch)
    requires Serial(db.courses, (c: Course) => c.id)
    requires UniqueCodes(db.courses, CourseCode)
    requires UpdateCourse(db, actor, id, p).Ok?
    ensures UniqueCodes(UpdateCourse(db, actor, id, p).value.courses, CourseCode)
  {
    var rows := db.courses;
    var rows' := UpdateCourse(db, actor, id, p).value.courses;
    forall i, j | 0 <= i < |rows'| && 0 <= j < |rows'| && i != j && Truthy(CourseCode(rows'[i]))
      ensures CourseCode(rows'[i]) != CourseCode(rows'[j])
    {
      if rows[i].id == id || rows[j].id == id {
        var k := if rows[i].id == id then i else j;
        var o := if rows[i].id == id then j else i;
        assert rows[o].id != id;
        assert FindCourse(db, id) == Some(rows[k]) by {
          var f := FindCourse(db, id).value;
          var m :| 0 <= m < |rows| && rows[m] == f;
          SerialUnique(rows, (c: Course) => c.id, k, m);
        }
        if p.code.Some? && rows'[k].code != rows[k].code {
          assert rows'[o] == rows[o];
        }
      }
    }
  }

  // ---- Assignments ----

  /** The body of `POST /courses/assign`. */
  datatype AssignBody = AssignBody(
    lecturerId: Option<nat>,
    courseId: Option<nat>,
    classId: Option<nat>,
    academicYear: Option<string>,
    semester: Option<string>)

  /** The term the assignment is for: the given year and semester, or
      `'2024'` and `'1'` when absent or empty. */
  function Term(b: AssignBody): (t: (string, string))
    ensures Truthy(b.academicYear) ==> t.0 == b.academicYear.value
    ensures !Truthy(b.academicYear) ==> t.0 == "2024"
    ensures Truthy(b.semester) ==> t.1 == b.semester.value
    ensures !Truthy(b.semester) ==> t.1 == "1"
  {
    (OrElse(b.academicYear, "2024"), OrElse(b.semester, "1"))
  }

  /** The stored assignment matches the five-column duplicate query. */
  predicate SameAssignment(a: Assignment, b: AssignBody)
  {
    && SqlEq(a.lecturerId, b.lecturerId)
    && SqlEq(a.courseId, b.courseId)
    && SqlEq(a.classId, b.classId)
    && a.academicYear == Term(b).0
    && a.semester == Term(b).1
  }

  /** Some stored assignment matches the request. */
  predicate AlreadyAssigned(db: Db, b: AssignBody)
  {
    exists i :: 0 <= i < |db.assignments| && SameAssignment(db.assignments[i], b)
  }

  /** `POST /courses/assign`: PL only; the same lecturer, course, class and
      term (defaults applied) twice is refused; otherwise the assignment is
      stored with the actor as `assigned_by`. */
  function AssignCourse(db: Db, actor: User, b: AssignBody): (r: Result<(Db, Assignment)>)
    ensures actor.role != Pl ==> r == Err(RoleDenied)
    ensures actor.role == Pl && AlreadyAssigned(db, b) ==>
              r == Err(BadRequest("Course is already assigned to this lecturer for this class and semester"))
    ensures r.Ok? <==> actor.role == Pl && !AlreadyAssigned(db, b)
    ensures r.Ok? ==> r.value.0.assignments == db.assignments + [r.value.1]
    ensures r.Ok? ==> FrameExcept(db, r.value.0, {Assignments})
    ensures r.Ok? ==> r.value.1.assignedBy == actor.id
    ensures r.Ok? ==> r.value.1.lecturerId == b.lecturerId && r.value.1.courseId == b.courseId
                      && r.value.1.classId == b.classId
    ensures r.Ok? ==> (r.value.1.academicYear, r.value.1.semester) == Term(b)
  {
    if actor.role != Pl then Err(RoleDenied)
    else if AlreadyAssigned(db, b) then
      Err(BadRequest("Course is already assigned to this lecturer for this class and semester"))
    else
      var (year, semester) := Term(b);
      var row := Assignment(|db.assignments| + 1, b.lecturerId, b.courseId, b.classId, actor.id, year, semester);
      Ok((db.(assignments := db.assignments + [row]), row))
  }

  /** The default term is the same in the duplicate check and in the insert:
      a stored assignment made with defaults blocks the same request again,
      and also the request that spells the defaults out. */
  lemma AssignDefaultsAgree(db: Db, actor: User, b: AssignBody)
    requires AssignCourse(db, actor, b).Ok?
    requires b.lecturerId.Some? && b.courseId.Some? && b.classId.Some?
    requires b.academicYear.None? && b.semester.None?
    ensures var db' := AssignCourse(db, actor, b).value.0;
            AssignCourse(db', actor, b).Err? &&
            AssignCourse(db', actor, b.(academicYear := Some("2024"), semester := Some("1"))).Err?
  {
    var a := AssignCourse(db, actor, b).value.1;
    var db' := AssignCourse(db, actor, b).value.0;
    assert db'.assignments[|db.assignments|] == a;
    assert SameAssignment(a, b);
    assert SameAssignment(a, b.(academicYear := Some("2024"), semester := Some("1")));
  }

  // ---- Classes ----

  /** The body of `POST /classes`. */
  datatype ClassBody = ClassBody(
    name: Option<string>,
    code: Option<string>,
    faculty: Option<string>,
    programId: Option<nat>,
    totalStudents: Option<int>,
    academicYear: Option<string>,
    semester: Option<string>)

  function ClassCode(c: Class): Option<string> { c.code }

  /** `POST /classes`: PL only; an existing code is refused; otherwise the
      class is stored, with year and semester defaulting to `'2024'` and `'1'`. */
  function CreateClass(db: Db, actor: User, b: ClassBody): (r: Result<(Db, Class)>)
    ensures actor.role != Pl ==> r == Err(RoleDenied)
    ensures actor.role == Pl && CodeTaken(db.classes, ClassCode, b.code) ==>
              r == Err(BadRequest("Class code already exists"))
    ensures r.Ok? <==> actor.role == Pl && !CodeTaken(db.classes, ClassCode, b.code)
    ensures r.Ok? ==> r.value.0.classes == db.classes + [r.value.1]
    ensures r.Ok? ==> FrameExcept(db, r.value.0, {Classes})
    ensures r.Ok? ==> r.value.1.id == |db.classes| + 1 && r.value.1.code == b.code && r.value.1.isActive
    ensures r.Ok? ==> && r.value.1.name == b.name && r.value.1.faculty == b.faculty
                      && r.value.1.programId == b.programId && r.value.1.totalStudents == b.totalStudents
    ensures r.Ok? ==> r.value.1.academicYear == (if Truthy(b.academicYear) then b.academicYear.value else "2024")
    ensures r.Ok? ==> r.value.1.semester == (if Truthy(b.semester) then b.semester.value else "1")
  {
    if actor.role != Pl then Err(RoleDenied)
    else if exists i :: 0 <= i < |db.classes| && SqlEq(db.classes[i].code, b.code) then
      Err(BadRequest("Class code already exists"))
    else
      var row := Class(|db.classes| + 1, b.name, b.code, b.faculty, b.programId, b.totalStudents,
                       OrElse(b.academicYear, "2024"), OrElse(b.semester, "1"), true);
      Ok((db.(classes := db.classes + [row]), row))
  }

  /** Creating a class keeps class codes unique. */
  lemma CreateClassKeepsCodesUnique(db: Db, actor: User, b: ClassBody)
    requires UniqueCodes(db.classes, ClassCode)
    requires CreateClass(db, actor, b).Ok?
    ensures UniqueCodes(CreateClass(db, actor, b).value.0.classes, ClassCode)
  {
    InsertKeepsCodesUnique(db.classes, ClassCode, CreateClass(db, actor, b).value.1);
  }

  /** The body of `PATCH /classes/:id`: the six columns it may change. */
  datatype ClassPatch = ClassPatch(
    name: Option<string>,
    code: Option<string>,
    totalStudents: Option<int>,
    academicYear: Option<string>,
    semester: Option<string>,
    isActive: Option<bool>)

  function PatchClass(c: Class, p: ClassPatch): Class
  {
    c.(name := if p.name.Some? then p.name else c.name,
       code := if p.code.Some? then p.code else c.code,
       totalStudents := if p.totalStudents.Some? then p.totalStudents else c.totalStudents,
       academicYear := Coalesce(p.academicYear, c.academicYear),
       semester := Coalesce(p.semester, c.semester),
       isActive := Coalesce(p.isActive, c.isActive))
  }

  function FindClass(db: Db, id: nat): (r: Option<Class>)
    ensures r.Some? ==> r.value in db.classes && r.value.id == id
    ensures r.None? <==> forall c :: c in db.classes ==> c.id != id
  {
    First(db.classes, (c: Class) => c.id == id)
  }

  function ClassId(c: Class): nat { c.id }

  /** `after` is `before` with each of the six given columns stored and each
      absent one kept; every other column is unchanged. */
  predicate ClassPatched(before: Class, after: Class, p: ClassPatch)
  {
    && after.(name := before.name, code := before.code, totalStudents := before.totalStudents,
              academicYear := before.academicYear, semester := before.semester,
              isActive := before.isActive) == before
    && (p.name.None? ==> after.name == before.name)
    && (p.name.Some? ==> after.name == p.name)
    && (p.code.None? ==> after.code == before.code)
    && (p.code.Some? ==> after.code == p.code)
    && (p.totalStudents.None? ==> after.totalStudents == before.totalStudents)
    && (p.totalStudents.Some? ==> after.totalStudents == p.totalStudents)
    && (p.academicYear.None? ==> after.academicYear == before.academicYear)
    && (p.academicYear.Some? ==> after.academicYear == p.academicYear.value)
    && (p.semester.None? ==> after.semester == before.semester)
    && (p.semester.Some? ==> after.semester == p.semester.value)
    && (p.isActive.None? ==> after.isActive == before.isActive)
    && (p.isActive.Some? ==> after.isActive == p.isActive.value)
  }

  /** Every class row the patch touches is patched as described. */
  lemma PatchClassStores(p: ClassPatch)
    ensures forall c :: ClassPatched(c, PatchClass(c, p), p)
  {
  }

  /** `PATCH /classes/:id`: PL only; 404 for a missing class; a new code
      another class uses is refused; otherwise each of the six columns takes
      the given value or keeps its own. */
  function UpdateClass(db: Db, actor: User, id: nat, p: ClassPatch): (r: Result<Db>)
    ensures actor.role != Pl ==> r == Err(RoleDenied)
    ensures actor.role == Pl && FindClass(db, id).None? ==> r == Err(NotFound("Class not found"))
    ensures actor.role == Pl && FindClass(db, id).Some? ==>
              (r.Err? <==> ChangesCode(p.code, FindClass(db, id).value.code)
                           && CodeTakenByOther(db.classes, ClassCode, ClassId, p.code.value, id))
    ensures r.Err? && actor.role == Pl && FindClass(db, id).Some? ==> r == Err(BadRequest("Class code already exists"))
    ensures r.Ok? ==> FrameExcept(db, r.value, {Classes}) && |r.value.classes| == |db.classes|
    ensures r.Ok? ==> forall i :: 0 <= i < |db.classes| && db.classes[i].id != id ==>
              r.value.classes[i] == db.classes[i]
    ensures r.Ok? ==> forall i :: 0 <= i < |db.classes| && db.classes[i].id == id ==>
              ClassPatched(db.classes[i], r.value.classes[i], p)
  {
    if actor.role != Pl then Err(RoleDenied)
    else match FindClass(db, id)
      case None => Err(NotFound("Class not found"))
      case Some(current) =>
        if ChangesCode(p.code, current.code)
           && exists i :: 0 <= i < |db.classes| && db.classes[i].code == Some(p.code.value) && db.classes[i].id != id
        then Err(BadRequest("Class code already exists"))
        else
          PatchClassStores(p);
          Ok(db.(classes := UpdateWhere(db.classes, (c: Class) => c.id == id, (c: Class) => PatchClass(c, p))))
  }

  /** An update keeps non-empty class codes unique, given SERIAL ids. */
  lemma UpdateClassKeepsCodesUnique(db: Db, actor: User, id: nat, p: ClassPatch)
    requires Serial(db.classes, (c: Class) => c.id)
    requires UniqueCodes(db.classes, ClassCode)
    requires UpdateClass(db, actor, id, p).Ok?
    ensures UniqueCodes(UpdateClass(db, actor, id, p).value.classes, ClassCode)
  {
    var rows := db.classes;
    var rows' := UpdateClass(db, actor, id, p).value.classes;
    forall i, j | 0 <= i < |rows'| && 0 <= j < |rows'| && i != j && Truthy(ClassCode(rows'[i]))
      ensures ClassCode(rows'[i]) != ClassCode(rows'[j])
    {
      if rows[i].id == id || rows[j].id == id {
        var k := if rows[i].id == id then i else j;
        var o := if rows[i].id == id then j else i;
        assert rows[o].id != id;
        assert FindClass(db, id) == Some(rows[k]) by {
          var f := FindClass(db, id).value;
          var m :| 0 <= m < |rows| && rows[m] == f;
          SerialUnique(rows, (c: Class) => c.id, k, m);
        }
        if p.code.Some? && rows'[k].code != rows[k].code {
          assert rows'[o] == rows[o];
        }
      }
    }
  }

  /** An empty patch changes nothing. */
  lemma EmptyClassPatchIsIdentity(db: Db, actor: User, id: nat)
    requires actor.role == Pl && FindClass(db, id).Some?
    ensures UpdateClass(db, actor, id, ClassPatch(None, None, None, None, None, None)) == Ok(db)
  {
    assert UpdateClass(db, actor, id, ClassPatch(None, None, None, None, None, None)).value.classes == db.classes;
  }

  /** A student as `GET /classes/:id/students` lists them: no password. */
  datatype ClassStudent = ClassStudent(id: nat, name: Option<string>, email: string, program: Option<string>, classId: Option<string>)

  /** The user is a student enrolled under that class code. */
  predicate InClass(u: User, code: Option<string>)
  {
    u.role == Student && SqlEq(u.classId, code)
  }

  function Summary(u: User): ClassStudent
  {
    ClassStudent(u.id, u.name, u.email, u.program, u.classId)
  }

  /** The listed students of `users` under that class code, in table order. */
  function StudentsIn(users: seq<User>, code: Option<string>): (r: seq<ClassStudent>)
    ensures |r| == Count(users, (u: User) => InClass(u, code))
    ensures forall u :: u in users && InClass(u, code) ==> Summary(u) in r
    ensures forall x :: x in r ==> exists u :: u in users && InClass(u, code) && Summary(u) == x
  {
    if |users| == 0 then []
    else
      var u := users[|users| - 1];
      assert users == users[..|users| - 1] + [u];
      StudentsIn(users[..|users| - 1], code) + (if InClass(u, code) then [Summary(u)] else [])
  }

  /** `GET /classes/:id/students`: the students whose `class_id` is that
      class's code, without their passwords; nobody for a missing class or a
      class without a code. */
  function StudentsOfClass(db: Db, id: nat): (r: seq<ClassStudent>)
    ensures FindClass(db, id).None? ==> r == []
    ensures FindClass(db, id).Some? ==>
              |r| == Count(db.users, (u: User) => InClass(u, FindClass(db, id).value.code))
    ensures FindClass(db, id).Some? ==> forall u :: u in db.users && InClass(u, FindClass(db, id).value.code) ==>
              Summary(u) in r
    ensures forall x :: x in r ==> exists u :: u in db.users && u.role == Student && Summary(u) == x
  {
    match FindClass(db, id)
    case None => []
    case Some(c) => StudentsIn(db.users, c.code)
  }
}
