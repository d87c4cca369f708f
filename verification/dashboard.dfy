/** The client-side dashboard aggregations: staff and system statistics and
    the quick actions of `Dashboard`, the per-faculty buckets of
    `FMGDashboard`, and the counts of `MonitoringView`. They run over the JSON
    lists the API returns; a JSON object used as a dictionary is a `Dict`. */
module Dashboard {
  import opened Wrappers
  import opened Domain
  import opened Store
  import opened Seqs
  import opened Dict

  // ---- Numbers read from JSON ----

  /** A count field of a statistics row, as `parseInt` sees it: falsy
      (`undefined`, `null`, `""`), text that parses to a number, or text
      that does not (`NaN`). */
  datatype JsCount = Falsy | Numeric(n: int) | NotNumeric

  /** `parseInt(x) || 0`: every unparseable count becomes 0. */
  function OrZero(c: JsCount): int
  {
    if c.Numeric? then c.n else 0
  }

  /** `parseInt(x || 0)`: a falsy count becomes 0, but unparseable text stays
      `NaN`, written `None`. */
  function ParseOrNaN(c: JsCount): (r: Option<int>)
    ensures r.None? <==> c.NotNumeric?
  {
    match c
    case Falsy => Some(0)
    case Numeric(n) => Some(n)
    case NotNumeric => None
  }

  /** The property name a value becomes when used as an object key: a JSON
      `null` becomes `"null"`. */
  function FacultyKey(faculty: Option<string>): string
  {
    match faculty
    case Some(f) => f
    case None => "null"
  }

  // ---- Staff statistics ----

  /** A row of the faculty statistics the dashboard receives. */
  datatype FacultyRow = FacultyRow(
    faculty: Option<string>,
    lecturers: JsCount,
    prls: JsCount,
    pls: JsCount,
    fmg: JsCount)

  /** One entry of `staff_by_faculty`. */
  datatype FacultyStaff = FacultyStaff(lecturers: int, prls: int, pls: int, fmg: int, totalStaff: int)

  datatype StaffStats = StaffStats(
    totalStaff: int,
    totalLecturers: int,
    totalPrls: int,
    totalPls: int,
    totalFmg: int,
    staffByFaculty: Dict<FacultyStaff>)

  /** The entry one row produces: its four counts and their total. */
  function RowStaff(row: FacultyRow): (s: FacultyStaff)
    ensures s.totalStaff == s.lecturers + s.prls + s.pls + s.fmg
  {
    var l, p, q, f := OrZero(row.lecturers), OrZero(row.prls), OrZero(row.pls), OrZero(row.fmg);
    FacultyStaff(l, p, q, f, l + p + q + f)
  }

  /** The sum of an integer field over all rows. */
  function SumOf(rows: seq<FacultyRow>, f: FacultyRow -> int): int
  {
    if |rows| == 0 then 0 else SumOf(rows[..|rows| - 1], f) + f(rows[|rows| - 1])
  }

  /** The entry of the last row with that faculty key: later rows overwrite
      earlier ones. */
  function LastEntry(rows: seq<FacultyRow>, key: string): (r: Option<FacultyStaff>)
    ensures r.None? <==> forall i :: 0 <= i < |rows| ==> FacultyKey(rows[i].faculty) != key
  {
    if |rows| == 0 then None
    else if FacultyKey(rows[|rows| - 1].faculty) == key then Some(RowStaff(rows[|rows| - 1]))
    else LastEntry(rows[..|rows| - 1], key)
  }

  /** The faculty keys that occur in the rows. */
  function FacultyKeys(rows: seq<FacultyRow>): set<string>
  {
    set i | 0 <= i < |rows| :: FacultyKey(rows[i].faculty)
  }

  /** `calculateStaffStats`: zeros for non-array input; otherwise every row
      adds to the totals, while `staff_by_faculty` keeps one entry per
      faculty, from the last row naming it. */
  method CalculateStaffStats(input: Option<seq<FacultyRow>>) returns (r: StaffStats)
    ensures input.None? ==> r == StaffStats(0, 0, 0, 0, 0, [])
    ensures r.totalStaff == r.totalLecturers + r.totalPrls + r.totalPls + r.totalFmg
    ensures input.Some? ==>
              && r.totalLecturers == SumOf(input.value, (x: FacultyRow) => OrZero(x.lecturers))
              && r.totalPrls == SumOf(input.value, (x: FacultyRow) => OrZero(x.prls))
              && r.totalPls == SumOf(input.value, (x: FacultyRow) => OrZero(x.pls))
              && r.totalFmg == SumOf(input.value, (x: FacultyRow) => OrZero(x.fmg))
    ensures input.Some? ==> Keys(r.staffByFaculty) == FacultyKeys(input.value)
    ensures input.Some? ==> forall k :: Get(r.staffByFaculty, k) == LastEntry(input.value, k)
    ensures DistinctKeys(r.staffByFaculty)
  {
    if input.None? {
      return StaffStats(0, 0, 0, 0, 0, []);
    }
    var rows := input.value;
    var byFaculty: Dict<FacultyStaff> := [];
    var l, p, q, f := 0, 0, 0, 0;
    var i := 0;
    while i < |rows|
      invariant 0 <= i <= |rows|
      invariant l == SumOf(rows[..i], (x: FacultyRow) => OrZero(x.lecturers))
      invariant p == SumOf(rows[..i], (x: FacultyRow) => OrZero(x.prls))
      invariant q == SumOf(rows[..i], (x: FacultyRow) => OrZero(x.pls))
      invariant f == SumOf(rows[..i], (x: FacultyRow) => OrZero(x.fmg))
      invariant Keys(byFaculty) == FacultyKeys(rows[..i])
      invariant forall k :: Get(byFaculty, k) == LastEntry(rows[..i], k)
      invariant DistinctKeys(byFaculty)
    {
      var row := rows[i];
      assert rows[..i + 1][..i] == rows[..i];
      assert FacultyKeys(rows[..i + 1]) == FacultyKeys(rows[..i]) + {FacultyKey(row.faculty)} by {
        assert forall j :: 0 <= j < i + 1 ==> rows[..i + 1][j] == rows[j];
      }
      byFaculty := Put(byFaculty, FacultyKey(row.faculty), RowStaff(row));
      l, p, q, f := l + OrZero(row.lecturers), p + OrZero(row.prls), q + OrZero(row.pls), f + OrZero(row.fmg);
      i := i + 1;
    }
    assert rows[..i] == rows;
    r := StaffStats(l + p + q + f, l, p, q, f, byFaculty);
  }

  /** The overall `total_staff` is also the sum of every row's own
      `total_staff`, repeated faculties included. */
  lemma {:induction false} TotalStaffSumsRows(rows: seq<FacultyRow>)
    ensures SumOf(rows, (x: FacultyRow) => RowStaff(x).totalStaff)
            == SumOf(rows, (x: FacultyRow) => OrZero(x.lecturers)) + SumOf(rows, (x: FacultyRow) => OrZero(x.prls))
               + SumOf(rows, (x: FacultyRow) => OrZero(x.pls)) + SumOf(rows, (x: FacultyRow) => OrZero(x.fmg))
  {
    if |rows| > 0 {
      TotalStaffSumsRows(rows[..|rows| - 1]);
    }
  }

  /** With two rows for one faculty, the totals count both while the
      faculty entry shows only the second. */
  lemma RepeatedFacultyLastRowWins(a: FacultyRow, b: FacultyRow, g: FacultyRow -> int)
    requires a.faculty == b.faculty
    ensures LastEntry([a, b], FacultyKey(a.faculty)) == Some(RowStaff(b))
    ensures SumOf([a, b], g) == g(a) + g(b)
  {
    assert [a, b][..1] == [a];
    assert [a][..0] == [];
    assert SumOf([a], g) == g(a);
  }

  // ---- System statistics ----

  /** The role counts of the user statistics. */
  datatype UserStats = UserStats(
    totalStudents: JsCount,
    totalLecturers: JsCount,
    totalPrls: JsCount,
    totalPls: JsCount,
    totalFmg: JsCount)

  /** The integer parts of `calculateSystemStats`; `totalStaff` is `None`
      when it is `NaN`. The average attendance, a float, is not modelled. */
  datatype SystemStats = SystemStats(
    totalFaculties: nat,
    totalStudents: int,
    totalStaff: Option<int>,
    totalCourses: int,
    totalClasses: int,
    totalReports: int)

  /** `calculateSystemStats`: the row count (0 for non-array input), and the
      counts read with `|| 0`; the staff total reads each role with
      `parseInt(x || 0)`, so a single unparseable role count makes it `NaN`. */
  function CalculateSystemStats(facultyStats: Option<seq<FacultyRow>>, users: UserStats,
                                courses: JsCount, classes: JsCount, reports: JsCount): (r: SystemStats)
    ensures r.totalFaculties == if facultyStats.Some? then |facultyStats.value| else 0
    ensures r.totalStaff.None? <==>
              users.totalLecturers.NotNumeric? || users.totalPrls.NotNumeric?
              || users.totalPls.NotNumeric? || users.totalFmg.NotNumeric?
    ensures r.totalStaff.Some? ==>
              r.totalStaff.value == OrZero(users.totalLecturers) + OrZero(users.totalPrls)
                                    + OrZero(users.totalPls) + OrZero(users.totalFmg)
    ensures r.totalStudents == OrZero(users.totalStudents) && r.totalCourses == OrZero(courses)
    ensures r.totalClasses == OrZero(classes) && r.totalReports == OrZero(reports)
  {
    var staff :=
      match (ParseOrNaN(users.totalLecturers), ParseOrNaN(users.totalPrls), ParseOrNaN(users.totalPls), ParseOrNaN(users.totalFmg))
      case (Some(a), Some(b), Some(c), Some(d)) => Some(a + b + c + d)
      case _ => None;
    SystemStats(if facultyStats.Some? then |facultyStats.value| else 0,
                OrZero(users.totalStudents), staff, OrZero(courses), OrZero(classes), OrZero(reports))
  }

  // ---- Quick actions ----

  datatype QuickAction = FileComplaint | DownloadMyData | RefreshStats

  /** `getQuickActions`: the two base actions, with "File a Complaint" put
      in front for every user who is not FMG (including no user at all). */
  function QuickActions(role: Option<Role>): (r: seq<QuickAction>)
    ensures FileComplaint in r <==> role != Some(Fmg)
    ensures |r| == if role != Some(Fmg) then 3 else 2
    ensures r[|r| - 2..] == [DownloadMyData, RefreshStats]
    ensures FileComplaint in r ==> r[0] == FileComplaint
  {
    var base := [DownloadMyData, RefreshStats];
    if role != Some(Fmg) then [FileComplaint] + base else base
  }

  // ---- FMG faculty buckets ----

  /** The three faculties the FMG dashboard knows. */
  datatype Faculty = FICT | FBMG | FABE

  /** `stats[name]` is a bucket exactly for the three faculty names. */
  function BucketKey(name: string): (r: Option<Faculty>)
    ensures r == Some(FICT) <==> name == "FICT"
    ensures r == Some(FBMG) <==> name == "FBMG"
    ensures r == Some(FABE) <==> name == "FABE"
  {
    if name == "FICT" then Some(FICT)
    else if name == "FBMG" then Some(FBMG)
    else if name == "FABE" then Some(FABE)
    else None
  }

  /** The counters of one faculty card. */
  datatype Bucket = Bucket(reports: nat, lecturers: nat, students: nat)

  /** The `stats` object: one bucket per known faculty and no other. */
  datatype Buckets = Buckets(fict: Bucket, fbmg: Bucket, fabe: Bucket)

  function At(b: Buckets, f: Faculty): Bucket
  {
    match f
    case FICT => b.fict
    case FBMG => b.fbmg
    case FABE => b.fabe
  }

  /** The buckets with the one of faculty `f` replaced and the others kept. */
  function With(b: Buckets, f: Faculty, v: Bucket): (r: Buckets)
    ensures At(r, f) == v
    ensures forall g :: g != f ==> At(r, g) == At(b, g)
  {
    match f
    case FICT => b.(fict := v)
    case FBMG => b.(fbmg := v)
    case FABE => b.(fabe := v)
  }

  /** The faculty bucket a report counts towards, if any. */
  function ReportBucket(x: Report): Option<Faculty>
  {
    BucketKey(FacultyKey(x.content.facultyName))
  }

  /** The faculty bucket a user counts towards: a lecturer or student of a
      known faculty. */
  predicate CountsAs(u: PublicUser, f: Faculty, role: Role)
  {
    u.faculty.Some? && BucketKey(u.faculty.value) == Some(f) && u.role == role
  }

  function ReportsIn(reports: seq<Report>, f: Faculty): nat
  {
    Count(reports, (x: Report) => ReportBucket(x) == Some(f))
  }

  function UsersIn(users: seq<PublicUser>, f: Faculty, role: Role): nat
  {
    Count(users, (u: PublicUser) => CountsAs(u, f, role))
  }

  lemma ReportsInAppend(front: seq<Report>, x: Report, f: Faculty)
    ensures ReportsIn(front + [x], f) == ReportsIn(front, f) + (if ReportBucket(x) == Some(f) then 1 else 0)
  {
    FilterAppend(front, x, (y: Report) => ReportBucket(y) == Some(f));
  }

  lemma UsersInAppend(front: seq<PublicUser>, u: PublicUser, f: Faculty, role: Role)
    ensures UsersIn(front + [u], f, role) == UsersIn(front, f, role) + (if CountsAs(u, f, role) then 1 else 0)
  {
    FilterAppend(front, u, (v: PublicUser) => CountsAs(v, f, role));
  }

  /** The report counting loop: a report whose faculty names a bucket adds
      one to that bucket; any other report is skipped. */
  function CountReports(b: Buckets, reports: seq<Report>): (r: Buckets)
    ensures forall f :: At(r, f) == At(b, f).(reports := At(b, f).reports + ReportsIn(reports, f))
  {
    if |reports| == 0 then b
    else
      var x := reports[|reports| - 1];
      var front := reports[..|reports| - 1];
      assert reports == front + [x];
      forall f
        ensures ReportsIn(reports, f) == ReportsIn(front, f) + (if ReportBucket(x) == Some(f) then 1 else 0)
      {
        ReportsInAppend(front, x, f);
      }
      var b1 := CountReports(b, front);
      match ReportBucket(x)
      case Some(f) => With(b1, f, At(b1, f).(reports := At(b1, f).reports + 1))
      case None => b1
  }

  /** The user counting loop: a lecturer or student whose faculty names a
      bucket adds one to that bucket's lecturer or student count; other
      users and other roles are skipped. */
  function CountUsers(b: Buckets, users: seq<PublicUser>): (r: Buckets)
    ensures forall f :: At(r, f) == At(b, f).(lecturers := At(b, f).lecturers + UsersIn(users, f, Lecturer),
                                              students := At(b, f).students + UsersIn(users, f, Student))
  {
    if |users| == 0 then b
    else
      var u := users[|users| - 1];
      var front := users[..|users| - 1];
      assert users == front + [u];
      forall f
        ensures UsersIn(users, f, Lecturer) == UsersIn(front, f, Lecturer) + (if CountsAs(u, f, Lecturer) then 1 else 0)
        ensures UsersIn(users, f, Student) == UsersIn(front, f, Student) + (if CountsAs(u, f, Student) then 1 else 0)
      {
        UsersInAppend(front, u, f, Lecturer);
        UsersInAppend(front, u, f, Student);
      }
      AddUser(CountUsers(b, front), u)
  }

  /** One step of the user loop. */
  function AddUser(b: Buckets, u: PublicUser): (r: Buckets)
    ensures forall f :: At(r, f) == At(b, f).(lecturers := At(b, f).lecturers + (if CountsAs(u, f, Lecturer) then 1 else 0),
                                              students := At(b, f).students + (if CountsAs(u, f, Student) then 1 else 0))
  {
    if u.faculty.None? then b
    else match BucketKey(u.faculty.value)
      case None => b
      case Some(f) =>
        if u.role == Lecturer then With(b, f, At(b, f).(lecturers := At(b, f).lecturers + 1))
        else if u.role == Student then With(b, f, At(b, f).(students := At(b, f).students + 1))
        else b
  }

  /** `fetchFacultyStats`: each of the three buckets counts the reports of
      its faculty and the lecturers and students of its faculty; users of
      the other roles change nothing. */
  function FacultyBuckets(reports: seq<Report>, users: seq<PublicUser>): (r: Buckets)
    ensures forall f :: At(r, f) == Bucket(ReportsIn(reports, f), UsersIn(users, f, Lecturer), UsersIn(users, f, Student))
  {
    var zero := Bucket(0, 0, 0);
    CountUsers(CountReports(Buckets(zero, zero, zero), reports), users)
  }

  /** Reports of any other faculty never reach a bucket: the three report
      counts add up to the number of reports of the three faculties. */
  lemma {:induction false} BucketReportsTotal(reports: seq<Report>)
    ensures ReportsIn(reports, FICT) + ReportsIn(reports, FBMG) + ReportsIn(reports, FABE)
            == Count(reports, (x: Report) => ReportBucket(x).Some?)
  {
    if |reports| > 0 {
      var x := reports[|reports| - 1];
      var front := reports[..|reports| - 1];
      assert reports == front + [x];
      BucketReportsTotal(front);
      ReportsInAppend(front, x, FICT);
      ReportsInAppend(front, x, FBMG);
      ReportsInAppend(front, x, FABE);
      FilterAppend(front, x, (y: Report) => ReportBucket(y).Some?);
    }
  }

  // ---- Monitoring ----

  datatype MonitoringStats = MonitoringStats(
    totalReports: nat,
    pendingReports: nat,
    approvedReports: nat,
    facultyReports: Dict<nat>,
    totalUsers: nat)

  /** The JSON status of a report equals the given status name. */
  predicate HasStatus(x: Report, s: ReportStatus)
  {
    StatusName(x.status) == StatusName(s)
  }

  /** The faculty keys that occur among the reports. */
  function ReportFaculties(reports: seq<Report>): set<string>
  {
    set i | 0 <= i < |reports| :: FacultyKey(reports[i].content.facultyName)
  }

  /** The number of reports under one faculty key. */
  function ReportsUnder(reports: seq<Report>, k: string): nat
  {
    Count(reports, (x: Report) => FacultyKey(x.content.facultyName) == k)
  }

  lemma ReportsUnderAppend(front: seq<Report>, x: Report, k: string)
    ensures ReportsUnder(front + [x], k) == ReportsUnder(front, k) + (if FacultyKey(x.content.facultyName) == k then 1 else 0)
  {
    FilterAppend(front, x, (y: Report) => FacultyKey(y.content.facultyName) == k);
  }

  /** The `facultyReports` loop: one count per faculty key. No key order is
      claimed, since a JavaScript object lists integer-like keys first. */
  function FacultyReports(reports: seq<Report>): (r: Dict<nat>)
    ensures DistinctKeys(r)
    ensures Keys(r) == ReportFaculties(reports)
    ensures forall k :: k in Keys(r) ==> Get(r, k) == Some(ReportsUnder(reports, k))
    ensures SumValues(r) == |reports|
  {
    if |reports| == 0 then []
    else
      var x := reports[|reports| - 1];
      var front := reports[..|reports| - 1];
      assert reports == front + [x];
      var d := FacultyReports(front);
      var key := FacultyKey(x.content.facultyName);
      FacultyReportsStep(front, x, d);
      IncrementSum(d, key);
      Increment(d, key)
  }

  /** One step of the loop keeps the counts right. */
  lemma FacultyReportsStep(front: seq<Report>, x: Report, d: Dict<nat>)
    requires Keys(d) == ReportFaculties(front)
    requires forall k :: k in Keys(d) ==> Get(d, k) == Some(ReportsUnder(front, k))
    ensures Keys(Increment(d, FacultyKey(x.content.facultyName))) == ReportFaculties(front + [x])
    ensures forall k :: k in ReportFaculties(front + [x]) ==>
              Get(Increment(d, FacultyKey(x.content.facultyName)), k) == Some(ReportsUnder(front + [x], k))
  {
    var key := FacultyKey(x.content.facultyName);
    var reports := front + [x];
    assert ReportFaculties(reports) == ReportFaculties(front) + {key} by {
      assert forall j :: 0 <= j < |front| ==> reports[j] == front[j];
      assert reports[|front|] == x;
    }
    forall k | k in ReportFaculties(reports)
      ensures Get(Increment(d, key), k) == Some(ReportsUnder(reports, k))
    {
      ReportsUnderAppend(front, x, k);
      if k == key && k !in Keys(d) {
        ReportsUnderAbsent(front, k);
      }
    }
  }

  /** A faculty key that does not occur counts no reports. */
  lemma ReportsUnderAbsent(reports: seq<Report>, k: string)
    requires k !in ReportFaculties(reports)
    ensures ReportsUnder(reports, k) == 0
  {
    forall y | y in reports ensures FacultyKey(y.content.facultyName) != k {
      var j :| 0 <= j < |reports| && reports[j] == y;
      assert FacultyKey(reports[j].content.facultyName) in ReportFaculties(reports);
    }
    FilterNone(reports, (y: Report) => FacultyKey(y.content.facultyName) == k);
  }

  /** `fetchMonitoringData`: the report total, the pending and approved
      counts, the per-faculty counts and the user total. */
  function Monitoring(reports: seq<Report>, users: seq<PublicUser>): (r: MonitoringStats)
    ensures r.totalReports == |reports| && r.totalUsers == |users|
    ensures r.pendingReports == Count(reports, (x: Report) => HasStatus(x, PendingStudentApproval))
    ensures r.approvedReports == Count(reports, (x: Report) => HasStatus(x, StudentApproved))
    ensures Keys(r.facultyReports) == ReportFaculties(reports)
    ensures forall k :: k in Keys(r.facultyReports) ==> Get(r.facultyReports, k) == Some(ReportsUnder(reports, k))
    ensures SumValues(r.facultyReports) == r.totalReports
  {
    MonitoringStats(
      |reports|,
      Count(reports, (x: Report) => HasStatus(x, PendingStudentApproval)),
      Count(reports, (x: Report) => HasStatus(x, StudentApproved)),
      FacultyReports(reports),
      |users|)
  }
}
