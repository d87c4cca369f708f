# A model of the lecture-reporting system's decision rules

The system is a role-based web application for a faculty. Lecturers file lecture reports. Students sign them. Principal lecturers (PRL) review them. Program leaders (PL) manage the course and class catalogue and approve class representatives. Faculty management (FMG) oversees everything. Users can complain about one another along a fixed chain of roles. Users can also rate courses and lecturers.

This project models the rules that decide each request:

- who may call an endpoint;
- which checks run, and in what order;
- what is stored;
- what is returned.

It also models the browser-side rules that summarise or guard the same data.

The database is one immutable `Db` record holding one sequence per table (module `Store`). SERIAL ids are positions plus one. `created_at` order is insertion order.

Every endpoint is a pure function from the `Db`, the authenticated actor and the request body to a `Result`:

- a failure carries the HTTP status and message, and stores nothing;
- a success carries the new `Db` and the response payload.

`requireRole` refusals are `Wrappers.RoleDenied` (403). Its message is not part of this model.

The modules follow the program's structure:

- `Validation`: the request validators.
- `Reports` and `Signatures`: the report workflow.
- `Complaints`: the routing table, the mounted routes and the controller.
- `Ratings`.
- `Catalogue`: courses, classes and assignments.
- `Accounts`: registration, login, password, profile, approval, user lookups and notifications.
- `Dashboard`: the client-side statistics of `Dashboard`, `FMGDashboard` and `MonitoringView`.
- `Client`: `ReportList`, `ComplaintForm` and `ReportView`.
- `Workflow`: lemmas that tie the browser's rules to the server's.

Shared helpers live in:

- `Domain`: roles, statuses, JavaScript truthiness, SQL NULL equality and `COALESCE`;
- `Seqs`, `Text` and `Dict`: the latter stands in for a JavaScript object used as a dictionary.

Hashing, password comparison and network fetches are parameters. Token generation is left out.

## Model

| member | source | states |
|---|---|---|
| Validation.FirstMissing | backend/middleware/validation.js:8-12 | the field reported is the first one in list order that is missing (falsy); none is reported exactly when every listed field is present |
| Validation.ValidateReport | backend/middleware/validation.js:1-19 | a report passes exactly when all required fields are present and students present do not exceed total students; the first missing field is named in "<field> is required"; otherwise an over-count gives "Students present cannot exceed total students" |
| Validation.ValidReportAttendance | backend/middleware/validation.js:14-16 | a report that passes has both counts, and the count present is within the total |
| Validation.ZeroCountIsMissing | backend/middleware/validation.js:9 | a count of 0 is falsy, so it is rejected as a missing field and not as an attendance error |
| Validation.FirstMissingIgnoresRecommendations | backend/middleware/validation.js:2-6 | the first-missing search never depends on `recommendations` when it is not in the list |
| Validation.RecommendationsNotRequired | backend/middleware/validation.js:2-18 | the validator's verdict does not change whatever `recommendations` holds |
| Validation.ValidateComplaint | backend/middleware/validation.js:21-33 | "All complaint fields are required" is given exactly when a field is missing; a target role equal to the actor's own role is refused; it passes exactly when all fields are present and the roles differ |
| Reports.CreateRow | backend/models/LectureReport.js:4-31 | appends one report with the next id and the given content and lecturer; no status gives `pending_student_approval`, a truthy one is kept; feedback starts empty; no other table changes |
| Reports.FindByLecturer | backend/models/LectureReport.js:33-37 | holds exactly the reports of that lecturer |
| Reports.FindByLecturerNewestFirst | backend/models/LectureReport.js:33-37 | read backwards, the lecturer's reports are in table order (newest first) |
| Reports.FindById | backend/models/LectureReport.js:39-43 | the report with that id, or nothing exactly when no report has that id |
| Reports.UpdateStatusRow | backend/models/LectureReport.js:45-49 | only the status of the report with that id changes; other reports, fields and tables are unchanged; a row is returned exactly when such a report exists |
| Reports.UpdateStatusMissing | backend/models/LectureReport.js:45-49 | updating a missing id changes nothing and returns no row |
| Reports.CreateReport | backend/routes/reports.js:9-25 | lecturer, PRL, PL and FMG only; a failed validation is returned unchanged; on success exactly one report is appended, whose lecturer id and name are the actor's whatever the body says |
| Reports.MyReports | backend/routes/reports.js:28-35 | for the authoring roles, exactly the actor's own reports; 403 otherwise |
| Reports.AllReports | backend/routes/reports.js:38-45 | PRL, PL and FMG only; every report, newest first |
| Reports.GetReport | backend/routes/reports.js:64-74 | 404 "Report not found" exactly when no report has that id; otherwise that report |
| Reports.PatchStatus | backend/routes/reports.js:48-61 | corrected status update: the named report takes the requested status and any given feedback; an absent field keeps its value; every other column of the report, other reports and other tables are unchanged; the reply is that report so patched, present exactly when the report exists |
| Reports.PatchAnyTransition | backend/routes/reports.js:48-57 | the update needs no role and ignores the current status: any workflow status can be reached from any status |
| Reports.UpdateDataJson | backend/routes/reports.js:52-56 | the text the driver writes for the `updateData` object is a JSON object literal, in braces |
| Reports.PatchStatusAsWritten | backend/routes/reports.js:48-61 | status update as written: the report's status becomes the JSON text of the whole `updateData` object; both feedback columns and every other field of that report keep their values; reports with other ids are unchanged; a row is returned exactly when the report exists, and it is that report with the JSON text as its status |
| Reports.AsWrittenPatchNeverReachesWorkflow | backend/routes/reports.js:52-56 | as written, no request leaves a report in any of the known statuses, and PRL feedback is never saved |
| Reports.ApproveRequestJson | frontend/src/components/reports/ReportView.js:272-274 | the approve button's body is written as the JSON text `{"status":"prl_reviewed"}` |
| Reports.PrlApprovalAsWrittenVersusCorrected | backend/routes/reports.js:52-56 | for the approve request, the as-written update stores JSON text while the corrected one stores `prl_reviewed` |
| Signatures.CreateSignature | backend/models/StudentSignature.js:4-13 | appends one row with the given report, student and data; existing rows and other tables are unchanged |
| Signatures.FindByStudentAndReport | backend/models/StudentSignature.js:26-30 | a row is found exactly when some row matches both the student and the report (a NULL report matches nothing) |
| Signatures.FindByReport | backend/models/StudentSignature.js:15-24 | exactly the signatures on that report, each joined with its student's name |
| Signatures.Sign | backend/routes/signatures.js:9-35 | students only; a second signature by the same student on the same report gives "You have already signed this report"; otherwise one signature is appended and that report's status becomes `student_approved`, with all else unchanged |
| Signatures.SignOnce | backend/routes/signatures.js:14-17 | after a signature, every further attempt by that student on that report is refused |
| Signatures.DifferentStudentCanSign | backend/routes/signatures.js:14 | the duplicate check is per student: another student can still sign the same report |
| Signatures.SignIgnoresCurrentStatus | backend/routes/signatures.js:14-26 | the report becomes `student_approved` whatever its current status |
| Signatures.SignPreservesOncePerReport | backend/routes/signatures.js:14-23 | signing keeps at most one signature per (student, report) pair |
| Signatures.SignWellFormed | backend/routes/signatures.js:19-26 | signing keeps the SERIAL ids of both tables it writes |
| Signatures.JoinOnReport | backend/routes/signatures.js:38-45 | the listed signatures are exactly those on the report whose student exists, with that student's name |
| Complaints.IsValidComplaintRoute | backend/controllers/complaintController.js:164-173 | a route is valid exactly when the target role is the one the table maps the complainant's role to |
| Complaints.RoutingChain | backend/controllers/complaintController.js:164-173 | on the five roles, the valid pairs are exactly student→lecturer, lecturer→prl, prl→pl and pl→fmg |
| Complaints.FmgHasNoTarget | backend/controllers/complaintController.js:165-172 | FMG and every role outside the table may complain about no one |
| Complaints.CreateRow | backend/models/Complaint.js:4-12 | appends one complaint holding only the six stored columns; status `pending`, no priority |
| Complaints.CreateIgnoresCategory | backend/models/Complaint.js:4-12 | `category` and `is_anonymous` in the body make no difference to what is stored |
| Complaints.FindByComplainant | backend/models/Complaint.js:15-24 | exactly the complainant's complaints, each joined with its target's name; as many as that user filed; their rows are the user's rows of the table, newest first |
| Complaints.FiledBy | backend/models/Complaint.js:15-24 | the complaints of a list filed by one user, each with its target's name, with their count |
| Complaints.FiledByNewestFirst | backend/models/Complaint.js:21 | the listed rows are the complainant's rows of the table in reverse (`created_at DESC`) order |
| Complaints.ReviewItems | backend/models/Complaint.js:27-58 | the review selection of each role, each complaint joined with its complainant's name |
| Complaints.ReviewItemsNewestFirst | backend/models/Complaint.js:37-55 | the listed rows are the selected complaints whose complainant exists, in reverse table (`created_at DESC`) order |
| Complaints.FindForReview | backend/models/Complaint.js:27-58 | a selection exists exactly for PRL, PL and FMG; for any other role the query text is empty and `None` stands for its empty answer |
| Complaints.PrlReviewScope | backend/routes/complaints.js:48-56 | a PRL sees a complaint exactly when it is against a lecturer and its complainant is in the PRL's faculty |
| Complaints.PlReviewScope | backend/routes/complaints.js:57-65 | a PL sees a complaint exactly when it is against a PRL and its complainant is in the PL's faculty |
| Complaints.FmgReviewUnscoped | backend/routes/complaints.js:66-73 | FMG's selection does not depend on any faculty |
| Complaints.FindById | backend/models/Complaint.js:63-67 | the complaint with that id, or nothing exactly when none has it |
| Complaints.ControllerCreate | backend/controllers/complaintController.js:8-28 | a complaint against oneself is refused first; then an off-table route is refused; otherwise one complaint is stored with the next id, the actor's id and role, the body's title, description, target user and target role, status `pending` and no priority |
| Complaints.ControllerCreateKeepsRouting | backend/controllers/complaintController.js:10-28 | with the controller's create, every stored complaint keeps following the routing rule |
| Complaints.MountedCreate | backend/routes/complaints.js:8-19 | the mounted create always stores the complaint, with no checks: the next id, the actor's id and role, the body's title, description, target user and target role, status `pending` and no priority |
| Complaints.MountedCreateAcceptsSelfComplaint | backend/routes/complaints.js:8-19 | the mounted create stores a complaint against the complainant themself, which the controller refuses |
| Complaints.MountedCreateAcceptsOffRoute | backend/routes/complaints.js:8-19 | the mounted create stores a student's complaint against a PL, which the controller refuses as an invalid route |
| Complaints.MyComplaints | backend/routes/complaints.js:26-36 | every listed complaint is the actor's own, and every complaint of the actor is listed; the rows are the actor's rows of the table, newest first |
| Complaints.NewComplaintListedFirst | backend/routes/complaints.js:8-36 | a complaint just filed heads the complainant's list, before all earlier ones |
| Complaints.ForReview | backend/routes/complaints.js:43-73 | PRL, PL and FMG only; every item is a stored complaint the viewer's role selects; every such complaint whose complainant exists is listed, with that complainant's name; the rows are in reverse table order (newest first) |
| Complaints.Respond | backend/routes/complaints.js:84-96 | one response is appended, and every complaint with that id becomes `resolved`; nothing else changes |
| Complaints.RouteAddResponse | backend/routes/complaints.js:84-96 | reviewing roles only; one response holding the given text, the complaint id and the actor is appended even for a complaint that does not exist; each complaint with that id becomes `resolved` with its other fields kept; complaints with other ids are unchanged |
| Complaints.ControllerAddResponse | backend/controllers/complaintController.js:60-92 | 404 "Complaint not found" exactly for a missing complaint, which changes nothing; otherwise one response with the given text, complaint id and responder is added and the complaint is resolved |
| Complaints.ResponseResolvesFromAnyStatus | backend/controllers/complaintController.js:72-82 | a response resolves a complaint whatever its prior status |
| Complaints.UpdateComplaintStatus | backend/controllers/complaintController.js:134-161 | 404 exactly for a missing complaint; an omitted status or priority keeps its value; other complaints and fields are unchanged |
| Complaints.EmptyStatusUpdateIsIdentity | backend/controllers/complaintController.js:140-155 | an update with neither field changes nothing |
| Complaints.ResponseItems | backend/routes/complaints.js:105-113 | the listed responses are exactly those to the complaint whose responder exists, with the responder's name |
| Complaints.ResponseItemsAppend | backend/routes/complaints.js:105-113 | a later response is listed after the earlier ones (ascending creation order) |
| Complaints.ListResponses | backend/routes/complaints.js:105-113 | every listed response belongs to that complaint; every response to it whose responder exists is listed, with the responder's name; the rows are in table (`created_at ASC`) order |
| Complaints.ResponsesInOrder | backend/routes/complaints.js:112 | the listed rows are exactly the complaint's answered responses, in table order |
| Complaints.ResponseListedLast | backend/routes/complaints.js:84-113 | a posted response appears at the end of the complaint's response list |
| Complaints.TwoResponsesListedInOrder | backend/routes/complaints.js:84-113 | two responses to one complaint are both kept and are listed in the order they were posted |
| Ratings.SubmitRating | backend/routes/ratings.js:8-33 | a repeat (rater, type, id) gives "You have already rated this <type>" and no insert; otherwise exactly one rating is appended, with the actor as rater |
| Ratings.RepeatRatingRejected | backend/routes/ratings.js:13-29 | after one success, every later rating of the same entity by the same rater is refused |
| Ratings.SubmitKeepsOneRatingPerTarget | backend/routes/ratings.js:13-29 | submissions keep at most one rating per (rater, type, id) |
| Ratings.RatingItems | backend/routes/ratings.js:40-47 | the items are exactly the ratings of that entity whose rater exists, with the rater's name |
| Ratings.RatingItemsNewestFirst | backend/routes/ratings.js:45 | the listed rows are the entity's ratings by existing raters, in reverse table (`created_at DESC`) order |
| Ratings.EntityRatings | backend/routes/ratings.js:36-53 | every listed rating is of that entity, and every rating of it by an existing rater is listed; the rows are newest first |
| Ratings.MyRatings | backend/routes/ratings.js:56-69 | exactly the actor's ratings, as many as the actor has; read backwards, the list keeps table order (newest first) |
| Ratings.NewRatingListedFirst | backend/routes/ratings.js:8-69 | a rating just submitted heads the rater's list and, when the rater's row exists, the entity's list, before all earlier ones |
| Catalogue.InsertKeepsCodesUnique | backend/routes/courses.js:36-47 | inserting a row whose code no row carries keeps codes unique |
| Catalogue.CreateCourse | backend/routes/courses.js:31-52 | PL only; an existing code gives "Course code already exists" and no insert; otherwise one active course is appended with the next id and the body's name, code, faculty, program, credits and description |
| Catalogue.CreateCourseKeepsCodesUnique | backend/routes/courses.js:35-39 | creating a course keeps course codes unique |
| Catalogue.CoursesOfFaculty | backend/routes/courses.js:19-28 | exactly that faculty's courses, as many as the table holds |
| Catalogue.FindCourse | backend/routes/courses.js:143-146 | the course with that id, or nothing exactly when none has it |
| Catalogue.UpdateCourse | backend/routes/courses.js:137-174 | PL only; 404 for a missing course; a new, different code used by another course is refused; on the course's rows each given field among name, code, credits, description and `is_active` is stored and each omitted one keeps its value, while id, faculty and program never change; other courses are unchanged |
| Catalogue.UpdateCourseKeepsCodesUnique | backend/routes/courses.js:149-166 | an accepted update keeps non-empty course codes unique |
| Catalogue.Term | backend/routes/courses.js:59-62 | the term is the given year and semester, defaulting to "2024" and "1" when falsy |
| Catalogue.AssignCourse | backend/routes/courses.js:55-87 | PL only; an existing (lecturer, course, class, year, semester) gives 400; otherwise one assignment is stored, assigned by the actor, with the default term |
| Catalogue.AssignDefaultsAgree | backend/routes/courses.js:59-80 | the duplicate check and the insert use the same default term, so a repeat with defaults is refused |
| Catalogue.CreateClass | backend/routes/classes.js:43-64 | PL only; an existing code gives "Class code already exists"; otherwise one active class is appended with the next id and the body's name, code, faculty, program and total students; year and semester default to "2024" and "1" |
| Catalogue.CreateClassKeepsCodesUnique | backend/routes/classes.js:47-51 | creating a class keeps class codes unique |
| Catalogue.FindClass | backend/routes/classes.js:94-97 | the class with that id, or nothing exactly when none has it |
| Catalogue.UpdateClass | backend/routes/classes.js:88-126 | PL only; 404 "Class not found"; a new, different code used by another class is refused; on the class's rows each of the six columns takes the given value or keeps its own, and no other column changes; other classes are unchanged |
| Catalogue.UpdateClassKeepsCodesUnique | backend/routes/classes.js:100-118 | an accepted update keeps non-empty class codes unique |
| Catalogue.EmptyClassPatchIsIdentity | backend/routes/classes.js:107-118 | an update with no fields changes nothing |
| Catalogue.StudentsIn | backend/routes/classes.js:133-139 | exactly the students enrolled under that class code, without passwords, one per user |
| Catalogue.StudentsOfClass | backend/routes/classes.js:129-146 | a missing class lists no one; otherwise exactly the students whose class id is that class's code |
| Accounts.FindByEmail | backend/models/User.js:15-19 | the user with that email, or nothing exactly when no user has it |
| Accounts.Register | backend/controllers/authController.js:6-55 | a taken email gives "User already exists with this email" and creates nothing; otherwise one unapproved user is appended with the next id, the hashed password and the body's email, name, role, faculty, program and class id, and the response has no password |
| Accounts.RegisterOnce | backend/controllers/authController.js:11-14 | after one registration, the same email cannot register again |
| Accounts.Login | backend/controllers/authController.js:57-97 | an unknown email or a wrong password gives "Invalid email or password"; an unapproved student with the right password gets 403; success returns the user without the password |
| Accounts.LoginFailuresIndistinguishable | backend/controllers/authController.js:62-71 | an unknown email and a wrong password give the same answer |
| Accounts.ApprovalCheckedAfterPassword | backend/controllers/authController.js:74-76 | an unapproved student with a wrong password learns only that the credentials are wrong |
| Accounts.NonStudentsSkipApproval | backend/controllers/authController.js:74 | any non-student with the right password logs in, approved or not |
| Text.Utf16Length | backend/routes/users.js:315 | a JavaScript string's `length` lies between one and two per character, and equals the character count exactly when no character lies outside the Basic Multilingual Plane |
| Accounts.ChangePassword | backend/routes/users.js:307-349 | refuses a missing field, a new password whose JavaScript `length` (UTF-16 code units) is under 6, an unknown user and a wrong current password, in that order; otherwise only the actor's password changes, to the hash of the new one |
| Accounts.ThreeAstralCharactersMeetTheMinimum | backend/routes/users.js:315 | a three-character password of characters outside the Basic Multilingual Plane has `length` 6 and is accepted |
| Accounts.WrongCurrentPasswordRefused | backend/routes/users.js:330-333 | a wrong current password gives "Current password is incorrect" and stores nothing |
| Accounts.ApplyProfile | backend/routes/users.js:167-174 | only `name`, `program` and `class_id` can change; each given one takes the given value |
| Accounts.UpdateProfile | backend/routes/users.js:164-193 | "No valid fields to update" when none of the three is given; otherwise only the actor's row changes, and by the whitelisted fields alone |
| Accounts.ProfileIgnoresOtherFields | backend/routes/users.js:167-174 | email, role, approval and password in the body make no difference |
| Accounts.ActivityAccessAsWritten | backend/routes/users.js:357-359 | as written: access passes only when the actor's id is strictly equal to the URL text, or the actor is a reviewer |
| Accounts.OwnActivityDeniedAsWritten | backend/routes/users.js:357 | as written, a non-reviewer asking for their own activity is refused |
| Accounts.ActivityAccess | backend/routes/users.js:352-359 | corrected rule: access exactly for the user themself or a PRL, PL or FMG; "Access denied" otherwise |
| Accounts.OwnActivityAllowed | backend/routes/users.js:352-359 | under the corrected rule every user sees their own activity, and a non-reviewer sees no one else's |
| Accounts.ApprovedRows | backend/routes/users.js:435-444 | the rows returned are exactly the listed students, one per row |
| Accounts.BulkApprove | backend/routes/users.js:431-456 | PL only; a missing or empty id list gives "User IDs array is required"; otherwise exactly the listed students are approved, and the reply lists exactly them, one entry per approved row, with id, email, name and faculty |
| Accounts.BulkApproveOnlyStudents | backend/routes/users.js:435-444 | a non-student row never changes, even when its id is listed |
| Accounts.UpdateUserRow | backend/models/User.js:27-33 | it succeeds exactly when the update names a column and the user exists, and fails with the handler's 500 message otherwise; on success only that user's given columns change, and the answer has no password |
| Accounts.UpdateUser | backend/controllers/userController.js:38-47 | PL or FMG only; succeeds exactly for a non-empty update of an existing user, updating the given columns of that user and answering without the password |
| Accounts.ApproveClassRep | backend/controllers/userController.js:75-84 | PL only; the user with that id becomes approved; the answer has no password |
| Accounts.ApproveIgnoresRole | backend/controllers/userController.js:77-78 | approval does not look at the role: a non-student is approved too |
| Accounts.GetUserById | backend/controllers/userController.js:22-36 | 404 "User not found" exactly for a missing id; otherwise that user without the password |
| Accounts.SummariesOf | backend/controllers/userController.js:54-65 | one summary per user of that role, narrowed to the faculty only when one is given |
| Accounts.GetUsersByRole | backend/controllers/userController.js:49-73 | exactly the users of that role (in the faculty, when one is given), one entry per matching user; without a faculty, as many as have that role |
| Accounts.MarkNotificationRead | backend/routes/users.js:477-497 | 404 unless a notification with that id belongs to the actor; otherwise only the actor's matching notifications become read |
| Accounts.CannotMarkOthersNotification | backend/routes/users.js:479-490 | another user's notification can never be marked |
| Dashboard.RowStaff | frontend/src/components/dashboard/Dashboard.js:159-170 | a faculty's `total_staff` is its four role counts summed, each unparseable count being 0 |
| Dashboard.LastEntry | frontend/src/components/dashboard/Dashboard.js:164-176 | a faculty's entry is absent exactly when no row carries that faculty |
| Dashboard.CalculateStaffStats | frontend/src/components/dashboard/Dashboard.js:140-186 | zeros for non-array input; each total is the sum over all rows; overall `total_staff` is the four totals summed; one entry per faculty, taken from its last row |
| Dashboard.TotalStaffSumsRows | frontend/src/components/dashboard/Dashboard.js:164-184 | overall `total_staff` also equals the sum of the rows' own totals |
| Dashboard.RepeatedFacultyLastRowWins | frontend/src/components/dashboard/Dashboard.js:164-176 | with a faculty repeated, the totals count both rows while the entry keeps the last |
| Dashboard.ParseOrNaN | frontend/src/components/dashboard/Dashboard.js:193-196 | a falsy count reads as 0, but unparseable text gives NaN |
| Dashboard.CalculateSystemStats | frontend/src/components/dashboard/Dashboard.js:189-215 | `total_faculties` is the row count (0 for non-array input); `total_staff` is the four role counts summed, and NaN exactly when one does not parse |
| Dashboard.QuickActions | frontend/src/components/dashboard/Dashboard.js:253-277 | "File a Complaint" is offered, first, exactly to non-FMG users; the list has three actions for them and two for FMG; the base actions always end the list |
| Dashboard.BucketKey | frontend/src/components/dashboard/FMGDashboard.js:28-32 | exactly the names FICT, FBMG and FABE have a bucket |
| Dashboard.CountReports | frontend/src/components/dashboard/FMGDashboard.js:34-38 | each bucket's report count grows by the number of reports of its faculty; other fields are unchanged |
| Dashboard.CountUsers | frontend/src/components/dashboard/FMGDashboard.js:40-45 | each bucket counts its faculty's lecturers and students; other roles change nothing |
| Dashboard.FacultyBuckets | frontend/src/components/dashboard/FMGDashboard.js:28-45 | from zero, each bucket holds exactly its faculty's reports, lecturers and students |
| Dashboard.BucketReportsTotal | frontend/src/components/dashboard/FMGDashboard.js:34-38 | the three report counts sum to the number of reports of the three faculties |
| Dashboard.FacultyReports | frontend/src/components/monitoring/MonitoringView.js:30-36 | one entry per faculty that occurs, holding its number of reports; the values sum to the number of reports |
| Dashboard.ReportsUnderAbsent | frontend/src/components/monitoring/MonitoringView.js:30-36 | a faculty without an entry has no reports |
| Dashboard.Monitoring | frontend/src/components/monitoring/MonitoringView.js:26-43 | the totals are the list lengths; pending and approved count exactly those statuses; the faculty counts sum to the total |
| Client.EndpointFor | frontend/src/components/reports/ReportList.js:17 | a lecturer fetches their own reports, every other role all reports |
| Client.FetchReports | frontend/src/components/reports/ReportList.js:15-19 | a lecturer receives exactly their reports; any other role is answered only when it is a reviewer |
| Client.StudentListRefused | frontend/src/components/reports/ReportList.js:17 | a student's list request is always refused by the server |
| Client.Keep | frontend/src/components/reports/ReportList.js:25-30 | a report is kept exactly when its status matches the filter ('all' matches any) and the term occurs, ignoring case, in its course or lecturer name; a missing name throws |
| Client.FilteredReports | frontend/src/components/reports/ReportList.js:25-30 | the filter throws exactly when some report throws; otherwise it keeps exactly the matching reports, in their order |
| Client.KeepAllWithEmptySearch | frontend/src/components/reports/ReportList.js:25-29 | with 'all' and an empty term every report is kept |
| Client.SearchIgnoresCase | frontend/src/components/reports/ReportList.js:27-28 | the case of the search term makes no difference |
| Client.StatusFilterExact | frontend/src/components/reports/ReportList.js:26 | a status filter keeps only reports with exactly that status |
| Client.TargetRole | frontend/src/components/complaints/ComplaintForm.js:24-30 | a target exists exactly for student, lecturer, PRL and PL |
| Client.SetUpForm | frontend/src/components/complaints/ComplaintForm.js:20-38 | with a target, `against_role` is set to it, and the candidates are the users of that role in the actor's faculty; without one, no users and an empty role |
| Client.ViewActions | frontend/src/components/reports/ReportView.js:218-287 | the sign action shows exactly for a student on a pending report; the approve action exactly for a PRL on a student-approved one |
| Client.OneActionAtATime | frontend/src/components/reports/ReportView.js:218-256 | no viewer sees both actions on one report |
| Client.ApproveRequest | frontend/src/components/reports/ReportView.js:274 | the approve action requests `prl_reviewed` and no feedback |
| Client.SubmitSignatureAsWritten | frontend/src/components/reports/StudentSignature.js:50-57 | as written, every submission ends in the alert "Please provide your signature first" and sends nothing |
| Client.SubmitSignature | frontend/src/components/reports/StudentSignature.js:50-63 | corrected: refused with that alert exactly when the canvas image equals the blank one; otherwise the image is posted for the report to `/signatures` |
| Workflow.TargetMapMatchesRouting | frontend/src/components/complaints/ComplaintForm.js:24-30 | the form's target map and the controller's routing table accept the same pairs, in both directions |
| Workflow.NoTargetNoRoute | frontend/src/components/complaints/ComplaintForm.js:29 | a role the form offers no target has no valid route |
| Workflow.FormComplaintPassesController | frontend/src/components/complaints/ComplaintForm.js:32-38 | a complaint filed through the form, against another user, passes both controller checks |
| Workflow.Deliver | backend/server.js:57-66 | nothing reaches the server when the page only alerted; a post to `/signatures` is the signatures router's create; a post to `/reports/signature`, the other path the page names, gets 404 "API endpoint not found" |
| Workflow.SignatureAsWrittenNeverStored | frontend/src/components/reports/StudentSignature.js:52-63 | as written, the signature page never reaches the server, and the path it names would be answered with 404 |
| Workflow.SignButtonIsForwardStep | frontend/src/components/reports/ReportView.js:218-250 | with the corrected page, a drawn signature on a report whose sign action is shown is stored by `POST /signatures` and moves that report one step forward |
| Workflow.ApproveButtonIsForwardStep | frontend/src/components/reports/ReportView.js:256-274 | under the corrected update the approve button moves the report one step forward |
| Workflow.ApproveButtonAsWrittenLeavesWorkflow | frontend/src/components/reports/ReportView.js:272-274 | under the update as written the approve button never moves the report forward |
| Workflow.ServerAllowsBackwardSteps | backend/routes/signatures.js:14-26 | the guards live only in the page: the server lets a signature or a status update move a reviewed report backwards |

## Left out

- Database and HTTP plumbing is not modelled: the connection pool, SQL text, Express middleware chaining and CORS.
  - `middleware/auth.js` is not part of this model, so a role refusal is a bare 403.
  - Route shadowing is not modelled. `PATCH /users/:id` (backend/routes/users.js:114) precedes `PATCH /change-password` (307), and `GET /:id` (111) precedes `GET /dashboard-stats`. `GET /profile/me` has two path segments and is not shadowed.
- Most SQL error paths (500) are left out. Those kept are an empty `SET` clause and the handlers' explicit 500 messages.
  - `Accounts.UpdateUserRow` does not model unknown keys in the update object, which would make the SQL fail.
- Column defaults are assumed, because the schema is not part of this model:
  - `is_active` true;
  - complaint status `pending`;
  - priority NULL;
  - `is_approved` false.

  Foreign keys and the role CHECK constraint are not modelled.
- Most joins are modelled as the first user with the id. `Signatures.Signers` instead joins every user with the id, as SQL does. The two agree only when user ids are unique, which holds in any well-formed table.
- `ORDER BY name` is not modelled, because it depends on the database's collation. The name-ordered lists state membership and count only:
  - Catalogue.CoursesOfFaculty: does not state the `ORDER BY name` of backend/routes/courses.js:22.
  - Catalogue.StudentsOfClass: does not state the `ORDER BY name` of backend/routes/classes.js:138.
  - Accounts.GetUsersByRole: does not state the `ORDER BY name` of backend/controllers/userController.js:65.
- bcrypt hashing and comparison are the parameters `hash` and `matches`. JWT signing and token responses are left out.
- Network fetches in the browser are parameters. React rendering, state and error display are left out.
- The SQL statistics endpoints are left out, because they are COUNT/AVG queries inside the database. So are the float `avg_attendance` and its formatting.
- Excel export, drawing on the signature canvas and the image encoding of `toDataURL` (the image is opaque text), localStorage and the email placeholder are presentation and I/O.
- `reportController.js` and `courseController.js` are unmounted duplicates and are not modelled. Note that `reportController.addStudentSignature` has no duplicate check.
- JavaScript coercions are simplified:
  - The string-versus-number comparison of counts in backend/middleware/validation.js:14 is modelled as a comparison of integers.
  - The strict id comparison in backend/controllers/complaintController.js:10 is modelled as equality of ids. The one in backend/routes/users.js:357 is modelled faithfully; see Findings.
  - `parseInt` is abstracted to "falsy, a number, or not a number" (`Dashboard.JsCount`).
  - `newPassword.length` on a non-string value is not modelled.
  - A JSON `null` in a body is not distinguished from an absent field, except in the profile update, where `null` clears a field.
  - Prototype property names such as `constructor` used as object keys are not modelled.
- `Client.QueryText` passes the faculty into the `?faculty=` query string unchanged. frontend/src/components/complaints/ComplaintForm.js:33 does not URL-encode it, so a faculty containing `&`, `#` or `+` would reach the server altered; URL parsing is not modelled.
- `Text.ToLower` folds ASCII letters only, not full Unicode case mapping.
- `Catalogue.UpdateCourseKeepsCodesUnique` and `Catalogue.UpdateClassKeepsCodesUnique` cover non-empty codes only, because an empty code skips the clash check.
- `Accounts.Register` does not cover an absent email or role; those are typed as present text.
- Check-then-insert races in signatures, ratings and codes are out of scope. Each request runs alone.
- The JSON text of `Reports.UpdateDataJson` models `JSON.stringify` escaping for string members only.

## Findings

| source | as written | input that shows it | evidently intended | confidence | as-written member | corrected member |
|---|---|---|---|---|---|---|
| backend/routes/reports.js:52-56 | the whole `updateData` object is passed as the status value, so the column receives its JSON text and the feedback is never stored | a PRL's approve request `{status: 'prl_reviewed'}` leaves the status `{"status":"prl_reviewed"}` | store the requested status and the given feedback | medium, not executed | Reports.PatchStatusAsWritten (Reports.AsWrittenPatchNeverReachesWorkflow, Reports.PrlApprovalAsWrittenVersusCorrected) | Reports.PatchStatus (Reports.PatchAnyTransition, Workflow.ApproveButtonIsForwardStep) |
| backend/routes/complaints.js:8-19 | the mounted `POST /complaints` stores any complaint, without the self-complaint and routing checks of `createComplaint` | a student filing against their own id, or against role `pl` | refuse self-complaints and off-table routes, as backend/controllers/complaintController.js:10-17 does | medium, not executed | Complaints.MountedCreate (Complaints.MountedCreateAcceptsSelfComplaint, Complaints.MountedCreateAcceptsOffRoute) | Complaints.ControllerCreate (Complaints.ControllerCreateKeepsRouting) |
| frontend/src/components/reports/StudentSignature.js:50-63 | the canvas image is compared with a second `toDataURL()` of the same canvas, which always matches, so every submission alerts "Please provide your signature first"; the post it would send goes to `/reports/signature`, which no mounted router serves (backend/server.js:57-66, 131) | a student who has drawn a signature and presses "Submit Signature" | compare with a blank canvas and post to `/signatures`, which stores the signature and moves the report to `student_approved` | high, not executed | Client.SubmitSignatureAsWritten (Workflow.SignatureAsWrittenNeverStored) | Client.SubmitSignature (Workflow.SignButtonIsForwardStep) |
| backend/routes/users.js:357 | the numeric `req.user.id` is compared with `!==` against the URL's text parameter, which is never strictly equal | a student with id 7 requesting `/users/7/activity` gets 403 | the user themself may see their activity | medium, not executed | Accounts.ActivityAccessAsWritten (Accounts.OwnActivityDeniedAsWritten) | Accounts.ActivityAccess (Accounts.OwnActivityAllowed) |
