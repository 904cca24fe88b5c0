/**
 * Call sequences of the portals, proved from the repository contracts alone:
 * what a caller of the data layer may rely on.
 */
module Scenarios {
  import opened Wrappers
  import opened Tables
  import opened Repository
  import Grading

  /** "Add Student" twice with one roll number: the second fails, and the student logs in with the first password. */
  method CreateStudentTwice(db: UsersDb, rollNo: string, password: string, fullName: string, className: string,
                            section: string, now: Timestamp, later: Timestamp)
    returns (first: bool, second: bool, login: Option<string>)
    requires db.Valid() && !HasRollNo(db.students, rollNo)
    modifies db
    ensures db.Valid()
    ensures first && !second
    ensures |db.students| == |old(db.students)| + 1 && HasRollNo(db.students, rollNo)
    ensures login == Some(fullName)
  {
    ghost var before := db.students;
    first := db.CreateStudent(rollNo, password, fullName, className, section, now);
    assert db.students[|db.students| - 1].rollNo == rollNo;
    second := db.CreateStudent(rollNo, "", "", "", "", later);
    login := db.AuthenticateStudent(rollNo, password);
    CreatedStudentLogsIn(before, Student(rollNo, db.hash(password), fullName, className, section, now));
  }

  /** Saving one parent email and then another: only the second is stored and validates. */
  method ReplaceParentEmail(db: UsersDb, rollNo: string, first: string, second: string, now: Timestamp, later: Timestamp)
    returns (email: Option<string>, oldValid: bool, newValid: bool)
    requires db.Valid() && first != "" && second != "" && first != second
    modifies db
    ensures db.Valid()
    ensures email == Some(second) && !oldValid && newValid
    ensures |LinksOf(db.parentAccounts, rollNo)| == 1
  {
    db.SaveParentEmail(rollNo, first, now);
    ghost var middle := db.parentAccounts;
    db.SaveParentEmail(rollNo, second, later);
    email := db.GetStudentParentEmail(rollNo);
    oldValid := db.ValidateParentEmail(rollNo, first);
    newValid := db.ValidateParentEmail(rollNo, second);
    UpsertThenLookup(middle, rollNo, second, later);
    UpsertLinks(middle, rollNo, second, later, rollNo);
  }

  /** A parent's new request, approved by the teacher, is what the parent portal shows next. */
  method ApproveNewRequest(db: UsersDb, rollNo: string, meetingDate: string, teacher: string, notes: string,
                           now: Timestamp, later: Timestamp)
    returns (latest: Option<MeetingRequest>)
    requires db.Valid() && teacher != ""
    requires forall m :: m in db.meetingRequests && m.rollNo == rollNo ==> m.requestedAt < now
    modifies db
    ensures db.Valid()
    ensures latest.Some? && latest.value.rollNo == rollNo && latest.value.status == "Approved"
    ensures latest.value.teacherNotes == Some(notes) && latest.value.approvalTimestamp == Some(later)
  {
    ghost var before := db.meetingRequests;
    var id := db.RequestMeeting(rollNo, Some(meetingDate), teacher, now);
    db.UpdateMeetingRequestStatus(id.value, "Approved", notes, later);
    latest := db.GetSingleStudentMeetingRequest(rollNo);
    AnsweredRequestIsLatest(before, NewRequest(id.value, rollNo, meetingDate, teacher, now), "Approved", notes, later, latest);
  }

  /**
   * Marks saved after every stored report are exactly the report card the
   * student portal shows next: the student's name and class, the marks, their
   * total and a grade that is the band of that total.
   */
  method SaveThenView(rdb: ReportsDb, student: StudentListing, marks: seq<int>, now: Timestamp)
    returns (report: Option<Report>)
    requires rdb.Valid()
    requires forall x :: x in rdb.reports ==> x.timestamp < now
    modifies rdb
    ensures rdb.Valid()
    ensures report == Some(Report(old(rdb.nextReportId), BuildReport(student, marks), now))
    ensures report.value.data.marks == marks && report.value.data.total == Grading.Total(marks)
    ensures report.value.data.grade == Grading.TotalBand(Grading.Total(marks)).Label()
  {
    ghost var before := rdb.reports;
    rdb.SubmitMarks(student, marks, now);
    report := rdb.GetStudentReport(student.rollNo);
    SavedReportIsLatest(before, rdb.reports[|before|], report);
    var k :| 0 <= k < |rdb.reports| && rdb.reports[k] == report.value;
    assert rdb.reports[|before|] in rdb.reports;
  }

  /**
   * A users.db written before `is_admin` existed and holding no "Lam" account:
   * the seed INSERT names the missing column, so start-up fails before the
   * upgrade runs, and fails again on the next start.
   */
  method LegacyFileWithoutAdmin(hash: string -> string, now: Timestamp, later: Timestamp)
    returns (first: bool, second: bool, upgraded: bool)
    ensures !first && !second && !upgraded
  {
    var other := Teacher("Ravi", hash("secret"), "Ravi Kumar", now, false);
    var db := new UsersDb.Open(hash, [other], false, [], [], [], 1);
    assert !HasUsername(db.teachers, AdminUsername);
    first := db.Startup(now);
    second := db.Startup(later);
    upgraded := db.adminColumn;
  }

  /** The same file, started with the upgrade first, ends with the column and the administrator. */
  method LegacyFileUpgradedFirst(hash: string -> string, now: Timestamp)
    returns (ok: bool, upgraded: bool, adminLogin: (Option<string>, bool))
    ensures ok && upgraded
    ensures adminLogin == (Some(AdminFullName), true)
  {
    var other := Teacher("Ravi", hash("secret"), "Ravi Kumar", now, false);
    var db := new UsersDb.Open(hash, [other], false, [], [], [], 1);
    assert !HasUsername(db.teachers, AdminUsername);
    ok := db.StartupUpgradeFirst(now);
    upgraded := db.adminColumn;
    var name, isAdmin := db.AuthenticateTeacher(AdminUsername, AdminPassword);
    adminLogin := (name, isAdmin);
  }
}
