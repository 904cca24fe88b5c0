/**
 * The two SQLite files as objects whose fields are their tables. Each
 * repository function is a method; the ones that write say exactly what the
 * tables become, the ones that read change nothing.
 */
module Repository {
  import opened Wrappers
  import opened Sequences
  import opened Tables
  import Grading
  import Predictor

  /** What the admin-only "Add Teacher" form ends with. */
  datatype AddTeacherOutcome =
    | MissingField        // a required field is empty
    | PasswordMismatch    // password and confirmation differ
    | MissingAdminColumn  // the INSERT names `is_admin`, which the table lacks
    | UsernameTaken       // IntegrityError on the UNIQUE username
    | Added

  /** users.db: the tables `teachers`, `students`, `parent_accounts` and `meeting_requests`. */
  class UsersDb {
    /** The password hash (hex SHA-256 of the UTF-8 text), left uninterpreted. */
    const hash: string -> string
    var teachers: seq<Teacher>
    /** Whether `teachers` has the `is_admin` column (files created before it existed do not). */
    var adminColumn: bool
    var students: seq<Student>
    var parentAccounts: seq<ParentAccount>
    var meetingRequests: seq<MeetingRequest>
    /** The AUTOINCREMENT counter of `meeting_requests`. */
    var nextMeetingId: int

    /** The table constraints SQLite enforces, and fresh AUTOINCREMENT ids. */
    ghost predicate Valid()
      reads this
    {
      && UniqueUsernames(teachers)
      && UniqueRollNos(students)
      && AtMostOneLink(parentAccounts)
      && 1 <= nextMeetingId
      && (forall i :: 0 <= i < |meetingRequests| ==> 1 <= meetingRequests[i].id < nextMeetingId)
      && (forall i, j :: 0 <= i < j < |meetingRequests| ==> meetingRequests[i].id != meetingRequests[j].id)
    }

    /** A new file after `init_db`'s CREATE TABLE statements: empty tables, `is_admin` present. */
    constructor (hash: string -> string)
      ensures Valid() && this.hash == hash && adminColumn
      ensures teachers == [] && students == [] && parentAccounts == [] && meetingRequests == []
    {
      this.hash := hash;
      teachers, adminColumn := [], true;
      students, parentAccounts, meetingRequests := [], [], [];
      nextMeetingId := 1;
    }

    /** An existing file, possibly written before `is_admin` was added. */
    constructor Open(hash: string -> string, teachers: seq<Teacher>, adminColumn: bool, students: seq<Student>,
                     parentAccounts: seq<ParentAccount>, meetingRequests: seq<MeetingRequest>, nextMeetingId: int)
      requires UniqueUsernames(teachers) && UniqueRollNos(students) && AtMostOneLink(parentAccounts)
      requires 1 <= nextMeetingId
      requires forall i :: 0 <= i < |meetingRequests| ==> 1 <= meetingRequests[i].id < nextMeetingId
      requires forall i, j :: 0 <= i < j < |meetingRequests| ==> meetingRequests[i].id != meetingRequests[j].id
      ensures Valid() && this.hash == hash && this.adminColumn == adminColumn
      ensures this.teachers == teachers && this.students == students
      ensures this.parentAccounts == parentAccounts && this.meetingRequests == meetingRequests
    {
      this.hash := hash;
      this.teachers, this.adminColumn := teachers, adminColumn;
      this.students, this.parentAccounts, this.meetingRequests := students, parentAccounts, meetingRequests;
      this.nextMeetingId := nextMeetingId;
    }

    /**
     * The end of `init_db`: insert the administrator unless "Lam" exists. The
     * INSERT names `is_admin`, so on a file without that column it raises
     * (`ok` is false) and nothing is written.
     */
    method SeedAdmin(now: Timestamp) returns (ok: bool)
      requires Valid()
      modifies this`teachers
      ensures Valid()
      ensures ok == (HasUsername(old(teachers), AdminUsername) || adminColumn)
      ensures teachers == if HasUsername(old(teachers), AdminUsername) || !adminColumn then old(teachers)
                          else old(teachers) + [AdminSeed(hash, now)]
      ensures ok ==> HasUsername(teachers, AdminUsername)
    {
      if HasUsername(teachers, AdminUsername) {
        return true;
      }
      if !adminColumn {
        return false;
      }
      teachers := teachers + [AdminSeed(hash, now)];
      assert teachers[|teachers| - 1].username == AdminUsername;
      ok := true;
    }

    /**
     * `upgrade_database`: when `is_admin` is missing, add it with default 0
     * and set it for "Lam". A second run changes nothing.
     */
    method UpgradeDatabase()
      requires Valid()
      modifies this`teachers, this`adminColumn
      ensures Valid() && adminColumn
      ensures teachers == if old(adminColumn) then old(teachers) else WithAdminColumn(old(teachers))
    {
      if !adminColumn {
        teachers := WithAdminColumn(teachers);
        adminColumn := true;
      }
    }

    /**
     * The module-level `init_db(); upgrade_database()`: when it completes, the
     * administrator account and the `is_admin` column both exist. When the seed
     * INSERT raises, the module stops there and nothing is written.
     */
    method Startup(now: Timestamp) returns (ok: bool)
      requires Valid()
      modifies this`teachers, this`adminColumn
      ensures Valid()
      ensures ok == (HasUsername(old(teachers), AdminUsername) || old(adminColumn))
      ensures !ok ==> teachers == old(teachers) && adminColumn == old(adminColumn)
      ensures ok ==> adminColumn
      ensures ok ==> teachers == if !old(adminColumn) then WithAdminColumn(old(teachers))
                                 else if HasUsername(old(teachers), AdminUsername) then old(teachers)
                                 else old(teachers) + [AdminSeed(hash, now)]
      ensures ok ==> HasUsername(teachers, AdminUsername)
    {
      ok := SeedAdmin(now);
      if ok {
        ghost var seeded := teachers;
        UpgradeDatabase();
        assert forall i :: 0 <= i < |seeded| ==> teachers[i].username == seeded[i].username;
      }
    }

    /**
     * Start-up with the upgrade run before the seed: on every file, including
     * one written before `is_admin` existed and without "Lam", it completes
     * with the column and the administrator account.
     */
    method StartupUpgradeFirst(now: Timestamp) returns (ok: bool)
      requires Valid()
      modifies this`teachers, this`adminColumn
      ensures Valid() && ok && adminColumn
      ensures HasUsername(teachers, AdminUsername)
      ensures teachers == (var upgraded := if old(adminColumn) then old(teachers) else WithAdminColumn(old(teachers));
                           if HasUsername(old(teachers), AdminUsername) then upgraded else upgraded + [AdminSeed(hash, now)])
    {
      UpgradeDatabase();
      assert forall i :: 0 <= i < |old(teachers)| ==> teachers[i].username == old(teachers)[i].username;
      assert HasUsername(teachers, AdminUsername) == HasUsername(old(teachers), AdminUsername);
      ok := SeedAdmin(now);
    }

    /** `authenticate_teacher`: the name and admin flag of the account matching both credentials. */
    method AuthenticateTeacher(username: string, password: string) returns (name: Option<string>, isAdmin: bool)
      ensures (name, isAdmin) == TeacherLogin(teachers, username, hash(password), adminColumn)
    {
      var r := TeacherLogin(teachers, username, hash(password), adminColumn);
      name, isAdmin := r.0, r.1;
    }

    /** `authenticate_student`: the name of the account matching both credentials. */
    method AuthenticateStudent(rollNo: string, password: string) returns (name: Option<string>)
      ensures name == StudentLogin(students, rollNo, hash(password))
    {
      name := StudentLogin(students, rollNo, hash(password));
    }

    /** `get_student_info`: the student's listing, if the roll number exists. */
    method GetStudentInfo(rollNo: string) returns (info: Option<StudentListing>)
      ensures info == StudentInfo(students, rollNo)
    {
      info := StudentInfo(students, rollNo);
    }

    /** `create_student`: insert, or report the UNIQUE roll number violation with `false`. */
    method CreateStudent(rollNo: string, password: string, fullName: string, className: string,
                         section: string, now: Timestamp) returns (ok: bool)
      requires Valid()
      modifies this`students
      ensures Valid()
      ensures ok <==> !HasRollNo(old(students), rollNo)
      ensures students == if ok then old(students) + [Student(rollNo, hash(password), fullName, className, section, now)]
                          else old(students)
    {
      if HasRollNo(students, rollNo) {
        return false;
      }
      students := students + [Student(rollNo, hash(password), fullName, className, section, now)];
      ok := true;
    }

    /** The "Add Teacher" form: field checks, then the INSERT into `teachers`. */
    method AddTeacher(username: string, fullName: string, password: string, confirm: string,
                      makeAdmin: bool, now: Timestamp) returns (outcome: AddTeacherOutcome)
      requires Valid()
      modifies this`teachers
      ensures Valid()
      ensures outcome == if username == "" || fullName == "" || password == "" || confirm == "" then MissingField
                         else if password != confirm then PasswordMismatch
                         else if !adminColumn then MissingAdminColumn
                         else if HasUsername(old(teachers), username) then UsernameTaken
                         else Added
      ensures teachers == if outcome == Added then old(teachers) + [Teacher(username, hash(password), fullName, now, makeAdmin)]
                          else old(teachers)
    {
      if username == "" || fullName == "" || password == "" || confirm == "" {
        return MissingField;
      }
      if password != confirm {
        return PasswordMismatch;
      }
      if !adminColumn {
        return MissingAdminColumn;
      }
      if HasUsername(teachers, username) {
        return UsernameTaken;
      }
      teachers := teachers + [Teacher(username, hash(password), fullName, now, makeAdmin)];
      outcome := Added;
    }

    /**
     * `add_parent_account`: delete the student's link, insert the new one. The
     * delete clears the only UNIQUE key, so the IntegrityError branch is never taken.
     */
    method AddParentAccount(rollNo: string, email: string, now: Timestamp) returns (ok: bool)
      requires Valid()
      modifies this`parentAccounts
      ensures Valid() && ok
      ensures parentAccounts == Upsert(old(parentAccounts), rollNo, email, now)
    {
      ghost var before := parentAccounts;
      parentAccounts := Upsert(parentAccounts, rollNo, email, now);
      forall other
        ensures |LinksOf(parentAccounts, other)| <= 1
      {
        UpsertLinks(before, rollNo, email, now, other);
      }
      ok := true;
    }

    /** The "Save Email" handler with an empty email: delete the student's link. */
    method RemoveParentAccount(rollNo: string)
      requires Valid()
      modifies this`parentAccounts
      ensures Valid()
      ensures parentAccounts == WithoutLinks(old(parentAccounts), rollNo)
    {
      ghost var before := parentAccounts;
      parentAccounts := WithoutLinks(parentAccounts, rollNo);
      forall other
        ensures |LinksOf(parentAccounts, other)| <= 1
      {
        LinksOfWithout(before, rollNo, other);
      }
    }

    /** The "Save Email" handler: upsert a non-empty email, remove the link for an empty one. */
    method SaveParentEmail(rollNo: string, email: string, now: Timestamp)
      requires Valid()
      modifies this`parentAccounts
      ensures Valid()
      ensures parentAccounts == if email != "" then Upsert(old(parentAccounts), rollNo, email, now)
                                else WithoutLinks(old(parentAccounts), rollNo)
    {
      if email != "" {
        var _ := AddParentAccount(rollNo, email, now);
      } else {
        RemoveParentAccount(rollNo);
      }
    }

    /** `validate_parent_email`: whether this email is linked to this student. */
    method ValidateParentEmail(rollNo: string, email: string) returns (valid: bool)
      ensures valid == HasLink(parentAccounts, rollNo, email)
    {
      valid := HasLink(parentAccounts, rollNo, email);
    }

    /** `get_student_parent_email` */
    method GetStudentParentEmail(rollNo: string) returns (email: Option<string>)
      ensures email == ParentEmail(parentAccounts, rollNo)
    {
      email := ParentEmail(parentAccounts, rollNo);
    }

    /**
     * The parent portal's "Request Meeting" button: with a date and a teacher
     * chosen, insert a Pending request under a fresh id.
     */
    method RequestMeeting(rollNo: string, meetingDate: Option<string>, teacherUsername: string, now: Timestamp)
      returns (id: Option<int>)
      requires Valid()
      modifies this`meetingRequests, this`nextMeetingId
      ensures Valid()
      ensures id.None? <==> meetingDate.None? || teacherUsername == ""
      ensures id.None? ==> meetingRequests == old(meetingRequests) && nextMeetingId == old(nextMeetingId)
      ensures id.Some? ==> id.value == old(nextMeetingId) && nextMeetingId == old(nextMeetingId) + 1
      ensures id.Some? ==> meetingRequests == old(meetingRequests) + [NewRequest(id.value, rollNo, meetingDate.value, teacherUsername, now)]
      ensures id.Some? ==> forall m :: m in old(meetingRequests) ==> m.id != id.value
      ensures id.Some? ==> meetingRequests[|meetingRequests| - 1].status == Pending
    {
      if meetingDate.None? || teacherUsername == "" {
        return None;
      }
      id := Some(nextMeetingId);
      meetingRequests := meetingRequests + [NewRequest(nextMeetingId, rollNo, meetingDate.value, teacherUsername, now)];
      nextMeetingId := nextMeetingId + 1;
    }

    /**
     * `update_meeting_request_status`: set status, notes and answer time on the
     * request with this id, whatever its current status; nothing else changes.
     */
    method UpdateMeetingRequestStatus(id: int, status: string, notes: string, now: Timestamp)
      requires Valid()
      modifies this`meetingRequests
      ensures Valid()
      ensures meetingRequests == WithStatus(old(meetingRequests), id, status, notes, now)
      ensures forall i :: 0 <= i < |meetingRequests| && old(meetingRequests)[i].id != id ==>
        meetingRequests[i] == old(meetingRequests)[i]
      ensures forall i :: 0 <= i < |meetingRequests| && old(meetingRequests)[i].id == id ==>
        meetingRequests[i] == old(meetingRequests)[i].(status := status, teacherNotes := Some(notes), approvalTimestamp := Some(now))
    {
      meetingRequests := WithStatus(meetingRequests, id, status, notes, now);
    }

    /** `get_single_student_meeting_request`: a latest request of the student, if any. */
    method GetSingleStudentMeetingRequest(rollNo: string) returns (request: Option<MeetingRequest>)
      ensures IsLatestRequest(meetingRequests, rollNo, request)
    {
      request := LatestRequest(meetingRequests, rollNo);
    }

    /**
     * `get_meeting_requests`: the selected requests joined with their students,
     * newest first (the order of equal request times is left open).
     */
    method GetMeetingRequests(teacher: Option<string>) returns (rows: seq<MeetingListing>)
      requires Valid()
      ensures multiset(rows) == multiset(JoinStudents(meetingRequests, students, teacher))
      ensures SortedBy(rows, LaterOrSame)
    {
      LaterOrSameIsTotalPreorder();
      rows := SortBy(JoinStudents(meetingRequests, students, teacher), LaterOrSame);
    }

    /** `get_all_students`: every student, ordered by class, section and roll number. */
    method GetAllStudents() returns (rows: seq<StudentListing>)
      requires Valid()
      ensures multiset(rows) == multiset(Listings(students))
      ensures SortedBy(rows, ClassOrder)
    {
      ClassOrderIsTotalPreorder();
      rows := SortBy(Listings(students), ClassOrder);
    }
  }

  /** reports.db: the table `reports`. */
  class ReportsDb {
    var reports: seq<Report>
    /** The AUTOINCREMENT counter of `reports`. */
    var nextReportId: int

    ghost predicate Valid()
      reads this
    {
      && 1 <= nextReportId
      && (forall i :: 0 <= i < |reports| ==> 1 <= reports[i].id < nextReportId)
      && (forall i, j :: 0 <= i < j < |reports| ==> reports[i].id != reports[j].id)
    }

    /** A new file after `init_db`'s CREATE TABLE: no reports. */
    constructor ()
      ensures Valid() && reports == []
    {
      reports, nextReportId := [], 1;
    }

    /**
     * `save_report`: INSERT OR REPLACE without an id and with no other UNIQUE
     * key, so the row always gets a fresh id and is appended; nothing is replaced.
     */
    method SaveReport(data: ReportData, now: Timestamp)
      requires Valid()
      modifies this
      ensures Valid()
      ensures forall x :: x in old(reports) ==> x.id != old(nextReportId)
      ensures reports == old(reports) + [Report(old(nextReportId), data, now)]
      ensures nextReportId == old(nextReportId) + 1
    {
      reports := reports + [Report(nextReportId, data, now)];
      nextReportId := nextReportId + 1;
    }

    /** The "Save Marks" button: build the report card from the marks and save it. */
    method SubmitMarks(student: StudentListing, marks: seq<int>, now: Timestamp)
      requires Valid()
      modifies this
      ensures Valid()
      ensures reports == old(reports) + [Report(old(nextReportId), BuildReport(student, marks), now)]
      ensures nextReportId == old(nextReportId) + 1
    {
      SaveReport(BuildReport(student, marks), now);
    }

    /** `get_student_report`: a latest report of the student, if any. */
    method GetStudentReport(rollNo: string) returns (report: Option<Report>)
      ensures IsLatestReport(reports, rollNo, report)
    {
      report := LatestReport(reports, rollNo);
    }

    /**
     * `predict_student_performance`: read the student's reports ordered by
     * timestamp (`history`, ties in any order) and predict from them.
     */
    method PredictStudentPerformance(rollNo: string, fit: Predictor.Regression)
      returns (prediction: Option<real>, ghost history: seq<Report>)
      ensures multiset(history) == multiset(ReportsOf(reports, rollNo)) && SortedBy(history, EarlierOrSame)
      ensures prediction == Predictor.Predict(history, fit)
      ensures |ReportsOf(reports, rollNo)| < Predictor.MinHistory ==> prediction.None?
      ensures prediction.Some? ==> 0.0 <= prediction.value <= 100.0
    {
      EarlierOrSameIsTotalPreorder();
      var h := SortBy(ReportsOf(reports, rollNo), EarlierOrSame);
      assert |h| == |multiset(h)| == |ReportsOf(reports, rollNo)|;
      prediction := Predictor.Predict(h, fit);
      history := h;
    }
  }
}
