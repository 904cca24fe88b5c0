/**
 * The rows of the five tables of the two SQLite files (users.db and
 * reports.db) and the queries and updates on them, as functions of the
 * table contents.
 */
module Tables {
  import opened Wrappers
  import opened Sequences
  import Grading

  /** Seconds; the stored "%Y-%m-%d %H:%M:%S" text sorts like this number. */
  type Timestamp = int

  /** The seeded administrator account. */
  const AdminUsername: string := "Lam"
  const AdminPassword: string := "Lam123"
  const AdminFullName: string := "Admin Teacher"

  /** The status a new meeting request is stored with. */
  const Pending: string := "Pending"

  /** A `teachers` row; `id` is not modelled (no query reads it). */
  datatype Teacher = Teacher(
    username: string, passwordHash: string, fullName: string, createdAt: Timestamp, isAdmin: bool)

  /** A `students` row; `id` is not modelled (no query reads it). */
  datatype Student = Student(
    rollNo: string, passwordHash: string, fullName: string,
    className: string, section: string, createdAt: Timestamp)

  /** A `parent_accounts` row; `id` is not modelled (no query reads it). */
  datatype ParentAccount = ParentAccount(studentRollNo: string, parentEmail: string, createdAt: Timestamp)

  /** A `meeting_requests` row; the nullable columns are options. */
  datatype MeetingRequest = MeetingRequest(
    id: int, rollNo: string, meetingDate: string, requestedAt: Timestamp, status: string,
    teacherNotes: Option<string>, approvalTimestamp: Option<Timestamp>, teacherUsername: Option<string>)

  /** The values of a report card, as `save_report` receives them; `percentage` in hundredths. */
  datatype ReportData = ReportData(
    name: string, rollNo: string, className: string, section: string,
    marks: seq<int>, total: int, percentage: int, grade: string)

  /** A `reports` row. */
  datatype Report = Report(id: int, data: ReportData, timestamp: Timestamp)

  /** A row of `get_all_students`. */
  datatype StudentListing = StudentListing(rollNo: string, fullName: string, className: string, section: string)

  /** A row of `get_meeting_requests`: a request joined with its student's name. */
  datatype MeetingListing = MeetingListing(
    id: int, rollNo: string, studentName: string, meetingDate: string,
    requestedAt: Timestamp, status: string, teacherNotes: Option<string>)

  // ---------------------------------------------------------------- teachers

  /** The UNIQUE constraint on `teachers.username`. */
  ghost predicate UniqueUsernames(ts: seq<Teacher>)
  {
    forall i, j :: 0 <= i < j < |ts| ==> ts[i].username != ts[j].username
  }

  predicate HasUsername(ts: seq<Teacher>, username: string)
  {
    exists i :: 0 <= i < |ts| && ts[i].username == username
  }

  /** The row `init_db` seeds when no administrator exists yet. */
  function AdminSeed(hash: string -> string, now: Timestamp): (t: Teacher)
    ensures t.username == AdminUsername && t.isAdmin
    ensures TeacherLogin([t], AdminUsername, hash(AdminPassword), true) == (Some(AdminFullName), true)
  {
    Teacher(AdminUsername, hash(AdminPassword), AdminFullName, now, true)
  }

  /**
   * `SELECT full_name, is_admin FROM teachers WHERE username=? AND password=?`.
   * Without the `is_admin` column the source falls back to "only Lam is admin".
   */
  function TeacherLogin(ts: seq<Teacher>, username: string, pwHash: string, adminColumn: bool): (r: (Option<string>, bool))
    ensures r.0.None? <==> forall t :: t in ts ==> !(t.username == username && t.passwordHash == pwHash)
    ensures r.0.None? ==> !r.1
    ensures r.0.Some? ==> exists t :: (t in ts && t.username == username && t.passwordHash == pwHash
      && r.0.value == t.fullName && r.1 == (if adminColumn then t.isAdmin else username == AdminUsername))
  {
    match FirstWhere(ts, (t: Teacher) => t.username == username && t.passwordHash == pwHash)
    case None => (None, false)
    case Some(t) => (Some(t.fullName), if adminColumn then t.isAdmin else username == AdminUsername)
  }

  /** With unique usernames the stored name and flag of the matching account are returned. */
  lemma TeacherLoginFindsAccount(ts: seq<Teacher>, k: int, adminColumn: bool)
    requires UniqueUsernames(ts) && 0 <= k < |ts|
    ensures TeacherLogin(ts, ts[k].username, ts[k].passwordHash, adminColumn)
         == (Some(ts[k].fullName), if adminColumn then ts[k].isAdmin else ts[k].username == AdminUsername)
  {
    var r := TeacherLogin(ts, ts[k].username, ts[k].passwordHash, adminColumn);
    assert ts[k] in ts;
    var t :| t in ts && t.username == ts[k].username && t.passwordHash == ts[k].passwordHash
      && r.0.value == t.fullName && r.1 == (if adminColumn then t.isAdmin else ts[k].username == AdminUsername);
    var j :| 0 <= j < |ts| && ts[j] == t;
    assert j == k;
  }

  /** A wrong password for an existing username is rejected. */
  lemma TeacherWrongPassword(ts: seq<Teacher>, k: int, pwHash: string, adminColumn: bool)
    requires UniqueUsernames(ts) && 0 <= k < |ts| && pwHash != ts[k].passwordHash
    ensures TeacherLogin(ts, ts[k].username, pwHash, adminColumn) == (None, false)
  {
    forall t | t in ts
      ensures !(t.username == ts[k].username && t.passwordHash == pwHash)
    {
      var j :| 0 <= j < |ts| && ts[j] == t;
      if j != k {
        assert j < k || k < j;
      }
    }
  }

  /** `ALTER TABLE ... ADD COLUMN is_admin DEFAULT 0` then `UPDATE ... SET is_admin = 1 WHERE username = 'Lam'`. */
  function WithAdminColumn(ts: seq<Teacher>): (r: seq<Teacher>)
    ensures |r| == |ts|
    ensures forall i :: 0 <= i < |ts| ==> r[i].(isAdmin := ts[i].isAdmin) == ts[i]
    ensures forall i :: 0 <= i < |ts| ==> (r[i].isAdmin <==> ts[i].username == AdminUsername)
  {
    seq(|ts|, i requires 0 <= i < |ts| => ts[i].(isAdmin := ts[i].username == AdminUsername))
  }

  // ---------------------------------------------------------------- students

  /** The UNIQUE constraint on `students.roll_no`. */
  ghost predicate UniqueRollNos(ss: seq<Student>)
  {
    forall i, j :: 0 <= i < j < |ss| ==> ss[i].rollNo != ss[j].rollNo
  }

  predicate HasRollNo(ss: seq<Student>, rollNo: string)
  {
    exists i :: 0 <= i < |ss| && ss[i].rollNo == rollNo
  }

  /** `SELECT full_name FROM students WHERE roll_no=? AND password=?`. */
  function StudentLogin(ss: seq<Student>, rollNo: string, pwHash: string): (r: Option<string>)
    ensures r.None? <==> forall s :: s in ss ==> !(s.rollNo == rollNo && s.passwordHash == pwHash)
    ensures r.Some? ==> exists s :: s in ss && s.rollNo == rollNo && s.passwordHash == pwHash && r.value == s.fullName
  {
    match FirstWhere(ss, (s: Student) => s.rollNo == rollNo && s.passwordHash == pwHash)
    case None => None
    case Some(s) => Some(s.fullName)
  }

  /** A student just created with a fresh roll number logs in with its password and gets its name. */
  lemma CreatedStudentLogsIn(ss: seq<Student>, row: Student)
    requires UniqueRollNos(ss) && !HasRollNo(ss, row.rollNo)
    ensures StudentLogin(ss + [row], row.rollNo, row.passwordHash) == Some(row.fullName)
  {
    var ss' := ss + [row];
    assert row in ss';
  }

  /** A wrong password for an existing roll number is rejected. */
  lemma StudentWrongPassword(ss: seq<Student>, k: int, pwHash: string)
    requires UniqueRollNos(ss) && 0 <= k < |ss| && pwHash != ss[k].passwordHash
    ensures StudentLogin(ss, ss[k].rollNo, pwHash) == None
  {
    forall s | s in ss
      ensures !(s.rollNo == ss[k].rollNo && s.passwordHash == pwHash)
    {
      var j :| 0 <= j < |ss| && ss[j] == s;
      if j != k {
        assert j < k || k < j;
      }
    }
  }

  /**
   * `get_student_info`: `SELECT roll_no, full_name, class, section FROM students
   * WHERE roll_no=?` and `fetchone`; the empty dict becomes None.
   */
  function StudentInfo(ss: seq<Student>, rollNo: string): (r: Option<StudentListing>)
    ensures r.None? <==> !HasRollNo(ss, rollNo)
    ensures r.Some? ==> exists s :: s in ss && s.rollNo == rollNo && r.value == ListingOf(s)
  {
    match FirstWhere(ss, (s: Student) => s.rollNo == rollNo)
    case None =>
      assert forall i :: 0 <= i < |ss| ==> ss[i] in ss;
      None
    case Some(s) => Some(ListingOf(s))
  }

  /** With unique roll numbers, the student found is the one with that roll number. */
  lemma StudentInfoFindsStudent(ss: seq<Student>, k: int)
    requires UniqueRollNos(ss) && 0 <= k < |ss|
    ensures StudentInfo(ss, ss[k].rollNo) == Some(ListingOf(ss[k]))
  {
    var r := StudentInfo(ss, ss[k].rollNo);
    var s :| s in ss && s.rollNo == ss[k].rollNo && r.value == ListingOf(s);
    var j :| 0 <= j < |ss| && ss[j] == s;
  }

  function ListingOf(s: Student): StudentListing
  {
    StudentListing(s.rollNo, s.fullName, s.className, s.section)
  }

  function Listings(ss: seq<Student>): (r: seq<StudentListing>)
    ensures |r| == |ss|
  {
    seq(|ss|, i requires 0 <= i < |ss| => ListingOf(ss[i]))
  }

  /** `ORDER BY class, section, roll_no` under the BINARY collation. */
  predicate ClassOrder(a: StudentListing, b: StudentListing)
  {
    if a.className != b.className then LexLe(a.className, b.className)
    else if a.section != b.section then LexLe(a.section, b.section)
    else LexLe(a.rollNo, b.rollNo)
  }

  lemma ClassOrderTransitive(a: StudentListing, b: StudentListing, c: StudentListing)
    requires ClassOrder(a, b) && ClassOrder(b, c)
    ensures ClassOrder(a, c)
  {
    if a.className != b.className || b.className != c.className {
      StringStep(a.className, b.className, c.className);
    } else if a.section != b.section || b.section != c.section {
      StringStep(a.section, b.section, c.section);
    } else {
      LexLeTransitive(a.rollNo, b.rollNo, c.rollNo);
    }
  }

  /** One column of a lexicographic ORDER BY where the first two steps are not both ties. */
  lemma StringStep(x: string, y: string, z: string)
    requires x != y || y != z
    requires x != y ==> LexLe(x, y)
    requires y != z ==> LexLe(y, z)
    ensures x != z && LexLe(x, z)
  {
    if x == y {
    } else if y == z {
    } else {
      LexLeTransitive(x, y, z);
      if x == z {
        LexLeAntisymmetric(x, y);
      }
    }
  }

  lemma ClassOrderIsTotalPreorder()
    ensures TotalPreorder(ClassOrder)
  {
    forall a, b
      ensures ClassOrder(a, b) || ClassOrder(b, a)
    {
      LexLeTotal(a.className, b.className);
      LexLeTotal(a.section, b.section);
      LexLeTotal(a.rollNo, b.rollNo);
    }
    forall a, b, c | ClassOrder(a, b) && ClassOrder(b, c)
      ensures ClassOrder(a, c)
    {
      ClassOrderTransitive(a, b, c);
    }
  }

  /** Rows tied both ways by ClassOrder have the same class, section and roll number. */
  lemma ClassOrderAntisymmetric(a: StudentListing, b: StudentListing)
    requires ClassOrder(a, b) && ClassOrder(b, a)
    ensures a.className == b.className && a.section == b.section && a.rollNo == b.rollNo
  {
    if a.className != b.className {
      LexLeAntisymmetric(a.className, b.className);
    } else if a.section != b.section {
      LexLeAntisymmetric(a.section, b.section);
    } else {
      LexLeAntisymmetric(a.rollNo, b.rollNo);
    }
  }

  /**
   * Roll numbers are unique, so `ORDER BY class, section, roll_no` leaves no
   * ties: any two sorted listings of the students are the same sequence.
   */
  lemma StudentOrderDetermined(ss: seq<Student>, rows1: seq<StudentListing>, rows2: seq<StudentListing>)
    requires UniqueRollNos(ss)
    requires multiset(rows1) == multiset(Listings(ss)) && SortedBy(rows1, ClassOrder)
    requires multiset(rows2) == multiset(Listings(ss)) && SortedBy(rows2, ClassOrder)
    ensures rows1 == rows2
  {
    forall x, y | x in rows1 && y in rows1 && ClassOrder(x, y) && ClassOrder(y, x)
      ensures x == y
    {
      ClassOrderAntisymmetric(x, y);
      assert x in multiset(Listings(ss)) && y in multiset(Listings(ss));
      var i :| 0 <= i < |ss| && Listings(ss)[i] == x;
      var j :| 0 <= j < |ss| && Listings(ss)[j] == y;
    }
    SortedUnique(rows1, rows2, ClassOrder);
  }

  // --------------------------------------------------------- parent_accounts

  /** `WHERE student_roll_no = rollNo` on `parent_accounts`. */
  function LinkedTo(rollNo: string): ParentAccount -> bool
  {
    (x: ParentAccount) => x.studentRollNo == rollNo
  }

  /** The rows the DELETE for `rollNo` keeps. */
  function NotLinkedTo(rollNo: string): ParentAccount -> bool
  {
    (x: ParentAccount) => x.studentRollNo != rollNo
  }

  /** The rows of `parent_accounts` for one student, in table order. */
  function LinksOf(ps: seq<ParentAccount>, rollNo: string): seq<ParentAccount>
  {
    Where(ps, LinkedTo(rollNo))
  }

  /** The UNIQUE constraint on `parent_accounts.student_roll_no`. */
  ghost predicate AtMostOneLink(ps: seq<ParentAccount>)
  {
    forall rollNo :: |LinksOf(ps, rollNo)| <= 1
  }

  /** `DELETE FROM parent_accounts WHERE student_roll_no=?`. */
  function WithoutLinks(ps: seq<ParentAccount>, rollNo: string): seq<ParentAccount>
  {
    Where(ps, NotLinkedTo(rollNo))
  }

  /** The delete-then-insert upsert of `add_parent_account`. */
  function Upsert(ps: seq<ParentAccount>, rollNo: string, email: string, now: Timestamp): (r: seq<ParentAccount>)
    ensures forall x :: x in r <==> x == ParentAccount(rollNo, email, now) || (x in ps && x.studentRollNo != rollNo)
    ensures |r| <= |ps| + 1
  {
    WithoutLinks(ps, rollNo) + [ParentAccount(rollNo, email, now)]
  }

  /** After the DELETE the student has no links, and every other student's links are as before. */
  lemma LinksOfWithout(ps: seq<ParentAccount>, rollNo: string, other: string)
    ensures LinksOf(WithoutLinks(ps, rollNo), other) == if other == rollNo then [] else LinksOf(ps, other)
  {
    if other != rollNo {
      WhereOfWhere(ps, NotLinkedTo(rollNo), LinkedTo(other));
    } else {
      WhereNone(WithoutLinks(ps, rollNo), LinkedTo(other));
    }
  }

  /**
   * After the upsert exactly one row belongs to the student, carrying the new
   * email; the rows of every other student are as before.
   */
  lemma UpsertLinks(ps: seq<ParentAccount>, rollNo: string, email: string, now: Timestamp, other: string)
    ensures LinksOf(Upsert(ps, rollNo, email, now), other)
         == if other == rollNo then [ParentAccount(rollNo, email, now)] else LinksOf(ps, other)
  {
    WhereAppend(WithoutLinks(ps, rollNo), ParentAccount(rollNo, email, now), LinkedTo(other));
    LinksOfWithout(ps, rollNo, other);
  }

  /** `SELECT parent_email FROM parent_accounts WHERE student_roll_no=?`, first row. */
  function ParentEmail(ps: seq<ParentAccount>, rollNo: string): (r: Option<string>)
    ensures r.None? <==> forall x :: x in ps ==> x.studentRollNo != rollNo
    ensures r.Some? ==> exists x :: x in ps && x.studentRollNo == rollNo && x.parentEmail == r.value
  {
    var links := LinksOf(ps, rollNo);
    if links == [] then None
    else
      assert links[0] in links;
      Some(links[0].parentEmail)
  }

  /** `SELECT 1 FROM parent_accounts WHERE student_roll_no=? AND parent_email=?`. */
  function HasLink(ps: seq<ParentAccount>, rollNo: string, email: string): (b: bool)
    ensures b <==> exists x :: x in ps && x.studentRollNo == rollNo && x.parentEmail == email
  {
    FirstWhere(ps, (x: ParentAccount) => x.studentRollNo == rollNo && x.parentEmail == email).Some?
  }

  /** After the upsert the student's parent email is the new one, and only it validates. */
  lemma UpsertThenLookup(ps: seq<ParentAccount>, rollNo: string, email: string, now: Timestamp)
    ensures ParentEmail(Upsert(ps, rollNo, email, now), rollNo) == Some(email)
    ensures forall e :: HasLink(Upsert(ps, rollNo, email, now), rollNo, e) <==> e == email
  {
    var ps' := Upsert(ps, rollNo, email, now);
    UpsertLinks(ps, rollNo, email, now, rollNo);
    assert LinksOf(ps', rollNo) == [ParentAccount(rollNo, email, now)];
    forall e
      ensures HasLink(ps', rollNo, e) <==> e == email
    {
      if HasLink(ps', rollNo, e) {
        var x :| x in ps' && x.studentRollNo == rollNo && x.parentEmail == e;
        assert x in LinksOf(ps', rollNo);
      } else {
        assert ParentAccount(rollNo, email, now) in ps';
      }
    }
  }

  /** After the removal the student has no parent email and no email validates. */
  lemma RemoveThenLookup(ps: seq<ParentAccount>, rollNo: string)
    ensures ParentEmail(WithoutLinks(ps, rollNo), rollNo) == None
    ensures forall e :: !HasLink(WithoutLinks(ps, rollNo), rollNo, e)
  {
  }

  // -------------------------------------------------------- meeting_requests

  /** The row inserted by the parent portal's "Request Meeting" button. */
  function NewRequest(id: int, rollNo: string, meetingDate: string, teacher: string, now: Timestamp): (m: MeetingRequest)
    ensures m.id == id && m.rollNo == rollNo && m.meetingDate == meetingDate && m.requestedAt == now
    ensures m.status == Pending && m.teacherNotes.None? && m.approvalTimestamp.None?
    ensures Selected(m, Some(teacher))
  {
    MeetingRequest(id, rollNo, meetingDate, now, Pending, None, None, Some(teacher))
  }

  /** `UPDATE meeting_requests SET status=?, teacher_notes=?, approval_timestamp=? WHERE id=?`. */
  function WithStatus(ms: seq<MeetingRequest>, id: int, status: string, notes: string, now: Timestamp): (r: seq<MeetingRequest>)
    ensures |r| == |ms|
    ensures forall i :: 0 <= i < |ms| ==> r[i].id == ms[i].id && r[i].rollNo == ms[i].rollNo && r[i].requestedAt == ms[i].requestedAt
  {
    seq(|ms|, i requires 0 <= i < |ms| =>
      if ms[i].id == id then ms[i].(status := status, teacherNotes := Some(notes), approvalTimestamp := Some(now))
      else ms[i])
  }

  /**
   * `r` is a possible answer of `WHERE roll_no = ? ORDER BY requested_at DESC LIMIT 1`:
   * empty exactly when the student has no request, otherwise one of its requests
   * with the greatest request time (SQLite leaves the choice among ties open).
   */
  ghost predicate IsLatestRequest(ms: seq<MeetingRequest>, rollNo: string, r: Option<MeetingRequest>)
  {
    && (r.None? <==> forall m :: m in ms ==> m.rollNo != rollNo)
    && (r.Some? ==> r.value in ms && r.value.rollNo == rollNo)
    && (r.Some? ==> forall m :: m in ms && m.rollNo == rollNo ==> m.requestedAt <= r.value.requestedAt)
  }

  function LatestRequest(ms: seq<MeetingRequest>, rollNo: string): (r: Option<MeetingRequest>)
    ensures IsLatestRequest(ms, rollNo, r)
  {
    LatestWhere(ms, (m: MeetingRequest) => m.rollNo == rollNo, (m: MeetingRequest) => m.requestedAt)
  }

  /**
   * A request created after every earlier request of its student and then
   * answered is what that student's latest-request query shows, with the
   * teacher's status, notes and answer time.
   */
  lemma AnsweredRequestIsLatest(ms: seq<MeetingRequest>, m: MeetingRequest, status: string, notes: string,
                                now: Timestamp, r: Option<MeetingRequest>)
    requires forall x :: x in ms ==> x.id != m.id && (x.rollNo == m.rollNo ==> x.requestedAt < m.requestedAt)
    requires IsLatestRequest(WithStatus(ms + [m], m.id, status, notes, now), m.rollNo, r)
    ensures r == Some(m.(status := status, teacherNotes := Some(notes), approvalTimestamp := Some(now)))
  {
    var all := ms + [m];
    var ms' := WithStatus(all, m.id, status, notes, now);
    var m' := m.(status := status, teacherNotes := Some(notes), approvalTimestamp := Some(now));
    assert ms'[|ms|] == m';
    assert m' in ms';
    var k :| 0 <= k < |ms'| && ms'[k] == r.value;
    assert k == |ms|;
  }

  /** Requests kept by `get_meeting_requests`: all when no teacher is given (or it is empty). */
  predicate Selected(m: MeetingRequest, teacher: Option<string>)
  {
    teacher.None? || teacher.value == "" || m.teacherUsername == Some(teacher.value)
  }

  function MeetingListingOf(m: MeetingRequest, s: Student): MeetingListing
  {
    MeetingListing(m.id, m.rollNo, s.fullName, m.meetingDate, m.requestedAt, m.status, m.teacherNotes)
  }

  /** The joined row for one request: none when no student has its roll number. */
  function JoinOne(m: MeetingRequest, ss: seq<Student>): (r: seq<MeetingListing>)
    ensures |r| <= 1
    ensures r != [] ==> exists s :: s in ss && s.rollNo == m.rollNo && r[0] == MeetingListingOf(m, s)
    ensures r == [] <==> forall s :: s in ss ==> s.rollNo != m.rollNo
  {
    match FirstWhere(ss, (s: Student) => s.rollNo == m.rollNo)
    case None => []
    case Some(s) => [MeetingListingOf(m, s)]
  }

  /** `FROM meeting_requests mr JOIN students s ON mr.roll_no = s.roll_no [WHERE mr.teacher_username = ?]`. */
  function JoinStudents(ms: seq<MeetingRequest>, ss: seq<Student>, teacher: Option<string>): (r: seq<MeetingListing>)
    ensures |r| <= |ms|
  {
    if ms == [] then []
    else (if Selected(ms[0], teacher) then JoinOne(ms[0], ss) else []) + JoinStudents(ms[1..], ss, teacher)
  }

  /** Every listed row is a selected request joined with a student of the same roll number. */
  lemma {:induction false} JoinSound(ms: seq<MeetingRequest>, ss: seq<Student>, teacher: Option<string>, x: MeetingListing)
    requires x in JoinStudents(ms, ss, teacher)
    ensures exists m, s :: (m in ms && s in ss && Selected(m, teacher)
      && s.rollNo == m.rollNo && x == MeetingListingOf(m, s))
  {
    var head := if Selected(ms[0], teacher) then JoinOne(ms[0], ss) else [];
    if x in head {
      assert ms[0] in ms;
    } else {
      JoinSound(ms[1..], ss, teacher, x);
      var m, s :| m in ms[1..] && s in ss && Selected(m, teacher) && s.rollNo == m.rollNo && x == MeetingListingOf(m, s);
      assert m in ms;
    }
  }

  /** Every selected request whose student exists is listed. */
  lemma {:induction false} JoinComplete(ms: seq<MeetingRequest>, ss: seq<Student>, teacher: Option<string>, k: int)
    requires 0 <= k < |ms| && Selected(ms[k], teacher)
    requires exists s :: s in ss && s.rollNo == ms[k].rollNo
    ensures exists s :: s in ss && s.rollNo == ms[k].rollNo && MeetingListingOf(ms[k], s) in JoinStudents(ms, ss, teacher)
  {
    var head := if Selected(ms[0], teacher) then JoinOne(ms[0], ss) else [];
    assert JoinStudents(ms, ss, teacher) == head + JoinStudents(ms[1..], ss, teacher);
    if k == 0 {
      var s :| s in ss && s.rollNo == ms[0].rollNo && head[0] == MeetingListingOf(ms[0], s);
      assert head[0] in JoinStudents(ms, ss, teacher);
    } else {
      JoinComplete(ms[1..], ss, teacher, k - 1);
      var s :| s in ss && s.rollNo == ms[k].rollNo && MeetingListingOf(ms[k], s) in JoinStudents(ms[1..], ss, teacher);
      assert MeetingListingOf(ms[k], s) in JoinStudents(ms, ss, teacher);
    }
  }

  /** `ORDER BY requested_at DESC`. */
  predicate LaterOrSame(a: MeetingListing, b: MeetingListing)
  {
    a.requestedAt >= b.requestedAt
  }

  lemma LaterOrSameIsTotalPreorder()
    ensures TotalPreorder(LaterOrSame)
  {
  }

  // ----------------------------------------------------------------- reports

  /** The report card the "Enter Marks" form builds for a student from six marks. */
  function BuildReport(student: StudentListing, marks: seq<int>): (r: ReportData)
    ensures r.name == student.fullName && r.rollNo == student.rollNo
    ensures r.className == student.className && r.section == student.section && r.marks == marks
    ensures r.total == Grading.Total(marks)
    ensures -1 <= 3 * r.percentage - 50 * r.total <= 1
    ensures r.grade == Grading.TotalBand(r.total).Label()
  {
    var total := Grading.Total(marks);
    var percentage := Grading.Percentage(total);
    Grading.GradeByTotal(total);
    ReportData(student.fullName, student.rollNo, student.className, student.section,
               marks, total, percentage, Grading.GradeOf(percentage).Label())
  }

  /** With marks from the six 0..100 inputs, the total is in 0..600 and the percentage in 0..100.00. */
  lemma BuildReportConsistent(student: StudentListing, marks: seq<int>)
    requires Grading.ValidMarks(marks)
    ensures 0 <= BuildReport(student, marks).total <= 600 && 0 <= BuildReport(student, marks).percentage <= 10000
  {
    Grading.ValidTotal(marks);
  }

  /** `WHERE roll_no = rollNo` on `reports`. */
  function ReportFor(rollNo: string): Report -> bool
  {
    (x: Report) => x.data.rollNo == rollNo
  }

  /** The reports of one student, in table order. */
  function ReportsOf(rs: seq<Report>, rollNo: string): seq<Report>
  {
    Where(rs, ReportFor(rollNo))
  }

  /**
   * `r` is a possible answer of `WHERE roll_no = ? ORDER BY timestamp DESC LIMIT 1`:
   * empty exactly when the student has no report, otherwise one of its reports
   * with the greatest timestamp.
   */
  ghost predicate IsLatestReport(rs: seq<Report>, rollNo: string, r: Option<Report>)
  {
    && (r.None? <==> forall x :: x in rs ==> x.data.rollNo != rollNo)
    && (r.Some? ==> r.value in rs && r.value.data.rollNo == rollNo)
    && (r.Some? ==> forall x :: x in rs && x.data.rollNo == rollNo ==> x.timestamp <= r.value.timestamp)
  }

  function LatestReport(rs: seq<Report>, rollNo: string): (r: Option<Report>)
    ensures IsLatestReport(rs, rollNo, r)
  {
    LatestWhere(rs, (x: Report) => x.data.rollNo == rollNo, (x: Report) => x.timestamp)
  }

  /** After saving a report no earlier than every stored one, the student's latest report carries its date. */
  lemma SavedReportIsLatest(rs: seq<Report>, x: Report, r: Option<Report>)
    requires forall y :: y in rs ==> y.timestamp <= x.timestamp
    requires IsLatestReport(rs + [x], x.data.rollNo, r)
    ensures r.Some? && r.value.timestamp == x.timestamp
  {
    assert x in rs + [x];
  }

  /** `ORDER BY timestamp` (ascending). */
  predicate EarlierOrSame(a: Report, b: Report)
  {
    a.timestamp <= b.timestamp
  }

  lemma EarlierOrSameIsTotalPreorder()
    ensures TotalPreorder(EarlierOrSame)
  {
  }
}
