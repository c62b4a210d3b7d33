/**
 The data-access layer: one point lookup, one filtered and paged listing and
 one insert per table. Queries without an `ORDER BY` return rows in table
 (insertion) order; every insert takes the generated identifier and the clock
 reading as parameters.
 */
module Crud {
  import opened Wrappers
  import opened Query
  import opened Sorting
  import opened Models

  /** Python truthiness of an optional filter value: `None` and `""` both mean "no filter". */
  predicate Given(f: Option<string>) {
    f.Some? && f.value != ""
  }

  /** A column value passes an optional equality filter. */
  predicate Admits(f: Option<string>, v: string) {
    !Given(f) || v == f.value
  }

  /** `if f: query = query.filter(column == f)` */
  function Narrow<T>(s: seq<T>, f: Option<string>, column: T -> string): (r: seq<T>)
    ensures forall i :: 0 <= i < |r| ==> r[i] in s && Admits(f, column(r[i]))
    ensures forall i :: 0 <= i < |s| && Admits(f, column(s[i])) ==> s[i] in r
    ensures !Given(f) ==> r == s
  {
    if Given(f) then Filter(s, x => column(x) == f.value) else s
  }

  /** A conditional filter is the plain filter on the predicate `Admits`. */
  lemma NarrowIsFilter<T>(s: seq<T>, f: Option<string>, column: T -> string, p: T -> bool)
    requires forall x :: p(x) == Admits(f, column(x))
    ensures Narrow(s, f, column) == Filter(s, p)
  {
    if Given(f) {
      FilterSame(s, x => column(x) == f.value, p);
    } else {
      FilterKeepsAll(s, p);
    }
  }

  /** The result of an insert: the new store and the row that was added. */
  datatype Created<T> = Created(db: Store, row: T)

  // ---------------------------------------------------------------- users

  function GetUser(db: Store, userId: Id): (r: Option<User>)
    ensures r.None? <==> forall i :: 0 <= i < |db.users| ==> db.users[i].id != userId
    ensures r.Some? ==> r.value in db.users && r.value.id == userId
  {
    FindBy(db.users, UserId, userId)
  }

  function GetUserByEmail(db: Store, email: string): (r: Option<User>)
    ensures r.None? <==> forall i :: 0 <= i < |db.users| ==> db.users[i].body.email != email
    ensures r.Some? ==> r.value in db.users && r.value.body.email == email
  {
    FindBy(db.users, UserEmail, email)
  }

  function GetUsers(db: Store, skip: nat, limit: nat): (r: seq<User>)
    ensures |r| <= limit
    ensures forall i :: 0 <= i < |r| ==> skip + i < |db.users| && r[i] == db.users[skip + i]
    ensures skip >= |db.users| ==> r == []
    ensures skip < |db.users| ==> |r| == Min(limit, |db.users| - skip)
  {
    Page(db.users, skip, limit)
  }

  function CreateUser(db: Store, user: UserCreate, id: Id, now: Timestamp): (r: Created<User>)
    requires GetUser(db, id).None?
    ensures |r.db.users| == |db.users| + 1
    ensures r.db.users[..|db.users|] == db.users && r.db.users[|db.users|] == r.row
    ensures r.row.id == id && r.row.body == user && r.row.createdAt == now
    ensures r.db.(users := db.users) == db
    ensures GetUser(r.db, id) == Some(r.row)
    ensures KeysUnique(db) ==> KeysUnique(r.db)
  {
    var u := User(id, user, now);
    AppendFresh(db.users, UserId, u);
    Created(db.(users := db.users + [u]), u)
  }

  // ---------------------------------------------------------- assignments

  function GetAssignment(db: Store, assignmentId: Id): (r: Option<Assignment>)
    ensures r.None? <==> forall i :: 0 <= i < |db.assignments| ==> db.assignments[i].id != assignmentId
    ensures r.Some? ==> r.value in db.assignments && r.value.id == assignmentId
  {
    FindBy(db.assignments, AssignmentId, assignmentId)
  }

  function AssignmentDepartment(a: Assignment): string { a.body.department }
  function AssignmentSemester(a: Assignment): string { a.body.semester }

  predicate AssignmentMatches(a: Assignment, department: Option<string>, semester: Option<string>) {
    Admits(department, a.body.department) && Admits(semester, a.body.semester)
  }

  function GetAssignments(db: Store, skip: nat, limit: nat, department: Option<string>, semester: Option<string>)
    : (r: seq<Assignment>)
    ensures |r| <= limit
    ensures forall i :: 0 <= i < |r| ==> r[i] in db.assignments && AssignmentMatches(r[i], department, semester)
    ensures !Given(department) && !Given(semester) ==> r == Page(db.assignments, skip, limit)
  {
    var byDepartment := Narrow(db.assignments, department, AssignmentDepartment);
    var bySemester := Narrow(byDepartment, semester, AssignmentSemester);
    Page(bySemester, skip, limit)
  }

  /** The filters are AND-combined: the listing is a page of the one filter on both conditions. */
  lemma GetAssignmentsIsFilterPage(db: Store, skip: nat, limit: nat, department: Option<string>, semester: Option<string>)
    ensures GetAssignments(db, skip, limit, department, semester)
         == Page(Filter(db.assignments, a => AssignmentMatches(a, department, semester)), skip, limit)
  {
    var pd := (a: Assignment) => Admits(department, a.body.department);
    var ps := (a: Assignment) => Admits(semester, a.body.semester);
    NarrowIsFilter(db.assignments, department, AssignmentDepartment, pd);
    NarrowIsFilter(Filter(db.assignments, pd), semester, AssignmentSemester, ps);
    FilterThenFilter(db.assignments, pd, ps, a => AssignmentMatches(a, department, semester));
  }

  function CreateAssignment(db: Store, assignment: AssignmentCreate, id: Id, now: Timestamp)
    : (r: Created<Assignment>)
    requires GetAssignment(db, id).None?
    ensures |r.db.assignments| == |db.assignments| + 1
    ensures r.db.assignments[..|db.assignments|] == db.assignments && r.db.assignments[|db.assignments|] == r.row
    ensures r.row.id == id && r.row.body == assignment && r.row.createdAt == now
    ensures r.db.(assignments := db.assignments) == db
    ensures GetAssignment(r.db, id) == Some(r.row)
    ensures KeysUnique(db) ==> KeysUnique(r.db)
  {
    var a := Assignment(id, assignment, now);
    AppendFresh(db.assignments, AssignmentId, a);
    Created(db.(assignments := db.assignments + [a]), a)
  }

  // ------------------------------------------------------------- lectures

  function GetLecture(db: Store, lectureId: Id): (r: Option<Lecture>)
    ensures r.None? <==> forall i :: 0 <= i < |db.lectures| ==> db.lectures[i].id != lectureId
    ensures r.Some? ==> r.value in db.lectures && r.value.id == lectureId
  {
    FindBy(db.lectures, LectureId, lectureId)
  }

  function LectureDepartment(l: Lecture): string { l.body.department }
  function LectureSemester(l: Lecture): string { l.body.semester }
  function LectureDate(l: Lecture): string { l.body.date }

  predicate LectureMatches(l: Lecture, department: Option<string>, semester: Option<string>, date: Option<string>) {
    Admits(department, l.body.department) && Admits(semester, l.body.semester) && Admits(date, l.body.date)
  }

  function GetLectures(db: Store, skip: nat, limit: nat,
                       department: Option<string>, semester: Option<string>, date: Option<string>)
    : (r: seq<Lecture>)
    ensures |r| <= limit
    ensures forall i :: 0 <= i < |r| ==> r[i] in db.lectures && LectureMatches(r[i], department, semester, date)
    ensures !Given(department) && !Given(semester) && !Given(date) ==> r == Page(db.lectures, skip, limit)
  {
    var byDepartment := Narrow(db.lectures, department, LectureDepartment);
    var bySemester := Narrow(byDepartment, semester, LectureSemester);
    var byDate := Narrow(bySemester, date, LectureDate);
    Page(byDate, skip, limit)
  }

  /** The three filters are AND-combined. */
  lemma GetLecturesIsFilterPage(db: Store, skip: nat, limit: nat,
                                department: Option<string>, semester: Option<string>, date: Option<string>)
    ensures GetLectures(db, skip, limit, department, semester, date)
         == Page(Filter(db.lectures, l => LectureMatches(l, department, semester, date)), skip, limit)
  {
    var pd := (l: Lecture) => Admits(department, l.body.department);
    var ps := (l: Lecture) => Admits(semester, l.body.semester);
    var pt := (l: Lecture) => Admits(date, l.body.date);
    var pds := (l: Lecture) => pd(l) && ps(l);
    NarrowIsFilter(db.lectures, department, LectureDepartment, pd);
    NarrowIsFilter(Filter(db.lectures, pd), semester, LectureSemester, ps);
    FilterThenFilter(db.lectures, pd, ps, pds);
    NarrowIsFilter(Filter(db.lectures, pds), date, LectureDate, pt);
    FilterThenFilter(db.lectures, pds, pt, l => LectureMatches(l, department, semester, date));
  }

  function CreateLecture(db: Store, lecture: LectureCreate, id: Id): (r: Created<Lecture>)
    requires GetLecture(db, id).None?
    ensures |r.db.lectures| == |db.lectures| + 1
    ensures r.db.lectures[..|db.lectures|] == db.lectures && r.db.lectures[|db.lectures|] == r.row
    ensures r.row.id == id && r.row.body == lecture
    ensures r.db.(lectures := db.lectures) == db
    ensures GetLecture(r.db, id) == Some(r.row)
    ensures KeysUnique(db) ==> KeysUnique(r.db)
  {
    var l := Lecture(id, lecture);
    AppendFresh(db.lectures, LectureId, l);
    Created(db.(lectures := db.lectures + [l]), l)
  }

  // ------------------------------------------------------------- subjects

  function GetSubject(db: Store, subjectId: Id): (r: Option<Subject>)
    ensures r.None? <==> forall i :: 0 <= i < |db.subjects| ==> db.subjects[i].id != subjectId
    ensures r.Some? ==> r.value in db.subjects && r.value.id == subjectId
  {
    FindBy(db.subjects, SubjectId, subjectId)
  }

  function SubjectDepartment(s: Subject): string { s.body.department }
  function SubjectSemester(s: Subject): string { s.body.semester }

  predicate SubjectMatches(s: Subject, department: Option<string>, semester: Option<string>) {
    Admits(department, s.body.department) && Admits(semester, s.body.semester)
  }

  function GetSubjects(db: Store, skip: nat, limit: nat, department: Option<string>, semester: Option<string>)
    : (r: seq<Subject>)
    ensures |r| <= limit
    ensures forall i :: 0 <= i < |r| ==> r[i] in db.subjects && SubjectMatches(r[i], department, semester)
    ensures !Given(department) && !Given(semester) ==> r == Page(db.subjects, skip, limit)
  {
    var byDepartment := Narrow(db.subjects, department, SubjectDepartment);
    var bySemester := Narrow(byDepartment, semester, SubjectSemester);
    Page(bySemester, skip, limit)
  }

  /** The filters are AND-combined. */
  lemma GetSubjectsIsFilterPage(db: Store, skip: nat, limit: nat, department: Option<string>, semester: Option<string>)
    ensures GetSubjects(db, skip, limit, department, semester)
         == Page(Filter(db.subjects, s => SubjectMatches(s, department, semester)), skip, limit)
  {
    var pd := (s: Subject) => Admits(department, s.body.department);
    var ps := (s: Subject) => Admits(semester, s.body.semester);
    NarrowIsFilter(db.subjects, department, SubjectDepartment, pd);
    NarrowIsFilter(Filter(db.subjects, pd), semester, SubjectSemester, ps);
    FilterThenFilter(db.subjects, pd, ps, s => SubjectMatches(s, department, semester));
  }

  function CreateSubject(db: Store, subject: SubjectCreate, id: Id): (r: Created<Subject>)
    requires GetSubject(db, id).None?
    ensures |r.db.subjects| == |db.subjects| + 1
    ensures r.db.subjects[..|db.subjects|] == db.subjects && r.db.subjects[|db.subjects|] == r.row
    ensures r.row.id == id && r.row.body == subject
    ensures r.db.(subjects := db.subjects) == db
    ensures GetSubject(r.db, id) == Some(r.row)
    ensures KeysUnique(db) ==> KeysUnique(r.db)
  {
    var s := Subject(id, subject);
    AppendFresh(db.subjects, SubjectId, s);
    Created(db.(subjects := db.subjects + [s]), s)
  }

  // -------------------------------------------------------- announcements

  function GetAnnouncement(db: Store, announcementId: Id): (r: Option<Announcement>)
    ensures r.None? <==> forall i :: 0 <= i < |db.announcements| ==> db.announcements[i].id != announcementId
    ensures r.Some? ==> r.value in db.announcements && r.value.id == announcementId
  {
    FindBy(db.announcements, AnnouncementId, announcementId)
  }

  /** Scoped to exactly department `d`. */
  predicate ScopedTo(a: Announcement, d: string) {
    a.body.department == Some(d)
  }

  /** Not scoped to any department. */
  predicate IsGlobal(a: Announcement) {
    a.body.department.None?
  }

  /** `WHERE department = d OR department IS NULL` when a department is given; every row otherwise. */
  function VisibleAnnouncements(table: seq<Announcement>, department: Option<string>): (r: seq<Announcement>)
    ensures forall i :: 0 <= i < |r| ==>
              r[i] in table && (!Given(department) || ScopedTo(r[i], department.value) || IsGlobal(r[i]))
    ensures forall i :: 0 <= i < |table| && (!Given(department) || ScopedTo(table[i], department.value) || IsGlobal(table[i]))
              ==> table[i] in r
    ensures !Given(department) ==> r == table
  {
    if Given(department) then
      Filter(table, (a: Announcement) => a.body.department == Some(department.value) || a.body.department == None)
    else
      table
  }

  /** With a department given, the visible announcements are that department's own plus the global ones, each once. */
  lemma VisibleIsScopedPlusGlobal(table: seq<Announcement>, d: string)
    requires d != ""
    ensures multiset(VisibleAnnouncements(table, Some(d)))
         == multiset(Filter(table, a => ScopedTo(a, d))) + multiset(Filter(table, IsGlobal))
  {
    FilterDisjointUnion(table, a => ScopedTo(a, d), IsGlobal,
                        (a: Announcement) => a.body.department == Some(d) || a.body.department == None);
  }

  function GetAnnouncements(db: Store, skip: nat, limit: nat, department: Option<string>): (r: seq<Announcement>)
    ensures |r| <= limit
    ensures forall i :: 0 <= i < |r| ==>
              r[i] in db.announcements && (!Given(department) || ScopedTo(r[i], department.value) || IsGlobal(r[i]))
    ensures skip == 0 && limit >= |db.announcements| ==> r == VisibleAnnouncements(db.announcements, department)
  {
    var visible := VisibleAnnouncements(db.announcements, department);
    assert skip == 0 && limit >= |db.announcements| ==> Page(visible, skip, limit) == visible by {
      if skip == 0 && limit >= |db.announcements| {
        PageWhole(visible, limit);
      }
    }
    Page(visible, skip, limit)
  }

  /** The listing is a page of the announcements scoped to the department or global (all of them without a department). */
  lemma GetAnnouncementsIsFilterPage(db: Store, skip: nat, limit: nat, department: Option<string>)
    ensures GetAnnouncements(db, skip, limit, department)
         == Page(Filter(db.announcements,
                        a => !Given(department) || ScopedTo(a, department.value) || IsGlobal(a)), skip, limit)
  {
    var visible := a => !Given(department) || ScopedTo(a, department.value) || IsGlobal(a);
    if Given(department) {
      FilterSame(db.announcements,
                 (a: Announcement) => a.body.department == Some(department.value) || a.body.department == None,
                 visible);
    } else {
      FilterKeepsAll(db.announcements, visible);
    }
  }

  function CreateAnnouncement(db: Store, announcement: AnnouncementCreate, id: Id, now: Timestamp)
    : (r: Created<Announcement>)
    requires GetAnnouncement(db, id).None?
    ensures |r.db.announcements| == |db.announcements| + 1
    ensures r.db.announcements[..|db.announcements|] == db.announcements
    ensures r.db.announcements[|db.announcements|] == r.row
    ensures r.row.id == id && r.row.body == announcement && r.row.createdAt == now
    ensures r.db.(announcements := db.announcements) == db
    ensures GetAnnouncement(r.db, id) == Some(r.row)
    ensures KeysUnique(db) ==> KeysUnique(r.db)
  {
    var a := Announcement(id, announcement, now);
    AppendFresh(db.announcements, AnnouncementId, a);
    Created(db.(announcements := db.announcements + [a]), a)
  }

  // ---------------------------------------------------------- chat groups

  function GetChatGroup(db: Store, chatGroupId: Id): (r: Option<ChatGroup>)
    ensures r.None? <==> forall i :: 0 <= i < |db.chatGroups| ==> db.chatGroups[i].id != chatGroupId
    ensures r.Some? ==> r.value in db.chatGroups && r.value.id == chatGroupId
  {
    FindBy(db.chatGroups, ChatGroupId, chatGroupId)
  }

  function GetChatGroupsForTeacher(db: Store, teacherId: Id, skip: nat, limit: nat): (r: seq<ChatGroup>)
    ensures |r| <= limit
    ensures forall i :: 0 <= i < |r| ==> r[i] in db.chatGroups && r[i].body.teacherId == teacherId
    ensures skip == 0 && limit >= |db.chatGroups| ==>
              forall i :: 0 <= i < |db.chatGroups| && db.chatGroups[i].body.teacherId == teacherId
                ==> db.chatGroups[i] in r
  {
    var mine := Filter(db.chatGroups, (g: ChatGroup) => g.body.teacherId == teacherId);
    assert skip == 0 && limit >= |db.chatGroups| ==> Page(mine, skip, limit) == mine by {
      if skip == 0 && limit >= |db.chatGroups| {
        PageWhole(mine, limit);
      }
    }
    Page(mine, skip, limit)
  }

  /** Every page of a teacher's groups is a slice of the one complete listing, which is all their groups in table order. */
  lemma TeacherPagesSliceTheListing(db: Store, teacherId: Id, skip: nat, limit: nat)
    ensures GetChatGroupsForTeacher(db, teacherId, 0, |db.chatGroups|)
         == Filter(db.chatGroups, (g: ChatGroup) => g.body.teacherId == teacherId)
    ensures GetChatGroupsForTeacher(db, teacherId, skip, limit)
         == Page(GetChatGroupsForTeacher(db, teacherId, 0, |db.chatGroups|), skip, limit)
  {
    PageWhole(Filter(db.chatGroups, (g: ChatGroup) => g.body.teacherId == teacherId), |db.chatGroups|);
  }

  /** One row of the join `chat_groups JOIN subjects ON chat_groups.subject_id = subjects.id`, in the given department. */
  predicate Pairs(g: ChatGroup, s: Subject, department: string) {
    s.id == g.body.subjectId && s.body.department == department
  }

  /** A student of `department` and `semester` sees group `g`: the semesters match and some subject of the department joins it. */
  predicate Reaches(g: ChatGroup, subjects: seq<Subject>, department: string, semester: Option<string>) {
    && Some(g.body.semester) == semester
    && exists j :: 0 <= j < |subjects| && Pairs(g, subjects[j], department)
  }

  /** How many subject rows of the department group `g` joins; none when the semesters differ. */
  function Hits(g: ChatGroup, subjects: seq<Subject>, department: string, semester: Option<string>): (n: nat)
    ensures n > 0 <==> Reaches(g, subjects, department, semester)
  {
    if Some(g.body.semester) == semester then
      var partners := Filter(subjects, s => Pairs(g, s, department));
      assert |partners| > 0 ==> partners[0] in subjects && Pairs(g, partners[0], department);
      assert Reaches(g, subjects, department, semester) ==> |partners| > 0;
      |partners|
    else 0
  }

  /** With subject ids unique, a group joins at most one subject row. */
  lemma HitsUnique(g: ChatGroup, subjects: seq<Subject>, department: string, semester: Option<string>)
    requires Distinct(subjects, SubjectId)
    ensures Hits(g, subjects, department, semester) == if Reaches(g, subjects, department, semester) then 1 else 0
  {
    if Some(g.body.semester) == semester {
      FilterUniqueKey(subjects, SubjectId, g.body.subjectId, s => Pairs(g, s, department));
    }
  }

  /**
   The rows of the join, group by group in table order: each group appears once per
   subject row it joins. A student without a semester compares against `NULL` and
   matches no group.
   */
  function JoinSubjects(groups: seq<ChatGroup>, subjects: seq<Subject>, department: string, semester: Option<string>)
    : (r: seq<ChatGroup>)
    ensures forall i :: 0 <= i < |r| ==> r[i] in groups && Reaches(r[i], subjects, department, semester)
    ensures forall i :: 0 <= i < |groups| && Reaches(groups[i], subjects, department, semester) ==> groups[i] in r
  {
    if |groups| == 0 then []
    else
      var g := groups[0];
      var copies := seq(Hits(g, subjects, department, semester), _ => g);
      var rest := JoinSubjects(groups[1..], subjects, department, semester);
      assert forall i :: 1 <= i < |groups| ==> groups[i] == groups[1..][i - 1];
      assert Reaches(g, subjects, department, semester) ==> copies[0] == g;
      copies + rest
  }

  /** With subject ids unique, the join yields each reachable group exactly once, in table order. */
  lemma {:induction false} JoinIsFilter(groups: seq<ChatGroup>, subjects: seq<Subject>, department: string, semester: Option<string>)
    requires Distinct(subjects, SubjectId)
    ensures JoinSubjects(groups, subjects, department, semester)
         == Filter(groups, g => Reaches(g, subjects, department, semester))
  {
    if |groups| > 0 {
      var g := groups[0];
      JoinIsFilter(groups[1..], subjects, department, semester);
      HitsUnique(g, subjects, department, semester);
      if Reaches(g, subjects, department, semester) {
        assert seq(1, _ => g) == [g];
      } else {
        assert seq(0, _ => g) == [];
      }
    }
  }

  function GetChatGroupsForStudent(db: Store, studentId: Id, semester: Option<string>, skip: nat, limit: nat)
    : (r: seq<ChatGroup>)
    ensures GetUser(db, studentId).None? ==> r == []
    ensures |r| <= limit
    ensures forall i :: 0 <= i < |r| ==>
              && r[i] in db.chatGroups
              && GetUser(db, studentId).Some?
              && Reaches(r[i], db.subjects, GetUser(db, studentId).value.body.department,
                         GetUser(db, studentId).value.body.semester)
  {
    match GetUser(db, studentId)
    case None => []
    case Some(student) =>
      Page(JoinSubjects(db.chatGroups, db.subjects, student.body.department, student.body.semester), skip, limit)
  }

  /** The `semester` argument plays no part: the student's own semester is used. */
  lemma StudentSemesterIgnored(db: Store, studentId: Id, a: Option<string>, b: Option<string>, skip: nat, limit: nat)
    ensures GetChatGroupsForStudent(db, studentId, a, skip, limit) == GetChatGroupsForStudent(db, studentId, b, skip, limit)
  {
  }

  /** Every group of the student's department and semester is listed when the page has room for the whole table. */
  lemma StudentSeesAllReachable(db: Store, studentId: Id, semester: Option<string>, limit: nat)
    requires KeysUnique(db)
    requires GetUser(db, studentId).Some?
    requires limit >= |db.chatGroups|
    ensures GetChatGroupsForStudent(db, studentId, semester, 0, limit)
         == Filter(db.chatGroups, g => Reaches(g, db.subjects, GetUser(db, studentId).value.body.department,
                                              GetUser(db, studentId).value.body.semester))
  {
    var student := GetUser(db, studentId).value;
    JoinIsFilter(db.chatGroups, db.subjects, student.body.department, student.body.semester);
    PageWhole(JoinSubjects(db.chatGroups, db.subjects, student.body.department, student.body.semester), limit);
  }

  /** With primary keys unique, every page of a student's groups is a slice of the complete listing. */
  lemma StudentPagesSliceTheListing(db: Store, studentId: Id, semester: Option<string>, skip: nat, limit: nat)
    requires KeysUnique(db)
    ensures GetChatGroupsForStudent(db, studentId, semester, skip, limit)
         == Page(GetChatGroupsForStudent(db, studentId, semester, 0, |db.chatGroups|), skip, limit)
  {
    if GetUser(db, studentId).Some? {
      var student := GetUser(db, studentId).value;
      var joined := JoinSubjects(db.chatGroups, db.subjects, student.body.department, student.body.semester);
      JoinIsFilter(db.chatGroups, db.subjects, student.body.department, student.body.semester);
      PageWhole(joined, |db.chatGroups|);
    }
  }

  function CreateChatGroup(db: Store, chatGroup: ChatGroupCreate, id: Id, now: Timestamp): (r: Created<ChatGroup>)
    requires GetChatGroup(db, id).None?
    ensures |r.db.chatGroups| == |db.chatGroups| + 1
    ensures r.db.chatGroups[..|db.chatGroups|] == db.chatGroups && r.db.chatGroups[|db.chatGroups|] == r.row
    ensures r.row.id == id && r.row.body == chatGroup && r.row.createdAt == now
    ensures r.db.(chatGroups := db.chatGroups) == db
    ensures GetChatGroup(r.db, id) == Some(r.row)
    ensures KeysUnique(db) ==> KeysUnique(r.db)
  {
    var g := ChatGroup(id, chatGroup, now);
    AppendFresh(db.chatGroups, ChatGroupId, g);
    Created(db.(chatGroups := db.chatGroups + [g]), g)
  }

  // ------------------------------------------------------------- messages

  /** The messages of one chat group, in table order. */
  function Thread(db: Store, chatGroupId: Id): (r: seq<Message>)
    ensures forall i :: 0 <= i < |r| ==> r[i] in db.messages && r[i].body.chatGroupId == chatGroupId
    ensures forall i :: 0 <= i < |db.messages| && db.messages[i].body.chatGroupId == chatGroupId
              ==> db.messages[i] in r
  {
    Filter(db.messages, (m: Message) => m.body.chatGroupId == chatGroupId)
  }

  function GetMessages(db: Store, chatGroupId: Id, skip: nat, limit: nat): (r: seq<Message>)
    ensures |r| <= limit
    ensures forall i :: 0 <= i < |r| ==> r[i] in db.messages && r[i].body.chatGroupId == chatGroupId
    ensures SortedBy(r, MessageTime)
  {
    var sorted := SortBy(Thread(db, chatGroupId), MessageTime);
    assert forall i :: 0 <= i < |sorted| ==> sorted[i] in multiset(Thread(db, chatGroupId));
    Page(sorted, skip, limit)
  }

  /** Paging is applied after sorting: every page is a slice of the one time-ordered thread. */
  lemma MessagesPagedAfterSort(db: Store, chatGroupId: Id, skip: nat, limit: nat)
    ensures GetMessages(db, chatGroupId, skip, limit)
         == Page(GetMessages(db, chatGroupId, 0, |db.messages|), skip, limit)
  {
    var sorted := SortBy(Thread(db, chatGroupId), MessageTime);
    assert |sorted| == |Thread(db, chatGroupId)| by {
      assert |multiset(sorted)| == |multiset(Thread(db, chatGroupId))|;
    }
    PageWhole(sorted, |db.messages|);
  }

  /**
   The full listing holds every message of the group exactly once, and messages
   stamped with the same time keep the order in which they were inserted.
   */
  lemma MessagesAreTheThreadInTimeOrder(db: Store, chatGroupId: Id, t: Timestamp)
    ensures multiset(GetMessages(db, chatGroupId, 0, |db.messages|)) == multiset(Thread(db, chatGroupId))
    ensures Filter(GetMessages(db, chatGroupId, 0, |db.messages|), (m: Message) => m.createdAt == t)
         == Filter(db.messages, (m: Message) => m.body.chatGroupId == chatGroupId && m.createdAt == t)
  {
    var thread := Thread(db, chatGroupId);
    var sorted := SortBy(thread, MessageTime);
    assert |sorted| == |thread| by {
      assert |multiset(sorted)| == |multiset(thread)|;
    }
    PageWhole(sorted, |db.messages|);
    var atT := (m: Message) => m.createdAt == t;
    SortStable(thread, MessageTime, t, atT);
    FilterThenFilter(db.messages, (m: Message) => m.body.chatGroupId == chatGroupId, atT,
                     (m: Message) => m.body.chatGroupId == chatGroupId && m.createdAt == t);
  }

  function CreateMessage(db: Store, message: MessageCreate, id: Id, now: Timestamp): (r: Created<Message>)
    requires FindBy(db.messages, MessageId, id).None?
    ensures |r.db.messages| == |db.messages| + 1
    ensures r.db.messages[..|db.messages|] == db.messages && r.db.messages[|db.messages|] == r.row
    ensures r.row.id == id && r.row.body == message && r.row.createdAt == now
    ensures r.db.(messages := db.messages) == db
    ensures FindBy(r.db.messages, MessageId, id) == Some(r.row)
    ensures KeysUnique(db) ==> KeysUnique(r.db)
  {
    var m := Message(id, message, now);
    AppendFresh(db.messages, MessageId, m);
    Created(db.(messages := db.messages + [m]), m)
  }

  // ------------------------------------------------------ point lookups

  /** Ids are primary keys, so a lookup by a row's id returns that very row. */
  lemma LookupsReturnTheRow(db: Store)
    requires KeysUnique(db)
    ensures forall i :: 0 <= i < |db.users| ==> GetUser(db, db.users[i].id) == Some(db.users[i])
    ensures forall i :: 0 <= i < |db.assignments| ==> GetAssignment(db, db.assignments[i].id) == Some(db.assignments[i])
    ensures forall i :: 0 <= i < |db.lectures| ==> GetLecture(db, db.lectures[i].id) == Some(db.lectures[i])
    ensures forall i :: 0 <= i < |db.subjects| ==> GetSubject(db, db.subjects[i].id) == Some(db.subjects[i])
    ensures forall i :: 0 <= i < |db.announcements| ==>
              GetAnnouncement(db, db.announcements[i].id) == Some(db.announcements[i])
    ensures forall i :: 0 <= i < |db.chatGroups| ==> GetChatGroup(db, db.chatGroups[i].id) == Some(db.chatGroups[i])
  {
    forall i | 0 <= i < |db.users| ensures GetUser(db, db.users[i].id) == Some(db.users[i]) {
      FindByUnique(db.users, UserId, i);
    }
    forall i | 0 <= i < |db.assignments|
      ensures GetAssignment(db, db.assignments[i].id) == Some(db.assignments[i])
    {
      FindByUnique(db.assignments, AssignmentId, i);
    }
    forall i | 0 <= i < |db.lectures| ensures GetLecture(db, db.lectures[i].id) == Some(db.lectures[i]) {
      FindByUnique(db.lectures, LectureId, i);
    }
    forall i | 0 <= i < |db.subjects| ensures GetSubject(db, db.subjects[i].id) == Some(db.subjects[i]) {
      FindByUnique(db.subjects, SubjectId, i);
    }
    forall i | 0 <= i < |db.announcements|
      ensures GetAnnouncement(db, db.announcements[i].id) == Some(db.announcements[i])
    {
      FindByUnique(db.announcements, AnnouncementId, i);
    }
    forall i | 0 <= i < |db.chatGroups| ensures GetChatGroup(db, db.chatGroups[i].id) == Some(db.chatGroups[i]) {
      FindByUnique(db.chatGroups, ChatGroupId, i);
    }
  }
}
