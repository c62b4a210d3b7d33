/**
 The HTTP endpoints: each delegates to the data-access layer. User creation
 rejects an email already registered with 400, point lookups turn an absent row
 into 404 with a per-entity message, and list endpoints fill in `skip = 0` and
 `limit = 100` when the client leaves them out.
 */
module Api {
  import opened Wrappers
  import opened Query
  import opened Models
  import Crud

  datatype Response<T> = Ok(value: T) | HttpError(status: nat, detail: string)

  /** The store after a request and the response sent back. */
  datatype Handled<T> = Handled(db: Store, response: Response<T>)

  const DefaultSkip: nat := 0
  const DefaultLimit: nat := 100

  /** A paging query parameter the client may leave out. */
  function OrDefault(param: Option<nat>, default: nat): (n: nat)
    ensures param.Some? ==> n == param.value
    ensures param.None? ==> n == default
  {
    param.GetOr(default)
  }

  // ---------------------------------------------------------------- users

  /** `POST /users/` */
  function CreateUser(db: Store, user: UserCreate, id: Id, now: Timestamp): (r: Handled<User>)
    requires Crud.GetUser(db, id).None?
    ensures Crud.GetUserByEmail(db, user.email).Some? ==> r == Handled(db, HttpError(400, "Email already registered"))
    ensures Crud.GetUserByEmail(db, user.email).None? ==>
              && r.response.Ok?
              && r.response.value.id == id && r.response.value.body == user
              && r.db.users == db.users + [r.response.value]
              && r.db.(users := db.users) == db
    ensures EmailsUnique(db) ==> EmailsUnique(r.db)
    ensures KeysUnique(db) ==> KeysUnique(r.db)
  {
    if Crud.GetUserByEmail(db, user.email).Some? then
      Handled(db, HttpError(400, "Email already registered"))
    else
      var created := Crud.CreateUser(db, user, id, now);
      assert created.db.users == db.users + [created.row];
      AppendFresh(db.users, UserEmail, created.row);
      Handled(created.db, Ok(created.row))
  }

  /** Registering a second user with an email already in use fails and leaves the first registration as it was. */
  lemma SecondRegistrationRejected(db: Store, first: UserCreate, second: UserCreate,
                                   id1: Id, id2: Id, now1: Timestamp, now2: Timestamp)
    requires Crud.GetUser(db, id1).None?
    requires Crud.GetUserByEmail(db, first.email).None?
    requires second.email == first.email
    requires Crud.GetUser(CreateUser(db, first, id1, now1).db, id2).None?
    ensures var after := CreateUser(db, first, id1, now1).db;
            CreateUser(after, second, id2, now2) == Handled(after, HttpError(400, "Email already registered"))
  {
    var after := CreateUser(db, first, id1, now1);
    assert after.response.value in after.db.users;
  }

  /** `GET /users/` */
  function ReadUsers(db: Store, skip: Option<nat>, limit: Option<nat>): (r: seq<User>)
    ensures r == Crud.GetUsers(db, OrDefault(skip, DefaultSkip), OrDefault(limit, DefaultLimit))
    ensures skip.None? && limit.None? ==> r == db.users[..Min(DefaultLimit, |db.users|)]
  {
    Crud.GetUsers(db, OrDefault(skip, DefaultSkip), OrDefault(limit, DefaultLimit))
  }

  /** `GET /users/{user_id}` */
  function ReadUser(db: Store, userId: Id): (r: Response<User>)
    ensures r.Ok? ==> r.value in db.users && r.value.id == userId
    ensures r.HttpError? <==> forall i :: 0 <= i < |db.users| ==> db.users[i].id != userId
    ensures r.HttpError? ==> r == HttpError(404, "User not found")
  {
    match Crud.GetUser(db, userId)
    case None => HttpError(404, "User not found")
    case Some(u) => Ok(u)
  }

  // ---------------------------------------------------------- assignments

  /** `POST /assignments/`: no check before the insert. */
  function CreateAssignment(db: Store, assignment: AssignmentCreate, id: Id, now: Timestamp): (r: Handled<Assignment>)
    requires Crud.GetAssignment(db, id).None?
    ensures r.response.Ok? && r.response.value.id == id && r.response.value.body == assignment
    ensures r.db.assignments == db.assignments + [r.response.value] && r.db.(assignments := db.assignments) == db
  {
    var created := Crud.CreateAssignment(db, assignment, id, now);
    assert created.db.assignments == db.assignments + [created.row];
    Handled(created.db, Ok(created.row))
  }

  /** `GET /assignments/` */
  function ReadAssignments(db: Store, department: Option<string>, semester: Option<string>,
                           skip: Option<nat>, limit: Option<nat>): (r: seq<Assignment>)
    ensures r == Crud.GetAssignments(db, OrDefault(skip, DefaultSkip), OrDefault(limit, DefaultLimit), department, semester)
    ensures |r| <= OrDefault(limit, DefaultLimit)
  {
    Crud.GetAssignments(db, OrDefault(skip, DefaultSkip), OrDefault(limit, DefaultLimit), department, semester)
  }

  /** `GET /assignments/{assignment_id}` */
  function ReadAssignment(db: Store, assignmentId: Id): (r: Response<Assignment>)
    ensures r.Ok? ==> r.value in db.assignments && r.value.id == assignmentId
    ensures r.HttpError? <==> forall i :: 0 <= i < |db.assignments| ==> db.assignments[i].id != assignmentId
    ensures r.HttpError? ==> r == HttpError(404, "Assignment not found")
  {
    match Crud.GetAssignment(db, assignmentId)
    case None => HttpError(404, "Assignment not found")
    case Some(a) => Ok(a)
  }

  // ------------------------------------------------------------- lectures

  /** `POST /lectures/`: no check before the insert. */
  function CreateLecture(db: Store, lecture: LectureCreate, id: Id): (r: Handled<Lecture>)
    requires Crud.GetLecture(db, id).None?
    ensures r.response.Ok? && r.response.value.id == id && r.response.value.body == lecture
    ensures r.db.lectures == db.lectures + [r.response.value] && r.db.(lectures := db.lectures) == db
  {
    var created := Crud.CreateLecture(db, lecture, id);
    assert created.db.lectures == db.lectures + [created.row];
    Handled(created.db, Ok(created.row))
  }

  /** `GET /lectures/` */
  function ReadLectures(db: Store, department: Option<string>, semester: Option<string>, date: Option<string>,
                        skip: Option<nat>, limit: Option<nat>): (r: seq<Lecture>)
    ensures r == Crud.GetLectures(db, OrDefault(skip, DefaultSkip), OrDefault(limit, DefaultLimit),
                                  department, semester, date)
    ensures |r| <= OrDefault(limit, DefaultLimit)
  {
    Crud.GetLectures(db, OrDefault(skip, DefaultSkip), OrDefault(limit, DefaultLimit), department, semester, date)
  }

  // ------------------------------------------------------------- subjects

  /** `POST /subjects/`: no check before the insert. */
  function CreateSubject(db: Store, subject: SubjectCreate, id: Id): (r: Handled<Subject>)
    requires Crud.GetSubject(db, id).None?
    ensures r.response.Ok? && r.response.value.id == id && r.response.value.body == subject
    ensures r.db.subjects == db.subjects + [r.response.value] && r.db.(subjects := db.subjects) == db
  {
    var created := Crud.CreateSubject(db, subject, id);
    assert created.db.subjects == db.subjects + [created.row];
    Handled(created.db, Ok(created.row))
  }

  /** `GET /subjects/` */
  function ReadSubjects(db: Store, department: Option<string>, semester: Option<string>,
                        skip: Option<nat>, limit: Option<nat>): (r: seq<Subject>)
    ensures r == Crud.GetSubjects(db, OrDefault(skip, DefaultSkip), OrDefault(limit, DefaultLimit), department, semester)
    ensures |r| <= OrDefault(limit, DefaultLimit)
  {
    Crud.GetSubjects(db, OrDefault(skip, DefaultSkip), OrDefault(limit, DefaultLimit), department, semester)
  }

  // -------------------------------------------------------- announcements

  /** `POST /announcements/`: no check before the insert. */
  function CreateAnnouncement(db: Store, announcement: AnnouncementCreate, id: Id, now: Timestamp)
    : (r: Handled<Announcement>)
    requires Crud.GetAnnouncement(db, id).None?
    ensures r.response.Ok? && r.response.value.id == id && r.response.value.body == announcement
    ensures r.db.announcements == db.announcements + [r.response.value]
    ensures r.db.(announcements := db.announcements) == db
  {
    var created := Crud.CreateAnnouncement(db, announcement, id, now);
    assert created.db.announcements == db.announcements + [created.row];
    Handled(created.db, Ok(created.row))
  }

  /** `GET /announcements/` */
  function ReadAnnouncements(db: Store, department: Option<string>, skip: Option<nat>, limit: Option<nat>)
    : (r: seq<Announcement>)
    ensures r == Crud.GetAnnouncements(db, OrDefault(skip, DefaultSkip), OrDefault(limit, DefaultLimit), department)
    ensures |r| <= OrDefault(limit, DefaultLimit)
  {
    Crud.GetAnnouncements(db, OrDefault(skip, DefaultSkip), OrDefault(limit, DefaultLimit), department)
  }

  // ---------------------------------------------------------- chat groups

  /** `POST /chat-groups/`: no check before the insert, not even that the subject exists. */
  function CreateChatGroup(db: Store, chatGroup: ChatGroupCreate, id: Id, now: Timestamp): (r: Handled<ChatGroup>)
    requires Crud.GetChatGroup(db, id).None?
    ensures r.response.Ok? && r.response.value.id == id && r.response.value.body == chatGroup
    ensures r.db.chatGroups == db.chatGroups + [r.response.value] && r.db.(chatGroups := db.chatGroups) == db
  {
    var created := Crud.CreateChatGroup(db, chatGroup, id, now);
    assert created.db.chatGroups == db.chatGroups + [created.row];
    Handled(created.db, Ok(created.row))
  }

  /** `GET /chat-groups/teacher/{teacher_id}` */
  function ReadTeacherChatGroups(db: Store, teacherId: Id, skip: Option<nat>, limit: Option<nat>): (r: seq<ChatGroup>)
    ensures r == Crud.GetChatGroupsForTeacher(db, teacherId, OrDefault(skip, DefaultSkip), OrDefault(limit, DefaultLimit))
    ensures |r| <= OrDefault(limit, DefaultLimit)
  {
    Crud.GetChatGroupsForTeacher(db, teacherId, OrDefault(skip, DefaultSkip), OrDefault(limit, DefaultLimit))
  }

  /**
   `GET /chat-groups/student/{student_id}`: an unknown student is a 404 here, so the
   data-access layer's empty answer for an unknown student never reaches a client.
   */
  function ReadStudentChatGroups(db: Store, studentId: Id, skip: Option<nat>, limit: Option<nat>)
    : (r: Response<seq<ChatGroup>>)
    ensures r.HttpError? <==> Crud.GetUser(db, studentId).None?
    ensures r.HttpError? ==> r == HttpError(404, "Student not found")
    ensures r.Ok? ==>
              var student := Crud.GetUser(db, studentId).value;
              && |r.value| <= OrDefault(limit, DefaultLimit)
              && r.value == Crud.GetChatGroupsForStudent(db, studentId, student.body.semester,
                                                         OrDefault(skip, DefaultSkip), OrDefault(limit, DefaultLimit))
              && forall i :: 0 <= i < |r.value| ==>
                   Crud.Reaches(r.value[i], db.subjects, student.body.department, student.body.semester)
  {
    match Crud.GetUser(db, studentId)
    case None => HttpError(404, "Student not found")
    case Some(student) =>
      Ok(Crud.GetChatGroupsForStudent(db, studentId, student.body.semester,
                                      OrDefault(skip, DefaultSkip), OrDefault(limit, DefaultLimit)))
  }

  /** `GET /chat-groups/{chat_group_id}` */
  function ReadChatGroup(db: Store, chatGroupId: Id): (r: Response<ChatGroup>)
    ensures r.Ok? ==> r.value in db.chatGroups && r.value.id == chatGroupId
    ensures r.HttpError? <==> forall i :: 0 <= i < |db.chatGroups| ==> db.chatGroups[i].id != chatGroupId
    ensures r.HttpError? ==> r == HttpError(404, "Chat group not found")
  {
    match Crud.GetChatGroup(db, chatGroupId)
    case None => HttpError(404, "Chat group not found")
    case Some(g) => Ok(g)
  }

  // ------------------------------------------------------------- messages

  /** `POST /messages/`: no check before the insert, not even that the chat group exists. */
  function CreateMessage(db: Store, message: MessageCreate, id: Id, now: Timestamp): (r: Handled<Message>)
    requires FindBy(db.messages, MessageId, id).None?
    ensures r.response.Ok? && r.response.value.id == id && r.response.value.body == message
    ensures r.db.messages == db.messages + [r.response.value] && r.db.(messages := db.messages) == db
  {
    var created := Crud.CreateMessage(db, message, id, now);
    assert created.db.messages == db.messages + [created.row];
    Handled(created.db, Ok(created.row))
  }

  /** `GET /messages/{chat_group_id}` */
  function ReadMessages(db: Store, chatGroupId: Id, skip: Option<nat>, limit: Option<nat>): (r: seq<Message>)
    ensures r == Crud.GetMessages(db, chatGroupId, OrDefault(skip, DefaultSkip), OrDefault(limit, DefaultLimit))
    ensures |r| <= OrDefault(limit, DefaultLimit)
  {
    Crud.GetMessages(db, chatGroupId, OrDefault(skip, DefaultSkip), OrDefault(limit, DefaultLimit))
  }

  /** A freshly created row is what a later lookup by its id returns: the payload plus the generated id. */
  lemma CreatedRowsReadBack(db: Store, user: UserCreate, assignment: AssignmentCreate, chatGroup: ChatGroupCreate,
                            id: Id, now: Timestamp)
    requires Crud.GetUser(db, id).None? && Crud.GetAssignment(db, id).None? && Crud.GetChatGroup(db, id).None?
    ensures Crud.GetUserByEmail(db, user.email).None? ==>
              ReadUser(CreateUser(db, user, id, now).db, id) == Ok(User(id, user, now))
    ensures ReadAssignment(CreateAssignment(db, assignment, id, now).db, id) == Ok(Assignment(id, assignment, now))
    ensures ReadChatGroup(CreateChatGroup(db, chatGroup, id, now).db, id) == Ok(ChatGroup(id, chatGroup, now))
  {
    if Crud.GetUserByEmail(db, user.email).None? {
      var created := Crud.CreateUser(db, user, id, now);
      assert CreateUser(db, user, id, now).db == created.db;
    }
  }
}
