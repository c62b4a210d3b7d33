/**
 The seven tables of the schema. Each row is the payload its create request
 carried (the `*Create` schema), the identifier the store generated for it and,
 for the tables that have the column, its `created_at` stamp. The owning user
 embedded in responses is not part of a row: a row holds only the user's id.
 */
module Models {
  import opened Wrappers
  import opened Query

  type Id = string

  /** `created_at` as an abstract point in time; only its order matters. */
  type Timestamp = nat

  datatype UserCreate = UserCreate(
    name: string,
    email: string,
    role: string,
    department: string,
    avatar: Option<string>,
    semester: Option<string>)

  datatype User = User(id: Id, body: UserCreate, createdAt: Timestamp)

  datatype AnnouncementCreate = AnnouncementCreate(
    title: string,
    content: string,
    department: Option<string>,   // None: a global announcement
    important: bool,
    semester: Option<string>,
    authorId: Id)

  datatype Announcement = Announcement(id: Id, body: AnnouncementCreate, createdAt: Timestamp)

  datatype AssignmentCreate = AssignmentCreate(
    title: string,
    description: string,
    dueDate: string,
    department: string,
    subject: string,
    attachments: Option<string>,  // serialised list of paths, never parsed
    semester: string,
    authorId: Id)

  datatype Assignment = Assignment(id: Id, body: AssignmentCreate, createdAt: Timestamp)

  datatype LectureCreate = LectureCreate(
    title: string,
    description: string,
    date: string,
    startTime: string,
    endTime: string,
    location: string,
    department: string,
    subject: string,
    materials: Option<string>,    // serialised list of paths, never parsed
    semester: string,
    professorId: Id)

  /** The lectures table has no `created_at` column. */
  datatype Lecture = Lecture(id: Id, body: LectureCreate)

  datatype SubjectCreate = SubjectCreate(
    name: string,
    code: string,
    department: string,
    description: string,
    semester: string,
    credits: Option<int>,
    prerequisites: Option<string>, // serialised list of subject codes, never parsed
    professorId: Id)

  /** The subjects table has no `created_at` column. */
  datatype Subject = Subject(id: Id, body: SubjectCreate)

  datatype ChatGroupCreate = ChatGroupCreate(
    name: string,
    subjectId: Id,
    semester: string,
    teacherId: Id)

  datatype ChatGroup = ChatGroup(id: Id, body: ChatGroupCreate, createdAt: Timestamp)

  datatype MessageCreate = MessageCreate(
    content: string,
    chatGroupId: Id,
    senderId: Id)

  datatype Message = Message(id: Id, body: MessageCreate, createdAt: Timestamp)

  /** The whole database as a value: one sequence of rows per table, in insertion order. */
  datatype Store = Store(
    users: seq<User>,
    announcements: seq<Announcement>,
    assignments: seq<Assignment>,
    lectures: seq<Lecture>,
    subjects: seq<Subject>,
    chatGroups: seq<ChatGroup>,
    messages: seq<Message>)

  // Column accessors, passed to the generic queries as keys.
  function UserId(u: User): Id { u.id }
  function UserEmail(u: User): string { u.body.email }
  function AnnouncementId(a: Announcement): Id { a.id }
  function AssignmentId(a: Assignment): Id { a.id }
  function LectureId(l: Lecture): Id { l.id }
  function SubjectId(s: Subject): Id { s.id }
  function ChatGroupId(g: ChatGroup): Id { g.id }
  function MessageId(m: Message): Id { m.id }
  function MessageTime(m: Message): Timestamp { m.createdAt }

  /** Every table's `id` column is a primary key. */
  predicate KeysUnique(db: Store) {
    && Distinct(db.users, UserId)
    && Distinct(db.announcements, AnnouncementId)
    && Distinct(db.assignments, AssignmentId)
    && Distinct(db.lectures, LectureId)
    && Distinct(db.subjects, SubjectId)
    && Distinct(db.chatGroups, ChatGroupId)
    && Distinct(db.messages, MessageId)
  }

  /** `users.email` is declared unique; the user-creation endpoint is what keeps it so. */
  predicate EmailsUnique(db: Store) {
    Distinct(db.users, UserEmail)
  }

  const EmptyStore := Store([], [], [], [], [], [], [])
}
