/** The three tables of the building-management database as records, with the
    string constants the application stores in their VARCHAR columns. */
module Schema {
  import opened Wrappers

  // Values of users.role
  const AdminRole := "admin"
  const OfficerRole := "officer"
  const StudentRole := "student"

  // Values of complaints.status; PendingReview is the column default
  const PendingReview := "Pending Admin Review"
  const InProgress := "In Progress"
  const Resolved := "Resolved"
  const Closed := "Closed"

  // Values of lost_items.status; Lost is the column default
  const Lost := "Lost"
  const Found := "Found"
  const Collected := "Collected"

  /** A row of `users`; the id is the key of the table map. */
  datatype User = User(
    username: string,
    password: string,
    role: string,
    department: Option<string>,
    points: int)

  /** A row of `complaints`. `createdAt` is a logical stamp in place of a
      DATETIME; `userId` is the reporter. */
  datatype Complaint = Complaint(
    title: string,
    description: string,
    category: string,
    priority: string,
    status: string,
    createdAt: nat,
    userId: nat,
    assignedTo: Option<nat>,
    adminNotes: Option<string>,
    officerNotes: Option<string>,
    imagePath: Option<string>,
    pointsAwarded: bool)

  /** A row of `lost_items`; `lostTime` is an abstract date-time value. */
  datatype LostItem = LostItem(
    itemName: string,
    description: string,
    lostTime: nat,
    lostPlace: string,
    status: string,
    createdAt: nat,
    userId: nat,
    adminNotes: Option<string>,
    imagePath: Option<string>)

  /** The accounts provisioned when the database is initialised, in insertion order. */
  const DefaultUsers: seq<User> := [
    User("admin", "admin", AdminRole, Some("Administration"), 0),
    User("electrician", "electrician", OfficerRole, Some("Electrical"), 0),
    User("plumber", "plumber", OfficerRole, Some("Plumbing"), 0),
    User("maintenance", "maintenance", OfficerRole, Some("Maintenance"), 0),
    User("it", "it", OfficerRole, Some("IT"), 0),
    User("security", "security", OfficerRole, Some("Security"), 0),
    User("student", "student", StudentRole, Some("Student"), 0)
  ]

  /** The UNIQUE constraint on users.username. */
  ghost predicate UniqueUsernames(users: map<nat, User>)
  {
    forall i, j :: i in users && j in users && users[i].username == users[j].username ==> i == j
  }

  /** Rows inserted later (larger auto-increment id) never carry an earlier stamp. */
  ghost predicate ComplaintStampsFollowIds(cs: map<nat, Complaint>)
  {
    forall i, j :: i in cs && j in cs && i < j ==> cs[i].createdAt <= cs[j].createdAt
  }

  ghost predicate LostItemStampsFollowIds(ls: map<nat, LostItem>)
  {
    forall i, j :: i in ls && j in ls && i < j ==> ls[i].createdAt <= ls[j].createdAt
  }
}
