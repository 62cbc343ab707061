/** Scenarios proved on the freshly initialised database. */
module Scenarios {
  import opened Wrappers
  import opened Schema
  import Router
  import Ledger
  import Queries
  import Lifecycle

  /** The database `init_db` leaves behind. */
  function Initial(): (db: Lifecycle.Db)
    ensures forall k :: k in db.users <==> 1 <= k <= |DefaultUsers|
    ensures forall k :: k in db.users ==> db.users[k] == DefaultUsers[k - 1]
    ensures db.complaints == map[] && db.lostItems == map[]
    ensures db.nextUserId == |DefaultUsers| + 1 && db.nextComplaintId == 1 && db.nextLostItemId == 1
  {
    Lifecycle.SeedInsertsEveryDefault(|DefaultUsers|);
    Lifecycle.SeededUsersShape(|DefaultUsers|);
    Lifecycle.Seed(|DefaultUsers|)
  }

  /** The seeded usernames are distinct. */
  lemma InitialUsernamesUnique()
    ensures UniqueUsernames(Initial().users)
  {
    Lifecycle.SeedIsConsistent(|DefaultUsers|);
  }

  /** The default student account logs in as user 7 with its seeded password. */
  lemma StudentLogsIn()
    ensures Queries.Login(Initial().users, Initial().nextUserId, "student", "student") == Some(7)
  {
    InitialUsernamesUnique();
    Queries.LoginUnique(Initial().users, Initial().nextUserId, "student", "student", 7);
  }

  /** ... and is refused with any other password. */
  lemma StudentWrongPasswordRefused(password: string)
    requires password != "student"
    ensures Queries.Login(Initial().users, Initial().nextUserId, "student", password) == None
  {
    var db := Initial();
    InitialUsernamesUnique();
    forall k | k < db.nextUserId && k in db.users
      ensures !Queries.HasCredentials(db.users[k], "student", password)
    {
      if db.users[k].username == "student" {
        assert db.users[k].username == db.users[7].username;
      }
    }
  }

  /** Water & Sanitation complaints are routed to the plumber, user 3, the
      one officer of the Plumbing department. */
  lemma WaterGoesToPlumber()
    ensures Router.AssignedOfficer(Initial().users, Initial().nextUserId, "Water & Sanitation") == Some(3)
  {
    var db := Initial();
    Router.DepartmentExamples();
    var officer := Router.AssignedOfficer(db.users, db.nextUserId, "Water & Sanitation");
    assert Router.IsOfficerOf(db.users[3], "Plumbing");
    forall k | k in db.users && k != 3 ensures !Router.IsOfficerOf(db.users[k], "Plumbing") {
      assert db.users[k] == DefaultUsers[k - 1];
    }
  }

  /** A Water & Sanitation complaint by the student goes to the plumber and
      pays the student one point. */
  lemma PlumbingComplaintRouted(title: string, description: string, priority: string)
    ensures var (db1, id) := Lifecycle.SubmitComplaint(Initial(), title, description, "Water & Sanitation",
                                                       priority, 7, None);
            && id == Some(1)
            && db1.complaints[1].assignedTo == Some(3)
            && db1.complaints[1].status == PendingReview
            && db1.users[7].points == 1
  {
    WaterGoesToPlumber();
  }

  /** Resolving that complaint twice pays the three resolution points once:
      the student ends with four. */
  lemma ResolvedTwicePaysOnce(title: string, description: string, priority: string, notes: Option<string>)
    ensures var db1 := Lifecycle.SubmitComplaint(Initial(), title, description, "Water & Sanitation",
                                                 priority, 7, None).0;
            var db2 := Lifecycle.UpdateComplaintStatus(db1, 1, Resolved, notes, None);
            var db3 := Lifecycle.UpdateComplaintStatus(db2, 1, Resolved, notes, None);
            db2.users[7].points == 4 && db3.users[7].points == 4 && db3.complaints[1].pointsAwarded
  {
    PlumbingComplaintRouted(title, description, priority);
  }
}
