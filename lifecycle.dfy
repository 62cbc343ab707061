/** The complaint and lost-item lifecycles as transitions of the whole
    database state: each function gives the state after one SQL-backed
    operation, and the lemmas show that every transition keeps the schema's
    constraints and the points ledger. */
module Lifecycle {
  import opened Wrappers
  import opened Schema
  import Router
  import Ledger

  /** The three tables, their next auto-increment ids and the clock that
      stamps `created_at`. */
  datatype Db = Db(
    users: map<nat, User>,
    complaints: map<nat, Complaint>,
    lostItems: map<nat, LostItem>,
    nextUserId: nat,
    nextComplaintId: nat,
    nextLostItemId: nat,
    clock: nat)

  /** The users table: ids below the next id, UNIQUE(username). */
  ghost predicate UsersOk(users: map<nat, User>, nextUserId: nat)
  {
    && 1 <= nextUserId
    && (forall k :: k in users ==> 1 <= k < nextUserId)
    && UniqueUsernames(users)
  }

  /** The complaints table: ids below the next id, reporter and assignee are
      users (the FOREIGN KEY constraints), stamps from the clock in id order,
      and a Resolved complaint has its award flag set. */
  ghost predicate ComplaintsOk(cs: map<nat, Complaint>, users: map<nat, User>, nextComplaintId: nat, clock: nat)
  {
    && 1 <= nextComplaintId
    && (forall k :: k in cs ==> 1 <= k < nextComplaintId)
    && (forall k :: k in cs ==> cs[k].userId in users)
    && (forall k :: k in cs && cs[k].assignedTo.Some? ==> cs[k].assignedTo.value in users)
    && (forall k :: k in cs ==> cs[k].createdAt < clock)
    && ComplaintStampsFollowIds(cs)
    && (forall k :: k in cs && cs[k].status == Resolved ==> cs[k].pointsAwarded)
  }

  /** The lost_items table: ids below the next id, reporter is a user, stamps
      from the clock in id order. */
  ghost predicate LostItemsOk(ls: map<nat, LostItem>, users: map<nat, User>, nextLostItemId: nat, clock: nat)
  {
    && 1 <= nextLostItemId
    && (forall k :: k in ls ==> 1 <= k < nextLostItemId)
    && (forall k :: k in ls ==> ls[k].userId in users)
    && (forall k :: k in ls ==> ls[k].createdAt < clock)
    && LostItemStampsFollowIds(ls)
  }

  /** The schema's constraints and the bookkeeping the counters keep. */
  ghost predicate Consistent(db: Db)
  {
    && UsersOk(db.users, db.nextUserId)
    && ComplaintsOk(db.complaints, db.users, db.nextComplaintId, db.clock)
    && LostItemsOk(db.lostItems, db.users, db.nextLostItemId, db.clock)
  }

  // Each table's constraints survive the changes the operations make to it.

  lemma UsersOkAward(users: map<nat, User>, nextUserId: nat, u: nat, k: int)
    requires UsersOk(users, nextUserId)
    ensures UsersOk(Ledger.Award(users, u, k), nextUserId)
  {
    var r := Ledger.Award(users, u, k);
    assert forall i :: i in r ==> r[i].username == users[i].username;
  }

  lemma UsersOkInsert(users: map<nat, User>, nextUserId: nat, u: User)
    requires UsersOk(users, nextUserId)
    requires forall k :: k in users ==> users[k].username != u.username
    ensures nextUserId !in users && UsersOk(users[nextUserId := u], nextUserId + 1)
  {
  }

  lemma ComplaintsOkWider(cs: map<nat, Complaint>, users: map<nat, User>, users': map<nat, User>,
                          nextComplaintId: nat, clock: nat, clock': nat)
    requires ComplaintsOk(cs, users, nextComplaintId, clock)
    requires users.Keys <= users'.Keys && clock <= clock'
    ensures ComplaintsOk(cs, users', nextComplaintId, clock')
  {
  }

  lemma ComplaintsOkInsert(cs: map<nat, Complaint>, users: map<nat, User>, users': map<nat, User>,
                           nextComplaintId: nat, clock: nat, c: Complaint)
    requires ComplaintsOk(cs, users, nextComplaintId, clock) && users.Keys <= users'.Keys
    requires c.userId in users' && (c.assignedTo.Some? ==> c.assignedTo.value in users')
    requires c.createdAt == clock && (c.status == Resolved ==> c.pointsAwarded)
    ensures nextComplaintId !in cs
    ensures ComplaintsOk(cs[nextComplaintId := c], users', nextComplaintId + 1, clock + 1)
  {
  }

  lemma ComplaintsOkReplace(cs: map<nat, Complaint>, users: map<nat, User>, users': map<nat, User>,
                            nextComplaintId: nat, clock: nat, id: nat, c: Complaint)
    requires ComplaintsOk(cs, users, nextComplaintId, clock) && users.Keys <= users'.Keys && id in cs
    requires c.userId == cs[id].userId && c.createdAt == cs[id].createdAt
    requires c.assignedTo.Some? ==> c.assignedTo.value in users'
    requires c.status == Resolved ==> c.pointsAwarded
    ensures ComplaintsOk(cs[id := c], users', nextComplaintId, clock)
  {
  }

  lemma LostItemsOkWider(ls: map<nat, LostItem>, users: map<nat, User>, users': map<nat, User>,
                         nextLostItemId: nat, clock: nat, clock': nat)
    requires LostItemsOk(ls, users, nextLostItemId, clock)
    requires users.Keys <= users'.Keys && clock <= clock'
    ensures LostItemsOk(ls, users', nextLostItemId, clock')
  {
  }

  lemma LostItemsOkInsert(ls: map<nat, LostItem>, users: map<nat, User>, nextLostItemId: nat, clock: nat,
                          l: LostItem)
    requires LostItemsOk(ls, users, nextLostItemId, clock)
    requires l.userId in users && l.createdAt == clock
    ensures nextLostItemId !in ls
    ensures LostItemsOk(ls[nextLostItemId := l], users, nextLostItemId + 1, clock + 1)
  {
  }

  lemma LostItemsOkReplace(ls: map<nat, LostItem>, users: map<nat, User>, nextLostItemId: nat, clock: nat,
                           id: nat, l: LostItem)
    requires LostItemsOk(ls, users, nextLostItemId, clock) && id in ls
    requires l.userId == ls[id].userId && l.createdAt == ls[id].createdAt
    ensures LostItemsOk(ls[id := l], users, nextLostItemId, clock)
  {
  }

  /** Every user holds exactly the points their complaints have paid. */
  ghost predicate Balanced(db: Db)
  {
    Ledger.Balanced(db.users, db.complaints, db.nextComplaintId)
  }

  /** A freshly created, empty database. */
  const Empty := Db(map[], map[], map[], 1, 1, 1, 0)

  lemma EmptyIsConsistent()
    ensures Consistent(Empty) && Balanced(Empty)
  {
  }

  // ---------------------------------------------------------------- users

  /** Some user already has this username. */
  predicate UsernameTaken(users: map<nat, User>, username: string)
  {
    exists k :: k in users && users[k].username == username
  }

  /** `INSERT IGNORE INTO users ...`: `u` under the next id, unless its username
      is taken, in which case nothing changes. */
  function InsertUserIgnore(db: Db, u: User): (r: Db)
    ensures UsernameTaken(db.users, u.username) ==> r == db
    ensures !UsernameTaken(db.users, u.username) ==>
              && r.users.Keys == db.users.Keys + {db.nextUserId}
              && r.users[db.nextUserId] == u
              && (forall k :: k in db.users && k != db.nextUserId ==> r.users[k] == db.users[k])
              && r.nextUserId == db.nextUserId + 1
              && r.(users := db.users, nextUserId := db.nextUserId) == db
  {
    if UsernameTaken(db.users, u.username) then db
    else db.(users := db.users[db.nextUserId := u], nextUserId := db.nextUserId + 1)
  }

  lemma InsertUserKeepsInvariants(db: Db, u: User)
    requires Consistent(db)
    ensures !UsernameTaken(db.users, u.username) ==> db.nextUserId !in db.users
    ensures Consistent(InsertUserIgnore(db, u))
    ensures Balanced(db) && u.points == 0 ==> Balanced(InsertUserIgnore(db, u))
  {
    if !UsernameTaken(db.users, u.username) {
      var users' := db.users[db.nextUserId := u];
      UsersOkInsert(db.users, db.nextUserId, u);
      ComplaintsOkWider(db.complaints, db.users, users', db.nextComplaintId, db.clock, db.clock);
      LostItemsOkWider(db.lostItems, db.users, users', db.nextLostItemId, db.clock, db.clock);
      assert InsertUserIgnore(db, u) == db.(users := users', nextUserId := db.nextUserId + 1);
      if Balanced(db) && u.points == 0 {
        Ledger.NewUserKeepsBalance(db.users, db.complaints, db.nextComplaintId, db.nextUserId, u);
      }
    }
  }

  /** The users table after the first `i` default accounts are inserted into an
      empty one: ids 1 .. i. */
  ghost function SeededUsers(i: nat): map<nat, User>
    requires i <= |DefaultUsers|
  {
    if i == 0 then map[] else SeededUsers(i - 1)[i := DefaultUsers[i - 1]]
  }

  lemma {:induction false} SeededUsersShape(i: nat)
    requires i <= |DefaultUsers|
    ensures forall k :: k in SeededUsers(i) <==> 1 <= k <= i
    ensures forall k :: k in SeededUsers(i) ==> SeededUsers(i)[k] == DefaultUsers[k - 1]
  {
    if i > 0 {
      SeededUsersShape(i - 1);
    }
  }

  /** No default account's username repeats an earlier one's, so none of the
      seed inserts is ignored. */
  lemma SeedUsernamesFresh(i: nat)
    requires i < |DefaultUsers|
    ensures !UsernameTaken(SeededUsers(i), DefaultUsers[i].username)
  {
    SeededUsersShape(i);
  }

  /** The database after `init_db` has run its first `i` `INSERT IGNORE`s of
      the default accounts into the empty tables. */
  function Seed(i: nat): Db
    requires i <= |DefaultUsers|
  {
    if i == 0 then Empty else InsertUserIgnore(Seed(i - 1), DefaultUsers[i - 1])
  }

  /** One more step of `init_db` inserts the next default account. */
  lemma SeedStep(i: nat)
    requires i < |DefaultUsers|
    ensures Seed(i + 1) == InsertUserIgnore(Seed(i), DefaultUsers[i])
  {
  }

  /** None of the default inserts is ignored: account `k` of the seed list gets
      id `k + 1`, and no complaint or lost item exists yet. */
  lemma {:induction false} SeedInsertsEveryDefault(i: nat)
    requires i <= |DefaultUsers|
    ensures Seed(i) == Empty.(users := SeededUsers(i), nextUserId := i + 1)
  {
    if i > 0 {
      SeedInsertsEveryDefault(i - 1);
      SeedUsernamesFresh(i - 1);
    }
  }

  /** The seeded database satisfies the constraints and the ledger. */
  lemma {:induction false} SeedIsConsistent(i: nat)
    requires i <= |DefaultUsers|
    ensures Consistent(Seed(i)) && Balanced(Seed(i))
  {
    if i == 0 {
      EmptyIsConsistent();
    } else {
      SeedIsConsistent(i - 1);
      InsertUserKeepsInvariants(Seed(i - 1), DefaultUsers[i - 1]);
    }
  }

  // ---------------------------------------------------------------- complaints

  /** The row `submit_new_complaint` inserts: the given columns, status
      `Pending Admin Review`, the routed officer, no notes, award flag clear. */
  function NewComplaint(db: Db, title: string, description: string, category: string, priority: string,
                        userId: nat, imagePath: Option<string>): (c: Complaint)
    ensures c.status == PendingReview && !c.pointsAwarded
    ensures c.assignedTo == Router.AssignedOfficer(db.users, db.nextUserId, category)
    ensures c.createdAt == db.clock && c.userId == userId
    ensures c.adminNotes.None? && c.officerNotes.None?
    ensures c.title == title && c.description == description && c.category == category
    ensures c.priority == priority && c.imagePath == imagePath
  {
    Complaint(title, description, category, priority, PendingReview, db.clock, userId,
              Router.AssignedOfficer(db.users, db.nextUserId, category), None, None, imagePath, false)
  }

  /** `submit_new_complaint`: the complaint is inserted under the next id and
      the reporter is paid the submission reward. When the reporter is not a
      user the insert violates the foreign key and nothing changes. */
  function SubmitComplaint(db: Db, title: string, description: string, category: string, priority: string,
                           userId: nat, imagePath: Option<string>): (r: (Db, Option<nat>))
    ensures userId !in db.users ==> r == (db, None)
    ensures userId in db.users ==>
              && r.1 == Some(db.nextComplaintId)
              && r.0.complaints.Keys == db.complaints.Keys + {db.nextComplaintId}
              && r.0.complaints[db.nextComplaintId]
                   == NewComplaint(db, title, description, category, priority, userId, imagePath)
              && (forall k :: k in db.complaints && k != db.nextComplaintId ==> r.0.complaints[k] == db.complaints[k])
              && r.0.users == Ledger.Award(db.users, userId, Ledger.SubmissionReward)
              && r.0.nextComplaintId == db.nextComplaintId + 1 && r.0.clock == db.clock + 1
              && r.0.lostItems == db.lostItems
              && r.0.nextUserId == db.nextUserId && r.0.nextLostItemId == db.nextLostItemId
  {
    if userId !in db.users then (db, None)
    else
      var c := NewComplaint(db, title, description, category, priority, userId, imagePath);
      var db' := db.(complaints := db.complaints[db.nextComplaintId := c],
                     nextComplaintId := db.nextComplaintId + 1,
                     clock := db.clock + 1);
      (db'.(users := Ledger.Award(db'.users, userId, Ledger.SubmissionReward)), Some(db.nextComplaintId))
  }

  /** A submission inserts under a fresh id and keeps the constraints. */
  lemma SubmitKeepsConsistent(db: Db, title: string, description: string, category: string, priority: string,
                              userId: nat, imagePath: Option<string>)
    requires Consistent(db)
    ensures db.nextComplaintId !in db.complaints
    ensures Consistent(SubmitComplaint(db, title, description, category, priority, userId, imagePath).0)
  {
    if userId in db.users {
      var c := NewComplaint(db, title, description, category, priority, userId, imagePath);
      var users' := Ledger.Award(db.users, userId, Ledger.SubmissionReward);
      UsersOkAward(db.users, db.nextUserId, userId, Ledger.SubmissionReward);
      ComplaintsOkInsert(db.complaints, db.users, users', db.nextComplaintId, db.clock, c);
      LostItemsOkWider(db.lostItems, db.users, users', db.nextLostItemId, db.clock, db.clock + 1);
      assert SubmitComplaint(db, title, description, category, priority, userId, imagePath).0
          == Db(users', db.complaints[db.nextComplaintId := c], db.lostItems,
                db.nextUserId, db.nextComplaintId + 1, db.nextLostItemId, db.clock + 1);
    }
  }

  /** A submission keeps the ledger: the reporter's one point is matched by
      the new complaint's submission reward. */
  lemma SubmitKeepsBalance(db: Db, title: string, description: string, category: string, priority: string,
                           userId: nat, imagePath: Option<string>)
    requires Consistent(db) && Balanced(db)
    ensures Balanced(SubmitComplaint(db, title, description, category, priority, userId, imagePath).0)
  {
    if userId in db.users {
      var c := NewComplaint(db, title, description, category, priority, userId, imagePath);
      Ledger.SubmissionKeepsBalance(db.users, db.complaints, db.nextComplaintId, c);
    }
  }

  /** Whether an update of complaint `c` to `status` pays the resolution reward:
      the status is `Resolved` and the award flag is still clear. */
  predicate PaysResolution(c: Complaint, status: string)
  {
    status == Resolved && !c.pointsAwarded
  }

  /** `update_complaint_status`: status, assignee and admin notes of complaint
      `id` are overwritten; the first update to `Resolved` also sets the award
      flag and pays the reporter the resolution reward. An unknown id changes
      nothing. */
  function UpdateComplaintStatus(db: Db, id: nat, status: string, notes: Option<string>, assignedTo: Option<nat>)
    : (r: Db)
    ensures id !in db.complaints ==> r == db
    ensures id in db.complaints ==> r.complaints.Keys == db.complaints.Keys
    ensures id in db.complaints ==>
              var c, c' := db.complaints[id], r.complaints[id];
              && (forall k :: k in db.complaints && k != id ==> r.complaints[k] == db.complaints[k])
              && c'.status == status && c'.assignedTo == assignedTo && c'.adminNotes == notes
              && c'.pointsAwarded == (c.pointsAwarded || status == Resolved)
              && c'.(status := c.status, assignedTo := c.assignedTo, adminNotes := c.adminNotes,
                     pointsAwarded := c.pointsAwarded) == c
              && r.users == (if PaysResolution(c, status)
                             then Ledger.Award(db.users, c.userId, Ledger.ResolutionReward)
                             else db.users)
              && r.(users := db.users, complaints := db.complaints) == db
  {
    if id !in db.complaints then db
    else
      var c := db.complaints[id];
      if PaysResolution(c, status) then
        var paid := db.(users := Ledger.Award(db.users, c.userId, Ledger.ResolutionReward));
        paid.(complaints := paid.complaints[id := c.(status := status, assignedTo := assignedTo,
                                                       adminNotes := notes, pointsAwarded := true)])
      else
        db.(complaints := db.complaints[id := c.(status := status, assignedTo := assignedTo, adminNotes := notes)])
  }

  /** An update keeps the constraints, given an assignee that is a user. */
  lemma UpdateKeepsConsistent(db: Db, id: nat, status: string, notes: Option<string>, assignedTo: Option<nat>)
    requires Consistent(db)
    requires assignedTo.Some? ==> assignedTo.value in db.users
    ensures Consistent(UpdateComplaintStatus(db, id, status, notes, assignedTo))
  {
    if id in db.complaints {
      var c := db.complaints[id];
      var pays := PaysResolution(c, status);
      var c' := c.(status := status, assignedTo := assignedTo, adminNotes := notes,
                   pointsAwarded := c.pointsAwarded || pays);
      var users' := if pays then Ledger.Award(db.users, c.userId, Ledger.ResolutionReward) else db.users;
      UsersOkAward(db.users, db.nextUserId, c.userId, Ledger.ResolutionReward);
      ComplaintsOkReplace(db.complaints, db.users, users', db.nextComplaintId, db.clock, id, c');
      LostItemsOkWider(db.lostItems, db.users, users', db.nextLostItemId, db.clock, db.clock);
      assert UpdateComplaintStatus(db, id, status, notes, assignedTo)
          == db.(users := users', complaints := db.complaints[id := c']);
    }
  }

  /** An update keeps the ledger: the resolution reward is paid exactly when
      the award flag goes from clear to set. */
  lemma UpdateKeepsBalance(db: Db, id: nat, status: string, notes: Option<string>, assignedTo: Option<nat>)
    requires Consistent(db) && Balanced(db)
    ensures Balanced(UpdateComplaintStatus(db, id, status, notes, assignedTo))
  {
    if id in db.complaints {
      var c := db.complaints[id];
      var c' := c.(status := status, assignedTo := assignedTo, adminNotes := notes,
                   pointsAwarded := c.pointsAwarded || PaysResolution(c, status));
      Ledger.UpdateKeepsBalance(db.users, db.complaints, db.nextComplaintId, id, c');
    }
  }

  /** The resolution reward fires at most once per complaint: after a first
      update to `Resolved`, a second one pays nothing and leaves the flag set,
      and over both the reporter gains the reward exactly when the flag was
      clear to begin with. */
  lemma ResolutionPaidOnce(db: Db, id: nat, notes1: Option<string>, assignedTo1: Option<nat>,
                           notes2: Option<string>, assignedTo2: Option<nat>)
    requires Consistent(db) && id in db.complaints
    ensures var db1 := UpdateComplaintStatus(db, id, Resolved, notes1, assignedTo1);
            var db2 := UpdateComplaintStatus(db1, id, Resolved, notes2, assignedTo2);
            var u := db.complaints[id].userId;
            && db1.complaints[id].pointsAwarded && db2.complaints[id].pointsAwarded
            && db2.users == db1.users
            && db2.users[u].points
               == db.users[u].points + if db.complaints[id].pointsAwarded then 0 else Ledger.ResolutionReward
  {
  }

  // ---------------------------------------------------------------- lost items

  /** The row `submit_lost_item` inserts: the given columns, status `Lost`,
      no notes, and the current stamp. */
  function NewLostItem(db: Db, itemName: string, description: string, lostTime: nat, lostPlace: string,
                       userId: nat, imagePath: Option<string>): (l: LostItem)
    ensures l.status == Lost && l.adminNotes.None?
    ensures l.createdAt == db.clock && l.userId == userId
    ensures l.itemName == itemName && l.description == description
    ensures l.lostTime == lostTime && l.lostPlace == lostPlace && l.imagePath == imagePath
  {
    LostItem(itemName, description, lostTime, lostPlace, Lost, db.clock, userId, None, imagePath)
  }

  /** `submit_lost_item`: the report is inserted under the next id with status
      `Lost`; no points move. When the reporter is not a user the insert
      violates the foreign key and nothing changes. */
  function SubmitLostItem(db: Db, itemName: string, description: string, lostTime: nat, lostPlace: string,
                          userId: nat, imagePath: Option<string>): (r: (Db, Option<nat>))
    ensures userId !in db.users ==> r == (db, None)
    ensures userId in db.users ==>
              && r.1 == Some(db.nextLostItemId)
              && r.0.lostItems.Keys == db.lostItems.Keys + {db.nextLostItemId}
              && r.0.lostItems[db.nextLostItemId]
                   == NewLostItem(db, itemName, description, lostTime, lostPlace, userId, imagePath)
              && (forall k :: k in db.lostItems && k != db.nextLostItemId ==> r.0.lostItems[k] == db.lostItems[k])
              && r.0.nextLostItemId == db.nextLostItemId + 1 && r.0.clock == db.clock + 1
    ensures r.0.users == db.users && r.0.complaints == db.complaints
    ensures r.0.nextUserId == db.nextUserId && r.0.nextComplaintId == db.nextComplaintId
  {
    if userId !in db.users then (db, None)
    else
      var l := NewLostItem(db, itemName, description, lostTime, lostPlace, userId, imagePath);
      (db.(lostItems := db.lostItems[db.nextLostItemId := l],
           nextLostItemId := db.nextLostItemId + 1,
           clock := db.clock + 1), Some(db.nextLostItemId))
  }

  lemma SubmitLostItemKeepsInvariants(db: Db, itemName: string, description: string, lostTime: nat,
                                      lostPlace: string, userId: nat, imagePath: Option<string>)
    requires Consistent(db)
    ensures db.nextLostItemId !in db.lostItems
    ensures var r := SubmitLostItem(db, itemName, description, lostTime, lostPlace, userId, imagePath).0;
            Consistent(r) && (Balanced(db) ==> Balanced(r))
  {
    if userId in db.users {
      var l := NewLostItem(db, itemName, description, lostTime, lostPlace, userId, imagePath);
      ComplaintsOkWider(db.complaints, db.users, db.users, db.nextComplaintId, db.clock, db.clock + 1);
      LostItemsOkInsert(db.lostItems, db.users, db.nextLostItemId, db.clock, l);
      assert SubmitLostItem(db, itemName, description, lostTime, lostPlace, userId, imagePath).0
          == db.(lostItems := db.lostItems[db.nextLostItemId := l],
                 nextLostItemId := db.nextLostItemId + 1, clock := db.clock + 1);
    }
  }

  /** `update_lost_item_status`: status and admin notes of item `id` are
      overwritten, whatever the old status; an unknown id changes nothing. */
  function UpdateLostItemStatus(db: Db, id: nat, status: string, notes: Option<string>): (r: Db)
    ensures id !in db.lostItems ==> r == db
    ensures id in db.lostItems ==>
              && r.lostItems.Keys == db.lostItems.Keys
              && (forall k :: k in db.lostItems && k != id ==> r.lostItems[k] == db.lostItems[k])
              && r.lostItems[id].status == status && r.lostItems[id].adminNotes == notes
              && r.lostItems[id].(status := db.lostItems[id].status, adminNotes := db.lostItems[id].adminNotes)
                 == db.lostItems[id]
    ensures r.(lostItems := db.lostItems) == db
  {
    if id !in db.lostItems then db
    else db.(lostItems := db.lostItems[id := db.lostItems[id].(status := status, adminNotes := notes)])
  }

  lemma UpdateLostItemKeepsInvariants(db: Db, id: nat, status: string, notes: Option<string>)
    requires Consistent(db)
    ensures var r := UpdateLostItemStatus(db, id, status, notes);
            Consistent(r) && (Balanced(db) ==> Balanced(r))
  {
    if id in db.lostItems {
      var l := db.lostItems[id].(status := status, adminNotes := notes);
      LostItemsOkReplace(db.lostItems, db.users, db.nextLostItemId, db.clock, id, l);
      assert UpdateLostItemStatus(db, id, status, notes) == db.(lostItems := db.lostItems[id := l]);
    }
  }
}
