/** The database as one object: the three tables, their auto-increment
    counters and a logical clock for `created_at`, with one method per
    function of the application that inserts or updates rows. Each method
    is proved to leave the object in the state the matching transition of
    `Lifecycle` describes, so everything proved there holds of it. */
module Workflow {
  import opened Wrappers
  import opened Schema
  import Router
  import Ledger
  import Lifecycle

  class Store {
    var users: map<nat, User>
    var complaints: map<nat, Complaint>
    var lostItems: map<nat, LostItem>
    var nextUserId: nat
    var nextComplaintId: nat
    var nextLostItemId: nat
    var clock: nat

    /** The object's fields as a database value. */
    function State(): Lifecycle.Db
      reads this
    {
      Lifecycle.Db(users, complaints, lostItems, nextUserId, nextComplaintId, nextLostItemId, clock)
    }

    /** The schema's constraints hold. */
    ghost predicate Valid()
      reads this
    {
      Lifecycle.Consistent(State())
    }

    /** Every user holds exactly the points their complaints have paid: one per
        submission and three per complaint whose award flag is set. */
    ghost predicate LedgerBalanced()
      reads this
    {
      Lifecycle.Balanced(State())
    }

    /** `init_db` on empty tables: the default accounts are inserted one by one
        with `INSERT IGNORE`. */
    constructor Init()
      ensures State() == Lifecycle.Seed(|DefaultUsers|)
      ensures Valid() && LedgerBalanced()
    {
      users, complaints, lostItems := map[], map[], map[];
      nextUserId, nextComplaintId, nextLostItemId, clock := 1, 1, 1, 0;
      new;
      InsertDefaults();
      Lifecycle.SeedIsConsistent(|DefaultUsers|);
    }

    /** The loop of `init_db` over the default accounts, from empty tables. */
    method InsertDefaults()
      requires State() == Lifecycle.Empty
      modifies this
      ensures State() == Lifecycle.Seed(|DefaultUsers|)
    {
      for i := 0 to |DefaultUsers|
        invariant State() == Lifecycle.Seed(i)
      {
        InsertUserIgnore(DefaultUsers[i]);
        Lifecycle.SeedStep(i);
      }
    }

    /** `INSERT IGNORE INTO users ...`: adds `u` under the next id, unless its
        username is taken. */
    method InsertUserIgnore(u: User)
      modifies this
      ensures State() == Lifecycle.InsertUserIgnore(old(State()), u)
      ensures old(Valid()) ==> Valid()
      ensures old(Valid()) && old(LedgerBalanced()) && u.points == 0 ==> LedgerBalanced()
    {
      ghost var before := State();
      if !Lifecycle.UsernameTaken(users, u.username) {
        users := users[nextUserId := u];
        nextUserId := nextUserId + 1;
      }
      if Lifecycle.Consistent(before) {
        Lifecycle.InsertUserKeepsInvariants(before, u);
      }
    }

    /** `award_points`: `UPDATE users SET points = points + k WHERE id = u`. */
    method AwardPoints(u: nat, k: int)
      modifies this
      ensures State() == old(State()).(users := Ledger.Award(old(users), u, k))
      ensures old(Valid()) ==> Valid()
    {
      if old(Valid()) {
        Lifecycle.UsersOkAward(users, nextUserId, u, k);
        Lifecycle.ComplaintsOkWider(complaints, users, Ledger.Award(users, u, k), nextComplaintId, clock, clock);
        Lifecycle.LostItemsOkWider(lostItems, users, Ledger.Award(users, u, k), nextLostItemId, clock, clock);
      }
      users := Ledger.Award(users, u, k);
    }

    /** `submit_new_complaint`: inserts the complaint, routed to an officer of
        its category's department, then awards the submission point. */
    method SubmitComplaint(title: string, description: string, category: string, priority: string,
                           userId: nat, imagePath: Option<string>) returns (id: Option<nat>)
      modifies this
      ensures (State(), id) == Lifecycle.SubmitComplaint(old(State()), title, description, category, priority,
                                                         userId, imagePath)
      ensures old(Valid()) ==> Valid()
      ensures old(Valid()) && old(LedgerBalanced()) ==> LedgerBalanced()
    {
      ghost var before := State();
      if userId !in users {
        return None;
      }
      var c := Lifecycle.NewComplaint(State(), title, description, category, priority, userId, imagePath);
      id := Some(nextComplaintId);
      complaints := complaints[nextComplaintId := c];
      nextComplaintId := nextComplaintId + 1;
      clock := clock + 1;
      AwardPoints(userId, Ledger.SubmissionReward);
      if Lifecycle.Consistent(before) {
        Lifecycle.SubmitKeepsConsistent(before, title, description, category, priority, userId, imagePath);
        if Lifecycle.Balanced(before) {
          Lifecycle.SubmitKeepsBalance(before, title, description, category, priority, userId, imagePath);
        }
      }
    }

    /** `update_complaint_status`: overwrites status, assignee and admin notes;
        the first update to `Resolved` sets the award flag and pays the
        reporter the resolution reward. */
    method UpdateComplaintStatus(id: nat, status: string, notes: Option<string>, assignedTo: Option<nat>)
      modifies this
      ensures State() == Lifecycle.UpdateComplaintStatus(old(State()), id, status, notes, assignedTo)
      ensures old(Valid()) && (assignedTo.Some? ==> assignedTo.value in old(users)) ==> Valid()
      ensures old(Valid()) && old(LedgerBalanced()) ==> LedgerBalanced()
    {
      ghost var before := State();
      ghost var after := Lifecycle.UpdateComplaintStatus(before, id, status, notes, assignedTo);
      if Lifecycle.Consistent(before) {
        if assignedTo.Some? ==> assignedTo.value in before.users {
          Lifecycle.UpdateKeepsConsistent(before, id, status, notes, assignedTo);
        }
        if Lifecycle.Balanced(before) {
          Lifecycle.UpdateKeepsBalance(before, id, status, notes, assignedTo);
        }
      }
      if id in complaints {
        var c := complaints[id];
        if Lifecycle.PaysResolution(c, status) {
          AwardPoints(c.userId, Ledger.ResolutionReward);
          complaints := complaints[id := c.(status := status, assignedTo := assignedTo, adminNotes := notes,
                                            pointsAwarded := true)];
        } else {
          complaints := complaints[id := c.(status := status, assignedTo := assignedTo, adminNotes := notes)];
        }
      }
      assert State() == after;
    }

    /** `submit_lost_item`: inserts the report with status `Lost`. */
    method SubmitLostItem(itemName: string, description: string, lostTime: nat, lostPlace: string,
                          userId: nat, imagePath: Option<string>) returns (id: Option<nat>)
      modifies this
      ensures (State(), id) == Lifecycle.SubmitLostItem(old(State()), itemName, description, lostTime, lostPlace,
                                                        userId, imagePath)
      ensures old(Valid()) ==> Valid()
      ensures old(Valid()) && old(LedgerBalanced()) ==> LedgerBalanced()
    {
      ghost var before := State();
      if userId !in users {
        return None;
      }
      var l := Lifecycle.NewLostItem(State(), itemName, description, lostTime, lostPlace, userId, imagePath);
      id := Some(nextLostItemId);
      lostItems := lostItems[nextLostItemId := l];
      nextLostItemId := nextLostItemId + 1;
      clock := clock + 1;
      if Lifecycle.Consistent(before) {
        Lifecycle.SubmitLostItemKeepsInvariants(before, itemName, description, lostTime, lostPlace, userId, imagePath);
      }
    }

    /** `update_lost_item_status`: overwrites status and admin notes. */
    method UpdateLostItemStatus(id: nat, status: string, notes: Option<string>)
      modifies this
      ensures State() == Lifecycle.UpdateLostItemStatus(old(State()), id, status, notes)
      ensures old(Valid()) ==> Valid()
      ensures old(Valid()) && old(LedgerBalanced()) ==> LedgerBalanced()
    {
      ghost var before := State();
      if id in lostItems {
        lostItems := lostItems[id := lostItems[id].(status := status, adminNotes := notes)];
      }
      if Lifecycle.Consistent(before) {
        Lifecycle.UpdateLostItemKeepsInvariants(before, id, status, notes);
      }
    }
  }
}
