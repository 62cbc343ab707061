/** The rewards ledger: point awards on users and the points a user's
    complaints have earned. */
module Ledger {
  import opened Schema

  /** Points paid to the reporter when a complaint is submitted. */
  const SubmissionReward := 1
  /** Points paid to the reporter when a complaint is first resolved. */
  const ResolutionReward := 3

  /** `UPDATE users SET points = points + k WHERE id = u`: user `u` gains `k`
      points, every other user is unchanged, and an unknown `u` changes nothing. */
  function Award(users: map<nat, User>, u: nat, k: int): (r: map<nat, User>)
    ensures r.Keys == users.Keys
    ensures u in users ==> r[u] == users[u].(points := users[u].points + k)
    ensures forall v :: v in users && v != u ==> r[v] == users[v]
    ensures u !in users ==> r == users
  {
    if u in users then users[u := users[u].(points := users[u].points + k)] else users
  }

  /** What one complaint has paid its reporter so far: the submission reward,
      plus the resolution reward once the complaint's flag is set. */
  function Reward(c: Complaint): nat
  {
    SubmissionReward + if c.pointsAwarded then ResolutionReward else 0
  }

  /** What complaint `i`, if it exists, has paid user `u`. */
  function Share(cs: map<nat, Complaint>, i: nat, u: nat): nat
  {
    if i in cs && cs[i].userId == u then Reward(cs[i]) else 0
  }

  /** The points user `u` has earned from the complaints with ids below `n`. */
  function Earned(cs: map<nat, Complaint>, n: nat, u: nat): nat
  {
    if n == 0 then 0 else Earned(cs, n - 1, u) + Share(cs, n - 1, u)
  }

  /** Earned depends only on the shares of the ids below the bound. */
  lemma {:induction false} EarnedFrame(cs: map<nat, Complaint>, cs': map<nat, Complaint>, n: nat, u: nat)
    requires forall i: nat :: i < n ==> Share(cs, i, u) == Share(cs', i, u)
    ensures Earned(cs, n, u) == Earned(cs', n, u)
  {
    if n > 0 {
      EarnedFrame(cs, cs', n - 1, u);
    }
  }

  /** Inserting complaint `c` under the next id `n` adds its reward to its
      reporter's earnings and nothing to anyone else's. */
  lemma {:induction false} EarnedInsert(cs: map<nat, Complaint>, n: nat, c: Complaint, u: nat)
    requires n !in cs
    ensures Earned(cs[n := c], n + 1, u) == Earned(cs, n, u) + (if c.userId == u then Reward(c) else 0)
  {
    EarnedFrame(cs, cs[n := c], n, u);
  }

  /** Replacing existing complaint `id` changes each user's earnings by the
      change in that complaint's share. */
  lemma {:induction false} EarnedReplace(cs: map<nat, Complaint>, n: nat, id: nat, c: Complaint, u: nat)
    requires id < n && id in cs
    ensures Earned(cs[id := c], n, u) + Share(cs, id, u) == Earned(cs, n, u) + Share(cs[id := c], id, u)
  {
    if n - 1 == id {
      EarnedFrame(cs, cs[id := c], n - 1, u);
    } else {
      EarnedReplace(cs, n - 1, id, c, u);
    }
  }

  /** A user no complaint below the bound names as reporter has earned nothing. */
  lemma {:induction false} EarnedNothing(cs: map<nat, Complaint>, n: nat, u: nat)
    requires forall i :: i < n && i in cs ==> cs[i].userId != u
    ensures Earned(cs, n, u) == 0
  {
    if n > 0 {
      EarnedNothing(cs, n - 1, u);
    }
  }

  /** Every user holds exactly the points the complaints with ids below `n`
      have paid them. */
  ghost predicate Balanced(users: map<nat, User>, cs: map<nat, Complaint>, n: nat)
  {
    forall u :: u in users ==> users[u].points == Earned(cs, n, u)
  }

  /** A submission (a new complaint under the next id, with its flag clear)
      that pays its reporter the submission reward keeps the ledger balanced. */
  lemma SubmissionKeepsBalance(users: map<nat, User>, cs: map<nat, Complaint>, n: nat, c: Complaint)
    requires Balanced(users, cs, n) && n !in cs && !c.pointsAwarded
    ensures Balanced(Award(users, c.userId, SubmissionReward), cs[n := c], n + 1)
  {
    var users' := Award(users, c.userId, SubmissionReward);
    forall u | u in users' ensures users'[u].points == Earned(cs[n := c], n + 1, u) {
      EarnedInsert(cs, n, c, u);
    }
  }

  /** Replacing complaint `id` by `c` with the same reporter and a flag that
      does not revert keeps the ledger balanced exactly when the reporter is
      paid the resolution reward if and only if the flag goes from clear to set. */
  lemma UpdateKeepsBalance(users: map<nat, User>, cs: map<nat, Complaint>, n: nat, id: nat, c: Complaint)
    requires Balanced(users, cs, n) && id < n && id in cs
    requires c.userId == cs[id].userId && (cs[id].pointsAwarded ==> c.pointsAwarded)
    ensures var pays := c.pointsAwarded && !cs[id].pointsAwarded;
            Balanced(if pays then Award(users, c.userId, ResolutionReward) else users, cs[id := c], n)
  {
    var pays := c.pointsAwarded && !cs[id].pointsAwarded;
    var users' := if pays then Award(users, c.userId, ResolutionReward) else users;
    forall u | u in users' ensures users'[u].points == Earned(cs[id := c], n, u) {
      EarnedReplace(cs, n, id, c, u);
    }
  }

  /** A new account with no points, that no complaint names as reporter, keeps
      the ledger balanced. */
  lemma NewUserKeepsBalance(users: map<nat, User>, cs: map<nat, Complaint>, n: nat, id: nat, u: User)
    requires Balanced(users, cs, n) && u.points == 0
    requires forall i :: i < n && i in cs ==> cs[i].userId != id
    ensures Balanced(users[id := u], cs, n)
  {
    EarnedNothing(cs, n, id);
  }
}
