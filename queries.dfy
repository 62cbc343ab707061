/** The read-only views: role-filtered complaint and lost-item lists, the
    student leaderboard and login. Each takes the table maps and the table's
    next auto-increment id as the bound of its scan. */
module Queries {
  import opened Wrappers
  import opened Schema
  import Tables

  /** `LEFT JOIN users u ON ... = u.id`: the username, or NULL when no user has that id. */
  function UsernameOf(users: map<nat, User>, id: Option<nat>): Option<string>
  {
    if id.Some? && id.value in users then Some(users[id.value].username) else None
  }

  // ---------------------------------------------------------------- complaints

  /** The WHERE clause of the complaint list: an admin sees every complaint, an
      officer the complaints assigned to them, anyone else the complaints they
      reported. A NULL user id or a NULL assignee matches nothing. */
  predicate ComplaintVisible(c: Complaint, userId: Option<nat>, role: string)
  {
    if role == AdminRole then true
    else if role == OfficerRole then userId.Some? && c.assignedTo == userId
    else userId.Some? && c.userId == userId.value
  }

  /** One result row: the complaint's columns with the reporter's and the
      assignee's usernames joined in. */
  datatype ComplaintRow = ComplaintRow(id: nat, complaint: Complaint, reporter: Option<string>, assignedToName: Option<string>)

  /** The complaints with ids below `n` that `userId` in `role` may see, newest first. */
  function ComplaintsFor(users: map<nat, User>, cs: map<nat, Complaint>, n: nat, userId: Option<nat>, role: string)
    : (r: seq<ComplaintRow>)
    ensures forall k :: 0 <= k < |r| ==>
              && r[k].id < n && r[k].id in cs && r[k].complaint == cs[r[k].id]
              && ComplaintVisible(cs[r[k].id], userId, role)
              && r[k].reporter == UsernameOf(users, Some(cs[r[k].id].userId))
              && r[k].assignedToName == UsernameOf(users, cs[r[k].id].assignedTo)
    ensures forall id :: id < n && id in cs && ComplaintVisible(cs[id], userId, role) ==>
              exists k :: 0 <= k < |r| && r[k].id == id
    ensures forall j, k :: 0 <= j < k < |r| ==> r[j].id > r[k].id
  {
    var keep := (c: Complaint) => ComplaintVisible(c, userId, role);
    var ids := Tables.NewestFirst(cs, n, keep);
    var r := seq(|ids|, k requires 0 <= k < |ids| =>
      ComplaintRow(ids[k], cs[ids[k]], UsernameOf(users, Some(cs[ids[k]].userId)), UsernameOf(users, cs[ids[k]].assignedTo)));
    assert forall id :: id < n && id in cs && ComplaintVisible(cs[id], userId, role) ==>
             exists k :: 0 <= k < |r| && r[k].id == id by {
      forall id | id < n && id in cs && ComplaintVisible(cs[id], userId, role)
        ensures exists k :: 0 <= k < |r| && r[k].id == id
      {
        assert keep(cs[id]);
        assert id in ids;
        var k :| 0 <= k < |ids| && ids[k] == id;
        assert r[k].id == id;
      }
    }
    r
  }

  /** When stamps grow with ids, the complaint list is ordered by `created_at`
      non-increasing, as `ORDER BY c.created_at DESC` demands. */
  lemma ComplaintsNewestFirst(users: map<nat, User>, cs: map<nat, Complaint>, n: nat, userId: Option<nat>, role: string)
    requires ComplaintStampsFollowIds(cs)
    ensures var r := ComplaintsFor(users, cs, n, userId, role);
            forall j, k :: 0 <= j < k < |r| ==> r[j].complaint.createdAt >= r[k].complaint.createdAt
  {
  }

  // ---------------------------------------------------------------- lost items

  /** The WHERE clause of the lost-item list: an admin sees every item, anyone
      else the items they reported. */
  predicate LostItemVisible(l: LostItem, userId: Option<nat>, role: string)
  {
    role == AdminRole || (userId.Some? && l.userId == userId.value)
  }

  datatype LostItemRow = LostItemRow(id: nat, item: LostItem, reporter: Option<string>)

  /** The lost items with ids below `n` that `userId` in `role` may see, newest first. */
  function LostItemsFor(users: map<nat, User>, ls: map<nat, LostItem>, n: nat, userId: Option<nat>, role: string)
    : (r: seq<LostItemRow>)
    ensures forall k :: 0 <= k < |r| ==>
              && r[k].id < n && r[k].id in ls && r[k].item == ls[r[k].id]
              && LostItemVisible(ls[r[k].id], userId, role)
              && r[k].reporter == UsernameOf(users, Some(ls[r[k].id].userId))
    ensures forall id :: id < n && id in ls && LostItemVisible(ls[id], userId, role) ==>
              exists k :: 0 <= k < |r| && r[k].id == id
    ensures forall j, k :: 0 <= j < k < |r| ==> r[j].id > r[k].id
  {
    var keep := (l: LostItem) => LostItemVisible(l, userId, role);
    var ids := Tables.NewestFirst(ls, n, keep);
    var r := seq(|ids|, k requires 0 <= k < |ids| =>
      LostItemRow(ids[k], ls[ids[k]], UsernameOf(users, Some(ls[ids[k]].userId))));
    assert forall id :: id < n && id in ls && LostItemVisible(ls[id], userId, role) ==>
             exists k :: 0 <= k < |r| && r[k].id == id by {
      forall id | id < n && id in ls && LostItemVisible(ls[id], userId, role)
        ensures exists k :: 0 <= k < |r| && r[k].id == id
      {
        assert keep(ls[id]);
        assert id in ids;
        var k :| 0 <= k < |ids| && ids[k] == id;
        assert r[k].id == id;
      }
    }
    r
  }

  lemma LostItemsNewestFirst(users: map<nat, User>, ls: map<nat, LostItem>, n: nat, userId: Option<nat>, role: string)
    requires LostItemStampsFollowIds(ls)
    ensures var r := LostItemsFor(users, ls, n, userId, role);
            forall j, k :: 0 <= j < k < |r| ==> r[j].item.createdAt >= r[k].item.createdAt
  {
  }

  // ---------------------------------------------------------------- leaderboard

  /** How many students the leaderboard shows. */
  const LeaderboardSize := 10

  /** One leaderboard entry: `SELECT username, points, role`. */
  datatype Standing = Standing(username: string, points: int, role: string)

  function StandingOf(u: User): Standing
  {
    Standing(u.username, u.points, u.role)
  }

  /** The ids below `n` of the users whose role is student. */
  ghost function StudentIds(users: map<nat, User>, n: nat): set<nat>
  {
    set k | k < n && k in users && users[k].role == StudentRole
  }

  /** No two entries share a username. */
  ghost predicate DistinctNames(s: seq<Standing>)
  {
    forall i, j :: 0 <= i < j < |s| ==> s[i].username != s[j].username
  }

  /** The standings of every student with id below `n`, in id order. */
  function Students(users: map<nat, User>, n: nat): (r: seq<Standing>)
    ensures forall x :: x in r ==> x.role == StudentRole
    ensures forall x :: x in r ==> exists k :: k < n && k in users && StandingOf(users[k]) == x
    ensures forall k :: k < n && k in users && users[k].role == StudentRole ==> StandingOf(users[k]) in r
  {
    if n == 0 then []
    else
      var rest := Students(users, n - 1);
      if n - 1 in users && users[n - 1].role == StudentRole then rest + [StandingOf(users[n - 1])] else rest
  }

  /** Going from bound `n` to `n + 1` adds one student id exactly when user
      `n` is a student. */
  lemma StudentIdsStep(users: map<nat, User>, n: nat)
    ensures |StudentIds(users, n + 1)| == |StudentIds(users, n)| + if n in users && users[n].role == StudentRole then 1 else 0
  {
    if n in users && users[n].role == StudentRole {
      assert StudentIds(users, n + 1) == StudentIds(users, n) + {n};
    } else {
      assert StudentIds(users, n + 1) == StudentIds(users, n);
    }
  }

  /** One entry per student: as many entries as student ids. */
  lemma {:induction false} StudentsCount(users: map<nat, User>, n: nat)
    ensures |Students(users, n)| == |StudentIds(users, n)|
  {
    if n > 0 {
      StudentsCount(users, n - 1);
      StudentIdsStep(users, n - 1);
    } else {
      assert StudentIds(users, n) == {};
    }
  }

  /** Under UNIQUE(username) no student is listed twice. */
  lemma {:induction false} StudentsDistinct(users: map<nat, User>, n: nat)
    requires UniqueUsernames(users)
    ensures DistinctNames(Students(users, n))
  {
    if n > 0 {
      StudentsDistinct(users, n - 1);
      var rest := Students(users, n - 1);
      if n - 1 in users && users[n - 1].role == StudentRole {
        forall i | 0 <= i < |rest| ensures rest[i].username != users[n - 1].username {
          assert rest[i] in rest;
          var k :| k < n - 1 && k in users && StandingOf(users[k]) == rest[i];
        }
      }
    }
  }

  /** In a list whose usernames are distinct, no entry occurs twice. */
  lemma {:induction false} DistinctOnce(s: seq<Standing>, x: Standing)
    requires DistinctNames(s)
    ensures multiset(s)[x] <= 1
  {
    if s != [] {
      assert s == [s[0]] + s[1..];
      DistinctOnce(s[1..], x);
      if x == s[0] {
        assert x !in s[1..] by {
          forall j | 0 <= j < |s[1..]| ensures s[1..][j] != x {
            assert s[1..][j] == s[j + 1];
          }
        }
      }
    }
  }

  /** Entries taken from a list with distinct usernames have distinct
      usernames. */
  lemma DistinctSub(r: seq<Standing>, all: seq<Standing>)
    requires multiset(r) <= multiset(all) && DistinctNames(all)
    ensures DistinctNames(r)
  {
    forall i, j | 0 <= i < j < |r| ensures r[i].username != r[j].username {
      var x, y := r[i], r[j];
      assert x in multiset(r) && y in multiset(r);
      if x == y {
        assert r == r[..j] + r[j..];
        assert x in r[..j] && x in r[j..];
        assert multiset(r)[x] == multiset(r[..j])[x] + multiset(r[j..])[x];
        DistinctOnce(all, x);
      } else {
        assert x in all && y in all;
        var p :| 0 <= p < |all| && all[p] == x;
        var q :| 0 <= q < |all| && all[q] == y;
        assert p != q;
      }
    }
  }

  ghost predicate ByPointsDesc(s: seq<Standing>)
  {
    forall i, j :: 0 <= i < j < |s| ==> s[i].points >= s[j].points
  }

  /** A list ordered by points stays ordered with an entry in front that has
      at least the points of every entry of it. */
  lemma ConsByPoints(h: Standing, t: seq<Standing>)
    requires ByPointsDesc(t)
    requires forall y :: y in t ==> y.points <= h.points
    ensures ByPointsDesc([h] + t)
  {
    forall i, j | 0 <= i < j < |[h] + t| ensures ([h] + t)[i].points >= ([h] + t)[j].points {
      assert ([h] + t)[j] == t[j - 1];
      if i > 0 {
        assert ([h] + t)[i] == t[i - 1];
      } else {
        assert t[j - 1] in t;
      }
    }
  }

  /** A bound on `x` and on every entry of `rest` bounds every entry of a list
      holding exactly those. */
  lemma BoundOfMultiset(t: seq<Standing>, rest: seq<Standing>, x: Standing, p: int)
    requires multiset(t) == multiset(rest) + multiset{x}
    requires x.points <= p
    requires forall y :: y in rest ==> y.points <= p
    ensures forall y :: y in t ==> y.points <= p
  {
    forall y | y in t ensures y.points <= p {
      assert y in multiset(t);
      assert y == x || y in multiset(rest);
    }
  }

  /** Inserts `x` into a list ordered by points, before the first entry it is
      not below. */
  function Insert(x: Standing, s: seq<Standing>): (r: seq<Standing>)
    requires ByPointsDesc(s)
    ensures ByPointsDesc(r)
    ensures multiset(r) == multiset(s) + multiset{x}
  {
    if s == [] then [x]
    else if x.points >= s[0].points then
      HeadIsMax(s);
      ConsByPoints(x, s);
      [x] + s
    else
      var t := Insert(x, s[1..]);
      HeadIsMax(s);
      assert s == [s[0]] + s[1..];
      BoundOfMultiset(t, s[1..], x, s[0].points);
      ConsByPoints(s[0], t);
      [s[0]] + t
  }

  /** The head of a list ordered by points has the most points. */
  lemma HeadIsMax(s: seq<Standing>)
    requires ByPointsDesc(s) && s != []
    ensures forall y :: y in s ==> y.points <= s[0].points
    ensures forall y :: y in s[1..] ==> y.points <= s[0].points
  {
    forall y | y in s ensures y.points <= s[0].points {
      var i :| 0 <= i < |s| && s[i] == y;
    }
    forall y | y in s[1..] ensures y.points <= s[0].points {
      var i :| 0 <= i < |s[1..]| && s[1..][i] == y;
      assert s[i + 1] == y;
    }
  }

  /** `ORDER BY points DESC`: the same standings, by points non-increasing
      (ties in an unspecified order). */
  function SortByPoints(s: seq<Standing>): (r: seq<Standing>)
    ensures ByPointsDesc(r)
    ensures multiset(r) == multiset(s)
  {
    if s == [] then []
    else
      assert s == [s[0]] + s[1..];
      Insert(s[0], SortByPoints(s[1..]))
  }

  /** In a list ordered by points, an entry outside the first `m` has no more
      points than any entry inside them. */
  lemma PrefixIsTop(s: seq<Standing>, m: nat)
    requires ByPointsDesc(s) && m <= |s|
    ensures forall x :: x in s && x !in s[..m] ==> forall k :: 0 <= k < m ==> x.points <= s[k].points
  {
    forall x, k | x in s && x !in s[..m] && 0 <= k < m ensures x.points <= s[k].points {
      var i :| 0 <= i < |s| && s[i] == x;
    }
  }

  /** `ORDER BY points DESC LIMIT 10` over the standings `all`: at most ten of
      them, by points non-increasing, and none left out has more points than
      one kept. */
  function Top(all: seq<Standing>): (r: seq<Standing>)
    ensures |r| == if |all| < LeaderboardSize then |all| else LeaderboardSize
    ensures ByPointsDesc(r)
    ensures multiset(r) <= multiset(all)
    ensures forall x :: x in all && x !in r ==> forall k :: 0 <= k < |r| ==> x.points <= r[k].points
  {
    var sorted := SortByPoints(all);
    var m := if |all| < LeaderboardSize then |all| else LeaderboardSize;
    TopOfSorted(all, sorted, m);
    sorted[..m]
  }

  /** The first `m` entries of an ordering of `all` by points are `m` of its
      entries, in order, and none outside them has more points. */
  lemma TopOfSorted(all: seq<Standing>, sorted: seq<Standing>, m: nat)
    requires ByPointsDesc(sorted) && multiset(sorted) == multiset(all) && m <= |all|
    ensures |sorted| == |all| && ByPointsDesc(sorted[..m])
    ensures multiset(sorted[..m]) <= multiset(all)
    ensures forall x :: x in all && x !in sorted[..m] ==> forall k :: 0 <= k < m ==> x.points <= sorted[..m][k].points
  {
    assert |sorted| == |multiset(sorted)|;
    PrefixIsTop(sorted, m);
    PrefixSub(sorted, m);
    SameElements(all, sorted);
  }

  /** A prefix holds no entry more often than the whole list. */
  lemma PrefixSub(s: seq<Standing>, m: nat)
    requires m <= |s|
    ensures multiset(s[..m]) <= multiset(s)
  {
    assert s == s[..m] + s[m..];
  }

  /** Lists with the same multiset have the same entries. */
  lemma SameElements(a: seq<Standing>, b: seq<Standing>)
    requires multiset(a) == multiset(b)
    ensures forall x :: x in a ==> x in b
  {
    forall x | x in a ensures x in b {
      assert x in multiset(a);
    }
  }

  /** The student leaderboard: `WHERE role = 'student' ORDER BY points DESC LIMIT 10`. */
  function Leaderboard(users: map<nat, User>, n: nat): (r: seq<Standing>)
    ensures var all := Students(users, n);
            && |r| == (if |all| < LeaderboardSize then |all| else LeaderboardSize)
            && ByPointsDesc(r)
            && multiset(r) <= multiset(all)
            && forall x :: x in all && x !in r ==> forall k :: 0 <= k < |r| ==> x.points <= r[k].points
    ensures forall x :: x in r ==> x.role == StudentRole
  {
    var all := Students(users, n);
    var r := Top(all);
    assert forall x :: x in r ==> x in all by {
      forall x | x in r ensures x in all {
        assert x in multiset(r);
      }
    }
    r
  }

  /** Under UNIQUE(username) no student appears twice on the leaderboard, and
      it shows ten students, or every student when there are fewer. */
  lemma LeaderboardOncePerStudent(users: map<nat, User>, n: nat)
    requires UniqueUsernames(users)
    ensures var r := Leaderboard(users, n);
            var count := |StudentIds(users, n)|;
            && DistinctNames(r)
            && |r| == if count < LeaderboardSize then count else LeaderboardSize
  {
    StudentsDistinct(users, n);
    StudentsCount(users, n);
    DistinctSub(Leaderboard(users, n), Students(users, n));
  }

  // ---------------------------------------------------------------- login

  predicate HasCredentials(u: User, username: string, password: string)
  {
    u.username == username && u.password == password
  }

  /** `SELECT * FROM users WHERE username = %s AND password = %s`, first row:
      the id of a user with exactly these credentials, or None if there is none. */
  function Login(users: map<nat, User>, n: nat, username: string, password: string): (r: Option<nat>)
    ensures r.Some? ==> r.value < n && r.value in users && HasCredentials(users[r.value], username, password)
    ensures r.None? <==> forall k :: k < n && k in users ==> !HasCredentials(users[k], username, password)
  {
    Tables.FirstMatch(users, n, (u: User) => HasCredentials(u, username, password))
  }

  /** Under the UNIQUE constraint on usernames, a successful login names the
      only account with those credentials. */
  lemma LoginUnique(users: map<nat, User>, n: nat, username: string, password: string, k: nat)
    requires UniqueUsernames(users)
    requires k in users && HasCredentials(users[k], username, password)
    requires k < n
    ensures Login(users, n, username, password) == Some(k)
  {
  }
}
