/** The four SQLite tables of the habit tracker, held in memory as sequences of rows in
    id order, the queries the handlers run on them, and the invariants the store keeps. */
module Schema {

  datatype Option<+T> = None | Some(value: T)

  /** A row of `users`; `password` holds the bcrypt hash, never the password itself. */
  datatype User = User(id: int, username: string, password: string)

  /** A row of `tasks`: one claimed task of the day. `date` is a day number. */
  datatype TaskRow = TaskRow(id: int, userId: int, date: int, done: int)

  /** A row of `rewards`; `createdAt` is the abstract CURRENT_TIMESTAMP of the insert. */
  datatype RewardRow = RewardRow(id: int, userId: int, reward: string, createdAt: int)

  /** A row of `tips`. */
  datatype TipRow = TipRow(id: int, tip: string)

  datatype Tables = Tables(users: seq<User>, tasks: seq<TaskRow>, rewards: seq<RewardRow>, tips: seq<TipRow>)

  // AUTOINCREMENT keys on tables that have no delete path: the k-th row inserted has id k + 1.

  ghost predicate UserIds(users: seq<User>) {
    forall k :: 0 <= k < |users| ==> users[k].id == k + 1
  }

  ghost predicate TaskIds(tasks: seq<TaskRow>) {
    forall k :: 0 <= k < |tasks| ==> tasks[k].id == k + 1
  }

  ghost predicate RewardIds(rewards: seq<RewardRow>) {
    forall k :: 0 <= k < |rewards| ==> rewards[k].id == k + 1
  }

  ghost predicate TipIds(tips: seq<TipRow>) {
    forall k :: 0 <= k < |tips| ==> tips[k].id == k + 1
  }

  /** The UNIQUE constraint on `users.username`. */
  ghost predicate UniqueUsernames(users: seq<User>) {
    forall i, j :: 0 <= i < j < |users| ==> users[i].username != users[j].username
  }

  /** What the store itself guarantees: keys and the declared uniqueness constraint. */
  ghost predicate WellFormed(db: Tables) {
    && UserIds(db.users)
    && TaskIds(db.tasks)
    && RewardIds(db.rewards)
    && TipIds(db.tips)
    && UniqueUsernames(db.users)
  }

  /** At most one completion row per (user, date). `tasks` declares no such constraint:
      only the lookup-before-insert of the claim handler keeps it. */
  ghost predicate UniqueCompletions(tasks: seq<TaskRow>) {
    forall i, j :: 0 <= i < j < |tasks| ==>
      tasks[i].userId != tasks[j].userId || tasks[i].date != tasks[j].date
  }

  ghost predicate Completed(tasks: seq<TaskRow>, userId: int, date: int) {
    exists k :: 0 <= k < |tasks| && tasks[k].userId == userId && tasks[k].date == date
  }

  /** `SELECT * FROM users WHERE username = ?` (the first matching row). */
  function FindUserByName(users: seq<User>, name: string): (r: Option<User>)
    ensures r.Some? ==> r.value in users && r.value.username == name
    ensures r.None? ==> forall u :: u in users ==> u.username != name
  {
    if users == [] then None
    else if users[0].username == name then Some(users[0])
    else FindUserByName(users[1..], name)
  }

  /** `SELECT id, username FROM users WHERE id = ?`. */
  function FindUserById(users: seq<User>, id: int): (r: Option<User>)
    ensures r.Some? ==> r.value in users && r.value.id == id
    ensures r.None? ==> forall u :: u in users ==> u.id != id
  {
    if users == [] then None
    else if users[0].id == id then Some(users[0])
    else FindUserById(users[1..], id)
  }

  /** `SELECT * FROM tasks WHERE user_id = ? AND date = ?` (the first matching row). */
  function FindCompletion(tasks: seq<TaskRow>, userId: int, date: int): (r: Option<TaskRow>)
    ensures r.Some? <==> Completed(tasks, userId, date)
    ensures r.Some? ==> r.value in tasks && r.value.userId == userId && r.value.date == date
  {
    if tasks == [] then None
    else if tasks[0].userId == userId && tasks[0].date == date then Some(tasks[0])
    else
      var r := FindCompletion(tasks[1..], userId, date);
      assert Completed(tasks, userId, date) ==> Completed(tasks[1..], userId, date) by {
        if Completed(tasks, userId, date) {
          var k :| 0 <= k < |tasks| && tasks[k].userId == userId && tasks[k].date == date;
          assert tasks[1..][k - 1] == tasks[k];
        }
      }
      assert Completed(tasks[1..], userId, date) ==> Completed(tasks, userId, date) by {
        if Completed(tasks[1..], userId, date) {
          var k :| 0 <= k < |tasks[1..]| && tasks[1..][k].userId == userId && tasks[1..][k].date == date;
          assert tasks[k + 1] == tasks[1..][k];
        }
      }
      r
  }

  /** `SELECT date FROM tasks WHERE user_id = ? AND date >= ?`, gathered into a set. */
  function DoneDatesFrom(tasks: seq<TaskRow>, userId: int, from: int): (dates: set<int>)
    ensures forall d :: d in dates <==> d >= from && Completed(tasks, userId, d)
  {
    set k | 0 <= k < |tasks| && tasks[k].userId == userId && tasks[k].date >= from :: tasks[k].date
  }

  /** Number of completion rows for (user, date). */
  function CompletionCount(tasks: seq<TaskRow>, userId: int, date: int): (n: nat)
    ensures n <= |tasks|
    ensures n == 0 <==> !Completed(tasks, userId, date)
  {
    if tasks == [] then 0
    else
      var rest := CompletionCount(tasks[1..], userId, date);
      assert Completed(tasks, userId, date) <==>
        (tasks[0].userId == userId && tasks[0].date == date) || Completed(tasks[1..], userId, date) by {
        if Completed(tasks, userId, date) {
          var k :| 0 <= k < |tasks| && tasks[k].userId == userId && tasks[k].date == date;
          if k > 0 { assert tasks[1..][k - 1] == tasks[k]; }
        }
        if Completed(tasks[1..], userId, date) {
          var k :| 0 <= k < |tasks[1..]| && tasks[1..][k].userId == userId && tasks[1..][k].date == date;
          assert tasks[k + 1] == tasks[1..][k];
        }
      }
      (if tasks[0].userId == userId && tasks[0].date == date then 1 else 0) + rest
  }

  /** The owner column of each table a user's rows are selected from. */
  function RewardOwner(r: RewardRow): int { r.userId }

  function TaskOwner(t: TaskRow): int { t.userId }

  /** The rows of one user, in table order: `... WHERE user_id = ?`. */
  function RowsOf<R(==,!new)>(rows: seq<R>, owner: R -> int, userId: int): (mine: seq<R>)
    ensures |mine| <= |rows|
    ensures forall x :: x in mine <==> x in rows && owner(x) == userId
  {
    if rows == [] then []
    else
      var rest := RowsOf(rows[1..], owner, userId);
      assert forall x :: x in rows <==> x == rows[0] || x in rows[1..];
      if owner(rows[0]) == userId then [rows[0]] + rest else rest
  }

  lemma {:induction false} RowsOfAppend<R(!new)>(rows: seq<R>, extra: R, owner: R -> int, userId: int)
    ensures RowsOf(rows + [extra], owner, userId) ==
            RowsOf(rows, owner, userId) + (if owner(extra) == userId then [extra] else [])
  {
    if rows == [] {
      assert [extra][1..] == [];
    } else {
      assert (rows + [extra])[1..] == rows[1..] + [extra];
      RowsOfAppend(rows[1..], extra, owner, userId);
    }
  }

  lemma {:induction false} CompletionCountAppend(tasks: seq<TaskRow>, extra: TaskRow, userId: int, date: int)
    ensures CompletionCount(tasks + [extra], userId, date) ==
            CompletionCount(tasks, userId, date) + (if extra.userId == userId && extra.date == date then 1 else 0)
  {
    if tasks == [] {
      assert [extra][1..] == [];
    } else {
      assert (tasks + [extra])[1..] == tasks[1..] + [extra];
      CompletionCountAppend(tasks[1..], extra, userId, date);
    }
  }

  /** With the uniqueness invariant, a (user, date) pair has one completion row or none. */
  lemma {:induction false} UniqueMeansAtMostOne(tasks: seq<TaskRow>, userId: int, date: int)
    requires UniqueCompletions(tasks)
    ensures CompletionCount(tasks, userId, date) <= 1
  {
    if tasks != [] {
      assert UniqueCompletions(tasks[1..]) by {
        forall i, j | 0 <= i < j < |tasks[1..]|
          ensures tasks[1..][i].userId != tasks[1..][j].userId || tasks[1..][i].date != tasks[1..][j].date
        {
          assert tasks[1..][i] == tasks[i + 1] && tasks[1..][j] == tasks[j + 1];
        }
      }
      UniqueMeansAtMostOne(tasks[1..], userId, date);
      if tasks[0].userId == userId && tasks[0].date == date {
        forall k | 0 <= k < |tasks[1..]|
          ensures tasks[1..][k].userId != userId || tasks[1..][k].date != date
        {
          assert tasks[1..][k] == tasks[k + 1];
        }
      }
    }
  }
}
