/** Properties of the task claim of `POST /api/task`, across one call and across two
    sequential calls. */
module Claims {
  import opened Schema
  import opened Handlers

  /** The lookup before the insert keeps "at most one completion row per (user, date)",
      although the `tasks` table does not declare it. */
  lemma ClaimKeepsUniqueCompletions(tasks: seq<TaskRow>, rewards: seq<RewardRow>, session: Option<int>,
                                    today: int, now: int, isoDate: int -> string, fault: ClaimFault)
    requires UniqueCompletions(tasks)
    ensures UniqueCompletions(Claim(tasks, rewards, session, today, now, isoDate, fault).tasks)
  {
    var r := Claim(tasks, rewards, session, today, now, isoDate, fault);
    if r.tasks != tasks {
      var uid := session.value;
      assert !Completed(tasks, uid, today);
      assert r.tasks == tasks + [TaskRow(|tasks| + 1, uid, today, 1)];
      forall i, j | 0 <= i < j < |r.tasks|
        ensures r.tasks[i].userId != r.tasks[j].userId || r.tasks[i].date != r.tasks[j].date
      {
        if j == |tasks| {
          assert r.tasks[i] == tasks[i];
        }
      }
    }
  }

  /** A claim appends at most one row to each table, with the next AUTOINCREMENT id. */
  lemma ClaimKeepsKeys(tasks: seq<TaskRow>, rewards: seq<RewardRow>, session: Option<int>,
                       today: int, now: int, isoDate: int -> string, fault: ClaimFault)
    requires TaskIds(tasks) && RewardIds(rewards)
    ensures var r := Claim(tasks, rewards, session, today, now, isoDate, fault);
            TaskIds(r.tasks) && RewardIds(r.rewards)
            && tasks <= r.tasks && |r.tasks| <= |tasks| + 1
            && rewards <= r.rewards && |r.rewards| <= |rewards| + 1
  {
  }

  /** A claim leaves every other user's task and reward rows as they were. */
  lemma {:induction false} ClaimTouchesOnlyClaimant(tasks: seq<TaskRow>, rewards: seq<RewardRow>, session: Option<int>,
                                                    today: int, now: int, isoDate: int -> string, fault: ClaimFault,
                                                    other: int)
    requires session != Some(other)
    ensures var r := Claim(tasks, rewards, session, today, now, isoDate, fault);
            && RowsOf(r.tasks, TaskOwner, other) == RowsOf(tasks, TaskOwner, other)
            && RowsOf(r.rewards, RewardOwner, other) == RowsOf(rewards, RewardOwner, other)
  {
    var r := Claim(tasks, rewards, session, today, now, isoDate, fault);
    if r.tasks != tasks {
      RowsOfAppend(tasks, TaskRow(|tasks| + 1, session.value, today, 1), TaskOwner, other);
    }
    if r.rewards != rewards {
      RowsOfAppend(rewards, r.rewards[|rewards|], RewardOwner, other);
      assert r.rewards == rewards + [r.rewards[|rewards|]];
    }
  }

  /** Two sequential claims by the same user on the same day: the second one changes
      nothing and answers "Already completed today"; together they leave exactly one
      completion row for the day and at most one new reward. */
  lemma {:induction false} ClaimTwiceIsClaimOnce(tasks: seq<TaskRow>, rewards: seq<RewardRow>, session: Option<int>,
                                                 today: int, now1: int, now2: int, isoDate: int -> string,
                                                 fault2: ClaimFault)
    requires SessionUser(session).Some?
    requires UniqueCompletions(tasks)
    requires fault2 != LookupFails
    ensures var r1 := Claim(tasks, rewards, session, today, now1, isoDate, NoFault);
            var r2 := Claim(r1.tasks, r1.rewards, session, today, now2, isoDate, fault2);
            && r2 == Claimed(r1.tasks, r1.rewards, AlreadyDone)
            && CompletionCount(r2.tasks, session.value, today) == 1
            && RowsOf(r2.rewards, RewardOwner, session.value) ==
                 RowsOf(rewards, RewardOwner, session.value) +
                 (if Completed(tasks, session.value, today) then []
                  else [RewardRow(|rewards| + 1, session.value, RewardText(isoDate(today)), now1)])
  {
    var uid := session.value;
    var r1 := Claim(tasks, rewards, session, today, now1, isoDate, NoFault);
    if Completed(tasks, uid, today) {
      UniqueMeansAtMostOne(tasks, uid, today);
    } else {
      var row := TaskRow(|tasks| + 1, uid, today, 1);
      assert r1.tasks == tasks + [row];
      assert r1.tasks[|tasks|] == row;
      assert Completed(r1.tasks, uid, today);
      CompletionCountAppend(tasks, row, uid, today);
      RowsOfAppend(rewards, RewardRow(|rewards| + 1, uid, RewardText(isoDate(today)), now1), RewardOwner, uid);
    }
  }

  /** The completion row and the reward row are inserted by two separate statements: when
      the reward insert fails, the completion row stays, and every later claim that day
      answers "Already completed today" without creating the reward. */
  lemma {:induction false} RewardLostAfterFailedInsert(tasks: seq<TaskRow>, rewards: seq<RewardRow>, session: Option<int>,
                                                       today: int, now1: int, now2: int, isoDate: int -> string,
                                                       fault2: ClaimFault)
    requires SessionUser(session).Some? && !Completed(tasks, session.value, today)
    requires fault2 != LookupFails
    ensures var r1 := Claim(tasks, rewards, session, today, now1, isoDate, RewardInsertFails);
            var r2 := Claim(r1.tasks, r1.rewards, session, today, now2, isoDate, fault2);
            && r1.resp == DbInsertError && Completed(r1.tasks, session.value, today) && r1.rewards == rewards
            && r2 == Claimed(r1.tasks, rewards, AlreadyDone)
  {
    var r1 := Claim(tasks, rewards, session, today, now1, isoDate, RewardInsertFails);
    assert r1.tasks[|tasks|] == TaskRow(|tasks| + 1, session.value, today, 1);
  }
}
