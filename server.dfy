/** The running server: the four tables and one client's session as fields that the
    handlers update in place. Each state-changing handler is proved against its function
    in `Handlers`; the streak handler builds its window with the source's countdown loop. */
module Server {
  import opened Schema
  import opened Daily
  import opened Streak
  import opened Handlers

  class App {
    /** bcrypt's hash, supplied from outside. */
    const hash: string -> string
    /** `toISOString().slice(0, 10)` of a day number, supplied from outside. */
    const isoDate: int -> string

    var users: seq<User>
    var tasks: seq<TaskRow>
    var rewards: seq<RewardRow>
    var tips: seq<TipRow>
    /** `req.session.userId`. */
    var session: Option<int>

    function Db(): Tables
      reads this
    {
      Tables(users, tasks, rewards, tips)
    }

    ghost predicate Valid()
      reads this
    {
      WellFormed(Db())
    }

    /** The tables as `CREATE TABLE IF NOT EXISTS` leaves them on a new database file,
        before the tip catalog is seeded. */
    constructor (hash: string -> string, isoDate: int -> string)
      ensures Valid()
      ensures this.hash == hash && this.isoDate == isoDate
      ensures Db() == Tables([], [], [], []) && session == None
    {
      this.hash := hash;
      this.isoDate := isoDate;
      users, tasks, rewards, tips := [], [], [], [];
      session := None;
    }

    /** Startup seeding: when the count query succeeds and finds no tips, the catalog is
        inserted row by row, in order. */
    method Seed(countFails: bool)
      requires Valid()
      modifies this`tips
      ensures Valid()
      ensures tips == Seeded(old(tips), countFails)
    {
      if countFails || |tips| != 0 {
        return;
      }
      var k := 0;
      while k < |SeedTips|
        invariant 0 <= k <= |SeedTips|
        invariant tips == SeedRows()[..k]
      {
        tips := tips + [TipRow(|tips| + 1, SeedTips[k])];
        k := k + 1;
      }
    }

    method Signup(username: Option<string>, password: Option<string>, insertFails: bool) returns (resp: Response)
      requires Valid()
      modifies this`users, this`session
      ensures Valid()
      ensures Auth(users, session, resp) ==
              Handlers.Signup(old(users), old(session), username, password, hash, insertFails)
    {
      if !Present(username) || !Present(password) {
        return MissingFields;
      }
      var hashed := hash(password.value);
      if insertFails || FindUserByName(users, username.value).Some? {
        return DuplicateUsername;
      }
      SignupKeepsUsersWellFormed(users, session, username, password, hash, insertFails);
      users := users + [User(|users| + 1, username.value, hashed)];
      session := Some(|users|);
      resp := Success;
    }

    method Login(username: Option<string>, password: Option<string>, queryFails: bool) returns (resp: Response)
      requires Valid()
      modifies this`session
      ensures Valid()
      ensures Auth(users, session, resp) ==
              Handlers.Login(users, old(session), username, password, hash, queryFails)
    {
      if !Present(username) || !Present(password) {
        return MissingFields;
      }
      if queryFails {
        return DbError;
      }
      var user := FindUserByName(users, username.value);
      if user.None? {
        return InvalidCredentials;
      }
      if user.value.password != hash(password.value) {
        return InvalidCredentials;
      }
      session := Some(user.value.id);
      resp := Success;
    }

    method Logout(destroyFails: bool) returns (resp: Response)
      requires Valid()
      modifies this`session
      ensures Valid()
      ensures Ended(session, resp) == Handlers.Logout(old(session), destroyFails)
    {
      if destroyFails {
        return LogoutError;
      }
      session := None;
      resp := Success;
    }

    /** `POST /api/task` on day `today`, at time `now`. */
    method ClaimTask(today: int, now: int, fault: ClaimFault) returns (resp: Response)
      requires Valid()
      modifies this`tasks, this`rewards
      ensures Valid()
      ensures Claimed(tasks, rewards, resp) ==
              Claim(old(tasks), old(rewards), session, today, now, isoDate, fault)
    {
      var uid := SessionUser(session);
      if uid.None? {
        return NotLoggedIn;
      }
      if fault == LookupFails {
        return DbError;
      }
      var row := FindCompletion(tasks, uid.value, today);
      if row.Some? {
        return AlreadyDone;
      }
      if fault == TaskInsertFails {
        return DbInsertError;
      }
      tasks := tasks + [TaskRow(|tasks| + 1, uid.value, today, 1)];
      var text := RewardText(isoDate(today));
      if fault == RewardInsertFails {
        return DbInsertError;
      }
      rewards := rewards + [RewardRow(|rewards| + 1, uid.value, text, now)];
      resp := Response(200, DoneWithReward(text));
    }

    /** `GET /api/streak?days=...` on day `today`: the last DAYS days, oldest first, and
        for each a flag that is 1 exactly when the user completed the task that day. */
    method StreakView(today: int, daysQuery: Option<int>, queryFails: bool) returns (resp: Response)
      ensures SessionUser(session).None? ==> resp == NotLoggedIn
      ensures SessionUser(session).Some? && queryFails ==> resp == DbError
      ensures SessionUser(session).Some? && !queryFails ==>
                && resp.status == 200 && resp.body.StreakData?
                && resp.body.labels == Window(today, WindowLength(DaysParam(daysQuery)))
                && |resp.body.values| == |resp.body.labels|
                && forall k :: 0 <= k < |resp.body.labels| ==>
                     (resp.body.values[k] == 1 <==> Completed(tasks, session.value, resp.body.labels[k])) &&
                     (resp.body.values[k] == 0 <==> !Completed(tasks, session.value, resp.body.labels[k]))
    {
      var uid := SessionUser(session);
      if uid.None? {
        return NotLoggedIn;
      }
      var days := DaysParam(daysQuery);
      var labels: seq<int> := [];
      var i := days - 1;
      while i >= 0
        invariant i <= days - 1
        invariant days > 0 ==> i >= -1
        invariant days <= 0 ==> i == days - 1
        invariant |labels| == days - 1 - i
        invariant forall k :: 0 <= k < |labels| ==> labels[k] == today - (days - 1) + k
      {
        labels := labels + [today - i];
        i := i - 1;
      }
      assert |labels| == WindowLength(days);
      assert labels == Window(today, WindowLength(days)) by {
        var w := Window(today, WindowLength(days));
        forall k | 0 <= k < |labels| ensures labels[k] == w[k] {
        }
      }
      if queryFails {
        return DbError;
      }
      if labels == [] {
        return Response(200, StreakData([], []));
      }
      var done := DoneDatesFrom(tasks, uid.value, labels[0]);
      var values := Flags(labels, done);
      FlagsMeanCompletion(tasks, uid.value, labels);
      resp := Response(200, StreakData(labels, values));
    }
  }
}
